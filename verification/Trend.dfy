/**
 The linear trends among the aggregations (helpers/Aggregations.hpp), over exact reals with null: the
 value at 0 of the line that fits the non-null values best, unweighted or with weights that depend on the
 first elements.
 */
module Trend {
  import opened Wrappers

  function Plus(a: Float, b: Float): Float {
    if a.Some? && b.Some? then Some(a.value + b.value) else None
  }

  function Minus(a: Float, b: Float): Float {
    if a.Some? && b.Some? then Some(a.value - b.value) else None
  }

  function Product(x: real, y: real): real { x * y }

  function Times(a: Float, b: Float): Float {
    if a.Some? && b.Some? then Some(Product(a.value, b.value)) else None
  }

  /** Division, which the source does only by numbers other than 0. */
  function Over(a: Float, b: Float): Float
    requires b != Some(0.0)
  {
    if a.Some? && b.Some? then Some(a.value / b.value) else None
  }

  datatype Pair = Pair(first: Float, second: Float)

  // ------------------------------------------------------------------------
  // Aggregations.

  /** The sum of all non-null entries. */
  function Sum(xs: seq<Float>): real {
    if xs == [] then 0.0
    else Sum(xs[..|xs| - 1]) + if xs[|xs| - 1].Some? then xs[|xs| - 1].value else 0.0
  }

  function Count(xs: seq<Float>): (n: real)
    ensures n >= 0.0
  {
    if xs == [] then 0.0
    else Count(xs[..|xs| - 1]) + if xs[|xs| - 1].Some? then 1.0 else 0.0
  }

  function Avg(xs: seq<Float>): Float {
    if Count(xs) == 0.0 then None else Some(Sum(xs) / Count(xs))
  }

  /** std::accumulate, which does not skip nulls. */
  function Accumulate(ps: seq<Pair>, f: Pair -> Float): Float {
    if ps == [] then Some(0.0) else Plus(Accumulate(ps[..|ps| - 1], f), f(ps[|ps| - 1]))
  }

  function Map(ps: seq<Pair>, f: Pair -> Float): (xs: seq<Float>)
    ensures |xs| == |ps| && forall i | 0 <= i < |ps| :: xs[i] == f(ps[i])
  {
    seq(|ps|, i requires 0 <= i < |ps| => f(ps[i]))
  }

  /** The pairs whose second element is not null. */
  function NotNull(ps: seq<Pair>): (r: seq<Pair>)
    ensures forall i | 0 <= i < |r| :: r[i].second.Some?
  {
    if ps == [] then []
    else NotNull(ps[..|ps| - 1]) + if ps[|ps| - 1].second.Some? then [ps[|ps| - 1]] else []
  }

  /** The value at 0 of a line through the means. */
  function AtZero(meanX: Float, meanY: Float, xx: Float, xy: Float): Float {
    if xx == Some(0.0) then meanY else Minus(meanY, Times(meanX, Over(xy, xx)))
  }

  // The closures of the two aggregations.

  function First(): Pair -> Float { (p: Pair) => p.first }

  function Second(): Pair -> Float { (p: Pair) => p.second }

  function SquaredX(meanX: Float): Pair -> Float {
    (p: Pair) => Times(Minus(p.first, meanX), Minus(p.first, meanX))
  }

  function CrossXY(meanX: Float, meanY: Float): Pair -> Float {
    (p: Pair) => Times(Minus(p.first, meanX), Minus(p.second, meanY))
  }

  function Trend(ps: seq<Pair>): Float {
    var range := NotNull(ps);
    var meanX := Avg(Map(range, First()));
    var meanY := Avg(Map(range, Second()));
    AtZero(meanX, meanY, Accumulate(range, SquaredX(meanX)), Accumulate(range, CrossXY(meanX, meanY)))
  }

  /** exp(log(0.5) * first / half_life): some weight for every number, and null for null. */
  function Weight(weight: real -> real): Pair -> Float {
    (p: Pair) => if p.first.Some? then Some(weight(p.first.value)) else None
  }

  /** A closure times the weight. */
  function Weighted(f: Pair -> Float, weight: real -> real): Pair -> Float {
    (p: Pair) => Times(f(p), Weight(weight)(p))
  }

  function EwmaTrend(ps: seq<Pair>, weight: real -> real): Float {
    var range := NotNull(ps);
    var sumWeights := Sum(Map(range, Weight(weight)));
    if sumWeights == 0.0 then None
    else
      var meanX := Some(Sum(Map(range, Weighted(First(), weight))) / sumWeights);
      var meanY := Some(Sum(Map(range, Weighted(Second(), weight))) / sumWeights);
      AtZero(meanX, meanY, Accumulate(range, Weighted(SquaredX(meanX), weight)),
             Accumulate(range, Weighted(CrossXY(meanX, meanY), weight)))
  }

  // ------------------------------------------------------------------------
  // Laws of products. The proofs below use these instead of nonlinear arithmetic.

  ghost function Square(x: real): real { Product(x, x) }

  lemma Commutes(x: real, y: real)
    ensures Product(x, y) == Product(y, x)
  {
  }

  lemma Associates(x: real, y: real, z: real)
    ensures Product(Product(x, y), z) == Product(x, Product(y, z))
  {
  }

  lemma Distributes(x: real, y: real, z: real)
    ensures Product(x, y + z) == Product(x, y) + Product(x, z)
    ensures Product(x, y - z) == Product(x, y) - Product(x, z)
  {
  }

  /** The first factor moves to the front. */
  lemma Moves(x: real, y: real, z: real)
    ensures Product(x, Product(y, z)) == Product(y, Product(x, z))
  {
    Associates(x, y, z);
    Associates(y, x, z);
    Commutes(x, y);
  }

  lemma ProductPositive(x: real, y: real)
    requires x > 0.0 && y > 0.0
    ensures Product(x, y) > 0.0
  {
  }

  lemma ProductNegated(x: real, y: real)
    ensures Product(-x, -y) == Product(x, y)
  {
  }

  lemma SquarePositive(x: real)
    ensures if x == 0.0 then Square(x) == 0.0 else Square(x) > 0.0
  {
    if x > 0.0 {
      ProductPositive(x, x);
    } else if x < 0.0 {
      ProductPositive(-x, -x);
      ProductNegated(x, x);
    }
  }

  /** w (r - q)^2 = w r^2 + w q^2 - 2 (w r) q */
  lemma SquareOfDifference(w: real, r: real, q: real)
    ensures Product(w, Square(r - q)) == Product(w, Square(r)) + Product(w, Square(q)) - 2.0 * Product(Product(w, r), q)
  {
    Distributes(r - q, r, q);
    Commutes(r - q, r);
    Commutes(r - q, q);
    Distributes(r, r, q);
    Distributes(q, r, q);
    Commutes(q, r);
    var s := Product(r, q);
    assert Square(r - q) == (Square(r) + Square(q)) - (s + s);
    Distributes(w, Square(r) + Square(q), s + s);
    Distributes(w, Square(r), Square(q));
    Distributes(w, s, s);
    Associates(w, r, q);
  }

  // ------------------------------------------------------------------------
  // Weighted least squares over reals.

  datatype Point = Point(x: real, y: real, w: real)

  function Total(ps: seq<Point>, f: Point -> real): real {
    if ps == [] then 0.0 else Total(ps[..|ps| - 1], f) + f(ps[|ps| - 1])
  }

  ghost predicate Positive(ps: seq<Point>) { forall i | 0 <= i < |ps| :: ps[i].w > 0.0 }

  ghost function Residual(p: Point, a: real, b: real): real { p.y - a - Product(b, p.x) }

  // The terms of the sums below.

  ghost function SquaredResidual(a: real, b: real): Point -> real {
    (p: Point) => Product(p.w, Square(Residual(p, a, b)))
  }

  ghost function WeightedResidual(a: real, b: real): Point -> real {
    (p: Point) => Product(p.w, Residual(p, a, b))
  }

  ghost function ResidualTimesX(a: real, b: real): Point -> real {
    (p: Point) => Product(Product(p.w, Residual(p, a, b)), p.x)
  }

  ghost function SquaredMove(c: real, d: real): Point -> real {
    (p: Point) => Product(p.w, Square(c + Product(d, p.x)))
  }

  /** The weighted sum of the squared residuals of the line a + b x. */
  ghost function Squares(ps: seq<Point>, a: real, b: real): real {
    Total(ps, SquaredResidual(a, b))
  }

  /** No line has a smaller sum of squared residuals. */
  ghost predicate Best(ps: seq<Point>, a: real, b: real) {
    forall c, d :: Squares(ps, a, b) <= Squares(ps, c, d)
  }

  /** h = f - c g */
  ghost predicate Less(h: Point -> real, f: Point -> real, c: real, g: Point -> real, p: Point) {
    h(p) == f(p) - Product(c, g(p))
  }

  lemma {:induction false} TotalLess(ps: seq<Point>, h: Point -> real, f: Point -> real, c: real, g: Point -> real)
    requires forall i | 0 <= i < |ps| :: Less(h, f, c, g, ps[i])
    ensures Total(ps, h) == Total(ps, f) - Product(c, Total(ps, g))
  {
    if ps != [] {
      var last := |ps| - 1;
      assert Less(h, f, c, g, ps[last]);
      TotalLess(ps[..last], h, f, c, g);
      Distributes(c, Total(ps[..last], g), g(ps[last]));
    } else {
      Distributes(c, 0.0, 0.0);
    }
  }

  lemma {:induction false} TotalNonNegative(ps: seq<Point>, f: Point -> real)
    requires forall i | 0 <= i < |ps| :: f(ps[i]) >= 0.0
    ensures Total(ps, f) >= 0.0
    ensures Total(ps, f) == 0.0 ==> forall i | 0 <= i < |ps| :: f(ps[i]) == 0.0
  {
    if ps != [] {
      var last := |ps| - 1;
      TotalNonNegative(ps[..last], f);
      if Total(ps, f) == 0.0 {
        forall i | 0 <= i < |ps| ensures f(ps[i]) == 0.0 {
          assert i < last ==> ps[..last][i] == ps[i];
        }
      }
    }
  }

  /** The normal equations: the residuals are orthogonal to 1 and to x. */
  ghost predicate Normal(ps: seq<Point>, a: real, b: real) {
    Total(ps, WeightedResidual(a, b)) == 0.0 && Total(ps, ResidualTimesX(a, b)) == 0.0
  }

  /** The mixed term of a move c + d x. */
  ghost function Mixed(a: real, b: real, c: real, d: real): Point -> real {
    (p: Point) => Product(Product(p.w, Residual(p, a, b)), c + Product(d, p.x))
  }

  lemma MixedTerm(p: Point, a: real, b: real, c: real, d: real)
    ensures Mixed(a, b, c, d)(p) == Product(c, WeightedResidual(a, b)(p)) + Product(d, ResidualTimesX(a, b)(p))
  {
    var t := Product(p.w, Residual(p, a, b));
    Distributes(t, c, Product(d, p.x));
    Commutes(t, c);
    Moves(t, d, p.x);
  }

  lemma SquareOfOther(p: Point, a: real, b: real, c: real, d: real)
    ensures SquaredResidual(a + c, b + d)(p)
        == SquaredResidual(a, b)(p) + SquaredMove(c, d)(p) - 2.0 * Mixed(a, b, c, d)(p)
  {
    var r, q := Residual(p, a, b), c + Product(d, p.x);
    Commutes(b + d, p.x);
    Distributes(p.x, b, d);
    Commutes(p.x, b);
    Commutes(p.x, d);
    assert Residual(p, a + c, b + d) == r - q;
    SquareOfDifference(p.w, r, q);
  }

  lemma {:induction false} TotalMixed(ps: seq<Point>, a: real, b: real, c: real, d: real)
    ensures Total(ps, Mixed(a, b, c, d))
            == Product(c, Total(ps, WeightedResidual(a, b))) + Product(d, Total(ps, ResidualTimesX(a, b)))
  {
    if ps != [] {
      var last := |ps| - 1;
      TotalMixed(ps[..last], a, b, c, d);
      MixedTerm(ps[last], a, b, c, d);
      Distributes(c, Total(ps[..last], WeightedResidual(a, b)), WeightedResidual(a, b)(ps[last]));
      Distributes(d, Total(ps[..last], ResidualTimesX(a, b)), ResidualTimesX(a, b)(ps[last]));
    } else {
      Distributes(c, 0.0, 0.0);
      Distributes(d, 0.0, 0.0);
    }
  }

  lemma {:induction false} SquaresOfMoved(ps: seq<Point>, a: real, b: real, c: real, d: real)
    ensures Squares(ps, a + c, b + d)
        == Squares(ps, a, b) + Total(ps, SquaredMove(c, d)) - 2.0 * Total(ps, Mixed(a, b, c, d))
  {
    if ps != [] {
      SquaresOfMoved(ps[..|ps| - 1], a, b, c, d);
      SquareOfOther(ps[|ps| - 1], a, b, c, d);
    }
  }

  /** How much worse another line is than one with the normal equations. */
  lemma SquaresOfOther(ps: seq<Point>, a: real, b: real, c: real, d: real)
    requires Normal(ps, a, b)
    ensures Squares(ps, c, d) == Squares(ps, a, b) + Total(ps, SquaredMove(c - a, d - b))
  {
    SquaresOfMoved(ps, a, b, c - a, d - b);
    TotalMixed(ps, a, b, c - a, d - b);
    Distributes(c - a, 0.0, 0.0);
    Distributes(d - b, 0.0, 0.0);
    assert a + (c - a) == c && b + (d - b) == d;
  }

  lemma MovesNonNegative(ps: seq<Point>, c: real, d: real)
    requires Positive(ps)
    ensures Total(ps, SquaredMove(c, d)) >= 0.0
    ensures Total(ps, SquaredMove(c, d)) == 0.0 ==> forall i | 0 <= i < |ps| :: c + Product(d, ps[i].x) == 0.0
  {
    forall i | 0 <= i < |ps|
      ensures SquaredMove(c, d)(ps[i]) >= 0.0 && (SquaredMove(c, d)(ps[i]) == 0.0 ==> c + Product(d, ps[i].x) == 0.0)
    {
      WeightedSquare(ps[i].w, c + Product(d, ps[i].x));
    }
    TotalNonNegative(ps, SquaredMove(c, d));
  }

  lemma WeightedSquare(w: real, x: real)
    requires w > 0.0
    ensures if x == 0.0 then Product(w, Square(x)) == 0.0 else Product(w, Square(x)) > 0.0
  {
    SquarePositive(x);
    if x == 0.0 {
      Distributes(w, 0.0, 0.0);
    } else {
      ProductPositive(w, Square(x));
    }
  }

  lemma NormalIsBest(ps: seq<Point>, a: real, b: real)
    requires Positive(ps) && Normal(ps, a, b)
    ensures Best(ps, a, b)
  {
    forall c, d ensures Squares(ps, a, b) <= Squares(ps, c, d) {
      SquaresOfOther(ps, a, b, c, d);
      MovesNonNegative(ps, c - a, d - b);
    }
  }

  // ------------------------------------------------------------------------
  // The line through the means.

  ghost function One(): Point -> real { (p: Point) => p.w }

  ghost function X(): Point -> real { (p: Point) => Product(p.x, p.w) }

  ghost function Y(): Point -> real { (p: Point) => Product(p.y, p.w) }

  ghost function CenteredX(m: real): Point -> real { (p: Point) => Product(p.w, p.x - m) }

  ghost function CenteredY(n: real): Point -> real { (p: Point) => Product(p.w, p.y - n) }

  ghost function XX(m: real): Point -> real { (p: Point) => Product(Product(p.x - m, p.x - m), p.w) }

  ghost function XY(m: real, n: real): Point -> real { (p: Point) => Product(Product(p.x - m, p.y - n), p.w) }

  /** The weighted residual times the centered x. */
  ghost function ResidualTimesCentered(a: real, b: real, m: real): Point -> real {
    (p: Point) => Product(Product(p.w, Residual(p, a, b)), p.x - m)
  }

  /** m and n are the weighted means of the points. */
  ghost predicate Means(ps: seq<Point>, m: real, n: real) {
    Total(ps, X()) == Product(m, Total(ps, One())) && Total(ps, Y()) == Product(n, Total(ps, One()))
  }

  lemma Centered(ps: seq<Point>, m: real, n: real)
    requires Means(ps, m, n)
    ensures Total(ps, CenteredX(m)) == 0.0 && Total(ps, CenteredY(n)) == 0.0
  {
    forall i | 0 <= i < |ps|
      ensures Less(CenteredX(m), X(), m, One(), ps[i]) && Less(CenteredY(n), Y(), n, One(), ps[i])
    {
      var p := ps[i];
      Distributes(p.w, p.x, m);
      Distributes(p.w, p.y, n);
      Commutes(p.w, p.x);
      Commutes(p.w, p.y);
      Commutes(p.w, m);
      Commutes(p.w, n);
    }
    TotalLess(ps, CenteredX(m), X(), m, One());
    TotalLess(ps, CenteredY(n), Y(), n, One());
  }

  /** The residual of a line through (m, n), centered. */
  lemma ResidualCentered(p: Point, m: real, n: real, b: real)
    ensures Residual(p, n - Product(m, b), b) == (p.y - n) - Product(b, p.x - m)
  {
    Distributes(b, p.x, m);
    Commutes(b, m);
  }

  lemma ResidualTerms(p: Point, m: real, n: real, b: real)
    ensures Less(WeightedResidual(n - Product(m, b), b), CenteredY(n), b, CenteredX(m), p)
    ensures Less(ResidualTimesCentered(n - Product(m, b), b, m), XY(m, n), b, XX(m), p)
    ensures Less(ResidualTimesCentered(n - Product(m, b), b, m), ResidualTimesX(n - Product(m, b), b), m,
                 WeightedResidual(n - Product(m, b), b), p)
  {
    var u, v, r := p.x - m, p.y - n, Residual(p, n - Product(m, b), b);
    ResidualCentered(p, m, n, b);
    Distributes(p.w, v, Product(b, u));
    Moves(p.w, b, u);
    var t := Product(p.w, r);
    Commutes(t, u);
    Distributes(u, Product(p.w, v), Product(b, Product(p.w, u)));
    Moves(u, b, Product(p.w, u));
    Rotate(u, p.w, v);
    Rotate(u, p.w, u);
    Distributes(t, p.x, m);
    Commutes(t, m);
  }

  lemma Rotate(u: real, w: real, v: real)
    ensures Product(u, Product(w, v)) == Product(Product(u, v), w)
  {
    Commutes(w, v);
    Associates(u, v, w);
  }

  /** It satisfies the normal equations if its slope b balances xx and xy. */
  lemma ThroughMeans(ps: seq<Point>, m: real, n: real, b: real)
    requires Means(ps, m, n) && Total(ps, XY(m, n)) == Product(b, Total(ps, XX(m)))
    ensures Normal(ps, n - Product(m, b), b)
  {
    var a := n - Product(m, b);
    Centered(ps, m, n);
    forall i | 0 <= i < |ps|
      ensures Less(WeightedResidual(a, b), CenteredY(n), b, CenteredX(m), ps[i])
      ensures Less(ResidualTimesCentered(a, b, m), XY(m, n), b, XX(m), ps[i])
      ensures Less(ResidualTimesCentered(a, b, m), ResidualTimesX(a, b), m, WeightedResidual(a, b), ps[i])
    {
      ResidualTerms(ps[i], m, n, b);
    }
    TotalLess(ps, WeightedResidual(a, b), CenteredY(n), b, CenteredX(m));
    TotalLess(ps, ResidualTimesCentered(a, b, m), XY(m, n), b, XX(m));
    TotalLess(ps, ResidualTimesCentered(a, b, m), ResidualTimesX(a, b), m, WeightedResidual(a, b));
    Distributes(b, 0.0, 0.0);
    Distributes(m, 0.0, 0.0);
  }

  /** Without any spread of x, all x are the mean. */
  lemma NoSpread(ps: seq<Point>, m: real, n: real)
    requires Positive(ps) && Total(ps, XX(m)) == 0.0
    ensures Total(ps, XY(m, n)) == 0.0 && forall i | 0 <= i < |ps| :: ps[i].x == m
  {
    forall i | 0 <= i < |ps| ensures XX(m)(ps[i]) >= 0.0 && (XX(m)(ps[i]) == 0.0 ==> ps[i].x == m) {
      Commutes(Square(ps[i].x - m), ps[i].w);
      WeightedSquare(ps[i].w, ps[i].x - m);
    }
    TotalNonNegative(ps, XX(m));
    forall i | 0 <= i < |ps| ensures XY(m, n)(ps[i]) == 0.0 {
      assert ps[i].x - m == 0.0;
      ZeroProduct(ps[i].y - n, ps[i].w);
    }
    TotalZero(ps, XY(m, n));
  }

  lemma ZeroProduct(v: real, w: real)
    ensures Product(Product(0.0, v), w) == 0.0
  {
    Commutes(0.0, v);
    Distributes(v, 0.0, 0.0);
    Commutes(0.0, w);
    Distributes(w, 0.0, 0.0);
  }

  lemma {:induction false} TotalZero(ps: seq<Point>, f: Point -> real)
    requires forall i | 0 <= i < |ps| :: f(ps[i]) == 0.0
    ensures Total(ps, f) == 0.0
  {
    if ps != [] { TotalZero(ps[..|ps| - 1], f); }
  }

  /** The slope of the source. */
  ghost function Slope(xx: real, xy: real): real {
    if xx == 0.0 then 0.0 else xy / xx
  }

  lemma SlopeIsBest(ps: seq<Point>, m: real, n: real)
    requires Positive(ps) && Means(ps, m, n)
    ensures var b := Slope(Total(ps, XX(m)), Total(ps, XY(m, n)));
      Normal(ps, n - Product(m, b), b) && Best(ps, n - Product(m, b), b)
  {
    var xx, xy := Total(ps, XX(m)), Total(ps, XY(m, n));
    var b := Slope(xx, xy);
    if xx == 0.0 {
      NoSpread(ps, m, n);
      Distributes(b, 0.0, 0.0);
    } else {
      Quotient(xy, xx);
    }
    ThroughMeans(ps, m, n, b);
    NormalIsBest(ps, n - Product(m, b), b);
  }

  lemma Quotient(x: real, y: real)
    requires y != 0.0
    ensures Product(x / y, y) == x
  {
  }

  /** If two x differ, no other line is as good. */
  lemma BestIsUnique(ps: seq<Point>, a: real, b: real, c: real, d: real)
    requires Positive(ps) && Normal(ps, a, b) && Squares(ps, c, d) <= Squares(ps, a, b)
    requires exists i, j :: 0 <= i < |ps| && 0 <= j < |ps| && ps[i].x != ps[j].x
    ensures c == a && d == b
  {
    SquaresOfOther(ps, a, b, c, d);
    MovesNonNegative(ps, c - a, d - b);
    var i, j :| 0 <= i < |ps| && 0 <= j < |ps| && ps[i].x != ps[j].x;
    var e := d - b;
    Distributes(e, ps[i].x, ps[j].x);
    assert Product(e, ps[i].x - ps[j].x) == 0.0;
    NoZeroDivisor(e, ps[i].x - ps[j].x);
    Commutes(0.0, ps[i].x);
    Distributes(ps[i].x, 0.0, 0.0);
  }

  lemma NoZeroDivisor(x: real, y: real)
    requires y != 0.0 && Product(x, y) == 0.0
    ensures x == 0.0
  {
    assert Product(x, y) / y == x;
  }

  // ------------------------------------------------------------------------
  // The aggregations compute this line.

  /** Every first element is a number. */
  predicate Firsts(range: seq<Pair>) { forall i | 0 <= i < |range| :: range[i].first.Some? }

  ghost function Points(range: seq<Pair>, weight: real -> real): (ps: seq<Point>)
    requires Firsts(range) && forall i | 0 <= i < |range| :: range[i].second.Some?
    ensures |ps| == |range|
    ensures forall i | 0 <= i < |range| ::
              ps[i] == Point(range[i].first.value, range[i].second.value, weight(range[i].first.value))
  {
    seq(|range|, i requires 0 <= i < |range| =>
      Point(range[i].first.value, range[i].second.value, weight(range[i].first.value)))
  }

  lemma {:induction false} SumIsTotal(range: seq<Pair>, f: Pair -> Float, ps: seq<Point>, g: Point -> real)
    requires |ps| == |range| && forall i | 0 <= i < |range| :: f(range[i]) == Some(g(ps[i]))
    ensures Sum(Map(range, f)) == Total(ps, g) && Count(Map(range, f)) == |range| as real
  {
    if range != [] {
      var last := |range| - 1;
      SumIsTotal(range[..last], f, ps[..last], g);
      assert Map(range, f)[..last] == Map(range[..last], f);
    }
  }

  lemma {:induction false} AccumulateIsTotal(range: seq<Pair>, f: Pair -> Float, ps: seq<Point>, g: Point -> real)
    requires |ps| == |range| && forall i | 0 <= i < |range| :: f(range[i]) == Some(g(ps[i]))
    ensures Accumulate(range, f) == Some(Total(ps, g))
  {
    if range != [] {
      AccumulateIsTotal(range[..|range| - 1], f, ps[..|range| - 1], g);
    }
  }

  /** A null is handed on to the end. */
  lemma {:induction false} AccumulateNull(range: seq<Pair>, f: Pair -> Float, i: nat)
    requires i < |range| && f(range[i]) == None
    ensures Accumulate(range, f) == None
  {
    if i < |range| - 1 {
      AccumulateNull(range[..|range| - 1], f, i);
    }
  }

  lemma {:induction false} TotalPositive(ps: seq<Point>)
    requires Positive(ps)
    ensures Total(ps, One()) >= 0.0 && (ps != [] ==> Total(ps, One()) > 0.0)
  {
    if ps != [] { TotalPositive(ps[..|ps| - 1]); }
  }

  /** The value is that of the best line at 0. */
  ghost predicate Fits(value: Float, ps: seq<Point>) {
    value.Some? && exists b :: Normal(ps, value.value, b) && Best(ps, value.value, b)
  }

  lemma AtZeroValue(m: real, n: real, xx: real, xy: real)
    ensures AtZero(Some(m), Some(n), Some(xx), Some(xy)) == Some(n - Product(m, Slope(xx, xy)))
  {
    if xx == 0.0 {
      Distributes(m, 0.0, 0.0);
    }
  }

  /** What is returned for the means and the two sums. */
  lemma AtZeroFits(ps: seq<Point>, m: real, n: real)
    requires Positive(ps) && Means(ps, m, n)
    ensures Fits(AtZero(Some(m), Some(n), Some(Total(ps, XX(m))), Some(Total(ps, XY(m, n)))), ps)
  {
    SlopeIsBest(ps, m, n);
    AtZeroValue(m, n, Total(ps, XX(m)), Total(ps, XY(m, n)));
  }

  // ------------------------------------------------------------------------
  // The value is the only one there is: that of the best line at 0 or, when all x are equal and many lines are
  // best, the mean of the y.

  ghost predicate AllSame(ps: seq<Point>) { forall i, j | 0 <= i < |ps| && 0 <= j < |ps| :: ps[i].x == ps[j].x }

  ghost predicate IsMean(n: real, ps: seq<Point>) { Product(n, Total(ps, One())) == Total(ps, Y()) }

  ghost predicate Admissible(value: real, ps: seq<Point>) {
    if AllSame(ps) then IsMean(value, ps) else exists b :: Best(ps, value, b)
  }

  /** Exactly this value is admissible. */
  ghost predicate Determined(value: Float, ps: seq<Point>) {
    value.Some? && forall v :: Admissible(v, ps) <==> v == value.value
  }

  lemma {:induction false} TotalOfEqual(ps: seq<Point>, x: real)
    requires forall i | 0 <= i < |ps| :: ps[i].x == x
    ensures Total(ps, X()) == Product(x, Total(ps, One()))
  {
    if ps == [] {
      Distributes(x, 0.0, 0.0);
    } else {
      var last := |ps| - 1;
      TotalOfEqual(ps[..last], x);
      Distributes(x, Total(ps[..last], One()), ps[last].w);
    }
  }

  lemma Cancels(x: real, y: real, w: real)
    requires w > 0.0 && Product(x, w) == Product(y, w)
    ensures x == y
  {
    Commutes(x, w);
    Commutes(y, w);
    Distributes(w, x, y);
    Commutes(w, x - y);
    if x != y {
      NoZeroDivisor(w, x - y) by {
        assert Product(w, x - y) == 0.0;
      }
    }
  }

  /** When all x are equal, they are their mean, and there is no spread. */
  lemma NoSpreadWhenSame(ps: seq<Point>, m: real, n: real)
    requires Positive(ps) && ps != [] && AllSame(ps) && Means(ps, m, n)
    ensures Total(ps, XX(m)) == 0.0
  {
    TotalPositive(ps);
    TotalOfEqual(ps, ps[0].x);
    Cancels(m, ps[0].x, Total(ps, One()));
    forall i | 0 <= i < |ps| ensures XX(m)(ps[i]) == 0.0 {
      assert ps[i].x - m == 0.0;
      ZeroProduct(0.0, ps[i].w);
    }
    TotalZero(ps, XX(m));
  }

  lemma AtZeroDetermined(ps: seq<Point>, m: real, n: real)
    requires Positive(ps) && ps != [] && Means(ps, m, n)
    ensures Determined(AtZero(Some(m), Some(n), Some(Total(ps, XX(m))), Some(Total(ps, XY(m, n)))), ps)
  {
    var value := AtZero(Some(m), Some(n), Some(Total(ps, XX(m))), Some(Total(ps, XY(m, n)))).value;
    AtZeroFits(ps, m, n);
    if AllSame(ps) {
      NoSpreadWhenSame(ps, m, n);
      TotalPositive(ps);
      forall v ensures Admissible(v, ps) <==> v == value {
        if IsMean(v, ps) { Cancels(v, n, Total(ps, One())); }
      }
    } else {
      var b :| Normal(ps, value, b) && Best(ps, value, b);
      forall v ensures Admissible(v, ps) <==> v == value {
        if c :| Best(ps, v, c) {
          assert Squares(ps, v, c) <= Squares(ps, value, b);
          BestIsUnique(ps, value, b, v, c);
        }
      }
    }
  }

  /** The pairs that take part are those whose second element is not null, each as often as it occurs. */
  lemma {:induction false} NotNullExactly(ps: seq<Pair>, p: Pair)
    ensures p in NotNull(ps) <==> p in ps && p.second.Some?
    ensures multiset(NotNull(ps))[p] == if p.second.Some? then multiset(ps)[p] else 0
  {
    if ps != [] {
      NotNullExactly(ps[..|ps| - 1], p);
      assert ps == ps[..|ps| - 1] + [ps[|ps| - 1]];
    }
  }

  lemma WeightedTotals(range: seq<Pair>, weight: real -> real, pts: seq<Point>)
    requires Firsts(range) && (forall i | 0 <= i < |range| :: range[i].second.Some?) && pts == Points(range, weight)
    ensures Sum(Map(range, Weight(weight))) == Total(pts, One())
    ensures Sum(Map(range, Weighted(First(), weight))) == Total(pts, X())
    ensures Sum(Map(range, Weighted(Second(), weight))) == Total(pts, Y())
  {
    SumIsTotal(range, Weight(weight), pts, One());
    SumIsTotal(range, Weighted(First(), weight), pts, X());
    SumIsTotal(range, Weighted(Second(), weight), pts, Y());
  }

  lemma WeightedSpreads(range: seq<Pair>, weight: real -> real, pts: seq<Point>, m: real, n: real)
    requires Firsts(range) && (forall i | 0 <= i < |range| :: range[i].second.Some?) && pts == Points(range, weight)
    ensures Accumulate(range, Weighted(SquaredX(Some(m)), weight)) == Some(Total(pts, XX(m)))
    ensures Accumulate(range, Weighted(CrossXY(Some(m), Some(n)), weight)) == Some(Total(pts, XY(m, n)))
  {
    AccumulateIsTotal(range, Weighted(SquaredX(Some(m)), weight), pts, XX(m));
    AccumulateIsTotal(range, Weighted(CrossXY(Some(m), Some(n)), weight), pts, XY(m, n));
  }

  /** Null if there is nothing to fit, or if a first element is null; otherwise the best line at 0. */
  lemma EwmaTrendFits(ps: seq<Pair>, weight: real -> real)
    requires forall x :: weight(x) > 0.0
    ensures var range := NotNull(ps);
      if range == [] || !Firsts(range) then EwmaTrend(ps, weight) == None
      else
        && Fits(EwmaTrend(ps, weight), Points(range, weight))
        && Determined(EwmaTrend(ps, weight), Points(range, weight))
  {
    var range := NotNull(ps);
    var total := Sum(Map(range, Weight(weight)));
    if range == [] {
      assert Map(range, Weight(weight)) == [];
    } else if !Firsts(range) {
      if total != 0.0 {
        var i :| 0 <= i < |range| && range[i].first == None;
        AccumulateNull(range, Weighted(SquaredX(Some(Sum(Map(range, Weighted(First(), weight))) / total)), weight), i);
      }
    } else {
      var pts := Points(range, weight);
      WeightedTotals(range, weight, pts);
      TotalPositive(pts);
      var m, n := Total(pts, X()) / total, Total(pts, Y()) / total;
      Quotient(Total(pts, X()), total);
      Quotient(Total(pts, Y()), total);
      WeightedSpreads(range, weight, pts, m, n);
      AtZeroFits(pts, m, n);
      AtZeroDetermined(pts, m, n);
    }
  }

  // ------------------------------------------------------------------------
  // The unweighted trend.

  ghost function Unit(): real -> real { (x: real) => 1.0 }

  lemma TimesUnit(x: real)
    ensures Product(x, 1.0) == x
  {
  }

  lemma UnitTotals(range: seq<Pair>, pts: seq<Point>)
    requires Firsts(range) && (forall i | 0 <= i < |range| :: range[i].second.Some?) && pts == Points(range, Unit())
    ensures Sum(Map(range, First())) == Total(pts, X()) && Sum(Map(range, Second())) == Total(pts, Y())
    ensures Count(Map(range, First())) == Count(Map(range, Second())) == |range| as real == Total(pts, One())
  {
    forall i | 0 <= i < |range| ensures First()(range[i]) == Some(X()(pts[i]))
        && Second()(range[i]) == Some(Y()(pts[i])) {
      TimesUnit(pts[i].x);
      TimesUnit(pts[i].y);
    }
    SumIsTotal(range, First(), pts, X());
    SumIsTotal(range, Second(), pts, Y());
    TotalOfUnits(pts);
  }

  lemma {:induction false} TotalOfUnits(ps: seq<Point>)
    requires forall i | 0 <= i < |ps| :: ps[i].w == 1.0
    ensures Total(ps, One()) == |ps| as real
  {
    if ps != [] { TotalOfUnits(ps[..|ps| - 1]); }
  }

  lemma UnitSpreads(range: seq<Pair>, pts: seq<Point>, m: real, n: real)
    requires Firsts(range) && (forall i | 0 <= i < |range| :: range[i].second.Some?) && pts == Points(range, Unit())
    ensures Accumulate(range, SquaredX(Some(m))) == Some(Total(pts, XX(m)))
    ensures Accumulate(range, CrossXY(Some(m), Some(n))) == Some(Total(pts, XY(m, n)))
  {
    forall i | 0 <= i < |range|
      ensures SquaredX(Some(m))(range[i]) == Some(XX(m)(pts[i]))
          && CrossXY(Some(m), Some(n))(range[i]) == Some(XY(m, n)(pts[i]))
    {
      TimesUnit(Product(pts[i].x - m, pts[i].x - m));
      TimesUnit(Product(pts[i].x - m, pts[i].y - n));
    }
    AccumulateIsTotal(range, SquaredX(Some(m)), pts, XX(m));
    AccumulateIsTotal(range, CrossXY(Some(m), Some(n)), pts, XY(m, n));
  }

  /** trend does the same with all weights equal to 1. */
  lemma TrendFits(ps: seq<Pair>)
    ensures var range := NotNull(ps);
      if range == [] || !Firsts(range) then Trend(ps) == None
      else Fits(Trend(ps), Points(range, Unit())) && Determined(Trend(ps), Points(range, Unit()))
  {
    var range := NotNull(ps);
    var meanX := Avg(Map(range, First()));
    if range == [] {
      assert Map(range, First()) == [] && Map(range, Second()) == [];
    } else if !Firsts(range) {
      var i :| 0 <= i < |range| && range[i].first == None;
      AccumulateNull(range, SquaredX(meanX), i);
    } else {
      var pts, total := Points(range, Unit()), |range| as real;
      UnitTotals(range, pts);
      var m, n := Total(pts, X()) / total, Total(pts, Y()) / total;
      Quotient(Total(pts, X()), total);
      Quotient(Total(pts, Y()), total);
      UnitSpreads(range, pts, m, n);
      AtZeroFits(pts, m, n);
      AtZeroDetermined(pts, m, n);
    }
  }

  // ------------------------------------------------------------------------
  // Groups in which all first elements are equal, as in every group of one row.

  ghost predicate SameFirst(range: seq<Pair>, x: real) { forall i | 0 <= i < |range| :: range[i].first == Some(x) }

  ghost function SumOfSeconds(range: seq<Pair>): real
    requires forall i | 0 <= i < |range| :: range[i].second.Some?
  {
    if range == [] then 0.0 else SumOfSeconds(range[..|range| - 1]) + range[|range| - 1].second.value
  }

  lemma {:induction false} TotalOfSeconds(range: seq<Pair>)
    requires Firsts(range) && forall i | 0 <= i < |range| :: range[i].second.Some?
    ensures Total(Points(range, Unit()), Y()) == SumOfSeconds(range)
  {
    if range != [] {
      var last := |range| - 1;
      var ps := Points(range, Unit());
      TotalOfSeconds(range[..last]);
      assert ps[..last] == Points(range[..last], Unit());
      TimesUnit(ps[last].y);
    }
  }

  lemma DeterminedMean(pts: seq<Point>, value: real, total: real, sum: real)
    requires AllSame(pts) && Determined(Some(value), pts) && Total(pts, One()) == total && Total(pts, Y()) == sum
    ensures Product(value, total) == sum
  {
    assert Admissible(value, pts);
  }

  lemma UnitFacts(range: seq<Pair>, x: real, pts: seq<Point>)
    requires SameFirst(range, x) && (forall i | 0 <= i < |range| :: range[i].second.Some?)
    requires pts == Points(range, Unit())
    ensures AllSame(pts) && Total(pts, One()) == |range| as real && Total(pts, Y()) == SumOfSeconds(range)
  {
    TotalOfUnits(pts);
    TotalOfSeconds(range);
  }

  /** The only admissible value is then the mean of the second elements. */
  lemma MeanOfSeconds(range: seq<Pair>, x: real, value: Float, pts: seq<Point>)
    requires SameFirst(range, x) && forall i | 0 <= i < |range| :: range[i].second.Some?
    requires pts == Points(range, Unit()) && Determined(value, pts)
    ensures Product(value.value, |range| as real) == SumOfSeconds(range)
  {
    UnitFacts(range, x, pts);
    DeterminedMean(pts, value.value, |range| as real, SumOfSeconds(range));
  }

  /** trend is then the mean of the second elements. */
  lemma TrendOfEqualTimes(ps: seq<Pair>, x: real)
    requires NotNull(ps) != [] && SameFirst(NotNull(ps), x)
    ensures Trend(ps).Some? && Product(Trend(ps).value, |NotNull(ps)| as real) == SumOfSeconds(NotNull(ps))
  {
    TrendFits(ps);
    MeanOfSeconds(NotNull(ps), x, Trend(ps), Points(NotNull(ps), Unit()));
  }

  /** Equal weights leave the only admissible value as it is. */
  lemma MeanOfEqualWeights(range: seq<Pair>, weight: real -> real, x: real, value: Float, unit: Float)
    requires range != [] && SameFirst(range, x) && forall i | 0 <= i < |range| :: range[i].second.Some?
    requires Determined(value, Points(range, weight)) && Determined(unit, Points(range, Unit()))
    ensures value == unit
  {
    var pts, units := Points(range, weight), Points(range, Unit());
    assert AllSame(units) && Admissible(unit.value, units);
    TotalOfConstant(pts, units, weight(x));
    Associates(weight(x), unit.value, Total(units, One()));
    Moves(weight(x), unit.value, Total(units, One()));
    assert AllSame(pts) && Admissible(unit.value, pts);
  }

  /** ewma_trend is then the weighted mean, which is the same since the weights are equal, too. */
  lemma EwmaTrendOfEqualTimes(ps: seq<Pair>, weight: real -> real, x: real)
    requires (forall y :: weight(y) > 0.0) && NotNull(ps) != [] && SameFirst(NotNull(ps), x)
    ensures EwmaTrend(ps, weight) == Trend(ps)
  {
    EwmaTrendFits(ps, weight);
    TrendFits(ps);
    MeanOfEqualWeights(NotNull(ps), weight, x, EwmaTrend(ps, weight), Trend(ps));
  }

  lemma {:induction false} TotalOfConstant(ps: seq<Point>, units: seq<Point>, w: real)
    requires |ps| == |units|
    requires forall i | 0 <= i < |ps| ::
      ps[i].w == w && units[i].w == 1.0 && ps[i].x == units[i].x && ps[i].y == units[i].y
    ensures Total(ps, One()) == Product(w, Total(units, One())) && Total(ps, Y()) == Product(w, Total(units, Y()))
  {
    if ps == [] {
      Distributes(w, 0.0, 0.0);
    } else {
      var last := |ps| - 1;
      TotalOfConstant(ps[..last], units[..last], w);
      Distributes(w, Total(units[..last], One()), 1.0);
      Distributes(w, Total(units[..last], Y()), Product(units[last].y, 1.0));
      TimesUnit(w);
      TimesUnit(units[last].y);
      Commutes(w, ps[last].y);
    }
  }
}
