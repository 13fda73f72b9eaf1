/**
 Lazy column views (containers/ColumnView.hpp) as expressions: what a view means, independently of the
 closures that compute it, and the algebra of its length.
 */
module ColumnExpr {

  /** One type of values stands for the instances of the class template; flags are the values of boolean views. */
  datatype Value = Flag(flag: bool) | Datum(datum: int)

  predicate Truth(v: Value) { v.Flag? && v.flag }

  /** nrows(): a number, NOT_KNOWABLE or NROWS_INFINITE. */
  datatype Rows = Known(n: nat) | NotKnowable | Infinite

  /** What an access yields: a value, std::nullopt, or an exception. */
  datatype Outcome = Value(value: Value) | End | Fail

  datatype Expr =
    | Column(cells: seq<Value>)
    | Const(constant: Value)
    | Un(op1: Value -> Value, a: Expr)
    | Bin(op2: (Value, Value) -> Value, a: Expr, b: Expr)
    | Tern(op3: (Value, Value, Value) -> Value, a: Expr, b: Expr, c: Expr)
    | Sub(data: Expr, indices: Expr)

  // ------------------------------------------------------------------------
  // The declared length, and the checks when a view is built.

  predicate SameSize(x: Rows, y: Rows) { y.Known? ==> x.Known? && x.n == y.n }

  predicate BinFits(x: Rows, y: Rows) { x.Known? ==> SameSize(x, y) }

  /** The length that is known, if any; infinite only if both are. */
  function BinRows(x: Rows, y: Rows): (r: Rows)
    ensures r.Known? <==> x.Known? || y.Known?
    ensures r.Known? && BinFits(x, y) ==> (x.Known? ==> r == x) && (y.Known? ==> r == y)
    ensures r == Infinite <==> x == Infinite && y == Infinite
  {
    if x.Known? then x
    else if y.Known? then y
    else if x.NotKnowable? || y.NotKnowable? then NotKnowable
    else Infinite
  }

  predicate TernFits(x: Rows, y: Rows, z: Rows) {
    if x.Known? then SameSize(x, y) && SameSize(x, z)
    else if y.Known? then SameSize(y, z)
    else true
  }

  function TernRows(x: Rows, y: Rows, z: Rows): (r: Rows)
    ensures r.Known? <==> x.Known? || y.Known? || z.Known?
    ensures r.Known? && TernFits(x, y, z) ==> (x.Known? ==> r == x) && (y.Known? ==> r == y) && (z.Known? ==> r == z)
    ensures r == Infinite <==> x == Infinite && y == Infinite && z == Infinite
  {
    if x.Known? then x
    else if y.Known? then y
    else if z.Known? then z
    else if x.NotKnowable? || y.NotKnowable? || z.NotKnowable? then NotKnowable
    else Infinite
  }

  predicate SubFits(data: Rows, indices: Rows) {
    data != Infinite && (data.Known? && indices.Known? ==> data.n == indices.n)
  }

  function RowsOf(e: Expr): Rows {
    match e
    case Column(cells) => Known(|cells|)
    case Const(_) => Infinite
    case Un(_, a) => RowsOf(a)
    case Bin(_, a, b) => BinRows(RowsOf(a), RowsOf(b))
    case Tern(_, a, b, c) => TernRows(RowsOf(a), RowsOf(b), RowsOf(c))
    case Sub(_, _) => NotKnowable
  }

  /** The expressions that the factory functions build without throwing. */
  predicate WellFormed(e: Expr) {
    match e
    case Column(_) => true
    case Const(_) => true
    case Un(_, a) => WellFormed(a)
    case Bin(_, a, b) => WellFormed(a) && WellFormed(b) && BinFits(RowsOf(a), RowsOf(b))
    case Tern(_, a, b, c) =>
      WellFormed(a) && WellFormed(b) && WellFormed(c) && TernFits(RowsOf(a), RowsOf(b), RowsOf(c))
    case Sub(d, i) => WellFormed(d) && WellFormed(i) && SubFits(RowsOf(d), RowsOf(i))
  }

  /** From here on a view that is not infinite has no values. */
  ghost function Limit(e: Expr): nat {
    match e
    case Column(cells) => |cells|
    case Const(_) => 0
    case Un(_, a) => Limit(a)
    case Bin(_, a, b) => if RowsOf(a) == Infinite then Limit(b) else Limit(a)
    case Tern(_, a, b, c) =>
      if RowsOf(a) != Infinite then Limit(a) else if RowsOf(b) != Infinite then Limit(b) else Limit(c)
    case Sub(d, _) => Limit(d)
  }

  // ------------------------------------------------------------------------
  // The meaning.

  /** One operand has ended: no other operand with an end may still have a value. */
  function Ended(rows: Rows, other: Outcome): Outcome {
    if rows != Infinite && other.Value? then Fail else End
  }

  function UnOutcome(op: Value -> Value, o: Outcome): Outcome {
    if o.Value? then Value(op(o.value)) else o
  }

  function BinOutcome(op: (Value, Value) -> Value, x: Rows, y: Rows, o1: Outcome, o2: Outcome): Outcome {
    if o1.Fail? || o2.Fail? then Fail
    else if o1.End? then Ended(y, o2)
    else if o2.End? then Ended(x, o1)
    else Value(op(o1.value, o2.value))
  }

  function TernOutcome(op: (Value, Value, Value) -> Value, x: Rows, y: Rows, z: Rows,
                       o1: Outcome, o2: Outcome, o3: Outcome): Outcome {
    if o1.Fail? || o2.Fail? || o3.Fail? then Fail
    else if o1.End? then (if Ended(y, o2).Fail? then Fail else Ended(z, o3))
    else if o2.End? then (if Ended(x, o1).Fail? then Fail else Ended(z, o3))
    else if o3.End? then (if Ended(x, o1).Fail? then Fail else Ended(y, o2))
    else Value(op(o1.value, o2.value, o3.value))
  }

  /** What a boolean subselection finds at one row of its operands. */
  datatype Look = Hit(value: Value) | Skip | Stop(outcome: Outcome)

  function LookAt(index: Outcome, datum: Outcome, indexRows: Rows): Look {
    if index.Fail? then Stop(Fail)
    else if index.End? then Stop(if datum.End? then End else Fail)
    else if datum.Fail? then Stop(Fail)
    else if datum.End? then Stop(if indexRows == Infinite then End else Fail)
    else if Truth(index.value) then Hit(datum.value)
    else Skip
  }

  /** The pure filter: the values that are selected, and what comes after the last one. */
  datatype Filtered = Filtered(values: seq<Value>, last: Outcome)

  /** The value, end or exception of a view at row i, without any state. */
  ghost function Meaning(e: Expr, i: nat): (r: Outcome)
    requires WellFormed(e)
    ensures RowsOf(e) != Infinite && i >= Limit(e) ==> !r.Value?
    decreases e, 1, 0
  {
    match e
    case Column(cells) => if i < |cells| then Value(cells[i]) else End
    case Const(v) => Value(v)
    case Un(op, a) => UnOutcome(op, Meaning(a, i))
    case Bin(op, a, b) => BinOutcome(op, RowsOf(a), RowsOf(b), Meaning(a, i), Meaning(b, i))
    case Tern(op, a, b, c) =>
      TernOutcome(op, RowsOf(a), RowsOf(b), RowsOf(c), Meaning(a, i), Meaning(b, i), Meaning(c, i))
    case Sub(_, _) => var f := Filter(e, 0); if i < |f.values| then Value(f.values[i]) else f.last
  }

  /** The filter of the rows from p on. */
  ghost function Filter(e: Expr, p: nat): (f: Filtered)
    requires WellFormed(e) && e.Sub?
    ensures !f.last.Value?
    ensures |f.values| == 0 || |f.values| + p <= Limit(e)
    decreases e, 0, Limit(e) - p
  {
    match LookAt(Meaning(e.indices, p), Meaning(e.data, p), RowsOf(e.indices))
    case Stop(o) => Filtered([], o)
    case Hit(v) => var f := Filter(e, p + 1); Filtered([v] + f.values, f.last)
    case Skip => Filter(e, p + 1)
  }

  ghost function Looked(e: Expr, p: nat): Look
    requires WellFormed(e) && e.Sub?
  {
    LookAt(Meaning(e.indices, p), Meaning(e.data, p), RowsOf(e.indices))
  }

  /** The first row at which the filter stops. */
  ghost function StopRow(e: Expr, p: nat): (stop: nat)
    requires WellFormed(e) && e.Sub?
    ensures stop >= p
    ensures p <= Limit(e) ==> stop <= Limit(e)
    decreases Limit(e) - p
  {
    if Looked(e, p).Stop? then p else StopRow(e, p + 1)
  }

  lemma {:induction false} StopRowIsFirst(e: Expr, p: nat)
    requires WellFormed(e) && e.Sub?
    ensures Looked(e, StopRow(e, p)).Stop?
    ensures forall q | p <= q < StopRow(e, p) :: !Looked(e, q).Stop?
    decreases Limit(e) - p
  {
    if !Looked(e, p).Stop? { StopRowIsFirst(e, p + 1); }
  }

  // ------------------------------------------------------------------------
  // Soundness of the length.

  /** A known length: values or errors before it, the end or errors from it on. An infinite view has only values. */
  ghost predicate Agrees(rows: Rows, o: Outcome, i: nat) {
    && (rows == Infinite ==> o.Value?)
    && (rows.Known? && i < rows.n ==> !o.End?)
    && (rows.Known? && i >= rows.n ==> !o.Value?)
  }

  /** Every view agrees with its declared length at every row. */
  lemma {:induction false} RowsSound(e: Expr, i: nat)
    requires WellFormed(e)
    ensures Agrees(RowsOf(e), Meaning(e, i), i)
  {
    if e.Un? {
      RowsSound(e.a, i);
    } else if e.Bin? {
      RowsSound(e.a, i);
      RowsSound(e.b, i);
    } else if e.Tern? {
      RowsSound(e.a, i);
      RowsSound(e.b, i);
      RowsSound(e.c, i);
      TernSound(RowsOf(e.a), RowsOf(e.b), RowsOf(e.c), Meaning(e.a, i), Meaning(e.b, i), Meaning(e.c, i), e.op3, i);
    }
  }

  lemma TernSound(x: Rows, y: Rows, z: Rows, o1: Outcome, o2: Outcome, o3: Outcome,
                  op: (Value, Value, Value) -> Value, i: nat)
    requires TernFits(x, y, z) && Agrees(x, o1, i) && Agrees(y, o2, i) && Agrees(z, o3, i)
    ensures Agrees(TernRows(x, y, z), TernOutcome(op, x, y, z, o1, o2, o3), i)
  {
  }

  /** After the end there are no more values, in any view. */
  lemma {:induction false} EndStays(e: Expr, i: nat, j: nat)
    requires WellFormed(e) && i <= j && Meaning(e, i).End?
    ensures !Meaning(e, j).Value?
  {
    if e.Un? {
      EndStays(e.a, i, j);
    } else if e.Bin? {
      RowsSound(e.a, i);
      RowsSound(e.b, i);
      if Meaning(e.a, i).End? { EndStays(e.a, i, j); }
      if Meaning(e.b, i).End? { EndStays(e.b, i, j); }
    } else if e.Tern? {
      RowsSound(e.a, i);
      RowsSound(e.b, i);
      RowsSound(e.c, i);
      if Meaning(e.a, i).End? { EndStays(e.a, i, j); }
      if Meaning(e.b, i).End? { EndStays(e.b, i, j); }
      if Meaning(e.c, i).End? { EndStays(e.c, i, j); }
    }
  }

  ghost predicate ErrorFree(e: Expr)
    requires WellFormed(e)
  {
    forall i: nat :: !Meaning(e, i).Fail?
  }

  /** The view has exactly n rows. */
  ghost predicate HasRows(e: Expr, n: nat)
    requires WellFormed(e)
  {
    forall i: nat :: Meaning(e, i).Value? <==> i < n
  }

  /** The rows of a view without errors: as declared, and finite when the length is not knowable. */
  lemma RowsExact(e: Expr)
    requires WellFormed(e) && ErrorFree(e)
    ensures RowsOf(e).Known? ==> HasRows(e, RowsOf(e).n)
    ensures RowsOf(e) == Infinite <==> forall n: nat :: !HasRows(e, n)
  {
    forall i: nat ensures RowsOf(e).Known? ==> (Meaning(e, i).Value? <==> i < RowsOf(e).n) {
      RowsSound(e, i);
    }
    if RowsOf(e) == Infinite {
      forall n: nat ensures !HasRows(e, n) {
        RowsSound(e, n);
      }
    } else {
      var n := FirstEnd(e, 0);
      EndCounts(e, n);
    }
  }

  lemma EndCounts(e: Expr, n: nat)
    requires WellFormed(e) && Meaning(e, n).End? && forall i: nat | i < n :: Meaning(e, i).Value?
    ensures HasRows(e, n)
  {
    forall i: nat ensures Meaning(e, i).Value? <==> i < n {
      if i >= n { EndStays(e, n, i); }
    }
  }

  lemma {:induction false} FirstEnd(e: Expr, p: nat) returns (n: nat)
    requires WellFormed(e) && ErrorFree(e) && RowsOf(e) != Infinite
    requires forall i: nat | i < p :: Meaning(e, i).Value?
    ensures Meaning(e, n).End? && forall i: nat | i < n :: Meaning(e, i).Value?
    decreases Limit(e) - p
  {
    if Meaning(e, p).Value? {
      n := FirstEnd(e, p + 1);
    } else {
      n := p;
    }
  }

  // ------------------------------------------------------------------------
  // What the operations yield at a row.

  /** A value that an operand with an end next to it must not have. */
  predicate Live(rows: Rows, o: Outcome) { rows != Infinite && o.Value? }

  ghost predicate UnRow(op: Value -> Value, o: Outcome, r: Outcome) {
    r == match o
         case Value(x) => Value(op(x))
         case End => End
         case Fail => Fail
  }

  /** The operator applied to both values; an error exactly if there is one, or if one operand ends too early. */
  ghost predicate BinRow(op: (Value, Value) -> Value, x: Rows, y: Rows, o1: Outcome, o2: Outcome, r: Outcome) {
    && (forall v, w :: o1 == Value(v) && o2 == Value(w) ==> r == Value(op(v, w)))
    && (r.Value? ==> o1.Value? && o2.Value?)
    && (r.Fail? <==> o1.Fail? || o2.Fail? || (o1.End? && Live(y, o2)) || (o2.End? && Live(x, o1)))
  }

  ghost predicate TernRow(op: (Value, Value, Value) -> Value, x: Rows, y: Rows, z: Rows,
                          o1: Outcome, o2: Outcome, o3: Outcome, r: Outcome) {
    && (forall u, v, w :: o1 == Value(u) && o2 == Value(v) && o3 == Value(w) ==> r == Value(op(u, v, w)))
    && (r.Value? ==> o1.Value? && o2.Value? && o3.Value?)
    && (r.Fail? <==>
          || o1.Fail? || o2.Fail? || o3.Fail?
          || ((o1.End? || o2.End? || o3.End?) && (Live(x, o1) || Live(y, o2) || Live(z, o3))))
  }

  /** Every row of the view, from those of its operands alone. */
  ghost predicate Yields(e: Expr, i: nat)
    requires WellFormed(e)
  {
    var r := Meaning(e, i);
    match e
    case Column(cells) => (i < |cells| ==> r == Value(cells[i])) && (i >= |cells| ==> r == End)
    case Const(v) => r == Value(v)
    case Un(op, a) => UnRow(op, Meaning(a, i), r)
    case Bin(op, a, b) => BinRow(op, RowsOf(a), RowsOf(b), Meaning(a, i), Meaning(b, i), r)
    case Tern(op, a, b, c) =>
      TernRow(op, RowsOf(a), RowsOf(b), RowsOf(c), Meaning(a, i), Meaning(b, i), Meaning(c, i), r)
    case Sub(_, _) => true
  }

  lemma RowYields(e: Expr, i: nat)
    requires WellFormed(e)
    ensures Yields(e, i)
  {
    if e.Tern? {
      TernRowYields(e.op3, RowsOf(e.a), RowsOf(e.b), RowsOf(e.c), Meaning(e.a, i), Meaning(e.b, i), Meaning(e.c, i));
    }
  }

  lemma TernRowYields(op: (Value, Value, Value) -> Value, x: Rows, y: Rows, z: Rows,
                      o1: Outcome, o2: Outcome, o3: Outcome)
    ensures TernRow(op, x, y, z, o1, o2, o3, TernOutcome(op, x, y, z, o1, o2, o3))
  {
  }

  // ------------------------------------------------------------------------
  // Subselections of any two views, and subselections of subselections.

  /** The values of a view that is not infinite, from row p on, and the end or the error behind them. */
  ghost function Reading(e: Expr, p: nat): (f: Filtered)
    requires WellFormed(e) && RowsOf(e) != Infinite
    ensures !f.last.Value?
    ensures forall i: nat | p <= i <= p + |f.values| :: ReadsAt(e, f, p, i)
    decreases Limit(e) - p
  {
    var o := Meaning(e, p);
    if !o.Value? then Filtered([], o)
    else
      var f := Reading(e, p + 1);
      var g := Filtered([o.value] + f.values, f.last);
      assert forall i: nat | p < i <= p + |g.values| :: ReadsAt(e, f, p + 1, i) ==> ReadsAt(e, g, p, i);
      g
  }

  ghost predicate ReadsAt(e: Expr, f: Filtered, p: nat, i: nat)
    requires WellFormed(e) && p <= i <= p + |f.values|
  {
    Meaning(e, i) == if i < p + |f.values| then Value(f.values[i - p]) else f.last
  }

  lemma ReadingValues(e: Expr)
    requires WellFormed(e) && RowsOf(e) != Infinite
    ensures var values := Reading(e, 0).values;
      forall k | 0 <= k < |values| :: Meaning(e, k) == Value(values[k])
  {
    var f := Reading(e, 0);
    forall k | 0 <= k < |f.values| ensures Meaning(e, k) == Value(f.values[k]) {
      assert ReadsAt(e, f, 0, k);
    }
  }

  /** The values for n rows; there may be fewer or more of them unless the view is infinite. */
  ghost function Front(e: Expr, n: nat): (values: seq<Value>)
    requires WellFormed(e)
    ensures RowsOf(e) == Infinite ==> |values| == n
    ensures forall k | 0 <= k < |values| :: Meaning(e, k) == Value(values[k])
  {
    if RowsOf(e) != Infinite then
      var f := Reading(e, 0);
      ReadingValues(e);
      f.values
    else
      var values := seq(n, k requires 0 <= k < n => ValueAt(e, k));
      assert forall k | 0 <= k < |values| :: values[k] == ValueAt(e, k);
      values
  }

  /** The view ends after exactly n values, unless it is infinite. */
  ghost predicate EndsAfter(e: Expr, n: nat)
    requires WellFormed(e)
  {
    RowsOf(e) != Infinite ==> Reading(e, 0).last.End? && |Reading(e, 0).values| == n
  }

  ghost function ValueAt(e: Expr, k: nat): (v: Value)
    requires WellFormed(e) && RowsOf(e) == Infinite
    ensures Meaning(e, k) == Value(v)
  {
    RowsSound(e, k);
    Meaning(e, k).value
  }

  /** The values of xs at which the flag is set, up to the end of the shorter one. */
  ghost function Pick<T>(xs: seq<T>, flags: seq<Value>): seq<T> {
    if xs == [] || flags == [] then []
    else (if flags[0] == Flag(true) then [xs[0]] else []) + Pick(xs[1..], flags[1..])
  }

  /** The view reads as these values, followed by nothing but `last`. */
  ghost predicate ReadsAs(e: Expr, values: seq<Value>, last: Outcome)
    requires WellFormed(e)
  {
    forall i: nat :: Meaning(e, i) == if i < |values| then Value(values[i]) else last
  }

  lemma ReadingIs(e: Expr, values: seq<Value>, last: Outcome)
    requires WellFormed(e) && RowsOf(e) != Infinite && !last.Value? && Meaning(e, |values|) == last
    requires forall k | 0 <= k < |values| :: Meaning(e, k) == Value(values[k])
    ensures Reading(e, 0) == Filtered(values, last)
  {
    var f := Reading(e, 0);
    assert ReadsAt(e, f, 0, |f.values|);
    assert |values| <= |f.values| ==> ReadsAt(e, f, 0, |values|);
    forall k: nat | k < |f.values| ensures values[k] == f.values[k] {
      assert ReadsAt(e, f, 0, k);
    }
  }

  // ------------------------------------------------------------------------
  // What the operations read as, over all rows.

  /** What comes behind the values for n rows: the end or an error, or the next value of an infinite view. */
  ghost function Behind(e: Expr, n: nat): (o: Outcome)
    requires WellFormed(e)
    ensures o.Value? <==> RowsOf(e) == Infinite
    ensures EndsAfter(e, n) <==> |Front(e, n)| == n && !o.Fail?
    ensures o == Meaning(e, |Front(e, n)|)
  {
    RowsSound(e, n);
    assert RowsOf(e) != Infinite ==> ReadsAt(e, Reading(e, 0), 0, |Reading(e, 0).values|);
    if RowsOf(e) == Infinite then Meaning(e, n) else Reading(e, 0).last
  }

  /** If the view reads so as far as n rows of its operands go, it is what its own n rows are. */
  lemma FrontIs(e: Expr, n: nat, values: seq<Value>)
    requires WellFormed(e) && forall k | 0 <= k < |values| :: Meaning(e, k) == Value(values[k])
    requires if RowsOf(e) == Infinite then |values| == n else !Meaning(e, |values|).Value?
    ensures Front(e, n) == values
    ensures RowsOf(e) != Infinite ==> Reading(e, 0).last == Meaning(e, |values|)
  {
    if RowsOf(e) != Infinite {
      ReadingIs(e, values, Meaning(e, |values|));
    } else {
      forall k | 0 <= k < n ensures Front(e, n)[k] == values[k] {
        assert Meaning(e, k) == Value(values[k]);
      }
    }
  }

  /** A unary operation applies its operator to every value, and ends or fails as its operand. */
  lemma UnReads(e: Expr, n: nat)
    requires WellFormed(e) && e.Un?
    ensures var xs, r := Front(e.a, n), Front(e, n);
      |r| == |xs| && forall k | 0 <= k < |xs| :: r[k] == e.op1(xs[k])
    ensures RowsOf(e) != Infinite ==> Reading(e, 0).last == Reading(e.a, 0).last
  {
    var xs := Front(e.a, n);
    var values := seq(|xs|, k requires 0 <= k < |xs| => e.op1(xs[k]));
    forall k | 0 <= k <= |xs| ensures Yields(e, k) {
      RowYields(e, k);
    }
    assert Yields(e, |xs|) && Behind(e.a, n) == Meaning(e.a, |xs|);
    FrontIs(e, n, values);
  }

  function Least(m: nat, n: nat): nat { if m <= n then m else n }

  /** The number of rows of the first operand that is not infinite, or n if both are. */
  ghost function Span(e: Expr, n: nat): nat
    requires WellFormed(e)
  {
    match e
    case Bin(_, a, b) => if RowsOf(a) != Infinite then |Front(a, n)| else |Front(b, n)|
    case Tern(_, a, b, c) =>
      if RowsOf(a) != Infinite then |Front(a, n)| else if RowsOf(b) != Infinite then |Front(b, n)| else |Front(c, n)|
    case _ => n
  }

  /**
   A binary operation reads as the operator applied row by row, as far as both operands have values; it ends
   if all operands that are not infinite end in the same row, and fails otherwise.
   */
  lemma BinReads(e: Expr, n: nat)
    requires WellFormed(e) && e.Bin?
    ensures var m := Span(e, n);
      var xs, ys, r := Front(e.a, m), Front(e.b, m), Front(e, n);
      && |r| == Least(|xs|, |ys|) && (forall k | 0 <= k < |r| :: r[k] == e.op2(xs[k], ys[k]))
      && (RowsOf(e) != Infinite ==> Reading(e, 0).last == if EndsAfter(e.a, m) && EndsAfter(e.b, m) then End else Fail)
  {
    var m := Span(e, n);
    var xs, ys := Front(e.a, m), Front(e.b, m);
    var least := Least(|xs|, |ys|);
    var values := seq(least, k requires 0 <= k < least => e.op2(xs[k], ys[k]));
    forall k | 0 <= k <= least ensures Yields(e, k) {
      RowYields(e, k);
    }
    assert Yields(e, least);
    assert Behind(e.a, m) == Meaning(e.a, |xs|) && Behind(e.b, m) == Meaning(e.b, |ys|);
    FrontIs(e, n, values);
  }

  /** An operand of `count` values at row i, and whether it ends after exactly m values. */
  ghost predicate Ending(rows: Rows, count: nat, m: nat, ends: bool, i: nat, o: Outcome) {
    && (o.Value? <==> rows == Infinite || i < count)
    && (ends ==> count == m) && (rows == Infinite ==> ends)
    && (rows != Infinite && i == count == m ==> (ends <==> o.End?))
  }

  lemma EndingAt(e: Expr, m: nat, i: nat)
    requires WellFormed(e) && i <= |Front(e, m)|
    ensures Ending(RowsOf(e), |Front(e, m)|, m, EndsAfter(e, m), i, Meaning(e, i))
  {
    assert Behind(e, m) == Meaning(e, |Front(e, m)|);
  }

  lemma TernEnds(op: (Value, Value, Value) -> Value, x: Rows, y: Rows, z: Rows, o1: Outcome, o2: Outcome, o3: Outcome,
                 r: Outcome, nx: nat, ny: nat, nz: nat, m: nat, ex: bool, ey: bool, ez: bool)
    requires TernRow(op, x, y, z, o1, o2, o3, r) && !(x == y == z == Infinite)
    requires m == if x != Infinite then nx else if y != Infinite then ny else nz
    requires var least := Least(nx, Least(ny, nz));
      Ending(x, nx, m, ex, least, o1) && Ending(y, ny, m, ey, least, o2) && Ending(z, nz, m, ez, least, o3)
    ensures r == if ex && ey && ez then End else Fail
  {
  }

  /** The row behind the last value of a ternary operation. */
  lemma TernBehind(e: Expr, m: nat)
    requires WellFormed(e) && e.Tern? && RowsOf(e) != Infinite
    requires m == if RowsOf(e.a) != Infinite then |Front(e.a, m)|
                  else if RowsOf(e.b) != Infinite then |Front(e.b, m)| else |Front(e.c, m)|
    ensures Meaning(e, Least(|Front(e.a, m)|, Least(|Front(e.b, m)|, |Front(e.c, m)|)))
         == if EndsAfter(e.a, m) && EndsAfter(e.b, m) && EndsAfter(e.c, m) then End else Fail
  {
    var nx, ny, nz := |Front(e.a, m)|, |Front(e.b, m)|, |Front(e.c, m)|;
    var least := Least(nx, Least(ny, nz));
    EndingAt(e.a, m, least);
    EndingAt(e.b, m, least);
    EndingAt(e.c, m, least);
    RowYields(e, least);
    TernEnds(e.op3, RowsOf(e.a), RowsOf(e.b), RowsOf(e.c), Meaning(e.a, least), Meaning(e.b, least),
             Meaning(e.c, least), Meaning(e, least), nx, ny, nz, m,
             EndsAfter(e.a, m), EndsAfter(e.b, m), EndsAfter(e.c, m));
  }

  /** The values of a ternary operation. */
  lemma TernValue(e: Expr, m: nat, k: nat)
    requires WellFormed(e) && e.Tern?
    requires k < |Front(e.a, m)| && k < |Front(e.b, m)| && k < |Front(e.c, m)|
    ensures Meaning(e, k) == Value(e.op3(Front(e.a, m)[k], Front(e.b, m)[k], Front(e.c, m)[k]))
  {
    RowYields(e, k);
  }

  /** A ternary operation likewise. */
  lemma TernReads(e: Expr, n: nat)
    requires WellFormed(e) && e.Tern?
    ensures var m := Span(e, n);
      var xs, ys, zs, r := Front(e.a, m), Front(e.b, m), Front(e.c, m), Front(e, n);
      && |r| == Least(|xs|, Least(|ys|, |zs|)) && (forall k | 0 <= k < |r| :: r[k] == e.op3(xs[k], ys[k], zs[k]))
      && (RowsOf(e) != Infinite ==>
            Reading(e, 0).last ==
            if EndsAfter(e.a, m) && EndsAfter(e.b, m) && EndsAfter(e.c, m) then End else Fail)
  {
    var m := Span(e, n);
    var xs, ys, zs := Front(e.a, m), Front(e.b, m), Front(e.c, m);
    var least := Least(|xs|, Least(|ys|, |zs|));
    var values := seq(least, k requires 0 <= k < least => e.op3(xs[k], ys[k], zs[k]));
    forall k | 0 <= k < least ensures Meaning(e, k) == Value(values[k]) {
      TernValue(e, m, k);
    }
    if RowsOf(e) != Infinite { TernBehind(e, m); }
    FrontIs(e, n, values);
  }

  /** The data end, and so do the indices, if at all, in the same row. */
  ghost predicate Matched(data: Expr, indices: Expr)
    requires WellFormed(Sub(data, indices))
  {
    var n := |Reading(data, 0).values|;
    EndsAfter(data, n) && EndsAfter(indices, n)
  }

  /** What a subselection finds at row p of data that read as xs and indices that read as flags. */
  ghost predicate LooksAs(e: Expr, xs: seq<Value>, flags: seq<Value>, last: Outcome, p: nat)
    requires WellFormed(e) && e.Sub?
  {
    Looked(e, p) ==
      if p >= |xs| || p >= |flags| then Stop(last) else if flags[p] == Flag(true) then Hit(xs[p]) else Skip
  }

  lemma LooksAtRow(e: Expr, p: nat)
    requires WellFormed(e) && e.Sub?
    requires var xs := Reading(e.data, 0).values; p <= |xs| && p <= |Front(e.indices, |xs|)|
    ensures var xs := Reading(e.data, 0).values;
      LooksAs(e, xs, Front(e.indices, |xs|), if Matched(e.data, e.indices) then End else Fail, p)
  {
    var xs := Reading(e.data, 0).values;
    RowsSound(e.indices, p);
    assert ReadsAt(e.data, Reading(e.data, 0), 0, p);
    assert RowsOf(e.indices) != Infinite ==> ReadsAt(e.indices, Reading(e.indices, 0), 0, p);
  }

  lemma {:induction false} FilterIsPick(e: Expr, xs: seq<Value>, flags: seq<Value>, last: Outcome, p: nat)
    requires WellFormed(e) && e.Sub? && p <= |xs| && p <= |flags|
    requires forall q: nat | q <= |xs| && q <= |flags| :: LooksAs(e, xs, flags, last, q)
    ensures Filter(e, p) == Filtered(Pick(xs[p..], flags[p..]), last)
    decreases |xs| - p
  {
    assert LooksAs(e, xs, flags, last, p);
    if p < |xs| && p < |flags| {
      FilterIsPick(e, xs, flags, last, p + 1);
      assert xs[p..][1..] == xs[p + 1..] && flags[p..][1..] == flags[p + 1..];
    }
  }

  /**
   A subselection of any two views is the filter of their common rows, and then the end if their rows match,
   and the error if they do not, or if one of them raises an error.
   */
  lemma SubIsPick(e: Expr)
    requires WellFormed(e) && e.Sub?
    ensures var xs := Reading(e.data, 0).values;
      ReadsAs(e, Pick(xs, Front(e.indices, |xs|)), if Matched(e.data, e.indices) then End else Fail)
  {
    var xs := Reading(e.data, 0).values;
    var flags, last := Front(e.indices, |xs|), if Matched(e.data, e.indices) then End else Fail;
    forall q: nat | q <= |xs| && q <= |flags| ensures LooksAs(e, xs, flags, last, q) {
      LooksAtRow(e, q);
    }
    FilterIsPick(e, xs, flags, last, 0);
    assert xs[0..] == xs && flags[0..] == flags;
  }

  /** Infinite indices select from all of the data, and what is behind the data is behind the selection. */
  lemma SubOfInfinite(e: Expr)
    requires WellFormed(e) && e.Sub? && RowsOf(e.indices) == Infinite
    ensures var Filtered(xs, last) := Reading(e.data, 0);
      |Front(e.indices, |xs|)| == |xs| && ReadsAs(e, Pick(xs, Front(e.indices, |xs|)), last)
  {
    SubIsPick(e);
  }

  /** The flags of the base rows that survive both selections; a row without a second flag does not. */
  ghost function Compose(outer: seq<Value>, inner: seq<Value>): (c: seq<Value>)
    ensures |c| == |outer|
  {
    if outer == [] then []
    else if outer[0] != Flag(true) then [Flag(false)] + Compose(outer[1..], inner)
    else if inner == [] then [Flag(false)] + Compose(outer[1..], [])
    else [Flag(inner[0] == Flag(true))] + Compose(outer[1..], inner[1..])
  }

  lemma {:induction false} PickOfPick<T>(xs: seq<T>, outer: seq<Value>, inner: seq<Value>)
    ensures Pick(Pick(xs, outer), inner) == Pick(xs, Compose(outer, inner))
  {
    if xs != [] && outer != [] {
      var rest := Pick(xs[1..], outer[1..]);
      if outer[0] == Flag(true) {
        PickOfPick(xs[1..], outer[1..], if inner == [] then [] else inner[1..]);
        assert Pick(xs, outer) == [xs[0]] + rest && ([xs[0]] + rest)[1..] == rest;
      } else {
        PickOfPick(xs[1..], outer[1..], inner);
        assert Pick(xs, outer) == rest;
      }
      assert Compose(outer, inner)[1..]
          == Compose(outer[1..], if outer[0] == Flag(true) && inner != [] then inner[1..] else inner);
    }
  }

  /** Selecting from a selection selects from the data by the composed flags, whatever the three views are. */
  lemma SubOfSub(d: Expr, p: Expr, q: Expr)
    requires WellFormed(Sub(d, p)) && WellFormed(Sub(Sub(d, p), q))
    ensures ReadsAs(Sub(Sub(d, p), q), Pick(Reading(d, 0).values, Composed(d, p, q)),
                    if Matched(d, p) && Matched(Sub(d, p), q) then End else Fail)
  {
    var xs := Reading(d, 0).values;
    SubIsPick(Sub(d, p));
    ReadingIs(Sub(d, p), Pick(xs, Front(p, |xs|)), if Matched(d, p) then End else Fail);
    SubIsPick(Sub(Sub(d, p), q));
    PickOfPick(xs, Front(p, |xs|), Front(q, |Pick(xs, Front(p, |xs|))|));
  }

  ghost function Composed(d: Expr, p: Expr, q: Expr): seq<Value>
    requires WellFormed(Sub(d, p)) && WellFormed(Sub(Sub(d, p), q))
  {
    var xs := Reading(d, 0).values;
    Compose(Front(p, |xs|), Front(q, |Pick(xs, Front(p, |xs|))|))
  }

  lemma ColumnReads(cells: seq<Value>)
    ensures Reading(Column(cells), 0) == Filtered(cells, End)
  {
    ReadingIs(Column(cells), cells, End);
  }

  /** Data that end have as many rows as declared. */
  lemma EndsAsDeclared(d: Expr)
    requires WellFormed(d) && RowsOf(d).Known? && Reading(d, 0).last.End?
    ensures |Reading(d, 0).values| == RowsOf(d).n
  {
    var xs := Reading(d, 0).values;
    RowsSound(d, |xs|);
    RowsSound(d, RowsOf(d).n);
    assert ReadsAt(d, Reading(d, 0), 0, |xs|);
    assert RowsOf(d).n <= |xs| ==> ReadsAt(d, Reading(d, 0), 0, RowsOf(d).n);
  }

  /** The two views cannot be told apart. */
  ghost predicate Same(a: Expr, b: Expr)
    requires WellFormed(a) && WellFormed(b)
  {
    forall i: nat :: Meaning(a, i) == Meaning(b, i)
  }

  lemma SameReadings(a: Expr, b: Expr, values: seq<Value>, last: Outcome, last': Outcome)
    requires WellFormed(a) && WellFormed(b) && ReadsAs(a, values, last) && ReadsAs(b, values, last')
    ensures Same(a, b) <==> last == last'
  {
    assert Meaning(a, |values|) == last && Meaning(b, |values|) == last';
  }

  /**
   It is the same as one selection by a column of the composed flags, unless that selection ends where the
   two selections raise an error; when all rows match, the one selection can be built and is the same.
   */
  lemma SubOfSubIsSub(d: Expr, p: Expr, q: Expr)
    requires WellFormed(Sub(d, p)) && WellFormed(Sub(Sub(d, p), q))
    ensures var one := Sub(d, Column(Composed(d, p, q)));
      && (Matched(d, p) && Matched(Sub(d, p), q) ==> WellFormed(one))
      && (WellFormed(one) ==>
            (Same(one, Sub(Sub(d, p), q))
             <==> (Matched(d, Column(Composed(d, p, q))) ==> Matched(d, p) && Matched(Sub(d, p), q))))
  {
    var c, xs := Composed(d, p, q), Reading(d, 0).values;
    var one, two := Sub(d, Column(c)), Sub(Sub(d, p), q);
    ColumnReads(c);
    if RowsOf(d).Known? && Matched(d, p) {
      EndsAsDeclared(d);
    }
    if WellFormed(one) {
      SubOfSub(d, p, q);
      SubIsPick(one);
      assert Front(Column(c), |xs|) == c;
      SameReadings(one, two, Pick(xs, c), if Matched(d, Column(c)) then End else Fail,
                   if Matched(d, p) && Matched(Sub(d, p), q) then End else Fail);
    }
  }
}
