/**
 The shape of every tree that insertions can build: all leaves at one depth, every node but the root at
 least half full, and therefore a height that is logarithmic in the number of entries. Also the size
 that the source computes, which accumulates the sizes of the children in a 32-bit integer.
 */
module SearchTreeBalance {
  import opened SearchTree
  import opened SearchTreeLaws

  /** All leaves are h levels below this node. */
  ghost predicate Level<V>(t: Tree<V>, h: nat)
    decreases h
  {
    if h == 0 then t.kids == []
    else t.kids != [] && forall i | 0 <= i < |t.kids| :: Level(t.kids[i], h - 1)
  }

  ghost predicate Fill(n: nat, order: nat) { order / 2 <= n <= order }

  /** Every node below this one is between half full and full. */
  ghost predicate Filled<V>(t: Tree<V>, order: nat) {
    forall i | 0 <= i < |t.kids| :: Fill(|t.kids[i].keys|, order) && Filled(t.kids[i], order)
  }

  ghost predicate Balanced<V>(t: Tree<V>, order: nat, h: nat) {
    Shaped(t) && Level(t, h) && Filled(t, order) && |t.keys| <= order && (h > 0 ==> t.keys != [])
  }

  lemma SplitBalanced<V>(t: Tree<V>, order: nat, h: nat)
    requires Shaped(t) && Level(t, h) && Filled(t, order) && |t.keys| == order + 1 && order >= 2
    ensures var r := SplitNode(t);
      && Level(r.smaller, h) && Filled(r.smaller, order) && Fill(|r.smaller.keys|, order)
      && Level(r.greater, h) && Filled(r.greater, order) && Fill(|r.greater.keys|, order)
  {
  }

  lemma AdoptBalanced<V>(t: Tree<V>, pos: nat, k: Key, v: V, l: Tree<V>, r: Tree<V>, order: nat, h: nat)
    requires Shaped(t) && t.kids != [] && pos <= |t.keys| && Shaped(l) && Shaped(r)
    requires h > 0 && Level(t, h) && Filled(t, order)
    requires Level(l, h - 1) && Filled(l, order) && Fill(|l.keys|, order)
    requires Level(r, h - 1) && Filled(r, order) && Fill(|r.keys|, order)
    ensures Level(Adopt(t, pos, k, v, l, r), h) && Filled(Adopt(t, pos, k, v, l, r), order)
  {
  }

  /** Insertion keeps the height of the node, or splits it into two nodes of that height. */
  lemma {:induction false} InsertIntoBalanced<V>(t: Tree<V>, k: Key, v: V, order: nat, h: nat)
    requires Shaped(t) && Level(t, h) && Filled(t, order) && |t.keys| <= order && order >= 2
    ensures match InsertInto(t, k, v, order)
      case Whole(u) => Level(u, h) && Filled(u, order) && |t.keys| <= |u.keys| <= order
      case Split(_, _, l, r) =>
        && Level(l, h) && Filled(l, order) && Fill(|l.keys|, order)
        && Level(r, h) && Filled(r, order) && Fill(|r.keys|, order)
    decreases t
  {
    var pos := FindPos(t.keys, k);
    if pos < |t.keys| && t.keys[pos] == k {
    } else if t.kids == [] {
      var u := InsertEntry(t, pos, k, v);
      if |u.keys| > order {
        SplitBalanced(u, order, h);
      }
    } else {
      InsertIntoBalanced(t.kids[pos], k, v, order, h - 1);
      match InsertInto(t.kids[pos], k, v, order) {
        case Whole(c) =>
        case Split(mk, mv, l, r) =>
          var u := Adopt(t, pos, mk, mv, l, r);
          AdoptBalanced(t, pos, mk, mv, l, r, order, h);
          if |u.keys| > order {
            SplitBalanced(u, order, h);
          }
      }
    }
  }

  /** Insertion keeps the tree balanced; it grows at the root only, by one level. */
  lemma InsertBalanced<V>(t: Tree<V>, k: Key, v: V, order: nat, h: nat)
    requires Balanced(t, order, h) && order >= 2
    ensures Balanced(Insert(t, k, v, order), order, if InsertInto(t, k, v, order).Split? then h + 1 else h)
  {
    InsertIntoBalanced(t, k, v, order, h);
    match InsertInto(t, k, v, order) {
      case Whole(_) =>
      case Split(mk, mv, l, r) =>
        var u := Tree([mk], [mv], [l, r]);
        assert Level(u, h + 1) && Filled(u, order);
    }
  }

  lemma InsertKeepsInvariant<V>(t: Tree<V>, k: Key, v: V, order: nat, h: nat)
    requires Balanced(t, order, h) && order >= 2 && Sorted(Flat(t))
    ensures Balanced(Insert(t, k, v, order), order, if InsertInto(t, k, v, order).Split? then h + 1 else h)
    ensures Sorted(Flat(Insert(t, k, v, order)))
  {
    InsertBalanced(t, k, v, order, h);
    InsertIsPut(t, k, v, order);
  }

  lemma {:induction false} BalancedIsPopulated<V>(t: Tree<V>, order: nat)
    requires Filled(t, order) && order >= 2 && (t.kids != [] ==> t.keys != [])
    ensures Populated(t)
    decreases t
  {
    forall i | 0 <= i < |t.kids| ensures Populated(t.kids[i]) {
      BalancedIsPopulated(t.kids[i], order);
    }
  }

  // ------------------------------------------------------------------------
  // Height.

  ghost function Pow(b: nat, e: nat): (r: nat)
  {
    if e == 0 then 1 else b * Pow(b, e - 1)
  }

  lemma MulSucc(n: nat, c: nat)
    requires n > 0
    ensures n * c == c + (n - 1) * c
  {
  }

  lemma {:induction false} PostLength<V>(ks: seq<Key>, vs: seq<V>, cs: seq<Tree<V>>, least: nat)
    requires |ks| == |vs| == |cs|
    requires forall i | 0 <= i < |cs| :: Shaped(cs[i]) && |Flat(cs[i])| >= least
    ensures |Post(ks, vs, cs)| >= |ks| + |ks| * least
    decreases |ks|
  {
    if ks != [] {
      PostLength(ks[1..], vs[1..], cs[1..], least);
      MulSucc(|ks|, least);
      assert |Flat(cs[0])| >= least;
    }
  }

  /** A node of height h that is not the root holds at least (order / 2 + 1) ^ (h + 1) - 1 entries. */
  lemma {:induction false} NodeLeastSize<V>(t: Tree<V>, order: nat, h: nat)
    requires Shaped(t) && Level(t, h) && Filled(t, order) && |t.keys| >= order / 2
    ensures |Flat(t)| >= Pow(order / 2 + 1, h + 1) - 1
    decreases h
  {
    var m := order / 2;
    if h == 0 {
      assert Pow(m + 1, 1) == (m + 1) * Pow(m + 1, 0);
    } else {
      var least := Pow(m + 1, h) - 1;
      PowPositive(m + 1, h);
      forall i | 0 <= i < |t.kids| ensures |Flat(t.kids[i])| >= least {
        NodeLeastSize(t.kids[i], order, h - 1);
      }
      PostLength(t.keys, t.vals, t.kids[1..], least);
      LeastSizeStep(m, |t.keys|, Pow(m + 1, h));
    }
  }

  lemma LeastSizeStep(m: nat, n: nat, p: nat)
    requires m <= n && p > 0
    ensures (p - 1) + (n + n * (p - 1)) >= (m + 1) * p - 1
  {
    MulMonotone(m, n, p);
    assert n + n * (p - 1) == n * p;
    assert (m + 1) * p == m * p + p;
  }

  lemma MulMonotone(a: nat, b: nat, c: nat)
    requires a <= b
    ensures a * c <= b * c
  {
  }

  lemma {:induction false} PowPositive(b: nat, e: nat)
    requires b > 0
    ensures Pow(b, e) > 0
  {
    if e > 0 {
      PowPositive(b, e - 1);
    }
  }

  /** A tree of height h >= 1 holds at least 2 * (order / 2 + 1) ^ h - 1 entries. */
  lemma LeastSize<V>(t: Tree<V>, order: nat, h: nat)
    requires Balanced(t, order, h) && h >= 1
    ensures |Flat(t)| >= 2 * Pow(order / 2 + 1, h) - 1
  {
    var least := Pow(order / 2 + 1, h) - 1;
    PowPositive(order / 2 + 1, h);
    forall i | 0 <= i < |t.kids| ensures |Flat(t.kids[i])| >= least {
      NodeLeastSize(t.kids[i], order, h - 1);
    }
    PostLength(t.keys, t.vals, t.kids[1..], least);
    MulMonotone(1, |t.keys|, least);
  }

  // ------------------------------------------------------------------------
  // The size the source computes.

  const TWO31 := 0x8000_0000
  const TWO32 := 0x1_0000_0000
  const TWO63 := 0x8000_0000_0000_0000
  const TWO64 := 0x1_0000_0000_0000_0000

  /** Conversion to a 32-bit signed integer. */
  function ToInt(x: int): (r: int)
    ensures -TWO31 <= r < TWO31
  {
    (x + TWO31) % TWO32 - TWO31
  }

  /** Conversion to a 64-bit unsigned integer. */
  function ToSize(x: int): (r: nat)
    ensures r < TWO64
  {
    x % TWO64
  }

  function Size<V>(t: Tree<V>): nat
    decreases t, 1
  {
    if t.kids == [] then |t.keys| else ToSize(|t.keys| + ToSize(Accumulate(0, t.kids)))
  }

  /** The accumulator has the type of its initial value, the int literal 0. */
  function Accumulate<V>(acc: int, cs: seq<Tree<V>>): int
    decreases cs, 0
  {
    if cs == [] then acc else Accumulate(ToInt(ToSize(ToSize(acc) + Size(cs[0]))), cs[1..])
  }

  ghost function Total<V>(cs: seq<Tree<V>>): (r: nat)
    requires forall i | 0 <= i < |cs| :: Shaped(cs[i])
  {
    if cs == [] then 0 else |Flat(cs[0])| + Total(cs[1..])
  }

  lemma {:induction false} FlatTotal<V>(t: Tree<V>)
    requires Shaped(t)
    ensures |Flat(t)| == |t.keys| + Total(t.kids)
  {
    if t.kids != [] {
      PostTotal(t.keys, t.vals, t.kids[1..]);
    }
  }

  lemma {:induction false} PostTotal<V>(ks: seq<Key>, vs: seq<V>, cs: seq<Tree<V>>)
    requires |ks| == |vs| == |cs|
    requires forall i | 0 <= i < |cs| :: Shaped(cs[i])
    ensures |Post(ks, vs, cs)| == |ks| + Total(cs)
    decreases |ks|
  {
    if ks != [] {
      PostTotal(ks[1..], vs[1..], cs[1..]);
    }
  }

  lemma ModShift(x: int, q: int)
    ensures (x + TWO32 * q) % TWO32 == x % TWO32
  {
  }

  lemma ToSizeMod(x: int)
    ensures ToSize(x) % TWO32 == x % TWO32
  {
    var q := x / TWO64;
    assert x == ToSize(x) + TWO32 * (TWO32 * q);
    ModShift(ToSize(x), TWO32 * q);
  }

  lemma ToIntMod(x: int, y: int)
    requires x % TWO32 == y % TWO32
    ensures ToInt(x) == ToInt(y)
    ensures ToInt(x) % TWO32 == x % TWO32
  {
  }

  lemma AddMod(a: int, b: int, c: int, d: int)
    requires a % TWO32 == c % TWO32 && b % TWO32 == d % TWO32
    ensures (a + b) % TWO32 == (c + d) % TWO32
  {
  }

  lemma {:induction false} AccumulateMod<V>(acc: int, cs: seq<Tree<V>>)
    requires forall i | 0 <= i < |cs| :: Shaped(cs[i])
    ensures ToInt(Accumulate(acc, cs)) == ToInt(acc + Total(cs))
    ensures cs != [] ==> Accumulate(acc, cs) == ToInt(acc + Total(cs))
    decreases cs, 0
  {
    if cs != [] {
      var c := cs[0];
      SizeMod(c);
      ToSizeMod(acc);
      ToSizeMod(ToSize(acc) + Size(c));
      AddMod(ToSize(acc), Size(c), acc, |Flat(c)|);
      var next := ToSize(ToSize(acc) + Size(c));
      ToIntMod(next, acc + |Flat(c)|);
      AccumulateMod(ToInt(next), cs[1..]);
      AddMod(ToInt(next), Total(cs[1..]), acc + |Flat(c)|, Total(cs[1..]));
      ToIntMod(ToInt(next) + Total(cs[1..]), acc + Total(cs));
      ToIntMod(ToInt(acc + Total(cs)), acc + Total(cs));
    }
  }

  /** The computed size is right modulo 2^32, whatever the size of the tree. */
  lemma {:induction false} SizeMod<V>(t: Tree<V>)
    requires Shaped(t)
    ensures Size(t) % TWO32 == |Flat(t)| % TWO32
    decreases t, 1
  {
    FlatTotal(t);
    if t.kids != [] {
      var acc := Accumulate(0, t.kids);
      AccumulateMod(0, t.kids);
      ToIntMod(Total(t.kids), Total(t.kids));
      ToSizeMod(acc);
      AddMod(|t.keys|, ToSize(acc), |t.keys|, Total(t.kids));
      ToSizeMod(|t.keys| + ToSize(acc));
    }
  }

  lemma SizeArithmetic(k: nat, n: nat)
    requires k + n < TWO63
    ensures ToSize(k + ToSize(ToInt(n))) == k + n <==> n < TWO31
  {
    var acc := ToInt(n);
    assert ToSize(acc) == if acc < 0 then acc + TWO64 else acc;
    if n >= TWO31 {
      assert acc < TWO31;
      var x := k + ToSize(acc);
      assert ToSize(x) == if x >= TWO64 then x - TWO64 else x;
    }
  }

  /** The computed size is the number of entries exactly when fewer than 2^31 of them are below the root. */
  lemma SizeExact<V>(t: Tree<V>)
    requires Shaped(t) && |Flat(t)| < TWO63
    ensures Size(t) == |Flat(t)| <==> t.kids == [] || |Flat(t)| - |t.keys| < TWO31
  {
    FlatTotal(t);
    if t.kids != [] {
      AccumulateMod(0, t.kids);
      SizeArithmetic(|t.keys|, Total(t.kids));
    }
  }

  lemma WrapArithmetic(k: nat, n: nat)
    requires TWO31 <= n && k + n < TWO32
    ensures ToSize(k + ToSize(ToInt(n))) == k + n + TWO64 - TWO32
  {
    var acc := ToInt(n);
    assert acc == n - TWO32 && ToSize(acc) == acc + TWO64;
  }

  /** With between 2^31 and 2^32 entries below the root the accumulator is negative and becomes a huge number. */
  lemma SizeWraps<V>(t: Tree<V>)
    requires Shaped(t) && t.kids != [] && TWO31 <= |Flat(t)| - |t.keys| && |Flat(t)| < TWO32
    ensures Size(t) == |Flat(t)| + TWO64 - TWO32
  {
    FlatTotal(t);
    AccumulateMod(0, t.kids);
    WrapArithmetic(|t.keys|, Total(t.kids));
  }
}
