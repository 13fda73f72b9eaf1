/** Whole runs: the tree after any sequence of insertions into an empty tree. */
module SearchTreeRuns {
  import opened Wrappers
  import opened SearchTree
  import opened SearchTreeLaws
  import opened SearchTreeBalance

  function Empty<V>(): (t: Tree<V>)
    ensures Shaped(t)
  {
    Tree([], [], [])
  }

  function Build<V>(ops: seq<Entry<V>>, order: nat): (t: Tree<V>)
    ensures Shaped(t)
    decreases |ops|
  {
    if ops == [] then Empty()
    else var last := ops[|ops| - 1]; Insert(Build(ops[..|ops| - 1], order), last.0, last.1, order)
  }

  /** The value of the last insertion under k. */
  ghost function LastValue<V>(ops: seq<Entry<V>>, k: Key): Option<V>
    decreases |ops|
  {
    if ops == [] then None
    else if ops[|ops| - 1].0 == k then Some(ops[|ops| - 1].1)
    else LastValue(ops[..|ops| - 1], k)
  }

  ghost function KeysOf<V>(ops: seq<Entry<V>>): set<Key> {
    set i | 0 <= i < |ops| :: ops[i].0
  }

  lemma {:induction false} LastValueDefined<V>(ops: seq<Entry<V>>, k: Key)
    ensures LastValue(ops, k).Some? <==> k in KeysOf(ops)
    decreases |ops|
  {
    if ops != [] {
      var init := ops[..|ops| - 1];
      LastValueDefined(init, k);
      KeysOfLast(ops);
    }
  }

  lemma KeysOfLast<V>(ops: seq<Entry<V>>)
    requires ops != []
    ensures KeysOf(ops) == KeysOf(ops[..|ops| - 1]) + {ops[|ops| - 1].0}
  {
    var init := ops[..|ops| - 1];
    forall k | k in KeysOf(ops) ensures k in KeysOf(init) + {ops[|ops| - 1].0} {
      var i :| 0 <= i < |ops| && ops[i].0 == k;
      assert i < |init| ==> init[i].0 == k;
    }
    forall k | k in KeysOf(init) ensures k in KeysOf(ops) {
      var i :| 0 <= i < |init| && init[i].0 == k;
      assert ops[i].0 == k;
    }
  }

  /** Every reachable tree is balanced and its content is sorted. */
  lemma {:induction false} RunInvariant<V>(ops: seq<Entry<V>>, order: nat) returns (h: nat)
    requires order >= 2
    ensures Balanced(Build(ops, order), order, h) && Sorted(Flat(Build(ops, order)))
    decreases |ops|
  {
    if ops == [] {
      h := 0;
    } else {
      var last := ops[|ops| - 1];
      var t := Build(ops[..|ops| - 1], order);
      h := RunInvariant(ops[..|ops| - 1], order);
      InsertIsPut(t, last.0, last.1, order);
      InsertBalanced(t, last.0, last.1, order, h);
      h := if InsertInto(t, last.0, last.1, order).Split? then h + 1 else h;
    }
  }

  lemma {:induction false} RunContent<V>(ops: seq<Entry<V>>, order: nat, k: Key)
    requires order >= 2
    ensures Lookup(Flat(Build(ops, order)), k) == LastValue(ops, k)
    decreases |ops|
  {
    if ops != [] {
      var last := ops[|ops| - 1];
      var t := Build(ops[..|ops| - 1], order);
      var _ := RunInvariant(ops[..|ops| - 1], order);
      RunContent(ops[..|ops| - 1], order, k);
      InsertIsPut(t, last.0, last.1, order);
      PutLookup(Flat(t), last.0, last.1, k);
    }
  }

  /** After any run of insertions, searching a key gives the value inserted last, or nothing. */
  lemma RunRefinesMap<V>(ops: seq<Entry<V>>, order: nat, k: Key)
    requires order >= 2
    ensures Get(Build(ops, order), k) == LastValue(ops, k)
  {
    var t := Build(ops, order);
    var _ := RunInvariant(ops, order);
    BalancedIsPopulated(t, order);
    GetIsLookup(t, k);
    RunContent(ops, order, k);
  }

  /** The number of entries is the number of distinct keys: inserting a key again adds none. */
  lemma {:induction false} RunSize<V>(ops: seq<Entry<V>>, order: nat)
    requires order >= 2
    ensures |Flat(Build(ops, order))| == |KeysOf(ops)|
    decreases |ops|
  {
    if ops == [] {
      assert KeysOf(ops) == {};
    } else {
      var last := ops[|ops| - 1];
      var init := ops[..|ops| - 1];
      var t := Build(init, order);
      var _ := RunInvariant(init, order);
      RunSize(init, order);
      RunContent(init, order, last.0);
      LastValueDefined(init, last.0);
      KeysOfLast(ops);
      InsertIsPut(t, last.0, last.1, order);
      PutLength(Flat(t), last.0, last.1);
    }
  }

  /** The height of a reachable tree is logarithmic in the number of its entries. */
  lemma RunHeight<V>(ops: seq<Entry<V>>, order: nat) returns (h: nat)
    requires order >= 2
    ensures Level(Build(ops, order), h)
    ensures h >= 1 ==> |KeysOf(ops)| >= 2 * Pow(order / 2 + 1, h) - 1
  {
    h := RunInvariant(ops, order);
    RunSize(ops, order);
    if h >= 1 {
      LeastSize(Build(ops, order), order, h);
    }
  }

  // ------------------------------------------------------------------------
  // A tree whose size is computed wrongly.

  /** The keys 0, 1, 2, ... */
  ghost function Ascending(n: nat): (ops: seq<Entry<int>>)
    ensures |ops| == n && forall i | 0 <= i < n :: ops[i] == (i, 0)
  {
    seq(n, i => (i, 0))
  }

  lemma {:induction false} AscendingKeys(n: nat)
    ensures |KeysOf(Ascending(n))| == n
  {
    if n == 0 {
      assert KeysOf(Ascending(0)) == {};
    } else {
      AscendingKeys(n - 1);
      assert Ascending(n)[..n - 1] == Ascending(n - 1);
      KeysOfLast(Ascending(n));
      assert n - 1 !in KeysOf(Ascending(n - 1));
    }
  }

  /** size() after 2^31 + order insertions of different keys; the root holds at most `order` of them. */
  lemma SizeOfAscending(order: nat)
    requires 2 <= order < TWO31
    ensures var ops := Ascending(TWO31 + order);
      |KeysOf(ops)| == TWO31 + order && Size(Build(ops, order)) == |KeysOf(ops)| + TWO64 - TWO32
  {
    var ops := Ascending(TWO31 + order);
    var t := Build(ops, order);
    AscendingKeys(TWO31 + order);
    RunSize(ops, order);
    var h := RunInvariant(ops, order);
    FlatTotal(t);
    SizeWraps(t);
  }
}
