/**
 The value of a B-tree, without its memory: keys, values and child trees. Insertion is written as a
 function here, the methods of module BTree are proved against it, and this module proves what the
 function means: the in-order content of the tree is a sorted association list, and inserting into the
 tree is inserting into that list.
 */
module SearchTree {
  import opened Wrappers

  /** Keys are integers. */
  type Key = int

  datatype Tree<V> = Tree(keys: seq<Key>, vals: seq<V>, kids: seq<Tree<V>>)

  /** What inserting into a node leaves behind: the node itself, or a median entry between two nodes. */
  datatype Inserted<V> = Whole(tree: Tree<V>) | Split(key: Key, val: V, smaller: Tree<V>, greater: Tree<V>)

  type Entry<V> = (Key, V)

  /** As many values as keys, and one more child than keys, at every node. */
  predicate Shaped<V>(t: Tree<V>) {
    && |t.keys| == |t.vals|
    && (t.kids != [] ==> |t.kids| == |t.keys| + 1)
    && forall i | 0 <= i < |t.kids| :: Shaped(t.kids[i])
  }

  /** The first position whose key is not smaller than k. */
  function FindPos(keys: seq<Key>, k: Key): (pos: nat)
    ensures pos <= |keys|
    ensures forall j | 0 <= j < pos :: keys[j] < k
    ensures pos < |keys| ==> k <= keys[pos]
  {
    if keys == [] || k <= keys[0] then 0 else
    var pos := FindPos(keys[1..], k);
    assert forall j | 0 < j < pos + 1 :: keys[j] == keys[1..][j - 1];
    pos + 1
  }

  lemma FindPosUnique(keys: seq<Key>, k: Key, pos: nat)
    requires pos <= |keys|
    requires forall j | 0 <= j < pos :: keys[j] < k
    requires pos < |keys| ==> k <= keys[pos]
    ensures pos == FindPos(keys, k)
  {
  }

  function InsertAt<T>(s: seq<T>, pos: nat, x: T): (r: seq<T>)
    requires pos <= |s|
  {
    s[..pos] + [x] + s[pos..]
  }

  /** Replaces the child at pos by two children. */
  function SpliceAt<T>(s: seq<T>, pos: nat, x: T, y: T): (r: seq<T>)
    requires pos < |s|
  {
    s[..pos] + [x, y] + s[pos + 1..]
  }

  function SplitNode<V>(t: Tree<V>): (r: Inserted<V>)
    requires Shaped(t) && t.keys != []
    ensures r.Split? && Shaped(r.smaller) && Shaped(r.greater)
  {
    var m := |t.keys| / 2;
    Split(t.keys[m], t.vals[m],
          Tree(t.keys[..m], t.vals[..m], if t.kids == [] then [] else t.kids[..m + 1]),
          Tree(t.keys[m + 1..], t.vals[m + 1..], if t.kids == [] then [] else t.kids[m + 1..]))
  }

  function Overflow<V>(t: Tree<V>, order: nat): (r: Inserted<V>)
    requires Shaped(t)
    ensures if r.Whole? then r.tree == t else Shaped(r.smaller) && Shaped(r.greater)
  {
    if |t.keys| > order then SplitNode(t) else Whole(t)
  }

  /** The node t after its child at pos was split into l, (k, v) and r. */
  function Adopt<V>(t: Tree<V>, pos: nat, k: Key, v: V, l: Tree<V>, r: Tree<V>): (u: Tree<V>)
    requires Shaped(t) && t.kids != [] && pos <= |t.keys| && Shaped(l) && Shaped(r)
    ensures Shaped(u) && u.kids != []
  {
    Tree(InsertAt(t.keys, pos, k), InsertAt(t.vals, pos, v), SpliceAt(t.kids, pos, l, r))
  }

  function InsertEntry<V>(t: Tree<V>, pos: nat, k: Key, v: V): (r: Tree<V>)
    requires |t.keys| == |t.vals| && pos <= |t.keys|
  {
    t.(keys := InsertAt(t.keys, pos, k), vals := InsertAt(t.vals, pos, v))
  }

  function InsertInto<V>(t: Tree<V>, k: Key, v: V, order: nat): (r: Inserted<V>)
    requires Shaped(t)
    ensures r.Whole? ==> Shaped(r.tree)
    ensures r.Split? ==> Shaped(r.smaller) && Shaped(r.greater)
    decreases t
  {
    var pos := FindPos(t.keys, k);
    if pos < |t.keys| && t.keys[pos] == k then
      Whole(t.(vals := t.vals[pos := v]))
    else if t.kids == [] then
      Overflow(InsertEntry(t, pos, k, v), order)
    else
      match InsertInto(t.kids[pos], k, v, order)
      case Whole(c) => Whole(t.(kids := t.kids[pos := c]))
      case Split(mk, mv, l, r) =>
        Overflow(Adopt(t, pos, mk, mv, l, r), order)
  }

  function Insert<V>(t: Tree<V>, k: Key, v: V, order: nat): (r: Tree<V>)
    requires Shaped(t)
    ensures Shaped(r)
  {
    match InsertInto(t, k, v, order)
    case Whole(t') => t'
    case Split(mk, mv, l, r) => Tree([mk], [mv], [l, r])
  }

  /** The search of the source: scan the keys of one node, then descend into one child. */
  function Get<V>(t: Tree<V>, k: Key): (r: Option<V>)
    requires Shaped(t)
    decreases t
  {
    var pos := FindPos(t.keys, k);
    if pos < |t.keys| && t.keys[pos] == k then Some(t.vals[pos])
    else if t.keys == [] || t.kids == [] then None
    else Get(t.kids[pos], k)
  }

  // ------------------------------------------------------------------------
  // The in-order content of a tree.

  ghost function Zip<V>(ks: seq<Key>, vs: seq<V>): (r: seq<Entry<V>>)
    requires |ks| == |vs|
    ensures |r| == |ks|
    ensures forall i | 0 <= i < |r| :: r[i] == (ks[i], vs[i])
  {
    seq(|ks|, i requires 0 <= i < |ks| => (ks[i], vs[i]))
  }

  ghost function Flat<V>(t: Tree<V>): seq<Entry<V>>
    requires Shaped(t)
    decreases t, 1
  {
    if t.kids == [] then Zip(t.keys, t.vals)
    else Flat(t.kids[0]) + Post(t.keys, t.vals, t.kids[1..])
  }

  /** Child, entry, child, entry, ... */
  ghost function Pre<V>(ks: seq<Key>, vs: seq<V>, cs: seq<Tree<V>>): seq<Entry<V>>
    requires |ks| == |vs| == |cs|
    requires forall i | 0 <= i < |cs| :: Shaped(cs[i])
    decreases cs, 0
  {
    if ks == [] then [] else Flat(cs[0]) + ([(ks[0], vs[0])] + Pre(ks[1..], vs[1..], cs[1..]))
  }

  /** Entry, child, entry, child, ... */
  ghost function Post<V>(ks: seq<Key>, vs: seq<V>, cs: seq<Tree<V>>): seq<Entry<V>>
    requires |ks| == |vs| == |cs|
    requires forall i | 0 <= i < |cs| :: Shaped(cs[i])
    decreases cs, 0
  {
    if ks == [] then [] else [(ks[0], vs[0])] + (Flat(cs[0]) + Post(ks[1..], vs[1..], cs[1..]))
  }

  lemma Regroup<T>(a: seq<T>, b: seq<T>, c: seq<T>, d: seq<T>)
    ensures a + (b + (c + d)) == (a + (b + c)) + d
  {
  }

  lemma PeelPre<V>(ks: seq<Key>, vs: seq<V>, cs: seq<Tree<V>>, pos: nat)
    requires |ks| == |vs| && |ks| < |cs| && 0 < pos <= |ks|
    requires forall i | 0 <= i < |cs| :: Shaped(cs[i])
    ensures Pre(ks[..pos], vs[..pos], cs[..pos])
         == Flat(cs[0]) + ([(ks[0], vs[0])] + Pre(ks[1..][..pos - 1], vs[1..][..pos - 1], cs[1..][..pos - 1]))
  {
    assert ks[..pos][1..] == ks[1..][..pos - 1] && vs[..pos][1..] == vs[1..][..pos - 1];
    assert cs[..pos][1..] == cs[1..][..pos - 1];
  }

  /** The content of an inner node, seen from one of its children. */
  lemma {:induction false} FlatAt<V>(t: Tree<V>, pos: nat)
    requires Shaped(t) && t.kids != [] && pos <= |t.keys|
    ensures Flat(t) == Pre(t.keys[..pos], t.vals[..pos], t.kids[..pos])
                       + (Flat(t.kids[pos]) + Post(t.keys[pos..], t.vals[pos..], t.kids[pos + 1..]))
    decreases pos
  {
    if pos == 0 {
      assert t.keys[0..] == t.keys && t.vals[0..] == t.vals;
      assert Pre(t.keys[..0], t.vals[..0], t.kids[..0]) == [];
    } else {
      var u := Tree(t.keys[1..], t.vals[1..], t.kids[1..]);
      FlatAt(u, pos - 1);
      PeelPre(t.keys, t.vals, t.kids, pos);
      assert u.keys[pos - 1..] == t.keys[pos..] && u.vals[pos - 1..] == t.vals[pos..];
      assert u.kids[pos..] == t.kids[pos + 1..];
      Regroup(Flat(t.kids[0]), [(t.keys[0], t.vals[0])], Pre(u.keys[..pos - 1], u.vals[..pos - 1], u.kids[..pos - 1]),
              Flat(t.kids[pos]) + Post(t.keys[pos..], t.vals[pos..], t.kids[pos + 1..]));
      assert t.kids[1..][1..] == u.kids[1..];
    }
  }
}
