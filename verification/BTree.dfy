/**
 The memory-mapped B-tree (memmap/BTree.hpp, memmap/BTreeNode.hpp). A node is copied out of its block
 before it is changed and written back afterwards, vectors may move to other blocks while they grow, and
 a split hands the blocks of the split node over to its smaller half. Every method is proved against
 the functions of module SearchTree, and its change of the memory is exactly a change of the blocks that
 it owns.
 */
module BTree {
  import opened Wrappers
  import opened SearchTree
  import opened SearchTreeLaws
  import opened SearchTreeBalance
  import opened Memmap
  import opened Ownership
  import opened BTreeBlocks

  class BTree {
    const pool: Pool
    const order: nat
    var root: Node
    ghost var tree: PTree
    ghost var height: nat

    ghost predicate Valid()
      reads this, pool
    {
      && order >= 16
      && Holds(pool.mem, tree) && Apart(tree) && tree.node == root
      && Balanced(Erase(tree), order, height) && Sorted(Flat(Erase(tree)))
    }

    constructor (p: Pool, keysPerPage: nat)
      modifies p
      ensures pool == p && order == (if keysPerPage > 16 then keysPerPage else 16)
      ensures Valid() && Erase(tree) == Tree([], [], [])
      ensures Conserved(old(p.mem), p.mem, {}, Foot(tree))
    {
      var n := AllocateNewNode(p);
      pool := p;
      order := if keysPerPage > 16 then keysPerPage else 16;
      root := n;
      tree := PTree(n, [], [], []);
      height := 0;
      new;
      assert Flat(Erase(tree)) == [];
      assert Foot(tree) == OwnPages(n);
    }

    static method AllocateNewNode(pool: Pool) returns (n: Node)
      modifies pool
      ensures Body(pool.mem, n, [], [], [])
      ensures Conserved(old(pool.mem), pool.mem, {}, OwnPages(n))
    {
      var keys := pool.NewVector();
      ghost var m1 := pool.mem;
      var values := pool.NewVector();
      BlockFrame(m1, pool.mem, {}, PageOf(values), keys);
      ConservedRest(m1, pool.mem, {}, PageOf(values), PageOf(keys));
      ConservedTransitive(old(pool.mem), m1, pool.mem, {}, PageOf(keys), PageOf(values) + PageOf(keys)) by {
        assert {} + PageOf(keys) == PageOf(keys);
      }
      n := Node(NO_BLOCK, keys, values);
      assert OwnPages(n) == PageOf(values) + PageOf(keys);
    }

    method KeyAt(h: Handle, i: nat, ghost ks: seq<Key>) returns (k: Key)
      requires Block(pool.mem, h) && Cells(pool.mem, h) == KeyCells(ks) && i < |ks|
      ensures k == ks[i]
    {
      assert Cells(pool.mem, h)[i] == KeyCell(ks[i]);
      k := pool.mem[h.page][i].key;
    }

    method ValueAt(h: Handle, i: nat, ghost vs: seq<Handle>) returns (v: Handle)
      requires Block(pool.mem, h) && Cells(pool.mem, h) == ListCells(vs) && i < |vs|
      ensures v == vs[i]
    {
      assert Cells(pool.mem, h)[i] == ListCell(vs[i]);
      v := pool.mem[h.page][i].list;
    }

    method ChildAt(h: Handle, i: nat, ghost ns: seq<Node>) returns (c: Node)
      requires Block(pool.mem, h) && Cells(pool.mem, h) == NodeCells(ns) && i < |ns|
      ensures c == ns[i]
    {
      assert Cells(pool.mem, h)[i] == NodeCell(ns[i]);
      c := pool.mem[h.page][i].node;
    }

    /** The position of the first key that is not smaller than k, or the number of keys. */
    method FindPosition(k: Key, keys: Handle, ghost ks: seq<Key>) returns (pos: nat)
      requires Block(pool.mem, keys) && Cells(pool.mem, keys) == KeyCells(ks)
      ensures pos == FindPos(ks, k)
    {
      var i := 0;
      while i < keys.size
        invariant i <= keys.size == |ks|
        invariant forall j | 0 <= j < i :: ks[j] < k
      {
        var key := KeyAt(keys, i, ks);
        if key >= k {
          return i;
        }
        i := i + 1;
      }
      pos := keys.size;
    }

    method InsertKeyValue(k: Key, v: Handle, pos: nat, n: Node, ghost ks: seq<Key>, ghost vs: seq<Handle>,
        ghost ns: seq<Node>)
      returns (n': Node)
      requires Body(pool.mem, n, ks, vs, ns) && |ks| == |vs| && pos <= |ks|
      modifies pool
      ensures if pos < |ks| && ks[pos] == k then Body(pool.mem, n', ks, vs[pos := v], ns)
              else Body(pool.mem, n', InsertAt(ks, pos, k), InsertAt(vs, pos, v), ns)
      ensures Conserved(old(pool.mem), pool.mem, OwnPages(n), OwnPages(n'))
    {
      ghost var m0 := pool.mem;
      if pos < n.keys.size {
        var key := KeyAt(n.keys, pos, ks);
        if key == k {
          pool.SetCell(n.values, pos, ListCell(v));
          assert ListCells(vs)[pos := ListCell(v)] == ListCells(vs[pos := v]);
          ValuesStep(m0, pool.mem, n, n.values, ks, vs, ns, vs[pos := v]);
          return n;
        }
      }
      var keys, values;
      ghost var ks', vs' := InsertAt(ks, pos, k), InsertAt(vs, pos, v);
      assert InsertAt(KeyCells(ks), pos, KeyCell(k)) == KeyCells(ks');
      assert InsertAt(ListCells(vs), pos, ListCell(v)) == ListCells(vs');
      if pos == n.keys.size {
        keys := pool.PushBack(n.keys, KeyCell(k));
        assert KeyCells(ks) + [KeyCell(k)] == InsertAt(KeyCells(ks), pos, KeyCell(k));
      } else {
        keys := pool.InsertCell(n.keys, pos, KeyCell(k));
      }
      ghost var m1 := pool.mem;
      KeysStep(m0, m1, n, keys, ks, vs, ns, ks');
      ghost var n1 := n.(keys := keys);
      if pos == n.keys.size {
        values := pool.PushBack(n.values, ListCell(v));
        assert ListCells(vs) + [ListCell(v)] == InsertAt(ListCells(vs), pos, ListCell(v));
      } else {
        values := pool.InsertCell(n.values, pos, ListCell(v));
      }
      n' := n.(keys := keys, values := values);
      ValuesStep(m1, pool.mem, n1, values, ks', vs, ns, vs');
      ConservedTransitive(m0, m1, pool.mem, OwnPages(n), OwnPages(n1), OwnPages(n'));
    }

    /** Replaces the (already yielded) child at pos by two children, or grows a new root. */
    method InsertChildren(smaller: Node, greater: Node, pos: nat, n: Node,
                          ghost ks: seq<Key>, ghost vs: seq<Handle>, ghost ns: seq<Node>)
      returns (n': Node)
      requires Body(pool.mem, n, ks, vs, ns) && (ns != [] ==> pos < |ns|)
      modifies pool
      ensures Body(pool.mem, n', ks, vs, if ns == [] then [smaller, greater] else SpliceAt(ns, pos, smaller, greater))
      ensures Conserved(old(pool.mem), pool.mem, OwnPages(n), OwnPages(n'))
    {
      ghost var m0 := pool.mem;
      if !n.children.IsAllocated() {
        var children := pool.NewVector();
        ghost var m1, c1 := pool.mem, children;
        children := pool.PushBack(children, NodeCell(smaller));
        ConservedTransitive(m0, m1, pool.mem, {}, PageOf(c1), PageOf(children));
        ghost var m2, c2 := pool.mem, children;
        children := pool.PushBack(children, NodeCell(greater));
        ConservedTransitive(m0, m2, pool.mem, {}, PageOf(c2), PageOf(children));
        n' := n.(children := children);
        assert Cells(pool.mem, children) == NodeCells([smaller, greater]);
        ChildrenStep(m0, pool.mem, n, children, ks, vs, ns, [smaller, greater]);
      } else {
        var children := pool.InsertCell(n.children, pos, NodeCell(smaller));
        ghost var m1 := pool.mem;
        pool.SetCell(children, pos + 1, NodeCell(greater));
        ConservedTransitive(m0, m1, pool.mem, PageOf(n.children), PageOf(children), PageOf(children));
        n' := n.(children := children);
        assert InsertAt(NodeCells(ns), pos, NodeCell(smaller))[pos + 1 := NodeCell(greater)]
            == NodeCells(SpliceAt(ns, pos, smaller, greater));
        ChildrenStep(m0, pool.mem, n, children, ks, vs, ns, SpliceAt(ns, pos, smaller, greater));
      }
    }

    /** The greater part of a node to be split: copies into new blocks. */
    method SplitNodeMakeGreater(n: Node, median: nat, ghost ks: seq<Key>, ghost vs: seq<Handle>, ghost ns: seq<Node>)
      returns (g: Node)
      requires Body(pool.mem, n, ks, vs, ns) && median < |ks| == |vs| && (ns != [] ==> |ns| == |ks| + 1)
      modifies pool
      ensures Body(pool.mem, n, ks, vs, ns)
      ensures Body(pool.mem, g, ks[median + 1..], vs[median + 1..], if ns == [] then [] else ns[median + 1..])
      ensures OwnPages(g) !! OwnPages(n) && Conserved(old(pool.mem), pool.mem, {}, OwnPages(g))
    {
      ghost var m0 := pool.mem;
      var children := NO_BLOCK;
      if n.children.IsAllocated() {
        children := pool.CopyTail(n.children, median + 1);
        assert NodeCells(ns)[median + 1..] == NodeCells(ns[median + 1..]);
      }
      ghost var m1 := pool.mem;
      assert Conserved(m0, m1, {}, PageOf(children)) by { assert m0 - {} == m0; }
      BodyFrame(m0, m1, {}, PageOf(children), n, ks, vs, ns);
      var keys := pool.CopyTail(n.keys, median + 1);
      assert KeyCells(ks)[median + 1..] == KeyCells(ks[median + 1..]);
      ghost var m2 := pool.mem;
      BodyFrame(m1, m2, {}, PageOf(keys), n, ks, vs, ns);
      var values := pool.CopyTail(n.values, median + 1);
      assert ListCells(vs)[median + 1..] == ListCells(vs[median + 1..]);
      BodyFrame(m2, pool.mem, {}, PageOf(values), n, ks, vs, ns);
      g := Node(children, keys, values);
      ThreeNew(m0, m1, m2, pool.mem, children, keys, values);
    }

    /** The smaller part of a node to be split: shorter handles of the same blocks, in which nothing is written. */
    method SplitNodeMakeSmaller(median: nat, n: Node, ghost ks: seq<Key>, ghost vs: seq<Handle>, ghost ns: seq<Node>)
      returns (s: Node)
      requires Body(pool.mem, n, ks, vs, ns) && median < |ks| == |vs| && (ns != [] ==> |ns| == |ks| + 1)
      ensures Body(pool.mem, s, ks[..median], vs[..median], if ns == [] then [] else ns[..median + 1])
      ensures OwnPages(s) == OwnPages(n)
    {
      var children := if n.children.IsAllocated() then Handle(n.children.page, median + 1) else NO_BLOCK;
      s := Node(children, Handle(n.keys.page, median), Handle(n.values.page, median));
      assert Cells(pool.mem, s.keys) == Cells(pool.mem, n.keys)[..median] == KeyCells(ks[..median]);
      assert Cells(pool.mem, s.values) == Cells(pool.mem, n.values)[..median] == ListCells(vs[..median]);
      if ns != [] {
        assert Cells(pool.mem, children) == Cells(pool.mem, n.children)[..median + 1] == NodeCells(ns[..median + 1]);
      }
    }

    /** Splits a node into two nodes and a median entry; the smaller one takes over the blocks of the node. */
    method SplitNode(n: Node, ghost ks: seq<Key>, ghost vs: seq<Handle>, ghost ns: seq<Node>) returns (r: SplitReturn)
      requires Body(pool.mem, n, ks, vs, ns) && 3 <= |ks| == |vs| && (ns != [] ==> |ns| == |ks| + 1)
      modifies pool
      ensures var m := |ks| / 2;
        && r.key == ks[m] && r.val == vs[m]
        && Body(pool.mem, r.smaller, ks[..m], vs[..m], if ns == [] then [] else ns[..m + 1])
        && Body(pool.mem, r.greater, ks[m + 1..], vs[m + 1..], if ns == [] then [] else ns[m + 1..])
      ensures OwnPages(r.smaller) == OwnPages(n) && OwnPages(n) !! OwnPages(r.greater)
      ensures Conserved(old(pool.mem), pool.mem, {}, OwnPages(r.greater))
    {
      var median := n.keys.size / 2;
      var key := KeyAt(n.keys, median, ks);
      var val := ValueAt(n.values, median, vs);
      var greater := SplitNodeMakeGreater(n, median, ks, vs, ns);
      var smaller := SplitNodeMakeSmaller(median, n, ks, vs, ns);
      r := SplitReturn(key, val, smaller, greater);
    }

    /** Inserts below a node. The node is a copy; the caller writes it back. */
    method InsertIntoTree(k: Key, v: Handle, n: Node, ghost t: PTree)
      returns (n': Node, split: Option<SplitReturn>, ghost r: PInserted)
      requires order >= 16 && Holds(pool.mem, t) && Apart(t) && t.node == n
      requires Shaped(Erase(t)) && Sorted(Flat(Erase(t)))
      modifies pool
      ensures Stored(pool.mem, n', split, r)
      ensures Erased(r) == InsertInto(Erase(t), k, v, order)
      ensures Conserved(old(pool.mem), pool.mem, Foot(t), FootOf(r))
      decreases t
    {
      ghost var m0 := pool.mem;
      ghost var ns := NodesOf(t.kids);
      var pos := FindPosition(k, n.keys, t.keys);
      var found := false;
      if pos < n.keys.size {
        var key := KeyAt(n.keys, pos, t.keys);
        found := key == k;
      }
      if found {
        n' := InsertKeyValue(k, v, pos, n, t.keys, t.vals, ns);
        NodeStep(m0, pool.mem, n, n', t.kids);
        r := PWhole(PTree(n', t.keys, t.vals[pos := v], t.kids));
        split := None;
      } else if !n.children.IsAllocated() {
        n' := InsertKeyValue(k, v, pos, n, t.keys, t.vals, ns);
        ghost var u := PTree(n', InsertAt(t.keys, pos, k), InsertAt(t.vals, pos, v), t.kids);
        NodeStep(m0, pool.mem, n, n', t.kids);
        ghost var m1 := pool.mem;
        n', split, r := SplitIfFull(n', u);
        ConservedTransitive(m0, m1, pool.mem, Foot(t), Foot(u), FootOf(r));
      } else {
        var child := ChildAt(n.children, pos, ns);
        n', split, r := InsertIntoChild(k, v, pos, child, n, t);
      }
    }

    /** Inserts into a copy of the child at pos, writes the child back and adopts the halves if it was split. */
    method InsertIntoChild(k: Key, v: Handle, pos: nat, child: Node, n: Node, ghost t: PTree)
      returns (n': Node, split: Option<SplitReturn>, ghost r: PInserted)
      requires order >= 16 && Holds(pool.mem, t) && Apart(t) && t.node == n
      requires Shaped(Erase(t)) && Sorted(Flat(Erase(t))) && t.kids != []
      requires pos == FindPos(t.keys, k) && (pos < |t.keys| ==> t.keys[pos] != k) && child == t.kids[pos].node
      modifies pool
      ensures Stored(pool.mem, n', split, r)
      ensures Erased(r) == InsertInto(Erase(t), k, v, order)
      ensures Conserved(old(pool.mem), pool.mem, Foot(t), FootOf(r))
      decreases t, 0
    {
      ghost var m0 := pool.mem;
      SplitForest(t.kids, pos);
      AroundChild(Erase(t), k);
      ghost var rc;
      var child', childSplit;
      child', childSplit, rc := InsertIntoTree(k, v, child, t.kids[pos]);
      ghost var cs := Spliced(t.kids, pos, Trees(rc));
      ChildReplaced(m0, pool.mem, t, pos, child', childSplit, rc);
      WriteBack(child', pos, n, t.keys, t.vals, NodesOf(t.kids), cs, m0, Foot(t));
      match childSplit {
        case None =>
          n', split, r := n, None, PWhole(PTree(n, t.keys, t.vals, cs));
          NodesOfSplicedOne(t.kids, pos, rc.tree);
          EraseSplicedOne(t, pos, rc.tree);
        case Some(s) =>
          if pos < |t.keys| {
            MedianBelowSeparator(Erase(t), k, v, order);
          }
          n', split, r := AdoptSplit(s, pos, n, t, rc, m0);
      }
    }

    method WriteBack(child: Node, pos: nat, n: Node, ghost ks: seq<Key>, ghost vs: seq<Handle>, ghost ns: seq<Node>,
                     ghost cs: seq<PTree>, ghost m0: Mem, ghost from: set<Page>)
      requires Assembled(m0, pool.mem, from, n, ks, vs, ns, cs) && pos < |ns|
      modifies pool
      ensures Assembled(m0, pool.mem, from, n, ks, vs, ns[pos := child], cs)
    {
      ghost var m1 := pool.mem;
      pool.SetCell(n.children, pos, NodeCell(child));
      NodeCellsUpdate(ns, pos, child);
      ChildrenStep(m1, pool.mem, n, n.children, ks, vs, ns, ns[pos := child]);
      AssembledStep(m0, m1, pool.mem, from, n, n, ks, vs, ns, ks, vs, ns[pos := child], cs);
    }

    /** Adds the median entry and the halves of a split child to the node. */
    method AdoptSplit(s: SplitReturn, pos: nat, n: Node, ghost t: PTree, ghost rc: PInserted, ghost m0: Mem)
      returns (n': Node, split: Option<SplitReturn>, ghost r: PInserted)
      requires order >= 16 && Shaped(Erase(t)) && t.kids != [] && pos <= |t.keys| && rc.PSplit?
      requires Shaped(Erase(rc.smaller)) && Shaped(Erase(rc.greater))
      requires pos < |t.keys| ==> t.keys[pos] != s.key
      requires s == SplitReturn(rc.key, rc.val, rc.smaller.node, rc.greater.node)
      requires Assembled(m0, pool.mem, Foot(t), n, t.keys, t.vals, NodesOf(t.kids)[pos := YIELDED],
                         Spliced(t.kids, pos, Trees(rc)))
      modifies pool
      ensures Stored(pool.mem, n', split, r)
      ensures Erased(r) == Overflow(Adopt(Erase(t), pos, rc.key, rc.val, Erase(rc.smaller), Erase(rc.greater)), order)
      ensures Conserved(m0, pool.mem, Foot(t), FootOf(r))
    {
      ghost var cs := Spliced(t.kids, pos, Trees(rc));
      ghost var ns := NodesOf(t.kids)[pos := YIELDED];
      ghost var ks, vs := InsertAt(t.keys, pos, s.key), InsertAt(t.vals, pos, s.val);
      ghost var m1 := pool.mem;
      var n1 := InsertKeyValue(s.key, s.val, pos, n, t.keys, t.vals, ns);
      ghost var m2 := pool.mem;
      AssembledStep(m0, m1, m2, Foot(t), n, n1, t.keys, t.vals, ns, ks, vs, ns, cs);
      var n2 := InsertChildren(s.smaller, s.greater, pos, n1, ks, vs, ns);
      AssembledStep(m0, m2, pool.mem, Foot(t), n1, n2, ks, vs, ns, ks, vs, SpliceAt(ns, pos, s.smaller, s.greater), cs);
      NodesOfSplicedTwo(t.kids, pos, rc);
      ghost var u := AdoptedTree(m0, pool.mem, n2, t, pos, rc);
      ghost var m3 := pool.mem;
      n', split, r := SplitIfFull(n2, u);
      ConservedTransitive(m0, m3, pool.mem, Foot(t), Foot(u), FootOf(r));
    }

    method SplitIfFull(n: Node, ghost u: PTree) returns (n': Node, split: Option<SplitReturn>, ghost r: PInserted)
      requires order >= 16 && Holds(pool.mem, u) && Apart(u) && u.node == n && Shaped(Erase(u))
      modifies pool
      ensures Stored(pool.mem, n', split, r)
      ensures Erased(r) == Overflow(Erase(u), order)
      ensures Conserved(old(pool.mem), pool.mem, Foot(u), FootOf(r))
    {
      n', split, r := n, None, PWhole(u);
      FootAllocated(pool.mem, u);
      if n.keys.size > order {
        ghost var m0, m := pool.mem, |u.keys| / 2;
        var s := SplitNode(n, u.keys, u.vals, NodesOf(u.kids));
        n', split := YIELDED, Some(s);
        NodesOfHalves(u, m);
        r := SplitOwned(m0, pool.mem, u, m, s.smaller, s.greater);
      }
    }

    /** Inserts a key-value pair; an existing key gets the new value. */
    method Insert(k: Key, v: Handle)
      requires Valid()
      modifies this, pool
      ensures Valid() && Erase(tree) == SearchTree.Insert(old(Erase(tree)), k, v, order)
      ensures Conserved(old(pool.mem), pool.mem, old(Foot(tree)), Foot(tree))
    {
      ghost var t, h := Erase(tree), height;
      InsertAtRoot(k, v);
      InsertKeepsInvariant(t, k, v, order, h);
      height := if InsertInto(t, k, v, order).Split? then h + 1 else h;
    }

    method InsertAtRoot(k: Key, v: Handle)
      requires order >= 16 && Holds(pool.mem, tree) && Apart(tree) && tree.node == root
      requires Shaped(Erase(tree)) && Sorted(Flat(Erase(tree)))
      modifies this`root, this`tree, pool
      ensures Holds(pool.mem, tree) && Apart(tree) && tree.node == root
      ensures Erase(tree) == SearchTree.Insert(old(Erase(tree)), k, v, order)
      ensures Conserved(old(pool.mem), pool.mem, old(Foot(tree)), Foot(tree))
    {
      ghost var m0, t := pool.mem, tree;
      var n, split;
      ghost var r;
      n, split, r := InsertIntoTree(k, v, root, tree);
      ghost var m1 := pool.mem;
      root, tree := Settle(n, split, r);
      ConservedTransitive(m0, m1, pool.mem, Foot(t), FootOf(r), Foot(tree));
    }

    /** The root after an insertion: the node itself, or a new one above its halves. */
    method Settle(n: Node, split: Option<SplitReturn>, ghost r: PInserted) returns (n': Node, ghost t: PTree)
      requires Stored(pool.mem, n, split, r)
      modifies pool
      ensures Holds(pool.mem, t) && Apart(t) && t.node == n'
      ensures Erase(t) == match Erased(r)
                          case Whole(u) => u
                          case Split(k, v, l, g) => Tree([k], [v], [l, g])
      ensures Conserved(old(pool.mem), pool.mem, FootOf(r), Foot(t))
    {
      match split {
        case None =>
          n', t := n, r.tree;
          FootAllocated(pool.mem, t);
        case Some(s) =>
          n', t := GrowRoot(s, r);
      }
    }

    /** A new root above the two halves of the old one. */
    method GrowRoot(s: SplitReturn, ghost r: PInserted) returns (n: Node, ghost t: PTree)
      requires Stored(pool.mem, YIELDED, Some(s), r)
      modifies pool
      ensures Holds(pool.mem, t) && Apart(t) && t.node == n
      ensures Erase(t) == Tree([s.key], [s.val], [Erase(r.smaller), Erase(r.greater)])
      ensures Conserved(old(pool.mem), pool.mem, FootOf(r), Foot(t))
    {
      ghost var m0 := pool.mem;
      ghost var cs := Trees(r);
      StoredTrees(m0, YIELDED, Some(s), r);
      n := AllocateNewNode(pool);
      ghost var m1, n1 := pool.mem, n;
      NewRoot(m0, m1, n, cs);
      assert InsertAt([], 0, s.key) == [s.key] && InsertAt([], 0, s.val) == [s.val];
      n := InsertKeyValue(s.key, s.val, 0, n, [], [], []);
      ghost var m2, n2 := pool.mem, n;
      AssembledStep(m0, m1, m2, FootAll(cs), n1, n2, [], [], [], [s.key], [s.val], [], cs);
      n := InsertChildren(s.smaller, s.greater, 0, n, [s.key], [s.val], []);
      AssembledStep(m0, m2, pool.mem, FootAll(cs), n2, n, [s.key], [s.val], [], [s.key], [s.val], [s.smaller,
          s.greater], cs);
      NodesOfHalvesOf(r);
      t := RootTree(m0, pool.mem, n, r);
    }

    /** Operator[]: the value of a key. */
    method Get(k: Key) returns (r: Option<Handle>)
      requires Valid()
      ensures r == Lookup(Flat(Erase(tree)), k)
    {
      r := GetValue(k, root, tree);
      BalancedIsPopulated(Erase(tree), order);
      GetIsLookup(Erase(tree), k);
    }

    method GetValue(k: Key, n: Node, ghost t: PTree) returns (r: Option<Handle>)
      requires Holds(pool.mem, t) && t.node == n && Shaped(Erase(t))
      ensures r == SearchTree.Get(Erase(t), k)
      decreases t
    {
      if n.keys.size == 0 {
        return None;
      }
      var i := 0;
      while i < n.keys.size
        invariant i <= n.keys.size == |t.keys|
        invariant forall j | 0 <= j < i :: t.keys[j] < k
        decreases n.keys.size - i
      {
        var key := KeyAt(n.keys, i, t.keys);
        if key == k {
          var val := ValueAt(n.values, i, t.vals);
          return Some(val);
        }
        if key > k {
          break;
        }
        i := i + 1;
      }
      FindPosUnique(t.keys, k, i);
      if !n.children.IsAllocated() {
        return None;
      }
      var child := ChildAt(n.children, i, NodesOf(t.kids));
      r := GetValue(k, child, t.kids[i]);
    }

    /** All values, a deep copy (the source keeps the copy in a pool of its own). */
    method Values() returns (vec: seq<Handle>)
      requires Valid()
      ensures vec == PreOrder(Erase(tree))
    {
      vec := InsertValues(root, [], tree);
    }

    method InsertValues(n: Node, vec: seq<Handle>, ghost t: PTree) returns (vec': seq<Handle>)
      requires Holds(pool.mem, t) && t.node == n && Shaped(Erase(t))
      ensures vec' == vec + PreOrder(Erase(t))
      decreases t, 2
    {
      vec' := vec;
      var i := 0;
      while i < n.values.size
        invariant i <= n.values.size == |t.vals|
        invariant vec' == vec + t.vals[..i]
      {
        var val := ValueAt(n.values, i, t.vals);
        vec' := vec' + [val];
        i := i + 1;
      }
      assert vec' == vec + t.vals;
      if n.children.IsAllocated() {
        vec' := InsertChildValues(n, vec', t);
        Reassociate(vec, t.vals, PreOrderAll(EraseAll(t.kids)));
      }
    }

    method InsertChildValues(n: Node, vec: seq<Handle>, ghost t: PTree) returns (vec': seq<Handle>)
      requires Holds(pool.mem, t) && t.node == n && Shaped(Erase(t)) && t.kids != []
      ensures vec' == vec + PreOrderAll(EraseAll(t.kids))
      decreases t, 1
    {
      ghost var cs := EraseAll(t.kids);
      ghost var all := vec + PreOrderAll(cs);
      vec' := vec;
      var i := 0;
      assert cs[0..] == cs;
      while i < n.children.size
        invariant i <= n.children.size == |t.kids|
        invariant vec' + PreOrderAll(cs[i..]) == all
      {
        vec' := InsertChildValue(n, vec', i, t, all);
        i := i + 1;
      }
      assert PreOrderAll(cs[i..]) == [];
    }

    /** The values of one child; with those of the children behind it they make up all values as before. */
    method InsertChildValue(n: Node, vec: seq<Handle>, i: nat, ghost t: PTree, ghost all: seq<Handle>)
      returns (vec': seq<Handle>)
      requires Holds(pool.mem, t) && t.node == n && Shaped(Erase(t)) && i < |t.kids|
      requires vec + PreOrderAll(EraseAll(t.kids)[i..]) == all
      ensures vec' + PreOrderAll(EraseAll(t.kids)[i + 1..]) == all
      decreases t, 0
    {
      var child := ChildAt(n.children, i, NodesOf(t.kids));
      vec' := InsertValues(child, vec, t.kids[i]);
      PreOrderNext(vec, EraseAll(t.kids), i);
    }

    /** Frees every block of the tree. */
    method Deallocate()
      requires Holds(pool.mem, tree) && Apart(tree) && tree.node == root
      modifies this, pool
      ensures pool.mem == old(pool.mem) - old(Foot(tree)) && root == YIELDED
    {
      ghost var m0 := pool.mem;
      FootAllocated(pool.mem, tree);
      root := DeallocateNode(root, tree);
      assert pool.mem - {} == pool.mem;
    }

    method DeallocateNode(n: Node, ghost t: PTree) returns (n': Node)
      requires Holds(pool.mem, t) && Apart(t) && t.node == n
      modifies pool
      ensures Conserved(old(pool.mem), pool.mem, Foot(t), {}) && n' == YIELDED
      decreases t, 2
    {
      if n.children.size > 0 {
        DeallocateChildren(n, t);
      }
      n' := YIELDED;
      DeallocateHandle(n.children);
      ghost var m1 := pool.mem;
      DeallocateHandle(n.keys);
      ghost var m2 := pool.mem;
      DeallocateHandle(n.values);
    }

    method DeallocateHandle(h: Handle)
      requires h.IsAllocated() ==> h.page in pool.mem
      modifies pool
      ensures pool.mem == old(pool.mem) - PageOf(h)
    {
      if h.IsAllocated() {
        pool.Deallocate(h.page);
      }
    }

    /** Frees the children one after the other; each one is left behind as a yielded node. */
    method DeallocateChildren(n: Node, ghost t: PTree)
      requires Holds(pool.mem, t) && Apart(t) && t.node == n && t.kids != []
      modifies pool
      ensures OwnPages(n) <= pool.mem.Keys
      ensures Conserved(old(pool.mem), pool.mem, Foot(t), OwnPages(n))
      decreases t, 1
    {
      ghost var m0, ns := pool.mem, NodesOf(t.kids);
      FootAllocated(m0, t);
      assert t.kids[0..] == t.kids;
      var i := 0;
      while i < n.children.size
        invariant i <= n.children.size == |t.kids| == |ns|
        invariant forall j | i <= j < |ns| :: ns[j] == t.kids[j].node
        invariant Assembled(m0, pool.mem, Foot(t), n, t.keys, t.vals, ns, t.kids[i..])
      {
        DeallocateChild(i, n, t, ns, m0);
        ns := ns[i := YIELDED];
        i := i + 1;
      }
      assert OwnPages(n) + FootAll(t.kids[i..]) == OwnPages(n);
    }

    method DeallocateChild(i: nat, n: Node, ghost t: PTree, ghost ns: seq<Node>, ghost m0: Mem)
      requires i < |t.kids| == |ns| && ns[i] == t.kids[i].node
      requires Assembled(m0, pool.mem, Foot(t), n, t.keys, t.vals, ns, t.kids[i..])
      modifies pool
      ensures Assembled(m0, pool.mem, Foot(t), n, t.keys, t.vals, ns[i := YIELDED], t.kids[i + 1..])
      decreases t, 0
    {
      var child := ChildAt(n.children, i, ns);
      ghost var m1 := pool.mem;
      assert t.kids[i..][1..] == t.kids[i + 1..] && t.kids[i..][0] == t.kids[i];
      var yielded := DeallocateNode(child, t.kids[i]);
      ChildFreed(m0, m1, pool.mem, Foot(t), n, t.keys, t.vals, ns, t.kids[i..]);
      WriteBack(yielded, i, n, t.keys, t.vals, ns, t.kids[i + 1..], m0, Foot(t));
    }
  }
}
