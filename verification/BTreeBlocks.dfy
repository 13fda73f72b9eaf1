/**
 Ownership while the memory-mapped B-tree changes: how the blocks of a node, of its halves after a split
 and of a new root make up the blocks of the tree, step by step.
 */
module BTreeBlocks {
  import opened Wrappers
  import opened SearchTree
  import opened Memmap
  import opened Ownership

  /** The pair that the source returns when a node had to be split. */
  datatype SplitReturn = SplitReturn(key: Key, val: Handle, smaller: Node, greater: Node)

  ghost function FootOf(r: PInserted): set<Page> {
    match r
    case PWhole(t) => Foot(t)
    case PSplit(_, _, l, g) => Foot(l) + Foot(g)
  }

  /** What the memory and the returned handles look like after an insertion below a node. */
  ghost predicate Stored(m: Mem, n: Node, split: Option<SplitReturn>, r: PInserted) {
    match r
    case PWhole(t) => split == None && n == t.node && Holds(m, t) && Apart(t)
    case PSplit(k, v, l, g) =>
      && n == YIELDED && split == Some(SplitReturn(k, v, l.node, g.node))
      && Holds(m, l) && Holds(m, g) && Apart(l) && Apart(g) && Foot(l) !! Foot(g)
  }

  /** A node whose resources were yielded. */
  const YIELDED := Node(NO_BLOCK, NO_BLOCK, NO_BLOCK)

  // ------------------------------------------------------------------------
  // Exchanging one of the blocks of a node.

  lemma KeysStep(m: Mem, m': Mem, n: Node, h: Handle, ks: seq<Key>, vs: seq<Handle>, ns: seq<Node>, ks': seq<Key>)
    requires Body(m, n, ks, vs, ns) && Conserved(m, m', PageOf(n.keys), PageOf(h))
    requires Block(m', h) && Cells(m', h) == KeyCells(ks')
    ensures Body(m', n.(keys := h), ks', vs, ns)
    ensures Conserved(m, m', OwnPages(n), OwnPages(n.(keys := h)))
  {
    BlockFrame(m, m', PageOf(n.keys), PageOf(h), n.values);
    if ns != [] {
      BlockFrame(m, m', PageOf(n.keys), PageOf(h), n.children);
    }
    ConservedRest(m, m', PageOf(n.keys), PageOf(h), PageOf(n.values) + PageOf(n.children));
    assert OwnPages(n) == PageOf(n.keys) + (PageOf(n.values) + PageOf(n.children));
    assert OwnPages(n.(keys := h)) == PageOf(h) + (PageOf(n.values) + PageOf(n.children));
  }

  lemma ValuesStep(m: Mem, m': Mem, n: Node, h: Handle, ks: seq<Key>, vs: seq<Handle>, ns: seq<Node>, vs': seq<Handle>)
    requires Body(m, n, ks, vs, ns) && Conserved(m, m', PageOf(n.values), PageOf(h))
    requires Block(m', h) && Cells(m', h) == ListCells(vs')
    ensures Body(m', n.(values := h), ks, vs', ns)
    ensures Conserved(m, m', OwnPages(n), OwnPages(n.(values := h)))
  {
    BlockFrame(m, m', PageOf(n.values), PageOf(h), n.keys);
    if ns != [] {
      BlockFrame(m, m', PageOf(n.values), PageOf(h), n.children);
    }
    ConservedRest(m, m', PageOf(n.values), PageOf(h), PageOf(n.keys) + PageOf(n.children));
    assert OwnPages(n) == PageOf(n.values) + (PageOf(n.keys) + PageOf(n.children));
    assert OwnPages(n.(values := h)) == PageOf(h) + (PageOf(n.keys) + PageOf(n.children));
  }

  lemma ChildrenStep(m: Mem, m': Mem, n: Node, h: Handle, ks: seq<Key>, vs: seq<Handle>, ns: seq<Node>, ns': seq<Node>)
    requires Body(m, n, ks, vs, ns) && Conserved(m, m', PageOf(n.children), PageOf(h)) && ns' != []
    requires Block(m', h) && Cells(m', h) == NodeCells(ns')
    ensures Body(m', n.(children := h), ks, vs, ns')
    ensures Conserved(m, m', OwnPages(n), OwnPages(n.(children := h)))
  {
    BlockFrame(m, m', PageOf(n.children), PageOf(h), n.keys);
    BlockFrame(m, m', PageOf(n.children), PageOf(h), n.values);
    ConservedRest(m, m', PageOf(n.children), PageOf(h), PageOf(n.keys) + PageOf(n.values));
    assert OwnPages(n) == PageOf(n.children) + (PageOf(n.keys) + PageOf(n.values));
    assert OwnPages(n.(children := h)) == PageOf(h) + (PageOf(n.keys) + PageOf(n.values));
  }

  /** A change of the blocks of a node leaves its children alone. */
  lemma NodeStep(m: Mem, m': Mem, n: Node, n': Node, cs: seq<PTree>)
    requires Conserved(m, m', OwnPages(n), OwnPages(n')) && OwnPages(n) !! FootAll(cs) && HoldsAll(m, cs)
    ensures HoldsAll(m', cs) && OwnPages(n') !! FootAll(cs)
    ensures Conserved(m, m', OwnPages(n) + FootAll(cs), OwnPages(n') + FootAll(cs))
  {
    HoldsAllFrame(m, m', OwnPages(n), OwnPages(n'), cs);
    FootAllAllocated(m, cs);
    ConservedRest(m, m', OwnPages(n), OwnPages(n'), FootAll(cs));
  }

  ghost function Trees(r: PInserted): seq<PTree> {
    match r
    case PWhole(t) => [t]
    case PSplit(_, _, l, g) => [l, g]
  }

  /**
   The state in the middle of an insertion: the blocks of the node hold ks, vs and ns, the trees cs are
   stored beside it, and since m0 only the blocks in `from` turned into the blocks of all of these.
   */
  ghost predicate Assembled(m0: Mem, m: Mem, from: set<Page>, n: Node, ks: seq<Key>, vs: seq<Handle>,
      ns: seq<Node>, cs: seq<PTree>) {
    && Body(m, n, ks, vs, ns) && HoldsAll(m, cs) && ApartAll(cs) && OwnPages(n) !! FootAll(cs)
    && Conserved(m0, m, from, OwnPages(n) + FootAll(cs))
  }

  lemma AssembledStep(m0: Mem, m: Mem, m': Mem, from: set<Page>, n: Node, n': Node,
                      ks: seq<Key>, vs: seq<Handle>, ns: seq<Node>, ks': seq<Key>, vs': seq<Handle>,
                          ns': seq<Node>, cs: seq<PTree>)
    requires Assembled(m0, m, from, n, ks, vs, ns, cs)
    requires Conserved(m, m', OwnPages(n), OwnPages(n')) && Body(m', n', ks', vs', ns')
    ensures Assembled(m0, m', from, n', ks', vs', ns', cs)
  {
    NodeStep(m, m', n, n', cs);
    ConservedTransitive(m0, m, m', from, OwnPages(n) + FootAll(cs), OwnPages(n') + FootAll(cs));
  }

  lemma SingleTree(t: PTree)
    ensures FootAll([t]) == Foot(t) && (ApartAll([t]) <==> Apart(t))
  {
    assert [t][1..] == [];
  }

  lemma StoredTrees(m: Mem, n: Node, split: Option<SplitReturn>, r: PInserted)
    requires Stored(m, n, split, r)
    ensures HoldsAll(m, Trees(r)) && ApartAll(Trees(r)) && FootAll(Trees(r)) == FootOf(r)
  {
    match r {
      case PWhole(t) =>
        SingleTree(t);
      case PSplit(_, _, l, g) =>
        SingleTree(l);
        SingleTree(g);
        ConcatApart([l], [g]);
        assert [l, g] == [l] + [g];
    }
  }

  /** The recursive insertion changed the memory of one child only. */
  lemma ChildReplaced(m: Mem, m': Mem, t: PTree, pos: nat, child: Node, split: Option<SplitReturn>, rc: PInserted)
    requires Holds(m, t) && Apart(t) && pos < |t.kids|
    requires Stored(m', child, split, rc) && Conserved(m, m', Foot(t.kids[pos]), FootOf(rc))
    ensures Assembled(m, m', Foot(t), t.node, t.keys, t.vals, NodesOf(t.kids), Spliced(t.kids, pos, Trees(rc)))
  {
    StoredTrees(m', child, split, rc);
    ReplaceInForest(m, m', t.kids, pos, Trees(rc));
    ForestReplaced(m, m', t, Spliced(t.kids, pos, Trees(rc)));
  }

  lemma ForestReplaced(m: Mem, m': Mem, t: PTree, cs: seq<PTree>)
    requires Holds(m, t) && Apart(t)
    requires HoldsAll(m', cs) && ApartAll(cs) && Conserved(m, m', FootAll(t.kids), FootAll(cs))
    ensures Assembled(m, m', Foot(t), t.node, t.keys, t.vals, NodesOf(t.kids), cs)
  {
    BodyFrame(m, m', FootAll(t.kids), FootAll(cs), t.node, t.keys, t.vals, NodesOf(t.kids));
    FootAllocated(m, t);
    ConservedRest(m, m', FootAll(t.kids), FootAll(cs), OwnPages(t.node));
    assert FootAll(t.kids) + OwnPages(t.node) == Foot(t);
    assert FootAll(cs) + OwnPages(t.node) == OwnPages(t.node) + FootAll(cs);
  }

  lemma ChildFreed(m0: Mem, m: Mem, m': Mem, from: set<Page>, n: Node,
                   ks: seq<Key>, vs: seq<Handle>, ns: seq<Node>, cs: seq<PTree>)
    requires Assembled(m0, m, from, n, ks, vs, ns, cs) && cs != [] && Conserved(m, m', Foot(cs[0]), {})
    ensures Assembled(m0, m', from, n, ks, vs, ns, cs[1..])
  {
    var rest := OwnPages(n) + FootAll(cs[1..]);
    HoldsAllFrame(m, m', Foot(cs[0]), {}, cs[1..]);
    BodyFrame(m, m', Foot(cs[0]), {}, n, ks, vs, ns);
    ConservedRest(m, m', Foot(cs[0]), {}, rest);
    assert Foot(cs[0]) + rest == OwnPages(n) + FootAll(cs);
    assert {} + rest == rest;
    ConservedTransitive(m0, m, m', from, OwnPages(n) + FootAll(cs), rest);
  }

  lemma NewRoot(m: Mem, m': Mem, n: Node, cs: seq<PTree>)
    requires HoldsAll(m, cs) && ApartAll(cs) && Body(m', n, [], [], []) && Conserved(m, m', {}, OwnPages(n))
    ensures Assembled(m, m', FootAll(cs), n, [], [], [], cs)
  {
    HoldsAllFrame(m, m', {}, OwnPages(n), cs);
    FootAllAllocated(m, cs);
    ConservedRest(m, m', {}, OwnPages(n), FootAll(cs));
    assert {} + FootAll(cs) == FootAll(cs);
  }

  lemma NodeCellsUpdate(ns: seq<Node>, pos: nat, n: Node)
    requires pos < |ns|
    ensures NodeCells(ns)[pos := NodeCell(n)] == NodeCells(ns[pos := n])
  {
  }

  lemma NodesOfSplicedOne(cs: seq<PTree>, pos: nat, c: PTree)
    requires pos < |cs|
    ensures NodesOf(Spliced(cs, pos, [c])) == NodesOf(cs)[pos := c.node]
  {
  }

  lemma NodesOfSplicedTwo(cs: seq<PTree>, pos: nat, rc: PInserted)
    requires pos < |cs| && rc.PSplit?
    ensures NodesOf(Spliced(cs, pos, Trees(rc)))
         == SpliceAt(NodesOf(cs)[pos := YIELDED], pos, rc.smaller.node, rc.greater.node)
  {
  }

  /** The assembled node is a stored tree. */
  lemma AdoptedTree(m0: Mem, m: Mem, n: Node, t: PTree, pos: nat, rc: PInserted) returns (u: PTree)
    requires Shaped(Erase(t)) && t.kids != [] && pos <= |t.keys| && rc.PSplit?
    requires Shaped(Erase(rc.smaller)) && Shaped(Erase(rc.greater))
    requires var cs := Spliced(t.kids, pos, Trees(rc));
      Assembled(m0, m, Foot(t), n, InsertAt(t.keys, pos, rc.key), InsertAt(t.vals, pos, rc.val), NodesOf(cs), cs)
    ensures u.node == n && u.keys == InsertAt(t.keys, pos, rc.key) && u.vals == InsertAt(t.vals, pos, rc.val)
    ensures u.kids == Spliced(t.kids, pos, Trees(rc))
    ensures Holds(m, u) && Apart(u) && Conserved(m0, m, Foot(t), Foot(u))
    ensures Erase(u) == Adopt(Erase(t), pos, rc.key, rc.val, Erase(rc.smaller), Erase(rc.greater))
  {
    u := PTree(n, InsertAt(t.keys, pos, rc.key), InsertAt(t.vals, pos, rc.val), Spliced(t.kids, pos, Trees(rc)));
    EraseSplicedTwo(t, pos, rc);
  }

  lemma NodesOfHalvesOf(r: PInserted)
    requires r.PSplit?
    ensures NodesOf(Trees(r)) == [r.smaller.node, r.greater.node]
  {
  }

  lemma RootTree(m0: Mem, m: Mem, n: Node, r: PInserted) returns (t: PTree)
    requires r.PSplit?
    requires var cs := Trees(r); Assembled(m0, m, FootAll(cs), n, [r.key], [r.val], NodesOf(cs), cs)
    requires FootAll(Trees(r)) == FootOf(r)
    ensures Holds(m, t) && Apart(t) && t.node == n && Conserved(m0, m, FootOf(r), Foot(t))
    ensures Erase(t) == Tree([r.key], [r.val], [Erase(r.smaller), Erase(r.greater)])
  {
    t := PTree(n, [r.key], [r.val], Trees(r));
    assert EraseAll(Trees(r)) == [Erase(r.smaller), Erase(r.greater)];
  }

  lemma EraseSplicedOne(t: PTree, pos: nat, c: PTree)
    requires pos < |t.kids|
    ensures EraseAll(Spliced(t.kids, pos, [c])) == EraseAll(t.kids)[pos := Erase(c)]
  {
  }

  lemma EraseSplicedTwo(t: PTree, pos: nat, rc: PInserted)
    requires pos < |t.kids| && rc.PSplit?
    ensures EraseAll(Spliced(t.kids, pos, Trees(rc)))
        == SpliceAt(EraseAll(t.kids), pos, Erase(rc.smaller), Erase(rc.greater))
  {
  }

  ghost function LowerKids(u: PTree, m: nat): seq<PTree>
    requires u.kids != [] ==> m < |u.kids|
  {
    if u.kids == [] then [] else u.kids[..m + 1]
  }

  ghost function UpperKids(u: PTree, m: nat): seq<PTree>
    requires u.kids != [] ==> m < |u.kids|
  {
    if u.kids == [] then [] else u.kids[m + 1..]
  }

  lemma HalvesOfForest(m1: Mem, u: PTree, m: nat)
    requires HoldsAll(m1, u.kids) && ApartAll(u.kids) && (u.kids != [] ==> m < |u.kids|)
    ensures HoldsAll(m1, LowerKids(u, m)) && HoldsAll(m1, UpperKids(u, m))
    ensures ApartAll(LowerKids(u, m)) && ApartAll(UpperKids(u, m))
    ensures FootAll(LowerKids(u, m)) !! FootAll(UpperKids(u, m))
    ensures FootAll(u.kids) == FootAll(LowerKids(u, m)) + FootAll(UpperKids(u, m))
  {
    var cl, cg := LowerKids(u, m), UpperKids(u, m);
    assert u.kids == cl + cg;
    ConcatApart(cl, cg);
    assert forall i | 0 <= i < |cl| :: cl[i] == u.kids[i];
    assert forall i | 0 <= i < |cg| :: cg[i] == u.kids[m + 1 + i];
  }

  lemma NodesOfHalves(u: PTree, m: nat)
    requires u.kids != [] ==> m < |u.kids|
    ensures NodesOf(LowerKids(u, m)) == if NodesOf(u.kids) == [] then [] else NodesOf(u.kids)[..m + 1]
    ensures NodesOf(UpperKids(u, m)) == if NodesOf(u.kids) == [] then [] else NodesOf(u.kids)[m + 1..]
  {
  }

  lemma FourSets(o: set<Page>, g: set<Page>, cl: set<Page>, cg: set<Page>)
    requires o !! (cl + cg) && cl !! cg && g !! (o + (cl + cg))
    ensures o !! cl && g !! cg && (o + cl) !! (g + cg) && g + (o + (cl + cg)) == (o + cl) + (g + cg)
  {
  }

  /** The halves of a split node own what the node owned and the new blocks, and share nothing. */
  lemma SplitOwned(m0: Mem, m1: Mem, u: PTree, m: nat, smaller: Node, greater: Node) returns (r: PInserted)
    requires Holds(m0, u) && Apart(u) && Shaped(Erase(u)) && 3 <= |u.keys| && m == |u.keys| / 2
    requires Body(m1, smaller, u.keys[..m], u.vals[..m], NodesOf(LowerKids(u, m)))
    requires Body(m1, greater, u.keys[m + 1..], u.vals[m + 1..], NodesOf(UpperKids(u, m)))
    requires OwnPages(smaller) == OwnPages(u.node) && OwnPages(u.node) !! OwnPages(greater)
    requires Conserved(m0, m1, {}, OwnPages(greater))
    ensures Stored(m1, YIELDED, Some(SplitReturn(u.keys[m], u.vals[m], smaller, greater)), r)
    ensures Erased(r) == SearchTree.SplitNode(Erase(u))
    ensures Conserved(m0, m1, Foot(u), FootOf(r))
  {
    SplitRegions(m0, m1, u, m, OwnPages(greater));
    var l := Half(m1, smaller, u.keys[..m], u.vals[..m], LowerKids(u, m));
    var g := Half(m1, greater, u.keys[m + 1..], u.vals[m + 1..], UpperKids(u, m));
    r := PSplit(u.keys[m], u.vals[m], l, g);
    ErasedHalves(u, m, smaller, greater);
  }

  lemma ErasedHalves(u: PTree, m: nat, smaller: Node, greater: Node)
    requires Shaped(Erase(u)) && 3 <= |u.keys| && m == |u.keys| / 2
    ensures var l := PTree(smaller, u.keys[..m], u.vals[..m], LowerKids(u, m));
      var g := PTree(greater, u.keys[m + 1..], u.vals[m + 1..], UpperKids(u, m));
      Split(u.keys[m], u.vals[m], Erase(l), Erase(g)) == SearchTree.SplitNode(Erase(u))
  {
    EraseSlice(u, m);
    var e := Erase(u);
    assert e.keys == u.keys && e.vals == u.vals && (e.kids == [] <==> u.kids == []);
    var r := SearchTree.SplitNode(e);
    assert r.smaller == Tree(u.keys[..m], u.vals[..m], EraseAll(LowerKids(u, m)));
    assert r.greater == Tree(u.keys[m + 1..], u.vals[m + 1..], EraseAll(UpperKids(u, m)));
    assert r == Split(u.keys[m], u.vals[m], r.smaller, r.greater);
  }

  lemma SplitRegions(m0: Mem, m1: Mem, u: PTree, m: nat, g: set<Page>)
    requires Holds(m0, u) && Apart(u) && (u.kids != [] ==> m < |u.kids|)
    requires Conserved(m0, m1, {}, g) && OwnPages(u.node) !! g
    ensures var o, cl, cg := OwnPages(u.node), LowerKids(u, m), UpperKids(u, m);
      && HoldsAll(m1, cl) && HoldsAll(m1, cg) && ApartAll(cl) && ApartAll(cg)
      && o !! FootAll(cl) && g !! FootAll(cg) && (o + FootAll(cl)) !! (g + FootAll(cg))
      && Conserved(m0, m1, Foot(u), (o + FootAll(cl)) + (g + FootAll(cg)))
  {
    HoldsAllFrame(m0, m1, {}, g, u.kids);
    HalvesOfForest(m1, u, m);
    NewBeside(m0, m1, u, g);
    FourSets(OwnPages(u.node), g, FootAll(LowerKids(u, m)), FootAll(UpperKids(u, m)));
  }

  lemma Half(m: Mem, n: Node, ks: seq<Key>, vs: seq<Handle>, cs: seq<PTree>) returns (h: PTree)
    requires Body(m, n, ks, vs, NodesOf(cs)) && HoldsAll(m, cs) && ApartAll(cs) && OwnPages(n) !! FootAll(cs)
    ensures h == PTree(n, ks, vs, cs) && Holds(m, h) && Apart(h) && Foot(h) == OwnPages(n) + FootAll(cs)
  {
    h := PTree(n, ks, vs, cs);
  }

  lemma NewBeside(m0: Mem, m1: Mem, u: PTree, fresh': set<Page>)
    requires Holds(m0, u) && Conserved(m0, m1, {}, fresh')
    ensures Conserved(m0, m1, Foot(u), fresh' + Foot(u)) && fresh' !! Foot(u)
  {
    FootAllocated(m0, u);
    ConservedRest(m0, m1, {}, fresh', Foot(u));
    assert {} + Foot(u) == Foot(u);
  }

  lemma EraseSlice(u: PTree, m: nat)
    requires u.kids != [] ==> m < |u.kids|
    ensures EraseAll(LowerKids(u, m)) == if u.kids == [] then [] else EraseAll(u.kids)[..m + 1]
    ensures EraseAll(UpperKids(u, m)) == if u.kids == [] then [] else EraseAll(u.kids)[m + 1..]
  {
  }

  /** Three blocks allocated one after the other. */
  lemma ThreeNew(m0: Mem, m1: Mem, m2: Mem, m3: Mem, a: Handle, b: Handle, c: Handle)
    requires Conserved(m0, m1, {}, PageOf(a)) && Conserved(m1, m2, {}, PageOf(b)) && Conserved(m2, m3, {}, PageOf(c))
    ensures Conserved(m0, m3, {}, PageOf(b) + PageOf(c) + PageOf(a))
    ensures PageOf(a) !! PageOf(b) && PageOf(a) !! PageOf(c) && PageOf(b) !! PageOf(c)
    ensures Block(m1, a) ==> Block(m3, a) && Cells(m3, a) == Cells(m1, a)
    ensures Block(m2, b) ==> Block(m3, b) && Cells(m3, b) == Cells(m2, b)
  {
    ConservedRest(m1, m2, {}, PageOf(b), PageOf(a));
    ConservedTransitive(m0, m1, m2, {}, {} + PageOf(a), PageOf(b) + PageOf(a)) by {
      assert {} + PageOf(a) == PageOf(a);
    }
    ConservedRest(m2, m3, {}, PageOf(c), PageOf(b) + PageOf(a));
    ConservedTransitive(m0, m2, m3, {}, {} + (PageOf(b) + PageOf(a)), PageOf(c) + (PageOf(b) + PageOf(a))) by {
      assert {} + (PageOf(b) + PageOf(a)) == PageOf(b) + PageOf(a);
    }
    assert PageOf(c) + (PageOf(b) + PageOf(a)) == PageOf(b) + PageOf(c) + PageOf(a);
    if Block(m1, a) {
      BlockFrame(m1, m2, {}, PageOf(b), a);
      BlockFrame(m2, m3, {}, PageOf(c), a);
    }
    if Block(m2, b) {
      BlockFrame(m2, m3, {}, PageOf(c), b);
    }
  }
}
