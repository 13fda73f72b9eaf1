/**
 How a B-tree lies in the pool. A PTree is a tree together with the handles of its nodes. Holds says
 that the memory stores it, Foot is the set of blocks that it owns and Apart says that no block is owned
 twice. None of Foot and Apart depends on the memory, so writing to a block outside of Foot keeps
 everything that is known of the tree.
 */
module Ownership {
  import opened Wrappers
  import opened SearchTree
  import opened Memmap

  datatype PTree = PTree(node: Node, keys: seq<Key>, vals: seq<Handle>, kids: seq<PTree>)

  /** What an insertion below a node leaves behind, with the handles. */
  datatype PInserted = PWhole(tree: PTree) | PSplit(key: Key, val: Handle, smaller: PTree, greater: PTree)

  ghost function Erase(t: PTree): (r: Tree<Handle>)
    decreases t, 1
  {
    Tree(t.keys, t.vals, EraseAll(t.kids))
  }

  ghost function EraseAll(cs: seq<PTree>): (r: seq<Tree<Handle>>)
    ensures |r| == |cs| && forall i | 0 <= i < |cs| :: r[i] == Erase(cs[i])
    decreases cs, 0
  {
    if cs == [] then [] else [Erase(cs[0])] + EraseAll(cs[1..])
  }

  ghost function Erased(r: PInserted): Inserted<Handle> {
    match r
    case PWhole(t) => Whole(Erase(t))
    case PSplit(k, v, l, g) => Split(k, v, Erase(l), Erase(g))
  }

  ghost function KeyCells(ks: seq<Key>): (r: seq<Cell>)
    ensures |r| == |ks| && forall i | 0 <= i < |ks| :: r[i] == KeyCell(ks[i])
  {
    seq(|ks|, i requires 0 <= i < |ks| => KeyCell(ks[i]))
  }

  ghost function ListCells(vs: seq<Handle>): (r: seq<Cell>)
    ensures |r| == |vs| && forall i | 0 <= i < |vs| :: r[i] == ListCell(vs[i])
  {
    seq(|vs|, i requires 0 <= i < |vs| => ListCell(vs[i]))
  }

  ghost function NodeCells(ns: seq<Node>): (r: seq<Cell>)
    ensures |r| == |ns| && forall i | 0 <= i < |ns| :: r[i] == NodeCell(ns[i])
  {
    seq(|ns|, i requires 0 <= i < |ns| => NodeCell(ns[i]))
  }

  ghost function NodesOf(cs: seq<PTree>): (r: seq<Node>)
    ensures |r| == |cs| && forall i | 0 <= i < |cs| :: r[i] == cs[i].node
  {
    seq(|cs|, i requires 0 <= i < |cs| => cs[i].node)
  }

  ghost function OwnPages(n: Node): set<Page> {
    PageOf(n.keys) + PageOf(n.values) + PageOf(n.children)
  }

  /** The three blocks of a node are different blocks. */
  ghost predicate Distinct(n: Node) {
    n.keys.page != n.values.page && n.children.page != n.keys.page && n.children.page != n.values.page
  }

  /** The blocks of one node hold these keys, values and child handles; a leaf has no child block. */
  ghost predicate Body(m: Mem, n: Node, ks: seq<Key>, vs: seq<Handle>, ns: seq<Node>) {
    && Distinct(n)
    && Block(m, n.keys) && Cells(m, n.keys) == KeyCells(ks)
    && Block(m, n.values) && Cells(m, n.values) == ListCells(vs)
    && (if ns == [] then n.children == NO_BLOCK else Block(m, n.children) && Cells(m, n.children) == NodeCells(ns))
  }

  ghost predicate Holds(m: Mem, t: PTree) {
    Body(m, t.node, t.keys, t.vals, NodesOf(t.kids)) && forall i | 0 <= i < |t.kids| :: Holds(m, t.kids[i])
  }

  ghost predicate HoldsAll(m: Mem, cs: seq<PTree>) {
    forall i | 0 <= i < |cs| :: Holds(m, cs[i])
  }

  ghost function Foot(t: PTree): set<Page>
    decreases t, 1
  {
    OwnPages(t.node) + FootAll(t.kids)
  }

  ghost function FootAll(cs: seq<PTree>): set<Page>
    decreases cs, 0
  {
    if cs == [] then {} else Foot(cs[0]) + FootAll(cs[1..])
  }

  ghost predicate Apart(t: PTree)
    decreases t, 1
  {
    OwnPages(t.node) !! FootAll(t.kids) && ApartAll(t.kids)
  }

  ghost predicate ApartAll(cs: seq<PTree>)
    decreases cs, 0
  {
    cs == [] || (Apart(cs[0]) && Foot(cs[0]) !! FootAll(cs[1..]) && ApartAll(cs[1..]))
  }

  lemma {:induction false} ConcatApart(a: seq<PTree>, b: seq<PTree>)
    ensures FootAll(a + b) == FootAll(a) + FootAll(b)
    ensures ApartAll(a + b) <==> ApartAll(a) && ApartAll(b) && FootAll(a) !! FootAll(b)
  {
    if a == [] {
      assert a + b == b;
    } else {
      ConcatApart(a[1..], b);
      assert (a + b)[1..] == a[1..] + b;
    }
  }

  lemma {:induction false} FootAllocated(m: Mem, t: PTree)
    requires Holds(m, t)
    ensures Foot(t) <= m.Keys
    decreases t, 1
  {
    FootAllAllocated(m, t.kids);
  }

  lemma {:induction false} FootAllAllocated(m: Mem, cs: seq<PTree>)
    requires HoldsAll(m, cs)
    ensures FootAll(cs) <= m.Keys
    decreases cs, 0
  {
    if cs != [] {
      FootAllocated(m, cs[0]);
      FootAllAllocated(m, cs[1..]);
    }
  }

  lemma BodyFrame(m: Mem, m': Mem, before: set<Page>, after: set<Page>,
                  n: Node, ks: seq<Key>, vs: seq<Handle>, ns: seq<Node>)
    requires Body(m, n, ks, vs, ns) && Conserved(m, m', before, after) && OwnPages(n) !! before
    ensures Body(m', n, ks, vs, ns) && OwnPages(n) !! after
  {
    BlockFrame(m, m', before, after, n.keys);
    BlockFrame(m, m', before, after, n.values);
    if ns != [] {
      BlockFrame(m, m', before, after, n.children);
    }
  }

  /** A change outside of the blocks of a tree keeps the tree. */
  lemma {:induction false} HoldsFrame(m: Mem, m': Mem, before: set<Page>, after: set<Page>, t: PTree)
    requires Holds(m, t) && Conserved(m, m', before, after) && Foot(t) !! before
    ensures Holds(m', t) && Foot(t) !! after
    decreases t, 1
  {
    BodyFrame(m, m', before, after, t.node, t.keys, t.vals, NodesOf(t.kids));
    HoldsAllFrame(m, m', before, after, t.kids);
  }

  lemma {:induction false} HoldsAllFrame(m: Mem, m': Mem, before: set<Page>, after: set<Page>, cs: seq<PTree>)
    requires HoldsAll(m, cs) && Conserved(m, m', before, after) && FootAll(cs) !! before
    ensures HoldsAll(m', cs) && FootAll(cs) !! after
    decreases cs, 0
  {
    if cs != [] {
      HoldsFrame(m, m', before, after, cs[0]);
      HoldsAllFrame(m, m', before, after, cs[1..]);
      forall i | 0 <= i < |cs| ensures Holds(m', cs[i]) {
        assert i > 0 ==> cs[i] == cs[1..][i - 1];
      }
    }
  }

  lemma HoldsConcat(m: Mem, a: seq<PTree>, b: seq<PTree>)
    requires HoldsAll(m, a) && HoldsAll(m, b)
    ensures HoldsAll(m, a + b)
  {
  }

  ghost function Spliced(cs: seq<PTree>, pos: nat, repl: seq<PTree>): seq<PTree>
    requires pos < |cs|
  {
    (cs[..pos] + repl) + cs[pos + 1..]
  }

  lemma SplicedApart(cs: seq<PTree>, pos: nat, repl: seq<PTree>)
    requires pos < |cs| && ApartAll(cs) && ApartAll(repl)
    requires FootAll(repl) !! FootAll(cs[..pos]) && FootAll(repl) !! FootAll(cs[pos + 1..])
    ensures ApartAll(Spliced(cs, pos, repl))
    ensures FootAll(Spliced(cs, pos, repl)) == FootAll(repl) + (FootAll(cs[..pos]) + FootAll(cs[pos + 1..]))
  {
    SplitForest(cs, pos);
    ConcatApart(cs[..pos], repl);
    ConcatApart(cs[..pos] + repl, cs[pos + 1..]);
  }

  /** One tree of a forest is replaced by others, in blocks of its own and new ones; the rest stays. */
  lemma ReplaceInForest(m: Mem, m': Mem, cs: seq<PTree>, pos: nat, repl: seq<PTree>)
    requires pos < |cs| && HoldsAll(m, cs) && ApartAll(cs)
    requires HoldsAll(m', repl) && ApartAll(repl) && Conserved(m, m', Foot(cs[pos]), FootAll(repl))
    ensures HoldsAll(m', Spliced(cs, pos, repl)) && ApartAll(Spliced(cs, pos, repl))
    ensures Conserved(m, m', FootAll(cs), FootAll(Spliced(cs, pos, repl)))
  {
    var a, b := cs[..pos], cs[pos + 1..];
    OthersStay(m, m', cs, pos, FootAll(repl));
    HoldsConcat(m', a, repl);
    HoldsConcat(m', a + repl, b);
    SplicedApart(cs, pos, repl);
  }

  /** The trees beside the one that changes. */
  lemma OthersStay(m: Mem, m': Mem, cs: seq<PTree>, pos: nat, after: set<Page>)
    requires pos < |cs| && HoldsAll(m, cs) && ApartAll(cs) && Conserved(m, m', Foot(cs[pos]), after)
    ensures HoldsAll(m', cs[..pos]) && HoldsAll(m', cs[pos + 1..])
    ensures after !! FootAll(cs[..pos]) && after !! FootAll(cs[pos + 1..])
    ensures Conserved(m, m', FootAll(cs), after + (FootAll(cs[..pos]) + FootAll(cs[pos + 1..])))
  {
    BesideTree(m, cs, pos);
    HoldsAllFrame(m, m', Foot(cs[pos]), after, cs[..pos]);
    HoldsAllFrame(m, m', Foot(cs[pos]), after, cs[pos + 1..]);
    ConservedRest(m, m', Foot(cs[pos]), after, FootAll(cs[..pos]) + FootAll(cs[pos + 1..]));
  }

  lemma BesideTree(m: Mem, cs: seq<PTree>, pos: nat)
    requires pos < |cs| && HoldsAll(m, cs) && ApartAll(cs)
    ensures var rest := FootAll(cs[..pos]) + FootAll(cs[pos + 1..]);
      rest <= m.Keys && rest !! Foot(cs[pos]) && FootAll(cs) == Foot(cs[pos]) + rest
  {
    SplitForest(cs, pos);
    ThreeSets(FootAll(cs[..pos]), Foot(cs[pos]), FootAll(cs[pos + 1..]));
    BesideAllocated(m, cs, pos);
  }

  lemma BesideAllocated(m: Mem, cs: seq<PTree>, pos: nat)
    requires pos < |cs| && HoldsAll(m, cs)
    ensures FootAll(cs[..pos]) + FootAll(cs[pos + 1..]) <= m.Keys
  {
    FootAllAllocated(m, cs[..pos]);
    FootAllAllocated(m, cs[pos + 1..]);
  }

  lemma ThreeSets(a: set<Page>, b: set<Page>, c: set<Page>)
    requires a !! b !! c
    ensures (a + c) !! b && a + (b + c) == b + (a + c)
  {
  }

  lemma SplitForest(cs: seq<PTree>, pos: nat)
    requires pos < |cs|
    ensures FootAll(cs) == FootAll(cs[..pos]) + (Foot(cs[pos]) + FootAll(cs[pos + 1..]))
    ensures ApartAll(cs) ==>
      && ApartAll(cs[..pos]) && Apart(cs[pos]) && ApartAll(cs[pos + 1..])
      && FootAll(cs[..pos]) !! Foot(cs[pos]) !! FootAll(cs[pos + 1..])
  {
    ConcatApart(cs[..pos], cs[pos..]);
    assert cs == cs[..pos] + cs[pos..];
    assert cs[pos..][1..] == cs[pos + 1..];
  }
}
