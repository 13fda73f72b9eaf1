/**
 The memory-mapped row index (memmap/Index.hpp): a B-tree from keys to handles of row lists, with every
 list in a block of its own. Appending a row changes a copy of the handle, which may move the list to
 another block, and writes the copy back through the tree.
 */
module MemIndex {
  import opened Wrappers
  import opened SearchTree
  import opened SearchTreeLaws
  import opened Memmap
  import opened Ownership
  import opened BTree

  ghost function RowCells(rows: seq<nat>): (r: seq<Cell>)
    ensures |r| == |rows| && forall i | 0 <= i < |rows| :: r[i] == RowCell(rows[i])
  {
    seq(|rows|, i requires 0 <= i < |rows| => RowCell(rows[i]))
  }

  /** The row lists, as a map. */
  type Lists = map<Key, seq<nat>>

  function RowsUnder(lists: Lists, k: Key): seq<nat> {
    if k in lists then lists[k] else []
  }

  function AddRow(lists: Lists, k: Key, row: nat): Lists {
    lists[k := RowsUnder(lists, k) + [row]]
  }

  /** Every handle of the directory refers to a block of its own that stores the list of the key. */
  ghost predicate Listed(m: Mem, dir: map<Key, Handle>, lists: Lists) {
    && dir.Keys == lists.Keys
    && (forall k | k in dir :: Block(m, dir[k]) && Cells(m, dir[k]) == RowCells(lists[k]))
    && (forall j, k | j in dir && k in dir && j != k :: dir[j].page != dir[k].page)
  }

  ghost function ListPages(dir: map<Key, Handle>): set<Page> {
    set k | k in dir :: dir[k].page
  }

  /** The directory is the content of the tree. */
  ghost predicate Directs(f: seq<Entry<Handle>>, dir: map<Key, Handle>) {
    forall k :: Lookup(f, k) == if k in dir then Some(dir[k]) else None
  }

  lemma ListedFrame(m: Mem, m': Mem, before: set<Page>, after: set<Page>, dir: map<Key, Handle>, lists: Lists)
    requires Listed(m, dir, lists) && Conserved(m, m', before, after) && ListPages(dir) !! before
    ensures Listed(m', dir, lists) && ListPages(dir) !! after && ListPages(dir) <= m.Keys
  {
    forall k | k in dir
      ensures Block(m', dir[k]) && Cells(m', dir[k]) == Cells(m, dir[k]) && dir[k].page !in after && dir[k].page in m
    {
      assert dir[k].page in ListPages(dir);
      assert dir[k].page in PageOf(dir[k]);
      BlockFrame(m, m', before, after, dir[k]);
    }
  }

  /** The directory without one key. */
  lemma WithoutKey(m: Mem, dir: map<Key, Handle>, lists: Lists, k: Key)
    requires Listed(m, dir, lists)
    ensures Listed(m, dir - {k}, lists - {k})
    ensures k in dir ==> dir[k].page !in ListPages(dir - {k}) && ListPages(dir) == ListPages(dir - {k}) + {dir[k].page}
    ensures k !in dir ==> dir - {k} == dir
  {
    if k in dir {
      forall p | p in ListPages(dir) ensures p in ListPages(dir - {k}) + {dir[k].page} {
        var j :| j in dir && dir[j].page == p;
        assert j != k ==> j in dir - {k};
      }
    }
  }

  lemma WithKey(m: Mem, dir: map<Key, Handle>, lists: Lists, k: Key, h: Handle, rows: seq<nat>)
    requires Listed(m, dir, lists) && k !in dir
    requires Block(m, h) && Cells(m, h) == RowCells(rows) && h.page !in ListPages(dir)
    ensures Listed(m, dir[k := h], lists[k := rows])
    ensures ListPages(dir[k := h]) == ListPages(dir) + {h.page}
  {
    forall j | j in dir ensures dir[j].page != h.page {
      assert dir[j].page in ListPages(dir);
    }
    forall p | p in ListPages(dir) + {h.page} ensures p in ListPages(dir[k := h]) {
      if p == h.page {
        assert dir[k := h][k].page == p;
      } else {
        var j :| j in dir && dir[j].page == p;
        assert dir[k := h][j].page == p;
      }
    }
  }

  lemma DirectsPut(f: seq<Entry<Handle>>, dir: map<Key, Handle>, k: Key, h: Handle)
    requires Directs(f, dir)
    ensures Directs(Put(f, k, h), dir[k := h])
  {
    forall j ensures Lookup(Put(f, k, h), j) == if j in dir[k := h] then Some(dir[k := h][j]) else None {
      PutLookup(f, k, h, j);
    }
  }

  class MemIndex {
    const pool: Pool
    var btree: BTree
    ghost var dir: map<Key, Handle>
    ghost var lists: Lists

    ghost predicate Valid()
      reads this, pool, btree
    {
      && btree.pool == pool && btree.Valid()
      && Directs(Flat(Erase(btree.tree)), dir) && Listed(pool.mem, dir, lists)
      && ListPages(dir) !! Foot(btree.tree)
    }

    /** Every block that the index is responsible for. */
    ghost function Owned(): set<Page>
      reads this, btree
    {
      Foot(btree.tree) + ListPages(dir)
    }

    constructor (p: Pool)
      modifies p
      ensures pool == p && Valid() && fresh(btree) && lists == map[]
      ensures Conserved(old(p.mem), p.mem, {}, Owned())
    {
      pool := p;
      var keysPerPage: nat := *;
      btree := new BTree(p, keysPerPage);
      dir := map[];
      lists := map[];
      new;
      assert Flat(Erase(btree.tree)) == [];
      assert Owned() == Foot(btree.tree);
    }

    /** Operator[]: the handle of the list of a key. */
    method Find(k: Key) returns (r: Option<Handle>)
      requires Valid()
      ensures r.Some? <==> k in lists
      ensures r.Some? ==> Block(pool.mem, r.value) && Cells(pool.mem, r.value) == RowCells(lists[k])
      ensures r == if k in dir then Some(dir[k]) else None
    {
      r := btree.Get(k);
    }

    /** The list of a key gets one more row at its end. */
    method AppendRow(k: Key, row: nat) returns (h: Handle)
      requires Valid()
      modifies pool
      ensures ListAppended(old(pool.mem), pool.mem, dir, lists, k, h, RowsUnder(lists, k) + [row])
    {
      var opt := Find(k);
      ghost var m0 := pool.mem;
      match opt {
        case Some(list) =>
          h := pool.PushBack(list, RowCell(row));
          assert RowCells(lists[k]) + [RowCell(row)] == RowCells(lists[k] + [row]);
        case None =>
          h := pool.NewVector();
          ghost var m1, h1 := pool.mem, h;
          h := pool.PushBack(h, RowCell(row));
          ConservedTransitive(m0, m1, pool.mem, {}, PageOf(h1), PageOf(h));
          assert [] + [RowCell(row)] == RowCells([] + [row]);
      }
    }

    method Insert(k: Key, row: nat)
      requires Valid()
      modifies this`dir, this`lists, pool, btree
      ensures Valid() && lists == AddRow(old(lists), k, row)
      ensures Conserved(old(pool.mem), pool.mem, old(Owned()), Owned())
    {
      ghost var m0, rows, owned := pool.mem, RowsUnder(lists, k) + [row], Owned();
      var h := AppendRow(k, row);
      ghost var m1 := pool.mem;
      TreeBesideLists(m0, m1, btree.tree, dir, lists, k, h, rows);
      ghost var owned1 := Foot(btree.tree) + ListPages(dir[k := h]);
      StoreHandle(k, h, rows);
      ConservedTransitive(m0, m1, pool.mem, owned, owned1, Owned());
    }

    /** Frees the row lists; the tree still holds their handles. */
    method DeallocateLists()
      requires Valid()
      modifies pool
      ensures pool.mem == old(pool.mem) - ListPages(dir)
    {
      ghost var m0 := pool.mem;
      var values := btree.Values();
      ValuesAreLists(Erase(btree.tree), pool.mem, dir, lists);
      ListedFrame(m0, m0, {}, {}, dir, lists);
      var i := 0;
      while i < |values|
        invariant i <= |values|
        invariant pool.mem == m0 - PagesOf(values[..i])
      {
        DeallocateList(values, i, m0);
        i := i + 1;
      }
      assert values[..i] == values;
    }

    method DeallocateList(values: seq<Handle>, i: nat, ghost m0: Mem)
      requires i < |values| && DistinctPages(values) && PagesOf(values) <= m0.Keys
      requires pool.mem == m0 - PagesOf(values[..i])
      modifies pool
      ensures pool.mem == m0 - PagesOf(values[..i + 1])
    {
      assert values[i].page in PagesOf(values);
      assert values[i].page !in PagesOf(values[..i]);
      pool.Deallocate(values[i].page);
      PagesOfNext(values, i);
    }

    /** The destructor: first the lists, then the tree. */
    method Destroy()
      requires Valid()
      modifies pool, btree
      ensures Conserved(old(pool.mem), pool.mem, old(Owned()), {})
    {
      ghost var m0, t := pool.mem, btree.tree;
      ReleaseLists();
      btree.Deallocate();
      assert pool.mem - {} == pool.mem == (m0 - ListPages(dir)) - Foot(t) == m0 - (Foot(t) + ListPages(dir));
    }

    /** Frees the row lists and leaves the tree as it is. */
    method ReleaseLists()
      requires Valid()
      modifies pool
      ensures pool.mem == old(pool.mem) - ListPages(dir)
      ensures ListPages(dir) <= old(pool.mem).Keys && Foot(btree.tree) <= old(pool.mem).Keys
      ensures Holds(pool.mem, btree.tree)
    {
      ghost var m0 := pool.mem;
      ListedFrame(m0, m0, {}, {}, dir, lists);
      FootAllocated(m0, btree.tree);
      DeallocateLists();
      BesideFreed(m0, pool.mem, btree.tree, ListPages(dir));
    }

    /** Deletes all data and declares a fresh tree. */
    method Clear()
      requires Valid()
      modifies this, pool, btree
      ensures Valid() && fresh(btree) && lists == map[]
      ensures Conserved(old(pool.mem), pool.mem, old(Owned()), Owned())
    {
      ghost var m0, t, pages := pool.mem, btree.tree, ListPages(dir);
      ReleaseLists();
      DeclareTree();
      assert Owned() == Foot(btree.tree);
      ClearedMemory(m0, pool.mem, pages, Foot(t), Foot(btree.tree));
    }

    /** A fresh tree is declared first, then the old one is deallocated by the move assignment. */
    method DeclareTree()
      requires btree.pool == pool && Holds(pool.mem, btree.tree) && Apart(btree.tree) && btree.tree.node == btree.root
      modifies this, pool, btree
      ensures fresh(btree) && Valid() && dir == map[] && lists == map[]
      ensures Conserved(old(pool.mem), pool.mem, old(Foot(btree.tree)), Foot(btree.tree))
    {
      ghost var m1, t := pool.mem, btree.tree;
      FootAllocated(m1, t);
      var keysPerPage: nat := *;
      var declared := new BTree(pool, keysPerPage);
      ghost var m2, u := pool.mem, declared.tree;
      HoldsFrame(m1, m2, {}, Foot(u), t);
      FootAllocated(m2, t);
      btree.Deallocate();
      BesideFreed(m2, pool.mem, u, Foot(t));
      btree, dir, lists := declared, map[], map[];
      Exchanged(m1, m2, Foot(t), Foot(u));
    }

    /** Writes the handle of a list back through the tree. */
    method StoreHandle(k: Key, h: Handle, ghost rows: seq<nat>)
      requires btree.pool == pool && btree.Valid() && Directs(Flat(Erase(btree.tree)), dir)
      requires Listed(pool.mem, dir[k := h], lists[k := rows]) && ListPages(dir[k := h]) !! Foot(btree.tree)
      modifies this`dir, this`lists, pool, btree
      ensures Valid() && lists == old(lists)[k := rows]
      ensures Conserved(old(pool.mem), pool.mem, old(Foot(btree.tree) + ListPages(dir[k := h])), Owned())
    {
      ghost var m1, t := pool.mem, btree.tree;
      PutDirected(Erase(t), k, h, btree.order, dir);
      btree.Insert(k, h);
      dir, lists := dir[k := h], lists[k := rows];
      ListsBesideTree(m1, pool.mem, t, btree.tree, dir, lists);
    }
  }

  method InsertAll(index: MemIndex, ops: seq<(Key, nat)>)
    requires index.Valid()
    modifies index, index.pool, index.btree
    ensures index.Valid() && index.btree == old(index.btree)
    ensures Conserved(old(index.pool.mem), index.pool.mem, old(index.Owned()), index.Owned())
    ensures index.lists == AddRows(old(index.lists), ops)
  {
    ghost var m0, owned0 := index.pool.mem, index.Owned();
    ghost var lists := index.lists;
    ListedFrame(m0, m0, {}, {}, index.dir, index.lists);
    FootAllocated(m0, index.btree.tree);
    var i := 0;
    while i < |ops|
      invariant i <= |ops|
      invariant index.Valid() && index.btree == old(index.btree)
      invariant Conserved(m0, index.pool.mem, owned0, index.Owned())
      invariant AddRows(index.lists, ops[i..]) == AddRows(lists, ops)
    {
      ghost var m1, owned := index.pool.mem, index.Owned();
      index.Insert(ops[i].0, ops[i].1);
      ConservedTransitive(m0, m1, index.pool.mem, owned0, owned, index.Owned());
      assert ops[i..][1..] == ops[i + 1..];
      i := i + 1;
    }
  }

  ghost function AddRows(lists: Lists, ops: seq<(Key, nat)>): Lists
    decreases |ops|
  {
    if ops == [] then lists else AddRows(AddRow(lists, ops[0].0, ops[0].1), ops[1..])
  }

  ghost function RowsInserted(ops: seq<(Key, nat)>, k: Key): seq<nat>
    decreases |ops|
  {
    if ops == [] then [] else (if ops[0].0 == k then [ops[0].1] else []) + RowsInserted(ops[1..], k)
  }

  /** After any run, the list of a key holds the rows inserted under it, in that order. */
  lemma {:induction false} RunLists(lists: Lists, ops: seq<(Key, nat)>, k: Key)
    ensures RowsUnder(AddRows(lists, ops), k) == RowsUnder(lists, k) + RowsInserted(ops, k)
    ensures k in AddRows(lists, ops) <==> k in lists || RowsInserted(ops, k) != []
    decreases |ops|
  {
    if ops != [] {
      RunLists(AddRow(lists, ops[0].0, ops[0].1), ops[1..], k);
      Reassociate(RowsUnder(lists, k), if ops[0].0 == k then [ops[0].1] else [], RowsInserted(ops[1..], k));
    }
  }

  /** From the constructor to the destructor: whatever is inserted, every block is freed in the end. */
  method Lifetime(p: Pool, ops: seq<(Key, nat)>)
    modifies p
    ensures p.mem == old(p.mem)
  {
    ghost var m0 := p.mem;
    var index := new MemIndex(p);
    ghost var m1, owned1 := p.mem, index.Owned();
    InsertAll(index, ops);
    ghost var m2, owned2 := p.mem, index.Owned();
    index.Destroy();
    ConservedTransitive(m0, m1, m2, {}, owned1, owned2);
    ConservedTransitive(m0, m2, p.mem, {}, owned2, {});
    NothingLeft(m0, p.mem);
  }

  lemma NothingLeft(m0: Mem, m1: Mem)
    requires Conserved(m0, m1, {}, {})
    ensures m1 == m0
  {
    assert m1 - {} == m1 && m0 - {} == m0;
  }

  // ------------------------------------------------------------------------
  // Every list is listed once.

  ghost predicate DistinctPages(s: seq<Handle>) {
    forall i, j | 0 <= i < j < |s| :: s[i].page != s[j].page
  }

  lemma {:induction false} DistinctCount(s: seq<Handle>, x: Handle)
    requires DistinctPages(s)
    ensures multiset(s)[x] <= 1
    decreases |s|
  {
    if s != [] {
      DistinctCount(s[1..], x);
      assert s == [s[0]] + s[1..];
      assert forall j | 0 <= j < |s[1..]| :: s[1..][j] == s[j + 1];
      if s[0] == x {
        assert x !in s[1..];
      }
    }
  }

  lemma TwiceCounts(s: seq<Handle>, i: nat, j: nat)
    requires i < j < |s| && s[i] == s[j]
    ensures multiset(s)[s[i]] >= 2
  {
    assert s == s[..i] + ([s[i]] + s[i + 1..]);
    assert s[i + 1..][j - i - 1] == s[i];
  }

  /** Pages stay distinct when the handles are listed in another order. */
  lemma DistinctReordered(s: seq<Handle>, t: seq<Handle>)
    requires DistinctPages(s) && multiset(s) == multiset(t)
    ensures DistinctPages(t)
  {
    forall i, j | 0 <= i < j < |t| ensures t[i].page != t[j].page {
      DistinctCount(s, t[i]);
      if t[i] == t[j] {
        TwiceCounts(t, i, j);
      } else {
        assert t[i] in multiset(s) && t[j] in multiset(s);
        var a :| 0 <= a < |s| && s[a] == t[i];
        var b :| 0 <= b < |s| && s[b] == t[j];
      }
    }
  }

  ghost function PagesOf(s: seq<Handle>): set<Page> {
    set i | 0 <= i < |s| :: s[i].page
  }

  lemma ContentEntry(f: seq<Entry<Handle>>, dir: map<Key, Handle>, i: nat)
    requires Sorted(f) && Directs(f, dir) && i < |f|
    ensures f[i].0 in dir && dir[f[i].0] == f[i].1
  {
    Around(f, i);
    SortedLookup(f, f[..i], f[i], f[i + 1..]);
    assert Lookup(f, f[i].0) == Some(f[i].1);
  }

  /** The values of the tree are the handles of the directory, each once, and so are their blocks. */
  lemma ValuesAreLists(t: Tree<Handle>, m: Mem, dir: map<Key, Handle>, lists: Lists)
    requires Shaped(t) && Sorted(Flat(t)) && Directs(Flat(t), dir) && Listed(m, dir, lists)
    ensures DistinctPages(PreOrder(t)) && PagesOf(PreOrder(t)) == ListPages(dir)
    ensures forall i | 0 <= i < |PreOrder(t)| :: PreOrder(t)[i].IsAllocated()
  {
    var v := ValuesOf(Flat(t));
    PreOrderIsContent(t);
    ContentHandles(Flat(t), m, dir, lists);
    DistinctReordered(v, PreOrder(t));
    PagesReordered(v, PreOrder(t));
  }

  lemma ContentHandles(f: seq<Entry<Handle>>, m: Mem, dir: map<Key, Handle>, lists: Lists)
    requires Sorted(f) && Directs(f, dir) && Listed(m, dir, lists)
    ensures DistinctPages(ValuesOf(f)) && PagesOf(ValuesOf(f)) == ListPages(dir)
    ensures forall i | 0 <= i < |f| :: ValuesOf(f)[i].IsAllocated()
  {
    var v := ValuesOf(f);
    forall i | 0 <= i < |f| ensures f[i].0 in dir && dir[f[i].0] == v[i] {
      ContentEntry(f, dir, i);
    }
    forall k | k in dir ensures dir[k].page in PagesOf(v) {
      assert Lookup(f, k) == Some(dir[k]);
      var j :| 0 <= j < |f| && f[j] == (k, dir[k]);
      assert v[j] == dir[k];
    }
  }

  lemma PagesReordered(s: seq<Handle>, t: seq<Handle>)
    requires multiset(s) == multiset(t)
    ensures PagesOf(s) == PagesOf(t)
    ensures (forall i | 0 <= i < |s| :: s[i].IsAllocated()) ==> forall i | 0 <= i < |t| :: t[i].IsAllocated()
  {
    SameElements(s, t);
    SameElements(t, s);
  }

  lemma SameElements(s: seq<Handle>, t: seq<Handle>)
    requires multiset(s) == multiset(t)
    ensures forall i | 0 <= i < |s| :: exists j :: 0 <= j < |t| && t[j] == s[i]
  {
    forall i | 0 <= i < |s| ensures exists j :: 0 <= j < |t| && t[j] == s[i] {
      assert s[i] in multiset(s) && s[i] in multiset(t);
      assert s[i] in t;
    }
  }

  lemma PagesOfNext(s: seq<Handle>, i: nat)
    requires i < |s|
    ensures PagesOf(s[..i + 1]) == PagesOf(s[..i]) + {s[i].page}
  {
    assert s[..i + 1][i] == s[i];
    assert forall j | 0 <= j < i :: s[..i + 1][j] == s[..i][j];
  }

  lemma ClearedMemory(m0: Mem, m: Mem, pages: set<Page>, foot: set<Page>, declared: set<Page>)
    requires pages <= m0.Keys && foot <= m0.Keys && pages !! foot
    requires Conserved(m0 - pages, m, foot, declared)
    ensures Conserved(m0, m, foot + pages, declared)
  {
    assert m0 - (foot + pages) == (m0 - pages) - foot;
  }

  lemma Exchanged(m1: Mem, m2: Mem, foot: set<Page>, declared: set<Page>)
    requires Conserved(m1, m2, {}, declared) && foot <= m1.Keys && foot !! declared
    ensures Conserved(m1, m2 - foot, foot, declared)
  {
    assert m1 - {} == m1;
    assert (m2 - foot) - declared == (m2 - declared) - foot;
  }

  lemma BesideFreed(m0: Mem, m1: Mem, t: PTree, pages: set<Page>)
    requires Holds(m0, t) && m1 == m0 - pages && pages !! Foot(t) && pages <= m0.Keys
    ensures Holds(m1, t)
  {
    assert m1 - {} == m1;
    HoldsFrame(m0, m1, pages, {}, t);
  }

  lemma PutDirected(t: Tree<Handle>, k: Key, h: Handle, order: nat, dir: map<Key, Handle>)
    requires Shaped(t) && Sorted(Flat(t)) && Directs(Flat(t), dir)
    ensures Directs(Flat(SearchTree.Insert(t, k, h, order)), dir[k := h])
  {
    InsertIsPut(t, k, h, order);
    DirectsPut(Flat(t), dir, k, h);
  }

  /** The block of one list (or no block) turned into the block of h, which stores `rows`. */
  ghost predicate ListAppended(m: Mem, m': Mem, dir: map<Key, Handle>, lists: Lists, k: Key, h: Handle,
      rows: seq<nat>) {
    && Block(m', h) && Cells(m', h) == RowCells(rows)
    && Conserved(m, m', if k in dir then {dir[k].page} else {}, {h.page})
  }

  lemma TreeBesideLists(m0: Mem, m1: Mem, t: PTree, dir: map<Key, Handle>, lists: Lists, k: Key, h: Handle,
      rows: seq<nat>)
    requires Holds(m0, t) && Listed(m0, dir, lists) && ListPages(dir) !! Foot(t)
    requires ListAppended(m0, m1, dir, lists, k, h, rows)
    ensures Holds(m1, t) && Listed(m1, dir[k := h], lists[k := rows]) && ListPages(dir[k := h]) !! Foot(t)
    ensures Conserved(m0, m1, Foot(t) + ListPages(dir), Foot(t) + ListPages(dir[k := h]))
  {
    var before := if k in dir then {dir[k].page} else {};
    var rest := dir - {k};
    ListMoved(m0, m1, dir, lists, k, h, rows);
    HoldsFrame(m0, m1, before, {h.page}, t);
    FootAllocated(m0, t);
    MovedBeside(m0, m1, before, {h.page}, Foot(t), ListPages(rest));
    assert ListPages(rest) + before == ListPages(dir);
    assert ListPages(rest) + {h.page} == ListPages(dir[k := h]);
  }

  lemma ListMoved(m0: Mem, m1: Mem, dir: map<Key, Handle>, lists: Lists, k: Key, h: Handle, rows: seq<nat>)
    requires Listed(m0, dir, lists) && ListAppended(m0, m1, dir, lists, k, h, rows)
    ensures Listed(m1, dir[k := h], lists[k := rows])
    ensures var rest, before := dir - {k}, if k in dir then {dir[k].page} else {};
      && ListPages(dir) == ListPages(rest) + before && before !! ListPages(rest)
      && ListPages(dir[k := h]) == ListPages(rest) + {h.page} && ListPages(rest) <= m0.Keys
  {
    var before := if k in dir then {dir[k].page} else {};
    var rest := dir - {k};
    WithoutKey(m0, dir, lists, k);
    ListedFrame(m0, m1, before, {h.page}, rest, lists - {k});
    WithKey(m1, rest, lists - {k}, k, h, rows);
    assert rest[k := h] == dir[k := h] && (lists - {k})[k := rows] == lists[k := rows];
  }

  lemma MovedBeside(m0: Mem, m1: Mem, before: set<Page>, after: set<Page>, foot: set<Page>, pages: set<Page>)
    requires Conserved(m0, m1, before, after) && foot <= m0.Keys && pages <= m0.Keys && before !! foot
        && before !! pages
    ensures Conserved(m0, m1, foot + (pages + before), foot + (pages + after))
    ensures after !! foot && after !! pages
  {
    ConservedRest(m0, m1, before, after, foot + pages);
    assert before + (foot + pages) == foot + (pages + before);
    assert after + (foot + pages) == foot + (pages + after);
  }

  lemma ListsBesideTree(m1: Mem, m2: Mem, t: PTree, t': PTree, dir: map<Key, Handle>, lists: Lists)
    requires Listed(m1, dir, lists) && ListPages(dir) !! Foot(t) && Conserved(m1, m2, Foot(t), Foot(t'))
    ensures Listed(m2, dir, lists) && ListPages(dir) !! Foot(t')
    ensures Conserved(m1, m2, Foot(t) + ListPages(dir), Foot(t') + ListPages(dir))
  {
    ListedFrame(m1, m2, Foot(t), Foot(t'), dir, lists);
    ConservedRest(m1, m2, Foot(t), Foot(t'), ListPages(dir));
  }
}
