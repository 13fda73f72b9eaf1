/**
 The pool of memory blocks and the growable vector inside it (memmap/Pool.hpp, memmap/VectorImpl.hpp,
 memmap/Vector.hpp). A block is a sequence of untyped cells, as long as its capacity. A VectorImpl is a
 handle: the first page of its block and the number of filled cells; handles are copied freely and are
 themselves stored in blocks.
 */
module Memmap {
  import opened SearchTree

  type Page = int

  const NOT_ALLOCATED: Page := -1

  datatype Handle = Handle(page: Page, size: nat) {
    predicate IsAllocated() { page != NOT_ALLOCATED }
  }

  const NO_BLOCK := Handle(NOT_ALLOCATED, 0)

  datatype Node = Node(children: Handle, keys: Handle, values: Handle)

  datatype Cell = Blank | KeyCell(key: Key) | ListCell(list: Handle) | NodeCell(node: Node) | RowCell(row: nat)

  type Mem = map<Page, seq<Cell>>

  /** The handle refers to an allocated block that is long enough. */
  ghost predicate Block(m: Mem, h: Handle) {
    h.IsAllocated() && h.page in m && h.size <= |m[h.page]| && 0 < |m[h.page]|
  }

  ghost function Cells(m: Mem, h: Handle): (r: seq<Cell>)
    requires Block(m, h)
    ensures |r| == h.size
  {
    m[h.page][..h.size]
  }

  ghost function PageOf(h: Handle): set<Page> {
    if h.IsAllocated() then {h.page} else {}
  }

  /**
   Between two memories the blocks in `before` turned into the blocks in `after`, and nothing else
   happened: no other block was touched, freed or allocated, and `after` took no other block over.
   */
  ghost predicate Conserved(m: Mem, m': Mem, before: set<Page>, after: set<Page>) {
    before <= m.Keys && after <= m'.Keys && m' - after == m - before
  }

  lemma ConservedTransitive(m0: Mem, m1: Mem, m2: Mem, a: set<Page>, b: set<Page>, c: set<Page>)
    requires Conserved(m0, m1, a, b) && Conserved(m1, m2, b, c)
    ensures Conserved(m0, m2, a, c)
  {
  }

  /** What lies outside of a change keeps its content, and stays outside. */
  lemma ConservedRest(m: Mem, m': Mem, before: set<Page>, after: set<Page>, rest: set<Page>)
    requires Conserved(m, m', before, after) && rest <= m.Keys && rest !! before
    ensures rest !! after && rest <= m'.Keys
    ensures forall p | p in rest :: m'[p] == m[p]
    ensures Conserved(m, m', before + rest, after + rest)
  {
    forall p | p in rest ensures p !in after && p in m' && m'[p] == m[p] {
      assert p in m - before;
      assert (m - before)[p] == (m' - after)[p];
    }
    assert m' - (after + rest) == m - (before + rest) by {
      assert m' - (after + rest) == (m' - after) - rest;
      assert m - (before + rest) == (m - before) - rest;
    }
  }

  /** A block outside of a change. */
  lemma BlockFrame(m: Mem, m': Mem, before: set<Page>, after: set<Page>, h: Handle)
    requires Block(m, h) && Conserved(m, m', before, after) && PageOf(h) !! before
    ensures Block(m', h) && Cells(m', h) == Cells(m, h) && m'[h.page] == m[h.page]
    ensures PageOf(h) !! after
  {
    ConservedRest(m, m', before, after, PageOf(h));
    assert h.page in PageOf(h);
  }

  /** Shifted by one from pos on, and x written into the gap. */
  lemma InsertedCells(cells: seq<Cell>, shifted: seq<Cell>, pos: nat, x: Cell, size: nat)
    requires pos <= size < |cells| == |shifted|
    requires shifted[..pos] == cells[..pos] && shifted[pos] == x && shifted[pos + 1..size + 1] == cells[pos..size]
    ensures shifted[..size + 1] == InsertAt(cells[..size], pos, x)
  {
  }

  /** One turn of the loop that shifts: cell i gets the content of the one before it. */
  lemma ShiftedCells(cells: seq<Cell>, was: seq<Cell>, i: nat, size: nat)
    requires 0 < i <= size < |cells| == |was|
    requires was[..i + 1] == cells[..i + 1] && was[i + 1..size + 1] == cells[i..size]
    ensures var now := was[i := was[i - 1]]; now[..i] == cells[..i] && now[i..size + 1] == cells[i - 1..size]
  {
    assert was[i - 1] == cells[..i + 1][i - 1];
  }

  method Pick<T>(s: set<T>) returns (x: T)
    requires s != {}
    ensures x in s
  {
    x :| x in s;
  }

  class Pool {
    var mem: Mem

    constructor ()
      ensures mem == map[]
    {
      mem := map[];
    }

    /**
     Allocates a block for at least n cells. Given a block to grow, the block is either extended in
     place or moved to a new one and released; its content is kept in front. Which page, which capacity
     and what the new cells hold is not determined.
     */
    method Allocate(n: nat, current: Page) returns (page: Page)
      requires n > 0
      requires current != NOT_ALLOCATED ==> current in mem && |mem[current]| < n
      modifies this
      ensures page != NOT_ALLOCATED && page in mem && |mem[page]| >= n
      ensures current == NOT_ALLOCATED ==> page !in old(mem) && Conserved(old(mem), mem, {}, {page})
      ensures current != NOT_ALLOCATED ==> page == current || page !in old(mem)
      ensures current != NOT_ALLOCATED ==> old(mem[current]) <= mem[page]
      ensures current != NOT_ALLOCATED ==> Conserved(old(mem), mem, {current}, {page})
    {
      var content: seq<Cell> := if current != NOT_ALLOCATED then mem[current] else [];
      var rest := if current != NOT_ALLOCATED then mem - {current} else mem;
      var extend: bool := *;
      if current != NOT_ALLOCATED && extend {
        page := current;
      } else {
        var anyPage: Page := *;
        page := anyPage;
        if anyPage == NOT_ALLOCATED || anyPage in mem {
          page := Unused();
        }
      }
      var garbage: seq<Cell> := *;
      if |content| + |garbage| < n {
        garbage := garbage + seq(n, _ => Blank);
      }
      mem := rest[page := content + garbage];
      assert mem - {page} == rest - {page} == rest;
      assert old(mem) - {} == old(mem);
    }

    /** Some page that no block begins with. */
    method Unused() returns (page: Page)
      ensures page !in mem && page != NOT_ALLOCATED
    {
      page := 0;
      var left := mem.Keys;
      while left != {}
        invariant left <= mem.Keys && page >= 0
        invariant forall p | p in mem && p !in left :: p < page
        decreases |left|
      {
        var x := Pick(left);
        left := left - {x};
        page := if x < page then page else x + 1;
      }
    }

    method Deallocate(page: Page)
      requires page in mem
      modifies this
      ensures mem == old(mem) - {page}
    {
      mem := mem - {page};
    }

    /** Vector's constructor followed by yield_impl: an empty block that the caller now owns. */
    method NewVector() returns (h: Handle)
      modifies this
      ensures Block(mem, h) && Cells(mem, h) == []
      ensures Conserved(old(mem), mem, {}, PageOf(h))
    {
      var capacity: int := *;
      var page := Allocate(if capacity < 1 then 1 else capacity, NOT_ALLOCATED);
      h := Handle(page, 0);
    }

    /** The doubling of the capacity that insert and push_back begin with. */
    method Grow(h: Handle) returns (h': Handle)
      requires Block(mem, h)
      modifies this
      ensures Block(mem, h') && h'.size == h.size < |mem[h'.page]| && Cells(mem, h') == old(Cells(mem, h))
      ensures h'.page == h.page || h'.page !in old(mem)
      ensures Conserved(old(mem), mem, PageOf(h), PageOf(h'))
    {
      h' := h;
      if h.size == |mem[h.page]| {
        var page := Allocate(h.size * 2, h.page);
        h' := h.(page := page);
      }
    }

    method PushBack(h: Handle, x: Cell) returns (h': Handle)
      requires Block(mem, h)
      modifies this
      ensures Block(mem, h') && Cells(mem, h') == old(Cells(mem, h)) + [x]
      ensures Conserved(old(mem), mem, PageOf(h), PageOf(h'))
    {
      h' := Grow(h);
      Write(h'.page, h'.size, x);
      h' := h'.(size := h'.size + 1);
    }

    /** An assignment through the pointer to the data of a block. */
    method Write(page: Page, i: nat, x: Cell)
      requires page in mem && i < |mem[page]|
      modifies this
      ensures mem == old(mem)[page := old(mem[page])[i := x]]
      ensures Conserved(old(mem), mem, {page}, {page})
    {
      mem := mem[page := mem[page][i := x]];
      assert mem - {page} == old(mem) - {page};
    }

    /** Inserts x at pos: the elements from pos on are shifted by one, from the back, in place. */
    method InsertCell(h: Handle, pos: nat, x: Cell) returns (h': Handle)
      requires Block(mem, h) && pos <= h.size
      modifies this
      ensures Block(mem, h') && Cells(mem, h') == InsertAt(old(Cells(mem, h)), pos, x)
      ensures Conserved(old(mem), mem, PageOf(h), PageOf(h'))
    {
      h' := Grow(h);
      var page := h'.page;
      ghost var grown := mem;
      ghost var cells := mem[page];
      var i := h'.size;
      while i > pos
        invariant pos <= i <= h'.size
        invariant page in mem && |mem[page]| == |cells|
        invariant mem[page][..i + 1] == cells[..i + 1]
        invariant mem[page][i + 1..h'.size + 1] == cells[i..h'.size]
        invariant Conserved(grown, mem, {page}, {page})
      {
        ghost var was := mem[page];
        Write(page, i, mem[page][i - 1]);
        ShiftedCells(cells, was, i, h'.size);
        i := i - 1;
      }
      Write(page, pos, x);
      h' := h'.(size := h'.size + 1);
      InsertedCells(cells, mem[page], pos, x, h.size);
    }

    /** An assignment to an element of a vector. */
    method SetCell(h: Handle, i: nat, x: Cell)
      requires Block(mem, h) && i < h.size
      modifies this
      ensures Block(mem, h) && Cells(mem, h) == old(Cells(mem, h))[i := x]
      ensures Conserved(old(mem), mem, PageOf(h), PageOf(h))
    {
      Write(h.page, i, x);
    }

    /** Copies the elements from `from` on into a new vector. */
    method CopyTail(h: Handle, from: nat) returns (copy: Handle)
      requires Block(mem, h) && from <= h.size
      modifies this
      ensures Block(mem, h) && Cells(mem, h) == old(Cells(mem, h))
      ensures Block(mem, copy) && Cells(mem, copy) == old(Cells(mem, h))[from..]
      ensures Conserved(old(mem), mem, {}, PageOf(copy))
    {
      ghost var cells := Cells(mem, h);
      ghost var m0 := mem;
      copy := NewVector();
      BlockFrame(m0, mem, {}, PageOf(copy), h);
      var i := from;
      while i < h.size
        invariant from <= i <= h.size
        invariant Block(mem, h) && Cells(mem, h) == cells && mem[h.page] == m0[h.page]
        invariant Block(mem, copy) && Cells(mem, copy) == cells[from..i] && PageOf(copy) !! PageOf(h)
        invariant Conserved(m0, mem, {}, PageOf(copy))
      {
        ghost var m1, was := mem, copy;
        copy := PushBack(copy, mem[h.page][i]);
        BlockFrame(m1, mem, PageOf(was), PageOf(copy), h);
        ConservedTransitive(m0, m1, mem, {}, PageOf(was), PageOf(copy));
        i := i + 1;
      }
    }
  }
}
