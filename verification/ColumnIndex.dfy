/**
 The incremental index on a column (containers/Index.hpp), in memory or memory-mapped. Only the rows from a
 watermark on are indexed; a column that has become shorter than the watermark is indexed again from row 0.
 */
module ColumnIndex {
  import opened Wrappers
  import opened SearchTree
  import opened Memmap
  import M = MemIndex

  type Lists = M.Lists

  /** The rows from `begin` on that hold k and are not null, in ascending order. */
  function RowsWith(key: seq<Key>, isNull: Key -> bool, k: Key, begin: nat): (rows: seq<nat>)
    ensures forall i | 0 <= i < |rows| :: begin <= rows[i] < |key|
    decreases |key| - begin
  {
    if begin >= |key| then []
    else (if !isNull(key[begin]) && key[begin] == k then [begin] else []) + RowsWith(key, isNull, k, begin + 1)
  }

  /** What indexing the rows from `begin` on does to the lists. */
  ghost function IndexFrom(lists: Lists, key: seq<Key>, isNull: Key -> bool, begin: nat): Lists
    decreases |key| - begin
  {
    if begin >= |key| then lists
    else IndexFrom(WithRow(lists, isNull, key[begin], begin), key, isNull, begin + 1)
  }

  /** One row; rows without a key are not indexed. */
  ghost function WithRow(lists: Lists, isNull: Key -> bool, k: Key, row: nat): Lists {
    if isNull(k) then lists else M.AddRow(lists, k, row)
  }

  /** Row j, and then the rows from j + 1 on. */
  ghost predicate Continues(rest: (Lists, nat) -> Lists, key: seq<Key>, isNull: Key -> bool) {
    && (forall l {:trigger rest(l, |key|)} :: rest(l, |key|) == l)
    && forall l, j: nat {:trigger WithRow(l, isNull, key[j], j)} | j < |key| ::
      rest(l, j) == rest(WithRow(l, isNull, key[j], j), j + 1)
  }

  lemma IndexFromContinues(key: seq<Key>, isNull: Key -> bool, lists: Lists, begin: nat)
    returns (rest: (Lists, nat) -> Lists)
    ensures Continues(rest, key, isNull) && rest(lists, begin) == IndexFrom(lists, key, isNull, begin)
  {
    rest := (l, j) => IndexFrom(l, key, isNull, j);
  }

  lemma WithRowAppends(lists: Lists, isNull: Key -> bool, j: Key, row: nat, k: Key)
    ensures var one := if !isNull(j) && j == k then [row] else [];
      && M.RowsUnder(WithRow(lists, isNull, j, row), k) == M.RowsUnder(lists, k) + one
      && (k in WithRow(lists, isNull, j, row) <==> k in lists || one != [])
  {
  }

  lemma {:induction false} IndexFromAppends(lists: Lists, key: seq<Key>, isNull: Key -> bool, begin: nat, k: Key)
    ensures var rows := RowsWith(key, isNull, k, begin);
      && M.RowsUnder(IndexFrom(lists, key, isNull, begin), k) == M.RowsUnder(lists, k) + rows
      && (k in IndexFrom(lists, key, isNull, begin) <==> k in lists || rows != [])
    decreases |key| - begin
  {
    if begin < |key| {
      var next := WithRow(lists, isNull, key[begin], begin);
      var one := if !isNull(key[begin]) && key[begin] == k then [begin] else [];
      var rest := RowsWith(key, isNull, k, begin + 1);
      assert M.RowsUnder(next, k) == M.RowsUnder(lists, k) + one && (k in next <==> k in lists || one != []) by {
        WithRowAppends(lists, isNull, key[begin], begin, k);
      }
      IndexFromAppends(next, key, isNull, begin + 1, k);
      assert RowsWith(key, isNull, k, begin) == one + rest;
      assert IndexFrom(lists, key, isNull, begin) == IndexFrom(next, key, isNull, begin + 1);
      Reassociate(M.RowsUnder(lists, k), one, rest);
    }
  }

  /** The lists are those of the whole column: every key has the ascending list of its rows. */
  ghost predicate Exact(lists: Lists, key: seq<Key>, isNull: Key -> bool) {
    forall k {:trigger k in lists} {:trigger RowsWith(key, isNull, k, 0)} ::
      M.RowsUnder(lists, k) == RowsWith(key, isNull, k, 0) && (k in lists <==> RowsWith(key, isNull, k, 0) != [])
  }

  /** Up to the watermark the columns have nulls in the same rows, and the same keys in all other rows. */
  ghost predicate AgreeUpTo(old_: seq<Key>, new_: seq<Key>, isNull: Key -> bool, begin: nat)
    requires begin <= |old_| && begin <= |new_|
  {
    forall i | 0 <= i < begin :: old_[i] == new_[i] || (isNull(old_[i]) && isNull(new_[i]))
  }

  // ------------------------------------------------------------------------
  // Row lists.

  lemma {:induction false} RowsWithHolds(key: seq<Key>, isNull: Key -> bool, k: Key, begin: nat, i: nat)
    ensures i in RowsWith(key, isNull, k, begin) <==> begin <= i < |key| && !isNull(key[i]) && key[i] == k
    decreases |key| - begin
  {
    if begin < |key| {
      RowsWithHolds(key, isNull, k, begin + 1, i);
    }
  }

  /** The list of all rows is that of the first ones and that of the rest. */
  lemma {:induction false} RowsWithSplits(key: seq<Key>, isNull: Key -> bool, k: Key, begin: nat, mid: nat)
    requires begin <= mid <= |key|
    ensures RowsWith(key, isNull, k, begin) == RowsWith(key[..mid], isNull, k, begin) + RowsWith(key, isNull, k, mid)
    decreases mid - begin
  {
    if begin < mid {
      RowsWithSplits(key, isNull, k, begin + 1, mid);
      Reassociate(if !isNull(key[begin]) && key[begin] == k then [begin] else [],
              RowsWith(key[..mid], isNull, k, begin + 1), RowsWith(key, isNull, k, mid));
    }
  }

  lemma {:induction false} RowsWithAgree(a: seq<Key>, b: seq<Key>, isNull: Key -> bool, k: Key, begin: nat)
    requires |a| == |b| && AgreeUpTo(a, b, isNull, |a|)
    ensures RowsWith(a, isNull, k, begin) == RowsWith(b, isNull, k, begin)
    decreases |a| - begin
  {
    if begin < |a| {
      RowsWithAgree(a, b, isNull, k, begin + 1);
    }
  }

  /** Lists are ascending, so they hold every row once. */
  lemma {:induction false} RowsWithAscending(key: seq<Key>, isNull: Key -> bool, k: Key, begin: nat)
    ensures forall i, j | 0 <= i < j < |RowsWith(key, isNull, k, begin)| ::
              RowsWith(key, isNull, k, begin)[i] < RowsWith(key, isNull, k, begin)[j]
    decreases |key| - begin
  {
    if begin < |key| {
      RowsWithAscending(key, isNull, k, begin + 1);
    }
  }

  lemma AppendCancels<T>(a: seq<T>, b: seq<T>, c: seq<T>)
    requires a + c == b + c
    ensures a == b
  {
    assert |a + c| == |b + c|;
    assert (a + c)[..|a|] == a && (b + c)[..|b|] == b;
  }

  // ------------------------------------------------------------------------
  // calculate, and when it is right.

  ghost function Calculated(lists: Lists, begin: nat, key: seq<Key>, isNull: Key -> bool): Lists {
    if |key| < begin then IndexFrom(map[], key, isNull, 0) else IndexFrom(lists, key, isNull, begin)
  }

  /** An index that is rebuilt is exact. */
  lemma RebuiltExact(key: seq<Key>, isNull: Key -> bool)
    ensures Exact(IndexFrom(map[], key, isNull, 0), key, isNull)
  {
    forall k ensures var lists := IndexFrom(map[], key, isNull, 0);
      M.RowsUnder(lists, k) == RowsWith(key, isNull, k, 0) && (k in lists <==> RowsWith(key, isNull, k, 0) != [])
    {
      IndexFromAppends(map[], key, isNull, 0, k);
      assert [] + RowsWith(key, isNull, k, 0) == RowsWith(key, isNull, k, 0);
    }
  }

  /**
   An exact index is exact after calculate if and only if the column has become shorter than the watermark,
   or still agrees with the indexed column up to the watermark.
   */
  lemma CalculateExactly(lists: Lists, before: seq<Key>, key: seq<Key>, isNull: Key -> bool)
    requires Exact(lists, before, isNull)
    ensures Exact(Calculated(lists, |before|, key, isNull), key, isNull)
            <==> |key| < |before| || AgreeUpTo(before, key, isNull, |before|)
  {
    var begin := |before|;
    if |key| < begin {
      RebuiltExact(key, isNull);
    } else if AgreeUpTo(before, key, isNull, begin) {
      AgreeingIsExact(lists, before, key, isNull);
    } else {
      var i :| 0 <= i < begin && before[i] != key[i] && !(isNull(before[i]) && isNull(key[i]));
      var k := if isNull(before[i]) then key[i] else before[i];
      DisagreeingRow(lists, before, key, isNull, i, k);
    }
  }

  lemma AgreeingIsExact(lists: Lists, before: seq<Key>, key: seq<Key>, isNull: Key -> bool)
    requires Exact(lists, before, isNull) && |before| <= |key| && AgreeUpTo(before, key, isNull, |before|)
    ensures Exact(IndexFrom(lists, key, isNull, |before|), key, isNull)
  {
    forall k ensures var after := IndexFrom(lists, key, isNull, |before|);
      M.RowsUnder(after, k) == RowsWith(key, isNull, k, 0) && (k in after <==> RowsWith(key, isNull, k, 0) != [])
    {
      assert k in lists <==> RowsWith(before, isNull, k, 0) != [];
      ExactUnder(lists, before, key, isNull, k);
    }
  }

  lemma ExactUnder(lists: Lists, before: seq<Key>, key: seq<Key>, isNull: Key -> bool, k: Key)
    requires |before| <= |key| && AgreeUpTo(before, key, isNull, |before|)
    requires M.RowsUnder(lists, k) == RowsWith(before, isNull, k, 0)
    requires k in lists <==> RowsWith(before, isNull, k, 0) != []
    ensures var after := IndexFrom(lists, key, isNull, |before|);
      M.RowsUnder(after, k) == RowsWith(key, isNull, k, 0) && (k in after <==> RowsWith(key, isNull, k, 0) != [])
  {
    var begin := |before|;
    IndexFromAppends(lists, key, isNull, begin, k);
    RowsWithSplits(key, isNull, k, 0, begin);
    RowsWithAgree(before, key[..begin], isNull, k, 0);
  }

  /** The row of a changed key is in a wrong list, or missing from one. */
  lemma DisagreeingRow(lists: Lists, before: seq<Key>, key: seq<Key>, isNull: Key -> bool, i: nat, k: Key)
    requires Exact(lists, before, isNull) && |before| <= |key| && i < |before| && before[i] != key[i]
    requires (!isNull(before[i]) && k == before[i]) || (!isNull(key[i]) && k == key[i])
    ensures !Exact(IndexFrom(lists, key, isNull, |before|), key, isNull)
  {
    var begin := |before|;
    var after := IndexFrom(lists, key, isNull, begin);
    IndexFromAppends(lists, key, isNull, begin, k);
    RowsWithSplits(key, isNull, k, 0, begin);
    RowsWithHolds(before, isNull, k, 0, i);
    RowsWithHolds(key[..begin], isNull, k, 0, i);
    assert k in lists <==> RowsWith(before, isNull, k, 0) != [];
    if M.RowsUnder(after, k) == RowsWith(key, isNull, k, 0) {
      AppendCancels(RowsWith(before, isNull, k, 0), RowsWith(key[..begin], isNull, k, 0), RowsWith(key, isNull, k,
          begin));
    }
    assert k in after <==> k in lists || RowsWith(key, isNull, k, begin) != [];
  }

  /** A history of columns that only grow by appending, or become shorter than they were. */
  ghost predicate History(columns: seq<seq<Key>>, isNull: Key -> bool) {
    forall n | 0 < n < |columns| ::
      |columns[n]| < |columns[n - 1]| || AgreeUpTo(columns[n - 1], columns[n], isNull, |columns[n - 1]|)
  }

  ghost function CalculatedAll(columns: seq<seq<Key>>, isNull: Key -> bool): Lists
    requires columns != []
  {
    var n := |columns| - 1;
    if n == 0 then Calculated(map[], 0, columns[0], isNull)
    else Calculated(CalculatedAll(columns[..n], isNull), |columns[n - 1]|, columns[n], isNull)
  }

  lemma CalculatedLast(columns: seq<seq<Key>>, isNull: Key -> bool, lists: Lists, begin: nat)
    requires columns != []
    requires var n := |columns| - 1;
      if n == 0 then lists == map[] && begin == 0
      else lists == CalculatedAll(columns[..n], isNull) && begin == |columns[n - 1]|
    ensures CalculatedAll(columns, isNull) == Calculated(lists, begin, columns[|columns| - 1], isNull)
  {
  }

  /** Along such a history the index is exact after every calculate. */
  lemma {:induction false} HistoryExact(columns: seq<seq<Key>>, isNull: Key -> bool)
    requires columns != [] && History(columns, isNull)
    ensures Exact(CalculatedAll(columns, isNull), columns[|columns| - 1], isNull)
    decreases |columns|
  {
    var n := |columns| - 1;
    if n == 0 {
      RebuiltExact(columns[0], isNull);
    } else {
      var earlier := columns[..n];
      assert earlier[n - 1] == columns[n - 1];
      HistoryExact(earlier, isNull);
      CalculateExactly(CalculatedAll(earlier, isNull), columns[n - 1], columns[n], isNull);
    }
  }

  // ------------------------------------------------------------------------

  class Index {
    const isNull: Key -> bool
    var begin: nat
    var inMemory: Lists
    /** The memory-mapped index, or null for an index in memory. */
    const mapped: M.MemIndex?

    ghost predicate Valid()
      reads this, Objects()
    {
      mapped != null ==> mapped.Valid()
    }

    /** The objects of the memory-mapped index. */
    ghost function Objects(): set<object>
      reads if mapped == null then {} else {mapped}
    {
      if mapped == null then {} else var m: M.MemIndex := mapped; {m, m.pool, m.btree}
    }

    ghost function Table(): Lists
      reads this, Objects()
    {
      if mapped == null then inMemory else mapped.lists
    }

    constructor InMemory(isNull: Key -> bool)
      ensures Valid() && mapped == null && this.isNull == isNull && begin == 0 && Table() == map[]
    {
      this.isNull, begin, inMemory, mapped := isNull, 0, map[], null;
    }

    constructor MemoryMapped(isNull: Key -> bool, pool: Pool)
      modifies pool
      ensures Valid() && mapped != null && this.isNull == isNull && begin == 0 && Table() == map[]
      ensures fresh(mapped) && fresh(mapped.btree) && mapped.pool == pool
    {
      var m := new M.MemIndex(pool);
      this.isNull, begin, inMemory, mapped := isNull, 0, map[], m;
    }

    method Insert(k: Key, row: nat)
      requires Valid()
      modifies this`inMemory, Objects()
      ensures Valid() && Table() == M.AddRow(old(Table()), k, row)
      ensures Objects() == old(Objects())
    {
      if mapped != null {
        mapped.Insert(k, row);
      } else if k !in inMemory {
        assert [row] == [] + [row];
        inMemory := inMemory[k := [row]];
      } else {
        inMemory := inMemory[k := inMemory[k] + [row]];
      }
    }

    method Clear()
      requires Valid()
      modifies this`inMemory, Objects()
      ensures Valid() && Table() == map[]
      ensures fresh(Objects() - old(Objects()))
    {
      if mapped != null {
        mapped.Clear();
      } else {
        inMemory := map[];
      }
    }

    /** calculate */
    method Calculate(key: seq<Key>)
      requires Valid()
      modifies this, Objects()
      ensures Valid() && begin == |key|
      ensures Table() == Calculated(old(Table()), old(begin), key, isNull)
      ensures fresh(Objects() - old(Objects()))
    {
      if |key| < begin {
        Clear();
        begin := 0;
      }
      IndexFromBegin(key);
    }

    method IndexFromBegin(key: seq<Key>)
      requires Valid() && begin <= |key|
      modifies this`inMemory, this`begin, Objects()
      ensures Valid() && Objects() == old(Objects()) && begin == |key|
      ensures Table() == IndexFrom(old(Table()), key, isNull, old(begin))
    {
      ghost var rest := IndexFromContinues(key, isNull, Table(), begin);
      IndexRows(key, rest);
      begin := |key|;
    }

    /** The loop of calculate_known_type; rest(lists, i) is what the rows from i on make of the lists. */
    method IndexRows(key: seq<Key>, ghost rest: (Lists, nat) -> Lists)
      requires Valid() && begin <= |key| && Continues(rest, key, isNull)
      modifies this`inMemory, Objects()
      ensures Valid() && Objects() == old(Objects())
      ensures Table() == rest(old(Table()), begin)
    {
      ghost var goal := rest(Table(), begin);
      var i: nat := begin;
      while i < |key|
        invariant begin <= i <= |key|
        invariant Valid() && Objects() == old(Objects())
        invariant rest(Table(), i) == goal
      {
        InsertUnlessNull(key[i], i);
        i := i + 1;
      }
      assert rest(Table(), |key|) == Table();
    }

    method InsertUnlessNull(k: Key, row: nat)
      requires Valid()
      modifies this`inMemory, Objects()
      ensures Valid() && Objects() == old(Objects())
      ensures Table() == WithRow(old(Table()), isNull, k, row)
    {
      if !isNull(k) {
        Insert(k, row);
      }
    }

    /** find: the rows of a key, or nothing. */
    method Find(k: Key) returns (r: Option<seq<nat>>)
      requires Valid()
      ensures r == if k in Table() then Some(Table()[k]) else None
    {
      if mapped == null {
        r := if k in inMemory then Some(inMemory[k]) else None;
        return;
      }
      var opt := mapped.Find(k);
      match opt {
        case None => r := None;
        case Some(list) =>
          var rows: seq<nat> := [];
          while |rows| < list.size
            invariant |rows| <= list.size && rows == mapped.lists[k][..|rows|]
          {
            assert Cells(mapped.pool.mem, list)[|rows|] == RowCell(mapped.lists[k][|rows|]);
            rows := rows + [mapped.pool.mem[list.page][|rows|].row];
          }
          assert |Cells(mapped.pool.mem, list)| == |mapped.lists[k]|;
          assert rows == mapped.lists[k];
          r := Some(rows);
      }
    }
  }

  /** One calculate after the other, on a new index. */
  method CalculateAll(index: Index, columns: seq<seq<Key>>)
    requires index.Valid() && index.begin == 0 && index.Table() == map[] && columns != []
    modifies index, index.Objects()
    ensures index.Valid() && index.begin == |columns[|columns| - 1]|
    ensures index.Table() == CalculatedAll(columns, index.isNull)
    ensures fresh(index.Objects() - old(index.Objects()))
    decreases |columns|
  {
    var n := |columns| - 1;
    if n > 0 {
      CalculateAll(index, columns[..n]);
    }
    CalculatedLast(columns, index.isNull, index.Table(), index.begin);
    index.Calculate(columns[n]);
  }

  /** What is found after the columns of a history: the exact rows of the last column. */
  ghost function FoundAfter(columns: seq<seq<Key>>, isNull: Key -> bool, k: Key): Option<seq<nat>>
    requires columns != []
  {
    var lists := CalculatedAll(columns, isNull);
    if k in lists then Some(lists[k]) else None
  }

  lemma HistoryFinds(columns: seq<seq<Key>>, isNull: Key -> bool, k: Key)
    requires columns != [] && History(columns, isNull)
    ensures var rows := RowsWith(columns[|columns| - 1], isNull, k, 0);
      FoundAfter(columns, isNull, k) == if rows == [] then None else Some(rows)
  {
    HistoryExact(columns, isNull);
    assert k in CalculatedAll(columns, isNull) <==> RowsWith(columns[|columns| - 1], isNull, k, 0) != [];
  }

  method FindAfter(index: Index, columns: seq<seq<Key>>, k: Key) returns (r: Option<seq<nat>>)
    requires index.Valid() && index.begin == 0 && index.Table() == map[] && columns != []
    modifies index, index.Objects()
    ensures r == FoundAfter(columns, index.isNull, k)
  {
    CalculateAll(index, columns);
    r := index.Find(k);
  }

  method FindInMemory(isNull: Key -> bool, columns: seq<seq<Key>>, k: Key) returns (r: Option<seq<nat>>)
    requires columns != []
    ensures r == FoundAfter(columns, isNull, k)
  {
    var index := new Index.InMemory(isNull);
    r := FindAfter(index, columns, k);
  }

  method FindMapped(isNull: Key -> bool, pool: Pool, columns: seq<seq<Key>>, k: Key) returns (r: Option<seq<nat>>)
    requires columns != []
    modifies pool
    ensures r == FoundAfter(columns, isNull, k)
  {
    var index := new Index.MemoryMapped(isNull, pool);
    r := FindAfter(index, columns, k);
  }
}
