/**
 The join of a population with a peripheral table through the index on the join key
 (helpers/Matchmaker.hpp), and the nested loop that it stands for. Times and weights are floats of which
 only nullness (NaN) and exact order matter.
 */
module Matchmaker {
  import opened Wrappers
  import opened SearchTree
  import Memmap
  import C = ColumnIndex

  predicate AtMost(x: Float, y: Float) { x.Some? && y.Some? && x.value <= y.value }

  predicate Greater(x: Float, y: Float) { x.Some? && y.Some? && x.value > y.value }

  datatype Population = Population(joinKeys: seq<Key>, times: seq<Float>)

  /** A table without an index on the time stamps; the upper time stamps are optional. */
  datatype Peripheral = Peripheral(joinKeys: seq<Key>, times: seq<Float>, upper: Option<seq<Float>>)

  ghost predicate Sized(pop: Population, per: Peripheral, weights: Option<seq<Float>>) {
    && |pop.times| == |pop.joinKeys| && TableSized(per)
    && (weights.Some? ==> |weights.value| == |pop.joinKeys|)
  }

  ghost predicate TableSized(per: Peripheral) {
    |per.times| == |per.joinKeys| && (per.upper.Some? ==> |per.upper.value| == |per.joinKeys|)
  }

  ghost predicate Within(rows: seq<nat>, per: Peripheral) {
    forall i | 0 <= i < |rows| :: rows[i] < |per.joinKeys|
  }

  /** The index of the peripheral table is up to date. */
  ghost predicate Indexed(per: Peripheral, index: C.Index)
    reads index, index.Objects()
  {
    index.Valid() && C.Exact(index.Table(), per.joinKeys, index.isNull)
  }

  // ------------------------------------------------------------------------
  // The nested loop.

  ghost predicate InRange(per: Peripheral, input: nat, t: Float)
    requires TableSized(per) && input < |per.joinKeys|
  {
    var upper := if per.upper.Some? then per.upper.value[input] else None;
    AtMost(per.times[input], t) && (upper.None? || Greater(upper, t))
  }

  /** A row of the population and a row of the peripheral table match. */
  ghost predicate Matches(pop: Population, per: Peripheral, isNull: Key -> bool, output: nat, input: nat)
    requires Sized(pop, per, None) && output < |pop.joinKeys| && input < |per.joinKeys|
  {
    !isNull(per.joinKeys[input]) && per.joinKeys[input] == pop.joinKeys[output]
        && InRange(per, input, pop.times[output])
  }

  /** The matches of one output row with the input rows from `input` on. */
  ghost function InnerLoop<T>(pop: Population, per: Peripheral, isNull: Key -> bool, make: (nat, nat) -> T,
                              output: nat, input: nat): seq<T>
    requires Sized(pop, per, None) && output < |pop.joinKeys|
    decreases |per.joinKeys| - input
  {
    if input >= |per.joinKeys| then []
    else (if Matches(pop, per, isNull, output, input) then [make(input, output)] else [])
         + InnerLoop(pop, per, isNull, make, output, input + 1)
  }

  /** An output row takes part unless its weight is at most 0; a weight that is NaN does not exclude it. */
  ghost predicate Weighted(weights: Option<seq<Float>>, output: nat)
    requires weights.Some? ==> output < |weights.value|
  {
    weights.Some? ==> !AtMost(weights.value[output], Some(0.0))
  }

  /** The output rows up to `end`, in order, each with all of the input rows. */
  ghost function OuterLoop<T>(pop: Population, per: Peripheral, isNull: Key -> bool, weights: Option<seq<Float>>,
                              make: (nat, nat) -> T, end: nat): seq<T>
    requires Sized(pop, per, weights) && end <= |pop.joinKeys|
  {
    if end == 0 then []
    else OuterLoop(pop, per, isNull, weights, make, end - 1)
         + if Weighted(weights, end - 1) then InnerLoop(pop, per, isNull, make, end - 1, 0) else []
  }

  // ------------------------------------------------------------------------
  // What the nested loop finds, in plain terms.

  /**
   Input row i and output row o match: the output row has no weight, a null weight or a positive one; the keys
   are equal and not null; both times are there, and that of the input row is not later; and the upper time of
   the input row, if there is one, is later.
   */
  ghost predicate Joins(pop: Population, per: Peripheral, isNull: Key -> bool, weights: Option<seq<Float>>,
                        i: nat, o: nat)
    requires Sized(pop, per, weights) && i < |per.joinKeys| && o < |pop.joinKeys|
  {
    && (weights.None? || weights.value[o].None? || weights.value[o].value > 0.0)
    && !isNull(per.joinKeys[i]) && per.joinKeys[i] == pop.joinKeys[o]
    && per.times[i].Some? && pop.times[o].Some? && per.times[i].value <= pop.times[o].value
    && (per.upper.None? || per.upper.value[i].None? || per.upper.value[i].value > pop.times[o].value)
  }

  /** Earlier output rows first, and for one output row earlier input rows first. */
  ghost predicate Precedes(p: (nat, nat), q: (nat, nat)) { p.1 < q.1 || (p.1 == q.1 && p.0 < q.0) }

  ghost predicate InOrder(pairs: seq<(nat, nat)>) {
    forall j, k | 0 <= j < k < |pairs| :: Precedes(pairs[j], pairs[k])
  }

  /** The matching pairs with output rows from lo up to hi, in order. */
  ghost predicate JoinOfRows(pop: Population, per: Peripheral, isNull: Key -> bool, weights: Option<seq<Float>>,
                             lo: nat, hi: nat, pairs: seq<(nat, nat)>)
    requires Sized(pop, per, weights) && hi <= |pop.joinKeys|
  {
    && InOrder(pairs)
    && forall i: nat, o: nat :: (i, o) in pairs <==>
         i < |per.joinKeys| && lo <= o < hi && Joins(pop, per, isNull, weights, i, o)
  }

  /** Exactly the matching pairs of rows (i, o), in order and so each of them once. */
  ghost predicate IsJoin(pop: Population, per: Peripheral, isNull: Key -> bool, weights: Option<seq<Float>>,
                         pairs: seq<(nat, nat)>)
    requires Sized(pop, per, weights)
  {
    JoinOfRows(pop, per, isNull, weights, 0, |pop.joinKeys|, pairs)
  }

  ghost predicate MadeOf<T(!new)>(matches: seq<T>, pairs: seq<(nat, nat)>, make: (nat, nat) -> T) {
    |matches| == |pairs| && forall k | 0 <= k < |pairs| :: matches[k] == make(pairs[k].0, pairs[k].1)
  }

  /** The matches are made of exactly the matching pairs of rows, in order. */
  ghost predicate Joined<T(!new)>(pop: Population, per: Peripheral, isNull: Key -> bool, weights: Option<seq<Float>>,
                                  make: (nat, nat) -> T, matches: seq<T>)
    requires Sized(pop, per, weights)
  {
    exists pairs :: IsJoin(pop, per, isNull, weights, pairs) && MadeOf(matches, pairs, make)
  }

  ghost function PairUp(): (nat, nat) -> (nat, nat) { (i, o) => (i, o) }

  /** The pairs of one output row that the inner loop finds from row `input` on. */
  lemma {:induction false} InnerPairs(pop: Population, per: Peripheral, isNull: Key -> bool, o: nat, input: nat)
    requires Sized(pop, per, None) && o < |pop.joinKeys|
    ensures var pairs := InnerLoop(pop, per, isNull, PairUp(), o, input);
      && InOrder(pairs)
      && forall i: nat, q: nat :: (i, q) in pairs <==>
           q == o && input <= i < |per.joinKeys| && Joins(pop, per, isNull, None, i, o)
    decreases |per.joinKeys| - input
  {
    if input < |per.joinKeys| {
      InnerPairs(pop, per, isNull, o, input + 1);
      var rest := InnerLoop(pop, per, isNull, PairUp(), o, input + 1);
      var first := if Matches(pop, per, isNull, o, input) then [(input, o)] else [];
      assert InnerLoop(pop, per, isNull, PairUp(), o, input) == first + rest by {
        assert PairUp()(input, o) == (input, o);
      }
      forall p, q | p in first && q in rest ensures Precedes(p, q) {
        assert (q.0, q.1) in rest;
      }
      OrderedConcat(first, rest);
      assert Matches(pop, per, isNull, o, input) <==> Joins(pop, per, isNull, None, input, o);
    }
  }

  lemma OrderedConcat(a: seq<(nat, nat)>, b: seq<(nat, nat)>)
    requires InOrder(a) && InOrder(b) && forall p, q | p in a && q in b :: Precedes(p, q)
    ensures InOrder(a + b)
  {
  }

  lemma JoinConcat(pop: Population, per: Peripheral, isNull: Key -> bool, weights: Option<seq<Float>>,
                   lo: nat, mid: nat, hi: nat, a: seq<(nat, nat)>, b: seq<(nat, nat)>)
    requires Sized(pop, per, weights) && lo <= mid <= hi <= |pop.joinKeys|
    requires JoinOfRows(pop, per, isNull, weights, lo, mid, a) && JoinOfRows(pop, per, isNull, weights, mid, hi, b)
    ensures JoinOfRows(pop, per, isNull, weights, lo, hi, a + b)
  {
    forall p, q | p in a && q in b ensures Precedes(p, q) {
      assert (p.0, p.1) in a && (q.0, q.1) in b;
    }
    OrderedConcat(a, b);
  }

  /** What one turn of the outer loop adds. */
  ghost function RowOf(pop: Population, per: Peripheral, isNull: Key -> bool, weights: Option<seq<Float>>, o: nat)
      : seq<(nat, nat)>
    requires Sized(pop, per, weights) && o < |pop.joinKeys|
  {
    if Weighted(weights, o) then InnerLoop(pop, per, isNull, PairUp(), o, 0) else []
  }

  lemma RowPairs(pop: Population, per: Peripheral, isNull: Key -> bool, weights: Option<seq<Float>>, o: nat)
    requires Sized(pop, per, weights) && o < |pop.joinKeys|
    ensures JoinOfRows(pop, per, isNull, weights, o, o + 1, RowOf(pop, per, isNull, weights, o))
  {
    InnerPairs(pop, per, isNull, o, 0);
    assert forall i: nat | i < |per.joinKeys| ::
        Joins(pop, per, isNull, weights, i, o) <==> Weighted(weights, o) && Joins(pop, per, isNull, None, i, o);
  }

  /** What every turn of the outer loop keeps holds of its result. */
  lemma {:induction false} OuterInduction(pop: Population, per: Peripheral, isNull: Key -> bool,
      weights: Option<seq<Float>>, keeps: (nat, seq<(nat, nat)>) -> bool, end: nat)
    requires Sized(pop, per, weights) && end <= |pop.joinKeys| && keeps(0, [])
    requires forall o: nat, pairs {:trigger keeps(o, pairs), RowOf(pop, per, isNull, weights, o)} |
               o < |pop.joinKeys| && keeps(o, pairs) :: keeps(o + 1, pairs + RowOf(pop, per, isNull, weights, o))
    ensures keeps(end, OuterLoop(pop, per, isNull, weights, PairUp(), end))
  {
    if end > 0 {
      OuterInduction(pop, per, isNull, weights, keeps, end - 1);
      assert OuterLoop(pop, per, isNull, weights, PairUp(), end)
          == OuterLoop(pop, per, isNull, weights, PairUp(), end - 1) + RowOf(pop, per, isNull, weights, end - 1);
    }
  }

  lemma OuterPairs(pop: Population, per: Peripheral, isNull: Key -> bool, weights: Option<seq<Float>>)
    requires Sized(pop, per, weights)
    ensures IsJoin(pop, per, isNull, weights, OuterLoop(pop, per, isNull, weights, PairUp(), |pop.joinKeys|))
  {
    var n := |pop.joinKeys|;
    var keeps := (o: nat, pairs) => o <= n && JoinOfRows(pop, per, isNull, weights, 0, o, pairs);
    forall o: nat, pairs | o < n && keeps(o, pairs)
      ensures keeps(o + 1, pairs + RowOf(pop, per, isNull, weights, o))
    {
      RowPairs(pop, per, isNull, weights, o);
      JoinConcat(pop, per, isNull, weights, 0, o, o + 1, pairs, RowOf(pop, per, isNull, weights, o));
    }
    OuterInduction(pop, per, isNull, weights, keeps, n);
  }

  lemma MadeConcat<T(!new)>(a: seq<T>, b: seq<T>, p: seq<(nat, nat)>, q: seq<(nat, nat)>, make: (nat, nat) -> T)
    requires MadeOf(a, p, make) && MadeOf(b, q, make)
    ensures MadeOf(a + b, p + q, make)
  {
  }

  lemma {:induction false} InnerMade<T(!new)>(pop: Population, per: Peripheral, isNull: Key -> bool,
                                              make: (nat, nat) -> T, o: nat, input: nat)
    requires Sized(pop, per, None) && o < |pop.joinKeys|
    ensures MadeOf(InnerLoop(pop, per, isNull, make, o, input), InnerLoop(pop, per, isNull, PairUp(), o, input), make)
    decreases |per.joinKeys| - input
  {
    if input < |per.joinKeys| {
      InnerMade(pop, per, isNull, make, o, input + 1);
    }
  }

  lemma {:induction false} OuterMade<T(!new)>(pop: Population, per: Peripheral, isNull: Key -> bool,
                                              weights: Option<seq<Float>>, make: (nat, nat) -> T, end: nat)
    requires Sized(pop, per, weights) && end <= |pop.joinKeys|
    ensures MadeOf(OuterLoop(pop, per, isNull, weights, make, end),
                   OuterLoop(pop, per, isNull, weights, PairUp(), end), make)
  {
    if end > 0 {
      var o := end - 1;
      OuterMade(pop, per, isNull, weights, make, o);
      InnerMade(pop, per, isNull, make, o, 0);
      MadeConcat(OuterLoop(pop, per, isNull, weights, make, o),
                 if Weighted(weights, o) then InnerLoop(pop, per, isNull, make, o, 0) else [],
                 OuterLoop(pop, per, isNull, weights, PairUp(), o),
                 if Weighted(weights, o) then InnerLoop(pop, per, isNull, PairUp(), o, 0) else [], make);
    }
  }

  /** The nested loop over all rows finds exactly the matching pairs. */
  lemma OuterLoopJoins<T(!new)>(pop: Population, per: Peripheral, isNull: Key -> bool, weights: Option<seq<Float>>,
                                make: (nat, nat) -> T)
    requires Sized(pop, per, weights)
    ensures Joined(pop, per, isNull, weights, make, OuterLoop(pop, per, isNull, weights, make, |pop.joinKeys|))
  {
    OuterPairs(pop, per, isNull, weights);
    OuterMade(pop, per, isNull, weights, make, |pop.joinKeys|);
  }

  // ------------------------------------------------------------------------
  // The join.

  /** The matches of the given input rows with one output row. */
  ghost function InRangeOf<T>(per: Peripheral, rows: seq<nat>, t: Float, make: (nat, nat) -> T, output: nat): seq<T>
    requires TableSized(per) && Within(rows, per)
  {
    if rows == [] then []
    else (if InRange(per, rows[0], t) then [make(rows[0], output)] else []) + InRangeOf(per, rows[1..], t, make, output)
  }

  lemma InRangeOfNext<T>(per: Peripheral, row: nat, rest: seq<nat>, t: Float, make: (nat, nat) -> T, output: nat)
    requires TableSized(per) && Within(rest, per) && row < |per.joinKeys|
    ensures Within([row] + rest, per)
    ensures InRangeOf(per, [row] + rest, t, make, output)
            == (if InRange(per, row, t) then [make(row, output)] else []) + InRangeOf(per, rest, t, make, output)
  {
    assert ([row] + rest)[1..] == rest;
  }

  /** Going through the rows of the key is going through all rows. */
  lemma RowsWithNext(key: seq<Key>, isNull: Key -> bool, k: Key, input: nat)
    requires input < |key|
    ensures var rest := C.RowsWith(key, isNull, k, input + 1);
      C.RowsWith(key, isNull, k, input) == if !isNull(key[input]) && key[input] == k then [input] + rest else rest
  {
    AddNothing(C.RowsWith(key, isNull, k, input + 1));
  }

  /** Taking one more row of the column adds the same to the rows of the key as to the nested loop. */
  lemma SameNext<T>(pop: Population, per: Peripheral, isNull: Key -> bool, make: (nat, nat) -> T, output: nat,
                    input: nat, rest: seq<nat>, rows: seq<nat>)
    requires Sized(pop, per, None) && output < |pop.joinKeys| && input < |per.joinKeys|
    requires Within(rest, per) && Within(rows, per)
    requires rows == if !isNull(per.joinKeys[input]) && per.joinKeys[input] == pop.joinKeys[output]
                     then [input] + rest else rest
    requires InRangeOf(per, rest, pop.times[output], make, output)
             == InnerLoop(pop, per, isNull, make, output, input + 1)
    ensures InRangeOf(per, rows, pop.times[output], make, output) == InnerLoop(pop, per, isNull, make, output, input)
  {
    InnerLoopNext(pop, per, isNull, make, output, input);
    InRangeOfNext(per, input, rest, pop.times[output], make, output);
    AddNothing(InRangeOf(per, rest, pop.times[output], make, output));
  }

  lemma {:induction false} RowsOfKeySuffice<T>(pop: Population, per: Peripheral, isNull: Key -> bool,
                                               make: (nat, nat) -> T, output: nat, input: nat)
    requires Sized(pop, per, None) && output < |pop.joinKeys|
    ensures var rows := C.RowsWith(per.joinKeys, isNull, pop.joinKeys[output], input);
      InRangeOf(per, rows, pop.times[output], make, output) == InnerLoop(pop, per, isNull, make, output, input)
    decreases |per.joinKeys| - input
  {
    if input < |per.joinKeys| {
      var k := pop.joinKeys[output];
      RowsOfKeySuffice(pop, per, isNull, make, output, input + 1);
      RowsWithNext(per.joinKeys, isNull, k, input);
      SameNext(pop, per, isNull, make, output, input, C.RowsWith(per.joinKeys, isNull, k, input + 1),
               C.RowsWith(per.joinKeys, isNull, k, input));
    }
  }

  lemma InnerLoopNext<T>(pop: Population, per: Peripheral, isNull: Key -> bool, make: (nat, nat) -> T, output: nat,
                         input: nat)
    requires Sized(pop, per, None) && output < |pop.joinKeys| && input < |per.joinKeys|
    ensures InnerLoop(pop, per, isNull, make, output, input)
            == if Matches(pop, per, isNull, output, input)
               then [make(input, output)] + InnerLoop(pop, per, isNull, make, output, input + 1)
               else InnerLoop(pop, per, isNull, make, output, input + 1)
  {
    AddNothing(InnerLoop(pop, per, isNull, make, output, input + 1));
  }

  /** make_matches for one output row; the matches are pushed on the vector. */
  method MakeMatchesFor<T>(pop: Population, per: Peripheral, index: C.Index, output: nat,
                           make: (nat, nat) -> T, before: seq<T>)
    returns (matches: seq<T>)
    requires Sized(pop, per, None) && output < |pop.joinKeys| && Indexed(per, index)
    ensures matches == before + InnerLoop(pop, per, index.isNull, make, output, 0)
  {
    var joinKey, t := pop.joinKeys[output], pop.times[output];
    ghost var rows := C.RowsWith(per.joinKeys, index.isNull, joinKey, 0);
    RowsOfKeySuffice(pop, per, index.isNull, make, output, 0);
    assert joinKey in index.Table() <==> rows != [];
    matches := before;
    var found := index.Find(joinKey);
    if found.Some? {
      assert found.value == rows;
      matches := LinearMethod(per, found.value, t, output, make, before);
    }
  }

  /** make_matches_using_linear_method */
  method LinearMethod<T>(per: Peripheral, rows: seq<nat>, t: Float, output: nat, make: (nat, nat) -> T, before: seq<T>)
    returns (matches: seq<T>)
    requires TableSized(per) && Within(rows, per)
    ensures matches == before + InRangeOf(per, rows, t, make, output)
  {
    matches := before;
    var it := 0;
    while it < |rows|
      invariant it <= |rows|
      invariant matches + InRangeOf(per, rows[it..], t, make, output) == before + InRangeOf(per, rows, t, make, output)
    {
      var input := rows[it];
      var lower := per.times[input];
      var upper := if per.upper.Some? then per.upper.value[input] else None;
      assert rows[it..][1..] == rows[it + 1..];
      ghost var rest := InRangeOf(per, rows[it + 1..], t, make, output);
      if AtMost(lower, t) && (upper.None? || Greater(upper, t)) {
        Reassociate(matches, [make(input, output)], rest);
        matches := matches + [make(input, output)];
      } else {
        assert [] + rest == rest;
      }
      it := it + 1;
    }
  }

  /** The output rows before `output` are done. */
  ghost predicate Matched<T>(pop: Population, per: Peripheral, isNull: Key -> bool, weights: Option<seq<Float>>,
                             make: (nat, nat) -> T, output: nat, matches: seq<T>) {
    Sized(pop, per, weights) && output <= |pop.joinKeys|
    && matches == OuterLoop(pop, per, isNull, weights, make, output)
  }

  lemma OuterLoopNext<T>(pop: Population, per: Peripheral, isNull: Key -> bool, weights: Option<seq<Float>>,
                         make: (nat, nat) -> T, output: nat, matches: seq<T>)
    requires output > 0 && output <= |pop.joinKeys|
    requires Matched(pop, per, isNull, weights, make, output - 1, matches)
    ensures Matched(pop, per, isNull, weights, make, output,
                    if Weighted(weights, output - 1)
                    then matches + InnerLoop(pop, per, isNull, make, output - 1, 0) else matches)
  {
  }

  /** make_matches: exactly the nested loop over all rows, and so exactly the pairs of rows that match. */
  method MakeMatches<T(!new)>(pop: Population, per: Peripheral, index: C.Index, weights: Option<seq<Float>>,
                        make: (nat, nat) -> T)
    returns (matches: seq<T>)
    requires Sized(pop, per, weights) && Indexed(per, index)
    ensures matches == OuterLoop(pop, per, index.isNull, weights, make, |pop.joinKeys|)
    ensures Joined(pop, per, index.isNull, weights, make, matches)
  {
    matches := MakeMatchesForAll(pop, per, index, weights, make);
    OuterLoopJoins(pop, per, index.isNull, weights, make);
  }

  /** The loop over the output rows. */
  method MakeMatchesForAll<T>(pop: Population, per: Peripheral, index: C.Index, weights: Option<seq<Float>>,
                              make: (nat, nat) -> T)
    returns (matches: seq<T>)
    requires Sized(pop, per, weights) && Indexed(per, index)
    ensures Matched(pop, per, index.isNull, weights, make, |pop.joinKeys|, matches)
  {
    matches := [];
    var output := 0;
    while output < |pop.joinKeys|
      invariant output <= |pop.joinKeys| && Matched(pop, per, index.isNull, weights, make, output, matches)
    {
      output := output + 1;
      OuterLoopNext(pop, per, index.isNull, weights, make, output, matches);
      if weights.Some? && AtMost(weights.value[output - 1], Some(0.0)) {
        continue;
      }
      matches := MakeMatchesFor(pop, per, index, output - 1, make, matches);
    }
  }

  // ------------------------------------------------------------------------
  // The index and the join together: an index that was updated along a series of columns of join keys, and
  // the join with the table that has the last one.

  ghost predicate Joinable(pop: Population, columns: seq<seq<Key>>, per: Peripheral, weights: Option<seq<Float>>,
      isNull: Key -> bool) {
    columns != [] && C.History(columns, isNull) && columns[|columns| - 1] == per.joinKeys && Sized(pop, per, weights)
  }

  method MatchAfter<T(!new)>(index: C.Index, columns: seq<seq<Key>>, pop: Population, per: Peripheral,
                       weights: Option<seq<Float>>, make: (nat, nat) -> T)
    returns (matches: seq<T>)
    requires index.Valid() && index.begin == 0 && index.Table() == map[]
    requires Joinable(pop, columns, per, weights, index.isNull)
    modifies index, index.Objects()
    ensures matches == OuterLoop(pop, per, index.isNull, weights, make, |pop.joinKeys|)
    ensures Joined(pop, per, index.isNull, weights, make, matches)
  {
    C.CalculateAll(index, columns);
    C.HistoryExact(columns, index.isNull);
    matches := MakeMatches(pop, per, index, weights, make);
  }

  method MatchInMemory<T(!new)>(isNull: Key -> bool, columns: seq<seq<Key>>, pop: Population, per: Peripheral,
                          weights: Option<seq<Float>>, make: (nat, nat) -> T)
    returns (matches: seq<T>)
    requires Joinable(pop, columns, per, weights, isNull)
    ensures matches == OuterLoop(pop, per, isNull, weights, make, |pop.joinKeys|)
    ensures Joined(pop, per, isNull, weights, make, matches)
  {
    var index := new C.Index.InMemory(isNull);
    matches := MatchAfter(index, columns, pop, per, weights, make);
  }

  method MatchMapped<T(!new)>(isNull: Key -> bool, pool: Memmap.Pool, columns: seq<seq<Key>>, pop: Population,
                        per: Peripheral, weights: Option<seq<Float>>, make: (nat, nat) -> T)
    returns (matches: seq<T>)
    requires Joinable(pop, columns, per, weights, isNull)
    modifies pool
    ensures matches == OuterLoop(pop, per, isNull, weights, make, |pop.joinKeys|)
    ensures Joined(pop, per, isNull, weights, make, matches)
  {
    var index := new C.Index.MemoryMapped(isNull, pool);
    matches := MatchAfter(index, columns, pop, per, weights, make);
  }
}
