/**
 Column views as objects (containers/ColumnView.hpp): every view has its own copies of its operands, and a
 boolean subselection keeps a cursor, `index` and `next`, inside of its closure. Whatever the state of the
 cursors, an access yields the meaning of the view at that row.
 */
module ColumnView {
  import opened ColumnExpr

  /** std::optional<size_t>, or an exception. */
  datatype Count = Exactly(n: nat) | Unbounded | Throws

  /** Which closure the view has. */
  datatype Kind =
    | OfColumn(cells: seq<Value>)
    | OfValue(constant: Value)
    | OfUn(op1: Value -> Value)
    | OfBin(op2: (Value, Value) -> Value)
    | OfTern(op3: (Value, Value, Value) -> Value)
    | OfSub

  /**
   What a view promises: its outcome at every row, its declared length, and a bound for its values if it is
   finite.
   */
  datatype Spec = Spec(outcome: nat -> Outcome, rows: Rows, limit: nat)

  ghost predicate Bounded(s: Spec) {
    s.rows != Infinite ==> forall i: nat | i >= s.limit :: !s.outcome(i).Value?
  }

  ghost function SpecOf(e: Expr): Spec
    requires WellFormed(e)
  {
    Spec((i: nat) => Meaning(e, i), RowsOf(e), Limit(e))
  }

  // ------------------------------------------------------------------------
  // Searching through the rows of two operands.

  ghost function Row(data: Spec, indices: Spec, p: nat): Look {
    LookAt(indices.outcome(p), data.outcome(p), indices.rows)
  }

  /** The search does not stop in the rows from lo up to hi. */
  ghost predicate NoStop(data: Spec, indices: Spec, lo: nat, hi: nat) {
    forall p | lo <= p < hi :: !Row(data, indices, p).Stop?
  }

  /** The number of rows from lo up to hi that are selected. */
  ghost function Hits(data: Spec, indices: Spec, lo: nat, hi: nat): nat
    requires lo <= hi
    decreases hi
  {
    if lo == hi then 0 else Hits(data, indices, lo, hi - 1) + if Row(data, indices, hi - 1).Hit? then 1 else 0
  }

  /** The cursor stands behind the first `next` selected rows, and nothing has stopped before it. */
  ghost predicate Cursor(data: Spec, indices: Spec, index: nat, next: nat) {
    NoStop(data, indices, 0, index) && Hits(data, indices, 0, index) == next
  }

  /** A search from row `begin` has found the value after `skip` others in row ix, or has stopped there. */
  ghost predicate Found(data: Spec, indices: Spec, begin: nat, skip: nat, found: Outcome, ix: nat) {
    && begin <= ix && NoStop(data, indices, begin, ix)
    && if found.Value? then Row(data, indices, ix) == Hit(found.value) && Hits(data, indices, begin, ix) == skip
       else Row(data, indices, ix) == Stop(found) && Hits(data, indices, begin, ix) <= skip
  }

  /** The outcome at row i is what a search from the first row finds after i others. */
  ghost predicate Selects(s: Spec, data: Spec, indices: Spec) {
    forall i: nat, found, ix: nat | Found(data, indices, 0, i, found, ix) :: s.outcome(i) == found
  }

  /** The row at which every search stops. */
  ghost predicate Stops(data: Spec, indices: Spec, stop: nat) {
    NoStop(data, indices, 0, stop) && Row(data, indices, stop).Stop?
  }

  lemma {:induction false} HitsJoin(data: Spec, indices: Spec, a: nat, b: nat, c: nat)
    requires a <= b <= c
    ensures Hits(data, indices, a, b) + Hits(data, indices, b, c) == Hits(data, indices, a, c)
  {
    if b < c { HitsJoin(data, indices, a, b, c - 1); }
  }

  /** A search from the cursor finds what a search from the first row would find. */
  lemma FoundFromCursor(data: Spec, indices: Spec, index: nat, next: nat, i: nat, found: Outcome, ix: nat)
    requires Cursor(data, indices, index, next) && next <= i && Found(data, indices, index, i - next, found, ix)
    ensures Found(data, indices, 0, i, found, ix)
    ensures found.Value? ==> Cursor(data, indices, ix + 1, i + 1)
  {
    HitsJoin(data, indices, 0, index, ix);
  }

  /** A search from row `begin` has come to row ix, behind `count` selected rows. */
  ghost predicate Searching(data: Spec, indices: Spec, begin: nat, ix: nat, count: nat) {
    begin <= ix && NoStop(data, indices, begin, ix) && count == Hits(data, indices, begin, ix)
  }

  /** One row further, and the two ways in which the search ends. */
  lemma LookFurther(data: Spec, indices: Spec, begin: nat, ix: nat, count: nat)
    requires Searching(data, indices, begin, ix, count)
    requires Bounded(data) && data.rows != Infinite && !Row(data, indices, ix).Stop?
    ensures Searching(data, indices, begin, ix + 1, if Row(data, indices, ix).Hit? then count + 1 else count)
    ensures ix < data.limit
  {
  }

  lemma SearchHits(data: Spec, indices: Spec, begin: nat, ix: nat, skip: nat)
    requires Searching(data, indices, begin, ix, skip) && Row(data, indices, ix).Hit?
    ensures Found(data, indices, begin, skip, Value(Row(data, indices, ix).value), ix)
  {
  }

  lemma SearchStops(data: Spec, indices: Spec, begin: nat, ix: nat, count: nat, skip: nat)
    requires Searching(data, indices, begin, ix, count) && count <= skip && Row(data, indices, ix).Stop?
    ensures Found(data, indices, begin, skip, Row(data, indices, ix).outcome, ix)
  {
  }

  // ------------------------------------------------------------------------
  // Searches and the meaning of a subselection.

  lemma SpecBounded(e: Expr)
    requires WellFormed(e)
    ensures Bounded(SpecOf(e))
  {
    forall i: nat ensures RowsOf(e) != Infinite && i >= Limit(e) ==> !SpecOf(e).outcome(i).Value? {
      assert SpecOf(e).outcome(i) == Meaning(e, i);
    }
  }

  lemma RowIsLooked(e: Expr, p: nat)
    requires WellFormed(e) && e.Sub?
    ensures Row(SpecOf(e.data), SpecOf(e.indices), p) == Looked(e, p)
  {
  }

  /** The filter from a later row on is what remains of the filter. */
  lemma {:induction false} FilterSplits(e: Expr, data: Spec, indices: Spec, lo: nat, hi: nat)
    requires WellFormed(e) && e.Sub? && data == SpecOf(e.data) && indices == SpecOf(e.indices)
    requires lo <= hi && NoStop(data, indices, lo, hi)
    ensures Remains(Filter(e, lo), Filter(e, hi), Hits(data, indices, lo, hi))
    decreases hi
  {
    if lo < hi {
      FilterSplits(e, data, indices, lo, hi - 1);
      RowIsLooked(e, hi - 1);
      FilterNext(e, hi - 1);
      var h := Hits(data, indices, lo, hi - 1);
      if Looked(e, hi - 1).Hit? {
        RemainsLess(Filter(e, lo), Filter(e, hi - 1), Filter(e, hi), h);
      }
    }
  }

  /** All but the first h values. */
  ghost predicate Remains(f: Filtered, rest: Filtered, h: nat) {
    h <= |f.values| && rest == Filtered(f.values[h..], f.last)
  }

  lemma RemainsLess(f: Filtered, rest: Filtered, next: Filtered, h: nat)
    requires Remains(f, rest, h) && rest.values != [] && next == Filtered(rest.values[1..], rest.last)
    ensures Remains(f, next, h + 1)
  {
    assert f.values[h..][1..] == f.values[h + 1..];
  }

  lemma FilterNext(e: Expr, p: nat)
    requires WellFormed(e) && e.Sub? && !Looked(e, p).Stop?
    ensures var f := Filter(e, p);
      if Looked(e, p).Hit? then f.values != [] && Filter(e, p + 1) == Filtered(f.values[1..], f.last)
      else Filter(e, p + 1) == f
  {
  }

  /** What a search from the first row finds after i others is the meaning of row i. */
  lemma FoundIsMeaning(e: Expr, i: nat, found: Outcome, ix: nat)
    requires WellFormed(e) && e.Sub? && Found(SpecOf(e.data), SpecOf(e.indices), 0, i, found, ix)
    ensures found == Meaning(e, i)
  {
    FilterSplits(e, SpecOf(e.data), SpecOf(e.indices), 0, ix);
    RowIsLooked(e, ix);
    if found.Value? {
      assert Filter(e, ix).values[0] == found.value;
    }
  }

  /** It is the row at which the filter stops, and within the data. */
  lemma StopsAtStopRow(e: Expr)
    requires WellFormed(e) && e.Sub?
    ensures Stops(SpecOf(e.data), SpecOf(e.indices), StopRow(e, 0)) && StopRow(e, 0) <= Limit(e.data)
  {
    RowIsLooked(e, StopRow(e, 0));
    StopRowIsFirst(e, 0);
    forall p | 0 <= p < StopRow(e, 0) ensures !Row(SpecOf(e.data), SpecOf(e.indices), p).Stop? {
      RowIsLooked(e, p);
    }
  }

  lemma SelectsMeaning(e: Expr)
    requires WellFormed(e) && e.Sub?
    ensures Selects(SpecOf(e), SpecOf(e.data), SpecOf(e.indices))
  {
    forall i: nat, found, ix: nat | Found(SpecOf(e.data), SpecOf(e.indices), 0, i, found, ix)
      ensures SpecOf(e).outcome(i) == found
    {
      FoundIsMeaning(e, i, found, ix);
    }
  }

  // ------------------------------------------------------------------------
  // The rows that a search examines.

  /** The numbers from lo up to hi. */
  ghost function Range(lo: nat, hi: nat): (r: seq<nat>)
    requires lo <= hi
    ensures |r| == hi - lo && forall k | 0 <= k < |r| :: r[k] == lo + k
  {
    seq(hi - lo, k => lo + k)
  }

  lemma RangeJoins(a: nat, b: nat, c: nat)
    requires a <= b <= c
    ensures Range(a, b) + Range(b, c) == Range(a, c)
  {
  }

  /** Every row below some m <= bound, once and in order. */
  ghost predicate UpTo(rows: seq<nat>, bound: nat) {
    |rows| <= bound && rows == Range(0, |rows|)
  }

  /** Some of the rows below the bound, each at most once and in order. */
  ghost predicate Ascending(rows: seq<nat>, bound: nat) {
    (forall k | 0 <= k < |rows| :: rows[k] < bound) && forall j, k | 0 <= j < k < |rows| :: rows[j] < rows[k]
  }

  lemma AscendingNext(rows: seq<nat>, bound: nat, row: nat)
    requires Ascending(rows, bound) && bound <= row
    ensures Ascending(rows + [row], row + 1)
  {
  }

  lemma {:induction false} AtMostOnce(rows: seq<nat>, bound: nat)
    requires Ascending(rows, bound)
    ensures |rows| <= bound && forall p: nat :: multiset(rows)[p] <= 1
    ensures forall p: nat | p >= bound :: multiset(rows)[p] == 0
  {
    if rows != [] {
      var last := |rows| - 1;
      AtMostOnce(rows[..last], rows[last]);
      assert rows == rows[..last] + [rows[last]];
    }
  }

  /** A search that goes on from where the last one ended. */
  lemma ForwardStep(data: Spec, indices: Spec, start: nat, i: nat, found: Outcome, row: nat, stop: nat)
    requires start <= row && Found(data, indices, 0, i, found, row) && Stops(data, indices, stop)
    ensures row <= stop && (found.Value? ==> row < stop)
    ensures Range(0, start) + Range(start, row + 1) == Range(0, row + 1)
    ensures UpTo(Range(0, row + 1), stop + 1)
  {
    RangeJoins(0, start, row + 1);
    assert stop < row ==> !Row(data, indices, stop).Stop?;
  }

  lemma RangeExtends(rows: seq<nat>, lo: nat, hi: nat)
    requires lo <= hi
    ensures (rows + Range(lo, hi)) + [hi] == rows + Range(lo, hi + 1)
  {
  }

  // ------------------------------------------------------------------------

  class View {
    const kind: Kind
    const nrows: Rows
    const operands: seq<View>
    var index: nat
    var next: nat

    ghost const spec: Spec
    ghost const specs: seq<Spec>
    ghost const height: nat
    ghost const Repr: set<object>
    /** The rows that find_next has looked at, in this order: for each a row of the indices and one of the data. */
    ghost var examined: seq<nat>
    /** The rows that value_func has then read from its own copy of the data. */
    ghost var fetched: seq<nat>

    /** The closure keeps the promise. A subselection has a copy of the data in value_func and one in find_next. */
    static ghost predicate Fits(kind: Kind, specs: seq<Spec>, spec: Spec) {
      match kind
      case OfColumn(cells) =>
        specs == [] && forall i: nat :: spec.outcome(i) == if i < |cells| then Value(cells[i]) else End
      case OfValue(v) =>
        specs == [] && forall i: nat :: spec.outcome(i) == Value(v)
      case OfUn(op) =>
        |specs| == 1 && forall i: nat :: spec.outcome(i) == UnOutcome(op, specs[0].outcome(i))
      case OfBin(op) =>
        |specs| == 2 && forall i: nat ::
          spec.outcome(i) == BinOutcome(op, specs[0].rows, specs[1].rows, specs[0].outcome(i), specs[1].outcome(i))
      case OfTern(op) =>
        |specs| == 3 && forall i: nat ::
          spec.outcome(i) == TernOutcome(op, specs[0].rows, specs[1].rows, specs[2].rows,
                                         specs[0].outcome(i), specs[1].outcome(i), specs[2].outcome(i))
      case OfSub =>
        |specs| == 3 && specs[2] == specs[0] && specs[0].rows != Infinite && Selects(spec, specs[0], specs[1])
    }

    static ghost function Specs(views: seq<View>): (specs: seq<Spec>)
      ensures |specs| == |views| && forall k | 0 <= k < |views| :: specs[k] == views[k].spec
    {
      seq(|views|, k requires 0 <= k < |views| => views[k].spec)
    }

    static ghost predicate Apart(views: seq<View>) {
      forall j, k | 0 <= j < k < |views| :: views[j].Repr !! views[k].Repr
    }

    static ghost function Footprint(views: seq<View>): set<object> {
      set k, o | 0 <= k < |views| && o in views[k].Repr :: o
    }

    /** What holds of a view and its operands from their construction on. */
    ghost predicate Built() {
      && this in Repr && nrows == spec.rows && Bounded(spec)
      && |operands| == |specs| && Fits(kind, specs, spec)
      && (forall k | 0 <= k < |operands| ::
            && operands[k].spec == specs[k] && operands[k].height < height
            && operands[k].Repr <= Repr && this !in operands[k].Repr)
      && Apart(operands)
    }

    ghost predicate Valid()
      reads Repr
      decreases height
    {
      && Built() && (forall k | 0 <= k < |operands| :: operands[k].Valid())
      && match kind
         case OfSub => Cursor(specs[0], specs[1], index, next)
         case _ => true
    }

    /** The view stands for the expression. */
    ghost predicate Is(e: Expr) {
      WellFormed(e) && spec == SpecOf(e)
    }

    constructor (kind: Kind, operands: seq<View>, nrows: Rows, ghost spec: Spec, ghost height: nat)
      requires forall k | 0 <= k < |operands| :: operands[k].Valid() && operands[k].height < height
      requires Apart(operands) && Fits(kind, Specs(operands), spec) && nrows == spec.rows && Bounded(spec)
      ensures Valid() && this.spec == spec && this.specs == Specs(operands) && this.kind == kind
          && this.height == height
      ensures Repr == {this} + Footprint(operands)
      ensures index == 0 && next == 0 && examined == [] && fetched == []
    {
      this.kind, this.nrows, this.operands := kind, nrows, operands;
      index, next := 0, 0;
      this.spec, this.specs, this.height := spec, Specs(operands), height;
      Repr := {this} + Footprint(operands);
      examined, fetched := [], [];
    }

    // ----------------------------------------------------------------------
    // Access.

    /** operator[] */
    method Get(i: nat) returns (r: Outcome)
      requires Valid()
      modifies Repr
      ensures Valid() && r == spec.outcome(i)
      ensures kind == OfSub ==> CursorMoved(old(index), old(next), old(examined), old(fetched), i, r)
      decreases height, 4
    {
      match kind
      case OfColumn(cells) =>
        r := if i >= |cells| then End else Value(cells[i]);
      case OfValue(v) =>
        r := Value(v);
      case OfUn(op) =>
        r := Operand(0, i);
        if r.Value? {
          r := Value(op(r.value));
        }
      case OfBin(op) =>
        r := GetBin(op, i);
      case OfTern(op) =>
        r := GetTern(op, i);
      case OfSub =>
        r := GetSub(i);
    }

    /** An access to an operand, which moves the cursors in it and nothing else. */
    method Operand(k: nat, i: nat) returns (r: Outcome)
      requires Valid() && k < |operands|
      modifies operands[k].Repr
      ensures Valid() && r == specs[k].outcome(i)
      ensures index == old(index) && next == old(next) && examined == old(examined) && fetched == old(fetched)
      decreases height, 0
    {
      r := operands[k].Get(i);
    }

    /** check_nrows */
    method CheckRows(k: nat, o: Outcome) returns (throws: bool)
      requires Valid() && k < |operands|
      ensures throws <==> specs[k].rows != Infinite && o.Value?
    {
      throws := (operands[k].nrows.Known? || operands[k].nrows != Infinite) && o.Value?;
    }

    method GetBin(op: (Value, Value) -> Value, i: nat) returns (r: Outcome)
      requires Valid() && kind == OfBin(op)
      modifies Repr
      ensures Valid() && r == spec.outcome(i)
      decreases height, 1
    {
      var op1 := Operand(0, i);
      if op1.Fail? {
        return Fail;
      }
      var op2 := Operand(1, i);
      if op2.Fail? {
        return Fail;
      }
      if op1.End? {
        var throws := CheckRows(1, op2);
        return if throws then Fail else End;
      }
      if op2.End? {
        var throws := CheckRows(0, op1);
        return if throws then Fail else End;
      }
      return Value(op(op1.value, op2.value));
    }

    method GetTern(op: (Value, Value, Value) -> Value, i: nat) returns (r: Outcome)
      requires Valid() && kind == OfTern(op)
      modifies Repr
      ensures Valid() && r == spec.outcome(i)
      decreases height, 1
    {
      var op1 := Operand(0, i);
      if op1.Fail? {
        return Fail;
      }
      var op2 := Operand(1, i);
      if op2.Fail? {
        return Fail;
      }
      var op3 := Operand(2, i);
      if op3.Fail? {
        return Fail;
      }
      if op1.End? {
        var throws2 := CheckRows(1, op2);
        var throws3 := CheckRows(2, op3);
        return if throws2 || throws3 then Fail else End;
      }
      if op2.End? {
        var throws1 := CheckRows(0, op1);
        var throws3 := CheckRows(2, op3);
        return if throws1 || throws3 then Fail else End;
      }
      if op3.End? {
        var throws1 := CheckRows(0, op1);
        var throws2 := CheckRows(1, op2);
        return if throws1 || throws2 then Fail else End;
      }
      return Value(op(op1.value, op2.value, op3.value));
    }

    /**
     What an access does to the cursor of a subselection: a value leaves it behind the row of the value, and
     the rows examined are those from where the search began (the cursor, or row 0 for an access backwards)
     to there; the row of the value is then fetched. The end and an exception leave the cursor where it was.
     */
    ghost predicate CursorMoved(index0: nat, next0: nat, examined0: seq<nat>, fetched0: seq<nat>, i: nat,
        r: Outcome)
      requires |specs| == 3
      reads this
    {
      var start := if i < next0 then 0 else index0;
      exists row ::
        && start <= row && Found(specs[0], specs[1], 0, i, r, row) && examined == examined0 + Range(start, row + 1)
        && if r.Value? then index == row + 1 && next == i + 1 && fetched == fetched0 + [row]
           else index == index0 && next == next0 && fetched == fetched0
    }

    method GetSub(i: nat) returns (r: Outcome)
      requires Valid() && kind == OfSub
      modifies Repr
      ensures Valid() && r == spec.outcome(i)
      ensures CursorMoved(old(index), old(next), old(examined), old(fetched), i, r)
      decreases height, 3
    {
      var found, ix := Locate(i);
      r := found;
      if found.Value? {
        r := Fetch(i, ix);
      }
    }

    /** value_func at the row that was found, and the cursor behind it. */
    method Fetch(i: nat, ix: nat) returns (r: Outcome)
      requires Valid() && kind == OfSub && Cursor(specs[0], specs[1], ix + 1, i + 1)
      modifies Repr
      ensures Valid() && r == specs[0].outcome(ix)
      ensures index == ix + 1 && next == i + 1 && examined == old(examined) && fetched == old(fetched) + [ix]
      decreases height, 1
    {
      fetched := fetched + [ix];
      r := Operand(0, ix);
      SetCursor(ix + 1, i + 1);
    }

    /** The search goes on from the cursor, or begins again for an access backwards. */
    method Locate(i: nat) returns (found: Outcome, ix: nat)
      requires Valid() && kind == OfSub
      modifies Repr
      ensures Valid()
      ensures index == old(index) && next == old(next) && fetched == old(fetched)
      ensures Found(specs[0], specs[1], 0, i, found, ix)
      ensures found.Value? ==> Cursor(specs[0], specs[1], ix + 1, i + 1)
      ensures var start := if i < next then 0 else index;
        start <= ix && examined == old(examined) + Range(start, ix + 1)
      decreases height, 2
    {
      if i == next {
        found, ix := FindNext(index, 0);
      } else if i < next {
        found, ix := FindNext(0, i);
      } else {
        found, ix := FindNext(index, i - next);
      }
      FoundFromCursor(specs[0], specs[1], if i < next then 0 else index, if i < next then 0 else next, i, found, ix);
    }

    /** find_next: the row of the selected value after `skip` others, looking from row `begin` on. */
    method FindNext(begin: nat, skip: nat) returns (found: Outcome, ix: nat)
      requires Valid() && kind == OfSub
      modifies Repr
      ensures Valid()
      ensures index == old(index) && next == old(next) && fetched == old(fetched)
      ensures Found(specs[0], specs[1], begin, skip, found, ix)
      ensures examined == old(examined) + Range(begin, ix + 1)
      decreases height, 1, 2
    {
      ix := begin;
      var count: nat := 0;
      assert examined + Range(begin, ix) == examined;
      while true
        invariant index == old(index) && next == old(next) && fetched == old(fetched)
        invariant Halfway(begin, ix, count, skip, old(examined))
        decreases specs[0].limit - ix
      {
        var done;
        done, found, count := Turn(begin, ix, count, skip, old(examined));
        if done {
          return;
        }
        ix := ix + 1;
      }
    }

    ghost predicate Halfway(begin: nat, ix: nat, count: nat, skip: nat, before: seq<nat>)
      reads Repr
    {
      && Valid() && kind == OfSub && Searching(specs[0], specs[1], begin, ix, count) && count <= skip
      && examined == before + Range(begin, ix)
    }

    /** One turn of the loop in find_next. */
    method Turn(ghost begin: nat, ix: nat, count0: nat, skip: nat, ghost before: seq<nat>)
      returns (done: bool, found: Outcome, count: nat)
      requires Halfway(begin, ix, count0, skip, before)
      modifies Repr
      ensures Valid() && index == old(index) && next == old(next) && fetched == old(fetched)
      ensures done ==> Found(specs[0], specs[1], begin, skip, found, ix) && examined == before + Range(begin, ix + 1)
      ensures !done ==> Halfway(begin, ix + 1, count, skip, before) && ix < specs[0].limit
      decreases height, 1, 1
    {
      count := count0;
      var look := LookAtRow(ix);
      RangeExtends(before, begin, ix);
      if look.Stop? {
        SearchStops(specs[0], specs[1], begin, ix, count, skip);
        return true, look.outcome, count;
      }
      LookFurther(specs[0], specs[1], begin, ix, count);
      if look.Hit? {
        count := count + 1;
        if count > skip {
          SearchHits(specs[0], specs[1], begin, ix, skip);
          return true, Value(look.value), count;
        }
      }
      return false, End, count;
    }

    /** The row of the indices, and then that of the data. */
    method LookAtRow(ix: nat) returns (look: Look)
      requires Valid() && kind == OfSub
      modifies Repr
      ensures Valid() && look == Row(specs[0], specs[1], ix) && Bounded(specs[0])
      ensures index == old(index) && next == old(next)
      ensures examined == old(examined) + [ix] && fetched == old(fetched)
      decreases height, 1, 0
    {
      examined := examined + [ix];
      var val := Operand(1, ix);
      if val.Fail? {
        return Stop(Fail);
      }
      var datum := Operand(2, ix);
      if val.End? {
        return Stop(if datum.End? then End else Fail);
      }
      if datum.Fail? {
        return Stop(Fail);
      }
      if datum.End? {
        return Stop(if operands[1].nrows == Infinite then End else Fail);
      }
      return if Truth(val.value) then Hit(datum.value) else Skip;
    }

    method SetCursor(index: nat, next: nat)
      requires Valid() && kind == OfSub && Cursor(specs[0], specs[1], index, next)
      modifies this`index, this`next
      ensures Valid() && this.index == index && this.next == next
    {
      this.index, this.next := index, next;
    }

    // ----------------------------------------------------------------------
    // Capturing a view copies its closure: the cursor, and the operands in it.

    method Clone() returns (v: View)
      requires Valid()
      ensures v.Valid() && fresh(v.Repr) && v.spec == spec && v.kind == kind && v.height == height
      ensures kind == OfSub ==> v.index == index && v.next == next
      decreases height, 2
    {
      assert Specs(operands) == specs;
      v := Build(kind, operands, nrows, spec, height);
      if kind == OfSub {
        assert v.specs[0] == specs[0] && v.specs[1] == specs[1];
        v.SetCursor(index, next);
      }
    }

    static method CloneAll(views: seq<View>, ghost bound: nat) returns (copies: seq<View>, ghost used: set<object>)
      requires forall k | 0 <= k < |views| :: views[k].Valid() && views[k].height < bound
      ensures |copies| == |views| && Apart(copies) && fresh(used)
      ensures forall k | 0 <= k < |copies| :: copies[k].Repr <= used && copies[k].Copies(views[k])
      decreases bound, 0, |views|
    {
      if views == [] {
        return [], {};
      }
      var last := |views| - 1;
      copies, used := CloneAll(views[..last], bound);
      var c := views[last].Clone();
      assert used !! c.Repr;
      copies, used := copies + [c], used + c.Repr;
    }

    ghost predicate Copies(v: View)
      reads Repr
    {
      Valid() && spec == v.spec && height == v.height
    }

    static method Build(kind: Kind, views: seq<View>, nrows: Rows, ghost spec: Spec, ghost height: nat)
        returns (v: View)
      requires forall k | 0 <= k < |views| :: views[k].Valid() && views[k].height < height
      requires Fits(kind, Specs(views), spec) && nrows == spec.rows && Bounded(spec)
      ensures v.Valid() && fresh(v.Repr) && v.spec == spec && v.specs == Specs(views) && v.kind == kind
          && v.height == height
      ensures v.index == 0 && v.next == 0 && v.examined == [] && v.fetched == []
      decreases height, 1
    {
      ghost var used;
      var copies;
      copies, used := CloneAll(views, height);
      assert Specs(copies) == Specs(views);
      v := new View(kind, copies, nrows, spec, height);
    }

    // ----------------------------------------------------------------------
    // The factory functions. They throw (here: return null) exactly when the sizes do not fit.

    static method FromColumn(cells: seq<Value>) returns (v: View)
      ensures v.Valid() && fresh(v.Repr) && v.Is(Column(cells))
    {
      SpecBounded(Column(cells));
      v := new View(OfColumn(cells), [], Known(|cells|), SpecOf(Column(cells)), 0);
    }

    static method FromValue(value: Value) returns (v: View)
      ensures v.Valid() && fresh(v.Repr) && v.Is(Const(value))
    {
      v := new View(OfValue(value), [], Infinite, SpecOf(Const(value)), 0);
    }

    static method FromUnOp(a: View, op: Value -> Value, ghost ea: Expr) returns (v: View)
      requires a.Valid() && a.Is(ea)
      ensures v.Valid() && fresh(v.Repr) && v.Is(Un(op, ea))
    {
      ghost var e := Un(op, ea);
      SpecBounded(e);
      v := Build(OfUn(op), [a], a.nrows, SpecOf(e), a.height + 1);
    }

    static method FromBinOp(a: View, b: View, op: (Value, Value) -> Value, ghost ea: Expr, ghost eb: Expr)
        returns (v: View?)
      requires a.Valid() && b.Valid() && a.Is(ea) && b.Is(eb)
      ensures v == null <==> a.nrows.Known? && b.nrows.Known? && a.nrows.n != b.nrows.n
      ensures v != null <==> WellFormed(Bin(op, ea, eb))
      ensures v != null ==> v.Valid() && fresh(v.Repr) && v.Is(Bin(op, ea, eb))
    {
      var fits, nrows := BinNRows(a, b);
      if !fits {
        return null;
      }
      ghost var e := Bin(op, ea, eb);
      SpecBounded(e);
      v := Build(OfBin(op), [a, b], nrows, SpecOf(e), a.height + b.height + 1);
    }

    /** nrows_func of a binary operation; fits is false when it throws. */
    static method BinNRows(a: View, b: View) returns (fits: bool, nrows: Rows)
      ensures fits <==> BinFits(a.nrows, b.nrows)
      ensures fits ==> nrows == BinRows(a.nrows, b.nrows)
    {
      if a.nrows.Known? {
        return !SizesDiffer(a, b), a.nrows;
      }
      if b.nrows.Known? {
        return true, b.nrows;
      }
      nrows := if a.nrows.NotKnowable? || b.nrows.NotKnowable? then NotKnowable else Infinite;
      fits := true;
    }

    /** check_same_size, for a first operand whose length is known. */
    static predicate SizesDiffer(a: View, b: View)
      requires a.nrows.Known?
    {
      b.nrows.Known? && a.nrows.n != b.nrows.n
    }

    /** nrows_func of a ternary operation; fits is false when it throws. */
    static method TernNRows(a: View, b: View, c: View) returns (fits: bool, nrows: Rows)
      ensures fits <==> TernFits(a.nrows, b.nrows, c.nrows)
      ensures fits ==> nrows == TernRows(a.nrows, b.nrows, c.nrows)
    {
      if a.nrows.Known? {
        return !SizesDiffer(a, b) && !SizesDiffer(a, c), a.nrows;
      }
      if b.nrows.Known? {
        return !SizesDiffer(b, c), b.nrows;
      }
      if c.nrows.Known? {
        return true, c.nrows;
      }
      nrows := if a.nrows.NotKnowable? || b.nrows.NotKnowable? || c.nrows.NotKnowable? then NotKnowable else Infinite;
      fits := true;
    }

    static lemma TernSpec(op: (Value, Value, Value) -> Value, ea: Expr, eb: Expr, ec: Expr)
      requires WellFormed(Tern(op, ea, eb, ec))
      ensures Fits(OfTern(op), [SpecOf(ea), SpecOf(eb), SpecOf(ec)], SpecOf(Tern(op, ea, eb, ec)))
      ensures Bounded(SpecOf(Tern(op, ea, eb, ec)))
    {
      SpecBounded(Tern(op, ea, eb, ec));
    }

    static method FromTernOp(a: View, b: View, c: View, op: (Value, Value, Value) -> Value,
                             ghost ea: Expr, ghost eb: Expr, ghost ec: Expr) returns (v: View?)
      requires a.Valid() && b.Valid() && c.Valid() && a.Is(ea) && b.Is(eb) && c.Is(ec)
      ensures v == null <==>
        || (a.nrows.Known? && b.nrows.Known? && a.nrows.n != b.nrows.n)
        || (a.nrows.Known? && c.nrows.Known? && a.nrows.n != c.nrows.n)
        || (b.nrows.Known? && c.nrows.Known? && b.nrows.n != c.nrows.n)
      ensures v != null <==> WellFormed(Tern(op, ea, eb, ec))
      ensures v != null ==> v.Valid() && fresh(v.Repr) && v.Is(Tern(op, ea, eb, ec))
    {
      var fits, nrows := TernNRows(a, b, c);
      if !fits {
        return null;
      }
      ghost var e := Tern(op, ea, eb, ec);
      TernSpec(op, ea, eb, ec);
      assert Specs([a, b, c]) == [SpecOf(ea), SpecOf(eb), SpecOf(ec)];
      v := Build(OfTern(op), [a, b, c], nrows, SpecOf(e), a.height + b.height + c.height + 1);
    }

    static lemma SubSpec(ed: Expr, ei: Expr)
      requires WellFormed(Sub(ed, ei))
      ensures Fits(OfSub, [SpecOf(ed), SpecOf(ei), SpecOf(ed)], SpecOf(Sub(ed, ei)))
      ensures Bounded(SpecOf(Sub(ed, ei)))
      ensures Stops(SpecOf(ed), SpecOf(ei), StopRow(Sub(ed, ei), 0))
    {
      SpecBounded(Sub(ed, ei));
      SelectsMeaning(Sub(ed, ei));
      StopsAtStopRow(Sub(ed, ei));
    }

    /** from_boolean_subselection: the cursor of the new view stands before the first row. */
    static method FromBooleanSubselection(data: View, indices: View, ghost ed: Expr, ghost ei: Expr) returns (v: View?)
      requires data.Valid() && indices.Valid() && data.Is(ed) && indices.Is(ei)
      ensures v == null <==>
        || data.nrows == Infinite
        || (data.nrows.Known? && indices.nrows.Known? && data.nrows.n != indices.nrows.n)
      ensures v != null <==> WellFormed(Sub(ed, ei))
      ensures v != null ==> v.Valid() && fresh(v.Repr) && v.Is(Sub(ed, ei))
      ensures v != null ==> v.kind == OfSub && v.index == 0 && v.next == 0 && v.Scanned(StopRow(Sub(ed, ei), 0))
    {
      if data.nrows == Infinite {
        return null;
      }
      if data.nrows.Known? && indices.nrows.Known? && data.nrows.n != indices.nrows.n {
        return null;
      }
      ghost var e := Sub(ed, ei);
      SubSpec(ed, ei);
      assert Specs([data, indices, data]) == [SpecOf(ed), SpecOf(ei), SpecOf(ed)];
      v := Build(OfSub, [data, indices, data], NotKnowable, SpecOf(e), data.height + indices.height + 1);
    }

    // ----------------------------------------------------------------------
    // Uses of a view.

    /** calc_nrows: it ends, and without errors it is the number of rows. */
    method CalcNRows(ghost e: Expr) returns (r: Count)
      requires Valid() && Is(e)
      modifies Repr
      ensures Valid()
      ensures r == Unbounded <==> RowsOf(e) == Infinite
      ensures RowsOf(e).Known? ==> r == Exactly(RowsOf(e).n)
      ensures r == Throws ==> !ErrorFree(e)
      ensures r.Exactly? && (RowsOf(e) == NotKnowable || ErrorFree(e)) ==> HasRows(e, r.n)
    {
      if nrows.Known? {
        if ErrorFree(e) { RowsExact(e); }
        return Exactly(nrows.n);
      }
      if nrows == Infinite {
        return Unbounded;
      }
      var i := 0;
      while true
        invariant Valid() && forall j: nat | j < i :: Meaning(e, j).Value?
        decreases spec.limit - i
      {
        var o := Get(i);
        assert o == Meaning(e, i);
        if o.Fail? {
          return Throws;
        }
        if o.End? {
          EndCounts(e, i);
          return Exactly(i);
        }
        i := i + 1;
      }
    }

    /** Any sequence of accesses, in any order and with repetitions, reads what the view promises. */
    method ReadAny(rows: seq<nat>) returns (outcomes: seq<Outcome>)
      requires Valid()
      modifies Repr
      ensures Valid() && |outcomes| == |rows|
      ensures forall k | 0 <= k < |rows| :: outcomes[k] == spec.outcome(rows[k])
    {
      outcomes := [];
      while |outcomes| < |rows|
        invariant Valid() && |outcomes| <= |rows|
        invariant forall k | 0 <= k < |outcomes| :: outcomes[k] == spec.outcome(rows[k])
      {
        var r := Get(rows[|outcomes|]);
        outcomes := outcomes + [r];
      }
    }

    /** All rows before the cursor of the subselection have been examined, each of them once; some were fetched. */
    ghost predicate Scanned(stop: nat)
      requires |specs| == 3
      reads this
    {
      && Stops(specs[0], specs[1], stop) && index <= stop
      && examined == Range(0, index) && Ascending(fetched, index)
    }

    method GetForward(i: nat, ghost stop: nat) returns (r: Outcome)
      requires Valid() && kind == OfSub && Scanned(stop) && next <= i
      modifies Repr
      ensures Valid() && r == spec.outcome(i)
      ensures r.Value? ==> Scanned(stop) && next == i + 1 && |fetched| == |old(fetched)| + 1
      ensures !r.Value? ==> fetched == old(fetched)
      ensures UpTo(examined, stop + 1)
    {
      ghost var start := index;
      r := Get(i);
      ghost var row :| start <= row && Found(specs[0], specs[1], 0, i, r, row)
                       && examined == Range(0, start) + Range(start, row + 1)
                       && (r.Value? ==> index == row + 1 && fetched == old(fetched) + [row]);
      ForwardStep(specs[0], specs[1], start, i, r, row, stop);
      AscendingNext(old(fetched), start, row);
    }

    /**
     Reading a new subselection at increasing rows, until there is no value: the search examines every row of
     the operands at most once, and in order, and none behind the one at which the filter stops; only the rows
     of the values are read again. So a row of the indices is read at most once, and one of the data twice.
     */
    method ReadIncreasing(rows: seq<nat>, ghost stop: nat) returns (values: seq<Value>, last: Outcome)
      requires Valid() && kind == OfSub && Scanned(stop) && index == 0 && next == 0
      requires forall k | 0 <= k < |rows| - 1 :: rows[k] < rows[k + 1]
      modifies Repr
      ensures Valid() && |values| <= |rows|
      ensures forall k | 0 <= k < |values| :: spec.outcome(rows[k]) == Value(values[k])
      ensures |values| < |rows| ==> last == spec.outcome(rows[|values|]) && !last.Value?
      ensures UpTo(examined, stop + 1) && Ascending(fetched, stop) && |fetched| == |values|
      ensures forall p: nat :: multiset(examined)[p] <= 1 && multiset(examined + fetched)[p] <= 2
    {
      values, last := ReadForward(rows, stop);
      AtMostOnce(examined, stop + 1);
      AtMostOnce(fetched, stop);
    }

    /** These are the values at the first rows of a list. */
    static ghost predicate Yielded(spec: Spec, rows: seq<nat>, values: seq<Value>) {
      |values| <= |rows| && forall k | 0 <= k < |values| :: spec.outcome(rows[k]) == Value(values[k])
    }

    static lemma YieldedNext(spec: Spec, rows: seq<nat>, values: seq<Value>, v: Value)
      requires Yielded(spec, rows, values) && |values| < |rows| && spec.outcome(rows[|values|]) == Value(v)
      ensures Yielded(spec, rows, values + [v])
    {
    }

    method ReadForward(rows: seq<nat>, ghost stop: nat) returns (values: seq<Value>, last: Outcome)
      requires Valid() && kind == OfSub && Scanned(stop) && index == 0 && next == 0
      requires forall k | 0 <= k < |rows| - 1 :: rows[k] < rows[k + 1]
      modifies Repr
      ensures Valid() && |values| <= |rows|
      ensures forall k | 0 <= k < |values| :: spec.outcome(rows[k]) == Value(values[k])
      ensures |values| < |rows| ==> last == spec.outcome(rows[|values|]) && !last.Value?
      ensures UpTo(examined, stop + 1) && Ascending(fetched, stop) && |fetched| == |values|
    {
      values, last := [], End;
      AtMostOnce(fetched, index);
      while |values| < |rows|
        invariant Valid() && Scanned(stop) && |fetched| == |values| && Yielded(spec, rows, values)
        invariant |values| < |rows| ==> next <= rows[|values|]
        invariant UpTo(examined, stop + 1)
      {
        last := GetForward(rows[|values|], stop);
        if !last.Value? {
          return;
        }
        YieldedNext(spec, rows, values, last.value);
        values := values + [last.value];
      }
    }
  }

  /** containers/ColumnViewIterator.hpp: the iterator has its own copy of the closure. */
  class Iterator {
    var i: nat
    var value: Outcome
    const view: View

    ghost predicate Valid()
      reads this, view.Repr
    {
      this !in view.Repr && view.Valid() && value == view.spec.outcome(i)
    }

    /** begin() */
    constructor (v: View)
      requires v.Valid()
      ensures Valid() && view.spec == v.spec && i == 0
      ensures fresh(view.Repr)
    {
      var copy := v.Clone();
      var first := copy.Get(0);
      view, i, value := copy, 0, first;
    }

    /** operator++ */
    method Increment()
      requires Valid()
      modifies this, view.Repr
      ensures Valid() && i == old(i) + 1
    {
      i := i + 1;
      value := view.Get(i);
    }
  }

  /** Any sequence of accesses to the view of an expression reads the meaning of the expression. */
  method ReadMeaning(v: View, ghost e: Expr, rows: seq<nat>) returns (outcomes: seq<Outcome>)
    requires v.Valid() && v.Is(e)
    modifies v.Repr
    ensures v.Valid() && |outcomes| == |rows|
    ensures forall k | 0 <= k < |rows| :: outcomes[k] == Meaning(e, rows[k])
  {
    outcomes := v.ReadAny(rows);
    assert forall i: nat :: SpecOf(e).outcome(i) == Meaning(e, i);
  }

  /** The view of a unary operation applies the operator to what its operand means. */
  method ReadUnary(a: View, op: Value -> Value, ghost ea: Expr, rows: seq<nat>) returns (outcomes: seq<Outcome>)
    requires a.Valid() && a.Is(ea)
    ensures |outcomes| == |rows|
    ensures forall k | 0 <= k < |rows| :: UnRow(op, Meaning(ea, rows[k]), outcomes[k])
  {
    var v := View.FromUnOp(a, op, ea);
    outcomes := ReadMeaning(v, Un(op, ea), rows);
    forall k | 0 <= k < |rows| ensures UnRow(op, Meaning(ea, rows[k]), outcomes[k]) {
      RowYields(Un(op, ea), rows[k]);
    }
  }

  /** That of a binary operation, unless two known lengths differ; in any order of the accesses. */
  method ReadBinary(a: View, b: View, op: (Value, Value) -> Value, ghost ea: Expr, ghost eb: Expr, rows: seq<nat>)
      returns (throws: bool, outcomes: seq<Outcome>)
    requires a.Valid() && b.Valid() && a.Is(ea) && b.Is(eb)
    ensures throws <==> RowsOf(ea).Known? && RowsOf(eb).Known? && RowsOf(ea).n != RowsOf(eb).n
    ensures !throws ==> |outcomes| == |rows| && forall k | 0 <= k < |rows| ::
      BinRow(op, RowsOf(ea), RowsOf(eb), Meaning(ea, rows[k]), Meaning(eb, rows[k]), outcomes[k])
  {
    var v := View.FromBinOp(a, b, op, ea, eb);
    if v == null {
      return true, [];
    }
    ghost var e := Bin(op, ea, eb);
    throws := false;
    outcomes := ReadMeaning(v, e, rows);
    forall k | 0 <= k < |rows| ensures Yields(e, rows[k]) {
      RowYields(e, rows[k]);
    }
  }

  method ReadTernary(a: View, b: View, c: View, op: (Value, Value, Value) -> Value,
                     ghost ea: Expr, ghost eb: Expr, ghost ec: Expr, rows: seq<nat>)
      returns (throws: bool, outcomes: seq<Outcome>)
    requires a.Valid() && b.Valid() && c.Valid() && a.Is(ea) && b.Is(eb) && c.Is(ec)
    ensures throws <==>
      || (RowsOf(ea).Known? && RowsOf(eb).Known? && RowsOf(ea).n != RowsOf(eb).n)
      || (RowsOf(ea).Known? && RowsOf(ec).Known? && RowsOf(ea).n != RowsOf(ec).n)
      || (RowsOf(eb).Known? && RowsOf(ec).Known? && RowsOf(eb).n != RowsOf(ec).n)
    ensures !throws ==> |outcomes| == |rows| && forall k | 0 <= k < |rows| ::
      TernRow(op, RowsOf(ea), RowsOf(eb), RowsOf(ec), Meaning(ea, rows[k]), Meaning(eb, rows[k]), Meaning(ec, rows[k]),
              outcomes[k])
  {
    var v := View.FromTernOp(a, b, c, op, ea, eb, ec);
    if v == null {
      return true, [];
    }
    ghost var e := Tern(op, ea, eb, ec);
    throws := false;
    outcomes := ReadMeaning(v, e, rows);
    forall k | 0 <= k < |rows| ensures Yields(e, rows[k]) {
      RowYields(e, rows[k]);
    }
  }

  /** for (it = begin(); it != end(); ++it): the values up to the end, or up to an exception. */
  method Collect(v: View) returns (values: seq<Value>, last: Outcome)
    requires v.Valid() && v.nrows != Infinite
    ensures !last.Value? && last == v.spec.outcome(|values|)
    ensures forall k | 0 <= k < |values| :: v.spec.outcome(k) == Value(values[k])
  {
    var it := new Iterator(v);
    ghost var spec := v.spec;
    values := [];
    while it.value.Value?
      invariant it.Valid() && it.view.spec == spec && fresh(it) && fresh(it.view.Repr) && it.i == |values|
      invariant forall k | 0 <= k < |values| :: spec.outcome(k) == Value(values[k])
      decreases spec.limit - |values|
    {
      values := values + [it.value.value];
      it.Increment();
    }
    last := it.value;
  }

  /** The same loop, left after n values at the latest; over an infinite view it comes to n values for every n. */
  method CollectFirst(v: View, ghost e: Expr, n: nat) returns (values: seq<Value>)
    requires v.Valid() && v.Is(e)
    ensures |values| <= n && forall k | 0 <= k < |values| :: Meaning(e, k) == Value(values[k])
    ensures |values| < n ==> RowsOf(e) != Infinite && !Meaning(e, |values|).Value?
  {
    var it := new Iterator(v);
    ghost var spec := v.spec;
    values := [];
    while |values| < n && it.value.Value?
      invariant it.Valid() && it.view.spec == spec && fresh(it) && fresh(it.view.Repr) && it.i == |values| <= n
      invariant forall k | 0 <= k < |values| :: spec.outcome(k) == Value(values[k])
    {
      values := values + [it.value.value];
      it.Increment();
    }
    assert forall i: nat :: spec.outcome(i) == Meaning(e, i);
    RowsSound(e, |values|);
  }

  /** Iterating over a view that is not infinite yields its values, and the end or the error behind them. */
  method CollectReading(v: View, ghost e: Expr) returns (values: seq<Value>, last: Outcome)
    requires v.Valid() && v.Is(e) && RowsOf(e) != Infinite
    ensures Filtered(values, last) == Reading(e, 0)
  {
    values, last := Collect(v);
    assert forall i: nat :: SpecOf(e).outcome(i) == Meaning(e, i);
    ReadingIs(e, values, last);
  }

  /** Iterating over a subselection yields the selected values of its data. */
  method CollectSubselection(v: View, ghost e: Expr) returns (values: seq<Value>, last: Outcome)
    requires v.Valid() && v.Is(e) && e.Sub?
    ensures var xs := Reading(e.data, 0).values;
      values == Pick(xs, Front(e.indices, |xs|)) && last == if Matched(e.data, e.indices) then End else Fail
  {
    values, last := CollectReading(v, e);
    SubIsPick(e);
    ghost var xs := Reading(e.data, 0).values;
    ReadingIs(e, Pick(xs, Front(e.indices, |xs|)), if Matched(e.data, e.indices) then End else Fail);
  }
}
