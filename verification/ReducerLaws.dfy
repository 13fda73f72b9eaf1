/** What the all-reduce protocol guarantees in every run: agreement, safe reads, progress, and the fold. */
module ReducerLaws {
  import opened Wrappers
  import B = Barrier
  import opened Reducer
  import opened ReducerInvariant

  lemma {:induction false} RunInv<T>(c: Config<T>, trace: seq<State<T>>, k: nat)
    requires Run(c, trace) && k < |trace|
    ensures Inv(c, trace[k])
    decreases k
  {
    if k == 0 {
      InitInv(c, trace[0]);
    } else {
      RunInv(c, trace, k - 1);
      var i :| Step(c, trace[k - 1], trace[k], i);
      StepInv(c, trace[k - 1], trace[k], i);
    }
  }

  /**
   In every interleaving, whatever thread i got in round q is what thread j got in round q, namely the
   combination of exactly that round's inputs of all threads, in the order in which they took part.
   */
  lemma AllAgree<T>(c: Config<T>, trace: seq<State<T>>, k: nat, i: nat, j: nat, q: nat)
    requires Run(c, trace) && k < |trace| && i < c.n && j < c.n
    ensures var s := trace[k];
      && Sized(c, s)
      && (q < |s.results[i]| ==>
        && q < |s.orders| && Unique(s.orders[q], c.n) && |s.orders[q]| == c.n
        && s.results[i][q] == Total(c, q, s.orders[q])
        && (q < |s.results[j]| ==> s.results[i][q] == s.results[j][q]))
  {
    RunInv(c, trace, k);
    assert ResultInv(c, trace[k], i) && ResultInv(c, trace[k], j);
  }

  /**
   A thread that reads the buffer reads the total of its own round, and no thread can be about to write:
   nobody has the lock, and everybody has taken part in the round.
   */
  lemma ReadsOwnRound<T>(c: Config<T>, s: State<T>, i: nat)
    requires Inv(c, s) && Runs(c, s, i) && s.pcs[i].Reading? && s.pcs[i].j < c.count(RoundOf(s, i))
    ensures s.pcs[i].j < |s.buffer| && RoundOf(s, i) < |s.orders| && |s.orders[RoundOf(s, i)]| == c.n
    ensures s.buffer[s.pcs[i].j] == Total(c, RoundOf(s, i), s.orders[RoundOf(s, i)])[s.pcs[i].j]
    ensures s.lock == None
    ensures forall k | 0 <= k < c.n :: s.pcs[k].Reading? || s.pcs[k] == Finished || s.pcs[k] == Contributed
  {
    RunnerStage(c, s, i);
    BufferIsTotal(c, s);
    forall k | 0 <= k < c.n ensures s.pcs[k].Reading? || s.pcs[k] == Finished || s.pcs[k] == Contributed {
      assert PcInv(s, k);
    }
    assert s.lock.Some? ==> InLock(s.pcs[s.lock.value]);
  }

  // ------------------------------------------------------------------------
  // Progress: no reachable state is stuck. The holder of the lock can always go on, its writes and all
  // reads are within the buffer, and when nobody is at work outside of the barrier, the barrier goes on.

  lemma HolderSteps<T>(c: Config<T>, s: State<T>) returns (s': State<T>)
    requires Inv(c, s) && s.lock.Some?
    ensures Step(c, s, s', s.lock.value)
  {
    var i := s.lock.value;
    assert InLock(s.pcs[i]) && PcInv(s, i);
    RunnerStage(c, s, i);
    if s.pcs[i] == Locked {
      var first := s.left == c.n;
      s' := s.(left := s.left - 1, pcs := s.pcs[i := Filling(first, 0)], order := s.order + [i],
               buffer := if first then Resize(s.buffer, c.count(RoundOf(s, i)), c.zero) else s.buffer);
      assert Count(c, s, s', i);
    } else if s.pcs[i] == Unlocking {
      s' := s.(lock := None, pcs := s.pcs[i := Contributed]);
      assert Unlock(c, s, s', i);
    } else if s.pcs[i].j < c.count(RoundOf(s, i)) {
      var j := s.pcs[i].j;
      var x := c.input(i, RoundOf(s, i))[j];
      s' := s.(pcs := s.pcs[i := s.pcs[i].(j := j + 1)],
               buffer := s.buffer[j := if s.pcs[i].first then x else c.op(s.buffer[j], x)]);
      assert Fill(c, s, s', i);
    } else {
      s' := s.(pcs := s.pcs[i := Unlocking], left := if !s.pcs[i].first && s.left == 0 then c.n else s.left);
      assert Filled(c, s, s', i);
    }
  }

  lemma ReaderSteps<T>(c: Config<T>, s: State<T>, i: nat) returns (s': State<T>)
    requires Inv(c, s) && i < c.n && s.pcs[i].Reading?
    ensures Step(c, s, s', i)
  {
    assert PcInv(s, i) && OutInv(c, s, i);
    RunnerStage(c, s, i);
    BufferIsTotal(c, s);
    var j := s.pcs[i].j;
    if j < c.count(RoundOf(s, i)) {
      s' := s.(pcs := s.pcs[i := Reading(j + 1)], outs := s.outs[i := s.outs[i] + [s.buffer[j]]]);
      assert Read(c, s, s', i);
    } else {
      s' := s.(pcs := s.pcs[i := Finished]);
      assert ReadAll(c, s, s', i);
    }
  }

  ghost function AfterWait<T>(c: Config<T>, s: State<T>, bar: B.State, i: nat): (s': State<T>)
    requires Sized(c, s) && i < c.n && (s.pcs[i] == Contributed || s.pcs[i] == Finished) && B.Step(s.bar, bar, i)
    ensures Wait(c, s, s', i)
  {
    var bumped := bar.generation > s.bar.generation;
    var base := s.(bar := bar,
                   orders := if bumped && s.pcs[i] == Contributed then s.orders + [s.order] else s.orders,
                   order := if bumped && s.pcs[i] == Finished then [] else s.order);
    if |bar.rounds| != c.n || bar.rounds[i] == s.bar.rounds[i] then base
    else if s.pcs[i] == Contributed then base.(pcs := s.pcs[i := Reading(0)], outs := s.outs[i := []])
    else base.(pcs := s.pcs[i := Start], results := s.results[i := s.results[i] + [s.outs[i]]])
  }

  lemma NeverStuck<T>(c: Config<T>, s: State<T>) returns (i: nat, s': State<T>)
    requires Inv(c, s)
    ensures Step(c, s, s', i)
  {
    if s.lock.Some? {
      i := s.lock.value;
      s' := HolderSteps(c, s);
    } else if k :| 0 <= k < c.n && s.pcs[k].Reading? {
      i := k;
      s' := ReaderSteps(c, s, k);
    } else if k :| 0 <= k < c.n && s.pcs[k] == Start {
      i := k;
      assert PcInv(s, k);
      s' := s.(lock := Some(k), pcs := s.pcs[k := Locked]);
      assert Lock(c, s, s', k);
    } else {
      forall k | 0 <= k < c.n ensures s.pcs[k] == Contributed || s.pcs[k] == Finished {
        assert PcInv(s, k) && (s.lock == Some(k) <==> InLock(s.pcs[k]));
      }
      var bar;
      if k :| 0 <= k < c.n && s.bar.phases[k] == B.Outside {
        i := k;
        bar := s.bar.(phases := s.bar.phases[k := B.Entered(s.bar.generation)]);
        assert B.Enter(s.bar, bar, i);
      } else {
        i, bar := B.NoDeadlock(s.bar);
      }
      s' := AfterWait(c, s, bar, i);
    }
  }

  /** Every run can go on, so there are runs of any length. */
  lemma RunGoesOn<T>(c: Config<T>, trace: seq<State<T>>) returns (longer: seq<State<T>>)
    requires Run(c, trace)
    ensures Run(c, longer) && |longer| == |trace| + 1 && longer[..|trace|] == trace
  {
    var last := trace[|trace| - 1];
    RunInv(c, trace, |trace| - 1);
    var i, s' := NeverStuck(c, last);
    longer := trace + [s'];
    assert Next(c, last, s');
    forall k | 0 <= k < |longer| - 1 ensures Next(c, longer[k], longer[k + 1]) {
      assert k < |trace| - 1 ==> Next(c, trace[k], trace[k + 1]);
    }
  }

  // ------------------------------------------------------------------------
  // Associative and commutative operators.

  ghost predicate Commutes<T>(op: (T, T) -> T, x: T, y: T) { op(x, y) == op(y, x) }

  ghost predicate Associates<T>(op: (T, T) -> T, x: T, y: T, z: T) { op(op(x, y), z) == op(x, op(y, z)) }

  ghost predicate AssociativeCommutative<T(!new)>(op: (T, T) -> T) {
    (forall x, y :: Commutes(op, x, y)) && (forall x, y, z :: Associates(op, x, y, z))
  }

  ghost function Without(s: seq<nat>, p: nat): seq<nat>
    requires p < |s|
  {
    s[..p] + s[p + 1..]
  }

  lemma FoldLast<T>(c: Config<T>, r: nat, order: seq<nat>, i: nat, j: nat)
    requires Proper(c) && order != [] && j < c.count(r)
    ensures Fold(c, r, order + [i], j) == c.op(Fold(c, r, order, j), c.input(i, r)[j])
  {
    assert (order + [i])[..|order|] == order;
  }

  lemma WithoutInner(s: seq<nat>, p: nat)
    requires p < |s| - 1
    ensures s[..|s| - 1][p] == s[p] && Without(s, p) == Without(s[..|s| - 1], p) + [s[|s| - 1]]
    ensures |s| == 2 ==> Without(s, p) == [s[1]] && s[..1] == [s[0]]
  {
  }

  lemma {:induction false} MoveToEnd<T(!new)>(c: Config<T>, r: nat, order: seq<nat>, p: nat, j: nat)
    requires Proper(c) && AssociativeCommutative(c.op) && |order| >= 2 && p < |order| && j < c.count(r)
    ensures Fold(c, r, order, j) == c.op(Fold(c, r, Without(order, p), j), c.input(order[p], r)[j])
    decreases |order|
  {
    var last := |order| - 1;
    if p == last {
      assert Without(order, p) == order[..last];
    } else {
      WithoutInner(order, p);
      var x, y := c.input(order[p], r)[j], c.input(order[last], r)[j];
      if last == 1 {
        assert Commutes(c.op, x, y);
      } else {
        MoveToEnd(c, r, order[..last], p, j);
        var before := Without(order[..last], p);
        FoldLast(c, r, before, order[last], j);
        Swap(c.op, Fold(c, r, before, j), x, y);
      }
    }
  }

  lemma Swap<T(!new)>(op: (T, T) -> T, f: T, x: T, y: T)
    requires AssociativeCommutative(op)
    ensures op(op(f, x), y) == op(op(f, y), x)
  {
    assert Associates(op, f, x, y) && Commutes(op, x, y) && Associates(op, f, y, x);
  }

  ghost function Upto(m: nat): (s: seq<nat>)
    ensures |s| == m && forall i | 0 <= i < m :: s[i] == i
  {
    seq(m, i => i)
  }

  lemma WithoutIsUnique(s: seq<nat>, m: nat, p: nat)
    requires Unique(s, m) && m >= 1 && p < |s| && s[p] == m - 1
    ensures Unique(Without(s, p), m - 1)
  {
    var t := Without(s, p);
    assert forall i | 0 <= i < |t| :: t[i] == if i < p then s[i] else s[i + 1];
  }

  lemma PositionOf(order: seq<nat>, m: nat) returns (p: nat)
    requires Unique(order, m) && |order| == m >= 1
    ensures p < |order| && order[p] == m - 1
  {
    UniqueLength(order, m);
    assert m - 1 in order;
    p :| 0 <= p < |order| && order[p] == m - 1;
  }

  lemma {:induction false} FoldOfPermutation<T(!new)>(c: Config<T>, r: nat, order: seq<nat>, m: nat, j: nat)
    requires Proper(c) && AssociativeCommutative(c.op) && Unique(order, m) && |order| == m >= 1 && j < c.count(r)
    ensures Fold(c, r, order, j) == Fold(c, r, Upto(m), j)
    decreases m
  {
    if m == 1 {
      assert order == Upto(1);
    } else {
      var p := PositionOf(order, m);
      MoveToEnd(c, r, order, p, j);
      var rest := Without(order, p);
      WithoutIsUnique(order, m, p);
      FoldOfPermutation(c, r, rest, m - 1, j);
      assert Upto(m)[..m - 1] == Upto(m - 1);
    }
  }

  /** For an associative and commutative operator every result is the fold of the round's inputs in thread order. */
  lemma ResultIsFold<T(!new)>(c: Config<T>, trace: seq<State<T>>, k: nat, i: nat, q: nat)
    requires Run(c, trace) && k < |trace| && i < c.n && AssociativeCommutative(c.op)
    ensures Sized(c, trace[k])
    ensures q < |trace[k].results[i]| ==> trace[k].results[i][q] == Total(c, q, Upto(c.n))
  {
    AllAgree(c, trace, k, i, i, q);
    var s := trace[k];
    if q < |s.results[i]| {
      forall j | 0 <= j < c.count(q) ensures Fold(c, q, s.orders[q], j) == Fold(c, q, Upto(c.n), j) {
        FoldOfPermutation(c, q, s.orders[q], c.n, j);
      }
    }
  }

  // ------------------------------------------------------------------------
  // What the results are for the operators in use: the least and the greatest of the inputs, and their sum.

  lemma TotalOfOne<T>(c: Config<T>, r: nat, i: nat)
    requires Proper(c)
    ensures Total(c, r, [i]) == c.input(i, r)
  {
  }

  ghost predicate Chooses<T>(op: (T, T) -> T, x: T, y: T) { op(x, y) == x || op(x, y) == y }

  ghost predicate Selecting<T(!new)>(op: (T, T) -> T) { forall x, y :: Chooses(op, x, y) }

  ghost predicate Leads<T>(le: (T, T) -> bool, x: T, y: T, z: T) { le(x, y) && le(y, z) ==> le(x, z) }

  ghost predicate Preorder<T(!new)>(le: (T, T) -> bool) {
    (forall x :: le(x, x)) && forall x, y, z :: Leads(le, x, y, z)
  }

  ghost predicate Below<T>(op: (T, T) -> T, le: (T, T) -> bool, x: T, y: T) { le(op(x, y), x) && le(op(x, y), y) }

  /** The operator goes down in the order, as minimum does in <= and maximum in >=. */
  ghost predicate Lower<T(!new)>(op: (T, T) -> T, le: (T, T) -> bool) {
    Preorder(le) && forall x, y :: Below(op, le, x, y)
  }

  lemma {:induction false} FoldSelects<T(!new)>(c: Config<T>, r: nat, order: seq<nat>, j: nat) returns (t: nat)
    requires Proper(c) && Selecting(c.op) && order != [] && j < c.count(r)
    ensures t in order && Fold(c, r, order, j) == c.input(t, r)[j]
  {
    var last := |order| - 1;
    if last == 0 {
      t := order[0];
    } else {
      t := FoldSelects(c, r, order[..last], j);
      assert Chooses(c.op, Fold(c, r, order[..last], j), c.input(order[last], r)[j]);
      if Fold(c, r, order, j) != c.input(t, r)[j] { t := order[last]; }
    }
  }

  lemma {:induction false} FoldBelow<T(!new)>(c: Config<T>, le: (T, T) -> bool, r: nat, order: seq<nat>, j: nat, p: nat)
    requires Proper(c) && Lower(c.op, le) && p < |order| && j < c.count(r)
    ensures le(Fold(c, r, order, j), c.input(order[p], r)[j])
  {
    var last := |order| - 1;
    if last > 0 {
      var before, x := Fold(c, r, order[..last], j), c.input(order[last], r)[j];
      assert Below(c.op, le, before, x);
      if p < last {
        FoldBelow(c, le, r, order[..last], j, p);
        assert Leads(le, c.op(before, x), before, c.input(order[p], r)[j]);
      }
    }
  }

  /** An operator that selects one of its operands, as minimum and maximum do, yields the input of some thread. */
  lemma ResultIsInput<T(!new)>(c: Config<T>, trace: seq<State<T>>, k: nat, i: nat, q: nat, j: nat) returns (t: nat)
    requires Run(c, trace) && k < |trace| && i < c.n && Selecting(c.op) && j < c.count(q)
    requires Sized(c, trace[k]) && q < |trace[k].results[i]|
    ensures t < c.n && |trace[k].results[i][q]| == c.count(q) && trace[k].results[i][q][j] == c.input(t, q)[j]
  {
    AllAgree(c, trace, k, i, i, q);
    t := FoldSelects(c, q, trace[k].orders[q], j);
  }

  /** An operator that goes down in an order yields what is below the inputs of all threads. */
  lemma ResultIsBelow<T(!new)>(c: Config<T>, le: (T, T) -> bool, trace: seq<State<T>>, k: nat, i: nat, q: nat, j: nat,
                               t: nat)
    requires Run(c, trace) && k < |trace| && i < c.n && t < c.n && Lower(c.op, le) && j < c.count(q)
    requires Sized(c, trace[k]) && q < |trace[k].results[i]|
    ensures |trace[k].results[i][q]| == c.count(q) && le(trace[k].results[i][q][j], c.input(t, q)[j])
  {
    AllAgree(c, trace, k, i, i, q);
    var order := trace[k].orders[q];
    UniqueLength(order, c.n);
    assert t in order;
    var p :| 0 <= p < |order| && order[p] == t;
    FoldBelow(c, le, q, order, j, p);
  }

  ghost predicate IsMinimum(op: (real, real) -> real) { forall x, y :: op(x, y) == if x < y then x else y }

  ghost predicate IsMaximum(op: (real, real) -> real) { forall x, y :: op(x, y) == if x > y then x else y }

  ghost predicate IsPlus(op: (real, real) -> real) { forall x, y :: op(x, y) == x + y }

  lemma ExtremesSelect(op: (real, real) -> real)
    requires IsMinimum(op) || IsMaximum(op)
    ensures Selecting(op)
  {
    forall x, y ensures Chooses(op, x, y) {
      var _ := op(x, y);
    }
  }

  /** minimum yields the least and maximum the greatest of the inputs of all threads. */
  lemma ExtremeOfInputs(c: Config<real>, trace: seq<State<real>>, k: nat, i: nat, q: nat, j: nat)
    requires Run(c, trace) && k < |trace| && i < c.n && j < c.count(q)
    requires Sized(c, trace[k]) && q < |trace[k].results[i]|
    ensures |trace[k].results[i][q]| == c.count(q)
    ensures IsMinimum(c.op) ==>
              && (exists t: nat :: t < c.n && trace[k].results[i][q][j] == c.input(t, q)[j])
              && (forall t: nat | t < c.n :: trace[k].results[i][q][j] <= c.input(t, q)[j])
    ensures IsMaximum(c.op) ==>
              && (exists t: nat :: t < c.n && trace[k].results[i][q][j] == c.input(t, q)[j])
              && (forall t: nat | t < c.n :: trace[k].results[i][q][j] >= c.input(t, q)[j])
  {
    AllAgree(c, trace, k, i, i, q);
    if IsMinimum(c.op) {
      var le := (x: real, y: real) => x <= y;
      assert Lower(c.op, le);
      ExtremesSelect(c.op);
      var _ := ResultIsInput(c, trace, k, i, q, j);
      forall t: nat | t < c.n ensures le(trace[k].results[i][q][j], c.input(t, q)[j]) {
        ResultIsBelow(c, le, trace, k, i, q, j, t);
      }
    }
    if IsMaximum(c.op) {
      var ge := (x: real, y: real) => x >= y;
      assert Lower(c.op, ge);
      ExtremesSelect(c.op);
      var _ := ResultIsInput(c, trace, k, i, q, j);
      forall t: nat | t < c.n ensures ge(trace[k].results[i][q][j], c.input(t, q)[j]) {
        ResultIsBelow(c, ge, trace, k, i, q, j, t);
      }
    }
  }

  ghost predicate Adds<T>(op: (T, T) -> T, f: T -> real, x: T, y: T) { f(op(x, y)) == f(x) + f(y) }

  ghost predicate Additive<T(!new)>(op: (T, T) -> T, f: T -> real) { forall x, y :: Adds(op, f, x, y) }

  /** The sum over the first m threads of a quantity of their inputs. */
  ghost function SumOver<T>(c: Config<T>, f: T -> real, r: nat, j: nat, m: nat): real
    requires Proper(c) && j < c.count(r)
  {
    if m == 0 then 0.0 else SumOver(c, f, r, j, m - 1) + f(c.input(m - 1, r)[j])
  }

  lemma {:induction false} FoldAdds<T(!new)>(c: Config<T>, f: T -> real, r: nat, j: nat, m: nat)
    requires Proper(c) && Additive(c.op, f) && j < c.count(r) && m >= 1
    ensures f(Fold(c, r, Upto(m), j)) == SumOver(c, f, r, j, m)
  {
    if m > 1 {
      FoldAdds(c, f, r, j, m - 1);
      assert Upto(m)[..m - 1] == Upto(m - 1);
      assert Adds(c.op, f, Fold(c, r, Upto(m - 1), j), c.input(m - 1, r)[j]);
    }
  }

  /** What the operator adds is the sum over all threads: nobody is left out, and nobody is counted twice. */
  lemma ResultIsSum<T(!new)>(c: Config<T>, f: T -> real, trace: seq<State<T>>, k: nat, i: nat, q: nat, j: nat)
    requires Run(c, trace) && k < |trace| && i < c.n && j < c.count(q)
    requires AssociativeCommutative(c.op) && Additive(c.op, f)
    requires Sized(c, trace[k]) && q < |trace[k].results[i]|
    ensures |trace[k].results[i][q]| == c.count(q)
    ensures f(trace[k].results[i][q][j]) == SumOver(c, f, q, j, c.n)
  {
    ResultIsFold(c, trace, k, i, q);
    FoldAdds(c, f, q, j, c.n);
  }

  lemma SumOfInputs(c: Config<real>, trace: seq<State<real>>, k: nat, i: nat, q: nat, j: nat)
    requires Run(c, trace) && k < |trace| && i < c.n && j < c.count(q) && IsPlus(c.op)
    requires Sized(c, trace[k]) && q < |trace[k].results[i]|
    ensures |trace[k].results[i][q]| == c.count(q) && trace[k].results[i][q][j] == SumOver(c, (x: real) => x, q, j, c.n)
  {
    PlusAdds(c.op);
    ResultIsSum(c, (x: real) => x, trace, k, i, q, j);
  }

  lemma PlusAdds(op: (real, real) -> real)
    requires IsPlus(op)
    ensures AssociativeCommutative(op) && Additive(op, (x: real) => x)
  {
  }
}
