/** The inductive invariant of the all-reduce protocol, and that every step keeps it. */
module ReducerInvariant {
  import opened Wrappers
  import B = Barrier
  import opened Reducer

  /** Element j of the combination of the inputs of these threads, in this order. */
  ghost function Fold<T>(c: Config<T>, r: nat, order: seq<nat>, j: nat): T
    requires Proper(c) && order != [] && j < c.count(r)
    decreases |order|
  {
    var last := |order| - 1;
    if last == 0 then c.input(order[0], r)[j]
    else c.op(Fold(c, r, order[..last], j), c.input(order[last], r)[j])
  }

  ghost function Total<T>(c: Config<T>, r: nat, order: seq<nat>): (t: seq<T>)
    requires Proper(c) && order != []
    ensures |t| == c.count(r) && forall j | 0 <= j < |t| :: t[j] == Fold(c, r, order, j)
  {
    seq(c.count(r), j requires 0 <= j < c.count(r) => Fold(c, r, order, j))
  }

  ghost predicate Unique(s: seq<nat>, n: nat) {
    && (forall i | 0 <= i < |s| :: s[i] < n)
    && (forall i, j | 0 <= i < j < |s| :: s[i] != s[j])
  }

  ghost predicate InLock(p: Pc) { p == Locked || p.Filling? || p == Unlocking }

  ghost predicate TookPart(p: Pc) { p.Filling? || p == Unlocking || p == Contributed }

  ghost predicate Even<T>(s: State<T>) { s.bar.generation % 2 == 0 }

  ghost function Round<T>(s: State<T>): nat { s.bar.generation / 2 }

  /** A thread that still spins in the wait that is already over. */
  ghost predicate Late<T>(s: State<T>, i: nat)
    requires i < |s.bar.rounds|
  {
    s.bar.rounds[i] != s.bar.generation
  }

  ghost predicate PcInv<T>(s: State<T>, i: nat)
    requires i < |s.bar.rounds| && i < |s.bar.phases| && i < |s.pcs|
  {
    var p := s.pcs[i];
    if Late(s, i) then p == (if Even(s) then Finished else Contributed)
    else if Even(s) then (p == Start || p == Locked || TookPart(p))
        && (s.bar.phases[i] != B.Outside ==> p == Contributed)
    else (p.Reading? || p == Finished) && (s.bar.phases[i] != B.Outside ==> p == Finished)
  }

  /** What a thread has copied out is the total of its round. */
  ghost predicate OutInv<T>(c: Config<T>, s: State<T>, i: nat)
    requires Proper(c) && i < |s.bar.rounds| && i < |s.pcs| && i < |s.outs| && OrdersInv(c, s)
  {
    && (s.pcs[i].Reading? ==>
          && s.pcs[i].j <= c.count(Round(s)) && s.pcs[i].j <= |s.buffer|
          && s.outs[i] == s.buffer[..s.pcs[i].j])
    && (s.pcs[i] == Finished ==>
          RoundOf(s, i) < |s.orders| && s.outs[i] == Total(c, RoundOf(s, i), s.orders[RoundOf(s, i)]))
  }

  ghost predicate ResultInv<T>(c: Config<T>, s: State<T>, i: nat)
    requires Proper(c) && i < |s.bar.rounds| && i < |s.results| && OrdersInv(c, s)
  {
    && |s.results[i]| == RoundOf(s, i) <= |s.orders|
    && forall q | 0 <= q < |s.results[i]| :: s.results[i][q] == Total(c, q, s.orders[q])
  }

  /** Every complete round was a round of all threads. */
  ghost predicate OrdersInv<T>(c: Config<T>, s: State<T>) {
    && |s.orders| == Round(s) + (if Even(s) then 0 else 1)
    && (forall q | 0 <= q < |s.orders| :: Unique(s.orders[q], c.n) && |s.orders[q]| == c.n > 0)
  }

  ghost predicate OrderInv<T>(c: Config<T>, s: State<T>)
    requires Sized(c, s)
  {
    && Unique(s.order, c.n)
    && (Even(s) ==> forall i | 0 <= i < c.n :: i in s.order <==> TookPart(s.pcs[i]) && !Late(s, i))
    && (!Even(s) ==> |s.orders| == Round(s) + 1 && s.order == s.orders[Round(s)] && |s.order| == c.n)
  }

  ghost predicate LockInv<T>(c: Config<T>, s: State<T>)
    requires Sized(c, s)
  {
    && (s.lock.Some? ==> s.lock.value < c.n)
    && forall i | 0 <= i < c.n :: s.lock == Some(i) <==> InLock(s.pcs[i])
  }

  ghost predicate IsFilling<T>(s: State<T>) {
    s.lock.Some? && s.lock.value < |s.pcs| && s.pcs[s.lock.value].Filling?
  }

  ghost predicate LeftInv<T>(c: Config<T>, s: State<T>) {
    s.left == if Even(s) && (|s.order| < c.n || IsFilling(s)) then c.n - |s.order| else c.n
  }

  /** The buffer holds the combination of the inputs so far; the filling thread is half way through. */
  ghost predicate BufferInv<T>(c: Config<T>, s: State<T>)
    requires Proper(c)
  {
    var r, last := Round(s), |s.order| - 1;
    && (IsFilling(s) ==>
      var i, p := s.lock.value, s.pcs[s.lock.value];
      && s.order != [] && s.order[last] == i && (p.first <==> last == 0) && p.j <= c.count(r) <= |s.buffer|
      && (forall j | 0 <= j < p.j :: s.buffer[j] == Fold(c, r, s.order, j))
      && (last > 0 ==> forall j | p.j <= j < c.count(r) :: s.buffer[j] == Fold(c, r, s.order[..last], j)))
    && (!IsFilling(s) && s.order != [] ==>
      && c.count(r) <= |s.buffer|
      && (forall j | 0 <= j < c.count(r) :: s.buffer[j] == Fold(c, r, s.order, j)))
  }

  ghost predicate Inv<T>(c: Config<T>, s: State<T>) {
    && Proper(c) && Sized(c, s) && B.Inv(s.bar) && OrdersInv(c, s)
    && (forall i | 0 <= i < c.n :: PcInv(s, i))
    && (forall i | 0 <= i < c.n :: OutInv(c, s, i))
    && (forall i | 0 <= i < c.n :: ResultInv(c, s, i))
    && OrderInv(c, s) && LockInv(c, s) && LeftInv(c, s) && BufferInv(c, s)
  }

  lemma {:induction false} InitInv<T>(c: Config<T>, s: State<T>)
    requires Proper(c) && Init(c, s)
    ensures Inv(c, s)
  {
    B.InitInv(s.bar, c.n);
  }

  // ------------------------------------------------------------------------
  // Steps before the first barrier: the generation is even, and only the buffer, the counter, the lock
  // and the place of one thread change.

  ghost predicate FillingStage(p: Pc) { p == Start || p == Locked || TookPart(p) }

  lemma RunnerStage<T>(c: Config<T>, s: State<T>, i: nat)
    requires Inv(c, s) && Runs(c, s, i)
    ensures !Late(s, i) && RoundOf(s, i) == Round(s)
    ensures FillingStage(s.pcs[i]) <==> Even(s)
  {
    assert B.ThreadInv(s.bar, i) && PcInv(s, i);
  }

  lemma FillingFrame<T>(c: Config<T>, s: State<T>, s': State<T>, i: nat)
    requires Inv(c, s) && Runs(c, s, i) && FillingStage(s.pcs[i])
    requires s'.bar == s.bar && s'.outs == s.outs && s'.results == s.results && s'.orders == s.orders
    requires i < |s'.pcs| && s'.pcs == s.pcs[i := s'.pcs[i]] && FillingStage(s'.pcs[i])
    ensures Sized(c, s') && OrdersInv(c, s')
    ensures forall k | 0 <= k < c.n :: PcInv(s', k) && OutInv(c, s', k) && ResultInv(c, s', k)
  {
    RunnerStage(c, s, i);
    forall k | 0 <= k < c.n ensures PcInv(s', k) && OutInv(c, s', k) && ResultInv(c, s', k) {
      assert PcInv(s, k) && OutInv(c, s, k) && ResultInv(c, s, k);
    }
  }

  lemma LockStep<T>(c: Config<T>, s: State<T>, s': State<T>, i: nat)
    requires Inv(c, s) && (Lock(c, s, s', i) || Unlock(c, s, s', i))
    ensures Inv(c, s')
  {
    RunnerStage(c, s, i);
    FillingFrame(c, s, s', i);
    assert s.lock == Some(i) <==> InLock(s.pcs[i]);
    assert !IsFilling(s) && !IsFilling(s');
  }

  lemma {:induction false} ElementsOf<X>(s: seq<X>) returns (e: set<X>)
    requires forall i, j | 0 <= i < j < |s| :: s[i] != s[j]
    ensures |e| == |s|
    ensures forall x :: x in e <==> x in s
    decreases |s|
  {
    if s == [] {
      e := {};
    } else {
      e := ElementsOf(s[1..]);
      assert s[0] !in s[1..];
      e := e + {s[0]};
      assert s == [s[0]] + s[1..];
    }
  }

  /** Distinct thread numbers are at most n, and n of them are all. */
  lemma {:induction false} UniqueLength(s: seq<nat>, n: nat)
    requires Unique(s, n)
    ensures |s| <= n
    ensures |s| == n ==> forall i: nat | i < n :: i in s
    ensures (forall i: nat | i < n :: i in s) ==> |s| == n
  {
    var e := ElementsOf(s);
    B.SubsetCount(e, B.Ids(n));
    if |s| == n {
      forall i: nat | i < n ensures i in s {
        assert i in B.Ids(n);
      }
    }
    if forall i: nat | i < n :: i in s {
      B.SubsetCount(B.Ids(n), e);
    }
  }

  lemma CountStep<T>(c: Config<T>, s: State<T>, s': State<T>, i: nat)
    requires Inv(c, s) && Count(c, s, s', i)
    ensures Inv(c, s')
  {
    RunnerStage(c, s, i);
    FillingFrame(c, s, s', i);
    CountOrder(c, s, s', i);
    CountBuffer(c, s, s', i);
  }

  lemma CountOrder<T>(c: Config<T>, s: State<T>, s': State<T>, i: nat)
    requires Inv(c, s) && Count(c, s, s', i) && Sized(c, s')
    ensures OrderInv(c, s') && LockInv(c, s') && LeftInv(c, s')
  {
    RunnerStage(c, s, i);
    assert s.lock == Some(i) <==> InLock(s.pcs[i]);
    assert i !in s.order;
    assert Unique(s'.order, c.n);
    UniqueLength(s'.order, c.n);
    assert !IsFilling(s) && IsFilling(s');
  }

  /** The thread begins where the buffer stands: with its own vector, or with the combination so far. */
  lemma CountBuffer<T>(c: Config<T>, s: State<T>, s': State<T>, i: nat)
    requires Inv(c, s) && Count(c, s, s', i)
    ensures BufferInv(c, s')
  {
    RunnerStage(c, s, i);
    assert s.lock == Some(i) <==> InLock(s.pcs[i]);
    assert !IsFilling(s) && IsFilling(s');
    assert i !in s.order && Unique(s'.order, c.n);
    UniqueLength(s'.order, c.n);
    assert s'.order[..|s'.order| - 1] == s.order;
  }

  lemma FillStep<T>(c: Config<T>, s: State<T>, s': State<T>, i: nat)
    requires Inv(c, s) && Fill(c, s, s', i)
    ensures Inv(c, s')
  {
    RunnerStage(c, s, i);
    FillingFrame(c, s, s', i);
    assert s.lock == Some(i) <==> InLock(s.pcs[i]);
    assert IsFilling(s) && IsFilling(s');
    var j, last := s.pcs[i].j, |s.order| - 1;
    assert s'.buffer[j] == Fold(c, Round(s), s.order, j);
  }

  lemma FilledStep<T>(c: Config<T>, s: State<T>, s': State<T>, i: nat)
    requires Inv(c, s) && Filled(c, s, s', i)
    ensures Inv(c, s')
  {
    RunnerStage(c, s, i);
    FillingFrame(c, s, s', i);
    assert s.lock == Some(i) <==> InLock(s.pcs[i]);
    assert IsFilling(s) && !IsFilling(s');
    UniqueLength(s.order, c.n);
  }

  // ------------------------------------------------------------------------
  // Steps after the first barrier.

  ghost predicate ReadingStage(p: Pc) { p.Reading? || p == Finished }

  lemma ReadingFrame<T>(c: Config<T>, s: State<T>, s': State<T>, i: nat)
    requires Inv(c, s) && Runs(c, s, i) && ReadingStage(s.pcs[i]) && |s.outs| == |s'.outs|
    requires s' == s.(pcs := s'.pcs, outs := s'.outs)
    requires i < |s'.pcs| && s'.pcs == s.pcs[i := s'.pcs[i]] && ReadingStage(s'.pcs[i])
    requires s'.outs == s.outs[i := s'.outs[i]] && OrdersInv(c, s') && OutInv(c, s', i)
    ensures Inv(c, s')
  {
    RunnerStage(c, s, i);
    assert s.lock == Some(i) <==> InLock(s.pcs[i]);
    assert IsFilling(s) <==> IsFilling(s');
    forall k | 0 <= k < c.n ensures PcInv(s', k) && OutInv(c, s', k) && ResultInv(c, s', k) {
      assert PcInv(s, k) && OutInv(c, s, k) && ResultInv(c, s, k);
    }
  }

  /** While one thread reads, the buffer holds the total of the round. */
  lemma BufferIsTotal<T>(c: Config<T>, s: State<T>)
    requires Inv(c, s) && !Even(s)
    ensures Round(s) < |s.orders| && c.count(Round(s)) <= |s.buffer|
    ensures s.buffer[..c.count(Round(s))] == Total(c, Round(s), s.orders[Round(s)])
  {
    forall k | 0 <= k < c.n ensures !s.pcs[k].Filling? {
      assert PcInv(s, k);
    }
    assert s.order != [];
  }

  lemma ReadStep<T>(c: Config<T>, s: State<T>, s': State<T>, i: nat)
    requires Inv(c, s) && (Read(c, s, s', i) || ReadAll(c, s, s', i))
    ensures Inv(c, s')
  {
    RunnerStage(c, s, i);
    BufferIsTotal(c, s);
    assert OutInv(c, s, i);
    assert OrdersInv(c, s');
    ReadingFrame(c, s, s', i);
  }

  // ------------------------------------------------------------------------
  // Steps inside of the barriers.

  /** What is known of the buffer and the counter depends on nothing that changes inside of the barriers. */
  lemma SharedFrame<T>(c: Config<T>, s: State<T>, s': State<T>)
    requires Inv(c, s) && s'.bar.generation == s.bar.generation && s'.lock == s.lock
    requires s'.order == s.order && s'.left == s.left && s'.buffer == s.buffer
    requires IsFilling(s) <==> IsFilling(s')
    requires IsFilling(s) ==> s'.pcs[s.lock.value] == s.pcs[s.lock.value]
    ensures LeftInv(c, s') && BufferInv(c, s')
  {
  }

  lemma InsideStep<T>(c: Config<T>, s: State<T>, s': State<T>, i: nat)
    requires Inv(c, s) && Wait(c, s, s', i)
    requires B.Enter(s.bar, s'.bar, i) || B.Arrive(s.bar, s'.bar, i) || B.Reset(s.bar, s'.bar, i)
    ensures Inv(c, s')
  {
    B.StepInv(s.bar, s'.bar, i);
    assert B.ThreadInv(s.bar, i);
    SharedFrame(c, s, s');
    forall k | 0 <= k < c.n ensures PcInv(s', k) && OutInv(c, s', k) && ResultInv(c, s', k) {
      assert PcInv(s, k) && OutInv(c, s, k) && ResultInv(c, s, k);
    }
  }

  lemma LeaveStepFirst<T>(c: Config<T>, s: State<T>, s': State<T>, i: nat)
    requires Inv(c, s) && Wait(c, s, s', i) && B.Leave(s.bar, s'.bar, i) && !Even(s)
    ensures Inv(c, s')
  {
    B.StepInv(s.bar, s'.bar, i);
    assert B.ThreadInv(s.bar, i) && PcInv(s, i) && ResultInv(c, s, i);
    LeaveFrame(c, s, s', i);
    BufferIsTotal(c, s);
  }

  lemma LeaveStepSecond<T>(c: Config<T>, s: State<T>, s': State<T>, i: nat)
    requires Inv(c, s) && Wait(c, s, s', i) && B.Leave(s.bar, s'.bar, i) && Even(s)
    ensures Inv(c, s')
  {
    B.StepInv(s.bar, s'.bar, i);
    assert B.ThreadInv(s.bar, i) && PcInv(s, i) && ResultInv(c, s, i) && OutInv(c, s, i);
    LeaveFrame(c, s, s', i);
  }

  lemma LeaveFrame<T>(c: Config<T>, s: State<T>, s': State<T>, i: nat)
    requires Inv(c, s) && Wait(c, s, s', i) && B.Leave(s.bar, s'.bar, i)
    ensures Sized(c, s') && OrdersInv(c, s') && LockInv(c, s') && LeftInv(c, s') && BufferInv(c, s')
    ensures forall k | 0 <= k < c.n && k != i :: PcInv(s', k) && OutInv(c, s', k) && ResultInv(c, s', k)
  {
    assert B.ThreadInv(s.bar, i);
    assert OrdersInv(c, s');
    forall k | 0 <= k < c.n && k != i ensures PcInv(s', k) && OutInv(c, s', k) && ResultInv(c, s', k) {
      assert PcInv(s, k) && OutInv(c, s, k) && ResultInv(c, s, k);
    }
    assert s.lock == Some(i) <==> InLock(s.pcs[i]);
    SharedFrame(c, s, s');
  }

  /** When the last thread bumps the generation, all threads have done the work of this half of the round. */
  lemma AllThere<T>(c: Config<T>, s: State<T>, s': State<T>, i: nat)
    requires Inv(c, s) && Wait(c, s, s', i) && B.Bump(s.bar, s'.bar, i)
    ensures forall k | 0 <= k < c.n :: !Late(s, k) && s.pcs[k] == (if Even(s) then Contributed else Finished)
    ensures forall k | 0 <= k < c.n && k != i :: s.bar.phases[k] != B.Outside
    ensures !IsFilling(s) && |s.order| == c.n && s.left == c.n
  {
    assert B.LastInv(s.bar, i) && B.ThreadInv(s.bar, i);
    forall k | 0 <= k < c.n
      ensures !Late(s, k) && s.bar.phases[k] != B.Outside && s.pcs[k] == (if Even(s) then Contributed else Finished)
    {
      assert B.ThreadInv(s.bar, k) && PcInv(s, k);
    }
    UniqueLength(s.order, c.n);
  }

  lemma BumpFirst<T>(c: Config<T>, s: State<T>, s': State<T>, i: nat)
    requires Inv(c, s) && Wait(c, s, s', i) && B.Bump(s.bar, s'.bar, i) && Even(s)
    ensures Inv(c, s')
  {
    B.StepInv(s.bar, s'.bar, i);
    AllThere(c, s, s', i);
    assert Round(s') == Round(s) && !Even(s');
    assert OrdersInv(c, s');
    forall k | 0 <= k < c.n ensures PcInv(s', k) && OutInv(c, s', k) && ResultInv(c, s', k) {
      assert PcInv(s, k) && OutInv(c, s, k) && ResultInv(c, s, k);
    }
    assert !IsFilling(s');
  }

  lemma BumpSecond<T>(c: Config<T>, s: State<T>, s': State<T>, i: nat)
    requires Inv(c, s) && Wait(c, s, s', i) && B.Bump(s.bar, s'.bar, i) && !Even(s)
    ensures Inv(c, s')
  {
    B.StepInv(s.bar, s'.bar, i);
    AllThere(c, s, s', i);
    assert Round(s') == Round(s) + 1 && Even(s');
    assert OrdersInv(c, s');
    forall k | 0 <= k < c.n ensures PcInv(s', k) && OutInv(c, s', k) && ResultInv(c, s', k) {
      assert PcInv(s, k) && OutInv(c, s, k) && ResultInv(c, s, k);
    }
    assert !IsFilling(s');
  }

  lemma StepInv<T>(c: Config<T>, s: State<T>, s': State<T>, i: nat)
    requires Inv(c, s) && Step(c, s, s', i)
    ensures Inv(c, s')
  {
    if Lock(c, s, s', i) || Unlock(c, s, s', i) {
      LockStep(c, s, s', i);
    } else if Count(c, s, s', i) {
      CountStep(c, s, s', i);
    } else if Fill(c, s, s', i) {
      FillStep(c, s, s', i);
    } else if Filled(c, s, s', i) {
      FilledStep(c, s, s', i);
    } else if Read(c, s, s', i) || ReadAll(c, s, s', i) {
      ReadStep(c, s, s', i);
    } else if B.Leave(s.bar, s'.bar, i) {
      if Even(s) {
        LeaveStepSecond(c, s, s', i);
      } else {
        LeaveStepFirst(c, s, s', i);
      }
    } else if B.Bump(s.bar, s'.bar, i) {
      if Even(s) {
        BumpFirst(c, s, s', i);
      } else {
        BumpSecond(c, s, s', i);
      }
    } else {
      InsideStep(c, s, s', i);
    }
  }
}
