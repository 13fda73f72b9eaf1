/**
 What a timeout does to the lock: a request that has timed out stays counted as waiting. When a writer is
 released, the waiters to notify are chosen by these counters, and from then on it is never the readers.
 */
module ReadWriteLockTimeouts {
  import opened Wrappers
  import opened ReadWriteLock
  import opened ReadWriteLockInvariant

  datatype Audience = Writers | WeakWriters | Readers

  /**
   Whom write_unlock and weak_write_unlock notify. The flag is cleared first; then one counter is read, and
   then the other one, each possibly much later: `first` and `second` are the lock at these two times.
   */
  ghost function Notified(first: Lock, second: Lock): Audience {
    if first.waitingWriters > 0 then Writers else if second.waitingWeak > 0 then WeakWriters else Readers
  }

  lemma {:induction false} TimeoutsStay(trace: seq<State>, t: nat, u: nat)
    requires Run(trace) && t <= u < |trace|
    ensures trace[t].writerTimeouts <= trace[u].writerTimeouts && trace[t].weakTimeouts <= trace[u].weakTimeouts
    decreases u
  {
    if t < u {
      TimeoutsStay(trace, t, u - 1);
      var i :| Step(trace[u - 1], trace[u], i);
    }
  }

  /**
   The thread that gives up a write lock in step t reads the first counter in state u and the second one in
   state w. It notifies the readers exactly when nobody waits to write then, and no such wait has ever timed
   out: after one timeout the readers are never notified again, whoever waits.
   */
  lemma ReadersNotified(trace: seq<State>, t: nat, i: nat, u: nat, w: nat)
    requires Run(trace) && t < u <= w < |trace| && Unlock(trace[t], trace[t + 1], i)
    requires Writes(trace[t].handles[i]) || WritesWeakly(trace[t].handles[i])
    ensures trace[t].writerTimeouts + trace[t].weakTimeouts > 0 ==> Notified(trace[u].lock, trace[w].lock) != Readers
    ensures Notified(trace[u].lock, trace[w].lock) == Readers <==>
            && trace[u].writerTimeouts == 0 && trace[w].weakTimeouts == 0
            && (forall j: nat | j < |trace[u].handles| :: !WaitsToWrite(trace[u].handles[j]))
            && (forall j: nat | j < |trace[w].handles| :: !WaitsWeakly(trace[w].handles[j]))
  {
    TimeoutsStay(trace, t, u);
    TimeoutsStay(trace, t, w);
    RunInv(trace, u);
    RunInv(trace, w);
    NobodyCounted(trace[u].handles, WaitsToWrite);
    NobodyCounted(trace[w].handles, WaitsWeakly);
  }

  /** Writers are notified when one waits or has timed out, and else weak writers when one of them does or has. */
  lemma WritersNotified(trace: seq<State>, u: nat, w: nat)
    requires Run(trace) && u <= w < |trace|
    ensures Notified(trace[u].lock, trace[w].lock) == Writers <==>
            || trace[u].writerTimeouts > 0
            || (exists j: nat :: j < |trace[u].handles| && WaitsToWrite(trace[u].handles[j]))
    ensures Notified(trace[u].lock, trace[w].lock) == WeakWriters <==>
            && trace[u].writerTimeouts == 0
            && (forall j: nat | j < |trace[u].handles| :: !WaitsToWrite(trace[u].handles[j]))
            && (|| trace[w].weakTimeouts > 0
                || (exists j: nat :: j < |trace[w].handles| && WaitsWeakly(trace[w].handles[j])))
  {
    RunInv(trace, u);
    RunInv(trace, w);
    NobodyCounted(trace[u].handles, WaitsToWrite);
    NobodyCounted(trace[w].handles, WaitsWeakly);
  }

  // ------------------------------------------------------------------------
  // A run of two threads. Thread 0 takes the write lock; the requests of thread 1 for the weak and for the
  // strong write lock time out; then thread 1 waits to read, and thread 0 gives the lock up.

  ghost function Holding(k: nat): State {
    State(Lock(false, k >= 7, 0, 0, if 1 <= k <= 5 then 1 else 0), if 2 <= k <= 7 then Some(0) else None,
          [Handle(Writer, if k == 0 || k >= 8 then Idle else if k == 1 then Waiting(Write) else Inside(Write, k - 2),
                  k == 0, true),
           Handle(Writer, Idle, true, true)], 0, 0)
  }

  ghost function Beside(h: Handle, writer: bool, mutex: bool, weak: nat, strong: nat, over: nat): State {
    State(Lock(false, writer, 0, weak, strong), if mutex then Some(1) else None,
          [Handle(Writer, Idle, !writer, true), h], if over >= 1 then 1 else 0, if over >= 2 then 1 else 0)
  }

  ghost function TimingOut(k: nat): State {
    if k == 0 then Holding(8)
    else if k == 1 then Beside(Handle(WeakWriter, Waiting(Weak), true, false), true, false, 1, 0, 0)
    else if k == 2 then Beside(Handle(WeakWriter, Inside(Weak, 0), true, false), true, true, 1, 0, 0)
    else if k == 3 then Beside(Handle(WeakWriter, Idle, true, true), true, false, 1, 0, 1)
    else if k == 4 then Beside(Handle(Writer, Waiting(Write), false, true), true, false, 1, 1, 1)
    else if k == 5 then Beside(Handle(Writer, Inside(Write, 0), false, true), true, true, 1, 1, 1)
    else if k == 6 then Beside(Handle(Writer, Inside(Write, 1), false, true), true, true, 1, 1, 1)
    else Beside(Handle(Writer, Idle, true, true), true, false, 1, 1, 2)
  }

  ghost function GivingUp(k: nat): State {
    if k == 0 then TimingOut(7)
    else
      Beside(Handle(Reader, if k == 2 then Inside(Read, 0) else Waiting(Read), false, true), k <= 3, k == 2, 1, 1, 2)
  }

  lemma HoldingSteps(k: nat)
    requires k < 8
    ensures Next(Holding(k), Holding(k + 1))
  {
    var s, s' := Holding(k), Holding(k + 1);
    assert if k == 0 then Ask(s, s', 0, Writer) else if k == 1 then Enter(s, s', 0)
           else if k <= 4 then Check(s, s', 0) else if k <= 6 then Act(s, s', 0) else Exit(s, s', 0);
    assert Step(s, s', 0);
  }

  lemma TimingOutSteps(k: nat)
    requires k < 7
    ensures Next(TimingOut(k), TimingOut(k + 1))
  {
    var s, s' := TimingOut(k), TimingOut(k + 1);
    assert if k == 0 then Ask(s, s', 1, WeakWriter) else if k == 3 then Ask(s, s', 1, Writer)
           else if k == 1 || k == 4 then Enter(s, s', 1)
           else if k == 5 then Check(s, s', 1) else TimeOut(s, s', 1);
    assert Step(s, s', 1);
  }

  lemma GivingUpSteps(k: nat)
    requires k < 4
    ensures Next(GivingUp(k), GivingUp(k + 1))
  {
    var s, s' := GivingUp(k), GivingUp(k + 1);
    if k < 3 {
      assert if k == 0 then Ask(s, s', 1, Reader) else if k == 1 then Enter(s, s', 1) else Check(s, s', 1);
      assert Step(s, s', 1);
    } else {
      assert Unlock(s, s', 0);
      assert Step(s, s', 0);
    }
  }

  ghost function AfterTimeouts(): (trace: seq<State>)
    ensures |trace| == 20 && trace[15] == TimingOut(7) && trace[18] == GivingUp(3) && trace[19] == GivingUp(4)
  {
    seq(20, k requires 0 <= k < 20 =>
      if k <= 8 then Holding(k) else if k <= 15 then TimingOut(k - 8) else GivingUp(k - 15))
  }

  lemma AfterTimeoutsRuns()
    ensures Run(AfterTimeouts())
  {
    var trace := AfterTimeouts();
    forall k | 0 <= k < |trace| - 1 ensures Next(trace[k], trace[k + 1]) {
      if k < 8 {
        HoldingSteps(k);
      } else if k < 15 {
        TimingOutSteps(k - 8);
      } else {
        GivingUpSteps(k - 15);
      }
    }
  }

  /** Both waiting counters are 1 although nobody waits. */
  lemma TimeoutsStayCounted()
    ensures var s := AfterTimeouts()[15];
      && Run(AfterTimeouts()) && (forall i: nat | i < |s.handles| :: s.handles[i].pc == Idle)
      && s.lock.waitingWriters == 1 && Count(s.handles, WaitsToWrite) == 0
      && s.lock.waitingWeak == 1 && Count(s.handles, WaitsWeakly) == 0
  {
    AfterTimeoutsRuns();
    NobodyCounted(AfterTimeouts()[15].handles, WaitsToWrite);
    NobodyCounted(AfterTimeouts()[15].handles, WaitsWeakly);
  }

  /** The writer is gone and the only waiter is a reader whose guard is true, but writers are notified. */
  lemma ReaderNotNotified()
    ensures Run(AfterTimeouts()) && Unlock(AfterTimeouts()[18], AfterTimeouts()[19], 0)
    ensures Writes(AfterTimeouts()[18].handles[0])
    ensures var s := AfterTimeouts()[19];
      && s.handles[1].pc == Waiting(Read) && Guard(s.lock, Read)
      && (forall i: nat | i < |s.handles| :: !WaitsToWrite(s.handles[i]) && !WaitsWeakly(s.handles[i]))
      && Notified(s.lock, s.lock) == Writers
  {
    AfterTimeoutsRuns();
  }
}
