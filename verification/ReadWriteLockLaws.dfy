/** What the lock guarantees in every run: exclusion, true counters, atomic upgrades, progress. */
module ReadWriteLockLaws {
  import opened Wrappers
  import opened ReadWriteLock
  import opened ReadWriteLockInvariant

  /** An active writer excludes readers, weak writers and other writers; a weak writer excludes all but readers. */
  lemma Exclusion(trace: seq<State>, t: nat, i: nat, j: nat)
    requires Run(trace) && t < |trace|
    requires i != j && i < |trace[t].handles| && j < |trace[t].handles|
    ensures Writes(trace[t].handles[i]) ==> !Reads(trace[t].handles[j])
    ensures Excludes(trace[t].handles[i]) ==> !Excludes(trace[t].handles[j])
  {
    RunInv(trace, t);
    ExclusionHolds(trace[t], i, j);
  }

  lemma ExclusionHolds(s: State, i: nat, j: nat)
    requires Inv(s) && i != j && i < |s.handles| && j < |s.handles|
    ensures Writes(s.handles[i]) ==> !Reads(s.handles[j])
    ensures Excludes(s.handles[i]) ==> !Excludes(s.handles[j])
  {
    Seen(s, i);
    Seen(s, j);
    var a, b := if i < j then i else j, if i < j then j else i;
    if Writes(s.handles[a]) && Writes(s.handles[b]) { CountsTwo(s.handles, a, b, Writes); }
    if WritesWeakly(s.handles[a]) && WritesWeakly(s.handles[b]) { CountsTwo(s.handles, a, b, WritesWeakly); }
    assert s.mutex == Some(i) <==> s.handles[i].pc.Inside?;
    assert s.mutex == Some(j) <==> s.handles[j].pc.Inside?;
  }

  ghost predicate Upgrading(h: Handle) {
    h.pc == Waiting(Upgrade) || (h.pc.Inside? && h.pc.request == Upgrade)
  }

  /**
   From the call of upgrade to its return no other thread is, or becomes, a writer of either sort, and once
   the upgrade has seen that there are no readers none gets in.
   */
  lemma UpgradeIsAtomic(trace: seq<State>, t: nat, i: nat, j: nat)
    requires Run(trace) && t < |trace|
    requires i != j && i < |trace[t].handles| && j < |trace[t].handles| && Upgrading(trace[t].handles[i])
    ensures !Excludes(trace[t].handles[j])
    ensures trace[t].handles[i].pc.Inside? && trace[t].handles[i].pc.done >= 1 ==> !Reads(trace[t].handles[j])
  {
    RunInv(trace, t);
    var s := trace[t];
    assert HandleInv(s.handles[i]);
    ExclusionHolds(s, i, j);
    Seen(s, j);
  }

  /** Counters equal the true holders, the assertion in upgrade_weak_write_lock holds, and no release underflows. */
  lemma CountersAreHolders(trace: seq<State>, t: nat, i: nat)
    requires Run(trace) && t < |trace| && i < |trace[t].handles|
    ensures var s := trace[t];
      && s.lock.readers == Count(s.handles, Reads)
      && (Reads(s.handles[i]) ==> s.lock.readers >= 1)
      && (WritesWeakly(s.handles[i]) ==> s.lock.weak)
      && (s.lock.writer <==> exists j: nat :: j < |s.handles| && Writes(s.handles[j]))
      && (s.lock.weak <==> exists j: nat :: j < |s.handles| && WritesWeakly(s.handles[j]))
  {
    RunInv(trace, t);
    var s := trace[t];
    Seen(s, i);
    assert HandleInv(s.handles[i]);
    if s.lock.writer { var j := CountWitness(s.handles, Writes); }
    if s.lock.weak { var j := CountWitness(s.handles, WritesWeakly); }
    if j: nat :| j < |s.handles| && Writes(s.handles[j]) { Seen(s, j); }
    if j: nat :| j < |s.handles| && WritesWeakly(s.handles[j]) { Seen(s, j); }
  }

  /** A waiting counter is the number of waiting threads exactly when no request of that sort has timed out. */
  lemma WaitingCounters(trace: seq<State>, t: nat)
    requires Run(trace) && t < |trace|
    ensures var s := trace[t];
      && (s.lock.waitingWriters == Count(s.handles, WaitsToWrite) <==> s.writerTimeouts == 0)
      && (s.lock.waitingWeak == Count(s.handles, WaitsWeakly) <==> s.weakTimeouts == 0)
      && s.lock.waitingWriters >= Count(s.handles, WaitsToWrite) && s.lock.waitingWeak >= Count(s.handles, WaitsWeakly)
  {
    RunInv(trace, t);
  }

  /** unlock releases exactly what the handle holds, and doing it again, as the destructor does, changes nothing. */
  lemma UnlockReleases(s: State, s': State, s'': State, i: nat)
    requires Inv(s) && Unlock(s, s', i) && Unlock(s', s'', i)
    ensures var h, h' := s.handles[i], s'.handles[i];
      && !Reads(h') && !Writes(h') && !WritesWeakly(h')
      && s'.lock == s.lock.(readers := s.lock.readers - One(Reads(h)),
                            writer := s.lock.writer && !Writes(h),
                            weak := s.lock.weak && !WritesWeakly(h))
    ensures s'' == s'
  {
    assert HandleInv(s.handles[i]);
  }

  // ------------------------------------------------------------------------
  // Who is let in, by what the threads hold.

  ghost predicate Nobody(s: State, p: Handle -> bool) { forall j: nat | j < |s.handles| :: !p(s.handles[j]) }

  /** Readers are kept out by writers, but not by weak writers; a writer is kept out by everybody. */
  ghost predicate Free(s: State, r: Request) {
    match r
    case Read => Nobody(s, Writes)
    case Weak => Nobody(s, Writes) && Nobody(s, WritesWeakly)
    case Upgrade => Nobody(s, Reads) && Nobody(s, Writes)
    case Write => Nobody(s, Reads) && Nobody(s, Writes) && Nobody(s, WritesWeakly)
  }

  lemma VariablesAreHolders(s: State)
    requires Inv(s)
    ensures s.lock.readers == 0 <==> Nobody(s, Reads)
    ensures s.lock.writer <==> !Nobody(s, Writes)
    ensures s.lock.weak <==> !Nobody(s, WritesWeakly)
  {
    NobodyCounted(s.handles, Reads);
    NobodyCounted(s.handles, Writes);
    NobodyCounted(s.handles, WritesWeakly);
  }

  /** At any time in a run the whole guard of a request is true exactly when nobody holds what excludes it. */
  lemma GuardIsFree(trace: seq<State>, t: nat, r: Request)
    requires Run(trace) && t < |trace|
    ensures Guard(trace[t].lock, r) <==> Free(trace[t], r)
  {
    RunInv(trace, t);
    VariablesAreHolders(trace[t]);
    var l := trace[t].lock;
    assert Condition(l, r, 0) && (Checks(r) > 1 ==> Condition(l, r, 1)) && (Checks(r) > 2 ==> Condition(l, r, 2))
      <==> Guard(l, r);
  }

  /** What the k-th condition of a request looks for. */
  ghost predicate Hinders(r: Request, k: nat, h: Handle) {
    match r
    case Read => Writes(h)
    case Weak => if k == 0 then Writes(h) else WritesWeakly(h)
    case Upgrade => if k == 0 then Reads(h) else Writes(h)
    case Write => if k == 0 then Reads(h) else if k == 1 then Writes(h) else WritesWeakly(h)
  }

  /** A check passes exactly when no handle hinders it; otherwise the thread leaves the mutex and waits again. */
  lemma CheckPasses(trace: seq<State>, t: nat, i: nat)
    requires Run(trace) && t + 1 < |trace| && Check(trace[t], trace[t + 1], i)
    ensures var s, s' := trace[t], trace[t + 1];
      var Inside(r, k) := s.handles[i].pc;
      if forall j: nat | j < |s.handles| :: !Hinders(r, k, s.handles[j])
      then s'.handles[i].pc == Inside(r, k + 1) && s'.mutex == Some(i)
      else s'.handles[i].pc == Waiting(r) && s'.mutex == None
  {
    RunInv(trace, t);
    VariablesAreHolders(trace[t]);
  }

  /** So a reader passes exactly when nobody writes, whatever weak writers there are. */
  lemma ReaderPasses(trace: seq<State>, t: nat, i: nat)
    requires Run(trace) && t + 1 < |trace| && Check(trace[t], trace[t + 1], i)
    requires trace[t].handles[i].pc.request == Read
    ensures trace[t + 1].handles[i].pc == Inside(Read, 1) <==> Nobody(trace[t], Writes)
    ensures trace[t + 1].handles[i].pc == Waiting(Read) <==> !Nobody(trace[t], Writes)
  {
    RunInv(trace, t);
    VariablesAreHolders(trace[t]);
  }

  /** A thread that has gone through its guard finds the lock free for its request, although others can unlock. */
  lemma PastGuard(trace: seq<State>, t: nat, i: nat)
    requires Run(trace) && t < |trace| && i < |trace[t].handles| && trace[t].handles[i].pc.Inside?
    requires trace[t].handles[i].pc.done == Checks(trace[t].handles[i].pc.request)
    ensures Free(trace[t], trace[t].handles[i].pc.request)
  {
    RunInv(trace, t);
    VariablesAreHolders(trace[t]);
  }

  /** Only a request that finds the lock taken times out, and the thread then holds nothing. */
  lemma TimeOutOnlyWhenTaken(trace: seq<State>, t: nat, i: nat)
    requires Run(trace) && t + 1 < |trace| && TimeOut(trace[t], trace[t + 1], i)
    ensures !Free(trace[t], trace[t].handles[i].pc.request)
    ensures var h := trace[t + 1].handles[i];
      !Reads(h) && !Writes(h) && !WritesWeakly(h) && !WaitsWeakly(h) && !WaitsToWrite(h)
  {
    RunInv(trace, t);
    VariablesAreHolders(trace[t]);
  }

  /** When a call returns, the handle holds what was asked for and nothing else. */
  lemma Acquired(trace: seq<State>, t: nat, i: nat)
    requires Run(trace) && t + 1 < |trace| && Exit(trace[t], trace[t + 1], i)
    ensures var r, h := trace[t].handles[i].pc.request, trace[t + 1].handles[i];
      && h.pc == Idle && (Reads(h) <==> r == Read)
      && (Writes(h) <==> r == Write || r == Upgrade) && (WritesWeakly(h) <==> r == Weak)
  {
    RunInv(trace, t);
    assert HandleInv(trace[t].handles[i]);
  }

  // ------------------------------------------------------------------------
  // A run of two threads: thread 0 takes the weak write lock, and thread 1 then reads beside it.

  ghost function ReadingBeside(k: nat): State {
    State(Lock(k >= 6, false, if k >= 11 then 1 else 0, if 1 <= k <= 4 then 1 else 0, 0),
          if 2 <= k <= 6 then Some(0) else if 9 <= k <= 11 then Some(1) else None,
          [Handle(WeakWriter, if k == 0 || k >= 7 then Idle else if k == 1 then Waiting(Weak) else Inside(Weak, k - 2),
                  true, k == 0),
           Handle(Reader, if k <= 7 || k >= 12 then Idle else if k == 8 then Waiting(Read) else Inside(Read, k - 9),
                  k <= 7, true)], 0, 0)
  }

  lemma ReadingBesideSteps(k: nat)
    requires k < 12
    ensures Next(ReadingBeside(k), ReadingBeside(k + 1))
  {
    var s, s', i := ReadingBeside(k), ReadingBeside(k + 1), if k < 7 then 0 else 1;
    assert if k == 0 then Ask(s, s', i, WeakWriter) else if k == 7 then Ask(s, s', i, Reader)
           else if k == 1 || k == 8 then Enter(s, s', i)
           else if k == 2 || k == 3 || k == 9 then Check(s, s', i)
           else if k == 4 || k == 5 || k == 10 then Act(s, s', i) else Exit(s, s', i);
    assert Step(s, s', i);
  }

  /** A weak writer and a reader hold the lock together. */
  lemma WeakWriterToleratesReader() returns (trace: seq<State>)
    ensures Run(trace)
    ensures var s := trace[|trace| - 1];
      && |s.handles| == 2 && WritesWeakly(s.handles[0]) && Reads(s.handles[1])
      && s.handles[0].pc == s.handles[1].pc == Idle
  {
    trace := seq(13, k requires 0 <= k < 13 => ReadingBeside(k));
    forall k | 0 <= k < |trace| - 1 ensures Next(trace[k], trace[k + 1]) {
      ReadingBesideSteps(k);
    }
  }

  // ------------------------------------------------------------------------
  // No deadlock.

  /** A thread that is not waiting for anybody: it has the lock, or is past its guard. */
  ghost predicate Unblocked(h: Handle) {
    match h.pc
    case Idle => !h.released || !h.weakReleased
    case Waiting(_) => false
    case Inside(r, k) => k >= Checks(r)
  }

  ghost predicate Blocked(h: Handle) { h.pc.Waiting? || (h.pc.Inside? && h.pc.done < Checks(h.pc.request)) }

  /** When somebody waits, somebody who holds the lock is not waiting, or the lock is free for some waiter. */
  lemma NoDeadlock(trace: seq<State>, t: nat, i: nat) returns (j: nat)
    requires Run(trace) && t < |trace| && i < |trace[t].handles| && Blocked(trace[t].handles[i])
    ensures j < |trace[t].handles|
    ensures Unblocked(trace[t].handles[j]) || (Blocked(trace[t].handles[j])
        && Free(trace[t], trace[t].handles[j].pc.request))
  {
    RunInv(trace, t);
    var s := trace[t];
    if k: nat :| k < |s.handles| && Unblocked(s.handles[k]) {
      j := k;
    } else {
      forall k: nat | k < |s.handles| ensures !Reads(s.handles[k]) && !Writes(s.handles[k]) {
        assert HandleInv(s.handles[k]);
      }
      CountNone(s.handles, Reads);
      CountNone(s.handles, Writes);
      if s.lock.weak {
        j := CountWitness(s.handles, WritesWeakly);
        assert HandleInv(s.handles[j]);
      } else {
        j := i;
      }
      VariablesAreHolders(s);
    }
  }

  /** A thread inside of the mutex whose guard is true goes through the guard: no step of another thread undoes it. */
  lemma GuardsStayTrue(s: State, s': State, i: nat, j: nat)
    requires Inv(s) && Step(s, s', j) && i != j && i < |s.handles|
    requires s.mutex == Some(i) && Guard(s.lock, s.handles[i].pc.request)
    ensures i < |s'.handles| && s'.handles[i] == s.handles[i] && s'.mutex == Some(i)
    ensures Guard(s'.lock, s'.handles[i].pc.request)
  {
    assert !s.handles[j].pc.Inside?;
    assert HandleInv(s.handles[j]);
    Seen(s, j);
    forall k: nat | k < Checks(s.handles[i].pc.request) ensures Condition(s'.lock, s.handles[i].pc.request, k) {
      assert Condition(s.lock, s.handles[i].pc.request, k);
    }
  }

  // ------------------------------------------------------------------------
  // Whoever waits for a lock that is free can take it.

  lemma RunExtends(trace: seq<State>, s': State, i: nat) returns (longer: seq<State>)
    requires Run(trace) && Step(trace[|trace| - 1], s', i)
    ensures Run(longer) && longer == trace + [s']
  {
    longer := trace + [s'];
    assert Next(trace[|trace| - 1], s');
    forall k | 0 <= k < |longer| - 1 ensures Next(longer[k], longer[k + 1]) {
      assert k < |trace| - 1 ==> Next(trace[k], trace[k + 1]);
    }
  }

  ghost predicate Holds(h: Handle, r: Request) {
    h.pc == Idle && if r == Read then Reads(h) else if r == Weak then WritesWeakly(h) else Writes(h)
  }

  /** The thread has done k checks and updates, and the checks that are left will pass. */
  ghost predicate GoesOn(s: State, i: nat, r: Request, k: nat) {
    At(s, i, Inside(r, k)) && k <= Length(r) && (k < Checks(r) ==> Guard(s.lock, r))
  }

  lemma InsideStep(s: State, i: nat, r: Request, k: nat) returns (s': State)
    requires GoesOn(s, i, r, k) && k < Length(r)
    ensures Step(s, s', i) && GoesOn(s', i, r, k + 1)
  {
    var next := With(s, i, s.handles[i].(pc := Inside(r, k + 1)));
    s' := if k < Checks(r) then next else next.(lock := Update(s.lock, r, k));
    assert if k < Checks(r) then Check(s, s', i) else Act(s, s', i);
  }

  /** Such a thread goes on by itself until it holds the lock. */
  lemma {:induction false} InsideGoesOn(trace: seq<State>, i: nat, r: Request, k: nat) returns (longer: seq<State>)
    requires Run(trace) && GoesOn(trace[|trace| - 1], i, r, k)
    ensures Run(longer) && |longer| == |trace| + Length(r) - k + 1 && longer[..|trace|] == trace
    ensures i < |longer[|longer| - 1].handles| && Holds(longer[|longer| - 1].handles[i], r)
    decreases Length(r) - k
  {
    var s := trace[|trace| - 1];
    if k == Length(r) {
      var h := s.handles[i].(pc := Idle);
      var s' := With(s, i, if r == Upgrade then h.(weakReleased := true, released := false) else h).(mutex := None);
      assert Exit(s, s', i);
      longer := RunExtends(trace, s', i);
      Acquired(longer, |trace| - 1, i);
    } else {
      var s' := InsideStep(s, i, r, k);
      longer := RunExtends(trace, s', i);
      longer := InsideGoesOn(longer, i, r, k + 1);
      assert longer[..|trace| + 1][..|trace|] == trace;
    }
  }

  /** A waiting thread that finds the mutex unlocked and the lock free for its request gets it, in a run of its own. */
  lemma FreeIsGranted(trace: seq<State>, i: nat, r: Request) returns (longer: seq<State>)
    requires Run(trace)
    requires At(trace[|trace| - 1], i, Waiting(r)) && trace[|trace| - 1].mutex == None && Free(trace[|trace| - 1], r)
    ensures Run(longer) && |longer| == |trace| + Length(r) + 2 && longer[..|trace|] == trace
    ensures i < |longer[|longer| - 1].handles| && Holds(longer[|longer| - 1].handles[i], r)
  {
    var s := trace[|trace| - 1];
    GuardIsFree(trace, |trace| - 1, r);
    var s' := With(s, i, s.handles[i].(pc := Inside(r, 0))).(mutex := Some(i));
    assert Enter(s, s', i);
    longer := RunExtends(trace, s', i);
    longer := InsideGoesOn(longer, i, r, 0);
    assert longer[..|trace| + 1][..|trace|] == trace;
  }
}
