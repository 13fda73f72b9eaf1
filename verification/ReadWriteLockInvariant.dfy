/** The inductive invariant of the lock and its handles, and that every step keeps it. */
module ReadWriteLockInvariant {
  import opened Wrappers
  import opened ReadWriteLock

  /** The flags agree with the kind of handle and the call it is in. */
  ghost predicate HandleInv(h: Handle) {
    match h.pc
    case Idle => (h.kind != WeakWriter ==> h.weakReleased) && (h.released || h.weakReleased)
    case Waiting(r) => FlagsInv(h, r)
    case Inside(r, k) => FlagsInv(h, r) && k <= Length(r)
  }

  ghost predicate FlagsInv(h: Handle, r: Request) {
    match r
    case Read => h.kind == Reader && !h.released && h.weakReleased
    case Write => h.kind == Writer && !h.released && h.weakReleased
    case _ => h.kind == WeakWriter && h.released && !h.weakReleased
  }

  /** What the thread inside of the mutex has checked stays true: others can only release. */
  ghost predicate InsideInv(l: Lock, r: Request, k: nat) {
    match r
    case Read => k >= 1 ==> !l.writer
    case Weak => (k >= 1 ==> !l.writer) && (2 <= k <= 3 ==> !l.weak)
    case Upgrade => (k >= 1 ==> l.readers == 0) && (2 <= k <= 4 ==> !l.writer) && (k >= 4 ==> !l.weak)
    case Write => (k >= 1 ==> l.readers == 0) && (2 <= k <= 4 ==> !l.writer) && (k >= 3 ==> !l.weak)
  }

  ghost predicate CountInv(s: State) {
    && s.lock.readers == Count(s.handles, Reads)
    && One(s.lock.writer) == Count(s.handles, Writes)
    && One(s.lock.weak) == Count(s.handles, WritesWeakly)
    && s.lock.waitingWeak == Count(s.handles, WaitsWeakly) + s.weakTimeouts
    && s.lock.waitingWriters == Count(s.handles, WaitsToWrite) + s.writerTimeouts
  }

  ghost predicate MutexInv(s: State) {
    && (s.mutex.Some? ==> s.mutex.value < |s.handles|)
    && forall i: nat | i < |s.handles| :: s.mutex == Some(i) <==> s.handles[i].pc.Inside?
  }

  ghost predicate Inv(s: State) {
    && (forall i: nat | i < |s.handles| :: HandleInv(s.handles[i]))
    && MutexInv(s) && CountInv(s)
    && (s.lock.writer ==> s.lock.readers == 0 && !s.lock.weak)
    && (forall i: nat | i < |s.handles| && s.handles[i].pc.Inside? ::
          InsideInv(s.lock, s.handles[i].pc.request, s.handles[i].pc.done))
  }

  lemma {:induction false} CountNone(handles: seq<Handle>, p: Handle -> bool)
    requires forall i | 0 <= i < |handles| :: !p(handles[i])
    ensures Count(handles, p) == 0
  {
    if handles != [] {
      CountNone(handles[1..], p);
    }
  }

  /** Nobody is counted by a predicate exactly when it holds for no handle. */
  lemma NobodyCounted(handles: seq<Handle>, p: Handle -> bool)
    ensures Count(handles, p) == 0 <==> forall i: nat | i < |handles| :: !p(handles[i])
  {
    if i: nat :| i < |handles| && p(handles[i]) {
      CountsOne(handles, i, p);
    } else {
      CountNone(handles, p);
    }
  }

  lemma InitInv(s: State)
    requires Init(s)
    ensures Inv(s)
  {
    CountNone(s.handles, Reads);
    CountNone(s.handles, Writes);
    CountNone(s.handles, WritesWeakly);
    CountNone(s.handles, WaitsWeakly);
    CountNone(s.handles, WaitsToWrite);
  }

  /** How a step of thread i changes the counts. */
  lemma CountsMove(s: State, s': State, i: nat)
    requires i < |s.handles| == |s'.handles| && s'.handles == s.handles[i := s'.handles[i]]
    ensures var h, h' := s.handles[i], s'.handles[i];
      && Count(s'.handles, Reads) == Count(s.handles, Reads) - One(Reads(h)) + One(Reads(h'))
      && Count(s'.handles, Writes) == Count(s.handles, Writes) - One(Writes(h)) + One(Writes(h'))
      && Count(s'.handles, WritesWeakly)
          == Count(s.handles, WritesWeakly) - One(WritesWeakly(h)) + One(WritesWeakly(h'))
      && Count(s'.handles, WaitsWeakly) == Count(s.handles, WaitsWeakly) - One(WaitsWeakly(h)) + One(WaitsWeakly(h'))
      && Count(s'.handles, WaitsToWrite)
          == Count(s.handles, WaitsToWrite) - One(WaitsToWrite(h)) + One(WaitsToWrite(h'))
  {
    var h' := s'.handles[i];
    CountUpdate(s.handles, i, h', Reads);
    CountUpdate(s.handles, i, h', Writes);
    CountUpdate(s.handles, i, h', WritesWeakly);
    CountUpdate(s.handles, i, h', WaitsWeakly);
    CountUpdate(s.handles, i, h', WaitsToWrite);
  }

  /** A handle's own view of the counters. */
  lemma Seen(s: State, i: nat)
    requires Inv(s) && i < |s.handles|
    ensures Reads(s.handles[i]) ==> s.lock.readers >= 1
    ensures Writes(s.handles[i]) ==> s.lock.writer
    ensures WritesWeakly(s.handles[i]) ==> s.lock.weak
  {
    var h := s.handles[i];
    if Reads(h) { CountsOne(s.handles, i, Reads); }
    if Writes(h) { CountsOne(s.handles, i, Writes); }
    if WritesWeakly(h) { CountsOne(s.handles, i, WritesWeakly); }
  }

  lemma AskStep(s: State, s': State, i: nat, kind: Kind)
    requires Inv(s) && Ask(s, s', i, kind)
    ensures Inv(s')
  {
    CountsMove(s, s', i);
    assert HandleInv(s.handles[i]);
    assert HandleInv(s'.handles[i]);
    assert CountInv(s');
  }

  lemma AskUpgradeStep(s: State, s': State, i: nat)
    requires Inv(s) && AskUpgrade(s, s', i)
    ensures Inv(s')
  {
    CountsMove(s, s', i);
    assert HandleInv(s.handles[i]);
  }

  lemma EnterStep(s: State, s': State, i: nat)
    requires Inv(s) && Enter(s, s', i)
    ensures Inv(s')
  {
    CountsMove(s, s', i);
    assert HandleInv(s.handles[i]);
  }

  lemma CheckStep(s: State, s': State, i: nat)
    requires Inv(s) && Check(s, s', i)
    ensures Inv(s')
  {
    if Condition(s.lock, s.handles[i].pc.request, s.handles[i].pc.done) {
      CheckPasses(s, s', i);
    } else {
      CheckFails(s, s', i);
    }
  }

  lemma CheckPasses(s: State, s': State, i: nat)
    requires Inv(s) && Check(s, s', i) && Condition(s.lock, s.handles[i].pc.request, s.handles[i].pc.done)
    ensures Inv(s')
  {
    CountsMove(s, s', i);
    assert s.mutex == Some(i);
    assert HandleInv(s.handles[i]);
  }

  lemma CheckFails(s: State, s': State, i: nat)
    requires Inv(s) && Check(s, s', i) && !Condition(s.lock, s.handles[i].pc.request, s.handles[i].pc.done)
    ensures Inv(s')
  {
    CountsMove(s, s', i);
    assert s.mutex == Some(i);
    assert HandleInv(s.handles[i]);
  }

  lemma TimeOutStep(s: State, s': State, i: nat)
    requires Inv(s) && TimeOut(s, s', i)
    ensures Inv(s')
  {
    CountsMove(s, s', i);
    assert s.mutex == Some(i);
    assert HandleInv(s.handles[i]);
  }

  lemma ActStep(s: State, s': State, i: nat)
    requires Inv(s) && Act(s, s', i)
    ensures Inv(s')
  {
    CountsMove(s, s', i);
    Seen(s, i);
    assert s.mutex == Some(i);
    assert HandleInv(s.handles[i]);
  }

  lemma ExitStep(s: State, s': State, i: nat)
    requires Inv(s) && Exit(s, s', i)
    ensures Inv(s')
  {
    CountsMove(s, s', i);
    Seen(s, i);
    assert s.mutex == Some(i);
    assert HandleInv(s.handles[i]);
  }

  lemma UnlockStep(s: State, s': State, i: nat)
    requires Inv(s) && Unlock(s, s', i)
    ensures Inv(s')
  {
    CountsMove(s, s', i);
    Seen(s, i);
    assert HandleInv(s.handles[i]);
    assert !Reads(s'.handles[i]) && !Writes(s'.handles[i]) && !WritesWeakly(s'.handles[i]);
    assert CountInv(s');
  }

  lemma StepInv(s: State, s': State, i: nat)
    requires Inv(s) && Step(s, s', i)
    ensures Inv(s')
  {
    if Enter(s, s', i) {
      EnterStep(s, s', i);
    } else if Check(s, s', i) {
      CheckStep(s, s', i);
    } else if TimeOut(s, s', i) {
      TimeOutStep(s, s', i);
    } else if Act(s, s', i) {
      ActStep(s, s', i);
    } else if Exit(s, s', i) {
      ExitStep(s, s', i);
    } else if Unlock(s, s', i) {
      UnlockStep(s, s', i);
    } else if AskUpgrade(s, s', i) {
      AskUpgradeStep(s, s', i);
    } else {
      var kind :| Ask(s, s', i, kind);
      AskStep(s, s', i, kind);
    }
  }

  lemma {:induction false} RunInv(trace: seq<State>, k: nat)
    requires Run(trace) && k < |trace|
    ensures Inv(trace[k])
    decreases k
  {
    if k == 0 {
      InitInv(trace[0]);
    } else {
      RunInv(trace, k - 1);
      var i :| Step(trace[k - 1], trace[k], i);
      StepInv(trace[k - 1], trace[k], i);
    }
  }
}
