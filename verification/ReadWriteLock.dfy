/**
 The lock with three modes (multithreading/ReadWriteLock.hpp) and its handles (ReadLock, WriteLock and
 WeakWriteLock), as atomic steps of any number of threads that use one handle at a time. Requests are served
 inside of a mutex, one atomic variable at a time; releases do not take the mutex and can fall in between.
 Waiting on a condition variable is modelled as leaving the mutex and taking it again at any later time.
 */
module ReadWriteLock {
  import opened Wrappers

  /** The atomic variables of the lock. */
  datatype Lock = Lock(weak: bool, writer: bool, readers: int, waitingWeak: int, waitingWriters: int)

  datatype Kind = Reader | Writer | WeakWriter

  datatype Request = Read | Write | Weak | Upgrade

  /** Inside(r, k): the thread has the mutex and has done k checks and updates of the request. */
  datatype Pc = Idle | Waiting(request: Request) | Inside(request: Request, done: nat)

  /** A handle with its flags, and where its thread is in a call to the lock. */
  datatype Handle = Handle(kind: Kind, pc: Pc, released: bool, weakReleased: bool)

  /** The number of timeouts is ghost history. */
  datatype State = State(lock: Lock, mutex: Option<nat>, handles: seq<Handle>, weakTimeouts: nat, writerTimeouts: nat)

  ghost predicate Init(s: State) {
    && s.lock == Lock(false, false, 0, 0, 0) && s.mutex == None
    && s.weakTimeouts == 0 && s.writerTimeouts == 0
    && forall i | 0 <= i < |s.handles| ::
         s.handles[i].pc == Idle && s.handles[i].released && s.handles[i].weakReleased
  }

  // ------------------------------------------------------------------------
  // Requests: first the conditions of the guard, then the updates, in the order of the source.

  ghost function Checks(r: Request): nat {
    match r case Read => 1 case Write => 3 case _ => 2
  }

  ghost function Length(r: Request): nat {
    match r case Read => 2 case Weak => 4 case _ => 5
  }

  ghost predicate Condition(l: Lock, r: Request, k: nat) {
    match r
    case Read => !l.writer
    case Weak => if k == 0 then !l.writer else !l.weak
    case Upgrade => if k == 0 then l.readers == 0 else !l.writer
    case Write => if k == 0 then l.readers == 0 else if k == 1 then !l.writer else !l.weak
  }

  ghost function Update(l: Lock, r: Request, k: nat): Lock {
    match r
    case Read => l.(readers := l.readers + 1)
    case Weak => if k == 2 then l.(waitingWeak := l.waitingWeak - 1) else l.(weak := true)
    case Upgrade =>
      if k == 2 then l.(waitingWriters := l.waitingWriters - 1)
      else if k == 3 then l.(weak := false)
      else l.(writer := true)
    case Write => if k == 3 then l.(waitingWriters := l.waitingWriters - 1) else l.(writer := true)
  }

  /** The counter is incremented before the mutex is taken. */
  ghost function Announce(l: Lock, r: Request): Lock {
    match r
    case Read => l
    case Weak => l.(waitingWeak := l.waitingWeak + 1)
    case _ => l.(waitingWriters := l.waitingWriters + 1)
  }

  ghost predicate Guard(l: Lock, r: Request) { forall k: nat | k < Checks(r) :: Condition(l, r, k) }

  // ------------------------------------------------------------------------
  // Steps.

  ghost predicate At(s: State, i: nat, pc: Pc) { i < |s.handles| && s.handles[i].pc == pc }

  ghost function With(s: State, i: nat, h: Handle): State
    requires i < |s.handles|
  {
    s.(handles := s.handles[i := h])
  }

  /** The constructor of a handle, or lock() of a released one. */
  ghost predicate Ask(s: State, s': State, i: nat, kind: Kind) {
    && At(s, i, Idle) && s.handles[i].released && s.handles[i].weakReleased
    && var r := match kind case Reader => Read case Writer => Write case WeakWriter => Weak;
    s' == With(s, i, Handle(kind, Waiting(r), kind == WeakWriter, kind != WeakWriter)).(lock := Announce(s.lock, r))
  }

  /** upgrade() of a handle that holds the weak lock. */
  ghost predicate AskUpgrade(s: State, s': State, i: nat) {
    && At(s, i, Idle) && s.handles[i].kind == WeakWriter && !s.handles[i].weakReleased && s.handles[i].released
    && s' == With(s, i, s.handles[i].(pc := Waiting(Upgrade))).(lock := Announce(s.lock, Upgrade))
  }

  ghost predicate Enter(s: State, s': State, i: nat) {
    && i < |s.handles| && s.handles[i].pc.Waiting? && s.mutex == None
    && s' == With(s, i, s.handles[i].(pc := Inside(s.handles[i].pc.request, 0))).(mutex := Some(i))
  }

  ghost predicate Checking(s: State, i: nat) {
    i < |s.handles| && s.handles[i].pc.Inside? && s.handles[i].pc.done < Checks(s.handles[i].pc.request)
  }

  /** One condition of the guard; when it fails, the thread waits again. */
  ghost predicate Check(s: State, s': State, i: nat) {
    && Checking(s, i)
    && var Inside(r, k) := s.handles[i].pc;
    s' == if Condition(s.lock, r, k) then With(s, i, s.handles[i].(pc := Inside(r, k + 1)))
          else With(s, i, s.handles[i].(pc := Waiting(r))).(mutex := None)
  }

  /** A constructor with a timeout throws: the handle does not come to exist, and the counters stay as they are. */
  ghost predicate TimeOut(s: State, s': State, i: nat) {
    && Checking(s, i)
    && var Inside(r, k) := s.handles[i].pc;
    && r != Upgrade && !Condition(s.lock, r, k)
    && s' == With(s, i, s.handles[i].(pc := Idle, released := true, weakReleased := true))
             .(mutex := None,
               weakTimeouts := s.weakTimeouts + (if r == Weak then 1 else 0),
               writerTimeouts := s.writerTimeouts + (if r == Write then 1 else 0))
  }

  /** One update of the lock by the thread whose guard was true. */
  ghost predicate Act(s: State, s': State, i: nat) {
    && i < |s.handles| && s.handles[i].pc.Inside?
    && var Inside(r, k) := s.handles[i].pc;
    && Checks(r) <= k < Length(r)
    && s' == With(s, i, s.handles[i].(pc := Inside(r, k + 1))).(lock := Update(s.lock, r, k))
  }

  /** The mutex is unlocked and the call returns; an upgrade then sets the two flags. */
  ghost predicate Exit(s: State, s': State, i: nat) {
    && i < |s.handles| && s.handles[i].pc.Inside?
    && var Inside(r, k) := s.handles[i].pc;
    && k == Length(r)
    && var h := s.handles[i].(pc := Idle);
    s' == With(s, i, if r == Upgrade then h.(weakReleased := true, released := false) else h).(mutex := None)
  }

  /** unlock(), or the destructor: it does nothing when the handle is released already. */
  ghost predicate Unlock(s: State, s': State, i: nat) {
    && At(s, i, Idle)
    && var h := s.handles[i];
    && s' == With(s, i, h.(released := true, weakReleased := true))
             .(lock := if h.kind == Reader then (if h.released then s.lock else s.lock.(readers := s.lock.readers - 1))
                       else s.lock.(writer := h.released && s.lock.writer,
                                    weak := (h.kind == Writer || h.weakReleased) && s.lock.weak))
  }

  ghost predicate Step(s: State, s': State, i: nat) {
    || (exists kind :: Ask(s, s', i, kind)) || AskUpgrade(s, s', i) || Enter(s, s', i) || Check(s, s', i)
    || TimeOut(s, s', i) || Act(s, s', i) || Exit(s, s', i) || Unlock(s, s', i)
  }

  ghost predicate Next(s: State, s': State) { exists i :: Step(s, s', i) }

  ghost predicate Run(trace: seq<State>) {
    && trace != [] && Init(trace[0])
    && forall k | 0 <= k < |trace| - 1 :: Next(trace[k], trace[k + 1])
  }

  // ------------------------------------------------------------------------
  // Who has what.

  ghost predicate Reads(h: Handle) {
    h.kind == Reader && !h.released && (h.pc == Idle || h.pc == Inside(Read, 2))
  }

  ghost predicate Writes(h: Handle) {
    h.kind != Reader && ((h.pc == Idle && !h.released) || h.pc == Inside(Write, 5) || h.pc == Inside(Upgrade, 5))
  }

  ghost predicate WritesWeakly(h: Handle) {
    && h.kind == WeakWriter && !h.weakReleased
    && match h.pc
       case Idle => true
       case Waiting(r) => r == Upgrade
       case Inside(r, k) => if r == Upgrade then k <= 3 else k == 4
  }

  ghost predicate WaitsWeakly(h: Handle) {
    h.pc == Waiting(Weak) || (h.pc.Inside? && h.pc.request == Weak && h.pc.done <= 2)
  }

  /** A thread between the increment and the decrement of num_waiting_writers_. */
  ghost predicate WaitsToWrite(h: Handle) {
    || h.pc == Waiting(Write) || h.pc == Waiting(Upgrade)
    || (h.pc.Inside? && h.pc.request == Write && h.pc.done <= 3)
    || (h.pc.Inside? && h.pc.request == Upgrade && h.pc.done <= 2)
  }

  /**
   The handle has the lock for itself among the writers, or is between giving up the weak and taking the strong
   one.
   */
  ghost predicate Excludes(h: Handle) { Writes(h) || WritesWeakly(h) || h.pc == Inside(Upgrade, 4) }

  ghost function Count(handles: seq<Handle>, p: Handle -> bool): nat {
    if handles == [] then 0 else (if p(handles[0]) then 1 else 0) + Count(handles[1..], p)
  }

  ghost function One(b: bool): nat { if b then 1 else 0 }

  lemma {:induction false} CountUpdate(handles: seq<Handle>, i: nat, h: Handle, p: Handle -> bool)
    requires i < |handles|
    ensures Count(handles[i := h], p) == Count(handles, p) - One(p(handles[i])) + One(p(h))
  {
    if i == 0 {
      assert handles[0 := h][1..] == handles[1..];
    } else {
      CountUpdate(handles[1..], i - 1, h, p);
      assert handles[i := h][1..] == handles[1..][i - 1 := h];
    }
  }

  lemma {:induction false} CountsOne(handles: seq<Handle>, i: nat, p: Handle -> bool)
    requires i < |handles| && p(handles[i])
    ensures Count(handles, p) >= 1
  {
    if i > 0 {
      CountsOne(handles[1..], i - 1, p);
    }
  }

  lemma {:induction false} CountsTwo(handles: seq<Handle>, i: nat, j: nat, p: Handle -> bool)
    requires i < j < |handles| && p(handles[i]) && p(handles[j])
    ensures Count(handles, p) >= 2
  {
    if i == 0 {
      CountsOne(handles[1..], j - 1, p);
    } else {
      CountsTwo(handles[1..], i - 1, j - 1, p);
    }
  }

  lemma {:induction false} CountWitness(handles: seq<Handle>, p: Handle -> bool) returns (i: nat)
    requires Count(handles, p) > 0
    ensures i < |handles| && p(handles[i])
  {
    if p(handles[0]) {
      i := 0;
    } else {
      i := CountWitness(handles[1..], p);
      i := i + 1;
    }
  }
}
