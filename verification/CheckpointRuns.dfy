/**
 Which checkpoints can throw: a condition on the votes alone. For the half of it that says that there is a
 run, the threads go through every checkpoint one after the other.
 */
module CheckpointRuns {
  import B = Barrier
  import opened Checkpoint

  /** In the last step of the run, thread i throws at its r-th checkpoint. */
  ghost predicate EndsThrowing(trace: seq<State>, n: nat, i: nat, r: nat) {
    && |trace| >= 2 && i < n
    && var s, s' := trace[|trace| - 2], trace[|trace| - 1];
    Sized(s, n) && Read(s, s', i) && s.bar.rounds[i] == r + 1 && s'.pcs[i] == Thrown
  }

  ghost predicate CanThrow(v: Votes, n: nat, r: nat) {
    exists trace, i :: Run(v, trace, n) && EndsThrowing(trace, n, i, r)
  }

  // ------------------------------------------------------------------------
  // Reachable states.

  ghost predicate Reachable(v: Votes, n: nat, s: State) {
    exists trace :: Run(v, trace, n) && trace[|trace| - 1] == s
  }

  /** A run goes on with any step from its last state. */
  lemma Extended(v: Votes, n: nat, trace: seq<State>, s': State, i: nat)
    requires Run(v, trace, n) && Step(v, trace[|trace| - 1], s', i)
    ensures Run(v, trace + [s'], n)
  {
    var longer := trace + [s'];
    forall k | 0 <= k < |longer| - 1 ensures Next(v, longer[k], longer[k + 1]) {
      if k < |trace| - 1 {
        assert Next(v, trace[k], trace[k + 1]);
      }
    }
  }

  lemma Longer(v: Votes, n: nat, s: State, s': State, i: nat) returns (longer: seq<State>)
    requires Reachable(v, n, s) && Step(v, s, s', i)
    ensures Run(v, longer, n) && |longer| >= 2 && longer[|longer| - 1] == s' && longer[|longer| - 2] == s
  {
    var trace :| Run(v, trace, n) && trace[|trace| - 1] == s;
    Extended(v, n, trace, s', i);
    longer := trace + [s'];
  }

  lemma ReachThrow(v: Votes, n: nat, s: State, s': State, i: nat, r: nat)
    requires Reachable(v, n, s) && i < n && Sized(s, n) && Read(s, s', i)
    requires s.bar.rounds[i] == r + 1 && s'.pcs[i] == Thrown
    ensures CanThrow(v, n, r)
  {
    var trace := Longer(v, n, s, s', i);
    assert EndsThrowing(trace, n, i, r);
  }

  /** A set of states that no step leaves. */
  ghost predicate Closed(v: Votes, p: State -> bool) {
    forall s, s', i | p(s) && Step(v, s, s', i) :: p(s')
  }

  lemma ReachableClosed(v: Votes, n: nat)
    ensures Closed(v, s => Reachable(v, n, s))
  {
    forall s, s', i | Reachable(v, n, s) && Step(v, s, s', i) ensures Reachable(v, n, s') {
      var trace := Longer(v, n, s, s', i);
    }
  }

  // ------------------------------------------------------------------------
  // The states of a run in which the threads go one after the other: the first k of n are ahead.

  ghost function First<T>(n: nat, k: nat, a: T, b: T): (s: seq<T>)
    ensures |s| == n && forall j | 0 <= j < n :: s[j] == if j < k then a else b
  {
    seq(n, j => if j < k then a else b)
  }

  lemma FirstNext<T>(n: nat, k: nat, a: T, b: T)
    requires k < n
    ensures First(n, k, a, b)[k := a] == First(n, k + 1, a, b)
    ensures First(n, k, a, b)[n - 1 := a][k := a] == First(n, k + 1, a, b)[n - 1 := a]
  {
  }

  ghost function Together(n: nat, q: nat): B.State {
    B.State(q, n, First(n, n, B.Outside, B.Outside), First(n, n, q, q))
  }

  ghost function Casting(n: nat, q: nat, k: nat, ok: bool): State {
    State(Together(n, q), ok, First(n, k, Waiting, Voting))
  }

  ghost function Arriving(n: nat, q: nat, k: nat, ok: bool): State {
    State(B.State(q, n - k, First(n, k, B.Spinning(q), B.Outside), First(n, n, q, q)),
          ok, First(n, n, Waiting, Waiting))
  }

  /** The last thread is out of the barrier, and the first k. */
  ghost function Leaving(n: nat, q: nat, k: nat, ok: bool): State
    requires n > 0
  {
    State(B.State(q + 1, n, First(n, k, B.Outside, B.Spinning(q))[n - 1 := B.Outside],
                  First(n, k, q + 1, q)[n - 1 := q + 1]),
          ok, First(n, k, Reading, Waiting)[n - 1 := Reading])
  }

  ghost function Passing(n: nat, q: nat, k: nat, ok: bool): State {
    State(Together(n, q + 1), ok, First(n, k, Voting, Reading))
  }

  /** Whether the first k threads vote true in round q. */
  ghost predicate AllFor(v: Votes, k: nat, q: nat) { forall i: nat | i < k :: v(i, q) }

  lemma {:induction false} CastAll(v: Votes, p: State -> bool, n: nat, q: nat, k: nat)
    requires Closed(v, p) && p(Casting(n, q, 0, true)) && k <= n
    ensures p(Casting(n, q, k, AllFor(v, k, q)))
  {
    if k > 0 {
      CastAll(v, p, n, q, k - 1);
      var s, s' := Casting(n, q, k - 1, AllFor(v, k - 1, q)), Casting(n, q, k, AllFor(v, k, q));
      FirstNext(n, k - 1, Waiting, Voting);
      assert Vote(v, s, s', k - 1) && Step(v, s, s', k - 1);
    }
  }

  lemma {:induction false} ArriveAll(v: Votes, p: State -> bool, n: nat, q: nat, k: nat, ok: bool)
    requires Closed(v, p) && p(Arriving(n, q, 0, ok)) && k < n
    ensures p(Arriving(n, q, k, ok))
  {
    if k > 0 {
      ArriveAll(v, p, n, q, k - 1, ok);
      var s, s' := Arriving(n, q, k - 1, ok), Arriving(n, q, k, ok);
      FirstNext(n, k - 1, B.Spinning(q), B.Outside);
      var mid := s.(bar := s.bar.(phases := s.bar.phases[k - 1 := B.Entered(q)]));
      EntersAndArrives(v, s, mid, s', k - 1);
    }
  }

  lemma EntersAndArrives(v: Votes, s: State, mid: State, s': State, i: nat)
    requires Sized(s, |s.pcs|) && i < |s.pcs| && s.pcs[i] == Waiting && s.bar.phases[i] == B.Outside
    requires mid == s.(bar := s.bar.(phases := s.bar.phases[i := B.Entered(s.bar.generation)]))
    requires s' == s.(bar := s.bar.(left := s.bar.left - 1, phases := s.bar.phases[i :=
                        if s.bar.left == 1 then B.Resetting else B.Spinning(s.bar.generation)]))
    ensures Step(v, s, mid, i) && Step(v, mid, s', i)
  {
    assert B.Enter(s.bar, mid.bar, i) && Wait(s, mid, i);
    assert B.Arrive(mid.bar, s'.bar, i) && Wait(mid, s', i);
  }

  /** The last thread arrives, resets the counter, bumps the generation and leaves. */
  lemma LastArrives(v: Votes, p: State -> bool, n: nat, q: nat, ok: bool)
    requires Closed(v, p) && n > 0 && p(Arriving(n, q, n - 1, ok))
    ensures p(Leaving(n, q, 0, ok))
  {
    var s, i := Arriving(n, q, n - 1, ok), n - 1;
    var s1 := s.(bar := s.bar.(phases := s.bar.phases[i := B.Entered(q)]));
    var s2 := s.(bar := s.bar.(left := 0, phases := s.bar.phases[i := B.Resetting]));
    var s3 := s.(bar := s.bar.(left := n, phases := s.bar.phases[i := B.Bumping]));
    var s4 := Leaving(n, q, 0, ok);
    EntersAndArrives(v, s, s1, s2, i);
    ResetsAndBumps(v, n, s2, s3, s4, i);
  }

  lemma ResetsAndBumps(v: Votes, n: nat, s: State, mid: State, s': State, i: nat)
    requires Sized(s, n) && i < n && s.pcs[i] == Waiting && s.bar.phases[i] == B.Resetting
    requires mid == s.(bar := s.bar.(left := n, phases := s.bar.phases[i := B.Bumping]))
    requires s' == s.(bar := B.State(s.bar.generation + 1, n, s.bar.phases[i := B.Outside],
                                     s.bar.rounds[i := s.bar.rounds[i] + 1]),
                      pcs := s.pcs[i := Reading])
    ensures Step(v, s, mid, i) && Step(v, mid, s', i)
  {
    assert B.Reset(s.bar, mid.bar, i) && Wait(s, mid, i);
    assert mid.bar.phases[i := B.Outside] == s.bar.phases[i := B.Outside];
    assert B.Bump(mid.bar, s'.bar, i) && Wait(mid, s', i);
  }

  lemma Leaves(v: Votes, n: nat, s: State, s': State, i: nat)
    requires Sized(s, n) && i < n && s.pcs[i] == Waiting
    requires s.bar.phases[i].Spinning? && s.bar.phases[i].generation != s.bar.generation
    requires s' == s.(bar := s.bar.(phases := s.bar.phases[i := B.Outside],
                                    rounds := s.bar.rounds[i := s.bar.rounds[i] + 1]),
                      pcs := s.pcs[i := Reading])
    ensures Step(v, s, s', i)
  {
    assert B.Leave(s.bar, s'.bar, i) && Wait(s, s', i);
  }

  lemma {:induction false} LeaveAll(v: Votes, p: State -> bool, n: nat, q: nat, k: nat, ok: bool)
    requires Closed(v, p) && n > 0 && k < n && p(Leaving(n, q, 0, ok))
    ensures p(Leaving(n, q, k, ok))
  {
    if k > 0 {
      LeaveAll(v, p, n, q, k - 1, ok);
      var s, s' := Leaving(n, q, k - 1, ok), Leaving(n, q, k, ok);
      LeavingNext(n, q, k - 1, ok);
      Leaves(v, n, s, s', k - 1);
    }
  }

  lemma LeavingNext(n: nat, q: nat, k: nat, ok: bool)
    requires k + 1 < n
    ensures var s, s' := Leaving(n, q, k, ok), Leaving(n, q, k + 1, ok);
      s' == s.(bar := s.bar.(phases := s.bar.phases[k := B.Outside], rounds := s.bar.rounds[k := q + 1]),
               pcs := s.pcs[k := Reading])
  {
    FirstNext(n, k, B.Outside, B.Spinning(q));
    FirstNext(n, k, q + 1, q);
    FirstNext(n, k, Reading, Waiting);
  }

  lemma {:induction false} PassAll(v: Votes, p: State -> bool, n: nat, q: nat, k: nat)
    requires Closed(v, p) && k <= n && p(Passing(n, q, 0, true))
    ensures p(Passing(n, q, k, true))
  {
    if k > 0 {
      PassAll(v, p, n, q, k - 1);
      var s, s' := Passing(n, q, k - 1, true), Passing(n, q, k, true);
      FirstNext(n, k - 1, Voting, Reading);
      assert Read(s, s', k - 1) && Step(v, s, s', k - 1);
    }
  }

  /** All threads are behind the barrier of checkpoint q, and none has read the flag. */
  lemma BehindBarrier(v: Votes, p: State -> bool, n: nat, q: nat)
    requires Closed(v, p) && n > 0 && p(Casting(n, q, 0, true))
    ensures p(Passing(n, q, 0, AllFor(v, n, q)))
  {
    var ok := AllFor(v, n, q);
    CastAll(v, p, n, q, n);
    assert Casting(n, q, n, ok) == Arriving(n, q, 0, ok);
    ArriveAll(v, p, n, q, n - 1, ok);
    LastArrives(v, p, n, q, ok);
    LeaveAll(v, p, n, q, n - 1, ok);
    assert Leaving(n, q, n - 1, ok) == Passing(n, q, 0, ok);
  }

  /** As long as everybody votes true, everybody gets to the next checkpoint. */
  lemma {:induction false} GetTo(v: Votes, p: State -> bool, n: nat, r: nat)
    requires Closed(v, p) && p(Casting(n, 0, 0, true)) && n > 0 && (r > 0 ==> !VotedDown(v, n, r - 1))
    ensures p(Casting(n, r, 0, true))
  {
    if r > 0 {
      GetTo(v, p, n, r - 1);
      BehindBarrier(v, p, n, r - 1);
      PassAll(v, p, n, r - 1, n);
      assert Passing(n, r - 1, n, true) == Casting(n, r, 0, true);
    }
  }

  lemma GetBehind(v: Votes, n: nat, r: nat)
    requires n > 0 && (r > 0 ==> !VotedDown(v, n, r - 1))
    ensures Reachable(v, n, Passing(n, r, 0, AllFor(v, n, r)))
  {
    var p := s => Reachable(v, n, s);
    ReachableClosed(v, n);
    assert Run(v, [Casting(n, 0, 0, true)], n);
    assert p(Casting(n, 0, 0, true));
    GetTo(v, p, n, r);
    BehindBarrier(v, p, n, r);
  }

  /** Somebody votes false: the first thread to read the flag throws. */
  lemma ThrowsInTime(v: Votes, n: nat, r: nat)
    requires n > 0 && Reachable(v, n, Passing(n, r, 0, false))
    ensures CanThrow(v, n, r)
  {
    var s := Passing(n, r, 0, false);
    var s' := s.(pcs := s.pcs[0 := Thrown]);
    ReachThrow(v, n, s, s', 0, r);
  }

  /** Everybody votes true, but thread i is the first one behind the checkpoint and votes false at the next. */
  lemma ThrowsEarly(v: Votes, n: nat, r: nat, i: nat)
    requires n >= 2 && i < n && !v(i, r + 1) && Reachable(v, n, Passing(n, r, 0, true))
    ensures CanThrow(v, n, r)
  {
    var s := Passing(n, r, 0, true);
    var s1 := s.(pcs := s.pcs[i := Voting]);
    var s2 := s.(ok := false, pcs := s.pcs[i := Waiting]);
    ReadsAndVotes(v, n, s, s1, s2, i);
    ReachableClosed(v, n);
    var j := if i == 0 then 1 else 0;
    ReachThrow(v, n, s2, s2.(pcs := s2.pcs[j := Thrown]), j, r);
  }

  lemma ReadsAndVotes(v: Votes, n: nat, s: State, mid: State, s': State, i: nat)
    requires Sized(s, n) && i < n && s.pcs[i] == Reading && s.ok && !v(i, s.bar.rounds[i])
    requires mid == s.(pcs := s.pcs[i := Voting]) && s' == s.(ok := false, pcs := s.pcs[i := Waiting])
    ensures Step(v, s, mid, i) && Step(v, mid, s', i)
  {
    assert Read(s, mid, i);
    assert mid.pcs[i := Waiting] == s.pcs[i := Waiting];
    assert Vote(v, mid, s', i);
  }

  /** What the votes are like when thread i finds the flag cleared at its r-th checkpoint. */
  lemma ThrowNeeds(v: Votes, trace: seq<State>, n: nat, k: nat, i: nat, r: nat)
    requires Run(v, trace, n) && k < |trace| && i < n && Sized(trace[k], n) && !trace[k].ok
    requires trace[k].pcs[i] == Reading && trace[k].bar.rounds[i] == r + 1
    ensures r > 0 ==> !VotedDown(v, n, r - 1)
    ensures VotedDown(v, n, r) || (n >= 2 && VotedDown(v, n, r + 1))
  {
    ThrowsExactly(v, trace, n, k, i, r);
    if r > 0 && VotedDown(v, n, r - 1) {
      RunHalts(v, trace, n, k, r - 1);
    }
    if !VotedDown(v, n, r) {
      var j: nat :| Against(v, trace[k], j, r + 1);
      assert j != i;
    }
  }

  /**
   Some run throws at checkpoint r if and only if nobody votes false at an earlier one, where all would have
   been thrown out, and somebody votes false at r or, with at least two threads, at r + 1.
   */
  lemma CanThrowExactly(v: Votes, n: nat, r: nat)
    requires n > 0
    ensures CanThrow(v, n, r) <==>
            && (r > 0 ==> !VotedDown(v, n, r - 1))
            && (VotedDown(v, n, r) || (n >= 2 && VotedDown(v, n, r + 1)))
  {
    if CanThrow(v, n, r) {
      var trace, i :| Run(v, trace, n) && EndsThrowing(trace, n, i, r);
      ThrowNeeds(v, trace, n, |trace| - 2, i, r);
    }
    if (r > 0 ==> !VotedDown(v, n, r - 1)) && (VotedDown(v, n, r) || (n >= 2 && VotedDown(v, n, r + 1))) {
      GetBehind(v, n, r);
      if VotedDown(v, n, r) {
        ThrowsInTime(v, n, r);
      } else {
        var i: nat, q: nat :| i < n && q <= r + 1 && !v(i, q);
        assert q == r + 1;
        ThrowsEarly(v, n, r, i);
      }
    }
  }

  /** Thread 0 passes false to its second checkpoint; thread 1 can throw at its first, to which both pass true. */
  lemma ThrowsTooEarly()
    ensures var v: Votes := (i, r) => i == 1 || r == 0;
      !VotedDown(v, 2, 0) && CanThrow(v, 2, 0)
  {
    var v: Votes := (i, r) => i == 1 || r == 0;
    assert !v(0, 1);
    CanThrowExactly(v, 2, 0);
  }
}
