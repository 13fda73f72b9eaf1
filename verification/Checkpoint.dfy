/**
 Checkpoints of the communicator (multithreading/Communicator.hpp): every thread votes, waits at the barrier,
 and throws if the shared flag, which is never set again, has been cleared. A run is any interleaving of
 threads that pass one checkpoint after the other.
 */
module Checkpoint {
  import B = Barrier

  /** A thread before its vote, in the barrier, before it reads the flag, or gone with an exception. */
  datatype Pc = Voting | Waiting | Reading | Thrown

  datatype State = State(bar: B.State, ok: bool, pcs: seq<Pc>)

  /** votes(i, r) is what thread i passes to its r-th checkpoint. */
  type Votes = (nat, nat) -> bool

  ghost predicate Sized(s: State, n: nat) {
    |s.bar.phases| == |s.bar.rounds| == |s.pcs| == n
  }

  ghost predicate Init(s: State, n: nat) {
    B.Init(s.bar, n) && s.ok && Sized(s, n) && forall i | 0 <= i < n :: s.pcs[i] == Voting
  }

  /** if (!_ok) checkpoint_ = false; */
  ghost predicate Vote(v: Votes, s: State, s': State, i: nat) {
    && Sized(s, |s.pcs|) && i < |s.pcs| && s.pcs[i] == Voting
    && s' == s.(ok := s.ok && v(i, s.bar.rounds[i]), pcs := s.pcs[i := Waiting])
  }

  /** A step inside of the barrier, at the end of which the thread leaves it. */
  ghost predicate Wait(s: State, s': State, i: nat) {
    && Sized(s, |s.pcs|) && i < |s.pcs| && s.pcs[i] == Waiting && B.Step(s.bar, s'.bar, i)
    && var left := |s'.bar.rounds| > i && s'.bar.rounds[i] > s.bar.rounds[i];
    s' == s.(bar := s'.bar, pcs := if left then s.pcs[i := Reading] else s.pcs)
  }

  /** if (!checkpoint_) throw */
  ghost predicate Read(s: State, s': State, i: nat) {
    && i < |s.pcs| && s.pcs[i] == Reading
    && s' == s.(pcs := s.pcs[i := if s.ok then Voting else Thrown])
  }

  ghost predicate Step(v: Votes, s: State, s': State, i: nat) {
    Vote(v, s, s', i) || Wait(s, s', i) || Read(s, s', i)
  }

  /** The number of votes that a thread has cast. */
  ghost function Cast(s: State, i: nat): nat
    requires Sized(s, |s.pcs|) && i < |s.pcs|
  {
    s.bar.rounds[i] + if s.pcs[i] == Waiting then 1 else 0
  }

  /** Thread i has voted false in round r. */
  ghost predicate Against(v: Votes, s: State, i: nat, r: nat)
    requires Sized(s, |s.pcs|)
  {
    i < |s.pcs| && r < Cast(s, i) && !v(i, r)
  }

  ghost predicate Inv(v: Votes, s: State) {
    && B.Inv(s.bar) && Sized(s, |s.pcs|)
    && (forall i | 0 <= i < |s.pcs| :: s.bar.phases[i] != B.Outside ==> s.pcs[i] == Waiting)
    && (!s.ok <==> exists i: nat, r: nat :: Against(v, s, i, r))
  }

  lemma InitInv(v: Votes, s: State, n: nat)
    requires Init(s, n) && n > 0
    ensures Inv(v, s)
  {
    B.InitInv(s.bar, n);
  }

  lemma VoteInv(v: Votes, s: State, s': State, i: nat)
    requires Inv(v, s) && Vote(v, s, s', i)
    ensures Inv(v, s')
  {
    var r := s.bar.rounds[i];
    assert Against(v, s', i, r) <==> !v(i, r);
    forall j, q ensures Against(v, s', j, q) <==> Against(v, s, j, q) || (j == i && q == r && !v(i, r)) {
    }
  }

  lemma WaitInv(v: Votes, s: State, s': State, i: nat)
    requires Inv(v, s) && Wait(s, s', i)
    ensures Inv(v, s')
  {
    B.StepInv(s.bar, s'.bar, i);
    forall j, q ensures Against(v, s', j, q) <==> Against(v, s, j, q) {
    }
  }

  lemma ReadInv(v: Votes, s: State, s': State, i: nat)
    requires Inv(v, s) && Read(s, s', i)
    ensures Inv(v, s')
  {
    forall j, q ensures Against(v, s', j, q) <==> Against(v, s, j, q) {
    }
  }

  ghost predicate Next(v: Votes, s: State, s': State) { exists i :: Step(v, s, s', i) }

  ghost predicate Run(v: Votes, trace: seq<State>, n: nat) {
    && n > 0 && trace != [] && Init(trace[0], n)
    && forall k | 0 <= k < |trace| - 1 :: Next(v, trace[k], trace[k + 1])
  }

  lemma StepAt(v: Votes, trace: seq<State>, n: nat, k: nat) returns (i: nat)
    requires Run(v, trace, n) && 0 < k < |trace|
    ensures Step(v, trace[k - 1], trace[k], i)
  {
    assert Next(v, trace[k - 1], trace[k]);
    i :| Step(v, trace[k - 1], trace[k], i);
  }

  lemma {:induction false} RunInv(v: Votes, trace: seq<State>, n: nat, k: nat)
    requires Run(v, trace, n) && k < |trace|
    ensures Inv(v, trace[k]) && Sized(trace[k], n)
    decreases k
  {
    if k == 0 {
      InitInv(v, trace[0], n);
    } else {
      RunInv(v, trace, n, k - 1);
      var s, s' := trace[k - 1], trace[k];
      var i :| Step(v, s, s', i);
      if Vote(v, s, s', i) {
        VoteInv(v, s, s', i);
      } else if Wait(s, s', i) {
        WaitInv(v, s, s', i);
      } else {
        ReadInv(v, s, s', i);
      }
    }
  }

  // ------------------------------------------------------------------------
  // What a checkpoint is for.

  /** Some thread votes false in some round up to r. */
  ghost predicate VotedDown(v: Votes, n: nat, r: nat) {
    exists i: nat, q: nat :: i < n && q <= r && !v(i, q)
  }

  /** Some thread has already voted false in round r. */
  ghost predicate SomeoneAgainst(v: Votes, s: State, r: nat)
    requires Sized(s, |s.pcs|)
  {
    exists i: nat :: Against(v, s, i, r)
  }

  /**
   A thread behind the barrier of its r-th checkpoint throws exactly when somebody has voted false up to round
   r, in which all votes are in, or when a faster thread has already voted false in round r + 1.
   */
  lemma ThrowsExactly(v: Votes, trace: seq<State>, n: nat, k: nat, i: nat, r: nat)
    requires Run(v, trace, n) && k < |trace| && i < n
    requires Sized(trace[k], n) && trace[k].pcs[i] == Reading && trace[k].bar.rounds[i] == r + 1
    ensures forall j: nat | j < n :: r + 1 <= Cast(trace[k], j) <= r + 2
    ensures !trace[k].ok <==> VotedDown(v, n, r) || SomeoneAgainst(v, trace[k], r + 1)
  {
    RunInv(v, trace, n, k);
    FlagExactly(v, trace[k], n, i, r);
  }

  lemma FlagExactly(v: Votes, s: State, n: nat, i: nat, r: nat)
    requires Inv(v, s) && i < n && Sized(s, n) && s.pcs[i] == Reading && s.bar.rounds[i] == r + 1
    ensures forall j: nat | j < n :: r + 1 <= Cast(s, j) <= r + 2
    ensures !s.ok <==> VotedDown(v, n, r) || SomeoneAgainst(v, s, r + 1)
  {
    assert B.ThreadInv(s.bar, i);
    forall j: nat | j < n ensures r + 1 <= Cast(s, j) <= r + 2 {
      assert B.ThreadInv(s.bar, j) && B.LastInv(s.bar, j);
    }
    if VotedDown(v, n, r) {
      var j: nat, q: nat :| j < n && q <= r && !v(j, q);
      assert Against(v, s, j, q);
    }
    if !s.ok {
      var j: nat, q: nat :| Against(v, s, j, q);
      assert q <= r || Against(v, s, j, r + 1);
    }
  }

  /** If any thread votes false in round r, no thread passes that checkpoint. */
  lemma AllThrow(v: Votes, trace: seq<State>, n: nat, k: nat, i: nat, j: nat, r: nat)
    requires Run(v, trace, n) && k < |trace| - 1 && i < n && j < n && !v(j, r)
    requires Read(trace[k], trace[k + 1], i) && Sized(trace[k], n) && trace[k].bar.rounds[i] == r + 1
    ensures trace[k + 1].pcs[i] == Thrown
  {
    ThrowsExactly(v, trace, n, k, i, r);
  }

  /** A thread that is behind a checkpoint at which somebody has voted false is thrown out of it. */
  ghost predicate Halted(v: Votes, s: State, n: nat, q: nat)
    requires Sized(s, n)
  {
    forall i | 0 <= i < n ::
      s.bar.rounds[i] <= q || (s.bar.rounds[i] == q + 1 && (s.pcs[i] == Reading || s.pcs[i] == Thrown))
  }

  lemma HaltedStep(v: Votes, s: State, s': State, n: nat, i: nat, q: nat)
    requires Inv(v, s) && Sized(s, n) && Halted(v, s, n, q) && Step(v, s, s', i) && VotedDown(v, n, q)
    ensures Sized(s', n) && Halted(v, s', n, q)
  {
    if Read(s, s', i) && s.bar.rounds[i] == q + 1 {
      FlagExactly(v, s, n, i, q);
    }
  }

  /** So nobody gets to a later one. */
  lemma {:induction false} RunHalts(v: Votes, trace: seq<State>, n: nat, k: nat, q: nat)
    requires Run(v, trace, n) && k < |trace| && VotedDown(v, n, q)
    ensures Sized(trace[k], n) && Halted(v, trace[k], n, q)
    decreases k
  {
    if k > 0 {
      RunHalts(v, trace, n, k - 1, q);
      RunInv(v, trace, n, k - 1);
      var i := StepAt(v, trace, n, k);
      HaltedStep(v, trace[k - 1], trace[k], n, i, q);
    }
  }
}
