/**
 What becomes of the threads once one of them has been thrown out of a checkpoint: nobody gets past the
 barrier of the next one, and the run ends with all threads thrown out or, after a throw that came too early,
 with some of them waiting in that barrier for ever.
 */
module CheckpointEnds {
  import B = Barrier
  import opened Checkpoint
  import opened CheckpointRuns

  lemma NobodyAhead(v: Votes, s: State, n: nat, i: nat)
    requires Inv(v, s) && Sized(s, n) && i < n && s.pcs[i] == Thrown
    ensures s.bar.rounds[i] == s.bar.generation
    ensures forall j | 0 <= j < n :: s.bar.rounds[j] <= s.bar.rounds[i]
  {
    assert B.ThreadInv(s.bar, i);
    forall j | 0 <= j < n ensures s.bar.rounds[j] <= s.bar.rounds[i] {
      assert B.ThreadInv(s.bar, j);
    }
  }

  lemma ThrownStays(v: Votes, s: State, s': State, n: nat, t: nat, i: nat)
    requires Sized(s, n) && i < n && s.pcs[i] == Thrown && Step(v, s, s', t)
    ensures Sized(s', n) && s'.pcs[i] == Thrown && s'.bar.rounds[i] == s.bar.rounds[i]
  {
  }

  /** A thread that has been thrown out stays where it is. */
  lemma {:induction false} ThrownStops(v: Votes, trace: seq<State>, n: nat, k: nat, m: nat, i: nat)
    requires Run(v, trace, n) && k <= m < |trace| && i < n && Sized(trace[k], n) && trace[k].pcs[i] == Thrown
    ensures Sized(trace[m], n) && trace[m].pcs[i] == Thrown && trace[m].bar.rounds[i] == trace[k].bar.rounds[i]
    decreases m
  {
    if k < m {
      ThrownStops(v, trace, n, k, m - 1, i);
      var t := StepAt(v, trace, n, m);
      ThrownStays(v, trace[m - 1], trace[m], n, t, i);
    }
  }

  /** And no thread ever gets further. */
  lemma NobodyPasses(v: Votes, trace: seq<State>, n: nat, k: nat, m: nat, i: nat)
    requires Run(v, trace, n) && k <= m < |trace| && i < n && Sized(trace[k], n) && trace[k].pcs[i] == Thrown
    ensures Sized(trace[m], n) && forall j | 0 <= j < n :: trace[m].bar.rounds[j] <= trace[k].bar.rounds[i]
  {
    RunInv(v, trace, n, m);
    ThrownStops(v, trace, n, k, m, i);
    NobodyAhead(v, trace[m], n, i);
  }

  /** Whoever waits in the barrier of the next checkpoint then waits for ever. */
  lemma {:induction false} WaitsForEver(v: Votes, trace: seq<State>, n: nat, k: nat, m: nat, i: nat, j: nat)
    requires Run(v, trace, n) && k <= m < |trace| && i < n && j < n
    requires Sized(trace[k], n) && trace[k].pcs[i] == Thrown
    requires trace[k].pcs[j] == Waiting && trace[k].bar.rounds[j] == trace[k].bar.rounds[i]
    ensures Sized(trace[m], n) && trace[m].pcs[j] == Waiting && trace[m].bar.rounds[j] == trace[k].bar.rounds[i]
    decreases m
  {
    NobodyPasses(v, trace, n, k, m, i);
    if k < m {
      WaitsForEver(v, trace, n, k, m - 1, i, j);
      var t := StepAt(v, trace, n, m);
    }
  }

  // ------------------------------------------------------------------------
  // The state in which such a run ends.

  /** No thread can take a step. */
  ghost predicate Stuck(v: Votes, s: State) { forall s', i :: !Step(v, s, s', i) }

  ghost predicate SpinsOn(s: State, i: nat)
    requires Sized(s, |s.pcs|) && i < |s.pcs|
  {
    s.pcs[i] == Waiting && s.bar.phases[i] == B.Spinning(s.bar.generation)
  }

  /** Some step of a thread that is neither gone nor waiting for others. */
  lemma CanStep(v: Votes, s: State, i: nat) returns (s': State)
    requires Inv(v, s) && i < |s.pcs| && s.pcs[i] != Thrown && !SpinsOn(s, i)
    ensures Step(v, s, s', i)
  {
    if s.pcs[i] == Voting {
      s' := s.(ok := s.ok && v(i, s.bar.rounds[i]), pcs := s.pcs[i := Waiting]);
    } else if s.pcs[i] == Reading {
      s' := s.(pcs := s.pcs[i := if s.ok then Voting else Thrown]);
    } else {
      var bar' := BarrierStep(s.bar, i);
      s' := s.(bar := bar', pcs := if bar'.rounds[i] > s.bar.rounds[i] then s.pcs[i := Reading] else s.pcs);
      assert Wait(s, s', i);
    }
  }

  lemma BarrierStep(b: B.State, i: nat) returns (b': B.State)
    requires |b.phases| == |b.rounds| && i < |b.phases| && b.phases[i] != B.Spinning(b.generation)
    ensures B.Step(b, b', i) && |b'.rounds| == |b.rounds|
  {
    match b.phases[i]
    case Outside => b' := b.(phases := b.phases[i := B.Entered(b.generation)]);
    case Entered(g) =>
      b' := b.(left := b.left - 1, phases := b.phases[i := if b.left - 1 == 0 then B.Resetting else B.Spinning(g)]);
    case Resetting => b' := b.(left := |b.phases|, phases := b.phases[i := B.Bumping]);
    case Bumping =>
      b' := b.(generation := b.generation + 1, phases := b.phases[i := B.Outside],
               rounds := b.rounds[i := b.rounds[i] + 1]);
    case Spinning(g) => b' := b.(phases := b.phases[i := B.Outside], rounds := b.rounds[i := b.rounds[i] + 1]);
  }

  /**
   A run that has come to its end after thread i was thrown out of its r-th checkpoint: if somebody voted false
   up to r, all threads have been thrown out there. If nobody did, the throw came too early: every thread has
   been thrown out there or waits in the barrier of checkpoint r + 1, and some thread that voted false waits.
   */
  lemma Outcome(v: Votes, trace: seq<State>, n: nat, i: nat, r: nat)
    requires Run(v, trace, n) && i < n && Stuck(v, trace[|trace| - 1])
    requires var s := trace[|trace| - 1]; Sized(s, n) && s.pcs[i] == Thrown && s.bar.rounds[i] == r + 1
    ensures var s := trace[|trace| - 1];
      && (forall j | 0 <= j < n :: s.bar.rounds[j] == r + 1 && (s.pcs[j] == Thrown || SpinsOn(s, j)))
      && (VotedDown(v, n, r) ==> forall j | 0 <= j < n :: s.pcs[j] == Thrown)
      && (!VotedDown(v, n, r) ==> exists j: nat :: j < n && SpinsOn(s, j) && !v(j, r + 1))
  {
    var k := |trace| - 1;
    var s := trace[k];
    RunInv(v, trace, n, k);
    NobodyAhead(v, s, n, i);
    forall j | 0 <= j < n ensures s.bar.rounds[j] == r + 1 && (s.pcs[j] == Thrown || SpinsOn(s, j)) {
      if s.pcs[j] != Thrown && !SpinsOn(s, j) {
        var s' := CanStep(v, s, j);
      }
      assert B.ThreadInv(s.bar, j);
    }
    if VotedDown(v, n, r) {
      RunHalts(v, trace, n, k, r);
    } else {
      ThrownSawFalse(v, trace, n, k, i);
      var j: nat, q: nat :| Against(v, s, j, q);
      assert q == r + 1 && SpinsOn(s, j);
    }
  }

  /** The flag is never set again. */
  lemma {:induction false} ThrownSawFalse(v: Votes, trace: seq<State>, n: nat, k: nat, i: nat)
    requires Run(v, trace, n) && k < |trace| && i < n && Sized(trace[k], n) && trace[k].pcs[i] == Thrown
    ensures !trace[k].ok
    decreases k
  {
    if k > 0 {
      RunInv(v, trace, n, k - 1);
      var t := StepAt(v, trace, n, k);
      if trace[k - 1].pcs[i] == Thrown {
        ThrownSawFalse(v, trace, n, k - 1, i);
      }
    }
  }

  // ------------------------------------------------------------------------
  // It does come to its end.

  /** How far a thread is: every step of a thread takes it further. */
  ghost function Place(s: State, i: nat): nat
    requires Sized(s, |s.pcs|) && i < |s.pcs|
  {
    8 * s.bar.rounds[i] +
    match s.pcs[i]
    case Reading => 0
    case Voting => 1
    case Thrown => 6
    case Waiting =>
      match s.bar.phases[i]
      case Outside => 2
      case Entered(_) => 3
      case Bumping => 5
      case _ => 4
  }

  ghost function Places(s: State, n: nat): nat
    requires Sized(s, |s.pcs|) && n <= |s.pcs|
  {
    if n == 0 then 0 else Places(s, n - 1) + Place(s, n - 1)
  }

  lemma PlaceGrows(v: Votes, s: State, s': State, i: nat)
    requires Inv(v, s) && Step(v, s, s', i)
    ensures Sized(s', |s.pcs|) && i < |s.pcs| && Place(s', i) > Place(s, i)
    ensures forall j | 0 <= j < |s.pcs| && j != i :: Place(s', j) == Place(s, j)
  {
    if Wait(s, s', i) {
      BarrierGrows(s, s', i);
    }
  }

  lemma BarrierGrows(s: State, s': State, i: nat)
    requires Sized(s, |s.pcs|) && Wait(s, s', i)
    ensures Sized(s', |s.pcs|) && Place(s', i) > Place(s, i)
    ensures forall j | 0 <= j < |s.pcs| && j != i :: Place(s', j) == Place(s, j)
  {
  }

  lemma {:induction false} PlacesGrow(s: State, s': State, i: nat, n: nat)
    requires Sized(s, |s.pcs|) && Sized(s', |s.pcs|) && i < |s.pcs| && n <= |s.pcs| && Place(s', i) > Place(s, i)
    requires forall j | 0 <= j < |s.pcs| && j != i :: Place(s', j) == Place(s, j)
    ensures Places(s', n) >= Places(s, n) + if i < n then 1 else 0
  {
    if n > 0 {
      PlacesGrow(s, s', i, n - 1);
    }
  }

  lemma {:induction false} PlacesBound(s: State, n: nat, rounds: nat)
    requires Sized(s, |s.pcs|) && n <= |s.pcs| && forall j | 0 <= j < n :: s.bar.rounds[j] <= rounds
    ensures Places(s, n) <= n * (8 * rounds + 6)
  {
    if n > 0 {
      PlacesBound(s, n - 1, rounds);
      assert (n - 1) * (8 * rounds + 6) + (8 * rounds + 6) == n * (8 * rounds + 6);
    }
  }

  lemma {:induction false} RunGrows(v: Votes, trace: seq<State>, n: nat, k: nat)
    requires Run(v, trace, n) && k < |trace|
    ensures Sized(trace[k], n) && Places(trace[k], n) >= k
    decreases k
  {
    RunInv(v, trace, n, k);
    if k > 0 {
      RunInv(v, trace, n, k - 1);
      RunGrows(v, trace, n, k - 1);
      var t := StepAt(v, trace, n, k);
      PlaceGrows(v, trace[k - 1], trace[k], t);
      PlacesGrow(trace[k - 1], trace[k], t, n);
    }
  }

  /** A run in which some thread is thrown out of its r-th checkpoint is no longer than this. */
  lemma RunEnds(v: Votes, trace: seq<State>, n: nat, k: nat, i: nat, r: nat)
    requires Run(v, trace, n) && k < |trace| && i < n
    requires Sized(trace[k], n) && trace[k].pcs[i] == Thrown && trace[k].bar.rounds[i] == r + 1
    ensures |trace| <= n * (8 * (r + 1) + 6) + 1
  {
    var last := |trace| - 1;
    NobodyPasses(v, trace, n, k, last, i);
    RunGrows(v, trace, n, last);
    PlacesBound(trace[last], n, r + 1);
  }

  /** Thread i was thrown out of its r-th checkpoint. */
  ghost predicate ThrownAt(s: State, n: nat, i: nat, r: nat) {
    Sized(s, n) && i < n && s.pcs[i] == Thrown && s.bar.rounds[i] == r + 1
  }

  /** Every such run goes on until no thread can take a step. */
  lemma {:induction false} RunToEnd(v: Votes, trace: seq<State>, n: nat, i: nat, r: nat) returns (whole: seq<State>)
    requires Run(v, trace, n) && ThrownAt(trace[|trace| - 1], n, i, r)
    ensures Run(v, whole, n) && trace <= whole && Stuck(v, whole[|whole| - 1])
    ensures ThrownAt(whole[|whole| - 1], n, i, r)
    decreases n * (8 * (r + 1) + 6) + 1 - |trace|
  {
    whole := trace;
    var s := trace[|trace| - 1];
    if !Stuck(v, s) {
      var s', t :| Step(v, s, s', t);
      var longer := trace + [s'];
      Extended(v, n, trace, s', t);
      ThrownStops(v, longer, n, |trace| - 1, |trace|, i);
      RunEnds(v, longer, n, |trace|, i, r);
      whole := RunToEnd(v, longer, n, i, r);
    }
  }

  /**
   If nobody votes false up to r but somebody does at r + 1, there is a run that ends with a thread thrown out
   of checkpoint r, to which everybody passed true, and with one that waits for ever at the checkpoint behind it.
   */
  lemma EarlyThrowDivides(v: Votes, n: nat, r: nat) returns (trace: seq<State>, i: nat, j: nat)
    requires n >= 2 && !VotedDown(v, n, r) && VotedDown(v, n, r + 1)
    ensures Run(v, trace, n) && Stuck(v, trace[|trace| - 1]) && j < n
    ensures var s := trace[|trace| - 1]; ThrownAt(s, n, i, r) && SpinsOn(s, j) && s.bar.rounds[j] == r + 1
  {
    CanThrowExactly(v, n, r);
    trace, i :| Run(v, trace, n) && EndsThrowing(trace, n, i, r);
    assert Next(v, trace[|trace| - 2], trace[|trace| - 1]);
    trace := RunToEnd(v, trace, n, i, r);
    Outcome(v, trace, n, i, r);
    j :| 0 <= j < n && SpinsOn(trace[|trace| - 1], j);
  }
}
