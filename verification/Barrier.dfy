/**
 The reusable barrier (multithreading/Barrier.hpp) as atomic steps of any number of threads. One call of
 wait is: read the generation, decrement the counter, and then either (for the last thread) reset the
 counter and bump the generation, or spin until the generation differs from the one read.
 */
module Barrier {

  /** Where a thread is inside of wait; the generation it has read is in its local variable. */
  datatype Phase = Outside | Entered(generation: nat) | Resetting | Bumping | Spinning(generation: nat)

  /** phases[i] is the state of thread i, rounds[i] the number of waits it has left. */
  datatype State = State(generation: nat, left: int, phases: seq<Phase>, rounds: seq<nat>)

  ghost predicate Init(s: State, n: nat) {
    && s.generation == 0 && s.left == n
    && |s.phases| == |s.rounds| == n
    && forall i | 0 <= i < n :: s.phases[i] == Outside && s.rounds[i] == 0
  }

  /** const size_t generation = generation_; */
  ghost predicate Enter(s: State, s': State, i: nat) {
    && i < |s.phases| && s.phases[i] == Outside
    && s' == s.(phases := s.phases[i := Entered(s.generation)])
  }

  /** --num_threads_left_ == 0 */
  ghost predicate Arrive(s: State, s': State, i: nat) {
    && i < |s.phases| && s.phases[i].Entered?
    && s' == s.(left := s.left - 1,
                phases := s.phases[i := if s.left - 1 == 0 then Resetting else Spinning(s.phases[i].generation)])
  }

  /** num_threads_left_ = num_threads_; */
  ghost predicate Reset(s: State, s': State, i: nat) {
    && i < |s.phases| && s.phases[i] == Resetting
    && s' == s.(left := |s.phases|, phases := s.phases[i := Bumping])
  }

  /** ++generation_; and the last thread leaves. */
  ghost predicate Bump(s: State, s': State, i: nat) {
    && i < |s.phases| == |s.rounds| && s.phases[i] == Bumping
    && s' == s.(generation := s.generation + 1, phases := s.phases[i := Outside],
                rounds := s.rounds[i := s.rounds[i] + 1])
  }

  /** The loop condition generation == generation_ fails. */
  ghost predicate Leave(s: State, s': State, i: nat) {
    && i < |s.phases| == |s.rounds| && s.phases[i].Spinning? && s.phases[i].generation != s.generation
    && s' == s.(phases := s.phases[i := Outside], rounds := s.rounds[i := s.rounds[i] + 1])
  }

  ghost predicate Step(s: State, s': State, i: nat) {
    Enter(s, s', i) || Arrive(s, s', i) || Reset(s, s', i) || Bump(s, s', i) || Leave(s, s', i)
  }

  /** The number of calls of wait that a thread has begun. */
  ghost function Begun(s: State, i: nat): nat
    requires i < |s.phases| == |s.rounds|
  {
    s.rounds[i] + if s.phases[i] == Outside then 0 else 1
  }

  /** The threads that have decremented the counter for the current generation. */
  ghost function Arrived(s: State): set<nat> {
    set i | 0 <= i < |s.phases| && s.phases[i] == Spinning(s.generation)
  }

  ghost predicate Finishing(p: Phase) { p == Resetting || p == Bumping }

  /** The thread is in the current generation, or still has to notice that the last one is over. */
  ghost predicate ThreadInv(s: State, i: nat)
    requires i < |s.phases| == |s.rounds|
  {
    match s.phases[i]
    case Entered(g) => g == s.generation && s.rounds[i] == s.generation
    case Spinning(g) => s.rounds[i] == g && (g == s.generation || g + 1 == s.generation)
    case _ => s.rounds[i] == s.generation
  }

  /** A thread that resets or bumps is the last one: all others spin in the current generation. */
  ghost predicate LastInv(s: State, i: nat)
    requires i < |s.phases|
  {
    Finishing(s.phases[i]) ==>
      && s.left == (if s.phases[i] == Resetting then 0 else |s.phases|)
      && forall j | 0 <= j < |s.phases| && j != i :: s.phases[j] == Spinning(s.generation)
  }

  ghost predicate Inv(s: State) {
    && |s.phases| == |s.rounds| && |s.phases| > 0
    && (forall i | 0 <= i < |s.phases| :: ThreadInv(s, i))
    && (forall i | 0 <= i < |s.phases| :: LastInv(s, i))
    && ((forall i | 0 <= i < |s.phases| :: !Finishing(s.phases[i])) ==>
          s.left > 0 && s.left + |Arrived(s)| == |s.phases|)
  }

  lemma {:induction false} InitInv(s: State, n: nat)
    requires Init(s, n) && n > 0
    ensures Inv(s)
  {
    assert Arrived(s) == {};
  }

  ghost function Ids(n: nat): (r: set<nat>)
    ensures |r| == n && forall i: nat :: i in r <==> i < n
  {
    if n == 0 then {} else Ids(n - 1) + {n - 1}
  }

  lemma SubsetCount<T>(a: set<T>, b: set<T>)
    requires a <= b
    ensures |a| <= |b|
    ensures |a| == |b| ==> a == b
  {
    assert b == a + (b - a);
  }

  /** While no thread is finishing, a thread that has not arrived is missing from the arrived ones. */
  lemma NotYetArrived(s: State, i: nat)
    requires Inv(s) && i < |s.phases| && s.phases[i].Entered?
    ensures forall j | 0 <= j < |s.phases| :: !Finishing(s.phases[j])
    ensures s.left > 0
    ensures s.left == 1 ==> forall j | 0 <= j < |s.phases| && j != i :: s.phases[j] == Spinning(s.generation)
  {
    forall j | 0 <= j < |s.phases| ensures !Finishing(s.phases[j]) {
      assert LastInv(s, j);
    }
    var all := Ids(|s.phases|);
    SubsetCount(Arrived(s), all - {i});
    if s.left == 1 {
      assert Arrived(s) == all - {i};
      forall j | 0 <= j < |s.phases| && j != i ensures s.phases[j] == Spinning(s.generation) {
        assert j in all - {i};
      }
    }
  }

  lemma ArriveInv(s: State, s': State, i: nat)
    requires Inv(s) && Arrive(s, s', i)
    ensures Inv(s')
  {
    NotYetArrived(s, i);
    assert ThreadInv(s, i);
    if s.left > 1 {
      assert Arrived(s') == Arrived(s) + {i};
    } else {
      assert Finishing(s'.phases[i]);
    }
    forall j | 0 <= j < |s'.phases| ensures ThreadInv(s', j) && LastInv(s', j) {
      assert ThreadInv(s, j) && LastInv(s, j);
    }
  }

  /** The last thread has the barrier to itself until it has bumped the generation. */
  lemma FinishInv(s: State, s': State, i: nat)
    requires Inv(s) && (Reset(s, s', i) || Bump(s, s', i))
    ensures Inv(s')
  {
    assert LastInv(s, i);
    forall j | 0 <= j < |s'.phases| ensures ThreadInv(s', j) && LastInv(s', j) {
      assert ThreadInv(s, j) && LastInv(s, j);
    }
    if Reset(s, s', i) {
      assert Finishing(s'.phases[i]);
    } else {
      assert Arrived(s') == {};
    }
  }

  lemma EnterLeaveInv(s: State, s': State, i: nat)
    requires Inv(s) && (Enter(s, s', i) || Leave(s, s', i))
    ensures Inv(s')
  {
    assert ThreadInv(s, i);
    forall j | 0 <= j < |s'.phases| ensures ThreadInv(s', j) && LastInv(s', j) {
      assert ThreadInv(s, j) && LastInv(s, j);
    }
    assert Arrived(s') == Arrived(s);
    forall j | 0 <= j < |s.phases| ensures Finishing(s.phases[j]) <==> Finishing(s'.phases[j]) {
      assert LastInv(s, j);
    }
  }

  lemma StepInv(s: State, s': State, i: nat)
    requires Inv(s) && Step(s, s', i)
    ensures Inv(s')
  {
    if Arrive(s, s', i) {
      ArriveInv(s, s', i);
    } else if Reset(s, s', i) || Bump(s, s', i) {
      FinishInv(s, s', i);
    } else {
      EnterLeaveInv(s, s', i);
    }
  }

  // ------------------------------------------------------------------------
  // What a barrier is for.

  ghost predicate Next(s: State, s': State) { exists i :: Step(s, s', i) }

  /** A run: every state follows from the one before by a step of some thread. */
  ghost predicate Run(trace: seq<State>, n: nat) {
    && n > 0 && trace != [] && Init(trace[0], n)
    && forall k | 0 <= k < |trace| - 1 :: Next(trace[k], trace[k + 1])
  }

  lemma {:induction false} RunInv(trace: seq<State>, n: nat, k: nat)
    requires Run(trace, n) && k < |trace|
    ensures Inv(trace[k]) && |trace[k].phases| == n
    decreases k
  {
    if k == 0 {
      InitInv(trace[0], n);
    } else {
      RunInv(trace, n, k - 1);
      var i :| Step(trace[k - 1], trace[k], i);
      StepInv(trace[k - 1], trace[k], i);
    }
  }

  /** No thread leaves its r-th wait before all threads have begun their r-th. */
  lemma NoEarlyLeave(s: State, s': State, i: nat, j: nat)
    requires Inv(s) && Step(s, s', i) && j < |s.phases|
    requires s'.rounds[i] == s.rounds[i] + 1
    ensures Begun(s, j) >= s'.rounds[i]
  {
    assert ThreadInv(s, i) && ThreadInv(s, j) && LastInv(s, i);
  }

  /** No two threads are more than one round apart, and the counter never drops below zero. */
  lemma OneRoundApart(s: State, i: nat, j: nat)
    requires Inv(s) && i < |s.phases| && j < |s.phases|
    ensures s.rounds[i] <= s.rounds[j] + 1
    ensures 0 <= s.left <= |s.phases|
  {
    assert ThreadInv(s, i) && ThreadInv(s, j);
    if k :| 0 <= k < |s.phases| && Finishing(s.phases[k]) {
      assert LastInv(s, k);
    }
  }

  lemma SomeoneBehind(s: State) returns (k: nat)
    requires Inv(s) && forall i | 0 <= i < |s.phases| :: !Finishing(s.phases[i])
    ensures k < |s.phases| && s.phases[k] != Spinning(s.generation)
  {
    var all := Ids(|s.phases|);
    SubsetCount(Arrived(s), all);
    assert Arrived(s) != all;
    k :| k in all && k !in Arrived(s);
  }

  /** When all threads are inside of wait, one of them can go on. */
  lemma NoDeadlock(s: State) returns (i: nat, s': State)
    requires Inv(s) && forall j | 0 <= j < |s.phases| :: s.phases[j] != Outside
    ensures Step(s, s', i) && s' != s
  {
    if k :| 0 <= k < |s.phases| && Finishing(s.phases[k]) {
      i := k;
      s' := if s.phases[k] == Resetting then s.(left := |s.phases|, phases := s.phases[k := Bumping])
            else s.(generation := s.generation + 1, phases := s.phases[k := Outside],
                rounds := s.rounds[k := s.rounds[k] + 1]);
      assert s'.phases[k] != s.phases[k];
    } else {
      var k := SomeoneBehind(s);
      i := k;
      s' := if s.phases[k].Spinning? then s.(phases := s.phases[k := Outside], rounds := s.rounds[k := s.rounds[k] + 1])
            else s.(left := s.left - 1,
                    phases := s.phases[k := if s.left - 1 == 0 then Resetting else Spinning(s.phases[k].generation)]);
      assert s'.phases[k] != s.phases[k];
    }
  }

  /** The claims hold in every run. */
  lemma RunSafe(trace: seq<State>, n: nat, k: nat, i: nat, j: nat)
    requires Run(trace, n) && k < |trace| - 1 && i < n && j < n
    ensures |trace[k].phases| == |trace[k].rounds| == |trace[k + 1].rounds| == n
    ensures trace[k].rounds[i] <= trace[k].rounds[j] + 1
    ensures trace[k + 1].rounds[i] > trace[k].rounds[i] ==> Begun(trace[k], j) >= trace[k + 1].rounds[i]
  {
    RunInv(trace, n, k);
    RunInv(trace, n, k + 1);
    OneRoundApart(trace[k], i, j);
    var t :| Step(trace[k], trace[k + 1], t);
    if trace[k + 1].rounds[i] > trace[k].rounds[i] {
      assert t == i;
      NoEarlyLeave(trace[k], trace[k + 1], i, j);
    }
  }
}
