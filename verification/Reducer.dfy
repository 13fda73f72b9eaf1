/**
 All-reduce over one shared buffer that is reused in every round (multithreading/all_reduce.hpp,
 multithreading/Reducer.hpp, multithreading/Communicator.hpp), as atomic steps of n >= 2 threads that run
 any number of rounds. In a round every thread, under the spinlock, copies its vector into the buffer
 (the first one) or combines it with the buffer (all others); then it waits at the barrier, copies the
 buffer out without a lock, and waits at the barrier again. Copying is done element by element.
 */
module Reducer {
  import opened Wrappers
  import B = Barrier

  /** The threads, the operator, and the vector that a thread brings to a round, all of them arbitrary. */
  datatype Config<!T> = Config(n: nat, op: (T, T) -> T, zero: T, count: nat -> nat, input: (nat, nat) -> seq<T>)

  ghost predicate Proper<T>(c: Config<T>) {
    c.n >= 2 && forall i, r :: |c.input(i, r)| == c.count(r)
  }

  /** The next thing that a thread does, outside of the steps inside of the barrier. */
  datatype Pc =
    | Start
    | Locked
    | Filling(first: bool, j: nat)
    | Unlocking
    | Contributed
    | Reading(j: nat)
    | Finished

  /**
   bar, lock, left and buffer are shared; pcs, outs and results belong to the threads (results[i] are the
   values that thread i got, round by round). The ghost history is in `order`, the threads in the order in
   which they took part in the current round, and `orders`, the same for the rounds that are complete.
   */
  datatype State<T> = State(bar: B.State, lock: Option<nat>, left: int, buffer: seq<T>,
                            pcs: seq<Pc>, outs: seq<seq<T>>, results: seq<seq<seq<T>>>,
                            order: seq<nat>, orders: seq<seq<nat>>)

  ghost predicate Init<T>(c: Config<T>, s: State<T>) {
    && B.Init(s.bar, c.n) && s.lock == None && s.left == c.n && s.buffer == []
    && |s.pcs| == |s.outs| == |s.results| == c.n
    && (forall i | 0 <= i < c.n :: s.pcs[i] == Start && s.results[i] == [])
    && s.order == [] && s.orders == []
  }

  ghost predicate Sized<T>(c: Config<T>, s: State<T>) {
    |s.bar.phases| == |s.bar.rounds| == |s.pcs| == |s.outs| == |s.results| == c.n
  }

  /** Thread i is running, outside of the barrier. */
  ghost predicate Runs<T>(c: Config<T>, s: State<T>, i: nat) {
    Sized(c, s) && i < c.n && s.bar.phases[i] == B.Outside
  }

  ghost function RoundOf<T>(s: State<T>, i: nat): nat
    requires i < |s.bar.rounds|
  {
    s.bar.rounds[i] / 2
  }

  // ------------------------------------------------------------------------
  // Steps.

  ghost predicate Lock<T>(c: Config<T>, s: State<T>, s': State<T>, i: nat) {
    && Runs(c, s, i) && s.pcs[i] == Start && s.lock == None
    && s' == s.(lock := Some(i), pcs := s.pcs[i := Locked])
  }

  /** Communicator::resize only ever grows the buffer. */
  ghost function Resize<T>(buffer: seq<T>, size: nat, zero: T): seq<T> {
    if |buffer| < size then buffer + seq(size - |buffer|, _ => zero) else buffer
  }

  /** (num_threads_left())-- == num_threads(), and the resize by the first thread. */
  ghost predicate Count<T>(c: Config<T>, s: State<T>, s': State<T>, i: nat) {
    && Runs(c, s, i) && s.pcs[i] == Locked
    && var first := s.left == c.n;
    s' == s.(left := s.left - 1, pcs := s.pcs[i := Filling(first, 0)], order := s.order + [i],
             buffer := if first then Resize(s.buffer, c.count(RoundOf(s, i)), c.zero) else s.buffer)
  }

  /** One element of std::copy or of std::transform. */
  ghost predicate Fill<T>(c: Config<T>, s: State<T>, s': State<T>, i: nat) {
    && Runs(c, s, i) && s.pcs[i].Filling?
    && var j := s.pcs[i].j;
    && j < c.count(RoundOf(s, i)) && j < |s.buffer| && j < |c.input(i, RoundOf(s, i))|
    && var x := c.input(i, RoundOf(s, i))[j];
    s' == s.(pcs := s.pcs[i := s.pcs[i].(j := j + 1)],
             buffer := s.buffer[j := if s.pcs[i].first then x else c.op(s.buffer[j], x)])
  }

  /** The last thread resets the counter. */
  ghost predicate Filled<T>(c: Config<T>, s: State<T>, s': State<T>, i: nat) {
    && Runs(c, s, i) && s.pcs[i].Filling? && s.pcs[i].j == c.count(RoundOf(s, i))
    && s' == s.(pcs := s.pcs[i := Unlocking], left := if !s.pcs[i].first && s.left == 0 then c.n else s.left)
  }

  ghost predicate Unlock<T>(c: Config<T>, s: State<T>, s': State<T>, i: nat) {
    && Runs(c, s, i) && s.pcs[i] == Unlocking
    && s' == s.(lock := None, pcs := s.pcs[i := Contributed])
  }

  /** One element of the copy out of the buffer, without a lock. */
  ghost predicate Read<T>(c: Config<T>, s: State<T>, s': State<T>, i: nat) {
    && Runs(c, s, i) && s.pcs[i].Reading?
    && var j := s.pcs[i].j;
    && j < c.count(RoundOf(s, i)) && j < |s.buffer|
    && s' == s.(pcs := s.pcs[i := Reading(j + 1)], outs := s.outs[i := s.outs[i] + [s.buffer[j]]])
  }

  ghost predicate ReadAll<T>(c: Config<T>, s: State<T>, s': State<T>, i: nat) {
    && Runs(c, s, i) && s.pcs[i].Reading? && s.pcs[i].j == c.count(RoundOf(s, i))
    && s' == s.(pcs := s.pcs[i := Finished])
  }

  /** A step inside of one of the two barriers; leaving it goes on to the copying or to the next round. */
  ghost predicate Wait<T>(c: Config<T>, s: State<T>, s': State<T>, i: nat) {
    && Sized(c, s) && i < c.n && (s.pcs[i] == Contributed || s.pcs[i] == Finished)
    && B.Step(s.bar, s'.bar, i)
    && var bumped := s'.bar.generation > s.bar.generation;
    var base := s.(bar := s'.bar,
                   orders := if bumped && s.pcs[i] == Contributed then s.orders + [s.order] else s.orders,
                   order := if bumped && s.pcs[i] == Finished then [] else s.order);
    s' == if |s'.bar.rounds| != c.n || s'.bar.rounds[i] == s.bar.rounds[i] then base
          else if s.pcs[i] == Contributed then base.(pcs := s.pcs[i := Reading(0)], outs := s.outs[i := []])
          else base.(pcs := s.pcs[i := Start], results := s.results[i := s.results[i] + [s.outs[i]]])
  }

  ghost predicate Step<T>(c: Config<T>, s: State<T>, s': State<T>, i: nat) {
    || Lock(c, s, s', i) || Count(c, s, s', i) || Fill(c, s, s', i) || Filled(c, s, s', i) || Unlock(c, s, s', i)
    || Read(c, s, s', i) || ReadAll(c, s, s', i) || Wait(c, s, s', i)
  }

  ghost predicate Next<T>(c: Config<T>, s: State<T>, s': State<T>) { exists i :: Step(c, s, s', i) }

  ghost predicate Run<T>(c: Config<T>, trace: seq<State<T>>) {
    && Proper(c) && trace != [] && Init(c, trace[0])
    && forall k | 0 <= k < |trace| - 1 :: Next(c, trace[k], trace[k + 1])
  }
}
