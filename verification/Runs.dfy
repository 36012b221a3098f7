/** Runs of a state machine: what a function from a state and an event to the next state does with
    a sequence of events. */
module Runs {

  function Run<S, E>(step: (S, E) -> S, s: S, events: seq<E>): S
    decreases |events|
  {
    if events == [] then s else Run(step, step(s, events[0]), events[1..])
  }

  /** The state after n steps of a run. */
  function At<S, E>(step: (S, E) -> S, start: S, events: seq<E>, n: nat): S
    requires n <= |events|
  {
    Run(step, start, events[..n])
  }

  lemma {:induction false} RunBoth<S, E>(step: (S, E) -> S, s: S, a: seq<E>, b: seq<E>)
    ensures Run(step, s, a + b) == Run(step, Run(step, s, a), b)
    decreases |a|
  {
    if a == [] {
      assert a + b == b;
    } else {
      RunBoth(step, step(s, a[0]), a[1..], b);
      assert (a + b)[1..] == a[1..] + b;
    }
  }

  lemma AtEnds<S, E>(step: (S, E) -> S, start: S, events: seq<E>)
    ensures At(step, start, events, 0) == start
    ensures At(step, start, events, |events|) == Run(step, start, events)
  {
    assert events[..|events|] == events;
  }

  lemma AtNext<S, E>(step: (S, E) -> S, start: S, events: seq<E>, n: nat)
    requires n < |events|
    ensures At(step, start, events, n + 1) == step(At(step, start, events, n), events[n])
  {
    assert events[..n + 1] == events[..n] + [events[n]];
    RunBoth(step, start, events[..n], [events[n]]);
  }

  /** The states of a run, one after the other. */
  ghost predicate Trace<S, E>(step: (S, E) -> S, s: S, events: seq<E>, states: seq<S>) {
    && |states| == |events| && (states != [] ==> states[0] == step(s, events[0]))
    && (forall i :: 0 < i < |states| ==> states[i] == step(states[i - 1], events[i]))
  }

  lemma {:induction false} TraceEnds<S, E>(step: (S, E) -> S, s: S, events: seq<E>, states: seq<S>)
    requires Trace(step, s, events, states)
    ensures Run(step, s, events) == if states == [] then s else states[|states| - 1]
    decreases |events|
  {
    if events != [] {
      assert |states| > 1 ==> states[1] == step(states[0], events[1]);
      TraceEnds(step, states[0], events[1..], states[1..]);
    }
  }
}
