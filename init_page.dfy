/** `init_page` (msg.py:146-163): up to three attempts to bring a tab to the
    conversation, stopping at the first success, with a two-second pause after
    every failed attempt except the last. The outcome of each attempt (the two
    navigations and the wait for the message box together) is an input; the
    pauses are recorded in a trace instead of being slept. */
module Init {

  /** Number of attempts (`range(3)`, msg.py:152). */
  const MaxTries: nat := 3

  /** Length of the pause between attempts, in seconds (msg.py:162). */
  const BackoffSeconds: nat := 2

  /** What one call does, in order: an attempt numbered from 0, or a pause. */
  datatype InitEvent = Attempt(try: nat, succeeded: bool) | Sleep(seconds: nat)

  /** The events of the attempts from `t` on, given the outcome of each attempt. */
  function RetryTrace(outcomes: seq<bool>, t: nat): (trace: seq<InitEvent>)
    requires |outcomes| == MaxTries && t <= MaxTries
    ensures t == MaxTries ==> trace == []
    ensures t < MaxTries ==> trace != [] && trace[0] == Attempt(t, outcomes[t])
    ensures |trace| <= 2 * (MaxTries - t)
    decreases MaxTries - t
  {
    if t == MaxTries then []
    else if outcomes[t] then [Attempt(t, true)]
    else [Attempt(t, false)] + (if t < MaxTries - 1 then [Sleep(BackoffSeconds)] else []) + RetryTrace(outcomes, t + 1)
  }

  /** A failed attempt contributes its event and, unless it was the last, a
      pause, before the later attempts. */
  lemma RetryTraceFailure(outcomes: seq<bool>, t: nat, before: seq<InitEvent>, events: seq<InitEvent>)
    requires |outcomes| == MaxTries && t < MaxTries && !outcomes[t]
    requires events == [Attempt(t, false)] + (if t < MaxTries - 1 then [Sleep(BackoffSeconds)] else [])
    ensures before + RetryTrace(outcomes, t) == (before + events) + RetryTrace(outcomes, t + 1)
  {
    assert RetryTrace(outcomes, t) == events + RetryTrace(outcomes, t + 1);
  }

  /** The loop of msg.py:151-163. */
  method InitPage(outcomes: seq<bool>) returns (ok: bool, trace: seq<InitEvent>)
    requires |outcomes| == MaxTries
    ensures ok <==> exists t :: 0 <= t < MaxTries && outcomes[t]
    ensures trace == RetryTrace(outcomes, 0)
  {
    ok := false;
    trace := [];
    var t := 0;
    while t < MaxTries
      invariant 0 <= t <= MaxTries
      invariant !ok
      invariant trace + RetryTrace(outcomes, t) == RetryTrace(outcomes, 0)
      invariant forall j :: 0 <= j < t ==> !outcomes[j]
    {
      if outcomes[t] {
        ok := true;
        trace := trace + [Attempt(t, true)];
        break;
      }
      var events := [Attempt(t, false)];
      if t < MaxTries - 1 {
        events := events + [Sleep(BackoffSeconds)];
      }
      RetryTraceFailure(outcomes, t, trace, events);
      trace := trace + events;
      t := t + 1;
    }
  }

  /** Number of attempts in a trace. */
  function Attempts(trace: seq<InitEvent>): nat {
    if trace == [] then 0 else (if trace[0].Attempt? then 1 else 0) + Attempts(trace[1..])
  }

  /** Number of pauses in a trace. */
  function Sleeps(trace: seq<InitEvent>): nat {
    if trace == [] then 0 else (if trace[0].Sleep? then 1 else 0) + Sleeps(trace[1..])
  }

  lemma {:induction false} AttemptsConcat(a: seq<InitEvent>, b: seq<InitEvent>)
    ensures Attempts(a + b) == Attempts(a) + Attempts(b)
    ensures Sleeps(a + b) == Sleeps(a) + Sleeps(b)
  {
    if a == [] {
      assert a + b == b;
    } else {
      AttemptsConcat(a[1..], b);
      assert (a + b)[1..] == a[1..] + b;
    }
  }

  /** Index of the first successful attempt from `t` on, or `MaxTries`. */
  function FirstSuccess(outcomes: seq<bool>, t: nat): (f: nat)
    requires |outcomes| == MaxTries && t <= MaxTries
    ensures t <= f <= MaxTries
    ensures forall j :: t <= j < f ==> !outcomes[j]
    ensures f < MaxTries ==> outcomes[f]
    decreases MaxTries - t
  {
    if t == MaxTries || outcomes[t] then t else FirstSuccess(outcomes, t + 1)
  }

  /** The attempts are made up to and including the first success, or all
      three when none succeeds; a pause separates consecutive attempts, so
      there is one fewer pause than attempts. */
  lemma {:induction false} RetryCounts(outcomes: seq<bool>, t: nat)
    requires |outcomes| == MaxTries && t < MaxTries
    ensures Attempts(RetryTrace(outcomes, t)) == (if FirstSuccess(outcomes, t) < MaxTries then FirstSuccess(outcomes, t) + 1 else MaxTries) - t
    ensures Sleeps(RetryTrace(outcomes, t)) == Attempts(RetryTrace(outcomes, t)) - 1
    decreases MaxTries - t
  {
    if !outcomes[t] {
      var events := [Attempt(t, false)] + (if t < MaxTries - 1 then [Sleep(BackoffSeconds)] else []);
      AttemptsConcat(events, RetryTrace(outcomes, t + 1));
      assert Attempts(events) == 1 && Sleeps(events) == (if t < MaxTries - 1 then 1 else 0) by {
        assert events[1..] == (if t < MaxTries - 1 then [Sleep(BackoffSeconds)] else []);
      }
      if t + 1 < MaxTries {
        RetryCounts(outcomes, t + 1);
      }
    }
  }

  /** Result and attempt count of a whole call: success needs a successful
      attempt among the first three, there is no attempt after it, three
      attempts are made when all fail, and there are at most two pauses. */
  lemma InitPageCounts(outcomes: seq<bool>)
    requires |outcomes| == MaxTries
    ensures var trace := RetryTrace(outcomes, 0);
      && Attempts(trace) == (if FirstSuccess(outcomes, 0) < MaxTries then FirstSuccess(outcomes, 0) + 1 else MaxTries)
      && Sleeps(trace) == Attempts(trace) - 1 <= MaxTries - 1
  {
    RetryCounts(outcomes, 0);
  }

  /** Every event of the trace from `t` on is an attempt numbered from `t`
      whose outcome is the given one, or a two-second pause that directly
      follows a failed attempt other than the last; only the final event can
      be a successful attempt. */
  lemma {:induction false} RetryTraceShape(outcomes: seq<bool>, t: nat)
    requires |outcomes| == MaxTries && t <= MaxTries
    ensures var trace := RetryTrace(outcomes, t);
      forall k :: 0 <= k < |trace| ==>
        && (trace[k].Attempt? ==> t <= trace[k].try < MaxTries && trace[k].succeeded == outcomes[trace[k].try])
        && (trace[k].Attempt? && trace[k].succeeded ==> k == |trace| - 1)
        && (trace[k].Sleep? ==>
              && k > 0 && trace[k] == Sleep(BackoffSeconds)
              && trace[k - 1].Attempt? && !trace[k - 1].succeeded && trace[k - 1].try < MaxTries - 1)
    decreases MaxTries - t
  {
    if t < MaxTries && !outcomes[t] {
      RetryTraceShape(outcomes, t + 1);
      var rest := RetryTrace(outcomes, t + 1);
      var trace := RetryTrace(outcomes, t);
      var head := [Attempt(t, false)] + (if t < MaxTries - 1 then [Sleep(BackoffSeconds)] else []);
      assert trace == head + rest;
      forall k | |head| <= k < |trace|
        ensures trace[k] == rest[k - |head|]
      {
      }
      if t == MaxTries - 1 {
        assert rest == [];
      }
    }
  }

  /** Concrete runs: failure, failure, success makes three attempts with a
      pause after each failure; three failures make three attempts and two
      pauses. */
  lemma SuccessOnThirdTry()
    ensures RetryTrace([false, false, true], 0) ==
      [Attempt(0, false), Sleep(2), Attempt(1, false), Sleep(2), Attempt(2, true)]
    ensures RetryTrace([false, false, false], 0) ==
      [Attempt(0, false), Sleep(2), Attempt(1, false), Sleep(2), Attempt(2, false)]
  {
  }
}
