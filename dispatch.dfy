/** `sender` (msg.py:323-378): the per-tab loop that sends the messages in
    round-robin order and reloads the conversation once a minute. The loop
    state is the cursor `msg_index` and the start of the current minute
    `cycle_start`. Clock readings (in milliseconds), the visibility of the
    message box and the outcome of each page action are inputs of a step. */
module Dispatch {

  /** `elapsed >= 60` seconds (msg.py:339-340), in milliseconds. */
  const ReloadAfterMs: int := 60000

  /** What the world supplies to one iteration of the loop. */
  datatype StepInput = StepInput(
    now: int,          // `time.time()` at the top of the iteration
    reloadOk: bool,    // reload and the wait for the message box succeed
    reloadedAt: int,   // `time.time()` after a successful reload
    visible: bool,     // the message box is visible
    sendOk: bool)      // click, fill and Enter all succeed

  /** The exceptions that end the loop (msg.py:344-345, 349, 373-374). */
  datatype DispatchError = ReloadFailed | SendFailed | NoMessage

  /** What one iteration does. */
  datatype StepResult = Reloaded | Skipped | Sent(msg: string) | Failed(error: DispatchError)

  datatype ChannelState = ChannelState(msgIndex: nat, cycleStart: int)

  /** `(msg_index + 1) % len(messages)`. */
  function Advance(i: nat, n: nat): (j: nat)
    requires n > 0
    ensures j < n
    ensures i < n - 1 ==> j == i + 1
    ensures i == n - 1 ==> j == 0
  {
    (i + 1) % n
  }

  /** What the visibility probe of msg.py:353 evaluates to: the awaited
      boolean, or the coroutine object an un-awaited call gives. */
  datatype Probe = Coroutine | Answer(visible: bool)

  /** Python truthiness of the probe: any coroutine object is true. */
  predicate Truthy(p: Probe) {
    match p
    case Coroutine => true
    case Answer(b) => b
  }

  /** The probe as msg.py:353 writes it, without `await`. */
  function ProbeAsWritten(visible: bool): (p: Probe)
    ensures Truthy(p)
  {
    Coroutine
  }

  /** The probe with `await`, as the branch evidently intends. */
  function ProbeAwaited(visible: bool): (p: Probe)
    ensures Truthy(p) <==> visible
  {
    Answer(visible)
  }

  /** One iteration of the loop (msg.py:338-378) given what the probe
      evaluates to. */
  function Transition(messages: seq<string>, s: ChannelState, inp: StepInput, probe: Probe): (r: (ChannelState, StepResult))
    ensures r.1.Skipped? <==>
      inp.now - s.cycleStart < ReloadAfterMs && s.msgIndex < |messages| && !Truthy(probe)
  {
    if inp.now - s.cycleStart >= ReloadAfterMs then
      if inp.reloadOk then (ChannelState(s.msgIndex, inp.reloadedAt), Reloaded)
      else (s, Failed(ReloadFailed))
    else if s.msgIndex >= |messages| then (s, Failed(NoMessage))
    else if !Truthy(probe) then (ChannelState(Advance(s.msgIndex, |messages|), s.cycleStart), Skipped)
    else if inp.sendOk then (ChannelState(Advance(s.msgIndex, |messages|), s.cycleStart), Sent(messages[s.msgIndex]))
    else (s, Failed(SendFailed))
  }

  /** One iteration with the probe awaited. */
  function Next(messages: seq<string>, s: ChannelState, inp: StepInput): (r: (ChannelState, StepResult))
    ensures r.1.Skipped? <==> inp.now - s.cycleStart < ReloadAfterMs && s.msgIndex < |messages| && !inp.visible
  {
    Transition(messages, s, inp, ProbeAwaited(inp.visible))
  }

  /** One iteration as msg.py:353 is written: the recovery branch never runs,
      so no iteration skips. */
  function NextAsWritten(messages: seq<string>, s: ChannelState, inp: StepInput): (r: (ChannelState, StepResult))
    ensures !r.1.Skipped?
  {
    Transition(messages, s, inp, ProbeAsWritten(inp.visible))
  }

  /** Does a result move the cursor on? */
  predicate Advances(r: StepResult) {
    r.Skipped? || r.Sent?
  }

  /** What one iteration does to the cursor and the minute: once a minute has
      passed it reloads and restarts the minute without moving the cursor, and
      it reloads at no other time; a failed reload raises; otherwise an empty
      list, or a cursor past its end, raises when the message is read; a
      visible box is sent to, and a failed send raises; a raise moves nothing.
      A send or a skip moves the cursor on by one modulo the number of
      messages, a send carrying the message the cursor points at. */
  lemma NextCases(messages: seq<string>, s: ChannelState, inp: StepInput)
    ensures var (s', r) := Next(messages, s, inp);
      var elapsed := inp.now - s.cycleStart;
      && (elapsed >= ReloadAfterMs ==>
            s'.msgIndex == s.msgIndex
            && (inp.reloadOk ==> r == Reloaded && s'.cycleStart == inp.reloadedAt)
            && (!inp.reloadOk ==> r == Failed(ReloadFailed)))
      && (r == Reloaded || r == Failed(ReloadFailed) ==> elapsed >= ReloadAfterMs)
      && (elapsed < ReloadAfterMs && s.msgIndex >= |messages| ==> r == Failed(NoMessage))
      && (elapsed < ReloadAfterMs && s.msgIndex < |messages| && inp.visible ==>
            (inp.sendOk ==> r == Sent(messages[s.msgIndex]))
            && (!inp.sendOk ==> r == Failed(SendFailed)))
      && (r.Failed? ==> s' == s)
      && (Advances(r) ==> s.msgIndex < |messages| && s' == ChannelState(Advance(s.msgIndex, |messages|), s.cycleStart))
      && (r.Sent? ==> inp.visible && inp.sendOk && r.msg == messages[s.msgIndex])
      && (messages == [] ==> !Advances(r))
  {
  }

  /** The cursor stays within the list. */
  lemma NextKeepsCursorInRange(messages: seq<string>, s: ChannelState, inp: StepInput)
    requires s.msgIndex < |messages|
    ensures Next(messages, s, inp).0.msgIndex < |messages|
  {
  }

  // ---------------------------------------------------------------------------
  // The loop over a finite prefix of its inputs.

  /** The iterations driven by `inputs`, stopping at the first that raises:
      the final state and what each iteration did. */
  function Run(messages: seq<string>, s: ChannelState, inputs: seq<StepInput>): (r: (ChannelState, seq<StepResult>))
    ensures |r.1| <= |inputs|
    ensures inputs != [] ==> r.1 != []
    decreases |inputs|
  {
    if inputs == [] then (s, [])
    else
      var (s', r) := Next(messages, s, inputs[0]);
      if r.Failed? then (s', [r])
      else
        var (s'', rs) := Run(messages, s', inputs[1..]);
        (s'', [r] + rs)
  }

  /** The loop ends early only by raising, and no iteration before the last
      raised. */
  lemma {:induction false} RunStopsAtFirstRaise(messages: seq<string>, s: ChannelState, inputs: seq<StepInput>)
    ensures var rs := Run(messages, s, inputs).1;
      && (forall k :: 0 <= k < |rs| - 1 ==> !rs[k].Failed?)
      && (|rs| < |inputs| ==> rs[|rs| - 1].Failed?)
    decreases |inputs|
  {
    if inputs != [] {
      var (s1, r) := Next(messages, s, inputs[0]);
      if !r.Failed? {
        RunStopsAtFirstRaise(messages, s1, inputs[1..]);
        var rs1 := Run(messages, s1, inputs[1..]).1;
        var rs := [r] + rs1;
        assert Run(messages, s, inputs).1 == rs;
        forall k | 0 < k < |rs| ensures rs[k] == rs1[k - 1] { }
      }
    }
  }

  /** A run from input `i` on: the first iteration, then the rest unless it
      raised. */
  lemma RunFirst(messages: seq<string>, s: ChannelState, inputs: seq<StepInput>, i: nat)
    requires i < |inputs|
    ensures var (s', r) := Next(messages, s, inputs[i]);
      Run(messages, s, inputs[i..]) ==
        if r.Failed? then (s', [r])
        else (Run(messages, s', inputs[i + 1..]).0, [r] + Run(messages, s', inputs[i + 1..]).1)
  {
    assert inputs[i..][0] == inputs[i] && inputs[i..][1..] == inputs[i + 1..];
  }

  /** Number of results that moved the cursor. */
  function CountAdvances(rs: seq<StepResult>): nat {
    if rs == [] then 0 else (if Advances(rs[0]) then 1 else 0) + CountAdvances(rs[1..])
  }

  lemma {:induction false} CountAdvancesSnoc(rs: seq<StepResult>, r: StepResult)
    ensures CountAdvances(rs + [r]) == CountAdvances(rs) + (if Advances(r) then 1 else 0)
  {
    if rs == [] {
      assert rs + [r] == [r];
    } else {
      CountAdvancesSnoc(rs[1..], r);
      assert (rs + [r])[1..] == rs[1..] + [r];
    }
  }

  /** The cursor after moving on `k` times from `i`. */
  function AdvanceN(i: nat, k: nat, n: nat): (j: nat)
    requires n > 0 && i < n
    ensures j < n
  {
    if k == 0 then i else Advance(AdvanceN(i, k - 1, n), n)
  }

  lemma {:induction false} AdvanceNAfterOne(i: nat, k: nat, n: nat)
    requires n > 0 && i < n
    ensures AdvanceN(Advance(i, n), k, n) == AdvanceN(i, k + 1, n)
  {
    if k > 0 {
      AdvanceNAfterOne(i, k - 1, n);
    }
  }

  lemma {:induction false} AdvanceNSum(i: nat, a: nat, b: nat, n: nat)
    requires n > 0 && i < n
    ensures AdvanceN(AdvanceN(i, a, n), b, n) == AdvanceN(i, a + b, n)
  {
    if b > 0 {
      AdvanceNSum(i, a, b - 1, n);
    }
  }

  /** Without wrapping, moving on `k` times adds `k`. */
  lemma {:induction false} AdvanceNLinear(i: nat, k: nat, n: nat)
    requires n > 0 && i + k < n
    ensures AdvanceN(i, k, n) == i + k
  {
    if k > 0 {
      AdvanceNLinear(i, k - 1, n);
    }
  }

  /** Moving on once per message brings the cursor back to where it started. */
  lemma AdvanceFullCycle(i: nat, n: nat)
    requires n > 0 && i < n
    ensures AdvanceN(i, n, n) == i
  {
    AdvanceNLinear(i, n - 1 - i, n);
    AdvanceNSum(i, n - 1 - i, 1 + i, n);
    assert AdvanceN(n - 1, 1 + i, n) == i by {
      AdvanceNAfterOne(n - 1, i, n);
      AdvanceNLinear(0, i, n);
    }
  }

  /** The cursor after the first iteration of a run, counted in moves. */
  lemma FirstStepCursor(messages: seq<string>, s: ChannelState, inp: StepInput)
    requires s.msgIndex < |messages|
    ensures var (s1, r) := Next(messages, s, inp);
      s1.msgIndex == AdvanceN(s.msgIndex, if Advances(r) then 1 else 0, |messages|)
  {
    NextCases(messages, s, inp);
    assert AdvanceN(s.msgIndex, 1, |messages|) == Advance(AdvanceN(s.msgIndex, 0, |messages|), |messages|);
  }

  /** Over a run the cursor moves on once per send or skip. */
  lemma {:induction false} RunCursor(messages: seq<string>, s: ChannelState, inputs: seq<StepInput>)
    requires s.msgIndex < |messages|
    ensures Run(messages, s, inputs).0.msgIndex == AdvanceN(s.msgIndex, CountAdvances(Run(messages, s, inputs).1), |messages|)
    decreases |inputs|
  {
    if inputs != [] {
      var (s1, r) := Next(messages, s, inputs[0]);
      FirstStepCursor(messages, s, inputs[0]);
      if !r.Failed? {
        RunCursor(messages, s1, inputs[1..]);
        var rs1 := Run(messages, s1, inputs[1..]).1;
        assert ([r] + rs1)[1..] == rs1;
        AdvanceNSum(s.msgIndex, if Advances(r) then 1 else 0, CountAdvances(rs1), |messages|);
      }
    }
  }

  /** Each send in `rs` carries the message the cursor points at after the
      moves before it, starting from `start`. */
  predicate SentInOrder(messages: seq<string>, start: nat, rs: seq<StepResult>)
    requires start < |messages|
  {
    forall k :: 0 <= k < |rs| && rs[k].Sent? ==>
      rs[k].msg == messages[AdvanceN(start, CountAdvances(rs[..k]), |messages|)]
  }

  /** Every send of a run carries the message the cursor then points at, so the
      messages go out in round-robin order from the start index. */
  lemma {:induction false} RunSends(messages: seq<string>, s: ChannelState, inputs: seq<StepInput>)
    requires s.msgIndex < |messages|
    ensures SentInOrder(messages, s.msgIndex, Run(messages, s, inputs).1)
    decreases |inputs|
  {
    if inputs != [] {
      var (s1, r) := Next(messages, s, inputs[0]);
      NextCases(messages, s, inputs[0]);
      FirstStepCursor(messages, s, inputs[0]);
      if !r.Failed? {
        RunSends(messages, s1, inputs[1..]);
        var rs1 := Run(messages, s1, inputs[1..]).1;
        var rs := [r] + rs1;
        var d := if Advances(r) then 1 else 0;
        assert Run(messages, s, inputs).1 == rs;
        forall k | 0 <= k < |rs| && rs[k].Sent?
          ensures rs[k].msg == messages[AdvanceN(s.msgIndex, CountAdvances(rs[..k]), |messages|)]
        {
          if k == 0 {
            assert rs[..k] == [];
          } else {
            assert rs[k] == rs1[k - 1];
            assert rs[..k][0] == r && rs[..k][1..] == rs1[..k - 1];
            assert CountAdvances(rs[..k]) == d + CountAdvances(rs1[..k - 1]);
            assert rs1[k - 1].Sent?;
            AdvanceNSum(s.msgIndex, d, CountAdvances(rs1[..k - 1]), |messages|);
          }
        }
      }
    }
  }

  /** After as many sends and skips as there are messages the cursor is back
      where it started. */
  lemma FullCycleReturns(messages: seq<string>, s: ChannelState, inputs: seq<StepInput>)
    requires s.msgIndex < |messages|
    requires CountAdvances(Run(messages, s, inputs).1) == |messages|
    ensures Run(messages, s, inputs).0.msgIndex == s.msgIndex
  {
    RunCursor(messages, s, inputs);
    AdvanceFullCycle(s.msgIndex, |messages|);
  }

  // ---------------------------------------------------------------------------
  // The visibility probe.

  /** With the box hidden, so that the click fails, the loop as written raises
      and ends the tab, where the awaited probe skips to the next message. */
  lemma HiddenBoxCounterexample()
    ensures var inp := StepInput(0, true, 0, false, false);
      && NextAsWritten(["hi"], ChannelState(0, 0), inp) == (ChannelState(0, 0), Failed(SendFailed))
      && Next(["hi"], ChannelState(0, 0), inp) == (ChannelState(0, 0), Skipped)
  {
  }

  // ---------------------------------------------------------------------------
  // The loop state as the coroutine keeps it.

  /** The state of one `sender` coroutine, stepped with the visibility probe
      awaited (`Next`); the loop exactly as written is `NextAsWritten`. */
  class Channel {
    const messages: seq<string>
    var msgIndex: nat
    var cycleStart: int

    /** The cursor points into the list, or is 0 for an empty list. */
    ghost predicate Valid()
      reads this
    {
      msgIndex < |messages| || (messages == [] && msgIndex == 0)
    }

    function State(): ChannelState
      reads this
    {
      ChannelState(msgIndex, cycleStart)
    }

    /** msg.py:335-336: the minute starts now and the cursor is at the first
        message. */
    constructor(messages: seq<string>, startedAt: int)
      ensures Valid()
      ensures this.messages == messages && msgIndex == 0 && cycleStart == startedAt
    {
      this.messages := messages;
      msgIndex := 0;
      cycleStart := startedAt;
    }

    /** One iteration of `while True` (msg.py:338-378). */
    method Step(inp: StepInput) returns (res: StepResult)
      requires Valid()
      modifies this
      ensures Valid()
      ensures (State(), res) == Next(messages, old(State()), inp)
    {
      var elapsed := inp.now - cycleStart;
      if elapsed >= ReloadAfterMs {
        if !inp.reloadOk {
          return Failed(ReloadFailed);
        }
        cycleStart := inp.reloadedAt;
        return Reloaded;
      }
      if msgIndex >= |messages| {
        return Failed(NoMessage);
      }
      var msg := messages[msgIndex];
      var probe := ProbeAwaited(inp.visible);
      if !Truthy(probe) {
        msgIndex := (msgIndex + 1) % |messages|;
        return Skipped;
      }
      if !inp.sendOk {
        return Failed(SendFailed);
      }
      msgIndex := (msgIndex + 1) % |messages|;
      return Sent(msg);
    }

    /** The loop driven by a finite sequence of inputs: it stops after the
        first iteration that raises, or when the inputs run out. */
    method RunAll(inputs: seq<StepInput>) returns (results: seq<StepResult>)
      requires Valid()
      modifies this
      ensures Valid()
      ensures (State(), results) == Run(messages, old(State()), inputs)
    {
      results := [];
      var i := 0;
      ghost var s0 := State();
      assert inputs[i..] == inputs;
      assert results + Run(messages, s0, inputs).1 == Run(messages, s0, inputs).1;
      while i < |inputs|
        invariant 0 <= i <= |inputs|
        invariant Valid()
        invariant Run(messages, s0, inputs).0 == Run(messages, State(), inputs[i..]).0
        invariant Run(messages, s0, inputs).1 == results + Run(messages, State(), inputs[i..]).1
      {
        ghost var before := State();
        RunFirst(messages, before, inputs, i);
        var res := Step(inputs[i]);
        results := results + [res];
        if res.Failed? {
          return;
        }
        i := i + 1;
      }
      assert results + [] == results;
    }
  }
}
