// The throttle decorator (extensions/git-base/src/decorators.ts:21-48) as a protocol over
// promise reactions.  Calls, settlements and microtasks may come in any order; microtasks are
// run first in, first out.

module Throttle {
  import opened Options

  datatype Outcome = Pending | Fulfilled | Rejected

  // What was chained with `then` onto the promise of a run by `done`
  datatype Reaction = ToClear(run: nat) | ToNext(followUp: nat)

  datatype Task =
    | PassOn(reaction: Reaction, ok: bool)  // the callback inside `done`
    | Clear(run: nat)
    | FireNext(followUp: nat)
    | FailNext(followUp: nat)

  datatype Run = Run(outcome: Outcome, reactions: seq<Reaction>, startedAt: nat, args: nat)

  // The promise kept in `next`: made during a run, and started as a run of its own later
  datatype FollowUp = FollowUp(after: nat, args: nat, started: Option<nat>)

  datatype Promise = OfRun(run: nat) | OfFollowUp(followUp: nat)

  // A call, the run that was current, and the promise it got
  datatype Call = Call(at: nat, args: nat, during: Option<nat>, promise: Promise)

  datatype State = State(
    current: Option<nat>,
    next: Option<nat>,
    runs: seq<Run>,
    followUps: seq<FollowUp>,
    queue: seq<Task>,
    calls: seq<Call>,
    now: nat)

  const INITIAL := State(None, None, [], [], [], [], 0)

  // ----- steps -----

  ghost predicate IdsExist(st: State) {
    && (st.current.Some? ==> st.current.value < |st.runs|)
    && (st.next.Some? ==> st.next.value < |st.followUps|)
    && (forall i :: 0 <= i < |st.queue| ==> TaskExists(st, st.queue[i]))
  }

  predicate TaskExists(st: State, task: Task) {
    match task
    case PassOn(ToClear(r), _) => r < |st.runs|
    case PassOn(ToNext(f), _) => f < |st.followUps|
    case Clear(r) => r < |st.runs|
    case FireNext(f) => f < |st.followUps|
    case FailNext(f) => f < |st.followUps|
  }

  function StartRun(st: State, args: nat): State {
    var r := |st.runs|;
    st.(runs := st.runs + [Run(Pending, [ToClear(r)], st.now, args)], current := Some(r))
  }

  // `then` on the promise of a run: a settled promise queues the reaction at once
  function AddReaction(st: State, r: nat, reaction: Reaction): State
    requires r < |st.runs|
  {
    if st.runs[r].outcome.Pending? then
      st.(runs := st.runs[r := st.runs[r].(reactions := st.runs[r].reactions + [reaction])])
    else
      st.(queue := st.queue + [PassOn(reaction, st.runs[r].outcome.Fulfilled?)])
  }

  function MakeFollowUp(st: State, r: nat, args: nat): State
    requires r < |st.runs|
  {
    var f := |st.followUps|;
    AddReaction(st.(followUps := st.followUps + [FollowUp(r, args, None)], next := Some(f)), r, ToNext(f))
  }

  // trigger: the new state and the promise it returns
  function Trigger(st: State, args: nat): (State, Promise)
    requires st.current.Some? ==> st.current.value < |st.runs|
  {
    if st.next.Some? then (st, OfFollowUp(st.next.value))
    else if st.current.Some? then (MakeFollowUp(st, st.current.value, args), OfFollowUp(|st.followUps|))
    else (StartRun(st, args), OfRun(|st.runs|))
  }

  function DoCall(st: State, args: nat): State
    requires st.current.Some? ==> st.current.value < |st.runs|
  {
    var (s, p) := Trigger(st, args);
    s.(calls := s.calls + [Call(st.now, args, st.current, p)], now := st.now + 1)
  }

  function Settle(st: State, r: nat, ok: bool): State
    requires r < |st.runs| && st.runs[r].outcome.Pending?
  {
    var run := st.runs[r];
    st.(runs := st.runs[r := run.(outcome := if ok then Fulfilled else Rejected, reactions := [])],
        queue := st.queue + seq(|run.reactions|, i requires 0 <= i < |run.reactions| => PassOn(run.reactions[i], ok)),
        now := st.now + 1)
  }

  // The callback of the follow-up: next is forgotten and trigger called with its arguments.
  function Fire(st: State, f: nat): State
    requires f < |st.followUps| && (st.current.Some? ==> st.current.value < |st.runs|)
  {
    var (s, p) := Trigger(st.(next := None), st.followUps[f].args);
    if p.OfRun? && f < |s.followUps| then s.(followUps := s.followUps[f := s.followUps[f].(started := Some(p.run))]) else s
  }

  function RunMicrotask(st: State): State
    requires st.queue != [] && TaskExists(st, st.queue[0])
    requires st.current.Some? ==> st.current.value < |st.runs|
  {
    var s := st.(queue := st.queue[1..]);
    var r := match st.queue[0]
      case PassOn(ToClear(r), _) => s.(queue := s.queue + [Clear(r)])
      case PassOn(ToNext(f), ok) => s.(queue := s.queue + [if ok then FireNext(f) else FailNext(f)])
      case Clear(_) => s.(current := None)
      case FireNext(f) => Fire(s, f)
      case FailNext(_) => s;
    r.(now := st.now + 1)
  }

  datatype Step = CallStep(args: nat) | SettleStep(run: nat, ok: bool) | MicrotaskStep

  ghost predicate Takes(st: State, step: Step, r: State) {
    IdsExist(st) &&
    match step
    case CallStep(args) => r == DoCall(st, args)
    case SettleStep(run, ok) => run < |st.runs| && st.runs[run].outcome.Pending? && r == Settle(st, run, ok)
    case MicrotaskStep => st.queue != [] && r == RunMicrotask(st)
  }

  ghost predicate IsRun(states: seq<State>, steps: seq<Step>) {
    && |states| == |steps| + 1
    && states[0] == INITIAL
    && forall i :: 0 <= i < |steps| ==> Takes(states[i], steps[i], states[i + 1])
  }

  // ----- the phases between a start and the next -----

  function Fired(f: nat, ok: bool): Task {
    if ok then FireNext(f) else FailNext(f)
  }

  ghost predicate Phase(st: State) {
    match (st.current, st.next)
    case (Some(r), None) =>
      && r < |st.runs|
      && if st.runs[r].outcome.Pending? then st.runs[r].reactions == [ToClear(r)] && st.queue == []
         else st.queue == [PassOn(ToClear(r), st.runs[r].outcome.Fulfilled?)] || st.queue == [Clear(r)]
    case (Some(r), Some(f)) =>
      && r < |st.runs| && f < |st.followUps| && st.followUps[f].after == r
      && (var ok := st.runs[r].outcome.Fulfilled?;
          if st.runs[r].outcome.Pending? then st.runs[r].reactions == [ToClear(r), ToNext(f)] && st.queue == []
          else
            || st.queue == [PassOn(ToClear(r), ok), PassOn(ToNext(f), ok)]
            || st.queue == [PassOn(ToNext(f), ok), Clear(r)]
            || st.queue == [Clear(r), Fired(f, ok)]
            || st.queue == [Clear(r), PassOn(ToNext(f), ok)])
    case (None, Some(f)) =>
      && f < |st.followUps| && st.followUps[f].after < |st.runs|
      && (var ok := st.runs[st.followUps[f].after].outcome.Fulfilled?;
          st.queue == [PassOn(ToNext(f), ok)] || st.queue == [Fired(f, ok)] || (st.queue == [] && !ok))
    case (None, None) => st.queue == []
  }

  // Only the current run can be in flight.
  ghost predicate OneInFlight(st: State) {
    forall r :: 0 <= r < |st.runs| && st.runs[r].outcome.Pending? ==> st.current == Some(r)
  }

  // A follow-up that is not waiting was made after a run that fulfilled, and started a later run,
  // with the arguments it was made with, before the next follow-up was made.
  ghost predicate FollowUpOrdered(st: State, f: nat)
    requires f < |st.followUps|
  {
    var up := st.followUps[f];
    && up.after < |st.runs|
    && if st.next == Some(f) then up.started.None?
       else
         && st.runs[up.after].outcome.Fulfilled?
         && up.started.Some? && up.after < up.started.value < |st.runs|
         && st.runs[up.started.value].args == up.args
         && (f + 1 < |st.followUps| ==> up.started.value <= st.followUps[f + 1].after)
  }

  ghost predicate FollowUpsInOrder(st: State) {
    && (forall f :: 0 <= f < |st.followUps| ==> FollowUpOrdered(st, f))
    && (st.next.Some? ==> st.next.value == |st.followUps| - 1)
    && (st.current.Some? ==> st.current.value == |st.runs| - 1)
  }

  // The promise of a call belongs to a run that started at that call, or to a follow-up made
  // after the run that was current, whose own run, once started, started later.
  ghost predicate CallAnswered(st: State, c: Call) {
    match c.promise
    case OfRun(r) => r < |st.runs| && st.runs[r].startedAt == c.at && st.runs[r].args == c.args && c.during.None?
    case OfFollowUp(f) =>
      && f < |st.followUps|
      && (c.during.Some? ==> c.during.value == st.followUps[f].after)
      && (st.followUps[f].started.Some? ==>
            st.followUps[f].started.value < |st.runs| && st.runs[st.followUps[f].started.value].startedAt > c.at)
  }

  ghost predicate CallsAnswered(st: State) {
    && (forall i :: 0 <= i < |st.calls| ==> st.calls[i].at < st.now && CallAnswered(st, st.calls[i]))
    && (forall r :: 0 <= r < |st.runs| ==> st.runs[r].startedAt < st.now)
  }

  ghost predicate Invariant(st: State) {
    IdsExist(st) && Phase(st) && OneInFlight(st) && FollowUpsInOrder(st) && CallsAnswered(st)
  }

  // ----- every step keeps the invariant -----

  // Follow-ups and the arguments of runs are as before.
  lemma OrderKept(st: State, s: State)
    requires FollowUpsInOrder(st) && s.followUps == st.followUps && s.next == st.next
    requires |st.runs| <= |s.runs|
    requires forall r :: 0 <= r < |st.runs| ==>
      s.runs[r].args == st.runs[r].args && (st.runs[r].outcome.Fulfilled? ==> s.runs[r].outcome.Fulfilled?)
    requires s.current.Some? ==> s.current.value == |s.runs| - 1
    ensures FollowUpsInOrder(s)
  {
    forall f | 0 <= f < |s.followUps|
      ensures FollowUpOrdered(s, f)
    {
      assert FollowUpOrdered(st, f);
    }
  }

  lemma StartKeeps(st: State, c: Call)
    requires Invariant(st) && st.current.None? && st.next.None?
    requires c == Call(st.now, c.args, None, OfRun(|st.runs|))
    ensures var s := StartRun(st, c.args); Invariant(s.(calls := s.calls + [c], now := s.now + 1))
  {
    var s := StartRun(st, c.args);
    var r := s.(calls := s.calls + [c], now := s.now + 1);
    OrderKept(st, r);
    forall i | 0 <= i < |r.calls|
      ensures r.calls[i].at < r.now && CallAnswered(r, r.calls[i])
    {
      if i < |st.calls| {
        assert CallAnswered(st, st.calls[i]);
      }
    }
  }

  lemma FollowUpKeeps(st: State, c: Call)
    requires Invariant(st) && st.current.Some? && st.next.None?
    requires c == Call(st.now, c.args, st.current, OfFollowUp(|st.followUps|))
    ensures var s := MakeFollowUp(st, st.current.value, c.args); Invariant(s.(calls := s.calls + [c], now := s.now + 1))
  {
    var s := MakeFollowUp(st, st.current.value, c.args);
    var r := s.(calls := s.calls + [c], now := s.now + 1);
    FollowUpPhase(st, c.args);
    FollowUpOrder(st, c.args);
    FollowUpAnswers(st, c);
    SameProtocol(s, r);
  }

  // The protocol does not look at calls and time.
  lemma SameProtocol(s: State, r: State)
    requires r == s.(calls := r.calls, now := r.now)
    requires Phase(s) && IdsExist(s) && FollowUpsInOrder(s) && OneInFlight(s)
    ensures Phase(r) && IdsExist(r) && FollowUpsInOrder(r) && OneInFlight(r)
  {
    OrderKept(s, r);
  }

  lemma FollowUpOrder(st: State, args: nat)
    requires OneInFlight(st) && FollowUpsInOrder(st) && st.current.Some? && st.next.None?
    ensures st.current.value < |st.runs|
    ensures var s := MakeFollowUp(st, st.current.value, args); FollowUpsInOrder(s) && OneInFlight(s)
  {
    var s := MakeFollowUp(st, st.current.value, args);
    forall f | 0 <= f < |s.followUps|
      ensures FollowUpOrdered(s, f)
    {
      if f < |st.followUps| {
        assert FollowUpOrdered(st, f);
      }
    }
  }

  lemma FollowUpAnswers(st: State, c: Call)
    requires CallsAnswered(st) && st.current.Some? && st.current.value < |st.runs| && st.next.None?
    requires c == Call(st.now, c.args, st.current, OfFollowUp(|st.followUps|))
    ensures var s := MakeFollowUp(st, st.current.value, c.args); CallsAnswered(s.(calls := s.calls + [c], now := s.now + 1))
  {
    var s := MakeFollowUp(st, st.current.value, c.args);
    var r := s.(calls := s.calls + [c], now := s.now + 1);
    forall i | 0 <= i < |r.calls|
      ensures r.calls[i].at < r.now && CallAnswered(r, r.calls[i])
    {
      if i < |st.calls| {
        assert CallAnswered(st, st.calls[i]);
      }
    }
  }

  lemma FollowUpPhase(st: State, args: nat)
    requires IdsExist(st) && Phase(st) && st.current.Some? && st.next.None?
    ensures var s := MakeFollowUp(st, st.current.value, args); Phase(s) && IdsExist(s)
  {
  }

  lemma CallKeeps(st: State, args: nat)
    requires Invariant(st)
    ensures Invariant(DoCall(st, args))
  {
    var c := Call(st.now, args, st.current, Trigger(st, args).1);
    if st.next.Some? {
      var r := DoCall(st, args);
      SameProtocol(st, r);
      assert FollowUpOrdered(st, st.next.value);
      forall i | 0 <= i < |r.calls|
        ensures r.calls[i].at < r.now && CallAnswered(r, r.calls[i])
      {
        if i < |st.calls| {
          assert CallAnswered(st, st.calls[i]);
        }
      }
    } else if st.current.Some? {
      FollowUpKeeps(st, c);
    } else {
      StartKeeps(st, c);
    }
  }

  lemma SettleKeeps(st: State, r: nat, ok: bool)
    requires Invariant(st) && r < |st.runs| && st.runs[r].outcome.Pending?
    ensures Invariant(Settle(st, r, ok))
  {
    var s := Settle(st, r, ok);
    assert st.current == Some(r);
    OrderKept(st, s);
    forall i | 0 <= i < |s.calls|
      ensures s.calls[i].at < s.now && CallAnswered(s, s.calls[i])
    {
      assert CallAnswered(st, st.calls[i]);
    }
  }

  lemma QuietMicrotaskKeeps(st: State)
    requires Invariant(st) && st.queue != [] && !st.queue[0].FireNext?
    ensures Invariant(RunMicrotask(st))
  {
    var s := RunMicrotask(st);
    QuietPhase(st);
    OrderKept(st, s);
    forall i | 0 <= i < |s.calls|
      ensures s.calls[i].at < s.now && CallAnswered(s, s.calls[i])
    {
      assert CallAnswered(st, st.calls[i]);
    }
  }

  lemma QuietPhase(st: State)
    requires IdsExist(st) && Phase(st) && st.queue != [] && !st.queue[0].FireNext?
    ensures Phase(RunMicrotask(st)) && IdsExist(RunMicrotask(st))
  {
    QuietIds(st);
    var head, rest := st.queue[0], st.queue[1..];
    assert st.queue == [head] + rest;
    if |st.queue| > 1 {
      QuietPhaseTwo(st);
    } else {
      QuietPhaseOne(st);
    }
  }

  lemma QuietIds(st: State)
    requires IdsExist(st) && st.queue != [] && !st.queue[0].FireNext?
    ensures TaskExists(st, st.queue[0]) && IdsExist(RunMicrotask(st))
  {
    var s := RunMicrotask(st);
    forall i | 0 <= i < |s.queue|
      ensures TaskExists(s, s.queue[i])
    {
      if i < |st.queue| - 1 {
        assert s.queue[i] == st.queue[i + 1];
      } else {
        assert TaskExists(st, st.queue[0]);
      }
    }
  }

  lemma QuietPhaseOne(st: State)
    requires Phase(st) && |st.queue| == 1 && !st.queue[0].FireNext? && TaskExists(st, st.queue[0])
    requires st.current.Some? ==> st.current.value < |st.runs|
    ensures Phase(RunMicrotask(st))
  {
    assert st.queue[1..] == [];
  }

  lemma QuietPhaseTwo(st: State)
    requires Phase(st) && |st.queue| > 1 && !st.queue[0].FireNext? && TaskExists(st, st.queue[0])
    requires st.current.Some? ==> st.current.value < |st.runs|
    ensures Phase(RunMicrotask(st))
  {
    assert st.queue[1..] == [st.queue[1]];
  }

  // When the follow-up fires nothing is current, and its run starts.
  lemma FiresAlone(st: State)
    requires Invariant(st) && st.queue != [] && st.queue[0].FireNext?
    ensures var f := st.queue[0].followUp;
      && st.queue == [FireNext(f)] && st.current == None && st.next == Some(f)
      && f < |st.followUps| && st.followUps[f].after < |st.runs| && st.runs[st.followUps[f].after].outcome.Fulfilled?
      && RunMicrotask(st) == st.(
           queue := [], next := None, current := Some(|st.runs|),
           runs := st.runs + [Run(Pending, [ToClear(|st.runs|)], st.now, st.followUps[f].args)],
           followUps := st.followUps[f := st.followUps[f].(started := Some(|st.runs|))],
           now := st.now + 1)
  {
  }

  lemma FireKeeps(st: State)
    requires Invariant(st) && st.queue != [] && st.queue[0].FireNext?
    ensures Invariant(RunMicrotask(st))
  {
    var s := RunMicrotask(st);
    FiresAlone(st);
    forall i | 0 <= i < |s.calls|
      ensures s.calls[i].at < s.now && CallAnswered(s, s.calls[i])
    {
      assert CallAnswered(st, st.calls[i]);
    }
    FireOrder(st, s);
  }

  lemma FireOrder(st: State, s: State)
    requires OneInFlight(st) && FollowUpsInOrder(st) && st.current.None? && st.next.Some? && st.next.value < |st.followUps|
    requires st.followUps[st.next.value].after < |st.runs| && st.runs[st.followUps[st.next.value].after].outcome.Fulfilled?
    requires var f := st.next.value;
      s == st.(queue := [], next := None, current := Some(|st.runs|),
               runs := st.runs + [Run(Pending, [ToClear(|st.runs|)], st.now, st.followUps[f].args)],
               followUps := st.followUps[f := st.followUps[f].(started := Some(|st.runs|))],
               now := st.now + 1)
    ensures OneInFlight(s) && FollowUpsInOrder(s)
  {
    forall f | 0 <= f < |s.followUps|
      ensures FollowUpOrdered(s, f)
    {
      assert FollowUpOrdered(st, f);
    }
  }

  lemma MicrotaskKeeps(st: State)
    requires Invariant(st) && st.queue != []
    ensures Invariant(RunMicrotask(st))
  {
    if st.queue[0].FireNext? {
      FireKeeps(st);
    } else {
      QuietMicrotaskKeeps(st);
    }
  }

  lemma {:induction false} RunInvariant(states: seq<State>, steps: seq<Step>, i: nat)
    requires IsRun(states, steps) && i < |states|
    ensures Invariant(states[i])
  {
    if i > 0 {
      RunInvariant(states, steps, i - 1);
      assert Takes(states[i - 1], steps[i - 1], states[i]);
      match steps[i - 1] {
        case CallStep(args) => CallKeeps(states[i - 1], args);
        case SettleStep(run, ok) => SettleKeeps(states[i - 1], run, ok);
        case MicrotaskStep => MicrotaskKeeps(states[i - 1]);
      }
    }
  }

  // ----- what callers can rely on -----

  // At most one run is in flight, even when runs fail.
  lemma AtMostOneInFlight(states: seq<State>, steps: seq<Step>, i: nat, r: nat, q: nat)
    requires IsRun(states, steps) && i < |states|
    requires r < |states[i].runs| && q < |states[i].runs|
    requires states[i].runs[r].outcome.Pending? && states[i].runs[q].outcome.Pending?
    ensures r == q && states[i].current == Some(r)
  {
    RunInvariant(states, steps, i);
  }

  // All calls made while one run is current share one promise.
  lemma CallsDuringRunShare(states: seq<State>, steps: seq<Step>, i: nat, j: nat, k: nat)
    requires IsRun(states, steps) && i < |states|
    requires j < |states[i].calls| && k < |states[i].calls|
    requires states[i].calls[j].during.Some? && states[i].calls[j].during == states[i].calls[k].during
    ensures states[i].calls[j].promise == states[i].calls[k].promise && states[i].calls[j].promise.OfFollowUp?
  {
    RunInvariant(states, steps, i);
    var st := states[i];
    assert CallAnswered(st, st.calls[j]) && CallAnswered(st, st.calls[k]);
    var f, g := st.calls[j].promise.followUp, st.calls[k].promise.followUp;
    if f < g {
      StartedBefore(st, f, g);
    } else if g < f {
      StartedBefore(st, g, f);
    }
  }

  // A run that is settled holds no reactions: all of them were queued when it settled.
  ghost predicate SettledEmpty(st: State) {
    forall r :: 0 <= r < |st.runs| && !st.runs[r].outcome.Pending? ==> st.runs[r].reactions == []
  }

  lemma StepSettledEmpty(st: State, step: Step, r: State)
    requires SettledEmpty(st) && Takes(st, step, r)
    ensures SettledEmpty(r)
  {
  }

  lemma {:induction false} SettledHoldNothing(states: seq<State>, steps: seq<Step>, i: nat)
    requires IsRun(states, steps) && i < |states|
    ensures forall r :: 0 <= r < |states[i].runs| && !states[i].runs[r].outcome.Pending? ==> states[i].runs[r].reactions == []
  {
    hide Takes;
    if i > 0 {
      SettledHoldNothing(states, steps, i - 1);
      assert Takes(states[i - 1], steps[i - 1], states[i]);
      StepSettledEmpty(states[i - 1], steps[i - 1], states[i]);
    }
  }

  // ----- which steps start runs -----

  // The step calls the function at once, or is the callback that fires the follow-up f.
  ghost predicate StartsAtOnce(st: State, step: Step) {
    step.CallStep? && st.current.None? && st.next.None?
  }

  ghost predicate Fires(st: State, step: Step, f: nat) {
    step.MicrotaskStep? && st.queue != [] && st.queue[0] == FireNext(f)
  }

  lemma CallStarts(st: State, args: nat)
    requires Invariant(st)
    ensures var r := DoCall(st, args);
      && st.followUps <= r.followUps
      && |r.runs| == if StartsAtOnce(st, CallStep(args)) then |st.runs| + 1 else |st.runs|
  {
  }

  lemma QuietMicrotaskStarts(st: State)
    requires Invariant(st) && st.queue != [] && !st.queue[0].FireNext?
    ensures var r := RunMicrotask(st); r.runs == st.runs && r.followUps == st.followUps
  {
  }

  lemma FireStarts(st: State, f: nat)
    requires Invariant(st) && Fires(st, MicrotaskStep, f)
    ensures f < |st.followUps| && st.followUps[f].started.None?
    ensures var r := RunMicrotask(st);
      |r.runs| == |st.runs| + 1 && r.followUps == st.followUps[f := st.followUps[f].(started := Some(|st.runs|))]
  {
    FiresAlone(st);
    assert FollowUpOrdered(st, f);
  }

  // A step starts a run exactly if it is a call with nothing current and nothing kept, or the
  // firing of a follow-up.  A follow-up that fires had not started a run, and is noted to have
  // started this one; nothing else is ever noted about a follow-up.
  lemma RunsStart(states: seq<State>, steps: seq<Step>, i: nat)
    requires IsRun(states, steps) && i < |steps|
    ensures var st, r := states[i], states[i + 1];
      && |st.runs| <= |r.runs| <= |st.runs| + 1 && |st.followUps| <= |r.followUps|
      && (|r.runs| == |st.runs| + 1 <==> StartsAtOnce(st, steps[i]) || exists f :: Fires(st, steps[i], f))
      && (forall f :: 0 <= f < |st.followUps| ==>
            if Fires(st, steps[i], f) then
              st.followUps[f].started.None? && r.followUps[f] == st.followUps[f].(started := Some(|st.runs|))
            else r.followUps[f] == st.followUps[f])
  {
    RunInvariant(states, steps, i);
    var st := states[i];
    assert Takes(st, steps[i], states[i + 1]);
    match steps[i] {
      case CallStep(args) => CallStarts(st, args);
      case SettleStep(_, _) =>
      case MicrotaskStep =>
        if st.queue[0].FireNext? {
          FireStarts(st, st.queue[0].followUp);
          assert Fires(st, steps[i], st.queue[0].followUp);
        } else {
          QuietMicrotaskStarts(st);
        }
    }
  }

  // What a follow-up has started stays what it started.
  lemma {:induction false} StartedForGood(states: seq<State>, steps: seq<Step>, i: nat, j: nat, f: nat)
    requires IsRun(states, steps) && i <= j < |states|
    requires f < |states[i].followUps| && states[i].followUps[f].started.Some?
    ensures f < |states[j].followUps| && states[j].followUps[f].started == states[i].followUps[f].started
    decreases j
  {
    hide Takes, Fires;
    if i < j {
      StartedForGood(states, steps, i, j - 1, f);
      RunsStart(states, steps, j - 1);
    }
  }

  // So a follow-up fires once at most ...
  lemma FiresOnce(states: seq<State>, steps: seq<Step>, i: nat, j: nat, f: nat)
    requires IsRun(states, steps) && i < j < |steps| && Fires(states[i], steps[i], f)
    ensures !Fires(states[j], steps[j], f)
  {
    RunInvariant(states, steps, i);
    assert Takes(states[i], steps[i], states[i + 1]);
    FireStarts(states[i], f);
    RunsStart(states, steps, i);
    StartedForGood(states, steps, i + 1, j, f);
    RunsStart(states, steps, j);
  }

  // ... and two follow-ups never start the same run.
  lemma FollowUpsApart(states: seq<State>, steps: seq<Step>, i: nat, f: nat, g: nat)
    requires IsRun(states, steps) && i < |states| && f < g < |states[i].followUps|
    requires states[i].followUps[f].started.Some? && states[i].followUps[g].started.Some?
    ensures states[i].followUps[f].after < states[i].followUps[f].started.value <= states[i].followUps[g].after
    ensures states[i].followUps[g].after < states[i].followUps[g].started.value
  {
    RunInvariant(states, steps, i);
    StartedBefore(states[i], f, g);
    assert FollowUpOrdered(states[i], g);
  }

  lemma {:induction false} StartedBefore(st: State, f: nat, g: nat)
    requires FollowUpsInOrder(st) && f < g < |st.followUps|
    ensures st.followUps[f].started.Some? && st.followUps[f].after < st.followUps[f].started.value <= st.followUps[g].after
    decreases g - f
  {
    assert FollowUpOrdered(st, f);
    if f + 1 < g {
      StartedBefore(st, f + 1, g);
    }
  }

  // ----- arguments -----

  // Calls are only recorded, and a follow-up is made exactly by a call with a run current and nothing
  // kept: with the arguments of that call, which gets its promise.
  lemma CallsRecorded(states: seq<State>, steps: seq<Step>, i: nat)
    requires IsRun(states, steps) && i < |steps|
    ensures var st, r := states[i], states[i + 1];
      match steps[i]
      case CallStep(args) =>
        && (exists p :: r.calls == st.calls + [Call(st.now, args, st.current, p)])
        && (if st.current.Some? && st.next.None? then
              && r.followUps == st.followUps + [FollowUp(st.current.value, args, None)]
              && r.calls[|st.calls|].promise == OfFollowUp(|st.followUps|)
            else |r.followUps| == |st.followUps|)
      case _ => r.calls == st.calls && |r.followUps| == |st.followUps|
  {
    RunInvariant(states, steps, i);
    var st := states[i];
    assert Takes(st, steps[i], states[i + 1]);
    match steps[i] {
      case CallStep(args) =>
        assert DoCall(st, args).calls == st.calls + [Call(st.now, args, st.current, Trigger(st, args).1)];
      case SettleStep(_, _) =>
      case MicrotaskStep =>
        if st.queue[0].FireNext? {
          FiresAlone(st);
        } else {
          QuietMicrotaskStarts(st);
        }
    }
  }

  // The k-th call was the first that got the promise of the follow-up.
  ghost predicate MadeBy(st: State, f: nat, k: nat)
    requires f < |st.followUps|
  {
    && k < |st.calls| && st.calls[k].promise == OfFollowUp(f)
    && st.calls[k].args == st.followUps[f].args && st.calls[k].during == Some(st.followUps[f].after)
    && forall j :: 0 <= j < k ==> st.calls[j].promise != OfFollowUp(f)
  }

  lemma {:induction false} FollowUpMadeBy(states: seq<State>, steps: seq<Step>, i: nat, f: nat) returns (k: nat)
    requires IsRun(states, steps) && i < |states| && f < |states[i].followUps|
    ensures MadeBy(states[i], f, k)
  {
    hide Takes, Fires, StartsAtOnce;
    k := 0;
    if i > 0 {
      var st := states[i - 1];
      CallsRecorded(states, steps, i - 1);
      RunsStart(states, steps, i - 1);
      if f < |st.followUps| {
        k := FollowUpMadeBy(states, steps, i - 1, f);
      } else {
        k := |st.calls|;
        RunInvariant(states, steps, i - 1);
        PromisesExist(st);
      }
    }
  }

  lemma PromisesExist(st: State)
    requires Invariant(st)
    ensures forall j :: 0 <= j < |st.calls| ==> st.calls[j].promise != OfFollowUp(|st.followUps|)
  {
    forall j | 0 <= j < |st.calls|
      ensures st.calls[j].promise != OfFollowUp(|st.followUps|)
    {
      assert CallAnswered(st, st.calls[j]);
    }
  }

  // The run of a follow-up has the arguments of the first call that got its promise, whatever the
  // others were called with.
  lemma FollowUpArguments(states: seq<State>, steps: seq<Step>, i: nat, f: nat) returns (k: nat)
    requires IsRun(states, steps) && i < |states| && f < |states[i].followUps|
    ensures MadeBy(states[i], f, k)
    ensures var up := states[i].followUps[f];
      up.started.Some? ==> up.started.value < |states[i].runs| && states[i].runs[up.started.value].args == states[i].calls[k].args
  {
    k := FollowUpMadeBy(states, steps, i, f);
    RunInvariant(states, steps, i);
    assert FollowUpOrdered(states[i], f);
  }

  // A call is answered by a run that starts with it, or by a run that starts later; never by one
  // that was already under way.
  lemma AnswerIsFresh(states: seq<State>, steps: seq<Step>, i: nat, k: nat)
    requires IsRun(states, steps) && i < |states| && k < |states[i].calls|
    ensures var st, c := states[i], states[i].calls[k];
      match c.promise
      case OfRun(r) => r < |st.runs| && st.runs[r].startedAt == c.at && st.runs[r].args == c.args
      case OfFollowUp(f) =>
        && f < |st.followUps|
        && (st.followUps[f].started.Some? ==>
              st.followUps[f].started.value < |st.runs| && st.runs[st.followUps[f].started.value].startedAt > c.at)
  {
    RunInvariant(states, steps, i);
    assert CallAnswered(states[i], states[i].calls[k]);
  }

  // Nothing is in flight and no reaction is waiting.
  ghost predicate Quiet(st: State) {
    st.queue == [] && forall r :: 0 <= r < |st.runs| ==> !st.runs[r].outcome.Pending?
  }

  ghost predicate AllStarted(st: State) {
    forall f :: 0 <= f < |st.followUps| ==> st.followUps[f].started.Some?
  }

  ghost predicate NoneAfterRejection(st: State) {
    forall f :: 0 <= f < |st.followUps| && st.followUps[f].after < |st.runs| ==> !st.runs[st.followUps[f].after].outcome.Rejected?
  }

  // When everything has settled, every follow-up has had its run exactly when none was made
  // after a run that failed.
  lemma AllAnsweredIff(states: seq<State>, steps: seq<Step>, i: nat)
    requires IsRun(states, steps) && i < |states| && Quiet(states[i])
    ensures AllStarted(states[i]) <==> NoneAfterRejection(states[i])
    ensures AllStarted(states[i]) ==> states[i].current.None? && states[i].next.None?
  {
    RunInvariant(states, steps, i);
    var st := states[i];
    assert st.current.None?;
    if st.next.Some? {
      var f := st.next.value;
      assert FollowUpOrdered(st, f);
      assert st.followUps[f].started.None? && st.runs[st.followUps[f].after].outcome.Rejected?;
    } else {
      forall f | 0 <= f < |st.followUps|
        ensures st.followUps[f].started.Some? && st.followUps[f].after < |st.runs| && st.runs[st.followUps[f].after].outcome.Fulfilled?
      {
        assert FollowUpOrdered(st, f);
      }
    }
  }

  // The waiting follow-up of a failed run is never forgotten: from then on no run starts, and
  // every call gets its promise.
  ghost predicate Stuck(st: State, f: nat) {
    st.current.None? && st.next == Some(f) && Quiet(st)
  }

  lemma {:induction false} StuckForever(states: seq<State>, steps: seq<Step>, i: nat, j: nat, f: nat)
    requires IsRun(states, steps) && i <= j < |states| && Stuck(states[i], f)
    ensures Stuck(states[j], f) && states[j].runs == states[i].runs
    ensures states[i].calls <= states[j].calls
    ensures forall k :: |states[i].calls| <= k < |states[j].calls| ==> states[j].calls[k].promise == OfFollowUp(f)
  {
    if i < j {
      StuckForever(states, steps, i, j - 1, f);
      assert Takes(states[j - 1], steps[j - 1], states[j]);
    }
  }

  lemma RunGoesOn(states: seq<State>, steps: seq<Step>, step: Step, r: State)
    requires IsRun(states, steps) && Takes(states[|steps|], step, r)
    ensures IsRun(states + [r], steps + [step]) && (states + [r])[|steps + [step]|] == r
  {
    hide Takes;
    var ss, ts := states + [r], steps + [step];
    forall i | 0 <= i < |ts|
      ensures Takes(ss[i], ts[i], ss[i + 1])
    {
      if i < |steps| {
        assert Takes(states[i], steps[i], states[i + 1]);
      }
    }
  }

  // Such a state is reached: a call, a second call while the run is in flight, a failure.
  lemma FailureCanGetStuck()
    ensures exists states, steps :: IsRun(states, steps) && Stuck(states[|steps|], 0)
  {
    var calls := DoCall(DoCall(INITIAL, 0), 1);
    var settled := Settle(calls, 0, false);
    TwoCalls(calls, settled);
    var one := RunMicrotask(settled);
    var two := RunMicrotask(one);
    assert two.queue == [Clear(0), FailNext(0)];
    TwoLast(two);
    var three := RunMicrotask(two);
    ReachedBy(calls, settled, one, two, three);
  }

  lemma ReachedBy(calls: State, settled: State, one: State, two: State, three: State)
    requires Takes(INITIAL, CallStep(0), DoCall(INITIAL, 0)) && Takes(DoCall(INITIAL, 0), CallStep(1), calls)
    requires Takes(calls, SettleStep(0, false), settled) && Takes(settled, MicrotaskStep, one) && Takes(one, MicrotaskStep, two)
    requires Takes(two, MicrotaskStep, three) && three.queue != [] && TaskExists(three, three.queue[0]) && three.current.None?
    requires Takes(three, MicrotaskStep, RunMicrotask(three)) && Stuck(RunMicrotask(three), 0)
    ensures exists states, steps :: IsRun(states, steps) && Stuck(states[|steps|], 0)
  {
    hide Takes, Stuck, DoCall, RunMicrotask, TaskExists;
    var states, steps := [INITIAL], [];
    RunGoesOn(states, steps, CallStep(0), DoCall(INITIAL, 0));
    states, steps := states + [DoCall(INITIAL, 0)], steps + [CallStep(0)];
    RunGoesOn(states, steps, CallStep(1), calls);
    states, steps := states + [calls], steps + [CallStep(1)];
    RunGoesOn(states, steps, SettleStep(0, false), settled);
    states, steps := states + [settled], steps + [SettleStep(0, false)];
    RunGoesOn(states, steps, MicrotaskStep, one);
    states, steps := states + [one], steps + [MicrotaskStep];
    RunGoesOn(states, steps, MicrotaskStep, two);
    states, steps := states + [two], steps + [MicrotaskStep];
    RunGoesOn(states, steps, MicrotaskStep, three);
    states, steps := states + [three], steps + [MicrotaskStep];
    RunGoesOn(states, steps, MicrotaskStep, RunMicrotask(three));
  }

  lemma TwoCalls(calls: State, settled: State)
    requires calls == DoCall(DoCall(INITIAL, 0), 1)
    requires calls.runs != [] && calls.runs[0].outcome.Pending? && settled == Settle(calls, 0, false)
    ensures IdsExist(DoCall(INITIAL, 0)) && IdsExist(calls) && IdsExist(settled)
    ensures settled.queue == [PassOn(ToClear(0), false), PassOn(ToNext(0), false)]
    ensures |settled.runs| == 1 && settled.runs[0].outcome.Rejected? && |settled.followUps| == 1
    ensures settled.current == Some(0) && settled.next == Some(0)
  {
    assert calls.runs[0].reactions == [ToClear(0), ToNext(0)];
  }

  lemma TwoLast(st: State)
    requires st.queue == [Clear(0), FailNext(0)] && |st.runs| == 1 && st.runs[0].outcome.Rejected?
    requires |st.followUps| == 1 && st.current == Some(0) && st.next == Some(0)
    ensures var three := RunMicrotask(st);
      && three.queue == [FailNext(0)] && IdsExist(st) && IdsExist(three) && three.current.None?
      && Stuck(RunMicrotask(three), 0)
  {
  }

  // ----- the decorated method of an object -----

  class Throttled {
    // this[currentKey] and this[nextKey]
    var current: Option<nat>
    var next: Option<nat>
    // the promises and the microtask queue of the runtime
    var runs: seq<Run>
    var followUps: seq<FollowUp>
    var queue: seq<Task>
    ghost var calls: seq<Call>
    var now: nat

    ghost function Abs(): State
      reads this
    {
      State(current, next, runs, followUps, queue, calls, now)
    }

    ghost predicate Valid()
      reads this
    {
      Invariant(Abs())
    }

    constructor ()
      ensures Valid() && Abs() == INITIAL
    {
      current, next := None, None;
      runs, followUps, queue := [], [], [];
      calls, now := [], 0;
    }

    // done(this[currentKey]).then(...)
    method Then(r: nat, reaction: Reaction)
      requires r < |runs|
      modifies this`runs, this`queue
      ensures Abs() == AddReaction(old(Abs()), r, reaction)
    {
      if runs[r].outcome.Pending? {
        runs := runs[r := runs[r].(reactions := runs[r].reactions + [reaction])];
      } else {
        queue := queue + [PassOn(reaction, runs[r].outcome.Fulfilled?)];
      }
    }

    method DoTrigger(args: nat) returns (promise: Promise)
      requires current.Some? ==> current.value < |runs|
      modifies this`current, this`next, this`runs, this`followUps, this`queue
      ensures (Abs(), promise) == Trigger(old(Abs()), args)
    {
      if next.Some? {
        return OfFollowUp(next.value);
      }
      if current.Some? {
        var f := |followUps|;
        followUps := followUps + [FollowUp(current.value, args, None)];
        next := Some(f);
        Then(current.value, ToNext(f));
        return OfFollowUp(f);
      }
      var r := |runs|;
      runs := runs + [Run(Pending, [], now, args)];
      current := Some(r);
      ghost var before := Abs();
      Then(r, ToClear(r));
      assert Abs() == AddReaction(before, r, ToClear(r));
      assert [] + [ToClear(r)] == [ToClear(r)];
      assert before.runs[r := Run(Pending, [ToClear(r)], now, args)] == old(runs) + [Run(Pending, [ToClear(r)], now, args)];
      promise := OfRun(r);
    }

    // A call of the decorated method
    method Invoke(args: nat) returns (promise: Promise)
      requires Valid()
      modifies this
      ensures Valid() && Abs() == DoCall(old(Abs()), args) && promise == Trigger(old(Abs()), args).1
    {
      CallKeeps(Abs(), args);
      ghost var at, during := now, current;
      promise := DoTrigger(args);
      calls := calls + [Call(at, args, during, promise)];
      now := now + 1;
    }

    // The promise of a run settles.
    method SettleRun(r: nat, ok: bool)
      requires Valid() && r < |runs| && runs[r].outcome.Pending?
      modifies this
      ensures Valid() && Abs() == Settle(old(Abs()), r, ok)
    {
      SettleKeeps(Abs(), r, ok);
      var run := runs[r];
      runs := runs[r := run.(outcome := if ok then Fulfilled else Rejected, reactions := [])];
      queue := queue + seq(|run.reactions|, i requires 0 <= i < |run.reactions| => PassOn(run.reactions[i], ok));
      now := now + 1;
    }

    // The callback that was chained to fire the follow-up
    method FireFollowUp(f: nat)
      requires f < |followUps| && (current.Some? ==> current.value < |runs|)
      modifies this`current, this`next, this`runs, this`followUps, this`queue
      ensures Abs() == Fire(old(Abs()), f)
    {
      next := None;
      var promise := DoTrigger(followUps[f].args);
      if promise.OfRun? && f < |followUps| {
        followUps := followUps[f := followUps[f].(started := Some(promise.run))];
      }
    }

    // The runtime takes the next microtask from its queue.
    method NextMicrotask()
      requires Valid() && queue != []
      modifies this
      ensures Valid() && Abs() == RunMicrotask(old(Abs()))
    {
      hide Invariant, Fire;
      MicrotaskReady(Abs());
      MicrotaskKeeps(Abs());
      var task := queue[0];
      queue := queue[1..];
      match task {
        case PassOn(ToClear(r), _) =>
          queue := queue + [Clear(r)];
        case PassOn(ToNext(f), ok) =>
          queue := queue + [if ok then FireNext(f) else FailNext(f)];
        case Clear(_) =>
          current := None;
        case FailNext(_) =>
        case FireNext(f) =>
          FireFollowUp(f);
      }
      now := now + 1;
    }
  }

  lemma MicrotaskReady(st: State)
    requires Invariant(st) && st.queue != []
    ensures TaskExists(st, st.queue[0]) && (st.current.Some? ==> st.current.value < |st.runs|)
  {
  }
}
