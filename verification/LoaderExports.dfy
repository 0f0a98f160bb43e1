// What factories are handed for the pseudo-dependencies `exports`, `module` and `require`, what
// modules export, and which errors are reported (src/vs/loader.js:1199-1229, 1735-1750, 1796-1836).

module LoaderExports {
  import opened Options
  import opened LoaderState
  import LoaderInvariant
  import opened LoaderProgress
  import opened LoaderTheorems

  function SpecialValue(m: nat, dep: Dependency): Value
    requires dep.Special()
  {
    match dep
    case ExportsDep => ExportsObject(m)
    case ModuleDep => ModuleObject(m)
    case RequireDep => RequireFunction(m)
  }

  // The module was given its own exports object, module object and require function.
  ghost predicate OwnSpecials(h: History, m: nat) {
    && m in h.declared && m in h.passed && |h.passed[m]| == |h.declared[m]|
    && forall n :: 0 <= n < |h.declared[m]| && h.declared[m][n].Special() ==>
         h.passed[m][n] == SpecialValue(m, h.declared[m][n])
  }

  ghost predicate AsksForExports(deps: seq<Dependency>, n: nat) {
    exists i :: 0 <= i < n && i < |deps| && deps[i].ExportsDep?
  }

  ghost predicate ListsExports(h: History, m: nat)
    requires m in h.declared
  {
    AsksForExports(h.declared[m], |h.declared[m]|)
  }

  // What a module with this callback exports: a constant, or the value of its factory, unless
  // there is none or the module asked for the exports object and filled it; then that object.
  ghost function ExportsOf(callback: Callback, listsExports: bool, m: nat): Value {
    match callback
    case Constant(v) => v
    case Factory(Returned(Some(v), filledExports)) => if listsExports && filledExports then ExportsObject(m) else v
    case _ => ExportsObject(m)
  }

  // A module that did not complete still has its first exports object, its dependencies and its
  // callback; it counts as having been handed the object if it asked for it, as far as it was
  // resolved.
  ghost predicate Fresh(st: State, m: nat, resolved: nat)
    requires m in st.modules
  {
    && m in st.history.declared && m in st.history.callbacks
    && st.modules[m].exports == ExportsObject(m)
    && st.modules[m].dependencies == Some(st.history.declared[m])
    && st.modules[m].callback == st.history.callbacks[m]
    && (st.modules[m].exportsPassedIn <==> AsksForExports(st.history.declared[m], resolved))
  }

  ghost predicate Settled(st: State, m: nat) {
    && IsComplete(st, m) && m in st.history.callbacks && OwnSpecials(st.history, m)
    && st.modules[m].exports == ExportsOf(st.history.callbacks[m], ListsExports(st.history, m), m)
  }

  // The factory of m ran and failed with this cause.
  ghost predicate FactoryThrew(h: History, m: nat, cause: int) {
    m in h.order && m in h.callbacks && h.callbacks[m] == Factory(Threw(cause))
  }

  // The errors of factories that were reported: each once
  ghost predicate Reported(h: History) {
    forall m: nat, cause: int :: multiset(h.reported)[FactoryFailure(m, cause)] == if FactoryThrew(h, m, cause) then 1 else 0
  }

  ghost predicate Known(st: State, m: nat)
    requires m in st.modules
  {
    m in st.history.declared && Fresh(st, m, |st.history.declared[m]|)
  }

  ghost predicate HandedOver(st: State) {
    && (forall m :: m in st.history.order ==> Settled(st, m))
    && (forall m :: m in st.modules && !st.modules[m].complete ==> Known(st, m))
    && Reported(st.history)
  }

  // The same while m is resolved, up to its i-th dependency
  ghost predicate HandedOverUpTo(st: State, m: nat, i: nat) {
    && (forall x :: x in st.history.order ==> Settled(st, x))
    && (forall x :: x in st.modules && !st.modules[x].complete && x != m ==> Known(st, x))
    && m in st.modules && !st.modules[m].complete && Fresh(st, m, i)
    && Reported(st.history)
  }

  // ----- completion -----

  lemma OrderedComplete(st: State)
    requires HandedOver(st)
    ensures forall m :: m in st.history.order ==> IsComplete(st, m)
  {
    forall m | m in st.history.order
      ensures IsComplete(st, m)
    {
      assert Settled(st, m);
    }
  }

  lemma FinishReports(st: State, m: nat)
    requires HandedOver(st) && m in st.modules && !st.modules[m].complete
    ensures Reported(Finish(st, m).history)
  {
    var r := Finish(st, m);
    assert Known(st, m);
    var told := FactoryErrors(st.modules[m].callback, m);
    assert m !in st.history.order by { OrderedComplete(st); }
    forall x: nat, cause: int
      ensures multiset(r.history.reported)[FactoryFailure(x, cause)] == if FactoryThrew(r.history, x, cause) then 1 else 0
    {
      assert FactoryThrew(r.history, x, cause) <==> FactoryThrew(st.history, x, cause) || (x == m && told == [FactoryFailure(x, cause)]);
      assert multiset(r.history.reported) == multiset(st.history.reported) + multiset(told);
    }
  }

  lemma FinishHandsOver(st: State, m: nat)
    requires HandedOver(st) && m in st.modules && !st.modules[m].complete
    ensures HandedOver(Finish(st, m))
  {
    hide Reported, FactoryErrors, AsksForExports;
    var r := Finish(st, m);
    FinishReports(st, m);
    assert Known(st, m);
    assert OwnSpecials(r.history, m);
    assert Settled(r, m);
    forall x | x in st.history.order
      ensures Settled(r, x)
    {
      assert Settled(st, x);
    }
    forall x | x in r.modules && !r.modules[x].complete
      ensures Known(r, x)
    {
      assert Known(st, x);
    }
  }

  // Counters, and what is not about modules, play no part.
  lemma CountersHandOver(st: State, r: State)
    requires HandedOver(st) && r.history == st.history && r.modules.Keys == st.modules.Keys
    requires forall x :: x in st.modules ==> r.modules[x] == st.modules[x].(unresolved := r.modules[x].unresolved)
    ensures HandedOver(r)
  {
    hide Reported, ExportsOf, OwnSpecials, AsksForExports;
    forall x | x in r.history.order
      ensures Settled(r, x)
    {
      assert Settled(st, x);
    }
    forall x | x in r.modules && !r.modules[x].complete
      ensures Known(r, x)
    {
      assert Known(st, x);
    }
  }

  lemma {:induction false} CompleteHandsOver(st: State, m: nat)
    requires Tables(st) && m in st.modules && HandedOver(st)
    ensures HandedOver(CompleteModule(st, m))
    decreases Incomplete(st), 1, 0
  {
    hide HandedOver;
    if !st.modules[m].complete {
      var finished, waiters := Finish(st, m), Waiters(st.inverse, m);
      assert m in Incomplete(st) && m !in Incomplete(finished);
      FinishHandsOver(st, m);
      ReleaseHandsOver(finished, waiters);
      CountersHandOver(Release(finished, waiters), CompleteModule(st, m));
    }
  }

  lemma {:induction false} ReleaseHandsOver(st: State, waiters: seq<nat>)
    requires Tables(st) && HandedOver(st)
    requires forall k :: 0 <= k < |waiters| ==> waiters[k] in st.modules
    ensures HandedOver(Release(st, waiters))
    decreases Incomplete(st), 2, |waiters|
  {
    hide HandedOver;
    if waiters == [] {
    } else {
      ReleaseOneHandsOver(st, waiters[0]);
      ReleaseHandsOver(ReleaseOne(st, waiters[0]), waiters[1..]);
    }
  }

  lemma {:induction false} ReleaseOneHandsOver(st: State, x: nat)
    requires Tables(st) && x in st.modules && HandedOver(st)
    ensures HandedOver(ReleaseOne(st, x))
    decreases Incomplete(st), 1, 1
  {
    hide HandedOver;
    var s := Decrement(st, x);
    CountersHandOver(st, s);
    assert Incomplete(s) == Incomplete(st);
    if s.modules[x].unresolved == 0 {
      CompleteHandsOver(s, x);
    }
  }

  // ----- resolution -----

  lemma AsksNext(deps: seq<Dependency>, i: nat)
    requires i < |deps|
    ensures AsksForExports(deps, i + 1) <==> AsksForExports(deps, i) || deps[i].ExportsDep?
  {
    if AsksForExports(deps, i) {
      var k :| 0 <= k < i && k < |deps| && deps[k].ExportsDep?;
      assert AsksForExports(deps, i + 1);
    }
  }

  lemma StepPassesExports(st: State, m: nat, i: nat)
    requires Tables(st) && Resolving(st, m, i) && i < |st.modules[m].dependencies.value| && !MeetsFailure(st, m, i)
    ensures m in ResolveStep(st, m, i).modules
    ensures ResolveStep(st, m, i).modules[m].exportsPassedIn == (st.modules[m].exportsPassedIn || DepAt(st, m, i).ExportsDep?)
  {
    hide HasDependencyPath, Tables;
  }

  lemma StepHandsOver(st: State, m: nat, i: nat)
    requires Tables(st) && Resolving(st, m, i) && i < |st.modules[m].dependencies.value| && !MeetsFailure(st, m, i)
    requires HandedOverUpTo(st, m, i)
    ensures HandedOverUpTo(ResolveStep(st, m, i), m, i + 1)
  {
    hide HasDependencyPath, Tables, AsksForExports, ResolveStep, ExportsOf;
    var r := ResolveStep(st, m, i);
    ResolveStepFrame(st, m, i);
    StepPassesExports(st, m, i);
    AsksNext(st.history.declared[m], i);
    assert Fresh(r, m, i + 1);
    BreakingReports(st.history, r.history);
    forall x | x in r.history.order
      ensures Settled(r, x)
    {
      assert Settled(st, x);
    }
    forall x | x in r.modules && !r.modules[x].complete && x != m
      ensures Known(r, x)
    {
      assert Known(st, x);
    }
  }

  lemma BreakingReports(h: History, later: History)
    requires Reported(h) && later == h.(broken := later.broken)
    ensures Reported(later)
  {
    forall m: nat, cause: int
      ensures FactoryThrew(later, m, cause) <==> FactoryThrew(h, m, cause)
    {
    }
  }

  lemma {:induction false} ResolveHandsOver(st: State, m: nat, i: nat)
    requires Tables(st) && Resolving(st, m, i) && HandedOverUpTo(st, m, i)
    ensures HandedOver(Resolve(st, m, i))
    decreases |st.modules[m].dependencies.value| - i
  {
    hide Reported, Settled, AsksForExports, ResolveStep, HasDependencyPath;
    if i == |st.modules[m].dependencies.value| {
      assert HandedOver(st);
      if st.modules[m].unresolved == 0 {
        CompleteHandsOver(st, m);
      }
    } else if MeetsFailure(st, m, i) {
      FailedHandsOver(st, m, i, st.modules[DepAt(st, m, i).Id()].error.value);
    } else {
      StepHandsOver(st, m, i);
      ResolveHandsOver(ResolveStep(st, m, i), m, i + 1);
    }
  }

  lemma CallingReports(h: History, later: History)
    requires Reported(h) && later == h.(called := later.called)
    ensures Reported(later)
  {
    forall m: nat, cause: int
      ensures FactoryThrew(later, m, cause) <==> FactoryThrew(h, m, cause)
    {
    }
  }

  lemma FailedHandsOver(st: State, m: nat, i: nat, err: LoaderError)
    requires HandedOverUpTo(st, m, i)
    ensures HandedOver(Fail(st, m, err))
  {
    hide Reported, ExportsOf, AsksForExports;
    var r := Fail(st, m, err);
    CallingReports(st.history, r.history);
    forall x | x in r.history.order
      ensures Settled(r, x)
    {
      assert Settled(st, x);
    }
    forall x | x in r.modules && !r.modules[x].complete
      ensures Known(r, x)
    {
      assert Known(st, x);
    }
  }

  // ----- steps and runs -----

  lemma AddModuleReports(st: State, id: nat, deps: seq<Dependency>, callback: Callback, hasErrorback: bool)
    requires HandedOver(st) && id !in st.modules
    ensures Reported(AddModule(st, id, deps, callback, hasErrorback).history)
  {
    var h, later := st.history, AddModule(st, id, deps, callback, hasErrorback).history;
    forall m: nat, cause: int
      ensures FactoryThrew(later, m, cause) <==> FactoryThrew(h, m, cause)
    {
      if m in h.order {
        assert Settled(st, m);
      }
    }
  }

  lemma AddModuleHandsOver(st: State, id: nat, deps: seq<Dependency>, callback: Callback, hasErrorback: bool)
    requires HandedOver(st) && id !in st.modules
    ensures HandedOverUpTo(AddModule(st, id, deps, callback, hasErrorback), id, 0)
  {
    hide Reported, ExportsOf;
    var r := AddModule(st, id, deps, callback, hasErrorback);
    AddModuleReports(st, id, deps, callback, hasErrorback);
    forall x | x in r.history.order
      ensures Settled(r, x)
    {
      assert Settled(st, x);
    }
    forall x | x in r.modules && !r.modules[x].complete && x != id
      ensures Known(r, x)
    {
      assert Known(st, x);
    }
  }

  lemma StepKeepsHandedOver(st: State, step: Step, r: State)
    requires HandedOver(st) && Takes(st, step, r)
    ensures HandedOver(r)
  {
    hide HandedOver, HandedOverUpTo, OnLoadError;
    match step
    case DefineStep(maxId, id, deps, callback, hasErrorback) =>
      var s := st.(maxId := maxId);
      CountersHandOver(st, s);
      if id !in st.modules {
        AddModuleHandsOver(s, id, deps, callback, hasErrorback);
        ResolveHandsOver(AddModule(s, id, deps, callback, hasErrorback), id, 0);
      }
    case LoadErrorStep(id, cause) =>
      LoadErrorHandsOver(st, id, cause);
  }

  lemma LoadErrorReports(h: History, later: History, id: nat, cause: int)
    requires Reported(h)
    requires later == h.(called := later.called, reported := later.reported)
    requires later.reported == h.reported || later.reported == h.reported + [LoadFailure(id, cause)]
    ensures Reported(later)
  {
    forall m: nat, c: int
      ensures FactoryThrew(later, m, c) <==> FactoryThrew(h, m, c)
      ensures multiset(later.reported)[FactoryFailure(m, c)] == multiset(h.reported)[FactoryFailure(m, c)]
    {
      assert multiset(h.reported + [LoadFailure(id, cause)]) == multiset(h.reported) + multiset{LoadFailure(id, cause)};
    }
  }

  lemma EmptyModuleHandsOver(st: State, id: nat)
    requires Tables(st) && HandedOver(st)
    ensures HandedOver(WithModule(st, id))
  {
    if id !in st.modules {
      var s := WithModule(st, id);
      AddModuleHandsOver(st, id, [], Factory(Returned(None, false)), false);
      assert Known(s, id) by {
        assert AsksForExports([], 0) == false;
      }
    }
  }

  lemma LoadErrorHandsOver(st: State, id: nat, cause: int)
    requires Tables(st) && HandedOver(st)
    ensures HandedOver(OnLoadError(st, id, LoadFailure(id, cause)))
  {
    hide Affected, Reported, ExportsOf, WithModule, Notified, AsksForExports;
    var s, r := WithModule(st, id), OnLoadError(st, id, LoadFailure(id, cause));
    EmptyModuleHandsOver(st, id);
    LoadErrorReports(s.history, r.history, id, cause);
    forall x | x in r.history.order
      ensures Settled(r, x)
    {
      assert Settled(s, x);
    }
    forall x | x in r.modules && !r.modules[x].complete
      ensures Known(r, x)
    {
      assert Known(s, x);
    }
  }

  lemma {:induction false} RunHandsOver(states: seq<State>, steps: seq<Step>, i: nat)
    requires IsRun(states, steps) && i < |states|
    ensures HandedOver(states[i])
  {
    hide HandedOver, Apply, Enabled;
    if i == 0 {
      assert HandedOver(INITIAL) by { NothingToHandOver(); }
    } else {
      RunHandsOver(states, steps, i - 1);
      assert Takes(states[i - 1], steps[i - 1], states[i]);
      StepKeepsHandedOver(states[i - 1], steps[i - 1], states[i]);
    }
  }

  lemma NothingToHandOver()
    ensures HandedOver(INITIAL)
  {
  }

  // Every factory that ran was given its own exports object, module object and require function,
  // and never those of another module, even within a cycle.
  lemma SpecialsAreOwn(states: seq<State>, steps: seq<Step>, i: nat, m: nat, n: nat)
    requires IsRun(states, steps) && i < |states| && m in states[i].history.order
    requires m in states[i].history.declared && n < |states[i].history.declared[m]| && states[i].history.declared[m][n].Special()
    ensures m in states[i].history.passed && n < |states[i].history.passed[m]|
    ensures states[i].history.passed[m][n] == SpecialValue(m, states[i].history.declared[m][n])
  {
    hide IsRun;
    RunHandsOver(states, steps, i);
    assert Settled(states[i], m);
  }

  // A waiting module keeps the exports object that others may have been handed for it within a
  // cycle, and counts as having handed it out exactly if it listed `exports`.
  lemma WaitingKeepsExports(states: seq<State>, steps: seq<Step>, i: nat, m: nat)
    requires IsRun(states, steps) && i < |states| && m in states[i].modules && !states[i].modules[m].complete
    ensures states[i].modules[m].exports == ExportsObject(m)
    ensures m in states[i].history.declared
    ensures states[i].modules[m].exportsPassedIn <==>
      exists k :: 0 <= k < |states[i].history.declared[m]| && states[i].history.declared[m][k].ExportsDep?
  {
    hide IsRun;
    RunHandsOver(states, steps, i);
    assert Known(states[i], m);
  }

  // When a waiting module has completed, in whatever later state, it exports what the callback it
  // waited with comes to.
  lemma WillExport(states: seq<State>, steps: seq<Step>, i: nat, j: nat, m: nat)
    requires IsRun(states, steps) && i < j < |states|
    requires m in states[i].modules && !states[i].modules[m].complete && m in states[j].history.order
    ensures m in states[i].history.declared && m in states[j].modules
    ensures states[j].modules[m].exports == ExportsOf(states[i].modules[m].callback, ListsExports(states[i].history, m), m)
  {
    hide IsRun, ExportsOf;
    RunHandsOver(states, steps, i);
    assert Known(states[i], m);
    RunHandsOver(states, steps, j);
    assert Settled(states[j], m);
    RunAdvances(states, steps, i, j);
  }

  // The error of every factory that threw, and of no other, was told to onError exactly once.
  lemma FactoryErrorsReported(states: seq<State>, steps: seq<Step>, i: nat, m: nat, cause: int)
    requires IsRun(states, steps) && i < |states|
    ensures multiset(states[i].history.reported)[FactoryFailure(m, cause)] ==
      if FactoryThrew(states[i].history, m, cause) then 1 else 0
  {
    hide IsRun;
    RunHandsOver(states, steps, i);
  }

  // ----- plugins -----

  // What the load callback of a plugin defines completes at once.
  lemma DeliveredAtOnce(st: State, maxId: nat, id: nat, callback: Callback, hasErrorback: bool)
    requires Tables(st) && id !in st.modules
    ensures var h := Define(st, maxId, id, [], callback, hasErrorback).history;
      && id in h.order && id in h.callbacks && h.callbacks[id] == callback && id in h.declared && h.declared[id] == []
  {
    var a := AddModule(st.(maxId := maxId), id, [], callback, hasErrorback);
    var finished, waiters := Finish(a, id), Waiters(a.inverse, id);
    hide Release;
    ReleaseGrows(finished, waiters);
    var r := Release(finished, waiters);
    var k := |finished.history.order| - 1;
    assert finished.history.order[k] == id && r.history.order[k] == id;
    assert Resolve(a, id, 0) == CompleteModule(a, id) == ReleasePlugins(r, id);
  }

  ghost predicate Grows(h: History, later: History) {
    h.order <= later.order && later.callbacks == h.callbacks && later.declared == h.declared
  }

  lemma {:induction false} ReleaseGrows(st: State, waiters: seq<nat>)
    requires Tables(st) && forall k :: 0 <= k < |waiters| ==> waiters[k] in st.modules
    ensures Grows(st.history, Release(st, waiters).history)
    decreases Incomplete(st), 2, |waiters|
  {
    if waiters != [] {
      CompleteGrows(Decrement(st, waiters[0]), waiters[0]);
      ReleaseGrows(ReleaseOne(st, waiters[0]), waiters[1..]);
    }
  }

  lemma {:induction false} CompleteGrows(st: State, m: nat)
    requires Tables(st) && m in st.modules
    ensures Grows(st.history, CompleteModule(st, m).history)
    decreases Incomplete(st), 1, 0
  {
    if !st.modules[m].complete {
      var finished := Finish(st, m);
      assert m in Incomplete(st) && m !in Incomplete(finished);
      ReleaseGrows(finished, Waiters(st.inverse, m));
    }
  }

  // Calling the value that was handed over returns that value again.
  ghost predicate ReturnsItself(value: Value, result: FactoryResult) {
    value.IsFunction() && result.Returned? && result.value == Some(value)
  }

  // Step i hands a value over for a resource.
  ghost predicate HandsOver(steps: seq<Step>, i: nat, id: nat, value: Value, result: FactoryResult) {
    && i < |steps| && steps[i].DefineStep?
    && steps[i].id == id && steps[i].deps == [] && steps[i].callback == CallbackOf(value, result)
  }

  // From then on nobody waits for the resource; it exports the value that was handed over exactly
  // if that was neither falsy nor a function, or a function that returned itself.  For a resource
  // that is defined already the value is ignored.
  lemma PluginDelivers(states: seq<State>, steps: seq<Step>, i: nat, j: nat, id: nat, value: Value, result: FactoryResult)
    requires IsRun(states, steps) && i < j < |states| && HandsOver(steps, i, id, value, result)
    ensures id in states[i].modules ==> states[i + 1] == states[i].(maxId := steps[i].maxId)
    ensures id !in states[i].modules ==>
      && IsComplete(states[j], id) && Waiters(states[j].inverse, id) == []
      && states[j].modules[id].exports == ExportsOf(CallbackOf(value, result), false, id)
      && (states[j].modules[id].exports == value <==>
            (value.Truthy() && !value.IsFunction()) || ReturnsItself(value, result))
  {
    assert Takes(states[i], steps[i], states[i + 1]);
    if id !in states[i].modules {
      FirstDelivery(states, steps, i, j, id, value, result);
    }
  }

  lemma FirstDelivery(states: seq<State>, steps: seq<Step>, i: nat, j: nat, id: nat, value: Value, result: FactoryResult)
    requires IsRun(states, steps) && i < j < |states| && HandsOver(steps, i, id, value, result) && id !in states[i].modules
    ensures IsComplete(states[j], id) && Waiters(states[j].inverse, id) == []
    ensures states[j].modules[id].exports == ExportsOf(CallbackOf(value, result), false, id)
  {
    hide LoaderInvariant.Stable, Requested, Advances, HandedOver;
    assert Takes(states[i], steps[i], states[i + 1]);
    DeliveredAtOnce(states[i], steps[i].maxId, id, steps[i].callback, steps[i].hasErrorback);
    RunAdvances(states, steps, i + 1, j);
    StaysDelivered(states[i + 1], states[j], id);
    RunStable(states, steps, j);
    CompletedForGood(states[j], id);
    RunHandsOver(states, steps, j);
    DeliveredExports(states[j], id);
  }

  lemma StaysDelivered(st: State, r: State, id: nat)
    requires Advances(st, r) && id in st.history.order && id in st.history.callbacks && id in st.history.declared
    ensures id in r.history.order && id in r.history.callbacks && id in r.history.declared
    ensures r.history.callbacks[id] == st.history.callbacks[id] && r.history.declared[id] == st.history.declared[id]
  {
    var k :| 0 <= k < |st.history.order| && st.history.order[k] == id;
    assert r.history.order[k] == id;
  }

  lemma DeliveredExports(st: State, id: nat)
    requires HandedOver(st) && id in st.history.order && id in st.history.declared && st.history.declared[id] == []
    ensures id in st.modules && id in st.history.callbacks
    ensures st.modules[id].exports == ExportsOf(st.history.callbacks[id], false, id)
  {
    assert Settled(st, id);
  }

  lemma CompletedForGood(st: State, m: nat)
    requires LoaderInvariant.Stable(st) && m in st.history.order
    ensures IsComplete(st, m) && Waiters(st.inverse, m) == []
  {
  }

  // A falsy value, a function that returns something else, and one that throws are not what the
  // resource exports, even right after they were handed over.
  lemma HandedValuesLost(tag: int, other: Value, cause: int, filled: bool)
    requires other != Function(tag)
    ensures Delivered(Null, Threw(cause)) == Delivered(Falsy(tag), Threw(cause)) == ExportsObject(3)
    ensures Delivered(Function(tag), Returned(Some(other), filled)) == other
    ensures Delivered(Function(tag), Returned(None, filled)) == Delivered(Function(tag), Threw(cause)) == ExportsObject(3)
  {
    hide Delivered;
    DeliveredDirectly(Null, Threw(cause));
    DeliveredDirectly(Falsy(tag), Threw(cause));
    DeliveredDirectly(Function(tag), Returned(Some(other), filled));
    DeliveredDirectly(Function(tag), Returned(None, filled));
    DeliveredDirectly(Function(tag), Threw(cause));
  }

  // What resource 3 exports after the first step of a run hands a value over for it
  ghost function Delivered(value: Value, result: FactoryResult): Value {
    var r := Define(INITIAL, 4, 3, [], CallbackOf(value, result), false);
    if 3 in r.modules then r.modules[3].exports else Null
  }

  lemma DeliveredDirectly(value: Value, result: FactoryResult)
    ensures Delivered(value, result) == ExportsOf(CallbackOf(value, result), false, 3)
  {
    var step := DefineStep(4, 3, [], CallbackOf(value, result), false);
    var states, steps := [INITIAL, Apply(INITIAL, step)], [step];
    assert Takes(states[0], steps[0], states[1]);
    PluginDelivers(states, steps, 0, 1, 3, value, result);
  }
}
