// What a factory is passed for a dependency that was dropped to break a cycle
// (src/vs/loader.js:1808-1831): the exports as far as they are.

module LoaderValues {
  import opened Options
  import opened LoaderState
  import opened LoaderInvariant
  import opened LoaderProgress
  import opened LoaderTheorems
  import LoaderDropped

  // A module whose factory did not run exports its first object.
  ghost predicate Unrun(st: State) {
    && (forall m :: m in st.history.order ==> IsComplete(st, m))
    && (forall m :: m in st.modules && m !in st.history.order ==> st.modules[m].exports == ExportsObject(m))
    && (forall m :: m in st.modules && !st.modules[m].complete ==> st.modules[m].dependencies.Some?)
  }

  // The value that the k-th factory was passed for its n-th dependency, if that was dropped
  ghost predicate DroppedValue(st: State, k: nat, n: nat) {
    var h := st.history;
    && k < |h.order| && h.order[k] in h.declared && n < |h.declared[h.order[k]]|
    && h.order[k] in h.passed && n < |h.passed[h.order[k]]|
    && var d := h.declared[h.order[k]][n].Id();
       h.passed[h.order[k]][n] ==
       if d in h.order[..k] then (if d in st.modules then st.modules[d].exports else Null) else ExportsObject(d)
  }

  ghost predicate DroppedValues(st: State) {
    forall k, n :: 0 <= k < |st.history.order| && (st.history.order[k], n) in st.history.broken ==> DroppedValue(st, k, n)
  }

  // A dropped dependency is a defined module and no special one.
  ghost predicate DroppedDefined(st: State) {
    forall m, n :: (m, n) in st.history.broken ==>
      && m in st.modules && m in st.history.declared && n < |st.history.declared[m]|
      && !st.history.declared[m][n].Special() && st.history.declared[m][n].Id() in st.modules
  }

  ghost predicate Passing(st: State) {
    LoaderDropped.AsDeclared(st) && Unrun(st) && DroppedDefined(st) && DroppedValues(st)
  }

  // ----- completion -----

  // What was passed before stays, and means the same.
  lemma EarlierValue(st: State, m: nat, k: nat, n: nat)
    requires Unrun(st) && DroppedValue(st, k, n) && m in st.modules && !st.modules[m].complete
    ensures DroppedValue(Finish(st, m), k, n)
  {
    hide DependencyValues, Completed, FactoryErrors;
    var h, later := st.history, Finish(st, m).history;
    var x := h.order[k];
    assert x in h.order && x != m;
    assert later.order[..k] == h.order[..k] && later.order[k] == x;
    var d := h.declared[x][n].Id();
    if d in h.order[..k] {
      assert d in h.order;
    }
  }

  // What the module is passed now
  lemma LastValue(st: State, m: nat, n: nat)
    requires Passing(st) && m in st.modules && !st.modules[m].complete && (m, n) in st.history.broken
    ensures DroppedValue(Finish(st, m), |st.history.order|, n)
  {
    hide Completed, FactoryErrors, DroppedValues;
    var h, later := st.history, Finish(st, m).history;
    var k := |h.order|;
    assert later.order[..k] == h.order && later.order[k] == m && m !in h.order;
    var d := h.declared[m][n].Id();
    assert later.passed[m] == DependencyValues(st.modules, m) && later.passed[m][n] == st.modules[d].exports;
    if d == m {
      assert d !in h.order;
    }
  }

  lemma FinishValue(st: State, m: nat, k: nat, n: nat)
    requires Passing(st) && m in st.modules && !st.modules[m].complete
    requires var h := Finish(st, m).history; k < |h.order| && (h.order[k], n) in h.broken
    ensures DroppedValue(Finish(st, m), k, n)
  {
    hide DroppedValue, Unrun, DependencyValues, Completed, FactoryErrors;
    if k < |st.history.order| {
      EarlierValue(st, m, k, n);
    } else {
      LastValue(st, m, n);
    }
  }

  lemma FinishPasses(st: State, m: nat)
    requires Passing(st) && m in st.modules && !st.modules[m].complete
    ensures Passing(Finish(st, m))
  {
    hide DroppedValue;
    var r := Finish(st, m);
    forall k, n | 0 <= k < |r.history.order| && (r.history.order[k], n) in r.history.broken
      ensures DroppedValue(r, k, n)
    {
      FinishValue(st, m, k, n);
    }
  }

  // Nothing changed but counters, tables, and what was noted otherwise.
  ghost predicate SameValues(st: State, r: State) {
    && r.history.order == st.history.order && r.history.passed == st.history.passed
    && r.history.declared == st.history.declared && r.history.broken == st.history.broken
    && r.modules.Keys == st.modules.Keys
    && forall x :: x in st.modules ==>
         && r.modules[x].exports == st.modules[x].exports && r.modules[x].dependencies == st.modules[x].dependencies
         && (st.modules[x].complete ==> r.modules[x].complete)
  }

  lemma SamePasses(st: State, r: State)
    requires Passing(st) && SameValues(st, r)
    ensures Passing(r)
  {
    forall k, n | 0 <= k < |r.history.order| && (r.history.order[k], n) in r.history.broken
      ensures DroppedValue(r, k, n)
    {
      assert DroppedValue(st, k, n);
    }
  }

  lemma {:induction false} CompletePasses(st: State, m: nat)
    requires Tables(st) && m in st.modules && Passing(st)
    ensures Passing(CompleteModule(st, m))
    decreases Incomplete(st), 1, 0
  {
    hide Passing;
    if !st.modules[m].complete {
      var finished, waiters := Finish(st, m), Waiters(st.inverse, m);
      assert m in Incomplete(st) && m !in Incomplete(finished);
      FinishPasses(st, m);
      ReleasePasses(finished, waiters);
      SamePasses(Release(finished, waiters), CompleteModule(st, m));
    }
  }

  lemma {:induction false} ReleasePasses(st: State, waiters: seq<nat>)
    requires Tables(st) && Passing(st) && forall k :: 0 <= k < |waiters| ==> waiters[k] in st.modules
    ensures Passing(Release(st, waiters))
    decreases Incomplete(st), 2, |waiters|
  {
    hide Passing;
    if waiters != [] {
      ReleaseOnePasses(st, waiters[0]);
      ReleasePasses(ReleaseOne(st, waiters[0]), waiters[1..]);
    }
  }

  lemma {:induction false} ReleaseOnePasses(st: State, x: nat)
    requires Tables(st) && x in st.modules && Passing(st)
    ensures Passing(ReleaseOne(st, x))
    decreases Incomplete(st), 1, 1
  {
    hide Passing;
    var s := Decrement(st, x);
    assert Incomplete(s) == Incomplete(st);
    SamePasses(st, s);
    if s.modules[x].unresolved == 0 {
      CompletePasses(s, x);
    }
  }

  // ----- resolution -----

  lemma BreakPasses(st: State, m: nat, i: nat)
    requires Passing(st) && Resolving(st, m, i) && i < |st.modules[m].dependencies.value| && !st.modules[m].complete
    requires !DepAt(st, m, i).Special() && HasDependencyPath(st.modules, DepAt(st, m, i).Id(), m)
    ensures Passing(BreakCycle(st, m, i))
  {
    hide HasDependencyPath, DroppedValues;
    var d := DepAt(st, m, i).Id();
    assert d in st.modules by { PathStartsDefined(st.modules, d, m); }
    BreakValues(st, m, i);
  }

  lemma BreakValues(st: State, m: nat, i: nat)
    requires DroppedValues(st) && Unrun(st) && m in st.modules && !st.modules[m].complete
    ensures DroppedValues(BreakCycle(st, m, i))
  {
    var r := BreakCycle(st, m, i);
    forall k, n | 0 <= k < |r.history.order| && (r.history.order[k], n) in r.history.broken
      ensures DroppedValue(r, k, n)
    {
      assert st.history.order[k] in st.history.order;
      assert DroppedValue(st, k, n);
    }
  }

  lemma PathStartsDefined(modules: map<nat, ModuleRecord>, from: nat, to: nat)
    requires HasDependencyPath(modules, from, to)
    ensures from in modules
  {
    var p :| |p| >= 2 && p[0] == from && p[|p| - 1] == to && IsDependencyPath(modules, p);
    assert DependencyEdge(modules, p[0], p[1]);
  }

  lemma StepPasses(st: State, m: nat, i: nat)
    requires Tables(st) && Resolving(st, m, i) && i < |st.modules[m].dependencies.value| && !MeetsFailure(st, m, i)
    requires Passing(st) && !st.modules[m].complete
    ensures Passing(ResolveStep(st, m, i)) && !ResolveStep(st, m, i).modules[m].complete
  {
    hide Passing, Tables;
    var dep := DepAt(st, m, i);
    if !dep.Special() && !IsComplete(st, dep.Id()) && HasDependencyPath(st.modules, dep.Id(), m) {
      BreakPasses(st, m, i);
    } else {
      SamePasses(st, ResolveStep(st, m, i));
    }
  }

  lemma {:induction false} ResolvePasses(st: State, m: nat, i: nat)
    requires Tables(st) && Resolving(st, m, i) && Passing(st) && !st.modules[m].complete
    ensures Passing(Resolve(st, m, i))
    decreases |st.modules[m].dependencies.value| - i
  {
    hide Passing, Tables;
    if i == |st.modules[m].dependencies.value| {
      if st.modules[m].unresolved == 0 {
        CompletePasses(st, m);
      }
    } else if MeetsFailure(st, m, i) {
      SamePasses(st, Resolve(st, m, i));
    } else {
      StepPasses(st, m, i);
      ResolvePasses(ResolveStep(st, m, i), m, i + 1);
    }
  }

  // ----- runs -----

  lemma AddModulePasses(st: State, id: nat, deps: seq<Dependency>, callback: Callback, hasErrorback: bool)
    requires Passing(st) && id !in st.modules
    ensures Passing(AddModule(st, id, deps, callback, hasErrorback))
  {
    var r := AddModule(st, id, deps, callback, hasErrorback);
    forall k, n | 0 <= k < |r.history.order| && (r.history.order[k], n) in r.history.broken
      ensures DroppedValue(r, k, n)
    {
      assert DroppedValue(st, k, n);
      OrderedDefined(st, k);
    }
  }

  lemma OrderedDefined(st: State, k: nat)
    requires Unrun(st) && k < |st.history.order|
    ensures forall j :: 0 <= j <= k ==> st.history.order[j] in st.modules
  {
    forall j | 0 <= j <= k
      ensures st.history.order[j] in st.modules
    {
      assert st.history.order[j] in st.history.order;
    }
  }

  lemma FailAffectedSame(st: State, id: nat, err: LoaderError)
    requires Tables(st)
    ensures SameValues(st, FailAffected(st, id, err))
  {
    hide Affected, Notified, Tables;
  }

  lemma ReportSame(st: State, id: nat, err: LoaderError, r: State)
    ensures SameValues(r, ReportUnheard(st, id, err, r))
  {
    hide Notified;
  }

  lemma LoadErrorPasses(st: State, id: nat, err: LoaderError)
    requires Tables(st) && Passing(st)
    ensures Passing(OnLoadError(st, id, err))
  {
    hide FailAffected, ReportUnheard, Passing, SameValues, Tables;
    var s := WithModule(st, id);
    if id !in st.modules {
      AddModulePasses(st, id, [], Factory(Returned(None, false)), false);
    }
    var failed := FailAffected(s, id, err);
    FailAffectedSame(s, id, err);
    SamePasses(s, failed);
    ReportSame(st, id, err, failed);
    SamePasses(failed, OnLoadError(st, id, err));
  }

  lemma StepKeepsPassing(st: State, step: Step, r: State)
    requires Passing(st) && Takes(st, step, r)
    ensures Passing(r)
  {
    hide Passing, OnLoadError;
    match step
    case DefineStep(maxId, id, deps, callback, hasErrorback) =>
      var s := st.(maxId := maxId);
      SamePasses(st, s);
      if id !in st.modules {
        AddModulePasses(s, id, deps, callback, hasErrorback);
        ResolvePasses(AddModule(s, id, deps, callback, hasErrorback), id, 0);
      }
    case LoadErrorStep(id, cause) =>
      LoadErrorPasses(st, id, LoadFailure(id, cause));
  }

  lemma {:induction false} RunPasses(states: seq<State>, steps: seq<Step>, i: nat)
    requires IsRun(states, steps) && i < |states|
    ensures Passing(states[i])
  {
    hide Takes;
    if i > 0 {
      hide Passing;
      RunPasses(states, steps, i - 1);
      StepKeepsPassing(states[i - 1], steps[i - 1], states[i]);
    }
  }

  // Every factory was passed, for each dependency, what that exports in every later state if it
  // completed before, and else its first exports object; only dropped ones did not complete before.
  lemma PassedValue(states: seq<State>, steps: seq<Step>, i: nat, j: nat, k: nat, n: nat)
    requires IsRun(states, steps) && i <= j < |states|
    requires var h := states[i].history;
      k < |h.order| && h.order[k] in h.declared && n < |h.declared[h.order[k]]| && !h.declared[h.order[k]][n].Special()
    ensures var h := states[i].history;
      && h.order[k] in h.passed && n < |h.passed[h.order[k]]|
      && var d := h.declared[h.order[k]][n].Id();
         && d in states[j].modules
         && h.passed[h.order[k]][n] == (if d in h.order[..k] then states[j].modules[d].exports else ExportsObject(d))
         && ((h.order[k], n) !in h.broken ==> d in h.order[..k])
  {
    hide Passing, Advances, Stable;
    var h := states[i].history;
    var m := h.order[k];
    var d := h.declared[m][n].Id();
    RunPasses(states, steps, i);
    RunAdvances(states, steps, i, j);
    if (m, n) in h.broken {
      DroppedFacts(states[i], k, n);
      StillDefined(states, steps, i, j, d);
      if d in h.order[..k] {
        SameExports(states[i], states[j], d);
      }
    } else {
      CompletionTopological(states, steps, i, k, n);
      PassedExportsAreFinal(states, steps, i, j, m, n);
    }
  }

  lemma DroppedFacts(st: State, k: nat, n: nat)
    requires Passing(st) && k < |st.history.order| && (st.history.order[k], n) in st.history.broken
    ensures DroppedValue(st, k, n) && st.history.declared[st.history.order[k]][n].Id() in st.modules
  {
  }

  lemma SameExports(st: State, r: State, d: nat)
    requires Advances(st, r) && d in st.history.order && d in st.modules
    ensures d in r.modules && r.modules[d].exports == st.modules[d].exports
  {
    assert SameOutcome(st, r, d);
  }

  lemma StillDefined(states: seq<State>, steps: seq<Step>, i: nat, j: nat, d: nat)
    requires IsRun(states, steps) && i <= j < |states| && d in states[i].modules
    ensures d in states[j].modules
  {
    hide Passing, IsRun, HasDependencyPath;
    RunAdvances(states, steps, i, j);
    RunPasses(states, steps, i);
    RunPasses(states, steps, j);
    DeclaredAlways(states[i], states[j], d);
  }

  lemma DeclaredAlways(st: State, r: State, d: nat)
    requires Passing(st) && Passing(r) && Advances(st, r) && d in st.modules
    ensures d in r.modules
  {
    assert d in st.history.declared;
  }
}
