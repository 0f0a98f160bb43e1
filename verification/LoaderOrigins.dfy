// Where the errors come from that modules fail with (src/vs/loader.js:1199-1241, 1533-1567,
// 1741-1749): each names a module that failed, and that is the module itself or one it depends on.

module LoaderOrigins {
  import opened Options
  import opened LoaderState
  import opened LoaderTheorems
  import opened LoaderDropped

  // ----- dependencies, over any number of modules -----

  ghost predicate LeadsTo(h: History, m: nat, d: nat) {
    m == d || HasDeclaredPath(h, m, d)
  }

  lemma LeadsOn(h: History, m: nat, d: nat, e: nat)
    requires DeclaredEdge(h, m, d) && LeadsTo(h, d, e)
    ensures LeadsTo(h, m, e)
  {
    hide DeclaredEdge;
    if d == e {
      assert IsDeclaredPath(h, [m, d]);
    } else {
      var p :| IsDeclaredPath(h, p) && p[0] == d && p[|p| - 1] == e;
      var q := [m] + p;
      forall i | 0 <= i < |q| - 1
        ensures DeclaredEdge(h, q[i], q[i + 1])
      {
        if i > 0 {
          assert DeclaredEdge(h, p[i - 1], p[i]);
        }
      }
      assert IsDeclaredPath(h, q);
    }
  }

  lemma StillLeads(h: History, later: History, m: nat, d: nat)
    requires LeadsTo(h, m, d) && MoreDeclared(h, later)
    ensures LeadsTo(later, m, d)
  {
    hide IsDeclaredPath, MoreDeclared, HasDeclaredPath;
    if m != d {
      PathStays(h, later, m, d);
    }
  }

  // ----- the invariant -----

  // Whoever waits for d has it as a dependency.
  ghost predicate WaitersDeclared(st: State) {
    forall d, x :: x in Waiters(st.inverse, d) ==> DeclaredEdge(st.history, x, d)
  }

  // A module that did not complete has the callback it was defined with.
  ghost predicate CallbackKept(st: State) {
    forall m :: m in st.modules && !st.modules[m].complete ==>
      m in st.history.callbacks && st.modules[m].callback == st.history.callbacks[m]
  }

  // The load failed, or the factory threw.
  ghost predicate Genuine(h: History, told: set<LoaderError>, err: LoaderError) {
    match err
    case LoadFailure(_, _) => err in told
    case FactoryFailure(o, cause) => o in h.order && o in h.callbacks && h.callbacks[o] == Factory(Threw(cause))
  }

  ghost predicate ErrorTraced(h: History, told: set<LoaderError>, m: nat, err: LoaderError) {
    Genuine(h, told, err) && LeadsTo(h, m, err.moduleId)
  }

  ghost predicate Traced(st: State, told: set<LoaderError>) {
    forall m :: m in st.modules && st.modules[m].error.Some? ==> ErrorTraced(st.history, told, m, st.modules[m].error.value)
  }

  ghost predicate Origins(st: State, told: set<LoaderError>) {
    AsDeclared(st) && WaitersDeclared(st) && CallbackKept(st) && Traced(st, told)
  }

  // ----- transitions that make no error -----

  ghost predicate MoreHistory(h: History, later: History) {
    && MoreDeclared(h, later)
    && (forall m :: m in h.order ==> m in later.order)
    && (forall m :: m in h.callbacks ==> m in later.callbacks && later.callbacks[m] == h.callbacks[m])
  }

  lemma SameHistory(h: History, later: History)
    requires later.declared == h.declared && later.order == h.order && later.callbacks == h.callbacks
    ensures MoreHistory(h, later)
  {
  }

  lemma StillTraced(h: History, later: History, told: set<LoaderError>, more: set<LoaderError>, m: nat, err: LoaderError)
    requires ErrorTraced(h, told, m, err) && MoreHistory(h, later) && told <= more
    ensures ErrorTraced(later, more, m, err)
  {
    hide LeadsTo, MoreDeclared;
    StillLeads(h, later, m, err.moduleId);
  }

  ghost predicate FewerWaiters(st: State, r: State) {
    forall d, x :: x in Waiters(r.inverse, d) ==> x in Waiters(st.inverse, d)
  }

  // No module gets an error it did not have, or another callback, and none is new.
  ghost predicate NoNewErrors(st: State, r: State) {
    && r.modules.Keys == st.modules.Keys
    && (forall m :: m in st.modules ==> r.modules[m].error.None? || r.modules[m].error == st.modules[m].error)
    && (forall m :: m in st.modules ==> r.modules[m].dependencies.None? || r.modules[m].dependencies == st.modules[m].dependencies)
    && (forall m :: m in st.modules && !r.modules[m].complete ==> !st.modules[m].complete && r.modules[m].callback == st.modules[m].callback)
  }

  lemma NoNewErrorsKeeps(st: State, r: State, told: set<LoaderError>)
    requires Origins(st, told) && NoNewErrors(st, r) && FewerWaiters(st, r)
    requires r.history.declared == st.history.declared && r.history.callbacks == st.history.callbacks && r.history.order == st.history.order
    ensures Origins(r, told)
  {
    hide ErrorTraced, DeclaredEdge;
    SameHistory(st.history, r.history);
    WaitersStay(st, r);
    forall m | m in r.modules && r.modules[m].error.Some?
      ensures ErrorTraced(r.history, told, m, r.modules[m].error.value)
    {
      StillTraced(st.history, r.history, told, told, m, r.modules[m].error.value);
    }
  }

  lemma WaitersStay(st: State, r: State)
    requires WaitersDeclared(st) && FewerWaiters(st, r) && MoreDeclared(st.history, r.history)
    ensures WaitersDeclared(r)
  {
    forall d, x | x in Waiters(r.inverse, d)
      ensures DeclaredEdge(r.history, x, d)
    {
      assert DeclaredEdge(st.history, x, d);
    }
  }

  // ----- completion -----

  lemma FinishTraced(st: State, m: nat, told: set<LoaderError>)
    requires CallbackKept(st) && Traced(st, told) && m in st.modules && !st.modules[m].complete
    ensures Traced(Finish(st, m), told)
  {
    hide ErrorTraced, Completed, CallbackKept;
    var r := Finish(st, m);
    assert MoreHistory(st.history, r.history);
    hide MoreHistory;
    forall x | x in r.modules && r.modules[x].error.Some?
      ensures ErrorTraced(r.history, told, x, r.modules[x].error.value)
    {
      if r.modules[x].error == st.modules[x].error {
        StillTraced(st.history, r.history, told, told, x, r.modules[x].error.value);
      } else {
        ThrownTraced(st, m, told);
      }
    }
  }

  lemma FinishOrigins(st: State, m: nat, told: set<LoaderError>)
    requires Origins(st, told) && m in st.modules && !st.modules[m].complete
    ensures Origins(Finish(st, m), told)
  {
    hide Traced, WaitersDeclared;
    FinishTraced(st, m, told);
    WaitersStay(st, Finish(st, m));
  }

  lemma ThrownTraced(st: State, m: nat, told: set<LoaderError>)
    requires CallbackKept(st) && m in st.modules && !st.modules[m].complete
    requires Completed(st.modules[m], m).error.Some? && Completed(st.modules[m], m).error != st.modules[m].error
    ensures ErrorTraced(Finish(st, m).history, told, m, Completed(st.modules[m], m).error.value)
  {
  }

  lemma {:induction false} CompleteOrigins(st: State, m: nat, told: set<LoaderError>)
    requires Tables(st) && m in st.modules && Origins(st, told)
    ensures Origins(CompleteModule(st, m), told)
    decreases Incomplete(st), 1, 0
  {
    hide Origins;
    if !st.modules[m].complete {
      var finished, waiters := Finish(st, m), Waiters(st.inverse, m);
      assert m in Incomplete(st) && m !in Incomplete(finished);
      FinishOrigins(st, m, told);
      ReleaseOrigins(finished, waiters, told);
      NoNewErrorsKeeps(Release(finished, waiters), CompleteModule(st, m), told);
    }
  }

  lemma {:induction false} ReleaseOrigins(st: State, waiters: seq<nat>, told: set<LoaderError>)
    requires Tables(st) && Origins(st, told) && forall k :: 0 <= k < |waiters| ==> waiters[k] in st.modules
    ensures Origins(Release(st, waiters), told)
    decreases Incomplete(st), 2, |waiters|
  {
    hide Origins;
    if waiters != [] {
      ReleaseOneOrigins(st, waiters[0], told);
      ReleaseOrigins(ReleaseOne(st, waiters[0]), waiters[1..], told);
    }
  }

  lemma {:induction false} ReleaseOneOrigins(st: State, x: nat, told: set<LoaderError>)
    requires Tables(st) && x in st.modules && Origins(st, told)
    ensures Origins(ReleaseOne(st, x), told)
    decreases Incomplete(st), 1, 1
  {
    hide Origins;
    var s := Decrement(st, x);
    assert Incomplete(s) == Incomplete(st);
    NoNewErrorsKeeps(st, s, told);
    if s.modules[x].unresolved == 0 {
      CompleteOrigins(s, x, told);
    }
  }

  // ----- resolution -----

  lemma WaitOrigins(st: State, m: nat, i: nat, told: set<LoaderError>)
    requires Tables(st) && Resolving(st, m, i) && i < |st.modules[m].dependencies.value| && Origins(st, told)
    ensures Origins(AddWaiter(st, DepAt(st, m, i).Id(), m), told)
  {
    hide ErrorTraced, Tables;
    var d := DepAt(st, m, i).Id();
    var r := AddWaiter(st, d, m);
    assert DeclaredEdge(st.history, m, d) by {
      assert st.history.declared[m][i].Id() == d;
    }
    hide DeclaredEdge;
    assert forall e: nat, x: nat :: x in Waiters(r.inverse, e) ==> x in Waiters(st.inverse, e) || (e == d && x == m);
  }

  // Only the record of m changes, and only its counter and its flag.
  lemma RecordOrigins(st: State, r: State, m: nat, told: set<LoaderError>)
    requires Origins(st, told) && m in st.modules && m in r.modules && r.inverse == st.inverse && r.history == st.history.(broken := r.history.broken)
    requires r.modules == st.modules[m := st.modules[m].(unresolved := r.modules[m].unresolved, exportsPassedIn := r.modules[m].exportsPassedIn)]
    ensures Origins(r, told)
  {
    hide Origins;
    NoNewErrorsKeeps(st, r, told);
  }

  lemma StepOrigins(st: State, m: nat, i: nat, told: set<LoaderError>)
    requires Tables(st) && Resolving(st, m, i) && i < |st.modules[m].dependencies.value| && !MeetsFailure(st, m, i)
    requires Origins(st, told)
    ensures Origins(ResolveStep(st, m, i), told)
  {
    hide Origins, Tables, HasDependencyPath, RequestDependency, AddWaiter;
    var dep := DepAt(st, m, i);
    if dep.Special() {
      RecordOrigins(st, SkipSpecial(st, m, dep), m, told);
    } else if IsComplete(st, dep.Id()) {
      RecordOrigins(st, Decrement(st, m), m, told);
    } else if HasDependencyPath(st.modules, dep.Id(), m) {
      RecordOrigins(st, BreakCycle(st, m, i), m, told);
    } else {
      hide SkipSpecial, Decrement, BreakCycle;
      WaitOrigins(st, m, i, told);
      NoNewErrorsKeeps(AddWaiter(st, dep.Id(), m), ResolveStep(st, m, i), told);
    }
  }

  lemma FailOrigins(st: State, m: nat, i: nat, told: set<LoaderError>)
    requires Resolving(st, m, i) && i < |st.modules[m].dependencies.value| && MeetsFailure(st, m, i) && Origins(st, told)
    ensures Origins(Fail(st, m, st.modules[DepAt(st, m, i).Id()].error.value), told)
  {
    hide LeadsTo, Genuine;
    var d := DepAt(st, m, i).Id();
    var err := st.modules[d].error.value;
    var r := Fail(st, m, err);
    assert DeclaredEdge(st.history, m, d) by {
      assert st.history.declared[m][i].Id() == d;
    }
    hide DeclaredEdge;
    assert ErrorTraced(st.history, told, d, err);
    LeadsOn(st.history, m, d, err.moduleId);
    FailTraced(st, m, err, told);
    WaitersStay(st, r);
  }

  lemma FailTraced(st: State, m: nat, err: LoaderError, told: set<LoaderError>)
    requires m in st.modules && Traced(st, told) && ErrorTraced(st.history, told, m, err)
    ensures Traced(Fail(st, m, err), told)
  {
    hide ErrorTraced;
    var r := Fail(st, m, err);
    SameHistory(st.history, r.history);
    forall x | x in r.modules && r.modules[x].error.Some?
      ensures ErrorTraced(r.history, told, x, r.modules[x].error.value)
    {
      StillTraced(st.history, r.history, told, told, x, r.modules[x].error.value);
    }
  }

  lemma {:induction false} ResolveOrigins(st: State, m: nat, i: nat, told: set<LoaderError>)
    requires Tables(st) && Resolving(st, m, i) && Origins(st, told)
    ensures Origins(Resolve(st, m, i), told)
    decreases |st.modules[m].dependencies.value| - i
  {
    hide Origins, Tables;
    if i == |st.modules[m].dependencies.value| {
      if st.modules[m].unresolved == 0 {
        CompleteOrigins(st, m, told);
      }
    } else if MeetsFailure(st, m, i) {
      FailOrigins(st, m, i, told);
    } else {
      StepOrigins(st, m, i, told);
      ResolveOrigins(ResolveStep(st, m, i), m, i + 1, told);
    }
  }

  // ----- the two entry points -----

  lemma AddModuleTraced(st: State, id: nat, deps: seq<Dependency>, callback: Callback, hasErrorback: bool, told: set<LoaderError>)
    requires AsDeclared(st) && Traced(st, told) && id !in st.modules && id !in st.history.callbacks
    ensures Traced(AddModule(st, id, deps, callback, hasErrorback), told)
  {
    hide ErrorTraced;
    var r := AddModule(st, id, deps, callback, hasErrorback);
    assert MoreHistory(st.history, r.history);
    hide MoreHistory;
    forall m | m in r.modules && r.modules[m].error.Some?
      ensures ErrorTraced(r.history, told, m, r.modules[m].error.value)
    {
      StillTraced(st.history, r.history, told, told, m, r.modules[m].error.value);
    }
  }

  lemma AddModuleOrigins(st: State, id: nat, deps: seq<Dependency>, callback: Callback, hasErrorback: bool, told: set<LoaderError>)
    requires Origins(st, told) && id !in st.modules && id !in st.history.callbacks
    ensures Origins(AddModule(st, id, deps, callback, hasErrorback), told)
  {
    hide Traced, WaitersDeclared;
    AddModuleTraced(st, id, deps, callback, hasErrorback, told);
    WaitersStay(st, AddModule(st, id, deps, callback, hasErrorback));
  }

  // A chain of waiters is a chain of dependencies, read backwards.
  lemma {:induction false} ChainLeads(st: State, p: seq<nat>)
    requires WaitersDeclared(st) && IsWaitChain(st.inverse, p)
    ensures LeadsTo(st.history, p[|p| - 1], p[0])
    decreases |p|
  {
    hide LeadsTo, DeclaredEdge, Waiters;
    if |p| == 1 {
      assert LeadsTo(st.history, p[0], p[0]) by { LeadsToSelf(st.history, p[0]); }
    } else {
      var q := p[..|p| - 1];
      forall i | 0 <= i < |q| - 1
        ensures WaitEdge(st.inverse, q[i], q[i + 1])
      {
        assert WaitEdge(st.inverse, p[i], p[i + 1]);
      }
      ChainLeads(st, q);
      assert WaitEdge(st.inverse, p[|p| - 2], p[|p| - 1]);
      LeadsOn(st.history, p[|p| - 1], p[|p| - 2], p[0]);
    }
  }

  lemma LeadsToSelf(h: History, m: nat)
    ensures LeadsTo(h, m, m)
  {
  }

  lemma AffectedLeads(st: State, id: nat, x: nat)
    requires WaitersDeclared(st) && Affected(st.inverse, id, x)
    ensures LeadsTo(st.history, x, id)
  {
    hide LeadsTo, WaitersDeclared, WaitEdge;
    var p :| IsWaitChain(st.inverse, p) && p[0] == id && p[|p| - 1] == x;
    ChainLeads(st, p);
  }

  lemma FailAffectedOrigins(st: State, id: nat, cause: int, told: set<LoaderError>)
    requires Tables(st) && Origins(st, told)
    ensures Origins(FailAffected(st, id, LoadFailure(id, cause)), told + {LoadFailure(id, cause)})
  {
    hide Affected, Notified, Tables, LeadsTo, DeclaredEdge;
    var err := LoadFailure(id, cause);
    var r := FailAffected(st, id, err);
    SameHistory(st.history, r.history);
    WaitersStay(st, r);
    forall m | m in r.modules && r.modules[m].error.Some?
      ensures ErrorTraced(r.history, told + {err}, m, r.modules[m].error.value)
    {
      if Affected(st.inverse, id, m) {
        AffectedLeads(st, id, m);
        StillLeads(st.history, r.history, m, id);
      } else {
        StillTraced(st.history, r.history, told, told + {err}, m, r.modules[m].error.value);
      }
    }
  }

  lemma LoadErrorOrigins(st: State, id: nat, cause: int, told: set<LoaderError>)
    requires Tables(st) && Origins(st, told) && st.history.callbacks.Keys == st.modules.Keys
    ensures Origins(OnLoadError(st, id, LoadFailure(id, cause)), told + {LoadFailure(id, cause)})
  {
    hide Origins, Notified, FailAffected, Tables;
    var err, s := LoadFailure(id, cause), WithModule(st, id);
    if id !in st.modules {
      AddModuleOrigins(st, id, [], Factory(Returned(None, false)), false, told);
    }
    FailAffectedOrigins(s, id, cause, told);
    NoNewErrorsKeeps(FailAffected(s, id, err), OnLoadError(st, id, err), told + {err});
  }

  lemma DefineOrigins(st: State, maxId: nat, id: nat, deps: seq<Dependency>, callback: Callback, hasErrorback: bool, told: set<LoaderError>)
    requires Tables(st) && Origins(st, told) && st.history.callbacks.Keys == st.modules.Keys
    ensures Origins(Define(st, maxId, id, deps, callback, hasErrorback), told)
  {
    hide Origins, Resolve;
    var s := st.(maxId := maxId);
    NoNewErrorsKeeps(st, s, told);
    if id !in st.modules {
      AddModuleOrigins(s, id, deps, callback, hasErrorback, told);
      ResolveOrigins(AddModule(s, id, deps, callback, hasErrorback), id, 0, told);
    }
  }

  // ----- runs -----

  // The load failures that were told before the i-th state
  ghost function ToldBefore(steps: seq<Step>, i: nat): set<LoaderError>
    requires i <= |steps|
  {
    if i == 0 then {}
    else ToldBefore(steps, i - 1) + match steps[i - 1]
      case LoadErrorStep(id, cause) => {LoadFailure(id, cause)}
      case _ => {}
  }

  lemma {:induction false} ToldByStep(steps: seq<Step>, i: nat, err: LoaderError) returns (k: nat)
    requires i <= |steps| && err in ToldBefore(steps, i)
    ensures k < i && err.LoadFailure? && steps[k] == LoadErrorStep(err.moduleId, err.cause)
  {
    if err in ToldBefore(steps, i - 1) {
      k := ToldByStep(steps, i - 1, err);
    } else {
      k := i - 1;
    }
  }

  lemma StepKeepsOrigins(st: State, step: Step, r: State, told: set<LoaderError>)
    requires Origins(st, told) && Takes(st, step, r) && st.history.callbacks.Keys == st.modules.Keys
    ensures Origins(r, told + if step.LoadErrorStep? then {LoadFailure(step.id, step.cause)} else {})
  {
    hide Origins, OnLoadError, Define;
    match step
    case DefineStep(maxId, id, deps, callback, hasErrorback) =>
      DefineOrigins(st, maxId, id, deps, callback, hasErrorback, told);
      assert told + {} == told;
    case LoadErrorStep(id, cause) =>
      LoadErrorOrigins(st, id, cause, told);
  }

  lemma CallbacksNoted(states: seq<State>, steps: seq<Step>, i: nat)
    requires IsRun(states, steps) && i < |states|
    ensures states[i].history.callbacks.Keys == states[i].modules.Keys
  {
    hide IsRun;
    RunStable(states, steps, i);
  }

  lemma {:induction false} RunOrigins(states: seq<State>, steps: seq<Step>, i: nat)
    requires IsRun(states, steps) && i < |states|
    ensures Origins(states[i], ToldBefore(steps, i))
  {
    hide Takes;
    if i > 0 {
      hide Origins;
      RunOrigins(states, steps, i - 1);
      CallbacksNoted(states, steps, i - 1);
      StepKeepsOrigins(states[i - 1], steps[i - 1], states[i], ToldBefore(steps, i - 1));
    }
  }

  // The error of a module names the module itself or one that it depends on over declared
  // dependencies; that one's load failed in a step before, or its factory ran and threw.
  lemma ErrorOrigin(states: seq<State>, steps: seq<Step>, i: nat, m: nat)
    requires IsRun(states, steps) && i < |states| && m in states[i].modules && states[i].modules[m].error.Some?
    ensures var h, err := states[i].history, states[i].modules[m].error.value;
      && (m == err.moduleId || HasDeclaredPath(h, m, err.moduleId))
      && match err
         case LoadFailure(o, cause) => exists k: nat :: k < i && steps[k] == LoadErrorStep(o, cause)
         case FactoryFailure(o, cause) => o in h.order && o in h.callbacks && h.callbacks[o] == Factory(Threw(cause))
  {
    assert |states| == |steps| + 1;
    hide IsRun, HasDeclaredPath;
    RunOrigins(states, steps, i);
    var err := states[i].modules[m].error.value;
    assert ErrorTraced(states[i].history, ToldBefore(steps, i), m, err);
    if err.LoadFailure? {
      var k := ToldByStep(steps, i, err);
    }
  }
}
