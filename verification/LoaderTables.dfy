// What stays in the tables of the loader (src/vs/loader.js:1199-1229, 1770-1789, 1832-1861): whoever
// waits keeps its place, and a module that completed forgets what it no longer needs.

module LoaderTables {
  import opened Options
  import opened LoaderState
  import opened LoaderTheorems

  // The resources queued behind a plugin
  function Queued(st: State, p: nat): seq<Dependency> {
    if p in st.inversePlugins then st.inversePlugins[p] else []
  }

  // A list grows at its end until its module completes, and then it may be emptied.
  predicate Grows<T(==)>(before: seq<T>, after: seq<T>, was: bool, complete: bool) {
    (if was then after == before else before <= after) || (complete && after == [])
  }

  ghost predicate ListsGrow(st: State, r: State) {
    && (forall d: nat :: IsComplete(st, d) ==> IsComplete(r, d))
    && (forall d: nat :: Grows(Waiters(st.inverse, d), Waiters(r.inverse, d), IsComplete(st, d), IsComplete(r, d)))
    && (forall p: nat :: Grows(Queued(st, p), Queued(r, p), IsComplete(st, p), IsComplete(r, p)))
  }

  predicate Forgetful(rec: ModuleRecord) {
    rec.complete && rec.dependencies.None? && rec.callback.NoCallback? && !rec.hasErrorback
  }

  ghost predicate Forgotten(st: State) {
    forall m :: m in st.history.order ==> m in st.modules && Forgetful(st.modules[m])
  }

  ghost predicate SameDefinitions(st: State, r: State) {
    && r.history.order == st.history.order
    && forall m :: m in st.modules ==>
         m in r.modules && r.modules[m].dependencies == st.modules[m].dependencies && r.modules[m].callback == st.modules[m].callback
         && r.modules[m].hasErrorback == st.modules[m].hasErrorback && (st.modules[m].complete ==> r.modules[m].complete)
  }

  lemma StillForgotten(st: State, r: State)
    requires Forgotten(st) && SameDefinitions(st, r)
    ensures Forgotten(r)
  {
  }

  lemma GrowsTransitive<T>(a: seq<T>, b: seq<T>, c: seq<T>, wasA: bool, wasB: bool, wasC: bool)
    requires Grows(a, b, wasA, wasB) && Grows(b, c, wasB, wasC) && (wasA ==> wasB) && (wasB ==> wasC)
    ensures Grows(a, c, wasA, wasC)
  {
  }

  lemma ListsGrowOn(a: State, b: State, c: State)
    requires ListsGrow(a, b) && ListsGrow(b, c)
    ensures ListsGrow(a, c)
  {
    hide Waiters, Queued, Grows, IsComplete;
    forall d: nat
      ensures Grows(Waiters(a.inverse, d), Waiters(c.inverse, d), IsComplete(a, d), IsComplete(c, d))
      ensures Grows(Queued(a, d), Queued(c, d), IsComplete(a, d), IsComplete(c, d))
    {
      GrowsTransitive(Waiters(a.inverse, d), Waiters(b.inverse, d), Waiters(c.inverse, d), IsComplete(a, d), IsComplete(b, d), IsComplete(c, d));
      GrowsTransitive(Queued(a, d), Queued(b, d), Queued(c, d), IsComplete(a, d), IsComplete(b, d), IsComplete(c, d));
    }
  }

  lemma SameLists(st: State, r: State)
    requires r.inverse == st.inverse && r.inversePlugins == st.inversePlugins
    requires forall d: nat :: IsComplete(st, d) ==> IsComplete(r, d)
    ensures ListsGrow(st, r)
  {
  }

  // ----- completion -----

  ghost predicate Keeps(st: State, r: State) {
    ListsGrow(st, r) && (Forgotten(st) ==> Forgotten(r))
  }

  lemma KeepsOn(a: State, b: State, c: State)
    requires Keeps(a, b) && Keeps(b, c)
    ensures Keeps(a, c)
  {
    hide ListsGrow, Forgotten;
    ListsGrowOn(a, b, c);
  }

  // Nothing changes but counters and what was noted otherwise.
  lemma PlainKeeps(st: State, r: State)
    requires r.inverse == st.inverse && r.inversePlugins == st.inversePlugins && SameDefinitions(st, r)
    ensures Keeps(st, r)
  {
    hide ListsGrow, Forgotten;
    SameLists(st, r);
    if Forgotten(st) {
      StillForgotten(st, r);
    }
  }

  lemma FinishKeeps(st: State, m: nat)
    requires m in st.modules && !st.modules[m].complete
    ensures Keeps(st, Finish(st, m))
  {
    hide DependencyValues, FactoryErrors;
    var r := Finish(st, m);
    forall d: nat
      ensures Grows(Waiters(st.inverse, d), Waiters(r.inverse, d), IsComplete(st, d), IsComplete(r, d))
    {
    }
  }

  lemma ClearKeeps(st: State, r: State, m: nat)
    requires IsComplete(st, m) && r == st.(known := r.known, requests := r.requests, inversePlugins := st.inversePlugins - {m})
    ensures Keeps(st, r)
  {
  }

  lemma {:induction false} CompleteKeeps(st: State, m: nat)
    requires Tables(st) && m in st.modules
    ensures Keeps(st, CompleteModule(st, m))
    decreases Incomplete(st), 1, 0
  {
    hide Keeps;
    if st.modules[m].complete {
      PlainKeeps(st, st);
    } else {
      var finished, waiters := Finish(st, m), Waiters(st.inverse, m);
      assert m in Incomplete(st) && m !in Incomplete(finished);
      FinishKeeps(st, m);
      ReleaseKeeps(finished, waiters);
      var released := Release(finished, waiters);
      KeepsOn(st, finished, released);
      assert IsComplete(released, m) by { StaysComplete(finished, released, m); }
      ClearKeeps(released, CompleteModule(st, m), m);
      KeepsOn(st, released, CompleteModule(st, m));
    }
  }

  lemma StaysComplete(st: State, r: State, m: nat)
    requires Keeps(st, r) && IsComplete(st, m)
    ensures IsComplete(r, m)
  {
  }

  lemma {:induction false} ReleaseKeeps(st: State, waiters: seq<nat>)
    requires Tables(st) && forall k :: 0 <= k < |waiters| ==> waiters[k] in st.modules
    ensures Keeps(st, Release(st, waiters))
    decreases Incomplete(st), 2, |waiters|
  {
    hide Keeps;
    if waiters == [] {
      PlainKeeps(st, st);
    } else {
      var s := ReleaseOne(st, waiters[0]);
      ReleaseOneKeeps(st, waiters[0]);
      ReleaseKeeps(s, waiters[1..]);
      KeepsOn(st, s, Release(s, waiters[1..]));
    }
  }

  lemma {:induction false} ReleaseOneKeeps(st: State, x: nat)
    requires Tables(st) && x in st.modules
    ensures Keeps(st, ReleaseOne(st, x))
    decreases Incomplete(st), 1, 1
  {
    hide Keeps;
    var s := Decrement(st, x);
    assert Incomplete(s) == Incomplete(st);
    PlainKeeps(st, s);
    if s.modules[x].unresolved == 0 {
      CompleteKeeps(s, x);
      KeepsOn(st, s, CompleteModule(s, x));
    }
  }

  // ----- resolution -----

  lemma RequestKeeps(st: State, dep: Dependency)
    requires !dep.Special() && PluginsQueued(st)
    ensures Keeps(st, RequestDependency(st, dep))
  {
  }

  lemma WaitKeeps(st: State, d: nat, m: nat)
    requires Tables(st) && m in st.modules && !IsComplete(st, d)
    ensures Keeps(st, AddWaiter(st, d, m))
  {
    hide Tables;
  }

  // Only the record of m changes, and only its counter and its flag.
  lemma RecordKeeps(st: State, r: State, m: nat)
    requires m in st.modules && m in r.modules && r.inverse == st.inverse && r.inversePlugins == st.inversePlugins
    requires r.history.order == st.history.order
    requires r.modules == st.modules[m := st.modules[m].(unresolved := r.modules[m].unresolved, exportsPassedIn := r.modules[m].exportsPassedIn)]
    ensures Keeps(st, r)
  {
    hide Keeps;
    PlainKeeps(st, r);
  }

  lemma StepKeeps(st: State, m: nat, i: nat)
    requires Tables(st) && Resolving(st, m, i) && i < |st.modules[m].dependencies.value| && !MeetsFailure(st, m, i)
    ensures Keeps(st, ResolveStep(st, m, i))
  {
    hide Keeps, Tables, HasDependencyPath, RequestDependency, AddWaiter;
    var dep := DepAt(st, m, i);
    if dep.Special() {
      RecordKeeps(st, SkipSpecial(st, m, dep), m);
    } else if IsComplete(st, dep.Id()) {
      RecordKeeps(st, Decrement(st, m), m);
    } else if HasDependencyPath(st.modules, dep.Id(), m) {
      RecordKeeps(st, BreakCycle(st, m, i), m);
    } else {
      hide SkipSpecial, Decrement, BreakCycle;
      var s := AddWaiter(st, dep.Id(), m);
      WaitKeeps(st, dep.Id(), m);
      QueuesHold(s);
      RequestKeeps(s, dep);
      KeepsOn(st, s, RequestDependency(s, dep));
    }
  }

  lemma QueuesHold(st: State)
    requires Tables(st)
    ensures PluginsQueued(st)
  {
  }

  lemma {:induction false} ResolveKeeps(st: State, m: nat, i: nat)
    requires Tables(st) && Resolving(st, m, i)
    ensures Keeps(st, Resolve(st, m, i))
    decreases |st.modules[m].dependencies.value| - i
  {
    hide Keeps, Tables;
    if i == |st.modules[m].dependencies.value| {
      if st.modules[m].unresolved == 0 {
        CompleteKeeps(st, m);
      } else {
        PlainKeeps(st, st);
      }
    } else if MeetsFailure(st, m, i) {
      PlainKeeps(st, Resolve(st, m, i));
    } else {
      var s := ResolveStep(st, m, i);
      StepKeeps(st, m, i);
      ResolveKeeps(s, m, i + 1);
      KeepsOn(st, s, Resolve(s, m, i + 1));
    }
  }

  // ----- the two entry points -----

  lemma AddModuleKeeps(st: State, id: nat, deps: seq<Dependency>, callback: Callback, hasErrorback: bool)
    requires id !in st.modules
    ensures Keeps(st, AddModule(st, id, deps, callback, hasErrorback))
  {
    hide Keeps;
    PlainKeeps(st, AddModule(st, id, deps, callback, hasErrorback));
  }

  lemma DefineKeeps(st: State, maxId: nat, id: nat, deps: seq<Dependency>, callback: Callback, hasErrorback: bool)
    requires Tables(st)
    ensures Keeps(st, Define(st, maxId, id, deps, callback, hasErrorback))
  {
    hide Keeps, Resolve;
    var s := st.(maxId := maxId);
    PlainKeeps(st, s);
    if id !in st.modules {
      var a := AddModule(s, id, deps, callback, hasErrorback);
      AddModuleKeeps(s, id, deps, callback, hasErrorback);
      ResolveKeeps(a, id, 0);
      KeepsOn(st, s, a);
      KeepsOn(st, a, Resolve(a, id, 0));
    }
  }

  lemma WithModuleKeeps(st: State, id: nat)
    requires Tables(st)
    ensures Keeps(st, WithModule(st, id))
  {
    hide Keeps;
    if id in st.modules {
      PlainKeeps(st, st);
    } else {
      AddModuleKeeps(st, id, [], Factory(Returned(None, false)), false);
    }
  }

  lemma FailAffectedKeeps(st: State, id: nat, err: LoaderError)
    requires Tables(st)
    ensures Keeps(st, FailAffected(st, id, err))
  {
    hide Keeps, Notified, Affected, Tables;
    PlainKeeps(st, FailAffected(st, id, err));
  }

  lemma LoadErrorKeeps(st: State, id: nat, err: LoaderError)
    requires Tables(st)
    ensures Keeps(st, OnLoadError(st, id, err))
  {
    hide Keeps, Notified, FailAffected, WithModule, Tables;
    var s, r := WithModule(st, id), OnLoadError(st, id, err);
    var failed := FailAffected(s, id, err);
    WithModuleKeeps(st, id);
    FailAffectedKeeps(s, id, err);
    PlainKeeps(failed, r);
    KeepsOn(st, s, failed);
    KeepsOn(st, failed, r);
  }

  lemma StepTakesKeeps(st: State, step: Step, r: State)
    requires Takes(st, step, r)
    ensures Keeps(st, r)
  {
    hide Keeps, OnLoadError, Define;
    match step
    case DefineStep(maxId, id, deps, callback, hasErrorback) =>
      DefineKeeps(st, maxId, id, deps, callback, hasErrorback);
    case LoadErrorStep(id, cause) =>
      LoadErrorKeeps(st, id, LoadFailure(id, cause));
  }

  lemma {:induction false} RunKeeps(states: seq<State>, steps: seq<Step>, i: nat, j: nat)
    requires IsRun(states, steps) && i <= j < |states|
    ensures Keeps(states[i], states[j])
    decreases j
  {
    hide Takes, Keeps;
    if i == j {
      PlainKeeps(states[i], states[j]);
    } else {
      RunKeeps(states, steps, i, j - 1);
      StepTakesKeeps(states[j - 1], steps[j - 1], states[j]);
      KeepsOn(states[i], states[j - 1], states[j]);
    }
  }

  // Until a module completes, whoever waits for it, and the resources queued behind it, keep their
  // places: those that come later come behind.
  lemma WaitersInOrder(states: seq<State>, steps: seq<Step>, i: nat, j: nat, d: nat)
    requires IsRun(states, steps) && i <= j < |states| && !IsComplete(states[j], d)
    ensures Waiters(states[i].inverse, d) <= Waiters(states[j].inverse, d)
    ensures Queued(states[i], d) <= Queued(states[j], d)
  {
    hide IsRun, Waiters, Queued, Forgotten;
    RunKeeps(states, steps, i, j);
    assert Grows(Waiters(states[i].inverse, d), Waiters(states[j].inverse, d), IsComplete(states[i], d), IsComplete(states[j], d));
    assert Grows(Queued(states[i], d), Queued(states[j], d), IsComplete(states[i], d), IsComplete(states[j], d));
  }

  // A module whose factory ran holds on to none of its dependencies and callbacks.
  lemma CompletedForgets(states: seq<State>, steps: seq<Step>, i: nat, m: nat)
    requires IsRun(states, steps) && i < |states| && m in states[i].history.order
    ensures m in states[i].modules
    ensures var rec := states[i].modules[m];
      rec.complete && rec.dependencies.None? && rec.callback.NoCallback? && !rec.hasErrorback
  {
    assert states[0] == INITIAL && Forgotten(INITIAL);
    hide IsRun, ListsGrow;
    RunKeeps(states, steps, 0, i);
  }
}
