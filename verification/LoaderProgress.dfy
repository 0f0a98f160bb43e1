// What a step adds to the history, and which loads are under way.

module LoaderProgress {
  import opened Options
  import opened LoaderState
  import opened LoaderInvariant
  import opened LoaderResolve

  // ----- a step only adds to the history -----

  // m still exports, and was passed, what it did when it completed.
  ghost predicate SameOutcome(st: State, r: State, m: nat) {
    && m in st.modules && m in r.modules && r.modules[m].exports == st.modules[m].exports
    && m in st.history.passed && m in r.history.passed && r.history.passed[m] == st.history.passed[m]
  }

  // From st to r only modules that were neither completed nor failed in st complete.
  ghost predicate Advances(st: State, r: State) {
    && st.history.order <= r.history.order
    && (forall k :: |st.history.order| <= k < |r.history.order| ==> !IsComplete(st, r.history.order[k]))
    && (forall m :: IsComplete(st, m) ==> IsComplete(r, m))
    && (forall m :: m in st.history.order ==> SameOutcome(st, r, m))
    && (forall m :: m in st.history.declared ==> m in r.history.declared && r.history.declared[m] == st.history.declared[m])
    && (forall m :: m in st.history.callbacks ==>
          m in r.history.callbacks && r.history.callbacks[m] == st.history.callbacks[m])
    && st.history.broken <= r.history.broken
  }

  lemma AdvancesTransitive(a: State, b: State, c: State)
    requires Advances(a, b) && Advances(b, c)
    ensures Advances(a, c)
  {
    forall k | |a.history.order| <= k < |c.history.order|
      ensures !IsComplete(a, c.history.order[k])
    {
      if k < |b.history.order| {
        assert c.history.order[k] == b.history.order[k];
      }
    }
    forall m | m in a.history.order
      ensures SameOutcome(a, c, m)
    {
      assert SameOutcome(a, b, m);
      var k :| 0 <= k < |a.history.order| && a.history.order[k] == m;
      assert b.history.order[k] == m;
      assert SameOutcome(b, c, m);
    }
  }

  lemma FinishAdvances(st: State, m: nat, owed: multiset<nat>)
    requires Invariant(st, owed, {m}, map[]) && m in st.modules && !st.modules[m].complete
    ensures Advances(st, Finish(st, m))
  {
    var r := Finish(st, m);
    assert r.history.order == st.history.order + [m];
    forall x | x in st.history.order
      ensures SameOutcome(st, r, x)
    {
      assert x in st.history.passed;
    }
  }

  // Any change to a module that did not complete, outside the order.
  lemma RecordAdvances(st: State, r: State, m: nat)
    requires Ordered(st) && PassedExports(st)
    requires m in st.modules && m in r.modules && r.modules == st.modules[m := r.modules[m]]
    requires r.modules[m].exports == st.modules[m].exports
    requires st.modules[m].complete ==> r.modules[m].complete
    requires r.history.order == st.history.order && r.history.passed == st.history.passed
    requires r.history.declared == st.history.declared && r.history.callbacks == st.history.callbacks
    requires st.history.broken <= r.history.broken
    ensures Advances(st, r)
  {
  }

  lemma AdvancesReflexive(st: State, owed: multiset<nat>, hot: set<nat>)
    requires Invariant(st, owed, hot, map[])
    ensures Advances(st, st)
  {
  }

  lemma {:induction false} CompleteAdvances(st: State, m: nat, owed: multiset<nat>)
    requires Invariant(st, owed, {m}, map[]) && m in st.modules
    requires !st.modules[m].complete ==> st.modules[m].unresolved == 0
    ensures Advances(st, CompleteModule(st, m))
    decreases Incomplete(st), 1, 0
  {
    if !st.modules[m].complete {
      var finished := Finish(st, m);
      var waiters := Waiters(st.inverse, m);
      FinishKeepsInvariant(st, m, owed, map[]);
      FinishAdvances(st, m, owed);
      assert m in Incomplete(st) && m !in Incomplete(finished);
      ReleaseAdvances(finished, waiters, owed);
      AdvancesTransitive(st, finished, Release(finished, waiters));
      SameModulesAdvance(Release(finished, waiters), CompleteModule(st, m), st);
    } else {
      AdvancesReflexive(st, owed, {m});
    }
  }

  lemma SameModulesAdvance(s: State, r: State, st: State)
    requires Advances(st, s) && r.modules == s.modules && r.history == s.history
    ensures Advances(st, r)
  {
    forall m | m in st.history.order
      ensures SameOutcome(st, r, m)
    {
      assert SameOutcome(st, s, m);
    }
    forall m | IsComplete(st, m)
      ensures IsComplete(r, m)
    {
      assert IsComplete(s, m);
    }
  }

  lemma InvariantHistory(st: State, owed: multiset<nat>, hot: set<nat>, open: map<nat, nat>)
    requires Invariant(st, owed, hot, open)
    ensures Tables(st) && Ordered(st) && PassedExports(st)
  {
  }

  lemma {:induction false} ReleaseAdvances(st: State, waiters: seq<nat>, owed: multiset<nat>)
    requires Tables(st) && Invariant(st, owed + multiset(waiters), {}, map[])
    requires forall k :: 0 <= k < |waiters| ==> waiters[k] in st.modules
    ensures Advances(st, Release(st, waiters))
    decreases Incomplete(st), 2, |waiters|
  {
    hide Advances, Invariant;
    if waiters == [] {
      AdvancesReflexive(st, owed + multiset(waiters), {});
    } else {
      var rest := owed + multiset(waiters[1..]);
      OwedSplit(waiters, owed);
      InvariantHistory(st, owed + multiset(waiters), {}, map[]);
      ReleaseOneKeepsInvariant(st, waiters[0], rest, map[], rest);
      ReleaseOneAdvances(st, waiters[0], rest);
      var s := ReleaseOne(st, waiters[0]);
      ReleaseAdvances(s, waiters[1..], owed);
      var r := Release(s, waiters[1..]);
      assert Release(st, waiters) == r;
      AdvancesTransitive(st, s, r);
    }
  }

  lemma DecrementAdvances(st: State, x: nat)
    requires Ordered(st) && PassedExports(st) && x in st.modules
    ensures Advances(st, Decrement(st, x))
  {
    hide Ordered, PassedExports, Advances;
    RecordAdvances(st, Decrement(st, x), x);
  }

  lemma {:induction false} ReleaseOneAdvances(st: State, x: nat, owed: multiset<nat>)
    requires Tables(st) && Ordered(st) && PassedExports(st)
    requires Invariant(st, owed + multiset{x}, {}, map[]) && x in st.modules
    ensures Advances(st, ReleaseOne(st, x))
    decreases Incomplete(st), 1, 1
  {
    hide Invariant, Ordered, PassedExports, Advances;
    var s := Decrement(st, x);
    DecrementAdvances(st, x);
    DecrementKeepsInvariant(st, x, owed, map[]);
    assert Incomplete(s) == Incomplete(st);
    if s.modules[x].unresolved == 0 {
      CompleteAdvances(s, x, owed);
      AdvancesTransitive(st, s, CompleteModule(s, x));
    }
  }

  // An iteration touches the counter of m and nothing else of the modules.
  lemma ResolveStepFrame(st: State, m: nat, i: nat)
    requires Tables(st) && Resolving(st, m, i) && i < |st.modules[m].dependencies.value| && !MeetsFailure(st, m, i)
    ensures var r := ResolveStep(st, m, i);
      && r.modules == st.modules[m := r.modules[m]]
      && r.modules[m] == st.modules[m].(unresolved := r.modules[m].unresolved, exportsPassedIn := r.modules[m].exportsPassedIn)
      && r.history == st.history.(broken := r.history.broken) && st.history.broken <= r.history.broken
  {
    var dep := DepAt(st, m, i);
    if !dep.Special() && !IsComplete(st, dep.Id()) && !HasDependencyPath(st.modules, dep.Id(), m) {
      assert ResolveStep(st, m, i).modules == st.modules;
      assert st.modules == st.modules[m := st.modules[m]];
    }
  }

  lemma ResolveStepAdvances(st: State, m: nat, i: nat)
    requires Tables(st) && Ordered(st) && PassedExports(st)
    requires Resolving(st, m, i) && i < |st.modules[m].dependencies.value| && !MeetsFailure(st, m, i)
    ensures Advances(st, ResolveStep(st, m, i))
  {
    ResolveStepFrame(st, m, i);
    RecordAdvances(st, ResolveStep(st, m, i), m);
  }

  lemma {:induction false} ResolveAdvances(st: State, m: nat, i: nat)
    requires MidResolve(st, m, i)
    ensures Tables(st) && Advances(st, Resolve(st, m, i))
    decreases |st.modules[m].dependencies.value| - i
  {
    hide Invariant, Advances, Tables, Ordered, PassedExports, IdsInRange;
    AmidTables(st, m, i, multiset{}, map[]);
    if i == |st.modules[m].dependencies.value| {
      ResolvedCanComplete(st, m);
      if st.modules[m].unresolved == 0 {
        CompleteAdvances(st, m, multiset{});
      } else {
        AdvancesReflexive(st, multiset{}, {m});
      }
    } else if MeetsFailure(st, m, i) {
      RecordAdvances(st, Resolve(st, m, i), m);
    } else {
      var s := ResolveStep(st, m, i);
      StepKeeps(st, m, i);
      ResolveStepAdvances(st, m, i);
      ResolveAdvances(s, m, i + 1);
      AdvancesTransitive(st, s, Resolve(s, m, i + 1));
    }
  }

  lemma AddModuleAdvances(st: State, maxId: nat, id: nat, deps: seq<Dependency>, callback: Callback, hasErrorback: bool)
    requires IdsInRange(st) && Ordered(st) && PassedExports(st) && id !in st.modules
    ensures Advances(st, AddModule(st.(maxId := maxId), id, deps, callback, hasErrorback))
  {
  }

  lemma DefineAdvances(st: State, maxId: nat, id: nat, deps: seq<Dependency>, callback: Callback, hasErrorback: bool)
    requires Stable(st) && CanDefine(st, maxId, id, deps)
    ensures Advances(st, Define(st, maxId, id, deps, callback, hasErrorback))
  {
    var s := st.(maxId := maxId);
    if id !in st.modules {
      MoreIdsKeep(st, maxId);
      AddModuleKeeps(s, id, deps, callback, hasErrorback);
      AddModuleAdvances(st, maxId, id, deps, callback, hasErrorback);
      var a := AddModule(s, id, deps, callback, hasErrorback);
      ResolveAdvances(a, id, 0);
      AdvancesTransitive(st, a, Resolve(a, id, 0));
    }
  }

  lemma FailAffectedAdvances(st: State, id: nat, err: LoaderError)
    requires Tables(st) && Ordered(st) && PassedExports(st)
    ensures Advances(st, FailAffected(st, id, err))
    ensures FailAffected(st, id, err).history.order == st.history.order
  {
    hide Affected, Tables, Notified, PassedExport;
  }

  lemma ToldAdvances(st: State, s: State, r: State)
    requires Advances(st, s) && r == s.(history := s.history.(reported := r.history.reported))
    ensures Advances(st, r)
  {
    hide SameOutcome;
    forall m | m in st.history.order
      ensures SameOutcome(st, r, m)
    {
      ToldOutcome(st, s, r, m);
    }
    forall m | IsComplete(st, m)
      ensures IsComplete(r, m)
    {
      assert IsComplete(s, m);
    }
  }

  lemma ToldOutcome(st: State, s: State, r: State, m: nat)
    requires SameOutcome(st, s, m) && r == s.(history := s.history.(reported := r.history.reported))
    ensures SameOutcome(st, r, m)
  {
  }

  lemma WithModuleAdvances(st: State, id: nat)
    requires Stable(st) && id < st.maxId
    ensures Tables(st)
    ensures Advances(st, WithModule(st, id)) && WithModule(st, id).history.order == st.history.order
    ensures Ordered(WithModule(st, id)) && PassedExports(WithModule(st, id))
  {
    hide Advances, Ordered, PassedExports, Acyclic, AllSettled, Topological, Backed, Counted, Awaiting;
    WithModuleKeeps(st, id);
    InvariantHistory(WithModule(st, id), multiset{}, {id}, map[]);
    if id in st.modules {
      AdvancesReflexive(st, multiset{}, {});
    } else {
      AddModuleAdvances(st, st.maxId, id, [], Factory(Returned(None, false)), false);
    }
  }

  lemma OnLoadErrorAdvances(st: State, id: nat, err: LoaderError)
    requires Stable(st) && id < st.maxId
    ensures Advances(st, OnLoadError(st, id, err))
    ensures OnLoadError(st, id, err).history.order == st.history.order
  {
    hide Advances, WithModule, FailAffected, Notified, IdsInRange, Ordered, PassedExports, Acyclic, AllSettled, Topological;
    var s := WithModule(st, id);
    WithModuleAdvances(st, id);
    FailAffectedAdvances(s, id, err);
    AdvancesTransitive(st, s, FailAffected(s, id, err));
    ToldAdvances(st, FailAffected(s, id, err), OnLoadError(st, id, err));
  }

  // ----- loads under way -----

  // Id d is queued behind plugin p, which was neither completed nor, being done, emptied its queue.
  ghost predicate QueuedBehind(st: State, d: nat, p: nat) {
    p in st.inversePlugins && exists k :: 0 <= k < |st.inversePlugins[p]| && st.inversePlugins[p][k].Id() == d
  }

  ghost predicate Asked(st: State, d: nat) {
    d in st.modules || d in st.known
  }

  // A load of d was asked for, or waits for a plugin that was asked for and did not complete;
  // plugins in `busy` completed and are about to empty their queues.
  ghost predicate OnItsWay(st: State, d: nat, busy: set<nat>) {
    || Asked(st, d)
    || exists p :: QueuedBehind(st, d, p) && Asked(st, p) && (p in busy || p !in st.history.order)
  }

  ghost predicate AwaitedOnTheirWay(st: State, busy: set<nat>) {
    forall m: nat, d: nat :: m in Waiters(st.inverse, d) ==> OnItsWay(st, d, busy)
  }

  // Each load is asked for once.
  ghost predicate AskedOnce(st: State) {
    && (forall i, j :: 0 <= i < j < |st.requests| ==> st.requests[i].id != st.requests[j].id)
    && (forall i :: 0 <= i < |st.requests| ==> st.requests[i].id in st.known)
    && (forall d :: d in st.known ==> exists i :: 0 <= i < |st.requests| && st.requests[i].id == d)
  }

  ghost predicate Requested(st: State, busy: set<nat>) {
    AwaitedOnTheirWay(st, busy) && AskedOnce(st)
  }

  // Asking for more, without dropping a queue, loses no awaited id.
  lemma AwaitedGrow(st: State, r: State, busy: set<nat>)
    requires AwaitedOnTheirWay(st, busy)
    requires r.modules.Keys >= st.modules.Keys && st.known <= r.known && r.history.order == st.history.order
    requires forall m: nat, d: nat :: m in Waiters(r.inverse, d) ==> m in Waiters(st.inverse, d) || OnItsWay(r, d, busy)
    requires forall d, p :: QueuedBehind(st, d, p) ==> QueuedBehind(r, d, p)
    ensures AwaitedOnTheirWay(r, busy)
  {
    forall m: nat, d: nat | m in Waiters(r.inverse, d)
      ensures OnItsWay(r, d, busy)
    {
      if m in Waiters(st.inverse, d) {
        assert OnItsWay(st, d, busy);
        if !Asked(st, d) {
          var p :| QueuedBehind(st, d, p) && Asked(st, p) && (p in busy || p !in st.history.order);
          assert QueuedBehind(r, d, p) && Asked(r, p);
        }
      }
    }
  }

  lemma AskKeepsOnce(st: State, request: Request)
    requires AskedOnce(st) && request.id !in st.known
    ensures AskedOnce(st.(known := st.known + {request.id}, requests := st.requests + [request]))
  {
    var r := st.(known := st.known + {request.id}, requests := st.requests + [request]);
    forall d | d in r.known
      ensures exists i :: 0 <= i < |r.requests| && r.requests[i].id == d
    {
      if d in st.known {
        var i :| 0 <= i < |st.requests| && st.requests[i].id == d;
        assert r.requests[i].id == d;
      } else {
        assert r.requests[|st.requests|].id == d;
      }
    }
  }

  lemma LoadModuleRequested(st: State, id: nat, busy: set<nat>)
    requires AskedOnce(st)
    ensures AskedOnce(LoadModule(st, id)) && Asked(LoadModule(st, id), id)
    ensures Requested(st, busy) ==> Requested(LoadModule(st, id), busy)
  {
    if !Asked(st, id) {
      AskKeepsOnce(st, Script(id));
    }
    if Requested(st, busy) {
      AwaitedGrow(st, LoadModule(st, id), busy);
    }
  }

  lemma LoadPluginRequested(st: State, dep: Dependency, busy: set<nat>)
    requires AskedOnce(st) && dep.Plugin?
    ensures AskedOnce(LoadPluginDependency(st, dep)) && Asked(LoadPluginDependency(st, dep), dep.Id())
    ensures Requested(st, busy) ==> Requested(LoadPluginDependency(st, dep), busy)
  {
    if !Asked(st, dep.Id()) {
      AskKeepsOnce(st, PluginLoad(dep.resourceId, dep.pluginId, dep.param));
    }
    if Requested(st, busy) {
      AwaitedGrow(st, LoadPluginDependency(st, dep), busy);
    }
  }

  lemma {:induction false} LoadPluginsRequested(st: State, deps: seq<Dependency>, busy: set<nat>)
    requires AskedOnce(st)
    requires forall k :: 0 <= k < |deps| ==> deps[k].Plugin?
    ensures var r := LoadPluginDependencies(st, deps);
      AskedOnce(r) && st.known <= r.known && forall k :: 0 <= k < |deps| ==> Asked(r, deps[k].Id())
    decreases |deps|
  {
    if deps == [] {
    } else {
      var s := LoadPluginDependency(st, deps[0]);
      LoadPluginRequested(st, deps[0], busy);
      LoadPluginsRequested(s, deps[1..], busy);
      forall k | 0 <= k < |deps|
        ensures Asked(LoadPluginDependencies(st, deps), deps[k].Id())
      {
        if k > 0 {
          assert deps[k] == deps[1..][k - 1];
        }
      }
    }
  }

  lemma FinishRequested(st: State, m: nat, busy: set<nat>)
    requires Requested(st, busy) && m in st.modules
    ensures Requested(Finish(st, m), busy + {m})
  {
    var r := Finish(st, m);
    assert AwaitedOnTheirWay(r, busy + {m}) by {
      forall x: nat, d: nat | x in Waiters(r.inverse, d)
        ensures OnItsWay(r, d, busy + {m})
      {
        assert x in Waiters(st.inverse, d);
        assert OnItsWay(st, d, busy);
        if !Asked(st, d) {
          var p :| QueuedBehind(st, d, p) && Asked(st, p) && (p in busy || p !in st.history.order);
          assert QueuedBehind(r, d, p) && Asked(r, p);
        }
      }
    }
  }

  lemma ReleasePluginsRequested(st: State, m: nat, busy: set<nat>)
    requires PluginsQueued(st) && Requested(st, busy + {m})
    ensures Requested(ReleasePlugins(st, m), busy)
  {
    var r := ReleasePlugins(st, m);
    if m in st.inversePlugins {
      LoadPluginsRequested(st.(inversePlugins := st.inversePlugins - {m}), st.inversePlugins[m], busy);
    }
    forall x: nat, d: nat | x in Waiters(r.inverse, d)
      ensures OnItsWay(r, d, busy)
    {
      assert OnItsWay(st, d, busy + {m});
      if !Asked(st, d) {
        var p :| QueuedBehind(st, d, p) && Asked(st, p) && (p in busy + {m} || p !in st.history.order);
        if p != m {
          assert p in r.inversePlugins && r.inversePlugins[p] == st.inversePlugins[p];
          assert QueuedBehind(r, d, p) && Asked(r, p);
        }
      }
    }
  }

  lemma {:induction false} CompleteRequested(st: State, m: nat, busy: set<nat>)
    requires Tables(st) && m in st.modules && Requested(st, busy)
    ensures Requested(CompleteModule(st, m), busy)
    decreases Incomplete(st), 1, 0
  {
    hide Requested;
    if !st.modules[m].complete {
      var finished := Finish(st, m);
      FinishRequested(st, m, busy);
      assert m in Incomplete(st) && m !in Incomplete(finished);
      ReleaseRequested(finished, Waiters(st.inverse, m), busy + {m});
      ReleasePluginsRequested(Release(finished, Waiters(st.inverse, m)), m, busy);
    }
  }

  lemma {:induction false} ReleaseRequested(st: State, waiters: seq<nat>, busy: set<nat>)
    requires Tables(st) && Requested(st, busy)
    requires forall k :: 0 <= k < |waiters| ==> waiters[k] in st.modules
    ensures Requested(Release(st, waiters), busy)
    decreases Incomplete(st), 2, |waiters|
  {
    hide Requested;
    if waiters == [] {
    } else {
      ReleaseOneRequested(st, waiters[0], busy);
      ReleaseRequested(ReleaseOne(st, waiters[0]), waiters[1..], busy);
    }
  }

  lemma {:induction false} ReleaseOneRequested(st: State, x: nat, busy: set<nat>)
    requires Tables(st) && x in st.modules && Requested(st, busy)
    ensures Requested(ReleaseOne(st, x), busy)
    decreases Incomplete(st), 1, 1
  {
    var s := Decrement(st, x);
    AwaitedGrow(st, s, busy);
    assert Incomplete(s) == Incomplete(st);
    if s.modules[x].unresolved == 0 {
      CompleteRequested(s, x, busy);
    }
  }

  lemma QueueKeepsQueues(st: State, dep: Dependency)
    requires dep.Plugin? && PluginsQueued(st)
    ensures forall d, p :: QueuedBehind(st, d, p) ==> QueuedBehind(QueueForPlugin(st, dep), d, p)
    ensures QueuedBehind(QueueForPlugin(st, dep), dep.Id(), dep.pluginId)
  {
    var r := QueueForPlugin(st, dep);
    forall d, p | QueuedBehind(st, d, p)
      ensures QueuedBehind(r, d, p)
    {
      var k :| 0 <= k < |st.inversePlugins[p]| && st.inversePlugins[p][k].Id() == d;
      assert r.inversePlugins[p][k].Id() == d;
    }
    var queue := r.inversePlugins[dep.pluginId];
    assert queue[|queue| - 1].Id() == dep.Id();
  }

  lemma RequestDependencyRequested(st: State, s: State, dep: Dependency)
    requires Requested(st, {}) && !dep.Special() && PluginsQueued(st) && Ordered(st)
    requires s == st.(inverse := s.inverse)
    requires forall x: nat, d: nat :: x in Waiters(s.inverse, d) && d != dep.Id() ==> x in Waiters(st.inverse, d)
    ensures Requested(RequestDependency(s, dep), {})
  {
    var r := RequestDependency(s, dep);
    if dep.Plugin? && IsComplete(s, dep.pluginId) {
      LoadPluginRequested(s, dep, {});
    } else if dep.Plugin? {
      QueueKeepsQueues(s, dep);
      var q := QueueForPlugin(s, dep);
      LoadModuleRequested(q, dep.pluginId, {});
      assert QueuedBehind(r, dep.Id(), dep.pluginId);
      assert dep.pluginId !in r.history.order;
    } else {
      LoadModuleRequested(s, dep.Id(), {});
    }
    forall d, p | QueuedBehind(st, d, p)
      ensures QueuedBehind(r, d, p)
    {
      assert QueuedBehind(s, d, p);
    }
    AwaitedGrow(st, r, {});
  }

  lemma ResolveStepRequested(st: State, m: nat, i: nat)
    requires Tables(st) && Ordered(st) && Requested(st, {})
    requires Resolving(st, m, i) && i < |st.modules[m].dependencies.value| && !MeetsFailure(st, m, i)
    ensures Requested(ResolveStep(st, m, i), {})
  {
    var dep := DepAt(st, m, i);
    if dep.Special() || IsComplete(st, dep.Id()) || HasDependencyPath(st.modules, dep.Id(), m) {
      AwaitedGrow(st, ResolveStep(st, m, i), {});
    } else {
      RequestDependencyRequested(st, AddWaiter(st, dep.Id(), m), dep);
    }
  }

  lemma FailRequested(st: State, m: nat, err: LoaderError)
    requires m in st.modules && Requested(st, {})
    ensures Requested(Fail(st, m, err), {})
  {
    AwaitedGrow(st, Fail(st, m, err), {});
  }

  lemma {:induction false} ResolveRequested(st: State, m: nat, i: nat)
    requires MidResolve(st, m, i) && Requested(st, {})
    ensures Tables(st) && Requested(Resolve(st, m, i), {})
    decreases |st.modules[m].dependencies.value| - i
  {
    hide Invariant, IdsInRange, Ordered, PassedExports, Tables, Requested;
    AmidTables(st, m, i, multiset{}, map[]);
    if i == |st.modules[m].dependencies.value| {
      if st.modules[m].unresolved == 0 {
        CompleteRequested(st, m, {});
      }
    } else if MeetsFailure(st, m, i) {
      FailRequested(st, m, st.modules[DepAt(st, m, i).Id()].error.value);
    } else {
      StepKeeps(st, m, i);
      ResolveStepRequested(st, m, i);
      ResolveRequested(ResolveStep(st, m, i), m, i + 1);
    }
  }

  lemma DefineRequested(st: State, maxId: nat, id: nat, deps: seq<Dependency>, callback: Callback, hasErrorback: bool)
    requires Stable(st) && CanDefine(st, maxId, id, deps) && Requested(st, {})
    ensures Requested(Define(st, maxId, id, deps, callback, hasErrorback), {})
  {
    hide OnItsWay, Acyclic, Topological, PassedExports, AllSettled, Counted, Awaiting, Ordered, Backed;
    MoreIdsKeep(st, maxId);
    var s := st.(maxId := maxId);
    AwaitedGrow(st, s, {});
    if id !in st.modules {
      AddModuleKeeps(s, id, deps, callback, hasErrorback);
      var a := AddModule(s, id, deps, callback, hasErrorback);
      AwaitedGrow(s, a, {});
      ResolveRequested(a, id, 0);
    }
  }

  lemma OnLoadErrorRequested(st: State, id: nat, err: LoaderError)
    requires Tables(st) && Requested(st, {})
    ensures Requested(OnLoadError(st, id, err), {})
  {
    AwaitedGrow(st, OnLoadError(st, id, err), {});
  }
}
