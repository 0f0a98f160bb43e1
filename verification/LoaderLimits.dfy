// Runs that show where the loader stops short of what one could expect of it.

module LoaderLimits {
  import opened Options
  import opened LoaderState
  import opened LoaderResolve
  import opened LoaderTheorems
  import opened LoaderErrorbacks

  // Defining a module with one dependency that is neither defined nor special leaves it waiting.
  lemma WaitsForUndefined(st: State, maxId: nat, id: nat, dep: Dependency, callback: Callback, hasErrorback: bool)
    requires Tables(st) && id !in st.modules && dep.Id() !in st.modules && dep.Id() != id && !dep.Special()
    ensures var s := AddModule(st.(maxId := maxId), id, [dep], callback, hasErrorback);
      Define(st, maxId, id, [dep], callback, hasErrorback) == RequestDependency(AddWaiter(s, dep.Id(), id), dep)
  {
    hide HasDependencyPath, RequestDependency;
    var s := AddModule(st.(maxId := maxId), id, [dep], callback, hasErrorback);
    NoPathFromUndefined(s.modules, dep.Id(), id);
    var r := ResolveStep(s, id, 0);
    assert r == RequestDependency(AddWaiter(s, dep.Id(), id), dep);
    assert Resolve(s, id, 0) == Resolve(r, id, 1);
    assert Resolve(r, id, 1) == r;
  }

  // A cycle through a plugin is not seen by the guard: plugin 3 depends on module 4, which
  // depends on resource 5 of plugin 3.  Everything that was asked for is defined, nothing
  // failed, and neither module ever completes.
  lemma PluginCycleDeadlocks()
    ensures var a := Define(INITIAL, 6, 3, [Regular(4)], NoCallback, false);
      var b := Define(a, 6, 4, [Plugin(5, 3, "")], NoCallback, false);
      && ErrorFree(b)
      && (forall d :: d in b.known ==> d in b.modules)
      && b.modules.Keys == {3, 4} && !b.modules[3].complete && !b.modules[4].complete
  {
    hide Define;
    var a := Define(INITIAL, 6, 3, [Regular(4)], NoCallback, false);
    WaitsForUndefined(INITIAL, 6, 3, Regular(4), NoCallback, false);
    WaitsForUndefined(a, 6, 4, Plugin(5, 3, ""), NoCallback, false);
  }

  // A module that fails because it meets a failed dependency while it is being resolved does
  // not tell its own dependents: 3 waits for 4, 5 cannot be loaded, 4 is defined with
  // dependency 5 and fails, and 3 waits on although nothing is left to load.
  lemma MetFailureNotPassedOn(err: LoaderError)
    ensures var a := Define(INITIAL, 6, 3, [Regular(4)], NoCallback, true);
      var b := OnLoadError(a, 5, err);
      var c := Define(b, 6, 4, [Regular(5)], NoCallback, false);
      && AwaitedDefined(c)
      && Failed(c, 4) && c.modules[4].error == Some(err)
      && 3 in c.modules && !c.modules[3].complete
  {
    hide Resolve, HasDependencyPath;
    WaitsForUndefined(INITIAL, 6, 3, Regular(4), NoCallback, true);
    var a := Define(INITIAL, 6, 3, [Regular(4)], NoCallback, true);
    var b := OnLoadError(a, 5, err);
    FailsAlone(a, 5, err);
    var s := AddModule(b, 4, [Regular(5)], NoCallback, false);
    MeetsAtOnce(s, 4, Regular(5));
    assert Define(b, 6, 4, [Regular(5)], NoCallback, false) == Fail(s, 4, err);
  }

  // An id that is not defined and not waited for fails by itself.
  lemma FailsAlone(st: State, id: nat, err: LoaderError)
    requires Tables(st) && id !in st.modules && Waiters(st.inverse, id) == []
    ensures var r := OnLoadError(st, id, err);
      && r.modules.Keys == st.modules.Keys + {id} && r.inverse == st.inverse && r.maxId == st.maxId
      && IsComplete(r, id) && r.modules[id].error == Some(err)
      && (forall x :: x in st.modules ==> r.modules[x] == st.modules[x])
      && r.history.order == st.history.order
  {
    hide Affected;
    RootAffected(st.inverse, id);
    forall x: nat | x != id
      ensures !Affected(st.inverse, id, x)
    {
      OnlyRootAffected(st.inverse, id, x);
    }
  }

  lemma MeetsAtOnce(st: State, m: nat, dep: Dependency)
    requires Tables(st) && m in st.modules && st.modules[m].dependencies == Some([dep])
    requires !dep.Special() && IsComplete(st, dep.Id()) && st.modules[dep.Id()].error.Some?
    ensures Resolve(st, m, 0) == Fail(st, m, st.modules[dep.Id()].error.value)
  {
    assert MeetsFailure(st, m, 0);
  }

  lemma OnlyRootAffected(inverse: map<nat, seq<nat>>, id: nat, x: nat)
    requires Waiters(inverse, id) == [] && x != id
    ensures !Affected(inverse, id, x)
  {
    if Affected(inverse, id, x) {
      AffectedHasWaiters(inverse, id, x);
    }
  }

  // Module 3 waits for 4 and 5.
  lemma WaitsForTwo()
    ensures var a := Define(INITIAL, 6, 3, [Regular(4), Regular(5)], NoCallback, true);
      && a.modules.Keys == {3} && !a.modules[3].complete && a.modules[3].hasErrorback
      && Waiters(a.inverse, 4) == [3] && Waiters(a.inverse, 5) == [3] && a.maxId == 6
      && a.history.order == []
  {
    hide HasDependencyPath;
    var s := AddModule(INITIAL.(maxId := 6), 3, [Regular(4), Regular(5)], NoCallback, true);
    NoPathFromUndefined(s.modules, 4, 3);
    var t := ResolveStep(s, 3, 0);
    assert t == RequestDependency(AddWaiter(s, 4, 3), Regular(4));
    NoPathFromUndefined(t.modules, 5, 3);
    var a := ResolveStep(t, 3, 1);
    assert a == RequestDependency(AddWaiter(t, 5, 3), Regular(5));
    hide ResolveStep;
    assert Resolve(s, 3, 0) == Resolve(t, 3, 1);
    assert Resolve(t, 3, 1) == Resolve(a, 3, 2);
    assert Resolve(a, 3, 2) == a;
  }

  // When both dependencies of module 3 fail to load, its errorback is called twice:
  // onDependencyError keeps it, and the second failure still finds 3 among the waiters.
  lemma ErrorbackCalledTwice(cause: int)
    ensures var a := Define(INITIAL, 6, 3, [Regular(4), Regular(5)], NoCallback, true);
      var b := OnLoadError(a, 4, LoadFailure(4, cause));
      OnLoadError(b, 5, LoadFailure(5, cause)).history.called[3] == 2
  {
    hide Define, OnLoadError, Affected;
    var a := Define(INITIAL, 6, 3, [Regular(4), Regular(5)], NoCallback, true);
    var b := OnLoadError(a, 4, LoadFailure(4, cause));
    WaitsForTwo();
    NobodyCalled();
    DefineCalls(INITIAL, 6, 3, [Regular(4), Regular(5)], NoCallback, true);
    DirectlyAffected(a.inverse, 4, 3);
    DirectlyAffected(a.inverse, 5, 3);
    LoadErrorCalls(a, 4, LoadFailure(4, cause));
    ReachedFails(a, 4, LoadFailure(4, cause), 3);
    LoadErrorCalls(b, 5, LoadFailure(5, cause));
  }

  lemma DirectlyAffected(inverse: map<nat, seq<nat>>, d: nat, m: nat)
    requires m in Waiters(inverse, d)
    ensures Affected(inverse, d, m)
  {
    assert WaitEdge(inverse, d, m);
    assert IsWaitChain(inverse, [d, m]);
  }

  lemma ReachedFails(st: State, id: nat, err: LoaderError, x: nat)
    requires Tables(st) && x in st.modules && x !in st.history.order && Affected(st.inverse, id, x)
    ensures var r := OnLoadError(st, id, err);
      Failed(r, x) && r.modules[x].hasErrorback == st.modules[x].hasErrorback && r.inverse == st.inverse
  {
    hide Affected, Notified;
  }
}
