// What a definition adds (src/vs/loader.js:1417-1437): the module with its dependencies, callback
// and errorback, whatever completes or fails on the way.

module LoaderDefinitions {
  import opened LoaderState

  // Definitions are as they were; a module that did not run its factory keeps its errorback.
  ghost predicate KeepsDefinitions(st: State, r: State) {
    && r.maxId == st.maxId && r.modules.Keys == st.modules.Keys
    && r.history.declared == st.history.declared && r.history.callbacks == st.history.callbacks
    && (forall x :: x in st.history.order ==> x in r.history.order)
    && (forall x :: x in st.modules && x !in r.history.order ==> r.modules[x].hasErrorback == st.modules[x].hasErrorback)
  }

  lemma KeepsTransitive(a: State, b: State, c: State)
    requires KeepsDefinitions(a, b) && KeepsDefinitions(b, c)
    ensures KeepsDefinitions(a, c)
  {
  }

  lemma KeepsSame(st: State)
    ensures KeepsDefinitions(st, st)
  {
  }

  lemma FinishKeepsDefinitions(st: State, m: nat)
    requires m in st.modules
    ensures KeepsDefinitions(st, Finish(st, m))
  {
  }

  lemma PluginsKeepDefinitions(st: State, m: nat)
    requires PluginsQueued(st)
    ensures KeepsDefinitions(st, ReleasePlugins(st, m))
  {
  }

  lemma {:induction false} CompleteKeepsDefinitions(st: State, m: nat)
    requires Tables(st) && m in st.modules
    ensures KeepsDefinitions(st, CompleteModule(st, m))
    decreases Incomplete(st), 1, 0
  {
    hide KeepsDefinitions;
    if st.modules[m].complete {
      KeepsSame(st);
    } else {
      var finished, waiters := Finish(st, m), Waiters(st.inverse, m);
      var released := Release(finished, waiters);
      assert m in Incomplete(st) && m !in Incomplete(finished);
      FinishKeepsDefinitions(st, m);
      ReleaseKeepsDefinitions(finished, waiters);
      KeepsTransitive(st, finished, released);
      PluginsKeepDefinitions(released, m);
      KeepsTransitive(st, released, CompleteModule(st, m));
    }
  }

  lemma {:induction false} ReleaseKeepsDefinitions(st: State, waiters: seq<nat>)
    requires Tables(st) && forall k :: 0 <= k < |waiters| ==> waiters[k] in st.modules
    ensures KeepsDefinitions(st, Release(st, waiters))
    decreases Incomplete(st), 2, |waiters|
  {
    hide KeepsDefinitions;
    if waiters == [] {
      KeepsSame(st);
    } else {
      ReleaseOneKeepsDefinitions(st, waiters[0]);
      var s := ReleaseOne(st, waiters[0]);
      ReleaseKeepsDefinitions(s, waiters[1..]);
      KeepsTransitive(st, s, Release(s, waiters[1..]));
    }
  }

  lemma {:induction false} ReleaseOneKeepsDefinitions(st: State, x: nat)
    requires Tables(st) && x in st.modules
    ensures KeepsDefinitions(st, ReleaseOne(st, x))
    decreases Incomplete(st), 1, 1
  {
    var s := Decrement(st, x);
    assert KeepsDefinitions(st, s);
    hide KeepsDefinitions;
    assert Incomplete(s) == Incomplete(st);
    if s.modules[x].unresolved == 0 {
      CompleteKeepsDefinitions(s, x);
      KeepsTransitive(st, s, CompleteModule(s, x));
    }
  }

  lemma StepKeepsDefinitions(st: State, m: nat, i: nat)
    requires Tables(st) && Resolving(st, m, i) && i < |st.modules[m].dependencies.value| && !MeetsFailure(st, m, i)
    ensures KeepsDefinitions(st, ResolveStep(st, m, i))
  {
    hide HasDependencyPath, Tables;
  }

  lemma FailKeepsDefinitions(st: State, m: nat, err: LoaderError)
    requires m in st.modules
    ensures KeepsDefinitions(st, Fail(st, m, err))
  {
  }

  lemma {:induction false} ResolveKeepsDefinitions(st: State, m: nat, i: nat)
    requires Tables(st) && Resolving(st, m, i)
    ensures KeepsDefinitions(st, Resolve(st, m, i))
    decreases |st.modules[m].dependencies.value| - i
  {
    hide KeepsDefinitions, Tables;
    if i == |st.modules[m].dependencies.value| {
      if st.modules[m].unresolved == 0 {
        CompleteKeepsDefinitions(st, m);
      } else {
        KeepsSame(st);
      }
    } else if MeetsFailure(st, m, i) {
      FailKeepsDefinitions(st, m, st.modules[DepAt(st, m, i).Id()].error.value);
    } else {
      var s := ResolveStep(st, m, i);
      StepKeepsDefinitions(st, m, i);
      ResolveKeepsDefinitions(s, m, i + 1);
      KeepsTransitive(st, s, Resolve(s, m, i + 1));
    }
  }

  // What a definition adds: these dependencies, this callback, and this errorback until the factory
  // has run.  No other module is added or declared anew.
  ghost predicate Adds(st: State, r: State, id: nat, deps: seq<Dependency>, callback: Callback, hasErrorback: bool) {
    && r.modules.Keys == st.modules.Keys + {id}
    && r.history.declared == st.history.declared[id := deps]
    && r.history.callbacks == st.history.callbacks[id := callback]
    && (id !in r.history.order ==> r.modules[id].hasErrorback == hasErrorback)
  }

  // A second definition of an id changes nothing; the first adds the module.
  lemma DefineAdds(st: State, maxId: nat, id: nat, deps: seq<Dependency>, callback: Callback, hasErrorback: bool)
    requires Tables(st)
    ensures var r := Define(st, maxId, id, deps, callback, hasErrorback);
      && r.maxId == maxId
      && (if id in st.modules then r == st.(maxId := maxId) else Adds(st, r, id, deps, callback, hasErrorback))
  {
    hide Resolve;
    if id !in st.modules {
      ResolveKeepsDefinitions(AddModule(st.(maxId := maxId), id, deps, callback, hasErrorback), id, 0);
    }
  }
}
