// What the loader asks for (src/vs/loader.js:1662-1669, 1712-1726, 1773-1789, 1852-1861): only what
// was declared, and every resource of its own plugin, with its own parameter, once that is complete.

module LoaderLoads {
  import opened LoaderState
  import opened LoaderTheorems
  import LoaderDropped

  ghost predicate DeclaredAt(h: History, dep: Dependency, m: nat, i: nat) {
    m in h.declared && i < |h.declared[m]| && h.declared[m][i] == dep
  }

  // Some module has this dependency.
  ghost predicate IsDeclared(h: History, dep: Dependency) {
    exists m: nat, i: nat :: DeclaredAt(h, dep, m, i)
  }

  ghost predicate IsDeclaredPlugin(h: History, p: nat) {
    exists id: nat, param: string :: IsDeclared(h, Plugin(id, p, param))
  }

  ghost predicate Rightful(st: State, request: Request) {
    match request
    case Script(id) => IsDeclared(st.history, Regular(id)) || IsDeclaredPlugin(st.history, id)
    case PluginLoad(id, p, param) => IsDeclared(st.history, Plugin(id, p, param)) && IsComplete(st, p)
  }

  ghost predicate QueuesDeclared(st: State) {
    forall p, k :: p in st.inversePlugins && 0 <= k < |st.inversePlugins[p]| ==> IsDeclared(st.history, st.inversePlugins[p][k])
  }

  ghost predicate Lawful(st: State) {
    QueuesDeclared(st) && forall k :: 0 <= k < |st.requests| ==> Rightful(st, st.requests[k])
  }

  lemma StillDeclared(h: History, later: History, dep: Dependency)
    requires IsDeclared(h, dep) && LoaderDropped.MoreDeclared(h, later)
    ensures IsDeclared(later, dep)
  {
    var m: nat, i: nat :| DeclaredAt(h, dep, m, i);
    assert DeclaredAt(later, dep, m, i);
  }

  lemma StillRightful(st: State, r: State, request: Request)
    requires Rightful(st, request) && LoaderDropped.MoreDeclared(st.history, r.history)
    requires forall x: nat :: IsComplete(st, x) ==> IsComplete(r, x)
    ensures Rightful(r, request)
  {
    match request
    case Script(id) =>
      if IsDeclared(st.history, Regular(id)) {
        StillDeclared(st.history, r.history, Regular(id));
      } else {
        var d: nat, param: string :| IsDeclared(st.history, Plugin(d, id, param));
        StillDeclared(st.history, r.history, Plugin(d, id, param));
      }
    case PluginLoad(id, p, param) =>
      StillDeclared(st.history, r.history, Plugin(id, p, param));
  }

  // More may be declared or complete.
  ghost predicate SameLoads(st: State, r: State) {
    && r.requests == st.requests && r.inversePlugins == st.inversePlugins
    && LoaderDropped.MoreDeclared(st.history, r.history)
    && forall x: nat :: IsComplete(st, x) ==> IsComplete(r, x)
  }

  lemma SameLawful(st: State, r: State)
    requires Lawful(st) && SameLoads(st, r)
    ensures Lawful(r)
  {
    hide Rightful, IsDeclared, LoaderDropped.MoreDeclared;
    forall k | 0 <= k < |r.requests|
      ensures Rightful(r, r.requests[k])
    {
      StillRightful(st, r, st.requests[k]);
    }
    forall p, k | p in r.inversePlugins && 0 <= k < |r.inversePlugins[p]|
      ensures IsDeclared(r.history, r.inversePlugins[p][k])
    {
      StillDeclared(st.history, r.history, st.inversePlugins[p][k]);
    }
  }

  // ----- requests -----

  // One more rightful request, or none; the queues may get shorter.
  lemma AskLawful(st: State, r: State, request: Request)
    requires Lawful(st) && QueuesDeclared(r)
    requires r == st.(known := r.known, requests := r.requests, inversePlugins := r.inversePlugins)
    requires r.requests == st.requests || (r.requests == st.requests + [request] && Rightful(st, request))
    ensures Lawful(r)
  {
    hide LoaderDropped.MoreDeclared, QueuesDeclared;
    SameDeclared(st.history);
    forall k | 0 <= k < |r.requests|
      ensures Rightful(r, r.requests[k])
    {
      assert Rightful(st, r.requests[k]);
      StillRightful(st, r, r.requests[k]);
    }
  }

  lemma SameDeclared(h: History)
    ensures LoaderDropped.MoreDeclared(h, h)
  {
  }

  lemma {:induction false} LoadPluginsLawful(st: State, deps: seq<Dependency>, p: nat)
    requires Lawful(st) && IsComplete(st, p)
    requires forall k :: 0 <= k < |deps| ==> deps[k].Plugin? && deps[k].pluginId == p && IsDeclared(st.history, deps[k])
    ensures Lawful(LoadPluginDependencies(st, deps))
    decreases |deps|
  {
    hide IsDeclared, Lawful, QueuesDeclared;
    if deps != [] {
      var s := LoadPluginDependency(st, deps[0]);
      QueuesOf(st);
      SameQueues(st, s);
      AskLawful(st, s, PluginLoad(deps[0].resourceId, deps[0].pluginId, deps[0].param));
      LoadPluginsLawful(s, deps[1..], p);
    }
  }

  lemma QueuesOf(st: State)
    requires Lawful(st)
    ensures QueuesDeclared(st)
  {
  }

  lemma SameQueues(st: State, r: State)
    requires QueuesDeclared(st) && r.inversePlugins == st.inversePlugins && r.history == st.history
    ensures QueuesDeclared(r)
  {
  }

  lemma ReleasePluginsLawful(st: State, m: nat)
    requires PluginsQueued(st) && Lawful(st) && IsComplete(st, m)
    ensures Lawful(ReleasePlugins(st, m))
  {
    hide IsDeclared, Rightful;
    if m in st.inversePlugins {
      var s := st.(inversePlugins := st.inversePlugins - {m});
      AskLawful(st, s, Script(0));
      LoadPluginsLawful(s, st.inversePlugins[m], m);
    }
  }

  lemma RequestLawful(st: State, dep: Dependency)
    requires PluginsQueued(st) && Lawful(st) && !dep.Special() && IsDeclared(st.history, dep)
    ensures Lawful(RequestDependency(st, dep))
  {
    hide IsDeclared, Lawful, QueuesDeclared;
    QueuesOf(st);
    var r := RequestDependency(st, dep);
    match dep
    case Plugin(id, p, param) =>
      if IsComplete(st, p) {
        SameQueues(st, r);
        AskLawful(st, r, PluginLoad(id, p, param));
      } else {
        var s := QueueForPlugin(st, dep);
        QueueLawful(st, dep);
        QueuesOf(s);
        assert IsDeclared(s.history, Plugin(id, p, param));
        SameQueues(s, r);
        AskLawful(s, r, Script(p));
      }
    case _ =>
      SameQueues(st, r);
      AskLawful(st, r, Script(dep.Id()));
  }

  lemma QueueLawful(st: State, dep: Dependency)
    requires dep.Plugin? && PluginsQueued(st) && Lawful(st) && IsDeclared(st.history, dep)
    ensures Lawful(QueueForPlugin(st, dep))
  {
    hide IsDeclared, Rightful;
    AskLawful(st, QueueForPlugin(st, dep), Script(0));
  }

  // ----- completion -----

  lemma {:induction false} CompleteLawful(st: State, m: nat)
    requires Tables(st) && m in st.modules && Lawful(st)
    ensures Lawful(CompleteModule(st, m)) && forall x: nat :: IsComplete(st, x) ==> IsComplete(CompleteModule(st, m), x)
    decreases Incomplete(st), 1, 0
  {
    hide Lawful;
    if !st.modules[m].complete {
      var finished, waiters := Finish(st, m), Waiters(st.inverse, m);
      assert m in Incomplete(st) && m !in Incomplete(finished);
      SameLawful(st, finished);
      ReleaseLawful(finished, waiters);
      assert IsComplete(finished, m);
      ReleasePluginsLawful(Release(finished, waiters), m);
    }
  }

  lemma {:induction false} ReleaseLawful(st: State, waiters: seq<nat>)
    requires Tables(st) && Lawful(st) && forall k :: 0 <= k < |waiters| ==> waiters[k] in st.modules
    ensures Lawful(Release(st, waiters)) && forall x: nat :: IsComplete(st, x) ==> IsComplete(Release(st, waiters), x)
    decreases Incomplete(st), 2, |waiters|
  {
    hide Lawful;
    if waiters != [] {
      ReleaseOneLawful(st, waiters[0]);
      ReleaseLawful(ReleaseOne(st, waiters[0]), waiters[1..]);
    }
  }

  lemma {:induction false} ReleaseOneLawful(st: State, x: nat)
    requires Tables(st) && x in st.modules && Lawful(st)
    ensures Lawful(ReleaseOne(st, x)) && forall y: nat :: IsComplete(st, y) ==> IsComplete(ReleaseOne(st, x), y)
    decreases Incomplete(st), 1, 1
  {
    hide Lawful;
    var s := Decrement(st, x);
    assert Incomplete(s) == Incomplete(st);
    SameLawful(st, s);
    assert forall y: nat :: IsComplete(st, y) ==> IsComplete(s, y);
    if s.modules[x].unresolved == 0 {
      CompleteLawful(s, x);
    }
  }

  // ----- resolution -----

  lemma WaitLawful(st: State, m: nat, i: nat)
    requires Tables(st) && Resolving(st, m, i) && i < |st.modules[m].dependencies.value|
    requires Lawful(st) && LoaderDropped.AsDeclared(st) && !DepAt(st, m, i).Special()
    ensures var dep := DepAt(st, m, i); Lawful(RequestDependency(AddWaiter(st, dep.Id(), m), dep))
  {
    hide Lawful, Closed;
    var dep := DepAt(st, m, i);
    var s := AddWaiter(st, dep.Id(), m);
    SameLawful(st, s);
    assert DeclaredAt(s.history, dep, m, i);
    RequestLawful(s, dep);
  }

  lemma StepAsDeclared(st: State, m: nat, i: nat)
    requires Tables(st) && Resolving(st, m, i) && i < |st.modules[m].dependencies.value| && !MeetsFailure(st, m, i)
    requires LoaderDropped.AsDeclared(st)
    ensures LoaderDropped.AsDeclared(ResolveStep(st, m, i))
  {
    hide Tables, HasDependencyPath;
    assert ResolveStep(st, m, i).history.declared == st.history.declared;
  }

  lemma StepLawful(st: State, m: nat, i: nat)
    requires Tables(st) && Resolving(st, m, i) && i < |st.modules[m].dependencies.value| && !MeetsFailure(st, m, i)
    requires Lawful(st) && LoaderDropped.AsDeclared(st)
    ensures Lawful(ResolveStep(st, m, i))
  {
    hide Lawful, Tables, HasDependencyPath, RequestDependency, LoaderDropped.AsDeclared;
    var dep := DepAt(st, m, i);
    if dep.Special() || IsComplete(st, dep.Id()) || HasDependencyPath(st.modules, dep.Id(), m) {
      SameLawful(st, ResolveStep(st, m, i));
    } else {
      WaitLawful(st, m, i);
    }
  }

  lemma {:induction false} ResolveLawful(st: State, m: nat, i: nat)
    requires Tables(st) && Resolving(st, m, i) && Lawful(st) && LoaderDropped.AsDeclared(st)
    ensures Lawful(Resolve(st, m, i))
    decreases |st.modules[m].dependencies.value| - i
  {
    hide Lawful, Tables, LoaderDropped.AsDeclared;
    if i == |st.modules[m].dependencies.value| {
      if st.modules[m].unresolved == 0 {
        CompleteLawful(st, m);
      }
    } else if MeetsFailure(st, m, i) {
      SameLawful(st, Resolve(st, m, i));
    } else {
      StepLawful(st, m, i);
      StepAsDeclared(st, m, i);
      ResolveLawful(ResolveStep(st, m, i), m, i + 1);
    }
  }

  // ----- runs -----

  lemma FailingLawful(st: State, id: nat, err: LoaderError)
    requires Tables(st) && Lawful(st)
    ensures Lawful(FailAffected(st, id, err))
  {
    hide Affected, Notified, Lawful, Tables;
    SameLawful(st, FailAffected(st, id, err));
  }

  lemma LoadErrorLawful(st: State, id: nat, err: LoaderError)
    requires Tables(st) && Lawful(st) && LoaderDropped.AsDeclared(st)
    ensures Lawful(OnLoadError(st, id, err))
  {
    hide Notified, Lawful, FailAffected, Tables;
    var s := WithModule(st, id);
    SameLawful(st, s);
    FailingLawful(s, id, err);
    SameLawful(FailAffected(s, id, err), OnLoadError(st, id, err));
  }

  lemma DefineLawful(st: State, maxId: nat, id: nat, deps: seq<Dependency>, callback: Callback, hasErrorback: bool)
    requires Tables(st) && Lawful(st) && LoaderDropped.AsDeclared(st)
    ensures Lawful(Define(st, maxId, id, deps, callback, hasErrorback))
  {
    hide Lawful, Resolve;
    var s := st.(maxId := maxId);
    SameLawful(st, s);
    if id !in st.modules {
      var a := AddModule(s, id, deps, callback, hasErrorback);
      SameLawful(s, a);
      ResolveLawful(a, id, 0);
    }
  }

  lemma StepKeepsLawful(st: State, step: Step, r: State)
    requires Lawful(st) && LoaderDropped.AsDeclared(st) && Takes(st, step, r)
    ensures Lawful(r)
  {
    hide Lawful, OnLoadError, Define, LoaderDropped.AsDeclared;
    match step
    case DefineStep(maxId, id, deps, callback, hasErrorback) =>
      DefineLawful(st, maxId, id, deps, callback, hasErrorback);
    case LoadErrorStep(id, cause) =>
      LoadErrorLawful(st, id, LoadFailure(id, cause));
  }

  lemma {:induction false} RunLawful(states: seq<State>, steps: seq<Step>, i: nat)
    requires IsRun(states, steps) && i < |states|
    ensures Lawful(states[i])
  {
    hide Takes;
    if i > 0 {
      hide Lawful, LoaderDropped.AsDeclared;
      RunLawful(states, steps, i - 1);
      LoaderDropped.RunDrops(states, steps, i - 1);
      StepKeepsLawful(states[i - 1], steps[i - 1], states[i]);
    }
  }

  // A script is asked for only if some module depends on it or on a resource of it; a resource is asked
  // for exactly as some module has it as its dependency, and of a plugin that has completed.
  lemma OnlyDeclaredAsked(states: seq<State>, steps: seq<Step>, i: nat, k: nat)
    requires IsRun(states, steps) && i < |states| && k < |states[i].requests|
    ensures match states[i].requests[k]
      case Script(id) => IsDeclared(states[i].history, Regular(id)) || IsDeclaredPlugin(states[i].history, id)
      case PluginLoad(id, p, param) => IsDeclared(states[i].history, Plugin(id, p, param)) && IsComplete(states[i], p)
  {
    hide IsRun;
    RunLawful(states, steps, i);
    assert Rightful(states[i], states[i].requests[k]);
  }
}
