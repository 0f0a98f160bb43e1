// The state of the AMD module loader and one function for each of its transitions
// (src/vs/loader.js, ModuleManager).  The class in ModuleManager.dfy works on mutable
// fields and is proved against these functions; everything that is proved about runs
// of the loader is proved about them.

module LoaderState {
  import opened Options

  // The three pseudo-dependencies own the ids 0, 1 and 2 (loader.js:1250-1253).
  datatype Dependency =
    | ExportsDep
    | ModuleDep
    | RequireDep
    | Regular(moduleId: nat)
    | Plugin(resourceId: nat, pluginId: nat, param: string)
  {
    function Id(): nat {
      match this
      case ExportsDep => 0
      case ModuleDep => 1
      case RequireDep => 2
      case Regular(id) => id
      case Plugin(id, _, _) => id
    }

    predicate Special() {
      ExportsDep? || ModuleDep? || RequireDep?
    }

    predicate Below(n: nat) {
      Id() < n && (Plugin? ==> pluginId < n)
    }
  }

  // What a factory is handed, what a module exports and what a plugin hands over.  A Falsy value
  // is undefined, false, zero, NaN or the empty string; a Plain one is anything else but null and
  // functions.
  datatype Value =
    | Null
    | Falsy(tag: int)
    | ExportsObject(owner: nat)
    | ModuleObject(owner: nat)
    | RequireFunction(owner: nat)
    | Function(tag: int)
    | Plain(tag: int)
  {
    predicate Truthy() {
      !Null? && !Falsy?
    }

    predicate IsFunction() {
      RequireFunction? || Function?
    }
  }

  type Truth = v: Value | v.Truthy() && !v.IsFunction() witness Plain(0)

  datatype LoaderError =
    | LoadFailure(moduleId: nat, cause: int)
    | FactoryFailure(moduleId: nat, cause: int)

  // The result of running a factory.  A module's factory runs at most once (proved as
  // InvokedAtMostOnce in LoaderTheorems), so its result can be fixed with its definition.
  datatype FactoryResult =
    | Threw(cause: int)
    | Returned(value: Option<Value>, filledExports: bool)

  datatype Callback =
    | NoCallback
    | Constant(value: Truth)
    | Factory(result: FactoryResult)

  // How complete() treats the value that was given as the callback (loader.js:1202-1213): nothing
  // is done with a falsy one, a function is called, and anything else becomes the exports.
  // `result` is what calling the value comes to, if it is a function.
  function CallbackOf(value: Value, result: FactoryResult): Callback {
    if !value.Truthy() then NoCallback
    else if value.IsFunction() then Factory(result)
    else Constant(value)
  }

  datatype ModuleRecord = ModuleRecord(
    dependencies: Option<seq<Dependency>>,
    callback: Callback,
    hasErrorback: bool,
    exports: Value,
    error: Option<LoaderError>,
    exportsPassedIn: bool,
    unresolved: int,
    complete: bool)

  // A load handed to the script loader or to a plugin, to be answered later.
  datatype Request =
    | Script(id: nat)
    | PluginLoad(id: nat, pluginId: nat, param: string)

  // What happened so far; the loader itself does not keep it.
  datatype History = History(
    order: seq<nat>,                    // modules in the order complete() ran on them
    passed: map<nat, seq<Value>>,       // the dependency values each of them was given
    declared: map<nat, seq<Dependency>>, // the dependency list of every module
    callbacks: map<nat, Callback>,      // the callback of every module
    broken: set<(nat, nat)>,            // (module, position) of every dependency dropped to break a cycle
    reported: seq<LoaderError>,         // the errors told to the configured onError
    called: multiset<nat>)              // the modules whose errorback was called, as often as it was

  datatype State = State(
    maxId: nat,
    modules: map<nat, ModuleRecord>,
    known: set<nat>,
    inverse: map<nat, seq<nat>>,
    inversePlugins: map<nat, seq<Dependency>>,
    requests: seq<Request>,
    hasCycle: bool,
    history: History)

  const INITIAL := State(3, map[], {}, map[], map[], [], false, History([], map[], map[], map[], {}, [], multiset{}))

  // The modules waiting for d, in the order they were recorded.
  function Waiters(inverse: map<nat, seq<nat>>, d: nat): seq<nat> {
    if d in inverse then inverse[d] else []
  }

  ghost function Incomplete(st: State): set<nat> {
    set m | m in st.modules && !st.modules[m].complete
  }

  // Every recorded waiter is a defined module.
  ghost predicate Closed(st: State) {
    forall d, k :: d in st.inverse && 0 <= k < |st.inverse[d]| ==> st.inverse[d][k] in st.modules
  }

  // ----- dependency paths (loader.js:1574-1606) -----

  ghost predicate DependencyEdge(modules: map<nat, ModuleRecord>, a: nat, b: nat) {
    && a in modules
    && modules[a].dependencies.Some?
    && exists i :: 0 <= i < |modules[a].dependencies.value| && modules[a].dependencies.value[i].Id() == b
  }

  ghost predicate IsDependencyPath(modules: map<nat, ModuleRecord>, p: seq<nat>) {
    |p| > 0 && forall i :: 0 <= i < |p| - 1 ==> DependencyEdge(modules, p[i], p[i + 1])
  }

  // A path of at least one edge leads from one module to the other.
  ghost predicate HasDependencyPath(modules: map<nat, ModuleRecord>, from: nat, to: nat) {
    exists p :: |p| >= 2 && p[0] == from && p[|p| - 1] == to && IsDependencyPath(modules, p)
  }

  // ----- elementary updates -----

  function NewRecord(id: nat, deps: seq<Dependency>, callback: Callback, hasErrorback: bool): ModuleRecord {
    ModuleRecord(Some(deps), callback, hasErrorback, ExportsObject(id), None, false, |deps|, false)
  }

  function AddModule(st: State, id: nat, deps: seq<Dependency>, callback: Callback, hasErrorback: bool): State {
    st.(modules := st.modules[id := NewRecord(id, deps, callback, hasErrorback)],
        history := st.history.(declared := st.history.declared[id := deps],
                               callbacks := st.history.callbacks[id := callback]))
  }

  function Decrement(st: State, m: nat): State
    requires m in st.modules
  {
    st.(modules := st.modules[m := st.modules[m].(unresolved := st.modules[m].unresolved - 1)])
  }

  // Module.onDependencyError (loader.js:1233-1241)
  function Fail(st: State, m: nat, err: LoaderError): State
    requires m in st.modules
  {
    st.(modules := st.modules[m := st.modules[m].(complete := true, error := Some(err))],
        history := st.history.(called := st.history.called + (if st.modules[m].hasErrorback then multiset{m} else multiset{})))
  }

  function LoadModule(st: State, id: nat): State {
    if id in st.modules || id in st.known then st
    else st.(known := st.known + {id}, requests := st.requests + [Script(id)])
  }

  function LoadPluginDependency(st: State, dep: Dependency): State
    requires dep.Plugin?
  {
    if dep.resourceId in st.modules || dep.resourceId in st.known then st
    else st.(known := st.known + {dep.resourceId},
             requests := st.requests + [PluginLoad(dep.resourceId, dep.pluginId, dep.param)])
  }

  // ----- completion (loader.js:1796-1862) -----

  function DependencyValue(modules: map<nat, ModuleRecord>, m: nat, dep: Dependency): Value
    requires m in modules
  {
    if dep.ExportsDep? then modules[m].exports
    else if dep.ModuleDep? then ModuleObject(m)
    else if dep.RequireDep? then RequireFunction(m)
    else if dep.Id() in modules then modules[dep.Id()].exports
    else Null
  }

  function DependencyValues(modules: map<nat, ModuleRecord>, m: nat): seq<Value>
    requires m in modules
  {
    match modules[m].dependencies
    case None => []
    case Some(deps) => seq(|deps|, i requires 0 <= i < |deps| => DependencyValue(modules, m, deps[i]))
  }

  // Module.complete (loader.js:1199-1229): the record after the factory ran
  function Completed(rec: ModuleRecord, id: nat): ModuleRecord {
    var base := rec.(complete := true, dependencies := None, callback := NoCallback, hasErrorback := false);
    match rec.callback
    case NoCallback => base
    case Constant(v) => base.(exports := v)
    case Factory(Threw(cause)) => base.(error := Some(FactoryFailure(id, cause)))
    case Factory(Returned(value, filled)) =>
      if value.Some? && (!rec.exportsPassedIn || !filled) then base.(exports := value.value) else base
  }

  // What is told to onError when m completes
  function FactoryErrors(callback: Callback, m: nat): seq<LoaderError> {
    match callback
    case Factory(Threw(cause)) => [FactoryFailure(m, cause)]
    case _ => []
  }

  // The module is completed and its waiters are fetched and cleared; they still have to be released.
  function Finish(st: State, m: nat): State
    requires m in st.modules
  {
    st.(modules := st.modules[m := Completed(st.modules[m], m)],
        inverse := st.inverse - {m},
        history := st.history.(order := st.history.order + [m],
                               passed := st.history.passed[m := DependencyValues(st.modules, m)],
                               reported := st.history.reported + FactoryErrors(st.modules[m].callback, m)))
  }

  function LoadPluginDependencies(st: State, deps: seq<Dependency>): (r: State)
    requires forall k :: 0 <= k < |deps| ==> deps[k].Plugin?
    ensures r == st.(known := r.known, requests := r.requests)
    decreases |deps|
  {
    if deps == [] then st else LoadPluginDependencies(LoadPluginDependency(st, deps[0]), deps[1..])
  }

  ghost predicate PluginsQueued(st: State) {
    forall p, k :: p in st.inversePlugins && 0 <= k < |st.inversePlugins[p]| ==>
      st.inversePlugins[p][k].Plugin? && st.inversePlugins[p][k].pluginId == p
  }

  function ReleasePlugins(st: State, m: nat): (r: State)
    requires PluginsQueued(st)
    ensures PluginsQueued(r)
    ensures r == st.(known := r.known, requests := r.requests, inversePlugins := st.inversePlugins - {m})
  {
    if m in st.inversePlugins then
      LoadPluginDependencies(st.(inversePlugins := st.inversePlugins - {m}), st.inversePlugins[m])
    else
      assert st.inversePlugins - {m} == st.inversePlugins;
      st
  }

  ghost predicate Tables(st: State) {
    Closed(st) && PluginsQueued(st)
  }

  // ModuleManager._onModuleComplete
  ghost function CompleteModule(st: State, m: nat): (r: State)
    requires Tables(st) && m in st.modules
    ensures Tables(r) && r.modules.Keys == st.modules.Keys
    ensures Incomplete(r) <= Incomplete(st)
    decreases Incomplete(st), 1, 0
  {
    if st.modules[m].complete then st
    else
      var finished := Finish(st, m);
      assert m in Incomplete(st) && m !in Incomplete(finished);
      ReleasePlugins(Release(finished, Waiters(st.inverse, m)), m)
  }

  // The loop over the released waiters, one at a time
  ghost function Release(st: State, waiters: seq<nat>): (r: State)
    requires Tables(st)
    requires forall k :: 0 <= k < |waiters| ==> waiters[k] in st.modules
    ensures Tables(r) && r.modules.Keys == st.modules.Keys
    ensures Incomplete(r) <= Incomplete(st)
    decreases Incomplete(st), 2, |waiters|
  {
    if waiters == [] then st
    else Release(ReleaseOne(st, waiters[0]), waiters[1..])
  }

  ghost function ReleaseOne(st: State, x: nat): (r: State)
    requires Tables(st) && x in st.modules
    ensures Tables(r) && r.modules.Keys == st.modules.Keys
    ensures Incomplete(r) <= Incomplete(st)
    decreases Incomplete(st), 1, 1
  {
    var s := Decrement(st, x);
    assert Incomplete(s) == Incomplete(st);
    if s.modules[x].unresolved == 0 then CompleteModule(s, x) else s
  }

  // ----- resolution (loader.js:1731-1795) -----

  ghost predicate Resolving(st: State, m: nat, i: nat) {
    && m in st.modules
    && st.modules[m].dependencies.Some?
    && i <= |st.modules[m].dependencies.value|
  }

  function DepAt(st: State, m: nat, i: nat): Dependency
    requires m in st.modules && st.modules[m].dependencies.Some?
    requires i < |st.modules[m].dependencies.value|
  {
    st.modules[m].dependencies.value[i]
  }

  predicate IsComplete(st: State, id: nat) {
    id in st.modules && st.modules[id].complete
  }

  // Dependency i has already failed: resolution of m stops here and m fails too.
  predicate MeetsFailure(st: State, m: nat, i: nat)
    requires m in st.modules && st.modules[m].dependencies.Some?
    requires i < |st.modules[m].dependencies.value|
  {
    var dep := DepAt(st, m, i);
    !dep.Special() && IsComplete(st, dep.Id()) && st.modules[dep.Id()].error.Some?
  }

  function SkipSpecial(st: State, m: nat, dep: Dependency): State
    requires m in st.modules
  {
    var rec := st.modules[m];
    st.(modules := st.modules[m := rec.(unresolved := rec.unresolved - 1,
                                        exportsPassedIn := rec.exportsPassedIn || dep.ExportsDep?)])
  }

  function BreakCycle(st: State, m: nat, i: nat): State
    requires m in st.modules
  {
    var s := Decrement(st, m);
    s.(hasCycle := true, history := s.history.(broken := s.history.broken + {(m, i)}))
  }

  function AddWaiter(st: State, d: nat, m: nat): (r: State)
    requires Tables(st) && m in st.modules
    ensures Tables(r)
  {
    st.(inverse := st.inverse[d := Waiters(st.inverse, d) + [m]])
  }

  function QueueForPlugin(st: State, dep: Dependency): (r: State)
    requires dep.Plugin? && PluginsQueued(st)
    ensures PluginsQueued(r)
  {
    var p := dep.pluginId;
    var queued := if p in st.inversePlugins then st.inversePlugins[p] else [];
    st.(inversePlugins := st.inversePlugins[p := queued + [dep]])
  }

  function RequestDependency(st: State, dep: Dependency): (r: State)
    requires !dep.Special() && PluginsQueued(st)
    ensures PluginsQueued(r)
    ensures r == st.(known := r.known, requests := r.requests, inversePlugins := r.inversePlugins)
  {
    match dep
    case Plugin(_, pluginId, _) =>
      if IsComplete(st, pluginId) then LoadPluginDependency(st, dep)
      else LoadModule(QueueForPlugin(st, dep), pluginId)
    case _ => LoadModule(st, dep.Id())
  }

  // One iteration of the loop in _resolve that does not stop it.
  ghost function ResolveStep(st: State, m: nat, i: nat): (r: State)
    requires Resolving(st, m, i) && i < |st.modules[m].dependencies.value|
    requires Tables(st) && !MeetsFailure(st, m, i)
    ensures Tables(r) && r.modules.Keys == st.modules.Keys
    ensures r.modules[m].dependencies == st.modules[m].dependencies
  {
    var dep := DepAt(st, m, i);
    if dep.Special() then SkipSpecial(st, m, dep)
    else if IsComplete(st, dep.Id()) then Decrement(st, m)
    else if HasDependencyPath(st.modules, dep.Id(), m) then BreakCycle(st, m, i)
    else RequestDependency(AddWaiter(st, dep.Id(), m), dep)
  }

  ghost function Resolve(st: State, m: nat, i: nat): (r: State)
    requires Tables(st) && Resolving(st, m, i)
    ensures Tables(r)
    decreases |st.modules[m].dependencies.value| - i
  {
    if i == |st.modules[m].dependencies.value| then
      if st.modules[m].unresolved == 0 then CompleteModule(st, m) else st
    else if MeetsFailure(st, m, i) then
      Fail(st, m, st.modules[DepAt(st, m, i).Id()].error.value)
    else
      Resolve(ResolveStep(st, m, i), m, i + 1)
  }

  // ----- the two entry points -----

  // ModuleManager.defineModule (loader.js:1417-1437), after the dependency names were turned
  // into ids, which left maxId ids in use.  A second definition is ignored.
  ghost function Define(st: State, maxId: nat, id: nat, deps: seq<Dependency>, callback: Callback, hasErrorback: bool): (r: State)
    requires Tables(st)
    ensures Tables(r)
  {
    var s := st.(maxId := maxId);
    if id in st.modules then s
    else Resolve(AddModule(s, id, deps, callback, hasErrorback), id, 0)
  }

  // x is the failed module or waits for it, directly or through other waiters.
  ghost predicate WaitEdge(inverse: map<nat, seq<nat>>, d: nat, m: nat) {
    m in Waiters(inverse, d)
  }

  ghost predicate IsWaitChain(inverse: map<nat, seq<nat>>, p: seq<nat>) {
    |p| > 0 && forall i :: 0 <= i < |p| - 1 ==> WaitEdge(inverse, p[i], p[i + 1])
  }

  ghost predicate Affected(inverse: map<nat, seq<nat>>, root: nat, x: nat) {
    exists p :: IsWaitChain(inverse, p) && p[0] == root && p[|p| - 1] == x
  }

  // The modules whose errorback a load failure of id calls.
  ghost function Notified(st: State, id: nat): set<nat> {
    set x | x in st.modules && st.modules[x].hasErrorback && Affected(st.inverse, id, x)
  }

  ghost function FailAffected(st: State, id: nat, err: LoaderError): (r: State)
    requires Tables(st)
    ensures Tables(r) && r.modules.Keys == st.modules.Keys
  {
    st.(modules := map x | x in st.modules ::
          if Affected(st.inverse, id, x) then st.modules[x].(complete := true, error := Some(err)) else st.modules[x],
        history := st.history.(called := st.history.called + multiset(Notified(st, id))))
  }

  // onError is told if there was no errorback to call.
  ghost function ReportUnheard(st: State, id: nat, err: LoaderError, r: State): State {
    if Notified(st, id) == {} then r.(history := r.history.(reported := r.history.reported + [err])) else r
  }

  // An empty module stands for an id that was never defined.
  function WithModule(st: State, id: nat): (r: State)
    requires Tables(st)
    ensures Tables(r)
  {
    if id in st.modules then st else AddModule(st, id, [], Factory(Returned(None, false)), false)
  }

  // ModuleManager._onLoadError (loader.js:1533-1567)
  ghost function OnLoadError(st: State, id: nat, err: LoaderError): (r: State)
    requires Tables(st)
    ensures Tables(r)
  {
    ReportUnheard(st, id, err, FailAffected(WithModule(st, id), id, err))
  }
}
