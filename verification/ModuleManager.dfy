// The loader itself (src/vs/loader.js:1160-1247 and 1281-1862): modules and tables that are
// updated in place.  Every method is proved to take the state, as the functions of
// LoaderState see it, where those functions say.

module ModuleManagers {
  import opened Options
  import opened LoaderState
  import opened LoaderInvariant
  import opened LoaderResolve
  import opened LoaderProgress
  import opened LoaderCycles
  import LoaderTheorems
  import LoaderDefinitions
  import opened ModuleNames
  import opened ModuleIds
  import opened CssPaths
  import opened Sequences

  // defineModule by name: the state and the names in use afterwards
  ghost function DefineNamed(st: State, names: seq<string>, strModuleId: string, dependencies: seq<string>,
                             callback: Callback, hasErrorback: bool, from: string): (r: (State, seq<string>))
    requires Tables(st) && |names| >= 3
  {
    var withModule := Interned(names, strModuleId);
    var id := IdOf(withModule, strModuleId);
    if id in st.modules then (st.(maxId := |withModule|), withModule)
    else
      var normalized := NormalizeDependencies(withModule, dependencies, from);
      (Define(st, |normalized.0|, id, normalized.1, callback, hasErrorback), normalized.0)
  }

  class Module {
    const id: nat
    var dependencies: Option<seq<Dependency>>
    var callback: Callback
    var hasErrorback: bool
    var exports: Value
    var error: Option<LoaderError>
    var exportsPassedIn: bool
    var unresolvedDependenciesCount: int
    var isComplete: bool

    constructor (id: nat, dependencies: seq<Dependency>, callback: Callback, hasErrorback: bool)
      ensures this.id == id && Record() == NewRecord(id, dependencies, callback, hasErrorback)
    {
      this.id := id;
      this.dependencies := Some(dependencies);
      this.callback := callback;
      this.hasErrorback := hasErrorback;
      exports := ExportsObject(id);
      error := None;
      exportsPassedIn := false;
      unresolvedDependenciesCount := |dependencies|;
      isComplete := false;
    }

    function Record(): ModuleRecord
      reads this
    {
      ModuleRecord(dependencies, callback, hasErrorback, exports, error, exportsPassedIn, unresolvedDependenciesCount, isComplete)
    }

    // complete: runs the factory on the values of the dependencies, or takes the constant, and
    // forgets what is no longer needed
    method Complete(dependenciesValues: seq<Value>) returns (produced: Option<LoaderError>)
      modifies this
      ensures Record() == Completed(old(Record()), id)
      ensures FactoryErrors(old(callback), id) == if produced.Some? then [produced.value] else []
      ensures produced.Some? ==> error == produced
    {
      isComplete := true;
      produced := None;
      match callback {
        case NoCallback =>
        case Constant(value) => exports := value;
        case Factory(result) =>
          match result {
            case Threw(cause) => produced := Some(FactoryFailure(id, cause));
            case Returned(value, filledExports) =>
              if value.Some? && (!exportsPassedIn || !filledExports) {
                exports := value.value;
              }
          }
      }
      if produced.Some? {
        error := produced;
      }
      dependencies := None;
      callback := NoCallback;
      hasErrorback := false;
    }

    // onDependencyError: tells whether an errorback was there to be called
    method OnDependencyError(err: LoaderError) returns (notified: bool)
      modifies this
      ensures Record() == old(Record()).(complete := true, error := Some(err))
      ensures notified == hasErrorback
    {
      isComplete := true;
      error := Some(err);
      notified := hasErrorback;
    }
  }

  class ModuleManager {
    const moduleIds: ModuleIdProvider
    var modules2: map<nat, Module>
    var knownModules2: set<nat>
    var inverseDependencies2: map<nat, seq<nat>>
    var inversePluginDependencies2: map<nat, seq<Dependency>>
    var hasDependencyCycle: bool
    // the loads handed out, the errors told to the configured onError, and the modules whose
    // errorback was called
    var requests: seq<Request>
    var reported: seq<LoaderError>
    var errorbacks: seq<nat>
    // what else happened so far
    ghost var history: History

    constructor ()
      ensures Valid() && Abs() == INITIAL
      ensures reported == [] && errorbacks == []
    {
      moduleIds := new ModuleIdProvider();
      modules2 := map[];
      knownModules2 := {};
      inverseDependencies2 := map[];
      inversePluginDependencies2 := map[];
      hasDependencyCycle := false;
      requests := [];
      reported := [];
      history := INITIAL.history;
      errorbacks := [];
      new;
      assert Abs() == INITIAL;
      LoaderTheorems.InitialStable();
    }

    ghost predicate Owns()
      reads this`modules2, modules2.Values
    {
      forall id :: id in modules2 ==> modules2[id].id == id
    }

    ghost function Records(): map<nat, ModuleRecord>
      reads this`modules2, modules2.Values
    {
      map id | id in modules2 :: modules2[id].Record()
    }

    ghost function Abs(): State
      reads this, modules2.Values, moduleIds
    {
      State(|moduleIds.intModuleIdToStr|, Records(), knownModules2, inverseDependencies2, inversePluginDependencies2,
            requests, hasDependencyCycle, history.(reported := reported, called := multiset(errorbacks)))
    }

    lemma RecordAt(id: nat)
      ensures id in Abs().modules <==> id in modules2
      ensures id in modules2 ==> Abs().modules[id] == modules2[id].Record()
    {
    }

    // What holds between two calls
    ghost predicate Valid()
      reads this, modules2.Values, moduleIds
    {
      && moduleIds.Valid()
      && Owns()
      && Stable(Abs())
      && Requested(Abs(), {})
    }

    // ----- small updates -----

    // The configured onError is told.
    method Report(err: LoaderError)
      requires Owns()
      modifies this`reported
      ensures Owns() && Abs() == old(Abs()).(history := old(Abs()).history.(reported := old(reported) + [err]))
    {
      reported := reported + [err];
    }

    // `unresolvedDependenciesCount--` on a module
    method CountDown(m: Module)
      requires Owns() && m.id in modules2 && modules2[m.id] == m
      modifies m`unresolvedDependenciesCount
      ensures Abs() == Decrement(old(Abs()), m.id)
    {
      m.unresolvedDependenciesCount := m.unresolvedDependenciesCount - 1;
      assert Records() == old(Records())[m.id := m.Record()];
    }

    method LoadModule(moduleId: nat)
      requires Owns()
      modifies this`knownModules2, this`requests
      ensures Abs() == LoaderState.LoadModule(old(Abs()), moduleId)
    {
      if moduleId in modules2 || moduleId in knownModules2 {
        return;
      }
      knownModules2 := knownModules2 + {moduleId};
      requests := requests + [Script(moduleId)];
    }

    method LoadPluginDependency(dependency: Dependency)
      requires Owns() && dependency.Plugin?
      modifies this`knownModules2, this`requests
      ensures Abs() == LoaderState.LoadPluginDependency(old(Abs()), dependency)
    {
      if dependency.resourceId in modules2 || dependency.resourceId in knownModules2 {
        return;
      }
      knownModules2 := knownModules2 + {dependency.resourceId};
      requests := requests + [PluginLoad(dependency.resourceId, dependency.pluginId, dependency.param)];
    }

    // ----- completion -----

    method LoadPluginDependencies(dependencies: seq<Dependency>)
      requires Owns() && forall k :: 0 <= k < |dependencies| ==> dependencies[k].Plugin?
      modifies this`knownModules2, this`requests
      ensures Abs() == LoaderState.LoadPluginDependencies(old(Abs()), dependencies)
    {
      for i := 0 to |dependencies|
        invariant LoaderState.LoadPluginDependencies(Abs(), dependencies[i..])
               == LoaderState.LoadPluginDependencies(old(Abs()), dependencies)
      {
        assert dependencies[i..][0] == dependencies[i] && dependencies[i..][1..] == dependencies[i + 1..];
        LoadPluginDependency(dependencies[i]);
      }
      assert dependencies[|dependencies|..] == [];
    }

    // The values of the dependencies, in order
    method CollectValues(m: Module) returns (dependenciesValues: seq<Value>)
      requires Owns() && m.id in modules2 && modules2[m.id] == m
      ensures dependenciesValues == DependencyValues(Records(), m.id)
    {
      dependenciesValues := [];
      match m.dependencies {
        case None =>
        case Some(dependencies) =>
          for i := 0 to |dependencies|
            invariant |dependenciesValues| == i
            invariant forall j :: 0 <= j < i ==> dependenciesValues[j] == DependencyValue(Records(), m.id, dependencies[j])
          {
            var dependency := dependencies[i];
            var value := Null;
            match dependency {
              case ExportsDep => value := m.exports;
              case ModuleDep => value := ModuleObject(m.id);
              case RequireDep => value := RequireFunction(m.id);
              case _ =>
                if dependency.Id() in modules2 {
                  value := modules2[dependency.Id()].exports;
                }
            }
            dependenciesValues := dependenciesValues + [value];
          }
      }
    }

    // m completes and its error, if it has one, is reported.
    method CompleteOne(m: Module, dependenciesValues: seq<Value>)
      requires Owns() && m.id in modules2 && modules2[m.id] == m
      modifies this`reported, m
      ensures Owns() && m.id in old(Records())
      ensures Records() == old(Records())[m.id := Completed(old(Records())[m.id], m.id)]
      ensures reported == old(reported) + FactoryErrors(old(Records())[m.id].callback, m.id)
    {
      hide Completed, FactoryErrors;
      ghost var before := Records();
      assert before[m.id] == m.Record();
      var produced := m.Complete(dependenciesValues);
      if produced.Some? {
        reported := reported + [produced.value];
      }
      assert Records() == before[m.id := m.Record()];
    }

    // The factory of m runs and the waiters of m are fetched and cleared.
    method Finish(m: Module) returns (inverseDeps: seq<nat>)
      requires Owns() && m.id in modules2 && modules2[m.id] == m
      modifies this`inverseDependencies2, this`reported, this`history, m
      ensures Abs() == LoaderState.Finish(old(Abs()), m.id)
      ensures inverseDeps == Waiters(old(inverseDependencies2), m.id)
    {
      hide DependencyValues, Completed, FactoryErrors, Records, Owns;
      var dependenciesValues := CollectValues(m);
      history := history.(order := history.order + [m.id], passed := history.passed[m.id := dependenciesValues]);
      CompleteOne(m, dependenciesValues);
      inverseDeps := Waiters(inverseDependencies2, m.id);
      inverseDependencies2 := inverseDependencies2 - {m.id};
    }

    // The plugin dependencies queued behind the completed module are loaded.
    method ReleasePlugins(id: nat)
      requires Owns() && PluginsQueued(Abs())
      modifies this`knownModules2, this`requests, this`inversePluginDependencies2
      ensures Abs() == LoaderState.ReleasePlugins(old(Abs()), id)
    {
      ghost var before := Abs();
      if id in inversePluginDependencies2 {
        var inversePluginDeps := inversePluginDependencies2[id];
        inversePluginDependencies2 := inversePluginDependencies2 - {id};
        assert Abs() == before.(inversePlugins := before.inversePlugins - {id});
        LoadPluginDependencies(inversePluginDeps);
      } else {
        assert before.inversePlugins - {id} == before.inversePlugins;
      }
    }

    // One waiter is released, and completed when it waits for nothing else.
    method ReleaseWaiter(id: nat)
      requires Owns() && Tables(Abs()) && id in modules2
      modifies this`knownModules2, this`requests, this`inverseDependencies2, this`inversePluginDependencies2,
               this`reported, this`history, modules2.Values
      ensures Abs() == ReleaseOne(old(Abs()), id)
      decreases Incomplete(Abs()), 2
    {
      var inverseDependency := modules2[id];
      ghost var before := Abs();
      CountDown(inverseDependency);
      assert Incomplete(Abs()) == Incomplete(before);
      if inverseDependency.unresolvedDependenciesCount == 0 {
        OnModuleComplete(inverseDependency);
      }
    }

    // The waiters are released one at a time.
    method ReleaseWaiters(inverseDeps: seq<nat>)
      requires Owns() && Tables(Abs())
      requires forall k :: 0 <= k < |inverseDeps| ==> inverseDeps[k] in Abs().modules
      modifies this`knownModules2, this`requests, this`inverseDependencies2, this`inversePluginDependencies2,
               this`reported, this`history, modules2.Values
      ensures Abs() == Release(old(Abs()), inverseDeps)
      decreases Incomplete(Abs()), 3
    {
      hide Tables, Release, ReleaseOne, Incomplete, Records;
      ghost var start := Abs();
      ReleaseAll(start, inverseDeps);
      for i := 0 to |inverseDeps|
        invariant Tables(Abs()) && Abs().modules.Keys == start.modules.Keys
        invariant Incomplete(Abs()) <= Incomplete(start)
        invariant Release(Abs(), inverseDeps[i..]) == Release(start, inverseDeps)
      {
        ReleaseNext(Abs(), inverseDeps, i);
        assert inverseDeps[i] in Abs().modules;
        RecordAt(inverseDeps[i]);
        ReleaseWaiter(inverseDeps[i]);
      }
      ReleaseDone(Abs(), inverseDeps);
    }

    method OnModuleComplete(m: Module)
      requires Owns() && m.id in modules2 && modules2[m.id] == m
      requires Tables(Abs())
      modifies this`knownModules2, this`requests, this`inverseDependencies2, this`inversePluginDependencies2,
               this`reported, this`history, modules2.Values
      ensures Abs() == CompleteModule(old(Abs()), m.id)
      decreases Incomplete(Abs()), 1
    {
      hide Tables;
      if m.isComplete {
        return;
      }
      ghost var before := Abs();
      FinishShrinks(before, m.id);
      var inverseDeps := Finish(m);
      ReleaseWaiters(inverseDeps);
      TablesHold(Abs());
      ReleasePlugins(m.id);
    }

    // ----- dependency paths -----

    // Breadth-first search along the dependencies of the defined modules
    method HasDependencyPath(fromId: nat, toId: nat) returns (found: bool)
      requires moduleIds.Valid() && Owns() && IdsInRange(Abs())
      ensures found <==> LoaderState.HasDependencyPath(Records(), fromId, toId)
    {
      hide LoaderState.HasDependencyPath, IsDependencyPath, Explored, AllExplored, Searching, IdsInRange;
      DefinedInRange(Abs());
      if fromId !in modules2 {
        NoPathFromUndefined(Records(), fromId, toId);
        return false;
      }
      var inQueue := new bool[moduleIds.nextId](i => false);
      ghost var records := Records();
      assert fromId in Abs().modules;
      inQueue[fromId] := true;
      StartSearch(records, inQueue[..], fromId, toId);
      found := SearchFrom(inQueue, fromId, toId);
    }

    // The queue starts with the marked module.
    method SearchFrom(inQueue: array<bool>, fromId: nat, toId: nat) returns (found: bool)
      requires Owns() && IdsInRange(Abs()) && inQueue.Length == Abs().maxId
      requires Searching(Records(), inQueue[..], {fromId}, [fromId], fromId)
      requires AllExplored(Records(), {fromId}, [fromId], toId)
      modifies inQueue
      ensures Records() == old(Records())
      ensures found <==> LoaderState.HasDependencyPath(Records(), fromId, toId)
    {
      hide LoaderState.HasDependencyPath, IsDependencyPath, Explored, AllExplored, Searching, IdsInRange, Records;
      ghost var max, records, seen := inQueue.Length, Records(), {fromId};
      var queue := [fromId];
      SeenReached(records, inQueue[..], seen, queue, fromId);
      while |queue| > 0
        invariant Owns() && Records() == records
        invariant Searching(records, inQueue[..], seen, queue, fromId) && seen <= Below(max)
        invariant AllExplored(records, seen, queue, toId)
        decreases Below(max) - seen, |queue|
      {
        NextInSearch(records, inQueue[..], seen, queue, fromId);
        RecordAt(queue[0]);
        var element := modules2[queue[0]];
        ghost var before, seenBefore := queue, seen;
        queue := queue[1..];
        found, queue, seen := WalkDependencies(element, inQueue, queue, fromId, toId, seen);
        if found {
          return;
        }
        SeenMore(max, seenBefore, seen);
        StepExplored(records, seenBefore, before, seen, queue, toId);
      }
      ClosedWithout(records, seen, fromId, toId);
      found := false;
    }

    // The walk over the dependencies of one element of the queue
    method WalkDependencies(element: Module, inQueue: array<bool>, queue: seq<nat>, fromId: nat, toId: nat, ghost seen: set<nat>)
        returns (found: bool, queue': seq<nat>, ghost seen': set<nat>)
      requires Owns() && element.id in modules2 && modules2[element.id] == element
      requires IdsInRange(Abs()) && inQueue.Length == Abs().maxId
      requires Searching(Records(), inQueue[..], seen, queue, fromId) && element.id in seen
      modifies inQueue
      ensures Owns() && Records() == old(Records())
      ensures found ==> LoaderState.HasDependencyPath(Records(), fromId, toId)
      ensures !found ==>
        && Searching(Records(), inQueue[..], seen', queue', fromId)
        && Explored(Records(), element.id, seen', toId)
        && queue <= queue' && seen <= seen' <= Below(Abs().maxId)
        && (forall id :: id in seen' && id !in seen ==> id in queue')
        && (seen' == seen ==> queue' == queue)
    {
      hide LoaderState.HasDependencyPath, IsDependencyPath, Explored, Searching, IdsInRange;
      DefinedInRange(Abs());
      ghost var records := Records();
      SeenReached(records, inQueue[..], seen, queue, fromId);
      queue', seen', found := queue, seen, false;
      match element.dependencies {
        case None =>
        case Some(dependencies) =>
          assert records[element.id].dependencies == Some(dependencies);
          for i := 0 to |dependencies|
            invariant Owns() && Records() == records && forall id :: id in records ==> id < inQueue.Length
            invariant Searching(records, inQueue[..], seen', queue', fromId)
            invariant queue <= queue' && seen <= seen'
            invariant forall id :: id in seen' && id !in seen ==> id in queue'
            invariant seen' == seen ==> queue' == queue
            invariant forall j :: 0 <= j < i ==> dependencies[j].Id() != toId
            invariant forall j :: 0 <= j < i && dependencies[j].Id() in records ==> dependencies[j].Id() in seen'
          {
            var dependency := dependencies[i].Id();
            assert DependencyEdge(records, element.id, dependency);
            PathExtend(records, fromId, element.id, dependency);
            if dependency == toId {
              found := true;
              return;
            }
            SeenReached(records, inQueue[..], seen', queue', fromId);
            assert dependency in modules2 ==> dependency in records;
            if dependency in modules2 && !inQueue[dependency] {
              ghost var marks := inQueue[..];
              MarkKeeps(records, marks, seen', queue', fromId, dependency);
              inQueue[dependency] := true;
              assert inQueue[..] == marks[dependency := true];
              queue' := queue' + [dependency];
              seen' := seen' + {dependency};
            }
          }
      }
      SeenReached(records, inQueue[..], seen', queue', fromId);
      WalkedAll(records, element.id, seen', toId);
    }

    // ----- resolution -----

    method CountSpecial(m: Module, dependency: Dependency)
      requires Owns() && m.id in modules2 && modules2[m.id] == m
      modifies m`unresolvedDependenciesCount, m`exportsPassedIn
      ensures Abs() == SkipSpecial(old(Abs()), m.id, dependency)
    {
      if dependency.ExportsDep? {
        m.exportsPassedIn := true;
      }
      m.unresolvedDependenciesCount := m.unresolvedDependenciesCount - 1;
      assert Records() == old(Records())[m.id := m.Record()];
    }

    // The cycle is noted, and the dependency at position i dropped.
    method BreakCycle(m: Module, i: nat)
      requires Owns() && m.id in modules2 && modules2[m.id] == m
      modifies this`hasDependencyCycle, this`history, m`unresolvedDependenciesCount
      ensures Abs() == LoaderState.BreakCycle(old(Abs()), m.id, i)
    {
      hide Records, Owns;
      CountDown(m);
      hasDependencyCycle := true;
      history := history.(broken := history.broken + {(m.id, i)});
    }

    // The cycle as it is printed: from the dependency along real dependencies to the module that
    // depends on it, unless it is too long, and back to the dependency
    method ReportCycle(dependencyId: nat, moduleId: nat) returns (cyclePath: seq<nat>)
      requires Owns() && LoaderState.HasDependencyPath(Records(), dependencyId, moduleId)
      ensures |cyclePath| >= 2 && cyclePath[0] == cyclePath[|cyclePath| - 1] == dependencyId
      ensures IsDependencyPath(Records(), cyclePath[..|cyclePath| - 1])
      ensures |cyclePath| <= 52 && (|cyclePath| < 52 ==> cyclePath[|cyclePath| - 2] == moduleId)
    {
      hide LoaderState.HasDependencyPath, IsDependencyPath;
      var path := SearchCycle(dependencyId, moduleId, 0);
      CycleReport(Records(), dependencyId, moduleId);
      cyclePath := Reverse(path.value) + [dependencyId];
      assert cyclePath[..|cyclePath| - 1] == Reverse(path.value);
    }

    method SearchCycle(fromId: nat, toId: nat, depth: nat) returns (path: Option<seq<nat>>)
      requires Owns() && depth <= MAX_DEPTH
      ensures path == FindCyclePath(Records(), fromId, toId, depth)
      decreases MAX_DEPTH - depth
    {
      if fromId == toId || depth == MAX_DEPTH {
        return Some([fromId]);
      }
      if fromId !in modules2 {
        return None;
      }
      var from := modules2[fromId];
      match from.dependencies {
        case None =>
          path := None;
        case Some(dependencies) =>
          for i := 0 to |dependencies|
            invariant FindThrough(Records(), fromId, dependencies[i..], toId, depth)
                   == FindCyclePath(Records(), fromId, toId, depth)
          {
            assert dependencies[i..][0] == dependencies[i] && dependencies[i..][1..] == dependencies[i + 1..];
            path := SearchCycle(dependencies[i].Id(), toId, depth + 1);
            if path.Some? {
              return Some(path.value + [fromId]);
            }
          }
          assert dependencies[|dependencies|..] == [];
          path := None;
      }
    }

    method RecordWaiter(id: nat, m: Module)
      requires Owns() && Tables(Abs()) && m.id in modules2
      modifies this`inverseDependencies2
      ensures Abs() == AddWaiter(old(Abs()), id, m.id)
    {
      inverseDependencies2 := inverseDependencies2[id := Waiters(inverseDependencies2, id) + [m.id]];
    }

    method QueueForPlugin(dependency: Dependency)
      requires Owns() && PluginsQueued(Abs()) && dependency.Plugin?
      modifies this`inversePluginDependencies2
      ensures Abs() == LoaderState.QueueForPlugin(old(Abs()), dependency)
    {
      var pluginId := dependency.pluginId;
      var inversePluginDeps := if pluginId in inversePluginDependencies2 then inversePluginDependencies2[pluginId] else [];
      inversePluginDependencies2 := inversePluginDependencies2[pluginId := inversePluginDeps + [dependency]];
    }

    method RequestDependency(dependency: Dependency)
      requires Owns() && PluginsQueued(Abs()) && !dependency.Special()
      modifies this`inversePluginDependencies2, this`knownModules2, this`requests
      ensures Abs() == LoaderState.RequestDependency(old(Abs()), dependency)
    {
      if dependency.Plugin? {
        var pluginId := dependency.pluginId;
        if pluginId in modules2 && modules2[pluginId].isComplete {
          LoadPluginDependency(dependency);
          return;
        }
        QueueForPlugin(dependency);
        LoadModule(pluginId);
        return;
      }
      LoadModule(dependency.Id());
    }

    // m is told of an error; a call of its errorback is noted.
    method TellError(m: Module, err: LoaderError) returns (notified: bool)
      requires Owns() && m.id in modules2 && modules2[m.id] == m
      modifies this`errorbacks, m
      ensures Owns() && m.id in old(Records())
      ensures Records() == old(Records())[m.id := old(Records())[m.id].(complete := true, error := Some(err))]
      ensures notified == old(Records())[m.id].hasErrorback
      ensures errorbacks == if notified then old(errorbacks) + [m.id] else old(errorbacks)
    {
      ghost var before := Records();
      assert before[m.id] == m.Record();
      notified := m.OnDependencyError(err);
      if notified {
        errorbacks := errorbacks + [m.id];
      }
      assert Records() == before[m.id := m.Record()];
    }

    // m fails with the error of a dependency.
    method FailWith(m: Module, err: LoaderError)
      requires Owns() && m.id in modules2 && modules2[m.id] == m
      modifies this`errorbacks, m
      ensures Abs() == Fail(old(Abs()), m.id, err)
    {
      hide Records, Owns;
      var _ := TellError(m, err);
    }

    // One iteration of _resolve that does not stop the loop
    method ResolveDependency(m: Module, i: nat)
      requires moduleIds.Valid() && Owns() && m.id in modules2 && modules2[m.id] == m
      requires Tables(Abs()) && IdsInRange(Abs())
      requires Resolving(Abs(), m.id, i) && i < |m.dependencies.value| && !MeetsFailure(Abs(), m.id, i)
      modifies this`hasDependencyCycle, this`history, this`inverseDependencies2, this`inversePluginDependencies2,
               this`knownModules2, this`requests, m`unresolvedDependenciesCount, m`exportsPassedIn
      ensures Abs() == ResolveStep(old(Abs()), m.id, i)
    {
      hide LoaderState.HasDependencyPath, IsDependencyPath, IdsInRange, ResolveStep, Tables, SkipSpecial, Decrement,
           LoaderState.BreakCycle, AddWaiter, LoaderState.RequestDependency, Records;
      ghost var here := Abs();
      RecordAt(m.id);
      StepCases(here, m.id, i);
      var dependency := m.dependencies.value[i];
      RecordAt(dependency.Id());
      if dependency.Special() {
        CountSpecial(m, dependency);
        assert Abs() == ResolveStep(here, m.id, i);
      } else if dependency.Id() in modules2 && modules2[dependency.Id()].isComplete {
        CountDown(m);
        assert Abs() == ResolveStep(here, m.id, i);
      } else {
        var cyclic := HasDependencyPath(dependency.Id(), m.id);
        if cyclic {
          var _ := ReportCycle(dependency.Id(), m.id);
          BreakCycle(m, i);
          assert Abs() == ResolveStep(here, m.id, i);
        } else {
          RecordWaiter(dependency.Id(), m);
          TablesHold(Abs());
          RequestDependency(dependency);
          assert Abs() == ResolveStep(here, m.id, i);
        }
      }
    }

    // One iteration of _resolve; tells whether it ended the resolution.
    method ResolveNext(m: Module, i: nat) returns (stopped: bool)
      requires moduleIds.Valid() && Owns() && m.id in modules2 && modules2[m.id] == m
      requires Tables(Abs()) && IdsInRange(Abs()) && Resolving(Abs(), m.id, i) && i < |m.dependencies.value|
      modifies this`hasDependencyCycle, this`history, this`inverseDependencies2, this`inversePluginDependencies2,
               this`knownModules2, this`requests, this`errorbacks, modules2.Values
      ensures m.dependencies == old(m.dependencies)
      ensures stopped == MeetsFailure(old(Abs()), m.id, i)
      ensures stopped ==> Abs() == LoaderState.Resolve(old(Abs()), m.id, i)
      ensures !stopped ==> Abs() == ResolveStep(old(Abs()), m.id, i)
    {
      hide IdsInRange, ResolveStep, Tables, Records;
      ghost var here := Abs();
      RecordAt(m.id);
      var dependency := m.dependencies.value[i];
      RecordAt(dependency.Id());
      if !dependency.Special() && dependency.Id() in modules2 && modules2[dependency.Id()].isComplete
         && modules2[dependency.Id()].error.Some? {
        FailWith(m, modules2[dependency.Id()].error.value);
        RecordAt(m.id);
        return true;
      }
      ResolveDependency(m, i);
      RecordAt(m.id);
      assert Abs().modules[m.id].dependencies == here.modules[m.id].dependencies;
      stopped := false;
    }

    method Resolve(m: Module)
      requires moduleIds.Valid() && Owns() && m.id in modules2 && modules2[m.id] == m
      requires MidResolve(Abs(), m.id, 0) && Tables(Abs()) && Resolving(Abs(), m.id, 0)
      modifies this`hasDependencyCycle, this`history, this`inverseDependencies2, this`inversePluginDependencies2,
               this`knownModules2, this`requests, this`errorbacks, this`reported, modules2.Values
      ensures Abs() == LoaderState.Resolve(old(Abs()), m.id, 0)
    {
      hide MidResolve, Tables, IdsInRange, ResolveStep, MeetsFailure, Records;
      ghost var start := Abs();
      RecordAt(m.id);
      ghost var dependencies := m.dependencies;
      var i := 0;
      while i < |m.dependencies.value|
        invariant m.dependencies == dependencies
        invariant MidResolve(Abs(), m.id, i) && Tables(Abs()) && Resolving(Abs(), m.id, i)
        invariant LoaderState.Resolve(Abs(), m.id, i) == LoaderState.Resolve(start, m.id, 0)
        decreases |dependencies.value| - i
      {
        ghost var here := Abs();
        RecordAt(m.id);
        MidResolveFacts(here, m.id, i);
        var stopped := ResolveNext(m, i);
        if stopped {
          return;
        }
        ResolveUnfolds(here, m.id, i);
        RecordAt(m.id);
        i := i + 1;
      }
      RecordAt(m.id);
      if m.unresolvedDependenciesCount == 0 {
        OnModuleComplete(m);
      }
    }

    // ----- definitions -----

    // defineModule; `from` is the folder of the module id resolver
    method DefineModule(strModuleId: string, dependencies: seq<string>, callback: Callback, hasErrorback: bool, from: string)
      requires Valid()
      modifies this, moduleIds, modules2.Values
      ensures Valid()
      ensures (Abs(), moduleIds.intModuleIdToStr)
        == DefineNamed(old(Abs()), old(moduleIds.intModuleIdToStr), strModuleId, dependencies, callback, hasErrorback, from)
    {
      hide Stable, Requested, Tables, Define, NormalizeDependencies, Interned, IdOf;
      ghost var before, names := Abs(), moduleIds.intModuleIdToStr;
      var moduleId := NumberModule(strModuleId);
      IgnoredFacts(before, Abs().maxId);
      if moduleId in modules2 {
        // duplicate definitions are ignored
        return;
      }
      var normalized := NormalizeAll(dependencies, from);
      AddAndResolve(moduleId, normalized, callback, hasErrorback, before);
    }

    method NumberModule(strModuleId: string) returns (moduleId: nat)
      requires moduleIds.Valid() && Owns()
      modifies moduleIds
      ensures moduleIds.Valid() && Owns() && Abs() == old(Abs()).(maxId := |moduleIds.intModuleIdToStr|)
      ensures moduleIds.intModuleIdToStr == Interned(old(moduleIds.intModuleIdToStr), strModuleId)
      ensures moduleId == IdOf(moduleIds.intModuleIdToStr, strModuleId)
    {
      ghost var records := Records();
      moduleId := moduleIds.GetModuleId(strModuleId);
      assert Records() == records;
    }

    method NormalizeAll(dependencies: seq<string>, from: string) returns (result: seq<Dependency>)
      requires moduleIds.Valid() && Owns()
      modifies moduleIds
      ensures moduleIds.Valid() && Owns() && Abs() == old(Abs()).(maxId := |moduleIds.intModuleIdToStr|)
      ensures var r := NormalizeDependencies(old(moduleIds.intModuleIdToStr), dependencies, from);
        moduleIds.intModuleIdToStr == r.0 && result == r.1
    {
      result := [];
      ghost var names, records := moduleIds.intModuleIdToStr, Records();
      assert NormalizeDependencies(names, dependencies[..0], from) == (names, result);
      hide NormalizeDependencies, NormalizeDependency, Distinct;
      for i := 0 to |dependencies|
        invariant moduleIds.Valid() && names <= moduleIds.intModuleIdToStr && Records() == records
        invariant NormalizeDependencies(names, dependencies[..i], from) == (moduleIds.intModuleIdToStr, result)
      {
        NormalizeNext(names, dependencies, i, from);
        var dependency := NormalizeOne(dependencies[i], from);
        result := result + [dependency];
      }
      assert dependencies[..|dependencies|] == dependencies;
    }

    // _normalizeDependency
    method NormalizeOne(dependency: string, from: string) returns (result: Dependency)
      requires moduleIds.Valid()
      modifies moduleIds
      ensures moduleIds.Valid()
      ensures NormalizeDependency(old(moduleIds.intModuleIdToStr), dependency, from) == (moduleIds.intModuleIdToStr, result)
    {
      if dependency == "exports" {
        return ExportsDep;
      }
      if dependency == "module" {
        return ModuleDep;
      }
      if dependency == "require" {
        return RequireDep;
      }
      var bangIndex := BangIndex(dependency);
      if bangIndex >= 0 {
        var strPluginId := ResolveModule(from, dependency[..bangIndex]);
        var pluginParam := ResolveModule(from, dependency[bangIndex + 1..]);
        var dependencyId := moduleIds.GetModuleId(strPluginId + "!" + pluginParam);
        var pluginId := moduleIds.GetModuleId(strPluginId);
        return Plugin(dependencyId, pluginId, pluginParam);
      }
      var id := moduleIds.GetModuleId(ResolveModule(from, dependency));
      result := Regular(id);
    }

    method AddAndResolve(moduleId: nat, dependencies: seq<Dependency>, callback: Callback, hasErrorback: bool, ghost before: State)
      requires moduleIds.Valid() && Owns() && moduleId !in modules2
      requires Stable(before) && Requested(before, {}) && Abs() == before.(maxId := |moduleIds.intModuleIdToStr|)
      requires CanDefine(before, |moduleIds.intModuleIdToStr|, moduleId, dependencies)
      modifies this, modules2.Values
      ensures Valid()
      ensures Abs() == Define(before, |moduleIds.intModuleIdToStr|, moduleId, dependencies, callback, hasErrorback)
    {
      hide Stable, Requested, MidResolve, Tables, CanDefine, Define, LoaderState.Resolve, AddModule, Resolving;
      DefineFacts(before, Abs().maxId, moduleId, dependencies, callback, hasErrorback);
      var m := CreateModule(moduleId, dependencies, callback, hasErrorback);
      Resolve(m);
    }

    // `this._modules2[moduleId] = new Module(...)`
    method CreateModule(moduleId: nat, dependencies: seq<Dependency>, callback: Callback, hasErrorback: bool) returns (m: Module)
      requires moduleIds.Valid() && Owns() && moduleId !in modules2
      modifies this`modules2, this`history
      ensures moduleIds.Valid() && Owns() && Abs() == AddModule(old(Abs()), moduleId, dependencies, callback, hasErrorback)
      ensures m.id == moduleId && moduleId in modules2 && modules2[moduleId] == m
      ensures fresh(m) && fresh(modules2.Values - old(modules2.Values))
    {
      m := new Module(moduleId, dependencies, callback, hasErrorback);
      modules2 := modules2[moduleId := m];
      history := history.(declared := history.declared[moduleId := dependencies],
                          callbacks := history.callbacks[moduleId := callback]);
      assert Records() == old(Records())[moduleId := m.Record()];
    }

    // ----- load failures -----

    // An empty module stands for an id that was never defined.
    method EnsureModule(moduleId: nat)
      requires moduleIds.Valid() && Owns() && Tables(Abs())
      modifies this`modules2, this`history
      ensures moduleIds.Valid() && Owns() && Abs() == WithModule(old(Abs()), moduleId)
      ensures moduleId in modules2 && fresh(modules2.Values - old(modules2.Values))
    {
      if moduleId !in modules2 {
        var _ := CreateModule(moduleId, [], Factory(Returned(None, false)), false);
      }
    }

    // The element is told of the error if it is a defined module.
    method NotifyElement(element: nat, err: LoaderError) returns (notified: bool)
      requires Owns()
      modifies this`errorbacks, modules2.Values
      ensures Owns() && Abs() == Told(old(Abs()), FailedIn(old(Records()), {element}, err), errorbacks)
      ensures notified <==> element in old(Records()) && old(Records())[element].hasErrorback
      ensures errorbacks == if notified then old(errorbacks) + [element] else old(errorbacks)
    {
      hide Records;
      RecordAt(element);
      notified := false;
      if element in modules2 {
        notified := TellError(modules2[element], err);
      }
    }

    // The waiters of an element that were not seen yet are appended to the queue.
    method EnqueueWaiters(element: nat, seenModuleId: array<bool>, queue: seq<nat>) returns (queue': seq<nat>)
      requires Owns() && forall k :: 0 <= k < |Waiters(inverseDependencies2, element)| ==> Waiters(inverseDependencies2, element)[k] < seenModuleId.Length
      modifies seenModuleId
      ensures Owns() && Abs() == old(Abs())
      ensures queue <= queue' && Distinct(queue'[|queue|..])
      ensures forall x :: x in queue'[|queue|..] <==> x in Waiters(inverseDependencies2, element) && !old(seenModuleId[..])[x]
      ensures forall x :: 0 <= x < seenModuleId.Length ==>
        (seenModuleId[x] <==> old(seenModuleId[x]) || x in Waiters(inverseDependencies2, element))
    {
      ghost var st := Abs();
      queue' := queue;
      var inverseDeps := Waiters(inverseDependencies2, element);
      for i := 0 to |inverseDeps|
        invariant Owns() && Abs() == st
        invariant queue <= queue' && Distinct(queue'[|queue|..])
        invariant forall x :: x in queue'[|queue|..] <==> x in inverseDeps[..i] && !old(seenModuleId[..])[x]
        invariant forall x :: 0 <= x < seenModuleId.Length ==> (seenModuleId[x] <==> old(seenModuleId[x]) || x in inverseDeps[..i])
      {
        var inverseDep := inverseDeps[i];
        assert inverseDeps[..i + 1] == inverseDeps[..i] + [inverseDep];
        if !seenModuleId[inverseDep] {
          assert (queue' + [inverseDep])[|queue|..] == queue'[|queue|..] + [inverseDep];
          queue' := queue' + [inverseDep];
          seenModuleId[inverseDep] := true;
        }
      }
      assert inverseDeps[..|inverseDeps|] == inverseDeps;
    }

    // One element of the queue: it fails, and its waiters are queued.
    method FailElement(element: nat, seenModuleId: array<bool>, queue: seq<nat>, err: LoaderError)
        returns (notified: bool, queue': seq<nat>)
      requires Owns()
      requires forall k :: 0 <= k < |Waiters(Abs().inverse, element)| ==> Waiters(Abs().inverse, element)[k] < seenModuleId.Length
      modifies this`errorbacks, modules2.Values, seenModuleId
      ensures Owns() && Abs() == Told(old(Abs()), FailedIn(old(Records()), {element}, err), errorbacks)
      ensures notified <==> element in old(Records()) && old(Records())[element].hasErrorback
      ensures errorbacks == if notified then old(errorbacks) + [element] else old(errorbacks)
      ensures queue <= queue' && Distinct(queue'[|queue|..])
      ensures forall x :: x in queue'[|queue|..] <==> x in Waiters(Abs().inverse, element) && x < seenModuleId.Length && !old(seenModuleId[..])[x]
      ensures forall x :: 0 <= x < seenModuleId.Length ==>
        (seenModuleId[..][x] <==> old(seenModuleId[..])[x] || x in Waiters(Abs().inverse, element))
    {
      hide FailedIn, Owns;
      notified := NotifyElement(element, err);
      queue' := EnqueueWaiters(element, seenModuleId, queue);
    }

    // The first element of the queue is taken and fails.
    method FailFirst(queue: seq<nat>, seenModuleId: array<bool>, err: LoaderError, ghost st: State, ghost root: nat,
                     ghost popped: set<nat>, ghost calls: seq<nat>, ghost before: seq<nat>)
        returns (notified: bool, queue': seq<nat>, ghost calls': seq<nat>)
      requires Owns() && Abs() == Told(st, Records(), errorbacks) && queue != []
      requires FailProgress(st, Records(), seenModuleId[..], popped, queue, calls, root, err) && errorbacks == before + calls
      requires forall d, k :: 0 <= k < |Waiters(st.inverse, d)| ==> Waiters(st.inverse, d)[k] < seenModuleId.Length
      modifies this`errorbacks, modules2.Values, seenModuleId
      ensures Owns() && Abs() == Told(st, Records(), errorbacks)
      ensures FailProgress(st, Records(), seenModuleId[..], popped + {queue[0]}, queue', calls', root, err)
      ensures errorbacks == before + calls' && calls' == if notified then calls + [queue[0]] else calls
      ensures Below(seenModuleId.Length) - (popped + {queue[0]}) < Below(seenModuleId.Length) - popped
    {
      hide Affected, FailedIn, FailProgress, Owns, Waiters, Records, Distinct, Below;
      ghost var marks, records := seenModuleId[..], Records();
      notified, queue' := FailElement(queue[0], seenModuleId, queue[1..], err);
      AppendCall(before, calls, queue[0]);
      calls' := if notified then calls + [queue[0]] else calls;
      FailContinues(st, records, marks, popped, queue, calls, root, err, seenModuleId[..], queue');
    }

    // The walk over the inverse dependencies: everything affected by the failure of moduleId fails.
    method FailAffected(moduleId: nat, err: LoaderError) returns (someoneNotified: bool)
      requires moduleIds.Valid() && Owns() && Tables(Abs()) && IdsInRange(Abs()) && moduleId in Abs().modules
      modifies this`errorbacks, modules2.Values
      ensures moduleIds.Valid() && Owns() && Abs() == LoaderState.FailAffected(old(Abs()), moduleId, err)
      ensures someoneNotified <==> Notified(old(Abs()), moduleId) != {}
      ensures CalledOnce(Notified(old(Abs()), moduleId), old(errorbacks), errorbacks)
    {
      hide Affected, FailedIn, Tables, IdsInRange, FailProgress, Owns, Notified, CalledOnce, LoaderState.FailAffected, Waiters, Records,
           Below;
      ghost var st, before := Abs(), errorbacks;
      WaitersInRange(st, moduleId);
      var seenModuleId := new bool[moduleIds.nextId](i => false);
      ghost var popped: set<nat>, calls: seq<nat> := {}, [];
      var queue := [moduleId];
      seenModuleId[moduleId] := true;
      someoneNotified := false;
      FailStarts(st, seenModuleId[..], moduleId, err);
      while |queue| > 0
        invariant Owns() && Abs() == Told(st, Records(), errorbacks)
        invariant FailProgress(st, Records(), seenModuleId[..], popped, queue, calls, moduleId, err)
        invariant errorbacks == before + calls && (someoneNotified <==> calls != [])
        decreases Below(seenModuleId.Length) - popped
      {
        ghost var element := queue[0];
        var notified;
        notified, queue, calls := FailFirst(queue, seenModuleId, err, st, moduleId, popped, calls, before);
        someoneNotified := notified || someoneNotified;
        popped := popped + {element};
      }
      FailEnds(st, Records(), seenModuleId[..], popped, calls, moduleId, err, before);
      CallsNotified(Notified(st, moduleId), before, calls);
    }

    // _onLoadError
    method OnLoadError(moduleId: nat, cause: int)
      requires Valid() && moduleId < moduleIds.nextId
      modifies this, modules2.Values
      ensures Valid()
      ensures Abs() == LoaderState.OnLoadError(old(Abs()), moduleId, LoadFailure(moduleId, cause))
      ensures CalledOnce(Notified(old(Abs()), moduleId), old(errorbacks), errorbacks)
    {
      hide Stable, Requested, Tables, IdsInRange, CalledOnce, Notified, Owns, Records,
           WithModule, LoaderState.FailAffected, LoaderState.OnLoadError;
      ghost var before := Abs();
      var err := LoadFailure(moduleId, cause);
      LoadErrorFacts(before, moduleId, err);
      EnsureModule(moduleId);
      var someoneNotified := FailAffected(moduleId, err);
      if !someoneNotified {
        Report(err);
      }
      assert Abs() == LoaderState.OnLoadError(before, moduleId, err);
    }

    // ----- answers of the script loader and of plugins -----

    // _onLoad with the anonymous definition that the loaded script made: the script of moduleId
    // defined its module without a name.
    method OnScriptLoaded(moduleId: nat, dependencies: seq<string>, callback: Callback)
      requires Valid() && moduleId < moduleIds.nextId
      modifies this, moduleIds, modules2.Values
      ensures Valid()
      ensures var names := old(moduleIds.intModuleIdToStr);
        moduleId < |names| &&
        (Abs(), moduleIds.intModuleIdToStr)
        == DefineNamed(old(Abs()), names, names[moduleId], dependencies, callback, false, PathOf(names[moduleId]))
    {
      var name := moduleIds.intModuleIdToStr[moduleId];
      DefineModule(name, dependencies, callback, false, PathOf(name));
    }

    // The load callback handed to a plugin: the resource becomes a module without dependencies and
    // with the value for its callback.  `result` is what calling the value comes to, if it is a
    // function.
    method OnPluginLoaded(resourceId: nat, value: Value, result: FactoryResult)
      requires Valid() && resourceId < moduleIds.nextId
      modifies this, moduleIds, modules2.Values
      ensures Valid()
      ensures var names := old(moduleIds.intModuleIdToStr);
        resourceId < |names| &&
        (Abs(), moduleIds.intModuleIdToStr)
        == DefineNamed(old(Abs()), names, names[resourceId], [], CallbackOf(value, result), false, PathOf(names[resourceId]))
    {
      var name := moduleIds.intModuleIdToStr[resourceId];
      DefineModule(name, [], CallbackOf(value, result), false, PathOf(name));
    }
  }

  lemma NormalizeNext(names: seq<string>, dependencies: seq<string>, i: nat, from: string)
    requires |names| >= 3 && i < |dependencies|
    ensures var r := NormalizeDependencies(names, dependencies[..i], from);
      var d := NormalizeDependency(r.0, dependencies[i], from);
      NormalizeDependencies(names, dependencies[..i + 1], from) == (d.0, r.1 + [d.1])
  {
    hide NormalizeDependencies, NormalizeDependency;
    assert dependencies[..i + 1] == dependencies[..i] + [dependencies[i]];
    NormalizeSnoc(names, dependencies[..i], dependencies[i], from);
  }

  lemma FinishShrinks(st: State, m: nat)
    requires Tables(st) && m in st.modules && !st.modules[m].complete
    ensures var r := LoaderState.Finish(st, m);
      && Tables(r) && r.modules.Keys == st.modules.Keys
      && Incomplete(r) < Incomplete(st)
      && forall k :: 0 <= k < |Waiters(st.inverse, m)| ==> Waiters(st.inverse, m)[k] in st.modules
  {
    var r := LoaderState.Finish(st, m);
    assert m in Incomplete(st) && m !in Incomplete(r);
  }

  lemma ReleaseAll(st: State, waiters: seq<nat>)
    requires Tables(st) && forall k :: 0 <= k < |waiters| ==> waiters[k] in st.modules
    ensures Release(st, waiters[0..]) == Release(st, waiters)
  {
    assert waiters[0..] == waiters;
  }

  lemma ReleaseNext(st: State, waiters: seq<nat>, i: nat)
    requires Tables(st) && i < |waiters| && forall k :: 0 <= k < |waiters| ==> waiters[k] in st.modules
    ensures var r := ReleaseOne(st, waiters[i]);
      && Tables(r) && r.modules.Keys == st.modules.Keys && Incomplete(r) <= Incomplete(st)
      && Release(st, waiters[i..]) == Release(r, waiters[i + 1..])
  {
    hide ReleaseOne, Tables;
    assert waiters[i..][1..] == waiters[i + 1..];
  }

  lemma ReleaseDone(st: State, waiters: seq<nat>)
    requires Tables(st)
    ensures Release(st, waiters[|waiters|..]) == st
  {
  }

  lemma TablesHold(st: State)
    requires Tables(st)
    ensures PluginsQueued(st)
  {
  }

  // ----- for the breadth-first search -----

  ghost function Below(max: nat): (r: set<nat>)
    ensures forall id: nat :: id in r <==> id < max
  {
    if max == 0 then {} else Below(max - 1) + {max - 1}
  }

  // The marked modules are those seen; each is defined and reached from the start.
  ghost predicate Searching(records: map<nat, ModuleRecord>, marks: seq<bool>, seen: set<nat>, queue: seq<nat>, from: nat) {
    && (forall id :: 0 <= id < |marks| ==> (marks[id] <==> id in seen))
    && from in seen
    && (forall id :: id in seen ==>
          id < |marks| && id in records && (id == from || LoaderState.HasDependencyPath(records, from, id)))
    && (forall id :: id in queue ==> id in seen)
  }

  // No dependency of id is the target, and the defined ones were seen.
  ghost predicate Explored(records: map<nat, ModuleRecord>, id: nat, seen: set<nat>, to: nat) {
    forall d :: DependencyEdge(records, id, d) ==> d != to && (d in records ==> d in seen)
  }

  ghost predicate AllExplored(records: map<nat, ModuleRecord>, seen: set<nat>, queue: seq<nat>, to: nat) {
    forall id :: id in seen && id !in queue ==> Explored(records, id, seen, to)
  }

  lemma StartSearch(records: map<nat, ModuleRecord>, marks: seq<bool>, from: nat, to: nat)
    requires from < |marks| && from in records && forall id :: 0 <= id < |marks| ==> (marks[id] <==> id == from)
    ensures Searching(records, marks, {from}, [from], from) && AllExplored(records, {from}, [from], to)
  {
  }

  lemma SeenReached(records: map<nat, ModuleRecord>, marks: seq<bool>, seen: set<nat>, queue: seq<nat>, from: nat)
    requires Searching(records, marks, seen, queue, from)
    ensures seen <= Below(|marks|)
    ensures forall id :: 0 <= id < |marks| ==> (marks[id] <==> id in seen)
    ensures forall id :: id in seen ==> id == from || LoaderState.HasDependencyPath(records, from, id)
  {
  }

  lemma SeenMore(max: nat, seen: set<nat>, seen': set<nat>)
    requires seen <= seen' <= Below(max)
    ensures seen' == seen || Below(max) - seen' < Below(max) - seen
  {
    if seen' != seen {
      var id :| id in seen' && id !in seen;
      assert id in Below(max) - seen && id !in Below(max) - seen';
    }
  }

  lemma NextInSearch(records: map<nat, ModuleRecord>, marks: seq<bool>, seen: set<nat>, queue: seq<nat>, from: nat)
    requires Searching(records, marks, seen, queue, from) && queue != []
    ensures queue[0] in seen && queue[0] in records && Searching(records, marks, seen, queue[1..], from)
  {
  }

  lemma StepExplored(records: map<nat, ModuleRecord>, seen: set<nat>, queue: seq<nat>, seen': set<nat>, queue': seq<nat>, to: nat)
    requires queue != [] && AllExplored(records, seen, queue, to)
    requires seen <= seen' && queue[1..] <= queue' && Explored(records, queue[0], seen', to)
    requires forall id :: id in seen' && id !in seen ==> id in queue'
    ensures AllExplored(records, seen', queue', to)
  {
    forall id | id in seen' && id !in queue'
      ensures Explored(records, id, seen', to)
    {
      if id != queue[0] {
        assert id in seen && id !in queue;
      }
    }
  }

  lemma DefinedInRange(st: State)
    requires IdsInRange(st)
    ensures forall id :: id in st.modules ==> id < st.maxId
  {
  }

  lemma MarkKeeps(records: map<nat, ModuleRecord>, marks: seq<bool>, seen: set<nat>, queue: seq<nat>, from: nat, d: nat)
    requires Searching(records, marks, seen, queue, from)
    requires d < |marks| && d in records && LoaderState.HasDependencyPath(records, from, d)
    ensures Searching(records, marks[d := true], seen + {d}, queue + [d], from)
  {
  }

  lemma WalkedAll(records: map<nat, ModuleRecord>, id: nat, seen: set<nat>, to: nat)
    requires id in records
    requires records[id].dependencies.Some? ==> forall j :: 0 <= j < |records[id].dependencies.value| ==>
      var d := records[id].dependencies.value[j].Id(); d != to && (d in records ==> d in seen)
    ensures Explored(records, id, seen, to)
  {
  }

  lemma {:induction false} PathStaysIn(records: map<nat, ModuleRecord>, seen: set<nat>, to: nat, p: seq<nat>, n: nat)
    requires IsDependencyPath(records, p) && p[0] in seen && n < |p| - 1
    requires forall id :: id in seen ==> Explored(records, id, seen, to)
    ensures p[n] in seen && p[n + 1] != to
  {
    if n > 0 {
      PathStaysIn(records, seen, to, p, n - 1);
    }
    assert DependencyEdge(records, p[n], p[n + 1]);
    if n > 0 {
      assert DependencyEdge(records, p[n - 1], p[n]);
    }
  }

  lemma ClosedWithout(records: map<nat, ModuleRecord>, seen: set<nat>, from: nat, to: nat)
    requires from in seen && AllExplored(records, seen, [], to)
    ensures !LoaderState.HasDependencyPath(records, from, to)
  {
    forall p | |p| >= 2 && p[0] == from && IsDependencyPath(records, p)
      ensures p[|p| - 1] != to
    {
      PathStaysIn(records, seen, to, p, |p| - 2);
    }
  }

  lemma MidResolveFacts(st: State, m: nat, i: nat)
    requires MidResolve(st, m, i)
    ensures Resolving(st, m, i) && Tables(st) && IdsInRange(st)
  {
  }

  lemma DefineFacts(st: State, maxId: nat, id: nat, deps: seq<Dependency>, callback: Callback, hasErrorback: bool)
    requires Stable(st) && Requested(st, {}) && CanDefine(st, maxId, id, deps) && id !in st.modules
    ensures var a := AddModule(st.(maxId := maxId), id, deps, callback, hasErrorback);
      && MidResolve(a, id, 0) && Tables(a) && Resolving(a, id, 0)
      && Define(st, maxId, id, deps, callback, hasErrorback) == LoaderState.Resolve(a, id, 0)
    ensures var r := Define(st, maxId, id, deps, callback, hasErrorback); Stable(r) && Requested(r, {})
  {
    MoreIdsKeep(st, maxId);
    AddModuleKeeps(st.(maxId := maxId), id, deps, callback, hasErrorback);
    DefineKeeps(st, maxId, id, deps, callback, hasErrorback);
    DefineRequested(st, maxId, id, deps, callback, hasErrorback);
  }

  lemma IgnoredFacts(st: State, maxId: nat)
    requires Stable(st) && Requested(st, {}) && st.maxId <= maxId
    ensures Stable(st.(maxId := maxId)) && Requested(st.(maxId := maxId), {})
  {
    MoreIdsKeep(st, maxId);
    AwaitedGrow(st, st.(maxId := maxId), {});
  }

  // ----- for the resolution loop -----

  lemma StepCases(st: State, m: nat, i: nat)
    requires Resolving(st, m, i) && i < |st.modules[m].dependencies.value|
    requires Tables(st) && !MeetsFailure(st, m, i)
    ensures var dep, r := DepAt(st, m, i), ResolveStep(st, m, i);
      if dep.Special() then r == SkipSpecial(st, m, dep)
      else if IsComplete(st, dep.Id()) then r == Decrement(st, m)
      else if LoaderState.HasDependencyPath(st.modules, dep.Id(), m) then r == LoaderState.BreakCycle(st, m, i)
      else r == LoaderState.RequestDependency(AddWaiter(st, dep.Id(), m), dep)
  {
  }

  lemma ResolveUnfolds(st: State, m: nat, i: nat)
    requires MidResolve(st, m, i) && Resolving(st, m, i) && Tables(st)
    requires i < |st.modules[m].dependencies.value| && !MeetsFailure(st, m, i)
    ensures var r := ResolveStep(st, m, i);
      && MidResolve(r, m, i + 1) && Tables(r) && Resolving(r, m, i + 1)
      && LoaderState.Resolve(r, m, i + 1) == LoaderState.Resolve(st, m, i)
  {
    StepKeeps(st, m, i);
  }

  // ----- for load failures -----

  // The state with other records, once these errorbacks were called
  ghost function Told(st: State, records: map<nat, ModuleRecord>, errorbacks: seq<nat>): State {
    st.(modules := records, history := st.history.(called := multiset(errorbacks)))
  }

  ghost function FailedIn(records: map<nat, ModuleRecord>, ids: set<nat>, err: LoaderError): map<nat, ModuleRecord> {
    map x | x in records :: if x in ids then records[x].(complete := true, error := Some(err)) else records[x]
  }

  // The walk over the inverse dependencies: marked ids are affected, each is in the queue or was
  // taken from it, and the waiters of those taken are marked.
  ghost predicate FailSearch(inverse: map<nat, seq<nat>>, marks: seq<bool>, popped: set<nat>, queue: seq<nat>, root: nat) {
    && (forall x :: 0 <= x < |marks| ==> (marks[x] <==> x in popped || x in queue))
    && (forall x :: x in popped || x in queue ==> x < |marks| && Affected(inverse, root, x))
    && Distinct(queue) && (forall x :: x in queue ==> x !in popped)
    && (root in popped || root in queue)
    && (forall x, y :: x in popped && y in Waiters(inverse, x) ==> y in popped || y in queue)
  }

  // The errorbacks called so far: once for each module taken from the queue that has one.
  ghost predicate CalledBack(st: State, popped: set<nat>, calls: seq<nat>) {
    && Distinct(calls)
    && forall x :: x in calls <==> x in popped && x in st.modules && st.modules[x].hasErrorback
  }

  // Every errorback that a load failure of id has to call is called once, and no other.
  ghost predicate CalledOnce(ids: set<nat>, before: seq<nat>, after: seq<nat>) {
    && before <= after
    && Distinct(after[|before|..])
    && forall x :: x in after[|before|..] <==> x in ids
  }

  lemma WaitersInRange(st: State, id: nat)
    requires Tables(st) && IdsInRange(st) && id in st.modules
    ensures id < st.maxId
    ensures forall d, k :: 0 <= k < |Waiters(st.inverse, d)| ==> Waiters(st.inverse, d)[k] < st.maxId
  {
  }

  lemma AffectedExtends(inverse: map<nat, seq<nat>>, root: nat, x: nat, y: nat)
    requires Affected(inverse, root, x) && y in Waiters(inverse, x)
    ensures Affected(inverse, root, y)
  {
    var p :| IsWaitChain(inverse, p) && p[0] == root && p[|p| - 1] == x;
    var q := p + [y];
    forall i | 0 <= i < |q| - 1
      ensures WaitEdge(inverse, q[i], q[i + 1])
    {
      if i < |p| - 1 {
        assert WaitEdge(inverse, p[i], p[i + 1]);
      }
    }
    assert IsWaitChain(inverse, q);
  }

  lemma FailSearchSteps(inverse: map<nat, seq<nat>>, marks: seq<bool>, popped: set<nat>, queue: seq<nat>, root: nat,
                        marks': seq<bool>, queue': seq<nat>)
    requires FailSearch(inverse, marks, popped, queue, root) && queue != [] && |marks'| == |marks|
    requires queue[1..] <= queue' && Distinct(queue'[|queue| - 1..])
    requires forall k :: 0 <= k < |Waiters(inverse, queue[0])| ==> Waiters(inverse, queue[0])[k] < |marks|
    requires forall x :: x in queue'[|queue| - 1..] <==> x in Waiters(inverse, queue[0]) && x < |marks| && !marks[x]
    requires forall x :: 0 <= x < |marks| ==> (marks'[x] <==> marks[x] || x in Waiters(inverse, queue[0]))
    ensures FailSearch(inverse, marks', popped + {queue[0]}, queue', root)
    ensures queue[0] !in popped && queue[0] < |marks|
  {
    var added, e := queue'[|queue| - 1..], queue[0];
    assert queue == [e] + queue[1..];
    assert queue' == queue[1..] + added;
    assert forall x :: x in queue' <==> x in queue[1..] || x in added;
    forall x | x in queue'
      ensures x < |marks| && Affected(inverse, root, x)
    {
      if x in added {
        AffectedExtends(inverse, root, e, x);
      } else {
        assert x in queue;
      }
    }
    forall x | x in queue[1..]
      ensures x !in added
    {
      assert x in queue;
    }
    DistinctConcat(queue[1..], added);
  }

  lemma {:induction false} ChainPopped(inverse: map<nat, seq<nat>>, popped: set<nat>, p: seq<nat>, n: nat)
    requires IsWaitChain(inverse, p) && p[0] in popped && n < |p|
    requires forall x, y :: x in popped && y in Waiters(inverse, x) ==> y in popped
    ensures p[n] in popped
  {
    if n > 0 {
      ChainPopped(inverse, popped, p, n - 1);
      assert WaitEdge(inverse, p[n - 1], p[n]);
    }
  }

  lemma NotifyStep(st: State, popped: set<nat>, calls: seq<nat>, e: nat, err: LoaderError)
    ensures FailedIn(FailedIn(st.modules, popped, err), {e}, err) == FailedIn(st.modules, popped + {e}, err)
    ensures e in FailedIn(st.modules, popped, err) <==> e in st.modules
    ensures e in st.modules ==> FailedIn(st.modules, popped, err)[e].hasErrorback == st.modules[e].hasErrorback
    ensures CalledBack(st, popped, calls) && e !in popped ==>
      CalledBack(st, popped + {e}, if e in st.modules && st.modules[e].hasErrorback then calls + [e] else calls)
  {
  }

  // Everything about the walk that does not mention the heap
  ghost predicate FailProgress(st: State, records: map<nat, ModuleRecord>, marks: seq<bool>, popped: set<nat>, queue: seq<nat>,
                               calls: seq<nat>, root: nat, err: LoaderError) {
    && FailSearch(st.inverse, marks, popped, queue, root)
    && records == FailedIn(st.modules, popped, err)
    && CalledBack(st, popped, calls)
  }

  lemma FailStarts(st: State, marks: seq<bool>, root: nat, err: LoaderError)
    requires root < |marks| && forall x :: 0 <= x < |marks| ==> (marks[x] <==> x == root)
    ensures FailProgress(st, st.modules, marks, {}, [root], [], root, err)
  {
    RootAffected(st.inverse, root);
  }

  lemma FailContinues(st: State, records: map<nat, ModuleRecord>, marks: seq<bool>, popped: set<nat>, queue: seq<nat>,
                      calls: seq<nat>, root: nat, err: LoaderError, marks': seq<bool>, queue': seq<nat>)
    requires FailProgress(st, records, marks, popped, queue, calls, root, err)
    requires queue != [] && |marks'| == |marks|
    requires queue[1..] <= queue' && Distinct(queue'[|queue| - 1..])
    requires forall k :: 0 <= k < |Waiters(st.inverse, queue[0])| ==> Waiters(st.inverse, queue[0])[k] < |marks|
    requires forall x :: x in queue'[|queue| - 1..] <==> x in Waiters(st.inverse, queue[0]) && x < |marks| && !marks[x]
    requires forall x :: 0 <= x < |marks| ==> (marks'[x] <==> marks[x] || x in Waiters(st.inverse, queue[0]))
    ensures var e := queue[0];
      FailProgress(st, FailedIn(records, {e}, err), marks', popped + {e}, queue',
                   if e in records && records[e].hasErrorback then calls + [e] else calls, root, err)
    ensures Below(|marks|) - (popped + {queue[0]}) < Below(|marks|) - popped
  {
    FailSearchSteps(st.inverse, marks, popped, queue, root, marks', queue');
    NotifyStep(st, popped, calls, queue[0], err);
    assert queue[0] in Below(|marks|) - popped;
  }

  lemma FailEnds(st: State, records: map<nat, ModuleRecord>, marks: seq<bool>, popped: set<nat>, calls: seq<nat>, root: nat,
                 err: LoaderError, before: seq<nat>)
    requires Tables(st) && FailProgress(st, records, marks, popped, [], calls, root, err) && st.history.called == multiset(before)
    ensures LoaderState.FailAffected(st, root, err) == Told(st, records, before + calls)
    ensures Distinct(calls) && forall x :: x in calls <==> x in Notified(st, root)
    ensures calls != [] <==> Notified(st, root) != {}
  {
    hide Tables;
    forall x | Affected(st.inverse, root, x)
      ensures x in popped
    {
      var p :| IsWaitChain(st.inverse, p) && p[0] == root && p[|p| - 1] == x;
      ChainPopped(st.inverse, popped, p, |p| - 1);
    }
    assert forall x :: x in popped <==> Affected(st.inverse, root, x);
    if calls != [] {
      assert calls[0] in Notified(st, root);
    }
    OnceEach(calls, Notified(st, root));
    assert multiset(before + calls) == multiset(before) + multiset(calls);
  }

  lemma OnceEach(calls: seq<nat>, ids: set<nat>)
    requires Distinct(calls) && forall x :: x in calls <==> x in ids
    ensures multiset(calls) == multiset(ids)
  {
    forall x: nat
      ensures multiset(calls)[x] == multiset(ids)[x]
    {
      OccursOnce(calls, x);
    }
  }

  lemma AppendCall(before: seq<nat>, calls: seq<nat>, e: nat)
    ensures before + (calls + [e]) == (before + calls) + [e]
  {
  }

  lemma CallsNotified(ids: set<nat>, before: seq<nat>, calls: seq<nat>)
    requires Distinct(calls) && forall x :: x in calls <==> x in ids
    ensures CalledOnce(ids, before, before + calls)
  {
    assert (before + calls)[|before|..] == calls;
  }

  lemma LoadErrorFacts(st: State, id: nat, err: LoaderError)
    requires Stable(st) && Requested(st, {}) && id < st.maxId
    ensures Tables(st)
    ensures var s := WithModule(st, id);
      && Tables(s) && IdsInRange(s) && id in s.modules
      && LoaderState.OnLoadError(st, id, err) == ReportUnheard(st, id, err, LoaderState.FailAffected(s, id, err))
      && Notified(s, id) == Notified(st, id)
    ensures var r := LoaderState.OnLoadError(st, id, err); Stable(r) && Requested(r, {})
  {
    hide Requested, Affected;
    OnLoadErrorKeeps(st, id, err);
    OnLoadErrorRequested(st, id, err);
    WithModuleRange(st, id);
    WithModuleNotified(st, id);
  }

  lemma WithModuleRange(st: State, id: nat)
    requires Stable(st) && id < st.maxId
    ensures IdsInRange(WithModule(st, id))
  {
    if id !in st.modules {
      AddModuleTables(st, id, [], Factory(Returned(None, false)), false);
    }
  }

  lemma WithModuleNotified(st: State, id: nat)
    requires Tables(st)
    ensures Notified(WithModule(st, id), id) == Notified(st, id)
  {
    hide Affected;
  }

  // ----- the calls are the steps of runs -----

  lemma InitialReachable()
    ensures LoaderTheorems.Reachable(INITIAL)
  {
    var states: seq<State>, steps: seq<LoaderTheorems.Step> := [INITIAL], [];
    assert LoaderTheorems.IsRun(states, steps) && states[|steps|] == INITIAL;
  }

  // From a reachable state a definition by name, whoever makes it, leads to a reachable state.
  lemma DefineNamedReaches(st: State, names: seq<string>, strModuleId: string, dependencies: seq<string>,
                           callback: Callback, hasErrorback: bool, from: string)
    requires Tables(st) && LoaderTheorems.Reachable(st) && |names| == st.maxId >= 3
    ensures LoaderTheorems.Reachable(DefineNamed(st, names, strModuleId, dependencies, callback, hasErrorback, from).0)
  {
    hide LoaderTheorems.Reachable, NormalizeDependencies, Interned, IdOf;
    var withModule := Interned(names, strModuleId);
    var id := IdOf(withModule, strModuleId);
    var r := DefineNamed(st, names, strModuleId, dependencies, callback, hasErrorback, from);
    if id in st.modules {
      LoaderTheorems.StepReaches(st, LoaderTheorems.DefineStep(|withModule|, id, [], callback, hasErrorback), r.0);
    } else {
      var normalized := NormalizeDependencies(withModule, dependencies, from);
      LoaderTheorems.StepReaches(st, LoaderTheorems.DefineStep(|normalized.0|, id, normalized.1, callback, hasErrorback), r.0);
    }
  }

  lemma OnLoadErrorReaches(st: State, id: nat, cause: int)
    requires Tables(st) && LoaderTheorems.Reachable(st) && id < st.maxId
    ensures LoaderTheorems.Reachable(LoaderState.OnLoadError(st, id, LoadFailure(id, cause)))
  {
    hide LoaderTheorems.Reachable;
    LoaderTheorems.StepReaches(st, LoaderTheorems.LoadErrorStep(id, cause), LoaderState.OnLoadError(st, id, LoadFailure(id, cause)));
  }

  // ----- what a definition by name adds -----

  // The name has a number afterwards, and no other name got another one.  A second definition is
  // ignored; the first adds the module with what its dependency names stand for, in order, with the
  // callback and with the errorback.
  lemma DefineNamedAdds(st: State, names: seq<string>, strModuleId: string, dependencies: seq<string>,
                        callback: Callback, hasErrorback: bool, from: string) returns (id: nat, deps: seq<Dependency>)
    requires Tables(st) && |names| >= 3
    ensures var r := DefineNamed(st, names, strModuleId, dependencies, callback, hasErrorback, from);
      && names <= r.1 && id < |r.1| && r.1[id] == strModuleId && r.0.maxId == |r.1|
      && (id in st.modules ==> r.0 == st.(maxId := |r.1|) && forall n :: |names| <= n < |r.1| ==> r.1[n] == strModuleId)
      && (id !in st.modules ==>
            && AllStandFor(r.1, dependencies, from, deps)
            && LoaderDefinitions.Adds(st, r.0, id, deps, callback, hasErrorback))
  {
    hide NormalizeDependencies, Define;
    var withModule := Interned(names, strModuleId);
    id, deps := IdOf(withModule, strModuleId), [];
    if id !in st.modules {
      var normalized := NormalizeDependencies(withModule, dependencies, from);
      deps := normalized.1;
      NormalizedStandForAll(withModule, dependencies, from);
      LoaderDefinitions.DefineAdds(st, |normalized.0|, id, deps, callback, hasErrorback);
    }
  }
}
