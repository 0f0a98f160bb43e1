// Resolution keeps the invariant: one loop iteration of _resolve at a time, then both entry
// points of the loader.

module LoaderResolve {
  import opened Options
  import opened LoaderState
  import opened LoaderInvariant

  // The state inside _resolve(m) before its i-th iteration, while the modules in `open` are being
  // resolved as well: a plugin that calls back at once defines a module inside an iteration.
  ghost predicate Amid(st: State, m: nat, i: nat, owed: multiset<nat>, open: map<nat, nat>) {
    && Resolving(st, m, i)
    && !st.modules[m].complete
    && m !in open && m !in owed && Resuming(st, owed, open)
    && Invariant(st, owed[m := |st.modules[m].dependencies.value| - i], {m}, open[m := i])
  }

  // The same with no other resolution under way
  ghost predicate MidResolve(st: State, m: nat, i: nat) {
    Amid(st, m, i, multiset{}, map[])
  }

  // ----- dependency paths -----

  lemma PathExtend(modules: map<nat, ModuleRecord>, from: nat, x: nat, y: nat)
    requires x == from || HasDependencyPath(modules, from, x)
    requires DependencyEdge(modules, x, y)
    ensures HasDependencyPath(modules, from, y)
  {
    var p: seq<nat>;
    if HasDependencyPath(modules, from, x) {
      p :| |p| >= 2 && p[0] == from && p[|p| - 1] == x && IsDependencyPath(modules, p);
    } else {
      p := [from];
    }
    var q := p + [y];
    assert forall i :: 0 <= i < |q| - 1 ==> DependencyEdge(modules, q[i], q[i + 1]);
    assert IsDependencyPath(modules, q);
  }

  lemma NoPathFromUndefined(modules: map<nat, ModuleRecord>, from: nat, to: nat)
    requires from !in modules
    ensures !HasDependencyPath(modules, from, to)
  {
    forall p: seq<nat> | |p| >= 2 && p[0] == from
      ensures !IsDependencyPath(modules, p)
    {
      assert !DependencyEdge(modules, p[0], p[1]);
    }
  }

  // The guard of the resolver: without a dependency path back, a new waiter closes no cycle.
  lemma GuardedEdgeKeepsAcyclic(st: State, m: nat, d: nat)
    requires IdsInRange(st) && Backed(st) && Acyclic(st.inverse)
    requires d < st.maxId && DependencyEdge(st.modules, m, d)
    requires !HasDependencyPath(st.modules, d, m)
    ensures Acyclic(st.inverse[d := Waiters(st.inverse, d) + [m]])
  {
    var reached := set x: nat | x < st.maxId && (x == d || HasDependencyPath(st.modules, d, x));
    if m in reached {
      PathExtend(st.modules, d, d, m);
    }
    forall x, e: nat | x in reached && x in Waiters(st.inverse, e)
      ensures e in reached
    {
      PathExtend(st.modules, d, x, e);
    }
    AcyclicNewEdge(st.inverse, m, d, reached);
  }

  // ----- the iterations -----

  // Every iteration that records no waiter takes one off the count of m.
  lemma CountDownKeeps(st: State, s: State, m: nat, i: nat, owed: multiset<nat>, open: map<nat, nat>)
    requires Amid(st, m, i, owed, open) && i < |st.modules[m].dependencies.value|
    requires CountsDown(st, s, m) && s.history.declared == st.history.declared && Settled(s, m, i)
    ensures Amid(s, m, i + 1, owed, open)
  {
    hide Tables, IdsInRange, Backed, Ordered, Topological, PassedExports, Acyclic, AllSettled, Counted, CountsDown;
    CountsDownTables(st, s, m);
    CountsDownSettled(st, s, m, open[m := i]);
    CountsDownHistory(st, s, m);
    CountsDownResolving(st, s, m, i, owed, open);
    OneMoreSettled(s, m, i, open);
  }

  lemma CountsDownResolving(st: State, s: State, m: nat, i: nat, owed: multiset<nat>, open: map<nat, nat>)
    requires Amid(st, m, i, owed, open) && i < |st.modules[m].dependencies.value| && CountsDown(st, s, m)
    ensures Resolving(s, m, i + 1) && !s.modules[m].complete && Resuming(s, owed, open)
    ensures Counted(s, owed[m := |s.modules[m].dependencies.value| - i - 1]) && Awaiting(s, {m}) && Acyclic(s.inverse)
    ensures s.history.declared.Keys == s.modules.Keys && i < |s.history.declared[m]|
  {
    hide Tables, Backed, Ordered, Topological, PassedExports, Acyclic, AllSettled;
  }

  lemma OneMoreSettled(st: State, m: nat, i: nat, open: map<nat, nat>)
    requires st.history.declared.Keys == st.modules.Keys && m in st.modules && i < |st.history.declared[m]|
    requires AllSettled(st, open[m := i]) && Settled(st, m, i)
    ensures AllSettled(st, open[m := i + 1])
  {
  }

  lemma WaitTables(st: State, m: nat, i: nat, owed: multiset<nat>, open: map<nat, nat>)
    requires Amid(st, m, i, owed, open) && i < |st.modules[m].dependencies.value|
    requires !IsComplete(st, DepAt(st, m, i).Id())
    requires !HasDependencyPath(st.modules, DepAt(st, m, i).Id(), m)
    ensures var s := AddWaiter(st, DepAt(st, m, i).Id(), m);
      Tables(s) && IdsInRange(s) && Backed(s) && Ordered(s) && Acyclic(s.inverse)
  {
    hide Topological, PassedExports, Counted, Awaiting, AllSettled, Acyclic, HasDependencyPath;
    var d := DepAt(st, m, i).Id();
    var s := AddWaiter(st, d, m);
    assert st.history.declared[m][i].Below(st.maxId);
    assert DependencyEdge(st.modules, m, d);
    GuardedEdgeKeepsAcyclic(st, m, d);
    forall x, e: nat | x in Waiters(s.inverse, e)
      ensures DependencyEdge(s.modules, x, e)
    {
      if x in Waiters(st.inverse, e) {
        assert DependencyEdge(st.modules, x, e);
      }
    }
  }

  lemma WaitCounted(st: State, m: nat, d: nat, n: nat, owed: multiset<nat>)
    requires Tables(st) && IdsInRange(st) && n > 0 && d < st.maxId && m in st.modules
    requires Counted(st, owed[m := n])
    ensures Counted(AddWaiter(st, d, m), owed[m := n - 1])
  {
    var s := AddWaiter(st, d, m);
    forall x | x in s.modules && !s.modules[x].complete
      ensures s.modules[x].unresolved == WaitCount(s.inverse, s.maxId, x) + owed[m := n - 1][x]
    {
      WaitCountUpdate(st.inverse, s.inverse, st.maxId, d, x);
    }
  }

  lemma WaitSettled(st: State, m: nat, i: nat, owed: multiset<nat>, open: map<nat, nat>)
    requires Amid(st, m, i, owed, open) && i < |st.modules[m].dependencies.value|
    ensures var s := AddWaiter(st, DepAt(st, m, i).Id(), m);
      AllSettled(s, open[m := i + 1]) && PassedExports(s)
  {
    hide Tables, Counted, Awaiting, Backed, Acyclic, Topological, Ordered;
    var d := DepAt(st, m, i).Id();
    var s := AddWaiter(st, d, m);
    assert DepAt(st, m, i) == st.history.declared[m][i];
    forall x, j | x in st.modules && 0 <= j < |st.history.declared[x]| && Settled(st, x, j)
      ensures Settled(s, x, j)
    {
    }
    assert Settled(s, m, i);
    forall x, j | x in s.history.order && 0 <= j < |s.history.declared[x]|
      ensures PassedExport(s, x, j)
    {
      assert PassedExport(st, x, j);
    }
  }

  lemma WaitKeeps(st: State, m: nat, i: nat, owed: multiset<nat>, open: map<nat, nat>)
    requires Amid(st, m, i, owed, open) && i < |st.modules[m].dependencies.value|
    requires !IsComplete(st, DepAt(st, m, i).Id())
    requires !HasDependencyPath(st.modules, DepAt(st, m, i).Id(), m)
    ensures Amid(AddWaiter(st, DepAt(st, m, i).Id(), m), m, i + 1, owed, open)
  {
    hide HasDependencyPath, DependencyEdge, Tables, Backed, Ordered, Acyclic, Topological, PassedExports, AllSettled, Counted;
    assert st.history.declared[m][i].Below(st.maxId);
    WaitTables(st, m, i, owed, open);
    WaitCounted(st, m, DepAt(st, m, i).Id(), |st.modules[m].dependencies.value| - i, owed);
    WaitSettled(st, m, i, owed, open);
  }

  lemma SkippedStepCountsDown(st: State, m: nat, i: nat)
    requires IdsInRange(st) && Tables(st) && Ordered(st) && Resolving(st, m, i) && !st.modules[m].complete
    requires i < |st.modules[m].dependencies.value| && !MeetsFailure(st, m, i)
    requires var dep := DepAt(st, m, i);
      dep.Special() || IsComplete(st, dep.Id()) || HasDependencyPath(st.modules, dep.Id(), m)
    ensures var s := ResolveStep(st, m, i);
      CountsDown(st, s, m) && s.history.declared == st.history.declared && Settled(s, m, i)
  {
    var dep, s := DepAt(st, m, i), ResolveStep(st, m, i);
    assert dep == st.history.declared[m][i];
    hide HasDependencyPath, Tables, IdsInRange, Ordered, CountsDown;
    if dep.Special() {
      assert CountsDown(st, s, m) by { SkipCountsDown(st, m, dep); }
    } else if IsComplete(st, dep.Id()) {
      CompleteInOrder(st, dep.Id());
      assert CountsDown(st, s, m) by { DecrementCountsDown(st, m); }
    } else {
      assert CountsDown(st, s, m) by { BreakCountsDown(st, m, i); }
    }
  }

  lemma SkipCountsDown(st: State, m: nat, dep: Dependency)
    requires m in st.modules
    ensures CountsDown(st, SkipSpecial(st, m, dep), m)
  {
  }

  lemma DecrementCountsDown(st: State, m: nat)
    requires m in st.modules
    ensures CountsDown(st, Decrement(st, m), m)
  {
  }

  lemma BreakCountsDown(st: State, m: nat, i: nat)
    requires m in st.modules
    ensures CountsDown(st, BreakCycle(st, m, i), m)
  {
  }

  lemma RequestKeeps(st: State, m: nat, i: nat, dep: Dependency, owed: multiset<nat>, open: map<nat, nat>)
    requires Amid(st, m, i, owed, open) && !dep.Special()
    ensures Amid(RequestDependency(st, dep), m, i, owed, open)
  {
    hide Invariant, IdsInRange, Ordered, PassedExports;
    AmidTables(st, m, i, owed, open);
    RequestsSame(st, dep);
    RequestsKeepInvariant(st, RequestDependency(st, dep), owed[m := |st.modules[m].dependencies.value| - i], {m}, open[m := i]);
  }

  // A completed module without an error has run its factory.
  lemma CompleteInOrder(st: State, d: nat)
    requires Ordered(st)
    ensures IsComplete(st, d) && st.modules[d].error.None? ==> d in st.history.order
  {
  }

  lemma RequestsSame(st: State, dep: Dependency)
    requires Tables(st) && !dep.Special()
    ensures Tables(RequestDependency(st, dep))
  {
  }

  lemma AmidTables(st: State, m: nat, i: nat, owed: multiset<nat>, open: map<nat, nat>)
    requires Amid(st, m, i, owed, open)
    ensures Tables(st) && IdsInRange(st) && Ordered(st) && PassedExports(st)
  {
  }

  lemma StepKeepsAmid(st: State, m: nat, i: nat, owed: multiset<nat>, open: map<nat, nat>)
    requires Amid(st, m, i, owed, open) && i < |st.modules[m].dependencies.value|
    requires Tables(st) && !MeetsFailure(st, m, i)
    ensures Amid(ResolveStep(st, m, i), m, i + 1, owed, open)
  {
    AmidTables(st, m, i, owed, open);
    var dep := DepAt(st, m, i);
    hide Invariant, IdsInRange, Ordered;
    if dep.Special() || IsComplete(st, dep.Id()) || HasDependencyPath(st.modules, dep.Id(), m) {
      SkippedStepCountsDown(st, m, i);
      CountDownKeeps(st, ResolveStep(st, m, i), m, i, owed, open);
    } else {
      WaitKeeps(st, m, i, owed, open);
      RequestKeeps(AddWaiter(st, dep.Id(), m), m, i + 1, dep, owed, open);
    }
  }

  lemma StepKeeps(st: State, m: nat, i: nat)
    requires MidResolve(st, m, i) && i < |st.modules[m].dependencies.value|
    requires !MeetsFailure(st, m, i)
    ensures Tables(st) && MidResolve(ResolveStep(st, m, i), m, i + 1)
  {
    AmidTables(st, m, i, multiset{}, map[]);
    StepKeepsAmid(st, m, i, multiset{}, map[]);
  }

  // ----- the end of a resolution -----

  lemma FailKeeps(st: State, m: nat, i: nat, err: LoaderError, owed: multiset<nat>, open: map<nat, nat>)
    requires Amid(st, m, i, owed, open)
    ensures Invariant(Fail(st, m, err), owed, {}, open) && Resuming(Fail(st, m, err), owed, open)
  {
    hide Tables, IdsInRange, Backed, Ordered, Topological, PassedExports, Acyclic, AllSettled, Counted, Awaiting;
    FailKeepsTables(st, m, err);
    EventsKeepTopological(st.history, Fail(st, m, err).history);
    FailKeepsPassed(st, m, err);
    FailKeepsCounted(st, m, i, err, owed, open);
  }

  lemma FailKeepsCounted(st: State, m: nat, i: nat, err: LoaderError, owed: multiset<nat>, open: map<nat, nat>)
    requires Amid(st, m, i, owed, open)
    ensures var r := Fail(st, m, err); Counted(r, owed) && Awaiting(r, {}) && AllSettled(r, open)
  {
    hide Tables, Backed, Ordered, Topological, PassedExports, Acyclic, AllSettled;
    FailKeepsSettled(st, m, i, err, open);
  }

  lemma FailKeepsSettled(st: State, m: nat, i: nat, err: LoaderError, open: map<nat, nat>)
    requires st.history.declared.Keys == st.modules.Keys && m in st.modules && AllSettled(st, open[m := i])
    ensures AllSettled(Fail(st, m, err), open)
  {
    var r := Fail(st, m, err);
    forall x, j | x in r.modules && !r.modules[x].complete && 0 <= j < |r.history.declared[x]| && (x in open ==> j < open[x])
      ensures Settled(r, x, j)
    {
      assert Settled(st, x, j);
    }
  }

  lemma FailKeepsPassed(st: State, m: nat, err: LoaderError)
    requires PassedExports(st) && m in st.modules
    ensures PassedExports(Fail(st, m, err))
  {
    var r := Fail(st, m, err);
    forall x, j | x in r.history.order && 0 <= j < |r.history.declared[x]|
      ensures PassedExport(r, x, j)
    {
      assert PassedExport(st, x, j);
    }
  }

  lemma FailKeepsTables(st: State, m: nat, err: LoaderError)
    requires Tables(st) && IdsInRange(st) && Backed(st) && Ordered(st) && m in st.modules
    ensures var r := Fail(st, m, err); Tables(r) && IdsInRange(r) && Backed(r) && Ordered(r)
  {
    hide Tables, IdsInRange, Backed, Ordered;
    FailKeepsIds(st, m, err);
    FailKeepsBacked(st, m, err);
    FailKeepsOrdered(st, m, err);
  }

  lemma FailKeepsIds(st: State, m: nat, err: LoaderError)
    requires Tables(st) && IdsInRange(st) && m in st.modules
    ensures Tables(Fail(st, m, err)) && IdsInRange(Fail(st, m, err))
  {
  }

  lemma FailKeepsOrdered(st: State, m: nat, err: LoaderError)
    requires Ordered(st) && m in st.modules
    ensures Ordered(Fail(st, m, err))
  {
  }

  lemma FailKeepsBacked(st: State, m: nat, err: LoaderError)
    requires Backed(st) && m in st.modules
    ensures Backed(Fail(st, m, err))
  {
    var r := Fail(st, m, err);
    forall x, e: nat | x in Waiters(r.inverse, e)
      ensures DependencyEdge(r.modules, x, e)
    {
      assert DependencyEdge(st.modules, x, e);
    }
  }

  lemma ResolvedAmid(st: State, m: nat, owed: multiset<nat>, open: map<nat, nat>)
    requires m in st.modules && st.modules[m].dependencies.Some?
    requires Amid(st, m, |st.modules[m].dependencies.value|, owed, open)
    ensures Invariant(st, owed, {m}, open)
    ensures st.modules[m].unresolved != 0 ==> Invariant(st, owed, {}, open)
  {
    hide Tables, Backed, Ordered, Topological, PassedExports, Acyclic;
    assert owed[m := 0] == owed;
    forall x, j | x in st.modules && !st.modules[x].complete && 0 <= j < |st.history.declared[x]| && (x in open ==> j < open[x])
      ensures Settled(st, x, j)
    {
    }
    assert st.modules[m].unresolved == WaitCount(st.inverse, st.maxId, m) + owed[m];
  }

  lemma ResolvedCanComplete(st: State, m: nat)
    requires m in st.modules && st.modules[m].dependencies.Some?
    requires MidResolve(st, m, |st.modules[m].dependencies.value|)
    ensures Invariant(st, multiset{}, {m}, map[])
    ensures st.modules[m].unresolved != 0 ==> Stable(st)
  {
    ResolvedAmid(st, m, multiset{}, map[]);
  }

  lemma {:induction false} ResolveKeepsAmid(st: State, m: nat, i: nat, owed: multiset<nat>, open: map<nat, nat>)
    requires Tables(st) && Resolving(st, m, i) && Amid(st, m, i, owed, open)
    ensures Invariant(Resolve(st, m, i), owed, {}, open) && Resuming(Resolve(st, m, i), owed, open)
    decreases |st.modules[m].dependencies.value| - i
  {
    hide Invariant, Tables;
    if i == |st.modules[m].dependencies.value| {
      ResolvedAmid(st, m, owed, open);
      if st.modules[m].unresolved == 0 {
        CompleteKeepsInvariant(st, m, owed, open);
      }
    } else if MeetsFailure(st, m, i) {
      FailKeeps(st, m, i, st.modules[DepAt(st, m, i).Id()].error.value, owed, open);
    } else {
      StepKeepsAmid(st, m, i, owed, open);
      ResolveKeepsAmid(ResolveStep(st, m, i), m, i + 1, owed, open);
    }
  }

  lemma ResolveKeeps(st: State, m: nat, i: nat)
    requires MidResolve(st, m, i)
    ensures Tables(st) && Stable(Resolve(st, m, i))
  {
    AmidTables(st, m, i, multiset{}, map[]);
    ResolveKeepsAmid(st, m, i, multiset{}, map[]);
  }

  // ----- the two entry points -----

  // The ids a definition may mention, once its names were turned into ids.
  ghost predicate CanDefine(st: State, maxId: nat, id: nat, deps: seq<Dependency>) {
    && st.maxId <= maxId
    && id < maxId
    && forall i :: 0 <= i < |deps| ==> deps[i].Below(maxId)
  }

  lemma MoreIdsKeepAmid(st: State, maxId: nat, owed: multiset<nat>, open: map<nat, nat>)
    requires Invariant(st, owed, {}, open) && st.maxId <= maxId
    ensures Invariant(st.(maxId := maxId), owed, {}, open)
  {
    var r := st.(maxId := maxId);
    forall x, j | x in st.modules && 0 <= j < |st.history.declared[x]| && Settled(st, x, j)
      ensures Settled(r, x, j)
    {
    }
    forall x, j | x in r.history.order && 0 <= j < |r.history.declared[x]|
      ensures PassedExport(r, x, j)
    {
      assert PassedExport(st, x, j);
    }
    forall x | x in st.modules && !st.modules[x].complete
      ensures WaitCount(r.inverse, r.maxId, x) == WaitCount(st.inverse, st.maxId, x)
    {
      WaitCountGrow(st.inverse, st.maxId, maxId, x);
    }
    forall x, e: nat | x in Waiters(r.inverse, e)
      ensures DependencyEdge(r.modules, x, e)
    {
      assert DependencyEdge(st.modules, x, e);
    }
    forall x, i | x in st.modules && 0 <= i < |st.history.declared[x]|
      ensures st.history.declared[x][i].Below(maxId)
    {
      assert st.history.declared[x][i].Below(st.maxId);
    }
  }

  lemma MoreIdsKeep(st: State, maxId: nat)
    requires Stable(st) && st.maxId <= maxId
    ensures Stable(st.(maxId := maxId))
  {
    MoreIdsKeepAmid(st, maxId, multiset{}, map[]);
  }

  lemma AddModuleTables(st: State, id: nat, deps: seq<Dependency>, callback: Callback, hasErrorback: bool)
    requires Tables(st) && IdsInRange(st) && Backed(st) && Ordered(st)
    requires CanDefine(st, st.maxId, id, deps) && id !in st.modules
    ensures var r := AddModule(st, id, deps, callback, hasErrorback);
      Tables(r) && IdsInRange(r) && Backed(r) && Ordered(r)
  {
    hide Tables, IdsInRange, Backed, Ordered;
    AddModuleIds(st, id, deps, callback, hasErrorback);
    AddModuleBacked(st, id, deps, callback, hasErrorback);
    AddModuleOrdered(st, id, deps, callback, hasErrorback);
  }

  lemma AddModuleIds(st: State, id: nat, deps: seq<Dependency>, callback: Callback, hasErrorback: bool)
    requires Tables(st) && IdsInRange(st) && CanDefine(st, st.maxId, id, deps) && id !in st.modules
    ensures var r := AddModule(st, id, deps, callback, hasErrorback); Tables(r) && IdsInRange(r)
  {
  }

  lemma AddModuleOrdered(st: State, id: nat, deps: seq<Dependency>, callback: Callback, hasErrorback: bool)
    requires Ordered(st) && id !in st.modules
    ensures Ordered(AddModule(st, id, deps, callback, hasErrorback))
  {
  }

  lemma AddModuleBacked(st: State, id: nat, deps: seq<Dependency>, callback: Callback, hasErrorback: bool)
    requires Backed(st) && id !in st.modules
    ensures Backed(AddModule(st, id, deps, callback, hasErrorback))
  {
    var r := AddModule(st, id, deps, callback, hasErrorback);
    forall x, e: nat | x in Waiters(r.inverse, e)
      ensures DependencyEdge(r.modules, x, e)
    {
      assert DependencyEdge(st.modules, x, e);
    }
  }

  lemma AddModuleHistory(st: State, id: nat, deps: seq<Dependency>, callback: Callback, hasErrorback: bool)
    requires IdsInRange(st) && Ordered(st) && Topological(st.history) && PassedExports(st) && id !in st.modules
    ensures var r := AddModule(st, id, deps, callback, hasErrorback);
      Topological(r.history) && PassedExports(r)
  {
    var r := AddModule(st, id, deps, callback, hasErrorback);
    forall k, j | 0 <= k < |r.history.order| && 0 <= j < |r.history.declared[r.history.order[k]]|
      ensures DoneBefore(r.history, k, j)
    {
      assert DoneBefore(st.history, k, j);
    }
    forall x, j | x in r.history.order && 0 <= j < |r.history.declared[x]|
      ensures PassedExport(r, x, j)
    {
      assert PassedExport(st, x, j);
    }
  }

  lemma AddModuleSettled(st: State, id: nat, deps: seq<Dependency>, callback: Callback, hasErrorback: bool, open: map<nat, nat>)
    requires IdsInRange(st) && AllSettled(st, open) && id !in st.modules
    ensures AddModule(st, id, deps, callback, hasErrorback).history.declared.Keys == st.modules.Keys + {id}
    ensures AllSettled(AddModule(st, id, deps, callback, hasErrorback), open[id := 0])
  {
    var r := AddModule(st, id, deps, callback, hasErrorback);
    forall x, j | x in r.modules && !r.modules[x].complete && x != id && 0 <= j < |r.history.declared[x]| && (x in open ==> j < open[x])
      ensures Settled(r, x, j)
    {
      assert Settled(st, x, j);
    }
  }

  lemma AddModuleAmid(st: State, id: nat, deps: seq<Dependency>, callback: Callback, hasErrorback: bool,
                      owed: multiset<nat>, open: map<nat, nat>)
    requires Invariant(st, owed, {}, open) && Resuming(st, owed, open) && id !in owed
    requires CanDefine(st, st.maxId, id, deps) && id !in st.modules
    ensures Amid(AddModule(st, id, deps, callback, hasErrorback), id, 0, owed, open)
  {
    hide Topological, PassedExports, Acyclic, AllSettled, Ordered, Tables, Counted, Backed;
    AddModuleTables(st, id, deps, callback, hasErrorback);
    AddModuleHistory(st, id, deps, callback, hasErrorback);
    AddModuleSettled(st, id, deps, callback, hasErrorback, open);
    AddModuleCounted(st, id, deps, callback, hasErrorback, owed);
  }

  lemma AddModuleCounted(st: State, id: nat, deps: seq<Dependency>, callback: Callback, hasErrorback: bool, owed: multiset<nat>)
    requires Backed(st) && Counted(st, owed) && id !in st.modules
    ensures Counted(AddModule(st, id, deps, callback, hasErrorback), owed[id := |deps|])
  {
    forall d: nat
      ensures id !in Waiters(st.inverse, d)
    {
      assert id in Waiters(st.inverse, d) ==> DependencyEdge(st.modules, id, d);
    }
    WaitCountMember(st.inverse, st.maxId, id);
  }

  lemma AddModuleKeeps(st: State, id: nat, deps: seq<Dependency>, callback: Callback, hasErrorback: bool)
    requires Stable(st) && CanDefine(st, st.maxId, id, deps) && id !in st.modules
    ensures MidResolve(AddModule(st, id, deps, callback, hasErrorback), id, 0)
  {
    AddModuleAmid(st, id, deps, callback, hasErrorback, multiset{}, map[]);
  }

  // A definition keeps the invariant, even inside an iteration of another resolution.
  lemma DefineKeepsAmid(st: State, maxId: nat, id: nat, deps: seq<Dependency>, callback: Callback, hasErrorback: bool,
                        owed: multiset<nat>, open: map<nat, nat>)
    requires Tables(st) && Invariant(st, owed, {}, open) && Resuming(st, owed, open) && CanDefine(st, maxId, id, deps)
    requires forall x :: x in owed ==> x in st.modules
    ensures var r := Define(st, maxId, id, deps, callback, hasErrorback); Invariant(r, owed, {}, open) && Resuming(r, owed, open)
  {
    hide Invariant, Tables;
    MoreIdsKeepAmid(st, maxId, owed, open);
    var s := st.(maxId := maxId);
    if id !in st.modules {
      var a := AddModule(s, id, deps, callback, hasErrorback);
      AddModuleAmid(s, id, deps, callback, hasErrorback, owed, open);
      AmidTables(a, id, 0, owed, open);
      ResolveKeepsAmid(a, id, 0, owed, open);
    }
  }

  lemma DefineKeeps(st: State, maxId: nat, id: nat, deps: seq<Dependency>, callback: Callback, hasErrorback: bool)
    requires Stable(st) && CanDefine(st, maxId, id, deps)
    ensures Stable(Define(st, maxId, id, deps, callback, hasErrorback))
  {
    DefineKeepsAmid(st, maxId, id, deps, callback, hasErrorback, multiset{}, map[]);
  }

  // ----- load failures -----

  lemma RootAffected(inverse: map<nat, seq<nat>>, id: nat)
    ensures Affected(inverse, id, id)
  {
    assert IsWaitChain(inverse, [id]);
  }

  lemma AffectedWaits(inverse: map<nat, seq<nat>>, id: nat, x: nat)
    requires Affected(inverse, id, x) && x != id
    ensures exists d: nat :: x in Waiters(inverse, d)
  {
    var p :| IsWaitChain(inverse, p) && p[0] == id && p[|p| - 1] == x;
    assert WaitEdge(inverse, p[|p| - 2], p[|p| - 1]);
  }

  // Beyond its root a load failure reaches only modules that did not complete.
  lemma CompletedUnaffected(st: State, id: nat, x: nat)
    requires Backed(st) && Ordered(st) && x in st.history.order && x != id
    ensures !Affected(st.inverse, id, x)
  {
    if Affected(st.inverse, id, x) {
      AffectedWaits(st.inverse, id, x);
    }
  }

  lemma FailAffectedTables(st: State, id: nat, err: LoaderError)
    requires Tables(st) && IdsInRange(st) && Backed(st)
    ensures var r := FailAffected(st, id, err); Tables(r) && IdsInRange(r) && Backed(r)
  {
    var r := FailAffected(st, id, err);
    forall x, e: nat | x in Waiters(r.inverse, e)
      ensures DependencyEdge(r.modules, x, e)
    {
      assert DependencyEdge(st.modules, x, e);
    }
  }

  lemma FailAffectedOrdered(st: State, id: nat, err: LoaderError)
    requires Tables(st) && Ordered(st)
    ensures Ordered(FailAffected(st, id, err))
  {
  }

  lemma FailAffectedHistory(st: State, id: nat, err: LoaderError)
    requires Tables(st) && PassedExports(st) && Topological(st.history)
    ensures PassedExports(FailAffected(st, id, err)) && Topological(FailAffected(st, id, err).history)
  {
    var r := FailAffected(st, id, err);
    EventsKeepTopological(st.history, r.history);
    forall x, j | x in r.history.order && 0 <= j < |r.history.declared[x]|
      ensures PassedExport(r, x, j)
    {
      assert PassedExport(st, x, j);
    }
  }

  lemma FailAffectedWaiting(st: State, id: nat, err: LoaderError)
    requires Tables(st) && IdsInRange(st) && Counted(st, multiset{}) && Awaiting(st, {id}) && AllSettled(st, map[])
    ensures var r := FailAffected(st, id, err);
      Counted(r, multiset{}) && Awaiting(r, {}) && AllSettled(r, map[])
  {
    var r := FailAffected(st, id, err);
    RootAffected(st.inverse, id);
    forall x, j | x in r.modules && !r.modules[x].complete && 0 <= j < |r.history.declared[x]|
      ensures Settled(r, x, j)
    {
      assert Settled(st, x, j);
    }
  }

  lemma FailAffectedKeeps(st: State, id: nat, err: LoaderError)
    requires Invariant(st, multiset{}, {id}, map[])
    ensures Tables(st) && Stable(FailAffected(st, id, err))
  {
    hide FailAffected, Topological, PassedExports, Ordered, Counted, Awaiting, AllSettled, IdsInRange, Backed, Tables, Acyclic;
    FailAffectedTables(st, id, err);
    FailAffectedOrdered(st, id, err);
    FailAffectedHistory(st, id, err);
    FailAffectedWaiting(st, id, err);
    assert FailAffected(st, id, err).inverse == st.inverse by { FailAffectedSameWaiters(st, id, err); }
  }

  lemma FailAffectedSameWaiters(st: State, id: nat, err: LoaderError)
    requires Tables(st)
    ensures FailAffected(st, id, err).inverse == st.inverse
  {
  }

  // A module that failing starts from: the one that is there, or the empty one that stands for it
  lemma WithModuleKeeps(st: State, id: nat)
    requires Stable(st) && id < st.maxId
    ensures Tables(st) && Invariant(WithModule(st, id), multiset{}, {id}, map[])
  {
    if id !in st.modules {
      AddModuleKeeps(st, id, [], Factory(Returned(None, false)), false);
      ResolvedCanComplete(AddModule(st, id, [], Factory(Returned(None, false)), false), id);
    }
  }

  lemma OnLoadErrorKeeps(st: State, id: nat, err: LoaderError)
    requires Stable(st) && id < st.maxId
    ensures Stable(OnLoadError(st, id, err))
  {
    hide Invariant, Tables, WithModule, FailAffected, Notified;
    WithModuleKeeps(st, id);
    FailAffectedKeeps(WithModule(st, id), id, err);
    EventsKeepInvariant(FailAffected(WithModule(st, id), id, err), OnLoadError(st, id, err), multiset{}, {}, map[]);
  }
}
