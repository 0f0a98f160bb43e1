// Which dependencies are dropped to break a cycle (src/vs/loader.js:1759-1768): only those that lie
// on a cycle of the dependencies as they were declared.

module LoaderDropped {
  import opened Options
  import opened LoaderState
  import opened LoaderTheorems

  // ----- paths over what was declared -----

  ghost predicate DeclaredEdge(h: History, a: nat, b: nat) {
    a in h.declared && exists i :: 0 <= i < |h.declared[a]| && h.declared[a][i].Id() == b
  }

  ghost predicate IsDeclaredPath(h: History, p: seq<nat>) {
    |p| >= 2 && forall i :: 0 <= i < |p| - 1 ==> DeclaredEdge(h, p[i], p[i + 1])
  }

  ghost predicate HasDeclaredPath(h: History, from: nat, to: nat) {
    exists p :: IsDeclaredPath(h, p) && p[0] == from && p[|p| - 1] == to
  }

  // Dependency i of m leads back to m.
  ghost predicate OnDeclaredCycle(h: History, m: nat, i: nat) {
    && m in h.declared && i < |h.declared[m]|
    && !h.declared[m][i].Special() && HasDeclaredPath(h, h.declared[m][i].Id(), m)
  }

  ghost predicate DroppedOnCycles(h: History) {
    forall m, i :: (m, i) in h.broken ==> OnDeclaredCycle(h, m, i)
  }

  // The modules are those declared, and what a module has of its dependencies is what was declared.
  ghost predicate AsDeclared(st: State) {
    && st.history.declared.Keys == st.modules.Keys
    && (forall m :: m in st.modules && st.modules[m].dependencies.Some? ==>
          st.modules[m].dependencies.value == st.history.declared[m])
  }

  ghost predicate Dropping(st: State) {
    AsDeclared(st) && DroppedOnCycles(st.history) && (st.hasCycle <==> st.history.broken != {})
  }

  lemma PathDeclared(st: State, from: nat, to: nat)
    requires AsDeclared(st) && HasDependencyPath(st.modules, from, to)
    ensures HasDeclaredPath(st.history, from, to)
  {
    var p :| |p| >= 2 && p[0] == from && p[|p| - 1] == to && IsDependencyPath(st.modules, p);
    forall i | 0 <= i < |p| - 1
      ensures DeclaredEdge(st.history, p[i], p[i + 1])
    {
      assert DependencyEdge(st.modules, p[i], p[i + 1]);
    }
    assert IsDeclaredPath(st.history, p);
  }

  ghost predicate MoreDeclared(h: History, later: History) {
    forall m :: m in h.declared ==> m in later.declared && later.declared[m] == h.declared[m]
  }

  lemma PathStays(h: History, later: History, from: nat, to: nat)
    requires MoreDeclared(h, later) && HasDeclaredPath(h, from, to)
    ensures HasDeclaredPath(later, from, to)
  {
    var p :| IsDeclaredPath(h, p) && p[0] == from && p[|p| - 1] == to;
    forall i | 0 <= i < |p| - 1
      ensures DeclaredEdge(later, p[i], p[i + 1])
    {
      assert DeclaredEdge(h, p[i], p[i + 1]);
    }
    assert IsDeclaredPath(later, p);
  }

  lemma CyclesStay(h: History, later: History)
    requires DroppedOnCycles(h) && MoreDeclared(h, later) && later.broken == h.broken
    ensures DroppedOnCycles(later)
  {
    hide HasDeclaredPath;
    forall m, i | (m, i) in later.broken
      ensures OnDeclaredCycle(later, m, i)
    {
      assert OnDeclaredCycle(h, m, i);
      PathStays(h, later, h.declared[m][i].Id(), m);
    }
  }

  // ----- transitions that drop nothing -----

  ghost predicate DropsNothing(st: State, r: State) {
    && r.modules.Keys == st.modules.Keys && r.hasCycle == st.hasCycle
    && r.history.declared == st.history.declared && r.history.broken == st.history.broken
    && (forall m :: m in st.modules ==> r.modules[m].dependencies.None? || r.modules[m].dependencies == st.modules[m].dependencies)
  }

  lemma DropsNothingKeeps(st: State, r: State)
    requires Dropping(st) && DropsNothing(st, r)
    ensures Dropping(r)
  {
    hide OnDeclaredCycle;
    CyclesStay(st.history, r.history);
  }

  lemma DropsNothingTransitive(a: State, b: State, c: State)
    requires DropsNothing(a, b) && DropsNothing(b, c)
    ensures DropsNothing(a, c)
  {
  }

  lemma {:induction false} CompleteDropsNothing(st: State, m: nat)
    requires Tables(st) && m in st.modules
    ensures DropsNothing(st, CompleteModule(st, m))
    decreases Incomplete(st), 1, 0
  {
    if !st.modules[m].complete {
      var finished, waiters := Finish(st, m), Waiters(st.inverse, m);
      assert m in Incomplete(st) && m !in Incomplete(finished);
      assert DropsNothing(st, finished);
      hide DropsNothing;
      ReleaseDropsNothing(finished, waiters);
      var r := Release(finished, waiters);
      DropsNothingTransitive(st, finished, r);
      assert DropsNothing(r, CompleteModule(st, m)) by { SameModules(r, CompleteModule(st, m)); }
      DropsNothingTransitive(st, r, CompleteModule(st, m));
    }
  }

  lemma SameModules(st: State, r: State)
    requires r.modules == st.modules && r.hasCycle == st.hasCycle && r.history == st.history
    ensures DropsNothing(st, r)
  {
  }

  lemma {:induction false} ReleaseDropsNothing(st: State, waiters: seq<nat>)
    requires Tables(st) && forall k :: 0 <= k < |waiters| ==> waiters[k] in st.modules
    ensures DropsNothing(st, Release(st, waiters))
    decreases Incomplete(st), 2, |waiters|
  {
    hide DropsNothing;
    if waiters == [] {
      SameModules(st, st);
    } else {
      ReleaseOneDropsNothing(st, waiters[0]);
      var s := ReleaseOne(st, waiters[0]);
      ReleaseDropsNothing(s, waiters[1..]);
      DropsNothingTransitive(st, s, Release(s, waiters[1..]));
    }
  }

  lemma {:induction false} ReleaseOneDropsNothing(st: State, x: nat)
    requires Tables(st) && x in st.modules
    ensures DropsNothing(st, ReleaseOne(st, x))
    decreases Incomplete(st), 1, 1
  {
    var s := Decrement(st, x);
    assert DropsNothing(st, s);
    hide DropsNothing;
    assert Incomplete(s) == Incomplete(st);
    if s.modules[x].unresolved == 0 {
      CompleteDropsNothing(s, x);
      DropsNothingTransitive(st, s, CompleteModule(s, x));
    }
  }

  // ----- resolution -----

  lemma BreakDropsOnCycle(st: State, m: nat, i: nat)
    requires Dropping(st) && Resolving(st, m, i) && i < |st.modules[m].dependencies.value|
    requires !DepAt(st, m, i).Special() && HasDependencyPath(st.modules, DepAt(st, m, i).Id(), m)
    ensures Dropping(BreakCycle(st, m, i))
  {
    var r := BreakCycle(st, m, i);
    PathDeclared(st, DepAt(st, m, i).Id(), m);
    hide HasDependencyPath;
    forall x, j | (x, j) in r.history.broken
      ensures OnDeclaredCycle(r.history, x, j)
    {
      PathStays(st.history, r.history, st.history.declared[x][j].Id(), x);
    }
    assert (m, i) in r.history.broken;
  }

  lemma StepDrops(st: State, m: nat, i: nat)
    requires Tables(st) && Resolving(st, m, i) && i < |st.modules[m].dependencies.value| && !MeetsFailure(st, m, i)
    requires Dropping(st)
    ensures Dropping(ResolveStep(st, m, i))
  {
    hide Dropping, Tables;
    var dep, r := DepAt(st, m, i), ResolveStep(st, m, i);
    if !dep.Special() && !IsComplete(st, dep.Id()) && HasDependencyPath(st.modules, dep.Id(), m) {
      BreakDropsOnCycle(st, m, i);
    } else {
      assert DropsNothing(st, r);
      DropsNothingKeeps(st, r);
    }
  }

  lemma {:induction false} ResolveDrops(st: State, m: nat, i: nat)
    requires Tables(st) && Resolving(st, m, i) && Dropping(st)
    ensures Dropping(Resolve(st, m, i))
    decreases |st.modules[m].dependencies.value| - i
  {
    hide Dropping, DropsNothing, Tables;
    var r := Resolve(st, m, i);
    if i == |st.modules[m].dependencies.value| {
      if st.modules[m].unresolved == 0 {
        CompleteDropsNothing(st, m);
        DropsNothingKeeps(st, r);
      }
    } else if MeetsFailure(st, m, i) {
      FailDropsNothing(st, m, st.modules[DepAt(st, m, i).Id()].error.value);
      DropsNothingKeeps(st, r);
    } else {
      StepDrops(st, m, i);
      ResolveDrops(ResolveStep(st, m, i), m, i + 1);
    }
  }

  lemma FailDropsNothing(st: State, m: nat, err: LoaderError)
    requires m in st.modules
    ensures DropsNothing(st, Fail(st, m, err))
  {
  }

  // ----- runs -----

  lemma AddModuleDrops(st: State, id: nat, deps: seq<Dependency>, callback: Callback, hasErrorback: bool)
    requires Dropping(st) && id !in st.modules
    ensures Dropping(AddModule(st, id, deps, callback, hasErrorback))
  {
    hide OnDeclaredCycle;
    CyclesStay(st.history, AddModule(st, id, deps, callback, hasErrorback).history);
  }

  lemma FailAffectedDropsNothing(st: State, id: nat, err: LoaderError)
    requires Tables(st)
    ensures DropsNothing(st, FailAffected(st, id, err))
  {
    hide Affected, Notified, Tables;
  }

  lemma ReportDropsNothing(st: State, id: nat, err: LoaderError, r: State)
    ensures DropsNothing(r, ReportUnheard(st, id, err, r))
  {
    hide Notified;
  }

  lemma LoadErrorDrops(st: State, id: nat, err: LoaderError)
    requires Tables(st) && Dropping(st)
    ensures Dropping(OnLoadError(st, id, err))
  {
    hide FailAffected, ReportUnheard, Dropping, DropsNothing, Tables;
    var s := WithModule(st, id);
    if id !in st.modules {
      AddModuleDrops(st, id, [], Factory(Returned(None, false)), false);
    }
    var failed := FailAffected(s, id, err);
    FailAffectedDropsNothing(s, id, err);
    DropsNothingKeeps(s, failed);
    ReportDropsNothing(st, id, err, failed);
    DropsNothingKeeps(failed, OnLoadError(st, id, err));
  }

  lemma StepKeepsDropping(st: State, step: Step, r: State)
    requires Dropping(st) && Takes(st, step, r)
    ensures Dropping(r)
  {
    hide Dropping, OnLoadError;
    match step
    case DefineStep(maxId, id, deps, callback, hasErrorback) =>
      var s := st.(maxId := maxId);
      assert Dropping(s) by {
        assert DropsNothing(st, s);
        DropsNothingKeeps(st, s);
      }
      if id !in st.modules {
        AddModuleDrops(s, id, deps, callback, hasErrorback);
        ResolveDrops(AddModule(s, id, deps, callback, hasErrorback), id, 0);
      }
    case LoadErrorStep(id, cause) =>
      LoadErrorDrops(st, id, LoadFailure(id, cause));
  }

  lemma {:induction false} RunDrops(states: seq<State>, steps: seq<Step>, i: nat)
    requires IsRun(states, steps) && i < |states|
    ensures Dropping(states[i])
  {
    hide Takes;
    if i > 0 {
      hide Dropping;
      RunDrops(states, steps, i - 1);
      StepKeepsDropping(states[i - 1], steps[i - 1], states[i]);
    }
  }

  // A dependency that was dropped leads back to its module over declared dependencies; the loader
  // notes a cycle exactly if it dropped something.
  lemma DroppedOnCycle(states: seq<State>, steps: seq<Step>, i: nat, m: nat, n: nat)
    requires IsRun(states, steps) && i < |states|
    ensures states[i].hasCycle <==> states[i].history.broken != {}
    ensures (m, n) in states[i].history.broken ==> OnDeclaredCycle(states[i].history, m, n)
  {
    hide IsRun, OnDeclaredCycle;
    RunDrops(states, steps, i);
  }

  // So every dependency on no cycle completes before its module, whatever other cycles there are ...
  lemma TopologicalOffCycles(states: seq<State>, steps: seq<Step>, i: nat, k: nat, n: nat)
    requires IsRun(states, steps) && i < |states|
    requires var h := states[i].history;
      k < |h.order| && h.order[k] in h.declared && n < |h.declared[h.order[k]]|
    requires var h := states[i].history;
      !h.declared[h.order[k]][n].Special() && !HasDeclaredPath(h, h.declared[h.order[k]][n].Id(), h.order[k])
    ensures var h := states[i].history; h.declared[h.order[k]][n].Id() in h.order[..k]
  {
    hide IsRun, HasDeclaredPath;
    DroppedOnCycle(states, steps, i, states[i].history.order[k], n);
    CompletionTopological(states, steps, i, k, n);
  }

  // ... and what its module is passed for it is final.
  lemma PassedFinalOffCycles(states: seq<State>, steps: seq<Step>, i: nat, j: nat, m: nat, n: nat)
    requires IsRun(states, steps) && i <= j < |states|
    requires var h := states[i].history;
      m in h.order && m in h.declared && n < |h.declared[m]| && !h.declared[m][n].Special() && !HasDeclaredPath(h, h.declared[m][n].Id(), m)
    ensures m in states[i].history.passed && n < |states[i].history.passed[m]|
    ensures var d := states[i].history.declared[m][n].Id();
      d in states[j].modules && states[i].history.passed[m][n] == states[j].modules[d].exports
  {
    hide IsRun, HasDeclaredPath;
    DroppedOnCycle(states, steps, i, m, n);
    PassedExportsAreFinal(states, steps, i, j, m, n);
  }

  ghost predicate DeclaredAcyclic(h: History) {
    forall m :: !HasDeclaredPath(h, m, m)
  }

  // Without cycles among the declarations nothing is dropped.
  lemma AcyclicDropsNothing(states: seq<State>, steps: seq<Step>, i: nat)
    requires IsRun(states, steps) && i < |states| && DeclaredAcyclic(states[i].history)
    ensures states[i].history.broken == {} && !states[i].hasCycle
  {
    hide IsRun, HasDeclaredPath;
    var h := states[i].history;
    if h.broken != {} {
      var dropped :| dropped in h.broken;
      DroppedOnCycle(states, steps, i, dropped.0, dropped.1);
      CycleCloses(h, dropped.0, dropped.1);
      assert false;
    }
    DroppedOnCycle(states, steps, i, 0, 0);
  }

  lemma CycleCloses(h: History, m: nat, n: nat)
    requires OnDeclaredCycle(h, m, n)
    ensures HasDeclaredPath(h, m, m)
  {
    var d := h.declared[m][n].Id();
    var p :| IsDeclaredPath(h, p) && p[0] == d && p[|p| - 1] == m;
    var q := [m] + p;
    forall i | 0 <= i < |q| - 1
      ensures DeclaredEdge(h, q[i], q[i + 1])
    {
      if i > 0 {
        assert DeclaredEdge(h, p[i - 1], p[i]);
      }
    }
    assert IsDeclaredPath(h, q);
  }
}
