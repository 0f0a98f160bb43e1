// What holds of every run of the loader, whatever is defined, loaded or failing and in
// whatever order.

module LoaderTheorems {
  import opened Options
  import opened LoaderState
  import opened LoaderInvariant
  import opened LoaderResolve
  import opened LoaderProgress

  // A script or plugin that loads, and a require call, define a module; a script that cannot
  // be loaded reports an error.
  datatype Step =
    | DefineStep(maxId: nat, id: nat, deps: seq<Dependency>, callback: Callback, hasErrorback: bool)
    | LoadErrorStep(id: nat, cause: int)

  ghost predicate Enabled(st: State, step: Step) {
    match step
    case DefineStep(maxId, id, deps, _, _) => CanDefine(st, maxId, id, deps)
    case LoadErrorStep(id, _) => id < st.maxId
  }

  ghost function Apply(st: State, step: Step): State
    requires Tables(st)
  {
    match step
    case DefineStep(maxId, id, deps, callback, hasErrorback) => Define(st, maxId, id, deps, callback, hasErrorback)
    case LoadErrorStep(id, cause) => OnLoadError(st, id, LoadFailure(id, cause))
  }

  ghost predicate Takes(st: State, step: Step, r: State) {
    Tables(st) && Enabled(st, step) && r == Apply(st, step)
  }

  ghost predicate IsRun(states: seq<State>, steps: seq<Step>) {
    && |states| == |steps| + 1
    && states[0] == INITIAL
    && forall i :: 0 <= i < |steps| ==> Takes(states[i], steps[i], states[i + 1])
  }

  ghost predicate Reachable(st: State) {
    exists states, steps :: IsRun(states, steps) && states[|steps|] == st
  }

  lemma StepReaches(st: State, step: Step, r: State)
    requires Reachable(st) && Takes(st, step, r)
    ensures Reachable(r)
  {
    hide Takes;
    var states, steps :| IsRun(states, steps) && states[|steps|] == st;
    var states', steps' := states + [r], steps + [step];
    forall i | 0 <= i < |steps'|
      ensures Takes(states'[i], steps'[i], states'[i + 1])
    {
      if i < |steps| {
        assert Takes(states[i], steps[i], states[i + 1]);
      }
    }
    assert IsRun(states', steps') && states'[|steps'|] == r;
  }

  // ----- the invariant over runs -----

  lemma InitialStable()
    ensures Stable(INITIAL) && Requested(INITIAL, {})
  {
    forall ids: set<nat> | ids != {}
      ensures HasSink(INITIAL.inverse, ids)
    {
      var m :| m in ids;
      assert WaitsForNone(INITIAL.inverse, m, ids);
    }
  }

  lemma StepKeepsStable(st: State, step: Step, r: State)
    requires Stable(st) && Requested(st, {}) && Takes(st, step, r)
    ensures Stable(r) && Requested(r, {}) && Advances(st, r)
  {
    hide Stable, Requested, Advances;
    match step {
      case DefineStep(maxId, id, deps, callback, hasErrorback) =>
        DefineKeeps(st, maxId, id, deps, callback, hasErrorback);
        DefineRequested(st, maxId, id, deps, callback, hasErrorback);
        DefineAdvances(st, maxId, id, deps, callback, hasErrorback);
      case LoadErrorStep(id, cause) =>
        var err := LoadFailure(id, cause);
        OnLoadErrorKeeps(st, id, err);
        OnLoadErrorRequested(st, id, err);
        OnLoadErrorAdvances(st, id, err);
    }
  }

  lemma {:induction false} RunStable(states: seq<State>, steps: seq<Step>, i: nat)
    requires IsRun(states, steps) && i < |states|
    ensures Stable(states[i]) && Requested(states[i], {})
  {
    hide Stable, Requested, Advances;
    if i == 0 {
      InitialStable();
    } else {
      RunStable(states, steps, i - 1);
      assert Takes(states[i - 1], steps[i - 1], states[i]);
      StepKeepsStable(states[i - 1], steps[i - 1], states[i]);
    }
  }

  lemma {:induction false} RunAdvances(states: seq<State>, steps: seq<Step>, i: nat, j: nat)
    requires IsRun(states, steps) && i <= j < |states|
    ensures Advances(states[i], states[j])
  {
    hide Stable, Requested, Advances, Enabled, Apply;
    if i == j {
      RunStable(states, steps, i);
      StableAdvances(states[i]);
    } else {
      RunAdvances(states, steps, i, j - 1);
      RunStable(states, steps, j - 1);
      assert Takes(states[j - 1], steps[j - 1], states[j]);
      StepKeepsStable(states[j - 1], steps[j - 1], states[j]);
      AdvancesTransitive(states[i], states[j - 1], states[j]);
    }
  }

  lemma StableAdvances(st: State)
    requires Stable(st)
    ensures Advances(st, st)
  {
    hide Invariant, Advances;
    AdvancesReflexive(st, multiset{}, {});
  }

  // ----- conservation of waiting -----

  // Between steps the counter of a module that neither completed nor failed is the number of
  // times it occurs in the waiter lists, and is not zero.
  lemma WaitingConserved(states: seq<State>, steps: seq<Step>, i: nat, m: nat)
    requires IsRun(states, steps) && i < |states|
    requires var st := states[i]; m in st.modules && !st.modules[m].complete
    ensures var st := states[i]; st.modules[m].unresolved == WaitCount(st.inverse, st.maxId, m) > 0
    ensures var st := states[i]; forall d :: m in Waiters(st.inverse, d) ==> DependencyEdge(st.modules, m, d)
  {
    RunStable(states, steps, i);
  }

  // ----- factories -----

  // No factory runs twice.
  lemma InvokedAtMostOnce(states: seq<State>, steps: seq<Step>, i: nat)
    requires IsRun(states, steps) && i < |states|
    ensures var order := states[i].history.order; forall j, k :: 0 <= j < k < |order| ==> order[j] != order[k]
  {
    RunStable(states, steps, i);
  }

  ghost predicate Failed(st: State, m: nat) {
    IsComplete(st, m) && m !in st.history.order
  }

  // No factory runs for a module that failed before.
  lemma NeverInvokedAfterFailure(states: seq<State>, steps: seq<Step>, i: nat, j: nat, m: nat)
    requires IsRun(states, steps) && i <= j < |states|
    requires Failed(states[i], m)
    ensures Failed(states[j], m) && states[j].modules[m].error.Some?
  {
    RunStable(states, steps, j);
    RunAdvances(states, steps, i, j);
    StaysFailed(states[i], states[j], m);
  }

  lemma StaysFailed(st: State, r: State, m: nat)
    requires Advances(st, r) && Failed(st, m)
    ensures Failed(r, m)
  {
    forall k | 0 <= k < |r.history.order|
      ensures r.history.order[k] != m
    {
      if k < |st.history.order| {
        assert r.history.order[k] == st.history.order[k];
      }
    }
  }

  // The modules complete in an order in which every dependency, except those dropped to break
  // a cycle, comes before its dependents.
  lemma CompletionTopological(states: seq<State>, steps: seq<Step>, i: nat, k: nat, n: nat)
    requires IsRun(states, steps) && i < |states|
    requires var h := states[i].history;
      k < |h.order| && h.order[k] in h.declared && n < |h.declared[h.order[k]]|
    requires var h := states[i].history;
      !h.declared[h.order[k]][n].Special() && (h.order[k], n) !in h.broken
    ensures var h := states[i].history; h.declared[h.order[k]][n].Id() in h.order[..k]
  {
    RunStable(states, steps, i);
    assert DoneBefore(states[i].history, k, n);
  }

  // What a factory was passed for such a dependency is what that dependency exports in every
  // later state: no factory sees a half-built dependency.
  lemma PassedExportsAreFinal(states: seq<State>, steps: seq<Step>, i: nat, j: nat, m: nat, n: nat)
    requires IsRun(states, steps) && i <= j < |states|
    requires m in states[i].history.order
    requires m in states[i].history.declared && n < |states[i].history.declared[m]|
    requires !states[i].history.declared[m][n].Special() && (m, n) !in states[i].history.broken
    ensures m in states[i].history.passed && n < |states[i].history.passed[m]|
    ensures var d := states[i].history.declared[m][n].Id();
      d in states[j].modules && states[i].history.passed[m][n] == states[j].modules[d].exports
  {
    RunStable(states, steps, i);
    RunAdvances(states, steps, i, j);
    var st := states[i];
    var k :| 0 <= k < |st.history.order| && st.history.order[k] == m;
    assert DoneBefore(st.history, k, n);
    assert PassedExport(st, m, n);
    var d := st.history.declared[m][n].Id();
    assert d in st.history.order;
    assert SameOutcome(st, states[j], d);
  }

  // ----- no deadlock -----

  lemma CycleHasNoSink(inverse: map<nat, seq<nat>>, p: seq<nat>)
    requires |p| >= 2 && IsWaitChain(inverse, p) && p[0] == p[|p| - 1]
    ensures !Acyclic(inverse)
  {
    hide Waiters;
    var ids := set i | 0 <= i < |p| :: p[i];
    assert p[0] in ids;
    forall m | m in ids
      ensures !WaitsForNone(inverse, m, ids)
    {
      var i :| 0 <= i < |p| && p[i] == m;
      var k := if i == 0 then |p| - 1 else i;
      OnCycle(inverse, p, k);
      assert p[k - 1] in ids;
    }
    assert !HasSink(inverse, ids);
  }

  lemma OnCycle(inverse: map<nat, seq<nat>>, p: seq<nat>, k: nat)
    requires IsWaitChain(inverse, p) && 0 < k < |p|
    ensures p[k] in Waiters(inverse, p[k - 1])
  {
    assert WaitEdge(inverse, p[k - 1], p[k - 1 + 1]);
  }

  // The waits-for graph of a reachable state has no cycle.
  lemma WaitsForAcyclic(states: seq<State>, steps: seq<Step>, i: nat, p: seq<nat>)
    requires IsRun(states, steps) && i < |states|
    requires |p| >= 2 && IsWaitChain(states[i].inverse, p)
    ensures p[0] != p[|p| - 1]
  {
    RunStable(states, steps, i);
    if p[0] == p[|p| - 1] {
      CycleHasNoSink(states[i].inverse, p);
    }
  }

  lemma ChainPrepend(inverse: map<nat, seq<nat>>, d: nat, x: nat, m: nat)
    requires x in Waiters(inverse, d) && Affected(inverse, x, m)
    ensures Affected(inverse, d, m)
  {
    var p :| IsWaitChain(inverse, p) && p[0] == x && p[|p| - 1] == m;
    var q := [d] + p;
    forall i | 0 <= i < |q| - 1
      ensures WaitEdge(inverse, q[i], q[i + 1])
    {
      if i > 0 {
        assert WaitEdge(inverse, p[i - 1], p[i]);
      }
    }
    assert q[|q| - 1] == m;
  }

  // d can no longer release the modules that wait for it by itself.
  ghost predicate Blocked(st: State, d: nat) {
    d !in st.modules || Failed(st, d)
  }

  lemma SomeoneHoldsUp(st: State, m: nat)
    requires Stable(st) && m in st.modules && !st.modules[m].complete
    ensures exists d :: d != m && Blocked(st, d) && Affected(st.inverse, d, m)
  {
    var held := set x | x in st.modules && !st.modules[x].complete && Affected(st.inverse, x, m);
    RootAffected(st.inverse, m);
    assert HasSink(st.inverse, held);
    var x :| x in held && WaitsForNone(st.inverse, x, held);
    WaitCountMember(st.inverse, st.maxId, x);
    var d :| 0 <= d < st.maxId && x in Waiters(st.inverse, d);
    ChainPrepend(st.inverse, d, x, m);
  }

  // Cycles never hold a module up: a module that did not fail is incomplete exactly when it
  // waits, through a chain of waiting modules, for an id that is not defined or has failed.
  lemma IncompleteIffHeldUp(states: seq<State>, steps: seq<Step>, i: nat, m: nat)
    requires IsRun(states, steps) && i < |states|
    requires m in states[i].modules && !Failed(states[i], m)
    ensures !states[i].modules[m].complete <==>
      exists d :: d != m && Blocked(states[i], d) && Affected(states[i].inverse, d, m)
  {
    RunStable(states, steps, i);
    var st := states[i];
    if st.modules[m].complete {
      forall d | d != m && Affected(st.inverse, d, m)
        ensures false
      {
        CompletedUnaffected(st, d, m);
      }
    } else {
      SomeoneHoldsUp(st, m);
    }
  }

  ghost predicate ErrorFree(st: State) {
    forall m :: m in st.modules ==> !Failed(st, m)
  }

  ghost predicate AllComplete(st: State) {
    forall m :: m in st.modules ==> st.modules[m].complete
  }

  ghost predicate AwaitedDefined(st: State) {
    forall d: nat :: Waiters(st.inverse, d) != [] ==> d in st.modules
  }

  // Without failures everything is complete as soon as every awaited id is defined, whatever
  // cycles the dependencies form.
  lemma NoDeadlock(states: seq<State>, steps: seq<Step>, i: nat)
    requires IsRun(states, steps) && i < |states| && ErrorFree(states[i])
    ensures AllComplete(states[i]) <==> AwaitedDefined(states[i])
  {
    RunStable(states, steps, i);
    var st := states[i];
    if AwaitedDefined(st) {
      forall m | m in st.modules
        ensures st.modules[m].complete
      {
        if !st.modules[m].complete {
          SomeoneHoldsUp(st, m);
          var d :| d != m && Blocked(st, d) && Affected(st.inverse, d, m);
          AffectedHasWaiters(st.inverse, d, m);
        }
      }
    }
    if AllComplete(st) {
      forall d: nat
        ensures Waiters(st.inverse, d) == []
      {
        if |Waiters(st.inverse, d)| > 0 {
          WaiterNotDone(st, Waiters(st.inverse, d)[0], d);
        }
      }
    }
  }

  lemma WaiterNotDone(st: State, m: nat, d: nat)
    requires Backed(st) && Ordered(st) && m in Waiters(st.inverse, d)
    ensures m in st.modules && m !in st.history.order
  {
    assert DependencyEdge(st.modules, m, d);
  }

  lemma AffectedHasWaiters(inverse: map<nat, seq<nat>>, d: nat, m: nat)
    requires Affected(inverse, d, m) && d != m
    ensures Waiters(inverse, d) != []
  {
    var p :| IsWaitChain(inverse, p) && p[0] == d && p[|p| - 1] == m;
    assert WaitEdge(inverse, p[0], p[1]);
  }

  // ----- loads -----

  // Every awaited id is defined, or was asked for, or is queued behind a plugin that was asked
  // for and did not complete; and nothing is asked for twice.
  lemma NothingLost(states: seq<State>, steps: seq<Step>, i: nat, d: nat)
    requires IsRun(states, steps) && i < |states|
    ensures var st := states[i]; Waiters(st.inverse, d) != [] ==>
      Asked(st, d) || exists p :: QueuedBehind(st, d, p) && Asked(st, p) && p !in st.history.order
    ensures var q := states[i].requests; forall j, k :: 0 <= j < k < |q| ==> q[j].id != q[k].id
  {
    RunStable(states, steps, i);
    var st := states[i];
    if Waiters(st.inverse, d) != [] {
      assert Waiters(st.inverse, d)[0] in Waiters(st.inverse, d);
      assert OnItsWay(st, d, {});
    }
  }

  // ----- load failures -----

  // A load failure fails exactly the modules that wait for it, directly or not, and beyond its
  // root none of them had completed.
  lemma LoadErrorReach(st: State, id: nat, err: LoaderError, x: nat)
    requires Stable(st) && id < st.maxId && x in st.modules
    ensures var r := OnLoadError(st, id, err);
      && x in r.modules
      && (Affected(st.inverse, id, x) ==> r.modules[x].complete && r.modules[x].error == Some(err))
      && (!Affected(st.inverse, id, x) ==> r.modules[x] == st.modules[x])
      && (x != id && Affected(st.inverse, id, x) ==> x !in st.history.order && Failed(r, x))
  {
    hide Invariant, Affected;
    if x in st.history.order && x != id {
      StableOrdered(st);
      CompletedUnaffected(st, id, x);
    }
  }

  lemma StableOrdered(st: State)
    requires Stable(st)
    ensures Backed(st) && Ordered(st)
  {
  }
}
