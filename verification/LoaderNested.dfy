// Definitions inside definitions: a plugin whose `load` function calls back at once, as those of
// src/vs/css.ts:71-78 and src/vs/nls.ts:124-155 do, defines a module while _resolve
// (src/vs/loader.js:1731-1795) is in the middle of another one.

module LoaderNested {
  import opened LoaderState
  import opened LoaderInvariant
  import opened LoaderResolve
  import LoaderDropped

  // A definition, and the list of those that are made inside each of its iterations
  datatype Nested = Nested(
    maxId: nat,
    id: nat,
    deps: seq<Dependency>,
    callback: Callback,
    hasErrorback: bool,
    inside: seq<Inside>)

  datatype Inside = Inside(definitions: seq<Nested>)

  // The iteration asks for the dependency; only then something can call back.
  ghost predicate Asks(st: State, m: nat, i: nat)
    requires Resolving(st, m, i) && i < |st.modules[m].dependencies.value|
  {
    var dep := DepAt(st, m, i);
    !dep.Special() && !IsComplete(st, dep.Id()) && !HasDependencyPath(st.modules, dep.Id(), m)
  }

  // defineModule; a definition with ids that are not in use yet, or are no ids, is not made.
  ghost function DefineNested(st: State, d: Nested): (r: State)
    requires Tables(st)
    ensures Tables(r)
    decreases d, 2, 0
  {
    var s := st.(maxId := d.maxId);
    if !CanDefine(st, d.maxId, d.id, d.deps) then st
    else if d.id in st.modules then s
    else ResolveNested(AddModule(s, d.id, d.deps, d.callback, d.hasErrorback), d, 0)
  }

  // _resolve; inside its last iteration the module may have completed.
  ghost function ResolveNested(st: State, d: Nested, i: nat): (r: State)
    requires Tables(st)
    ensures Tables(r)
    decreases d, 1, |d.inside| - i
  {
    if !Resolving(st, d.id, i) || st.modules[d.id].complete then st
    else if i >= |d.inside| || i == |st.modules[d.id].dependencies.value| || MeetsFailure(st, d.id, i) then Resolve(st, d.id, i)
    else
      var s := ResolveStep(st, d.id, i);
      ResolveNested(if Asks(st, d.id, i) then DefineInside(s, d, i, 0) else s, d, i + 1)
  }

  // The definitions inside the i-th iteration, from the k-th on
  ghost function DefineInside(st: State, d: Nested, i: nat, k: nat): (r: State)
    requires Tables(st) && i < |d.inside| && k <= |d.inside[i].definitions|
    ensures Tables(r)
    decreases d, 0, |d.inside[i].definitions| - k
  {
    if k == |d.inside[i].definitions| then st else DefineInside(DefineNested(st, d.inside[i].definitions[k]), d, i, k + 1)
  }

  // ----- what was declared stays -----

  lemma {:induction false} ResolveDeclared(st: State, m: nat, i: nat)
    requires Tables(st) && Resolving(st, m, i)
    ensures Resolve(st, m, i).history.declared == st.history.declared
    decreases |st.modules[m].dependencies.value| - i
  {
    hide Tables;
    if i == |st.modules[m].dependencies.value| {
      LoaderDropped.CompleteDropsNothing(st, m);
    } else if !MeetsFailure(st, m, i) {
      ResolveDeclared(ResolveStep(st, m, i), m, i + 1);
    }
  }

  // ----- the invariant -----

  ghost predicate OwedOpen(owed: multiset<nat>, open: map<nat, nat>) {
    forall x :: x in owed ==> x in open
  }

  // What is known between two iterations of all resolutions that are under way
  ghost predicate Between(st: State, owed: multiset<nat>, open: map<nat, nat>) {
    Tables(st) && Invariant(st, owed, {}, open) && Resuming(st, owed, open) && OwedOpen(owed, open)
  }

  ghost predicate Keeps(st: State, r: State, owed: multiset<nat>, open: map<nat, nat>) {
    Between(r, owed, open) && LoaderDropped.MoreDeclared(st.history, r.history)
  }

  lemma KeepsTransitive(a: State, b: State, c: State, owed: multiset<nat>, open: map<nat, nat>)
    requires Keeps(a, b, owed, open) && Keeps(b, c, owed, open)
    ensures Keeps(a, c, owed, open)
  {
  }

  // Before its last iterations the module counts as open, ...
  lemma OpensModule(st: State, m: nat, i: nat, owed: multiset<nat>, open: map<nat, nat>)
    requires Tables(st) && Amid(st, m, i, owed, open) && i < |st.modules[m].dependencies.value|
    requires OwedOpen(owed, open)
    ensures Between(st, owed[m := |st.modules[m].dependencies.value| - i], open[m := i])
  {
    hide Tables, Invariant, Resuming;
    OpensCold(st, m, i, owed, open);
    OpensResuming(st, m, |st.modules[m].dependencies.value| - i, i, owed, open);
  }

  lemma OpensCold(st: State, m: nat, i: nat, owed: multiset<nat>, open: map<nat, nat>)
    requires Amid(st, m, i, owed, open) && i < |st.modules[m].dependencies.value|
    ensures Invariant(st, owed[m := |st.modules[m].dependencies.value| - i], {}, open[m := i])
  {
    hide Tables, IdsInRange, Backed, Ordered, Topological, PassedExports, Acyclic, AllSettled, Counted;
    OwedPositive(st, m, i, owed, open);
  }

  lemma OpensResuming(st: State, m: nat, n: nat, i: nat, owed: multiset<nat>, open: map<nat, nat>)
    requires Resuming(st, owed, open) && m in st.modules && !st.modules[m].complete && n > 0
    requires OwedOpen(owed, open)
    ensures Resuming(st, owed[m := n], open[m := i]) && OwedOpen(owed[m := n], open[m := i])
  {
  }

  lemma OwedPositive(st: State, m: nat, i: nat, owed: multiset<nat>, open: map<nat, nat>)
    requires Amid(st, m, i, owed, open) && i < |st.modules[m].dependencies.value|
    ensures st.modules[m].unresolved > 0
  {
    hide Tables, Backed, Ordered, Topological, PassedExports, Acyclic, AllSettled, Awaiting;
    assert st.modules[m].unresolved == WaitCount(st.inverse, st.maxId, m) + owed[m := |st.modules[m].dependencies.value| - i][m];
  }

  // ... and is where it was afterwards;
  lemma ReopensModule(st: State, r: State, m: nat, i: nat, owed: multiset<nat>, open: map<nat, nat>)
    requires Amid(st, m, i, owed, open) && i < |st.modules[m].dependencies.value|
    requires Keeps(st, r, owed[m := |st.modules[m].dependencies.value| - i], open[m := i])
    ensures Amid(r, m, i, owed, open)
  {
    hide Invariant, IdsInRange, Ordered, Tables, PassedExports, Resuming, Keeps, Between, LoaderDropped.MoreDeclared;
    var n := |st.modules[m].dependencies.value|;
    AmidTables(st, m, i, owed, open);
    ReopensFacts(st, r, m, owed[m := n - i], open[m := i]);
    SameDependencies(st, r, m);
    FewerOpen(r, m, n - i, i, owed, open);
    MayBeHot(r, m, owed[m := n - i], open[m := i]);
  }

  lemma ReopensFacts(st: State, r: State, m: nat, owed: multiset<nat>, open: map<nat, nat>)
    requires Keeps(st, r, owed, open) && m in open
    ensures m in r.modules && !r.modules[m].complete && IdsInRange(r) && Ordered(r)
    ensures Invariant(r, owed, {}, open) && Resuming(r, owed, open) && LoaderDropped.MoreDeclared(st.history, r.history)
  {
    hide IdsInRange, Ordered, Tables, Backed, Topological, PassedExports, Acyclic, AllSettled, Counted, Awaiting,
         LoaderDropped.MoreDeclared;
  }

  lemma FewerOpen(st: State, m: nat, n: nat, i: nat, owed: multiset<nat>, open: map<nat, nat>)
    requires Resuming(st, owed[m := n], open[m := i]) && m !in open
    ensures Resuming(st, owed, open)
  {
    forall x | x in open
      ensures x in st.modules && !st.modules[x].complete && owed[x] > 0
    {
      assert x in open[m := i];
    }
  }

  lemma MayBeHot(st: State, m: nat, owed: multiset<nat>, open: map<nat, nat>)
    requires Invariant(st, owed, {}, open)
    ensures Invariant(st, owed, {m}, open)
  {
    hide IdsInRange, Ordered, Tables, Backed, Topological, PassedExports, Acyclic, AllSettled, Counted;
  }

  lemma SameDependencies(st: State, r: State, m: nat)
    requires IdsInRange(st) && m in st.modules && st.modules[m].dependencies.Some?
    requires IdsInRange(r) && Ordered(r) && m in r.modules && !r.modules[m].complete
    requires LoaderDropped.MoreDeclared(st.history, r.history)
    ensures r.modules[m].dependencies == st.modules[m].dependencies
  {
  }

  // inside the last one it waits like any other.
  lemma ClosesModule(st: State, m: nat, i: nat, owed: multiset<nat>, open: map<nat, nat>)
    requires Tables(st) && Amid(st, m, i, owed, open) && i == |st.modules[m].dependencies.value| && st.modules[m].unresolved != 0
    requires OwedOpen(owed, open)
    ensures Between(st, owed, open)
  {
    hide Invariant;
    ResolvedAmid(st, m, owed, open);
  }

  // A module that asks for its last dependency waits.
  lemma AskingWaits(st: State, m: nat, i: nat, owed: multiset<nat>, open: map<nat, nat>)
    requires Tables(st) && Amid(st, m, i, owed, open) && i < |st.modules[m].dependencies.value|
    requires !MeetsFailure(st, m, i) && Asks(st, m, i)
    ensures ResolveStep(st, m, i).modules[m].unresolved > 0
  {
    hide Backed, Ordered, Topological, PassedExports, Acyclic, AllSettled, HasDependencyPath;
    assert st.modules[m].unresolved == WaitCount(st.inverse, st.maxId, m) + owed[m := |st.modules[m].dependencies.value| - i][m];
  }

  // Nested definitions keep the invariant, in whatever iterations they are made.
  lemma {:induction false} NestedKeeps(st: State, d: Nested, owed: multiset<nat>, open: map<nat, nat>)
    requires Between(st, owed, open)
    ensures Keeps(st, DefineNested(st, d), owed, open)
    decreases d, 3, 0
  {
    hide Invariant, Tables, Resuming;
    assert Tables(st);
    if CanDefine(st, d.maxId, d.id, d.deps) {
      var s := st.(maxId := d.maxId);
      MoreIdsBetween(st, d.maxId, owed, open);
      if d.id !in st.modules {
        var a := AddModule(s, d.id, d.deps, d.callback, d.hasErrorback);
        OwedDefined(s, owed, open);
        AddModuleAmid(s, d.id, d.deps, d.callback, d.hasErrorback, owed, open);
        AmidTables(a, d.id, 0, owed, open);
        ResolveNestedKeeps(a, d, 0, owed, open);
        AddModuleDeclared(st, d, owed, open);
      }
    }
  }

  lemma MoreIdsBetween(st: State, maxId: nat, owed: multiset<nat>, open: map<nat, nat>)
    requires Between(st, owed, open) && st.maxId <= maxId
    ensures Between(st.(maxId := maxId), owed, open)
  {
    MoreIdsKeepAmid(st, maxId, owed, open);
  }

  lemma OwedDefined(st: State, owed: multiset<nat>, open: map<nat, nat>)
    requires Between(st, owed, open)
    ensures forall x :: x in owed ==> x in st.modules
  {
  }

  lemma AddModuleDeclared(st: State, d: Nested, owed: multiset<nat>, open: map<nat, nat>)
    requires Between(st, owed, open) && d.id !in st.modules
    ensures LoaderDropped.MoreDeclared(st.history, AddModule(st.(maxId := d.maxId), d.id, d.deps, d.callback, d.hasErrorback).history)
  {
  }

  lemma {:induction false} ResolveNestedKeeps(st: State, d: Nested, i: nat, owed: multiset<nat>, open: map<nat, nat>)
    requires Tables(st) && Amid(st, d.id, i, owed, open) && OwedOpen(owed, open)
    ensures Keeps(st, ResolveNested(st, d, i), owed, open)
    decreases d, 2, |d.inside| - i, 1
  {
    hide Invariant, Tables, Resuming, Between, Keeps, Asks;
    var m := d.id;
    if i >= |d.inside| || i == |st.modules[m].dependencies.value| || MeetsFailure(st, m, i) {
      ResolveKeepsAmid(st, m, i, owed, open);
      ResolveDeclared(st, m, i);
      KeepsResolved(st, Resolve(st, m, i), owed, open);
    } else {
      var s := ResolveStep(st, m, i);
      StepKeepsAmid(st, m, i, owed, open);
      assert Keeps(s, ResolveNested(st, d, i), owed, open) by {
        IterationKeeps(st, d, i, owed, open);
      }
      KeepsDeclared(st, s, ResolveNested(st, d, i), owed, open);
    }
  }

  lemma KeepsResolved(st: State, r: State, owed: multiset<nat>, open: map<nat, nat>)
    requires Tables(r) && Invariant(r, owed, {}, open) && Resuming(r, owed, open) && OwedOpen(owed, open)
    requires r.history.declared == st.history.declared
    ensures Keeps(st, r, owed, open)
  {
    hide Invariant, Tables, Resuming;
  }

  lemma KeepsDeclared(st: State, s: State, r: State, owed: multiset<nat>, open: map<nat, nat>)
    requires Keeps(s, r, owed, open) && s.history.declared == st.history.declared
    ensures Keeps(st, r, owed, open)
  {
    hide Between;
  }

  // One iteration, what is defined inside it, and the iterations that follow
  lemma {:induction false} IterationKeeps(st: State, d: Nested, i: nat, owed: multiset<nat>, open: map<nat, nat>)
    requires Tables(st) && Amid(st, d.id, i, owed, open) && OwedOpen(owed, open)
    requires i < |d.inside| && i < |st.modules[d.id].dependencies.value| && !MeetsFailure(st, d.id, i)
    ensures Keeps(ResolveStep(st, d.id, i), ResolveNested(st, d, i), owed, open)
    decreases d, 2, |d.inside| - i, 0
  {
    hide Invariant, Tables, Resuming, Between, Keeps, Asks;
    var m := d.id;
    var n, s := |st.modules[m].dependencies.value|, ResolveStep(st, m, i);
    StepKeepsAmid(st, m, i, owed, open);
    if !Asks(st, m, i) {
      ResolveNestedKeeps(s, d, i + 1, owed, open);
    } else if i + 1 < n {
      var r := DefineInside(s, d, i, 0);
      OpensModule(s, m, i + 1, owed, open);
      InsideKeeps(s, d, i, 0, owed[m := n - i - 1], open[m := i + 1]);
      ReopensModule(s, r, m, i + 1, owed, open);
      KeepsTables(s, r, owed[m := n - i - 1], open[m := i + 1]);
      ResolveNestedKeeps(r, d, i + 1, owed, open);
      KeepsMore(s, r, ResolveNested(r, d, i + 1), owed, open);
    } else {
      AskingWaits(st, m, i, owed, open);
      ClosesModule(s, m, i + 1, owed, open);
      InsideKeeps(s, d, i, 0, owed, open);
      LastIteration(s, DefineInside(s, d, i, 0), d, i + 1, owed, open);
    }
  }

  lemma KeepsTables(st: State, r: State, owed: multiset<nat>, open: map<nat, nat>)
    requires Keeps(st, r, owed, open)
    ensures Tables(r) && LoaderDropped.MoreDeclared(st.history, r.history)
  {
    hide Invariant;
  }

  lemma KeepsMore(a: State, b: State, c: State, owed: multiset<nat>, open: map<nat, nat>)
    requires LoaderDropped.MoreDeclared(a.history, b.history) && Keeps(b, c, owed, open)
    ensures Keeps(a, c, owed, open)
  {
    hide Between;
  }

  // After the last iteration nothing is left to do, even if the module completed inside it.
  lemma LastIteration(st: State, r: State, d: Nested, i: nat, owed: multiset<nat>, open: map<nat, nat>)
    requires Amid(st, d.id, i, owed, open) && i == |st.modules[d.id].dependencies.value| && Keeps(st, r, owed, open)
    ensures ResolveNested(r, d, i) == r
  {
    hide Tables, Backed, Topological, PassedExports, Acyclic, AllSettled, Counted, Resuming, Ordered;
    assert d.id in r.history.declared && |r.history.declared[d.id]| == i;
  }

  lemma {:induction false} InsideKeeps(st: State, d: Nested, i: nat, k: nat, owed: multiset<nat>, open: map<nat, nat>)
    requires i < |d.inside| && k <= |d.inside[i].definitions| && Between(st, owed, open)
    ensures Keeps(st, DefineInside(st, d, i, k), owed, open)
    decreases d, 0, |d.inside[i].definitions| - k
  {
    hide Invariant, Resuming;
    if k < |d.inside[i].definitions| {
      hide Tables;
      var s := DefineNested(st, d.inside[i].definitions[k]);
      NestedKeeps(st, d.inside[i].definitions[k], owed, open);
      InsideKeeps(s, d, i, k + 1, owed, open);
      KeepsTransitive(st, s, DefineInside(s, d, i, k + 1), owed, open);
    }
  }

  // ----- the results -----

  // However definitions are nested, the loader is in a stable state when the outermost is done.
  lemma NestedDefinitionStable(st: State, d: Nested)
    requires Stable(st)
    ensures Tables(st) && Stable(DefineNested(st, d))
  {
    NestedKeeps(st, d, multiset{}, map[]);
  }

  // A definition inside an iteration leaves the resolution where it was.
  lemma DefinitionInsideKeeps(st: State, m: nat, i: nat, d: Nested)
    requires MidResolve(st, m, i) && i < |st.modules[m].dependencies.value|
    ensures Tables(st) && MidResolve(DefineNested(st, d), m, i)
  {
    hide Invariant, Resuming;
    AmidTables(st, m, i, multiset{}, map[]);
    OpensModule(st, m, i, multiset{}, map[]);
    NestedKeeps(st, d, multiset{}[m := |st.modules[m].dependencies.value| - i], map[][m := i]);
    ReopensModule(st, DefineNested(st, d), m, i, multiset{}, map[]);
  }

  // With nothing inside it is the definition itself.
  lemma NothingInside(st: State, d: Nested)
    requires Tables(st) && CanDefine(st, d.maxId, d.id, d.deps) && d.inside == []
    ensures DefineNested(st, d) == Define(st, d.maxId, d.id, d.deps, d.callback, d.hasErrorback)
  {
  }
}
