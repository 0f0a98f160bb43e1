// A plugin that calls back at once (src/vs/css.ts:71-78, src/vs/nls.ts:124-155): the resource is
// defined, and its module completes, before _resolve goes on with the module that asked for it.

module LoaderAtOnce {
  import opened Options
  import opened LoaderState
  import opened LoaderResolve
  import opened LoaderNested
  import opened LoaderExports

  // d has the resource e of a completed plugin for its only dependency, and the plugin hands it over
  // inside the only iteration; nobody else asked for it.
  ghost predicate AtOnce(st: State, d: Nested, e: Nested, p: nat, param: string) {
    && CanDefine(st, d.maxId, d.id, d.deps) && d.id !in st.modules
    && d.deps == [Plugin(e.id, p, param)] && d.inside == [Inside([e])] && IsComplete(st, p)
    && e.deps == [] && e.inside == [] && e.maxId == d.maxId && e.id != d.id
    && e.id !in st.modules && e.id !in st.known && Waiters(st.inverse, e.id) == []
  }

  // The state when the plugin is called
  ghost function Asked(st: State, d: Nested, e: Nested, p: nat, param: string): (r: State)
    requires Tables(st) && AtOnce(st, d, e, p, param)
    ensures Tables(r)
  {
    var a := AddModule(st.(maxId := d.maxId), d.id, d.deps, d.callback, d.hasErrorback);
    LoadPluginDependency(AddWaiter(a, e.id, d.id), Plugin(e.id, p, param))
  }

  lemma AsksFirst(st: State, d: Nested, e: Nested, p: nat, param: string)
    requires Tables(st) && AtOnce(st, d, e, p, param)
    ensures DefineNested(st, d) == ResolveNested(DefineNested(Asked(st, d, e, p, param), e), d, 1)
  {
    var a := AddModule(st.(maxId := d.maxId), d.id, d.deps, d.callback, d.hasErrorback);
    var s := Asked(st, d, e, p, param);
    NoPathFromUndefined(a.modules, e.id, d.id);
    hide HasDependencyPath;
    assert DepAt(a, d.id, 0) == Plugin(e.id, p, param);
    assert ResolveStep(a, d.id, 0) == s;
    assert Asks(a, d.id, 0);
    hide ResolveStep, Asks;
    assert DefineInside(s, d, 0, 0) == DefineInside(DefineNested(s, e), d, 0, 1) == DefineNested(s, e);
  }

  // The resource completes, and nothing is done yet for the module that waits for it.
  ghost function Delivered(st: State, e: Nested): (r: State)
    requires Tables(st) && e.id !in st.modules
    ensures Tables(r)
  {
    var a := AddModule(st.(maxId := e.maxId), e.id, e.deps, e.callback, e.hasErrorback);
    Finish(a, e.id)
  }

  lemma DeliversFirst(st: State, d: Nested, e: Nested)
    requires Tables(st) && CanDefine(st, e.maxId, e.id, e.deps) && e.id !in st.modules && e.deps == [] && e.inside == []
    requires Waiters(st.inverse, e.id) == [d.id] && d.id in st.modules
    ensures DefineNested(st, e) == ReleasePlugins(ReleaseOne(Delivered(st, e), d.id), e.id)
  {
    var a := AddModule(st.(maxId := e.maxId), e.id, e.deps, e.callback, e.hasErrorback);
    var finished := Delivered(st, e);
    assert DefineNested(st, e) == Resolve(a, e.id, 0) == CompleteModule(a, e.id);
    assert Waiters(a.inverse, e.id) == [d.id];
    assert Release(finished, [d.id]) == Release(ReleaseOne(finished, d.id), [d.id][1..]) == ReleaseOne(finished, d.id);
  }

  // ----- what a completed module was passed stays -----

  ghost predicate PassedStays(st: State, r: State) {
    forall x: nat :: IsComplete(st, x) && x in st.history.passed ==>
      IsComplete(r, x) && x in r.history.passed && r.history.passed[x] == st.history.passed[x]
  }

  lemma {:induction false} CompleteLeavesPassed(st: State, m: nat)
    requires Tables(st) && m in st.modules
    ensures PassedStays(st, CompleteModule(st, m))
    decreases Incomplete(st), 1, 0
  {
    if !st.modules[m].complete {
      var finished := Finish(st, m);
      assert m in Incomplete(st) && m !in Incomplete(finished);
      assert PassedStays(st, finished);
      ReleaseLeavesPassed(finished, Waiters(st.inverse, m));
    }
  }

  lemma {:induction false} ReleaseLeavesPassed(st: State, waiters: seq<nat>)
    requires Tables(st) && forall k :: 0 <= k < |waiters| ==> waiters[k] in st.modules
    ensures PassedStays(st, Release(st, waiters))
    decreases Incomplete(st), 2, |waiters|
  {
    if waiters != [] {
      var s := Decrement(st, waiters[0]);
      assert Incomplete(s) == Incomplete(st);
      if s.modules[waiters[0]].unresolved == 0 {
        CompleteLeavesPassed(s, waiters[0]);
      }
      ReleaseLeavesPassed(ReleaseOne(st, waiters[0]), waiters[1..]);
    }
  }

  // ----- the module that waited -----

  lemma CompletedIs(st: State, m: nat)
    requires Tables(st) && m in st.modules && !st.modules[m].complete
    ensures var finished := Finish(st, m);
      && Tables(finished) && (forall k :: 0 <= k < |Waiters(st.inverse, m)| ==> Waiters(st.inverse, m)[k] in finished.modules)
      && CompleteModule(st, m) == ReleasePlugins(Release(finished, Waiters(st.inverse, m)), m)
  {
    FinishTables(st, m);
    hide Finish, Tables;
  }

  lemma CompletedOn(st: State, m: nat)
    requires Tables(st) && m in st.modules && !st.modules[m].complete
    ensures var finished, r := Finish(st, m), CompleteModule(st, m);
      finished.history.order <= r.history.order && PassedStays(finished, r)
  {
    hide Finish, CompleteModule, Release, ReleasePlugins, Waiters, PluginsQueued, Closed;
    var finished := Finish(st, m);
    CompletedIs(st, m);
    ReleaseGrows(finished, Waiters(st.inverse, m));
    ReleaseLeavesPassed(finished, Waiters(st.inverse, m));
  }

  lemma FinishTables(st: State, m: nat)
    requires Tables(st) && m in st.modules
    ensures Tables(Finish(st, m)) && Finish(st, m).modules.Keys == st.modules.Keys
    ensures forall k :: 0 <= k < |Waiters(st.inverse, m)| ==> Waiters(st.inverse, m)[k] in st.modules
  {
  }

  lemma FinishOnly(st: State, m: nat, id: nat, dep: Dependency)
    requires m in st.modules && st.modules[m].dependencies == Some([dep]) && dep.Plugin? && dep.Id() == id && id in st.modules
    ensures var r := Finish(st, m);
      IsComplete(r, m) && r.history.order == st.history.order + [m] && m in r.history.passed && r.history.passed[m] == [st.modules[id].exports]
  {
    assert DependencyValues(st.modules, m) == [st.modules[id].exports];
  }

  // It completes next, with what the resource exports.
  lemma CompletesNext(st: State, m: nat, id: nat, dep: Dependency)
    requires Tables(st) && m in st.modules && !st.modules[m].complete && st.modules[m].unresolved == 1
    requires st.modules[m].dependencies == Some([dep]) && dep.Plugin? && dep.Id() == id && id in st.modules && id != m
    requires IsComplete(st, id) && id in st.history.passed
    ensures var r := ReleaseOne(st, m);
      && IsComplete(r, m) && IsComplete(r, id) && st.history.order + [m] <= r.history.order
      && m in r.history.passed && r.history.passed[m] == [st.modules[id].exports]
  {
    var s := Decrement(st, m);
    FinishOnly(s, m, id, dep);
    CompletedOn(s, m);
    hide Finish;
    assert ReleaseOne(st, m) == CompleteModule(s, m);
  }

  lemma AskedFacts(st: State, d: Nested, e: Nested, p: nat, param: string)
    requires Tables(st) && AtOnce(st, d, e, p, param)
    ensures var s := Asked(st, d, e, p, param);
      && CanDefine(s, e.maxId, e.id, e.deps) && e.id !in s.modules && Waiters(s.inverse, e.id) == [d.id]
      && d.id in s.modules && s.modules[d.id] == NewRecord(d.id, d.deps, d.callback, d.hasErrorback)
      && s.history.order == st.history.order
  {
    assert d.deps[0].Below(d.maxId);
  }

  lemma DeliveredFacts(st: State, m: nat, e: Nested)
    requires Tables(st) && e.id !in st.modules && m in st.modules && m != e.id && e.deps == []
    ensures var r := Delivered(st, e);
      && m in r.modules && r.modules[m] == st.modules[m] && r.history.order == st.history.order + [e.id]
      && IsComplete(r, e.id) && e.id in r.history.passed && r.modules[e.id].exports == ExportsOf(e.callback, false, e.id)
  {
  }

  // So the resource completes and then the module that asked for it, which is passed what the resource
  // exports, all inside the one definition.
  lemma CalledBackAtOnce(st: State, d: Nested, e: Nested, p: nat, param: string)
    requires Tables(st) && AtOnce(st, d, e, p, param)
    ensures var r := DefineNested(st, d);
      && st.history.order + [e.id, d.id] <= r.history.order && IsComplete(r, d.id) && IsComplete(r, e.id)
      && d.id in r.history.passed && r.history.passed[d.id] == [ExportsOf(e.callback, false, e.id)]
  {
    hide Tables, Asked, Delivered, ReleaseOne, DefineNested, CanDefine;
    var s := Asked(st, d, e, p, param);
    AsksFirst(st, d, e, p, param);
    AskedFacts(st, d, e, p, param);
    DeliversFirst(s, d, e);
    var delivered := Delivered(s, e);
    DeliveredFacts(s, d.id, e);
    CompletesNext(delivered, d.id, e.id, Plugin(e.id, p, param));
    var r := DefineNested(s, e);
    ResolvedAlready(r, d);
    assert st.history.order + [e.id] + [d.id] == st.history.order + [e.id, d.id];
  }

  lemma ResolvedAlready(st: State, d: Nested)
    requires Tables(st) && IsComplete(st, d.id)
    ensures ResolveNested(st, d, 1) == st
  {
  }
}
