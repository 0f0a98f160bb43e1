// Which errors are told to the configured onError besides those of factories: the load errors that
// no errorback heard (src/vs/loader.js:1533-1567).

module LoaderReports {
  import opened LoaderState
  import opened LoaderTheorems

  // Since h only errors of factories were reported.
  ghost predicate OnlyFactories(h: History, later: History) {
    && h.reported <= later.reported
    && forall k :: |h.reported| <= k < |later.reported| ==> later.reported[k].FactoryFailure?
  }

  lemma OnlyFactoriesTransitive(a: History, b: History, c: History)
    requires OnlyFactories(a, b) && OnlyFactories(b, c)
    ensures OnlyFactories(a, c)
  {
    forall k | |a.reported| <= k < |c.reported|
      ensures c.reported[k].FactoryFailure?
    {
      if k < |b.reported| {
        assert c.reported[k] == b.reported[k];
      }
    }
  }

  lemma SameReports(h: History, later: History)
    requires later.reported == h.reported
    ensures OnlyFactories(h, later)
  {
  }

  lemma FinishReports(st: State, m: nat)
    requires m in st.modules
    ensures OnlyFactories(st.history, Finish(st, m).history)
  {
  }

  lemma {:induction false} CompleteReports(st: State, m: nat)
    requires Tables(st) && m in st.modules
    ensures OnlyFactories(st.history, CompleteModule(st, m).history)
    decreases Incomplete(st), 1, 0
  {
    hide OnlyFactories;
    if st.modules[m].complete {
      SameReports(st.history, st.history);
    } else {
      var finished, waiters := Finish(st, m), Waiters(st.inverse, m);
      assert m in Incomplete(st) && m !in Incomplete(finished);
      FinishReports(st, m);
      ReleaseReports(finished, waiters);
      OnlyFactoriesTransitive(st.history, finished.history, Release(finished, waiters).history);
    }
  }

  lemma {:induction false} ReleaseReports(st: State, waiters: seq<nat>)
    requires Tables(st) && forall k :: 0 <= k < |waiters| ==> waiters[k] in st.modules
    ensures OnlyFactories(st.history, Release(st, waiters).history)
    decreases Incomplete(st), 2, |waiters|
  {
    hide OnlyFactories;
    if waiters == [] {
      SameReports(st.history, st.history);
    } else {
      ReleaseOneReports(st, waiters[0]);
      var s := ReleaseOne(st, waiters[0]);
      ReleaseReports(s, waiters[1..]);
      OnlyFactoriesTransitive(st.history, s.history, Release(s, waiters[1..]).history);
    }
  }

  lemma {:induction false} ReleaseOneReports(st: State, x: nat)
    requires Tables(st) && x in st.modules
    ensures OnlyFactories(st.history, ReleaseOne(st, x).history)
    decreases Incomplete(st), 1, 1
  {
    hide OnlyFactories;
    var s := Decrement(st, x);
    assert Incomplete(s) == Incomplete(st);
    SameReports(st.history, s.history);
    if s.modules[x].unresolved == 0 {
      CompleteReports(s, x);
      OnlyFactoriesTransitive(st.history, s.history, CompleteModule(s, x).history);
    }
  }

  lemma {:induction false} ResolveReports(st: State, m: nat, i: nat)
    requires Tables(st) && Resolving(st, m, i)
    ensures OnlyFactories(st.history, Resolve(st, m, i).history)
    decreases |st.modules[m].dependencies.value| - i
  {
    hide OnlyFactories, Tables;
    if i == |st.modules[m].dependencies.value| {
      if st.modules[m].unresolved == 0 {
        CompleteReports(st, m);
      } else {
        SameReports(st.history, st.history);
      }
    } else if MeetsFailure(st, m, i) {
      SameReports(st.history, Resolve(st, m, i).history);
    } else {
      var s := ResolveStep(st, m, i);
      SameReports(st.history, s.history);
      ResolveReports(s, m, i + 1);
      OnlyFactoriesTransitive(st.history, s.history, Resolve(s, m, i + 1).history);
    }
  }

  lemma DefineReports(st: State, maxId: nat, id: nat, deps: seq<Dependency>, callback: Callback, hasErrorback: bool)
    requires Tables(st)
    ensures OnlyFactories(st.history, Define(st, maxId, id, deps, callback, hasErrorback).history)
  {
    hide OnlyFactories, Resolve;
    var s := st.(maxId := maxId);
    SameReports(st.history, s.history);
    if id !in st.modules {
      var a := AddModule(s, id, deps, callback, hasErrorback);
      SameReports(st.history, a.history);
      ResolveReports(a, id, 0);
      OnlyFactoriesTransitive(st.history, a.history, Resolve(a, id, 0).history);
    }
  }

  // Some module with an errorback is reached by a load error of id.
  ghost predicate Heard(st: State, id: nat) {
    exists x :: x in st.modules && st.modules[x].hasErrorback && Affected(st.inverse, id, x)
  }

  lemma LoadErrorTold(st: State, id: nat, cause: int)
    requires Tables(st)
    ensures var h, later := st.history, OnLoadError(st, id, LoadFailure(id, cause)).history;
      && later.reported == h.reported + (if Heard(st, id) then [] else [LoadFailure(id, cause)])
      && (later.called == h.called <==> !Heard(st, id))
  {
    hide Affected;
    var s := WithModule(st, id);
    assert Notified(s, id) == Notified(st, id) by { EmptyModuleUnheard(st, id); }
    if Heard(st, id) {
      var x :| x in st.modules && st.modules[x].hasErrorback && Affected(st.inverse, id, x);
      assert x in Notified(st, id);
      assert multiset(Notified(st, id))[x] == 1;
      assert (st.history.called + multiset(Notified(st, id)))[x] == st.history.called[x] + 1;
    } else {
      assert Notified(st, id) == {};
    }
  }

  lemma EmptyModuleUnheard(st: State, id: nat)
    requires Tables(st)
    ensures Notified(WithModule(st, id), id) == Notified(st, id)
  {
    hide Affected;
  }

  // ----- runs -----

  // A definition reports no load error.  A load error is told to onError in its own step, exactly if
  // it called no errorback: if no module with one waits for the id or is it.
  lemma LoadErrorReported(states: seq<State>, steps: seq<Step>, j: nat)
    requires IsRun(states, steps) && j < |steps|
    ensures var h, later := states[j].history, states[j + 1].history;
      match steps[j]
      case DefineStep(_, _, _, _, _) => OnlyFactories(h, later)
      case LoadErrorStep(id, cause) =>
        && later.reported == h.reported + (if Heard(states[j], id) then [] else [LoadFailure(id, cause)])
        && (later.called == h.called <==> !Heard(states[j], id))
  {
    hide OnlyFactories, Define, OnLoadError, Heard;
    var st := states[j];
    assert Takes(st, steps[j], states[j + 1]);
    match steps[j] {
      case DefineStep(maxId, id, deps, callback, hasErrorback) => DefineReports(st, maxId, id, deps, callback, hasErrorback);
      case LoadErrorStep(id, cause) => LoadErrorTold(st, id, cause);
    }
  }

  // Step k is this load error, and no errorback heard of it.
  ghost predicate Unheard(states: seq<State>, steps: seq<Step>, id: nat, cause: int, k: nat)
    requires k < |steps| < |states|
  {
    steps[k] == LoadErrorStep(id, cause) && states[k + 1].history.called == states[k].history.called
  }

  ghost function TimesUnheard(states: seq<State>, steps: seq<Step>, id: nat, cause: int, j: nat): nat
    requires j <= |steps| < |states|
  {
    if j == 0 then 0
    else TimesUnheard(states, steps, id, cause, j - 1) + (if Unheard(states, steps, id, cause, j - 1) then 1 else 0)
  }

  lemma CountAppended(a: seq<LoaderError>, b: seq<LoaderError>, err: LoaderError)
    requires a <= b && err.LoadFailure? && forall k :: |a| <= k < |b| ==> b[k].FactoryFailure?
    ensures multiset(b)[err] == multiset(a)[err]
  {
    assert b == a + b[|a|..];
    assert err !in b[|a|..];
  }

  // A load error was reported as often as it came unheard.
  lemma {:induction false} LoadErrorReports(states: seq<State>, steps: seq<Step>, id: nat, cause: int, j: nat)
    requires IsRun(states, steps) && j < |states|
    ensures multiset(states[j].history.reported)[LoadFailure(id, cause)] == TimesUnheard(states, steps, id, cause, j)
  {
    hide Heard, Takes;
    if j > 0 {
      LoadErrorReports(states, steps, id, cause, j - 1);
      LoadErrorReported(states, steps, j - 1);
      var h, later := states[j - 1].history, states[j].history;
      if steps[j - 1].DefineStep? {
        CountAppended(h.reported, later.reported, LoadFailure(id, cause));
      } else {
        assert multiset(later.reported) == multiset(h.reported) + multiset(later.reported[|h.reported|..]) by {
          assert later.reported == h.reported + later.reported[|h.reported|..];
        }
      }
    }
  }
}
