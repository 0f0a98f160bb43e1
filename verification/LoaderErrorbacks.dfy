// How often errorbacks are called (src/vs/loader.js:1233-1241, 1545-1563, 1752-1755).

module LoaderErrorbacks {
  import opened LoaderState
  import opened LoaderProgress
  import opened LoaderTheorems

  // ----- what completing modules leaves alone -----

  // The same modules have failed, with the same errorbacks, and none was called.
  ghost predicate SameFailures(st: State, r: State) {
    && r.history.called == st.history.called
    && (forall x :: Failed(r, x) <==> Failed(st, x))
    && (forall x :: Failed(st, x) ==> r.modules[x].hasErrorback == st.modules[x].hasErrorback)
    && (forall x :: x in r.history.order && x !in st.history.order ==> x in r.modules && !r.modules[x].hasErrorback)
    && (forall x :: x in st.history.order ==> x in r.history.order)
    && (forall x :: x in st.history.order && x in st.modules && !st.modules[x].hasErrorback ==>
          x in r.modules && !r.modules[x].hasErrorback)
  }

  lemma SameFailuresTransitive(a: State, b: State, c: State)
    requires SameFailures(a, b) && SameFailures(b, c)
    ensures SameFailures(a, c)
  {
    hide Failed;
  }

  lemma FinishSame(st: State, m: nat)
    requires m in st.modules && !st.modules[m].complete
    ensures SameFailures(st, Finish(st, m))
  {
  }

  lemma {:induction false} CompleteSame(st: State, m: nat)
    requires Tables(st) && m in st.modules
    ensures SameFailures(st, CompleteModule(st, m))
    decreases Incomplete(st), 1, 0
  {
    if !st.modules[m].complete {
      hide SameFailures;
      var finished, waiters := Finish(st, m), Waiters(st.inverse, m);
      assert m in Incomplete(st) && m !in Incomplete(finished);
      FinishSame(st, m);
      ReleaseSame(finished, waiters);
      var r := Release(finished, waiters);
      SameFailuresTransitive(st, finished, r);
      EventsSame(r, CompleteModule(st, m));
      SameFailuresTransitive(st, r, CompleteModule(st, m));
    }
  }

  lemma EventsSame(st: State, r: State)
    requires r.history == st.history && r.modules.Keys == st.modules.Keys
    requires forall x :: x in st.modules ==>
      r.modules[x].complete == st.modules[x].complete && r.modules[x].hasErrorback == st.modules[x].hasErrorback
    ensures SameFailures(st, r)
  {
  }

  lemma {:induction false} ReleaseSame(st: State, waiters: seq<nat>)
    requires Tables(st) && forall k :: 0 <= k < |waiters| ==> waiters[k] in st.modules
    ensures SameFailures(st, Release(st, waiters))
    decreases Incomplete(st), 2, |waiters|
  {
    hide SameFailures;
    if waiters == [] {
      EventsSame(st, st);
    } else {
      ReleaseOneSame(st, waiters[0]);
      var s := ReleaseOne(st, waiters[0]);
      ReleaseSame(s, waiters[1..]);
      SameFailuresTransitive(st, s, Release(s, waiters[1..]));
    }
  }

  lemma {:induction false} ReleaseOneSame(st: State, x: nat)
    requires Tables(st) && x in st.modules
    ensures SameFailures(st, ReleaseOne(st, x))
    decreases Incomplete(st), 1, 1
  {
    hide SameFailures;
    var s := Decrement(st, x);
    EventsSame(st, s);
    assert Incomplete(s) == Incomplete(st);
    if s.modules[x].unresolved == 0 {
      CompleteSame(s, x);
      SameFailuresTransitive(st, s, CompleteModule(s, x));
    }
  }

  // ----- calls -----

  // Exactly the errorbacks of failed modules were called, and completed modules have none.
  ghost predicate Called(st: State) {
    && (forall x :: st.history.called[x] > 0 <==> Failed(st, x) && st.modules[x].hasErrorback)
    && (forall x :: x in st.history.order ==> x in st.modules && !st.modules[x].hasErrorback)
  }

  // Nothing happens to the modules that have failed.
  ghost predicate LeavesFailed(st: State, r: State) {
    forall x :: Failed(st, x) ==>
      Failed(r, x) && r.modules[x].hasErrorback == st.modules[x].hasErrorback && r.history.called[x] == st.history.called[x]
  }

  // A module that fails has its errorback called once.
  ghost predicate FirstCalls(st: State, r: State) {
    forall x :: !Failed(st, x) && Failed(r, x) ==> r.history.called[x] == if r.modules[x].hasErrorback then 1 else 0
  }

  lemma SameCalled(st: State, r: State)
    requires SameFailures(st, r) && Called(st)
    ensures Called(r) && LeavesFailed(st, r) && FirstCalls(st, r)
  {
  }

  // While m is resolved nothing has failed since st.
  lemma {:induction false} ResolveCalls(st: State, m: nat, i: nat)
    requires Tables(st) && Resolving(st, m, i) && !st.modules[m].complete && Called(st)
    ensures var r := Resolve(st, m, i); Called(r) && LeavesFailed(st, r) && FirstCalls(st, r)
    decreases |st.modules[m].dependencies.value| - i
  {
    hide Called, LeavesFailed, FirstCalls, SameFailures;
    if i == |st.modules[m].dependencies.value| {
      if st.modules[m].unresolved == 0 {
        CompleteSame(st, m);
      } else {
        EventsSame(st, st);
      }
      SameCalled(st, Resolve(st, m, i));
    } else if MeetsFailure(st, m, i) {
      FailCalls(st, m, st.modules[DepAt(st, m, i).Id()].error.value);
    } else {
      var s := ResolveStep(st, m, i);
      ResolveStepFrame(st, m, i);
      StepSame(st, s, m);
      SameCalled(st, s);
      ResolveCalls(s, m, i + 1);
      CallsOn(st, s, Resolve(s, m, i + 1));
    }
  }

  lemma StepSame(st: State, s: State, m: nat)
    requires m in st.modules && m in s.modules && s.modules == st.modules[m := s.modules[m]]
    requires s.modules[m].complete == st.modules[m].complete && s.modules[m].hasErrorback == st.modules[m].hasErrorback
    requires s.history == st.history.(broken := s.history.broken)
    ensures SameFailures(st, s)
  {
  }

  lemma CallsOn(st: State, s: State, r: State)
    requires SameFailures(st, s) && LeavesFailed(s, r) && FirstCalls(s, r)
    ensures LeavesFailed(st, r) && FirstCalls(st, r)
  {
    hide Failed;
  }

  lemma FailCalls(st: State, m: nat, err: LoaderError)
    requires Called(st) && m in st.modules && !st.modules[m].complete
    ensures var r := Fail(st, m, err); Called(r) && LeavesFailed(st, r) && FirstCalls(st, r)
  {
    var r := Fail(st, m, err);
    assert !Failed(st, m);
    assert st.history.called[m] == 0;
  }

  lemma AddModuleSame(st: State, maxId: nat, id: nat, deps: seq<Dependency>, callback: Callback, hasErrorback: bool)
    requires id !in st.modules
    ensures SameFailures(st, AddModule(st.(maxId := maxId), id, deps, callback, hasErrorback))
  {
  }

  lemma DefineCalls(st: State, maxId: nat, id: nat, deps: seq<Dependency>, callback: Callback, hasErrorback: bool)
    requires Tables(st) && Called(st)
    ensures var r := Define(st, maxId, id, deps, callback, hasErrorback); Called(r) && LeavesFailed(st, r) && FirstCalls(st, r)
  {
    var s := st.(maxId := maxId);
    if id !in st.modules {
      var a := AddModule(s, id, deps, callback, hasErrorback);
      AddModuleSame(st, maxId, id, deps, callback, hasErrorback);
      hide SameFailures, Called, LeavesFailed, FirstCalls;
      SameCalled(st, a);
      ResolveCalls(a, id, 0);
      CallsOn(st, a, Resolve(a, id, 0));
    }
  }

  // A load error calls the errorbacks of the failed modules it reaches once more.
  ghost predicate CallsReached(st: State, id: nat, r: State) {
    forall x :: Failed(st, x) ==>
      && Failed(r, x) && r.modules[x].hasErrorback == st.modules[x].hasErrorback
      && r.history.called[x] == st.history.called[x]
           + if Affected(st.inverse, id, x) && st.modules[x].hasErrorback then 1 else 0
  }

  lemma FailAffectedCalls(st: State, id: nat, err: LoaderError)
    requires Tables(st) && Called(st)
    ensures var r := FailAffected(st, id, err); Called(r) && FirstCalls(st, r) && CallsReached(st, id, r)
  {
    hide Affected, Tables, LeavesFailed, Notified;
    AffectedCalls(st, id, err);
  }

  lemma AffectedCalls(st: State, id: nat, err: LoaderError)
    requires Tables(st)
    ensures var r := FailAffected(st, id, err);
      forall x: nat :: r.history.called[x] == st.history.called[x]
        + if x in st.modules && st.modules[x].hasErrorback && Affected(st.inverse, id, x) then 1 else 0
  {
    hide Affected, Tables;
    forall x: nat
      ensures multiset(Notified(st, id))[x] ==
        if x in st.modules && st.modules[x].hasErrorback && Affected(st.inverse, id, x) then 1 else 0
    {
      assert multiset(Notified(st, id))[x] == if x in Notified(st, id) then 1 else 0;
    }
  }

  lemma LoadErrorCalls(st: State, id: nat, err: LoaderError)
    requires Tables(st) && Called(st)
    ensures var r := OnLoadError(st, id, err); Called(r) && FirstCalls(st, r) && CallsReached(st, id, r)
  {
    hide FailAffected, SameFailures, Called, FirstCalls, LeavesFailed, CallsReached, Notified;
    var s := WithModule(st, id);
    assert SameFailures(st, s) by { EmptyModuleSame(st, id); }
    SameCalled(st, s);
    FailAffectedCalls(s, id, err);
    ThenTold(st, s, id, FailAffected(s, id, err), OnLoadError(st, id, err));
  }

  lemma EmptyModuleSame(st: State, id: nat)
    requires Tables(st)
    ensures SameFailures(st, WithModule(st, id))
  {
  }

  lemma ThenTold(st: State, s: State, id: nat, f: State, r: State)
    requires SameFailures(st, s) && s.inverse == st.inverse
    requires Called(f) && FirstCalls(s, f) && CallsReached(s, id, f)
    requires r == f.(history := f.history.(reported := r.history.reported))
    ensures Called(r) && FirstCalls(st, r) && CallsReached(st, id, r)
  {
    hide Affected;
  }

  // ----- runs -----

  lemma {:induction false} RunCalled(states: seq<State>, steps: seq<Step>, i: nat)
    requires IsRun(states, steps) && i < |states|
    ensures Called(states[i])
  {
    hide Called, LeavesFailed, FirstCalls, CallsReached, Define, OnLoadError;
    if i == 0 {
      assert Called(INITIAL) by { NobodyCalled(); }
    } else {
      RunCalled(states, steps, i - 1);
      var st := states[i - 1];
      assert Takes(st, steps[i - 1], states[i]);
      match steps[i - 1] {
        case DefineStep(maxId, id, deps, callback, hasErrorback) => DefineCalls(st, maxId, id, deps, callback, hasErrorback);
        case LoadErrorStep(id, cause) => LoadErrorCalls(st, id, LoadFailure(id, cause));
      }
    }
  }

  lemma NobodyCalled()
    ensures Called(INITIAL)
  {
  }

  // The k-th step is a load error of x itself, which has failed, or of an id that x still waits for.
  ghost predicate HeardAgain(states: seq<State>, steps: seq<Step>, x: nat, k: nat)
    requires k < |states| && k < |steps|
  {
    steps[k].LoadErrorStep? && Failed(states[k], x) && Affected(states[k].inverse, steps[k].id, x)
  }

  ghost function TimesHeardAgain(states: seq<State>, steps: seq<Step>, x: nat, j: nat): nat
    requires j <= |steps| < |states|
  {
    if j == 0 then 0
    else TimesHeardAgain(states, steps, x, j - 1) + (if HeardAgain(states, steps, x, j - 1) then 1 else 0)
  }

  lemma {:induction false} HeardAgainCount(states: seq<State>, steps: seq<Step>, x: nat, j: nat)
    requires j <= |steps| < |states|
    ensures TimesHeardAgain(states, steps, x, j) == 0 <==> forall k :: 0 <= k < j ==> !HeardAgain(states, steps, x, k)
  {
    if j > 0 {
      HeardAgainCount(states, steps, x, j - 1);
    }
  }

  // One step of a run, for one module
  lemma StepCalls(states: seq<State>, steps: seq<Step>, x: nat, j: nat)
    requires IsRun(states, steps) && j < |steps| && Failed(states[j + 1], x)
    ensures !Failed(states[j], x) ==> states[j + 1].history.called[x] == if states[j + 1].modules[x].hasErrorback then 1 else 0
    ensures Failed(states[j], x) ==>
      && states[j + 1].modules[x].hasErrorback == states[j].modules[x].hasErrorback
      && states[j + 1].history.called[x] == states[j].history.called[x]
           + if HeardAgain(states, steps, x, j) && states[j].modules[x].hasErrorback then 1 else 0
  {
    hide Define, OnLoadError, Affected;
    RunCalled(states, steps, j);
    var st := states[j];
    assert Takes(st, steps[j], states[j + 1]);
    match steps[j] {
      case DefineStep(maxId, id, deps, callback, hasErrorback) => DefineCalls(st, maxId, id, deps, callback, hasErrorback);
      case LoadErrorStep(id, cause) => LoadErrorCalls(st, id, LoadFailure(id, cause));
    }
  }

  // A module that failed keeps its errorback.
  lemma {:induction false} FailedKeepsErrorback(states: seq<State>, steps: seq<Step>, x: nat, i: nat, j: nat)
    requires IsRun(states, steps) && i <= j < |states| && Failed(states[i], x)
    ensures Failed(states[j], x) && states[j].modules[x].hasErrorback == states[i].modules[x].hasErrorback
    decreases j
  {
    hide HeardAgain, Takes;
    if i < j {
      FailedKeepsErrorback(states, steps, x, i, j - 1);
      StillFailed(states, steps, x, j - 1);
      StepCalls(states, steps, x, j - 1);
    }
  }

  lemma StillFailed(states: seq<State>, steps: seq<Step>, x: nat, j: nat)
    requires IsRun(states, steps) && j < |steps| && Failed(states[j], x)
    ensures Failed(states[j + 1], x)
  {
    NeverInvokedAfterFailure(states, steps, j, j + 1, x);
  }

  // The errorback of a module that failed was called when it failed, and once more for every
  // later load error of the module itself or of an id that it still waited for then.
  lemma {:induction false} ErrorbackCalls(states: seq<State>, steps: seq<Step>, x: nat, j: nat)
    requires IsRun(states, steps) && j < |states| && Failed(states[j], x) && states[j].modules[x].hasErrorback
    ensures states[j].history.called[x] == 1 + TimesHeardAgain(states, steps, x, j)
  {
    hide Called;
    if j == 0 {
      NoneFailedAtFirst(x);
    } else {
      StepCalls(states, steps, x, j - 1);
      if Failed(states[j - 1], x) {
        ErrorbackCalls(states, steps, x, j - 1);
      } else {
        NotHeardBefore(states, steps, x, j - 1);
      }
    }
  }

  lemma NoneFailedAtFirst(x: nat)
    ensures !Failed(INITIAL, x)
  {
  }

  lemma NotHeardBefore(states: seq<State>, steps: seq<Step>, x: nat, j: nat)
    requires IsRun(states, steps) && j < |steps| && !Failed(states[j], x)
    ensures TimesHeardAgain(states, steps, x, j + 1) == 0
  {
    hide Takes, Affected;
    forall k | 0 <= k < j + 1
      ensures !HeardAgain(states, steps, x, k)
    {
      if Failed(states[k], x) {
        NeverInvokedAfterFailure(states, steps, k, j, x);
      }
    }
    HeardAgainCount(states, steps, x, j + 1);
  }

  // So it was called once exactly if no such load error came; and only modules that failed have
  // their errorback called at all.
  lemma ErrorbackCalledOnceIff(states: seq<State>, steps: seq<Step>, x: nat, j: nat)
    requires IsRun(states, steps) && j < |states| && Failed(states[j], x) && states[j].modules[x].hasErrorback
    ensures states[j].history.called[x] == 1 <==> forall k :: 0 <= k < j ==> !HeardAgain(states, steps, x, k)
  {
    hide Failed, HeardAgain;
    ErrorbackCalls(states, steps, x, j);
    HeardAgainCount(states, steps, x, j);
  }

  lemma OnlyFailedCalled(states: seq<State>, steps: seq<Step>, x: nat, j: nat)
    requires IsRun(states, steps) && j < |states|
    ensures states[j].history.called[x] > 0 <==> Failed(states[j], x) && states[j].modules[x].hasErrorback
  {
    hide IsRun;
    RunCalled(states, steps, j);
  }
}
