// What holds of the loader between any two steps, and the weaker form that holds inside a
// step, where a module can still be owed decrements.

module LoaderInvariant {
  import opened LoaderState

  // ----- counting waiters -----

  // How often x occurs in the waiter lists of the ids below n.
  ghost function WaitCount(inverse: map<nat, seq<nat>>, n: nat, x: nat): nat {
    if n == 0 then 0 else WaitCount(inverse, n - 1, x) + multiset(Waiters(inverse, n - 1))[x]
  }

  lemma {:induction false} WaitCountSame(a: map<nat, seq<nat>>, b: map<nat, seq<nat>>, n: nat, x: nat)
    requires forall e :: 0 <= e < n ==> Waiters(a, e) == Waiters(b, e)
    ensures WaitCount(a, n, x) == WaitCount(b, n, x)
  {
    if n == 0 {
    } else {
      WaitCountSame(a, b, n - 1, x);
    }
  }

  lemma {:induction false} WaitCountUpdate(a: map<nat, seq<nat>>, b: map<nat, seq<nat>>, n: nat, d: nat, x: nat)
    requires d < n
    requires forall e: nat :: e != d ==> Waiters(a, e) == Waiters(b, e)
    ensures WaitCount(b, n, x) - multiset(Waiters(b, d))[x] == WaitCount(a, n, x) - multiset(Waiters(a, d))[x]
  {
    if n == d + 1 {
      WaitCountSame(a, b, n - 1, x);
    } else {
      WaitCountUpdate(a, b, n - 1, d, x);
    }
  }

  lemma {:induction false} WaitCountMember(inverse: map<nat, seq<nat>>, n: nat, x: nat)
    ensures WaitCount(inverse, n, x) > 0 <==> exists d :: 0 <= d < n && x in Waiters(inverse, d)
  {
    if n == 0 {
    } else {
      WaitCountMember(inverse, n - 1, x);
      assert multiset(Waiters(inverse, n - 1))[x] > 0 <==> x in Waiters(inverse, n - 1);
    }
  }

  lemma {:induction false} WaitCountGrow(inverse: map<nat, seq<nat>>, n: nat, larger: nat, x: nat)
    requires n <= larger
    requires forall d :: d in inverse ==> d < n
    ensures WaitCount(inverse, larger, x) == WaitCount(inverse, n, x)
    decreases larger
  {
    if n < larger {
      WaitCountGrow(inverse, n, larger - 1, x);
    }
  }

  // ----- the waits-for graph -----

  ghost predicate WaitsForNone(inverse: map<nat, seq<nat>>, m: nat, ids: set<nat>) {
    forall d :: d in ids ==> m !in Waiters(inverse, d)
  }

  ghost predicate HasSink(inverse: map<nat, seq<nat>>, ids: set<nat>) {
    exists m :: m in ids && WaitsForNone(inverse, m, ids)
  }

  // No non-empty set of ids in which everyone waits for someone of the set.
  ghost predicate Acyclic(inverse: map<nat, seq<nat>>) {
    forall ids: set<nat> :: ids != {} ==> HasSink(inverse, ids)
  }

  lemma AcyclicFewerEdges(a: map<nat, seq<nat>>, b: map<nat, seq<nat>>)
    requires Acyclic(a)
    requires forall d, m :: m in Waiters(b, d) ==> m in Waiters(a, d)
    ensures Acyclic(b)
  {
    forall ids: set<nat> | ids != {}
      ensures HasSink(b, ids)
    {
      assert HasSink(a, ids);
      var m :| m in ids && WaitsForNone(a, m, ids);
      assert WaitsForNone(b, m, ids);
    }
  }

  // A new edge closes no cycle when some set contains its target and not its source and is
  // closed under waiting.
  lemma AcyclicNewEdge(a: map<nat, seq<nat>>, m: nat, d: nat, reached: set<nat>)
    requires Acyclic(a)
    requires d in reached && m !in reached
    requires forall x, e :: x in reached && x in Waiters(a, e) ==> e in reached
    ensures Acyclic(a[d := Waiters(a, d) + [m]])
  {
    var b := a[d := Waiters(a, d) + [m]];
    forall e: nat, x: nat
      ensures x in Waiters(b, e) <==> x in Waiters(a, e) || (x == m && e == d)
    {
    }
    forall ids: set<nat> | ids != {}
      ensures HasSink(b, ids)
    {
      NewEdgeSink(a, b, m, d, reached, ids);
    }
  }

  lemma NewEdgeSink(a: map<nat, seq<nat>>, b: map<nat, seq<nat>>, m: nat, d: nat, reached: set<nat>, ids: set<nat>)
    requires Acyclic(a) && ids != {}
    requires d in reached && m !in reached
    requires forall x, e :: x in reached && x in Waiters(a, e) ==> e in reached
    requires forall e: nat, x: nat :: x in Waiters(b, e) <==> x in Waiters(a, e) || (x == m && e == d)
    ensures HasSink(b, ids)
  {
    hide Waiters;
    assert HasSink(a, ids);
    var x :| x in ids && WaitsForNone(a, x, ids);
    if x != m || d !in ids {
      assert WaitsForNone(b, x, ids);
    } else {
      var inside := ids * reached;
      assert d in inside;
      assert HasSink(a, inside);
      var y :| y in inside && WaitsForNone(a, y, inside);
      assert WaitsForNone(b, y, ids);
    }
  }

  // ----- the invariant -----

  ghost predicate IdsInRange(st: State) {
    && 3 <= st.maxId
    && st.history.declared.Keys == st.history.callbacks.Keys == st.modules.Keys
    && (forall m :: m in st.modules ==> m < st.maxId)
    && (forall m, i :: m in st.modules && 0 <= i < |st.history.declared[m]| ==>
          st.history.declared[m][i].Below(st.maxId))
    && (forall m :: m in st.modules && st.modules[m].dependencies.Some? ==>
          st.modules[m].dependencies.value == st.history.declared[m])
    && (forall d :: d in st.inverse ==> d < st.maxId)
  }

  // Only a dependency is waited for, and only by a module that did not complete.
  ghost predicate Backed(st: State) {
    forall m, d :: m in Waiters(st.inverse, d) ==> DependencyEdge(st.modules, m, d)
  }

  // The count of an incomplete module is its number of occurrences in the waiter lists plus
  // the decrements it is owed.
  ghost predicate Counted(st: State, owed: multiset<nat>) {
    forall m :: m in st.modules && !st.modules[m].complete ==>
      st.modules[m].unresolved == WaitCount(st.inverse, st.maxId, m) + owed[m]
  }

  ghost predicate Awaiting(st: State, hot: set<nat>) {
    forall m :: m in st.modules && !st.modules[m].complete && m !in hot ==> st.modules[m].unresolved > 0
  }

  ghost predicate Ordered(st: State) {
    var order := st.history.order;
    && (forall i, j :: 0 <= i < j < |order| ==> order[i] != order[j])
    && (forall m :: m in order ==> m in st.modules && st.modules[m].complete && st.modules[m].dependencies.None?)
    && (forall m :: m in st.modules && st.modules[m].dependencies.None? ==> m in order)
    && (forall m :: m in st.modules && st.modules[m].complete && m !in order ==> st.modules[m].error.Some?)
    && (forall m :: m in order ==> Waiters(st.inverse, m) == [])
  }

  // Dependency i of m needs no more attention: it is waited for, or done, or was dropped.
  ghost predicate Settled(st: State, m: nat, i: nat)
    requires m in st.history.declared && i < |st.history.declared[m]|
  {
    var dep := st.history.declared[m][i];
    || dep.Special()
    || (m, i) in st.history.broken
    || dep.Id() in st.history.order
    || m in Waiters(st.inverse, dep.Id())
  }

  // `open` has the modules that are being resolved, and how far they are.
  ghost predicate AllSettled(st: State, open: map<nat, nat>)
    requires st.history.declared.Keys == st.modules.Keys
  {
    forall m, i :: m in st.modules && !st.modules[m].complete && 0 <= i < |st.history.declared[m]| && (m in open ==> i < open[m]) ==>
      Settled(st, m, i)
  }

  // These modules are owed decrements, so that they cannot complete meanwhile.
  ghost predicate Resuming(st: State, owed: multiset<nat>, open: map<nat, nat>) {
    forall m :: m in open ==> m in st.modules && !st.modules[m].complete && owed[m] > 0
  }

  // Dependency i of the k-th completed module completed before it, unless dropped.
  ghost predicate DoneBefore(h: History, k: nat, i: nat)
    requires k < |h.order| && h.order[k] in h.declared && i < |h.declared[h.order[k]]|
  {
    var dep := h.declared[h.order[k]][i];
    dep.Special() || (h.order[k], i) in h.broken || dep.Id() in h.order[..k]
  }

  ghost predicate Topological(h: History) {
    && (forall k :: 0 <= k < |h.order| ==> h.order[k] in h.declared)
    && (forall k, i :: 0 <= k < |h.order| && 0 <= i < |h.declared[h.order[k]]| ==> DoneBefore(h, k, i))
  }

  // The value passed for dependency i of m is what that dependency exports.
  ghost predicate PassedExport(st: State, m: nat, i: nat)
    requires m in st.history.declared && i < |st.history.declared[m]|
    requires m in st.history.passed && |st.history.passed[m]| == |st.history.declared[m]|
  {
    var dep := st.history.declared[m][i];
    dep.Special() || (m, i) in st.history.broken ||
    (dep.Id() in st.modules && st.history.passed[m][i] == st.modules[dep.Id()].exports)
  }

  ghost predicate PassedExports(st: State) {
    forall m :: m in st.history.order ==>
      && m in st.history.declared
      && m in st.history.passed
      && |st.history.passed[m]| == |st.history.declared[m]|
      && forall i :: 0 <= i < |st.history.declared[m]| ==> PassedExport(st, m, i)
  }

  ghost predicate Invariant(st: State, owed: multiset<nat>, hot: set<nat>, open: map<nat, nat>) {
    && Tables(st)
    && IdsInRange(st)
    && Backed(st)
    && Counted(st, owed)
    && Awaiting(st, hot)
    && Ordered(st)
    && AllSettled(st, open)
    && Topological(st.history)
    && PassedExports(st)
    && Acyclic(st.inverse)
  }

  // What holds between two steps.
  ghost predicate Stable(st: State) {
    Invariant(st, multiset{}, {}, map[])
  }

  // ----- the completion cascade -----

  lemma NoWaitWhenZero(st: State, m: nat, owed: multiset<nat>)
    requires IdsInRange(st) && Counted(st, owed)
    requires m in st.modules && !st.modules[m].complete && st.modules[m].unresolved == 0
    ensures forall d :: m !in Waiters(st.inverse, d)
  {
    WaitCountMember(st.inverse, st.maxId, m);
  }

  lemma FinishKeepsInvariant(st: State, m: nat, owed: multiset<nat>, open: map<nat, nat>)
    requires Invariant(st, owed, {m}, open) && Resuming(st, owed, open)
    requires m in st.modules && !st.modules[m].complete && st.modules[m].unresolved == 0
    ensures Invariant(Finish(st, m), owed + multiset(Waiters(st.inverse, m)), {}, open)
    ensures Resuming(Finish(st, m), owed, open)
  {
    hide Tables, IdsInRange, Backed, Counted, Awaiting, Ordered, AllSettled, Topological, PassedExports, Acyclic, Resuming, Finish;
    NotOpen(st, m, owed, open);
    FinishAwaiting(st, m, owed, open);
    NoWaitWhenZero(st, m, owed);
    FinishTables(st, m);
    FinishCounted(st, m, owed);
    FinishOrdered(st, m);
    FinishSettled(st, m, open);
    FinishTopological(st, m, owed, open);
    FinishPassed(st, m, owed, open);
  }

  lemma FinishAwaiting(st: State, m: nat, owed: multiset<nat>, open: map<nat, nat>)
    requires Awaiting(st, {m}) && Resuming(st, owed, open) && m in st.modules && m !in open
    ensures Awaiting(Finish(st, m), {}) && Resuming(Finish(st, m), owed, open)
  {
  }

  lemma NotOpen(st: State, m: nat, owed: multiset<nat>, open: map<nat, nat>)
    requires Counted(st, owed) && Resuming(st, owed, open)
    requires m in st.modules && !st.modules[m].complete && st.modules[m].unresolved == 0
    ensures m !in open
  {
  }

  lemma FinishTables(st: State, m: nat)
    requires Tables(st) && IdsInRange(st) && Backed(st) && Acyclic(st.inverse)
    requires m in st.modules && forall d :: m !in Waiters(st.inverse, d)
    ensures Tables(Finish(st, m)) && IdsInRange(Finish(st, m)) && Backed(Finish(st, m)) && Acyclic(Finish(st, m).inverse)
  {
    var r := Finish(st, m);
    AcyclicFewerEdges(st.inverse, r.inverse);
    forall x, d | x in Waiters(r.inverse, d)
      ensures DependencyEdge(r.modules, x, d)
    {
      assert DependencyEdge(st.modules, x, d);
    }
  }

  lemma FinishSettled(st: State, m: nat, open: map<nat, nat>)
    requires IdsInRange(st) && AllSettled(st, open) && m in st.modules
    ensures AllSettled(Finish(st, m), open)
  {
    var r := Finish(st, m);
    forall x, i | x in r.modules && !r.modules[x].complete && 0 <= i < |r.history.declared[x]| && (x in open ==> i < open[x])
      ensures Settled(r, x, i)
    {
      assert Settled(st, x, i);
    }
  }

  lemma FinishCounted(st: State, m: nat, owed: multiset<nat>)
    requires IdsInRange(st) && Counted(st, owed) && m in st.modules
    ensures Counted(Finish(st, m), owed + multiset(Waiters(st.inverse, m)))
  {
    var r := Finish(st, m);
    forall x | x in r.modules && !r.modules[x].complete
      ensures r.modules[x].unresolved == WaitCount(r.inverse, r.maxId, x) + (owed + multiset(Waiters(st.inverse, m)))[x]
    {
      WaitCountUpdate(st.inverse, r.inverse, st.maxId, m, x);
    }
  }

  lemma FinishOrdered(st: State, m: nat)
    requires IdsInRange(st) && Ordered(st) && m in st.modules && !st.modules[m].complete
    ensures Ordered(Finish(st, m))
  {
    var r := Finish(st, m);
    assert r.history.order == st.history.order + [m];
    assert m !in st.history.order;
  }

  lemma FinishTopological(st: State, m: nat, owed: multiset<nat>, open: map<nat, nat>)
    requires Invariant(st, owed, {m}, open) && m !in open
    requires m in st.modules && !st.modules[m].complete
    requires forall d :: m !in Waiters(st.inverse, d)
    ensures Topological(Finish(st, m).history)
  {
    var h, h' := st.history, Finish(st, m).history;
    forall k, i | 0 <= k < |h'.order| && 0 <= i < |h'.declared[h'.order[k]]|
      ensures DoneBefore(h', k, i)
    {
      if k < |h.order| {
        assert DoneBefore(h, k, i);
        assert h'.order[..k] == h.order[..k];
      } else {
        assert h'.order[..k] == h.order;
        assert Settled(st, m, i);
      }
    }
  }

  lemma FinishPassed(st: State, m: nat, owed: multiset<nat>, open: map<nat, nat>)
    requires Invariant(st, owed, {m}, open) && m !in open
    requires m in st.modules && !st.modules[m].complete
    requires forall d :: m !in Waiters(st.inverse, d)
    ensures PassedExports(Finish(st, m))
  {
    hide Tables, Counted, Awaiting, Backed, Acyclic;
    var r := Finish(st, m);
    forall x, i | x in r.history.order && 0 <= i < |r.history.declared[x]|
      ensures PassedExport(r, x, i)
    {
      if x == m {
        assert Settled(st, m, i);
      } else {
        var k :| 0 <= k < |st.history.order| && st.history.order[k] == x;
        assert DoneBefore(st.history, k, i);
        assert PassedExport(st, x, i);
      }
    }
  }

  // Requests, known ids and queued plugin dependencies play no part in the invariant.
  lemma RequestsKeepInvariant(st: State, r: State, owed: multiset<nat>, hot: set<nat>, open: map<nat, nat>)
    requires Invariant(st, owed, hot, open)
    requires Tables(r) && r == st.(known := r.known, requests := r.requests, inversePlugins := r.inversePlugins)
    ensures Invariant(r, owed, hot, open)
  {
    assert forall m, i :: m in st.modules && 0 <= i < |st.history.declared[m]| ==> Settled(r, m, i) == Settled(st, m, i);
    forall m, i | m in st.history.order && 0 <= i < |st.history.declared[m]|
      ensures PassedExport(r, m, i)
    {
      assert PassedExport(st, m, i);
    }
    forall m, d | m in Waiters(r.inverse, d)
      ensures DependencyEdge(r.modules, m, d)
    {
      assert DependencyEdge(st.modules, m, d);
    }
  }

  // Neither do the errors that were told.
  lemma EventsKeepTopological(h: History, told: History)
    requires Topological(h) && told == h.(reported := told.reported, called := told.called)
    ensures Topological(told)
  {
    forall k, i | 0 <= k < |told.order| && 0 <= i < |told.declared[told.order[k]]|
      ensures DoneBefore(told, k, i)
    {
      assert DoneBefore(h, k, i);
    }
  }

  lemma EventsKeepInvariant(st: State, r: State, owed: multiset<nat>, hot: set<nat>, open: map<nat, nat>)
    requires Invariant(st, owed, hot, open)
    requires r == st.(history := st.history.(reported := r.history.reported, called := r.history.called))
    ensures Invariant(r, owed, hot, open)
  {
    EventsKeepTopological(st.history, r.history);
    assert forall m, i :: m in st.modules && 0 <= i < |st.history.declared[m]| ==> Settled(r, m, i) == Settled(st, m, i);
    forall m, i | m in st.history.order && 0 <= i < |st.history.declared[m]|
      ensures PassedExport(r, m, i)
    {
      assert PassedExport(st, m, i);
    }
    forall m, d | m in Waiters(r.inverse, d)
      ensures DependencyEdge(r.modules, m, d)
    {
      assert DependencyEdge(st.modules, m, d);
    }
  }

  // From st to s one count went down by one; a dropped dependency may have been noted.
  ghost predicate CountsDown(st: State, s: State, m: nat) {
    && m in st.modules && m in s.modules
    && s == st.(modules := s.modules, hasCycle := s.hasCycle, history := s.history)
    && s.modules == st.modules[m := s.modules[m]]
    && s.modules[m] == st.modules[m].(unresolved := st.modules[m].unresolved - 1, exportsPassedIn := s.modules[m].exportsPassedIn)
    && s.history == st.history.(broken := s.history.broken)
    && st.history.broken <= s.history.broken
  }

  lemma CountsDownTables(st: State, s: State, m: nat)
    requires CountsDown(st, s, m)
    requires Tables(st) && IdsInRange(st) && Backed(st) && Ordered(st)
    ensures Tables(s) && IdsInRange(s) && Backed(s) && Ordered(s)
  {
    hide Tables, IdsInRange, Backed, Ordered, CountsDown;
    CountsDownIds(st, s, m);
    CountsDownBacked(st, s, m);
    CountsDownOrdered(st, s, m);
  }

  lemma CountsDownIds(st: State, s: State, m: nat)
    requires CountsDown(st, s, m) && Tables(st) && IdsInRange(st)
    ensures Tables(s) && IdsInRange(s)
  {
  }

  lemma CountsDownOrdered(st: State, s: State, m: nat)
    requires CountsDown(st, s, m) && Ordered(st)
    ensures Ordered(s)
  {
  }

  lemma CountsDownBacked(st: State, s: State, m: nat)
    requires CountsDown(st, s, m) && Backed(st)
    ensures Backed(s)
  {
    forall x, d | x in Waiters(s.inverse, d)
      ensures DependencyEdge(s.modules, x, d)
    {
      assert DependencyEdge(st.modules, x, d);
    }
  }

  lemma CountsDownSettled(st: State, s: State, m: nat, open: map<nat, nat>)
    requires CountsDown(st, s, m)
    requires IdsInRange(st) && AllSettled(st, open)
    ensures AllSettled(s, open)
  {
    forall x, i | x in s.modules && !s.modules[x].complete && 0 <= i < |s.history.declared[x]| && (x in open ==> i < open[x])
      ensures Settled(s, x, i)
    {
      assert Settled(st, x, i);
    }
  }

  lemma CountsDownHistory(st: State, s: State, m: nat)
    requires CountsDown(st, s, m)
    requires Topological(st.history) && PassedExports(st)
    ensures Topological(s.history) && PassedExports(s)
  {
    forall k, i | 0 <= k < |s.history.order| && 0 <= i < |s.history.declared[s.history.order[k]]|
      ensures DoneBefore(s.history, k, i)
    {
      assert DoneBefore(st.history, k, i);
    }
    forall x, i | x in s.history.order && 0 <= i < |s.history.declared[x]|
      ensures PassedExport(s, x, i)
    {
      assert PassedExport(st, x, i);
    }
  }

  lemma DecrementKeepsInvariant(st: State, x: nat, owed: multiset<nat>, open: map<nat, nat>)
    requires Invariant(st, owed + multiset{x}, {}, open)
    requires x in st.modules
    ensures Invariant(Decrement(st, x), owed, {x}, open)
    ensures Decrement(st, x).modules[x].unresolved != 0 || st.modules[x].complete ==> Invariant(Decrement(st, x), owed, {}, open)
    ensures Resuming(st, owed, open) ==> Resuming(Decrement(st, x), owed, open)
  {
    hide Tables, IdsInRange, Backed, Ordered, Topological, PassedExports, Acyclic, AllSettled, CountsDown, Counted, Awaiting,
         Decrement, Resuming;
    var s := Decrement(st, x);
    DecrementAwaiting(st, x, owed, open);
    CountsDownTables(st, s, x);
    CountsDownSettled(st, s, x, open);
    CountsDownHistory(st, s, x);
    DecrementCounted(st, x, owed);
  }

  lemma DecrementCounted(st: State, x: nat, owed: multiset<nat>)
    requires Counted(st, owed + multiset{x}) && x in st.modules
    ensures Counted(Decrement(st, x), owed)
    ensures !st.modules[x].complete ==> Decrement(st, x).modules[x].unresolved >= 0
  {
  }

  lemma DecrementAwaiting(st: State, x: nat, owed: multiset<nat>, open: map<nat, nat>)
    requires Awaiting(st, {}) && Acyclic(st.inverse) && x in st.modules
    ensures var s := Decrement(st, x);
      && CountsDown(st, s, x) && Awaiting(s, {x}) && Acyclic(s.inverse)
      && (s.modules[x].unresolved > 0 || st.modules[x].complete ==> Awaiting(s, {}))
      && (Resuming(st, owed, open) ==> Resuming(s, owed, open))
  {
    hide Acyclic;
  }

  lemma {:induction false} CompleteKeepsInvariant(st: State, m: nat, owed: multiset<nat>, open: map<nat, nat>)
    requires Invariant(st, owed, {m}, open) && Resuming(st, owed, open) && m in st.modules
    requires !st.modules[m].complete ==> st.modules[m].unresolved == 0
    ensures Invariant(CompleteModule(st, m), owed, {}, open) && Resuming(CompleteModule(st, m), owed, open)
    decreases Incomplete(st), 1, 0
  {
    if !st.modules[m].complete {
      var finished := Finish(st, m);
      var waiters := Waiters(st.inverse, m);
      FinishKeepsInvariant(st, m, owed, open);
      assert m in Incomplete(st) && m !in Incomplete(finished);
      ReleaseKeepsInvariant(finished, waiters, owed, open);
      var released := Release(finished, waiters);
      RequestsKeepInvariant(released, ReleasePlugins(released, m), owed, {}, open);
    }
  }

  lemma OwedSplit(waiters: seq<nat>, owed: multiset<nat>)
    requires waiters != []
    ensures owed + multiset(waiters) == owed + multiset(waiters[1..]) + multiset{waiters[0]}
  {
    assert waiters == [waiters[0]] + waiters[1..];
  }

  lemma {:induction false} ReleaseKeepsInvariant(st: State, waiters: seq<nat>, owed: multiset<nat>, open: map<nat, nat>)
    requires Tables(st) && Invariant(st, owed + multiset(waiters), {}, open) && Resuming(st, owed, open)
    requires forall k :: 0 <= k < |waiters| ==> waiters[k] in st.modules
    ensures Invariant(Release(st, waiters), owed, {}, open) && Resuming(Release(st, waiters), owed, open)
    decreases Incomplete(st), 2, |waiters|
  {
    hide Invariant;
    if waiters == [] {
      assert owed + multiset(waiters) == owed;
    } else {
      var rest := owed + multiset(waiters[1..]);
      OwedSplit(waiters, owed);
      ReleaseOneKeepsInvariant(st, waiters[0], rest, open, owed);
      ReleaseKeepsInvariant(ReleaseOne(st, waiters[0]), waiters[1..], owed, open);
    }
  }

  // `least` is what the open modules are owed for themselves.
  lemma {:induction false} ReleaseOneKeepsInvariant(st: State, x: nat, owed: multiset<nat>, open: map<nat, nat>, least: multiset<nat>)
    requires Tables(st) && Invariant(st, owed + multiset{x}, {}, open) && x in st.modules
    requires Resuming(st, least, open) && least <= owed
    ensures Invariant(ReleaseOne(st, x), owed, {}, open) && Resuming(ReleaseOne(st, x), least, open)
    decreases Incomplete(st), 1, 1
  {
    hide Invariant;
    MoreOwed(st, least, owed, open);
    DecrementKeepsInvariant(st, x, owed, open);
    var s := Decrement(st, x);
    assert Incomplete(s) == Incomplete(st);
    if s.modules[x].unresolved == 0 {
      CompleteKeepsInvariant(s, x, owed, open);
    }
    StillResuming(st, ReleaseOne(st, x), least, owed, open);
  }

  lemma MoreOwed(st: State, least: multiset<nat>, owed: multiset<nat>, open: map<nat, nat>)
    requires Resuming(st, least, open) && least <= owed
    ensures Resuming(st, owed, open)
  {
  }

  lemma StillResuming(st: State, r: State, least: multiset<nat>, owed: multiset<nat>, open: map<nat, nat>)
    requires Resuming(st, least, open) && Resuming(r, owed, open)
    ensures Resuming(r, least, open)
  {
  }
}
