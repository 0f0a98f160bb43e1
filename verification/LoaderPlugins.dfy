// When cycles through plugins hold modules up (src/vs/loader.js:1759, 1773-1787).

module LoaderPlugins {
  import opened LoaderState
  import opened LoaderInvariant
  import opened LoaderProgress
  import opened LoaderTheorems
  import opened Sequences

  // A module waits for b, or an awaited resource is queued behind the plugin b.
  ghost predicate HeldUpBy(st: State, a: nat, b: nat) {
    || a in Waiters(st.inverse, b)
    || (QueuedBehind(st, a, b) && Waiters(st.inverse, a) != [])
  }

  ghost predicate IsHoldChain(st: State, p: seq<nat>) {
    |p| > 0 && forall i :: 0 <= i < |p| - 1 ==> HeldUpBy(st, p[i], p[i + 1])
  }

  // A chain from m that comes back to one of its ids
  ghost predicate LeadsIntoCycle(st: State, m: nat, p: seq<nat>) {
    && |p| >= 2 && p[0] == m && IsHoldChain(st, p)
    && exists k :: 0 <= k < |p| - 1 && p[k] == p[|p| - 1]
  }

  // Everything that was asked for was defined.
  ghost predicate AskedDefined(st: State) {
    forall d :: d in st.known ==> d in st.modules
  }

  // The modules that are incomplete, and the undefined ids they wait for
  ghost function Held(st: State): set<nat> {
    Incomplete(st) + set d: nat | d < st.maxId && d !in st.modules && Waiters(st.inverse, d) != [] :: d
  }

  lemma HeldGoesOn(st: State, x: nat) returns (y: nat)
    requires Stable(st) && Requested(st, {}) && ErrorFree(st) && AskedDefined(st) && x in Held(st)
    ensures y in Held(st) && HeldUpBy(st, x, y)
  {
    hide Acyclic, Topological, PassedExports, AllSettled, Tables, AskedOnce;
    if x in st.modules {
      WaitCountMember(st.inverse, st.maxId, x);
      y :| 0 <= y < st.maxId && x in Waiters(st.inverse, y);
      if y in st.modules {
        assert y !in st.history.order;
        assert !Failed(st, y);
      }
    } else {
      assert Waiters(st.inverse, x)[0] in Waiters(st.inverse, x);
      assert OnItsWay(st, x, {});
      assert !Asked(st, x);
      y :| QueuedBehind(st, x, y) && Asked(st, y) && y !in st.history.order;
      assert !Failed(st, y);
    }
  }

  lemma {:induction false} WalkOn(st: State, m: nat, n: nat) returns (p: seq<nat>)
    requires Stable(st) && Requested(st, {}) && ErrorFree(st) && AskedDefined(st) && m in Held(st)
    ensures |p| == n + 1 && p[0] == m && IsHoldChain(st, p)
    ensures forall i :: 0 <= i < |p| ==> p[i] in Held(st)
  {
    hide Stable, Requested, Held, HeldUpBy;
    if n == 0 {
      p := [m];
    } else {
      var q := WalkOn(st, m, n - 1);
      var y := HeldGoesOn(st, q[n - 1]);
      p := q + [y];
    }
  }

  // More ids than there are in a set cannot all be different.
  lemma {:induction false} Pigeonhole(p: seq<nat>, ids: set<nat>)
    requires Distinct(p) && forall i :: 0 <= i < |p| ==> p[i] in ids
    ensures |p| <= |ids|
  {
    if p != [] {
      var last := |p| - 1;
      Pigeonhole(p[..last], ids - {p[last]});
    }
  }

  lemma WalkRepeats(st: State, m: nat) returns (p: seq<nat>)
    requires Stable(st) && Requested(st, {}) && ErrorFree(st) && AskedDefined(st) && m in Held(st)
    ensures LeadsIntoCycle(st, m, p)
  {
    hide Stable, Requested, Held, HeldUpBy;
    var q := WalkOn(st, m, |Held(st)|);
    if Distinct(q) {
      Pigeonhole(q, Held(st));
    }
    var i, j :| 0 <= i < j < |q| && q[i] == q[j];
    p := q[..j + 1];
    assert p[i] == p[|p| - 1];
  }

  // Without failures, and with everything defined that was asked for, a module is incomplete
  // exactly if it is held up, through others, by a cycle of waiting modules and resources queued
  // behind plugins.
  lemma IncompleteIffPluginCycle(states: seq<State>, steps: seq<Step>, i: nat, m: nat)
    requires IsRun(states, steps) && i < |states| && ErrorFree(states[i]) && AskedDefined(states[i])
    requires m in states[i].modules
    ensures !states[i].modules[m].complete <==> exists p :: LeadsIntoCycle(states[i], m, p)
  {
    hide IsRun;
    RunStable(states, steps, i);
    var st := states[i];
    if !st.modules[m].complete {
      var p := WalkRepeats(st, m);
    }
    forall p | LeadsIntoCycle(st, m, p)
      ensures !st.modules[m].complete
    {
      assert HeldUpBy(st, p[0], p[1]);
      HeldIncomplete(st, m, p[1]);
    }
  }

  lemma HeldIncomplete(st: State, m: nat, d: nat)
    requires Stable(st) && ErrorFree(st) && m in st.modules && HeldUpBy(st, m, d)
    ensures !st.modules[m].complete
  {
    hide Acyclic, Topological, PassedExports, AllSettled, Tables;
    assert !Failed(st, m);
    if m in Waiters(st.inverse, d) {
      WaiterNotDone(st, m, d);
    }
  }

  // Such a cycle always goes through a plugin.
  lemma PluginOnCycle(states: seq<State>, steps: seq<Step>, i: nat, p: seq<nat>)
    requires IsRun(states, steps) && i < |states|
    requires |p| >= 2 && p[0] == p[|p| - 1] && IsHoldChain(states[i], p)
    ensures exists k :: 0 <= k < |p| - 1 && p[k] !in Waiters(states[i].inverse, p[k + 1]) && QueuedBehind(states[i], p[k], p[k + 1])
  {
    var st := states[i];
    if forall k :: 0 <= k < |p| - 1 ==> p[k] in Waiters(st.inverse, p[k + 1]) {
      var q := seq(|p|, k requires 0 <= k < |p| => p[|p| - 1 - k]);
      forall k | 0 <= k < |q| - 1
        ensures WaitEdge(st.inverse, q[k], q[k + 1])
      {
        assert p[|p| - 2 - k] in Waiters(st.inverse, p[|p| - 2 - k + 1]);
      }
      WaitsForAcyclic(states, steps, i, q);
    } else {
      var k :| 0 <= k < |p| - 1 && p[k] !in Waiters(st.inverse, p[k + 1]);
      assert HeldUpBy(st, p[k], p[k + 1]);
    }
  }
}
