// The cycle report of the loader (src/vs/loader.js:1613-1637): a depth-first search that
// keeps no record of visited modules and gives up at depth 50.

module LoaderCycles {
  import opened Options
  import opened LoaderState

  const MAX_DEPTH: nat := 50

  // The result lists the path backwards, from its end to `from`.
  function FindCyclePath(modules: map<nat, ModuleRecord>, from: nat, to: nat, depth: nat): Option<seq<nat>>
    requires depth <= MAX_DEPTH
    decreases MAX_DEPTH - depth, 1, 0
  {
    if from == to || depth == MAX_DEPTH then Some([from])
    else if from !in modules then None
    else match modules[from].dependencies
      case None => None
      case Some(deps) => FindThrough(modules, from, deps, to, depth)
  }

  // The loop over the dependencies of `from`
  function FindThrough(modules: map<nat, ModuleRecord>, from: nat, deps: seq<Dependency>, to: nat, depth: nat): Option<seq<nat>>
    requires depth < MAX_DEPTH
    decreases MAX_DEPTH - depth, 0, |deps|
  {
    if deps == [] then None
    else match FindCyclePath(modules, deps[0].Id(), to, depth + 1)
      case Some(path) => Some(path + [from])
      case None => FindThrough(modules, from, deps[1..], to, depth)
  }

  function Reverse<T>(s: seq<T>): (r: seq<T>)
    ensures |r| == |s|
    ensures forall i :: 0 <= i < |s| ==> r[i] == s[|s| - 1 - i]
  {
    if s == [] then [] else Reverse(s[1..]) + [s[0]]
  }

  // What a path reported at some depth looks like, read forwards.
  ghost predicate IsReport(modules: map<nat, ModuleRecord>, path: seq<nat>, from: nat, to: nat, depth: nat)
    requires depth <= MAX_DEPTH
  {
    && 1 <= |path| <= MAX_DEPTH + 1 - depth
    && Reverse(path)[0] == from
    && IsDependencyPath(modules, Reverse(path))
    && (|path| < MAX_DEPTH + 1 - depth ==> Reverse(path)[|path| - 1] == to)
  }

  lemma {:induction false} FindCyclePathReports(modules: map<nat, ModuleRecord>, from: nat, to: nat, depth: nat)
    requires depth <= MAX_DEPTH
    ensures var r := FindCyclePath(modules, from, to, depth); r.Some? ==> IsReport(modules, r.value, from, to, depth)
    decreases MAX_DEPTH - depth, 1, 0
  {
    if from != to && depth != MAX_DEPTH && from in modules && modules[from].dependencies.Some? {
      FindThroughReports(modules, from, modules[from].dependencies.value, 0, to, depth);
    }
  }

  lemma {:induction false} FindThroughReports(modules: map<nat, ModuleRecord>, from: nat, deps: seq<Dependency>, k: nat, to: nat, depth: nat)
    requires depth < MAX_DEPTH && from != to
    requires from in modules && modules[from].dependencies == Some(deps) && k <= |deps|
    ensures var r := FindThrough(modules, from, deps[k..], to, depth); r.Some? ==> IsReport(modules, r.value, from, to, depth)
    decreases MAX_DEPTH - depth, 0, |deps| - k
  {
    if k < |deps| {
      var id := deps[k].Id();
      FindCyclePathReports(modules, id, to, depth + 1);
      match FindCyclePath(modules, id, to, depth + 1)
      case Some(path) =>
        var forward, inner := Reverse(path + [from]), Reverse(path);
        assert forward == [from] + inner;
        assert DependencyEdge(modules, from, id);
        forall i | 0 <= i < |forward| - 1
          ensures DependencyEdge(modules, forward[i], forward[i + 1])
        {
          if i > 0 {
            assert DependencyEdge(modules, inner[i - 1], inner[i]);
          }
        }
      case None =>
        assert deps[k..][1..] == deps[k + 1..];
        FindThroughReports(modules, from, deps, k + 1, to, depth);
    }
  }

  // A walk to the target, or one too long for the search to finish, is never missed.
  lemma {:induction false} FindCyclePathFinds(modules: map<nat, ModuleRecord>, p: seq<nat>, to: nat, depth: nat)
    requires depth <= MAX_DEPTH && IsDependencyPath(modules, p)
    requires p[|p| - 1] == to || |p| > MAX_DEPTH - depth
    ensures FindCyclePath(modules, p[0], to, depth).Some?
    decreases |p|
  {
    if p[0] != to && depth != MAX_DEPTH {
      assert DependencyEdge(modules, p[0], p[1]);
      var deps := modules[p[0]].dependencies.value;
      var k :| 0 <= k < |deps| && deps[k].Id() == p[1];
      var rest := p[1..];
      forall i | 0 <= i < |rest| - 1
        ensures DependencyEdge(modules, rest[i], rest[i + 1])
      {
        assert DependencyEdge(modules, p[i + 1], p[i + 2]);
      }
      FindCyclePathFinds(modules, rest, to, depth + 1);
      FindThroughFinds(modules, p[0], deps, k, to, depth);
    }
  }

  lemma {:induction false} FindThroughFinds(modules: map<nat, ModuleRecord>, from: nat, deps: seq<Dependency>, k: nat, to: nat, depth: nat)
    requires depth < MAX_DEPTH && k < |deps|
    requires FindCyclePath(modules, deps[k].Id(), to, depth + 1).Some?
    ensures FindThrough(modules, from, deps, to, depth).Some?
    decreases k
  {
    if k > 0 {
      assert deps[1..][k - 1] == deps[k];
      FindThroughFinds(modules, from, deps[1..], k - 1, to, depth);
    }
  }

  // Whenever the guard sees a path back, the report exists, follows real dependencies from the
  // start and, unless it was cut off, arrives.
  lemma CycleReport(modules: map<nat, ModuleRecord>, from: nat, to: nat)
    requires HasDependencyPath(modules, from, to)
    ensures var r := FindCyclePath(modules, from, to, 0);
      && r.Some? && 0 < |r.value| <= MAX_DEPTH + 1
      && Reverse(r.value)[0] == from
      && IsDependencyPath(modules, Reverse(r.value))
      && (|r.value| <= MAX_DEPTH ==> Reverse(r.value)[|r.value| - 1] == to)
  {
    var p :| |p| >= 2 && p[0] == from && p[|p| - 1] == to && IsDependencyPath(modules, p);
    FindCyclePathFinds(modules, p, to, 0);
    FindCyclePathReports(modules, from, to, 0);
  }
}
