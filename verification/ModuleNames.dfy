// Numbering of module names and normalisation of dependency names
// (src/vs/loader.js:1249-1279 and 1438-1466).

module ModuleNames {
  import opened LoaderState
  import opened ModuleIds
  import opened Sequences

  // ----- numbering, as a duplicate-free list of names -----

  function Interned(names: seq<string>, s: string): (r: seq<string>)
    ensures names <= r && s in r
    ensures Distinct(names) ==> Distinct(r)
  {
    if s in names then names else names + [s]
  }

  function IdOf(names: seq<string>, s: string): (id: nat)
    requires s in names
    ensures id < |names| && names[id] == s
  {
    if names[0] == s then 0 else IdOf(names[1..], s) + 1
  }

  // A name keeps its number for ever, and different names have different numbers.
  lemma IdOfStable(names: seq<string>, more: seq<string>, id: nat)
    requires Distinct(more) && names <= more && id < |names|
    ensures names[id] in more && IdOf(more, names[id]) == id
  {
    assert more[id] == names[id];
  }

  class ModuleIdProvider {
    var nextId: nat
    var strModuleIdToInt: map<string, nat>
    var intModuleIdToStr: seq<string>

    ghost predicate Valid()
      reads this
    {
      && nextId == |intModuleIdToStr|
      && Distinct(intModuleIdToStr)
      && ["exports", "module", "require"] <= intModuleIdToStr
      && (forall s :: s in strModuleIdToInt <==> s in intModuleIdToStr)
      && (forall s :: s in strModuleIdToInt ==> strModuleIdToInt[s] < nextId && intModuleIdToStr[strModuleIdToInt[s]] == s)
    }

    constructor ()
      ensures Valid() && intModuleIdToStr == ["exports", "module", "require"]
    {
      intModuleIdToStr := ["exports", "module", "require"];
      strModuleIdToInt := map["exports" := 0, "module" := 1, "require" := 2];
      nextId := 3;
    }

    method GetModuleId(strModuleId: string) returns (id: nat)
      requires Valid()
      modifies this
      ensures Valid()
      ensures intModuleIdToStr == Interned(old(intModuleIdToStr), strModuleId)
      ensures id == IdOf(intModuleIdToStr, strModuleId)
    {
      if strModuleId in strModuleIdToInt {
        id := strModuleIdToInt[strModuleId];
      } else {
        id := nextId;
        nextId := nextId + 1;
        strModuleIdToInt := strModuleIdToInt[strModuleId := id];
        intModuleIdToStr := intModuleIdToStr + [strModuleId];
        assert intModuleIdToStr[id] == strModuleId;
      }
      IdOfStable(intModuleIdToStr, intModuleIdToStr, id);
    }
  }

  // ----- dependency names -----

  function BangIndex(s: string): (k: int)
    ensures -1 <= k < |s|
  {
    if s == "" then -1
    else if s[0] == '!' then 0
    else
      var k := BangIndex(s[1..]);
      if k == -1 then -1 else k + 1
  }

  // _normalizeDependency: the names in use afterwards, and the dependency
  function NormalizeDependency(names: seq<string>, dependency: string, from: string): (r: (seq<string>, Dependency))
    ensures names <= r.0
    ensures |names| >= 3 ==> r.1.Below(|r.0|)
    ensures Distinct(names) ==> Distinct(r.0)
  {
    if dependency == "exports" then (names, ExportsDep)
    else if dependency == "module" then (names, ModuleDep)
    else if dependency == "require" then (names, RequireDep)
    else
      var bangIndex := BangIndex(dependency);
      if bangIndex >= 0 then
        var strPluginId := ResolveModule(from, dependency[..bangIndex]);
        var pluginParam := ResolveModule(from, dependency[bangIndex + 1..]);
        var strId := strPluginId + "!" + pluginParam;
        var withResource := Interned(names, strId);
        var withPlugin := Interned(withResource, strPluginId);
        (withPlugin, Plugin(IdOf(withResource, strId), IdOf(withPlugin, strPluginId), pluginParam))
      else
        var strId := ResolveModule(from, dependency);
        var withModule := Interned(names, strId);
        (withModule, Regular(IdOf(withModule, strId)))
  }

  function NormalizeDependencies(names: seq<string>, dependencies: seq<string>, from: string): (r: (seq<string>, seq<Dependency>))
    requires |names| >= 3
    ensures names <= r.0 && |r.1| == |dependencies|
    ensures forall i :: 0 <= i < |r.1| ==> r.1[i].Below(|r.0|)
    ensures Distinct(names) ==> Distinct(r.0)
    decreases |dependencies|
  {
    if dependencies == [] then (names, [])
    else
      var first := NormalizeDependency(names, dependencies[0], from);
      var rest := NormalizeDependencies(first.0, dependencies[1..], from);
      (rest.0, [first.1] + rest.1)
  }

  lemma {:induction false} NormalizeSnoc(names: seq<string>, dependencies: seq<string>, last: string, from: string)
    requires |names| >= 3
    ensures var r := NormalizeDependencies(names, dependencies, from);
      var d := NormalizeDependency(r.0, last, from);
      NormalizeDependencies(names, dependencies + [last], from) == (d.0, r.1 + [d.1])
    decreases |dependencies|
  {
    hide NormalizeDependency, Distinct;
    var all := dependencies + [last];
    if dependencies == [] {
      assert all[1..] == [];
      var d := NormalizeDependency(names, last, from);
      assert NormalizeDependencies(d.0, [], from) == (d.0, []);
      assert [d.1] + [] == [] + [d.1];
    } else {
      var first := NormalizeDependency(names, dependencies[0], from);
      NormalizeSnoc(first.0, dependencies[1..], last, from);
      assert all[1..] == dependencies[1..] + [last];
      var r := NormalizeDependencies(first.0, dependencies[1..], from);
      var d := NormalizeDependency(r.0, last, from);
      assert [first.1] + (r.1 + [d.1]) == ([first.1] + r.1) + [d.1];
    }
  }

  // What a dependency stands for, once its name has a number: one of the three special names, a
  // module, or a resource of a plugin, both parts of whose name are resolved.
  ghost predicate StandsFor(names: seq<string>, dependency: string, from: string, d: Dependency) {
    match d
    case ExportsDep => dependency == "exports"
    case ModuleDep => dependency == "module"
    case RequireDep => dependency == "require"
    case Regular(id) =>
      && dependency !in ["exports", "module", "require"] && '!' !in dependency
      && id < |names| && names[id] == ResolveModule(from, dependency)
    case Plugin(resourceId, pluginId, param) => exists k :: ResourceAt(names, dependency, from, resourceId, pluginId, param, k)
  }

  // The plugin is named in front of the first `!`, the resource behind it.
  ghost predicate ResourceAt(names: seq<string>, dependency: string, from: string, resourceId: nat, pluginId: nat, param: string, k: nat) {
    && k < |dependency| && dependency[k] == '!' && '!' !in dependency[..k]
    && resourceId < |names| && pluginId < |names|
    && names[pluginId] == ResolveModule(from, dependency[..k])
    && param == ResolveModule(from, dependency[k + 1..])
    && names[resourceId] == names[pluginId] + "!" + param
  }

  lemma {:induction false} BangFirst(s: string)
    ensures BangIndex(s) == -1 ==> '!' !in s
    ensures BangIndex(s) >= 0 ==> s[BangIndex(s)] == '!' && '!' !in s[..BangIndex(s)]
    decreases |s|
  {
    if s != "" && s[0] != '!' {
      BangFirst(s[1..]);
      var k := BangIndex(s[1..]);
      assert s == [s[0]] + s[1..];
      if k >= 0 {
        assert s[..k + 1] == [s[0]] + s[1..][..k];
      }
    }
  }

  lemma NormalizedStandsFor(names: seq<string>, dependency: string, from: string)
    ensures var r := NormalizeDependency(names, dependency, from); StandsFor(r.0, dependency, from, r.1)
  {
    hide Interned, IdOf, ResolveModule, Distinct;
    BangFirst(dependency);
    var k := BangIndex(dependency);
    var r := NormalizeDependency(names, dependency, from);
    if dependency !in ["exports", "module", "require"] && k >= 0 {
      assert ResourceAt(r.0, dependency, from, r.1.resourceId, r.1.pluginId, r.1.param, k);
    }
  }

  lemma StillStandsFor(names: seq<string>, more: seq<string>, dependency: string, from: string, d: Dependency)
    requires StandsFor(names, dependency, from, d) && names <= more
    ensures StandsFor(more, dependency, from, d)
  {
    hide ResolveModule;
    if d.Plugin? {
      var k :| ResourceAt(names, dependency, from, d.resourceId, d.pluginId, d.param, k);
      assert ResourceAt(more, dependency, from, d.resourceId, d.pluginId, d.param, k);
    }
  }

  ghost predicate AllStandFor(names: seq<string>, dependencies: seq<string>, from: string, deps: seq<Dependency>) {
    |deps| == |dependencies| && forall i :: 0 <= i < |deps| ==> StandsFor(names, dependencies[i], from, deps[i])
  }

  // Every dependency stands for its name, in order, and the names that were in use keep their numbers.
  lemma {:induction false} NormalizedStandForAll(names: seq<string>, dependencies: seq<string>, from: string)
    requires |names| >= 3
    ensures var r := NormalizeDependencies(names, dependencies, from); names <= r.0 && AllStandFor(r.0, dependencies, from, r.1)
    decreases |dependencies|
  {
    hide StandsFor, NormalizeDependency;
    if dependencies != [] {
      var first := NormalizeDependency(names, dependencies[0], from);
      var r := NormalizeDependencies(names, dependencies, from);
      NormalizedStandsFor(names, dependencies[0], from);
      NormalizedStandForAll(first.0, dependencies[1..], from);
      StillStandsFor(first.0, r.0, dependencies[0], from, first.1);
      forall i | 0 < i < |r.1|
        ensures StandsFor(r.0, dependencies[i], from, r.1[i])
      {
        assert r.1[i] == r.1[1..][i - 1] && dependencies[i] == dependencies[1..][i - 1];
      }
    }
  }
}
