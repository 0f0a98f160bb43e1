// How the loader turns the name of a dependency into an absolute module name
// (src/vs/loader.js:1105-1154, ModuleIdResolver).

module ModuleIds {
  import opened PathPieces
  import opened PathStack
  import opened CssPaths
  import opened CssPathTheorems

  // ----- the four patterns -----

  // `/./` at index i
  predicate DotAt(r: string, i: nat) {
    i + 2 < |r| && r[i] == '/' && r[i + 1] == '.' && r[i + 2] == '/'
  }

  // From index i: a segment that is not empty and not `..`, followed by `/../`.
  // j is the index of the slash that ends the segment.
  predicate ClimbBetween(r: string, i: nat, j: nat) {
    && i < j && j + 3 < |r|
    && (forall k :: i <= k < j ==> r[k] != '/')
    && r[j] == '/' && r[j + 1] == '.' && r[j + 2] == '.' && r[j + 3] == '/'
    && r[i..j] != ".."
  }

  // The end of the segment that starts at i: the next slash, or the end of the string
  function SegmentEnd(r: string, i: nat): (j: nat)
    requires i <= |r|
    ensures i <= j <= |r| && (j < |r| ==> r[j] == '/') && forall k :: i <= k < j ==> r[k] != '/'
    decreases |r| - i
  {
    if i == |r| || r[i] == '/' then i else SegmentEnd(r, i + 1)
  }

  predicate ClimbFrom(r: string, i: nat) {
    i <= |r| && ClimbBetween(r, i, SegmentEnd(r, i))
  }

  // `/segment/../` at index i
  predicate ClimbAt(r: string, i: nat) {
    i < |r| && r[i] == '/' && ClimbFrom(r, i + 1)
  }

  // The first index of a match, or -1
  function FirstDot(r: string, i: nat): (k: int)
    requires i <= |r|
    ensures k == -1 || (i <= k && DotAt(r, k))
    ensures forall n: nat :: i <= n && DotAt(r, n) ==> k != -1 && k <= n
    decreases |r| - i
  {
    if i == |r| then -1 else if DotAt(r, i) then i else FirstDot(r, i + 1)
  }

  function FirstClimb(r: string, i: nat): (k: int)
    requires i <= |r|
    ensures k == -1 || (i <= k && ClimbAt(r, k))
    ensures forall n: nat :: i <= n < |r| && ClimbAt(r, n) ==> k != -1 && k <= n
    decreases |r| - i
  {
    hide ClimbAt;
    if i == |r| then -1 else if ClimbAt(r, i) then i else FirstClimb(r, i + 1)
  }

  // ----- one replacement of each pattern -----

  function ReplaceDot(r: string, i: nat): (s: string)
    requires DotAt(r, i)
    ensures |s| < |r|
  {
    r[..i + 1] + r[i + 3..]
  }

  function ReplaceClimb(r: string, i: nat): (s: string)
    requires ClimbAt(r, i)
    ensures |s| < |r|
  {
    r[..i + 1] + r[SegmentEnd(r, i + 1) + 4..]
  }

  // ----- the whole rewriting -----

  function RemoveDots(r: string): string
    decreases |r|
  {
    var k := FirstDot(r, 0);
    if k == -1 then r else RemoveDots(ReplaceDot(r, k))
  }

  function StripDot(r: string): string {
    if StartsWith(r, "./") then r[2..] else r
  }

  function RemoveClimbs(r: string): string
    decreases |r|
  {
    var k := FirstClimb(r, 0);
    if k == -1 then r else RemoveClimbs(ReplaceClimb(r, k))
  }

  function StripClimb(r: string): string {
    if ClimbFrom(r, 0) then r[SegmentEnd(r, 0) + 4..] else r
  }

  function Normalize(moduleId: string): string {
    StripClimb(RemoveClimbs(StripDot(RemoveDots(moduleId))))
  }

  // _normalizeModuleId; both loops end because every replacement shortens the string
  method NormalizeModuleId(moduleId: string) returns (r: string)
    ensures r == Normalize(moduleId)
  {
    r := moduleId;
    var found := FirstDot(r, 0);
    while found != -1
      invariant found == FirstDot(r, 0)
      invariant RemoveDots(r) == RemoveDots(moduleId)
      decreases |r|
    {
      r := ReplaceDot(r, found);
      found := FirstDot(r, 0);
    }
    if StartsWith(r, "./") {
      r := r[2..];
    }
    ghost var undotted := r;
    found := FirstClimb(r, 0);
    while found != -1
      invariant found == FirstClimb(r, 0)
      invariant RemoveClimbs(r) == RemoveClimbs(undotted)
      decreases |r|
    {
      r := ReplaceClimb(r, found);
      found := FirstClimb(r, 0);
    }
    if ClimbFrom(r, 0) {
      r := r[SegmentEnd(r, 0) + 4..];
    }
  }

  // ----- the result is a fixed point, for every string -----

  predicate NoDots(r: string) {
    !StartsWith(r, "./") && forall i :: 0 <= i < |r| ==> !DotAt(r, i)
  }

  predicate NoClimbs(r: string) {
    forall i :: 0 <= i < |r| ==> !ClimbAt(r, i)
  }

  predicate Irreducible(r: string) {
    NoDots(r) && NoClimbs(r) && !ClimbFrom(r, 0)
  }

  lemma {:induction false} RemoveDotsLeavesNone(r: string)
    ensures FirstDot(RemoveDots(r), 0) == -1
    decreases |r|
  {
    var k := FirstDot(r, 0);
    if k != -1 {
      RemoveDotsLeavesNone(ReplaceDot(r, k));
    }
  }

  lemma StartsWithDot(r: string)
    ensures StartsWith(r, "./") <==> |r| >= 2 && r[0] == '.' && r[1] == '/'
  {
    if |r| >= 2 {
      assert r[..2] == [r[0], r[1]];
    }
  }

  lemma StripDotLeavesNone(r: string)
    requires forall i: nat :: !DotAt(r, i)
    ensures NoDots(StripDot(r))
  {
    var s := StripDot(r);
    StartsWithDot(r);
    StartsWithDot(s);
    if StartsWith(r, "./") {
      forall i | 0 <= i < |s|
        ensures !DotAt(s, i)
      {
        assert !DotAt(r, i + 2);
      }
      assert !DotAt(r, 1);
    }
  }

  // What is left when a part of r that ends with a slash is cut out after another slash
  lemma CutKeepsNoDots(r: string, i: nat, j: nat)
    requires NoDots(r) && i < j < |r| && r[i] == '/' && r[j] == '/'
    ensures NoDots(r[..i + 1] + r[j + 1..])
  {
    var s := r[..i + 1] + r[j + 1..];
    StartsWithDot(r);
    StartsWithDot(s);
    forall k | 0 <= k < |s|
      ensures !DotAt(s, k)
    {
      assert !DotAt(r, k) && !DotAt(r, k + j - i);
    }
    if i == 0 {
      assert s[0] == '/';
    }
  }

  lemma {:induction false} RemoveClimbsLeavesNone(r: string)
    requires NoDots(r)
    ensures NoDots(RemoveClimbs(r)) && NoClimbs(RemoveClimbs(r))
    decreases |r|
  {
    var k := FirstClimb(r, 0);
    if k != -1 {
      var j := SegmentEnd(r, k + 1);
      CutKeepsNoDots(r, k, j + 3);
      RemoveClimbsLeavesNone(ReplaceClimb(r, k));
    }
  }

  lemma SegmentEndSuffix(r: string, m: nat, i: nat)
    requires m <= i <= |r|
    ensures SegmentEnd(r[m..], i - m) == SegmentEnd(r, i) - m
    decreases |r| - i
  {
    if i < |r| && r[i] != '/' {
      SegmentEndSuffix(r, m, i + 1);
    }
  }

  lemma ClimbFromSuffix(r: string, m: nat, i: nat)
    requires m <= i <= |r|
    ensures ClimbFrom(r[m..], i - m) <==> ClimbFrom(r, i)
  {
    SegmentEndSuffix(r, m, i);
    var j := SegmentEnd(r, i);
    assert r[m..][i - m..j - m] == r[i..j];
  }

  lemma ClimbAtSuffix(r: string, m: nat, i: nat)
    requires m <= |r|
    ensures ClimbAt(r[m..], i) <==> ClimbAt(r, m + i)
  {
    if m + i < |r| {
      ClimbFromSuffix(r, m, m + i + 1);
    }
  }

  lemma SuffixIrreducible(r: string, m: nat)
    requires NoDots(r) && NoClimbs(r) && 0 < m <= |r| && r[m - 1] == '/'
    ensures Irreducible(r[m..])
  {
    var s := r[m..];
    StartsWithDot(s);
    assert !DotAt(r, m - 1);
    assert !ClimbAt(r, m - 1);
    ClimbFromSuffix(r, m, m);
    forall i | 0 <= i < |s|
      ensures !DotAt(s, i)
    {
      assert !DotAt(r, m + i);
    }
    forall i | 0 <= i < |s|
      ensures !ClimbAt(s, i)
    {
      ClimbAtSuffix(r, m, i);
    }
  }

  lemma StripClimbLeavesNone(r: string)
    requires NoDots(r) && NoClimbs(r)
    ensures Irreducible(StripClimb(r))
  {
    if ClimbFrom(r, 0) {
      SuffixIrreducible(r, SegmentEnd(r, 0) + 4);
    }
  }

  // Nothing is left to rewrite ...
  lemma NormalizeIrreducible(moduleId: string)
    ensures Irreducible(Normalize(moduleId))
  {
    RemoveDotsLeavesNone(moduleId);
    StripDotLeavesNone(RemoveDots(moduleId));
    RemoveClimbsLeavesNone(StripDot(RemoveDots(moduleId)));
    StripClimbLeavesNone(RemoveClimbs(StripDot(RemoveDots(moduleId))));
  }

  // ... so that normalising again changes nothing.
  lemma NormalizeIdempotent(moduleId: string)
    ensures Normalize(Normalize(moduleId)) == Normalize(moduleId)
  {
    NormalizeIrreducible(moduleId);
  }

  // ----- agreement with joinPaths -----

  lemma {:induction false} DotPieces(r: string, i: nat)
    requires DotAt(r, i)
    ensures Pieces(r) == Pieces(r[..i + 1]) + ["./"] + Pieces(r[i + 3..])
    ensures Pieces(ReplaceDot(r, i)) == Pieces(r[..i + 1]) + Pieces(r[i + 3..])
  {
    hide Pieces;
    assert r == r[..i + 1] + ("./" + r[i + 3..]);
    PiecesAppend(r[..i + 1], "./" + r[i + 3..]);
    FolderPieces("./", r[i + 3..]);
    PiecesAppend(r[..i + 1], r[i + 3..]);
  }

  // The stack result of a string
  function Stack(r: string): seq<string> {
    PushAll([], Pieces(r))
  }

  lemma SkipDot(a: seq<string>, b: seq<string>)
    ensures PushAll([], a + ["./"] + b) == PushAll([], a + b)
  {
    assert a + ["./"] + b == a + (["./"] + b);
    PushAllAppend([], a, ["./"] + b);
    PushAllAppend([], a, b);
    assert (["./"] + b)[1..] == b;
  }

  lemma PlainDrop(a: seq<string>, middle: seq<string>, b: seq<string>)
    requires Plain(a + middle + b)
    ensures Plain(a + b) && Plain(middle)
  {
    var all := a + middle + b;
    assert forall i :: 0 <= i < |a| ==> all[i] == a[i];
    assert forall i :: 0 <= i < |middle| ==> all[|a| + i] == middle[i];
    assert forall i :: 0 <= i < |b| ==> all[|a| + |middle| + i] == b[i];
  }

  lemma {:induction false} RemoveDotsKeepsStack(r: string)
    requires IsPlainPath(r)
    ensures IsPlainPath(RemoveDots(r)) && Stack(RemoveDots(r)) == Stack(r)
    decreases |r|
  {
    var k := FirstDot(r, 0);
    if k != -1 {
      DotPieces(r, k);
      SkipDot(Pieces(r[..k + 1]), Pieces(r[k + 3..]));
      PlainDrop(Pieces(r[..k + 1]), ["./"], Pieces(r[k + 3..]));
      RemoveDotsKeepsStack(ReplaceDot(r, k));
    }
  }

  lemma StripDotKeepsStack(r: string)
    requires IsPlainPath(r)
    ensures IsPlainPath(StripDot(r)) && Stack(StripDot(r)) == Stack(r)
  {
    hide Pieces, PushAll, Plain;
    if StartsWith(r, "./") {
      assert r == "./" + r[2..];
      FolderPieces("./", r[2..]);
      assert [] + ["./"] + Pieces(r[2..]) == Pieces(r);
      PlainDrop([], ["./"], Pieces(r[2..]));
      SkipDot([], Pieces(r[2..]));
      assert [] + Pieces(r[2..]) == Pieces(r[2..]);
    }
  }

  // A segment and the `../` behind it cancel.
  lemma SkipClimb(a: seq<string>, folder: string, b: seq<string>)
    requires Ordinary(folder)
    ensures PushAll([], a + [folder, "../"] + b) == PushAll([], a + b)
  {
    assert a + [folder, "../"] + b == (a + [folder]) + ["../"] + b;
    PushAllAppend([], (a + [folder]) + ["../"], b);
    PushAllSnoc([], a + [folder], "../");
    PushAllSnoc([], a, folder);
    PushAllAppend([], a, b);
  }

  lemma {:induction false} ThreePieces(front: string, folder: string, rest: string)
    requires IsDirectory(front) && IsFolder(folder)
    ensures Pieces(front + (folder + ("../" + rest))) == Pieces(front) + [folder, "../"] + Pieces(rest)
  {
    hide Pieces;
    PiecesAppend(front, folder + ("../" + rest));
    FolderPieces(folder, "../" + rest);
    FolderPieces("../", rest);
    assert [folder] + (["../"] + Pieces(rest)) == [folder, "../"] + Pieces(rest);
  }

  lemma ClimbSplit(r: string, i: nat)
    requires ClimbFrom(r, i)
    ensures var j := SegmentEnd(r, i);
      && r == r[..i] + (r[i..j + 1] + ("../" + r[j + 4..]))
      && IsFolder(r[i..j + 1]) && r[i..j + 1] != "../" && r[i..j + 1] != "/"
  {
    hide SegmentEnd, IsFolder, ClimbBetween;
    var j := SegmentEnd(r, i);
    ClimbFolder(r, i, j);
    hide ClimbFrom;
    SplitFour(r, i, j + 1, j + 4);
  }

  lemma SplitFour(r: string, i: nat, j: nat, k: nat)
    requires i <= j <= k <= |r|
    ensures r == r[..i] + (r[i..j] + (r[j..k] + r[k..]))
  {
    assert r[j..] == r[j..k] + r[k..];
    assert r[i..] == r[i..j] + r[j..];
  }

  lemma ClimbFolder(r: string, i: nat, j: nat)
    requires ClimbBetween(r, i, j)
    ensures i <= j && j + 4 <= |r| && r[j + 1..j + 4] == "../"
    ensures IsFolder(r[i..j + 1]) && r[i..j + 1] != "../" && r[i..j + 1] != "/"
  {
    var folder := r[i..j + 1];
    assert folder[..|folder| - 1] == r[i..j];
    assert "../"[..2] == "..";
  }

  // A folder and the `../` behind it can be cut out of a string.
  lemma {:induction false} CutClimb(front: string, folder: string, rest: string)
    requires IsDirectory(front) && IsFolder(folder) && Ordinary(folder)
    requires IsPlainPath(front + (folder + ("../" + rest)))
    ensures IsPlainPath(front + rest) && Stack(front + rest) == Stack(front + (folder + ("../" + rest)))
  {
    hide Pieces, PushAll, Plain;
    ThreePieces(front, folder, rest);
    PiecesAppend(front, rest);
    PlainDrop(Pieces(front), [folder, "../"], Pieces(rest));
    SkipClimb(Pieces(front), folder, Pieces(rest));
  }

  lemma NotBehindDirectory(front: string, rest: string)
    requires IsDirectory(front)
    ensures !NoDots(front + ("./" + rest))
  {
    var r := front + ("./" + rest);
    StartsWithDot(r);
    if front != "" {
      assert DotAt(r, |front| - 1);
    }
  }

  lemma ClimbKeepsStack(r: string, i: nat)
    requires ClimbFrom(r, i) && (i == 0 || r[i - 1] == '/') && IsPlainPath(r) && NoDots(r)
    ensures var s := r[..i] + r[SegmentEnd(r, i) + 4..]; IsPlainPath(s) && Stack(s) == Stack(r)
  {
    hide Pieces, PushAll, Plain, NoDots, SegmentEnd, IsFolder;
    var j := SegmentEnd(r, i);
    ClimbSplit(r, i);
    hide ClimbFrom, ClimbBetween;
    if r[i..j + 1] == "./" {
      NotBehindDirectory(r[..i], "../" + r[j + 4..]);
    }
    CutClimb(r[..i], r[i..j + 1], r[j + 4..]);
  }

  lemma {:induction false} RemoveClimbsKeepsStack(r: string)
    requires IsPlainPath(r) && NoDots(r)
    ensures IsPlainPath(RemoveClimbs(r)) && Stack(RemoveClimbs(r)) == Stack(r)
    decreases |r|
  {
    hide Pieces, PushAll, Plain, NoDots;
    var k := FirstClimb(r, 0);
    if k != -1 {
      ClimbKeepsStack(r, k + 1);
      CutKeepsNoDots(r, k, SegmentEnd(r, k + 1) + 3);
      RemoveClimbsKeepsStack(ReplaceClimb(r, k));
    }
  }

  lemma StripClimbKeepsStack(r: string)
    requires IsPlainPath(r) && NoDots(r)
    ensures IsPlainPath(StripClimb(r)) && Stack(StripClimb(r)) == Stack(r)
  {
    if ClimbFrom(r, 0) {
      ClimbKeepsStack(r, 0);
      assert r[..0] + StripClimb(r) == StripClimb(r);
    }
  }

  lemma NormalizeKeepsStack(moduleId: string)
    requires IsPlainPath(moduleId)
    ensures IsPlainPath(Normalize(moduleId)) && Stack(Normalize(moduleId)) == Stack(moduleId)
  {
    RemoveDotsLeavesNone(moduleId);
    RemoveDotsKeepsStack(moduleId);
    var a := RemoveDots(moduleId);
    StripDotLeavesNone(a);
    StripDotKeepsStack(a);
    var b := StripDot(a);
    RemoveClimbsLeavesNone(b);
    RemoveClimbsKeepsStack(b);
    StripClimbKeepsStack(RemoveClimbs(b));
  }

  // ----- irreducible strings are normal -----

  lemma {:induction false} SplitAtPiece(ps: seq<string>, k: nat)
    requires k < |ps| && ArePieces(ps)
    ensures Concat(ps) == Concat(ps[..k]) + (ps[k] + Concat(ps[k + 1..]))
    ensures IsDirectory(Concat(ps[..k]))
  {
    assert ps == ps[..k] + ps[k..];
    ConcatAppend(ps[..k], ps[k..]);
    ConcatPieces(ps[..k]);
  }

  lemma NoDotPiece(r: string, k: nat)
    requires NoDots(r) && k < |Pieces(r)|
    ensures Pieces(r)[k] != "./"
  {
    var ps := Pieces(r);
    PiecesConcat(r);
    SplitAtPiece(ps, k);
    NotBehindDirectory(Concat(ps[..k]), Concat(ps[k + 1..]));
  }

  lemma {:induction false} SegmentEndAt(r: string, i: nat, j: nat)
    requires i <= j < |r| && r[j] == '/' && forall k :: i <= k < j ==> r[k] != '/'
    ensures SegmentEnd(r, i) == j
    decreases j - i
  {
    if i < j {
      SegmentEndAt(r, i + 1, j);
    }
  }

  lemma ClimbOccurs(front: string, folder: string, rest: string)
    requires IsFolder(folder) && folder != "../" && folder != "/"
    ensures ClimbFrom(front + (folder + ("../" + rest)), |front|)
  {
    var r, i := front + (folder + ("../" + rest)), |front|;
    var j := i + |folder| - 1;
    assert r[i..j + 1] == folder && r[j + 1..j + 4] == "../";
    forall n | i <= n <= j
      ensures r[n] == folder[n - i]
    {
    }
    assert r[j + 1] == "../"[0] && r[j + 2] == "../"[1] && r[j + 3] == "../"[2];
    SegmentEndAt(r, i, j);
    assert folder == r[i..j] + [r[j]];
  }

  lemma NoClimbBehindSlash(r: string, i: nat)
    requires NoClimbs(r) && !ClimbFrom(r, 0) && i <= |r| && (i == 0 || r[i - 1] == '/')
    ensures !ClimbFrom(r, i)
  {
    if i > 0 {
      assert !ClimbAt(r, i - 1);
    }
  }

  lemma NoClimbPiece(r: string, k: nat)
    requires NoClimbs(r) && !ClimbFrom(r, 0) && k + 1 < |Pieces(r)|
    requires Pieces(r)[k + 1] == "../"
    ensures Pieces(r)[k] == "../" || Pieces(r)[k] == "/"
  {
    hide Pieces, NoClimbs, ClimbFrom, IsFolder;
    var ps := Pieces(r);
    PiecesConcat(r);
    SplitAtPiece(ps, k);
    var front, folder, rest := Concat(ps[..k]), ps[k], Concat(ps[k + 2..]);
    assert ps[k + 1..][1..] == ps[k + 2..];
    assert r == front + (folder + ("../" + rest));
    NoClimbBehindSlash(r, |front|);
    if folder != "../" && folder != "/" {
      ClimbOccurs(front, folder, rest);
    }
  }

  lemma {:induction false} UpsLead(ps: seq<string>, i: nat, j: nat)
    requires i <= j < |ps| && Plain(ps) && ps[j] == "../"
    requires forall k :: 0 <= k < |ps| - 1 && ps[k + 1] == "../" ==> ps[k] == "../" || ps[k] == "/"
    ensures ps[i] == "../"
    decreases j - i
  {
    if i < j {
      UpsLead(ps, i, j - 1);
    }
  }

  lemma IrreducibleNormal(r: string)
    requires Irreducible(r) && IsPlainPath(r)
    ensures IsNormalPath(r)
  {
    var ps := Pieces(r);
    forall k | 0 <= k < |ps| - 1 && ps[k + 1] == "../"
      ensures ps[k] == "../" || ps[k] == "/"
    {
      NoClimbPiece(r, k);
    }
    forall k | 0 <= k < |ps|
      ensures ps[k] == "../" || Ordinary(ps[k])
    {
      NoDotPiece(r, k);
    }
    forall i, j | 0 <= i < j < |ps| && ps[j] == "../"
      ensures ps[i] == "../"
    {
      UpsLead(ps, i, j);
    }
  }

  lemma EmptyPlain()
    ensures IsPlainPath("")
  {
  }

  // On a relative id without empty segments the rewriting gives what the stack of joinPaths
  // gives: a run of `../` and then ordinary segments.
  lemma NormalizeIsJoin(moduleId: string)
    requires IsPlainPath(moduleId)
    ensures Normalize(moduleId) == JoinPaths("", moduleId)
    ensures IsNormalPath(Normalize(moduleId))
  {
    hide Pieces, PushAll, Plain, JoinPaths, Normalize, PathStart, Irreducible;
    var r := Normalize(moduleId);
    NormalizeIrreducible(moduleId);
    NormalizeKeepsStack(moduleId);
    IrreducibleNormal(r);
    PiecesConcat(r);
    assert [] + Pieces(r) == Pieces(r);
    PushAllKeeps([], Pieces(r));
    PlainNoProtocol(moduleId);
    EmptyPlain();
    PlainNoProtocol("");
    assert "" + moduleId == moduleId;
    JoinPieces("", moduleId);
  }

  // ----- resolving a dependency name -----

  // AMDLoader.Utilities.isAbsolutePath (loader.js:187-189)
  predicate IsAbsoluteUrl(url: string) {
    StartsWith(url, "http://") || StartsWith(url, "https://") || StartsWith(url, "file://") || StartsWith(url, "/")
  }

  // ModuleIdResolver.resolveModule; `from` is the folder of the module that asks
  function ResolveModule(from: string, moduleId: string): string {
    if !IsAbsoluteUrl(moduleId) && (StartsWith(moduleId, "./") || StartsWith(moduleId, "../"))
    then Normalize(from + moduleId)
    else moduleId
  }

  lemma StartsWithFirst(s: string, prefix: string)
    requires prefix != "" && StartsWith(s, prefix)
    ensures |s| >= |prefix| && s[0] == prefix[0]
  {
    assert s[..|prefix|][0] == s[0];
  }

  lemma DotNotAbsolute(s: string)
    requires s != "" && s[0] == '.'
    ensures !IsAbsoluteUrl(s)
  {
    if StartsWith(s, "http://") {
      StartsWithFirst(s, "http://");
    } else if StartsWith(s, "https://") {
      StartsWithFirst(s, "https://");
    } else if StartsWith(s, "file://") {
      StartsWithFirst(s, "file://");
    } else if StartsWith(s, "/") {
      StartsWithFirst(s, "/");
    }
  }

  predicate IsRelative(moduleId: string) {
    StartsWith(moduleId, "./") || StartsWith(moduleId, "../")
  }

  // A name that starts with neither `./` nor `../` is left alone, and any other is taken from the
  // folder of the module that asks; whether it is an absolute URL makes no difference.
  lemma ResolveModuleCases(from: string, moduleId: string)
    ensures IsRelative(moduleId) ==> ResolveModule(from, moduleId) == Normalize(from + moduleId)
    ensures !IsRelative(moduleId) ==> ResolveModule(from, moduleId) == moduleId
  {
    if StartsWith(moduleId, "./") {
      StartsWithFirst(moduleId, "./");
      DotNotAbsolute(moduleId);
    } else if StartsWith(moduleId, "../") {
      StartsWithFirst(moduleId, "../");
      DotNotAbsolute(moduleId);
    }
  }

  // A relative name resolves to what it denotes from the folder of the module that asks.
  lemma ResolveModuleJoins(fromModuleId: string, moduleId: string)
    requires IsPlainPath(PathOf(fromModuleId)) && IsPlainPath(moduleId)
    requires StartsWith(moduleId, "./") || StartsWith(moduleId, "../")
    ensures ResolveModule(PathOf(fromModuleId), moduleId) == JoinPaths(PathOf(fromModuleId), moduleId)
  {
    hide Pieces, PushAll, Plain, PathOf, JoinPaths, Normalize, PathStart;
    var from := PathOf(fromModuleId);
    if StartsWith(moduleId, "./") {
      StartsWithFirst(moduleId, "./");
    } else {
      StartsWithFirst(moduleId, "../");
    }
    DotNotAbsolute(moduleId);
    PlainAppend(from, moduleId);
    NormalizeIsJoin(from + moduleId);
    PlainNoProtocol(from);
    PlainNoProtocol(moduleId);
    EmptyPlain();
    PlainNoProtocol("");
    PlainNoProtocol(from + moduleId);
    JoinPieces(from, moduleId);
    JoinPieces("", from + moduleId);
    assert "" + (from + moduleId) == from + moduleId;
  }
}
