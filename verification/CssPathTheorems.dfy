// What joining, relating and rewriting paths mean together.

module CssPathTheorems {
  import opened PathPieces
  import opened PathStack
  import opened CssPaths

  // A relative path without empty segments (so it has no protocol either)
  predicate IsPlainPath(s: string) {
    Plain(Pieces(s))
  }

  // ... that is already in normal form
  predicate IsNormalPath(s: string) {
    Normal(Pieces(s))
  }

  // ----- plain paths have no protocol -----

  lemma {:induction false} PlainHasNoDoubleSlash(s: string)
    requires IsPlainPath(s)
    ensures s != "" ==> s[0] != '/'
    ensures forall i :: 0 <= i < |s| - 1 ==> !(s[i] == '/' && s[i + 1] == '/')
  {
    if s != "" && s[0] == '/' {
      LeadingSlash(s);
    }
    forall i | 0 <= i < |s| - 1
      ensures !(s[i] == '/' && s[i + 1] == '/')
    {
      if s[i] == '/' && s[i + 1] == '/' {
        DoubleSlash(s, i);
      }
    }
  }

  lemma NoProtocol(s: string)
    requires s != "" ==> s[0] != '/'
    requires forall i :: 0 <= i < |s| - 1 ==> !(s[i] == '/' && s[i + 1] == '/')
    ensures PathStart(s) == 0 && !IsAbsolute(s)
  {
    NotStarting(s, "/", 0);
    NotStarting(s, "//", 0);
    NotStarting(s, "http://", 5);
    NotStarting(s, "https://", 6);
  }

  lemma NotStarting(s: string, prefix: string, i: nat)
    requires i < |prefix| && prefix[i] == '/' && (i == 0 || (i + 1 < |prefix| && prefix[i + 1] == '/'))
    requires s != "" ==> s[0] != '/'
    requires forall k :: 0 <= k < |s| - 1 ==> !(s[k] == '/' && s[k + 1] == '/')
    ensures !StartsWith(s, prefix)
  {
    if |s| >= |prefix| {
      assert s[..|prefix|][i] == s[i];
      if i > 0 {
        assert s[..|prefix|][i + 1] == s[i + 1];
      }
    }
  }

  lemma PlainNoProtocol(s: string)
    requires IsPlainPath(s)
    ensures PathStart(s) == 0 && !IsAbsolute(s) && (s != "" ==> s[0] != '/')
  {
    PlainHasNoDoubleSlash(s);
    NoProtocol(s);
  }

  // ----- what the stack holds are the pieces of the result -----

  lemma {:induction false} PushAllFolders(stack: seq<string>, ps: seq<string>)
    requires AllFolders(stack) && ArePieces(ps)
    ensures ArePieces(PushAll(stack, ps))
    ensures AllFolders(ps) ==> AllFolders(PushAll(stack, ps))
    decreases |ps|
  {
    if ps != [] {
      if IsFolder(ps[0]) {
        PushAllFolders(PushPiece(stack, ps[0]), ps[1..]);
      } else {
        assert ps == [ps[0]];
        assert PushAll(stack, ps) == PushAll(PushPiece(stack, ps[0]), []);
        assert ps[0][|ps[0]| - 1] != '/';
        assert "./"[1] == '/' && "../"[2] == '/';
      }
    }
  }

  lemma JoinPieces(a: string, b: string)
    requires IsDirectory(a) && PathStart(a) == 0 && (b != "" ==> b[0] != '/')
    ensures JoinPaths(a, b) == Concat(PushAll([], Pieces(a + b)))
    ensures Pieces(JoinPaths(a, b)) == PushAll([], Pieces(a + b))
    ensures IsDirectory(b) ==> IsDirectory(JoinPaths(a, b))
  {
    hide Pieces, PushAll, Concat, JoinPaths, PathStart, IsDirectory, ArePieces, AllFolders;
    var stack := PushAll([], Pieces(a));
    JoinOfPieces(a, b);
    PiecesAppend(a, b);
    PushAllAppend([], Pieces(a), Pieces(b));
    PiecesConcat(a);
    PiecesConcat(b);
    PushAllFolders([], Pieces(a));
    PushAllFolders(stack, Pieces(b));
    ConcatPieces(PushAll(stack, Pieces(b)));
  }

  lemma JoinOfPieces(a: string, b: string)
    requires PathStart(a) == 0 && (b != "" ==> b[0] != '/')
    ensures JoinPaths(a, b) == Concat(PushAll(PushAll([], Pieces(a)), Pieces(b)))
    ensures ArePieces([]) && AllFolders([])
  {
    hide Pieces, PushAll, Concat, PathStart;
    assert a[0..] == a && a[..0] == "";
  }

  lemma PlainAppend(a: string, b: string)
    requires IsDirectory(a) && IsPlainPath(a) && IsPlainPath(b)
    ensures IsPlainPath(a + b)
  {
    PiecesAppend(a, b);
  }

  // ----- joinPaths as an algebra -----

  // Joining plain paths gives a normal path.
  lemma JoinNormal(a: string, b: string)
    requires IsDirectory(a) && IsPlainPath(a) && IsPlainPath(b)
    ensures IsNormalPath(JoinPaths(a, b))
    ensures IsDirectory(b) ==> IsDirectory(JoinPaths(a, b))
  {
    PlainNoProtocol(a);
    PlainNoProtocol(b);
    PlainAppend(a, b);
    JoinPieces(a, b);
    PushAllNormal([], Pieces(a + b));
  }

  lemma EmptyIsPlain()
    ensures IsPlainPath("") && IsDirectory("")
  {
  }

  // A normal path is its own join with nothing, on either side.
  lemma JoinIdempotent(p: string)
    requires IsNormalPath(p)
    ensures JoinPaths("", p) == p
    ensures IsDirectory(p) ==> JoinPaths(p, "") == p
  {
    hide Pieces, PushAll, Concat, JoinPaths, PathStart, IsDirectory, Normal;
    NormalIsPlain(p);
    EmptyIsPlain();
    PlainNoProtocol(p);
    PlainNoProtocol("");
    PiecesConcat(p);
    assert [] + Pieces(p) == Pieces(p);
    PushAllKeeps([], Pieces(p));
    assert "" + p == p && p + "" == p;
    assert IsDirectory("") by { EmptyIsPlain(); }
    JoinPieces("", p);
    if IsDirectory(p) {
      JoinPieces(p, "");
    }
  }

  // Joining directories is associative, even where `../` runs cancel across the arguments.
  lemma JoinAssociative(a: string, b: string, c: string)
    requires IsDirectory(a) && IsDirectory(b)
    requires IsPlainPath(a) && IsPlainPath(b) && IsPlainPath(c)
    ensures JoinPaths(JoinPaths(a, b), c) == JoinPaths(a, JoinPaths(b, c))
  {
    JoinLeft(a, b, c);
    JoinRight(a, b, c);
  }

  lemma JoinLeft(a: string, b: string, c: string)
    requires IsDirectory(a) && IsDirectory(b)
    requires IsPlainPath(a) && IsPlainPath(b) && IsPlainPath(c)
    ensures JoinPaths(JoinPaths(a, b), c) == Concat(PushAll([], Pieces(a) + Pieces(b) + Pieces(c)))
  {
    hide Pieces, PushAll, JoinPaths, PathStart;
    var ab := JoinPaths(a, b);
    PlainNoProtocol(a); PlainNoProtocol(b); PlainNoProtocol(c);
    JoinNormal(a, b);
    PlainNoProtocol(ab);
    JoinPieces(a, b); JoinPieces(ab, c);
    PiecesAppend(a, b); PiecesAppend(ab, c);
    var A, B, C := Pieces(a), Pieces(b), Pieces(c);
    PushAllAppend([], PushAll([], A + B), C);
    PushAllAbsorbs([], A + B);
    PushAllAppend([], A + B, C);
  }

  lemma JoinRight(a: string, b: string, c: string)
    requires IsDirectory(a) && IsDirectory(b)
    requires IsPlainPath(a) && IsPlainPath(b) && IsPlainPath(c)
    ensures JoinPaths(a, JoinPaths(b, c)) == Concat(PushAll([], Pieces(a) + Pieces(b) + Pieces(c)))
  {
    hide Pieces, PushAll, JoinPaths, PathStart;
    var bc := JoinPaths(b, c);
    PlainNoProtocol(a); PlainNoProtocol(b); PlainNoProtocol(c);
    JoinNormal(b, c);
    PlainNoProtocol(bc);
    JoinPieces(b, c); JoinPieces(a, bc);
    PiecesAppend(b, c); PiecesAppend(a, bc);
    StackRight(Pieces(a), Pieces(b), Pieces(c));
  }

  lemma StackRight(A: seq<string>, B: seq<string>, C: seq<string>)
    requires Plain(B) && Plain(C)
    ensures PushAll([], A + PushAll([], B + C)) == PushAll([], A + B + C)
  {
    assert A + B + C == A + (B + C);
    PushAllAppend([], A, PushAll([], B + C));
    PushAllAbsorbs(PushAll([], A), B + C);
    PushAllAppend([], A, B + C);
  }

  // ----- relativePath against joinPaths -----

  // The folders of `from` below the folder it shares with `to`
  function OwnFolders(fromPath: string, toPath: string): seq<string> {
    Pieces(PathOf(fromPath[|CommonFolderPrefix(fromPath, toPath)|..]))
  }

  lemma {:induction false} CountSlashesAppend(s: string, t: string)
    ensures CountSlashes(s + t) == CountSlashes(s) + CountSlashes(t)
  {
    if s == "" {
      assert s + t == t;
    } else {
      CountSlashesAppend(s[1..], t);
      assert (s + t)[1..] == s[1..] + t;
    }
  }

  lemma {:induction false} CountNone(s: string)
    requires forall i :: 0 <= i < |s| ==> s[i] != '/'
    ensures CountSlashes(s) == 0
  {
    if s != "" {
      CountNone(s[1..]);
    }
  }

  lemma {:induction false} CountFolders(ps: seq<string>)
    requires AllFolders(ps)
    ensures CountSlashes(Concat(ps)) == |ps|
  {
    if ps != [] {
      var p := ps[0];
      var front := p[..|p| - 1];
      assert p == front + "/";
      CountSlashesAppend(front, "/");
      CountNone(front);
      assert CountSlashes("/") == 1 + CountSlashes("/"[1..]);
      CountSlashesAppend(p, Concat(ps[1..]));
      CountFolders(ps[1..]);
    }
  }

  lemma CountOwnFolders(s: string)
    ensures CountSlashes(s) == |Pieces(PathOf(s))|
  {
    var d := PathOf(s);
    assert s == d + s[|d|..];
    CountSlashesAppend(d, s[|d|..]);
    CountNone(s[|d|..]);
    PiecesConcat(d);
    CountFolders(Pieces(d));
  }

  lemma LastSlashAt(s: string, k: int)
    requires -1 <= k < |s| && (k >= 0 ==> s[k] == '/')
    requires forall i :: k < i < |s| ==> s[i] != '/'
    ensures LastSlashIndex(s) == k
  {
  }

  lemma PathOfAppend(a: string, b: string)
    requires IsDirectory(a)
    ensures PathOf(a + b) == a + PathOf(b)
  {
    var k, s := LastSlashIndex(b), a + b;
    forall i | |a| + k < i < |s|
      ensures s[i] != '/'
    {
      assert s[i] == b[i - |a|];
    }
    if k >= 0 {
      assert s[|a| + k] == b[k];
    }
    LastSlashAt(s, |a| + k);
    assert s[..|a| + k + 1] == a + b[..k + 1];
  }

  lemma {:induction false} UpsConcat(n: nat, rest: string)
    ensures Pieces(Concat(Ups(n)) + rest) == Ups(n) + Pieces(rest)
    ensures IsDirectory(Concat(Ups(n)))
  {
    assert forall i :: 0 <= i < n ==> IsFolder(Ups(n)[i]);
    ConcatPieces(Ups(n));
    PiecesAppend(Concat(Ups(n)), rest);
  }

  lemma NormalIsPlain(p: string)
    requires IsNormalPath(p)
    ensures IsPlainPath(p)
  {
  }

  // All that is needed of the two paths: the shared folder c, and what follows it.
  lemma RelativeJoinPieces(fromPath: string, toPath: string)
    requires IsNormalPath(toPath) && PathStart(PathOf(fromPath)) == 0
    ensures var c := CommonFolderPrefix(fromPath, toPath);
      var own := OwnFolders(fromPath, toPath);
      Pieces(JoinPaths(PathOf(fromPath), RelativePath(fromPath, toPath)))
      == PushAll(PushAll(PushAll(PushAll([], Pieces(c)), own), Ups(|own|)), Pieces(toPath[|c|..]))
  {
    hide Pieces, PushAll, JoinPaths, PathOf, PathStart, Concat, CountSlashes, CommonFolderPrefix, IsAbsolute, Normal, Plain;
    var c := CommonFolderPrefix(fromPath, toPath);
    var f, t := fromPath[|c|..], toPath[|c|..];
    var own := Pieces(PathOf(f));
    assert fromPath == c + f && toPath == c + t;
    NormalIsPlain(toPath);
    PlainNoProtocol(toPath);
    PathOfAppend(c, f);
    CountOwnFolders(f);
    var rel := RelativePath(fromPath, toPath);
    assert rel == Concat(Ups(|own|)) + t;
    UpsConcat(|own|, t);
    PiecesAppend(c, t);
    RelativeNotRooted(c, t, |own|);
    JoinPieces(PathOf(fromPath), rel);
    PiecesAppend(PathOf(fromPath), rel);
    PiecesAppend(c, PathOf(f));
    PushAllAppend([], Pieces(c) + own, Ups(|own|) + Pieces(t));
    PushAllAppend([], Pieces(c), own);
    PushAllAppend(PushAll([], Pieces(c) + own), Ups(|own|), Pieces(t));
  }

  lemma RelativeNotRooted(c: string, t: string, n: nat)
    requires IsDirectory(c) && IsPlainPath(c + t)
    ensures var rel := Concat(Ups(n)) + t; rel != "" ==> rel[0] != '/'
  {
    PiecesAppend(c, t);
    if t != "" && t[0] == '/' {
      LeadingSlash(t);
      assert (Pieces(c) + Pieces(t))[|Pieces(c)|] == "/";
    }
    if n > 0 {
      assert Ups(n)[0] == "../";
    }
  }

  // Following the relative path from the folder of `from` leads to `to` exactly when the
  // folders of `from` below the shared one are ordinary: no `./`, no `../`, no empty segment.
  lemma RelativeRoundTrip(fromPath: string, toPath: string)
    requires IsNormalPath(toPath)
    ensures JoinPaths(PathOf(fromPath), RelativePath(fromPath, toPath)) == toPath
       <==> AllOrdinary(OwnFolders(fromPath, toPath))
  {
    if PathStart(PathOf(fromPath)) != 0 {
      ProtocolNeverReached(fromPath, toPath);
    } else {
      RelativeRoundTripRelative(fromPath, toPath);
    }
  }

  lemma RelativeRoundTripRelative(fromPath: string, toPath: string)
    requires IsNormalPath(toPath) && PathStart(PathOf(fromPath)) == 0
    ensures JoinPaths(PathOf(fromPath), RelativePath(fromPath, toPath)) == toPath
       <==> AllOrdinary(OwnFolders(fromPath, toPath))
  {
    hide Pieces, PushAll, Concat, JoinPaths, PathStart, PathOf, RelativePath, CommonFolderPrefix, OwnFolders, AllOrdinary, Normal, Plain;
    var c := CommonFolderPrefix(fromPath, toPath);
    var t := toPath[|c|..];
    assert toPath == c + t;
    PiecesAppend(c, t);
    RelativeJoinPieces(fromPath, toPath);
    StackRoundTrip(Pieces(c), OwnFolders(fromPath, toPath), Pieces(t));
    PiecesConcat(toPath);
    PiecesConcat(JoinPaths(PathOf(fromPath), RelativePath(fromPath, toPath)));
  }

  lemma StackRoundTrip(C: seq<string>, own: seq<string>, T: seq<string>)
    requires Normal(C + T)
    ensures PushAll(PushAll(PushAll(PushAll([], C), own), Ups(|own|)), T) == C + T <==> AllOrdinary(own)
  {
    NormalPart(C, T);
    assert [] + C == C;
    PushAllKeeps([], C);
    if AllOrdinary(own) {
      PushAllOrdinary(C, own);
      UpsUndo(C, own);
      PushAllKeeps(C, T);
    } else {
      WrongFolders(C, own, T);
    }
  }

  lemma NormalPart(a: seq<string>, b: seq<string>)
    requires Normal(a + b)
    ensures Normal(a) && Plain(b)
  {
    assert forall i :: 0 <= i < |a| ==> (a + b)[i] == a[i];
    assert forall i :: 0 <= i < |b| ==> (a + b)[|a| + i] == b[i];
  }

  // Climbing out of folders that are not all ordinary ends somewhere else.
  lemma WrongFolders(C: seq<string>, own: seq<string>, T: seq<string>)
    requires Normal(C + T) && !AllOrdinary(own)
    ensures PushAll(PushAll(PushAll(C, own), Ups(|own|)), T) != C + T
  {
    NormalPart(C, T);
    if "/" in own {
      EmptySegmentStays(C, own);
      EmptySegmentStays(PushAll(C, own), Ups(|own|));
      EmptySegmentStays(PushAll(PushAll(C, own), Ups(|own|)), T);
      assert forall i :: 0 <= i < |C + T| ==> (C + T)[i] != "/";
    } else {
      PushAllNormal(C, own);
      PushAllNormal(PushAll(C, own), Ups(|own|));
      DepthPushAll(C, own);
      DepthPushAll(PushAll(C, own), Ups(|own|));
      DepthPushAll(PushAll(PushAll(C, own), Ups(|own|)), T);
      DepthUps(|own|);
      DepthAtMost(own);
      DepthAppend(C, T);
    }
  }

  // A file with a protocol or a network root has an empty segment among its folders, and no
  // relative target is reached from it.
  lemma ProtocolNeverReached(fromPath: string, toPath: string)
    requires IsNormalPath(toPath) && PathStart(PathOf(fromPath)) != 0
    ensures !AllOrdinary(OwnFolders(fromPath, toPath))
    ensures JoinPaths(PathOf(fromPath), RelativePath(fromPath, toPath)) != toPath
  {
    var dir := PathOf(fromPath);
    var joined := JoinPaths(dir, RelativePath(fromPath, toPath));
    var i := ProtocolSlashes(dir);
    assert joined[i] == dir[i] && joined[i + 1] == dir[i + 1];
    DoubleSlash(joined, i);
    DoubleSlash(dir, i);
    EmptySegmentIsOwn(fromPath, toPath);
  }

  lemma EmptySegmentIsOwn(fromPath: string, toPath: string)
    requires IsNormalPath(toPath) && "/" in Pieces(PathOf(fromPath))
    ensures "/" in OwnFolders(fromPath, toPath)
  {
    hide PathOf, Pieces, CommonFolderPrefix, Normal;
    var c := CommonFolderPrefix(fromPath, toPath);
    assert fromPath == c + fromPath[|c|..] && toPath == c + toPath[|c|..];
    EmptySegmentBelow(c, fromPath[|c|..], toPath[|c|..]);
  }

  lemma EmptySegmentBelow(c: string, f: string, t: string)
    requires IsDirectory(c) && IsNormalPath(c + t) && "/" in Pieces(PathOf(c + f))
    ensures "/" in Pieces(PathOf(f))
  {
    PathOfAppend(c, f);
    PiecesAppend(c, PathOf(f));
    PiecesAppend(c, t);
    NormalPart(Pieces(c), Pieces(t));
    assert "/" !in Pieces(c);
  }

  lemma ProtocolSlashes(a: string) returns (i: nat)
    requires PathStart(a) != 0
    ensures i + 2 <= PathStart(a) && a[i] == '/' && a[i + 1] == '/'
  {
    if StartsWith(a, "//") {
      assert a[0] == "//"[0] && a[1] == "//"[1];
      i := 0;
    } else if StartsWith(a, "http://") {
      assert a[5] == "http://"[5] && a[6] == "http://"[6];
      i := 5;
    } else {
      assert a[6] == "https://"[6] && a[7] == "https://"[7];
      i := 6;
    }
  }

  // ----- moving a stylesheet -----

  predicate Means(file: string, url: string, target: string) {
    JoinPaths(PathOf(file), url) == target
  }

  // The rewritten URL means in the new file what the URL meant in the original file.
  ghost predicate KeepsTarget(originalFile: string, newFile: string, url: string) {
    exists target :: Means(originalFile, url, target) && Means(newFile, RewriteUrl(originalFile, newFile, url), target)
  }

  // For a relative URL in a relative stylesheet, the rewritten URL means in the new file what
  // the URL meant in the original file, exactly when the folders of the new file below the
  // folder shared with the target are ordinary.
  lemma RewriteKeepsTarget(originalFile: string, newFile: string, url: string)
    requires IsPlainPath(PathOf(originalFile)) && IsPlainPath(url)
    ensures KeepsTarget(originalFile, newFile, url) <==>
      AllOrdinary(OwnFolders(newFile, JoinPaths(PathOf(originalFile), url)))
  {
    hide PathOf, JoinPaths, RelativePath, OwnFolders, IsNormalPath, IsPlainPath;
    var target := JoinPaths(PathOf(originalFile), url);
    JoinNormal(PathOf(originalFile), url);
    RelativeRoundTrip(newFile, target);
    assert Means(originalFile, url, target);
    assert Means(newFile, RewriteUrl(originalFile, newFile, url), target) <==>
      JoinPaths(PathOf(newFile), RelativePath(newFile, target)) == target;
  }

  // In particular it does so whenever the new file is a plain path without `./` and `../`.
  lemma RewriteIntoOrdinaryFile(originalFile: string, newFile: string, url: string)
    requires IsPlainPath(PathOf(originalFile)) && IsPlainPath(url)
    requires AllOrdinary(Pieces(PathOf(newFile)))
    ensures KeepsTarget(originalFile, newFile, url)
  {
    hide KeepsTarget, Pieces, JoinPaths, PathOf, CommonFolderPrefix, RelativePath;
    var target := JoinPaths(PathOf(originalFile), url);
    var c := CommonFolderPrefix(newFile, target);
    RewriteKeepsTarget(originalFile, newFile, url);
    assert newFile == c + newFile[|c|..];
    PathOfAppend(c, newFile[|c|..]);
    PiecesAppend(c, PathOf(newFile[|c|..]));
    assert forall i :: 0 <= i < |OwnFolders(newFile, target)| ==>
      OwnFolders(newFile, target)[i] == Pieces(PathOf(newFile))[|Pieces(c)| + i];
  }

  // A path from the root, as joinPaths leaves it, is joined to anything unchanged.
  lemma RootedJoin(a: string, url: string)
    requires PathStart(a) == 0 && url != "" && url[0] == '/' && Rooted(Pieces(url))
    ensures JoinPaths(a, url) == url
  {
    var ps := Pieces(url);
    RootedStack(ps);
    PiecesConcat(url);
    assert a[..0] + Concat(ps) == Concat(ps);
  }

  lemma RootPushed()
    ensures PushAll([], ["/"]) == ["/"]
  {
    assert PushAll([], ["/"]) == PushAll(PushPiece([], "/"), ["/"][1..]);
    assert PushPiece([], "/") == ["/"];
  }

  lemma RootedStack(ps: seq<string>)
    requires Rooted(ps)
    ensures PushAll([], ps) == ps
  {
    var root := ["/"];
    assert ps == root + ps[1..];
    PushAllAppend([], root, ps[1..]);
    RootPushed();
    PushAllOrdinary(root, ps[1..]);
  }

  lemma RootedResult(a: string, url: string)
    requires PathStart(a) == 0 && url != "" && url[0] == '/' && IsPlainPath(url[1..])
    ensures Rooted(Pieces(JoinPaths(a, url)))
    ensures var r := JoinPaths(a, url); r != "" && r[0] == '/'
  {
    var root, rest := ["/"], Pieces(url[1..]);
    LeadingSlash(url);
    assert Pieces(url) == root + rest;
    var stack := PushAll([], Pieces(url));
    assert Rooted(stack) by {
      PushAllAppend([], root, rest);
      RootPushed();
      PushAllRooted(root, rest);
    }
    assert ArePieces(stack) by {
      PiecesConcat(url);
      PushAllFolders([], Pieces(url));
    }
    ConcatPieces(stack);
    assert a[..0] + Concat(stack) == Concat(stack);
    assert Concat(stack)[0] == stack[0][0];
  }

  // A URL from the root keeps its meaning in every file without a protocol.
  lemma RewriteKeepsRooted(originalFile: string, newFile: string, url: string)
    requires PathStart(PathOf(originalFile)) == 0 && PathStart(PathOf(newFile)) == 0
    requires url != "" && url[0] == '/' && IsPlainPath(url[1..])
    ensures KeepsTarget(originalFile, newFile, url)
  {
    var target := JoinPaths(PathOf(originalFile), url);
    RootedResult(PathOf(originalFile), url);
    assert target[..1] == "/";
    RootedJoin(PathOf(newFile), target);
    assert Means(originalFile, url, target) && Means(newFile, RewriteUrl(originalFile, newFile, url), target);
  }

  // ----- where the target is lost -----

  lemma SimpleName(name: string)
    requires name != "" && name[0] != '.' && forall i :: 0 <= i < |name| ==> name[i] != '/'
    ensures Pieces(name) == [name] && IsNormalPath(name) && PathOf(name) == ""
  {
    hide Pieces, LastSlashIndex;
    LoosePiece(name);
    LastSlashAt(name, -1);
    assert name[..0] == "";
  }

  lemma UpFolder()
    ensures Pieces("../") == ["../"] && IsPlainPath("../") && IsDirectory("../")
    ensures Concat(["../"]) == "../" && CountSlashes("../") == 1
  {
    LoneFolder("../");
    OneSlash("../");
    ConcatCons("../", []);
    assert "../" + "" == "../" && ["../"] + [] == ["../"];
  }

  lemma OneSlash(folder: string)
    requires IsFolder(folder)
    ensures CountSlashes(folder) == 1
  {
    CountFolders([folder]);
    assert Concat([folder]) == folder + Concat([]) == folder;
  }

  lemma LoneFolder(folder: string)
    requires IsFolder(folder)
    ensures Pieces(folder) == [folder]
  {
    FolderPieces(folder, "");
    assert folder + "" == folder && [folder] + Pieces("") == [folder];
  }

  lemma FromParentFolder(name: string)
    requires forall i :: 0 <= i < |name| ==> name[i] != '/'
    ensures PathOf("../" + name) == "../" && CountSlashes("../" + name) == 1
  {
    hide CountSlashes, LastSlashIndex;
    UpFolder();
    LastSlashAt("../" + name, 2);
    assert ("../" + name)[..3] == "../";
    CountSlashesAppend("../", name);
    CountNone(name);
  }

  // A file in the parent folder: the path to a file beside it goes up once more, and from the
  // folder of the first file it leads out of both.
  lemma ParentFolderLosesTarget()
    ensures RelativePath("../x.css", "a.css") == "../a.css"
    ensures JoinPaths(PathOf("../x.css"), RelativePath("../x.css", "a.css")) == "../../a.css"
    ensures !KeepsTarget("m.css", "../x.css", "a.css")
  {
    hide Pieces, JoinPaths, PathOf, CountSlashes, IsNormalPath;
    SimpleName("a.css");
    SimpleName("m.css");
    FromParentFolder("x.css");
    UpFolder();
    assert "../" + "x.css" == "../x.css" && "../" + "a.css" == "../a.css";
    assert CommonFolderPrefix("../x.css", "a.css") == "" by { NothingShared("../x.css", "a.css"); }
    assert "../x.css"[0..] == "../x.css" && "a.css"[0..] == "a.css";
    assert Ups(1) == ["../"];
    ClimbTwice("a.css");
    ClimbNone("a.css");
    var target := JoinPaths(PathOf("m.css"), "a.css");
    assert target == "a.css";
    assert Means("m.css", "a.css", target);
    assert "../../a.css" != "a.css";
  }

  lemma NothingShared(s: string, t: string)
    requires s != "" && t != "" && s[0] != t[0]
    ensures CommonFolderPrefix(s, t) == ""
  {
  }

  lemma ClimbTwice(name: string)
    requires name != "" && name[0] != '.' && forall i :: 0 <= i < |name| ==> name[i] != '/'
    ensures JoinPaths("../", "../" + name) == "../../" + name
  {
    hide PathStart, Pieces;
    SimpleName(name);
    FolderPieces("../", "../" + name);
    FolderPieces("../", name);
    var ps := ["../", "../", name];
    assert Pieces("../" + ("../" + name)) == ps;
    UpFolder();
    PlainNoProtocol("../");
    JoinPieces("../", "../" + name);
    PushAllKeeps([], ps);
    assert [] + ps == ps;
    PiecesConcat("../" + ("../" + name));
    assert "../" + ("../" + name) == "../../" + name;
  }

  lemma ClimbNone(name: string)
    requires name != "" && name[0] != '.' && forall i :: 0 <= i < |name| ==> name[i] != '/'
    ensures JoinPaths("", name) == name
  {
    SimpleName(name);
    JoinIdempotent(name);
  }
}
