// Joining paths behind a protocol and a host, and from the root (src/vs/css.build.ts:172-224).

module CssHosts {
  import opened PathPieces
  import opened PathStack
  import opened CssPaths
  import opened CssPathTheorems

  const PROTOCOLS := {"//", "http://", "https://"}

  predicate NoSlash(s: string) {
    forall i :: 0 <= i < |s| ==> s[i] != '/'
  }

  predicate FromRoot(s: string) {
    s != "" && s[0] == '/'
  }

  // ----- where the path starts -----

  lemma FirstSlash(s: string, t: string)
    requires NoSlash(s) && FromRoot(t)
    ensures SlashIndex(s + t) == |s|
  {
    assert (s + t)[|s|] == '/';
    assert forall i :: 0 <= i < |s| ==> (s + t)[i] == s[i];
  }

  lemma AfterPrefix(prefix: string, host: string, path: string)
    requires NoSlash(host) && (path == "" || FromRoot(path))
    ensures FindSlashIndexAfterPrefix(prefix + host + path, prefix) == |prefix| + if path == "" then 0 else |host|
  {
    var a := prefix + host + path;
    assert a[..|prefix|] == prefix && a[|prefix|..] == host + path;
    if path == "" {
      assert host + path == host;
    } else {
      FirstSlash(host, path);
    }
  }

  lemma OtherPrefix(prefix: string, rest: string, other: string, i: nat)
    requires i < |prefix| && i < |other| && prefix[i] != other[i]
    ensures !StartsWith(prefix + rest, other)
  {
    if |prefix + rest| >= |other| {
      assert (prefix + rest)[..|other|][i] == prefix[i];
    }
  }

  lemma PathBehindHost(protocol: string, host: string, path: string)
    requires protocol in PROTOCOLS && NoSlash(host) && (path == "" || FromRoot(path))
    ensures PathStart(protocol + host + path) == |protocol| + if path == "" then 0 else |host|
  {
    hide StartsWith, SlashIndex;
    var rest := host + path;
    assert protocol + host + path == protocol + rest;
    AfterPrefix(protocol, host, path);
    if protocol != "//" {
      OtherPrefix(protocol, rest, "//", 0);
      if protocol == "https://" {
        OtherPrefix(protocol, rest, "http://", 4);
      }
    }
  }

  // ----- joining behind a host -----

  // The join of a and b, as far as it is behind the first `start` characters of a
  function JoinAfter(a: string, start: nat, b: string): string
    requires start <= |a|
  {
    Concat(PushAll(if FromRoot(b) then [] else PushAll([], Pieces(a[start..])), Pieces(b)))
  }

  lemma JoinIsAfter(a: string, b: string)
    ensures JoinPaths(a, b) == a[..PathStart(a)] + JoinAfter(a, PathStart(a), b)
  {
  }

  lemma RelativeAfter(a: string, b: string)
    requires PathStart(a) == 0
    ensures JoinPaths(a, b) == JoinAfter(a, 0, b)
  {
    assert a[..0] + JoinAfter(a, 0, b) == JoinAfter(a, 0, b);
  }

  // Nothing is joined to nothing.
  lemma JoinToNothing(b: string)
    ensures JoinPaths("", b) == Concat(PushAll([], Pieces(b)))
  {
    hide PathStart, PushAll, Pieces, Concat;
    EmptyIsPlain();
    PlainNoProtocol("");
    RelativeAfter("", b);
    assert PushAll([], Pieces("")) == [] by { NothingPushed(); }
    assert ""[0..] == "";
  }

  lemma NothingPushed()
    ensures Pieces("") == [] && PushAll([], []) == []
  {
  }

  lemma SinglyRooted(path: string)
    requires FromRoot(path) && !StartsWith(path, "//")
    ensures PathStart(path) == 0
  {
    OtherPrefix(path, "", "http://", 0);
    OtherPrefix(path, "", "https://", 0);
    assert path + "" == path;
  }

  // The protocol and the host stay, and behind them paths are joined as if there were none.
  lemma JoinBehindHost(protocol: string, host: string, path: string, b: string)
    requires protocol in PROTOCOLS && NoSlash(host) && FromRoot(path)
    ensures !StartsWith(path, "//") ==> JoinPaths(protocol + host + path, b) == protocol + host + JoinPaths(path, b)
    ensures FromRoot(b) ==> JoinPaths(protocol + host + path, b) == protocol + host + JoinPaths("", b)
    ensures IsDirectory(path) && !FromRoot(b) ==> JoinPaths(protocol + host + path, b) == protocol + host + JoinPaths("", path + b)
  {
    hide PathStart, PushAll, Pieces, Concat, StartsWith, JoinPaths;
    var a, n := protocol + host + path, |protocol| + |host|;
    PathBehindHost(protocol, host, path);
    JoinIsAfter(a, b);
    assert a[..n] == protocol + host && a[n..] == path == path[0..];
    assert JoinAfter(a, n, b) == JoinAfter(path, 0, b);
    if !StartsWith(path, "//") {
      SinglyRooted(path);
      RelativeAfter(path, b);
    }
    if FromRoot(b) {
      JoinToNothing(b);
    } else if IsDirectory(path) {
      JoinToNothing(path + b);
      PiecesAppend(path, b);
      PushAllAppend([], Pieces(path), Pieces(b));
    }
  }

  // With no slash behind it the host passes for the first piece of the path.
  lemma JoinOntoHost(protocol: string, host: string, b: string)
    requires protocol in PROTOCOLS && NoSlash(host)
    ensures JoinPaths(protocol + host, b) == protocol + JoinPaths(host, b)
  {
    hide PathStart, PushAll, Pieces, Concat;
    var a, n := protocol + host, |protocol|;
    assert protocol + host + "" == a;
    PathBehindHost(protocol, host, "");
    JoinIsAfter(a, b);
    assert a[..n] == protocol && a[n..] == host == host[0..];
    NoProtocol(host);
    RelativeAfter(host, b);
  }

  // ----- joining from the root -----

  // Steps up, and then folders and a file
  lemma {:induction false} UpsFirst(n: seq<string>) returns (k: nat, rest: seq<string>)
    requires Normal(n)
    ensures n == Ups(k) + rest && AllOrdinary(rest)
    decreases |n|
  {
    if n == [] || n[0] != "../" {
      k, rest := 0, n;
      assert Ups(0) + n == n;
    } else {
      var l;
      l, rest := UpsFirst(n[1..]);
      k := l + 1;
      assert Ups(k) == ["../"] + Ups(l);
      assert n == ["../"] + n[1..] == Ups(k) + rest;
    }
  }

  lemma {:induction false} UpsAtRoot(k: nat)
    ensures PushAll(["/"], Ups(k)) == ["/"]
  {
    if k > 0 {
      assert Ups(k)[1..] == Ups(k - 1);
      UpsAtRoot(k - 1);
    }
  }

  // The root has no parent: the steps up that a join starts with are lost.
  lemma RootedPush(ps: seq<string>) returns (k: nat, rest: seq<string>)
    requires Plain(ps)
    ensures PushAll([], ps) == Ups(k) + rest && AllOrdinary(rest)
    ensures PushAll(["/"], ps) == ["/"] + rest
  {
    hide PushAll;
    NothingNormal();
    PushAllNormal([], ps);
    k, rest := UpsFirst(PushAll([], ps));
    PushAllAbsorbs(["/"], ps);
    PushAllAppend(["/"], Ups(k), rest);
    UpsAtRoot(k);
    PushAllOrdinary(["/"], rest);
  }

  lemma SlashPieces(s: string)
    ensures Pieces("/" + s) == ["/"] + Pieces(s)
  {
    FolderPieces("/", s);
  }

  lemma FromRootPieces(folder: string, b: string)
    requires IsDirectory(folder) && !FromRoot(folder) && !FromRoot(b)
    ensures JoinPaths("/" + folder, b) == Concat(PushAll(["/"], Pieces(folder + b)))
  {
    hide PushAll, Pieces, Concat, JoinPaths, PathStart;
    RootHasNoProtocol(folder);
    JoinPieces("/" + folder, b);
    assert "/" + folder + b == "/" + (folder + b);
    SlashPieces(folder + b);
    PushAllAppend([], ["/"], Pieces(folder + b));
    RootPushed();
  }

  // A join in a folder from the root is the join in the folder, without the steps up it starts with.
  lemma JoinFromRoot(folder: string, b: string) returns (k: nat, rest: seq<string>)
    requires IsDirectory(folder) && IsPlainPath(folder) && IsPlainPath(b)
    ensures JoinPaths(folder, b) == Concat(Ups(k)) + Concat(rest) && AllOrdinary(rest)
    ensures JoinPaths("/" + folder, b) == "/" + Concat(rest)
  {
    hide PushAll, Pieces, Concat, JoinPaths, PathStart, Plain, Ordinary;
    PlainNoProtocol(folder);
    PlainNoProtocol(b);
    PlainAppend(folder, b);
    JoinPieces(folder, b);
    k, rest := RootedPush(Pieces(folder + b));
    ConcatAppend(Ups(k), rest);
    FromRootPieces(folder, b);
    ConcatCons("/", rest);
  }

  lemma RootHasNoProtocol(s: string)
    requires !FromRoot(s)
    ensures PathStart("/" + s) == 0
  {
    if s != "" {
      assert ("/" + s)[..2][1] == s[0];
    }
    SinglyRooted("/" + s);
  }

  // What starts at the root is joined to the root of anything.
  lemma JoinRooted(a: string, b: string)
    requires !FromRoot(b)
    ensures JoinPaths(a, "/" + b) == a[..PathStart(a)] + JoinPaths("/", b)
  {
    hide PushAll, Concat, JoinPaths, PathStart, Pieces;
    JoinIsAfter(a, "/" + b);
    RootHasNoProtocol("");
    assert "/" + "" == "/";
    RelativeAfter("/", b);
    SlashPieces(b);
    SlashPieces("");
    NothingPushed();
    PushAllAppend([], ["/"], Pieces(b));
    assert "/"[0..] == "/" && ["/"] + [] == ["/"];
  }

  // ----- rewriting -----

  // A stylesheet behind a host keeps the whole URL of every target.
  lemma RewriteBehindHost(protocol: string, host: string, path: string, newFile: string, url: string)
    requires protocol in PROTOCOLS && NoSlash(host) && FromRoot(path)
    ensures RewriteUrl(protocol + host + path, newFile, url) ==
      protocol + host + JoinPaths("", if FromRoot(url) then url else PathOf(path) + url)
  {
    hide JoinPaths, PathStart;
    var file := protocol + host + path;
    RootFolder(path);
    assert file == (protocol + host) + path;
    PathBehindFolders(protocol + host, path);
    assert PathOf(file) == protocol + host + PathOf(path);
    JoinBehindHost(protocol, host, PathOf(path), url);
    var target := JoinPaths(PathOf(file), url);
    ProtocolAbsolute(protocol, target[|protocol|..]);
    assert target == protocol + target[|protocol|..];
  }

  lemma RootFolder(path: string)
    requires FromRoot(path)
    ensures FromRoot(PathOf(path)) && IsDirectory(PathOf(path))
  {
  }

  lemma PathBehindFolders(a: string, path: string)
    requires FromRoot(path)
    ensures PathOf(a + path) == a + PathOf(path)
  {
    var k := LastSlashIndex(path);
    assert (a + path)[|a| + k] == '/';
    assert forall i :: |a| + k < i < |a + path| ==> (a + path)[i] == path[i - |a|];
    LastSlashAt(a + path, |a| + k);
  }

  lemma ProtocolAbsolute(protocol: string, rest: string)
    requires protocol in PROTOCOLS
    ensures IsAbsolute(protocol + rest)
  {
    assert (protocol + rest)[..|protocol|] == protocol;
    if protocol == "//" {
      assert (protocol + rest)[..1] == "/";
    }
  }

  // What two paths share is not part of the relative path.
  lemma RelativeShared(folder: string, fromPath: string, toPath: string)
    requires IsDirectory(folder) && !IsAbsolute(folder + toPath) && !IsAbsolute(toPath)
    ensures RelativePath(folder + fromPath, folder + toPath) == RelativePath(fromPath, toPath)
  {
    hide IsAbsolute, CommonFolderPrefix, Concat, CountSlashes, Ups, IsDirectory;
    var prefix := CommonFolderPrefix(fromPath, toPath);
    SharedFolders(folder, fromPath, toPath);
    Behind(folder, prefix, fromPath);
    Behind(folder, prefix, toPath);
  }

  lemma Behind(folder: string, prefix: string, path: string)
    requires prefix <= path
    ensures folder + prefix <= folder + path && (folder + path)[|folder + prefix|..] == path[|prefix|..]
  {
  }

  lemma SharedFolders(folder: string, fromPath: string, toPath: string)
    requires IsDirectory(folder)
    ensures CommonFolderPrefix(folder + fromPath, folder + toPath) == folder + CommonFolderPrefix(fromPath, toPath)
  {
    hide PathOf, CommonStart;
    SharedStart(folder, fromPath, toPath);
    PathOfAppend(folder, CommonStart(fromPath, toPath));
  }

  lemma SharedFirst(c: char, s: string, t: string)
    ensures CommonStart([c] + s, [c] + t) == [c] + CommonStart(s, t)
  {
    assert ([c] + s)[1..] == s && ([c] + t)[1..] == t;
  }

  lemma {:induction false} SharedStart(a: string, s: string, t: string)
    ensures CommonStart(a + s, a + t) == a + CommonStart(s, t)
  {
    hide CommonStart;
    if a == "" {
      assert a + s == s && a + t == t && a + CommonStart(s, t) == CommonStart(s, t);
    } else {
      var c, rest := a[0], a[1..];
      assert a == [c] + rest;
      SharedStart(rest, s, t);
      SharedFirst(c, rest + s, rest + t);
      assert a + s == [c] + (rest + s) && a + t == [c] + (rest + t);
      assert [c] + (rest + CommonStart(s, t)) == a + CommonStart(s, t);
    }
  }
}
