// The path utilities with which CSS URLs are rewritten when a stylesheet moves
// (src/vs/css.build.ts, Utilities and CSSPlugin._rewriteUrls).

module CssPaths {
  import opened PathPieces
  import opened PathStack

  predicate StartsWith(haystack: string, needle: string) {
    |haystack| >= |needle| && haystack[..|needle|] == needle
  }

  function PathOf(filename: string): (r: string)
    ensures r <= filename && IsDirectory(r)
    ensures forall i :: |r| <= i < |filename| ==> filename[i] != '/'
  {
    filename[..LastSlashIndex(filename) + 1]
  }

  // ----- joinPaths -----

  function FindSlashIndexAfterPrefix(haystack: string, prefix: string): (r: nat)
    ensures r <= |haystack|
  {
    if StartsWith(haystack, prefix) then
      var k := SlashIndex(haystack[|prefix|..]);
      if k == -1 then |prefix| else |prefix| + k
    else 0
  }

  // Where the path of a starts: after its protocol and host, if it has one
  function PathStart(a: string): (r: nat)
    ensures r <= |a|
  {
    var i := FindSlashIndexAfterPrefix(a, "//");
    if i != 0 then i else
    var j := FindSlashIndexAfterPrefix(a, "http://");
    if j != 0 then j else
    FindSlashIndexAfterPrefix(a, "https://")
  }

  function JoinPaths(a: string, b: string): string {
    var start := PathStart(a);
    var stack := if b != "" && b[0] == '/' then [] else PushAll([], Pieces(a[start..]));
    a[..start] + Concat(PushAll(stack, Pieces(b)))
  }

  // The inner function `push`: pieces are cut off one at a time and pushed.
  method Push(pieces: seq<string>, path: string) returns (r: seq<string>)
    ensures r == PushAll(pieces, Pieces(path))
  {
    r := pieces;
    var rest := path;
    while |rest| > 0
      invariant PushAll(r, Pieces(rest)) == PushAll(pieces, Pieces(path))
      decreases |rest|
    {
      var end := PieceEnd(rest);
      assert Pieces(rest)[1..] == Pieces(Tail(rest));
      r, rest := PushPiece(r, rest[..end]), rest[end..];
    }
  }

  method ComputeJoinPaths(a: string, b: string) returns (r: string)
    ensures r == JoinPaths(a, b)
  {
    var aPathStartIndex := FindSlashIndexAfterPrefix(a, "//");
    if aPathStartIndex == 0 {
      aPathStartIndex := FindSlashIndexAfterPrefix(a, "http://");
    }
    if aPathStartIndex == 0 {
      aPathStartIndex := FindSlashIndexAfterPrefix(a, "https://");
    }
    var pieces := Push([], a[aPathStartIndex..]);
    if |b| > 0 && b[0] == '/' {
      pieces := [];
    }
    pieces := Push(pieces, b);
    r := a[..aPathStartIndex] + Concat(pieces);
  }

  // ----- relativePath -----

  // The longest common prefix of two strings
  function CommonStart(s: string, t: string): (r: string)
    ensures r <= s && r <= t
  {
    if s == "" || t == "" || s[0] != t[0] then "" else [s[0]] + CommonStart(s[1..], t[1..])
  }

  lemma {:induction false} CommonStartEndsAt(s: string, t: string, k: nat)
    requires k <= |s| && k <= |t|
    requires forall i :: 0 <= i < k ==> s[i] == t[i]
    requires k < |s| && k < |t| ==> s[k] != t[k]
    ensures CommonStart(s, t) == s[..k]
  {
    if k > 0 {
      CommonStartEndsAt(s[1..], t[1..], k - 1);
    }
  }

  method CommonPrefix(str1: string, str2: string) returns (r: string)
    ensures r == CommonStart(str1, str2)
  {
    var len := if |str1| < |str2| then |str1| else |str2|;
    for i := 0 to len
      invariant forall j :: 0 <= j < i ==> str1[j] == str2[j]
    {
      if str1[i] != str2[i] {
        CommonStartEndsAt(str1, str2, i);
        return str1[..i];
      }
    }
    CommonStartEndsAt(str1, str2, len);
    r := str1[..len];
  }

  function CommonFolderPrefix(fromPath: string, toPath: string): (r: string)
    ensures r <= fromPath && r <= toPath && IsDirectory(r)
  {
    PathOf(CommonStart(fromPath, toPath))
  }

  predicate IsAbsolute(path: string) {
    StartsWith(path, "/") || StartsWith(path, "http://") || StartsWith(path, "https://")
  }

  function CountSlashes(s: string): nat {
    if s == "" then 0 else (if s[0] == '/' then 1 else 0) + CountSlashes(s[1..])
  }

  function RelativePath(fromPath: string, toPath: string): string {
    if IsAbsolute(toPath) then toPath
    else
      var prefix := CommonFolderPrefix(fromPath, toPath);
      Concat(Ups(CountSlashes(fromPath[|prefix|..]))) + toPath[|prefix|..]
  }

  method ComputeRelativePath(fromPath: string, toPath: string) returns (r: string)
    ensures r == RelativePath(fromPath, toPath)
  {
    if IsAbsolute(toPath) {
      return toPath;
    }
    var common := CommonPrefix(fromPath, toPath);
    var prefix := PathOf(common);
    var from, to := fromPath[|prefix|..], toPath[|prefix|..];
    var upCount := CountSlashes(from) + 1;
    var result := "";
    for i := 1 to upCount
      invariant result == Concat(Ups(i - 1))
    {
      assert Ups(i) == Ups(i - 1) + ["../"];
      ConcatAppend(Ups(i - 1), ["../"]);
      assert Concat(["../"]) == "../" + Concat([]);
      result := result + "../";
    }
    r := result + to;
  }

  // CSSPlugin._rewriteUrls, for one URL
  function RewriteUrl(originalFile: string, newFile: string, url: string): string {
    RelativePath(newFile, JoinPaths(PathOf(originalFile), url))
  }
}
