// Slash-separated strings and the pieces they consist of.  A piece ends with its slash; only
// the last piece of a string may lack one.

module PathPieces {

  // indexOf('/'): the first slash, or -1
  function SlashIndex(s: string): (k: int)
    ensures -1 <= k < |s|
    ensures k == -1 ==> forall i :: 0 <= i < |s| ==> s[i] != '/'
    ensures k >= 0 ==> s[k] == '/' && forall i :: 0 <= i < k ==> s[i] != '/'
  {
    if s == "" then -1
    else if s[0] == '/' then 0
    else
      var k := SlashIndex(s[1..]);
      assert forall i :: 1 <= i < |s| ==> s[i] == s[1..][i - 1];
      if k == -1 then -1 else k + 1
  }

  // lastIndexOf('/'): the last slash, or -1
  function LastSlashIndex(s: string): (k: int)
    ensures -1 <= k < |s|
    ensures k >= 0 ==> s[k] == '/'
    ensures forall i :: k < i < |s| ==> s[i] != '/'
  {
    if s == "" then -1
    else if s[|s| - 1] == '/' then |s| - 1
    else LastSlashIndex(s[..|s| - 1])
  }

  predicate IsPiece(p: string) {
    p != "" && forall i :: 0 <= i < |p| - 1 ==> p[i] != '/'
  }

  predicate IsFolder(p: string) {
    IsPiece(p) && p[|p| - 1] == '/'
  }

  // Empty, or ending with a slash
  predicate IsDirectory(s: string) {
    s == "" || s[|s| - 1] == '/'
  }

  // How long the first piece is
  function PieceEnd(path: string): (n: nat)
    requires path != ""
    ensures 0 < n <= |path|
  {
    var slashIndex := SlashIndex(path);
    if slashIndex >= 0 then slashIndex + 1 else |path|
  }

  function Head(s: string): (p: string)
    requires s != ""
    ensures IsPiece(p) && |p| <= |s|
    ensures |p| < |s| || IsDirectory(s) ==> IsFolder(p)
  {
    s[..PieceEnd(s)]
  }

  function Tail(s: string): (t: string)
    requires s != ""
    ensures |t| < |s| && s == Head(s) + t
    ensures IsDirectory(s) ==> IsDirectory(t)
  {
    s[PieceEnd(s)..]
  }

  function Pieces(s: string): (ps: seq<string>)
    decreases |s|
  {
    if s == "" then [] else [Head(s)] + Pieces(Tail(s))
  }

  // join('')
  function Concat(ps: seq<string>): string {
    if ps == [] then "" else ps[0] + Concat(ps[1..])
  }

  predicate AllFolders(ps: seq<string>) {
    forall i :: 0 <= i < |ps| ==> IsFolder(ps[i])
  }

  // What Pieces can produce
  predicate ArePieces(ps: seq<string>) {
    (forall i :: 0 <= i < |ps| ==> IsPiece(ps[i])) && forall i :: 0 <= i < |ps| - 1 ==> IsFolder(ps[i])
  }

  lemma {:induction false} ConcatAppend(a: seq<string>, b: seq<string>)
    ensures Concat(a + b) == Concat(a) + Concat(b)
  {
    if a == [] {
      assert a + b == b;
    } else {
      ConcatAppend(a[1..], b);
      assert a + b == [a[0]] + (a[1..] + b);
      ConcatCons(a[0], a[1..] + b);
      assert a[0] + (Concat(a[1..]) + Concat(b)) == (a[0] + Concat(a[1..])) + Concat(b);
    }
  }

  lemma ConcatCons(p: string, ps: seq<string>)
    ensures Concat([p] + ps) == p + Concat(ps)
  {
    assert ([p] + ps)[1..] == ps;
  }

  lemma ConsArePieces(p: string, ps: seq<string>)
    requires IsPiece(p) && ArePieces(ps) && (ps != [] ==> IsFolder(p))
    ensures ArePieces([p] + ps)
    ensures IsFolder(p) && AllFolders(ps) ==> AllFolders([p] + ps)
  {
    var all := [p] + ps;
    assert forall i :: 1 <= i < |all| ==> all[i] == ps[i - 1];
  }

  // Concat undoes Pieces.
  lemma {:induction false} PiecesConcat(s: string)
    ensures Concat(Pieces(s)) == s && ArePieces(Pieces(s))
    ensures IsDirectory(s) ==> AllFolders(Pieces(s))
    decreases |s|
  {
    hide Head, Tail;
    if s != "" {
      PiecesConcat(Tail(s));
      ConcatCons(Head(s), Pieces(Tail(s)));
      ConsArePieces(Head(s), Pieces(Tail(s)));
    }
  }

  lemma HeadTail(p: string, s: string)
    requires IsFolder(p)
    ensures Head(p + s) == p && Tail(p + s) == s
  {
    var k := |p| - 1;
    assert (p + s)[k] == '/';
    assert forall i :: 0 <= i < k ==> (p + s)[i] == p[i];
    assert SlashIndex(p + s) == k;
    assert (p + s)[..|p|] == p && (p + s)[|p|..] == s;
  }

  lemma FolderPieces(p: string, s: string)
    requires IsFolder(p)
    ensures Pieces(p + s) == [p] + Pieces(s)
  {
    HeadTail(p, s);
  }

  lemma {:induction false} PiecesAppend(a: string, b: string)
    requires IsDirectory(a)
    ensures Pieces(a + b) == Pieces(a) + Pieces(b)
    decreases |a|
  {
    hide Head, Tail;
    if a == "" {
      assert a + b == b;
    } else {
      var h, t := Head(a), Tail(a);
      PiecesAppend(t, b);
      assert a + b == h + (t + b);
      FolderPieces(h, t + b);
      assert [h] + (Pieces(t) + Pieces(b)) == ([h] + Pieces(t)) + Pieces(b);
    }
  }

  // Pieces undoes Concat.
  lemma {:induction false} ConcatPieces(ps: seq<string>)
    requires ArePieces(ps)
    ensures Pieces(Concat(ps)) == ps
    ensures AllFolders(ps) ==> IsDirectory(Concat(ps))
  {
    if ps != [] {
      var p, rest := ps[0], ps[1..];
      assert ps == [p] + rest;
      assert ArePieces(rest) && (AllFolders(ps) ==> AllFolders(rest));
      ConcatPieces(rest);
      ConcatCons(p, rest);
      if IsFolder(p) {
        FolderPieces(p, Concat(rest));
      } else {
        assert rest == [];
        LoosePiece(p);
        assert p + Concat(rest) == p;
      }
    }
  }

  lemma LoosePiece(p: string)
    requires IsPiece(p) && !IsFolder(p)
    ensures Pieces(p) == [p]
  {
    assert SlashIndex(p) == -1;
    assert Head(p) == p;
    assert Pieces(Tail(p)) == [];
  }

  // Two slashes in a row, or one at the start, make an empty segment.
  lemma {:induction false} DoubleSlash(s: string, i: nat)
    requires i + 1 < |s| && s[i] == '/' && s[i + 1] == '/'
    ensures "/" in Pieces(s)
  {
    assert s == s[..i + 1] + s[i + 1..];
    PiecesAppend(s[..i + 1], s[i + 1..]);
    LeadingSlash(s[i + 1..]);
  }

  lemma LeadingSlash(s: string)
    requires s != "" && s[0] == '/'
    ensures Pieces(s) != [] && Pieces(s)[0] == "/"
  {
    assert SlashIndex(s) == 0;
    assert s[..1] == "/";
  }
}
