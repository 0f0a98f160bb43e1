// What is read of a style sheet and what is skipped as a comment, forwards and backwards
// (extensions/emmet/src/util.ts:209-247), in terms of the text alone.

module StylesheetReading {
  import opened TextPositions
  import opened PartialStylesheet

  // ----- forwards -----

  // The first end of a block comment from `from` on
  ghost predicate FirstClosing(text: string, from: nat, c: nat) {
    from <= c && Occurs(text, "*/", c) && forall i :: from <= i < c ==> !Occurs(text, "*/", i)
  }

  ghost predicate NoClosing(text: string, from: nat) {
    forall i: nat :: from <= i ==> !Occurs(text, "*/", i)
  }

  // Between p and r nothing is read, and r is.
  ghost predicate Resumes(text: string, isCSS: bool, from: nat, p: nat, r: nat) {
    && p < r <= |text| && Read(text, isCSS, from, r)
    && forall i :: p < i < r ==> !Read(text, isCSS, from, i)
  }

  // From a place that is read, reading goes on as if it had started there.
  lemma {:induction false} ReadThrough(text: string, isCSS: bool, from: nat, p: nat, i: nat)
    requires p <= i <= |text| && Read(text, isCSS, from, p)
    ensures Read(text, isCSS, from, i) <==> Read(text, isCSS, p, i)
    decreases |text| - from
  {
    if from < p {
      ReadThrough(text, isCSS, if text[from] == '/' then AfterSlash(text, isCSS, from) else from + 1, p, i);
    }
  }

  lemma ResumesAt(text: string, isCSS: bool, from: nat, p: nat)
    requires p < |text| && Read(text, isCSS, from, p)
    ensures Resumes(text, isCSS, from, p, if text[p] == '/' then AfterSlash(text, isCSS, p) else p + 1)
  {
    hide AfterSlash;
    var r := if text[p] == '/' then AfterSlash(text, isCSS, p) else p + 1;
    ReadThrough(text, isCSS, from, p, r);
    forall i | p < i < r
      ensures !Read(text, isCSS, from, i)
    {
      ReadThrough(text, isCSS, from, p, i);
    }
  }

  lemma TwoCharacters(text: string, word: string, p: nat)
    requires |word| == 2 && p <= |text|
    ensures Occurs(text, word, p) <==> p + 2 <= |text| && text[p] == word[0] && text[p + 1] == word[1]
  {
    if p + 2 <= |text| {
      assert text[p..p + 2] == [text[p], text[p + 1]];
      assert word == [word[0], word[1]];
    }
  }

  // A block comment is skipped to behind its first end, or to the end of the document.
  lemma BlockCommentSkipped(text: string, isCSS: bool, from: nat, p: nat, c: nat)
    requires p <= |text| && Read(text, isCSS, from, p) && Occurs(text, "/*", p)
    ensures FirstClosing(text, p + 2, c) ==> Resumes(text, isCSS, from, p, c + 2)
    ensures NoClosing(text, p + 2) ==> Resumes(text, isCSS, from, p, |text|)
  {
    hide Read, Resumes;
    TwoCharacters(text, "/*", p);
    ResumesAt(text, isCSS, from, p);
  }

  // The line behind that of p starts at q.
  ghost predicate NextLineAt(text: string, p: nat, q: nat) {
    p < q <= |text| && text[q - 1] == '\n' && LineOf(text, q - 1) == LineOf(text, p)
  }

  // Two slashes: outside CSS the rest of the line is skipped, ...
  lemma LineCommentSkipped(text: string, from: nat, p: nat)
    requires p <= |text| && Read(text, false, from, p) && Occurs(text, "//", p)
    ensures forall i :: p < i < |text| && LineOf(text, i) == LineOf(text, p) ==> !Read(text, false, from, i)
    ensures forall q: nat :: NextLineAt(text, p, q) ==> Read(text, false, from, q)
  {
    TwoCharacters(text, "//", p);
    ResumesAt(text, false, from, p);
    var r := AfterSlash(text, false, p);
    assert LineOf(text, p + 2) == LineOf(text, p) by {
      SameLine(text, p);
      SameLine(text, p + 1);
    }
    forall i | p < i < |text| && LineOf(text, i) == LineOf(text, p)
      ensures i < r
    {
      LineEnd(text, i);
      if text[i] == '\n' {
      } else {
        SameLine(text, i);
        LaterLine(text, ORIGIN, i + 1, Position(LineOf(text, p) + 1, 0));
      }
    }
    forall q: nat | NextLineAt(text, p, q)
      ensures q == r
    {
      LineEnd(text, q - 1);
    }
  }

  lemma SameLine(text: string, p: nat)
    requires p < |text| && text[p] != '\n'
    ensures LineOf(text, p + 1) == LineOf(text, p)
  {
    assert text[..p + 1] == text[..p] + [text[p]];
    AdvanceAppend(ORIGIN, text[..p], [text[p]]);
  }

  // The next line starts behind the line break.
  lemma LineEnd(text: string, p: nat)
    requires p < |text|
    ensures text[p] == '\n' ==> LineOf(text, p + 1) == LineOf(text, p) + 1 && OffsetAt(text, Position(LineOf(text, p) + 1, 0)) == p + 1
  {
    if text[p] == '\n' {
      assert text[..p + 1] == text[..p] + [text[p]];
      AdvanceAppend(ORIGIN, text[..p], [text[p]]);
      OffsetAtPositionAt(text, p + 1);
    }
  }

  // ... and in CSS they count as one, which may open a block comment.
  lemma DoubleSlashInCSS(text: string, from: nat, p: nat, c: nat)
    requires p <= |text| && Read(text, true, from, p) && Occurs(text, "//", p)
    ensures !Occurs(text, "/*", p + 1) ==> Resumes(text, true, from, p, p + 2)
    ensures Occurs(text, "/*", p + 1) && FirstClosing(text, p + 3, c) ==> Resumes(text, true, from, p, c + 2)
    ensures Occurs(text, "/*", p + 1) && NoClosing(text, p + 3) ==> Resumes(text, true, from, p, |text|)
  {
    hide Read, Resumes;
    TwoCharacters(text, "//", p);
    TwoCharacters(text, "/*", p + 1);
    ResumesAt(text, true, from, p);
  }

  // Everything else is read: the character behind any other one.
  lemma OtherwiseRead(text: string, isCSS: bool, from: nat, p: nat)
    requires p < |text| && Read(text, isCSS, from, p) && !Occurs(text, "/*", p) && !Occurs(text, "//", p)
    ensures Read(text, isCSS, from, p + 1)
  {
    TwoCharacters(text, "//", p);
    TwoCharacters(text, "/*", p);
    ResumesAt(text, isCSS, from, p);
  }

  // ----- backwards -----

  // A place where a block comment ends, and the last opening in front of it
  ghost predicate CommentEnd(text: string, p: nat) {
    0 < p < |text| && text[p] == '/' && text[p - 1] == '*'
  }

  ghost predicate LastOpening(text: string, p: nat, o: nat) {
    o + 2 < p && Occurs(text, "/*", o) && forall i :: o < i && i + 2 < p ==> !Occurs(text, "/*", i)
  }

  ghost predicate NoOpening(text: string, p: nat) {
    forall i: nat :: i + 2 < p ==> !Occurs(text, "/*", i)
  }

  lemma OpeningFound(text: string, p: nat, o: nat)
    requires p < |text|
    ensures CommentEnd(text, p) && LastOpening(text, p, o) ==> BeforeSlash(text, p) == o
    ensures CommentEnd(text, p) && NoOpening(text, p) ==> BeforeSlash(text, p) == 0
    ensures !CommentEnd(text, p) ==> BeforeSlash(text, p) == p
  {
  }

  // The place p lies in the block comment that ends at e.
  ghost predicate InBlock(text: string, p: nat, e: nat) {
    CommentEnd(text, e) && p < e && (NoOpening(text, e) || exists o: nat :: o <= p && LastOpening(text, e, o))
  }

  // The place p lies in a line comment that is skipped when reading back from `pos`: its own line is
  // not searched.
  ghost predicate InLineComment(text: string, isCSS: bool, p: nat, pos: nat)
    requires p <= |text| && pos <= |text|
  {
    !isCSS && LineOf(text, p) != LineOf(text, pos) && exists f: nat :: f <= p && FirstComment(text, LineOf(text, p), f)
  }

  lemma SkippedBlock(text: string, at: nat, i: nat)
    requires at < |text| && BeforeSlash(text, at) <= i < at
    ensures InBlock(text, i, at)
  {
    var o := BeforeSlash(text, at);
    if !NoOpening(text, at) {
      assert LastOpening(text, at, o);
    }
  }

  lemma SkippedLine(text: string, isCSS: bool, pos: nat, line: int, limit: nat, i: nat)
    requires 0 < pos && Behind(text, isCSS, limit, pos, line) && ReadAt(text, isCSS, pos, line) < i < pos
    ensures InLineComment(text, isCSS, i, limit)
  {
    hide LineOf;
    var p := AfterLineComment(text, isCSS, pos, line);
    assert p <= i < pos && FirstComment(text, LineOf(text, pos), p);
    LineOrder(text, p, i);
    LineOrder(text, i, pos);
  }

  lemma StillBehind(text: string, isCSS: bool, limit: nat, pos: nat, line: int)
    requires 0 < pos && Behind(text, isCSS, limit, pos, line)
    ensures Behind(text, isCSS, limit, BeforeSlash(text, ReadAt(text, isCSS, pos, line)), LineAfter(text, isCSS, pos, line))
  {
    hide LineOf, BeforeSlash;
    var p, at := AfterLineComment(text, isCSS, pos, line), ReadAt(text, isCSS, pos, line);
    ReadBehind(text, isCSS, limit, pos, line);
    LineOrder(text, at, p);
    LineOrder(text, BeforeSlash(text, at), at);
    LineOrder(text, pos, limit);
  }

  // Every place that is not read lies in a comment: in a block comment whose end is read, or in a line
  // comment.
  lemma {:induction false} UnreadInComment(text: string, isCSS: bool, limit: nat, pos: nat, line: int, i: nat)
    requires Behind(text, isCSS, limit, pos, line) && i < pos && i !in Places(text, isCSS, pos, line)
    ensures InLineComment(text, isCSS, i, limit) || exists e :: e in Places(text, isCSS, pos, line) && InBlock(text, i, e)
    decreases LineOf(text, pos), Searched(text, pos, line), pos
  {
    hide LineOf, AfterLineComment, BeforeSlash, InBlock, InLineComment, ReadAt;
    ReadEarlier(text, isCSS, pos, line);
    StillBehind(text, isCSS, limit, pos, line);
    var at, next := ReadAt(text, isCSS, pos, line), LineAfter(text, isCSS, pos, line);
    var cursor := BeforeSlash(text, at);
    EarlierBefore(text, at, next, pos, line, cursor);
    var places, before := Places(text, isCSS, pos, line), Places(text, isCSS, cursor, next);
    assert places == before + [at];
    if i < cursor {
      UnreadInComment(text, isCSS, limit, cursor, next, i);
      if !InLineComment(text, isCSS, i, limit) {
        var e :| e in before && InBlock(text, i, e);
        assert e in places;
      }
    } else if i < at {
      SkippedBlock(text, at, i);
      assert at in places;
    } else {
      assert at in places;
      SkippedLine(text, isCSS, pos, line, limit, i);
    }
  }

  lemma SkippedAreComments(text: string, isCSS: bool, pos: nat, i: nat)
    requires i < pos <= |text| && i !in PlacesBefore(text, isCSS, pos)
    ensures InLineComment(text, isCSS, i, pos) || exists e :: e in PlacesBefore(text, isCSS, pos) && InBlock(text, i, e)
  {
    UnreadInComment(text, isCSS, pos, pos, LineOf(text, pos), i);
  }

  // A line that was searched is read in front of its first comment only.
  ghost predicate InFront(text: string, isCSS: bool, limit: nat, pos: nat, line: int) {
    && Behind(text, isCSS, limit, pos, line)
    && (!isCSS && line == LineOf(text, pos) != LineOf(text, limit) ==> forall f: nat :: FirstComment(text, LineOf(text, pos), f) ==> pos <= f)
  }

  lemma StillInFront(text: string, isCSS: bool, limit: nat, pos: nat, line: int)
    requires 0 < pos && InFront(text, isCSS, limit, pos, line)
    ensures InFront(text, isCSS, limit, BeforeSlash(text, ReadAt(text, isCSS, pos, line)), LineAfter(text, isCSS, pos, line))
    ensures var p := AfterLineComment(text, isCSS, pos, line);
      !isCSS && LineOf(text, pos) != LineOf(text, limit) ==> forall f: nat :: FirstComment(text, LineOf(text, pos), f) ==> p <= f
  {
    hide LineOf, BeforeSlash;
    StillBehind(text, isCSS, limit, pos, line);
    forall f: nat | !isCSS && FirstComment(text, LineOf(text, pos), f) && LineOf(text, pos) != LineOf(text, limit)
      ensures AfterLineComment(text, isCSS, pos, line) <= f
    {
      if line != LineOf(text, pos) {
        AfterLineCommentIs(text, isCSS, pos, line, f);
      }
    }
  }

  // Of a line comment at most its line break is read, and the first character of the document.
  lemma {:induction false} ReadInFront(text: string, isCSS: bool, limit: nat, pos: nat, line: int, i: nat)
    requires Behind(text, isCSS, limit, pos, line) && InFront(text, isCSS, limit, pos, line)
    requires i in Places(text, isCSS, pos, line) && InLineComment(text, isCSS, i, limit)
    ensures i == 0 || text[i] == '\n'
    decreases LineOf(text, pos), Searched(text, pos, line), pos
  {
    hide LineOf, AfterLineComment, BeforeSlash, InFront;
    StillBehind(text, isCSS, limit, pos, line);
    ReadEarlier(text, isCSS, pos, line);
    StillInFront(text, isCSS, limit, pos, line);
    var at, next := ReadAt(text, isCSS, pos, line), LineAfter(text, isCSS, pos, line);
    var cursor := BeforeSlash(text, at);
    EarlierBefore(text, at, next, pos, line, cursor);
    assert Places(text, isCSS, pos, line) == Places(text, isCSS, cursor, next) + [at];
    if i in Places(text, isCSS, cursor, next) {
      ReadInFront(text, isCSS, limit, cursor, next, i);
    } else if i > 0 && text[i] != '\n' {
      SameLine(text, i);
    }
  }

  lemma LineCommentsUnread(text: string, isCSS: bool, pos: nat, i: nat)
    requires pos <= |text| && i in PlacesBefore(text, isCSS, pos) && InLineComment(text, isCSS, i, pos)
    ensures i == 0 || text[i] == '\n'
  {
    ReadInFront(text, isCSS, pos, pos, LineOf(text, pos), i);
  }

  // Where the cursor was when it read the k-th place
  lemma {:induction false} CursorAt(text: string, isCSS: bool, limit: nat, pos: nat, line: int, k: nat) returns (pos': nat, line': int)
    requires Behind(text, isCSS, limit, pos, line) && k < |Places(text, isCSS, pos, line)|
    ensures 0 < pos' && Behind(text, isCSS, limit, pos', line')
    ensures Places(text, isCSS, pos', line') == Places(text, isCSS, pos, line)[..k + 1]
    decreases LineOf(text, pos), Searched(text, pos, line), pos
  {
    hide LineOf, AfterLineComment, BeforeSlash, ReadAt;
    ReadEarlier(text, isCSS, pos, line);
    StillBehind(text, isCSS, limit, pos, line);
    var at, next := ReadAt(text, isCSS, pos, line), LineAfter(text, isCSS, pos, line);
    var cursor := BeforeSlash(text, at);
    EarlierBefore(text, at, next, pos, line, cursor);
    var before := Places(text, isCSS, cursor, next);
    assert Places(text, isCSS, pos, line) == before + [at];
    if k == |before| {
      pos', line' := pos, line;
      assert (before + [at])[..k + 1] == before + [at];
    } else {
      pos', line' := CursorAt(text, isCSS, limit, cursor, next, k);
      assert (before + [at])[..k + 1] == before[..k + 1];
    }
  }

  // From the opening of a block comment back nothing behind it is read, except in front of a line
  // comment that starts behind the opening, on an earlier line than the end.
  ghost predicate ReadAgain(text: string, isCSS: bool, o: nat, e: nat, i: nat)
    requires o <= |text| && e <= |text|
  {
    !isCSS && LineOf(text, o) < LineOf(text, e) && exists f: nat :: i < f && FirstComment(text, LineOf(text, o), f)
  }

  lemma {:induction false} ReadFromCursor(text: string, isCSS: bool, limit: nat, pos: nat, line: int, i: nat)
    requires Behind(text, isCSS, limit, pos, line) && i in Places(text, isCSS, pos, line)
    ensures i < pos || (!isCSS && line != LineOf(text, pos) && exists f: nat :: i < f && FirstComment(text, LineOf(text, pos), f))
  {
    hide LineOf, BeforeSlash;
    PlacesIncrease(text, isCSS, limit, pos, line);
    ReadEarlier(text, isCSS, pos, line);
    var places := Places(text, isCSS, pos, line);
    var k :| 0 <= k < |places| && places[k] == i;
    assert places[|places| - 1] == ReadAt(text, isCSS, pos, line);
    assert i <= ReadAt(text, isCSS, pos, line);
  }

  lemma UnreadBefore(text: string, isCSS: bool, limit: nat, pos: nat, line: int, i: nat, o: nat)
    requires 0 < pos && Behind(text, isCSS, limit, pos, line) && CommentEnd(text, ReadAt(text, isCSS, pos, line))
    requires var at := ReadAt(text, isCSS, pos, line);
      at <= |text| && i in Places(text, isCSS, BeforeSlash(text, at), LineAfter(text, isCSS, pos, line))
    ensures var at := ReadAt(text, isCSS, pos, line);
      !NoOpening(text, at) && (LastOpening(text, at, o) ==> i < o || ReadAgain(text, isCSS, o, at, i))
  {
    hide LineOf, BeforeSlash, AfterLineComment, LastOpening, NoOpening, CommentEnd, Places;
    var at, next := ReadAt(text, isCSS, pos, line), LineAfter(text, isCSS, pos, line);
    ReadEarlier(text, isCSS, pos, line);
    OpeningFound(text, at, o);
    ReadBehind(text, isCSS, limit, pos, line);
    if NoOpening(text, at) {
      NothingBefore(text, isCSS, next);
      assert false;
    }
    ReadFromCursor(text, isCSS, AfterLineComment(text, isCSS, pos, line), BeforeSlash(text, at), next, i);
    EndOnLine(text, isCSS, pos, line);
    LineOrder(text, BeforeSlash(text, at), at);
  }

  lemma BlockCommentsUnread(text: string, isCSS: bool, pos: nat, k: nat, j: nat, o: nat)
    requires pos <= |text| && j < k < |PlacesBefore(text, isCSS, pos)| && CommentEnd(text, PlacesBefore(text, isCSS, pos)[k])
    ensures var places := PlacesBefore(text, isCSS, pos);
      && !NoOpening(text, places[k])
      && (LastOpening(text, places[k], o) ==> places[j] < o || ReadAgain(text, isCSS, o, places[k], places[j]))
  {
    hide LineOf, BeforeSlash, AfterLineComment, LastOpening, NoOpening, CommentEnd, ReadAgain;
    var places := PlacesBefore(text, isCSS, pos);
    var pos', line' := CursorAt(text, isCSS, pos, pos, LineOf(text, pos), k);
    var at := ReadAt(text, isCSS, pos', line');
    ReadEarlier(text, isCSS, pos', line');
    var before := Places(text, isCSS, BeforeSlash(text, at), LineAfter(text, isCSS, pos', line'));
    assert places[..k + 1] == before + [at];
    assert places[k] == at && places[j] == before[j];
    UnreadBefore(text, isCSS, pos, pos', line', places[j], o);
  }

  lemma EndOnLine(text: string, isCSS: bool, pos: nat, line: int)
    requires 0 < pos <= |text| && CommentEnd(text, ReadAt(text, isCSS, pos, line))
    ensures !isCSS ==> LineAfter(text, isCSS, pos, line) == LineOf(text, ReadAt(text, isCSS, pos, line))
  {
    var at := ReadAt(text, isCSS, pos, line);
    SameLine(text, at);
  }
}
