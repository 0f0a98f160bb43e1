// Finding the rule set around a position without parsing the whole document
// (extensions/emmet/src/util.ts:180-337), and the cursor it moves over the document
// (extensions/emmet/src/bufferStream.ts).

module PartialStylesheet {
  import opened Options
  import opened TextPositions
  import opened Whitespace

  // ----- lines -----

  function LineOf(text: string, pos: nat): nat
    requires pos <= |text|
  {
    AdvanceOrder(ORIGIN, text[..pos]);
    PositionAt(text, pos).line
  }

  lemma LineOrder(text: string, a: nat, b: nat)
    requires a <= b <= |text|
    ensures LineOf(text, a) <= LineOf(text, b)
  {
    assert text[..b] == text[..a] + text[a..b];
    AdvanceAppend(ORIGIN, text[..a], text[a..b]);
    AdvanceOrder(PositionAt(text, a), text[a..b]);
  }

  lemma {:induction false} LinesCount(p: Position, text: string, pos: nat)
    requires pos <= |text|
    ensures Advance(p, text[..pos]).line < p.line + |Lines(text)|
    decreases |text|
  {
    if pos > 0 {
      assert text[..pos][1..] == text[1..][..pos - 1];
      LinesCount(Next(p, text[0]), text[1..], pos - 1);
    }
  }

  function PlaceIn(at: Position, line: nat, character: nat): Position {
    Position(at.line + line, if line == 0 then at.character + character else character)
  }

  // A place in a line of the text, counted from where the text starts
  lemma {:induction false} PlaceInLine(at: Position, text: string, line: nat, character: nat)
    requires line < |Lines(text)| && character <= |Lines(text)[line]|
    ensures var p := PlaceIn(at, line, character); Advance(at, text[..OffsetFrom(text, at, p)]) == p
    decreases |text|
  {
    var p := PlaceIn(at, line, character);
    if text != "" && OffsetFrom(text, at, p) > 0 {
      var rest := text[1..];
      var offset := OffsetFrom(rest, Next(at, text[0]), p);
      assert text[..1 + offset][1..] == rest[..offset];
      if text[0] == '\n' {
        PlaceInLine(Next(at, text[0]), rest, line - 1, character);
      } else {
        PlaceInLine(Next(at, text[0]), rest, line, if line == 0 then character - 1 else character);
      }
    }
  }

  // Behind it lies the rest of the line.
  lemma {:induction false} TailOfLine(at: Position, text: string, line: nat, character: nat)
    requires line < |Lines(text)| && character <= |Lines(text)[line]|
    ensures Lines(text)[line][character..] <= text[OffsetFrom(text, at, PlaceIn(at, line, character))..]
    decreases |text|
  {
    var offset := OffsetFrom(text, at, PlaceIn(at, line, character));
    if text == "" || offset == 0 {
      LineStart(text);
    } else {
      var rest, next := text[1..], Next(at, text[0]);
      assert rest[offset - 1..] == text[offset..];
      OneCharacter(at, text, line, character);
      if text[0] == '\n' {
        TailOfLine(next, rest, line - 1, character);
      } else if line > 0 {
        TailOfLine(next, rest, line, character);
      } else {
        TailOfLine(next, rest, 0, character - 1);
      }
    }
  }

  // What is left of a line when the first character of the text is gone
  lemma OneCharacter(at: Position, text: string, line: nat, character: nat)
    requires line < |Lines(text)| && character <= |Lines(text)[line]|
    requires text != "" && OffsetFrom(text, at, PlaceIn(at, line, character)) > 0
    ensures var rest, p := text[1..], PlaceIn(at, line, character);
      && OffsetFrom(text, at, p) == 1 + OffsetFrom(rest, Next(at, text[0]), p)
      && (if text[0] == '\n' then
            && line > 0 && PlaceIn(Next(at, text[0]), line - 1, character) == p
            && line - 1 < |Lines(rest)| && Lines(text)[line] == Lines(rest)[line - 1]
          else if line > 0 then
            && PlaceIn(Next(at, text[0]), line, character) == p
            && line < |Lines(rest)| && Lines(text)[line] == Lines(rest)[line]
          else
            && character > 0 && PlaceIn(Next(at, text[0]), 0, character - 1) == p
            && Lines(text)[0][character..] == Lines(rest)[0][character - 1..]
            && character - 1 <= |Lines(rest)[0]|)
  {
  }

  lemma {:induction false} LineStart(text: string)
    ensures Lines(text)[0] <= text
  {
    if text != "" {
      LineStart(text[1..]);
      if text[0] != '\n' {
        assert text == [text[0]] + text[1..];
      }
    }
  }

  // The line that a place is in, and the column
  lemma {:induction false} RestOfLine(at: Position, text: string, pos: nat) returns (line: nat, character: nat)
    requires pos <= |text|
    ensures Advance(at, text[..pos]) == PlaceIn(at, line, character)
    ensures line < |Lines(text)| && character <= |Lines(text)[line]| && Lines(text)[line][character..] == Lines(text[pos..])[0]
    decreases |text|
  {
    if pos == 0 {
      line, character := 0, 0;
      assert text[pos..] == text;
    } else {
      var rest := text[1..];
      assert text[..pos][1..] == rest[..pos - 1] && rest[pos - 1..] == text[pos..];
      line, character := RestOfLine(Next(at, text[0]), rest, pos - 1);
      if text[0] == '\n' {
        line := line + 1;
      } else if line == 0 {
        character := character + 1;
        assert Lines(text)[0][character..] == Lines(rest)[0][character - 1..];
      }
    }
  }

  lemma {:induction false} LaterLine(text: string, at: Position, pos: nat, p: Position)
    requires pos <= |text| && Advance(at, text[..pos]).line < p.line
    ensures OffsetFrom(text, at, p) >= pos
    decreases |text|
  {
    if pos > 0 {
      AdvanceOrder(at, text[..pos]);
      assert text[..pos][1..] == text[1..][..pos - 1];
      LaterLine(text[1..], Next(at, text[0]), pos - 1, p);
    }
  }

  // ----- searching -----

  predicate Occurs(text: string, word: string, i: nat) {
    i + |word| <= |text| && text[i..i + |word|] == word
  }

  // indexOf(word, from)
  function IndexFrom(text: string, word: string, from: nat): (r: Option<nat>)
    ensures r.Some? ==> from <= r.value && Occurs(text, word, r.value)
    ensures forall i: nat :: from <= i && (r.Some? ==> i < r.value) ==> !Occurs(text, word, i)
    decreases |text| - from
  {
    if from + |word| > |text| then None
    else if Occurs(text, word, from) then Some(from)
    else IndexFrom(text, word, from + 1)
  }

  // lastIndexOf(word, last)
  function LastIndexFrom(text: string, word: string, last: nat): (r: Option<nat>)
    ensures r.Some? ==> r.value <= last && Occurs(text, word, r.value)
    ensures forall i: nat :: i <= last && (r.Some? ==> r.value < i) ==> !Occurs(text, word, i)
  {
    if Occurs(text, word, last) then Some(last)
    else if last == 0 then None
    else LastIndexFrom(text, word, last - 1)
  }

  // substring(0, end).lastIndexOf(word)
  function LastIndexIn(text: string, word: string, end: nat): (r: Option<nat>)
    ensures r.Some? ==> r.value + |word| <= end && Occurs(text, word, r.value)
    ensures forall i: nat :: i + |word| <= end && (r.Some? ==> r.value < i) ==> !Occurs(text, word, i)
  {
    if end < |word| then None else LastIndexFrom(text, word, end - |word|)
  }

  // ----- the cursor -----

  class DocumentStreamReader {
    const text: string
    const sofAt: nat
    const eofAt: nat
    const start: nat
    var pos: nat

    ghost predicate Valid()
      reads this
    {
      pos <= eofAt <= |text|
    }

    constructor (text: string, pos: nat, limit: Option<(nat, nat)>)
      requires match limit case Some(l) => pos <= l.1 <= |text| case None => pos <= |text|
      ensures Valid() && this.text == text && this.pos == pos && start == pos
      ensures sofAt == (if limit.Some? then limit.value.0 else 0)
      ensures eofAt == (if limit.Some? then limit.value.1 else |text|)
    {
      this.text := text;
      this.pos := pos;
      start := pos;
      sofAt := if limit.Some? then limit.value.0 else 0;
      eofAt := if limit.Some? then limit.value.1 else |text|;
    }

    predicate Sof()
      reads this
    {
      pos <= sofAt
    }

    predicate Eof()
      reads this
    {
      pos >= eofAt
    }

    function Peek(): (c: Option<char>)
      requires Valid()
      reads this
      ensures c.None? <==> pos == eofAt
    {
      if Eof() then None else Some(text[pos])
    }

    method Next() returns (c: Option<char>)
      requires Valid()
      modifies this
      ensures Valid() && c == old(Peek())
      ensures pos == if old(pos) < eofAt then old(pos) + 1 else old(pos)
    {
      if Eof() {
        return None;
      }
      c := Some(text[pos]);
      pos := pos + 1;
      if Eof() {
        pos := eofAt;
      }
    }

    method BackUp(n: nat) returns (c: Option<char>)
      requires Valid()
      modifies this
      ensures Valid() && c == Peek()
      ensures pos == if n <= old(pos) then old(pos) - n else 0
    {
      if n > pos {
        pos := 0;
      } else {
        pos := pos - n;
      }
      c := Peek();
    }

    method Eat(c: char) returns (ok: bool)
      requires Valid()
      modifies this
      ensures Valid()
      ensures ok <==> old(Peek()) == Some(c)
      ensures pos == if ok then old(pos) + 1 else old(pos)
    {
      ok := Peek() == Some(c);
      if ok {
        var _ := Next();
      }
    }

    // Moves over the longest run of c.
    method EatWhile(c: char) returns (ok: bool)
      requires Valid()
      modifies this
      ensures Valid() && old(pos) <= pos
      ensures forall i :: old(pos) <= i < pos ==> text[i] == c
      ensures Peek() != Some(c)
      ensures ok <==> pos != old(pos)
    {
      var from := pos;
      var eaten := true;
      while !Eof() && eaten
        invariant Valid() && from <= pos
        invariant forall i :: from <= i < pos ==> text[i] == c
        invariant !eaten ==> Peek() != Some(c)
        decreases eaten, eofAt - pos
      {
        eaten := Eat(c);
      }
      ok := pos != from;
    }
  }

  // ----- comments -----

  // Where a cursor going back from `limit` may be: it has not passed `limit`, and the line of
  // `limit` counts as searched for a line comment.
  ghost predicate Behind(text: string, isCSS: bool, limit: nat, pos: nat, currentLine: int) {
    pos <= limit <= |text| && (!isCSS && LineOf(text, pos) == LineOf(text, limit) ==> currentLine == LineOf(text, limit))
  }

  function Searched(text: string, pos: nat, currentLine: int): nat
    requires pos <= |text|
  {
    if currentLine == LineOf(text, pos) then 0 else 1
  }

  lemma CommentPlace(text: string, line: nat, k: nat)
    requires line < |Lines(text)| && Occurs(Lines(text)[line], "//", k)
    ensures var pos := OffsetAt(text, Position(line, k)); LineOf(text, pos) == line && Occurs(text, "//", pos)
  {
    PlaceInLine(ORIGIN, text, line, k);
    TailOfLine(ORIGIN, text, line, k);
    var tail, pos := Lines(text)[line][k..], OffsetAt(text, Position(line, k));
    assert tail[..2] == Lines(text)[line][k..k + 2];
    assert text[pos..][..2] == text[pos..pos + 2];
  }

  lemma StartsWithSlashes(text: string, pos: nat)
    requires Occurs(text, "//", pos)
    ensures "//" <= Lines(text[pos..])[0]
  {
    var tail := text[pos..];
    assert tail[0] == text[pos..pos + 2][0] == '/' && tail[1..][0] == text[pos..pos + 2][1] == '/';
    assert Lines(tail)[0] == ['/'] + (['/'] + Lines(tail[1..][1..])[0]);
  }

  // Two slashes are found in their line.
  lemma CommentInLine(text: string, pos: nat)
    requires Occurs(text, "//", pos)
    ensures LineOf(text, pos) < |Lines(text)| && PositionAt(text, pos).character >= 0
    ensures Occurs(Lines(text)[LineOf(text, pos)], "//", PositionAt(text, pos).character)
  {
    var line, character := RestOfLine(ORIGIN, text, pos);
    StartsWithSlashes(text, pos);
    assert Lines(text)[line][character..][..2] == Lines(text)[line][character..character + 2];
  }

  // The first line comment of a line
  ghost predicate FirstComment(text: string, line: nat, pos: nat) {
    && pos <= |text| && Occurs(text, "//", pos) && LineOf(text, pos) == line
    && forall p :: 0 <= p < pos && Occurs(text, "//", p) ==> LineOf(text, p) != line
  }

  ghost predicate NoComment(text: string, line: nat) {
    forall p :: 0 <= p <= |text| && Occurs(text, "//", p) ==> LineOf(text, p) != line
  }

  lemma FirstInLine(text: string, line: nat, k: nat)
    requires line < |Lines(text)| && Occurs(Lines(text)[line], "//", k)
    requires forall i: nat :: i < k ==> !Occurs(Lines(text)[line], "//", i)
    ensures FirstComment(text, line, OffsetAt(text, Position(line, k)))
  {
    var pos := OffsetAt(text, Position(line, k));
    CommentPlace(text, line, k);
    PlaceInLine(ORIGIN, text, line, k);
    forall p | 0 <= p < pos && Occurs(text, "//", p)
      ensures LineOf(text, p) != line
    {
      CommentInLine(text, p);
      assert text[..pos] == text[..p] + text[p..pos];
      AdvanceAppend(ORIGIN, text[..p], text[p..pos]);
      AdvanceOrder(PositionAt(text, p), text[p..pos]);
    }
  }

  lemma NoneInLine(text: string, line: nat)
    requires line < |Lines(text)| && forall i: nat :: !Occurs(Lines(text)[line], "//", i)
    ensures NoComment(text, line)
  {
    forall p | 0 <= p <= |text| && Occurs(text, "//", p)
      ensures LineOf(text, p) != line
    {
      CommentInLine(text, p);
    }
  }

  // On a line it has not searched yet the cursor moves to the first line comment, even if that
  // is a move forward.
  method ConsumeLineCommentBackwards(stream: DocumentStreamReader, isCSS: bool, currentLine: int, ghost limit: nat)
    returns (line: int)
    requires stream.Valid() && stream.eofAt == |stream.text| && Behind(stream.text, isCSS, limit, stream.pos, currentLine)
    modifies stream
    ensures stream.Valid() && Behind(stream.text, isCSS, limit, stream.pos, line)
    ensures isCSS || currentLine == LineOf(stream.text, old(stream.pos)) ==> stream.pos == old(stream.pos) && line == currentLine
    ensures !isCSS && currentLine != LineOf(stream.text, old(stream.pos)) ==>
      && line == LineOf(stream.text, old(stream.pos))
      && (FirstComment(stream.text, line, stream.pos) || (NoComment(stream.text, line) && stream.pos == old(stream.pos)))
    ensures stream.pos != old(stream.pos) ==> stream.pos < limit
  {
    line := currentLine;
    var posLineNumber := LineOf(stream.text, stream.pos);
    if !isCSS && currentLine != posLineNumber {
      line := posLineNumber;
      LinesCount(ORIGIN, stream.text, stream.pos);
      var lineText := Lines(stream.text)[line];
      var startLineComment := IndexFrom(lineText, "//", 0);
      if startLineComment.Some? {
        LineOrder(stream.text, stream.pos, limit);
        FirstInLine(stream.text, line, startLineComment.value);
        stream.pos := OffsetAt(stream.text, Position(line, startLineComment.value));
        if stream.pos >= limit {
          LineOrder(stream.text, limit, stream.pos);
        }
      } else {
        NoneInLine(stream.text, line);
      }
    }
  }

  // Where the cursor is after a slash at its place: before the block comment that ends there, if any
  function BeforeSlash(text: string, pos: nat): (r: nat)
    requires pos <= |text|
    ensures r <= pos
  {
    if 0 < pos < |text| && text[pos] == '/' && text[pos - 1] == '*' then
      match LastIndexIn(text, "/*", pos - 1)
      case Some(opening) => opening
      case None => 0
    else pos
  }

  method ConsumeBlockCommentBackwards(stream: DocumentStreamReader, startOffset: nat)
    requires stream.Valid() && stream.sofAt == 0 && stream.eofAt == |stream.text| && startOffset == 0
    modifies stream
    ensures stream.Valid() && stream.pos == BeforeSlash(stream.text, old(stream.pos))
  {
    if !stream.Sof() && stream.Peek() == Some('/') {
      var c := stream.BackUp(1);
      if c == Some('*') {
        var opening := LastIndexIn(stream.text, "/*", stream.pos);
        stream.pos := if opening.Some? then opening.value else startOffset;
      } else {
        var _ := stream.Next();
      }
    }
  }

  // Where what starts with a slash ends: a line comment at the next line, a block comment behind
  // its end, and anything else behind the slash; CSS has no line comments, but two slashes and a
  // star open a block comment there.
  function AfterSlash(text: string, isCSS: bool, pos: nat): (r: nat)
    requires pos < |text| && text[pos] == '/'
    ensures pos < r <= |text|
  {
    var double := pos + 1 < |text| && text[pos + 1] == '/';
    if double && !isCSS then
      LaterLine(text, ORIGIN, pos + 2, Position(LineOf(text, pos + 2) + 1, 0));
      OffsetAt(text, Position(LineOf(text, pos + 2) + 1, 0))
    else
      var k := if double then pos + 2 else pos + 1;
      if k < |text| && text[k] == '*' then
        match IndexFrom(text, "*/", k + 1)
        case Some(closing) => closing + 2
        case None => |text|
      else k
  }

  method ConsumeCommentForwards(stream: DocumentStreamReader, isCSS: bool, endOffset: nat)
    requires stream.Valid() && stream.eofAt == |stream.text| == endOffset && stream.Peek() == Some('/')
    modifies stream
    ensures stream.Valid() && stream.pos == AfterSlash(stream.text, isCSS, old(stream.pos))
  {
    var slash := stream.Eat('/');
    if slash {
      var second := stream.Eat('/');
      if second && !isCSS {
        var posLineNumber := LineOf(stream.text, stream.pos);
        stream.pos := OffsetAt(stream.text, Position(posLineNumber + 1, 0));
      } else {
        var star := stream.Eat('*');
        if star {
          var closing := IndexFrom(stream.text, "*/", stream.pos);
          stream.pos := if closing.Some? then closing.value + 2 else endOffset;
        }
      }
    }
  }

  // ----- on to the end of the rule set -----

  // Reading on from `from`, the i-th character is read and not skipped with a comment.
  ghost predicate Read(text: string, isCSS: bool, from: nat, i: nat)
    requires i <= |text|
    decreases |text| - from
  {
    || from == i
    || (from < i && Read(text, isCSS, if text[from] == '/' then AfterSlash(text, isCSS, from) else from + 1, i))
  }

  lemma ReadOn(text: string, isCSS: bool, pos: nat)
    requires pos < |text|
    ensures Read(text, isCSS, pos, pos)
    ensures var next := if text[pos] == '/' then AfterSlash(text, isCSS, pos) else pos + 1;
      forall i :: pos < i <= |text| ==> (Read(text, isCSS, pos, i) <==> i >= next && Read(text, isCSS, next, i))
  {
  }

  // Behind the first closing brace outside comments, or the end of the document
  method FindEnd(stream: DocumentStreamReader, isCSS: bool) returns (endOffset: nat)
    requires stream.Valid() && stream.eofAt == |stream.text|
    modifies stream
    ensures stream.Valid() && old(stream.pos) <= endOffset <= |stream.text|
    ensures endOffset < |stream.text| ==>
      old(stream.pos) < endOffset && stream.text[endOffset - 1] == '}' && Read(stream.text, isCSS, old(stream.pos), endOffset - 1)
    ensures forall i :: old(stream.pos) <= i < endOffset - 1 && Read(stream.text, isCSS, old(stream.pos), i) ==> stream.text[i] != '}'
  {
    hide Read, AfterSlash;
    endOffset := |stream.text|;
    ghost var from, text := stream.pos, stream.text;
    var atBrace := false;
    while !stream.Eof() && !atBrace
      invariant stream.Valid() && from <= stream.pos
      invariant !atBrace ==> forall i :: stream.pos <= i <= |text| ==> (Read(text, isCSS, from, i) <==> Read(text, isCSS, stream.pos, i))
      invariant atBrace ==> from < stream.pos && text[stream.pos - 1] == '}' && Read(text, isCSS, from, stream.pos - 1)
      invariant forall i :: from <= i < (if atBrace then stream.pos - 1 else stream.pos) && Read(text, isCSS, from, i) ==> text[i] != '}'
      decreases !atBrace, |text| - stream.pos
    {
      ghost var pos := stream.pos;
      ReadOn(text, isCSS, pos);
      atBrace := stream.Eat('}');
      if !atBrace {
        if stream.Peek() == Some('/') {
          ConsumeCommentForwards(stream, isCSS, endOffset);
          assert stream.pos == AfterSlash(text, isCSS, pos);
        } else {
          var _ := stream.Next();
        }
      }
    }
    if !stream.Eof() {
      endOffset := stream.pos;
    }
  }

  // ----- back to the start of the rule set -----

  // Opening minus closing braces
  function Braces(text: string): int {
    if text == "" then 0
    else (if text[0] == '{' then 1 else if text[0] == '}' then -1 else 0) + Braces(text[1..])
  }

  // The brace at b is the innermost one that is open at pos.
  ghost predicate Encloses(text: string, b: nat, pos: nat) {
    && b < pos <= |text| && text[b] == '{' && Braces(text[b..pos]) == 1
    && forall p :: b < p <= pos ==> Braces(text[p..pos]) <= 0
  }

  // The measure of the search: the line, whether it is still to be searched for a comment, and the
  // place
  ghost predicate Earlier(text: string, pos1: nat, line1: int, pos2: nat, line2: int) {
    && pos1 <= |text| && pos2 <= |text|
    && LineOf(text, pos1) <= LineOf(text, pos2)
    && (LineOf(text, pos1) == LineOf(text, pos2) ==>
          && Searched(text, pos1, line1) <= Searched(text, pos2, line2)
          && (Searched(text, pos1, line1) == Searched(text, pos2, line2) ==> pos1 < pos2))
  }

  lemma EarlierBefore(text: string, pos1: nat, line1: int, pos2: nat, line2: int, pos: nat)
    requires Earlier(text, pos1, line1, pos2, line2) && pos <= pos1
    ensures Earlier(text, pos, line1, pos2, line2)
  {
    LineOrder(text, pos, pos1);
  }

  lemma BehindBefore(text: string, isCSS: bool, limit: nat, pos1: nat, line: int, pos: nat)
    requires Behind(text, isCSS, limit, pos1, line) && pos <= pos1
    ensures Behind(text, isCSS, limit, pos, line)
  {
    LineOrder(text, pos, pos1);
    LineOrder(text, pos1, limit);
  }

  // ----- what is read backwards -----

  // Where the cursor is after the search of its line for a comment
  ghost function AfterLineComment(text: string, isCSS: bool, pos: nat, line: int): (r: nat)
    requires pos <= |text|
    ensures r == pos || FirstComment(text, LineOf(text, pos), r)
  {
    if !isCSS && line != LineOf(text, pos) && exists p: nat :: FirstComment(text, LineOf(text, pos), p) then
      var p: nat :| FirstComment(text, LineOf(text, pos), p);
      p
    else pos
  }

  function LineAfter(text: string, isCSS: bool, pos: nat, line: int): int
    requires pos <= |text|
  {
    if isCSS then line else LineOf(text, pos)
  }

  // The place that is read next
  ghost function ReadAt(text: string, isCSS: bool, pos: nat, line: int): nat
    requires pos <= |text|
  {
    var p := AfterLineComment(text, isCSS, pos, line);
    if p == 0 then 0 else p - 1
  }

  lemma ReadEarlier(text: string, isCSS: bool, pos: nat, line: int)
    requires 0 < pos <= |text|
    ensures var at := ReadAt(text, isCSS, pos, line);
      at < |text| && Earlier(text, at, LineAfter(text, isCSS, pos, line), pos, line)
  {
    var p := AfterLineComment(text, isCSS, pos, line);
    LineOrder(text, ReadAt(text, isCSS, pos, line), p);
  }

  // The places that are read from `pos` back, in the order of the document: comments are skipped.
  ghost function Places(text: string, isCSS: bool, pos: nat, line: int): (r: seq<nat>)
    requires pos <= |text|
    ensures forall k :: 0 <= k < |r| ==> r[k] < |text|
    decreases LineOf(text, pos), Searched(text, pos, line), pos
  {
    hide LineOf, AfterLineComment, BeforeSlash;
    if pos == 0 then []
    else
      ReadEarlier(text, isCSS, pos, line);
      var at, next := ReadAt(text, isCSS, pos, line), LineAfter(text, isCSS, pos, line);
      EarlierBefore(text, at, next, pos, line, BeforeSlash(text, at));
      Places(text, isCSS, BeforeSlash(text, at), next) + [at]
  }

  // What is there
  function Seen(text: string, places: seq<nat>): (r: string)
    ensures |r| == |places|
    ensures forall k :: 0 <= k < |places| && places[k] < |text| ==> r[k] == text[places[k]]
  {
    seq(|places|, k requires 0 <= k < |places| => if places[k] < |text| then text[places[k]] else ' ')
  }

  ghost function PlacesBefore(text: string, isCSS: bool, pos: nat): seq<nat>
    requires pos <= |text|
  {
    Places(text, isCSS, pos, LineOf(text, pos))
  }

  // The cursor does not come back: what is read next lies before, even behind a move forward.
  lemma ReadBehind(text: string, isCSS: bool, limit: nat, pos: nat, line: int)
    requires 0 < pos && Behind(text, isCSS, limit, pos, line)
    ensures var p := AfterLineComment(text, isCSS, pos, line);
      && p <= limit && (p == pos || p < limit)
      && Behind(text, isCSS, p, BeforeSlash(text, ReadAt(text, isCSS, pos, line)), LineAfter(text, isCSS, pos, line))
  {
    hide LineOf, BeforeSlash;
    var p := AfterLineComment(text, isCSS, pos, line);
    var at := ReadAt(text, isCSS, pos, line);
    if p > limit {
      LineOrder(text, limit, p);
      LineOrder(text, pos, limit);
    } else if p == limit {
    }
    LineOrder(text, at, p);
    LineOrder(text, BeforeSlash(text, at), at);
  }

  ghost predicate Increasing(places: seq<nat>, limit: nat) {
    && (forall k :: 0 <= k < |places| ==> places[k] < limit)
    && (forall j, k :: 0 <= j < k < |places| ==> places[j] < places[k])
  }

  lemma IncreasingSnoc(places: seq<nat>, at: nat, limit: nat, lower: nat)
    requires Increasing(places, lower) && lower <= limit && at < limit
    requires places != [] ==> places[|places| - 1] < at
    ensures Increasing(places + [at], limit)
  {
  }

  // Each place is read once, and in the order of the document.
  lemma {:induction false} PlacesIncrease(text: string, isCSS: bool, limit: nat, pos: nat, line: int)
    requires Behind(text, isCSS, limit, pos, line)
    ensures Increasing(Places(text, isCSS, pos, line), limit)
    decreases LineOf(text, pos), Searched(text, pos, line), pos
  {
    hide LineOf, AfterLineComment, BeforeSlash;
    if pos > 0 {
      ReadEarlier(text, isCSS, pos, line);
      ReadBehind(text, isCSS, limit, pos, line);
      var at, next := ReadAt(text, isCSS, pos, line), LineAfter(text, isCSS, pos, line);
      var p, cursor := AfterLineComment(text, isCSS, pos, line), BeforeSlash(text, at);
      EarlierBefore(text, at, next, pos, line, cursor);
      PlacesIncrease(text, isCSS, p, cursor, next);
      if cursor > 0 {
        ReadBehind(text, isCSS, p, cursor, next);
      }
      IncreasingSnoc(Places(text, isCSS, cursor, next), at, limit, p);
    }
  }

  lemma PlacesBeforeIncrease(text: string, isCSS: bool, pos: nat)
    requires pos <= |text|
    ensures Increasing(PlacesBefore(text, isCSS, pos), pos)
  {
    PlacesIncrease(text, isCSS, pos, pos, LineOf(text, pos));
  }

  // In front of `end` there is no line comment and no end of a block comment.
  ghost predicate NoComments(text: string, isCSS: bool, end: nat) {
    && end <= |text|
    && forall i :: 0 <= i < end && text[i] == '/' ==>
        (!isCSS ==> !Occurs(text, "//", i)) && (0 < i ==> text[i - 1] != '*')
  }

  lemma NothingSkipped(text: string, isCSS: bool, end: nat, pos: nat, line: int)
    requires 0 < pos <= end && NoComments(text, isCSS, end)
    requires !isCSS && LineOf(text, pos) == LineOf(text, end) ==> line == LineOf(text, end)
    ensures ReadAt(text, isCSS, pos, line) == BeforeSlash(text, pos - 1) == pos - 1
  {
    var p := AfterLineComment(text, isCSS, pos, line);
    if p != pos {
      assert Occurs(text, "//", p) && text[p] == text[p..p + 2][0];
      if p >= end {
        LineOrder(text, end, p);
        LineOrder(text, pos, end);
      }
    }
  }

  // Without comments everything is read.
  lemma {:induction false} AllRead(text: string, isCSS: bool, end: nat, pos: nat, line: int)
    requires pos <= end && NoComments(text, isCSS, end)
    requires !isCSS && LineOf(text, pos) == LineOf(text, end) ==> line == LineOf(text, end)
    ensures |Places(text, isCSS, pos, line)| == pos && forall k :: 0 <= k < pos ==> Places(text, isCSS, pos, line)[k] == k
    decreases pos
  {
    hide LineOf, AfterLineComment, BeforeSlash, ReadAt;
    if pos > 0 {
      NothingSkipped(text, isCSS, end, pos, line);
      LineOrder(text, pos - 1, pos);
      LineOrder(text, pos, end);
      AllRead(text, isCSS, end, pos - 1, LineAfter(text, isCSS, pos, line));
    }
  }

  lemma SeenWithoutComments(text: string, isCSS: bool, end: nat)
    requires NoComments(text, isCSS, end)
    ensures Seen(text, PlacesBefore(text, isCSS, end)) == text[..end]
  {
    hide LineOf, Places;
    AllRead(text, isCSS, end, end, LineOf(text, end));
  }

  lemma AfterLineCommentIs(text: string, isCSS: bool, pos: nat, line: int, r: nat)
    requires pos <= |text|
    requires isCSS || line == LineOf(text, pos) ==> r == pos
    requires !isCSS && line != LineOf(text, pos) ==>
      FirstComment(text, LineOf(text, pos), r) || (NoComment(text, LineOf(text, pos)) && r == pos)
    ensures AfterLineComment(text, isCSS, pos, line) == r
  {
    hide LineOf;
  }

  // One step back: over a line comment and one character
  method StepBack(stream: DocumentStreamReader, isCSS: bool, currentLine: int, ghost limit: nat)
    returns (line: int, c: char)
    requires stream.Valid() && stream.sofAt == 0 && stream.eofAt == |stream.text| && stream.pos > 0
    requires Behind(stream.text, isCSS, limit, stream.pos, currentLine)
    modifies stream
    ensures stream.Valid() && stream.pos < |stream.text| && stream.pos < limit && c == stream.text[stream.pos]
    ensures Behind(stream.text, isCSS, limit, stream.pos, line)
    ensures Earlier(stream.text, stream.pos, line, old(stream.pos), currentLine)
    ensures stream.pos == ReadAt(stream.text, isCSS, old(stream.pos), currentLine)
    ensures line == LineAfter(stream.text, isCSS, old(stream.pos), currentLine)
  {
    hide AfterLineComment, FirstComment, NoComment;
    line := ConsumeLineCommentBackwards(stream, isCSS, currentLine, limit);
    ghost var pos := stream.pos;
    AfterLineCommentIs(stream.text, isCSS, old(stream.pos), currentLine, pos);
    var ch := stream.BackUp(1);
    c := ch.value;
    ReadEarlier(stream.text, isCSS, old(stream.pos), currentLine);
    LineOrder(stream.text, stream.pos, pos);
    LineOrder(stream.text, pos, limit);
  }

  // What the search has counted, going back from `end`: one brace to find, and more for those it
  // met; none of the places it passed is in front of an open brace.
  ghost predicate Counted(text: string, pos: nat, end: nat, open: int) {
    && pos <= end <= |text| && open == 1 - Braces(text[pos..end])
    && forall p :: pos < p <= end ==> Braces(text[p..end]) <= 0
  }

  lemma CountedStep(text: string, pos: nat, end: nat, open: int)
    requires pos < end && Counted(text, pos + 1, end, open) && open > 0
    ensures Counted(text, pos, end, if text[pos] == '{' then open - 1 else if text[pos] == '}' then open + 1 else open)
  {
    hide Braces;
    BracesStep(text, pos, end);
  }

  lemma BracesStep(text: string, pos: nat, end: nat)
    requires pos < end <= |text|
    ensures Braces(text[pos..end]) == Braces(text[pos + 1..end]) + (if text[pos] == '{' then 1 else if text[pos] == '}' then -1 else 0)
  {
    assert text[pos..end][1..] == text[pos + 1..end];
  }

  // At most 100 lines and less than 5000 characters back
  ghost predicate Near(text: string, pos: nat, offset: nat) {
    0 < pos <= offset <= |text| && offset < pos + 5000 && LineOf(text, offset) - LineOf(text, pos) <= 100
  }

  ghost predicate NoBraces(text: string, pos: nat, end: nat) {
    pos <= end <= |text| && forall i :: pos <= i < end ==> text[i] != '{' && text[i] != '}'
  }

  // The cursor stayed near while it was moved back to the i-th place.
  ghost predicate Within(text: string, places: seq<nat>, i: nat, offset: nat) {
    forall k :: i <= k < |places| && places[k] <= |text| ==> Near(text, BeforeSlash(text, places[k]), offset)
  }

  // The brace that the search looks for: the innermost open one, in CSS the last brace of all
  ghost predicate Opens(text: string, isCSS: bool, places: seq<nat>, i: nat, offset: nat) {
    var seen := Seen(text, places);
    i < |seen| && Within(text, places, i, offset) && Encloses(seen, i, |seen|) && (isCSS ==> NoBraces(seen, i + 1, |seen|))
  }

  // In CSS it stops at the end of another rule set.
  ghost predicate Closes(text: string, isCSS: bool, places: seq<nat>, i: nat, offset: nat) {
    var seen := Seen(text, places);
    isCSS && i < |seen| && Within(text, places, i + 1, offset) && seen[i] == '}' && NoBraces(seen, i + 1, |seen|)
  }

  // The search gives up behind the i-th place: it meets no brace there that it looks for.
  ghost predicate GaveUp(text: string, isCSS: bool, places: seq<nat>, i: nat, offset: nat) {
    var seen := Seen(text, places);
    && !Within(text, places, i, offset)
    && (forall b :: i < b < |seen| ==> !Encloses(seen, b, |seen|))
    && (isCSS ==> forall b :: i <= b < |seen| ==> seen[b] != '}')
  }

  lemma GivesUp(text: string, isCSS: bool, places: seq<nat>, i: nat, offset: nat, open: int)
    requires i < |places| && places[i] < |text| && !Near(text, BeforeSlash(text, places[i]), offset)
    requires var seen := Seen(text, places);
      && Counted(seen, i + 1, |seen|, open) && open > 0
      && (isCSS ==> NoBraces(seen, i + 1, |seen|) && seen[i] != '}')
    ensures GaveUp(text, isCSS, places, i, offset)
  {
    hide LineOf, Braces, Near, BeforeSlash, Seen;
  }

  lemma GaveUpNone(text: string, isCSS: bool, places: seq<nat>, i: nat, offset: nat, b: nat)
    requires GaveUp(text, isCSS, places, i, offset)
    ensures !Opens(text, isCSS, places, b, offset) && !Closes(text, isCSS, places, b, offset)
  {
    hide LineOf, Braces, Near, BeforeSlash, Seen;
  }

  lemma OpensOnly(text: string, isCSS: bool, places: seq<nat>, i: nat, offset: nat, b: nat)
    requires Opens(text, isCSS, places, i, offset)
    ensures Opens(text, isCSS, places, b, offset) <==> b == i
    ensures !Closes(text, isCSS, places, b, offset)
  {
    hide Braces, Within, Seen;
    assert Seen(text, places)[i] == '{';
  }

  lemma ClosesOnly(text: string, isCSS: bool, places: seq<nat>, i: nat, offset: nat, b: nat)
    requires Closes(text, isCSS, places, i, offset)
    ensures Closes(text, isCSS, places, b, offset) <==> b == i
    ensures !Opens(text, isCSS, places, b, offset)
  {
    hide Braces, Within, Seen;
    assert Seen(text, places)[i] == '}';
  }

  // What the search for the brace ends with, over the places it read
  ghost predicate BraceFound(text: string, isCSS: bool, places: seq<nat>, offset: nat, exit: bool, pos: nat, startOffset: nat) {
    && (if exit then forall i: nat :: !Opens(text, isCSS, places, i, offset)
        else offset == 0 || exists i: nat :: Opens(text, isCSS, places, i, offset) && pos == places[i])
    && (if startOffset == 0 then forall i: nat :: !Closes(text, isCSS, places, i, offset)
        else exists i: nat :: Closes(text, isCSS, places, i, offset) && startOffset == places[i] + 1)
  }

  lemma FoundOpening(text: string, isCSS: bool, places: seq<nat>, offset: nat, i: nat)
    requires Opens(text, isCSS, places, i, offset)
    ensures BraceFound(text, isCSS, places, offset, false, places[i], 0)
  {
    hide Opens, Closes;
    forall b: nat
      ensures !Closes(text, isCSS, places, b, offset)
    {
      OpensOnly(text, isCSS, places, i, offset, b);
    }
  }

  lemma FoundClosing(text: string, isCSS: bool, places: seq<nat>, offset: nat, i: nat, pos: nat)
    requires Closes(text, isCSS, places, i, offset)
    ensures BraceFound(text, isCSS, places, offset, true, pos, places[i] + 1)
  {
    hide Opens;
    forall b: nat
      ensures !Opens(text, isCSS, places, b, offset)
    {
      ClosesOnly(text, isCSS, places, i, offset, b);
    }
  }

  lemma FoundNothing(text: string, isCSS: bool, places: seq<nat>, offset: nat, i: nat, pos: nat)
    requires GaveUp(text, isCSS, places, i, offset)
    ensures BraceFound(text, isCSS, places, offset, true, pos, 0)
  {
    hide Opens, Closes, GaveUp;
    forall b: nat
      ensures !Opens(text, isCSS, places, b, offset) && !Closes(text, isCSS, places, b, offset)
    {
      GaveUpNone(text, isCSS, places, i, offset, b);
    }
  }

  // Before any place was read, and at the start of the document
  lemma FoundAtStart(text: string, isCSS: bool)
    ensures BraceFound(text, isCSS, PlacesBefore(text, isCSS, 0), 0, false, 0, 0)
  {
  }

  // One more place is read.
  lemma PlacesStep(text: string, isCSS: bool, pos: nat, line: int, places: seq<nat>, i: nat)
    requires 0 < pos <= |text| && i <= |places| && Places(text, isCSS, pos, line) == places[..i]
    ensures var at := ReadAt(text, isCSS, pos, line);
      && i > 0 && places[i - 1] == at < |text| && Seen(text, places)[i - 1] == text[at]
      && Places(text, isCSS, BeforeSlash(text, at), LineAfter(text, isCSS, pos, line)) == places[..i - 1]
  {
    hide LineOf, AfterLineComment, BeforeSlash, Seen;
    ReadEarlier(text, isCSS, pos, line);
    assert places[..i][..i - 1] == places[..i - 1] && places[..i][i - 1] == places[i - 1];
  }

  // Back to the opening brace of the rule set, or in CSS to the end of the rule set before.
  // `exit` tells that the search was given up, 100 lines or 5000 characters back, or ended there.
  method FindBrace(stream: DocumentStreamReader, isCSS: bool, positionOffset: nat)
    returns (exit: bool, startOffset: nat)
    requires stream.Valid() && stream.sofAt == 0 && stream.eofAt == |stream.text| && stream.pos == positionOffset
    modifies stream
    ensures stream.Valid() && stream.pos <= positionOffset && startOffset <= positionOffset
    ensures startOffset > 0 ==> isCSS && exit && stream.text[startOffset - 1] == '}'
    ensures exit ==>
      || startOffset > 0
      || LineOf(stream.text, positionOffset) - LineOf(stream.text, stream.pos) > 100
      || stream.pos == 0 || stream.pos + 5000 <= positionOffset
    ensures !exit ==> positionOffset == 0 || (stream.pos < positionOffset && stream.text[stream.pos] == '{')
    ensures BraceFound(stream.text, isCSS, PlacesBefore(stream.text, isCSS, positionOffset), positionOffset,
                       exit, stream.pos, startOffset)
  {
    hide LineOf, Searched, Counted, Braces, ReadAt, LineAfter, BeforeSlash, Places, Seen, Opens, Closes, GaveUp, BraceFound,
         Behind, Within, Near, NoBraces;
    startOffset := 0;
    ghost var text := stream.text;
    ghost var places := PlacesBefore(text, isCSS, positionOffset);
    ghost var seen, n := Seen(text, places), |places|;
    ghost var i: nat := n;
    var limitCharacter := positionOffset - 5000;
    var limitOffset := if limitCharacter > 0 then limitCharacter else startOffset;
    var openBracesToFind := 1;
    var currentLine := LineOf(stream.text, positionOffset);
    exit := false;
    CountedStart(seen, n);
    NothingReadYet(text, places, positionOffset);
    BehindStart(text, isCSS, positionOffset);
    assert places[..n] == places;
    while !exit && openBracesToFind > 0 && !stream.Sof()
      invariant stream.Valid() && stream.pos <= positionOffset && startOffset <= positionOffset
      invariant !exit ==> Behind(text, isCSS, positionOffset, stream.pos, currentLine)
      invariant openBracesToFind >= 0 && (isCSS ==> openBracesToFind <= 1) && i <= n
      invariant exit ==> BraceFound(text, isCSS, places, positionOffset, exit, stream.pos, startOffset)
      invariant startOffset > 0 ==> isCSS && exit && text[startOffset - 1] == '}'
      invariant exit ==>
        || startOffset > 0
        || LineOf(text, positionOffset) - LineOf(text, stream.pos) > 100
        || stream.pos == 0 || stream.pos + 5000 <= positionOffset
      invariant !exit ==> startOffset == 0 && Places(text, isCSS, stream.pos, currentLine) == places[..i]
      invariant !exit ==> (stream.pos > 0 || positionOffset == 0) && (stream.pos == positionOffset ==> openBracesToFind == 1)
      invariant !exit ==> Counted(seen, i, n, openBracesToFind) && Within(text, places, i, positionOffset)
      invariant !exit && isCSS ==> NoBraces(seen, if openBracesToFind > 0 then i else i + 1, n)
      invariant !exit && openBracesToFind == 0 ==>
        i < n && places[i] == stream.pos < positionOffset && text[stream.pos] == '{' && seen[i] == '{'
      decreases !exit, LineOf(text, stream.pos), Searched(text, stream.pos, currentLine), stream.pos
    {
      var c;
      ghost var pos, line, open := stream.pos, currentLine, openBracesToFind;
      PlacesStep(text, isCSS, pos, line, places, i);
      currentLine, c := StepBack(stream, isCSS, currentLine, positionOffset);
      ghost var at := stream.pos;
      i := i - 1;
      CountedStep(seen, i, n, open);
      OnlySlashMoves(text, at);
      match c {
        case '{' =>
          openBracesToFind := openBracesToFind - 1;
        case '}' =>
          if isCSS {
            var _ := stream.Next();
            startOffset := stream.pos;
            exit := true;
            assert Closes(text, isCSS, places, i, positionOffset) by { ClosesHere(text, isCSS, places, i, positionOffset); }
            FoundClosing(text, isCSS, places, positionOffset, i, stream.pos);
          } else {
            openBracesToFind := openBracesToFind + 1;
          }
        case '/' =>
          ConsumeBlockCommentBackwards(stream, startOffset);
          EarlierBefore(text, at, currentLine, pos, line, stream.pos);
          BehindBefore(text, isCSS, positionOffset, at, currentLine, stream.pos);
        case _ =>
      }
      StaysNear(text, places, i, positionOffset, stream.pos);
      NoBracesStep(seen, i);
      if LineOf(stream.text, positionOffset) - LineOf(stream.text, stream.pos) > 100 || stream.pos <= limitOffset {
        if !exit {
          GivesUp(text, isCSS, places, i, positionOffset, open);
          FoundNothing(text, isCSS, places, positionOffset, i, stream.pos);
        }
        exit := true;
      }
    }
    if !exit {
      if positionOffset == 0 {
        FoundAtStart(text, isCSS);
      } else {
        CountedEncloses(seen, i, n);
        assert Opens(text, isCSS, places, i, positionOffset) by { OpensHere(text, isCSS, places, i, positionOffset); }
        FoundOpening(text, isCSS, places, positionOffset, i);
      }
    }
  }

  lemma StaysNear(text: string, places: seq<nat>, i: nat, offset: nat, cursor: nat)
    requires i < |places| && places[i] <= |text| && cursor <= offset <= |text|
    ensures cursor == BeforeSlash(text, places[i]) ==>
      (Within(text, places, i, offset) <==> Within(text, places, i + 1, offset) && Near(text, cursor, offset))
    ensures Near(text, cursor, offset) <==>
      !(LineOf(text, offset) - LineOf(text, cursor) > 100 || cursor <= if offset > 5000 then offset - 5000 else 0)
  {
    hide LineOf, BeforeSlash;
  }

  lemma NoBracesStep(seen: string, i: nat)
    requires i < |seen|
    ensures NoBraces(seen, i, |seen|) <==> NoBraces(seen, i + 1, |seen|) && seen[i] != '{' && seen[i] != '}'
  {
  }

  lemma NothingReadYet(text: string, places: seq<nat>, offset: nat)
    ensures Within(text, places, |places|, offset) && NoBraces(Seen(text, places), |places|, |places|)
  {
  }

  lemma BehindStart(text: string, isCSS: bool, limit: nat)
    requires limit <= |text|
    ensures Behind(text, isCSS, limit, limit, LineOf(text, limit))
  {
  }

  lemma ClosesHere(text: string, isCSS: bool, places: seq<nat>, i: nat, offset: nat)
    requires i < |places| && Within(text, places, i + 1, offset)
    requires var seen := Seen(text, places); isCSS && seen[i] == '}' && NoBraces(seen, i + 1, |seen|)
    ensures Closes(text, isCSS, places, i, offset)
  {
  }

  lemma OpensHere(text: string, isCSS: bool, places: seq<nat>, i: nat, offset: nat)
    requires i < |places| && Within(text, places, i, offset)
    requires var seen := Seen(text, places); Encloses(seen, i, |seen|) && (isCSS ==> NoBraces(seen, i + 1, |seen|))
    ensures Opens(text, isCSS, places, i, offset)
  {
  }

  lemma OnlySlashMoves(text: string, at: nat)
    requires at < |text|
    ensures text[at] != '/' ==> BeforeSlash(text, at) == at
  {
  }

  lemma CountedStart(text: string, end: nat)
    requires end <= |text|
    ensures Counted(text, end, end, 1)
  {
    assert text[end..end] == "";
  }

  lemma CountedEncloses(text: string, pos: nat, end: nat)
    requires pos < end <= |text| && text[pos] == '{' && Counted(text, pos, end, 0)
    ensures Encloses(text, pos, end)
  {
  }

  predicate Plain(c: char) {
    !IsSpace(c) && c != '/' && c != '{' && c != '}'
  }

  // The last plain character before b that is in no block
  ghost predicate LastPlain(text: string, pos: nat, b: nat) {
    && pos < b <= |text| && Plain(text[pos]) && Counted(text, pos, b, 1)
    && forall p :: pos < p < b && Plain(text[p]) ==> Braces(text[p + 1..b]) < 0
  }

  lemma LastPlainOnly(text: string, p: nat, q: nat, b: nat)
    requires LastPlain(text, p, b) && LastPlain(text, q, b)
    ensures p == q
  {
    hide Braces;
    BracesStep(text, p, b);
    BracesStep(text, q, b);
  }

  // What the search for the selector ends with; zero stands for the first character, and for no
  // character at all.
  ghost predicate SelectorFound(text: string, places: seq<nat>, startOffset: nat) {
    var seen := Seen(text, places);
    if startOffset == 0 then forall i: nat :: LastPlain(seen, i, |seen|) ==> places[i] == 0
    else exists i: nat :: LastPlain(seen, i, |seen|) && places[i] == startOffset
  }

  // Back from an opening brace to the end of its selector
  method FindSelector(stream: DocumentStreamReader, isCSS: bool) returns (startOffset: nat)
    requires stream.Valid() && stream.sofAt == 0 && stream.eofAt == |stream.text|
    modifies stream
    ensures stream.Valid()
    ensures startOffset > 0 ==> startOffset < old(stream.pos) && Plain(stream.text[startOffset])
    ensures SelectorFound(stream.text, PlacesBefore(stream.text, isCSS, old(stream.pos)), startOffset)
  {
    hide LineOf, Searched, Counted, Braces, ReadAt, LineAfter, BeforeSlash, Places, Seen, SelectorFound, IsSpace;
    startOffset := 0;
    ghost var text, b := stream.text, stream.pos;
    ghost var places := PlacesBefore(text, isCSS, b);
    ghost var seen, n := Seen(text, places), |places|;
    ghost var i: nat := n;
    var currentLine := LineOf(stream.text, stream.pos);
    var openBracesToFind := 0;
    var foundSelector := false;
    CountedStart(seen, n);
    assert places[..n] == places;
    while !stream.Sof() && !foundSelector && openBracesToFind >= 0
      invariant stream.Valid() && Behind(text, isCSS, b, stream.pos, currentLine) && i <= n
      invariant startOffset == if foundSelector then stream.pos else 0
      invariant foundSelector ==> stream.pos < b && Plain(text[stream.pos]) && openBracesToFind == 0
      invariant foundSelector ==> i < n && places[i] == stream.pos && Plain(seen[i])
      invariant Places(text, isCSS, stream.pos, currentLine) == places[..i]
      invariant Counted(seen, i, n, openBracesToFind + 1)
      invariant forall p :: i < p < n && Plain(seen[p]) ==> Braces(seen[p + 1..n]) < 0
      invariant !foundSelector && i < n && Plain(seen[i]) ==> Braces(seen[i + 1..n]) < 0
      decreases LineOf(text, stream.pos), Searched(text, stream.pos, currentLine), stream.pos
    {
      ghost var pos, line, open := stream.pos, currentLine, openBracesToFind;
      PlacesStep(text, isCSS, pos, line, places, i);
      var ch;
      currentLine, ch := StepBack(stream, isCSS, currentLine, b);
      ghost var at := stream.pos;
      i := i - 1;
      CountedStep(seen, i, n, open + 1);
      CountedValue(seen, i + 1, n, open + 1);
      OnlySlashMoves(text, at);
      if IsSpace(ch) {
        SpaceIsNotSlash(ch);
        continue;
      }
      match ch {
        case '/' =>
          ConsumeBlockCommentBackwards(stream, startOffset);
          EarlierBefore(text, at, currentLine, pos, line, stream.pos);
          BehindBefore(text, isCSS, b, at, currentLine, stream.pos);
        case '}' =>
          openBracesToFind := openBracesToFind + 1;
        case '{' =>
          openBracesToFind := openBracesToFind - 1;
        case _ =>
          if openBracesToFind == 0 {
            foundSelector := true;
          }
      }
      if !stream.Sof() && foundSelector {
        startOffset := stream.pos;
      }
    }
    if stream.pos == 0 {
      NothingBefore(text, isCSS, currentLine);
    }
    SelectorOnly(text, places, i, foundSelector, openBracesToFind);
  }

  lemma SpaceIsNotSlash(c: char)
    requires IsSpace(c)
    ensures c != '/' && c != '{' && c != '}'
  {
  }

  lemma NothingBefore(text: string, isCSS: bool, line: int)
    ensures Places(text, isCSS, 0, line) == []
  {
  }

  // Where the search has ended, it has found what it looks for or there is none.
  lemma SelectorOnly(text: string, places: seq<nat>, i: nat, found: bool, open: int)
    requires i <= |places| && Counted(Seen(text, places), i, |places|, open + 1) && (i == 0 || found || open < 0)
    requires var seen := Seen(text, places);
      && (found ==> open == 0 && i < |seen| && Plain(seen[i]))
      && (forall q :: i < q < |seen| && Plain(seen[q]) ==> Braces(seen[q + 1..|seen|]) < 0)
      && (!found && i < |seen| && Plain(seen[i]) ==> Braces(seen[i + 1..|seen|]) < 0)
    ensures SelectorFound(text, places, if found then places[i] else 0)
  {
    hide Braces, Seen, IsSpace;
    var seen := Seen(text, places);
    var n := |seen|;
    forall p: nat
      ensures LastPlain(seen, p, n) <==> found && p == i
    {
      if LastPlain(seen, p, n) {
        BracesStep(seen, p, n);
      }
      if found {
        BracesStep(seen, i, n);
      }
    }
  }

  lemma CountedValue(text: string, pos: nat, end: nat, open: int)
    requires Counted(text, pos, end, open)
    ensures pos <= end <= |text| && Braces(text[pos..end]) == 1 - open
  {
  }

  // ----- parsePartialStylesheet -----

  // Spaces in front keep the offsets of the document.
  ghost predicate KeepsOffsets(buffer: string, text: string, startOffset: nat, endOffset: nat) {
    && startOffset <= endOffset == |buffer| <= |text|
    && (forall i :: 0 <= i < startOffset ==> buffer[i] == ' ')
    && (forall i :: startOffset <= i < endOffset ==> buffer[i] == text[i])
  }

  // Where the rule set starts: in CSS behind the one before, or at the end of a selector
  ghost predicate StartsAt(text: string, isCSS: bool, start: nat, offset: nat)
    requires offset <= |text|
  {
    var places := PlacesBefore(text, isCSS, offset);
    || (exists i: nat :: Closes(text, isCSS, places, i, offset) && start == places[i] + 1)
    || (exists i: nat :: Opens(text, isCSS, places, i, offset) && SelectorAt(text, isCSS, places[i], start))
  }

  // The selector of the brace at b ends at `start`.
  ghost predicate SelectorAt(text: string, isCSS: bool, b: nat, start: nat)
    requires b <= |text|
  {
    var places := PlacesBefore(text, isCSS, b);
    var seen := Seen(text, places);
    exists i: nat :: LastPlain(seen, i, |seen|) && places[i] == start
  }

  lemma FoundSelectorAt(text: string, isCSS: bool, b: nat, startOffset: nat, start: nat)
    requires b <= |text| && SelectorFound(text, PlacesBefore(text, isCSS, b), startOffset) && start > 0
    ensures startOffset == start <==> SelectorAt(text, isCSS, b, start)
  {
    hide Places, Seen, LastPlain;
    var places := PlacesBefore(text, isCSS, b);
    var seen := Seen(text, places);
    forall i: nat, j: nat | LastPlain(seen, i, |seen|) && LastPlain(seen, j, |seen|)
      ensures i == j
    {
      LastPlainOnly(seen, i, j, |seen|);
    }
  }

  // In all cases the start is the one that is described.
  lemma StartFound(text: string, isCSS: bool, offset: nat, exit: bool, b: nat, closing: nat, startOffset: nat, start: nat)
    requires offset <= |text| && start > 0 && b <= |text| && (closing > 0 ==> exit)
    requires BraceFound(text, isCSS, PlacesBefore(text, isCSS, offset), offset, exit, b, closing)
    requires if exit then startOffset == closing else SelectorFound(text, PlacesBefore(text, isCSS, b), startOffset)
    requires offset == 0 ==> b == 0
    ensures startOffset == start <==> StartsAt(text, isCSS, start, offset)
  {
    hide Places, Seen, Opens, Closes, SelectorFound, SelectorAt;
    var places := PlacesBefore(text, isCSS, offset);
    forall i: nat, j: nat | Closes(text, isCSS, places, i, offset) && Closes(text, isCSS, places, j, offset)
      ensures i == j
    {
      ClosesOnly(text, isCSS, places, i, offset, j);
    }
    if !exit {
      FoundSelectorAt(text, isCSS, b, startOffset, start);
      forall i: nat, j: nat | Opens(text, isCSS, places, i, offset) && Opens(text, isCSS, places, j, offset)
        ensures i == j
      {
        OpensOnly(text, isCSS, places, i, offset, j);
      }
      if offset == 0 {
        NothingAtStart(text, isCSS, start);
      }
    }
  }

  lemma NothingAtStart(text: string, isCSS: bool, start: nat)
    ensures !StartsAt(text, isCSS, start, 0) && !SelectorAt(text, isCSS, 0, start)
  {
  }

  // What is handed to the style sheet parser
  method ParsePartialStylesheet(text: string, isCSS: bool, position: Position)
    returns (startOffset: nat, endOffset: nat, buffer: string)
    requires PositionAt(text, OffsetAt(text, position)) == position
    ensures startOffset <= OffsetAt(text, position) <= endOffset <= |text| && KeepsOffsets(buffer, text, startOffset, endOffset)
    // it ends behind the first closing brace outside comments, or with the document ...
    ensures var offset := OffsetAt(text, position);
      && (endOffset < |text| ==> offset < endOffset && text[endOffset - 1] == '}' && Read(text, isCSS, offset, endOffset - 1))
      && (forall i :: offset <= i < endOffset - 1 && Read(text, isCSS, offset, i) ==> text[i] != '}')
    // ... and starts with the document, in CSS behind a closing brace, or before an opening brace
    ensures var offset := OffsetAt(text, position);
      startOffset > 0 ==>
        || (isCSS && text[startOffset - 1] == '}')
        || exists b :: startOffset < b < offset && Plain(text[startOffset]) && text[b] == '{'
    // exactly at the rule set that is around the position, as it is read without comments
    ensures var offset := OffsetAt(text, position);
      forall s :: 0 < s <= |text| ==> (startOffset == s <==> StartsAt(text, isCSS, s, offset))
  {
    hide Read, BraceFound, SelectorFound, StartsAt, Places, LineOf, OffsetAt, PositionAt;
    var positionOffset := OffsetAt(text, position);
    var stream := new DocumentStreamReader(text, positionOffset, None);
    endOffset := FindEnd(stream, isCSS);
    stream.pos := positionOffset;
    var exit;
    exit, startOffset := FindBrace(stream, isCSS, positionOffset);
    ghost var b, closing := stream.pos, startOffset;
    if !exit {
      startOffset := FindSelector(stream, isCSS);
    }
    forall s | 0 < s <= |text|
      ensures startOffset == s <==> StartsAt(text, isCSS, s, positionOffset)
    {
      StartFound(text, isCSS, positionOffset, exit, b, closing, startOffset, s);
    }
    buffer := seq(startOffset, _ => ' ') + text[startOffset..endOffset];
  }
}
