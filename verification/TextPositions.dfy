// Positions in a text document, as the editor counts them: lines and characters from zero,
// with `\n` as the only line break.

module TextPositions {

  datatype Position = Position(line: int, character: int)

  datatype Range = Range(start: Position, end: Position)

  const ORIGIN := Position(0, 0)

  function Next(p: Position, c: char): Position {
    if c == '\n' then Position(p.line + 1, 0) else Position(p.line, p.character + 1)
  }

  // Where a text ends that starts at p
  function Advance(p: Position, text: string): Position
    decreases |text|
  {
    if text == "" then p else Advance(Next(p, text[0]), text[1..])
  }

  // split('\n')
  function Lines(text: string): (r: seq<string>)
    ensures |r| > 0
  {
    if text == "" then [""]
    else
      var rest := Lines(text[1..]);
      if text[0] == '\n' then [""] + rest else [[text[0]] + rest[0]] + rest[1..]
  }

  lemma {:induction false} AdvanceAppend(p: Position, a: string, b: string)
    ensures Advance(p, a + b) == Advance(Advance(p, a), b)
    decreases |a|
  {
    if a == "" {
      assert a + b == b;
    } else {
      AdvanceAppend(Next(p, a[0]), a[1..], b);
      assert (a + b)[1..] == a[1..] + b;
    }
  }

  // The end of a text from its lines: on the same line when there is one, else after the last.
  lemma {:induction false} AdvanceLines(p: Position, text: string)
    ensures var lines := Lines(text);
      Advance(p, text) ==
      if |lines| == 1 then Position(p.line, p.character + |lines[0]|)
      else Position(p.line + |lines| - 1, |lines[|lines| - 1]|)
    decreases |text|
  {
    if text != "" {
      AdvanceLines(Next(p, text[0]), text[1..]);
    }
  }

  // From two positions a text goes down the same number of lines; the columns keep their
  // distance when it goes down none and are equal otherwise.
  lemma AdvanceFromBoth(p: Position, q: Position, text: string)
    ensures var a, b := Advance(p, text), Advance(q, text);
      && a.line - p.line == b.line - q.line >= 0
      && (a.line == p.line ==> a.character - p.character == b.character - q.character == |text|)
      && (a.line != p.line ==> a.character == b.character)
  {
    AdvanceLines(p, text);
    AdvanceLines(q, text);
    OneLine(text);
  }

  lemma {:induction false} OneLine(text: string)
    ensures |Lines(text)| == 1 ==> Lines(text) == [text]
  {
    if text != "" {
      OneLine(text[1..]);
      if |Lines(text)| == 1 {
        assert [text[0]] + text[1..] == text;
      }
    }
  }

  // ----- offsets -----

  function PositionAt(doc: string, offset: nat): Position
    requires offset <= |doc|
  {
    Advance(ORIGIN, doc[..offset])
  }

  // offsetAt: how far a position is from `at`, where doc starts; a position behind the end of
  // its line counts as the end of the line
  function OffsetFrom(doc: string, at: Position, p: Position): (r: nat)
    ensures r <= |doc|
  {
    if doc == "" || at.line > p.line then 0
    else if at.line == p.line && (at.character >= p.character || doc[0] == '\n') then 0
    else 1 + OffsetFrom(doc[1..], Next(at, doc[0]), p)
  }

  function OffsetAt(doc: string, p: Position): (r: nat)
    ensures r <= |doc|
  {
    OffsetFrom(doc, ORIGIN, p)
  }

  lemma {:induction false} AdvanceOrder(p: Position, text: string)
    ensures var q := Advance(p, text); q.line > p.line || (q.line == p.line && q.character == p.character + |text|)
    ensures text != "" && text[0] == '\n' ==> Advance(p, text).line > p.line
    decreases |text|
  {
    if text != "" {
      AdvanceOrder(Next(p, text[0]), text[1..]);
    }
  }

  lemma {:induction false} OffsetFromAdvance(doc: string, at: Position, offset: nat)
    requires offset <= |doc|
    ensures OffsetFrom(doc, at, Advance(at, doc[..offset])) == offset
    decreases |doc|
  {
    var text := doc[..offset];
    if offset > 0 {
      AdvanceOrder(at, text);
      assert text[1..] == doc[1..][..offset - 1];
      OffsetFromAdvance(doc[1..], Next(at, doc[0]), offset - 1);
    }
  }

  // offsetAt undoes positionAt.
  lemma OffsetAtPositionAt(doc: string, offset: nat)
    requires offset <= |doc|
    ensures OffsetAt(doc, PositionAt(doc, offset)) == offset
  {
    OffsetFromAdvance(doc, ORIGIN, offset);
  }

  // A position behind the end of its line, or behind the last line, counts as that end.
  lemma {:induction false} OffsetFromBehind(doc: string, at: Position, p: Position)
    requires at.line <= p.line
    requires var l, lines := p.line - at.line, Lines(doc);
      l < |lines| ==> (if l == 0 then at.character else 0) + |lines[l]| <= p.character
    ensures var l, lines := p.line - at.line, Lines(doc);
      if l < |lines| then Advance(at, doc[..OffsetFrom(doc, at, p)]) == Position(p.line, (if l == 0 then at.character else 0) + |lines[l]|)
      else OffsetFrom(doc, at, p) == |doc|
    decreases |doc|
  {
    if doc != "" {
      var n := OffsetFrom(doc, at, p);
      if n > 0 {
        assert doc[..n][1..] == doc[1..][..n - 1];
        OffsetFromBehind(doc[1..], Next(at, doc[0]), p);
      }
    }
  }

  lemma OffsetAtBehind(doc: string, p: Position)
    requires 0 <= p.line && (p.line < |Lines(doc)| ==> |Lines(doc)[p.line]| <= p.character)
    ensures if p.line < |Lines(doc)| then PositionAt(doc, OffsetAt(doc, p)) == Position(p.line, |Lines(doc)[p.line]|)
            else OffsetAt(doc, p) == |doc|
  {
    OffsetFromBehind(doc, ORIGIN, p);
  }
}
