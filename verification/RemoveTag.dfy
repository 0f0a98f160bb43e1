// Removing a tag and shifting what was inside (extensions/emmet/src/removeTag.ts:38-156).

module RemoveTag {
  import opened Options
  import opened TextPositions
  import opened Whitespace

  // ----- lines and ranges -----

  predicate AllSpace(s: string) {
    forall i :: 0 <= i < |s| ==> IsSpace(s[i])
  }

  // firstNonWhitespaceCharacterIndex
  function Indent(line: string): (r: nat)
    ensures r <= |line| && AllSpace(line[..r])
    ensures r < |line| ==> !IsSpace(line[r])
  {
    if line == "" || !IsSpace(line[0]) then 0
    else
      assert line[..1 + Indent(line[1..])][1..] == line[1..][..Indent(line[1..])];
      1 + Indent(line[1..])
  }

  // isEmptyOrWhitespace
  predicate Blank(line: string) {
    Indent(line) == |line|
  }

  function TrimEnd(s: string): (r: string)
    ensures r <= s && AllSpace(s[|r|..])
    ensures r != "" ==> !IsSpace(r[|r| - 1])
  {
    if s == "" || !IsSpace(s[|s| - 1]) then s
    else
      assert s[..|s| - 1] <= s;
      TrimEnd(s[..|s| - 1])
  }

  function Trim(s: string): string {
    TrimEnd(s[Indent(s)..])
  }

  predicate ValidPosition(lines: seq<string>, p: Position) {
    0 <= p.line < |lines| && 0 <= p.character <= |lines[p.line]|
  }

  predicate NotAfter(p: Position, q: Position) {
    p.line < q.line || (p.line == q.line && p.character <= q.character)
  }

  predicate ValidRange(lines: seq<string>, r: Range) {
    ValidPosition(lines, r.start) && ValidPosition(lines, r.end) && NotAfter(r.start, r.end)
  }

  // The rest of the lines from the l-th up to `end`
  function LinesTo(lines: seq<string>, l: nat, end: Position): string
    requires ValidPosition(lines, end) && l <= end.line
    decreases end.line - l
  {
    if l == end.line then lines[l][..end.character] else lines[l] + "\n" + LinesTo(lines, l + 1, end)
  }

  // getText(range)
  function TextIn(lines: seq<string>, r: Range): string
    requires ValidRange(lines, r)
  {
    if r.start.line == r.end.line then lines[r.start.line][r.start.character..r.end.character]
    else lines[r.start.line][r.start.character..] + "\n" + LinesTo(lines, r.start.line + 1, r.end)
  }

  // The character at column c of line l lies in the range.
  predicate Holds(r: Range, l: nat, c: nat) {
    && (r.start.line < l || (r.start.line == l && r.start.character <= c))
    && (l < r.end.line || (l == r.end.line && c < r.end.character))
  }

  ghost predicate Gone(ranges: seq<Range>, l: nat, c: nat) {
    exists k :: 0 <= k < |ranges| && Holds(ranges[k], l, c)
  }

  // ----- calculateIndentAmountToRemove -----

  function Min(a: int, b: int): int {
    if a <= b then a else b
  }

  function Max(a: int, b: int): int {
    if a <= b then b else a
  }

  // The content indent as the loop computes it: a zero counts as not yet known.
  function ContentIndent(lines: seq<string>, from: nat, until: nat): Option<nat>
    requires until <= |lines|
    decreases until
  {
    if until <= from then None
    else
      var before := ContentIndent(lines, from, until - 1);
      var line := lines[until - 1];
      if Blank(line) then before
      else if before.None? || before.value == 0 then Some(Indent(line))
      else Some(Min(before.value, Indent(line)))
  }

  function IndentAmount(lines: seq<string>, startLine: nat, endLine: nat): nat
    requires startLine < |lines| && endLine < |lines|
  {
    var content := ContentIndent(lines, startLine + 1, endLine);
    if content.None? || content.value < Indent(lines[startLine]) || content.value < Indent(lines[endLine]) then 0
    else Min(content.value - Indent(lines[startLine]), content.value - Indent(lines[endLine]))
  }

  method CalculateIndentAmountToRemove(lines: seq<string>, openRange: Range, closeRange: Range) returns (indentAmount: nat)
    requires ValidRange(lines, openRange) && ValidRange(lines, closeRange)
    ensures indentAmount == IndentAmount(lines, openRange.start.line, closeRange.start.line)
  {
    var startLine, endLine := openRange.start.line, closeRange.start.line;
    var startLineIndent := Indent(lines[startLine]);
    var endLineIndent := Indent(lines[endLine]);
    var contentIndent: Option<nat> := None;
    var i := startLine + 1;
    while i < endLine
      invariant startLine + 1 <= i && (i <= endLine || i == startLine + 1)
      invariant contentIndent == ContentIndent(lines, startLine + 1, Min(i, endLine))
    {
      var line := lines[i];
      if !Blank(line) {
        var lineIndent := Indent(line);
        contentIndent :=
          Some(if contentIndent.None? || contentIndent.value == 0 then lineIndent else Min(contentIndent.value, lineIndent));
      }
      i := i + 1;
    }
    indentAmount := 0;
    if contentIndent.Some? && contentIndent.value != 0 {
      if contentIndent.value < startLineIndent || contentIndent.value < endLineIndent {
        indentAmount := 0;
      } else {
        indentAmount := Min(contentIndent.value - startLineIndent, contentIndent.value - endLineIndent);
      }
    }
  }

  // What the loop finds: nothing if all lines are blank, zero if the last line that is not blank
  // starts at column 0, and else the least indent behind the last such line.
  ghost predicate LeastBehind(lines: seq<string>, from: nat, until: nat, cut: nat, v: nat)
    requires until <= |lines|
  {
    && from <= cut <= until && v > 0
    && (cut == from || (!Blank(lines[cut - 1]) && Indent(lines[cut - 1]) == 0))
    && (forall i :: cut <= i < until && !Blank(lines[i]) ==> v <= Indent(lines[i]))
    && (exists i :: cut <= i < until && !Blank(lines[i]) && v == Indent(lines[i]))
  }

  lemma {:induction false} ContentIndentFinds(lines: seq<string>, from: nat, until: nat) returns (cut: nat)
    requires from <= until <= |lines|
    ensures match ContentIndent(lines, from, until)
      case None => forall i :: from <= i < until ==> Blank(lines[i])
      case Some(v) =>
        if v == 0 then
          && from < cut <= until && !Blank(lines[cut - 1]) && Indent(lines[cut - 1]) == 0
          && forall i :: cut <= i < until ==> Blank(lines[i])
        else LeastBehind(lines, from, until, cut, v)
    decreases until
  {
    cut := from;
    if from < until {
      cut := ContentIndentFinds(lines, from, until - 1);
      if !Blank(lines[until - 1]) {
        if Indent(lines[until - 1]) == 0 {
          cut := until;
        } else if ContentIndent(lines, from, until - 1).None? {
          cut := from;
        }
      }
    }
  }

  // A line at column 0 is forgotten: lines follow, and all of them are deeper than both tags.
  ghost predicate ForgottenAt(lines: seq<string>, startLine: nat, endLine: nat, z: nat)
    requires startLine < |lines| && endLine < |lines|
  {
    && z < endLine && !Blank(lines[z]) && Indent(lines[z]) == 0
    && (exists i :: z < i < endLine && !Blank(lines[i]))
    && (forall i :: z < i < endLine && !Blank(lines[i]) ==>
          Indent(lines[i]) > Indent(lines[startLine]) && Indent(lines[i]) > Indent(lines[endLine]))
  }

  ghost predicate Fits(lines: seq<string>, from: nat, until: nat, amount: nat)
    requires until <= |lines|
  {
    forall i :: from <= i < until && !Blank(lines[i]) ==> amount <= Indent(lines[i])
  }

  // The amount is white space on every line from `from` on exactly if no line there is forgotten.
  lemma AmountFitsIff(lines: seq<string>, startLine: nat, endLine: nat, from: nat)
    requires startLine < from && startLine <= endLine < |lines|
    ensures Fits(lines, from, endLine, IndentAmount(lines, startLine, endLine))
       <==> !exists z :: from <= z && ForgottenAt(lines, startLine, endLine, z)
  {
    if startLine < endLine {
      var amount, content := IndentAmount(lines, startLine, endLine), ContentIndent(lines, startLine + 1, endLine);
      var cut := ContentIndentFinds(lines, startLine + 1, endLine);
      if amount > 0 && from < cut {
        assert ForgottenAt(lines, startLine, endLine, cut - 1);
      }
      forall z | from <= z && ForgottenAt(lines, startLine, endLine, z)
        ensures z + 1 == cut && amount > 0
      {
        var i :| z < i < endLine && !Blank(lines[i]);
      }
    }
  }

  // ----- getRangesToRemove -----

  predicate EntireLineIsTag(lines: seq<string>, r: Range)
    requires ValidRange(lines, r)
  {
    r.start.line == r.end.line && Trim(lines[r.start.line]) == TextIn(lines, r)
  }

  function Shift(line: nat, amount: nat): Range {
    Range(Position(line, 0), Position(line, amount))
  }

  // One range for every line that is not blank
  function Shifts(lines: seq<string>, from: nat, until: nat, amount: nat): seq<Range>
    requires until <= |lines|
  {
    if until <= from then []
    else Shifts(lines, from, until - 1, amount) + (if Blank(lines[until - 1]) then [] else [Shift(until - 1, amount)])
  }

  function FirstFull(lines: seq<string>, from: nat, until: nat): (r: Option<nat>)
    requires until <= |lines|
    ensures match r
      case Some(i) => from <= i < until && !Blank(lines[i]) && forall k :: from <= k < i ==> Blank(lines[k])
      case None => forall k :: from <= k < until ==> Blank(lines[k])
  {
    if until <= from then None
    else
      var before := FirstFull(lines, from, until - 1);
      if before.None? && !Blank(lines[until - 1]) then Some(until - 1) else before
  }

  function LastFull(lines: seq<string>, from: nat, until: nat): (r: Option<nat>)
    requires until <= |lines|
    ensures match r
      case Some(i) => from <= i < until && !Blank(lines[i]) && forall k :: i < k < until ==> Blank(lines[k])
      case None => forall k :: from <= k < until ==> Blank(lines[k])
  {
    if until <= from then None
    else if !Blank(lines[until - 1]) then Some(until - 1)
    else LastFull(lines, from, until - 1)
  }

  predicate OnlySpaceInside(lines: seq<string>, open: Range, close: Range)
    requires ValidRange(lines, open) && ValidRange(lines, close) && NotAfter(open.end, close.start)
  {
    Trim(TextIn(lines, Range(open.end, close.start))) == ""
  }

  // The opening tag with what is before the first full line, if the tag has its line to itself
  function OpeningPart(lines: seq<string>, open: Range, close: Range): Range
    requires ValidRange(lines, open) && ValidRange(lines, close)
  {
    var first := FirstFull(lines, open.start.line + 1, close.start.line);
    if EntireLineIsTag(lines, open) && first.Some? then
      Range(open.start, Position(first.value, Indent(lines[first.value])))
    else open
  }

  // The closing tag with what is behind the last full line, if the tag has its line to itself
  function ClosingPart(lines: seq<string>, open: Range, close: Range): Range
    requires ValidRange(lines, open) && ValidRange(lines, close)
  {
    var last := LastFull(lines, open.start.line + 1, close.start.line);
    if EntireLineIsTag(lines, close) && last.Some? then Range(Position(last.value, |lines[last.value]|), close.end)
    else close
  }

  // The first line that is shifted
  function ShiftFrom(lines: seq<string>, open: Range, close: Range): nat
    requires ValidRange(lines, open) && ValidRange(lines, close)
  {
    var first := FirstFull(lines, open.start.line + 1, close.start.line);
    if EntireLineIsTag(lines, open) && first.Some? then first.value + 1 else open.start.line + 1
  }

  function Unwrapped(lines: seq<string>, open: Range, close: Range): seq<Range>
    requires ValidRange(lines, open) && ValidRange(lines, close)
  {
    [OpeningPart(lines, open, close)]
    + Shifts(lines, ShiftFrom(lines, open, close), close.start.line, IndentAmount(lines, open.start.line, close.start.line))
    + [ClosingPart(lines, open, close)]
  }

  function Removed(lines: seq<string>, name: string, open: Range, close: Range): seq<Range>
    requires ValidRange(lines, open) && ValidRange(lines, close) && NotAfter(open.end, close.start)
  {
    if OnlySpaceInside(lines, open, close) && name != "pre" then [Range(open.start, close.end)]
    else Unwrapped(lines, open, close)
  }

  lemma {:induction false} ShiftsFromFirst(lines: seq<string>, from: nat, until: nat, amount: nat)
    requires until <= |lines|
    ensures var first := FirstFull(lines, from, until);
      Shifts(lines, from, until, amount) ==
      if first.None? then [] else [Shift(first.value, amount)] + Shifts(lines, first.value + 1, until, amount)
  {
    hide Blank;
    if from < until {
      ShiftsFromFirst(lines, from, until - 1, amount);
    }
  }

  // The loop over the inner lines
  method ShiftInnerLines(lines: seq<string>, startLine: nat, endLine: nat, amount: nat, ranges: seq<Range>)
    returns (rangesToRemove: seq<Range>, firstInnerNonEmptyLine: Option<nat>, lastInnerNonEmptyLine: Option<nat>)
    requires startLine <= endLine < |lines|
    ensures rangesToRemove == ranges + Shifts(lines, startLine + 1, endLine, amount)
    ensures firstInnerNonEmptyLine == FirstFull(lines, startLine + 1, endLine)
    ensures lastInnerNonEmptyLine == LastFull(lines, startLine + 1, endLine)
  {
    hide Blank;
    rangesToRemove, firstInnerNonEmptyLine, lastInnerNonEmptyLine := ranges, None, None;
    var i := startLine + 1;
    while i < endLine
      invariant startLine + 1 <= i && (i <= endLine || startLine == endLine)
      invariant firstInnerNonEmptyLine == FirstFull(lines, startLine + 1, Min(i, endLine))
      invariant lastInnerNonEmptyLine == LastFull(lines, startLine + 1, Min(i, endLine))
      invariant rangesToRemove == ranges + Shifts(lines, startLine + 1, Min(i, endLine), amount)
    {
      if !Blank(lines[i]) {
        rangesToRemove := rangesToRemove + [Range(Position(i, 0), Position(i, amount))];
        if firstInnerNonEmptyLine.None? {
          firstInnerNonEmptyLine := Some(i);
        }
        lastInnerNonEmptyLine := Some(i);
      }
      i := i + 1;
    }
  }

  // Putting the first line's range in place of the opening tag's
  lemma UnwrappedBy(lines: seq<string>, open: Range, close: Range, ranges: seq<Range>)
    requires ValidRange(lines, open) && ValidRange(lines, close) && NotAfter(open.start, close.start)
    requires ranges ==
      [open] + Shifts(lines, open.start.line + 1, close.start.line, IndentAmount(lines, open.start.line, close.start.line))
      + [ClosingPart(lines, open, close)]
    ensures var first := FirstFull(lines, open.start.line + 1, close.start.line);
      Unwrapped(lines, open, close) ==
      if EntireLineIsTag(lines, open) && first.Some? then ranges[1 := OpeningPart(lines, open, close)][1..] else ranges
  {
    hide EntireLineIsTag, IndentAmount, Indent, Blank, ClosingPart, Shifts, FirstFull;
    ShiftsFromFirst(lines, open.start.line + 1, close.start.line, IndentAmount(lines, open.start.line, close.start.line));
  }

  // For a node with the given name and tags; `name` is "pre" or another
  method GetRangesToRemove(lines: seq<string>, name: string, openTag: Option<Range>, closeTag: Option<Range>)
    returns (rangesToRemove: seq<Range>)
    requires openTag.Some? ==> ValidRange(lines, openTag.value)
    requires closeTag.Some? ==> ValidRange(lines, closeTag.value)
    requires openTag.Some? && closeTag.Some? ==> NotAfter(openTag.value.end, closeTag.value.start)
    ensures openTag.None? ==> rangesToRemove == []
    ensures openTag.Some? && closeTag.None? ==> rangesToRemove == [openTag.value]
    ensures openTag.Some? && closeTag.Some? ==>
      rangesToRemove == Removed(lines, name, openTag.value, closeTag.value)
  {
    hide Indent, Trim, TextIn, IndentAmount, EntireLineIsTag, Shifts, FirstFull, LastFull, Unwrapped, Blank;
    if openTag.Some? && closeTag.Some? {
      var innerCombinedRange := Range(openTag.value.end, closeTag.value.start);
      var outerCombinedRange := Range(openTag.value.start, closeTag.value.end);
      if Trim(TextIn(lines, innerCombinedRange)) == "" && name != "pre" {
        return [outerCombinedRange];
      }
    }
    rangesToRemove := [];
    if openTag.Some? {
      var open := openTag.value;
      rangesToRemove := rangesToRemove + [open];
      if closeTag.Some? {
        var close := closeTag.value;
        var indentAmountToRemove := CalculateIndentAmountToRemove(lines, open, close);
        var firstInnerNonEmptyLine, lastInnerNonEmptyLine;
        rangesToRemove, firstInnerNonEmptyLine, lastInnerNonEmptyLine :=
          ShiftInnerLines(lines, open.start.line, close.start.line, indentAmountToRemove, rangesToRemove);
        if EntireLineIsTag(lines, close) && lastInnerNonEmptyLine.Some? && lastInnerNonEmptyLine.value != 0 {
          var last := lastInnerNonEmptyLine.value;
          rangesToRemove := rangesToRemove + [Range(Position(last, |lines[last]|), close.end)];
        } else {
          rangesToRemove := rangesToRemove + [close];
        }
        ghost var unmerged := rangesToRemove;
        if EntireLineIsTag(lines, open) && firstInnerNonEmptyLine.Some? && firstInnerNonEmptyLine.value != 0 {
          var first := firstInnerNonEmptyLine.value;
          rangesToRemove := rangesToRemove[1 := Range(open.start, Position(first, Indent(lines[first])))];
          rangesToRemove := rangesToRemove[1..];
        }
        UnwrappedBy(lines, open, close, unmerged);
      }
    }
  }

  // ----- what is lost -----

  // Two tags, each on one line or on several
  ghost predicate Tags(lines: seq<string>, open: Range, close: Range) {
    && ValidRange(lines, open) && open.start != open.end
    && ValidRange(lines, close) && close.start != close.end
    && NotAfter(open.end, close.start)
  }

  // Line l is shifted although the opening tag reaches into it.
  ghost predicate TagLine(lines: seq<string>, open: Range, close: Range, l: nat) {
    && open.start.line < l < close.start.line && l < |lines| && !Blank(lines[l])
    && !NotAfter(open.end, Position(l, 0))
  }

  ghost predicate NoTagLine(lines: seq<string>, open: Range, close: Range) {
    forall l: nat :: !TagLine(lines, open, close, l)
  }

  ghost predicate InOrder(lines: seq<string>, ranges: seq<Range>) {
    && (forall k :: 0 <= k < |ranges| ==> ValidRange(lines, ranges[k]))
    && (forall j, k :: 0 <= j < k < |ranges| ==> NotAfter(ranges[j].end, ranges[k].start))
  }

  // Outside the tags the range holds only white space.
  ghost predicate Spares(lines: seq<string>, r: Range, open: Range, close: Range) {
    forall l: nat, c: nat :: l < |lines| && c < |lines[l]| && Holds(r, l, c) ==>
      Holds(open, l, c) || Holds(close, l, c) || IsSpace(lines[l][c])
  }

  // The ranges lie in the document, in order and apart; they remove the tags, and else only white
  // space.
  ghost predicate Clean(lines: seq<string>, ranges: seq<Range>, open: Range, close: Range) {
    && InOrder(lines, ranges)
    && (forall k :: 0 <= k < |ranges| ==> Spares(lines, ranges[k], open, close))
    && (forall l: nat, c: nat :: Holds(open, l, c) || Holds(close, l, c) ==> Gone(ranges, l, c))
  }

  lemma TrimmedTag(line: string, s: nat, e: nat)
    requires s < e <= |line| && Trim(line) == line[s..e]
    ensures AllSpace(line[..s]) && AllSpace(line[e..])
  {
    hide Indent, TrimEnd, IsSpace;
    var f := Indent(line);
    var n := |Trim(line)|;
    assert line[f..][..n] == line[f..f + n] == line[s..e];
    assert line[f..][n..] == line[f + n..];
    assert line[s] == line[f] && line[e - 1] == line[f + n - 1];
    forall i | 0 <= i < f
      ensures IsSpace(line[i])
    {
      assert line[..f][i] == line[i];
    }
    forall i | f + n <= i < |line|
      ensures IsSpace(line[i])
    {
      assert line[f..][n..][i - f - n] == line[i];
    }
    assert !IsSpace(line[f]) && !IsSpace(Trim(line)[n - 1]);
    assert s == f;
  }

  lemma BlankSpace(line: string, c: nat)
    requires c < Indent(line)
    ensures IsSpace(line[c])
  {
    assert line[..Indent(line)][c] == line[c];
  }

  lemma OpeningSpares(lines: seq<string>, open: Range, close: Range)
    requires Tags(lines, open, close)
    ensures var r := OpeningPart(lines, open, close);
      && ValidRange(lines, r) && Spares(lines, r, open, close)
      && (forall l: nat, c: nat :: Holds(open, l, c) ==> Holds(r, l, c))
      && (r.end == open.end ||
          (r.end.line == ShiftFrom(lines, open, close) - 1 && r.end.line < close.start.line && r.end.character == Indent(lines[r.end.line])
           && r.end.character < |lines[r.end.line]|))
  {
    hide Indent, Trim, IsSpace;
    var r := OpeningPart(lines, open, close);
    if r != open {
      TrimmedTag(lines[open.start.line], open.start.character, open.end.character);
      forall l: nat, c: nat | l < |lines| && c < |lines[l]| && Holds(r, l, c) && !Holds(open, l, c)
        ensures IsSpace(lines[l][c])
      {
        if l == open.start.line {
          assert lines[l][c] == lines[l][open.end.character..][c - open.end.character];
        } else {
          BlankSpace(lines[l], c);
        }
      }
    }
  }

  lemma ClosingSpares(lines: seq<string>, open: Range, close: Range)
    requires Tags(lines, open, close)
    ensures var r := ClosingPart(lines, open, close);
      && ValidRange(lines, r) && Spares(lines, r, open, close)
      && (forall l: nat, c: nat :: Holds(close, l, c) ==> Holds(r, l, c))
      && (r.start == close.start ||
          (open.start.line < r.start.line < close.start.line && r.start.character == |lines[r.start.line]| > 0
           && forall k :: r.start.line < k < close.start.line ==> Blank(lines[k])))
  {
    hide Indent, Trim, IsSpace;
    var r := ClosingPart(lines, open, close);
    if r != close {
      TrimmedTag(lines[close.start.line], close.start.character, close.end.character);
      forall l: nat, c: nat | l < |lines| && c < |lines[l]| && Holds(r, l, c) && !Holds(close, l, c)
        ensures IsSpace(lines[l][c])
      {
        if l == close.start.line {
          assert lines[l][c] == lines[l][..close.start.character][c];
        } else {
          BlankSpace(lines[l], c);
        }
      }
    }
  }

  // Shifts of full lines between two lines, from the top down
  ghost predicate ShiftsFull(lines: seq<string>, r: seq<Range>, from: nat, until: nat, amount: nat)
    requires until <= |lines|
  {
    && (forall k :: 0 <= k < |r| ==>
          var l := r[k].start.line; from <= l < until && r[k] == Shift(l, amount) && !Blank(lines[l]))
    && (forall j, k :: 0 <= j < k < |r| ==> r[j].start.line < r[k].start.line)
  }

  lemma {:induction false} ShiftsAt(lines: seq<string>, from: nat, until: nat, amount: nat)
    requires until <= |lines|
    ensures ShiftsFull(lines, Shifts(lines, from, until, amount), from, until, amount)
  {
    hide Blank;
    if from < until {
      ShiftsAt(lines, from, until - 1, amount);
      var before, r := Shifts(lines, from, until - 1, amount), Shifts(lines, from, until, amount);
      if Blank(lines[until - 1]) {
        assert r == before;
      } else {
        assert r == before + [Shift(until - 1, amount)];
      }
    }
  }

  lemma {:induction false} ShiftOf(lines: seq<string>, from: nat, until: nat, amount: nat, i: nat) returns (k: nat)
    requires from <= i < until <= |lines| && !Blank(lines[i])
    ensures k < |Shifts(lines, from, until, amount)| && Shifts(lines, from, until, amount)[k] == Shift(i, amount)
  {
    hide Blank;
    if i == until - 1 {
      k := |Shifts(lines, from, until - 1, amount)|;
    } else {
      k := ShiftOf(lines, from, until - 1, amount, i);
    }
  }

  // The ranges are in order, if the amount fits and no line of the opening tag is shifted.
  lemma UnwrappedInOrder(lines: seq<string>, open: Range, close: Range)
    requires Tags(lines, open, close) && NoTagLine(lines, open, close)
    requires Fits(lines, ShiftFrom(lines, open, close), close.start.line, IndentAmount(lines, open.start.line, close.start.line))
    ensures InOrder(lines, Unwrapped(lines, open, close))
  {
    hide OpeningPart, ClosingPart, ShiftFrom, IndentAmount, Shifts, Blank, Spares;
    var from, amount := ShiftFrom(lines, open, close), IndentAmount(lines, open.start.line, close.start.line);
    var shifts := Shifts(lines, from, close.start.line, amount);
    var first, last := OpeningPart(lines, open, close), ClosingPart(lines, open, close);
    OpeningSpares(lines, open, close);
    ClosingSpares(lines, open, close);
    ShiftsAt(lines, from, close.start.line, amount);
    ShiftFromBehind(lines, open, close);
    PartsApart(lines, open, close);
    forall k | 0 <= k < |shifts|
      ensures ValidRange(lines, shifts[k]) && NotAfter(first.end, shifts[k].start) && NotAfter(shifts[k].end, last.start)
    {
      var l := shifts[k].start.line;
      assert amount <= Indent(lines[l]);
      ShiftBehindOpening(lines, open, close, l);
    }
    ThreeParts(lines, first, shifts, last);
  }

  lemma ThreeParts(lines: seq<string>, first: Range, shifts: seq<Range>, last: Range)
    requires ValidRange(lines, first) && ValidRange(lines, last) && NotAfter(first.end, last.start)
    requires forall k :: 0 <= k < |shifts| ==>
      ValidRange(lines, shifts[k]) && NotAfter(first.end, shifts[k].start) && NotAfter(shifts[k].end, last.start)
    requires forall k :: 0 <= k < |shifts| ==> shifts[k].start.line == shifts[k].end.line
    requires forall j, k :: 0 <= j < k < |shifts| ==> shifts[j].start.line < shifts[k].start.line
    ensures InOrder(lines, [first] + shifts + [last])
  {
  }

  lemma ShiftFromBehind(lines: seq<string>, open: Range, close: Range)
    requires Tags(lines, open, close)
    ensures open.start.line < ShiftFrom(lines, open, close)
  {
    hide Indent, Trim, IsSpace, Blank;
  }

  lemma ShiftBehindOpening(lines: seq<string>, open: Range, close: Range, l: nat)
    requires Tags(lines, open, close) && NoTagLine(lines, open, close)
    requires ShiftFrom(lines, open, close) <= l < close.start.line && !Blank(lines[l])
    ensures NotAfter(OpeningPart(lines, open, close).end, Position(l, 0))
  {
    hide Indent, Trim, IsSpace, Blank;
    assert !TagLine(lines, open, close, l);
  }

  lemma PartsApart(lines: seq<string>, open: Range, close: Range)
    requires Tags(lines, open, close) && NoTagLine(lines, open, close)
    ensures NotAfter(OpeningPart(lines, open, close).end, ClosingPart(lines, open, close).start)
  {
    hide Trim, IsSpace, Indent, Blank;
    var last := LastFull(lines, open.start.line + 1, close.start.line);
    assert last.Some? ==> !TagLine(lines, open, close, last.value);
  }

  // A shifted line loses more than white space exactly if the amount is too large for it.
  lemma ShiftSpares(lines: seq<string>, open: Range, close: Range, i: nat, amount: nat)
    requires Tags(lines, open, close) && NoTagLine(lines, open, close)
    requires open.start.line < i < close.start.line && !Blank(lines[i])
    ensures Spares(lines, Shift(i, amount), open, close) <==> amount <= Indent(lines[i])
  {
    hide IsSpace;
    if amount <= Indent(lines[i]) {
      forall l: nat, c: nat | l < |lines| && c < |lines[l]| && Holds(Shift(i, amount), l, c)
        ensures IsSpace(lines[l][c])
      {
        BlankSpace(lines[l], c);
      }
    } else {
      assert !TagLine(lines, open, close, i);
      assert Holds(Shift(i, amount), i, Indent(lines[i]));
    }
  }

  // The range of a line in the opening tag overlaps with that of the tag.
  lemma TagLineOverlaps(lines: seq<string>, open: Range, close: Range)
    requires Tags(lines, open, close) && !NoTagLine(lines, open, close)
    ensures !InOrder(lines, Unwrapped(lines, open, close))
  {
    hide IndentAmount, Blank, Indent;
    var l: nat :| TagLine(lines, open, close, l);
    assert !EntireLineIsTag(lines, open);
    var amount := IndentAmount(lines, open.start.line, close.start.line);
    var ranges := Unwrapped(lines, open, close);
    var k := ShiftOf(lines, open.start.line + 1, close.start.line, amount, l);
    assert ranges[0] == open && ranges[1 + k] == Shift(l, amount);
  }

  lemma UnwrappedClean(lines: seq<string>, open: Range, close: Range)
    requires Tags(lines, open, close) && NoTagLine(lines, open, close)
    ensures Clean(lines, Unwrapped(lines, open, close), open, close) <==>
      Fits(lines, ShiftFrom(lines, open, close), close.start.line, IndentAmount(lines, open.start.line, close.start.line))
  {
    hide OpeningPart, ClosingPart, ShiftFrom, IndentAmount, Shifts, Blank, Indent, Spares, InOrder, Holds;
    var from, amount := ShiftFrom(lines, open, close), IndentAmount(lines, open.start.line, close.start.line);
    var shifts := Shifts(lines, from, close.start.line, amount);
    var ranges := Unwrapped(lines, open, close);
    ShiftFromBehind(lines, open, close);
    if Fits(lines, from, close.start.line, amount) {
      UnwrappedInOrder(lines, open, close);
      OpeningSpares(lines, open, close);
      ClosingSpares(lines, open, close);
      ShiftsAt(lines, from, close.start.line, amount);
      forall k | 0 <= k < |ranges|
        ensures Spares(lines, ranges[k], open, close)
      {
        if 1 <= k <= |shifts| {
          var l := shifts[k - 1].start.line;
          assert ranges[k] == shifts[k - 1] == Shift(l, amount) && !Blank(lines[l]);
          ShiftSpares(lines, open, close, l, amount);
        }
      }
      assert ranges[0] == OpeningPart(lines, open, close) && ranges[|ranges| - 1] == ClosingPart(lines, open, close);
    } else {
      var i :| from <= i < close.start.line && !Blank(lines[i]) && amount > Indent(lines[i]);
      var k := ShiftOf(lines, from, close.start.line, amount, i);
      assert ranges[1 + k] == Shift(i, amount);
      ShiftSpares(lines, open, close, i, amount);
    }
  }

  // ----- only white space inside -----

  lemma {:induction false} LinesToHas(lines: seq<string>, l: nat, end: Position, i: nat, c: nat)
    requires ValidPosition(lines, end) && l <= i <= end.line
    requires c < |lines[i]| && (i == end.line ==> c < end.character)
    requires AllSpace(LinesTo(lines, l, end))
    ensures IsSpace(lines[i][c])
    decreases end.line - l
  {
    hide IsSpace;
    var text := LinesTo(lines, l, end);
    if i == l {
      assert text[c] == lines[i][c];
    } else {
      var rest := LinesTo(lines, l + 1, end);
      assert forall k :: 0 <= k < |rest| ==> rest[k] == text[|lines[l]| + 1 + k];
      LinesToHas(lines, l + 1, end, i, c);
    }
  }

  lemma TextInHas(lines: seq<string>, r: Range, l: nat, c: nat)
    requires ValidRange(lines, r) && AllSpace(TextIn(lines, r)) && Holds(r, l, c) && l < |lines| && c < |lines[l]|
    ensures IsSpace(lines[l][c])
  {
    hide IsSpace;
    var text := TextIn(lines, r);
    if l == r.start.line {
      assert text[c - r.start.character] == lines[l][c];
    } else {
      var rest := LinesTo(lines, r.start.line + 1, r.end);
      assert forall k :: 0 <= k < |rest| ==> rest[k] == text[|lines[r.start.line]| - r.start.character + 1 + k];
      LinesToHas(lines, r.start.line + 1, r.end, l, c);
    }
  }

  lemma TrimEmpty(s: string)
    requires Trim(s) == ""
    ensures AllSpace(s)
  {
    hide IsSpace;
    var f := Indent(s);
    assert s[f..][0..] == s[f..];
    assert f == |s|;
    assert s[..f] == s;
  }

  lemma OuterClean(lines: seq<string>, open: Range, close: Range)
    requires Tags(lines, open, close) && OnlySpaceInside(lines, open, close)
    ensures Clean(lines, [Range(open.start, close.end)], open, close)
  {
    hide IsSpace, Trim, TextIn;
    var inner, outer := Range(open.end, close.start), Range(open.start, close.end);
    TrimEmpty(TextIn(lines, inner));
    forall l: nat, c: nat | l < |lines| && c < |lines[l]| && Holds(inner, l, c)
      ensures IsSpace(lines[l][c])
    {
      TextInHas(lines, inner, l, c);
    }
    assert Spares(lines, outer, open, close);
    forall l: nat, c: nat | Holds(open, l, c) || Holds(close, l, c)
      ensures Gone([outer], l, c)
    {
      assert Holds([outer][0], l, c);
    }
  }

  lemma OnlySpaceLines(lines: seq<string>, open: Range, close: Range, l: nat)
    requires Tags(lines, open, close) && OnlySpaceInside(lines, open, close) && open.end.line < l < close.start.line
    ensures Blank(lines[l])
  {
    hide IsSpace, Trim, TextIn;
    var inner := Range(open.end, close.start);
    TrimEmpty(TextIn(lines, inner));
    if !Blank(lines[l]) {
      TextInHas(lines, inner, l, Indent(lines[l]));
    }
  }

  // Removing a tag loses only the two tags and white space, in ranges that lie apart, exactly if
  // there is nothing else inside, or no line at column 0 is forgotten and none of the opening tag is
  // shifted.
  lemma RemovalLosesOnlySpace(lines: seq<string>, name: string, open: Range, close: Range)
    requires Tags(lines, open, close)
    ensures Clean(lines, Removed(lines, name, open, close), open, close) <==>
      || (OnlySpaceInside(lines, open, close) && name != "pre")
      || (NoTagLine(lines, open, close)
          && !exists z :: ShiftFrom(lines, open, close) <= z && ForgottenAt(lines, open.start.line, close.start.line, z))
  {
    hide Unwrapped, ShiftFrom, ForgottenAt, Fits, IndentAmount, OnlySpaceInside, NoTagLine, InOrder, Spares, Gone;
    ShiftFromBehind(lines, open, close);
    if OnlySpaceInside(lines, open, close) && name != "pre" {
      OuterClean(lines, open, close);
    } else if NoTagLine(lines, open, close) {
      UnwrappedClean(lines, open, close);
      AmountFitsIff(lines, open.start.line, close.start.line, ShiftFrom(lines, open, close));
    } else {
      TagLineOverlaps(lines, open, close);
    }
  }

  // With no full line at column 0 there is nothing to forget.
  lemma IndentedRemovalLosesOnlySpace(lines: seq<string>, name: string, open: Range, close: Range)
    requires Tags(lines, open, close)
    requires forall i :: open.start.line < i < close.start.line && !Blank(lines[i]) ==> Indent(lines[i]) > 0
    ensures Clean(lines, Removed(lines, name, open, close), open, close) <==>
      (OnlySpaceInside(lines, open, close) && name != "pre") || NoTagLine(lines, open, close)
  {
    hide Clean, Removed, ShiftFrom, Blank, Indent, OnlySpaceInside, NoTagLine;
    ShiftFromBehind(lines, open, close);
    RemovalLosesOnlySpace(lines, name, open, close);
  }

  // On tags of one line there is no line to shift.
  lemma OneLineTagsApart(lines: seq<string>, open: Range, close: Range)
    requires Tags(lines, open, close) && open.start.line == open.end.line
    ensures NoTagLine(lines, open, close)
  {
  }

  // Then the shallowest line comes to the depth of the deeper tag, and none above it, unless it is
  // not as deep already.
  lemma ShallowestMeetsTags(lines: seq<string>, startLine: nat, endLine: nat)
    requires startLine <= endLine < |lines|
    requires forall i :: startLine < i < endLine && !Blank(lines[i]) ==> Indent(lines[i]) > 0
    ensures var amount, tags := IndentAmount(lines, startLine, endLine), Max(Indent(lines[startLine]), Indent(lines[endLine]));
      if exists i :: startLine < i < endLine && !Blank(lines[i]) && Indent(lines[i]) < tags then amount == 0
      else
        && (forall i :: startLine < i < endLine && !Blank(lines[i]) ==> Indent(lines[i]) - amount >= tags)
        && ((exists i :: startLine < i < endLine && !Blank(lines[i])) ==>
             exists i :: startLine < i < endLine && !Blank(lines[i]) && Indent(lines[i]) - amount == tags)
  {
    if startLine < endLine {
      var cut := ContentIndentFinds(lines, startLine + 1, endLine);
    }
  }

  // A line at column 0 above deeper ones: two columns are removed from it, which takes "fo" with the tags.
  lemma ForgottenLineLosesText()
    ensures var lines := ["<b>", "a", "foo", "  bar", "</b>"];
      var open, close := Range(Position(0, 0), Position(0, 3)), Range(Position(4, 0), Position(4, 4));
      Tags(lines, open, close) && !Clean(lines, Removed(lines, "b", open, close), open, close)
  {
    hide Clean, Removed, OnlySpaceInside, ShiftFrom, ForgottenAt;
    var lines := ["<b>", "a", "foo", "  bar", "</b>"];
    var open, close := Range(Position(0, 0), Position(0, 3)), Range(Position(4, 0), Position(4, 4));
    assert ForgottenAt(lines, 0, 4, 2) && ShiftFrom(lines, open, close) <= 2 && !Blank(lines[1]) by {
      ForgottenFoo(lines, open, close);
    }
    if OnlySpaceInside(lines, open, close) {
      OnlySpaceLines(lines, open, close, 1);
    }
    RemovalLosesOnlySpace(lines, "b", open, close);
  }

  lemma ForgottenFoo(lines: seq<string>, open: Range, close: Range)
    requires lines == ["<b>", "a", "foo", "  bar", "</b>"]
    requires ValidRange(lines, open) && ValidRange(lines, close) && open.start.line == 0 && close.start.line == 4
    ensures ForgottenAt(lines, 0, 4, 2) && ShiftFrom(lines, open, close) <= 2 && !Blank(lines[1])
  {
    hide EntireLineIsTag;
    assert Indent("<b>") == Indent("a") == Indent("foo") == Indent("</b>") == 0 && Indent("  bar") == 2 by {
      assert "  bar"[1..] == " bar" && " bar"[1..] == "bar";
    }
    hide Indent;
    assert !Blank(lines[1]) && !Blank(lines[3]);
  }

  // An opening tag on two lines, the second of them shifted
  lemma TagOnTwoLinesOverlaps()
    ensures var lines := ["<pre", "  id>", "    x", "</pre>"];
      var open, close := Range(Position(0, 0), Position(1, 5)), Range(Position(3, 0), Position(3, 6));
      Tags(lines, open, close) && !InOrder(lines, Removed(lines, "pre", open, close))
  {
    hide InOrder, Unwrapped, Indent;
    var lines := ["<pre", "  id>", "    x", "</pre>"];
    var open, close := Range(Position(0, 0), Position(1, 5)), Range(Position(3, 0), Position(3, 6));
    FullLine(lines[1], 2);
    assert TagLine(lines, open, close, 1);
    TagLineOverlaps(lines, open, close);
  }

  lemma FullLine(line: string, k: nat)
    requires k < |line| && !IsSpace(line[k])
    ensures !Blank(line)
  {
    if Blank(line) {
      assert line[..Indent(line)][k] == line[k];
    }
  }
}
