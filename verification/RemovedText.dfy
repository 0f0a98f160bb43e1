// Which text removing a tag removes (extensions/emmet/src/removeTag.ts:38-114): besides the tags the
// lines that they have to themselves, with the blank lines next to them, and part of the indents.

module RemovedText {
  import opened TextPositions
  import opened Whitespace
  import opened RemoveTag

  // ----- only white space between the tags -----

  lemma AllSpaceConcat(a: string, b: string)
    ensures AllSpace(a + b) <==> AllSpace(a) && AllSpace(b)
  {
    hide IsSpace;
    if AllSpace(a + b) {
      forall i | 0 <= i < |a|
        ensures IsSpace(a[i])
      {
        assert (a + b)[i] == a[i];
      }
      forall i | 0 <= i < |b|
        ensures IsSpace(b[i])
      {
        assert (a + b)[|a| + i] == b[i];
      }
    }
  }

  lemma TrimsToNothing(s: string)
    ensures Trim(s) == "" <==> AllSpace(s)
  {
    hide IsSpace;
    var n := Indent(s);
    assert s == s[..n] + s[n..];
    AllSpaceConcat(s[..n], s[n..]);
    if AllSpace(s) {
      assert n == |s|;
    } else {
      assert s[n..][|Trim(s)|..] == s[n + |Trim(s)|..];
    }
  }

  lemma {:induction false} LinesAllSpace(lines: seq<string>, l: nat, end: Position)
    requires ValidPosition(lines, end) && l <= end.line
    ensures AllSpace(LinesTo(lines, l, end)) <==>
      AllSpace(lines[end.line][..end.character]) && forall k :: l <= k < end.line ==> AllSpace(lines[k])
    decreases end.line - l
  {
    hide AllSpace;
    if l < end.line {
      LinesAllSpace(lines, l + 1, end);
      AllSpaceConcat(lines[l] + "\n", LinesTo(lines, l + 1, end));
      AllSpaceConcat(lines[l], "\n");
      LineBreakIsSpace();
    }
  }

  lemma LineBreakIsSpace()
    ensures AllSpace("\n")
  {
  }

  // The document between two tags is told to be blank exactly if each of its lines is, as far as it is
  // between them.
  lemma OnlySpaceIff(lines: seq<string>, open: Range, close: Range)
    requires ValidRange(lines, open) && ValidRange(lines, close) && NotAfter(open.end, close.start)
    ensures var p, q := open.end, close.start;
      OnlySpaceInside(lines, open, close) <==>
      if p.line == q.line then AllSpace(lines[p.line][p.character..q.character])
      else
        && AllSpace(lines[p.line][p.character..]) && AllSpace(lines[q.line][..q.character])
        && forall l :: p.line < l < q.line ==> AllSpace(lines[l])
  {
    hide AllSpace, Trim;
    var p, q := open.end, close.start;
    TrimsToNothing(TextIn(lines, Range(p, q)));
    if p.line < q.line {
      var first := lines[p.line][p.character..];
      LinesAllSpace(lines, p.line + 1, q);
      AllSpaceConcat(first + "\n", LinesTo(lines, p.line + 1, q));
      AllSpaceConcat(first, "\n");
      LineBreakIsSpace();
    }
  }

  // ----- a tag with its line to itself -----

  lemma {:induction false} TrimEndKeeps(s: string, n: nat)
    requires 0 < n <= |s| && !IsSpace(s[n - 1]) && AllSpace(s[n..])
    ensures TrimEnd(s) == s[..n]
    decreases |s|
  {
    if n < |s| {
      assert s[n..][|s| - 1 - n] == s[|s| - 1];
      assert AllSpace(s[..|s| - 1][n..]) by { AllButLast(s, n); }
      TrimEndKeeps(s[..|s| - 1], n);
      assert s[..|s| - 1][..n] == s[..n];
    } else {
      assert s[..n] == s;
    }
  }

  lemma AllButLast(s: string, n: nat)
    requires n < |s| && AllSpace(s[n..])
    ensures AllSpace(s[..|s| - 1][n..])
  {
    assert s[..|s| - 1][n..] == s[n..][..|s| - 1 - n];
  }

  lemma {:induction false} IndentIs(s: string, f: nat)
    requires f < |s| && AllSpace(s[..f]) && !IsSpace(s[f])
    ensures Indent(s) == f
  {
    if f > 0 {
      assert s[..f][0] == s[0];
      assert s[1..][..f - 1] == s[..f][1..];
      IndentIs(s[1..], f - 1);
    }
  }

  // A tag, which neither starts nor ends with white space, has its line to itself exactly if only
  // white space is beside it.
  lemma OwnLineIff(lines: seq<string>, r: Range)
    requires ValidRange(lines, r) && r.start.line == r.end.line && r.start.character < r.end.character
    requires var line := lines[r.start.line]; !IsSpace(line[r.start.character]) && !IsSpace(line[r.end.character - 1])
    ensures var line := lines[r.start.line];
      EntireLineIsTag(lines, r) <==> AllSpace(line[..r.start.character]) && AllSpace(line[r.end.character..])
  {
    hide IsSpace, Indent, TrimEnd;
    var line, s, e := lines[r.start.line], r.start.character, r.end.character;
    if AllSpace(line[..s]) && AllSpace(line[e..]) {
      IndentIs(line, s);
      assert line[s..][e - s - 1] == line[e - 1] && line[s..][e - s..] == line[e..];
      TrimEndKeeps(line[s..], e - s);
      assert line[s..][..e - s] == line[s..e];
    }
    if EntireLineIsTag(lines, r) {
      TrimmedTag(line, s, e);
    }
  }

  lemma OwnLineIsOne(lines: seq<string>, r: Range)
    requires ValidRange(lines, r) && r.start.line != r.end.line
    ensures !EntireLineIsTag(lines, r)
  {
  }

  // ----- what is gone -----

  ghost predicate FirstFullAt(lines: seq<string>, open: Range, close: Range, f: nat) {
    && open.start.line < f < close.start.line && f < |lines| && !Blank(lines[f])
    && forall k: nat :: open.start.line < k < f ==> Blank(lines[k])
  }

  ghost predicate LastFullAt(lines: seq<string>, open: Range, close: Range, z: nat) {
    && open.start.line < z < close.start.line < |lines| && !Blank(lines[z])
    && forall k: nat :: z < k < close.start.line ==> Blank(lines[k])
  }

  // From the tag to the text of the first full line
  ghost predicate BehindOpening(lines: seq<string>, open: Range, close: Range, l: nat, c: nat)
    requires ValidRange(lines, open)
  {
    EntireLineIsTag(lines, open) &&
    exists f: nat :: FirstFullAt(lines, open, close, f) && Holds(Range(open.end, Position(f, Indent(lines[f]))), l, c)
  }

  // From the end of the last full line to the tag
  ghost predicate InFrontOfClosing(lines: seq<string>, open: Range, close: Range, l: nat, c: nat)
    requires ValidRange(lines, close)
  {
    EntireLineIsTag(lines, close) &&
    exists z: nat :: LastFullAt(lines, open, close, z) && Holds(Range(Position(z, |lines[z]|), close.start), l, c)
  }

  // A full inner line is shifted, unless its indent goes with the opening tag.
  ghost predicate Shifted(lines: seq<string>, open: Range, close: Range, l: nat)
    requires ValidRange(lines, open)
  {
    && open.start.line < l < close.start.line && l < |lines| && !Blank(lines[l])
    && !(EntireLineIsTag(lines, open) && FirstFullAt(lines, open, close, l))
  }

  lemma GoneThree(first: Range, shifts: seq<Range>, last: Range, l: nat, c: nat)
    ensures Gone([first] + shifts + [last], l, c) <==> Holds(first, l, c) || Holds(last, l, c) || Gone(shifts, l, c)
  {
    hide Holds;
    var all := [first] + shifts + [last];
    assert all[0] == first && all[|all| - 1] == last;
    assert forall k :: 0 <= k < |shifts| ==> all[1 + k] == shifts[k];
  }

  lemma OpeningHolds(lines: seq<string>, open: Range, close: Range, l: nat, c: nat)
    requires Tags(lines, open, close)
    ensures Holds(OpeningPart(lines, open, close), l, c) <==> Holds(open, l, c) || BehindOpening(lines, open, close, l, c)
  {
    hide EntireLineIsTag, Indent, Blank;
    var first := FirstFull(lines, open.start.line + 1, close.start.line);
    if first.Some? {
      assert FirstFullAt(lines, open, close, first.value);
      forall f: nat | FirstFullAt(lines, open, close, f)
        ensures f == first.value
      {
      }
      if EntireLineIsTag(lines, open) && open.start.line != open.end.line {
        OwnLineIsOne(lines, open);
      }
    }
  }

  lemma ClosingHolds(lines: seq<string>, open: Range, close: Range, l: nat, c: nat)
    requires Tags(lines, open, close)
    ensures Holds(ClosingPart(lines, open, close), l, c) <==> Holds(close, l, c) || InFrontOfClosing(lines, open, close, l, c)
  {
    hide EntireLineIsTag, Indent, Blank;
    var last := LastFull(lines, open.start.line + 1, close.start.line);
    if last.Some? {
      assert LastFullAt(lines, open, close, last.value);
      forall z: nat | LastFullAt(lines, open, close, z)
        ensures z == last.value
      {
      }
    }
  }

  lemma ShiftsHold(lines: seq<string>, open: Range, close: Range, l: nat, c: nat)
    requires Tags(lines, open, close)
    ensures var amount := IndentAmount(lines, open.start.line, close.start.line);
      Gone(Shifts(lines, ShiftFrom(lines, open, close), close.start.line, amount), l, c) <==>
      Shifted(lines, open, close, l) && c < amount
  {
    hide EntireLineIsTag, Indent, Blank, IndentAmount, Shifts;
    var from, amount := ShiftFrom(lines, open, close), IndentAmount(lines, open.start.line, close.start.line);
    var shifts := Shifts(lines, from, close.start.line, amount);
    ShiftsAt(lines, from, close.start.line, amount);
    ShiftFromIff(lines, open, close, l);
    if Shifted(lines, open, close, l) && c < amount {
      var k := ShiftOf(lines, from, close.start.line, amount, l);
      assert Holds(shifts[k], l, c);
    }
    if Gone(shifts, l, c) {
      var k :| 0 <= k < |shifts| && Holds(shifts[k], l, c);
      assert shifts[k] == Shift(l, amount);
    }
  }

  lemma ShiftFromIff(lines: seq<string>, open: Range, close: Range, l: nat)
    requires Tags(lines, open, close)
    ensures Shifted(lines, open, close, l) <==> ShiftFrom(lines, open, close) <= l < close.start.line && !Blank(lines[l])
  {
    hide EntireLineIsTag, Indent, Blank;
  }

  // What is gone, if there is more than white space inside: the tags, the lines that they have to
  // themselves, and the same columns of every full line between.
  lemma GoneExactly(lines: seq<string>, name: string, open: Range, close: Range, l: nat, c: nat)
    requires Tags(lines, open, close) && !(OnlySpaceInside(lines, open, close) && name != "pre")
    ensures Gone(Removed(lines, name, open, close), l, c) <==>
      || Holds(open, l, c) || Holds(close, l, c)
      || BehindOpening(lines, open, close, l, c) || InFrontOfClosing(lines, open, close, l, c)
      || (Shifted(lines, open, close, l) && c < IndentAmount(lines, open.start.line, close.start.line))
  {
    hide OpeningPart, ClosingPart, Shifts, ShiftFrom, IndentAmount, Holds, Gone, OnlySpaceInside, BehindOpening, InFrontOfClosing,
         Shifted;
    var amount := IndentAmount(lines, open.start.line, close.start.line);
    GoneThree(OpeningPart(lines, open, close), Shifts(lines, ShiftFrom(lines, open, close), close.start.line, amount),
              ClosingPart(lines, open, close), l, c);
    OpeningHolds(lines, open, close, l, c);
    ClosingHolds(lines, open, close, l, c);
    ShiftsHold(lines, open, close, l, c);
  }

  // ----- line breaks -----

  // The amount is never more than the indent of the last full line.
  lemma AmountFitsLast(lines: seq<string>, open: Range, close: Range, z: nat)
    requires Tags(lines, open, close) && LastFullAt(lines, open, close, z)
    ensures IndentAmount(lines, open.start.line, close.start.line) <= Indent(lines[z])
  {
    hide Indent;
    var cut := ContentIndentFinds(lines, open.start.line + 1, close.start.line);
  }

  // A line break is the position behind the last character.  Those from the last full line up to the
  // closing tag go exactly if the tag has its line to itself.
  lemma ClosingLineBreaks(lines: seq<string>, name: string, open: Range, close: Range, z: nat, l: nat)
    requires Tags(lines, open, close) && NoTagLine(lines, open, close) && !(OnlySpaceInside(lines, open, close) && name != "pre")
    requires LastFullAt(lines, open, close, z) && z <= l < close.start.line
    ensures Gone(Removed(lines, name, open, close), l, |lines[l]|) <==> EntireLineIsTag(lines, close)
  {
    hide EntireLineIsTag, Removed, Gone, IndentAmount, Blank, OnlySpaceInside, Indent;
    GoneExactly(lines, name, open, close, l, |lines[l]|);
    AmountFitsLast(lines, open, close, z);
    assert !TagLine(lines, open, close, z);
    if EntireLineIsTag(lines, close) {
      assert Holds(Range(Position(z, |lines[z]|), close.start), l, |lines[l]|);
    }
    FullHasText(lines[z]);
  }

  lemma FullHasText(line: string)
    requires !Blank(line)
    ensures Indent(line) < |line|
  {
  }

  // Those from the opening tag up to the first full line go exactly if that tag has its line to itself,
  // and then the indent of that line goes as well.
  lemma OpeningLineBreaks(lines: seq<string>, name: string, open: Range, close: Range, f: nat, l: nat)
    requires Tags(lines, open, close) && !(OnlySpaceInside(lines, open, close) && name != "pre")
    requires FirstFullAt(lines, open, close, f) && open.end.line <= l < f
    ensures Gone(Removed(lines, name, open, close), l, |lines[l]|) <==> EntireLineIsTag(lines, open)
  {
    hide EntireLineIsTag, Removed, Gone, IndentAmount, Blank, OnlySpaceInside, Indent;
    GoneExactly(lines, name, open, close, l, |lines[l]|);
    if EntireLineIsTag(lines, open) {
      assert Holds(Range(open.end, Position(f, Indent(lines[f]))), l, |lines[l]|);
    }
  }

  // Of the first full line behind an opening tag with its line to itself exactly the indent is gone, of
  // every other full line exactly the amount, whatever is there.
  lemma FullLinesLose(lines: seq<string>, name: string, open: Range, close: Range, l: nat, c: nat)
    requires Tags(lines, open, close) && NoTagLine(lines, open, close) && !(OnlySpaceInside(lines, open, close) && name != "pre")
    requires open.start.line < l < close.start.line && !Blank(lines[l]) && c < |lines[l]|
    ensures Gone(Removed(lines, name, open, close), l, c) <==>
      if EntireLineIsTag(lines, open) && FirstFullAt(lines, open, close, l) then c < Indent(lines[l])
      else c < IndentAmount(lines, open.start.line, close.start.line)
  {
    hide EntireLineIsTag, Removed, Gone, IndentAmount, Blank, OnlySpaceInside, Indent;
    GoneExactly(lines, name, open, close, l, c);
    assert !TagLine(lines, open, close, l);
    if EntireLineIsTag(lines, open) && FirstFullAt(lines, open, close, l) {
      OneLineOpening(lines, open);
      assert Holds(Range(open.end, Position(l, Indent(lines[l]))), l, c) <==> c < Indent(lines[l]);
    }
  }

  lemma OneLineOpening(lines: seq<string>, open: Range)
    requires ValidRange(lines, open) && EntireLineIsTag(lines, open)
    ensures open.start.line == open.end.line
  {
  }

  // With only white space inside everything from tag to tag is gone.
  lemma SpaceInsideGone(lines: seq<string>, name: string, open: Range, close: Range, l: nat, c: nat)
    requires Tags(lines, open, close) && OnlySpaceInside(lines, open, close) && name != "pre"
    ensures Gone(Removed(lines, name, open, close), l, c) <==> Holds(Range(open.start, close.end), l, c)
  {
    hide Holds, OnlySpaceInside;
    var outer := Range(open.start, close.end);
    assert Removed(lines, name, open, close) == [outer];
    assert [outer][0] == outer;
  }
}
