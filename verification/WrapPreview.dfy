// The live preview of Emmet's "wrap with abbreviation": applyPreview and revertPreview
// (extensions/emmet/src/abbreviationActions.ts:104-204).

module WrapPreview {
  import opened Options
  import opened TextPositions

  // ----- a document as ranges and the text between them -----

  // gaps[0] texts[0] gaps[1] texts[1] ... from the i-th gap on
  function Interleave(gaps: seq<string>, texts: seq<string>, i: nat): string
    requires |gaps| == |texts| + 1 && i <= |texts|
    decreases |texts| - i
  {
    if i == |texts| then gaps[i] else gaps[i] + texts[i] + Interleave(gaps, texts, i + 1)
  }

  // What precedes the i-th text
  function Before(gaps: seq<string>, texts: seq<string>, i: nat): string
    requires |gaps| == |texts| + 1 && i <= |texts|
  {
    if i == 0 then gaps[0] else Before(gaps, texts, i - 1) + texts[i - 1] + gaps[i]
  }

  // The range that delimits exactly the i-th text
  function RangeOf(gaps: seq<string>, texts: seq<string>, i: nat): Range
    requires |gaps| == |texts| + 1 && i < |texts|
  {
    var start := Advance(ORIGIN, Before(gaps, texts, i));
    Range(start, Advance(start, texts[i]))
  }

  lemma {:induction false} InterleaveSplit(gaps: seq<string>, texts: seq<string>, i: nat)
    requires |gaps| == |texts| + 1 && i <= |texts|
    ensures Interleave(gaps, texts, 0) ==
      Before(gaps, texts, i) + (if i == |texts| then "" else texts[i] + Interleave(gaps, texts, i + 1))
  {
    if i == 0 {
      assert gaps[0] + "" == gaps[0];
    } else {
      InterleaveSplit(gaps, texts, i - 1);
      var rest := if i == |texts| then "" else texts[i] + Interleave(gaps, texts, i + 1);
      assert Interleave(gaps, texts, i) == gaps[i] + rest;
      assert Before(gaps, texts, i - 1) + (texts[i - 1] + (gaps[i] + rest)) == Before(gaps, texts, i) + rest;
    }
  }

  // The offsets of a range are those of its text.
  lemma RangeOffsets(gaps: seq<string>, texts: seq<string>, i: nat)
    requires |gaps| == |texts| + 1 && i < |texts|
    ensures var doc, r, k := Interleave(gaps, texts, 0), RangeOf(gaps, texts, i), |Before(gaps, texts, i)|;
      && k + |texts[i]| <= |doc| && doc[k..k + |texts[i]|] == texts[i]
      && doc[k + |texts[i]|..] == Interleave(gaps, texts, i + 1)
      && OffsetAt(doc, r.start) == k && OffsetAt(doc, r.end) == k + |texts[i]|
  {
    var doc, before := Interleave(gaps, texts, 0), Before(gaps, texts, i);
    InterleaveSplit(gaps, texts, i);
    var k, n := |before|, |before| + |texts[i]|;
    assert doc == before + (texts[i] + Interleave(gaps, texts, i + 1));
    assert doc[..k] == before;
    assert doc[..n] == before + texts[i];
    AdvanceAppend(ORIGIN, before, texts[i]);
    OffsetAtPositionAt(doc, k);
    OffsetAtPositionAt(doc, n);
  }

  // ----- edits -----

  datatype Edit = Edit(range: Range, text: string)

  predicate NotAfter(p: Position, q: Position) {
    p.line < q.line || (p.line == q.line && p.character <= q.character)
  }

  // Edits that the editor accepts: from the top down, and apart
  predicate InOrder(edits: seq<Edit>) {
    && (forall i :: 0 <= i < |edits| ==> NotAfter(edits[i].range.start, edits[i].range.end))
    && (forall i, j :: 0 <= i < j < |edits| ==> NotAfter(edits[i].range.end, edits[j].range.start))
  }

  // The editor applies all edits of one builder to the document as it was, in order.
  function ApplyFrom(doc: string, from: nat, edits: seq<Edit>): string
    requires from <= |doc|
    decreases |edits|
  {
    if edits == [] then doc[from..]
    else
      var start, end := OffsetAt(doc, edits[0].range.start), OffsetAt(doc, edits[0].range.end);
      (if from <= start then doc[from..start] else "") + edits[0].text + ApplyFrom(doc, end, edits[1..])
  }

  function ApplyEdits(doc: string, edits: seq<Edit>): string {
    ApplyFrom(doc, 0, edits)
  }

  // Replacing each of the first k texts by another one
  function Replaced(texts: seq<string>, news: seq<string>): (r: seq<string>)
    requires |news| <= |texts|
    ensures |r| == |texts|
  {
    news + texts[|news|..]
  }

  lemma NothingReplaced(texts: seq<string>, news: seq<string>)
    requires news == []
    ensures Replaced(texts, news) == texts
  {
  }

  function Edits(gaps: seq<string>, texts: seq<string>, news: seq<string>): (r: seq<Edit>)
    requires |gaps| == |texts| + 1 && |news| <= |texts|
    ensures |r| == |news|
    ensures forall i :: 0 <= i < |news| ==> r[i] == Edit(RangeOf(gaps, texts, i), news[i])
  {
    seq(|news|, i requires 0 <= i < |news| => Edit(RangeOf(gaps, texts, i), news[i]))
  }

  // End of the (i-1)-th text
  function Behind(gaps: seq<string>, texts: seq<string>, i: nat): nat
    requires |gaps| == |texts| + 1 && i <= |texts|
  {
    if i == 0 then 0 else |Before(gaps, texts, i - 1)| + |texts[i - 1]|
  }

  lemma BehindSplit(gaps: seq<string>, texts: seq<string>, i: nat)
    requires |gaps| == |texts| + 1 && i <= |texts|
    ensures var doc, b := Interleave(gaps, texts, 0), Behind(gaps, texts, i);
      && b <= |doc| && doc[b..] == Interleave(gaps, texts, i)
      && |Before(gaps, texts, i)| == b + |gaps[i]|
      && (i < |texts| ==> doc[b..b + |gaps[i]|] == gaps[i])
  {
    hide RangeOf, OffsetAt;
    if i > 0 {
      RangeOffsets(gaps, texts, i - 1);
    }
    GapFirst(gaps, texts, i);
    SliceOfTail(Interleave(gaps, texts, 0), Behind(gaps, texts, i), |gaps[i]|);
  }

  lemma GapFirst(gaps: seq<string>, texts: seq<string>, i: nat)
    requires |gaps| == |texts| + 1 && i <= |texts|
    ensures gaps[i] <= Interleave(gaps, texts, i)
  {
  }

  lemma SliceOfTail(doc: string, b: nat, n: nat)
    requires b <= |doc| && n <= |doc| - b
    ensures doc[b..b + n] == doc[b..][..n]
  {
  }

  lemma {:induction false} ApplyReplaces(gaps: seq<string>, texts: seq<string>, news: seq<string>, i: nat)
    requires |gaps| == |texts| + 1 && i <= |news| <= |texts|
    ensures var doc := Interleave(gaps, texts, 0);
      && Behind(gaps, texts, i) <= |doc|
      && ApplyFrom(doc, Behind(gaps, texts, i), Edits(gaps, texts, news)[i..])
         == Interleave(gaps, Replaced(texts, news), i)
    decreases |news| - i
  {
    hide RangeOf, OffsetAt, Before, Behind, Interleave, Edits;
    BehindSplit(gaps, texts, i);
    if i == |news| {
      assert Edits(gaps, texts, news)[i..] == [];
      SameTail(gaps, texts, Replaced(texts, news), i);
    } else {
      ApplyReplaces(gaps, texts, news, i + 1);
      ApplyNext(gaps, texts, news, i);
    }
  }

  // The next edit puts the i-th new text in place of the i-th text.
  lemma ApplyNext(gaps: seq<string>, texts: seq<string>, news: seq<string>, i: nat)
    requires |gaps| == |texts| + 1 && i < |news| <= |texts|
    requires Behind(gaps, texts, i) <= |Interleave(gaps, texts, 0)| && Behind(gaps, texts, i + 1) <= |Interleave(gaps, texts, 0)|
    ensures ApplyFrom(Interleave(gaps, texts, 0), Behind(gaps, texts, i), Edits(gaps, texts, news)[i..])
      == gaps[i] + news[i] + ApplyFrom(Interleave(gaps, texts, 0), Behind(gaps, texts, i + 1), Edits(gaps, texts, news)[i + 1..])
    ensures Interleave(gaps, Replaced(texts, news), i) == gaps[i] + news[i] + Interleave(gaps, Replaced(texts, news), i + 1)
  {
    hide RangeOf, OffsetAt, Before;
    var edits := Edits(gaps, texts, news)[i..];
    BehindSplit(gaps, texts, i);
    RangeOffsets(gaps, texts, i);
    assert edits[1..] == Edits(gaps, texts, news)[i + 1..];
  }

  lemma {:induction false} SameTail(gaps: seq<string>, a: seq<string>, b: seq<string>, i: nat)
    requires |gaps| == |a| + 1 == |b| + 1 && i <= |a|
    requires forall j :: i <= j < |a| ==> a[j] == b[j]
    ensures Interleave(gaps, a, i) == Interleave(gaps, b, i)
    decreases |a| - i
  {
    if i < |a| {
      SameTail(gaps, a, b, i + 1);
    }
  }

  // Replacing the ranges of the first texts puts the new texts in their place.
  lemma EditsReplace(gaps: seq<string>, texts: seq<string>, news: seq<string>)
    requires |gaps| == |texts| + 1 && |news| <= |texts|
    ensures ApplyEdits(Interleave(gaps, texts, 0), Edits(gaps, texts, news)) == Interleave(gaps, Replaced(texts, news), 0)
  {
    ApplyReplaces(gaps, texts, news, 0);
    assert Edits(gaps, texts, news)[0..] == Edits(gaps, texts, news);
  }

  // ----- where a replaced range lands -----

  // The accumulators of applyPreview
  datatype Tracker = Tracker(lastOld: Range, lastNew: Range, totalNewLines: int)

  const START := Tracker(Range(ORIGIN, ORIGIN), Range(ORIGIN, ORIGIN), 0)

  // One iteration: the new range of the text that was in oldRange (abbreviationActions.ts:168-202)
  function Track(t: Tracker, first: bool, oldRange: Range, newText: string): Tracker {
    var expandedTextLines := Lines(newText);
    var oldPreviewLines := oldRange.end.line - oldRange.start.line + 1;
    var newLinesInserted := |expandedTextLines| - oldPreviewLines;
    var lineStart := oldRange.start.line + t.totalNewLines;
    var lineEnd := oldRange.end.line + t.totalNewLines + newLinesInserted;
    var lastLength := |expandedTextLines[|expandedTextLines| - 1]|;
    var behindLast := t.lastNew.end.character + (oldRange.start.character - t.lastOld.end.character);
    var range :=
      if !first && lineEnd == t.lastNew.end.line then
        Range(Position(lineStart, behindLast), Position(lineEnd, lastLength + behindLast))
      else if !first && lineStart == t.lastNew.end.line then
        Range(Position(lineStart, behindLast), Position(lineEnd, lastLength))
      else if |expandedTextLines| == 1 then
        Range(Position(lineStart, oldRange.start.character), Position(lineEnd, lastLength + oldRange.start.character))
      else
        Range(Position(lineStart, oldRange.start.character), Position(lineEnd, lastLength));
    Tracker(oldRange, range, t.totalNewLines + newLinesInserted)
  }

  // The tracker is right before the i-th iteration.
  ghost predicate OnTrack(t: Tracker, gaps: seq<string>, texts: seq<string>, news: seq<string>, i: nat)
    requires |gaps| == |texts| + 1 && i <= |news| <= |texts|
  {
    if i == 0 then t == START
    else
      && t.lastOld == RangeOf(gaps, texts, i - 1)
      && t.lastNew == RangeOf(gaps, Replaced(texts, news), i - 1)
      && t.totalNewLines == t.lastNew.end.line - t.lastOld.end.line
  }

  lemma StartOnTrack(gaps: seq<string>, texts: seq<string>, news: seq<string>)
    requires |gaps| == |texts| + 1 && |news| <= |texts|
    ensures OnTrack(START, gaps, texts, news, 0)
  {
  }

  lemma {:induction false} SameBefore(gaps: seq<string>, a: seq<string>, b: seq<string>, i: nat)
    requires |gaps| == |a| + 1 == |b| + 1 && i <= |a|
    requires forall j :: 0 <= j < i ==> a[j] == b[j]
    ensures Before(gaps, a, i) == Before(gaps, b, i)
  {
    if i > 0 {
      SameBefore(gaps, a, b, i - 1);
    }
  }

  // The i-th range starts where the gap behind the previous range ends.
  lemma StartBehind(gaps: seq<string>, texts: seq<string>, i: nat)
    requires |gaps| == |texts| + 1 && 0 < i < |texts|
    ensures RangeOf(gaps, texts, i).start == Advance(RangeOf(gaps, texts, i - 1).end, gaps[i])
  {
    var before := Before(gaps, texts, i - 1);
    AdvanceAppend(ORIGIN, before, texts[i - 1]);
    AdvanceAppend(ORIGIN, before + texts[i - 1], gaps[i]);
  }

  // The ranges of the texts are in order and apart.
  lemma {:induction false} RangesInOrder(gaps: seq<string>, texts: seq<string>, i: nat, j: nat)
    requires |gaps| == |texts| + 1 && i <= j < |texts|
    ensures NotAfter(RangeOf(gaps, texts, j).start, RangeOf(gaps, texts, j).end)
    ensures i < j ==> NotAfter(RangeOf(gaps, texts, i).end, RangeOf(gaps, texts, j).start)
    decreases j
  {
    hide Before, Advance;
    var here := RangeOf(gaps, texts, j);
    AdvanceOrder(here.start, texts[j]);
    if i < j {
      RangesInOrder(gaps, texts, i, j - 1);
      StartBehind(gaps, texts, j);
      AdvanceOrder(RangeOf(gaps, texts, j - 1).end, gaps[j]);
    }
  }

  lemma EditsInOrder(gaps: seq<string>, texts: seq<string>, news: seq<string>)
    requires |gaps| == |texts| + 1 && |news| <= |texts|
    ensures InOrder(Edits(gaps, texts, news))
  {
    hide RangeOf, NotAfter;
    forall i | 0 <= i < |news|
      ensures NotAfter(RangeOf(gaps, texts, i).start, RangeOf(gaps, texts, i).end)
    {
      RangesInOrder(gaps, texts, i, i);
    }
    forall i, j | 0 <= i < j < |news|
      ensures NotAfter(RangeOf(gaps, texts, i).end, RangeOf(gaps, texts, j).start)
    {
      RangesInOrder(gaps, texts, i, j);
    }
  }

  // The three-way case analysis computes exactly the range of the new text.
  lemma TrackRight(t: Tracker, gaps: seq<string>, texts: seq<string>, news: seq<string>, i: nat)
    requires |gaps| == |texts| + 1 && i < |news| <= |texts|
    requires OnTrack(t, gaps, texts, news, i)
    ensures var r := Track(t, i == 0, RangeOf(gaps, texts, i), news[i]);
      OnTrack(r, gaps, texts, news, i + 1) && r.lastNew == RangeOf(gaps, Replaced(texts, news), i)
  {
    hide Before, Advance, Lines;
    var olds, all := RangeOf(gaps, texts, i), Replaced(texts, news);
    var new' := RangeOf(gaps, all, i);
    assert all[i] == news[i];
    AdvanceLines(new'.start, news[i]);
    AdvanceLines(olds.start, texts[i]);
    if i == 0 {
      SameBefore(gaps, texts, all, 0);
    } else {
      StartBehind(gaps, texts, i);
      StartBehind(gaps, all, i);
      AdvanceFromBoth(t.lastOld.end, t.lastNew.end, gaps[i]);
    }
  }

  // ----- an expansion that fails stops the preview -----

  // How many of the expansions are reached and succeed
  function Succeeding(expansions: seq<Option<string>>): (k: nat)
    ensures k <= |expansions|
    ensures forall i :: 0 <= i < k ==> expansions[i].Some?
    ensures k < |expansions| ==> expansions[k].None?
  {
    if expansions == [] || expansions[0].None? then 0 else 1 + Succeeding(expansions[1..])
  }

  function NewTexts(expansions: seq<Option<string>>): (r: seq<string>)
    ensures |r| == Succeeding(expansions)
    ensures forall i :: 0 <= i < |r| ==> r[i] == expansions[i].value
  {
    seq(Succeeding(expansions), i requires 0 <= i < Succeeding(expansions) => expansions[i].value)
  }

  // The ranges behind the last replaced one do not move: its end stays on its line, and the next
  // range is on a later line, or the end stays in its column too.
  predicate StayPut(lastOld: Range, lastNew: Range, next: Range) {
    && lastNew.end.line == lastOld.end.line
    && (next.start.line != lastOld.end.line || lastNew.end.character == lastOld.end.character)
  }

  lemma {:induction false} SamePositionsFrom(gaps: seq<string>, a: seq<string>, b: seq<string>, i: nat, j: nat)
    requires |gaps| == |a| + 1 == |b| + 1 && i <= j < |a|
    requires forall n :: i <= n < |a| ==> a[n] == b[n]
    requires RangeOf(gaps, a, i).start == RangeOf(gaps, b, i).start
    ensures RangeOf(gaps, a, j) == RangeOf(gaps, b, j)
    decreases j
  {
    if i < j {
      SamePositionsFrom(gaps, a, b, i, j - 1);
      StartBehind(gaps, a, j);
      StartBehind(gaps, b, j);
    }
  }

  // When the k-th expansion fails, k > 0, the ranges from k on are left alone by the code; they
  // still delimit their texts exactly when they stay put.
  lemma StaleRangesIff(gaps: seq<string>, texts: seq<string>, news: seq<string>)
    requires |gaps| == |texts| + 1 && 0 < |news| < |texts|
    ensures var k, all := |news|, Replaced(texts, news);
      StayPut(RangeOf(gaps, texts, k - 1), RangeOf(gaps, all, k - 1), RangeOf(gaps, texts, k)) <==>
      forall j :: k <= j < |texts| ==> RangeOf(gaps, all, j) == RangeOf(gaps, texts, j)
  {
    var k, all := |news|, Replaced(texts, news);
    var lastOld, lastNew := RangeOf(gaps, texts, k - 1), RangeOf(gaps, all, k - 1);
    StartBehind(gaps, texts, k);
    StartBehind(gaps, all, k);
    AdvanceFromBoth(lastOld.end, lastNew.end, gaps[k]);
    assert StayPut(lastOld, lastNew, RangeOf(gaps, texts, k)) <==> RangeOf(gaps, all, k).start == RangeOf(gaps, texts, k).start;
    if StayPut(lastOld, lastNew, RangeOf(gaps, texts, k)) {
      forall j | k <= j < |texts|
        ensures RangeOf(gaps, all, j) == RangeOf(gaps, texts, j)
      {
        SamePositionsFrom(gaps, all, texts, k, j);
      }
    }
  }

  // ----- the preview as the editor command keeps it -----

  datatype PreviewRange = PreviewRange(previewRange: Range, originalRange: Range, originalContent: string)

  // The tracker after i iterations
  function TrackedUpTo(ranges: seq<PreviewRange>, news: seq<string>, i: nat): Tracker
    requires i <= |news| <= |ranges|
  {
    if i == 0 then START else Track(TrackedUpTo(ranges, news, i - 1), i == 1, ranges[i - 1].previewRange, news[i - 1])
  }

  lemma NothingTracked(ranges: seq<PreviewRange>, news: seq<string>)
    requires |news| <= |ranges|
    ensures TrackedUpTo(ranges, news, 0) == START
  {
  }

  lemma TrackedNext(ranges: seq<PreviewRange>, news: seq<string>, i: nat)
    requires i < |news| <= |ranges|
    ensures TrackedUpTo(ranges, news, i + 1) == Track(TrackedUpTo(ranges, news, i), i == 0, ranges[i].previewRange, news[i])
  {
  }

  function PreviewEdits(ranges: seq<PreviewRange>, news: seq<string>): (r: seq<Edit>)
    requires |news| <= |ranges|
    ensures |r| == |news| && forall i :: 0 <= i < |news| ==> r[i] == Edit(ranges[i].previewRange, news[i])
  {
    seq(|news|, i requires 0 <= i < |news| => Edit(ranges[i].previewRange, news[i]))
  }

  function RevertEdits(ranges: seq<PreviewRange>): (r: seq<Edit>)
    ensures |r| == |ranges| && forall i :: 0 <= i < |ranges| ==> r[i] == Edit(ranges[i].previewRange, ranges[i].originalContent)
  {
    seq(|ranges|, i requires 0 <= i < |ranges| => Edit(ranges[i].previewRange, ranges[i].originalContent))
  }

  // The ranges delimit these texts.
  ghost predicate Delimit(ranges: seq<PreviewRange>, gaps: seq<string>, texts: seq<string>) {
    |gaps| == |texts| + 1 == |ranges| + 1 && forall i :: 0 <= i < |texts| ==> ranges[i].previewRange == RangeOf(gaps, texts, i)
  }

  // They are still right after a preview with these new texts: it replaced all or none, or what it
  // left alone stays put.
  ghost predicate Keeps(gaps: seq<string>, texts: seq<string>, news: seq<string>)
    requires |gaps| == |texts| + 1 && |news| <= |texts|
  {
    var k := |news|;
    k == 0 || k == |texts| ||
    StayPut(RangeOf(gaps, texts, k - 1), RangeOf(gaps, Replaced(texts, news), k - 1), RangeOf(gaps, texts, k))
  }

  // ... and so after each of several previews
  ghost predicate KeepAll(gaps: seq<string>, texts: seq<string>, inputs: seq<seq<Option<string>>>)
    requires |gaps| == |texts| + 1 && forall k :: 0 <= k < |inputs| ==> |inputs[k]| == |texts|
    decreases |inputs|
  {
    inputs == [] ||
    (Keeps(gaps, texts, NewTexts(inputs[0])) && KeepAll(gaps, Replaced(texts, NewTexts(inputs[0])), inputs[1..]))
  }

  // The new ranges, of those up to the failing expansion and of those left alone
  ghost predicate Tracked(ranges: seq<PreviewRange>, after: seq<PreviewRange>, news: seq<string>)
    requires |news| <= |ranges|
  {
    && |after| == |ranges|
    && (forall i :: 0 <= i < |news| ==> after[i] == ranges[i].(previewRange := TrackedUpTo(ranges, news, i + 1).lastNew))
    && (forall i :: |news| <= i < |ranges| ==> after[i] == ranges[i])
  }

  lemma PreviewDelimits(ranges: seq<PreviewRange>, after: seq<PreviewRange>, gaps: seq<string>, texts: seq<string>, news: seq<string>)
    requires Delimit(ranges, gaps, texts) && |news| <= |ranges| && Tracked(ranges, after, news)
    ensures forall i :: 0 <= i < |news| ==> after[i].previewRange == RangeOf(gaps, Replaced(texts, news), i)
    ensures Delimit(after, gaps, Replaced(texts, news)) <==> Keeps(gaps, texts, news)
  {
    hide RangeOf, Replaced, Track, StayPut;
    forall i | 0 <= i < |news|
      ensures after[i].previewRange == RangeOf(gaps, Replaced(texts, news), i)
    {
      TrackedRight(ranges, gaps, texts, news, i + 1);
    }
    if news == [] {
      NothingReplaced(texts, news);
    } else if |news| < |texts| {
      StaleRangesIff(gaps, texts, news);
    }
  }

  lemma {:induction false} TrackedRight(ranges: seq<PreviewRange>, gaps: seq<string>, texts: seq<string>, news: seq<string>, i: nat)
    requires Delimit(ranges, gaps, texts) && i <= |news| <= |ranges|
    ensures OnTrack(TrackedUpTo(ranges, news, i), gaps, texts, news, i)
    ensures i > 0 ==> TrackedUpTo(ranges, news, i).lastNew == RangeOf(gaps, Replaced(texts, news), i - 1)
  {
    hide RangeOf, Replaced, Track, OnTrack;
    if i == 0 {
      StartOnTrack(gaps, texts, news);
    } else {
      TrackedRight(ranges, gaps, texts, news, i - 1);
      TrackRight(TrackedUpTo(ranges, news, i - 1), gaps, texts, news, i - 1);
    }
  }

  class Preview {
    // what the editor makes of a document and the edits of one builder
    const editor: (string, seq<Edit>) -> string
    var document: string
    const rangesToReplace: array<PreviewRange>
    // the text between the ranges, and the text now in each of them
    ghost const gaps: seq<string>
    ghost var texts: seq<string>
    ghost const originals: seq<string>

    // What belongs to the start is untouched.
    ghost predicate Linked()
      reads this, rangesToReplace
    {
      && |gaps| == |texts| + 1 && |texts| == |originals| == rangesToReplace.Length
      && (forall i :: 0 <= i < |originals| ==>
            rangesToReplace[i].originalContent == originals[i] && rangesToReplace[i].originalRange == RangeOf(gaps, originals, i))
      && (forall doc: string, edits: seq<Edit> :: InOrder(edits) ==> editor(doc, edits) == ApplyEdits(doc, edits))
    }

    // The document is the gaps and the current texts, and every preview range delimits exactly the
    // text that is in it now.
    ghost predicate Valid()
      reads this, rangesToReplace
    {
      && Linked()
      && document == Interleave(gaps, texts, 0)
      && Delimit(rangesToReplace[..], gaps, texts)
    }

    // The document that wrapWithAbbreviation was called on
    ghost function Original(): string
      requires |gaps| == |originals| + 1
    {
      Interleave(gaps, originals, 0)
    }

    // The ranges are sorted and disjoint: they delimit `contents`, with `gaps` around them.
    constructor (ghost gaps: seq<string>, contents: seq<string>, ranges: seq<Range>, document: string,
                 editor: (string, seq<Edit>) -> string)
      requires |gaps| == |contents| + 1 && |ranges| == |contents|
      requires document == Interleave(gaps, contents, 0)
      requires forall i :: 0 <= i < |ranges| ==> ranges[i] == RangeOf(gaps, contents, i)
      requires forall doc: string, edits: seq<Edit> :: InOrder(edits) ==> editor(doc, edits) == ApplyEdits(doc, edits)
      ensures Valid() && this.document == document == Original() && this.gaps == gaps && texts == contents
    {
      this.editor := editor;
      this.document := document;
      this.gaps, texts, originals := gaps, contents, contents;
      rangesToReplace := new PreviewRange[|ranges|](i requires 0 <= i < |ranges| => PreviewRange(ranges[i], ranges[i], contents[i]));
    }

    // The loop of applyPreview: the edits, and the ranges they lead to
    method CollectEdits(expandAbbrList: seq<Option<string>>) returns (edits: seq<Edit>)
      requires |expandAbbrList| == rangesToReplace.Length
      modifies rangesToReplace
      ensures edits == PreviewEdits(old(rangesToReplace[..]), NewTexts(expandAbbrList))
      ensures Tracked(old(rangesToReplace[..]), rangesToReplace[..], NewTexts(expandAbbrList))
    {
      hide Track, NewTexts, TrackedUpTo;
      ghost var before := rangesToReplace[..];
      ghost var news := NewTexts(expandAbbrList);
      var tracker := START;
      NothingTracked(before, news);
      edits := [];
      var i := 0;
      while i < rangesToReplace.Length && expandAbbrList[i].Some?
        invariant i <= |news| && |edits| == i
        invariant tracker == TrackedUpTo(before, news, i)
        invariant forall j :: 0 <= j < i ==> edits[j] == Edit(before[j].previewRange, news[j])
        invariant forall j :: 0 <= j < i ==>
          rangesToReplace[j] == before[j].(previewRange := TrackedUpTo(before, news, j + 1).lastNew)
        invariant forall j :: i <= j < rangesToReplace.Length ==> rangesToReplace[j] == before[j]
        decreases rangesToReplace.Length - i
      {
        var oldPreviewRange := rangesToReplace[i].previewRange;
        var newText := expandAbbrList[i].value;
        edits := edits + [Edit(oldPreviewRange, newText)];
        TrackedNext(before, news, i);
        tracker := Track(tracker, i == 0, oldPreviewRange, newText);
        rangesToReplace[i] := rangesToReplace[i].(previewRange := tracker.lastNew);
        i := i + 1;
      }
      assert edits == PreviewEdits(before, news);
    }

    // applyPreview: one expansion, already formatted, for each range; None where it fails
    method ApplyPreview(expandAbbrList: seq<Option<string>>)
      requires Linked() && |expandAbbrList| == rangesToReplace.Length
      modifies this`document, this`texts, rangesToReplace
      ensures Linked() && texts == Replaced(old(texts), NewTexts(expandAbbrList))
      // one edit for each expansion before the first that fails
      ensures document == editor(old(document), PreviewEdits(old(rangesToReplace[..]), NewTexts(expandAbbrList)))
      ensures Tracked(old(rangesToReplace[..]), rangesToReplace[..], NewTexts(expandAbbrList))
      // if the ranges were right, the texts in them are replaced, and they are right for these texts
      ensures old(Valid()) ==>
        && document == Interleave(gaps, texts, 0)
        && (forall i :: 0 <= i < Succeeding(expandAbbrList) ==> rangesToReplace[i].previewRange == RangeOf(gaps, texts, i))
        && (Valid() <==> Keeps(gaps, old(texts), NewTexts(expandAbbrList)))
    {
      hide Interleave, RangeOf, Replaced, Track, ApplyEdits, InOrder, Keeps;
      ghost var olds, before, news := texts, rangesToReplace[..], NewTexts(expandAbbrList);
      var edits := CollectEdits(expandAbbrList);
      document := editor(document, edits);
      texts := Replaced(olds, news);
      if old(Valid()) {
        assert edits == Edits(gaps, olds, news);
        EditsInOrder(gaps, olds, news);
        EditsReplace(gaps, olds, news);
        PreviewDelimits(before, rangesToReplace[..], gaps, olds, news);
      }
    }

    // revertPreview
    method RevertPreview()
      requires Linked()
      modifies this`document, this`texts, rangesToReplace
      ensures Linked() && document == editor(old(document), RevertEdits(old(rangesToReplace[..])))
      ensures forall i :: 0 <= i < rangesToReplace.Length ==>
        rangesToReplace[i] == old(rangesToReplace[i]).(previewRange := old(rangesToReplace[i]).originalRange)
      ensures old(Valid()) ==> Valid() && document == Original() && texts == originals
    {
      hide Interleave, RangeOf, ApplyEdits, InOrder;
      ghost var olds, before := texts, rangesToReplace[..];
      var edits: seq<Edit> := [];
      for i := 0 to rangesToReplace.Length
        invariant edits == RevertEdits(before)[..i] && document == old(document)
        invariant forall j :: 0 <= j < rangesToReplace.Length ==>
          rangesToReplace[j] == if j < i then before[j].(previewRange := before[j].originalRange) else before[j]
      {
        edits := edits + [Edit(rangesToReplace[i].previewRange, rangesToReplace[i].originalContent)];
        rangesToReplace[i] := rangesToReplace[i].(previewRange := rangesToReplace[i].originalRange);
      }
      assert edits == RevertEdits(before);
      document := editor(document, edits);
      texts := originals;
      if old(Valid()) {
        assert edits == Edits(gaps, olds, originals);
        EditsInOrder(gaps, olds, originals);
        EditsReplace(gaps, olds, originals);
        assert Replaced(olds, originals) == originals;
      }
    }

    // Any number of previews, one after the other, and then a revert
    method PreviewAndRevert(inputs: seq<seq<Option<string>>>)
      requires Linked() && forall k :: 0 <= k < |inputs| ==> |inputs[k]| == rangesToReplace.Length
      modifies this`document, this`texts, rangesToReplace
      ensures Linked()
      ensures forall i :: 0 <= i < rangesToReplace.Length ==> rangesToReplace[i].previewRange == rangesToReplace[i].originalRange
      ensures old(Valid()) && KeepAll(gaps, old(texts), inputs) ==> Valid() && document == Original()
    {
      hide RangeOf, ApplyEdits, InOrder, Keeps, Delimit, Interleave, Replaced;
      for k := 0 to |inputs|
        invariant Linked()
        invariant old(Valid()) && KeepAll(gaps, old(texts), inputs) ==> Valid() && KeepAll(gaps, texts, inputs[k..])
      {
        assert inputs[k..][0] == inputs[k] && inputs[k..][1..] == inputs[k + 1..];
        ApplyPreview(inputs[k]);
      }
      RevertPreview();
    }
  }

  // Two lines with one range each: the first expansion adds a line, the second fails.  The
  // second range then delimits the end of the first new text instead of its own text.
  lemma FailedPreviewLosesRange()
    ensures var gaps, olds, news := ["", "\n", ""], ["a", "b"], ["x\ny"];
      && Interleave(gaps, Replaced(olds, news), 0) == "x\ny\nb"
      && RangeOf(gaps, olds, 1) == Range(Position(1, 0), Position(1, 1))
      && PositionAt("x\ny\nb", 2) == Position(1, 0)
      && RangeOf(gaps, olds, 1) != RangeOf(gaps, Replaced(olds, news), 1)
  {
    var gaps, olds, news := ["", "\n", ""], ["a", "b"], ["x\ny"];
    var all := Replaced(olds, news);
    assert all == ["x\ny", "b"];
    assert Interleave(gaps, all, 2) == "";
    assert Interleave(gaps, all, 1) == "\n" + "b" + "" == "\nb";
    assert Interleave(gaps, all, 0) == "" + "x\ny" + "\nb" == "x\ny\nb";
    assert Before(gaps, olds, 1) == Before(gaps, olds, 0) + "a" + "\n" == "a\n";
    assert Before(gaps, all, 1) == Before(gaps, all, 0) + "x\ny" + "\n" == "x\ny\n";
    AdvanceLines(ORIGIN, "a\n");
    AdvanceLines(ORIGIN, "x\ny\n");
  }

  // One line with two ranges, the first of which gets another text
  lemma OneLine(gap: string, x: string, y: string, z: string)
    requires '\n' !in gap && '\n' !in x && '\n' !in y && '\n' !in z
    ensures var gaps, olds, news := ["", gap, ""], [x, y], [z];
      && RangeOf(gaps, Replaced(olds, news), 0) == Range(Position(0, 0), Position(0, |z|))
      && RangeOf(gaps, olds, 0) == Range(Position(0, 0), Position(0, |x|))
      && RangeOf(gaps, olds, 1) == Range(Position(0, |x| + |gap|), Position(0, |x| + |gap| + |y|))
      && Interleave(gaps, olds, 0) == x + gap + y && Interleave(gaps, Replaced(olds, news), 0) == z + gap + y
  {
    var gaps, olds, all := ["", gap, ""], [x, y], [z, y];
    assert Replaced(olds, [z]) == all;
    OneLineText(gaps, olds, gap, x, y);
    OneLineText(gaps, all, gap, z, y);
    SameLine("");
    SameLine(x);
    SameLine(z);
    SameLine(x + gap);
    SameLine(x + gap + y);
    AdvanceAppend(ORIGIN, x + gap, y);
  }

  lemma OneLineText(gaps: seq<string>, texts: seq<string>, gap: string, x: string, y: string)
    requires gaps == ["", gap, ""] && texts == [x, y]
    ensures Before(gaps, texts, 0) == "" && Before(gaps, texts, 1) == x + gap && Interleave(gaps, texts, 0) == x + gap + y
  {
    assert Before(gaps, texts, 1) == "" + x + gap == x + gap;
    assert Interleave(gaps, texts, 1) == gap + y + "" == gap + y;
    assert Interleave(gaps, texts, 0) == "" + x + (gap + y) == x + gap + y;
  }

  // The first expansion is shorter than the text, the second fails.  Reverting then leaves the second
  // range behind the line and its text twice in the document.
  lemma FailedPreviewNotReverted()
    ensures var gaps, olds, news := ["", " ", ""], ["aaa", "b"], ["x"];
      var edits := [Edit(RangeOf(gaps, Replaced(olds, news), 0), "aaa"), Edit(RangeOf(gaps, olds, 1), "b")];
      && !Keeps(gaps, olds, news)
      && Interleave(gaps, olds, 0) == "aaa b" && Interleave(gaps, Replaced(olds, news), 0) == "x b"
      && InOrder(edits) && ApplyEdits("x b", edits) == "aaa bb"
  {
    hide RangeOf, Interleave, Replaced, ApplyEdits;
    OneLine(" ", "aaa", "b", "x");
    assert "aaa" + " " + "b" == "aaa b" && "x" + " " + "b" == "x b";
    RevertsWrongly(Range(Position(0, 0), Position(0, 1)), Range(Position(0, 4), Position(0, 5)));
  }

  lemma RevertsWrongly(first: Range, second: Range)
    requires first == Range(Position(0, 0), Position(0, 1)) && second == Range(Position(0, 4), Position(0, 5))
    ensures ApplyEdits("x b", [Edit(first, "aaa"), Edit(second, "b")]) == "aaa bb"
  {
    hide OffsetAt;
    var edits := [Edit(first, "aaa"), Edit(second, "b")];
    ShortLine();
    assert edits[1..] == [Edit(second, "b")] && edits[1..][1..] == [];
    assert ApplyFrom("x b", 3, []) == "";
    assert ApplyFrom("x b", 1, edits[1..]) == "x b"[1..3] + "b" + "" == " bb";
    assert ApplyFrom("x b", 0, edits) == "" + "aaa" + " bb" == "aaa bb";
  }

  // A wrong range need not be harmful: reverting puts "a" in place of the wrong "a" here, and the
  // document is the original one.
  lemma StaleRangeReverts()
    ensures var gaps, olds, news := ["", "a", ""], ["a", "a"], ["aa"];
      var edits := [Edit(RangeOf(gaps, Replaced(olds, news), 0), "a"), Edit(RangeOf(gaps, olds, 1), "a")];
      && !Keeps(gaps, olds, news)
      && Interleave(gaps, olds, 0) == "aaa" && Interleave(gaps, Replaced(olds, news), 0) == "aaaa"
      && InOrder(edits) && ApplyEdits("aaaa", edits) == "aaa"
  {
    hide RangeOf, Interleave, Replaced, ApplyEdits;
    OneLine("a", "a", "a", "aa");
    assert "a" + "a" + "a" == "aaa" && "aa" + "a" + "a" == "aaaa";
    RevertsRightly(Range(Position(0, 0), Position(0, 2)), Range(Position(0, 2), Position(0, 3)));
  }

  lemma RevertsRightly(first: Range, second: Range)
    requires first == Range(Position(0, 0), Position(0, 2)) && second == Range(Position(0, 2), Position(0, 3))
    ensures ApplyEdits("aaaa", [Edit(first, "a"), Edit(second, "a")]) == "aaa"
  {
    hide OffsetAt;
    var edits := [Edit(first, "a"), Edit(second, "a")];
    FourLetters();
    assert edits[1..] == [Edit(second, "a")] && edits[1..][1..] == [];
    assert ApplyFrom("aaaa", 3, []) == "a";
    assert ApplyFrom("aaaa", 2, edits[1..]) == "aaaa"[2..2] + "a" + "a" == "aa";
    assert ApplyFrom("aaaa", 0, edits) == "" + "a" + "aa" == "aaa";
  }

  lemma FourLetters()
    ensures OffsetAt("aaaa", Position(0, 0)) == 0 && OffsetAt("aaaa", Position(0, 2)) == 2 && OffsetAt("aaaa", Position(0, 3)) == 3
  {
    assert "aaaa"[1..] == "aaa" && "aaa"[1..] == "aa" && "aa"[1..] == "a";
  }

  lemma SameLine(text: string)
    requires forall i :: 0 <= i < |text| ==> text[i] != '\n'
    ensures Advance(ORIGIN, text) == Position(0, |text|)
  {
    AdvanceFromBoth(ORIGIN, ORIGIN, text);
    NoBreak(ORIGIN, text);
  }

  lemma {:induction false} NoBreak(p: Position, text: string)
    requires forall i :: 0 <= i < |text| ==> text[i] != '\n'
    ensures Advance(p, text) == Position(p.line, p.character + |text|)
    decreases |text|
  {
    if text != "" {
      NoBreak(Next(p, text[0]), text[1..]);
    }
  }

  lemma ShortLine()
    ensures OffsetAt("x b", Position(0, 0)) == 0 && OffsetAt("x b", Position(0, 1)) == 1
    ensures OffsetAt("x b", Position(0, 4)) == OffsetAt("x b", Position(0, 5)) == 3
  {
    assert "x b"[1..] == " b" && " b"[1..] == "b" && "b"[1..] == "";
  }
}
