// Selecting the next and the previous word of a property value
// (extensions/emmet/src/util.ts:480-554).

module Words {
  import opened Options

  predicate SpaceAt(text: string, i: int) {
    0 <= i < |text| && text[i] == ' '
  }

  // A maximal run of other characters than spaces
  ghost predicate Word(text: string, start: int, end: int) {
    && 0 <= start < end <= |text|
    && (forall i :: start <= i < end ==> !SpaceAt(text, i))
    && (start == 0 || SpaceAt(text, start - 1))
    && (end == |text| || SpaceAt(text, end))
  }

  // Behind the next space after pos, or anywhere when pos is before the text
  ghost predicate Behind(text: string, pos: int, start: int) {
    pos == -1 || exists i :: pos < i < start && SpaceAt(text, i)
  }

  // In front of the last space before pos, or anywhere when pos is the end of the text
  ghost predicate InFront(text: string, pos: int, end: int) {
    pos == |text| || exists i :: end <= i < pos && SpaceAt(text, i)
  }

  // The first word behind the next space; nothing exactly if there is none
  method FindNextWord(propertyValue: string, position: int) returns (selection: Option<(nat, nat)>)
    requires position >= -1
    ensures match selection
      case Some(w) =>
        && Word(propertyValue, w.0, w.1) && Behind(propertyValue, position, w.0)
        && forall s, e :: Word(propertyValue, s, e) && Behind(propertyValue, position, s) ==> w.0 <= s
      case None => forall s, e :: Word(propertyValue, s, e) ==> !Behind(propertyValue, position, s)
  {
    var pos := position;
    var foundSpace := pos == -1;
    var foundStart, foundEnd := false, false;
    var newSelectionStart, newSelectionEnd := 0, 0;
    while pos < |propertyValue| - 1 && !foundEnd
      invariant position <= pos && (pos < |propertyValue| || pos == position)
      invariant !foundSpace ==> !foundStart && position != -1 && forall i :: position < i <= pos ==> !SpaceAt(propertyValue, i)
      invariant foundSpace ==> position == -1 || exists i :: position < i <= pos && SpaceAt(propertyValue, i)
      invariant foundSpace && !foundStart ==>
        forall s, e :: Word(propertyValue, s, e) && Behind(propertyValue, position, s) ==> pos < s
      invariant foundSpace && !foundStart && pos >= 0 ==> SpaceAt(propertyValue, pos)
      invariant foundEnd ==> foundStart
      invariant foundStart ==>
        && 0 <= newSelectionStart <= pos && Behind(propertyValue, position, newSelectionStart)
        && (newSelectionStart == 0 || SpaceAt(propertyValue, newSelectionStart - 1))
        && (forall s, e :: Word(propertyValue, s, e) && Behind(propertyValue, position, s) ==> newSelectionStart <= s)
        && (forall i :: newSelectionStart <= i < (if foundEnd then newSelectionEnd else pos + 1) ==> !SpaceAt(propertyValue, i))
      invariant foundEnd ==> newSelectionStart < newSelectionEnd <= |propertyValue| && SpaceAt(propertyValue, newSelectionEnd)
    {
      pos := pos + 1;
      if !foundSpace {
        if SpaceAt(propertyValue, pos) {
          foundSpace := true;
        }
        continue;
      }
      if foundSpace && !foundStart && SpaceAt(propertyValue, pos) {
        continue;
      }
      if !foundStart {
        newSelectionStart := pos;
        foundStart := true;
        continue;
      }
      if SpaceAt(propertyValue, pos) {
        newSelectionEnd := pos;
        foundEnd := true;
      }
    }
    if foundStart && !foundEnd {
      newSelectionEnd := |propertyValue|;
    }
    selection := if foundStart then Some((newSelectionStart, newSelectionEnd)) else None;
  }

  // The last word in front of the last space.  With such a space, or from the end of the text, but
  // without such a word the selection is the empty one at the start.
  method FindPrevWord(propertyValue: string, position: int) returns (selection: Option<(nat, nat)>)
    requires position >= -1
    ensures match selection
      case Some(w) =>
        if w.1 > 0 then
          && Word(propertyValue, w.0, w.1) && InFront(propertyValue, position, w.1)
          && forall s, e :: Word(propertyValue, s, e) && InFront(propertyValue, position, e) ==> e <= w.1
        else
          && w.0 == 0 && InFront(propertyValue, position, 0)
          && forall s, e :: Word(propertyValue, s, e) ==> !InFront(propertyValue, position, e)
      case None => !InFront(propertyValue, position, 0)
  {
    var pos := position;
    var foundSpace := pos == |propertyValue|;
    var foundStart, foundEnd := false, false;
    var newSelectionStart, newSelectionEnd := 0, 0;
    while pos > -1 && !foundStart
      invariant -1 <= pos <= position
      invariant !foundSpace ==> !foundEnd && position != |propertyValue| && forall i :: pos <= i < position ==> !SpaceAt(propertyValue, i)
      invariant foundSpace ==> InFront(propertyValue, position, if pos < 0 then 0 else pos)
      invariant foundSpace && !foundEnd ==> pos >= 0 && (pos == position || SpaceAt(propertyValue, pos))
      invariant foundSpace && !foundEnd ==>
        forall s, e :: Word(propertyValue, s, e) && InFront(propertyValue, position, e) ==> e <= pos
      invariant foundStart ==> foundEnd
      invariant foundEnd ==>
        && foundSpace && 0 <= newSelectionEnd <= |propertyValue| && InFront(propertyValue, position, newSelectionEnd)
        && (newSelectionEnd == |propertyValue| || SpaceAt(propertyValue, newSelectionEnd))
        && (forall s, e :: Word(propertyValue, s, e) && InFront(propertyValue, position, e) ==> e <= newSelectionEnd)
        && (forall i :: (if foundStart then newSelectionStart else pos) <= i < newSelectionEnd ==> !SpaceAt(propertyValue, i))
        && (newSelectionEnd == 0 ==> pos == -1) && pos < newSelectionEnd
      invariant foundStart ==> 0 < newSelectionStart < newSelectionEnd && SpaceAt(propertyValue, newSelectionStart - 1)
    {
      pos := pos - 1;
      if !foundSpace {
        if SpaceAt(propertyValue, pos) {
          foundSpace := true;
        }
        continue;
      }
      if foundSpace && !foundEnd && SpaceAt(propertyValue, pos) {
        continue;
      }
      if !foundEnd {
        newSelectionEnd := pos + 1;
        foundEnd := true;
        continue;
      }
      if SpaceAt(propertyValue, pos) {
        newSelectionStart := pos + 1;
        foundStart := true;
      }
    }
    if foundEnd && !foundStart {
      newSelectionStart := 0;
    }
    selection := if foundEnd then Some((newSelectionStart, newSelectionEnd)) else None;
  }
}
