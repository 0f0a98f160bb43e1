// What nextItemHTML and prevItemHTML select in an HTML document
// (extensions/emmet/src/selectItemHTML.ts:10-118), told by where the tag names are in the text.

module ItemSelections {
  import opened Options
  import opened FlatNodes
  import opened ItemNavigation

  // ----- the elements in reading order -----

  // The selection of the i-th element in reading order
  ghost function SelectionAt(root: Node, i: nat): Option<Selection>
    requires TidyDocument(root) && i < |Preorder(root)|
  {
    PreorderComplete(root, Preorder(root)[i]);
    SelectionOf(At(root, Preorder(root)[i]))
  }

  ghost predicate SelectedAt(root: Node, i: nat, selection: Selection) {
    TidyDocument(root) && i < |Preorder(root)| && SelectionAt(root, i) == Some(selection)
  }

  lemma ReadBefore(root: Node, i: nat)
    requires TidyDocument(root) && i < |Preorder(root)|
    ensures var p := Preorder(root)[i]; p != [] && IsPath(root, p) && Before(root, p) == Preorder(root)[..i]
  {
    var order := Preorder(root);
    var p := order[i];
    PreorderComplete(root, p);
    PreorderSplit(root, p);
    var before, after := Before(root, p), PreFrom(At(root, p), p, 0) + After(root, p);
    assert order == before + ([p] + after);
    assert order[|before|] == p;
    assert |before| == i;
  }

  // Neighbours in reading order are what the two searches look for.
  lemma PreorderNeighbours(root: Node, i: nat)
    requires TidyDocument(root) && i < |Preorder(root)|
    ensures var order := Preorder(root); var p := order[i];
      && p != [] && IsPath(root, p) && At(root, p).kind.Element?
      && First(PreFrom(At(root, p), p, 0) + After(root, p)) == (if i + 1 < |order| then Some(order[i + 1]) else None)
      && Previous(root, p) == (if i > 0 then Some(order[i - 1]) else Some([]))
  {
    var order := Preorder(root);
    var p := order[i];
    PreorderComplete(root, p);
    PreorderSplit(root, p);
    var before, after := Before(root, p), PreFrom(At(root, p), p, 0) + After(root, p);
    assert order == before + ([p] + after);
    assert order[|before|] == p;
    assert |before| == i;
  }

  ghost predicate IsElement(root: Node, p: Path) {
    p != [] && IsPath(root, p) && At(root, p).kind.Element?
  }

  lemma ElementTidy(root: Node, p: Path)
    requires TidyDocument(root) && IsElement(root, p)
    ensures var node := At(root, p);
      && SelectionOf(node).Some? && node.open.Some? && node.open.value.start == node.start
      && node.start < SelectionOf(node).value.start <= SelectionOf(node).value.end < node.open.value.end <= node.end
      && forall k :: 0 <= k < |node.children| ==> node.open.value.end <= node.children[k].start
  {
    NodeTidy(root, p);
    DescendantInside(root, p);
  }

  lemma {:induction false} UpToMembers(node: Node, path: Path, k: nat, x: Path) returns (j: nat)
    requires k <= |node.children| && x in PreUpTo(node, path, k)
    ensures j < k && path + [j] <= x
  {
    if x in PreUpTo(node, path, k - 1) {
      j := UpToMembers(node, path, k - 1, x);
    } else {
      j := k - 1;
      SubtreeMembers(node.children[j], path + [j]);
    }
  }

  lemma InChildOf(root: Node, q: Path, j: nat, x: Path)
    requires TidyDocument(root) && IsPath(root, x) && q + [j] <= x
    ensures IsPath(root, q) && j < |At(root, q).children|
    ensures At(root, q).children[j].start <= At(root, x).start && At(root, x).end <= At(root, q).children[j].end
  {
    var rest := x[|q| + 1..];
    assert x == (q + [j]) + rest && x == q + ([j] + rest);
    UpperPath(root, q, [j] + rest);
    PathAppend(root, q, [j] + rest);
    ChildPath(At(root, q), j);
    PathAppend(At(root, q), [j], rest);
    DescendantInside(root, q);
    DescendantInside(At(root, q).children[j], rest);
  }

  lemma {:induction false} UpperPath(node: Node, p: Path, rest: Path)
    requires IsPath(node, p + rest)
    ensures IsPath(node, p)
    decreases |p|
  {
    if p != [] {
      assert (p + rest)[1..] == p[1..] + rest;
      UpperPath(node.children[p[0]], p[1..], rest);
    }
  }

  // The names of the elements that are read before a node end before it starts.
  lemma {:induction false} NamesBefore(root: Node, p: Path, x: Path)
    requires TidyDocument(root) && IsPath(root, p) && x in Before(root, p) && IsElement(root, x)
    ensures SelectionOf(At(root, x)).Some? && SelectionOf(At(root, x)).value.end <= At(root, p).start
    decreases |p|
  {
    hide TidyDocument, At, IsPath, PreUpTo, SelectionOf;
    var q, k := LastStep(root, p);
    BeforeAt(root, q, k);
    SiblingPath(root, q, k);
    ElementTidy(root, x);
    DocumentInside(root, q);
    if x in PreUpTo(At(root, q), q, k) {
      var j := UpToMembers(At(root, q), q, k, x);
      InChildOf(root, q, j, x);
      assert At(root, q).children[j].end <= At(root, q).children[k].start by { SiblingsApart(root, q, j, k); }
    } else if x in Before(root, q) {
      NamesBefore(root, q, x);
    } else {
      assert x == q;
    }
  }

  lemma SiblingsApart(root: Node, q: Path, j: nat, k: nat)
    requires TidyDocument(root) && IsPath(root, q) && j < k < |At(root, q).children|
    ensures At(root, q).children[j].end <= At(root, q).children[k].start
  {
    DescendantInside(root, q);
  }

  lemma DocumentInside(root: Node, q: Path)
    requires TidyDocument(root) && IsPath(root, q)
    ensures forall k :: 0 <= k < |At(root, q).children| ==> At(root, q).start <= At(root, q).children[k].start
  {
    DescendantInside(root, q);
  }

  // An element that is not read before p, is not p, and is not below it is read after it.
  lemma {:induction false} NamesAfter(root: Node, p: Path, x: Path)
    requires TidyDocument(root) && IsPath(root, p) && x in After(root, p) && IsElement(root, x)
    ensures At(root, p).end <= At(root, x).start
    decreases |p|
  {
    hide TidyDocument, At, IsPath, PreFrom;
    var q, k := LastStep(root, p);
    AfterAt(root, q, k);
    SiblingPath(root, q, k);
    if x in PreFrom(At(root, q), q, k + 1) {
      PreFromMembers(At(root, q), q, k + 1);
      var j := x[|q|];
      assert q + [j] <= x;
      InChildOf(root, q, j, x);
      SiblingsApart(root, q, k, j);
    } else {
      NamesAfter(root, q, x);
      ChildEnds(root, q, k);
    }
  }

  lemma ChildEnds(root: Node, q: Path, k: nat)
    requires TidyDocument(root) && IsPath(root, q) && k < |At(root, q).children|
    ensures At(root, q).children[k].end <= At(root, q).end
  {
    DescendantInside(root, q);
  }

  // The name of the element at p ends behind the cursor, and starts before it.
  ghost predicate EndsBehind(root: Node, p: Path, offset: nat) {
    IsElement(root, p) && SelectionOf(At(root, p)).Some? && offset < SelectionOf(At(root, p)).value.end
  }

  ghost predicate StartsBefore(root: Node, p: Path, offset: nat) {
    IsElement(root, p) && SelectionOf(At(root, p)).Some? && SelectionOf(At(root, p)).value.start < offset
  }

  // The first of the names that end behind the cursor
  ghost predicate FirstName(root: Node, offset: nat, next: Option<Path>) {
    match next
    case None => forall y :: !EndsBehind(root, y, offset)
    case Some(x) => EndsBehind(root, x, offset) && forall y :: EndsBehind(root, y, offset) ==> At(root, x).start <= At(root, y).start
  }

  // The last of the names that start before the cursor; the root stands for none.
  ghost predicate LastName(root: Node, offset: nat, prev: Option<Path>) {
    match prev
    case None => false
    case Some(x) =>
      if x == [] then forall y :: !StartsBefore(root, y, offset)
      else StartsBefore(root, x, offset) && forall y :: StartsBefore(root, y, offset) ==> At(root, y).start <= At(root, x).start
  }

  lemma ReadInOrder(root: Node, i: nat, j: nat)
    requires TidyDocument(root) && i < j < |Preorder(root)|
    ensures IsElement(root, Preorder(root)[i]) && IsElement(root, Preorder(root)[j])
    ensures At(root, Preorder(root)[i]).start < At(root, Preorder(root)[j]).start
  {
    hide TidyDocument, At, IsPath, Preorder, SelectionOf, Before, After, PreFrom;
    var x, y := Preorder(root)[i], Preorder(root)[j];
    PreorderComplete(root, x);
    PreorderComplete(root, y);
    ReadBefore(root, j);
    assert x in Before(root, y);
    NamesBefore(root, y, x);
    ElementTidy(root, x);
  }

  // The order of reading in two parts, the first with the names that end before the cursor
  lemma FirstOfRest(root: Node, a: seq<Path>, b: seq<Path>, offset: nat)
    requires TidyDocument(root) && Preorder(root) == a + b
    requires forall x :: x in a ==> !EndsBehind(root, x, offset)
    requires b != [] ==> EndsBehind(root, b[0], offset)
    ensures FirstName(root, offset, First(b))
  {
    hide TidyDocument, At, IsPath, Preorder, SelectionOf;
    forall y | EndsBehind(root, y, offset)
      ensures b != [] && At(root, b[0]).start <= At(root, y).start
    {
      PreorderComplete(root, y);
      var j :| 0 <= j < |a + b| && (a + b)[j] == y;
      assert j >= |a|;
      if j > |a| {
        ReadInOrder(root, |a|, j);
      }
    }
  }

  lemma LastOfFirst(root: Node, a: seq<Path>, b: seq<Path>, offset: nat)
    requires TidyDocument(root) && Preorder(root) == a + b
    requires a != [] ==> StartsBefore(root, a[|a| - 1], offset)
    requires forall x :: x in b ==> !StartsBefore(root, x, offset)
    ensures LastName(root, offset, if a == [] then Some([]) else Last(a))
  {
    hide TidyDocument, At, IsPath, Preorder, SelectionOf;
    forall y | StartsBefore(root, y, offset)
      ensures a != [] && At(root, y).start <= At(root, a[|a| - 1]).start
    {
      PreorderComplete(root, y);
      var j :| 0 <= j < |a + b| && (a + b)[j] == y;
      assert j < |a|;
      if j < |a| - 1 {
        ReadInOrder(root, j, |a| - 1);
      }
    }
  }

  // ----- reading on from a node -----

  lemma PreorderAroundComment(root: Node, p: Path)
    requires TidyDocument(root) && IsPath(root, p) && p != [] && At(root, p).kind.Comment?
    ensures Preorder(root) == Before(root, p) + After(root, p)
  {
    hide TidyDocument, At, IsPath, Preorder, PreFrom, PreUpTo, Before, After;
    var q, k := LastStep(root, p);
    var parent := At(root, q);
    SiblingPath(root, q, k);
    PreSplit(parent, q, k);
    PreFromNext(parent, q, k);
    BeforeAt(root, q, k);
    AfterAt(root, q, k);
    RootParts(root);
    var early, later := PreUpTo(parent, q, k), PreFrom(parent, q, k + 1);
    if q == [] {
      assert [] + [] + early == early && later + [] == later;
    } else {
      ParentElement(root, p);
      assert Parent(p) == q;
      PreorderSplit(root, q);
      assert Before(root, q) + ([q] + ((early + later) + After(root, q))) == (Before(root, q) + [q] + early) + (later + After(root, q));
    }
  }

  lemma PreorderInside(root: Node, p: Path, k: nat)
    requires TidyDocument(root) && IsElement(root, p) && k <= |At(root, p).children|
    ensures Preorder(root) == (Before(root, p) + [p] + PreUpTo(At(root, p), p, k)) + (PreFrom(At(root, p), p, k) + After(root, p))
  {
    hide TidyDocument, At, IsPath, Preorder, PreFrom, PreUpTo, Before, After;
    PreorderSplit(root, p);
    PreSplit(At(root, p), p, k);
    var a, b, c, d := Before(root, p), PreUpTo(At(root, p), p, k), PreFrom(At(root, p), p, k), After(root, p);
    assert a + ([p] + ((b + c) + d)) == (a + [p] + b) + (c + d);
  }

  // What is read before a node that contains the cursor has its names before the cursor, and what is
  // read after it has them behind.
  lemma AroundNode(root: Node, p: Path, offset: nat, x: Path)
    requires TidyDocument(root) && IsPath(root, p) && At(root, p).start < offset < At(root, p).end && IsElement(root, x)
    ensures x in Before(root, p) ==> !EndsBehind(root, x, offset) && StartsBefore(root, x, offset)
    ensures x in After(root, p) ==> EndsBehind(root, x, offset) && !StartsBefore(root, x, offset)
  {
    hide TidyDocument, At, IsPath, Before, After;
    ElementTidy(root, x);
    if x in Before(root, p) {
      NamesBefore(root, p, x);
    }
    if x in After(root, p) {
      NamesAfter(root, p, x);
    }
  }

  lemma AroundParts(root: Node, p: Path, offset: nat)
    requires TidyDocument(root) && IsPath(root, p) && p != [] && At(root, p).start < offset < At(root, p).end
    ensures forall x :: x in Before(root, p) ==> !EndsBehind(root, x, offset) && StartsBefore(root, x, offset)
    ensures forall x :: x in After(root, p) ==> EndsBehind(root, x, offset) && !StartsBefore(root, x, offset)
  {
    hide TidyDocument, At, IsPath, Before, After, EndsBehind, StartsBefore;
    forall x | x in Before(root, p) || x in After(root, p)
      ensures x in Before(root, p) ==> !EndsBehind(root, x, offset) && StartsBefore(root, x, offset)
      ensures x in After(root, p) ==> EndsBehind(root, x, offset) && !StartsBefore(root, x, offset)
    {
      ReadAround(root, p, x);
      AroundNode(root, p, offset, x);
    }
  }

  lemma ReadAround(root: Node, p: Path, x: Path)
    requires TidyDocument(root) && IsPath(root, p) && p != [] && (x in Before(root, p) || x in After(root, p))
    ensures IsElement(root, x)
  {
    hide TidyDocument, At, IsPath, Before, After, Preorder;
    if At(root, p).kind.Comment? {
      PreorderAroundComment(root, p);
    } else {
      PreorderSplit(root, p);
    }
    PreorderComplete(root, x);
  }

  // An element below the first children, or below the others
  lemma BelowChildren(root: Node, p: Path, k: nat, x: Path) returns (j: nat)
    requires TidyDocument(root) && IsElement(root, p) && k <= |At(root, p).children|
    requires x in PreUpTo(At(root, p), p, k) || x in PreFrom(At(root, p), p, k)
    ensures IsElement(root, x) && j < |At(root, p).children| && At(root, p).children[j].kind.Element?
    ensures if x in PreUpTo(At(root, p), p, k) then j < k else k <= j
    ensures At(root, p).children[j].start <= At(root, x).start && At(root, x).end <= At(root, p).children[j].end
  {
    hide TidyDocument, At, IsPath, Before, After, Preorder, PreUpTo, PreFrom;
    PreorderInside(root, p, k);
    PreorderComplete(root, x);
    if x in PreUpTo(At(root, p), p, k) {
      j := UpToMembers(At(root, p), p, k, x);
    } else {
      PreFromMembers(At(root, p), p, k);
      j := x[|p|];
      assert p + [j] <= x;
    }
    InChildOf(root, p, j, x);
    CommentHasNone(root, p, j, x);
  }

  lemma CommentHasNone(root: Node, p: Path, j: nat, x: Path)
    requires TidyDocument(root) && IsElement(root, p) && IsElement(root, x) && j < |At(root, p).children| && p + [j] <= x
    ensures At(root, p).children[j].kind.Element?
  {
    SiblingPath(root, p, j);
    NodeTidy(root, p + [j]);
    var rest := x[|p| + 1..];
    assert x == (p + [j]) + rest;
    PathAppend(root, p + [j], rest);
  }

  // ----- the next item -----

  lemma NamesUpTo(root: Node, p: Path, offset: nat, k: nat)
    requires TidyDocument(root) && IsElement(root, p) && k <= |At(root, p).children|
    requires forall j :: 0 <= j < k ==> !ElementBehind(At(root, p), j, offset)
    ensures forall x :: x in PreUpTo(At(root, p), p, k) ==> !EndsBehind(root, x, offset)
  {
    hide TidyDocument, At, IsPath, PreUpTo;
    forall x | x in PreUpTo(At(root, p), p, k)
      ensures !EndsBehind(root, x, offset)
    {
      var j := BelowChildren(root, p, k, x);
      ElementTidy(root, x);
      assert !ElementBehind(At(root, p), j, offset);
    }
  }

  // The cursor is in the node at p, behind its name and in no child.
  ghost predicate BehindName(root: Node, p: Path, offset: nat) {
    && IsElement(root, p) && At(root, p).start < offset < At(root, p).end && !EndsBehind(root, p, offset)
    && forall k :: 0 <= k < |At(root, p).children| ==> !Contains(At(root, p).children[k], offset, false)
  }

  lemma NextInside(root: Node, p: Path, offset: nat, k: nat)
    requires TidyDocument(root) && BehindName(root, p, offset) && FirstBehind(At(root, p), k, offset)
    ensures FirstName(root, offset, Some(p + [k]))
  {
    hide TidyDocument, At, IsPath, Preorder, PreFrom, PreUpTo, Before, After, FirstName, EndsBehind, StartsBefore;
    var node := At(root, p);
    AroundParts(root, p, offset);
    PreorderInside(root, p, k);
    NamesUpTo(root, p, offset, k);
    PreFromNext(node, p, k);
    SiblingPath(root, p, k);
    ElementTidy(root, p + [k]);
    assert EndsBehind(root, p + [k], offset) by {
      assert !Contains(node.children[k], offset, false);
      NameBehind(root, p + [k], offset);
    }
    var a, b := Before(root, p) + [p] + PreUpTo(node, p, k), PreFrom(node, p, k) + After(root, p);
    assert First(PreFrom(node, p, k)) == Some(p + [k]);
    FirstOfRest(root, a, b, offset);
  }

  lemma NameBehind(root: Node, p: Path, offset: nat)
    requires TidyDocument(root) && IsElement(root, p) && offset < At(root, p).end && !Contains(At(root, p), offset, false)
    ensures EndsBehind(root, p, offset) && !StartsBefore(root, p, offset)
  {
    hide TidyDocument, At, IsPath;
    ElementTidy(root, p);
  }

  lemma NextBehind(root: Node, p: Path, offset: nat)
    requires TidyDocument(root) && BehindName(root, p, offset)
    requires forall k :: 0 <= k < |At(root, p).children| ==> !ElementBehind(At(root, p), k, offset)
    ensures FirstName(root, offset, First(After(root, p)))
  {
    hide TidyDocument, At, IsPath, Preorder, PreUpTo, Before, After, FirstName, EndsBehind, StartsBefore;
    var node := At(root, p);
    var n := |node.children|;
    AroundParts(root, p, offset);
    PreorderInside(root, p, n);
    NamesUpTo(root, p, offset, n);
    assert PreFrom(node, p, n) + After(root, p) == After(root, p);
    FirstOfRest(root, Before(root, p) + [p] + PreUpTo(node, p, n), After(root, p), offset);
  }

  // In front of the end of its name the element itself is the first.
  lemma OwnNameFirst(root: Node, p: Path, offset: nat)
    requires TidyDocument(root) && IsElement(root, p) && At(root, p).start < offset < At(root, p).end && EndsBehind(root, p, offset)
    ensures FirstName(root, offset, Some(p))
  {
    hide TidyDocument, At, IsPath, Preorder, PreFrom, Before, After, FirstName, EndsBehind, StartsBefore;
    AroundParts(root, p, offset);
    PreorderSplit(root, p);
    var b := [p] + (PreFrom(At(root, p), p, 0) + After(root, p));
    FirstOfRest(root, Before(root, p), b, offset);
    assert First(b) == Some(p);
  }

  lemma NextInElement(root: Node, p: Path, offset: nat, next: Option<Path>)
    requires TidyDocument(root) && IsElement(root, p) && At(root, p).start < offset < At(root, p).end
    requires forall j :: 0 <= j < |At(root, p).children| ==> !Contains(At(root, p).children[j], offset, false)
    requires NextFrom(root, p, offset, next)
    ensures FirstName(root, offset, next)
  {
    hide TidyDocument, At, IsPath, Preorder, FirstName, ElementBehind, First, After, Contains;
    ElementTidy(root, p);
    if EndsBehind(root, p, offset) {
      OwnNameFirst(root, p, offset);
    } else if exists k: nat :: FirstBehind(At(root, p), k, offset) && next == Some(p + [k]) {
      var k: nat :| FirstBehind(At(root, p), k, offset) && next == Some(p + [k]);
      NextInside(root, p, offset, k);
    } else {
      NextBehind(root, p, offset);
    }
  }

  lemma NestedCursor(root: Node, p: Path, offset: nat)
    requires TidyDocument(root) && GetFlatNode(root, offset, false) == Some(p)
    ensures p != [] && IsPath(root, p) && At(root, p).start < offset < At(root, p).end
    ensures forall j :: 0 <= j < |At(root, p).children| ==> !Contains(At(root, p).children[j], offset, false)
  {
    LookupFinds(root, offset, false);
  }

  // From wherever the cursor is in a node, the next item is the first of those whose name ends behind
  // the cursor.
  lemma NextIsFirstName(root: Node, p: Path, offset: nat, next: Option<Path>)
    requires TidyDocument(root) && GetFlatNode(root, offset, false) == Some(p) && IsPath(root, p)
    requires NextFrom(root, p, offset, next)
    ensures FirstName(root, offset, next)
  {
    hide TidyDocument, At, IsPath, Preorder, Before, After, GetFlatNode, FirstName, EndsBehind, StartsBefore;
    NestedCursor(root, p, offset);
    if At(root, p).kind.Comment? {
      AroundParts(root, p, offset);
      PreorderAroundComment(root, p);
      FirstOfRest(root, Before(root, p), After(root, p), offset);
    } else {
      NextInElement(root, p, offset, next);
    }
  }

  // ----- the previous item -----

  // Only comments lie between the open tag and the cursor.
  ghost predicate OnlyComments(node: Node, offset: nat) {
    && node.kind.Element? && node.open.Some? && node.open.value.end <= offset
    && node.children != [] && node.children[0].start < offset
    && forall k :: 0 <= k < |node.children| && node.children[k].end <= offset ==> node.children[k].kind.Comment?
  }

  lemma {:induction false} NoneUpTo(node: Node, path: Path, k: nat)
    requires k <= |node.children|
    ensures PreUpTo(node, path, k) == [] <==> forall j :: 0 <= j < k ==> node.children[j].kind.Comment?
  {
    if k > 0 {
      NoneUpTo(node, path, k - 1);
    }
  }

  lemma BeforeIsLast(root: Node, p: Path, offset: nat, b: seq<Path>)
    requires TidyDocument(root) && IsPath(root, p) && p != [] && At(root, p).start < offset < At(root, p).end
    requires Preorder(root) == Before(root, p) + b && forall x :: x in b ==> !StartsBefore(root, x, offset)
    ensures LastName(root, offset, Previous(root, p))
  {
    hide TidyDocument, At, IsPath, Preorder, Before, After, LastName, EndsBehind, StartsBefore;
    AroundParts(root, p, offset);
    LastOfFirst(root, Before(root, p), b, offset);
  }

  // Behind the name and in front of all children: the element itself
  lemma OwnPartIsLast(root: Node, p: Path, offset: nat)
    requires TidyDocument(root) && IsElement(root, p) && At(root, p).start < offset < At(root, p).end
    requires forall k :: 0 <= k < |At(root, p).children| ==> offset <= At(root, p).children[k].start
    ensures StartsBefore(root, p, offset) ==> LastName(root, offset, Some(p))
    ensures !StartsBefore(root, p, offset) ==> LastName(root, offset, Previous(root, p))
  {
    hide TidyDocument, At, IsPath, Preorder, PreFrom, Before, After, LastName, EndsBehind, StartsBefore, Previous;
    var node := At(root, p);
    AroundParts(root, p, offset);
    var a, c, d := Before(root, p), PreFrom(node, p, 0), After(root, p);
    PreorderSplit(root, p);
    NamesFrom(root, p, offset, 0);
    if StartsBefore(root, p, offset) {
      assert a + ([p] + (c + d)) == (a + [p]) + (c + d);
      LastOfFirst(root, a + [p], c + d, offset);
    } else {
      BeforeIsLast(root, p, offset, [p] + (c + d));
    }
  }

  lemma NamesFrom(root: Node, p: Path, offset: nat, k: nat)
    requires TidyDocument(root) && IsElement(root, p) && k <= |At(root, p).children|
    requires forall j :: k <= j < |At(root, p).children| ==> offset <= At(root, p).children[j].start
    ensures forall x :: x in PreFrom(At(root, p), p, k) ==> !StartsBefore(root, x, offset)
  {
    hide TidyDocument, At, IsPath, PreUpTo, PreFrom;
    forall x | x in PreFrom(At(root, p), p, k)
      ensures !StartsBefore(root, x, offset)
    {
      var j := AmongLater(root, p, k, x);
      ElementTidy(root, x);
    }
  }

  lemma AmongLater(root: Node, p: Path, k: nat, x: Path) returns (j: nat)
    requires TidyDocument(root) && IsElement(root, p) && k <= |At(root, p).children| && x in PreFrom(At(root, p), p, k)
    ensures IsElement(root, x) && k <= j < |At(root, p).children| && At(root, p).children[j].start <= At(root, x).start
  {
    hide TidyDocument, At, IsPath, Preorder, PreUpTo, PreFrom;
    PreorderInside(root, p, k);
    PreorderComplete(root, x);
    PreFromMembers(At(root, p), p, k);
    j := x[|p|];
    assert p + [j] <= x;
    InChildOf(root, p, j, x);
  }

  // Behind the k-th child and in front of the next: the last element below the children up to the k-th
  lemma ChildIsLast(root: Node, p: Path, offset: nat, k: nat)
    requires TidyDocument(root) && IsElement(root, p) && At(root, p).start < offset < At(root, p).end
    requires k <= |At(root, p).children| && PreUpTo(At(root, p), p, k) != []
    requires forall j :: 0 <= j < k ==> At(root, p).children[j].end <= offset
    requires forall j :: k <= j < |At(root, p).children| ==> offset <= At(root, p).children[j].start
    ensures LastName(root, offset, Last(PreUpTo(At(root, p), p, k)))
  {
    hide TidyDocument, At, IsPath, Preorder, PreFrom, PreUpTo, Before, After, LastName, EndsBehind;
    var node := At(root, p);
    AroundParts(root, p, offset);
    PreorderInside(root, p, k);
    NamesFrom(root, p, offset, k);
    var early := PreUpTo(node, p, k);
    var a, b := Before(root, p) + [p] + early, PreFrom(node, p, k) + After(root, p);
    var last := early[|early| - 1];
    var j := BelowChildren(root, p, k, last);
    ElementTidy(root, last);
    assert a[|a| - 1] == last && StartsBefore(root, last, offset);
    LastOfFirst(root, a, b, offset);
  }

  // The cursor is behind the children up to the k-th and in front of the others.
  lemma BetweenChildren(root: Node, p: Path, offset: nat, k: nat)
    requires TidyDocument(root) && IsElement(root, p) && EndBefore(At(root, p).children, k, offset)
    requires At(root, p).children[0].start < offset
    requires forall j :: 0 <= j < |At(root, p).children| ==> !Contains(At(root, p).children[j], offset, false)
    ensures forall j :: 0 <= j <= k ==> At(root, p).children[j].end <= offset
    ensures forall j :: k < j < |At(root, p).children| ==> offset <= At(root, p).children[j].start && offset < At(root, p).children[j].end
  {
    hide TidyDocument, At, IsPath;
    forall j | k < j < |At(root, p).children|
      ensures offset <= At(root, p).children[j].start && offset < At(root, p).children[j].end
    {
      ChildFull(root, p, j);
      if k + 1 < j {
        SiblingsApart(root, p, k + 1, j);
      }
      assert !Contains(At(root, p).children[k + 1], offset, false);
    }
    assert !Contains(At(root, p).children[0], offset, false);
  }

  lemma ChildFull(root: Node, p: Path, j: nat)
    requires TidyDocument(root) && IsPath(root, p) && j < |At(root, p).children|
    ensures At(root, p).children[j].start <= At(root, p).children[j].end
  {
    DescendantInside(root, p);
  }

  // What is read before an element is not the last name before a cursor behind its own.
  lemma EarlierNotLast(root: Node, p: Path, offset: nat)
    requires TidyDocument(root) && StartsBefore(root, p, offset)
    ensures !LastName(root, offset, Previous(root, p))
  {
    hide TidyDocument, At, IsPath, Before, SelectionOf, Preorder;
    var prev := Previous(root, p);
    if prev.Some? && prev.value != [] {
      ReadAround(root, p, prev.value);
      NamesBefore(root, p, prev.value);
      ElementTidy(root, prev.value);
    }
  }

  // From wherever a cursor is in a node, the previous item is the last of those whose name starts
  // before it, exactly unless only comments lie between an open tag and the cursor; then it is the one
  // read before the element of that tag.
  lemma PrevIsLastName(root: Node, p: Path, offset: nat, prev: Option<Path>)
    requires TidyDocument(root) && GetFlatNode(root, offset, false) == Some(p) && IsPath(root, p) && p != []
    requires PrevFrom(root, p, offset, offset, prev)
    ensures LastName(root, offset, prev) <==> !OnlyComments(At(root, p), offset)
    ensures OnlyComments(At(root, p), offset) ==> prev == Previous(root, p)
  {
    hide TidyDocument, At, IsPath, Preorder, PreFrom, Before, After, GetFlatNode, LastName, Previous, OnlyComments;
    NestedCursor(root, p, offset);
    if At(root, p).kind.Comment? {
      PreorderAroundComment(root, p);
      AroundParts(root, p, offset);
      BeforeIsLast(root, p, offset, After(root, p));
      CommentHasNoTag(root, p, offset);
    } else {
      PrevInElement(root, p, offset, prev);
    }
  }

  lemma CommentHasNoTag(root: Node, p: Path, offset: nat)
    requires IsPath(root, p) && At(root, p).kind.Comment?
    ensures !OnlyComments(At(root, p), offset)
  {
  }

  lemma PrevInElement(root: Node, p: Path, offset: nat, prev: Option<Path>)
    requires TidyDocument(root) && IsElement(root, p) && At(root, p).start < offset < At(root, p).end
    requires forall j :: 0 <= j < |At(root, p).children| ==> !Contains(At(root, p).children[j], offset, false)
    requires PrevFrom(root, p, offset, offset, prev)
    ensures LastName(root, offset, prev) <==> !OnlyComments(At(root, p), offset)
    ensures OnlyComments(At(root, p), offset) ==> prev == Previous(root, p)
  {
    hide TidyDocument, At, IsPath, Preorder, PreFrom, PreUpTo, Before, After, LastName, Previous;
    var node := At(root, p);
    ElementTidy(root, p);
    if offset <= node.start + 1 || InOwnPart(node, offset, offset) {
      InFrontOfChildren(root, p, offset);
      OwnPartIsLast(root, p, offset);
    } else {
      var k: nat :| EndBefore(node.children, k, offset) && prev == UpToOrBefore(root, p, k);
      BetweenChildren(root, p, offset, k);
      NoneUpTo(node, p, k + 1);
      if PreUpTo(node, p, k + 1) == [] {
        EarlierNotLast(root, p, offset);
      } else {
        ChildIsLast(root, p, offset, k + 1);
      }
    }
  }

  lemma InFrontOfChildren(root: Node, p: Path, offset: nat)
    requires TidyDocument(root) && IsElement(root, p)
    requires offset <= At(root, p).start + 1 || InOwnPart(At(root, p), offset, offset)
    ensures forall j :: 0 <= j < |At(root, p).children| ==> offset <= At(root, p).children[j].start
    ensures !OnlyComments(At(root, p), offset)
  {
    hide TidyDocument, At, IsPath;
    ElementTidy(root, p);
    forall j | 0 <= j < |At(root, p).children|
      ensures offset <= At(root, p).children[j].start
    {
      ChildFull(root, p, 0);
      if j > 0 {
        SiblingsApart(root, p, 0, j);
      }
    }
  }

  lemma OnlyNodeFound(root: Node, offset: nat)
    requires |root.children| == 1 && Contains(root.children[0], offset, false)
    requires var node := root.children[0];
      |node.children| == 1 && node.children[0].children == [] && !Contains(node.children[0], offset, false)
    ensures GetFlatNode(root, offset, false) == Some([0])
  {
    var node := root.children[0];
    assert GetFlatNodeChildren(node.children[0], 0, offset, false) == None;
    assert GetFlatNodeChild(node.children[0], offset, false) == None;
    assert GetFlatNodeChildren(node, 1, offset, false) == None;
    assert GetFlatNodeChild(node, offset, false) == Some([]);
    assert [0] + [] == [0];
  }

  lemma NothingBeforeFirst(root: Node)
    requires IsPath(root, [0])
    ensures Previous(root, [0]) == Some([])
  {
    hide At, IsPath;
    ParentPath(root, [0]);
    assert [0] == [] + [0];
    BeforeAt(root, [], 0);
  }

  // `<div> <!-- --> | </div>`: the tag is passed over.
  lemma CommentPassedOver() returns (root: Node)
    ensures TidyDocument(root) && IsPath(root, [0]) && StartsBefore(root, [0], 15)
    ensures GetFlatNode(root, 15, false) == Some([0]) && OnlyComments(At(root, [0]), 15)
    ensures Previous(root, [0]) == Some([]) && !LastName(root, 15, Previous(root, [0]))
  {
    hide Previous, LastName, GetFlatNode, At, IsPath;
    var comment := Node.Node(Comment, true, 0, 6, 14, None, None, []);
    var div := Node.Node(Element, true, 3, 0, 22, Some(Span(0, 5)), Some(Span(16, 22)), [comment]);
    root := Node.Node(Element, true, 0, 0, 22, None, None, [div]);
    assert WellNested(comment) && WellNested(div) && Tidy(comment) && Tidy(div);
    ChildPath(root, 0);
    OnlyNodeFound(root, 15);
    NothingBeforeFirst(root);
    EarlierNotLast(root, [0], 15);
  }

  // ----- what is selected -----

  ghost predicate Selects(root: Node, p: Option<Path>, r: Option<Selection>) {
    match p
    case None => r.None?
    case Some(x) => IsPath(root, x) && r == SelectionOf(At(root, x))
  }

  // nextItemHTML: the name behind a selected one, and from any cursor in the document the first name
  // that ends behind it
  method NextItem(root: Node, selection: Selection) returns (r: Option<Selection>)
    requires WellNested(root)
    ensures forall i: nat :: TidyDocument(root) && SelectedAt(root, i, selection) ==>
      r == if i + 1 < |Preorder(root)| then SelectionAt(root, i + 1) else None
    ensures TidyDocument(root) ==>
      if GetFlatNode(root, selection.end, false).None? then r.None?
      else exists next :: FirstName(root, selection.end, next) && Selects(root, next, r)
  {
    hide TidyDocument, GetFlatNode, FirstName, NextFrom;
    var next := NextNode(root, selection.start, selection.end);
    r := if next.Some? then SelectionOf(At(root, next.value)) else None;
    forall i: nat | TidyDocument(root) && SelectedAt(root, i, selection)
      ensures r == if i + 1 < |Preorder(root)| then SelectionAt(root, i + 1) else None
    {
      PreorderNeighbours(root, i);
    }
    var found := GetFlatNode(root, selection.end, false);
    if found.Some? && TidyDocument(root) {
      NextIsFirstName(root, found.value, selection.end, next);
      assert Selects(root, next, r);
    }
  }

  lemma RootHasNoName(root: Node)
    requires TidyDocument(root)
    ensures IsPath(root, []) && At(root, []) == root && SelectionOf(root).None?
  {
  }

  ghost predicate PrevAt(root: Node, p: Path, offset: nat, prev: Option<Path>)
    requires IsPath(root, p)
  {
    && (LastName(root, offset, prev) <==> !OnlyComments(At(root, p), offset))
    && (OnlyComments(At(root, p), offset) ==> prev == Previous(root, p))
  }

  // prevItemHTML: the name before a selected one, and from any cursor in the document the last name
  // that starts before it, unless only comments lie between
  method PrevItem(root: Node, selection: Selection) returns (r: Option<Selection>)
    requires WellNested(root)
    ensures forall i: nat :: TidyDocument(root) && SelectedAt(root, i, selection) ==>
      r == if i > 0 then SelectionAt(root, i - 1) else None
    ensures TidyDocument(root) && selection.start == selection.end ==>
      match GetFlatNode(root, selection.start, false)
      case None => r.None?
      case Some(p) => p != [] && IsPath(root, p) && exists prev :: Selects(root, prev, r) && PrevAt(root, p, selection.start, prev)
  {
    hide TidyDocument, GetFlatNode, LastName, OnlyComments, PrevFrom;
    var prev := PrevNode(root, selection.start, selection.end);
    r := if prev.Some? then SelectionOf(At(root, prev.value)) else None;
    forall i: nat | TidyDocument(root) && SelectedAt(root, i, selection)
      ensures r == if i > 0 then SelectionAt(root, i - 1) else None
    {
      PreorderNeighbours(root, i);
      RootHasNoName(root);
    }
    var found := GetFlatNode(root, selection.start, false);
    if found.Some? && TidyDocument(root) && selection.start == selection.end {
      NestedCursor(root, found.value, selection.start);
      PrevIsLastName(root, found.value, selection.start, prev);
      assert Selects(root, prev, r);
    }
  }

  // Selecting the next item and then the previous one comes back, and so does the other way round.
  method NextThenPrev(root: Node, selection: Selection, ghost i: nat) returns (r: Option<Selection>)
    requires TidyDocument(root) && SelectedAt(root, i, selection) && i + 1 < |Preorder(root)|
    ensures r == Some(selection)
  {
    ElementSelectable(root, i + 1);
    var next := NextItem(root, selection);
    assert SelectedAt(root, i + 1, next.value);
    r := PrevItem(root, next.value);
  }

  method PrevThenNext(root: Node, selection: Selection, ghost i: nat) returns (r: Option<Selection>)
    requires TidyDocument(root) && SelectedAt(root, i, selection) && i > 0
    ensures r == Some(selection)
  {
    ElementSelectable(root, i - 1);
    var prev := PrevItem(root, selection);
    assert SelectedAt(root, i - 1, prev.value);
    r := NextItem(root, prev.value);
  }

  lemma ElementSelectable(root: Node, i: nat)
    requires TidyDocument(root) && i < |Preorder(root)|
    ensures SelectionAt(root, i).Some?
  {
    PreorderComplete(root, Preorder(root)[i]);
    NodeTidy(root, Preorder(root)[i]);
  }
}
