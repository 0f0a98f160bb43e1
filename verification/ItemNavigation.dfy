// Selecting the next and the previous item of an HTML document
// (extensions/emmet/src/selectItemHTML.ts:10-118), for nodes without attributes.

module ItemNavigation {
  import opened Options
  import opened FlatNodes
  import opened Sequences

  // ----- documents -----

  // A closed element, or a comment; children lie between the tags.
  ghost predicate Tidy(node: Node) {
    && (node.kind.Comment? ==> node.children == [] && node.open.None?)
    && (node.kind.Element? ==>
          && node.html && node.open.Some? && node.close.Some?
          && node.open.value.start == node.start && node.start + node.nameLength + 2 <= node.open.value.end
          && node.open.value.end <= node.close.value.start <= node.close.value.end == node.end
          && (forall i :: 0 <= i < |node.children| ==>
                node.open.value.end <= node.children[i].start && node.children[i].end <= node.close.value.start))
    && (forall i :: 0 <= i < |node.children| ==> Tidy(node.children[i]))
  }

  ghost predicate TidyDocument(root: Node) {
    WellNested(root) && root.open.None? && root.kind.Element? && forall i :: 0 <= i < |root.children| ==> Tidy(root.children[i])
  }

  datatype Selection = Selection(start: nat, end: nat)

  // getSelectionFromNode: the tag name
  function SelectionOf(node: Node): Option<Selection> {
    if node.open.Some? then Some(Selection(node.open.value.start + 1, node.open.value.start + 1 + node.nameLength)) else None
  }

  // ----- the order of reading -----

  // The elements below node from its k-th child on, each before its descendants
  function PreFrom(node: Node, path: Path, k: nat): seq<Path>
    requires k <= |node.children|
    decreases node, |node.children| - k
  {
    if k == |node.children| then []
    else Subtree(node.children[k], path + [k]) + PreFrom(node, path, k + 1)
  }

  function Subtree(node: Node, path: Path): seq<Path>
    decreases node, |node.children| + 1
  {
    if node.kind.Comment? then [] else [path] + PreFrom(node, path, 0)
  }

  // The elements below node before its k-th child
  function PreUpTo(node: Node, path: Path, k: nat): seq<Path>
    requires k <= |node.children|
  {
    if k == 0 then [] else PreUpTo(node, path, k - 1) + Subtree(node.children[k - 1], path + [k - 1])
  }

  function Preorder(root: Node): seq<Path> {
    PreFrom(root, [], 0)
  }

  function Parent(p: Path): Path
    requires p != []
  {
    p[..|p| - 1]
  }

  // What is read after the subtree at p, and before p
  ghost function After(root: Node, p: Path): seq<Path>
    requires IsPath(root, p)
    decreases |p|
  {
    if p == [] then []
    else
      ParentPath(root, p);
      PreFrom(At(root, Parent(p)), Parent(p), p[|p| - 1] + 1) + After(root, Parent(p))
  }

  ghost function Before(root: Node, p: Path): seq<Path>
    requires IsPath(root, p)
    decreases |p|
  {
    if p == [] then []
    else
      ParentPath(root, p);
      Before(root, Parent(p)) + (if Parent(p) == [] then [] else [Parent(p)]) + PreUpTo(At(root, Parent(p)), Parent(p), p[|p| - 1])
  }

  lemma ParentPath(root: Node, p: Path)
    requires IsPath(root, p) && p != []
    ensures IsPath(root, Parent(p)) && p[|p| - 1] < |At(root, Parent(p)).children|
    ensures At(root, p) == At(root, Parent(p)).children[p[|p| - 1]]
    decreases |p|
  {
    if |p| > 1 {
      ParentPath(root.children[p[0]], p[1..]);
      assert Parent(p)[1..] == Parent(p[1..]);
    }
  }

  lemma SiblingPath(root: Node, q: Path, k: nat)
    requires IsPath(root, q) && k < |At(root, q).children|
    ensures IsPath(root, q + [k]) && At(root, q + [k]) == At(root, q).children[k]
    ensures Parent(q + [k]) == q
  {
    PathAppend(root, q, [k]);
    ChildPath(At(root, q), k);
  }

  lemma {:induction false} PreSplit(node: Node, path: Path, k: nat)
    requires k <= |node.children|
    ensures PreFrom(node, path, 0) == PreUpTo(node, path, k) + PreFrom(node, path, k)
  {
    if k > 0 {
      PreSplit(node, path, k - 1);
    }
  }

  // ----- every descendant of a tidy document is tidy -----

  lemma {:induction false} DescendantTidy(node: Node, p: Path)
    requires IsPath(node, p) && Tidy(node)
    ensures Tidy(At(node, p))
    decreases |p|
  {
    if p != [] {
      DescendantTidy(node.children[p[0]], p[1..]);
    }
  }

  lemma NodeTidy(root: Node, p: Path)
    requires TidyDocument(root) && IsPath(root, p) && p != []
    ensures Tidy(At(root, p))
  {
    DescendantTidy(root.children[p[0]], p[1..]);
  }

  lemma ParentElement(root: Node, p: Path)
    requires TidyDocument(root) && IsPath(root, p) && p != []
    ensures IsPath(root, Parent(p)) && At(root, Parent(p)).kind.Element?
  {
    ParentPath(root, p);
    if Parent(p) != [] {
      NodeTidy(root, Parent(p));
    }
  }

  // The order of reading splits at every element.
  lemma {:induction false} PreorderSplit(root: Node, p: Path)
    requires TidyDocument(root) && IsPath(root, p) && p != [] && At(root, p).kind.Element?
    ensures Preorder(root) == Before(root, p) + ([p] + (PreFrom(At(root, p), p, 0) + After(root, p)))
    decreases |p|
  {
    hide Before, After, PreFrom, PreUpTo, TidyDocument, IsPath, At;
    ParentPath(root, p);
    ParentElement(root, p);
    var q, k := Parent(p), p[|p| - 1];
    var parent := At(root, q);
    assert p == q + [k];
    var early, mine, later := PreUpTo(parent, q, k), [p] + PreFrom(At(root, p), p, 0), PreFrom(parent, q, k + 1);
    ReadInParent(parent, q, k);
    BeforeAt(root, q, k);
    AfterAt(root, q, k);
    if q == [] {
      Reassociate([], [], early, mine, later, []);
      RootParts(root);
    } else {
      PreorderSplit(root, q);
      Reassociate(Before(root, q), [q], early, mine, later, After(root, q));
    }
    assert mine + (later + After(root, q)) == [p] + (PreFrom(At(root, p), p, 0) + After(root, p));
  }

  lemma ReadInParent(parent: Node, q: Path, k: nat)
    requires k < |parent.children| && parent.children[k].kind.Element?
    ensures PreFrom(parent, q, 0)
      == PreUpTo(parent, q, k) + (([q + [k]] + PreFrom(parent.children[k], q + [k], 0)) + PreFrom(parent, q, k + 1))
  {
    PreSplit(parent, q, k);
  }

  lemma RootParts(root: Node)
    ensures Before(root, []) == [] && After(root, []) == [] && Preorder(root) == PreFrom(root, [], 0) && At(root, []) == root
  {
  }

  lemma Reassociate(a: seq<Path>, b: seq<Path>, c: seq<Path>, d: seq<Path>, e: seq<Path>, f: seq<Path>)
    ensures a + (b + ((c + (d + e)) + f)) == (a + b + c) + (d + (e + f))
    ensures a == [] && b == [] && f == [] ==> c + (d + e) == a + (b + ((c + (d + e)) + f))
  {
  }

  // ----- the order names each element once -----

  ghost predicate Below(x: Path, path: Path, k: nat) {
    path < x && x[|path|] >= k
  }

  lemma {:induction false} PreFromMembers(node: Node, path: Path, k: nat)
    requires k <= |node.children|
    ensures forall x :: x in PreFrom(node, path, k) ==> Below(x, path, k)
    ensures Distinct(PreFrom(node, path, k))
    decreases node, |node.children| - k
  {
    if k < |node.children| {
      SubtreeMembers(node.children[k], path + [k]);
      PreFromMembers(node, path, k + 1);
      var a, b := Subtree(node.children[k], path + [k]), PreFrom(node, path, k + 1);
      forall x | x in a
        ensures Below(x, path, k) && x[|path|] == k
      {
        assert path + [k] <= x;
        assert x[|path|] == (path + [k])[|path|];
      }
      DistinctConcat(a, b);
    }
  }

  lemma {:induction false} SubtreeMembers(node: Node, path: Path)
    ensures forall x :: x in Subtree(node, path) ==> path <= x
    ensures Distinct(Subtree(node, path))
    decreases node, |node.children| + 1
  {
    PreFromMembers(node, path, 0);
    DistinctConcat([path], PreFrom(node, path, 0));
  }

  lemma {:induction false} PreFromElements(node: Node, path: Path, k: nat, x: Path)
    requires k <= |node.children| && x in PreFrom(node, path, k)
    ensures path <= x && IsPath(node, x[|path|..]) && At(node, x[|path|..]).kind.Element?
    decreases node, |node.children| - k
  {
    if x in Subtree(node.children[k], path + [k]) {
      var child := node.children[k];
      if x != path + [k] {
        PreFromElements(child, path + [k], 0, x);
        assert x[|path|..] == [k] + x[|path + [k]|..];
        assert x[|path|..][1..] == x[|path + [k]|..];
        assert path <= x by {
          assert x[..|path + [k]|] == path + [k];
          assert x[..|path|] == path;
        }
      } else {
        ChildPath(node, k);
        assert x[|path|..] == [k];
      }
    } else {
      PreFromElements(node, path, k + 1, x);
    }
  }

  // The order of reading lists every element below the root exactly once.
  lemma PreorderComplete(root: Node, p: Path)
    requires TidyDocument(root)
    ensures p in Preorder(root) <==> p != [] && IsPath(root, p) && At(root, p).kind.Element?
    ensures Distinct(Preorder(root))
  {
    PreFromMembers(root, [], 0);
    if p in Preorder(root) {
      PreFromElements(root, [], 0, p);
      assert p[0..] == p;
      assert Below(p, [], 0);
    }
    if p != [] && IsPath(root, p) && At(root, p).kind.Element? {
      PreorderSplit(root, p);
    }
  }

  // ----- selecting -----

  // The name in the open tag of the element at p is selected.
  ghost predicate NameSelected(root: Node, p: Path, selectionStart: nat, selectionEnd: nat) {
    && p != [] && IsPath(root, p) && At(root, p).kind.Element?
    && SelectionOf(At(root, p)) == Some(Selection(selectionStart, selectionEnd))
  }

  // With a name selected, either end of the selection is looked up to that element.
  lemma SelectedNodeFound(root: Node, p: Path, offset: nat)
    requires TidyDocument(root) && p != [] && IsPath(root, p) && At(root, p).kind.Element?
    requires At(root, p).start < offset <= At(root, p).start + 1 + At(root, p).nameLength
    ensures GetFlatNode(root, offset, false) == Some(p)
  {
    NodeTidy(root, p);
    var node := At(root, p);
    assert Hit(root, p, offset, false);
    LookupDeepest(root, p, offset);
    LookupFinds(root, offset, false);
    var q := GetFlatNode(root, offset, false).value;
    if p != q {
      var k, rest := q[|p|], q[|p| + 1..];
      assert q == p + ([k] + rest);
      PathAppend(root, p, [k] + rest);
      DescendantInside(root, p);
      PathAppend(node, [k], rest);
      ChildPath(node, k);
      DescendantInside(node.children[k], rest);
    }
  }

  function NextSibling(root: Node, p: Path): (r: Option<Path>)
    requires IsPath(root, p)
    ensures r.Some? ==> IsPath(root, r.value) && r.value != []
  {
    hide At, IsPath;
    if p == [] then None
    else
      ParentPath(root, p);
      var q, k := Parent(p), p[|p| - 1];
      if k + 1 < |At(root, q).children| then SiblingPath(root, q, k + 1); Some(q + [k + 1]) else None
  }

  function PreviousSibling(root: Node, p: Path): (r: Option<Path>)
    requires IsPath(root, p)
    ensures r.Some? ==> IsPath(root, r.value) && r.value != []
  {
    hide At, IsPath;
    if p == [] || p[|p| - 1] == 0 then None
    else
      ParentPath(root, p);
      SiblingPath(root, Parent(p), p[|p| - 1] - 1);
      Some(Parent(p) + [p[|p| - 1] - 1])
  }

  function ParentOf(root: Node, p: Path): (r: Option<Path>)
    requires IsPath(root, p)
    ensures r.Some? ==> IsPath(root, r.value)
  {
    if p == [] then None else ParentPath(root, p); Some(Parent(p))
  }

  function First(s: seq<Path>): Option<Path> {
    if s == [] then None else Some(s[0])
  }

  function Last(s: seq<Path>): Option<Path> {
    if s == [] then None else Some(s[|s| - 1])
  }

  // How many siblings follow p
  function Following(root: Node, p: Path): nat
    requires IsPath(root, p)
  {
    if p == [] then 0 else ParentPath(root, p); |At(root, Parent(p)).children| - 1 - p[|p| - 1]
  }

  lemma AfterAt(root: Node, q: Path, k: nat)
    requires IsPath(root, q) && k < |At(root, q).children|
    ensures IsPath(root, q + [k]) && After(root, q + [k]) == PreFrom(At(root, q), q, k + 1) + After(root, q)
  {
    SiblingPath(root, q, k);
  }

  lemma PreFromNext(node: Node, path: Path, k: nat)
    requires k < |node.children|
    ensures node.children[k].kind.Comment? ==> PreFrom(node, path, k) == PreFrom(node, path, k + 1)
    ensures node.children[k].kind.Element? ==> First(PreFrom(node, path, k)) == Some(path + [k])
  {
  }

  // Going on from a comment, or from the last sibling, reads on at the same place.
  lemma AfterSibling(root: Node, p: Path)
    requires IsPath(root, p)
    ensures var s := NextSibling(root, p);
      && (s.Some? && At(root, s.value).kind.Element? ==> First(After(root, p)) == s)
      && (s.Some? && At(root, s.value).kind.Comment? ==>
            After(root, p) == After(root, s.value) && Following(root, s.value) < Following(root, p) && |s.value| == |p|)
      && (s.None? && p != [] ==> After(root, p) == After(root, ParentOf(root, p).value))
  {
    hide After, PreFrom, At, IsPath, First, Following, NextSibling, ParentOf, Parent;
    if p == [] {
      RootHasNoSibling(root);
    } else {
      var q, k := LastStep(root, p);
      SiblingsAt(root, q, k);
      if k + 1 < |At(root, q).children| {
        SiblingPath(root, q, k + 1);
        AfterNext(root, q, k);
        SiblingFollows(root, q, k);
      } else {
        AfterLast(root, q, k);
      }
    }
  }

  lemma RootHasNoSibling(root: Node)
    ensures NextSibling(root, []).None?
  {
  }

  lemma LastStep(root: Node, p: Path) returns (q: Path, k: nat)
    requires IsPath(root, p) && p != []
    ensures p == q + [k] && IsPath(root, q) && k < |At(root, q).children|
  {
    ParentPath(root, p);
    q, k := Parent(p), p[|p| - 1];
  }

  lemma SiblingsAt(root: Node, q: Path, k: nat)
    requires IsPath(root, q) && k < |At(root, q).children|
    ensures IsPath(root, q + [k])
    ensures NextSibling(root, q + [k]) == if k + 1 < |At(root, q).children| then Some(q + [k + 1]) else None
    ensures PreviousSibling(root, q + [k]) == if k > 0 then Some(q + [k - 1]) else None
    ensures ParentOf(root, q + [k]) == Some(q)
  {
    hide At, IsPath;
    SiblingPath(root, q, k);
  }

  lemma AfterNext(root: Node, q: Path, k: nat)
    requires IsPath(root, q) && k + 1 < |At(root, q).children|
    ensures IsPath(root, q + [k]) && IsPath(root, q + [k + 1])
    ensures At(root, q).children[k + 1].kind.Element? ==> First(After(root, q + [k])) == Some(q + [k + 1])
    ensures At(root, q).children[k + 1].kind.Comment? ==> After(root, q + [k]) == After(root, q + [k + 1])
  {
    hide After, PreFrom, At, IsPath;
    AfterAt(root, q, k);
    AfterAt(root, q, k + 1);
    PreFromNext(At(root, q), q, k + 1);
  }

  lemma AfterLast(root: Node, q: Path, k: nat)
    requires IsPath(root, q) && k + 1 == |At(root, q).children|
    ensures IsPath(root, q + [k]) && After(root, q + [k]) == After(root, q)
  {
    hide After, At, IsPath;
    AfterAt(root, q, k);
    assert PreFrom(At(root, q), q, k + 1) == [];
  }

  lemma SiblingFollows(root: Node, q: Path, k: nat)
    requires IsPath(root, q) && k + 1 < |At(root, q).children|
    ensures IsPath(root, q + [k]) && IsPath(root, q + [k + 1])
    ensures Following(root, q + [k + 1]) < Following(root, q + [k])
  {
    SiblingPath(root, q, k);
    SiblingPath(root, q, k + 1);
  }

  // What is selected from the deepest node at the cursor: the node itself while the cursor is in its
  // name, else its first element behind the cursor, else what is read after it.
  ghost predicate NextFrom(root: Node, p: Path, offset: nat, next: Option<Path>)
    requires IsPath(root, p)
  {
    var node := At(root, p);
    if node.kind.Element? && node.open.Some? && offset <= node.open.value.start + node.nameLength then next == Some(p)
    else
      || (node.kind.Element? && exists k: nat :: FirstBehind(node, k, offset) && next == Some(p + [k]))
      || ((node.kind.Comment? || forall k :: 0 <= k < |node.children| ==> !ElementBehind(node, k, offset)) && next == First(After(root, p)))
  }

  // nextItemHTML: the node that is selected, as a path; None when there is no node there
  method NextNode(root: Node, selectionStart: nat, selectionEnd: nat) returns (next: Option<Path>)
    requires WellNested(root)
    ensures next.Some? ==> IsPath(root, next.value)
    ensures match GetFlatNode(root, selectionEnd, false)
      case None => next.None?
      case Some(p) => IsPath(root, p) && NextFrom(root, p, selectionEnd, next)
    ensures forall p :: TidyDocument(root) && NameSelected(root, p, selectionStart, selectionEnd) ==>
      next == First(PreFrom(At(root, p), p, 0) + After(root, p))
  {
    LookupFinds(root, selectionEnd, false);
    var found := GetFlatNode(root, selectionEnd, false);
    next := None;
    forall p | TidyDocument(root) && NameSelected(root, p, selectionStart, selectionEnd)
      ensures found == Some(p) && !(selectionEnd <= At(root, p).open.value.start + At(root, p).nameLength)
      ensures forall k :: 0 <= k < |At(root, p).children| ==> selectionEnd < At(root, p).children[k].end
    {
      NodeTidy(root, p);
      DescendantInside(root, p);
      SelectedNodeFound(root, p, selectionEnd);
    }
    if found.None? {
      return;
    }
    var current := found.value;
    var currentNode := At(root, current);
    if currentNode.kind.Element? {
      // in the tag name: the tag itself is selected
      if currentNode.open.Some? && selectionEnd <= currentNode.open.value.start + currentNode.nameLength {
        return Some(current);
      }
      next := FirstChildBehind(root, current, selectionEnd);
    }
    if next.None? {
      next := ClimbToNext(root, current);
    }
  }

  predicate ElementBehind(node: Node, k: nat, offset: nat)
    requires k < |node.children|
  {
    offset < node.children[k].end && node.children[k].kind.Element?
  }

  ghost predicate FirstBehind(node: Node, k: nat, offset: nat) {
    && k < |node.children| && ElementBehind(node, k, offset)
    && forall j :: 0 <= j < k ==> !ElementBehind(node, j, offset)
  }

  lemma {:induction false} CommentsSkipped(node: Node, path: Path, k: nat)
    requires k <= |node.children| && forall j :: 0 <= j < k ==> node.children[j].kind.Comment?
    ensures PreFrom(node, path, 0) == PreFrom(node, path, k)
  {
    hide PreFrom;
    if k > 0 {
      CommentsSkipped(node, path, k - 1);
      PreFromNext(node, path, k - 1);
    }
  }

  // The first child behind the cursor that is not a comment
  method FirstChildBehind(root: Node, p: Path, offset: nat) returns (next: Option<Path>)
    requires IsPath(root, p)
    ensures next.Some? ==> IsPath(root, next.value)
    ensures match next
      case None => forall k :: 0 <= k < |At(root, p).children| ==> !ElementBehind(At(root, p), k, offset)
      case Some(q) => exists k :: FirstBehind(At(root, p), k, offset) && q == p + [k]
    ensures (forall k :: 0 <= k < |At(root, p).children| ==> offset < At(root, p).children[k].end) ==>
      next == First(PreFrom(At(root, p), p, 0))
  {
    hide PreFrom, At, IsPath;
    var node := At(root, p);
    var nextNode := ChildBehind(node, offset);
    if nextNode.None? {
      next := None;
      if forall k :: 0 <= k < |node.children| ==> offset < node.children[k].end {
        NoneRead(node, p, offset);
      }
    } else {
      var k := nextNode.value;
      SiblingPath(root, p, k);
      next := Some(p + [k]);
      if forall j :: 0 <= j < |node.children| ==> offset < node.children[j].end {
        FirstRead(node, p, k, offset);
      }
    }
  }

  lemma NoneRead(node: Node, path: Path, offset: nat)
    requires forall k :: 0 <= k < |node.children| ==> offset < node.children[k].end && !ElementBehind(node, k, offset)
    ensures PreFrom(node, path, 0) == []
  {
    CommentsSkipped(node, path, |node.children|);
  }

  lemma FirstRead(node: Node, path: Path, k: nat, offset: nat)
    requires FirstBehind(node, k, offset) && forall j :: 0 <= j < |node.children| ==> offset < node.children[j].end
    ensures First(PreFrom(node, path, 0)) == Some(path + [k])
  {
    forall j | 0 <= j < k
      ensures node.children[j].kind.Comment?
    {
      assert !ElementBehind(node, j, offset);
    }
    CommentsSkipped(node, path, k);
    PreFromNext(node, path, k);
  }

  method ChildBehind(node: Node, offset: nat) returns (nextNode: Option<nat>)
    ensures match nextNode
      case None => forall k :: 0 <= k < |node.children| ==> !ElementBehind(node, k, offset)
      case Some(k) => FirstBehind(node, k, offset)
  {
    var k := 0;
    while k < |node.children| && (offset >= node.children[k].end || node.children[k].kind.Comment?)
      invariant k <= |node.children| && forall j :: 0 <= j < k ==> !ElementBehind(node, j, offset)
    {
      k := k + 1;
    }
    nextNode := if k < |node.children| then Some(k) else None;
  }

  // The next sibling that is not a comment, of the node or of the nearest ancestor that has one
  method ClimbToNext(root: Node, p: Path) returns (next: Option<Path>)
    requires IsPath(root, p)
    ensures next.Some? ==> IsPath(root, next.value)
    ensures next == First(After(root, p))
  {
    var current := Some(p);
    next := None;
    while next.None? && current.Some?
      invariant current.Some? ==> IsPath(root, current.value)
      invariant next.Some? ==> IsPath(root, next.value) && next == First(After(root, p))
      invariant next.None? ==> After(root, p) == if current.Some? then After(root, current.value) else []
      decreases next.None?, if current.Some? then |current.value| + 1 else 0,
                if current.Some? then Following(root, current.value) else 0
    {
      AfterSibling(root, current.value);
      var sibling := NextSibling(root, current.value);
      if sibling.Some? {
        if At(root, sibling.value).kind.Element? {
          next := sibling;
        } else {
          current := sibling;
        }
      } else {
        current := ParentOf(root, current.value);
      }
    }
  }

  // ----- selecting the previous item -----

  // The last child that is not a comment, counting down from the i-th
  function LastElementChild(node: Node, i: nat): (r: Option<nat>)
    requires i <= |node.children|
    ensures r.Some? ==> r.value < i && node.children[r.value].kind.Element?
    ensures forall k :: (if r.Some? then r.value + 1 else 0) <= k < i ==> node.children[k].kind.Comment?
  {
    if i == 0 then None
    else if node.children[i - 1].kind.Element? then Some(i - 1)
    else LastElementChild(node, i - 1)
  }

  // getDeepestFlatNode (util.ts:468-478): down through the last children that are not comments
  function DeepestFlatNode(node: Node, path: Path): Path
    decreases node
  {
    match LastElementChild(node, |node.children|)
    case None => path
    case Some(k) => DeepestFlatNode(node.children[k], path + [k])
  }

  lemma {:induction false} PreUpToLast(node: Node, path: Path, i: nat)
    requires i <= |node.children|
    ensures var k := LastElementChild(node, i);
      && (k.None? ==> PreUpTo(node, path, i) == [])
      && (k.Some? ==> Last(PreUpTo(node, path, i)) == Last(Subtree(node.children[k.value], path + [k.value])))
  {
    if i > 0 && node.children[i - 1].kind.Comment? {
      PreUpToLast(node, path, i - 1);
      assert PreUpTo(node, path, i) == PreUpTo(node, path, i - 1);
    }
  }

  // The deepest node is the last one read in the subtree.
  lemma {:induction false} DeepestIsLast(node: Node, path: Path)
    requires node.kind.Element?
    ensures Last(Subtree(node, path)) == Some(DeepestFlatNode(node, path))
    decreases node
  {
    var n := |node.children|;
    PreSplit(node, path, n);
    assert PreFrom(node, path, 0) == PreUpTo(node, path, n);
    PreUpToLast(node, path, n);
    match LastElementChild(node, n)
    case None =>
    case Some(k) =>
      DeepestIsLast(node.children[k], path + [k]);
  }

  lemma {:induction false} DeepestPath(root: Node, p: Path)
    requires IsPath(root, p)
    ensures IsPath(root, DeepestFlatNode(At(root, p), p))
    decreases At(root, p)
  {
    match LastElementChild(At(root, p), |At(root, p).children|)
    case None =>
    case Some(k) =>
      SiblingPath(root, p, k);
      DeepestPath(root, p + [k]);
  }

  // What is read before p and is not the root itself; the parent when nothing is
  ghost function Previous(root: Node, p: Path): Option<Path>
    requires IsPath(root, p)
  {
    if p != [] && Before(root, p) == [] then Some([]) else Last(Before(root, p))
  }

  lemma BeforeAt(root: Node, q: Path, k: nat)
    requires IsPath(root, q) && k < |At(root, q).children|
    ensures IsPath(root, q + [k])
    ensures Before(root, q + [k]) == Before(root, q) + (if q == [] then [] else [q]) + PreUpTo(At(root, q), q, k)
    ensures q == [] ==> Before(root, q) == []
    ensures k == 0 ==> PreUpTo(At(root, q), q, k) == []
  {
    SiblingPath(root, q, k);
  }

  lemma PreUpToNext(node: Node, path: Path, k: nat)
    requires 0 < k <= |node.children|
    ensures node.children[k - 1].kind.Comment? ==> PreUpTo(node, path, k) == PreUpTo(node, path, k - 1)
    ensures node.children[k - 1].kind.Element? ==>
      Last(PreUpTo(node, path, k)) == Some(DeepestFlatNode(node.children[k - 1], path + [k - 1]))
  {
    if node.children[k - 1].kind.Element? {
      DeepestIsLast(node.children[k - 1], path + [k - 1]);
    }
  }

  lemma BeforeSibling(root: Node, p: Path)
    requires IsPath(root, p) && p != []
    ensures var s := PreviousSibling(root, p);
      && (s.Some? && At(root, s.value).kind.Element? ==> Previous(root, p) == Some(DeepestFlatNode(At(root, s.value), s.value)))
      && (s.Some? && At(root, s.value).kind.Comment? ==>
            Previous(root, p) == Previous(root, s.value) && s.value[|s.value| - 1] < p[|p| - 1] && |s.value| == |p|)
      && (s.None? ==> Previous(root, p) == ParentOf(root, p))
  {
    hide Previous, PreUpTo, DeepestFlatNode, At, IsPath, PreviousSibling, ParentOf, Parent;
    var q, k := LastStep(root, p);
    SiblingsAt(root, q, k);
    PreviousAt(root, q, k);
    if k > 0 {
      SiblingPath(root, q, k - 1);
      PreviousAt(root, q, k - 1);
      PreUpToNext(At(root, q), q, k);
    }
  }

  lemma PreviousAt(root: Node, q: Path, k: nat)
    requires IsPath(root, q) && k < |At(root, q).children|
    ensures IsPath(root, q + [k])
    ensures Previous(root, q + [k]) == var early := PreUpTo(At(root, q), q, k); if early == [] then Some(q) else Last(early)
    ensures k == 0 ==> PreUpTo(At(root, q), q, k) == []
  {
    hide Before, PreUpTo, At, IsPath;
    BeforeAt(root, q, k);
  }

  // The cursor is behind the start of the name, and in the tag or in front of the first child.
  predicate InOwnPart(node: Node, selectionStart: nat, selectionEnd: nat) {
    node.open.Some? && (selectionStart < node.open.value.end || node.children == [] || selectionEnd <= node.children[0].start)
  }

  // What is selected from the deepest node at the cursor: the node itself from its own part, else the
  // deepest element in front of the cursor below it, else what is read before it.
  ghost predicate PrevFrom(root: Node, p: Path, selectionStart: nat, selectionEnd: nat, prev: Option<Path>)
    requires IsPath(root, p) && p != []
  {
    var node := At(root, p);
    if !node.kind.Element? || node.open.None? || selectionStart <= node.open.value.start + 1 then prev == Previous(root, p)
    else if InOwnPart(node, selectionStart, selectionEnd) then prev == Some(p)
    else exists k: nat :: EndBefore(node.children, k, selectionStart) && prev == UpToOrBefore(root, p, k)
  }

  // The last element up to the k-th child, or what is read before the node when there is none
  ghost function UpToOrBefore(root: Node, p: Path, k: nat): Option<Path>
    requires IsPath(root, p) && p != [] && k < |At(root, p).children|
  {
    var early := PreUpTo(At(root, p), p, k + 1);
    if early == [] then Previous(root, p) else Last(early)
  }

  // prevItemHTML: the node that is selected, as a path; the root stands for no selection
  method PrevNode(root: Node, selectionStart: nat, selectionEnd: nat) returns (prev: Option<Path>)
    requires WellNested(root)
    ensures prev.Some? ==> IsPath(root, prev.value)
    ensures match GetFlatNode(root, selectionStart, false)
      case None => prev.None?
      case Some(p) => p != [] && IsPath(root, p) && PrevFrom(root, p, selectionStart, selectionEnd, prev)
    ensures forall p :: TidyDocument(root) && NameSelected(root, p, selectionStart, selectionEnd) ==> prev == Previous(root, p)
  {
    LookupFinds(root, selectionStart, false);
    var found := GetFlatNode(root, selectionStart, false);
    prev := None;
    forall p | TidyDocument(root) && NameSelected(root, p, selectionStart, selectionEnd)
      ensures found == Some(p) && At(root, p).open.Some? && selectionStart == At(root, p).open.value.start + 1
    {
      NodeTidy(root, p);
      SelectedNodeFound(root, p, selectionStart);
    }
    if found.None? {
      return;
    }
    var current := found.value;
    var currentNode := At(root, current);
    if currentNode.open.Some? && currentNode.kind.Element? && selectionStart > currentNode.open.value.start + 1 {
      if selectionStart < currentNode.open.value.end || currentNode.children == [] || selectionEnd <= currentNode.children[0].start {
        prev := Some(current);
      } else {
        prev := ChildBefore(root, current, selectionStart);
      }
    }
    if prev.None? {
      prev := ClimbToPrevious(root, current);
    }
  }

  // The k-th is the last of the children that end before the cursor, or the first of all.
  ghost predicate EndBefore(children: seq<Node>, k: nat, offset: nat) {
    && k < |children|
    && (forall j :: 0 < j <= k ==> offset >= children[j].end)
    && (k + 1 < |children| ==> offset < children[k + 1].end)
  }

  // The child just before the cursor, or the last one before it that is not a comment, and the
  // deepest node below it
  method ChildBefore(root: Node, p: Path, offset: nat) returns (prev: Option<Path>)
    requires IsPath(root, p) && At(root, p).children != []
    ensures prev.Some? ==> IsPath(root, prev.value)
    ensures exists k: nat :: EndBefore(At(root, p).children, k, offset) && prev == Last(PreUpTo(At(root, p), p, k + 1))
  {
    var children := At(root, p).children;
    var k: nat, oldOption: Option<nat> := 0, None;
    while k + 1 < |children| && offset >= children[k + 1].end
      invariant k < |children| && oldOption == LastElementChild(At(root, p), k)
      invariant forall j :: 0 < j <= k ==> offset >= children[j].end
    {
      if children[k].kind.Element? {
        oldOption := Some(k);
      }
      k := k + 1;
    }
    assert EndBefore(children, k, offset);
    var option := if children[k].kind.Element? then Some(k) else oldOption;
    assert option == LastElementChild(At(root, p), k + 1);
    PreUpToLast(At(root, p), p, k + 1);
    if option.None? {
      return None;
    }
    DeepestIsLast(children[option.value], p + [option.value]);
    SiblingPath(root, p, option.value);
    DeepestPath(root, p + [option.value]);
    prev := Some(DeepestFlatNode(children[option.value], p + [option.value]));
  }

  // The deepest node of the previous sibling that is not a comment, or else the parent
  method ClimbToPrevious(root: Node, p: Path) returns (prev: Option<Path>)
    requires IsPath(root, p) && p != []
    ensures prev.Some? ==> IsPath(root, prev.value)
    ensures prev == Previous(root, p)
  {
    var current := p;
    prev := None;
    while prev.None?
      invariant current != [] && IsPath(root, current)
      invariant prev.Some? ==> IsPath(root, prev.value) && prev == Previous(root, p)
      invariant prev.None? ==> Previous(root, p) == Previous(root, current)
      decreases prev.None?, current[|current| - 1]
    {
      BeforeSibling(root, current);
      var sibling := PreviousSibling(root, current);
      if sibling.Some? {
        if At(root, sibling.value).kind.Element? {
          DeepestPath(root, sibling.value);
          prev := Some(DeepestFlatNode(At(root, sibling.value), sibling.value));
        } else {
          current := sibling.value;
        }
      } else {
        prev := ParentOf(root, current);
      }
    }
  }
}
