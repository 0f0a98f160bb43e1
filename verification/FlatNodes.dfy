// Trees of parsed nodes and the lookup of a node by offset
// (extensions/emmet/src/util.ts:342-380).  A node is named by its path from the root: the
// positions of its ancestors and itself among their siblings.

module FlatNodes {
  import opened Options

  datatype Kind = Element | Comment

  // open and close are the tags of an HTML node; `html` tells whether the node has a `close`
  // property at all
  datatype Node = Node(
    kind: Kind,
    html: bool,
    nameLength: nat,
    start: nat,
    end: nat,
    open: Option<Span>,
    close: Option<Span>,
    children: seq<Node>)

  datatype Span = Span(start: nat, end: nat)

  type Path = seq<nat>

  // ----- paths -----

  ghost predicate IsPath(node: Node, p: Path) {
    p == [] || (p[0] < |node.children| && IsPath(node.children[p[0]], p[1..]))
  }

  function At(node: Node, p: Path): Node
    requires IsPath(node, p)
  {
    if p == [] then node else At(node.children[p[0]], p[1..])
  }

  lemma {:induction false} PathAppend(node: Node, p: Path, q: Path)
    requires IsPath(node, p)
    ensures IsPath(node, p + q) <==> IsPath(At(node, p), q)
    ensures IsPath(node, p + q) ==> At(node, p + q) == At(At(node, p), q)
    decreases |p|
  {
    if p == [] {
      assert p + q == q;
    } else {
      PathAppend(node.children[p[0]], p[1..], q);
      assert (p + q)[1..] == p[1..] + q;
    }
  }

  lemma ChildPath(node: Node, k: nat)
    requires k < |node.children|
    ensures IsPath(node, [k]) && At(node, [k]) == node.children[k]
  {
    assert [k][1..] == [];
  }

  // ----- well-nested trees -----

  // Children lie in their parent, in order, without overlap.
  ghost predicate WellNested(node: Node) {
    && node.start <= node.end
    && (forall i :: 0 <= i < |node.children| ==>
          node.start <= node.children[i].start && node.children[i].end <= node.end && WellNested(node.children[i]))
    && (forall i, j :: 0 <= i < j < |node.children| ==> node.children[i].end <= node.children[j].start)
  }

  predicate Contains(node: Node, offset: nat, includeNodeBoundary: bool) {
    || (node.start < offset < node.end)
    || (includeNodeBoundary && node.start <= offset <= node.end)
  }

  // ----- getFlatNode -----

  // The path below `node` of the node that is found
  function GetFlatNode(node: Node, offset: nat, includeNodeBoundary: bool): Option<Path>
    decreases node, 0
  {
    GetFlatNodeChildren(node, 0, offset, includeNodeBoundary)
  }

  function GetFlatNodeChildren(node: Node, i: nat, offset: nat, includeNodeBoundary: bool): Option<Path>
    requires i <= |node.children|
    decreases node, 0, |node.children| - i
  {
    if i == |node.children| then None
    else match GetFlatNodeChild(node.children[i], offset, includeNodeBoundary)
      case Some(p) => Some([i] + p)
      case None => GetFlatNodeChildren(node, i + 1, offset, includeNodeBoundary)
  }

  function GetFlatNodeChild(child: Node, offset: nat, includeNodeBoundary: bool): Option<Path>
    decreases child, 1
  {
    if Contains(child, offset, includeNodeBoundary) then
      match GetFlatNodeChildren(child, 0, offset, includeNodeBoundary)
      case Some(p) => Some(p)
      case None => Some([])
    else if Unclosed(child) then
      GetFlatNodeChildren(child, 0, offset, includeNodeBoundary)
    else None
  }

  // A descendant that contains the offset
  ghost predicate Hit(node: Node, p: Path, offset: nat, includeNodeBoundary: bool) {
    p != [] && IsPath(node, p) && Contains(At(node, p), offset, includeNodeBoundary)
  }

  lemma {:induction false} DescendantInside(node: Node, p: Path)
    requires WellNested(node) && IsPath(node, p)
    ensures node.start <= At(node, p).start && At(node, p).end <= node.end && WellNested(At(node, p))
    decreases |p|
  {
    if p != [] {
      DescendantInside(node.children[p[0]], p[1..]);
    }
  }

  // What is known of a lookup from the i-th child on
  ghost predicate Found(node: Node, r: Option<Path>, i: nat, offset: nat, includeNodeBoundary: bool) {
    match r
    case Some(p) =>
      && Hit(node, p, offset, includeNodeBoundary)
      && (forall k :: 0 <= k < |At(node, p).children| ==> !Contains(At(node, p).children[k], offset, includeNodeBoundary))
    case None => forall p: Path :: p != [] && p[0] >= i ==> !Hit(node, p, offset, includeNodeBoundary)
  }

  lemma {:induction false} ChildrenFound(node: Node, i: nat, offset: nat, includeNodeBoundary: bool)
    requires WellNested(node) && i <= |node.children|
    ensures Found(node, GetFlatNodeChildren(node, i, offset, includeNodeBoundary), i, offset, includeNodeBoundary)
    decreases node, 0, |node.children| - i
  {
    if i < |node.children| {
      var child := node.children[i];
      ChildFound(child, offset, includeNodeBoundary);
      match GetFlatNodeChild(child, offset, includeNodeBoundary)
      case Some(p) =>
        assert ([i] + p)[1..] == p;
      case None =>
        ChildrenFound(node, i + 1, offset, includeNodeBoundary);
        if GetFlatNodeChildren(node, i + 1, offset, includeNodeBoundary).None? {
          forall p: Path | p != [] && p[0] >= i
            ensures !Hit(node, p, offset, includeNodeBoundary)
          {
            if p[0] == i && IsPath(node, p) {
              assert At(node, p) == At(child, p[1..]);
            }
          }
        }
    }
  }

  lemma {:induction false} ChildFound(child: Node, offset: nat, includeNodeBoundary: bool)
    requires WellNested(child)
    ensures match GetFlatNodeChild(child, offset, includeNodeBoundary)
      case Some(p) =>
        && IsPath(child, p) && Contains(At(child, p), offset, includeNodeBoundary)
        && (forall k :: 0 <= k < |At(child, p).children| ==> !Contains(At(child, p).children[k], offset, includeNodeBoundary))
      case None => forall p: Path :: IsPath(child, p) ==> !Contains(At(child, p), offset, includeNodeBoundary)
    decreases child, 1
  {
    ChildrenFound(child, 0, offset, includeNodeBoundary);
    match GetFlatNodeChildren(child, 0, offset, includeNodeBoundary)
    case Some(p) =>
      DescendantInside(child, p);
    case None =>
      if Contains(child, offset, includeNodeBoundary) {
        forall k | 0 <= k < |child.children|
          ensures !Contains(child.children[k], offset, includeNodeBoundary)
        {
          ChildPath(child, k);
          assert !Hit(child, [k], offset, includeNodeBoundary);
        }
      } else {
        forall p: Path | IsPath(child, p)
          ensures !Contains(At(child, p), offset, includeNodeBoundary)
        {
          assert p != [] ==> !Hit(child, p, offset, includeNodeBoundary);
        }
      }
  }

  // A node is found exactly when some node contains the offset; it contains the offset and none
  // of its children does.
  lemma LookupFinds(root: Node, offset: nat, includeNodeBoundary: bool)
    requires WellNested(root)
    ensures var r := GetFlatNode(root, offset, includeNodeBoundary);
      && (r.Some? <==> exists p :: Hit(root, p, offset, includeNodeBoundary))
      && (r.Some? ==>
            && Hit(root, r.value, offset, includeNodeBoundary)
            && forall k :: 0 <= k < |At(root, r.value).children| ==> !Contains(At(root, r.value).children[k], offset, includeNodeBoundary))
  {
    ChildrenFound(root, 0, offset, includeNodeBoundary);
  }

  // Without boundaries two nodes that contain the offset are one above the other ...
  lemma {:induction false} HitsNested(node: Node, p: Path, q: Path, offset: nat)
    requires WellNested(node) && IsPath(node, p) && IsPath(node, q)
    requires Contains(At(node, p), offset, false) && Contains(At(node, q), offset, false)
    ensures p <= q || q <= p
    decreases |p|
  {
    if p != [] && q != [] {
      DescendantInside(node.children[p[0]], p[1..]);
      DescendantInside(node.children[q[0]], q[1..]);
      assert p[0] == q[0];
      HitsNested(node.children[p[0]], p[1..], q[1..], offset);
      assert p == [p[0]] + p[1..] && q == [q[0]] + q[1..];
    }
  }

  // ... and the one that is found is below all others: it is the deepest.
  lemma LookupDeepest(root: Node, p: Path, offset: nat)
    requires WellNested(root) && Hit(root, p, offset, false)
    ensures var r := GetFlatNode(root, offset, false); r.Some? && p <= r.value
  {
    LookupFinds(root, offset, false);
    var q := GetFlatNode(root, offset, false).value;
    HitsNested(root, p, q, offset);
    if q < p {
      var k, rest := p[|q|], p[|q| + 1..];
      assert p == q + ([k] + rest);
      PathAppend(root, q, [k] + rest);
      DescendantInside(root, q);
      ChildPath(At(root, q), k);
      PathAppend(At(root, q), [k], rest);
      DescendantInside(At(root, q).children[k], rest);
    }
  }

  // p is in front of q, in another child of a common ancestor.
  ghost predicate Precedes(p: Path, q: Path) {
    exists k :: PrecedesAt(p, q, k)
  }

  ghost predicate PrecedesAt(p: Path, q: Path, k: nat) {
    k < |p| && k < |q| && p[..k] == q[..k] && p[k] < q[k]
  }

  lemma BelowPrecedes(i: nat, p: Path, q: Path)
    requires q != [] && q[0] == i && Precedes(p, q[1..])
    ensures Precedes([i] + p, q)
  {
    var k: nat :| PrecedesAt(p, q[1..], k);
    assert ([i] + p)[..k + 1] == [i] + p[..k] && q[..k + 1] == [i] + q[1..][..k];
    assert PrecedesAt([i] + p, q, k + 1);
  }

  predicate Unclosed(node: Node) {
    node.html && node.open.Some? && node.close.None?
  }

  // The search gets to the node: every node above it contains the offset, or is an unpaired HTML node,
  // whose children may lie outside it.
  ghost predicate Reached(node: Node, p: Path, offset: nat, includeNodeBoundary: bool)
    decreases |p|
  {
    p != [] && p[0] < |node.children| &&
    var child := node.children[p[0]];
    if |p| == 1 then Contains(child, offset, includeNodeBoundary)
    else (Contains(child, offset, includeNodeBoundary) || Unclosed(child)) && Reached(child, p[1..], offset, includeNodeBoundary)
  }

  // q is below p or in front of it.
  ghost predicate NotAhead(p: Path, q: Path) {
    p <= q || Precedes(q, p)
  }

  lemma {:induction false} ChildrenReached(node: Node, i: nat, offset: nat, includeNodeBoundary: bool)
    requires i <= |node.children|
    ensures var r := GetFlatNodeChildren(node, i, offset, includeNodeBoundary);
      && (r.Some? ==> Reached(node, r.value, offset, includeNodeBoundary))
      && forall p :: Reached(node, p, offset, includeNodeBoundary) && p[0] >= i ==> r.Some? && NotAhead(p, r.value)
    decreases node, 0, |node.children| - i
  {
    hide NotAhead;
    if i < |node.children| {
      var child := node.children[i];
      var r := GetFlatNodeChildren(node, i, offset, includeNodeBoundary);
      ChildReached(child, offset, includeNodeBoundary);
      if GetFlatNodeChild(child, offset, includeNodeBoundary).None? {
        ChildrenReached(node, i + 1, offset, includeNodeBoundary);
      } else {
        assert r.value[1..] == GetFlatNodeChild(child, offset, includeNodeBoundary).value;
        forall p | Reached(node, p, offset, includeNodeBoundary) && p[0] >= i
          ensures NotAhead(p, r.value)
        {
          NotAheadBelow(i, p, r.value);
        }
      }
    }
  }

  lemma NotAheadBelow(i: nat, p: Path, r: Path)
    requires p != [] && p[0] >= i && r != [] && r[0] == i && (p[0] == i ==> NotAhead(p[1..], r[1..]))
    ensures NotAhead(p, r)
  {
    assert r == [i] + r[1..];
    if p[0] > i {
      assert PrecedesAt(r, p, 0);
    } else if p[1..] <= r[1..] {
      assert p == [i] + p[1..];
    } else {
      BelowPrecedes(i, r[1..], p);
    }
  }

  lemma {:induction false} ChildReached(child: Node, offset: nat, includeNodeBoundary: bool)
    ensures var r := GetFlatNodeChild(child, offset, includeNodeBoundary);
      && (r.Some? ==> if r.value == [] then Contains(child, offset, includeNodeBoundary)
            else (Contains(child, offset, includeNodeBoundary) || Unclosed(child)) && Reached(child, r.value, offset, includeNodeBoundary))
      && (Contains(child, offset, includeNodeBoundary) ==> r.Some? && NotAhead([], r.value))
      && (Contains(child, offset, includeNodeBoundary) || Unclosed(child) ==>
            forall p :: Reached(child, p, offset, includeNodeBoundary) ==> r.Some? && NotAhead(p, r.value))
    decreases child, 1
  {
    ChildrenReached(child, 0, offset, includeNodeBoundary);
  }

  // In every tree, also one with unpaired HTML nodes: a node is found exactly if the search gets to one
  // that contains the offset, and of these the first that has no other below it is found.
  lemma LookupFirst(root: Node, offset: nat, includeNodeBoundary: bool)
    ensures var r := GetFlatNode(root, offset, includeNodeBoundary);
      && (r.Some? ==> Reached(root, r.value, offset, includeNodeBoundary))
      && forall p :: Reached(root, p, offset, includeNodeBoundary) ==> r.Some? && NotAhead(p, r.value)
  {
    ChildrenReached(root, 0, offset, includeNodeBoundary);
  }

  // The search gets to every node in a tree whose nodes lie in their parents.
  lemma {:induction false} HitReached(node: Node, p: Path, offset: nat, includeNodeBoundary: bool)
    requires WellNested(node) && Hit(node, p, offset, includeNodeBoundary)
    ensures Reached(node, p, offset, includeNodeBoundary)
    decreases |p|
  {
    if |p| > 1 {
      DescendantInside(node.children[p[0]], p[1..]);
      HitReached(node.children[p[0]], p[1..], offset, includeNodeBoundary);
    } else {
      assert p[1..] == [] && At(node, p) == At(node.children[p[0]], p[1..]) == node.children[p[0]];
    }
  }

  // With boundaries a node is found wherever one touches the offset, and where several do, as siblings
  // without space between them, the first.
  lemma LookupTouching(root: Node, p: Path, offset: nat)
    requires WellNested(root) && p != [] && IsPath(root, p) && At(root, p).start <= offset <= At(root, p).end
    ensures var r := GetFlatNode(root, offset, true);
      && r.Some? && r.value != [] && IsPath(root, r.value)
      && At(root, r.value).start <= offset <= At(root, r.value).end && NotAhead(p, r.value)
  {
    hide WellNested, GetFlatNode, NotAhead, Reached;
    HitReached(root, p, offset, true);
    LookupFirst(root, offset, true);
    LookupFinds(root, offset, true);
  }
}
