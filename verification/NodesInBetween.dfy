// The siblings that cover two nodes (extensions/emmet/src/util.ts:556-605).

module NodesInBetween {
  import opened Options
  import opened FlatNodes
  import opened ItemNavigation

  predicate SameNodes(node1: Node, node2: Node) {
    node1.start == node2.start && node1.end == node2.end
  }

  // Nodes are not empty, lie in their parent without filling it, and do not overlap.
  ghost predicate Nested(node: Node) {
    && node.start < node.end
    && (forall i :: 0 <= i < |node.children| ==>
          && node.start <= node.children[i].start && node.children[i].end <= node.end
          && !SameNodes(node, node.children[i]) && Nested(node.children[i]))
    && (forall i, j :: 0 <= i < j < |node.children| ==> node.children[i].end <= node.children[j].start)
  }

  // The same for a document, which may consist of one node.
  ghost predicate NestedDocument(root: Node) {
    && (forall i :: 0 <= i < |root.children| ==>
          root.start <= root.children[i].start && root.children[i].end <= root.end && Nested(root.children[i]))
    && (forall i, j :: 0 <= i < j < |root.children| ==> root.children[i].end <= root.children[j].start)
  }

  function Width(node: Node): int {
    node.end - node.start
  }

  // ----- how two nodes of a document lie to each other -----

  lemma {:induction false} NestedBelow(node: Node, p: Path)
    requires Nested(node) && IsPath(node, p)
    ensures var n := At(node, p);
      && Nested(n) && node.start <= n.start && n.end <= node.end
      && (if p == [] then n == node else Width(n) < Width(node))
    decreases |p|
  {
    if p != [] {
      NestedBelow(node.children[p[0]], p[1..]);
    }
  }

  lemma DocumentBelow(root: Node, p: Path)
    requires NestedDocument(root) && IsPath(root, p) && p != []
    ensures var n := At(root, p);
      && Nested(n) && n.start < n.end && root.start <= n.start && n.end <= root.end
      && (|p| > 1 ==> Width(n) < Width(root))
  {
    NestedBelow(root.children[p[0]], p[1..]);
  }

  lemma {:induction false} PrefixPath(node: Node, p: Path, q: Path)
    requires IsPath(node, q) && p <= q
    ensures IsPath(node, p)
    decreases |p|
  {
    if p != [] {
      PrefixPath(node.children[p[0]], p[1..], q[1..]);
    }
  }

  lemma Inside(root: Node, p: Path, q: Path)
    requires NestedDocument(root) && IsPath(root, q) && p <= q && q != []
    ensures IsPath(root, p) && At(root, p).start <= At(root, q).start < At(root, q).end <= At(root, p).end
    ensures p != [] && p != q ==> Width(At(root, q)) < Width(At(root, p))
  {
    PrefixPath(root, p, q);
    DocumentBelow(root, q);
    if p != [] {
      DocumentBelow(root, p);
      var rest := q[|p|..];
      assert q == p + rest;
      PathAppend(root, p, rest);
      NestedBelow(At(root, p), rest);
    }
  }

  // The length of the common beginning of two paths
  function Fork(p: Path, q: Path): (k: nat)
    ensures k <= |p| && k <= |q| && p[..k] == q[..k]
    ensures k < |p| && k < |q| ==> p[k] != q[k]
  {
    if p == [] || q == [] || p[0] != q[0] then 0 else 1 + Fork(p[1..], q[1..])
  }

  lemma ForkInside(p1: Path, p2: Path)
    requires !(p1 <= p2) && !(p2 <= p1)
    ensures Fork(p1, p2) < |p1| && Fork(p1, p2) < |p2|
  {
    hide Fork;
    assert p1[..|p1|] == p1 && p2[..|p2|] == p2;
  }

  lemma StepDown(p: Path, k: nat)
    requires k < |p|
    ensures p[..k] + [p[k]] == p[..k + 1] <= p
  {
  }

  lemma ForkSplit(p1: Path, p2: Path)
    requires !(p1 <= p2) && !(p2 <= p1)
    ensures var k := Fork(p1, p2);
      && k < |p1| && k < |p2| && p1[k] != p2[k] && p1[..k] == p2[..k]
      && p1[..k] + [p1[k]] == p1[..k + 1] && p1[..k] + [p1[k]] <= p1 && p1[..k] + [p2[k]] <= p2
  {
    hide Fork;
    ForkInside(p1, p2);
    StepDown(p1, Fork(p1, p2));
    StepDown(p2, Fork(p1, p2));
  }

  // Below the k-th child of q
  lemma InChild(root: Node, q: Path, k: nat, p: Path)
    requires NestedDocument(root) && IsPath(root, p) && q + [k] <= p
    ensures IsPath(root, q) && k < |At(root, q).children|
    ensures var child := At(root, q).children[k]; child.start <= At(root, p).start < At(root, p).end <= child.end
  {
    hide NestedDocument, At, IsPath;
    Inside(root, q + [k], p);
    PrefixPath(root, q, q + [k]);
    ParentPath(root, q + [k]);
    assert Parent(q + [k]) == q;
  }

  lemma ChildrenApart(root: Node, q: Path, i: nat, j: nat)
    requires NestedDocument(root) && IsPath(root, q) && i < j < |At(root, q).children|
    ensures var c := At(root, q).children; c[i].start < c[i].end <= c[j].start < c[j].end
  {
    if q != [] {
      DocumentBelow(root, q);
    }
  }

  lemma ChildIn(root: Node, q: Path, k: nat)
    requires NestedDocument(root) && IsPath(root, q) && k < |At(root, q).children|
    ensures var n := At(root, q); n.start <= n.children[k].start < n.children[k].end <= n.end
  {
    if q != [] {
      DocumentBelow(root, q);
    }
  }

  // Two nodes in different children of q: the one in the earlier child ends first.
  lemma Apart(root: Node, q: Path, i: nat, j: nat, p1: Path, p2: Path)
    requires NestedDocument(root) && IsPath(root, p1) && IsPath(root, p2)
    requires q + [i] <= p1 && q + [j] <= p2 && i < j
    ensures At(root, p1).end <= At(root, p2).start
  {
    hide NestedDocument, At, IsPath;
    InChild(root, q, i, p1);
    InChild(root, q, j, p2);
    ChildrenApart(root, q, i, j);
  }

  // Nodes are named by their ranges.
  lemma RangesIdentify(root: Node, p1: Path, p2: Path)
    requires NestedDocument(root) && IsPath(root, p1) && IsPath(root, p2) && p1 != [] && p2 != []
    ensures SameNodes(At(root, p1), At(root, p2)) <==> p1 == p2
  {
    hide NestedDocument, At, IsPath;
    Inside(root, p1, p1);
    Inside(root, p2, p2);
    if p1 <= p2 {
      Inside(root, p1, p2);
    } else if p2 <= p1 {
      Inside(root, p2, p1);
    } else {
      ForkSplit(p1, p2);
      var k := Fork(p1, p2);
      if p1[k] < p2[k] {
        Apart(root, p1[..k], p1[k], p2[k], p1, p2);
      } else {
        Apart(root, p1[..k], p2[k], p1[k], p2, p1);
      }
    }
  }

  // Only a document and its only node can have the same range.
  lemma DocumentIdentified(root: Node, p: Path)
    requires NestedDocument(root) && IsPath(root, p) && p != [] && SameNodes(root, At(root, p))
    ensures p == [0] && |root.children| == 1
  {
    DocumentBelow(root, p);
    ChildPath(root, p[0]);
    assert p == [p[0]] + p[1..];
    assert |p| == 1;
    if p[0] > 0 {
      ChildrenApart(root, [], 0, p[0]);
    }
    if |root.children| > 1 {
      ChildrenApart(root, [], 0, 1);
    }
  }

  // How node1 lies to node2, as getNodesInBetween decides it
  lemma Places(root: Node, p1: Path, p2: Path)
    requires NestedDocument(root) && IsPath(root, p1) && IsPath(root, p2) && p1 != [] && p2 != []
    ensures At(root, p1).start < At(root, p1).end && At(root, p2).start < At(root, p2).end
    ensures p2 <= p1 ==> At(root, p2).start <= At(root, p1).start && At(root, p1).end <= At(root, p2).end
    ensures p1 <= p2 ==> At(root, p1).start <= At(root, p2).start < At(root, p1).end
    ensures !(p1 <= p2) && !(p2 <= p1) ==>
      var k := Fork(p1, p2);
      && k < |p1| && k < |p2| && p1[k] != p2[k]
      && (p1[k] < p2[k] ==> At(root, p1).end <= At(root, p2).start)
      && (p2[k] < p1[k] ==> At(root, p2).end <= At(root, p1).start)
  {
    hide NestedDocument, At, IsPath;
    Inside(root, p1, p1);
    Inside(root, p2, p2);
    if p2 <= p1 {
      Inside(root, p2, p1);
    }
    if p1 <= p2 {
      Inside(root, p1, p2);
    }
    if !(p1 <= p2) && !(p2 <= p1) {
      ForkSplit(p1, p2);
      var k := Fork(p1, p2);
      if p1[k] < p2[k] {
        Apart(root, p1[..k], p1[k], p2[k], p1, p2);
      } else {
        Apart(root, p1[..k], p2[k], p1[k], p2, p1);
      }
    }
  }

  // ----- runs of siblings -----

  // The children of q from the i-th up to, not including, the j-th
  function Siblings(q: Path, i: nat, j: nat): (r: seq<Path>)
    requires i <= j
    ensures |r| == j - i && forall k :: 0 <= k < |r| ==> r[k] == q + [i + k]
  {
    seq(j - i, k => q + [i + k])
  }

  lemma OneSibling(q: Path, k: nat)
    ensures Siblings(q, k, k + 1) == [q + [k]]
  {
    assert Siblings(q, k, k + 1)[0] == q + [k];
  }

  // A contiguous run of siblings, in order, from the start of both nodes to the end of both
  ghost predicate Covers(root: Node, r: seq<Path>, p1: Path, p2: Path)
    requires IsPath(root, p1) && IsPath(root, p2)
  {
    exists q: Path, i: nat, j: nat :: RunCovers(root, q, i, j, r, p1, p2)
  }

  ghost predicate RunCovers(root: Node, q: Path, i: nat, j: nat, r: seq<Path>, p1: Path, p2: Path)
    requires IsPath(root, p1) && IsPath(root, p2)
  {
    && IsPath(root, q) && i <= j < |At(root, q).children| && r == Siblings(q, i, j + 1)
    && At(root, q).children[i].start <= At(root, p1).start && At(root, q).children[i].start <= At(root, p2).start
    && At(root, p1).end <= At(root, q).children[j].end && At(root, p2).end <= At(root, q).children[j].end
  }

  // A run covers what its ends do.
  lemma CoversIff(root: Node, q: Path, i: nat, j: nat, p1: Path, p2: Path)
    requires IsPath(root, p1) && IsPath(root, p2) && IsPath(root, q) && i <= j < |At(root, q).children|
    ensures Covers(root, Siblings(q, i, j + 1), p1, p2) <==> RunCovers(root, q, i, j, Siblings(q, i, j + 1), p1, p2)
  {
    hide At, IsPath;
    hide RunCovers, Siblings;
    var r := Siblings(q, i, j + 1);
    if Covers(root, r, p1, p2) {
      var q': Path, i': nat, j': nat :| RunCovers(root, q', i', j', r, p1, p2);
      SameRun(root, q, i, j, q', i', j', p1, p2);
    }
  }

  lemma SameRun(root: Node, q: Path, i: nat, j: nat, q': Path, i': nat, j': nat, p1: Path, p2: Path)
    requires IsPath(root, p1) && IsPath(root, p2) && i <= j
    requires RunCovers(root, q', i', j', Siblings(q, i, j + 1), p1, p2)
    ensures q' == q && i' == i && j' == j
  {
    hide At, IsPath;
    var r := Siblings(q, i, j + 1);
    assert r[0] == q + [i] == q' + [i'];
    LastStepSame(q, i, q', i');
  }

  lemma LastStepSame(q: Path, i: nat, q': Path, i': nat)
    requires q + [i] == q' + [i']
    ensures q == q' && i == i'
  {
    assert (q + [i])[..|q|] == q && (q' + [i'])[..|q'|] == q';
    assert (q + [i])[|q|] == i && (q' + [i'])[|q'|] == i';
  }

  // The children from above p1 to above p2
  lemma RunFromTo(root: Node, q: Path, i: nat, j: nat, p1: Path, p2: Path)
    requires NestedDocument(root) && IsPath(root, p1) && IsPath(root, p2) && i <= j
    requires q + [i] <= p1 && q + [j] <= p2
    ensures Covers(root, Siblings(q, i, j + 1), p1, p2)
  {
    hide NestedDocument, At, IsPath;
    InChild(root, q, i, p1);
    InChild(root, q, j, p2);
    if i < j {
      ChildrenApart(root, q, i, j);
    }
    assert RunCovers(root, q, i, j, Siblings(q, i, j + 1), p1, p2);
  }

  lemma OneCovers(root: Node, p: Path, p1: Path, p2: Path)
    requires NestedDocument(root) && IsPath(root, p1) && IsPath(root, p2) && p != [] && p <= p1 && p <= p2
    ensures Covers(root, [p], p1, p2)
  {
    hide NestedDocument, At, IsPath, Covers;
    var q, k := Parent(p), p[|p| - 1];
    assert p == q + [k];
    RunFromTo(root, q, k, k, p1, p2);
    OneSibling(q, k);
  }

  // A node alone does not cover one that ends behind it, and no node covers nothing.
  lemma OneMisses(root: Node, p: Path, p1: Path, p2: Path)
    requires IsPath(root, p) && IsPath(root, p1) && IsPath(root, p2) && p != []
    requires At(root, p).end < At(root, p1).end || At(root, p).end < At(root, p2).end
    ensures !Covers(root, [p], p1, p2)
  {
    hide At, IsPath;
    ParentPath(root, p);
    var q, k := Parent(p), p[|p| - 1];
    assert p == q + [k];
    CoversIff(root, q, k, k, p1, p2);
    OneSibling(q, k);
  }

  lemma NoneMisses(root: Node, q: Path, i: nat, p1: Path, p2: Path)
    requires IsPath(root, p1) && IsPath(root, p2)
    ensures !Covers(root, Siblings(q, i, i), p1, p2)
  {
  }

  // ----- getNodesInBetween -----

  // The children of q from the i-th up to the end-th are those that the last loop takes.
  ghost predicate Taken(root: Node, q: Path, i: nat, position: nat, end: nat)
    requires IsPath(root, q)
  {
    && i <= end <= |At(root, q).children|
    && (forall k :: i <= k < end ==> At(root, q).children[k].start < position)
    && (end < |At(root, q).children| ==> position <= At(root, q).children[end].start)
  }

  // The last loop: the siblings from the i-th child of q on that start before `position`
  method CollectSiblings(root: Node, q: Path, i: nat, position: nat) returns (siblings: seq<Path>)
    requires IsPath(root, q) && i < |At(root, q).children|
    ensures Taken(root, q, i, position, i + |siblings|) && siblings == Siblings(q, i, i + |siblings|)
  {
    siblings := [];
    var k := i;
    while k < |At(root, q).children| && position > At(root, q).children[k].start
      invariant i <= k <= |At(root, q).children|
      invariant siblings == Siblings(q, i, k)
      invariant forall l :: i <= l < k ==> At(root, q).children[l].start < position
      decreases |At(root, q).children| - k
    {
      siblings := siblings + [q + [k]];
      k := k + 1;
    }
  }

  // The siblings that start before the end of the j-th one are those up to it.
  lemma TakenUpTo(root: Node, q: Path, i: nat, j: nat, end: nat)
    requires NestedDocument(root) && IsPath(root, q) && i <= j < |At(root, q).children|
    requires Taken(root, q, i, At(root, q).children[j].end, end)
    ensures end == j + 1
  {
    hide NestedDocument, At, IsPath;
    ChildIn(root, q, j);
    if end <= j {
      if end < j {
        ChildrenApart(root, q, end, j);
      }
    } else if j + 1 < end {
      ChildrenApart(root, q, j, j + 1);
    }
  }

  lemma NoneTaken(root: Node, q: Path, i: nat, j: nat, end: nat)
    requires NestedDocument(root) && IsPath(root, q) && j < i < |At(root, q).children|
    requires Taken(root, q, i, At(root, q).children[j].end, end)
    ensures end == i
  {
    hide NestedDocument, At, IsPath;
    ChildrenApart(root, q, j, i);
  }

  // No sibling starts behind the end of the parent.
  lemma AllTaken(root: Node, q: Path, i: nat, position: nat, end: nat)
    requires NestedDocument(root) && IsPath(root, q) && At(root, q).end <= position
    requires Taken(root, q, i, position, end)
    ensures end == |At(root, q).children|
  {
    hide NestedDocument, At, IsPath;
    if end < |At(root, q).children| {
      ChildIn(root, q, end);
    }
  }

  // The climb from node1 goes on below the i-th child of q, up to an ancestor that ends where node2
  // starts, or to that child.
  lemma ClimbFirst(root: Node, q: Path, i: nat, j: nat, p: Path, p2: Path)
    requires NestedDocument(root) && IsPath(root, p) && IsPath(root, p2) && i < j
    requires q + [i] <= p && q + [j] <= p2
    ensures IsPath(root, Parent(p))
    ensures At(root, Parent(p)).end < At(root, p2).start <==> p != q + [i] && At(root, Parent(p)).end != At(root, p2).start
    ensures p != q + [i] ==> q + [i] <= Parent(p)
  {
    hide NestedDocument, At, IsPath;
    PrefixPath(root, Parent(p), p);
    if p == q + [i] {
      assert Parent(p) == q;
      Inside(root, q, p2);
    } else {
      assert q + [i] <= Parent(p);
      Apart(root, q, i, j, Parent(p), p2);
    }
  }

  // The climb from node2 goes on up to the j-th child of q.
  lemma ClimbSecond(root: Node, q: Path, i: nat, j: nat, p1: Path, p: Path)
    requires NestedDocument(root) && IsPath(root, p) && IsPath(root, p1) && i < j
    requires q + [i] <= p1 && q + [j] <= p
    ensures IsPath(root, Parent(p))
    ensures At(root, Parent(p)).start > At(root, p1).start <==> p != q + [j]
    ensures p != q + [j] ==> q + [j] <= Parent(p)
  {
    hide NestedDocument, At, IsPath;
    PrefixPath(root, Parent(p), p);
    Inside(root, q, p1);
    if p == q + [j] {
      assert Parent(p) == q;
    } else {
      assert q + [j] <= Parent(p);
      Apart(root, q, i, j, p1, Parent(p));
    }
  }

  // Where the climb from node1 stops too early: an ancestor below the fork ends where node2 starts.
  ghost predicate StopsEarly(root: Node, q: Path, i: nat, p1: Path, p2: Path)
    requires IsPath(root, p1) && IsPath(root, p2) && q + [i] <= p1
  {
    PrefixPath(root, q + [i], p1);
    p1 != q + [i] && At(root, q + [i]).end == At(root, p2).start
  }

  // All that was passed on the way up from p1 to p ends before node2 starts.
  ghost predicate Climbed(root: Node, p: Path, p1: Path, p2: Path)
    requires IsPath(root, p1) && IsPath(root, p2)
  {
    forall l: nat :: |p| <= l < |p1| ==> IsPath(root, p1[..l]) && At(root, p1[..l]).end < At(root, p2).start
  }

  // The climb from node1
  method ClimbFromFirst(root: Node, path1: Path, path2: Path, ghost q: Path, ghost i: nat, ghost j: nat) returns (p1: Path)
    requires NestedDocument(root) && IsPath(root, path1) && IsPath(root, path2) && i < j
    requires q + [i] <= path1 && q + [j] <= path2
    ensures IsPath(root, p1) && q + [i] <= p1 <= path1 && IsPath(root, Parent(p1))
    ensures p1 == q + [i] <==> !StopsEarly(root, q, i, path1, path2)
    ensures p1 != q + [i] ==> At(root, Parent(p1)).end == At(root, path2).start
    ensures Climbed(root, p1, path1, path2)
  {
    hide NestedDocument, At, IsPath;
    p1 := path1;
    PrefixPath(root, q + [i], path1);
    ClimbFirst(root, q, i, j, p1, path2);
    while p1 != [] && At(root, Parent(p1)).end < At(root, path2).start
      invariant IsPath(root, p1) && q + [i] <= p1 <= path1 && IsPath(root, Parent(p1))
      invariant At(root, Parent(p1)).end < At(root, path2).start <==> p1 != q + [i] && At(root, Parent(p1)).end != At(root, path2).start
      invariant StopsEarly(root, q, i, path1, path2) ==> p1 != q + [i]
      invariant Climbed(root, p1, path1, path2)
      decreases |p1|
    {
      ClimbFirst(root, q, i, j, p1, path2);
      assert Parent(p1) == path1[..|p1| - 1];
      p1 := Parent(p1);
      ClimbFirst(root, q, i, j, p1, path2);
    }
    if p1 != q + [i] {
      ClimbFirst(root, q, i, j, p1, path2);
      Inside(root, q + [i], Parent(p1));
      Apart(root, q, i, j, q + [i], path2);
    }
  }

  // The climb from node2
  method ClimbFromSecond(root: Node, p1: Path, path2: Path, ghost q: Path, ghost i: nat, ghost j: nat) returns (p2: Path)
    requires NestedDocument(root) && IsPath(root, p1) && IsPath(root, path2) && i < j
    requires q + [i] <= p1 && q + [j] <= path2
    ensures p2 == q + [j] && IsPath(root, p2)
  {
    hide NestedDocument, At, IsPath;
    p2 := path2;
    ClimbSecond(root, q, i, j, p1, p2);
    while p2 != [] && At(root, Parent(p2)).start > At(root, p1).start
      invariant IsPath(root, p2) && q + [j] <= p2 && IsPath(root, Parent(p2))
      invariant At(root, Parent(p2)).start > At(root, p1).start <==> p2 != q + [j]
      decreases |p2|
    {
      ClimbSecond(root, q, i, j, p1, p2);
      p2 := Parent(p2);
      ClimbSecond(root, q, i, j, p1, p2);
    }
  }

  // All siblings together end before node2 does.
  lemma EndsBefore(root: Node, q: Path, i: nat, end: nat, p1: Path, p2: Path)
    requires NestedDocument(root) && IsPath(root, p1) && IsPath(root, p2) && IsPath(root, q)
    requires i < end == |At(root, q).children| && p2 != [] && At(root, q).end <= At(root, p2).start
    ensures !Covers(root, Siblings(q, i, end), p1, p2)
  {
    hide NestedDocument, At, IsPath, Covers;
    ChildIn(root, q, end - 1);
    Inside(root, p2, p2);
    CoversIff(root, q, i, end - 1, p1, p2);
  }

  // The child starts with its parent, and the last child ends with it.
  ghost predicate Fills(parent: Node, child: Node) {
    |parent.children| > 0 && child.start == parent.start && parent.children[|parent.children| - 1].end == parent.end
  }

  // All children of node2 from node1 on
  lemma FillsCovers(root: Node, p2: Path, i: nat, end: nat)
    requires NestedDocument(root) && IsPath(root, p2) && p2 != []
    requires IsPath(root, p2 + [i]) && i < end == |At(root, p2).children|
    ensures Covers(root, Siblings(p2, i, end), p2 + [i], p2) <==> Fills(At(root, p2), At(root, p2 + [i]))
  {
    hide NestedDocument, At, IsPath, Covers;
    ParentPath(root, p2 + [i]);
    assert Parent(p2 + [i]) == p2;
    CoversIff(root, p2, i, end - 1, p2 + [i], p2);
    ChildIn(root, p2, i);
    ChildIn(root, p2, end - 1);
    if i < end - 1 {
      ChildrenApart(root, p2, i, end - 1);
    }
  }

  // When the nodes that are found do not cover both: node2 is an ancestor that starts with node1; or
  // an ancestor of node1 below the closest common one ends where node2 starts; or node2 is the
  // whole document and the children from node1 on do not fill it; or node2 lies before node1.
  ghost predicate Missed(root: Node, p1: Path, p2: Path)
    requires IsPath(root, p1) && IsPath(root, p2) && p1 != [] && p2 != []
  {
    ParentPath(root, p1);
    ParentPath(root, p2);
    if p2 < p1 then
      if SameNodes(At(root, Parent(p1)), At(root, Parent(p2))) then !Fills(At(root, p2), At(root, p1))
      else At(root, p1).start == At(root, p2).start
    else if p1 <= p2 then false
    else
      var k := Fork(p1, p2);
      && k < |p1| && k < |p2|
      && (p2[k] < p1[k] || (p1[..k] + [p1[k]] <= p1 && StopsEarly(root, p1[..k], p1[k], p1, p2)))
  }

  // The siblings from p, an ancestor of p1 or p1 itself, to the last one, where p is the first on the
  // way up from p1 whose parent does not end before node2 starts.
  ghost predicate StoppedAt(root: Node, nodes: seq<Path>, p: Path, p1: Path, p2: Path)
    requires IsPath(root, p1) && IsPath(root, p2)
  {
    && p != [] && p <= p1
    && IsPath(root, Parent(p)) && At(root, Parent(p)).end == At(root, p2).start && Climbed(root, p, p1, p2)
    && p[|p| - 1] <= |At(root, Parent(p)).children|
    && nodes == Siblings(Parent(p), p[|p| - 1], |At(root, Parent(p)).children|)
  }

  // node1 is or lies in the i-th child of q, and node2 in the j-th.
  ghost predicate FindsApart(root: Node, nodes: seq<Path>, p1: Path, p2: Path, q: Path, i: nat, j: nat)
    requires IsPath(root, p1) && IsPath(root, p2) && p1 != [] && p2 != []
  {
    if j < i then nodes == if Parent(p1) == Parent(p2) then [] else [p2]
    else if q + [i] <= p1 && StopsEarly(root, q, i, p1, p2) then exists p :: StoppedAt(root, nodes, p, p1, p2)
    else i < j && nodes == Siblings(q, i, j + 1)
  }

  // What is found, told by where the two nodes are in the tree
  ghost predicate Finds(root: Node, nodes: seq<Path>, p1: Path, p2: Path)
    requires IsPath(root, p1) && IsPath(root, p2) && p1 != [] && p2 != []
  {
    ParentPath(root, p1);
    ParentPath(root, p2);
    var k := Fork(p1, p2);
    if p1 <= p2 then nodes == [p1]
    else if p2 <= p1 then
      if SameNodes(At(root, Parent(p1)), At(root, Parent(p2))) then
        p1[|p1| - 1] <= |At(root, p2).children| && nodes == Siblings(p2, p1[|p1| - 1], |At(root, p2).children|)
      else nodes == [if At(root, p1).start == At(root, p2).start then p1 else p2]
    else k < |p1| && k < |p2| && FindsApart(root, nodes, p1, p2, p1[..k], p1[k], p2[k])
  }

  // Nodes are given by their paths; every node but the document has a parent.
  method GetNodesInBetween(root: Node, path1: Path, path2: Path) returns (nodes: seq<Path>)
    requires NestedDocument(root) && IsPath(root, path1) && IsPath(root, path2) && path1 != [] && path2 != []
    ensures Covers(root, nodes, path1, path2) <==> !Missed(root, path1, path2)
    ensures Finds(root, nodes, path1, path2)
  {
    hide NestedDocument, At, IsPath, Covers, Parent, Fork, StopsEarly, Fills;
    var p1, p2 := path1, path2;
    RangesIdentify(root, p1, p2);
    if SameNodes(At(root, p1), At(root, p2)) {
      OneCovers(root, p1, path1, path2);
      return [p1];
    }
    Places(root, p1, p2);
    ParentPath(root, p1);
    ParentPath(root, p2);
    if SameNodes(At(root, Parent(p1)), At(root, Parent(p2))) {
      nodes := BetweenSiblings(root, p1, p2);
      return;
    }
    if At(root, p2).start < At(root, p1).start {
      SecondNode(root, path1, path2);
      return [p2];
    }
    if At(root, p2).start < At(root, p1).end {
      OneNode(root, path1, path2);
      return [p1];
    }
    nodes := BetweenApart(root, p1, p2);
  }

  // node2 alone, when it starts before node1
  lemma SecondNode(root: Node, p1: Path, p2: Path)
    requires NestedDocument(root) && IsPath(root, p1) && IsPath(root, p2) && p1 != [] && p2 != [] && p1 != p2
    requires IsPath(root, Parent(p1)) && IsPath(root, Parent(p2)) && !SameNodes(At(root, Parent(p1)), At(root, Parent(p2)))
    requires At(root, p2).start < At(root, p1).start
    ensures Covers(root, [p2], p1, p2) <==> !Missed(root, p1, p2)
    ensures Finds(root, [p2], p1, p2)
  {
    hide NestedDocument, At, IsPath, Covers, Parent, Fork, StopsEarly;
    Places(root, p1, p2);
    if p2 < p1 {
      OneCovers(root, p2, p1, p2);
    } else {
      OneMisses(root, p2, p1, p2);
    }
  }

  // node1 alone, when node2 starts in it
  lemma OneNode(root: Node, p1: Path, p2: Path)
    requires NestedDocument(root) && IsPath(root, p1) && IsPath(root, p2) && p1 != [] && p2 != [] && p1 != p2
    requires IsPath(root, Parent(p1)) && IsPath(root, Parent(p2)) && !SameNodes(At(root, Parent(p1)), At(root, Parent(p2)))
    requires At(root, p1).start <= At(root, p2).start < At(root, p1).end
    ensures Covers(root, [p1], p1, p2) <==> !Missed(root, p1, p2)
    ensures Finds(root, [p1], p1, p2)
  {
    hide NestedDocument, At, IsPath, Covers, Parent, Fork, StopsEarly;
    Places(root, p1, p2);
    if p2 < p1 {
      RangesIdentify(root, p1, p2);
      OneMisses(root, p1, p1, p2);
    } else {
      OneCovers(root, p1, p1, p2);
    }
  }

  // Siblings, or what looks like them because the document is one node
  method BetweenSiblings(root: Node, p1: Path, p2: Path) returns (nodes: seq<Path>)
    requires NestedDocument(root) && IsPath(root, p1) && IsPath(root, p2) && p1 != [] && p2 != [] && p1 != p2
    requires IsPath(root, Parent(p1)) && IsPath(root, Parent(p2)) && SameNodes(At(root, Parent(p1)), At(root, Parent(p2)))
    ensures Covers(root, nodes, p1, p2) <==> !Missed(root, p1, p2)
    ensures Finds(root, nodes, p1, p2)
  {
    hide NestedDocument, At, IsPath, Covers, Missed, Taken, Finds;
    ParentPath(root, p1);
    nodes := CollectSiblings(root, Parent(p1), p1[|p1| - 1], At(root, p2).end);
    ghost var end := p1[|p1| - 1] + |nodes|;
    ParentsSame(root, p1, p2);
    if Parent(p1) == Parent(p2) {
      SiblingsTaken(root, p1, p2, end);
    } else if p1 == [0] {
      OnlyNodeTaken(root, p1, p2, end);
    } else {
      InnerTaken(root, p1, p2, end);
    }
  }

  lemma SiblingsTaken(root: Node, p1: Path, p2: Path, end: nat)
    requires NestedDocument(root) && IsPath(root, p1) && IsPath(root, p2) && p1 != [] && p2 != [] && p1 != p2
    requires Parent(p1) == Parent(p2) && IsPath(root, Parent(p1))
    requires Taken(root, Parent(p1), p1[|p1| - 1], At(root, p2).end, end)
    ensures Covers(root, Siblings(Parent(p1), p1[|p1| - 1], end), p1, p2) <==> !Missed(root, p1, p2)
    ensures Finds(root, Siblings(Parent(p1), p1[|p1| - 1], end), p1, p2)
  {
    hide NestedDocument, At, IsPath, Covers, Missed, Taken, Finds;
    SiblingsMissed(root, p1, p2);
    ParentPath(root, p1);
    ParentPath(root, p2);
    var q, i, j := Parent(p1), p1[|p1| - 1], p2[|p2| - 1];
    if i <= j {
      TakenUpTo(root, q, i, j, end);
      RunFromTo(root, q, i, j, p1, p2);
    } else {
      NoneTaken(root, q, i, j, end);
      NoneMisses(root, q, i, p1, p2);
    }
    assert p1 == q + [i] && p2 == q + [j];
    SiblingsFound(root, q, i, j);
  }

  lemma SiblingsFound(root: Node, q: Path, i: nat, j: nat)
    requires IsPath(root, q + [i]) && IsPath(root, q + [j]) && i != j
    ensures Finds(root, Siblings(q, i, if i <= j then j + 1 else i), q + [i], q + [j])
  {
    hide At, IsPath, Fork, FindsApart, Siblings, Finds;
    assert Parent(q + [i]) == q == Parent(q + [j]);
    SiblingsFork(q + [i], q + [j]);
    assert (q + [i])[..|q|] == q;
    SiblingsFoundApart(root, q, i, j);
    FoundApart(root, Siblings(q, i, if i <= j then j + 1 else i), q + [i], q + [j]);
  }

  lemma SiblingsFoundApart(root: Node, q: Path, i: nat, j: nat)
    requires IsPath(root, q + [i]) && IsPath(root, q + [j]) && i != j
    ensures FindsApart(root, Siblings(q, i, if i <= j then j + 1 else i), q + [i], q + [j], q, i, j)
  {
    hide At, IsPath;
    assert Parent(q + [i]) == q == Parent(q + [j]);
  }

  // node2 is below node1, the only node: the loop takes node1.
  lemma OnlyNodeTaken(root: Node, p1: Path, p2: Path, end: nat)
    requires NestedDocument(root) && IsPath(root, p1) && IsPath(root, p2) && p1 == [0] && p1 < p2
    requires |root.children| == 1 && Taken(root, [], 0, At(root, p2).end, end)
    ensures Covers(root, Siblings([], 0, end), p1, p2) && !Missed(root, p1, p2) && Finds(root, Siblings([], 0, end), p1, p2)
  {
    hide NestedDocument, Covers, StopsEarly;
    Inside(root, p1, p2);
    assert end == 1 by {
      assert At(root, []) == root && At(root, p1) == root.children[0];
    }
    OneSibling([], 0);
    assert [] + [0] == p1;
    OneCovers(root, p1, p1, p2);
  }

  // node1 is a child of node2, the only node: the loop takes all children from node1 on.
  lemma InnerTaken(root: Node, p1: Path, p2: Path, end: nat)
    requires NestedDocument(root) && IsPath(root, p1) && IsPath(root, p2) && p2 == [0] && p2 < p1 && |p1| == 2
    requires IsPath(root, Parent(p1)) && SameNodes(At(root, Parent(p1)), At(root, Parent(p2)))
    requires Taken(root, Parent(p1), p1[1], At(root, p2).end, end)
    ensures Covers(root, Siblings(Parent(p1), p1[1], end), p1, p2) <==> !Missed(root, p1, p2)
    ensures Finds(root, Siblings(Parent(p1), p1[1], end), p1, p2)
  {
    hide NestedDocument, At, IsPath, Covers, Taken, StopsEarly, Fills;
    ParentPath(root, p1);
    assert Parent(p1) == p2 && p1 == p2 + [p1[1]];
    AllTaken(root, p2, p1[1], At(root, p2).end, end);
    FillsCovers(root, p2, p1[1], end);
  }

  lemma RootPath(root: Node)
    ensures IsPath(root, []) && At(root, []) == root
  {
  }

  lemma ParentsSame(root: Node, p1: Path, p2: Path)
    requires NestedDocument(root) && IsPath(root, p1) && IsPath(root, p2) && p1 != [] && p2 != []
    requires IsPath(root, Parent(p1)) && IsPath(root, Parent(p2)) && SameNodes(At(root, Parent(p1)), At(root, Parent(p2)))
    ensures || Parent(p1) == Parent(p2)
            || (p1 == [0] && p1 < p2 && |p2| == 2 && |root.children| == 1)
            || (p2 == [0] && p2 < p1 && |p1| == 2)
  {
    hide NestedDocument, At, IsPath;
    var q1, q2 := Parent(p1), Parent(p2);
    RootPath(root);
    if q1 != [] && q2 != [] {
      RangesIdentify(root, q1, q2);
    } else if q2 != [] {
      DocumentIdentified(root, q2);
      assert p1 == [p1[0]] && p2 == [0, p2[1]];
      assert p1[0] == 0 by {
        ParentPath(root, p1);
      }
    } else if q1 != [] {
      DocumentIdentified(root, q1);
      assert p2 == [p2[0]] && p1 == [0, p1[1]];
      assert p2[0] == 0 by {
        ParentPath(root, p2);
      }
    }
  }

  lemma SiblingsFork(p1: Path, p2: Path)
    requires p1 != [] && p2 != [] && p1 != p2 && Parent(p1) == Parent(p2)
    ensures |p1| == |p2| && !(p1 <= p2) && !(p2 <= p1) && Fork(p1, p2) == |p1| - 1
  {
    hide Fork;
    var k, n := Fork(p1, p2), |p1| - 1;
    assert |Parent(p1)| == |Parent(p2)|;
    assert p1 == Parent(p1) + [p1[n]] && p2 == Parent(p1) + [p2[n]];
    assert forall l | 0 <= l < n :: p1[l] == Parent(p1)[l] == p2[l];
  }

  lemma SiblingsMissed(root: Node, p1: Path, p2: Path)
    requires IsPath(root, p1) && IsPath(root, p2) && p1 != [] && p2 != [] && p1 != p2 && Parent(p1) == Parent(p2)
    ensures Missed(root, p1, p2) <==> p2[|p2| - 1] < p1[|p1| - 1]
  {
    hide At, IsPath, Fork;
    SiblingsFork(p1, p2);
    assert p1[..|p1| - 1] + [p1[|p1| - 1]] == p1;
  }

  // Nodes that lie apart
  method BetweenApart(root: Node, path1: Path, path2: Path) returns (nodes: seq<Path>)
    requires NestedDocument(root) && IsPath(root, path1) && IsPath(root, path2) && path1 != [] && path2 != []
    requires At(root, path1).end <= At(root, path2).start
    ensures Covers(root, nodes, path1, path2) <==> !Missed(root, path1, path2)
    ensures Finds(root, nodes, path1, path2)
  {
    hide NestedDocument, At, IsPath, Covers, Fork, StopsEarly, Missed, Taken, Siblings, Finds, FindsApart, Climbed;
    Places(root, path1, path2);
    ForkSplit(path1, path2);
    ApartMissed(root, path1, path2);
    ghost var f := Fork(path1, path2);
    ghost var q, i, j := path1[..f], path1[f], path2[f];
    var p1 := ClimbFromFirst(root, path1, path2, q, i, j);
    var p2 := ClimbFromSecond(root, p1, path2, q, i, j);
    ParentPath(root, p1);
    nodes := CollectSiblings(root, Parent(p1), p1[|p1| - 1], At(root, p2).end);
    ghost var end := p1[|p1| - 1] + |nodes|;
    ApartTaken(root, q, i, j, path1, path2, p1, end);
    ApartFound(root, q, i, j, path1, path2, p1, end);
    FoundApart(root, nodes, path1, path2);
  }

  lemma FoundApart(root: Node, nodes: seq<Path>, p1: Path, p2: Path)
    requires IsPath(root, p1) && IsPath(root, p2) && p1 != [] && p2 != [] && !(p1 <= p2) && !(p2 <= p1)
    requires var k := Fork(p1, p2); k < |p1| && k < |p2| && FindsApart(root, nodes, p1, p2, p1[..k], p1[k], p2[k])
    ensures Finds(root, nodes, p1, p2)
  {
    hide At, IsPath, Fork, FindsApart;
  }

  lemma ApartFound(root: Node, q: Path, i: nat, j: nat, path1: Path, path2: Path, p1: Path, end: nat)
    requires NestedDocument(root) && IsPath(root, path1) && IsPath(root, path2) && i < j && path1 != [] && path2 != []
    requires q + [i] <= p1 <= path1 && q + [j] <= path2 && IsPath(root, Parent(p1)) && IsPath(root, q + [j])
    requires p1 == q + [i] <==> !StopsEarly(root, q, i, path1, path2)
    requires p1 != q + [i] ==> At(root, Parent(p1)).end == At(root, path2).start
    requires Climbed(root, p1, path1, path2)
    requires Taken(root, Parent(p1), p1[|p1| - 1], At(root, q + [j]).end, end)
    requires p1[|p1| - 1] < |At(root, Parent(p1)).children|
    ensures FindsApart(root, Siblings(Parent(p1), p1[|p1| - 1], end), path1, path2, q, i, j)
  {
    hide NestedDocument, At, IsPath, StopsEarly, Taken;
    Inside(root, q + [j], path2);
    if p1 == q + [i] {
      ParentPath(root, q + [j]);
      assert Parent(p1) == q == Parent(q + [j]);
      TakenUpTo(root, q, i, j, end);
    } else {
      AllTaken(root, Parent(p1), p1[|p1| - 1], At(root, q + [j]).end, end);
      assert StoppedAt(root, Siblings(Parent(p1), p1[|p1| - 1], end), p1, path1, path2);
    }
  }

  lemma ApartMissed(root: Node, p1: Path, p2: Path)
    requires IsPath(root, p1) && IsPath(root, p2) && p1 != [] && p2 != [] && !(p1 <= p2) && !(p2 <= p1)
    requires var k := Fork(p1, p2); k < |p1| && k < |p2| && p1[k] < p2[k] && p1[..k] + [p1[k]] <= p1
    ensures var k := Fork(p1, p2); Missed(root, p1, p2) <==> StopsEarly(root, p1[..k], p1[k], p1, p2)
  {
    hide At, IsPath, Fork, StopsEarly, Fills;
  }

  lemma ApartTaken(root: Node, q: Path, i: nat, j: nat, path1: Path, path2: Path, p1: Path, end: nat)
    requires NestedDocument(root) && IsPath(root, path1) && IsPath(root, path2) && i < j
    requires q + [i] <= p1 <= path1 && q + [j] <= path2 && IsPath(root, Parent(p1)) && IsPath(root, q + [j])
    requires p1 == q + [i] <==> !StopsEarly(root, q, i, path1, path2)
    requires p1 != q + [i] ==> At(root, Parent(p1)).end == At(root, path2).start
    requires Taken(root, Parent(p1), p1[|p1| - 1], At(root, q + [j]).end, end)
    requires p1[|p1| - 1] < |At(root, Parent(p1)).children|
    ensures Covers(root, Siblings(Parent(p1), p1[|p1| - 1], end), path1, path2) <==> !StopsEarly(root, q, i, path1, path2)
  {
    hide NestedDocument, At, IsPath, Covers, StopsEarly;
    Inside(root, q + [j], path2);
    if p1 == q + [i] {
      hide Taken;
      ParentPath(root, q + [j]);
      assert Parent(p1) == q == Parent(q + [j]);
      TakenUpTo(root, q, i, j, end);
      RunFromTo(root, q, i, j, path1, path2);
    } else {
      AllTaken(root, Parent(p1), p1[|p1| - 1], At(root, q + [j]).end, end);
      EndsBefore(root, Parent(p1), p1[|p1| - 1], end, path1, path2);
    }
  }

  // ----- three of the ways to miss; the fourth is a node2 before node1 -----

  function Simple(start: nat, end: nat, children: seq<Node>): Node {
    Node.Node(Element, false, 0, start, end, None, None, children)
  }

  lemma PathsDown(root: Node, i: nat)
    requires i < |root.children| && |root.children[i].children| > 0
    ensures IsPath(root, []) && At(root, []) == root
    ensures IsPath(root, [i]) && At(root, [i]) == root.children[i] && Parent([i]) == []
    ensures IsPath(root, [i, 0]) && At(root, [i, 0]) == root.children[i].children[0] && Parent([i, 0]) == [i]
  {
    RootPath(root);
    SiblingPath(root, [], i);
    assert [] + [i] == [i] && [i] + [0] == [i, 0];
    SiblingPath(root, [i], 0);
  }

  // Two rules without space between them, and a declaration of the first: the climb stays at the
  // declaration.
  lemma StopsAtFirst(root: Node)
    requires |root.children| > 1 && |root.children[0].children| > 0 && root.children[0].end == root.children[1].start
    ensures IsPath(root, [0, 0]) && IsPath(root, [1]) && Missed(root, [0, 0], [1])
  {
    hide At, IsPath, Nested, NestedDocument;
    PathsDown(root, 0);
    SiblingPath(root, [], 1);
    assert [] + [1] == [1] && [0, 0][..0] == [] && [] + [0] == [0];
    assert Fork([0, 0], [1]) == 0;
  }

  lemma TouchingMissed() returns (root: Node)
    ensures NestedDocument(root) && IsPath(root, [0, 0]) && IsPath(root, [1])
    ensures At(root, [0, 0]).start <= At(root, [1]).start && Missed(root, [0, 0], [1])
  {
    var inner := Simple(2, 5, []);
    var first, second := Simple(0, 7, [inner]), Simple(7, 9, []);
    root := Simple(0, 9, [first, second]);
    hide At, IsPath, Missed;
    assert Nested(inner) && Nested(first) && Nested(second);
    StopsAtFirst(root);
    PathsDown(root, 0);
    SiblingPath(root, [], 1);
    assert [] + [1] == [1];
  }

  // A node that starts with its parent is not seen to lie in it.
  lemma FirstCharacterMissed() returns (root: Node)
    ensures NestedDocument(root) && IsPath(root, [1]) && IsPath(root, [1, 0])
    ensures Missed(root, [1, 0], [1])
  {
    var inner := Simple(3, 5, []);
    var first, second := Simple(0, 3, []), Simple(3, 9, [inner]);
    root := Simple(0, 9, [first, second]);
    assert Nested(inner) && Nested(first) && Nested(second);
    PathsDown(root, 1);
    hide At, IsPath;
  }

  // A document of one node passes for the sibling of the children of that node.
  lemma WholeDocumentMissed() returns (root: Node)
    ensures NestedDocument(root) && IsPath(root, [0]) && IsPath(root, [0, 0])
    ensures At(root, [0]).start < At(root, [0, 0]).start && Missed(root, [0, 0], [0])
  {
    var inner := Simple(3, 5, []);
    var only := Simple(0, 9, [inner]);
    root := Simple(0, 9, [only]);
    assert Nested(inner) && Nested(only);
    PathsDown(root, 0);
    hide At, IsPath;
  }
}
