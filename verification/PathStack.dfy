// The stack on which paths are normalised (src/vs/css.build.ts:186-206): what pushing pieces
// onto it does, apart from how strings are cut into pieces.

module PathStack {

  function PushPiece(stack: seq<string>, piece: string): seq<string> {
    if piece == "./" then stack
    else if piece == "../" && stack != [] && stack[|stack| - 1] == "/" then stack
    else if piece == "../" && stack != [] && stack[|stack| - 1] != "../" then stack[..|stack| - 1]
    else stack + [piece]
  }

  function PushAll(stack: seq<string>, ps: seq<string>): seq<string>
    decreases |ps|
  {
    if ps == [] then stack else PushAll(PushPiece(stack, ps[0]), ps[1..])
  }

  predicate Ordinary(p: string) {
    p != "./" && p != "../" && p != "/"
  }

  predicate AllOrdinary(ps: seq<string>) {
    forall i :: 0 <= i < |ps| ==> Ordinary(ps[i])
  }

  // No empty segment
  predicate Plain(ps: seq<string>) {
    forall i :: 0 <= i < |ps| ==> ps[i] != "/"
  }

  // A run of `../` followed by ordinary pieces
  predicate Normal(ps: seq<string>) {
    && (forall i :: 0 <= i < |ps| ==> ps[i] == "../" || Ordinary(ps[i]))
    && (forall i, j :: 0 <= i < j < |ps| && ps[j] == "../" ==> ps[i] == "../")
  }

  // A root followed by ordinary pieces
  predicate Rooted(ps: seq<string>) {
    ps != [] && ps[0] == "/" && forall i :: 1 <= i < |ps| ==> Ordinary(ps[i])
  }

  lemma {:induction false} PushAllAppend(stack: seq<string>, a: seq<string>, b: seq<string>)
    ensures PushAll(stack, a + b) == PushAll(PushAll(stack, a), b)
    decreases |a|
  {
    hide PushPiece;
    if a == [] {
      assert a + b == b;
    } else {
      PushAllAppend(PushPiece(stack, a[0]), a[1..], b);
      assert (a + b)[1..] == a[1..] + b;
    }
  }

  lemma {:induction false} PushAllSnoc(stack: seq<string>, a: seq<string>, p: string)
    ensures PushAll(stack, a + [p]) == PushPiece(PushAll(stack, a), p)
  {
    PushAllAppend(stack, a, [p]);
    assert PushAll(PushAll(stack, a), [p]) == PushAll(PushPiece(PushAll(stack, a), p), []);
  }

  lemma NothingNormal()
    ensures Normal([])
  {
  }

  // Pushing onto a normal stack leaves a normal stack.
  lemma {:induction false} PushAllNormal(stack: seq<string>, ps: seq<string>)
    requires Normal(stack) && Plain(ps)
    ensures Normal(PushAll(stack, ps))
    decreases |ps|
  {
    if ps != [] {
      PushAllNormal(PushPiece(stack, ps[0]), ps[1..]);
    }
  }

  lemma {:induction false} PushAllRooted(stack: seq<string>, ps: seq<string>)
    requires Rooted(stack) && Plain(ps)
    ensures Rooted(PushAll(stack, ps))
    decreases |ps|
  {
    if ps != [] {
      var next := PushPiece(stack, ps[0]);
      PushAllRooted(next, ps[1..]);
    }
  }

  // Pieces that are already normal are pushed unchanged.
  lemma {:induction false} PushAllKeeps(stack: seq<string>, ps: seq<string>)
    requires Normal(stack + ps)
    ensures PushAll(stack, ps) == stack + ps
    decreases |ps|
  {
    if ps == [] {
      assert stack + ps == stack;
    } else {
      assert (stack + ps)[|stack|] == ps[0];
      if ps[0] == "../" && stack != [] {
        assert (stack + ps)[|stack| - 1] == "../";
      }
      assert PushPiece(stack, ps[0]) == stack + [ps[0]];
      assert (stack + [ps[0]]) + ps[1..] == stack + ps;
      PushAllKeeps(stack + [ps[0]], ps[1..]);
    }
  }

  lemma {:induction false} PushAllOrdinary(stack: seq<string>, ps: seq<string>)
    requires AllOrdinary(ps)
    ensures PushAll(stack, ps) == stack + ps
    decreases |ps|
  {
    if ps == [] {
      assert stack + ps == stack;
    } else {
      PushAllOrdinary(stack + [ps[0]], ps[1..]);
      assert (stack + [ps[0]]) + ps[1..] == stack + ps;
    }
  }

  // Normalising first changes nothing: the stack result depends only on the normal form.
  lemma AbsorbsOne(stack: seq<string>, n: seq<string>, last: string)
    requires Normal(n) && last != "/"
    ensures PushAll(stack, PushPiece(n, last)) == PushPiece(PushAll(stack, n), last)
  {
    hide PushAll;
    if last == "../" && n != [] && n[|n| - 1] != "../" {
      var m, y := n[..|n| - 1], n[|n| - 1];
      assert n == m + [y];
      PushAllSnoc(stack, m, y);
    } else if last != "./" {
      PushAllSnoc(stack, n, last);
    }
  }

  lemma {:induction false} PushAllAbsorbs(stack: seq<string>, ps: seq<string>)
    requires Plain(ps)
    ensures PushAll(stack, PushAll([], ps)) == PushAll(stack, ps)
    decreases |ps|
  {
    hide PushPiece, Normal;
    assert Normal([]) by { NothingNormal(); }
    if ps != [] {
      var front, last := ps[..|ps| - 1], ps[|ps| - 1];
      var n := PushAll([], front);
      assert ps == front + [last];
      PushAllAbsorbs(stack, front);
      PushAllNormal([], front);
      PushAllSnoc([], front, last);
      PushAllSnoc(stack, front, last);
      AbsorbsOne(stack, n, last);
    }
  }

  // ----- climbing out of a folder -----

  function Ups(n: nat): (r: seq<string>)
    ensures |r| == n && forall i :: 0 <= i < n ==> r[i] == "../"
  {
    seq(n, i => "../")
  }

  // As many steps up as ordinary folders were entered lead back.
  lemma {:induction false} UpsUndo(stack: seq<string>, folders: seq<string>)
    requires AllOrdinary(folders)
    ensures PushAll(stack + folders, Ups(|folders|)) == stack
    decreases |folders|
  {
    if folders == [] {
      assert stack + folders == stack;
    } else {
      var n := |folders| - 1;
      assert Ups(n + 1)[1..] == Ups(n);
      assert (stack + folders)[..|stack + folders| - 1] == stack + folders[..n];
      assert PushPiece(stack + folders, "../") == stack + folders[..n];
      UpsUndo(stack, folders[..n]);
    }
  }

  // How much deeper the stack gets: one for an ordinary piece, minus one for each `../`.
  function Depth(ps: seq<string>): int {
    if ps == [] then 0
    else (if ps[0] == "../" then -1 else if ps[0] == "./" then 0 else 1) + Depth(ps[1..])
  }

  lemma {:induction false} DepthAppend(a: seq<string>, b: seq<string>)
    ensures Depth(a + b) == Depth(a) + Depth(b)
  {
    if a == [] {
      assert a + b == b;
    } else {
      DepthAppend(a[1..], b);
      assert (a + b)[1..] == a[1..] + b;
    }
  }

  lemma {:induction false} DepthPushAll(stack: seq<string>, ps: seq<string>)
    requires Normal(stack) && Plain(ps)
    ensures Depth(PushAll(stack, ps)) == Depth(stack) + Depth(ps)
    decreases |ps|
  {
    if ps != [] {
      var next := PushPiece(stack, ps[0]);
      if |next| < |stack| {
        DepthAppend(next, [stack[|stack| - 1]]);
        assert stack == next + [stack[|stack| - 1]];
      } else if |next| > |stack| {
        DepthAppend(stack, [ps[0]]);
      }
      DepthPushAll(next, ps[1..]);
    }
  }

  lemma {:induction false} DepthUps(n: nat)
    ensures Depth(Ups(n)) + n == 0
  {
    if n > 0 {
      assert Ups(n)[1..] == Ups(n - 1);
      DepthUps(n - 1);
    }
  }

  // Only ordinary pieces make the stack as much deeper as there are pieces.
  lemma {:induction false} DepthAtMost(ps: seq<string>)
    requires Plain(ps)
    ensures Depth(ps) <= |ps|
    ensures Depth(ps) == |ps| ==> AllOrdinary(ps)
  {
    if ps != [] {
      DepthAtMost(ps[1..]);
      if Depth(ps) == |ps| {
        forall i | 0 <= i < |ps|
          ensures Ordinary(ps[i])
        {
          if i > 0 {
            assert Ordinary(ps[1..][i - 1]);
          }
        }
      }
    }
  }

  // An empty segment on the stack is never removed again.
  lemma {:induction false} EmptySegmentStays(stack: seq<string>, ps: seq<string>)
    requires "/" in stack || "/" in ps
    ensures "/" in PushAll(stack, ps)
    decreases |ps|
  {
    if ps == [] {
    } else {
      var next := PushPiece(stack, ps[0]);
      assert "/" in next || "/" in ps[1..] by {
        if "/" in stack {
          var i :| 0 <= i < |stack| && stack[i] == "/";
          assert next[i] == "/";
        } else if ps[0] == "/" {
          assert next[|stack|] == "/";
        } else {
          var i :| 0 <= i < |ps| && ps[i] == "/";
          assert ps[1..][i - 1] == "/";
        }
      }
      EmptySegmentStays(next, ps[1..]);
    }
  }
}
