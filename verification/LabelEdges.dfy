/** The edges labels go along: a loop header's lead to the loop's exits, which on a reducible graph leaves no cycle. */
module LabelEdges {
  import opened Graphs
  import opened NaturalLoops

  /** A header's label edges are its loop's exits, any other block's its own. */
  ghost predicate LabelEdge(g: Cfg, x: BlockId, y: BlockId) {
    if IsHeader(g, x) then exists b: nat :: ExitsBy(g, x, b, y) else g.Edge(x, y)
  }

  ghost predicate ExitsBy(g: Cfg, h: BlockId, b: BlockId, y: BlockId) {
    InBody(g, h, b) && g.Edge(b, y) && !InBody(g, h, y)
  }

  // In the body and not its header.
  ghost predicate Under(g: Cfg, h: BlockId, x: BlockId) {
    InBody(g, h, x) && x != h
  }

  lemma BodyReached(g: Cfg, h: BlockId, x: BlockId)
    requires InBody(g, h, x)
    ensures Reaches(g, ENTRY, x) && Reaches(g, ENTRY, h) && g.Has(x) && IsHeader(g, h)
  {
    HeaderReached(g, h);
    if x != h {
      var p :| ReturnsBy(g, h, x, p);
    }
  }

  lemma LabelEdgeReached(g: Cfg, x: BlockId, y: BlockId)
    requires LabelEdge(g, x, y) && Reaches(g, ENTRY, x)
    ensures Reaches(g, ENTRY, y) && g.Has(y)
  {
    hide InBody;
    if IsHeader(g, x) {
      var b: nat :| ExitsBy(g, x, b, y);
      BodyReached(g, x, b);
      ReachesStep(g, ENTRY, b, y);
    } else {
      ReachesStep(g, ENTRY, x, y);
    }
  }

  // A reachable predecessor of a body's block other than its header is in the body.
  lemma PredInBody(g: Cfg, h: BlockId, x: BlockId, y: BlockId)
    requires g.Edge(x, y) && Reaches(g, ENTRY, x) && InBody(g, h, y) && y != h
    ensures InBody(g, h, x)
  {
    if x != h {
      var p :| ReturnsBy(g, h, y, p);
      var q := [x] + p;
      assert IsPath(g, q) by {
        assert forall i :: 0 < i < |q| ==> q[i] == p[i - 1];
      }
      assert q[|q| - 1] == p[|p| - 1];
      assert ReturnsBy(g, h, x, q);
    }
  }

  /** Into a body from outside leads only an edge to its header. */
  lemma EntersAtHeader(g: Cfg, h: BlockId, x: BlockId, y: BlockId)
    requires g.Edge(x, y) && Reaches(g, ENTRY, x) && InBody(g, h, y) && !InBody(g, h, x)
    ensures y == h
  {
    if y != h {
      PredInBody(g, h, x, y);
    }
  }

  /** And so does a label edge. */
  lemma LabelEntersAtHeader(g: Cfg, h: BlockId, x: BlockId, y: BlockId)
    requires LabelEdge(g, x, y) && Reaches(g, ENTRY, x) && InBody(g, h, y) && !InBody(g, h, x)
    ensures y == h
  {
    hide InBody;
    if IsHeader(g, x) {
      var b: nat :| ExitsBy(g, x, b, y);
      BodyReached(g, x, b);
      if InBody(g, h, b) {
        ExitLeavesOuter(g, h, x, b, y);
      } else {
        EntersAtHeader(g, h, b, y);
      }
    } else {
      EntersAtHeader(g, h, x, y);
    }
  }

  // A loop sharing a block with the body of `h`, but not inside it, holds all of it.
  lemma ExitLeavesOuter(g: Cfg, h: BlockId, k: BlockId, b: BlockId, y: BlockId)
    requires InBody(g, h, b) && InBody(g, k, b) && !InBody(g, h, k) && InBody(g, h, y)
    ensures InBody(g, k, y)
  {
    hide InBody;
    HeadersNested(g, h, k, b);
    HeaderHolds(g, k, h, y);
  }

  lemma HeadersNested(g: Cfg, h: BlockId, k: BlockId, x: BlockId)
    requires InBody(g, h, x) && InBody(g, k, x)
    ensures InBody(g, h, k) || InBody(g, k, h)
  {
    BodyReached(g, h, x);
    BodyReached(g, k, x);
    assert InBody(g, h, h) && InBody(g, k, k);
    if h != k {
      NestedOrDisjoint(g, h, k, x);
    }
  }

  lemma HeaderHolds(g: Cfg, k: BlockId, h: BlockId, y: BlockId)
    requires InBody(g, k, h) && InBody(g, h, y)
    ensures InBody(g, k, y)
  {
    BodyReached(g, h, y);
    if k != h {
      HoldingHeaderHoldsBody(g, k, h);
    }
  }

  // -- paths of label edges --------------------------------------------------------

  ghost predicate LabelPath(g: Cfg, p: seq<BlockId>) {
    p != [] && forall i :: 0 <= i < |p| - 1 ==> LabelEdge(g, p[i], p[i + 1])
  }

  lemma {:induction false} LabelPathReached(g: Cfg, p: seq<BlockId>, i: nat)
    requires LabelPath(g, p) && i < |p| && Reaches(g, ENTRY, p[0])
    ensures Reaches(g, ENTRY, p[i])
  {
    hide LabelEdge;
    if i > 0 {
      LabelPathReached(g, p, i - 1);
      assert LabelEdge(g, p[i - 1], p[i - 1 + 1]);
      LabelEdgeReached(g, p[i - 1], p[i]);
    }
  }

  /** A path of label edges never comes to be under a header it is not under. */
  lemma {:induction false} NeverUnder(g: Cfg, h: BlockId, p: seq<BlockId>, i: nat)
    requires LabelPath(g, p) && i < |p| && Reaches(g, ENTRY, p[0]) && !Under(g, h, p[0])
    ensures !Under(g, h, p[i])
  {
    hide LabelEdge, InBody;
    if i > 0 {
      NeverUnder(g, h, p, i - 1);
      LabelPathReached(g, p, i - 1);
      assert LabelEdge(g, p[i - 1], p[i - 1 + 1]);
      StepNotUnder(g, h, p[i - 1], p[i]);
    }
  }

  lemma LeavesOwnBody(g: Cfg, h: BlockId, y: BlockId)
    requires LabelEdge(g, h, y) && IsHeader(g, h)
    ensures !InBody(g, h, y)
  {
  }

  lemma StepNotUnder(g: Cfg, h: BlockId, x: BlockId, y: BlockId)
    requires LabelEdge(g, x, y) && Reaches(g, ENTRY, x) && !Under(g, h, x)
    ensures !Under(g, h, y)
  {
    hide InBody;
    if InBody(g, h, y) && y != h {
      if x == h {
        BodyReached(g, h, y);
        LeavesOwnBody(g, h, y);
      } else {
        LabelEntersAtHeader(g, h, x, y);
      }
    }
  }

  // A step to the header of a loop it starts under.
  ghost predicate Returns(g: Cfg, x: BlockId, y: BlockId) {
    Under(g, y, x)
  }

  /** Every reachable block is at the end of a path from the entry without back edges. */
  lemma {:induction false} ForwardFromEntry(g: Cfg, b: BlockId, p: seq<BlockId>) returns (q: seq<BlockId>)
    requires Connects(g, ENTRY, b, p)
    ensures Connects(g, ENTRY, b, q) && ForwardPath(g, q)
    decreases |p|
  {
    var i :| 0 <= i < |p| && p[i] == b;
    if |p| == 1 {
      q := p;
    } else if b in p[..|p| - 1] {
      var j :| 0 <= j < |p| - 1 && p[j] == b;
      OnPathReaches(g, ENTRY, b, p, j);
      q := ForwardFromEntry(g, b, p[..j + 1]);
    } else {
      var y := p[|p| - 2];
      OnPathReaches(g, ENTRY, b, p, |p| - 2);
      assert p[..|p| - 2 + 1] == p[..|p| - 1];
      var r := ForwardFromEntry(g, y, p[..|p| - 1]);
      assert g.Edge(p[|p| - 2], p[|p| - 2 + 1]);
      assert !BackEdge(g, y, b) by {
        assert Connects(g, ENTRY, y, p[..|p| - 1]) && b !in p[..|p| - 1];
      }
      PathExtend(g, ENTRY, y, b, r);
      q := r + [b];
      forall k | 0 <= k < |q| - 1 ensures !BackEdge(g, q[k], q[k + 1]) {
        if k < |r| - 1 {
          assert !BackEdge(g, r[k], r[k + 1]);
        }
      }
    }
  }

  lemma ForwardSlice(g: Cfg, p: seq<BlockId>, i: nat)
    requires ForwardPath(g, p) && i < |p|
    ensures ForwardPath(g, p[i..])
  {
    hide BackEdge;
    PathSlice(g, p, i, |p|);
    assert p[i..|p|] == p[i..];
    var q := p[i..];
    forall k | 0 <= k < |q| - 1 ensures !BackEdge(g, q[k], q[k + 1]) {
      assert q[k] == p[i + k] && q[k + 1] == p[i + k + 1];
    }
  }

  lemma ForwardExtend(g: Cfg, p: seq<BlockId>, y: BlockId)
    requires ForwardPath(g, p) && g.Edge(p[|p| - 1], y) && !BackEdge(g, p[|p| - 1], y)
    ensures ForwardPath(g, p + [y])
  {
    hide BackEdge;
    PathExtend(g, p[0], p[|p| - 1], y, p);
    var q := p + [y];
    forall k | 0 <= k < |q| - 1 ensures !BackEdge(g, q[k], q[k + 1]) {
      if k < |p| - 1 {
        assert q[k] == p[k] && q[k + 1] == p[k + 1];
        assert !BackEdge(g, p[k], p[k + 1]);
      }
    }
  }

  lemma ForwardJoin(g: Cfg, p: seq<BlockId>, q: seq<BlockId>)
    requires ForwardPath(g, p) && ForwardPath(g, q) && p[|p| - 1] == q[0]
    ensures ForwardPath(g, p + q[1..]) && (p + q[1..])[0] == p[0] && (p + q[1..])[|p| + |q| - 2] == q[|q| - 1]
  {
    hide BackEdge;
    PathJoin(g, p[0], q[0], q[|q| - 1], p, q);
    var r := p + q[1..];
    forall k | 0 <= k < |r| - 1 ensures !BackEdge(g, r[k], r[k + 1]) {
      if k < |p| - 1 {
        assert r[k] == p[k] && r[k + 1] == p[k + 1];
      } else {
        assert r[k] == q[k - |p| + 1] && r[k + 1] == q[k - |p| + 2];
      }
    }
  }

  /** From a header to each block of its body leads a path without back edges. */
  lemma ForwardInBody(g: Cfg, h: BlockId, b: BlockId) returns (q: seq<BlockId>)
    requires InBody(g, h, b)
    ensures ForwardPath(g, q) && q[0] == h && q[|q| - 1] == b
  {
    HeaderDominatesBody(g, h, b);
    var p :| Connects(g, ENTRY, b, p);
    var r := ForwardFromEntry(g, b, p);
    assert h in r;
    var i :| 0 <= i < |r| && r[i] == h;
    ForwardSlice(g, r, i);
    q := r[i..];
  }

  lemma LatchUnder(g: Cfg, b: BlockId, h: BlockId)
    requires BackEdge(g, b, h)
    ensures InBody(g, h, b)
  {
    assert IsHeader(g, h);
    if b != h {
      var p :| Connects(g, ENTRY, b, p);
      assert ReturnsBy(g, h, b, [b]);
    }
  }

  /** A label step that does not return to its own loop's header is a path without back edges. */
  lemma StepForward(g: Cfg, x: BlockId, y: BlockId) returns (q: seq<BlockId>)
    requires LabelEdge(g, x, y) && Reaches(g, ENTRY, x) && !Returns(g, x, y)
    ensures ForwardPath(g, q) && |q| > 1 && q[0] == x && q[|q| - 1] == y
  {
    hide InBody;
    if IsHeader(g, x) {
      var b: nat :| ExitsBy(g, x, b, y);
      var r := ForwardInBody(g, x, b);
      if BackEdge(g, b, y) {
        LatchUnder(g, b, y);
        HeadersNested(g, x, y, b);
        OwnBody(g, y, x, b);
      }
      ForwardExtend(g, r, y);
      q := r + [y];
    } else {
      if BackEdge(g, x, y) {
        LatchUnder(g, x, y);
        OwnBody(g, y, x, x);
      }
      q := [x, y];
    }
  }

  lemma OwnBody(g: Cfg, y: BlockId, x: BlockId, b: BlockId)
    requires InBody(g, y, b)
    ensures InBody(g, y, y)
  {
    BodyReached(g, y, b);
  }

  lemma {:induction false} PathForward(g: Cfg, p: seq<BlockId>) returns (q: seq<BlockId>)
    requires LabelPath(g, p) && Reaches(g, ENTRY, p[0]) && g.Has(p[0])
    requires forall i :: 0 <= i < |p| - 1 ==> !Returns(g, p[i], p[i + 1])
    ensures ForwardPath(g, q) && q[0] == p[0] && q[|q| - 1] == p[|p| - 1] && (|p| > 1 ==> |q| > 1)
  {
    hide LabelEdge, Returns, BackEdge;
    if |p| == 1 {
      q := p;
    } else {
      var n := |p| - 2;
      var front := p[..n + 1];
      forall i | 0 <= i < |front| - 1 ensures LabelEdge(g, front[i], front[i + 1]) && !Returns(g, front[i], front[i + 1]) {
        assert front[i] == p[i] && front[i + 1] == p[i + 1];
      }
      var r := PathForward(g, front);
      LabelPathReached(g, p, n);
      assert LabelEdge(g, p[n], p[n + 1]) && !Returns(g, p[n], p[n + 1]);
      var s := StepForward(g, p[n], p[n + 1]);
      ForwardJoin(g, r, s);
      q := r + s[1..];
    }
  }

  /** On a reducible graph no path of label edges from a reachable block comes back to it. */
  lemma LabelEdgesAcyclic(g: Cfg, p: seq<BlockId>)
    requires LabelPath(g, p) && |p| > 1 && Reaches(g, ENTRY, p[0]) && g.Has(p[0])
    requires !HasForwardCycle(g)
    ensures p[0] != p[|p| - 1]
  {
    if p[0] == p[|p| - 1] {
      LabelCycleIsForward(g, p);
    }
  }

  // A path of label edges coming back gives a cycle without back edges.
  lemma LabelCycleIsForward(g: Cfg, p: seq<BlockId>)
    requires LabelPath(g, p) && |p| > 1 && Reaches(g, ENTRY, p[0]) && g.Has(p[0]) && p[0] == p[|p| - 1]
    ensures HasForwardCycle(g)
  {
    hide LabelEdge, InBody, ForwardPath;
    forall i | 0 <= i < |p| - 1 ensures !Returns(g, p[i], p[i + 1]) {
      RoundNotUnder(g, p, i);
    }
    var q := PathForward(g, p);
    assert ForwardCycle(g, q);
  }

  // Around the cycle from the header returned to, its loop is not entered again.
  lemma RoundNotUnder(g: Cfg, p: seq<BlockId>, i: nat)
    requires LabelPath(g, p) && i < |p| - 1 && Reaches(g, ENTRY, p[0]) && p[0] == p[|p| - 1]
    ensures !Returns(g, p[i], p[i + 1])
  {
    hide LabelEdge, InBody;
    var h := p[i + 1];
    var after := p[i + 1..];
    forall k | 0 <= k < |after| - 1 ensures LabelEdge(g, after[k], after[k + 1]) {
      assert after[k] == p[i + 1 + k] && after[k + 1] == p[i + 1 + k + 1];
    }
    LabelPathReached(g, p, i + 1);
    NeverUnder(g, h, after, |after| - 1);
    assert after[|after| - 1] == p[|p| - 1];
    NeverUnder(g, h, p, i);
  }
}
