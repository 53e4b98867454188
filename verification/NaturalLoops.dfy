/** Natural loops by paths: what the body of a header is, how two bodies lie to each
    other, and when the graph without its back edges has a cycle. */
module NaturalLoops {
  import opened Graphs

  /** An edge whose target dominates its source. */
  ghost predicate BackEdge(g: Cfg, b: BlockId, h: BlockId) {
    g.Edge(b, h) && Dominates(g, ENTRY, h, b)
  }

  ghost predicate IsHeader(g: Cfg, h: BlockId) {
    exists b: nat :: BackEdge(g, b, h)
  }

  /** A path of reachable blocks from `x` to a latch of `h` that does not pass `h`. */
  ghost predicate ReturnsBy(g: Cfg, h: BlockId, x: BlockId, p: seq<BlockId>) {
    IsPath(g, p) && p[0] == x && BackEdge(g, p[|p| - 1], h) && h !in p && Reaches(g, ENTRY, x)
  }

  /** The natural loop of `h`: the header, and what returns to it. */
  ghost predicate InBody(g: Cfg, h: BlockId, x: BlockId) {
    IsHeader(g, h) && (x == h || exists p :: ReturnsBy(g, h, x, p))
  }

  lemma HeaderReached(g: Cfg, h: BlockId)
    requires IsHeader(g, h)
    ensures g.Has(h) && Reaches(g, ENTRY, h)
  {
    var b: nat :| BackEdge(g, b, h);
    DominatorReaches(g, ENTRY, h, b);
  }

  /** A header dominates its whole body. */
  lemma HeaderDominatesBody(g: Cfg, h: BlockId, x: BlockId)
    requires InBody(g, h, x)
    ensures Dominates(g, ENTRY, h, x)
  {
    HeaderReached(g, h);
    if x == h {
      DominatesSelf(g, ENTRY, h);
    } else {
      var p :| ReturnsBy(g, h, x, p);
      forall q | Connects(g, ENTRY, x, q)
        ensures h in q
      {
        PathJoin(g, ENTRY, x, p[|p| - 1], q, p);
      }
    }
  }

  /** Every block of a path returning to a header is in its body. */
  lemma ReturnsInBody(g: Cfg, h: BlockId, x: BlockId, p: seq<BlockId>, i: nat)
    requires ReturnsBy(g, h, x, p) && i < |p|
    ensures InBody(g, h, p[i])
  {
    var q :| Connects(g, ENTRY, x, q);
    PathSlice(g, p, 0, i + 1);
    PathJoin(g, ENTRY, x, p[i], q, p[0..i + 1]);
    PathSlice(g, p, i, |p|);
    assert ReturnsBy(g, h, p[i], p[i..]);
  }

  /** From a dominator to a block it dominates, a path that avoids what dominates it strictly. */
  lemma AvoidsAbove(g: Cfg, a: BlockId, d: BlockId, x: BlockId) returns (p: seq<BlockId>)
    requires StrictlyDominates(g, ENTRY, a, d) && Dominates(g, ENTRY, d, x)
    ensures Connects(g, d, x, p) && a !in p
  {
    var q :| Connects(g, ENTRY, x, q);
    var k := LastOf(q, d);
    PathSlice(g, q, k, |q|);
    p := q[k..];
    assert forall i :: 0 < i < |p| ==> p[i] == q[k + i];
    if a in p {
      GoesRound(g, a, d, x, p);
    }
  }

  /** A path to `a` that avoids `d`, then on from `a` without `d`, would reach `x` without it. */
  lemma GoesRound(g: Cfg, a: BlockId, d: BlockId, x: BlockId, p: seq<BlockId>)
    requires StrictlyDominates(g, ENTRY, a, d) && Connects(g, d, x, p) && a in p
    requires forall i :: 0 < i < |p| ==> p[i] != d
    ensures !Dominates(g, ENTRY, d, x)
  {
    var r := ReachesWithout(g, a, d);
    var j :| 0 <= j < |p| && p[j] == a;
    PathSlice(g, p, j, |p|);
    PathJoin(g, ENTRY, a, x, r, p[j..]);
    assert d !in p[j..];
  }

  lemma ReachesWithout(g: Cfg, a: BlockId, d: BlockId) returns (r: seq<BlockId>)
    requires StrictlyDominates(g, ENTRY, a, d)
    ensures Connects(g, ENTRY, a, r) && d !in r
  {
    DominatorReaches(g, ENTRY, a, d);
    if Dominates(g, ENTRY, d, a) {
      DominatesAntisymmetric(g, ENTRY, a, d);
    }
    r :| Connects(g, ENTRY, a, r) && d !in r;
  }

  lemma {:induction false} LastOf(p: seq<BlockId>, d: BlockId) returns (k: nat)
    requires d in p
    ensures k < |p| && p[k] == d && forall i :: k < i < |p| ==> p[i] != d
  {
    var n := |p| - 1;
    if p[n] == d {
      k := n;
    } else {
      assert p == p[..n] + [p[n]];
      k := LastOf(p[..n], d);
    }
  }

  /** A loop whose header a strictly dominating header shares a block with lies inside
      that header's loop. */
  lemma InnerBodyInside(g: Cfg, h: BlockId, inner: BlockId, x: BlockId, y: BlockId)
    requires StrictlyDominates(g, ENTRY, h, inner)
    requires InBody(g, h, x) && InBody(g, inner, x) && InBody(g, inner, y)
    ensures InBody(g, h, y)
  {
    hide Dominates, Reaches, IsHeader;
    HeaderDominatesBody(g, inner, x);
    if x == h {
      DominatesAntisymmetric(g, ENTRY, h, inner);
    } else {
      // inner, on to x, on to a latch of h, never passing h.
      var p := AvoidsAbove(g, h, inner, x);
      var q :| ReturnsBy(g, h, x, q);
      PathJoin(g, inner, x, q[|q| - 1], p, q);
      var back := p + q[1..];
      if y == inner {
        HeaderReached(g, inner);
        assert ReturnsBy(g, h, y, back);
      } else {
        var r :| ReturnsBy(g, inner, y, r);
        NeverAbove(g, h, inner, y, r);
        PathExtend(g, y, r[|r| - 1], inner, r);
        PathJoin(g, y, inner, q[|q| - 1], r + [inner], back);
        assert ReturnsBy(g, h, y, (r + [inner]) + back[1..]);
      }
    }
  }

  lemma NeverAbove(g: Cfg, h: BlockId, inner: BlockId, y: BlockId, r: seq<BlockId>)
    requires StrictlyDominates(g, ENTRY, h, inner) && ReturnsBy(g, inner, y, r)
    ensures h !in r
  {
    if h in r {
      var i :| 0 <= i < |r| && r[i] == h;
      ReturnsInBody(g, inner, y, r, i);
      HeaderDominatesBody(g, inner, h);
      DominatesAntisymmetric(g, ENTRY, h, inner);
    }
  }

  ghost predicate Inside(g: Cfg, inner: BlockId, h: BlockId) {
    forall y :: InBody(g, inner, y) ==> InBody(g, h, y)
  }

  /** Two loops that share a block are nested, the outer one's header outside the inner. */
  lemma NestedOrDisjoint(g: Cfg, h: BlockId, k: BlockId, x: BlockId)
    requires h != k && InBody(g, h, x) && InBody(g, k, x)
    ensures (Inside(g, k, h) && !InBody(g, k, h)) || (Inside(g, h, k) && !InBody(g, h, k))
  {
    HeaderDominatesBody(g, h, x);
    HeaderDominatesBody(g, k, x);
    DominatorsAreAChain(g, ENTRY, h, k, x);
    if Dominates(g, ENTRY, h, k) {
      StrictlyNested(g, h, k, x);
    } else {
      StrictlyNested(g, k, h, x);
    }
  }

  lemma StrictlyNested(g: Cfg, h: BlockId, inner: BlockId, x: BlockId)
    requires StrictlyDominates(g, ENTRY, h, inner) && InBody(g, h, x) && InBody(g, inner, x)
    ensures Inside(g, inner, h) && !InBody(g, inner, h)
  {
    forall y | InBody(g, inner, y)
      ensures InBody(g, h, y)
    {
      InnerBodyInside(g, h, inner, x, y);
    }
    if InBody(g, inner, h) {
      HeaderDominatesBody(g, inner, h);
      DominatesAntisymmetric(g, ENTRY, h, inner);
    }
  }

  /** A loop holding another's header holds the whole of it. */
  lemma HoldingHeaderHoldsBody(g: Cfg, h: BlockId, k: BlockId)
    requires h != k && IsHeader(g, k) && InBody(g, h, k)
    ensures Inside(g, k, h) && !InBody(g, k, h)
  {
    assert InBody(g, k, k);
    NestedOrDisjoint(g, h, k, k);
  }

  // -- cycles without back edges ---------------------------------------------

  ghost predicate ForwardPath(g: Cfg, p: seq<BlockId>) {
    && IsPath(g, p)
    && forall i :: 0 <= i < |p| - 1 ==> !BackEdge(g, p[i], p[i + 1])
  }

  /** A cycle of reachable blocks none of whose edges is a back edge. */
  ghost predicate ForwardCycle(g: Cfg, p: seq<BlockId>) {
    |p| > 1 && ForwardPath(g, p) && p[0] == p[|p| - 1] && Reaches(g, ENTRY, p[0])
  }

  ghost predicate HasForwardCycle(g: Cfg) {
    exists p :: ForwardCycle(g, p)
  }

  /** Reachable edges lead to blocks finished earlier, except the back edges and the ones listed. */
  ghost predicate Descends(g: Cfg, rank: map<BlockId, nat>, but: seq<(BlockId, BlockId)>) {
    && (forall b :: b in rank <==> Reaches(g, ENTRY, b))
    && (forall b, s :: b in rank && g.Edge(b, s) && !BackEdge(g, b, s) && (b, s) !in but ==> s in rank && rank[s] < rank[b])
  }

  /** The edges but back edges and those listed can be ranked: they have no cycle. */
  ghost predicate AcyclicBut(g: Cfg, but: seq<(BlockId, BlockId)>) {
    exists rank :: Descends(g, rank, but)
  }

  lemma {:induction false} DescendsAlong(g: Cfg, rank: map<BlockId, nat>, p: seq<BlockId>)
    requires Descends(g, rank, []) && ForwardPath(g, p) && p[0] in rank
    ensures p[|p| - 1] in rank && rank[p[|p| - 1]] <= rank[p[0]]
    ensures |p| > 1 ==> rank[p[|p| - 1]] < rank[p[0]]
  {
    if |p| > 1 {
      var q := p[..|p| - 1];
      assert forall i :: 0 <= i < |q| ==> q[i] == p[i];
      DescendsAlong(g, rank, q);
      LastEdge(g, p);
    }
  }

  lemma LastEdge(g: Cfg, p: seq<BlockId>)
    requires ForwardPath(g, p) && |p| > 1
    ensures g.Edge(p[|p| - 2], p[|p| - 1]) && !BackEdge(g, p[|p| - 2], p[|p| - 1])
  {
    assert g.Edge(p[|p| - 2], p[|p| - 2 + 1]) && !BackEdge(g, p[|p| - 2], p[|p| - 2 + 1]);
  }
}
