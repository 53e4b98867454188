/** The stays a path makes in a loop, and how many trips each makes. */
module LoopStays {
  import opened Wrappers
  import opened Graphs
  import opened Dominators
  import opened NaturalLoops
  import opened Loops
  import opened LoopForest
  import opened Ssa

  // How many of the first `n` blocks of the path are `h`.
  ghost function Times(p: seq<BlockId>, h: BlockId, n: nat): nat
    requires n <= |p|
  {
    if n == 0 then 0 else Times(p, h, n - 1) + if p[n - 1] == h then 1 else 0
  }

  lemma {:induction false} TimesBetween(p: seq<BlockId>, h: BlockId, i: nat, j: nat)
    requires i < j <= |p| && p[i] == h && forall t :: i < t < j ==> p[t] != h
    ensures Times(p, h, j) == Times(p, h, i + 1)
    decreases j
  {
    if i + 1 < j {
      TimesBetween(p, h, i, j - 1);
    }
  }

  lemma {:induction false} TimesPrefix(p: seq<BlockId>, h: BlockId, n: nat, t: nat)
    requires t <= n <= |p|
    ensures Times(p[..n], h, t) == Times(p, h, t)
  {
    if t > 0 {
      TimesPrefix(p, h, n, t - 1);
    }
  }

  /** The trips the path's first `t` blocks made in the loop since they last entered it. */
  ghost function Stay(g: Cfg, h: BlockId, p: seq<BlockId>, t: nat): nat
    requires t <= |p|
  {
    if t == 0 then 0
    else if p[t - 1] != h then Stay(g, h, p, t - 1)
    else if t >= 2 && InBody(g, h, p[t - 2]) then Stay(g, h, p, t - 1) + 1
    else 1
  }

  lemma {:induction false} StayPrefix(g: Cfg, h: BlockId, p: seq<BlockId>, n: nat, t: nat)
    requires t <= n <= |p|
    ensures Stay(g, h, p[..n], t) == Stay(g, h, p, t)
  {
    if t > 0 {
      StayPrefix(g, h, p, n, t - 1);
    }
  }

  lemma {:induction false} StayBetween(g: Cfg, h: BlockId, p: seq<BlockId>, i: nat, j: nat)
    requires i <= j <= |p| && forall t :: i <= t < j ==> p[t] != h
    ensures Stay(g, h, p, j) == Stay(g, h, p, i)
    decreases j
  {
    if i < j {
      StayBetween(g, h, p, i, j - 1);
    }
  }

  // A loop is come into at its header only.
  lemma IntoBody(g: Cfg, h: BlockId, y: BlockId, x: BlockId)
    requires g.Edge(y, x) && InBody(g, h, x) && x != h && Reaches(g, ENTRY, y) && g.Has(y)
    ensures InBody(g, h, y)
  {
    if y != h {
      var p :| ReturnsBy(g, h, x, p);
      var q := [y] + p;
      forall i | 0 <= i < |q| - 1 ensures g.Edge(q[i], q[i + 1]) {
        if i > 0 {
          assert g.Edge(p[i - 1], p[i]);
        }
      }
      assert q[|q| - 1] == p[|p| - 1];
      assert ReturnsBy(g, h, y, q);
    }
  }

  lemma EntryInBody(g: Cfg, h: BlockId)
    requires g.Has(ENTRY) && InBody(g, h, ENTRY)
    ensures h == ENTRY
  {
    HeaderDominatesBody(g, h, ENTRY);
    assert Connects(g, ENTRY, ENTRY, [ENTRY]);
    assert h in [ENTRY];
  }

  // The stay the path is in at `t`: `e` on, all in the loop, its trips counted from its first block.
  ghost predicate StaysFrom(g: Cfg, h: BlockId, p: seq<BlockId>, e: nat, t: nat) {
    && e <= t < |p| && p[e] == h && (e > 0 ==> !InBody(g, h, p[e - 1]))
    && forall j :: e <= j <= t ==> InBody(g, h, p[j])
  }

  /** A stay starts at the loop's header, and makes as many trips as it runs the header. */
  lemma {:induction false} StayStarts(g: Cfg, h: BlockId, p: seq<BlockId>, t: nat) returns (e: nat)
    requires IsPath(g, p) && p[0] == ENTRY && t < |p| && InBody(g, h, p[t])
    ensures StaysFrom(g, h, p, e, t) && Stay(g, h, p, t + 1) == Times(p, h, t + 1) - Times(p, h, e)
  {
    hide InBody;
    if t == 0 {
      EntryInBody(g, h);
      e := 0;
    } else if p[t] == h && !InBody(g, h, p[t - 1]) {
      e := t;
    } else {
      assert g.Edge(p[t - 1], p[t - 1 + 1]);
      if p[t] != h {
        PathSlice(g, p, 0, t);
        assert Connects(g, ENTRY, p[t - 1], p[0..t]);
        IntoBody(g, h, p[t - 1], p[t]);
      }
      e := StayStarts(g, h, p, t - 1);
    }
  }

  /** Each time the path leaves the loop from `e` on, or ends in it, it made `n` trips in it. */
  ghost predicate Laps(g: Cfg, h: BlockId, p: seq<BlockId>, e: nat, n: int) {
    forall t: nat :: e <= t < |p| && Leaves(g, h, p, t) ==> Stay(g, h, p, t + 1) == n
  }

  ghost predicate Leaves(g: Cfg, h: BlockId, p: seq<BlockId>, t: nat)
    requires t < |p|
  {
    InBody(g, h, p[t]) && (t + 1 < |p| ==> !InBody(g, h, p[t + 1]))
  }

  lemma LapsLater(g: Cfg, h: BlockId, p: seq<BlockId>, e: nat, e': nat, n: int)
    requires e <= e' && Laps(g, h, p, e, n)
    ensures Laps(g, h, p, e', n)
  {
    hide Stay, Leaves;
  }

  // A part of the path that ends outside the loop, or where it leaves it, makes the laps the path makes.
  lemma LapsPrefix(g: Cfg, h: BlockId, p: seq<BlockId>, e: nat, n: int, m: nat)
    requires 0 < m <= |p| && Laps(g, h, p, e, n)
    requires m == |p| || !InBody(g, h, p[m - 1]) || !InBody(g, h, p[m])
    ensures Laps(g, h, p[..m], e, n)
  {
    hide InBody, Stay;
    var q := p[..m];
    forall t: nat | e <= t < |q| && Leaves(g, h, q, t) ensures Stay(g, h, q, t + 1) == n {
      assert q[t] == p[t] && (t + 1 < m ==> q[t + 1] == p[t + 1]);
      assert Leaves(g, h, p, t);
      StayPrefix(g, h, p, m, t + 1);
    }
  }

  // The loops directly in a loop, and the blocks in none of them.
  ghost predicate ChildOf(f: Forest, l: LoopId, c: LoopId) {
    c < |f.loops| && f.loops[c].parent == Some(l)
  }

  ghost predicate Outside(f: Forest, l: LoopId, b: BlockId) {
    forall c: nat :: ChildOf(f, l, c) ==> b !in f.loops[c].blocks
  }

  lemma ChildInside(g: Cfg, f: Forest, l: LoopId, c: LoopId)
    requires ForestOf(g, f) && ChildOf(f, l, c)
    ensures l < |f.loops| && (forall x: nat :: x in f.loops[c].blocks ==> x in f.loops[l].blocks)
    ensures f.loops[l].header !in f.loops[c].blocks && f.loops[c].header in f.loops[l].blocks
  {
    hide DominanceOf, InBody, IsHeader, HasForwardCycle, AcyclicBut, InnermostIs;
    ParentContains(f, l, c);
    ContainedIsInside(g, f.loops, l, c);
  }

  lemma ParentContains(f: Forest, l: LoopId, c: LoopId)
    requires Nested(f.loops) && ChildOf(f, l, c)
    ensures Contains(f.loops, l, c)
  {
  }

  lemma BodyIsBlocks(g: Cfg, f: Forest, l: LoopId, x: BlockId)
    requires ForestOf(g, f) && l < |f.loops|
    ensures x in f.loops[l].blocks <==> InBody(g, f.loops[l].header, x)
  {
    hide DominanceOf, Nested, InBody, IsHeader, HasForwardCycle, AcyclicBut, InnermostIs;
  }

  /** Outside a loop, or at its header, or in a block of its own, no loop directly in it is stayed in. */
  lemma OutsideWhere(g: Cfg, f: Forest, l: LoopId, b: BlockId)
    requires ForestOf(g, f) && l < |f.loops| && b < |f.blockLoop|
    requires b !in f.loops[l].blocks || b == f.loops[l].header || f.blockLoop[b] == Some(l)
    ensures Outside(f, l, b)
  {
    hide DominanceOf, InBody, HasForwardCycle, AcyclicBut;
    forall c: nat | ChildOf(f, l, c) ensures b !in f.loops[c].blocks {
      ChildInside(g, f, l, c);
      ParentContains(f, l, c);
      if f.blockLoop[b] == Some(l) && b in f.loops[c].blocks {
        NotBelowInnermost(g, f, l, c, b);
      }
    }
  }

  lemma NotBelowInnermost(g: Cfg, f: Forest, l: LoopId, c: LoopId, b: BlockId)
    requires ForestOf(g, f) && ChildOf(f, l, c) && b < |g.blocks| && f.blockLoop[b] == Some(l)
    ensures b !in f.loops[c].blocks
  {
    hide DominanceOf, InBody, HasForwardCycle, AcyclicBut, Nested;
    ChildInside(g, f, l, c);
    assert InnermostIs(f.loops, b, f.blockLoop[b]);
  }

  // Two blocks of a path that no loop directly in the loop holds both of.
  ghost predicate Unshared(f: Forest, l: LoopId, a: BlockId, b: BlockId) {
    forall c: nat :: ChildOf(f, l, c) ==> a !in f.loops[c].blocks || b !in f.loops[c].blocks
  }

  lemma UnsharedChild(g: Cfg, f: Forest, l: LoopId, c: LoopId, a: BlockId, b: BlockId)
    requires ForestOf(g, f) && ChildOf(f, l, c) && Unshared(f, l, a, b)
    ensures Unshared(f, c, a, b)
  {
    hide ForestOf;
    forall x: nat | ChildOf(f, c, x) ensures a !in f.loops[x].blocks || b !in f.loops[x].blocks {
      ChildInside(g, f, c, x);
    }
  }

  lemma SiblingsApart(g: Cfg, f: Forest, l: LoopId, c: LoopId, x: LoopId)
    requires ForestOf(g, f) && ChildOf(f, l, c) && ChildOf(f, l, x) && c != x
    ensures f.loops[c].header !in f.loops[x].blocks
  {
    hide DominanceOf, InBody, IsHeader, HasForwardCycle, AcyclicBut, InnermostIs;
    if Contains(f.loops, x, c) {
      ParentContains(f, l, x);
      ContainedIsInside(g, f.loops, l, x);
      NearestParent(f, l, c, x);
      if x != l {
        ContainedIsInside(g, f.loops, x, l);
      }
    }
  }

  lemma NearestParent(f: Forest, l: LoopId, c: LoopId, x: LoopId)
    requires Nested(f.loops) && ChildOf(f, l, c) && Contains(f.loops, x, c)
    ensures x == l || Contains(f.loops, x, l)
  {
  }

  /** Entering a loop directly in the loop parts every one of those. */
  lemma EntryUnshared(g: Cfg, f: Forest, l: LoopId, c: LoopId, a: BlockId)
    requires ForestOf(g, f) && ChildOf(f, l, c) && a !in f.loops[c].blocks
    ensures Unshared(f, l, a, f.loops[c].header)
  {
    hide ForestOf;
    forall x: nat | ChildOf(f, l, x) && x != c ensures f.loops[c].header !in f.loops[x].blocks {
      SiblingsApart(g, f, l, c, x);
    }
  }

  // Where a stay the path is in at `t` ends: at the path's end, or before the first block that is not in the loop.
  lemma {:induction false} StayEnds(g: Cfg, h: BlockId, p: seq<BlockId>, t: nat) returns (x: nat)
    requires t < |p| && InBody(g, h, p[t])
    ensures t < x <= |p| && Leaves(g, h, p, x - 1) && forall j :: t <= j < x ==> InBody(g, h, p[j])
    decreases |p| - t
  {
    hide InBody;
    if t + 1 == |p| || !InBody(g, h, p[t + 1]) {
      x := t + 1;
    } else {
      x := StayEnds(g, h, p, t + 1);
    }
  }
}
