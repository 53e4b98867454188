/** The control-flow graph: blocks holding a contiguous range of statements,
    with edges kept at both ends, and the paths every analysis is specified by. */
module Graphs {
  type BlockId = nat

  datatype Block = Block(start: nat, end: nat, succs: seq<BlockId>, preds: seq<BlockId>)

  // Block handles are 32-bit, so a graph holds at most this many blocks.
  const MAX_BLOCKS: nat := 0x1_0000_0000

  const ENTRY: BlockId := 0

  datatype Cfg = Cfg(blocks: seq<Block>) {

    /** There is an entry; edges stay inside the graph and are listed at both ends. */
    ghost predicate Valid() {
      && 0 < |blocks| <= MAX_BLOCKS
      && (forall b, s :: 0 <= b < |blocks| && s in blocks[b].succs ==> s < |blocks|)
      && (forall b, p :: 0 <= b < |blocks| && p in blocks[b].preds ==> p < |blocks|)
      && (forall b, s :: 0 <= b < |blocks| && 0 <= s < |blocks| ==>
            (s in blocks[b].succs <==> b in blocks[s].preds))
    }

    /** Statement ranges of distinct blocks are disjoint and in block order. */
    ghost predicate Laid() {
      && (forall b :: 0 <= b < |blocks| ==> blocks[b].start <= blocks[b].end)
      && (forall a, b :: 0 <= a < b < |blocks| ==> blocks[a].end <= blocks[b].start)
    }

    predicate Has(b: BlockId) {
      b < |blocks|
    }

    predicate Edge(a: BlockId, b: BlockId) {
      a < |blocks| && b < |blocks| && b in blocks[a].succs
    }
  }

  ghost predicate IsPath(g: Cfg, p: seq<BlockId>) {
    && p != []
    && (forall i :: 0 <= i < |p| ==> g.Has(p[i]))
    && (forall i :: 0 <= i < |p| - 1 ==> g.Edge(p[i], p[i + 1]))
  }

  ghost predicate Connects(g: Cfg, a: BlockId, b: BlockId, p: seq<BlockId>) {
    IsPath(g, p) && p[0] == a && p[|p| - 1] == b
  }

  ghost predicate Reaches(g: Cfg, a: BlockId, b: BlockId) {
    exists p :: Connects(g, a, b, p)
  }

  /** `a` dominates `b` from `root`: `b` is reachable, and no path to it avoids `a`. */
  ghost predicate Dominates(g: Cfg, root: BlockId, a: BlockId, b: BlockId) {
    Reaches(g, root, b) && forall p :: Connects(g, root, b, p) ==> a in p
  }

  ghost predicate StrictlyDominates(g: Cfg, root: BlockId, a: BlockId, b: BlockId) {
    a != b && Dominates(g, root, a, b)
  }

  lemma PathExtend(g: Cfg, a: BlockId, b: BlockId, c: BlockId, p: seq<BlockId>)
    requires Connects(g, a, b, p) && g.Edge(b, c)
    ensures Connects(g, a, c, p + [c])
  {
  }

  /** Two paths that meet make one, and it passes the blocks of both. */
  lemma PathJoin(g: Cfg, a: BlockId, b: BlockId, c: BlockId, p: seq<BlockId>, q: seq<BlockId>)
    requires Connects(g, a, b, p) && Connects(g, b, c, q)
    ensures Connects(g, a, c, p + q[1..])
    ensures forall x :: x in p + q[1..] <==> x in p || x in q
  {
    var r := p + q[1..];
    assert q == [q[0]] + q[1..];
    assert p[|p| - 1] == q[0];
    forall i | 0 <= i < |r| - 1
      ensures g.Edge(r[i], r[i + 1])
    {
      if i >= |p| - 1 {
        assert r[i] == q[i - |p| + 1] && r[i + 1] == q[i - |p| + 2];
      }
    }
  }

  /** A slice of a path is a path. */
  lemma PathSlice(g: Cfg, p: seq<BlockId>, i: nat, j: nat)
    requires IsPath(g, p) && i < j <= |p|
    ensures Connects(g, p[i], p[j - 1], p[i..j])
  {
    var q := p[i..j];
    forall k | 0 <= k < |q| - 1
      ensures g.Edge(q[k], q[k + 1])
    {
      assert q[k] == p[i + k] && q[k + 1] == p[i + k + 1];
    }
  }

  lemma ReachesStep(g: Cfg, a: BlockId, b: BlockId, c: BlockId)
    requires Reaches(g, a, b) && g.Edge(b, c)
    ensures Reaches(g, a, c)
  {
    var p :| Connects(g, a, b, p);
    PathExtend(g, a, b, c, p);
  }

  lemma ReachesSelf(g: Cfg, a: BlockId)
    requires g.Has(a)
    ensures Reaches(g, a, a)
  {
    assert Connects(g, a, a, [a]);
  }

  /** Every block of a path from the root is reachable from it. */
  lemma OnPathReaches(g: Cfg, root: BlockId, b: BlockId, p: seq<BlockId>, i: nat)
    requires Connects(g, root, b, p) && i < |p|
    ensures Reaches(g, root, p[i]) && Connects(g, root, p[i], p[..i + 1])
  {
    PathSlice(g, p, 0, i + 1);
    assert p[0..i + 1] == p[..i + 1];
  }

  lemma DominatorReaches(g: Cfg, root: BlockId, a: BlockId, b: BlockId)
    requires Dominates(g, root, a, b)
    ensures Reaches(g, root, a)
  {
    var p :| Connects(g, root, b, p);
    var i :| 0 <= i < |p| && p[i] == a;
    OnPathReaches(g, root, b, p, i);
  }

  lemma DominatesSelf(g: Cfg, root: BlockId, b: BlockId)
    requires Reaches(g, root, b)
    ensures Dominates(g, root, b, b)
  {
  }

  lemma DominatesTransitive(g: Cfg, root: BlockId, a: BlockId, b: BlockId, c: BlockId)
    requires Dominates(g, root, a, b) && Dominates(g, root, b, c)
    ensures Dominates(g, root, a, c)
  {
    forall p | Connects(g, root, c, p)
      ensures a in p
    {
      var i :| 0 <= i < |p| && p[i] == b;
      OnPathReaches(g, root, c, p, i);
      assert a in p[..i + 1];
    }
  }

  /** Where the block dominated is not the dominator, it cannot dominate back:
      cut a path at the first of the two it meets. */
  lemma DominatesAntisymmetric(g: Cfg, root: BlockId, a: BlockId, b: BlockId)
    requires Dominates(g, root, a, b) && Dominates(g, root, b, a)
    ensures a == b
  {
    var p :| Connects(g, root, b, p);
    var i :| 0 <= i < |p| && p[i] == a;
    OnPathReaches(g, root, b, p, i);
    ShorterToOther(g, root, a, b, p[..i + 1]);
  }

  lemma {:induction false} ShorterToOther(g: Cfg, root: BlockId, a: BlockId, b: BlockId, p: seq<BlockId>)
    requires Dominates(g, root, a, b) && Dominates(g, root, b, a)
    requires Connects(g, root, a, p)
    ensures a == b
    decreases |p|
  {
    if a != b {
      var i :| 0 <= i < |p| && p[i] == b;
      OnPathReaches(g, root, a, p, i);
      ShorterToOther(g, root, b, a, p[..i + 1]);
    }
  }

  /** A strict dominator of a block dominates each reachable predecessor of it. */
  lemma StrictDominatorOfPred(g: Cfg, root: BlockId, d: BlockId, p: BlockId, b: BlockId)
    requires StrictlyDominates(g, root, d, b)
    requires g.Edge(p, b) && Reaches(g, root, p)
    ensures Dominates(g, root, d, p)
  {
    forall q | Connects(g, root, p, q)
      ensures d in q
    {
      PathExtend(g, root, p, b, q);
      assert d in q + [b];
    }
  }

  /** Two dominators of one block are comparable. */
  lemma DominatorsAreAChain(g: Cfg, root: BlockId, a: BlockId, b: BlockId, c: BlockId)
    requires Dominates(g, root, a, c) && Dominates(g, root, b, c)
    ensures Dominates(g, root, a, b) || Dominates(g, root, b, a)
  {
    DominatorReaches(g, root, a, c);
    DominatorReaches(g, root, b, c);
    if !Dominates(g, root, b, a) {
      var p :| Connects(g, root, c, p);
      var r :| Connects(g, root, a, r) && b !in r;
      var i := LastOfTwo(p, a, b);
      PathSlice(g, p, i, |p|);
      if p[i] == a {
        PathJoin(g, root, a, c, r, p[i..]);
      } else {
        forall q | Connects(g, root, b, q)
          ensures a in q
        {
          PathJoin(g, root, b, c, q, p[i..]);
        }
      }
    }
  }

  lemma {:induction false} LastOfTwo(p: seq<BlockId>, a: BlockId, b: BlockId) returns (i: nat)
    requires a in p || b in p
    ensures i < |p| && (p[i] == a || p[i] == b)
    ensures forall k :: i < k < |p| ==> p[k] != a && p[k] != b
  {
    var n := |p| - 1;
    if p[n] == a || p[n] == b {
      i := n;
    } else {
      assert p == p[..n] + [p[n]];
      i := LastOfTwo(p[..n], a, b);
    }
  }
}
