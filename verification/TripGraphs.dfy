/** Graphs made from a graph: without given edges, and turned around with an exit, where post-dominance is dominance. */
module TripGraphs {
  import opened Graphs

  type Edges = (BlockId, BlockId) -> bool

  // A block with no successor or an edge not kept: a trip ends there.
  predicate EndsTrip(g: Cfg, kept: Edges, x: BlockId) {
    x < |g.blocks| && (g.blocks[x].succs == [] || exists s :: s in g.blocks[x].succs && !kept(x, s))
  }

  function Only(x: BlockId, s: seq<BlockId>, kept: Edges): (out: seq<BlockId>)
    ensures forall y :: y in out <==> y in s && kept(x, y)
    ensures |out| <= |s| && (|out| < |s| <==> exists y :: y in s && !kept(x, y))
  {
    if s == [] then [] else
    assert s == s[..|s| - 1] + [s[|s| - 1]];
    Only(x, s[..|s| - 1], kept) + if kept(x, s[|s| - 1]) then [s[|s| - 1]] else []
  }

  function OnlyFrom(x: BlockId, s: seq<BlockId>, kept: Edges): (out: seq<BlockId>)
    ensures forall y :: y in out <==> y in s && kept(y, x)
  {
    if s == [] then [] else
    assert s == s[..|s| - 1] + [s[|s| - 1]];
    OnlyFrom(x, s[..|s| - 1], kept) + if kept(s[|s| - 1], x) then [s[|s| - 1]] else []
  }

  /** The same blocks without the edges listed. */
  method Without(g: Cfg, dead: seq<(BlockId, BlockId)>) returns (r: Cfg)
    requires g.Valid()
    ensures r.Valid() && |r.blocks| == |g.blocks|
    ensures forall b :: 0 <= b < |g.blocks| ==> r.blocks[b].start == g.blocks[b].start && r.blocks[b].end == g.blocks[b].end
    ensures forall x: nat, y: nat :: r.Edge(x, y) <==> g.Edge(x, y) && (x, y) !in dead
  {
    var blocks: seq<Block> := [];
    var live: Edges := (x, y) => (x, y) !in dead;
    for id := 0 to |g.blocks|
      invariant |blocks| == id
      invariant forall b :: 0 <= b < id ==> CutBlock(g, live, b, blocks[b])
    {
      var b := g.blocks[id];
      blocks := blocks + [Block(b.start, b.end, Only(id, b.succs, live), OnlyFrom(id, b.preds, live))];
    }
    r := Cfg(blocks);
  }

  ghost predicate CutBlock(g: Cfg, kept: Edges, b: BlockId, cut: Block)
    requires g.Has(b)
  {
    && cut.start == g.blocks[b].start && cut.end == g.blocks[b].end
    && (forall y :: y in cut.succs <==> y in g.blocks[b].succs && kept(b, y))
    && (forall y :: y in cut.preds <==> y in g.blocks[b].preds && kept(y, b))
  }

  // The graph of the kept edges turned around, and its exit with an edge to each block a trip ends at.
  ghost predicate Turned(g: Cfg, kept: Edges, r: Cfg) {
    && r.Valid() && |r.blocks| == |g.blocks| + 1
    && (forall x: nat, y: nat :: g.Has(x) && g.Has(y) ==> (r.Edge(x, y) <==> g.Edge(y, x) && kept(y, x)))
    && (forall x: nat :: r.Edge(|g.blocks|, x) <==> EndsTrip(g, kept, x))
    && (forall x: nat :: !r.Edge(x, |g.blocks|))
  }

  method Reversed(g: Cfg, kept: Edges) returns (r: Cfg)
    requires g.Valid() && |g.blocks| < MAX_BLOCKS
    ensures Turned(g, kept, r)
  {
    hide TurnedBlock, EndsTrip, Only, OnlyFrom;
    var exit := |g.blocks|;
    var blocks: seq<Block> := [];
    var ends: seq<BlockId> := [];
    for id := 0 to |g.blocks|
      invariant |blocks| == id
      invariant forall b: nat :: b < id ==> TurnedBlock(g, kept, b, blocks[b])
      invariant forall b: nat :: b in ends <==> b < id && EndsTrip(g, kept, b)
    {
      var b := g.blocks[id];
      var preds := Only(id, b.succs, kept);
      TurnsBlock(g, kept, id);
      if |preds| < |b.succs| || b.succs == [] {
        preds := preds + [exit];
        ends := ends + [id];
      }
      blocks := blocks + [Block(b.start, b.end, OnlyFrom(id, b.preds, kept), preds)];
    }
    var end := g.blocks[|g.blocks| - 1].end;
    r := Cfg(blocks + [Block(end, end, ends, [])]);
    TurnedAll(g, kept, blocks, ends, r);
  }

  ghost predicate TurnedBlock(g: Cfg, kept: Edges, b: BlockId, t: Block)
    requires g.Has(b)
  {
    && (forall y :: y in t.succs <==> y in g.blocks[b].preds && kept(y, b))
    && (forall y :: y in t.preds <==> (y in g.blocks[b].succs && kept(b, y)) || (y == |g.blocks| && EndsTrip(g, kept, b)))
  }

  lemma TurnsBlock(g: Cfg, kept: Edges, b: BlockId)
    requires g.Has(b)
    ensures var only := Only(b, g.blocks[b].succs, kept);
      EndsTrip(g, kept, b) <==> |only| < |g.blocks[b].succs| || g.blocks[b].succs == []
    ensures var from := g.blocks[b]; var only := Only(b, from.succs, kept);
      TurnedBlock(g, kept, b, Block(from.start, from.end, OnlyFrom(b, from.preds, kept),
                                    if EndsTrip(g, kept, b) then only + [|g.blocks|] else only))
  {
  }

  lemma TurnedAll(g: Cfg, kept: Edges, blocks: seq<Block>, ends: seq<BlockId>, r: Cfg)
    requires g.Valid() && |g.blocks| < MAX_BLOCKS && |blocks| == |g.blocks| && |r.blocks| == |g.blocks| + 1
    requires forall b: nat :: b < |g.blocks| ==> TurnedBlock(g, kept, b, blocks[b]) && r.blocks[b] == blocks[b]
    requires r.blocks[|g.blocks|].succs == ends && r.blocks[|g.blocks|].preds == []
    requires forall b: nat :: b in ends <==> b < |g.blocks| && EndsTrip(g, kept, b)
    ensures Turned(g, kept, r)
  {
    hide EndsTrip;
    var n := |g.blocks|;
    forall b, s: nat | 0 <= b < |r.blocks| && 0 <= s < |r.blocks|
      ensures s in r.blocks[b].succs <==> b in r.blocks[s].preds
      ensures s in r.blocks[b].succs ==> s < n
    {
      if b < n {
        assert TurnedBlock(g, kept, b, blocks[b]);
      }
      if s < n {
        assert TurnedBlock(g, kept, s, blocks[s]);
      }
    }
    forall b, s | 0 <= b < |r.blocks| && s in r.blocks[b].succs ensures s < n {
      if b < n {
        assert TurnedBlock(g, kept, b, blocks[b]);
      }
    }
    forall b, s | 0 <= b < |r.blocks| && s in r.blocks[b].preds ensures s <= n {
      if b < n {
        assert TurnedBlock(g, kept, b, blocks[b]);
      }
    }
    forall x: nat, y: nat | g.Has(x) && g.Has(y) ensures r.Edge(x, y) <==> g.Edge(y, x) && kept(y, x) {
      assert TurnedBlock(g, kept, x, blocks[x]);
      assert x in g.blocks[y].succs <==> y in g.blocks[x].preds;
    }
    forall x: nat ensures !r.Edge(x, n) {
      if x < n {
        assert TurnedBlock(g, kept, x, blocks[x]);
      }
    }
    forall x: nat ensures r.Edge(n, x) <==> EndsTrip(g, kept, x) {
      EndHas(g, kept, x);
    }
  }

  lemma EndHas(g: Cfg, kept: Edges, x: BlockId)
    ensures EndsTrip(g, kept, x) ==> x < |g.blocks|
  {
  }

  // -- paths of one trip ------------------------------------------------------------

  ghost predicate TripPath(g: Cfg, kept: Edges, p: seq<BlockId>) {
    IsPath(g, p) && forall i :: 0 <= i < |p| - 1 ==> kept(p[i], p[i + 1])
  }

  /** A path of a trip from `d` to where a trip ends. */
  ghost predicate TripFrom(g: Cfg, kept: Edges, d: BlockId, p: seq<BlockId>) {
    TripPath(g, kept, p) && p[0] == d && EndsTrip(g, kept, p[|p| - 1])
  }

  /** Every path a trip takes from `d` to its end passes `c`, and there is one. */
  ghost predicate OnEveryTrip(g: Cfg, kept: Edges, c: BlockId, d: BlockId) {
    (exists p :: TripFrom(g, kept, d, p)) && forall p :: TripFrom(g, kept, d, p) ==> c in p
  }

  ghost function Backwards(p: seq<BlockId>): (r: seq<BlockId>)
    ensures |r| == |p| && forall i :: 0 <= i < |r| ==> r[i] == p[|p| - 1 - i]
  {
    seq(|p|, i requires 0 <= i < |p| => p[|p| - 1 - i])
  }

  lemma BackwardsHolds(p: seq<BlockId>)
    ensures forall x :: x in Backwards(p) <==> x in p
  {
    forall x ensures x in Backwards(p) <==> x in p {
      if x in p {
        var k :| 0 <= k < |p| && p[k] == x;
        assert Backwards(p)[|p| - 1 - k] == x;
      }
    }
  }

  lemma TripTurned(g: Cfg, kept: Edges, r: Cfg, d: BlockId, p: seq<BlockId>)
    requires Turned(g, kept, r) && TripFrom(g, kept, d, p)
    ensures Connects(r, |g.blocks|, d, [|g.blocks|] + Backwards(p))
  {
    hide EndsTrip;
    var n := |g.blocks|;
    var q := [n] + Backwards(p);
    forall i | 0 <= i < |q| - 1 ensures r.Edge(q[i], q[i + 1]) {
      if i > 0 {
        var k := |p| - 1 - i;
        assert q[i] == p[k + 1] && q[i + 1] == p[k];
        assert g.Edge(p[k], p[k + 1]) && kept(p[k], p[k + 1]);
      }
    }
  }

  lemma TurnedEdge(g: Cfg, kept: Edges, r: Cfg, x: BlockId, y: BlockId)
    requires Turned(g, kept, r) && r.Edge(x, y)
    ensures y < |g.blocks| && if x == |g.blocks| then EndsTrip(g, kept, y) else g.Edge(y, x) && kept(y, x)
  {
    hide EndsTrip;
  }

  lemma {:induction false} TurnedTrip(g: Cfg, kept: Edges, r: Cfg, d: BlockId,
                                      q: seq<BlockId>) returns (p: seq<BlockId>)
    requires Turned(g, kept, r) && Connects(r, |g.blocks|, d, q) && d != |g.blocks|
    ensures TripFrom(g, kept, d, p) && q == [|g.blocks|] + Backwards(p)
    decreases |q|
  {
    hide EndsTrip, Turned;
    var n, k := |g.blocks|, |q| - 2;
    assert r.Edge(q[k], q[k + 1]);
    TurnedEdge(g, kept, r, q[k], d);
    if k == 0 {
      p := [d];
    } else {
      assert r.Edge(q[k - 1], q[k - 1 + 1]);
      TurnedEdge(g, kept, r, q[k - 1], q[k]);
      PathSlice(r, q, 0, k + 1);
      assert q[0..k + 1] == q[..k + 1];
      var rest := TurnedTrip(g, kept, r, q[k], q[..k + 1]);
      p := [d] + rest;
      Prepended(g, kept, d, rest);
      assert Backwards(p) == Backwards(rest) + [d];
      assert q == q[..k + 1] + [d];
    }
  }

  lemma Prepended(g: Cfg, kept: Edges, d: BlockId, p: seq<BlockId>)
    requires p != [] && TripFrom(g, kept, p[0], p) && g.Edge(d, p[0]) && kept(d, p[0])
    ensures TripFrom(g, kept, d, [d] + p)
  {
    hide EndsTrip;
    var q := [d] + p;
    forall i | 0 <= i < |q| - 1 ensures g.Edge(q[i], q[i + 1]) && kept(q[i], q[i + 1]) {
      if i > 0 {
        assert q[i] == p[i - 1] && q[i + 1] == p[i - 1 + 1];
      }
    }
  }

  /** Dominance from the exit of the turned graph is lying on every trip. */
  lemma PostDominates(g: Cfg, kept: Edges, r: Cfg, c: BlockId, d: BlockId)
    requires Turned(g, kept, r) && g.Has(c) && g.Has(d)
    ensures Dominates(r, |g.blocks|, c, d) <==> OnEveryTrip(g, kept, c, d)
    ensures Reaches(r, |g.blocks|, d) <==> exists p :: TripFrom(g, kept, d, p)
  {
    hide Turned, TripFrom;
    var n := |g.blocks|;
    forall p | TripFrom(g, kept, d, p) ensures Connects(r, n, d, [n] + Backwards(p)) && (c in p <==> c in [n] + Backwards(p)) {
      TripTurned(g, kept, r, d, p);
      BackwardsHolds(p);
      assert c in [n] + Backwards(p) <==> c in Backwards(p);
    }
    forall q | Connects(r, n, d, q) ensures exists p :: TripFrom(g, kept, d, p) && (c in p <==> c in q) {
      var p := TurnedTrip(g, kept, r, d, q);
      BackwardsHolds(p);
      assert c in [n] + Backwards(p) <==> c in Backwards(p);
    }
  }
}
