/** Reading which threads run each block, branch by branch, each block's predicate kept once read. */
module PredicateReaders {
  import opened Wrappers
  import opened Graphs
  import opened Dominators
  import opened Frontiers
  import opened NaturalLoops
  import opened Loops
  import opened LoopForest
  import opened TripGraphs
  import opened Participation
  import opened TallyBounds
  import opened ControlDependence

  /** Does a trip of the top level, or of a loop, keep the edge? */
  function Kept(f: Forest, scope: Option<LoopId>, x: BlockId, y: BlockId): bool {
    && (x, y) !in f.irreducibleEdges
    && (scope.Some? && scope.value < |f.loops| ==>
          var l := f.loops[scope.value];
          y != l.header && x in l.blocks && y in l.blocks)
  }

  function EdgesOf(f: Forest, scope: Option<LoopId>): Edges {
    (x: BlockId, y: BlockId) => Kept(f, scope, x, y)
  }

  /** At the top level of a reducible graph a trip keeps every edge. */
  lemma TopKeepsAll(f: Forest, x: BlockId, y: BlockId)
    requires f.irreducibleEdges == []
    ensures Kept(f, None, x, y)
  {
  }

  /** A loop's trip keeps the edges between blocks of its body that do not enter its header. */
  lemma TripKeepsBody(g: Cfg, f: Forest, l: LoopId, x: BlockId, y: BlockId)
    requires ForestOf(g, f) && l < |f.loops| && f.irreducibleEdges == []
    ensures var h := f.loops[l].header;
      Kept(f, Some(l), x, y) <==> InBody(g, h, x) && InBody(g, h, y) && y != h
  {
    hide DominanceOf, Nested, InBody, IsHeader, InnermostIs, HasForwardCycle, AcyclicBut;
  }

  // The thread's path from `d` comes to `b`.
  ghost predicate RunsBy(g: Cfg, pick: BlockId -> BlockId, d: BlockId, b: BlockId, p: seq<BlockId>) {
    Connects(g, d, b, p) && forall i :: 0 <= i < |p| - 1 ==> p[i + 1] == pick(p[i])
  }

  ghost predicate Runs(g: Cfg, pick: BlockId -> BlockId, d: BlockId, b: BlockId) {
    exists p :: RunsBy(g, pick, d, b, p)
  }

  // It does so in the body of `h`, before it is at `h` again.
  ghost predicate InOneTrip(g: Cfg, h: BlockId, p: seq<BlockId>) {
    forall i :: 0 < i < |p| ==> InBody(g, h, p[i]) && p[i] != h
  }

  ghost predicate RunsInTrip(g: Cfg, pick: BlockId -> BlockId, h: BlockId, b: BlockId) {
    exists p :: RunsBy(g, pick, h, b, p) && InOneTrip(g, h, p)
  }

  // The trip a reader has of a scope.
  ghost predicate TripOf(t: Trip, g: Cfg, f: Forest, scope: Option<LoopId>) {
    t.g == g && t.kept == EdgesOf(f, scope)
  }

  lemma TopVisits(t: Trip, g: Cfg, f: Forest, pick: BlockId -> BlockId, d: BlockId, b: BlockId)
    requires TripOf(t, g, f, None) && f.irreducibleEdges == []
    ensures Visits(t, pick, d, b) <==> Runs(g, pick, d, b)
  {
    forall p ensures VisitsBy(t, pick, d, b, p) <==> RunsBy(g, pick, d, b, p) {
      if RunsBy(g, pick, d, b, p) {
        forall i | 0 <= i < |p| - 1 ensures t.kept(p[i], p[i + 1]) {
          TopKeepsAll(f, p[i], p[i + 1]);
        }
      }
    }
  }

  lemma TripVisits(t: Trip, g: Cfg, f: Forest, l: LoopId, pick: BlockId -> BlockId, b: BlockId)
    requires ForestOf(g, f) && l < |f.loops| && f.irreducibleEdges == [] && TripOf(t, g, f, Some(l))
    ensures Visits(t, pick, f.loops[l].header, b) <==> RunsInTrip(g, pick, f.loops[l].header, b)
  {
    hide ForestOf, InBody, Kept;
    var h := f.loops[l].header;
    HeaderInBody(g, f, l);
    forall p ensures VisitsBy(t, pick, h, b, p) <==> RunsBy(g, pick, h, b, p) && InOneTrip(g, h, p) {
      if p != [] && p[0] == h {
        KeptInTrip(t, g, f, l, p);
      }
    }
  }

  lemma HeaderInBody(g: Cfg, f: Forest, l: LoopId)
    requires ForestOf(g, f) && l < |f.loops|
    ensures InBody(g, f.loops[l].header, f.loops[l].header)
  {
    hide DominanceOf, Nested, IsHeader, InnermostIs, HasForwardCycle, AcyclicBut;
    assert IsHeader(g, f.loops[l].header);
  }

  lemma KeptInTrip(t: Trip, g: Cfg, f: Forest, l: LoopId, p: seq<BlockId>)
    requires ForestOf(g, f) && l < |f.loops| && f.irreducibleEdges == [] && TripOf(t, g, f, Some(l))
    requires p != [] && p[0] == f.loops[l].header && InBody(g, p[0], p[0])
    ensures (forall i :: 0 <= i < |p| - 1 ==> t.kept(p[i], p[i + 1])) <==> InOneTrip(g, f.loops[l].header, p)
  {
    hide ForestOf, InBody, Kept;
    var h := f.loops[l].header;
    forall i | 0 <= i < |p| - 1
      ensures t.kept(p[i], p[i + 1]) <==> InBody(g, h, p[i]) && InBody(g, h, p[i + 1]) && p[i + 1] != h
    {
      TripKeepsBody(g, f, l, p[i], p[i + 1]);
    }
    if forall i :: 0 <= i < |p| - 1 ==> t.kept(p[i], p[i + 1]) {
      forall i | 0 < i < |p| ensures InBody(g, h, p[i]) && p[i] != h {
        assert t.kept(p[i - 1], p[i - 1 + 1]);
      }
    }
    if InOneTrip(g, h, p) {
      forall i | 0 <= i < |p| - 1 ensures t.kept(p[i], p[i + 1]) {
        assert InBody(g, h, p[i]) && InBody(g, h, p[i + 1]);
      }
    }
  }

  // No loop stands in the scope as its header.
  ghost predicate Plain(g: Cfg, f: Forest, scope: Option<LoopId>) {
    match scope
    case None => f.loops == []
    case Some(l) => l < |f.loops| && forall x: nat :: IsHeader(g, x) && InBody(g, f.loops[l].header, x) ==> x == f.loops[l].header
  }

  /** The edges of one trip of a scope with no loop in it have no cycle. */
  lemma TripIsAcyclic(g: Cfg, f: Forest, scope: Option<LoopId>, t: Trip) returns (rank: BlockId -> nat)
    requires ForestOf(g, f) && Plain(g, f, scope) && TripOf(t, g, f, scope)
    ensures Ranked(t, rank)
  {
    hide DominanceOf, Nested, InBody, IsHeader, InnermostIs;
    var order :| Descends(g, order, f.irreducibleEdges);
    rank := (b: BlockId) => if b in order then order[b] else 0;
    forall x: nat, y: nat | Reaches(g, ENTRY, x) && g.Edge(x, y) && t.kept(x, y) ensures rank(y) < rank(x) {
      NotBack(g, f, scope, x, y);
    }
  }

  lemma NotBack(g: Cfg, f: Forest, scope: Option<LoopId>, x: BlockId, y: BlockId)
    requires Found(g, f.loops) && Plain(g, f, scope) && Kept(f, scope, x, y)
    ensures !BackEdge(g, x, y)
  {
    hide InBody;
    TargetIsHeader(g, x, y);
  }

  lemma TargetIsHeader(g: Cfg, x: BlockId, y: BlockId)
    ensures BackEdge(g, x, y) ==> IsHeader(g, y)
  {
  }

  /** In a kernel without loops what the reader says of a block is whether the thread's path through the graph runs it. */
  lemma KernelBlockIsRun(t: Trip, g: Cfg, f: Forest, th: Thread, b: BlockId)
    requires t.Valid() && ForestOf(g, f) && f.loops == [] && f.irreducibleEdges == [] && TripOf(t, g, f, None)
    requires Follows(t, th) && g.Has(b)
    ensures |g.blocks| < |t.deciders| && DominanceOf(g, ENTRY, f.doms)
    ensures Says(BlockOf(t, f.doms, b).pred, th) == Yes ==> Runs(g, th.pick, ENTRY, b)
    ensures Says(BlockOf(t, f.doms, b).pred, th) == No ==> !Runs(g, th.pick, ENTRY, b)
    ensures !BlockOf(t, f.doms, b).cut && AllRead(t, th) ==> Says(BlockOf(t, f.doms, b).pred, th) != Maybe
  {
    hide *;
    TripSizes(t, g, f, None);
    NoLoops(g, f);
    var rank := TripIsAcyclic(g, f, None, t);
    BlockIsVisited(t, th, rank, f.doms, b);
    TopVisits(t, g, f, th.pick, ENTRY, b);
  }

  lemma NoLoops(g: Cfg, f: Forest)
    requires f.loops == []
    ensures Plain(g, f, None)
  {
  }

  lemma TripSizes(t: Trip, g: Cfg, f: Forest, scope: Option<LoopId>)
    requires t.Valid() && ForestOf(g, f) && TripOf(t, g, f, scope)
    ensures t.g == g && |g.blocks| < |t.deciders| && DominanceOf(g, ENTRY, f.doms)
    ensures forall b: nat :: g.Has(b) <==> b < |g.blocks|
  {
    hide DominanceOf, Nested, Found, InnermostIs, HasForwardCycle, AcyclicBut, Turned, InFrontier;
  }

  /** In one trip of a loop without loops in it, what it says from the header is whether the thread comes to the block. */
  lemma LoopBlockIsRun(t: Trip, g: Cfg, f: Forest, l: LoopId, th: Thread, b: BlockId, left: nat)
    requires t.Valid() && ForestOf(g, f) && l < |f.loops| && f.irreducibleEdges == [] && TripOf(t, g, f, Some(l))
    requires Plain(g, f, Some(l)) && Follows(t, th) && InBody(g, f.loops[l].header, b) && g.Has(b)
    ensures b < |t.deciders|
    ensures var h := f.loops[l].header;
      && (Says(ReachOf(t, h, b, left).pred, th) == Yes ==> RunsInTrip(g, th.pick, h, b))
      && (Says(ReachOf(t, h, b, left).pred, th) == No ==> !RunsInTrip(g, th.pick, h, b))
      && (!ReachOf(t, h, b, left).cut && AllRead(t, th) ==> Says(ReachOf(t, h, b, left).pred, th) != Maybe)
  {
    hide *;
    TripSizes(t, g, f, Some(l));
    var rank := TripIsAcyclic(g, f, Some(l), t);
    HeaderDominatesBody(g, f.loops[l].header, b);
    ReachIsVisits(t, th, rank, f.loops[l].header, b, left);
    TripVisits(t, g, f, l, th.pick, b);
  }

  // How a reading from `d` to `c` starts.
  lemma ReachCases(t: Trip, d: BlockId, c: BlockId, left: nat)
    requires c < |t.deciders|
    ensures left == 0 ==> ReachOf(t, d, c, left) == Step(Unknown, 0, true)
    ensures left > 0 && t.PostDominates(c, d) ==> ReachOf(t, d, c, left) == Step(True, left - 1, false)
    ensures left > 0 && !t.PostDominates(c, d) && !Reaches(t.turned, |t.g.blocks|, c) ==>
      ReachOf(t, d, c, left) == Step(Unknown, left - 1, false)
    ensures left > 0 && !t.PostDominates(c, d) && Reaches(t.turned, |t.g.blocks|, c) ==>
      ReachOf(t, d, c, left) == WaysOf(t, d, c, Levels(t.deciders, c), left - 1)
  {
    hide WaysOf, Reaches, Levels, Dominates;
  }

  // How it goes on through one more branch.
  lemma WaysNext(t: Trip, d: BlockId, c: BlockId, xs: seq<BlockId>, i: nat, left: nat)
    requires i < |xs| && xs[i] < |t.deciders|
    ensures var before := WaysOf(t, d, c, xs[..i], left);
      WaysOf(t, d, c, xs[..i + 1], left) ==
      if Dominates(t.g, ENTRY, d, xs[i]) then
        var at := ReachOf(t, d, xs[i], before.left);
        Step(Disjoined(before.pred, Conjoined(at.pred, TowardOf(t, xs[i], c))), at.left, before.cut || at.cut)
      else before
  {
    hide Dominates, Disjoined, Conjoined, TowardOf, ReachOf;
    assert xs[..i + 1][..i] == xs[..i] && xs[..i + 1][i] == xs[i];
  }

  lemma LevelHas(t: Trip, c: BlockId, i: nat)
    requires t.Valid() && t.g.Has(c) && c < |t.deciders| && i < |Levels(t.deciders, c)|
    ensures var x := Levels(t.deciders, c)[i]; t.g.Has(x) && x < |t.deciders|
  {
    hide Decides, Levels;
    var x := Levels(t.deciders, c)[i];
    assert x in Levels(t.deciders, c);
    DecidersDecide(t, c);
    DeciderHas(t, c, x);
  }

  lemma WaysNone(t: Trip, d: BlockId, c: BlockId, xs: seq<BlockId>, left: nat)
    ensures WaysOf(t, d, c, xs[..0], left) == Step(False, left, false)
    ensures xs[..|xs|] == xs
  {
  }

  // What a trip's blocks are in it and in it turned around.
  lemma BlocksOf(t: Trip, pdoms: DominanceInfo, d: BlockId, c: BlockId)
    requires t.Valid() && t.g.Has(d) && t.g.Has(c) && DominanceOf(t.turned, |t.g.blocks|, pdoms)
    ensures t.turned.Has(d) && t.turned.Has(c) && c < |t.deciders| && c < |pdoms.rpoIndex|
    ensures t.PostDominates(c, d) == Dominates(t.turned, |t.g.blocks|, c, d)
    ensures pdoms.IsReachable(c) <==> Reaches(t.turned, |t.g.blocks|, c)
  {
    hide Dominates, InFrontier;
    InfoSizes(t.turned, |t.g.blocks|, pdoms);
    TurnedHas(t, d);
    TurnedHas(t, c);
    hide DominanceOf;
    ReachableIsNumbered(t.turned, |t.g.blocks|, pdoms, c);
  }

  lemma TurnedHas(t: Trip, x: BlockId)
    requires t.Valid() && t.g.Has(x)
    ensures t.turned.Has(x) && x < |t.deciders|
  {
    hide InFrontier;
  }

  class PredicateReader {
    const t: Trip
    const doms: DominanceInfo
    const pdoms: DominanceInfo
    const blocks: array<Option<Pred>>

    // What never changes: the trip, and dominance in it and in it turned around.
    ghost predicate Made() {
      t.Valid() && DominanceOf(t.g, ENTRY, doms) && DominanceOf(t.turned, |t.g.blocks|, pdoms)
    }

    /** Each predicate kept is the block's. */
    ghost predicate Valid()
      reads this, blocks
    {
      && Made() && blocks.Length == |t.g.blocks|
      && forall b: nat :: b < blocks.Length && blocks[b].Some? ==> blocks[b].value == BlockOf(t, doms, b).pred
    }

    constructor (g: Cfg, f: Forest, scope: Option<LoopId>, guards: Guards)
      requires g.Valid() && |g.blocks| < MAX_BLOCKS && ForestOf(g, f)
      ensures Valid() && fresh(blocks)
      ensures TripOf(t, g, f, scope) && t.guards == guards && doms == f.doms
    {
      hide DominanceOf, Nested, Found, InnermostIs, HasForwardCycle, AcyclicBut, Kept;
      var kept := EdgesOf(f, scope);
      var turned := Reversed(g, kept);
      var pdoms := DominatorsFrom(turned, |g.blocks|);
      var deciders := FrontiersOf(turned, |g.blocks|, pdoms);
      this.t := Trip(g, kept, turned, deciders, guards);
      doms := f.doms;
      this.pdoms := pdoms;
      this.blocks := new Option<Pred>[|g.blocks|](_ => None);
    }

    /** The trip's reading of who goes from `x` to `c`, whatever was asked before. */
    method Toward(x: BlockId, c: BlockId) returns (p: Pred)
      requires Made() && t.g.Has(x) && t.g.Has(c)
      ensures p == TowardOf(t, x, c)
    {
      hide DominanceOf, Dominates, Negated;
      var succs := t.g.blocks[x].succs;
      if |succs| != 2 || t.guards(x).None? {
        return Unknown;
      }
      p := t.guards(x).value;
      assert succs[0] in succs;
      var on := IsDominator(t.turned, |t.g.blocks|, pdoms, c, succs[0]);
      if !(t.kept(x, succs[0]) && on) {
        p := Negated(p);
      }
    }

    lemma MadeOf()
      requires Made()
      ensures t.Valid() && DominanceOf(t.g, ENTRY, doms) && DominanceOf(t.turned, |t.g.blocks|, pdoms)
    {
    }

    /** Which threads at `d` reach `c`, and how many of `left` steps remain. */
    method Reach(d: BlockId, c: BlockId, left: nat) returns (p: Pred, left': nat)
      requires Made() && t.g.Has(d) && t.g.Has(c)
      ensures p == ReachOf(t, d, c, left).pred && left' == ReachOf(t, d, c, left).left
      decreases left, 0
    {
      hide *;
      MadeOf();
      BlocksOf(t, pdoms, d, c);
      ReachCases(t, d, c, left);
      if left == 0 {
        return Unknown, 0;
      }
      left' := left - 1;
      var always := IsDominator(t.turned, |t.g.blocks|, pdoms, c, d);
      if always {
        return True, left';
      }
      if !pdoms.IsReachable(c) {
        return Unknown, left';
      }
      var levels := Levels(t.deciders, c);
      WaysNone(t, d, c, levels, left - 1);
      p := False;
      var i := 0;
      while i < |levels|
        invariant 0 <= i <= |levels| && left' < left
        invariant p == WaysOf(t, d, c, levels[..i], left - 1).pred && left' == WaysOf(t, d, c, levels[..i], left - 1).left
      {
        var x := levels[i];
        LevelHas(t, c, i);
        WaysNext(t, d, c, levels, i, left - 1);
        p, left' := Through(d, c, x, p, left');
        i := i + 1;
      }
    }

    /** The threads of `p`, and those that reach `c` through the branch `x` below `d`. */
    method Through(d: BlockId, c: BlockId, x: BlockId, p: Pred, left: nat) returns (p': Pred, left': nat)
      requires Made() && t.g.Has(d) && t.g.Has(c) && t.g.Has(x) && x < |t.deciders|
      ensures left' <= left
      ensures if Dominates(t.g, ENTRY, d, x)
        then var at := ReachOf(t, d, x, left); p' == Disjoined(p, Conjoined(at.pred, TowardOf(t, x, c))) && left' == at.left
        else p' == p && left' == left
      decreases left, 1
    {
      hide *;
      MadeOf();
      var above := IsDominator(t.g, ENTRY, doms, d, x);
      if !above {
        return p, left;
      }
      var way := Toward(x, c);
      var at, rest := Reach(d, x, left);
      p', left' := Disjoined(p, Conjoined(at, way)), rest;
    }

    /** Which threads run `b`, read once. */
    method Block(b: BlockId) returns (p: Pred)
      requires Valid() && t.g.Has(b)
      modifies blocks
      ensures Valid() && p == BlockOf(t, doms, b).pred && blocks[b] == Some(p)
      ensures forall x: nat :: x < blocks.Length && old(blocks[x]).Some? ==> blocks[x] == old(blocks[x])
      decreases doms.rpoIndex[b]
    {
      hide BlockOf, DominanceOf, ReachOf;
      BlockFrom(t, doms, b);
      if blocks[b].Some? {
        return blocks[b].value;
      }
      if doms.idom[b].Some? {
        var d := doms.idom[b].value;
        var at := Block(d);
        var relative, _ := Reach(d, b, REACH_BUDGET);
        p := Conjoined(at, relative);
      } else {
        p := if b == ENTRY then True else False;
      }
      blocks[b] := Some(p);
    }
  }
}
