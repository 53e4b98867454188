/** Register SSA without a renaming pass: a point's value is looked up by climbing the
    dominator tree, and is what a run along any path last wrote. */
module Ssa {
  import opened Wrappers
  import opened Graphs
  import opened DepthFirst
  import opened Dominators
  import opened Frontiers

  datatype Register = Named(symbol: nat) | Cc

  /** A register's value by where it comes from: a write, a merge at a block's start, or neither on any way. */
  datatype Value =
    | Result(op: nat, reg: Register)
    | Argument(block: BlockId, reg: Register)
    | Undef(reg: Register)

  datatype RegisterSsa = RegisterSsa(
    g: Cfg,
    doms: DominanceInfo,
    writes: map<Register, seq<nat>>,
    phis: set<(Register, BlockId)>)

  function WritesOf(writes: map<Register, seq<nat>>, reg: Register): seq<nat> {
    if reg in writes then writes[reg] else []
  }

  predicate Holds(b: Block, stmt: nat) {
    b.start <= stmt < b.end
  }

  ghost predicate Ascending(ws: seq<nat>) {
    forall i, j :: 0 <= i < j < |ws| ==> ws[i] <= ws[j]
  }

  ghost predicate InSomeBlock(g: Cfg, stmt: nat) {
    exists b: nat :: b < |g.blocks| && Holds(g.blocks[b], stmt)
  }

  /** Every listed write lies in some block, and no register's list steps backward. */
  ghost predicate WritesIn(g: Cfg, writes: map<Register, seq<nat>>) {
    forall reg :: reg in writes ==>
      Ascending(writes[reg]) && forall w :: w in writes[reg] ==> InSomeBlock(g, w)
  }

  ghost predicate WritesInBlock(g: Cfg, writes: map<Register, seq<nat>>, reg: Register, b: BlockId) {
    g.Has(b) && exists w :: w in WritesOf(writes, reg) && Holds(g.blocks[b], w)
  }

  /** The blocks where `reg` has a phi hold the frontier of its writing blocks and their own. */
  ghost predicate PhisClosed(g: Cfg, writes: map<Register, seq<nat>>, phis: set<(Register, BlockId)>, reg: Register) {
    forall x: nat, y: nat :: (WritesInBlock(g, writes, reg, x) || (reg, x) in phis) && InFrontier(g, ENTRY, x, y) ==>
      (reg, y) in phis
  }

  ghost predicate Valid(ssa: RegisterSsa) {
    && ssa.g.Valid() && ssa.g.Laid()
    && DominanceOf(ssa.g, ENTRY, ssa.doms)
    && WritesIn(ssa.g, ssa.writes)
    && (forall reg, b :: (reg, b) in ssa.phis ==> ssa.g.Has(b))
    && (forall reg :: PhisClosed(ssa.g, ssa.writes, ssa.phis, reg))
  }

  // -- a run along a path ----------------------------------------------------

  /** The last of `ws` among the statements from `start` up to `end`. */
  ghost function LastIn(ws: seq<nat>, start: nat, end: nat): Option<nat>
    decreases end
  {
    if end <= start then None
    else if end - 1 in ws then Some(end - 1)
    else LastIn(ws, start, end - 1)
  }

  /** What a run along the path, stopped before statement `end` of its last block,
      last wrote to `reg`. */
  ghost function LastWrite(g: Cfg, writes: map<Register, seq<nat>>, reg: Register, p: seq<BlockId>, end: nat): Value
    requires IsPath(g, p)
    decreases |p|
  {
    var b := p[|p| - 1];
    match LastIn(WritesOf(writes, reg), g.blocks[b].start, end)
    case Some(w) => Result(w, reg)
    case None =>
      if |p| == 1 then Undef(reg)
      else
        Prefix(g, p, |p| - 1);
        LastWrite(g, writes, reg, p[..|p| - 1], g.blocks[p[|p| - 2]].end)
  }

  lemma Prefix(g: Cfg, p: seq<BlockId>, n: nat)
    requires IsPath(g, p) && 0 < n <= |p|
    ensures Connects(g, p[0], p[n - 1], p[..n])
  {
    PathSlice(g, p, 0, n);
    assert p[0..n] == p[..n];
  }

  // -- the value a read sees -------------------------------------------------

  /** How many of the ascending `ws` are below `end`. */
  function PartitionPoint(ws: seq<nat>, end: nat): (i: nat)
    requires Ascending(ws)
    ensures i <= |ws|
    ensures forall k :: 0 <= k < |ws| ==> (ws[k] < end <==> k < i)
  {
    if ws == [] || ws[|ws| - 1] < end then |ws| else PartitionPoint(ws[..|ws| - 1], end)
  }

  ghost predicate Visited(ssa: RegisterSsa, b: BlockId) {
    ssa.g.Has(b) && Reaches(ssa.g, ENTRY, b)
  }

  ghost function SeenAt(ssa: RegisterSsa, reg: Register, b: BlockId, end: nat): Value
    requires Valid(ssa) && Visited(ssa, b)
    decreases ssa.doms.rpoIndex[b]
  {
    var ws := WritesOf(ssa.writes, reg);
    var i := PartitionPoint(ws, end);
    if i > 0 && ws[i - 1] >= ssa.g.blocks[b].start then Result(ws[i - 1], reg)
    else if (reg, b) in ssa.phis then Argument(b, reg)
    else match ssa.doms.idom[b]
      case Some(d) =>
        DominatorReaches(ssa.g, ENTRY, d, b);
        SeenAt(ssa, reg, d, ssa.g.blocks[d].end)
      case None => Undef(reg)
  }

  /** What a phi takes on the edge from block `from`, or from the kernel's start. */
  ghost predicate IncomingEdge(ssa: RegisterSsa, block: BlockId, from: Option<BlockId>) {
    match from
    case None => block == ENTRY
    case Some(p) => ssa.g.Edge(p, block) && Visited(ssa, p)
  }

  ghost function OnEdge(ssa: RegisterSsa, block: BlockId, reg: Register, from: Option<BlockId>): Value
    requires Valid(ssa) && IncomingEdge(ssa, block, from)
  {
    match from
    case None => Undef(reg)
    case Some(p) => SeenAt(ssa, reg, p, ssa.g.blocks[p].end)
  }

  /** `k` is the position of the last `c` of the path. */
  ghost predicate LastAt(p: seq<BlockId>, c: BlockId, k: nat) {
    k < |p| && p[k] == c && forall i :: k < i < |p| ==> p[i] != c
  }

  ghost function LastIndex(p: seq<BlockId>, c: BlockId): (k: nat)
    requires c in p
    ensures LastAt(p, c, k)
  {
    if p[|p| - 1] == c then |p| - 1
    else
      assert p == p[..|p| - 1] + [p[|p| - 1]];
      LastIndex(p[..|p| - 1], c)
  }

  /** The value `v` stands for after a run along the path: a phi takes the value of the
      edge by which the path last entered its block. */
  ghost function Resolve(ssa: RegisterSsa, v: Value, p: seq<BlockId>): Value
    requires Valid(ssa) && IsPath(ssa.g, p) && p[0] == ENTRY
    decreases |p|
  {
    if v.Argument? && v.block in p then
      var k := LastIndex(p, v.block);
      EdgeOf(ssa, p, k);
      if k == 0 then OnEdge(ssa, v.block, v.reg, None)
      else Resolve(ssa, OnEdge(ssa, v.block, v.reg, Some(p[k - 1])), p[..k])
    else v
  }

  lemma EdgeOf(ssa: RegisterSsa, p: seq<BlockId>, k: nat)
    requires Valid(ssa) && IsPath(ssa.g, p) && p[0] == ENTRY && k < |p|
    ensures IncomingEdge(ssa, p[k], if k == 0 then None else Some(p[k - 1]))
    ensures k > 0 ==> Connects(ssa.g, ENTRY, p[k - 1], p[..k]) && Visited(ssa, p[k - 1])
  {
    if k > 0 {
      Prefix(ssa.g, p, k);
      assert ssa.g.Edge(p[k - 1], p[k - 1 + 1]);
    }
  }

  // -- SSA agrees with every run ---------------------------------------------

  lemma {:induction false} LastInIs(ws: seq<nat>, start: nat, end: nat)
    requires Ascending(ws)
    ensures var i := PartitionPoint(ws, end);
            LastIn(ws, start, end) == if i > 0 && ws[i - 1] >= start then Some(ws[i - 1]) else None
    decreases end
  {
    if start < end {
      var i := PartitionPoint(ws, end);
      if end - 1 in ws {
        var k :| 0 <= k < |ws| && ws[k] == end - 1;
        assert ws[k] <= ws[i - 1];
      } else {
        LastInIs(ws, start, end - 1);
        var j := PartitionPoint(ws, end - 1);
        assert forall k :: 0 <= k < |ws| ==> ws[k] in ws;
        assert i == j;
      }
    }
  }

  /** On a path whose last block a block of it does not strictly dominate, its
      dominance ends at some later block. */
  lemma EndsOnPath(g: Cfg, p: seq<BlockId>, j: nat) returns (t: nat)
    requires IsPath(g, p) && p[0] == ENTRY && j < |p| - 1
    requires !StrictlyDominates(g, ENTRY, p[j], p[|p| - 1])
    ensures j < t < |p| && InFrontier(g, ENTRY, p[j], p[t])
  {
    hide Dominates;
    t := j + 1;
    while StrictlyDominates(g, ENTRY, p[j], p[t])
      invariant j < t < |p|
      invariant t - 1 == j || StrictlyDominates(g, ENTRY, p[j], p[t - 1])
      decreases |p| - t
    {
      t := t + 1;
    }
    OnPathReaches(g, ENTRY, p[|p| - 1], p, j);
    DominatesSelf(g, ENTRY, p[j]);
    assert g.Edge(p[t - 1], p[t - 1 + 1]);
    assert EndsAt(g, ENTRY, p[j], p[t], p[t - 1]);
  }

  /** A write or a phi on a path, none of whose blocks from there strictly dominates
      the last one, puts a phi in the last one. */
  lemma {:induction false} MeetsAtPhi(ssa: RegisterSsa, reg: Register, p: seq<BlockId>, j: nat)
    requires Valid(ssa) && IsPath(ssa.g, p) && p[0] == ENTRY && j < |p| - 1
    requires forall t :: j <= t < |p| - 1 ==> !StrictlyDominates(ssa.g, ENTRY, p[t], p[|p| - 1])
    requires WritesInBlock(ssa.g, ssa.writes, reg, p[j]) || (reg, p[j]) in ssa.phis
    ensures (reg, p[|p| - 1]) in ssa.phis
    decreases |p| - j
  {
    hide StrictlyDominates, InFrontier, WritesInBlock, DominanceOf;
    var t := EndsOnPath(ssa.g, p, j);
    assert PhisClosed(ssa.g, ssa.writes, ssa.phis, reg);
    if t < |p| - 1 {
      MeetsAtPhi(ssa, reg, p, t);
    }
  }

  /** A dominator of a path's last block dominates every block after its last occurrence. */
  lemma DominatesAfterLast(g: Cfg, root: BlockId, d: BlockId, p: seq<BlockId>, k: nat, t: nat)
    requires IsPath(g, p) && p[0] == root && Dominates(g, root, d, p[|p| - 1])
    requires k < t < |p| && forall i :: k < i < |p| ==> p[i] != d
    ensures StrictlyDominates(g, root, d, p[t])
  {
    var b := p[|p| - 1];
    OnPathReaches(g, root, b, p, t);
    PathSlice(g, p, t, |p|);
    forall q | Connects(g, root, p[t], q)
      ensures d in q
    {
      PathJoin(g, root, p[t], b, q, p[t..]);
    }
  }

  /** Where a block has no phi of `reg`, no block between its immediate dominator's last
      occurrence and it writes `reg`; from the entry, none before it does. */
  lemma NothingBetween(ssa: RegisterSsa, reg: Register, p: seq<BlockId>, from: nat, t: nat)
    requires Valid(ssa) && IsPath(ssa.g, p) && p[0] == ENTRY
    requires (reg, p[|p| - 1]) !in ssa.phis
    requires match ssa.doms.idom[p[|p| - 1]]
             case Some(d) => 0 < from && LastAt(p, d, from - 1)
             case None => from == 0
    requires from <= t < |p| - 1
    ensures !WritesInBlock(ssa.g, ssa.writes, reg, p[t])
  {
    var b := p[|p| - 1];
    OnPathReaches(ssa.g, ENTRY, b, p, |p| - 1);
    if WritesInBlock(ssa.g, ssa.writes, reg, p[t]) {
      forall s | t <= s < |p| - 1
        ensures !StrictlyDominates(ssa.g, ENTRY, p[s], b)
      {
        match ssa.doms.idom[b] {
          case Some(d) =>
            DominatesAfterLast(ssa.g, ENTRY, d, p, from - 1, s);
            if StrictlyDominates(ssa.g, ENTRY, p[s], b) {
              DominatesAntisymmetric(ssa.g, ENTRY, p[s], d);
            }
          case None =>
            OnlyRootAtRoot(ssa.g, ENTRY, p[s]);
        }
      }
      MeetsAtPhi(ssa, reg, p, t);
    }
  }

  lemma {:induction false} LastInNone(ws: seq<nat>, b: Block, end: nat)
    requires forall w :: w in ws ==> !Holds(b, w)
    requires end <= b.end
    ensures LastIn(ws, b.start, end) == None
    decreases end
  {
    if b.start < end {
      LastInNone(ws, b, end - 1);
    }
  }

  /** Blocks at the end of a path that do not write `reg` can be left out. */
  lemma {:induction false} LastWriteSkips(ssa: RegisterSsa, reg: Register, p: seq<BlockId>, n: nat)
    requires IsPath(ssa.g, p) && 0 < n <= |p|
    requires forall t :: n <= t < |p| ==> !WritesInBlock(ssa.g, ssa.writes, reg, p[t])
    ensures IsPath(ssa.g, p[..n])
    ensures LastWrite(ssa.g, ssa.writes, reg, p, ssa.g.blocks[p[|p| - 1]].end) ==
            LastWrite(ssa.g, ssa.writes, reg, p[..n], ssa.g.blocks[p[n - 1]].end)
    decreases |p|
  {
    hide WritesOf, LastIn;
    Prefix(ssa.g, p, n);
    if n < |p| {
      var b := p[|p| - 1];
      LastInNone(WritesOf(ssa.writes, reg), ssa.g.blocks[b], ssa.g.blocks[b].end);
      Prefix(ssa.g, p, |p| - 1);
      LastWriteSkips(ssa, reg, p[..|p| - 1], n);
      assert p[..|p| - 1][..n] == p[..n];
    } else {
      assert p[..n] == p;
    }
  }

  /** The same, the last block stopped before a statement it has not written by. */
  lemma LastWriteDrops(ssa: RegisterSsa, reg: Register, p: seq<BlockId>, end: nat, n: nat)
    requires IsPath(ssa.g, p) && 0 < n < |p|
    requires LastIn(WritesOf(ssa.writes, reg), ssa.g.blocks[p[|p| - 1]].start, end).None?
    requires forall t :: n <= t < |p| - 1 ==> !WritesInBlock(ssa.g, ssa.writes, reg, p[t])
    ensures IsPath(ssa.g, p[..n])
    ensures LastWrite(ssa.g, ssa.writes, reg, p, end) ==
            LastWrite(ssa.g, ssa.writes, reg, p[..n], ssa.g.blocks[p[n - 1]].end)
  {
    hide WritesInBlock;
    Prefix(ssa.g, p, |p| - 1);
    LastWriteSkips(ssa, reg, p[..|p| - 1], n);
    assert p[..|p| - 1][..n] == p[..n];
  }

  /** The block of a phi a read sees dominates the block read from. */
  lemma {:induction false} PhiDominates(ssa: RegisterSsa, reg: Register, b: BlockId, end: nat)
    requires Valid(ssa) && Visited(ssa, b)
    ensures var v := SeenAt(ssa, reg, b, end);
            v.reg == reg && (v.Argument? ==> Dominates(ssa.g, ENTRY, v.block, b))
    decreases ssa.doms.rpoIndex[b]
  {
    DominatesSelf(ssa.g, ENTRY, b);
    var v := SeenAt(ssa, reg, b, end);
    match ssa.doms.idom[b] {
      case Some(d) =>
        DominatorReaches(ssa.g, ENTRY, d, b);
        PhiDominates(ssa, reg, d, ssa.g.blocks[d].end);
        var u := SeenAt(ssa, reg, d, ssa.g.blocks[d].end);
        if v.Argument? && v == u {
          DominatesTransitive(ssa.g, ENTRY, v.block, d, b);
        }
      case None =>
    }
  }

  lemma IdomFacts(ssa: RegisterSsa, b: BlockId)
    requires Valid(ssa) && ssa.g.Has(b)
    ensures b < |ssa.doms.idom|
    ensures match ssa.doms.idom[b]
            case Some(d) => Visited(ssa, d) && d != b && Dominates(ssa.g, ENTRY, d, b)
            case None => Visited(ssa, b) ==> b == ENTRY
  {
    if ssa.doms.idom[b].Some? {
      DominatorReaches(ssa.g, ENTRY, ssa.doms.idom[b].value, b);
    }
  }

  /** What a read sees: the block's own last write, its phi, or what its immediate
      dominator ends with. */
  lemma SeenCases(ssa: RegisterSsa, reg: Register, b: BlockId, end: nat)
    requires Valid(ssa) && Visited(ssa, b)
    ensures b < |ssa.doms.idom| && (ssa.doms.idom[b].Some? ==> Visited(ssa, ssa.doms.idom[b].value))
    ensures SeenAt(ssa, reg, b, end) ==
            match LastIn(WritesOf(ssa.writes, reg), ssa.g.blocks[b].start, end)
            case Some(w) => Result(w, reg)
            case None =>
              if (reg, b) in ssa.phis then Argument(b, reg)
              else match ssa.doms.idom[b]
                case Some(d) => SeenAt(ssa, reg, d, ssa.g.blocks[d].end)
                case None => Undef(reg)
  {
    hide PhisClosed, DominanceOf;
    IdomFacts(ssa, b);
    LastInIs(WritesOf(ssa.writes, reg), ssa.g.blocks[b].start, end);
  }

  /** SSA agrees with execution: the value seen at the end of a path from the entry,
      resolved along the path's own edges, is what the path last wrote. */
  lemma {:induction false} SeenIsLastWrite(ssa: RegisterSsa, reg: Register, p: seq<BlockId>, end: nat)
    requires Valid(ssa) && IsPath(ssa.g, p) && p[0] == ENTRY
    requires Visited(ssa, p[|p| - 1])
    ensures Resolve(ssa, SeenAt(ssa, reg, p[|p| - 1], end), p) == LastWrite(ssa.g, ssa.writes, reg, p, end)
    decreases |p|
  {
    hide Valid, SeenAt;
    var b := p[|p| - 1];
    SeenCases(ssa, reg, b, end);
    if LastIn(WritesOf(ssa.writes, reg), ssa.g.blocks[b].start, end).None? {
      if (reg, b) in ssa.phis {
        ResolvesHere(ssa, reg, p, end);
      } else if ssa.doms.idom[b].Some? {
        SeenThroughDominator(ssa, reg, p, end, ssa.doms.idom[b].value);
      } else {
        NothingFromEntry(ssa, reg, p, end);
      }
    }
  }

  /** A phi of the block read from takes the value of the last edge. */
  lemma {:induction false} ResolvesHere(ssa: RegisterSsa, reg: Register, p: seq<BlockId>, end: nat)
    requires Valid(ssa) && IsPath(ssa.g, p) && p[0] == ENTRY
    requires LastIn(WritesOf(ssa.writes, reg), ssa.g.blocks[p[|p| - 1]].start, end).None?
    ensures Resolve(ssa, Argument(p[|p| - 1], reg), p) == LastWrite(ssa.g, ssa.writes, reg, p, end)
    decreases |p|, 0
  {
    hide *;
    NotEmpty(ssa, p);
    EdgeOf(ssa, p, |p| - 1);
    ResolveStep(ssa, reg, p);
    LastWriteStep(ssa, reg, p, end);
    if |p| > 1 {
      SeenIsLastWrite(ssa, reg, p[..|p| - 1], ssa.g.blocks[p[|p| - 2]].end);
    }
  }

  lemma NotEmpty(ssa: RegisterSsa, p: seq<BlockId>)
    requires IsPath(ssa.g, p)
    ensures p != [] && forall i :: 0 <= i < |p| ==> p[i] < |ssa.g.blocks|
  {
  }

  // A phi of the last block resolves along the edge the path came by.
  lemma ResolveStep(ssa: RegisterSsa, reg: Register, p: seq<BlockId>)
    requires Valid(ssa) && IsPath(ssa.g, p) && p[0] == ENTRY
    ensures var v := Argument(p[|p| - 1], reg);
      if |p| == 1 then Resolve(ssa, v, p) == Undef(reg)
      else
        (EdgeOf(ssa, p, |p| - 1);
         Resolve(ssa, v, p) ==
         Resolve(ssa, SeenAt(ssa, reg, p[|p| - 2], ssa.g.blocks[p[|p| - 2]].end), p[..|p| - 1]))
  {
    hide Valid, SeenAt, IsPath;
    NotEmpty(ssa, p);
    EdgeOf(ssa, p, |p| - 1);
    assert LastIndex(p, p[|p| - 1]) == |p| - 1;
  }

  // Where the last block writes nothing before `end`, the path without it wrote last.
  lemma LastWriteStep(ssa: RegisterSsa, reg: Register, p: seq<BlockId>, end: nat)
    requires Valid(ssa) && IsPath(ssa.g, p) && p[0] == ENTRY
    requires LastIn(WritesOf(ssa.writes, reg), ssa.g.blocks[p[|p| - 1]].start, end).None?
    ensures if |p| == 1 then LastWrite(ssa.g, ssa.writes, reg, p, end) == Undef(reg)
      else
        (Prefix(ssa.g, p, |p| - 1);
         LastWrite(ssa.g, ssa.writes, reg, p, end) ==
         LastWrite(ssa.g, ssa.writes, reg, p[..|p| - 1], ssa.g.blocks[p[|p| - 2]].end))
  {
    hide Valid, LastIn, IsPath;
  }

  lemma NothingFromEntry(ssa: RegisterSsa, reg: Register, p: seq<BlockId>, end: nat)
    requires Valid(ssa) && IsPath(ssa.g, p) && p[0] == ENTRY
    requires ssa.doms.idom[p[|p| - 1]].None? && (reg, p[|p| - 1]) !in ssa.phis
    requires LastIn(WritesOf(ssa.writes, reg), ssa.g.blocks[p[|p| - 1]].start, end).None?
    ensures LastWrite(ssa.g, ssa.writes, reg, p, end) == Undef(reg)
  {
    if |p| > 1 {
      forall t | 0 <= t < |p| - 1
        ensures !WritesInBlock(ssa.g, ssa.writes, reg, p[t])
      {
        NothingBetween(ssa, reg, p, 0, t);
      }
      LastWriteDrops(ssa, reg, p, end, 1);
      LastInNone(WritesOf(ssa.writes, reg), ssa.g.blocks[p[0]], ssa.g.blocks[p[0]].end);
    }
  }

  /** With neither a write nor a phi in the block, what is seen is what the block above it ends with. */
  lemma {:induction false} SeenThroughDominator(ssa: RegisterSsa, reg: Register, p: seq<BlockId>, end: nat, d: BlockId)
    requires Valid(ssa) && IsPath(ssa.g, p) && p[0] == ENTRY
    requires ssa.doms.idom[p[|p| - 1]] == Some(d) && (reg, p[|p| - 1]) !in ssa.phis && Visited(ssa, d)
    requires LastIn(WritesOf(ssa.writes, reg), ssa.g.blocks[p[|p| - 1]].start, end).None?
    ensures Resolve(ssa, SeenAt(ssa, reg, d, ssa.g.blocks[d].end), p) ==
            LastWrite(ssa.g, ssa.writes, reg, p, end)
    decreases |p|, 0
  {
    hide Valid, Resolve, SeenAt, Dominates;
    var k := DominatorOnPath(ssa, p, d);
    SeenIsLastWrite(ssa, reg, p[..k + 1], ssa.g.blocks[d].end);
    LastWriteFrom(ssa, reg, p, end, d, k);
    PhiDominates(ssa, reg, d, ssa.g.blocks[d].end);
    ResolvesBefore(ssa, SeenAt(ssa, reg, d, ssa.g.blocks[d].end), p, k);
  }

  /** Where a path last meets the immediate dominator of its last block. */
  lemma DominatorOnPath(ssa: RegisterSsa, p: seq<BlockId>, d: BlockId) returns (k: nat)
    requires Valid(ssa) && IsPath(ssa.g, p) && p[0] == ENTRY
    requires ssa.doms.idom[p[|p| - 1]] == Some(d)
    ensures LastAt(p, d, k) && k + 1 < |p| && Connects(ssa.g, ENTRY, d, p[..k + 1])
    ensures Dominates(ssa.g, ENTRY, d, p[|p| - 1])
  {
    hide Valid;
    IdomFacts(ssa, p[|p| - 1]);
    OnDominatedPath(ssa.g, d, p[|p| - 1], p);
    k := LastIndex(p, d);
    Prefix(ssa.g, p, k + 1);
  }

  lemma OnDominatedPath(g: Cfg, d: BlockId, b: BlockId, p: seq<BlockId>)
    requires Connects(g, ENTRY, b, p) && Dominates(g, ENTRY, d, b)
    ensures d in p
  {
  }

  lemma LastWriteFrom(ssa: RegisterSsa, reg: Register, p: seq<BlockId>, end: nat, d: BlockId, k: nat)
    requires Valid(ssa) && IsPath(ssa.g, p) && p[0] == ENTRY
    requires ssa.doms.idom[p[|p| - 1]] == Some(d) && (reg, p[|p| - 1]) !in ssa.phis
    requires LastIn(WritesOf(ssa.writes, reg), ssa.g.blocks[p[|p| - 1]].start, end).None?
    requires LastAt(p, d, k) && k + 1 < |p| && IsPath(ssa.g, p[..k + 1])
    ensures LastWrite(ssa.g, ssa.writes, reg, p, end) ==
            LastWrite(ssa.g, ssa.writes, reg, p[..k + 1], ssa.g.blocks[d].end)
  {
    hide Valid, LastWrite, Dominates, WritesInBlock;
    forall t | k + 1 <= t < |p| - 1
      ensures !WritesInBlock(ssa.g, ssa.writes, reg, p[t])
    {
      NothingBetween(ssa, reg, p, k + 1, t);
    }
    LastWriteDrops(ssa, reg, p, end, k + 1);
  }

  /** A phi of a dominator of `p[k]` resolves along `p` as it does up to `k`, where
      `p[k]` dominates the end and does not recur. */
  lemma ResolvesBefore(ssa: RegisterSsa, v: Value, p: seq<BlockId>, k: nat)
    requires Valid(ssa) && IsPath(ssa.g, p) && p[0] == ENTRY && k < |p|
    requires v.Argument? ==> Dominates(ssa.g, ENTRY, v.block, p[k])
    requires Dominates(ssa.g, ENTRY, p[k], p[|p| - 1]) && LastAt(p, p[k], k)
    ensures IsPath(ssa.g, p[..k + 1]) && Resolve(ssa, v, p) == Resolve(ssa, v, p[..k + 1])
  {
    hide Valid, Dominates, SeenAt, LastIndex, OnEdge, IncomingEdge, Resolve, IsPath, Visited;
    Prefix(ssa.g, p, k + 1);
    PathFacts(ssa.g, p);
    if !v.Argument? {
      ResolvesSelf(ssa, v, p);
      ResolvesSelf(ssa, v, p[..k + 1]);
    } else {
      var j := SameOccurrence(ssa, v.block, p, k);
      assert p[..k + 1][..j] == p[..j];
      ResolvesAt(ssa, v, p, j);
      ResolvesAt(ssa, v, p[..k + 1], j);
    }
  }

  lemma PathFacts(g: Cfg, p: seq<BlockId>)
    requires IsPath(g, p)
    ensures p != []
  {
  }

  lemma ResolvesSelf(ssa: RegisterSsa, v: Value, p: seq<BlockId>)
    requires Valid(ssa) && IsPath(ssa.g, p) && p[0] == ENTRY && !v.Argument?
    ensures Resolve(ssa, v, p) == v
  {
  }

  lemma ResolvesAt(ssa: RegisterSsa, v: Value, p: seq<BlockId>, j: nat)
    requires Valid(ssa) && IsPath(ssa.g, p) && p[0] == ENTRY
    requires v.Argument? && v.block in p && LastIndex(p, v.block) == j
    ensures IncomingEdge(ssa, v.block, if j == 0 then None else Some(p[j - 1]))
    ensures j > 0 ==> IsPath(ssa.g, p[..j]) && p[..j][0] == ENTRY
    ensures Resolve(ssa, v, p) ==
            if j == 0 then OnEdge(ssa, v.block, v.reg, None)
            else Resolve(ssa, OnEdge(ssa, v.block, v.reg, Some(p[j - 1])), p[..j])
  {
    hide Valid, SeenAt, OnEdge, IncomingEdge;
    EdgeOf(ssa, p, j);
  }

  lemma SameOccurrence(ssa: RegisterSsa, c: BlockId, p: seq<BlockId>, k: nat) returns (j: nat)
    requires IsPath(ssa.g, p) && p[0] == ENTRY && k < |p|
    requires Dominates(ssa.g, ENTRY, c, p[k]) && Dominates(ssa.g, ENTRY, p[k], p[|p| - 1]) && LastAt(p, p[k], k)
    ensures c in p && c in p[..k + 1] && LastIndex(p, c) == j == LastIndex(p[..k + 1], c)
  {
    Prefix(ssa.g, p, k + 1);
    assert c in p[..k + 1];
    j := LastIndex(p[..k + 1], c);
    forall i | k < i < |p|
      ensures p[i] != c
    {
      DominatesAfterLast(ssa.g, ENTRY, p[k], p, k, i);
      if p[i] == c {
        DominatesAntisymmetric(ssa.g, ENTRY, c, p[k]);
      }
    }
    assert forall i :: j < i <= k ==> p[i] == p[..k + 1][i];
    LastIndexIs(p, c, j);
  }

  lemma {:induction false} LastIndexIs(p: seq<BlockId>, c: BlockId, k: nat)
    requires LastAt(p, c, k)
    ensures c in p && LastIndex(p, c) == k
  {
    if p[|p| - 1] != c {
      LastIndexIs(p[..|p| - 1], c, k);
    }
  }
}
