/** Building register SSA and asking it: phi placement, the value before a
    statement, what a phi takes on each edge, and the definitions a value may be. */
module SsaQueries {
  import opened Wrappers
  import opened Graphs
  import opened DepthFirst
  import opened Dominators
  import opened Frontiers
  import opened Sorting
  import opened Ssa

  // -- construction ----------------------------------------------------------

  /** The first block holding `stmt`; disjoint ranges make it the only one. */
  method BlockOf(g: Cfg, stmt: nat) returns (b: BlockId)
    requires g.Laid() && InSomeBlock(g, stmt)
    ensures b < |g.blocks| && Holds(g.blocks[b], stmt)
    ensures forall c: nat :: c < |g.blocks| && Holds(g.blocks[c], stmt) ==> c == b
  {
    b := 0;
    while !Holds(g.blocks[b], stmt)
      invariant b < |g.blocks|
      invariant forall c: nat :: c < b ==> !Holds(g.blocks[c], stmt)
      decreases |g.blocks| - b
    {
      var c: nat :| c < |g.blocks| && Holds(g.blocks[c], stmt);
      b := b + 1;
    }
  }

  ghost predicate BlocksWriting(g: Cfg, ws: seq<nat>, blocks: seq<BlockId>) {
    && (forall b :: b in blocks ==> b < |g.blocks|)
    && (forall b: nat :: b in blocks <==> g.Has(b) && exists w :: w in ws && Holds(g.blocks[b], w))
  }

  method BlocksOf(g: Cfg, ws: seq<nat>) returns (blocks: seq<BlockId>)
    requires g.Laid() && forall w :: w in ws ==> InSomeBlock(g, w)
    ensures BlocksWriting(g, ws, blocks)
  {
    blocks := [];
    for i := 0 to |ws|
      invariant BlocksWriting(g, ws[..i], blocks)
    {
      assert ws[i] in ws;
      var b := BlockOf(g, ws[i]);
      assert ws[..i + 1] == ws[..i] + [ws[i]];
      blocks := blocks + [b];
    }
    assert ws[..|ws|] == ws;
  }

  ghost function PhiBlocks(phis: set<(Register, BlockId)>, reg: Register): set<BlockId> {
    set q | q in phis && q.0 == reg :: q.1
  }

  /** No smaller set of blocks is closed: the form is minimal. */
  ghost predicate MinimalPhis(g: Cfg, writes: map<Register, seq<nat>>, phis: set<(Register, BlockId)>, reg: Register) {
    forall s: set<BlockId> ::
      (forall x: nat, y: nat :: (WritesInBlock(g, writes, reg, x) || x in s) && InFrontier(g, ENTRY, x, y) ==> y in s)
      ==> PhiBlocks(phis, reg) <= s
  }

  /** `phis` are right for the registers in `done` and there are none for others. */
  ghost predicate Placed(g: Cfg, writes: map<Register, seq<nat>>, phis: set<(Register, BlockId)>, done: set<Register>) {
    && (forall reg, b :: (reg, b) in phis ==> g.Has(b) && reg in done)
    && (forall reg :: reg in done ==> PhisClosed(g, writes, phis, reg) && MinimalPhis(g, writes, phis, reg))
  }

  /** A closed block set of the frontier table is a closed set of phi blocks. */
  lemma TableIsFrontier(g: Cfg, writes: map<Register, seq<nat>>, reg: Register, df: seq<seq<BlockId>>,
                        blocks: seq<BlockId>, s: set<BlockId>)
    requires |df| == |g.blocks|
    requires forall r: nat, b: nat :: r < |df| ==> (b in df[r] <==> InFrontier(g, ENTRY, r, b))
    requires BlocksWriting(g, WritesOf(writes, reg), blocks)
    requires forall r: nat, b: nat :: InFrontier(g, ENTRY, r, b) ==> g.Has(r)
    ensures ClosedUnder(df, blocks, s) <==>
            forall x: nat, y: nat :: (WritesInBlock(g, writes, reg, x) || x in s) && InFrontier(g, ENTRY, x, y) ==> y in s
  {
    hide InFrontier;
    assert forall x: nat :: x in blocks <==> WritesInBlock(g, writes, reg, x);
    if ClosedUnder(df, blocks, s) {
      forall x: nat, y: nat | (WritesInBlock(g, writes, reg, x) || x in s) && InFrontier(g, ENTRY, x, y)
        ensures y in s
      {
        assert x < |df| && y in df[x];
      }
    }
  }

  lemma FrontierInGraph(g: Cfg, r: BlockId, b: BlockId)
    requires InFrontier(g, ENTRY, r, b)
    ensures g.Has(r) && g.Has(b)
  {
    var p :| EndsAt(g, ENTRY, r, b, p);
    DominatorReaches(g, ENTRY, r, p);
    var q :| Connects(g, ENTRY, r, q);
    assert g.Has(q[|q| - 1]);
  }

  /** Places the phis of one register. */
  lemma PlacesRegister(g: Cfg, writes: map<Register, seq<nat>>, phis: set<(Register, BlockId)>, done: set<Register>,
                       reg: Register, df: seq<seq<BlockId>>, blocks: seq<BlockId>, out: seq<BlockId>)
    requires Placed(g, writes, phis, done) && reg !in done
    requires |df| == |g.blocks|
    requires forall r: nat, b: nat :: r < |df| ==> (b in df[r] <==> InFrontier(g, ENTRY, r, b))
    requires BlocksWriting(g, WritesOf(writes, reg), blocks)
    requires forall b :: b in out ==> b < |df|
    requires ClosedUnder(df, blocks, SetOf(out))
    requires forall s :: ClosedUnder(df, blocks, s) ==> SetOf(out) <= s
    ensures Placed(g, writes, phis + (set b | b in out :: (reg, b)), done + {reg})
  {
    hide InFrontier, ClosedUnder, BlocksWriting, WritesInBlock;
    var all := phis + (set b | b in out :: (reg, b));
    forall r: nat, b: nat | InFrontier(g, ENTRY, r, b)
      ensures g.Has(r)
    {
      FrontierInGraph(g, r, b);
    }
    forall s: set<BlockId>
      ensures ClosedUnder(df, blocks, s) <==>
              forall x: nat, y: nat :: (WritesInBlock(g, writes, reg, x) || x in s) && InFrontier(g, ENTRY, x, y) ==> y in s
    {
      TableIsFrontier(g, writes, reg, df, blocks, s);
    }
    forall other, b | other != reg
      ensures (other, b) in all <==> (other, b) in phis
    {
    }
    forall b
      ensures (reg, b) in all <==> b in SetOf(out)
    {
    }
    SamePhis(g, writes, phis, all, done, reg);
    assert PhiBlocks(all, reg) == SetOf(out) by {
      forall b
        ensures b in PhiBlocks(all, reg) <==> b in SetOf(out)
      {
        if b in SetOf(out) {
          assert (reg, b) in all;
        }
      }
    }
  }

  lemma SamePhis(g: Cfg, writes: map<Register, seq<nat>>, phis: set<(Register, BlockId)>,
                 all: set<(Register, BlockId)>, done: set<Register>, reg: Register)
    requires Placed(g, writes, phis, done) && reg !in done
    requires forall other, b :: other != reg ==> ((other, b) in all <==> (other, b) in phis)
    ensures forall other :: other in done ==>
              PhisClosed(g, writes, all, other) && MinimalPhis(g, writes, all, other)
  {
    hide InFrontier, WritesInBlock;
    forall other | other in done
      ensures PhiBlocks(all, other) == PhiBlocks(phis, other)
    {
      forall b
        ensures b in PhiBlocks(all, other) <==> b in PhiBlocks(phis, other)
      {
        if b in PhiBlocks(all, other) {
          assert (other, b) in all;
        }
        if b in PhiBlocks(phis, other) {
          assert (other, b) in phis;
        }
      }
    }
  }

  lemma AllPlaced(g: Cfg, doms: DominanceInfo, writes: map<Register, seq<nat>>, phis: set<(Register, BlockId)>)
    requires g.Valid() && g.Laid() && DominanceOf(g, ENTRY, doms) && WritesIn(g, writes)
    requires Placed(g, writes, phis, writes.Keys)
    ensures Valid(RegisterSsa(g, doms, writes, phis))
    ensures forall reg :: reg in writes ==> MinimalPhis(g, writes, phis, reg)
  {
  }

  /** Places phis: the set it ends with is the least one closed under frontiers of the writing blocks. */
  method New(g: Cfg, doms: DominanceInfo, writes: map<Register, seq<nat>>) returns (ssa: RegisterSsa)
    requires g.Valid() && g.Laid() && DominanceOf(g, ENTRY, doms) && WritesIn(g, writes)
    ensures Valid(ssa) && ssa.g == g && ssa.doms == doms && ssa.writes == writes
    ensures forall reg :: reg in writes ==> MinimalPhis(g, writes, ssa.phis, reg)
  {
    hide DominanceOf, InFrontier, ClosedUnder, BlocksWriting, Placed, MinimalPhis;
    var df := FrontiersOf(g, ENTRY, doms);
    TableInRange(g, df);
    var phis: set<(Register, BlockId)> := {};
    var todo := writes.Keys;
    NonePlaced(g, writes);
    while todo != {}
      invariant todo <= writes.Keys && Placed(g, writes, phis, writes.Keys - todo)
      decreases todo
    {
      var reg :| reg in todo;
      var blocks := BlocksOf(g, writes[reg]);
      InGraph(g, writes[reg], blocks);
      var out := IteratedFrontier(df, blocks);
      PlacesRegister(g, writes, phis, writes.Keys - todo, reg, df, blocks, out);
      phis := phis + (set b | b in out :: (reg, b));
      assert writes.Keys - todo + {reg} == writes.Keys - (todo - {reg});
      todo := todo - {reg};
    }
    assert writes.Keys - todo == writes.Keys;
    AllPlaced(g, doms, writes, phis);
    ssa := RegisterSsa(g, doms, writes, phis);
  }

  lemma TableInRange(g: Cfg, df: seq<seq<BlockId>>)
    requires |df| == |g.blocks|
    requires forall r: nat, b: nat :: r < |df| ==> (b in df[r] <==> InFrontier(g, ENTRY, r, b))
    ensures InTable(df)
  {
    forall x: nat, y: nat | x < |df| && y in df[x]
      ensures y < |df|
    {
      FrontierInGraph(g, x, y);
    }
  }

  lemma NonePlaced(g: Cfg, writes: map<Register, seq<nat>>)
    ensures Placed(g, writes, {}, writes.Keys - writes.Keys)
  {
  }

  lemma InGraph(g: Cfg, ws: seq<nat>, blocks: seq<BlockId>)
    requires BlocksWriting(g, ws, blocks)
    ensures forall b :: b in blocks ==> b < |g.blocks|
  {
  }

  // -- queries ---------------------------------------------------------------

  lemma ClimbFacts(ssa: RegisterSsa, b: BlockId)
    requires Valid(ssa) && ssa.g.Has(b)
    ensures b < |ssa.doms.idom| == |ssa.doms.rpoIndex|
    ensures ssa.doms.idom[b].Some? ==> ssa.doms.idom[b].value < |ssa.doms.rpoIndex| &&
                                       ssa.doms.rpoIndex[ssa.doms.idom[b].value] < ssa.doms.rpoIndex[b]
  {
  }

  lemma LookupFacts(ssa: RegisterSsa, reg: Register, b: BlockId)
    requires Valid(ssa) && ssa.g.Has(b)
    ensures |ssa.doms.rpoIndex| == |ssa.doms.idom| == |ssa.g.blocks|
    ensures ssa.doms.IsReachable(b) <==> Visited(ssa, b)
    ensures Ascending(WritesOf(ssa.writes, reg))
  {
    ReachableIsNumbered(ssa.g, ENTRY, ssa.doms, b);
  }

  /** Climbs the dominators from a point in block `b` to what the register holds there; nothing
      if no run comes to the block. */
  method Lookup(ssa: RegisterSsa, reg: Register, b: BlockId, end: nat) returns (v: Option<Value>)
    requires Valid(ssa) && ssa.g.Has(b)
    ensures if Visited(ssa, b) then v == Some(SeenAt(ssa, reg, b, end)) else v == None
  {
    hide Valid;
    LookupFacts(ssa, reg, b);
    if !ssa.doms.IsReachable(b) {
      return None;
    }
    var ws := WritesOf(ssa.writes, reg);
    var at, upto := b, end;
    while true
      invariant Visited(ssa, at) && SeenAt(ssa, reg, at, upto) == SeenAt(ssa, reg, b, end)
      decreases ssa.doms.rpoIndex[at]
    {
      var i := PartitionPoint(ws, upto);
      if i > 0 && ws[i - 1] >= ssa.g.blocks[at].start {
        return Some(Result(ws[i - 1], reg));
      }
      if (reg, at) in ssa.phis {
        return Some(Argument(at, reg));
      }
      IdomFacts(ssa, at);
      ClimbFacts(ssa, at);
      // With no phi here, go on from the end of the block above.
      match ssa.doms.idom[at] {
        case Some(d) =>
          at, upto := d, ssa.g.blocks[d].end;
        case None =>
          return Some(Undef(reg));
      }
    }
  }

  /** Looks a statement's register up in the block that holds the statement. */
  method ValueBefore(ssa: RegisterSsa, stmt: nat, reg: Register) returns (v: Option<Value>, ghost b: BlockId)
    requires Valid(ssa) && InSomeBlock(ssa.g, stmt)
    ensures ssa.g.Has(b) && Holds(ssa.g.blocks[b], stmt)
    ensures if Visited(ssa, b) then v == Some(SeenAt(ssa, reg, b, stmt)) else v == None
  {
    var at := BlockOf(ssa.g, stmt);
    b := at;
    v := Lookup(ssa, reg, at, stmt);
  }

  /** A phi's operands, one for each way into its block that a run can take, the start's first and then the
      predecessors in their order. Any other value has none. */
  method Incoming(ssa: RegisterSsa, arg: Value) returns (edges: seq<(Option<BlockId>, Value)>)
    requires Valid(ssa) && (arg.Argument? ==> ssa.g.Has(arg.block))
    ensures !arg.Argument? ==> edges == []
    ensures arg.Argument? ==> forall from, v :: (from, v) in edges <==>
              IncomingEdge(ssa, arg.block, from) && v == OnEdge(ssa, arg.block, arg.reg, from)
    ensures arg.Argument? ==> Origins(edges) == StartFirst(arg.block) + VisitedOf(ssa, ssa.g.blocks[arg.block].preds)
  {
    hide Valid, SeenAt, EdgesListed;
    edges := [];
    match arg {
      case Argument(block, reg) =>
        if block == ENTRY {
          edges := [(None, Undef(reg))];
        }
        var preds := ssa.g.blocks[block].preds;
        NoneListed(ssa, block, reg);
        for i := 0 to |preds|
          invariant EdgesListed(ssa, block, reg, preds[..i], edges)
          invariant Origins(edges) == StartFirst(block) + VisitedOf(ssa, preds[..i])
        {
          var p := preds[i];
          PredIsEdge(ssa, block, p);
          var v := Lookup(ssa, reg, p, ssa.g.blocks[p].end);
          assert preds[..i + 1] == preds[..i] + [p];
          OriginsNext(ssa, block, preds[..i], p, edges, v);
          ListsNext(ssa, block, reg, preds[..i], p, edges, v);
          if v.Some? {
            edges := edges + [(Some(p), v.value)];
          }
        }
        assert preds[..|preds|] == preds;
        AllListed(ssa, block, reg, edges);
      case _ =>
    }
  }

  // Where each edge comes from, in order; none is the kernel's start.
  function Origins(edges: seq<(Option<BlockId>, Value)>): (r: seq<Option<BlockId>>)
    ensures |r| == |edges|
  {
    seq(|edges|, i requires 0 <= i < |edges| => edges[i].0)
  }

  function StartFirst(block: BlockId): seq<Option<BlockId>> {
    if block == ENTRY then [None] else []
  }

  // The visited ones of `preds`, in their order and as often as they stand there.
  ghost function VisitedOf(ssa: RegisterSsa, preds: seq<BlockId>): seq<Option<BlockId>> {
    if preds == [] then [] else
    var last := preds[|preds| - 1];
    VisitedOf(ssa, preds[..|preds| - 1]) + if Visited(ssa, last) then [Some(last)] else []
  }

  lemma OriginsNext(ssa: RegisterSsa, block: BlockId, preds: seq<BlockId>, p: BlockId,
                    edges: seq<(Option<BlockId>, Value)>, v: Option<Value>)
    requires Origins(edges) == StartFirst(block) + VisitedOf(ssa, preds) && (v.Some? <==> Visited(ssa, p))
    ensures Origins(if v.Some? then edges + [(Some(p), v.value)] else edges) ==
            StartFirst(block) + VisitedOf(ssa, preds + [p])
  {
    hide Visited;
    assert (preds + [p])[..|preds|] == preds;
    if v.Some? {
      assert Origins(edges + [(Some(p), v.value)]) == Origins(edges) + [Some(p)];
    }
  }

  /** The edges are those from the kernel's start and from the blocks of `preds`. */
  ghost predicate EdgesListed(ssa: RegisterSsa, block: BlockId, reg: Register, preds: seq<BlockId>,
                              edges: seq<(Option<BlockId>, Value)>)
    requires Valid(ssa)
  {
    forall from, v :: (from, v) in edges <==>
      IncomingEdge(ssa, block, from) && v == OnEdge(ssa, block, reg, from) && (from.Some? ==> from.value in preds)
  }

  lemma NoneListed(ssa: RegisterSsa, block: BlockId, reg: Register)
    requires Valid(ssa)
    ensures EdgesListed(ssa, block, reg, [], if block == ENTRY then [(None, Undef(reg))] else [])
  {
    hide Valid, SeenAt;
  }

  lemma ListsNext(ssa: RegisterSsa, block: BlockId, reg: Register, preds: seq<BlockId>, p: BlockId,
                  edges: seq<(Option<BlockId>, Value)>, v: Option<Value>)
    requires Valid(ssa) && EdgesListed(ssa, block, reg, preds, edges) && ssa.g.Edge(p, block)
    requires if Visited(ssa, p) then v == Some(SeenAt(ssa, reg, p, ssa.g.blocks[p].end)) else v == None
    ensures EdgesListed(ssa, block, reg, preds + [p], if v.Some? then edges + [(Some(p), v.value)] else edges)
  {
    hide Valid, SeenAt, Visited;
    assert IncomingEdge(ssa, block, Some(p)) <==> v.Some?;
    assert v.Some? ==> v.value == OnEdge(ssa, block, reg, Some(p));
    hide IncomingEdge, OnEdge;
  }

  lemma AllListed(ssa: RegisterSsa, block: BlockId, reg: Register, edges: seq<(Option<BlockId>, Value)>)
    requires Valid(ssa) && ssa.g.Has(block) && EdgesListed(ssa, block, reg, ssa.g.blocks[block].preds, edges)
    ensures forall from, v :: (from, v) in edges <==>
              IncomingEdge(ssa, block, from) && v == OnEdge(ssa, block, reg, from)
  {
    PredsAreAll(ssa, block);
    hide Valid, SeenAt;
  }

  lemma PredIsEdge(ssa: RegisterSsa, block: BlockId, p: BlockId)
    requires Valid(ssa) && ssa.g.Has(block) && p in ssa.g.blocks[block].preds
    ensures ssa.g.Edge(p, block)
  {
  }

  lemma PredsAreAll(ssa: RegisterSsa, block: BlockId)
    requires Valid(ssa) && ssa.g.Has(block)
    ensures forall p: nat :: ssa.g.Edge(p, block) ==> p in ssa.g.blocks[block].preds
  {
  }

  // -- sources ---------------------------------------------------------------

  /** `w` is what phi `v` takes on one of its edges. */
  ghost predicate Takes(ssa: RegisterSsa, v: Value, w: Value)
    requires Valid(ssa)
  {
    v.Argument? && exists from :: IncomingEdge(ssa, v.block, from) && w == OnEdge(ssa, v.block, v.reg, from)
  }

  ghost predicate Flow(ssa: RegisterSsa, c: seq<Value>)
    requires Valid(ssa)
  {
    c != [] && forall i :: 0 <= i < |c| - 1 ==> Takes(ssa, c[i], c[i + 1])
  }

  /** `v` may be `w`, through phis. */
  ghost predicate MayBe(ssa: RegisterSsa, v: Value, w: Value)
    requires Valid(ssa)
  {
    exists c :: Flow(ssa, c) && c[0] == v && c[|c| - 1] == w
  }

  lemma MayBeStep(ssa: RegisterSsa, v: Value, u: Value, w: Value)
    requires Valid(ssa) && MayBe(ssa, v, u) && Takes(ssa, u, w)
    ensures MayBe(ssa, v, w)
  {
    hide Valid, Takes;
    var c :| Flow(ssa, c) && c[0] == v && c[|c| - 1] == u;
    var e := c + [w];
    forall i | 0 <= i < |e| - 1
      ensures Takes(ssa, e[i], e[i + 1])
    {
      if i < |c| - 1 {
        assert Takes(ssa, c[i], c[i + 1]);
      }
    }
    assert Flow(ssa, e);
  }

  /** Every value of `reg`: those the search of its sources may meet. */
  ghost function ValuesOf(ssa: RegisterSsa, reg: Register): set<Value> {
    (set w | w in WritesOf(ssa.writes, reg) :: Result(w, reg)) +
    (set q | q in ssa.phis && q.0 == reg :: Argument(q.1, reg)) + {Undef(reg)}
  }

  lemma {:induction false} SeenInValues(ssa: RegisterSsa, reg: Register, b: BlockId, end: nat)
    requires Valid(ssa) && Visited(ssa, b)
    ensures SeenAt(ssa, reg, b, end) in ValuesOf(ssa, reg)
    decreases ssa.doms.rpoIndex[b]
  {
    hide Valid, SeenAt;
    SeenCases(ssa, reg, b, end);
    LastInMember(WritesOf(ssa.writes, reg), ssa.g.blocks[b].start, end);
    ClimbFacts(ssa, b);
    if (reg, b) in ssa.phis {
      assert Argument(b, reg) in ValuesOf(ssa, reg);
    }
    if ssa.doms.idom[b].Some? {
      var d := ssa.doms.idom[b].value;
      SeenInValues(ssa, reg, d, ssa.g.blocks[d].end);
    }
  }

  lemma {:induction false} LastInMember(ws: seq<nat>, start: nat, end: nat)
    ensures LastIn(ws, start, end).Some? ==> LastIn(ws, start, end).value in ws
    decreases end
  {
    if start < end {
      LastInMember(ws, start, end - 1);
    }
  }

  lemma TakenInValues(ssa: RegisterSsa, v: Value, w: Value)
    requires Valid(ssa) && Takes(ssa, v, w)
    ensures w in ValuesOf(ssa, v.reg) && w.reg == v.reg && (w.Argument? ==> ssa.g.Has(w.block))
  {
    var from :| IncomingEdge(ssa, v.block, from) && w == OnEdge(ssa, v.block, v.reg, from);
    match from {
      case Some(p) =>
        SeenInValues(ssa, v.reg, p, ssa.g.blocks[p].end);
        PhiDominates(ssa, v.reg, p, ssa.g.blocks[p].end);
        if w.Argument? {
          DominatorReaches(ssa.g, ENTRY, w.block, p);
          var q :| Connects(ssa.g, ENTRY, w.block, q);
          assert ssa.g.Has(q[|q| - 1]);
        }
      case None =>
    }
  }

  /** What the search keeps: everything met flows from the start; phis met are opened;
      the rest is listed. */
  ghost predicate Searching(ssa: RegisterSsa, start: Value, seen: set<Value>, work: seq<Value>, out: seq<Value>)
    requires Valid(ssa)
  {
    && (forall u :: u in seen || u in work ==>
          MayBe(ssa, start, u) && u.reg == start.reg && (u.Argument? ==> ssa.g.Has(u.block)))
    && seen <= ValuesOf(ssa, start.reg) + {start}
    && (forall u :: u in work ==> u in ValuesOf(ssa, start.reg) + {start})
    && (start in seen || start in work)
    && (forall u, w :: u in seen && Takes(ssa, u, w) ==> w in seen || w in work)
    && (forall u :: u in out <==> u in seen && !u.Argument?)
    && NoDuplicates(out)
  }

  lemma SearchingStarts(ssa: RegisterSsa, v: Value)
    requires Valid(ssa) && (v.Argument? ==> ssa.g.Has(v.block))
    ensures Searching(ssa, v, {}, [v], [])
  {
    assert Flow(ssa, [v]);
  }

  lemma SearchingSkips(ssa: RegisterSsa, start: Value, seen: set<Value>, work: seq<Value>, out: seq<Value>)
    requires Valid(ssa) && Searching(ssa, start, seen, work, out) && work != [] && work[|work| - 1] in seen
    ensures Searching(ssa, start, seen, work[..|work| - 1], out)
  {
    hide Valid, MayBe, Takes, ValuesOf;
    assert work == work[..|work| - 1] + [work[|work| - 1]];
  }

  /** A value met for the first time: a phi's edges join the work, another is listed. */
  lemma SearchingOpens(ssa: RegisterSsa, start: Value, seen: set<Value>, work: seq<Value>, out: seq<Value>,
                       more: seq<Value>)
    requires Valid(ssa) && Searching(ssa, start, seen, work, out) && work != [] && work[|work| - 1] !in seen
    requires forall w :: w in more <==> Takes(ssa, work[|work| - 1], w)
    ensures var v := work[|work| - 1];
            v in ValuesOf(ssa, start.reg) + {start} && (v.Argument? ==> ssa.g.Has(v.block)) &&
            Searching(ssa, start, seen + {v}, work[..|work| - 1] + more, if v.Argument? then out else out + [v])
  {
    hide Valid, MayBe, ValuesOf;
    var v := work[|work| - 1];
    assert work == work[..|work| - 1] + [v];
    assert v in work;
    forall w | w in more
      ensures MayBe(ssa, start, w) && w.reg == start.reg && (w.Argument? ==> ssa.g.Has(w.block))
      ensures w in ValuesOf(ssa, start.reg) + {start}
    {
      MayBeStep(ssa, start, v, w);
      TakenInValues(ssa, v, w);
    }
    hide Takes;
    var rest := work[..|work| - 1] + more;
    forall u, w | u in seen + {v} && Takes(ssa, u, w)
      ensures w in seen + {v} || w in rest
    {
      if u in seen {
        assert w in seen || w in work;
      }
    }
  }

  /** Follows phis backwards until only writes are left: their statements, sorted and once each,
      with `Undef` last where a way exists that writes nothing. */
  method Sources(ssa: RegisterSsa, v: Value) returns (out: seq<Value>)
    requires Valid(ssa) && (v.Argument? ==> ssa.g.Has(v.block))
    ensures forall w :: w in out <==> !w.Argument? && MayBe(ssa, v, w)
    ensures NoDuplicates(out) && SortedBy(SortKey, out)
    ensures forall i, j :: 0 <= i < j < |out| && out[j].Result? && out[j].op < LAST_KEY ==>
      out[i].Result? && out[i].op <= out[j].op
  {
    hide Valid, Searching, Takes, MayBe;
    var seen: set<Value> := {};
    var work := [v];
    out := [];
    SearchingStarts(ssa, v);
    while work != []
      invariant Searching(ssa, v, seen, work, out)
      decreases ValuesOf(ssa, v.reg) + {v} - seen, |work|
    {
      var u := work[|work| - 1];
      if u in seen {
        SearchingSkips(ssa, v, seen, work, out);
        work := work[..|work| - 1];
      } else {
        OpensInGraph(ssa, v, seen, work, out);
        var more := [];
        if u.Argument? {
          var edges := Incoming(ssa, u);
          more := seq(|edges|, i requires 0 <= i < |edges| => edges[i].1);
          EdgesAreTaken(ssa, u, edges, more);
        } else {
          NotTaken(ssa, u);
        }
        SearchingOpens(ssa, v, seen, work, out, more);
        out := if u.Argument? then out else out + [u];
        seen := seen + {u};
        work := work[..|work| - 1] + more;
      }
    }
    SearchingEnds(ssa, v, seen, out);
    SortKeeps(SortKey, out);
    out := SortBy(SortKey, out);
  }

  lemma OpensInGraph(ssa: RegisterSsa, start: Value, seen: set<Value>, work: seq<Value>, out: seq<Value>)
    requires Valid(ssa) && Searching(ssa, start, seen, work, out) && work != []
    ensures var u := work[|work| - 1];
            (u.Argument? ==> ssa.g.Has(u.block)) && u in ValuesOf(ssa, start.reg) + {start}
  {
    assert work[|work| - 1] in work;
  }

  lemma EdgesAreTaken(ssa: RegisterSsa, u: Value, edges: seq<(Option<BlockId>, Value)>, more: seq<Value>)
    requires Valid(ssa) && u.Argument? && |more| == |edges|
    requires forall i :: 0 <= i < |edges| ==> more[i] == edges[i].1
    requires forall from, w :: (from, w) in edges <==>
               IncomingEdge(ssa, u.block, from) && w == OnEdge(ssa, u.block, u.reg, from)
    ensures forall w :: w in more <==> Takes(ssa, u, w)
  {
    hide Valid, IncomingEdge, OnEdge;
    forall w
      ensures w in more <==> Takes(ssa, u, w)
    {
      if w in more {
        var i :| 0 <= i < |more| && more[i] == w;
        assert edges[i] in edges && edges[i] == (edges[i].0, edges[i].1);
      }
      if Takes(ssa, u, w) {
        var from :| IncomingEdge(ssa, u.block, from) && w == OnEdge(ssa, u.block, u.reg, from);
        assert (from, w) in edges;
        var i :| 0 <= i < |edges| && edges[i] == (from, w);
        assert more[i] == w;
      }
    }
  }

  lemma NotTaken(ssa: RegisterSsa, u: Value)
    requires Valid(ssa) && !u.Argument?
    ensures forall w :: !Takes(ssa, u, w)
  {
  }

  lemma SearchingEnds(ssa: RegisterSsa, start: Value, seen: set<Value>, out: seq<Value>)
    requires Valid(ssa) && Searching(ssa, start, seen, [], out)
    ensures forall w :: w in out <==> !w.Argument? && MayBe(ssa, start, w)
    ensures NoDuplicates(out)
  {
    hide Valid, Takes;
    forall w | MayBe(ssa, start, w)
      ensures w in seen
    {
      var c :| Flow(ssa, c) && c[0] == start && c[|c| - 1] == w;
      FlowSeen(ssa, start, seen, out, c, |c| - 1);
    }
  }

  lemma {:induction false} FlowSeen(ssa: RegisterSsa, start: Value, seen: set<Value>, out: seq<Value>,
                                    c: seq<Value>, i: nat)
    requires Valid(ssa) && Searching(ssa, start, seen, [], out)
    requires Flow(ssa, c) && c[0] == start && i < |c|
    ensures c[i] in seen
  {
    hide Valid, Takes;
    if i > 0 {
      FlowSeen(ssa, start, seen, out, c, i - 1);
      assert Takes(ssa, c[i - 1], c[i - 1 + 1]);
    }
  }

  // Statement handles are machine words; `Undef` sorts after them all.
  const LAST_KEY: int := 0xFFFF_FFFF_FFFF_FFFF

  function SortKey(v: Value): int {
    if v.Result? then v.op else LAST_KEY
  }

  // -- reaching definitions --------------------------------------------------

  /** Along any path, a value resolves to one of its sources. */
  lemma {:induction false} ResolvesToSource(ssa: RegisterSsa, v: Value, p: seq<BlockId>)
    requires Valid(ssa) && IsPath(ssa.g, p) && p[0] == ENTRY
    ensures MayBe(ssa, v, Resolve(ssa, v, p))
    decreases |p|
  {
    hide Valid, SeenAt;
    assert Flow(ssa, [v]);
    if v.Argument? && v.block in p {
      var k := LastIndex(p, v.block);
      EdgeOf(ssa, p, k);
      var from := if k == 0 then None else Some(p[k - 1]);
      var w := OnEdge(ssa, v.block, v.reg, from);
      if k > 0 {
        ResolvesToSource(ssa, w, p[..k]);
      }
      assert Takes(ssa, v, w);
      assert Flow(ssa, [w]);
      MayBeFirst(ssa, v, w, Resolve(ssa, v, p));
    }
  }

  lemma MayBeFirst(ssa: RegisterSsa, v: Value, u: Value, w: Value)
    requires Valid(ssa) && Takes(ssa, v, u) && MayBe(ssa, u, w)
    ensures MayBe(ssa, v, w)
  {
    hide Valid, Takes;
    var c :| Flow(ssa, c) && c[0] == u && c[|c| - 1] == w;
    var e := [v] + c;
    forall i | 0 <= i < |e| - 1
      ensures Takes(ssa, e[i], e[i + 1])
    {
      if i > 0 {
        assert Takes(ssa, c[i - 1], c[i - 1 + 1]);
      }
    }
    assert Flow(ssa, e);
  }

  /** Each source of the value a read sees is what some run to the read last wrote: follow
      the edges its phis take, then go on from the outermost phi's block to the read. */
  lemma {:induction false} SourceIsWritten(ssa: RegisterSsa, reg: Register, b: BlockId, end: nat, c: seq<Value>)
    returns (p: seq<BlockId>)
    requires Valid(ssa) && Visited(ssa, b)
    requires Flow(ssa, c) && c[0] == SeenAt(ssa, reg, b, end) && !c[|c| - 1].Argument?
    ensures Connects(ssa.g, ENTRY, b, p) && LastWrite(ssa.g, ssa.writes, reg, p, end) == c[|c| - 1]
    decreases |c|
  {
    hide Valid, SeenAt, Takes, IsPath;
    var v := c[0];
    if |c| == 1 {
      p :| Connects(ssa.g, ENTRY, b, p);
    } else {
      var from := FirstEdge(ssa, c);
      FlowTail(ssa, c);
      PhiDominates(ssa, reg, b, end);
      var head: seq<BlockId> := [];
      if from.Some? {
        var q := from.value;
        head := SourceIsWritten(ssa, reg, q, ssa.g.blocks[q].end, c[1..]);
        SeenIsLastWrite(ssa, reg, head, ssa.g.blocks[q].end);
      } else {
        NothingTaken(ssa, c);
      }
      var tail := FromDominator(ssa.g, v.block, b);
      EntersBy(ssa, head, tail, v, from, b);
      p := head + tail;
    }
    SeenIsLastWrite(ssa, reg, p, end);
  }

  lemma FirstEdge(ssa: RegisterSsa, c: seq<Value>) returns (from: Option<BlockId>)
    requires Valid(ssa) && Flow(ssa, c) && |c| > 1
    ensures c[0].Argument? && IncomingEdge(ssa, c[0].block, from)
    ensures c[1] == OnEdge(ssa, c[0].block, c[0].reg, from)
  {
    hide Valid, SeenAt;
    FlowStep(ssa, c, 0);
    from :| IncomingEdge(ssa, c[0].block, from) && c[1] == OnEdge(ssa, c[0].block, c[0].reg, from);
  }

  lemma FlowStep(ssa: RegisterSsa, c: seq<Value>, i: nat)
    requires Valid(ssa) && Flow(ssa, c) && i + 1 < |c|
    ensures Takes(ssa, c[i], c[i + 1])
  {
  }

  lemma FlowTail(ssa: RegisterSsa, c: seq<Value>)
    requires Valid(ssa) && Flow(ssa, c) && |c| > 1
    ensures Flow(ssa, c[1..]) && c[1..][0] == c[1]
  {
    hide Valid, Takes;
    forall i | 0 <= i < |c[1..]| - 1
      ensures Takes(ssa, c[1..][i], c[1..][i + 1])
    {
      assert Takes(ssa, c[i + 1], c[i + 1 + 1]);
    }
  }

  lemma NothingTaken(ssa: RegisterSsa, c: seq<Value>)
    requires Valid(ssa) && Flow(ssa, c) && |c| > 1 && !c[1].Argument?
    ensures |c| == 2
  {
    hide Valid;
    if |c| > 2 {
      FlowStep(ssa, c, 1);
    }
  }

  /** A path from a dominator to the block it dominates, not coming back to it. */
  lemma FromDominator(g: Cfg, d: BlockId, b: BlockId) returns (tail: seq<BlockId>)
    requires Dominates(g, ENTRY, d, b)
    ensures Connects(g, d, b, tail) && LastAt(tail, d, 0)
  {
    var p :| Connects(g, ENTRY, b, p);
    var k := LastIndex(p, d);
    PathSlice(g, p, k, |p|);
    tail := p[k..];
    assert forall i :: 0 < i < |tail| ==> tail[i] == p[k + i];
  }

  /** A run entering a phi's block last by one edge resolves the phi to that edge's value. */
  lemma EntersBy(ssa: RegisterSsa, head: seq<BlockId>, tail: seq<BlockId>, v: Value, from: Option<BlockId>, b: BlockId)
    requires Valid(ssa) && v.Argument? && IncomingEdge(ssa, v.block, from)
    requires Connects(ssa.g, v.block, b, tail) && LastAt(tail, v.block, 0)
    requires match from case None => head == [] case Some(q) => Connects(ssa.g, ENTRY, q, head)
    ensures Connects(ssa.g, ENTRY, b, head + tail)
    ensures Resolve(ssa, v, head + tail) ==
            var w := OnEdge(ssa, v.block, v.reg, from); if from.None? then w else Resolve(ssa, w, head)
  {
    hide Valid, SeenAt;
    var p := head + tail;
    EntersPath(ssa, head, tail, v.block, from, b);
    assert forall i :: |head| < i < |p| ==> p[i] == tail[i - |head|];
    LastIndexIs(p, v.block, |head|);
    assert p[..|head|] == head;
  }

  lemma EntersPath(ssa: RegisterSsa, head: seq<BlockId>, tail: seq<BlockId>, c: BlockId, from: Option<BlockId>,
                   b: BlockId)
    requires IncomingEdge(ssa, c, from) && Connects(ssa.g, c, b, tail)
    requires match from case None => head == [] case Some(q) => Connects(ssa.g, ENTRY, q, head)
    ensures Connects(ssa.g, ENTRY, b, head + tail)
  {
    if from.None? {
      assert head + tail == tail;
    } else {
      PathExtend(ssa.g, ENTRY, from.value, c, head);
      PathJoin(ssa.g, ENTRY, c, b, head + [c], tail);
      assert (head + [c]) + tail[1..] == head + tail;
    }
  }

  /** The sources of the value before a statement are exactly the definitions that
      reach it: what the runs to it last wrote. */
  lemma SourcesAreReachingDefinitions(ssa: RegisterSsa, reg: Register, b: BlockId, end: nat, w: Value)
    requires Valid(ssa) && Visited(ssa, b)
    ensures (!w.Argument? && MayBe(ssa, SeenAt(ssa, reg, b, end), w)) <==>
            exists p :: Connects(ssa.g, ENTRY, b, p) && LastWrite(ssa.g, ssa.writes, reg, p, end) == w
  {
    hide Valid, SeenAt;
    var v := SeenAt(ssa, reg, b, end);
    if !w.Argument? && MayBe(ssa, v, w) {
      var c :| Flow(ssa, c) && c[0] == v && c[|c| - 1] == w;
      var p := SourceIsWritten(ssa, reg, b, end, c);
    }
    if p :| Connects(ssa.g, ENTRY, b, p) && LastWrite(ssa.g, ssa.writes, reg, p, end) == w {
      SeenIsLastWrite(ssa, reg, p, end);
      ResolvesToSource(ssa, v, p);
      NeverAPhi(ssa.g, ssa.writes, reg, p, end);
    }
  }

  lemma {:induction false} NeverAPhi(g: Cfg, writes: map<Register, seq<nat>>, reg: Register, p: seq<BlockId>, end: nat)
    requires IsPath(g, p)
    ensures !LastWrite(g, writes, reg, p, end).Argument?
    decreases |p|
  {
    if LastIn(WritesOf(writes, reg), g.blocks[p[|p| - 1]].start, end).None? && |p| > 1 {
      Prefix(g, p, |p| - 1);
      NeverAPhi(g, writes, reg, p[..|p| - 1], g.blocks[p[|p| - 2]].end);
    }
  }
}
