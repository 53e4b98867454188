/** Dominance frontiers and their iteration: where a value written in some
    blocks meets another one. */
module Frontiers {
  import opened Wrappers
  import opened Graphs
  import opened DepthFirst
  import opened Dominators

  /** `b` is where `x`'s dominance ends: `x` dominates a predecessor of `b`, not strictly `b`. */
  ghost predicate InFrontier(g: Cfg, root: BlockId, x: BlockId, b: BlockId) {
    exists p :: EndsAt(g, root, x, b, p)
  }

  ghost predicate EndsAt(g: Cfg, root: BlockId, x: BlockId, b: BlockId, p: BlockId) {
    g.Edge(p, b) && Dominates(g, root, x, p) && !StrictlyDominates(g, root, x, b)
  }

  /** The dominators of a block are itself and those of its immediate dominator. */
  lemma DominatorsClimb(g: Cfg, root: BlockId, d: DominanceInfo, x: BlockId, r: BlockId)
    requires DominanceOf(g, root, d) && g.Has(r) && Reaches(g, root, r)
    ensures Dominates(g, root, x, r) <==>
            x == r || (d.idom[r].Some? && Dominates(g, root, x, d.idom[r].value))
  {
    if d.idom[r].Some? {
      var v := d.idom[r].value;
      if Dominates(g, root, x, v) {
        DominatesTransitive(g, root, x, v, r);
      }
    } else {
      OnlyRootAtRoot(g, root, x);
    }
    DominatesSelf(g, root, r);
  }

  function Append(s: seq<BlockId>, b: BlockId): seq<BlockId> {
    if s != [] && s[|s| - 1] == b then s else s + [b]
  }

  /** The blocks from `p` up to, not including, `b`'s immediate dominator. */
  method Climb(g: Cfg, ghost root: BlockId, d: DominanceInfo, df: array<seq<BlockId>>, b: BlockId, p: BlockId)
    requires DominanceOf(g, root, d) && df.Length == |g.blocks| && g.Edge(p, b)
    modifies df
    ensures forall r: nat :: r < df.Length ==>
              df[r] == if EndsAt(g, root, r, b, p) then Append(old(df[r]), b) else old(df[r])
  {
    hide Dominates, EndsAt, DominanceOf;
    InfoSizes(g, root, d);
    var stop := d.idom[b];
    ReachableIsNumbered(g, root, d, p);
    forall r: nat | r < df.Length
      ensures EndsAt(g, root, r, b, p) <==>
              Dominates(g, root, r, p) && !(stop.Some? && Dominates(g, root, r, stop.value))
      ensures Dominates(g, root, r, p) ==> d.IsReachable(p)
    {
      StopsAtStrict(g, root, d, b, p, r);
    }
    if !d.IsReachable(p) {
      return;
    }
    StopDominates(g, root, d, b, p);
    var runner: Option<BlockId> := Some(p);
    while runner.Some? && runner != stop
      invariant runner.Some? ==> g.Has(runner.value) && Dominates(g, root, runner.value, p)
      invariant runner.Some? && stop.Some? ==> Dominates(g, root, stop.value, runner.value)
      invariant runner.None? ==> stop.None?
      invariant forall r: nat :: r < df.Length ==>
                  df[r] == if Dominates(g, root, r, p) && !(runner.Some? && Dominates(g, root, r, runner.value))
                           then Append(old(df[r]), b) else old(df[r])
      decreases if runner.Some? then d.rpoIndex[runner.value] + 1 else 0
    {
      var r := runner.value;
      if df[r] == [] || df[r][|df[r]| - 1] != b {
        df[r] := df[r] + [b];
      }
      RunnerClimbs(g, root, d, r, p);
      runner := d.idom[r];
    }
  }

  lemma InfoSizes(g: Cfg, root: BlockId, d: DominanceInfo)
    requires DominanceOf(g, root, d)
    ensures |d.idom| == |d.rpoIndex| == |g.blocks|
  {
  }

  lemma RunnerClimbs(g: Cfg, root: BlockId, d: DominanceInfo, r: BlockId, p: BlockId)
    requires DominanceOf(g, root, d) && g.Has(r) && Dominates(g, root, r, p)
    ensures d.idom[r].Some? ==> g.Has(d.idom[r].value) && Dominates(g, root, d.idom[r].value, p) &&
                                d.rpoIndex[d.idom[r].value] < d.rpoIndex[r]
    ensures forall x: nat :: Dominates(g, root, x, r) <==>
                        x == r || (d.idom[r].Some? && Dominates(g, root, x, d.idom[r].value))
    ensures d.idom[r].Some? ==> !Dominates(g, root, r, d.idom[r].value)
  {
    DominatorReaches(g, root, r, p);
    forall x: nat
      ensures Dominates(g, root, x, r) <==> x == r || (d.idom[r].Some? && Dominates(g, root, x, d.idom[r].value))
    {
      DominatorsClimb(g, root, d, x, r);
    }
    if d.idom[r].Some? {
      var v := d.idom[r].value;
      DominatesTransitive(g, root, v, r, p);
      if Dominates(g, root, r, v) {
        DominatesAntisymmetric(g, root, r, v);
      }
    }
  }

  /** The immediate dominator of a block dominates each of its reachable predecessors. */
  lemma StopDominates(g: Cfg, root: BlockId, d: DominanceInfo, b: BlockId, p: BlockId)
    requires DominanceOf(g, root, d) && g.Edge(p, b) && Reaches(g, root, p)
    ensures d.idom[b].Some? ==> Dominates(g, root, d.idom[b].value, p)
    ensures d.idom[b].None? ==> b == root
    ensures Dominates(g, root, p, p)
  {
    DominatesSelf(g, root, p);
    ReachesStep(g, root, p, b);
    if d.idom[b].Some? {
      StrictDominatorOfPred(g, root, d.idom[b].value, p, b);
    }
  }

  lemma StopsAtStrict(g: Cfg, root: BlockId, d: DominanceInfo, b: BlockId, p: BlockId, r: BlockId)
    requires DominanceOf(g, root, d) && g.Edge(p, b)
    ensures EndsAt(g, root, r, b, p) <==>
            Dominates(g, root, r, p) && !(d.idom[b].Some? && Dominates(g, root, r, d.idom[b].value))
    ensures Dominates(g, root, r, p) ==> Reaches(g, root, p)
  {
    if Dominates(g, root, r, p) {
      ReachesStep(g, root, p, b);
      DominatorsClimb(g, root, d, r, b);
      if d.idom[b].Some? && Dominates(g, root, r, d.idom[b].value) && r == b {
        DominatesAntisymmetric(g, root, r, d.idom[b].value);
      }
    }
  }

  ghost predicate FoundVia(g: Cfg, root: BlockId, preds: seq<BlockId>, r: BlockId, b: BlockId) {
    exists p :: p in preds && EndsAt(g, root, r, b, p)
  }

  /** Ascending in the reverse postorder. */
  ghost predicate InOrder(d: DominanceInfo, s: seq<BlockId>) {
    && (forall i :: 0 <= i < |s| ==> s[i] < |d.rpoIndex|)
    && (forall i, j :: 0 <= i < j < |s| ==> d.rpoIndex[s[i]] < d.rpoIndex[s[j]])
  }

  /** The table row of `r` once the blocks before position `i` of the order are done,
      and of the one at `i` those predecessors in `preds`. */
  ghost predicate Row(g: Cfg, root: BlockId, d: DominanceInfo, i: nat, preds: seq<BlockId>, r: BlockId,
                      row: seq<BlockId>)
  {
    && InOrder(d, row)
    && (forall c: nat :: c in row <==>
          c < |d.rpoIndex| &&
          ((d.rpoIndex[c] < i && InFrontier(g, root, r, c)) ||
           (d.rpoIndex[c] == i && FoundVia(g, root, preds, r, c))))
  }

  lemma RowGrows(g: Cfg, root: BlockId, d: DominanceInfo, i: nat, preds: seq<BlockId>, k: nat, r: BlockId,
                 b: BlockId, row: seq<BlockId>)
    requires k < |preds| && Row(g, root, d, i, preds[..k], r, row)
    requires b < |d.rpoIndex| && d.rpoIndex[b] == i
    requires forall c: nat :: c < |d.rpoIndex| && d.rpoIndex[c] == i ==> c == b
    ensures Row(g, root, d, i, preds[..k + 1], r, if EndsAt(g, root, r, b, preds[k]) then Append(row, b) else row)
  {
    hide InFrontier, EndsAt, FoundVia, InOrder;
    forall c: nat
      ensures FoundVia(g, root, preds[..k + 1], r, c) <==>
              FoundVia(g, root, preds[..k], r, c) || EndsAt(g, root, r, c, preds[k])
    {
      FoundNext(g, root, preds, k, r, c);
    }
    GrownInOrder(d, i, b, row);
  }

  lemma FoundNext(g: Cfg, root: BlockId, preds: seq<BlockId>, k: nat, r: BlockId, c: BlockId)
    requires k < |preds|
    ensures FoundVia(g, root, preds[..k + 1], r, c) <==>
            FoundVia(g, root, preds[..k], r, c) || EndsAt(g, root, r, c, preds[k])
  {
    assert preds[..k + 1] == preds[..k] + [preds[k]];
  }

  lemma GrownInOrder(d: DominanceInfo, i: nat, b: BlockId, row: seq<BlockId>)
    requires InOrder(d, row) && b < |d.rpoIndex| && d.rpoIndex[b] == i
    requires forall c :: c in row ==> c < |d.rpoIndex| && (c == b || d.rpoIndex[c] < i)
    ensures InOrder(d, Append(row, b))
    ensures forall c :: c in Append(row, b) <==> c in row || c == b
  {
    if row != [] && row[|row| - 1] == b {
      return;
    }
    forall k | 0 <= k < |row|
      ensures d.rpoIndex[row[k]] < i
    {
      assert row[k] in row && row[|row| - 1] in row;
    }
    assert Append(row, b) == row + [b];
  }

  lemma RowDone(g: Cfg, root: BlockId, d: DominanceInfo, i: nat, r: BlockId, b: BlockId, row: seq<BlockId>)
    requires g.Valid() && g.Has(b) && Row(g, root, d, i, g.blocks[b].preds, r, row)
    requires forall c: nat :: c < |d.rpoIndex| && d.rpoIndex[c] == i ==> c == b
    ensures Row(g, root, d, i + 1, [], r, row)
  {
    hide EndsAt, InOrder;
    if InFrontier(g, root, r, b) {
      var p :| EndsAt(g, root, r, b, p);
      assert p in g.blocks[b].preds by {
        EndsOnEdge(g, root, r, b, p);
      }
    }
  }

  lemma EndsOnEdge(g: Cfg, root: BlockId, r: BlockId, b: BlockId, p: BlockId)
    requires g.Valid() && EndsAt(g, root, r, b, p)
    ensures g.Has(b) && p in g.blocks[b].preds
  {
  }

  lemma OnlyAtPosition(g: Cfg, root: BlockId, d: DominanceInfo, i: nat)
    requires DominanceOf(g, root, d) && i < |d.rpo|
    ensures g.Valid() && g.Has(d.rpo[i]) && |d.rpoIndex| == |g.blocks| && d.rpoIndex[d.rpo[i]] == i
    ensures forall c: nat :: c < |d.rpoIndex| && d.rpoIndex[c] == i ==> c == d.rpo[i]
  {
  }

  /** Adds the block at position `i` of the order to the frontiers it is in. */
  method AddBlock(g: Cfg, ghost root: BlockId, d: DominanceInfo, df: array<seq<BlockId>>, i: nat)
    requires DominanceOf(g, root, d) && df.Length == |g.blocks| && i < |d.rpo|
    requires forall r: nat :: r < df.Length ==> Row(g, root, d, i, [], r, df[r])
    modifies df
    ensures forall r: nat :: r < df.Length ==> Row(g, root, d, i + 1, [], r, df[r])
  {
    hide Row, DominanceOf, EndsAt;
    var b := d.rpo[i];
    OnlyAtPosition(g, root, d, i);
    var preds := g.blocks[b].preds;
    for k := 0 to |preds|
      invariant forall r: nat :: r < df.Length ==> Row(g, root, d, i, preds[..k], r, df[r])
    {
      ghost var before := df[..];
      PredEdge(g, root, d, b, preds[k]);
      Climb(g, root, d, df, b, preds[k]);
      forall r: nat | r < df.Length
        ensures Row(g, root, d, i, preds[..k + 1], r, df[r])
      {
        RowGrows(g, root, d, i, preds, k, r, b, before[r]);
      }
    }
    assert preds[..|preds|] == preds;
    forall r: nat | r < df.Length
      ensures Row(g, root, d, i + 1, [], r, df[r])
    {
      RowDone(g, root, d, i, r, b, df[r]);
    }
  }

  /** Each block's dominance frontier, in reverse postorder. */
  method FrontiersOf(g: Cfg, ghost root: BlockId, d: DominanceInfo) returns (table: seq<seq<BlockId>>)
    requires DominanceOf(g, root, d)
    ensures |table| == |g.blocks|
    ensures forall r: nat, b: nat :: r < |table| ==> (b in table[r] <==> InFrontier(g, root, r, b))
    ensures forall r :: 0 <= r < |table| ==> InOrder(d, table[r])
  {
    var df := new seq<BlockId>[|g.blocks|](_ => []);
    hide Row, DominanceOf, EndsAt;
    InfoSizes(g, root, d);
    forall r: nat
      ensures Row(g, root, d, 0, [], r, [])
    {
      RowStarts(g, root, d, r);
    }
    for i := 0 to |d.rpo|
      invariant forall r: nat :: r < df.Length ==> Row(g, root, d, i, [], r, df[r])
    {
      AddBlock(g, root, d, df, i);
    }
    table := df[..];
    forall r: nat, b: nat | r < |table|
      ensures InOrder(d, table[r]) && (b in table[r] <==> InFrontier(g, root, r, b))
    {
      RowComplete(g, root, d, r, b, table[r]);
    }
  }

  lemma RowStarts(g: Cfg, root: BlockId, d: DominanceInfo, r: BlockId)
    ensures Row(g, root, d, 0, [], r, [])
  {
  }

  lemma PredEdge(g: Cfg, root: BlockId, d: DominanceInfo, b: BlockId, p: BlockId)
    requires DominanceOf(g, root, d) && g.Has(b) && p in g.blocks[b].preds
    ensures g.Valid() && g.Edge(p, b)
  {
  }

  lemma RowComplete(g: Cfg, root: BlockId, d: DominanceInfo, r: BlockId, b: BlockId, row: seq<BlockId>)
    requires DominanceOf(g, root, d) && Row(g, root, d, |d.rpo|, [], r, row)
    ensures InOrder(d, row) && (b in row <==> InFrontier(g, root, r, b))
  {
    if InFrontier(g, root, r, b) {
      var p :| EndsAt(g, root, r, b, p);
      ReachesStep(g, root, p, b);
      assert b in d.rpo;
    }
  }

  // -- the iterated frontier -------------------------------------------------

  ghost predicate InTable(df: seq<seq<BlockId>>) {
    forall x, y :: 0 <= x < |df| && y in df[x] ==> y < |df|
  }

  /** `s` holds the frontier of each of `blocks` and of each of its own blocks. */
  ghost predicate ClosedUnder(df: seq<seq<BlockId>>, blocks: seq<BlockId>, s: set<BlockId>) {
    forall x, y :: 0 <= x < |df| && (x in blocks || x in s) && y in df[x] ==> y in s
  }

  /** The blocks marked so far: those queued, those placed, and those still to be
      looked at. Placed blocks belong to every set the result must hold. */
  ghost predicate Marking(df: seq<seq<BlockId>>, blocks: seq<BlockId>, queued: set<BlockId>,
                          placed: set<BlockId>, work: seq<BlockId>) {
    && (forall x :: x in queued ==> x < |df|)
    && (forall x :: x in blocks ==> x in queued)
    && placed <= queued
    && (forall x :: x in queued ==> x in blocks || x in placed)
    && (forall x :: x in work ==> x in queued)
    && (forall s :: ClosedUnder(df, blocks, s) ==> placed <= s)
  }

  ghost predicate LookedAt(df: seq<seq<BlockId>>, queued: set<BlockId>, placed: set<BlockId>, work: seq<BlockId>) {
    forall x, y :: 0 <= x < |df| && x in queued && x !in work && y in df[x] ==> y in placed
  }

  /** A frontier block `y` of a queued block `x` is placed, and queued once. */
  lemma Marks(df: seq<seq<BlockId>>, blocks: seq<BlockId>, queued: set<BlockId>, placed: set<BlockId>,
              work: seq<BlockId>, x: BlockId, y: BlockId)
    requires InTable(df) && Marking(df, blocks, queued, placed, work)
    requires LookedAt(df, queued, placed, [x] + work)
    requires x < |df| && x in queued && y in df[x]
    ensures y < |df|
    ensures var after := if y in queued then work else work + [y];
            Marking(df, blocks, queued + {y}, placed + {y}, after) &&
            LookedAt(df, queued + {y}, placed + {y}, [x] + after)
  {
    var after := if y in queued then work else work + [y];
    forall s | ClosedUnder(df, blocks, s)
      ensures placed + {y} <= s
    {
      assert x in blocks || x in s;
    }
    forall a, b | 0 <= a < |df| && a in queued + {y} && a !in [x] + after && b in df[a]
      ensures b in placed + {y}
    {
      assert a !in [x] + work;
    }
  }

  lemma MarkedRow(df: seq<seq<BlockId>>, queued: set<BlockId>, placed: set<BlockId>, work: seq<BlockId>, x: BlockId)
    requires x < |df| && LookedAt(df, queued, placed, [x] + work)
    requires forall j :: 0 <= j < |df[x]| ==> df[x][j] in placed
    ensures LookedAt(df, queued, placed, work)
  {
    forall a, b | 0 <= a < |df| && a in queued && a !in work && b in df[a]
      ensures b in placed
    {
      if a != x {
        assert a !in [x] + work;
      }
    }
  }

  lemma MarkedTaken(df: seq<seq<BlockId>>, blocks: seq<BlockId>, queued: set<BlockId>, placed: set<BlockId>,
                    work: seq<BlockId>)
    requires Marking(df, blocks, queued, placed, work) && LookedAt(df, queued, placed, work) && work != []
    ensures var x, rest := work[|work| - 1], work[..|work| - 1];
            x < |df| && x in queued && Marking(df, blocks, queued, placed, rest) &&
            LookedAt(df, queued, placed, [x] + rest)
  {
    var x, rest := work[|work| - 1], work[..|work| - 1];
    assert x in work && work == rest + [x];
  }

  lemma MarkedAll(df: seq<seq<BlockId>>, blocks: seq<BlockId>, queued: set<BlockId>, placed: set<BlockId>)
    requires Marking(df, blocks, queued, placed, []) && LookedAt(df, queued, placed, [])
    ensures ClosedUnder(df, blocks, placed) && forall b :: b in placed ==> b < |df|
    ensures forall s :: ClosedUnder(df, blocks, s) ==> placed <= s
  {
  }

  ghost predicate Mirrors(marks: array<bool>, s: set<BlockId>)
    reads marks
  {
    forall b :: 0 <= b < marks.Length ==> (marks[b] <==> b in s)
  }

  /** The least set the table's frontiers of `blocks`, and of its own members, are all in;
      sorted by block. */
  method IteratedFrontier(df: seq<seq<BlockId>>, blocks: seq<BlockId>) returns (out: seq<BlockId>)
    requires InTable(df) && forall b :: b in blocks ==> b < |df|
    ensures forall i, j :: 0 <= i < j < |out| ==> out[i] < out[j]
    ensures forall b :: b in out ==> b < |df|
    ensures ClosedUnder(df, blocks, SetOf(out))
    ensures forall s :: ClosedUnder(df, blocks, s) ==> SetOf(out) <= s
  {
    var placed, p := Place(df, blocks);
    out := Listed(placed);
    assert SetOf(out) == p;
  }

  ghost function SetOf(s: seq<BlockId>): set<BlockId> {
    set b | b in s
  }

  /** Marks the blocks of the iterated frontier by a worklist. */
  method Place(df: seq<seq<BlockId>>, blocks: seq<BlockId>) returns (placed: array<bool>, ghost p: set<BlockId>)
    requires InTable(df) && forall b :: b in blocks ==> b < |df|
    ensures placed.Length == |df| && Mirrors(placed, p)
    ensures ClosedUnder(df, blocks, p) && forall b :: b in p ==> b < |df|
    ensures forall s :: ClosedUnder(df, blocks, s) ==> p <= s
  {
    hide Marking, LookedAt, ClosedUnder;
    var queued := new bool[|df|](_ => false);
    placed := new bool[|df|](_ => false);
    p := {};
    var work, q := Enqueue(df, queued, blocks);
    MarkingStarts(df, blocks, q, work);
    ghost var all := set b: nat | b < |df| && InRow(df, b);
    assert forall y :: 0 <= y < |df| ==> InRow(df, y);
    while work != []
      invariant Mirrors(queued, q) && Mirrors(placed, p)
      invariant Marking(df, blocks, q, p, work) && LookedAt(df, q, p, work)
      decreases all - q, |work|
    {
      MarkedTaken(df, blocks, q, p, work);
      var x := work[|work| - 1];
      work := work[..|work| - 1];
      work, q, p := PlaceRow(df, blocks, queued, placed, work, x, q, p, all);
    }
    MarkedAll(df, blocks, q, p);
  }

  /** Places the frontier of `x`, queueing the blocks not queued before. */
  method PlaceRow(df: seq<seq<BlockId>>, blocks: seq<BlockId>, queued: array<bool>, placed: array<bool>,
                  rest: seq<BlockId>, x: BlockId, ghost q0: set<BlockId>, ghost p0: set<BlockId>,
                  ghost all: set<BlockId>)
    returns (work: seq<BlockId>, ghost q: set<BlockId>, ghost p: set<BlockId>)
    requires InTable(df) && queued.Length == placed.Length == |df| && queued != placed
    requires Mirrors(queued, q0) && Mirrors(placed, p0)
    requires x < |df| && x in q0
    requires Marking(df, blocks, q0, p0, rest) && LookedAt(df, q0, p0, [x] + rest)
    requires forall y :: 0 <= y < |df| ==> y in all
    modifies queued, placed
    ensures Mirrors(queued, q) && Mirrors(placed, p)
    ensures Marking(df, blocks, q, p, work) && LookedAt(df, q, p, work)
    ensures q0 <= q && q - q0 <= all && (q == q0 ==> work == rest)
  {
    hide Marking, LookedAt, ClosedUnder;
    work, q, p := rest, q0, p0;
    for i := 0 to |df[x]|
      invariant Mirrors(queued, q) && Mirrors(placed, p)
      invariant Marking(df, blocks, q, p, work) && LookedAt(df, q, p, [x] + work)
      invariant q0 <= q && q - q0 <= all && (q == q0 ==> work == rest)
      invariant forall j :: 0 <= j < i ==> df[x][j] in p
    {
      var y := df[x][i];
      Marks(df, blocks, q, p, work, x, y);
      placed[y] := true;
      p := p + {y};
      if !queued[y] {
        queued[y] := true;
        work := work + [y];
      }
      q := q + {y};
    }
    MarkedRow(df, q, p, work, x);
  }

  lemma MarkingStarts(df: seq<seq<BlockId>>, blocks: seq<BlockId>, queued: set<BlockId>, work: seq<BlockId>)
    requires forall b :: b in blocks ==> b < |df|
    requires forall b :: b in queued <==> b in blocks
    requires forall b :: b in queued <==> b in work
    ensures Marking(df, blocks, queued, {}, work) && LookedAt(df, queued, {}, work)
  {
  }

  /** Each of `blocks` once, its mark set. */
  method Enqueue(df: seq<seq<BlockId>>, queued: array<bool>, blocks: seq<BlockId>)
    returns (work: seq<BlockId>, ghost q: set<BlockId>)
    requires queued.Length == |df| && forall b :: b in blocks ==> b < |df|
    requires forall b :: 0 <= b < |df| ==> !queued[b]
    modifies queued
    ensures Mirrors(queued, q)
    ensures forall b :: b in q <==> b in blocks
    ensures forall b :: b in q <==> b in work
  {
    work, q := [], {};
    for i := 0 to |blocks|
      invariant Mirrors(queued, q)
      invariant forall b :: b in q <==> b in blocks[..i]
      invariant forall b :: b in q <==> b in work
    {
      var b := blocks[i];
      assert b in blocks;
      if !queued[b] {
        queued[b] := true;
        q := q + {b};
        work := work + [b];
      }
    }
    assert blocks[..|blocks|] == blocks;
  }

  /** The marked blocks in block order. */
  method Listed(marks: array<bool>) returns (out: seq<BlockId>)
    ensures forall i, j :: 0 <= i < j < |out| ==> out[i] < out[j]
    ensures forall b: nat :: b in out <==> b < marks.Length && marks[b]
  {
    out := [];
    for b := 0 to marks.Length
      invariant forall i :: 0 <= i < |out| ==> out[i] < b
      invariant forall i, j :: 0 <= i < j < |out| ==> out[i] < out[j]
      invariant forall c: nat :: c in out <==> c < b && marks[c]
    {
      if marks[b] {
        out := out + [b];
      }
    }
  }

  ghost predicate InRow(df: seq<seq<BlockId>>, b: BlockId) {
    b < |df|
  }
}
