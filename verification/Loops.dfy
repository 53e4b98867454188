/** The natural-loop forest: back edges grouped by header, bodies, nesting, the
    innermost loop of each block, and the retreating edges that are not back edges. */
module Loops {
  import opened Wrappers
  import opened Graphs
  import opened DepthFirst
  import opened Dominators
  import opened Frontiers
  import opened NaturalLoops
  import opened Sorting
  import Sets

  type LoopId = nat

  datatype Loop = Loop(
    header: BlockId,
    latches: seq<BlockId>,
    blocks: seq<BlockId>,
    parent: Option<LoopId>,
    children: seq<LoopId>,
    depth: nat)

  // -- back edges, grouped by header -----------------------------------------

  type Group = (BlockId, seq<BlockId>)

  /** The groups hold the back edges out of blocks before `b`, and of `b` those to its
      first successors: each target once, with the sources. */
  ghost predicate Grouped(g: Cfg, groups: seq<Group>, b: nat, succs: seq<BlockId>) {
    && (forall i, j :: 0 <= i < j < |groups| ==> groups[i].0 != groups[j].0)
    && (forall i, x :: 0 <= i < |groups| && x in groups[i].1 ==> Seen(g, b, succs, x, groups[i].0))
    && (forall i :: 0 <= i < |groups| ==> groups[i].1 != [])
    && (forall x, h :: Seen(g, b, succs, x, h) ==> exists i :: 0 <= i < |groups| && groups[i].0 == h && x in groups[i].1)
  }

  ghost predicate Seen(g: Cfg, b: nat, succs: seq<BlockId>, x: BlockId, h: BlockId) {
    BackEdge(g, x, h) && (x < b || (x == b && h in succs))
  }

  function FindGroup(groups: seq<Group>, h: BlockId): (i: nat)
    ensures i <= |groups|
    ensures i < |groups| ==> groups[i].0 == h
    ensures i == |groups| ==> forall j :: 0 <= j < |groups| ==> groups[j].0 != h
  {
    if groups == [] then 0 else if groups[0].0 == h then 0 else 1 + FindGroup(groups[1..], h)
  }

  function AddLatch(groups: seq<Group>, h: BlockId, b: BlockId): seq<Group> {
    var i := FindGroup(groups, h);
    if i < |groups| then groups[i := (h, groups[i].1 + [b])] else groups + [(h, [b])]
  }

  lemma GroupsLatch(g: Cfg, groups: seq<Group>, b: BlockId, succs: seq<BlockId>, h: BlockId)
    requires Grouped(g, groups, b, succs)
    ensures Grouped(g, if BackEdge(g, b, h) then AddLatch(groups, h, b) else groups, b, succs + [h])
  {
    hide BackEdge;
    if BackEdge(g, b, h) {
      var i := FindGroup(groups, h);
      var next := AddLatch(groups, h, b);
      assert |groups| <= |next|;
      assert forall j :: 0 <= j < |groups| ==> next[j].0 == groups[j].0;
      forall x, k | Seen(g, b, succs + [h], x, k)
        ensures exists j :: 0 <= j < |next| && next[j].0 == k && x in next[j].1
      {
        if Seen(g, b, succs, x, k) {
          var j :| 0 <= j < |groups| && groups[j].0 == k && x in groups[j].1;
          assert next[j].0 == k && x in next[j].1;
        } else {
          assert next[i].0 == k && x in next[i].1;
        }
      }
    } else {
      forall x, k
        ensures Seen(g, b, succs + [h], x, k) <==> Seen(g, b, succs, x, k)
      {
      }
    }
  }

  lemma GroupsBlock(g: Cfg, groups: seq<Group>, b: BlockId)
    requires g.Valid() && g.Has(b)
    requires Grouped(g, groups, b, g.blocks[b].succs) || (Grouped(g, groups, b, []) && !Reaches(g, ENTRY, b))
    ensures Grouped(g, groups, b + 1, [])
  {
    var succs := if Grouped(g, groups, b, g.blocks[b].succs) then g.blocks[b].succs else [];
    forall x, h
      ensures Seen(g, b + 1, [], x, h) <==> Seen(g, b, succs, x, h)
    {
      LatchReached(g, x, h);
    }
    SameGroups(g, groups, b, succs, b + 1, []);
  }

  lemma SameGroups(g: Cfg, groups: seq<Group>, b: nat, succs: seq<BlockId>, c: nat, more: seq<BlockId>)
    requires Grouped(g, groups, b, succs)
    requires forall x, h :: Seen(g, c, more, x, h) <==> Seen(g, b, succs, x, h)
    ensures Grouped(g, groups, c, more)
  {
    hide Seen;
  }

  lemma LatchReached(g: Cfg, b: BlockId, h: BlockId)
    ensures BackEdge(g, b, h) ==> Reaches(g, ENTRY, b) && g.Has(b) && h in g.blocks[b].succs
  {
  }

  /** The back edges, grouped by header in block order. */
  method BackEdges(g: Cfg, doms: DominanceInfo) returns (groups: seq<Group>)
    requires DominanceOf(g, ENTRY, doms)
    ensures Grouped(g, groups, |g.blocks|, [])
    ensures forall i, j :: 0 <= i < j < |groups| ==> groups[i].0 < groups[j].0
  {
    hide Grouped, DominanceOf, BackEdge;
    groups := [];
    NoGroups(g);
    for b := 0 to |g.blocks|
      invariant Grouped(g, groups, b, [])
    {
      BlockFacts(g, doms, b);
      if doms.IsReachable(b) {
        var succs := g.blocks[b].succs;
        for i := 0 to |succs|
          invariant Grouped(g, groups, b, succs[..i])
        {
          var h := succs[i];
          assert succs[..i + 1] == succs[..i] + [h];
          assert h in succs && g.Edge(b, h);
          var yes := IsDominator(g, ENTRY, doms, h, b);
          DecidesBackEdge(g, b, h);
          GroupsLatch(g, groups, b, succs[..i], h);
          if yes {
            groups := AddLatch(groups, h, b);
          }
        }
        assert succs[..|succs|] == succs;
      }
      GroupsBlock(g, groups, b);
    }
    SortsGroups(g, groups);
    groups := SortBy((q: Group) => q.0, groups);
  }

  lemma NoGroups(g: Cfg)
    ensures Grouped(g, [], 0, [])
  {
  }

  lemma BlockFacts(g: Cfg, doms: DominanceInfo, b: BlockId)
    requires DominanceOf(g, ENTRY, doms) && g.Has(b)
    ensures g.Valid() && |doms.rpoIndex| == |g.blocks|
    ensures doms.IsReachable(b) <==> Reaches(g, ENTRY, b)
    ensures forall s :: s in g.blocks[b].succs ==> g.Edge(b, s)
    ensures forall p :: p in g.blocks[b].preds ==> g.Edge(p, b)
    ensures forall p: nat :: g.Edge(p, b) ==> p in g.blocks[b].preds
  {
    ReachableIsNumbered(g, ENTRY, doms, b);
  }

  lemma DecidesBackEdge(g: Cfg, b: BlockId, h: BlockId)
    requires g.Edge(b, h)
    ensures BackEdge(g, b, h) <==> Dominates(g, ENTRY, h, b)
  {
  }

  lemma SortsGroups(g: Cfg, groups: seq<Group>)
    requires Grouped(g, groups, |g.blocks|, [])
    ensures var out := SortBy((q: Group) => q.0, groups);
            Grouped(g, out, |g.blocks|, []) && forall i, j :: 0 <= i < j < |out| ==> out[i].0 < out[j].0
  {
    var key := (q: Group) => q.0;
    var out := SortBy(key, groups);
    SortKeeps(key, groups);
    SortedHeaders(groups, out);
    PermutedGroups(g, groups, out);
  }

  lemma SortedHeaders(groups: seq<Group>, out: seq<Group>)
    requires forall i, j :: 0 <= i < j < |groups| ==> groups[i].0 != groups[j].0
    requires forall q :: q in out ==> q in groups
    requires SortedBy((q: Group) => q.0, out) && (NoDuplicates(groups) ==> NoDuplicates(out))
    ensures forall i, j :: 0 <= i < j < |out| ==> out[i].0 < out[j].0
  {
    var key := (q: Group) => q.0;
    assert NoDuplicates(groups);
    forall i, j | 0 <= i < j < |out|
      ensures out[i].0 < out[j].0
    {
      assert out[i] in out && out[j] in out && out[i] != out[j];
      var a :| 0 <= a < |groups| && groups[a] == out[i];
      var b :| 0 <= b < |groups| && groups[b] == out[j];
      assert key(out[i]) <= key(out[j]);
    }
  }

  lemma PermutedGroups(g: Cfg, groups: seq<Group>, out: seq<Group>)
    requires Grouped(g, groups, |g.blocks|, [])
    requires forall q :: q in out <==> q in groups
    requires forall i, j :: 0 <= i < j < |out| ==> out[i].0 < out[j].0
    ensures Grouped(g, out, |g.blocks|, [])
  {
    hide Seen;
    forall i | 0 <= i < |out|
      ensures out[i].1 != [] && forall x :: x in out[i].1 ==> Seen(g, |g.blocks|, [], x, out[i].0)
    {
      assert out[i] in out;
      var a :| 0 <= a < |groups| && groups[a] == out[i];
    }
    forall x, h | Seen(g, |g.blocks|, [], x, h)
      ensures exists i :: 0 <= i < |out| && out[i].0 == h && x in out[i].1
    {
      var a :| 0 <= a < |groups| && groups[a].0 == h && x in groups[a].1;
      assert groups[a] in out;
      var i :| 0 <= i < |out| && out[i] == groups[a];
    }
  }

  // -- bodies ----------------------------------------------------------------

  /** Blocks marked so far: of the body, and closed under predecessors but at the header
      and at the blocks still on the stack. */
  ghost predicate Growing(g: Cfg, h: BlockId, body: set<BlockId>, stack: seq<BlockId>) {
    && h in body
    && (forall x :: x in body ==> InBody(g, h, x))
    && (forall x :: x in stack ==> x in body && x != h)
    && (forall l :: BackEdge(g, l, h) ==> l in body)
    && (forall x, p :: x in body && x != h && x !in stack && g.Edge(p, x) && Reaches(g, ENTRY, p) ==> p in body)
  }

  lemma LatchInBody(g: Cfg, h: BlockId, l: BlockId)
    requires BackEdge(g, l, h)
    ensures InBody(g, h, l)
  {
    if l != h {
      assert ReturnsBy(g, h, l, [l]);
    }
  }

  lemma PredInBody(g: Cfg, h: BlockId, x: BlockId, p: BlockId)
    requires InBody(g, h, x) && x != h && g.Edge(p, x) && Reaches(g, ENTRY, p)
    ensures InBody(g, h, p)
  {
    if p != h {
      var q :| ReturnsBy(g, h, x, q);
      assert Connects(g, p, x, [p, x]);
      PathJoin(g, p, x, q[|q| - 1], [p, x], q);
      assert ReturnsBy(g, h, p, [p, x] + q[1..]);
    }
  }

  lemma {:induction false} GrownAlong(g: Cfg, h: BlockId, body: set<BlockId>, p: seq<BlockId>)
    requires Growing(g, h, body, []) && IsPath(g, p) && h !in p && BackEdge(g, p[|p| - 1], h)
    requires Reaches(g, ENTRY, p[0])
    ensures p[0] in body
    decreases |p|
  {
    if |p| > 1 {
      assert g.Edge(p[0], p[0 + 1]);
      PathSlice(g, p, 1, |p|);
      ReachesStep(g, ENTRY, p[0], p[1]);
      GrownAlong(g, h, body, p[1..]);
    }
  }

  lemma GrownIsBody(g: Cfg, h: BlockId, body: set<BlockId>)
    requires Growing(g, h, body, [])
    ensures forall x :: x in body <==> InBody(g, h, x)
  {
    forall x | InBody(g, h, x)
      ensures x in body
    {
      if x != h {
        var p :| ReturnsBy(g, h, x, p);
        GrownAlong(g, h, body, p);
      }
    }
  }

  lemma GrowsBy(g: Cfg, h: BlockId, body: set<BlockId>, stack: seq<BlockId>, x: BlockId, p: BlockId)
    requires Growing(g, h, body, [x] + stack) && g.Edge(p, x) && Reaches(g, ENTRY, p) && p !in body
    ensures Growing(g, h, body + {p}, [x] + (stack + [p]))
  {
    assert x in [x] + stack;
    PredInBody(g, h, x, p);
    hide InBody, BackEdge;
    forall y | y in [x] + (stack + [p])
      ensures y in body + {p} && y != h
    {
      assert y == p || y in [x] + stack;
    }
    forall y, q | y in body + {p} && y != h && y !in [x] + (stack + [p]) && g.Edge(q, y) && Reaches(g, ENTRY, q)
      ensures q in body + {p}
    {
      assert y in body && y !in [x] + stack;
    }
  }

  lemma GrownAt(g: Cfg, h: BlockId, body: set<BlockId>, stack: seq<BlockId>, x: BlockId)
    requires Growing(g, h, body, [x] + stack)
    requires forall p: nat :: g.Edge(p, x) && Reaches(g, ENTRY, p) ==> p in body
    ensures Growing(g, h, body, stack)
  {
    hide InBody, BackEdge;
    forall y, q | y in body && y != h && y !in stack && g.Edge(q, y) && Reaches(g, ENTRY, q)
      ensures q in body
    {
      if y != x {
        assert y !in [x] + stack;
      }
    }
    forall y | y in stack
      ensures y in body && y != h
    {
      assert y in [x] + stack;
    }
  }

  lemma ReachedHas(g: Cfg, h: BlockId, x: BlockId)
    requires Dominates(g, ENTRY, h, x)
    ensures g.Has(x)
  {
    var p :| Connects(g, ENTRY, x, p);
    assert g.Has(p[|p| - 1]);
  }

  lemma GrowingTakes(g: Cfg, h: BlockId, body: set<BlockId>, stack: seq<BlockId>)
    requires Growing(g, h, body, stack) && stack != []
    ensures var x, rest := stack[|stack| - 1], stack[..|stack| - 1];
            g.Has(x) && Growing(g, h, body, [x] + rest)
  {
    hide InBody, BackEdge, Dominates, Reaches;
    var x, rest := stack[|stack| - 1], stack[..|stack| - 1];
    assert stack == rest + [x];
    assert x in stack;
    HeaderDominatesBody(g, h, x);
    ReachedHas(g, h, x);
    forall y
      ensures y in stack <==> y in [x] + rest
    {
    }
  }

  ghost predicate InRange(n: nat, b: BlockId) {
    b < n
  }

  /** The body of `header`: its latches and what reaches them without passing it. */
  method Body(g: Cfg, doms: DominanceInfo, header: BlockId, latches: seq<BlockId>) returns (blocks: seq<BlockId>)
    requires DominanceOf(g, ENTRY, doms) && g.Has(header) && latches != []
    requires forall l: nat :: l in latches <==> BackEdge(g, l, header)
    ensures forall x: nat :: x in blocks <==> InBody(g, header, x)
    ensures forall i, j :: 0 <= i < j < |blocks| ==> blocks[i] < blocks[j]
  {
    hide DominanceOf, Growing, InBody;
    var n := |g.blocks|;
    var inLoop := new bool[n](_ => false);
    inLoop[header] := true;
    var stack: seq<BlockId> := [];
    ghost var body := {header};
    ghost var all := set b: nat | b < n && InRange(n, b);
    assert forall b: nat :: b < n ==> InRange(n, b);
    stack, body := MarkLatches(g, inLoop, header, latches);
    while stack != []
      invariant Mirrors(inLoop, body) && Growing(g, header, body, stack)
      decreases all - body, |stack|
    {
      GrowingTakes(g, header, body, stack);
      var x := stack[|stack| - 1];
      stack := stack[..|stack| - 1];
      stack, body := MarkPreds(g, doms, inLoop, header, x, stack, body, all);
    }
    GrownIsBody(g, header, body);
    BodyInGraph(g, header);
    blocks := Listed(inLoop);
  }

  lemma BodyInGraph(g: Cfg, h: BlockId)
    ensures forall x: nat :: InBody(g, h, x) ==> g.Has(x)
  {
    forall x: nat | InBody(g, h, x)
      ensures g.Has(x)
    {
      HeaderDominatesBody(g, h, x);
      var p :| Connects(g, ENTRY, x, p);
      assert g.Has(p[|p| - 1]);
    }
  }

  method MarkLatches(g: Cfg, inLoop: array<bool>, header: BlockId, latches: seq<BlockId>)
    returns (stack: seq<BlockId>, ghost body: set<BlockId>)
    requires inLoop.Length == |g.blocks| && g.Has(header) && latches != []
    requires Mirrors(inLoop, {header})
    requires forall l: nat :: l in latches <==> BackEdge(g, l, header)
    modifies inLoop
    ensures Mirrors(inLoop, body) && Growing(g, header, body, stack)
  {
    hide InBody, BackEdge;
    stack, body := [], {header};
    for i := 0 to |latches|
      invariant Mirrors(inLoop, body)
      invariant forall x :: x in body <==> x == header || x in latches[..i]
      invariant forall x :: x in stack <==> x in body && x != header
    {
      var l := latches[i];
      assert l in latches;
      LatchHere(g, l, header);
      if !inLoop[l] {
        inLoop[l] := true;
        body := body + {l};
        stack := stack + [l];
      }
    }
    assert latches[..|latches|] == latches;
    assert latches[0] in latches;
    StartsGrowing(g, header, latches, body, stack);
  }

  lemma LatchHere(g: Cfg, l: BlockId, h: BlockId)
    requires BackEdge(g, l, h)
    ensures g.Has(l)
  {
  }

  lemma StartsGrowing(g: Cfg, h: BlockId, latches: seq<BlockId>, body: set<BlockId>, stack: seq<BlockId>)
    requires latches != [] && forall l: nat :: l in latches <==> BackEdge(g, l, h)
    requires forall x :: x in body <==> x == h || x in latches
    requires forall x :: x in stack <==> x in body && x != h
    ensures Growing(g, h, body, stack)
  {
    assert latches[0] in latches;
    forall x | x in body
      ensures InBody(g, h, x)
    {
      if x != h {
        LatchInBody(g, h, x);
      }
    }
  }

  method MarkPreds(g: Cfg, doms: DominanceInfo, inLoop: array<bool>, header: BlockId, x: BlockId,
                   rest: seq<BlockId>, ghost body0: set<BlockId>, ghost all: set<BlockId>)
    returns (stack: seq<BlockId>, ghost body: set<BlockId>)
    requires DominanceOf(g, ENTRY, doms) && inLoop.Length == |g.blocks| && g.Has(x)
    requires Mirrors(inLoop, body0) && Growing(g, header, body0, [x] + rest)
    requires forall b: nat :: b < |g.blocks| ==> b in all
    modifies inLoop
    ensures Mirrors(inLoop, body) && Growing(g, header, body, stack)
    ensures body0 <= body && body - body0 <= all && (body == body0 ==> stack == rest)
  {
    hide DominanceOf, Growing, InBody;
    BlockFacts(g, doms, x);
    stack, body := rest, body0;
    var preds := g.blocks[x].preds;
    for i := 0 to |preds|
      invariant Mirrors(inLoop, body) && Growing(g, header, body, [x] + stack)
      invariant body0 <= body && body - body0 <= all && (body == body0 ==> stack == rest)
      invariant forall j :: 0 <= j < i && Reaches(g, ENTRY, preds[j]) ==> preds[j] in body
    {
      var p := preds[i];
      assert p in preds;
      BlockFacts(g, doms, p);
      if doms.IsReachable(p) && !inLoop[p] {
        GrowsBy(g, header, body, stack, x, p);
        inLoop[p] := true;
        body := body + {p};
        stack := stack + [p];
      }
    }
    forall p: nat | g.Edge(p, x) && Reaches(g, ENTRY, p)
      ensures p in body
    {
      var j :| 0 <= j < |preds| && preds[j] == p;
    }
    GrownAt(g, header, body, stack, x);
  }

  // -- nesting ---------------------------------------------------------------

  /** One loop per header, in header order, each with its latches and its body in block order. */
  ghost predicate Found(g: Cfg, loops: seq<Loop>) {
    && (forall i, j :: 0 <= i < j < |loops| ==> loops[i].header < loops[j].header)
    && (forall h: nat :: IsHeader(g, h) <==> exists i :: 0 <= i < |loops| && loops[i].header == h)
    && (forall i, l: nat :: 0 <= i < |loops| ==> (l in loops[i].latches <==> BackEdge(g, l, loops[i].header)))
    && (forall i, x: nat :: 0 <= i < |loops| ==> (x in loops[i].blocks <==> InBody(g, loops[i].header, x)))
    && (forall i :: 0 <= i < |loops| ==> Strictly(loops[i].blocks))
  }

  ghost predicate Strictly(s: seq<BlockId>) {
    forall i, j :: 0 <= i < j < |s| ==> s[i] < s[j]
  }

  /** Loop `j` holds loop `i`'s header, and is another. */
  ghost predicate Contains(loops: seq<Loop>, j: nat, i: nat) {
    i < |loops| && j < |loops| && i != j && loops[i].header in loops[j].blocks
  }

  lemma ContainedIsInside(g: Cfg, loops: seq<Loop>, j: nat, i: nat)
    requires Found(g, loops) && Contains(loops, j, i)
    ensures forall x: nat :: x in loops[i].blocks ==> x in loops[j].blocks
    ensures loops[j].header in loops[j].blocks && loops[j].header !in loops[i].blocks
    ensures |loops[i].blocks| < |loops[j].blocks|
    ensures !Contains(loops, i, j)
  {
    var h, k := loops[j].header, loops[i].header;
    assert h != k by {
      if i < j {
        assert loops[i].header < loops[j].header;
      } else {
        assert loops[j].header < loops[i].header;
      }
    }
    assert IsHeader(g, k) && IsHeader(g, h);
    HoldingHeaderHoldsBody(g, h, k);
    assert InBody(g, h, h);
    hide InBody, IsHeader;
    AscendingSubset(loops[i].blocks, loops[j].blocks, h);
  }

  lemma AscendingSubset(s: seq<BlockId>, t: seq<BlockId>, x: BlockId)
    requires Strictly(s) && Strictly(t) && x in t && x !in s
    requires forall y: nat :: y in s ==> y in t
    ensures |s| < |t|
  {
    AscendingCount(s);
    AscendingCount(t);
    var a, b := SetOf(s), SetOf(t);
    assert a <= b - {x};
    Sets.SubsetSize(a, b - {x});
  }

  lemma {:induction false} AscendingCount(s: seq<BlockId>)
    requires Strictly(s)
    ensures |SetOf(s)| == |s|
  {
    if s != [] {
      var front, last := s[..|s| - 1], s[|s| - 1];
      AscendingCount(front);
      assert s == front + [last];
      assert SetOf(s) == SetOf(front) + {last};
      assert last !in front;
    }
  }

  lemma ContainsTransitive(g: Cfg, loops: seq<Loop>, k: nat, j: nat, i: nat)
    requires Found(g, loops) && Contains(loops, k, j) && Contains(loops, j, i)
    ensures Contains(loops, k, i)
  {
    ContainedIsInside(g, loops, k, j);
    ContainedIsInside(g, loops, j, i);
  }

  /** Two loops with a block in common: one contains the other. */
  lemma SharingIsNested(g: Cfg, loops: seq<Loop>, i: nat, j: nat, x: BlockId)
    requires Found(g, loops) && i < |loops| && j < |loops| && i != j
    requires x in loops[i].blocks && x in loops[j].blocks
    ensures Contains(loops, i, j) || Contains(loops, j, i)
  {
    var h, k := loops[i].header, loops[j].header;
    assert h != k by {
      if i < j {
        assert loops[i].header < loops[j].header;
      } else {
        assert loops[j].header < loops[i].header;
      }
    }
    NestedOrDisjoint(g, h, k, x);
    assert IsHeader(g, h) && IsHeader(g, k);
    assert InBody(g, h, h) && InBody(g, k, k);
    hide InBody, IsHeader;
  }

  /** The loops in ascending size. */
  ghost predicate BySize(loops: seq<Loop>, order: seq<nat>) {
    && (forall i: nat :: i in order <==> i < |loops|)
    && NoDuplicates(order)
    && (forall a, b :: 0 <= a < b < |order| && order[a] < |loops| && order[b] < |loops| ==>
          |loops[order[a]].blocks| <= |loops[order[b]].blocks|)
  }

  function Sizes(loops: seq<Loop>): nat -> int {
    (i: nat) => if i < |loops| then |loops[i].blocks| else 0
  }

  method OrderBySize(loops: seq<Loop>) returns (order: seq<nat>)
    ensures BySize(loops, order)
  {
    var all: seq<nat> := seq(|loops|, (i: nat) => i);
    order := SortBy<nat>(Sizes(loops), all);
    SortKeeps<nat>(Sizes(loops), all);
    SortedIsBySize(loops, all, order);
  }

  lemma SortedIsBySize(loops: seq<Loop>, all: seq<nat>, order: seq<nat>)
    requires |all| == |loops| && forall i :: 0 <= i < |all| ==> all[i] == i
    requires forall i: nat :: i in order <==> i in all
    requires SortedBy<nat>(Sizes(loops), order) && NoDuplicates(order)
    ensures BySize(loops, order)
  {
    forall i: nat
      ensures i in order <==> i < |loops|
    {
      if i < |loops| {
        assert all[i] == i;
      }
    }
    forall a, b | 0 <= a < b < |order| && order[a] < |loops| && order[b] < |loops|
      ensures |loops[order[a]].blocks| <= |loops[order[b]].blocks|
    {
      assert Sizes(loops)(order[a]) <= Sizes(loops)(order[b]);
    }
  }

  /** The loop directly around `i`: contained in every other that contains `i`. */
  ghost predicate ParentIs(loops: seq<Loop>, i: nat, parent: Option<LoopId>) {
    match parent
    case None => forall j :: !Contains(loops, j, i)
    case Some(p) => Contains(loops, p, i) && forall j :: Contains(loops, j, i) ==> j == p || Contains(loops, j, p)
  }

  lemma FirstIsParent(g: Cfg, loops: seq<Loop>, order: seq<nat>, pos: nat, at: nat)
    requires Found(g, loops) && BySize(loops, order) && pos < at < |order|
    requires Contains(loops, order[at], order[pos])
    requires forall a :: pos < a < at ==> !Contains(loops, order[a], order[pos])
    ensures ParentIs(loops, order[pos], Some(order[at]))
  {
    hide Found, Contains;
    var i, p := order[pos], order[at];
    forall j | Contains(loops, j, i)
      ensures j == p || Contains(loops, j, p)
    {
      AfterInOrder(g, loops, order, pos, j);
      var a :| pos < a < |order| && order[a] == j;
      assert j == p || at < a;
      if j != p {
        ContainsIndices(loops, j, i);
        ContainsIndices(loops, p, i);
        BothHold(g, loops, j, p, i);
        if Contains(loops, p, j) {
          ContainedIsInside(g, loops, p, j);
        }
      }
    }
  }

  lemma ContainsIndices(loops: seq<Loop>, j: nat, i: nat)
    requires Contains(loops, j, i)
    ensures i < |loops| && j < |loops|
  {
  }

  lemma BothHold(g: Cfg, loops: seq<Loop>, j: nat, p: nat, i: nat)
    requires Found(g, loops) && Contains(loops, j, i) && Contains(loops, p, i) && j != p
    ensures Contains(loops, p, j) || Contains(loops, j, p)
  {
    SharingIsNested(g, loops, j, p, loops[i].header);
  }

  lemma AfterInOrder(g: Cfg, loops: seq<Loop>, order: seq<nat>, pos: nat, j: nat)
    requires Found(g, loops) && BySize(loops, order) && pos < |order| && Contains(loops, j, order[pos])
    ensures exists a :: pos < a < |order| && order[a] == j
  {
    hide Found;
    ContainedIsInside(g, loops, j, order[pos]);
    assert j in order;
    var a :| 0 <= a < |order| && order[a] == j;
  }

  lemma NoneIsTop(g: Cfg, loops: seq<Loop>, order: seq<nat>, pos: nat)
    requires Found(g, loops) && BySize(loops, order) && pos < |order|
    requires forall a :: pos < a < |order| ==> !Contains(loops, order[a], order[pos])
    ensures ParentIs(loops, order[pos], None)
  {
    hide Found, Contains;
    forall j
      ensures !Contains(loops, j, order[pos])
    {
      if Contains(loops, j, order[pos]) {
        AfterInOrder(g, loops, order, pos, j);
      }
    }
  }

  /** The parent of each loop: the smallest larger one holding its header. */
  method Parents(g: Cfg, loops: seq<Loop>, order: seq<nat>) returns (parents: seq<Option<LoopId>>)
    requires Found(g, loops) && BySize(loops, order)
    ensures |parents| == |loops| && forall i: nat :: i < |loops| ==> ParentIs(loops, i, parents[i])
  {
    hide Found, ParentIs;
    parents := seq(|loops|, i => None);
    for pos := 0 to |order|
      invariant |parents| == |loops|
      invariant forall a :: 0 <= a < pos ==> order[a] < |loops| && ParentIs(loops, order[a], parents[order[a]])
    {
      assert order[pos] in order;
      var i := order[pos];
      var header := loops[i].header;
      var parent: Option<LoopId> := None;
      var at := pos + 1;
      while at < |order| && parent.None?
        invariant pos < at <= |order|
        invariant parent.None? ==> forall a :: pos < a < at ==> !Contains(loops, order[a], i)
        invariant parent.Some? ==> ParentIs(loops, i, parent)
      {
        assert order[at] in order;
        if header in loops[order[at]].blocks {
          FirstIsParent(g, loops, order, pos, at);
          parent := Some(order[at]);
        }
        at := at + 1;
      }
      if parent.None? {
        NoneIsTop(g, loops, order, pos);
      }
      parents := parents[i := parent];
    }
    forall i: nat | i < |loops|
      ensures ParentIs(loops, i, parents[i])
    {
      assert i in order;
      var a :| 0 <= a < |order| && order[a] == i;
    }
  }

  ghost function Containers(loops: seq<Loop>, i: nat): set<nat> {
    set j: nat | j < |loops| && Contains(loops, j, i)
  }

  lemma ContainersOfParent(g: Cfg, loops: seq<Loop>, i: nat, parent: Option<LoopId>)
    requires Found(g, loops) && i < |loops| && ParentIs(loops, i, parent)
    ensures parent.None? ==> Containers(loops, i) == {}
    ensures parent.Some? ==> parent.value < |loops| &&
                             Containers(loops, i) == Containers(loops, parent.value) + {parent.value} &&
                             parent.value !in Containers(loops, parent.value)
  {
    hide Found;
    if parent.Some? {
      var p := parent.value;
      forall j: nat
        ensures j in Containers(loops, i) <==> j in Containers(loops, p) + {p}
      {
        if Contains(loops, j, p) {
          ContainsTransitive(g, loops, j, p, i);
        }
      }
    }
  }

  /** One more than the loops around it. */
  method DepthOf(g: Cfg, loops: seq<Loop>, parents: seq<Option<LoopId>>, i: nat) returns (depth: nat)
    requires Found(g, loops) && |parents| == |loops| && i < |loops|
    requires forall j: nat :: j < |loops| ==> ParentIs(loops, j, parents[j])
    ensures depth == |Containers(loops, i)| + 1
  {
    hide Found, ParentIs, Containers;
    depth := 1;
    ContainersOfParent(g, loops, i, parents[i]);
    var cur: Option<LoopId> := parents[i];
    while cur.Some?
      invariant cur.Some? ==> cur.value < |loops|
      invariant depth + (if cur.Some? then |Containers(loops, cur.value)| + 1 else 0) == |Containers(loops, i)| + 1
      decreases if cur.Some? then |Containers(loops, cur.value)| + 1 else 0
    {
      depth := depth + 1;
      ContainersOfParent(g, loops, cur.value, parents[cur.value]);
      cur := parents[cur.value];
    }
  }

  /** The loops whose parent is `p`, in order. */
  method ChildrenOf(parents: seq<Option<LoopId>>, p: LoopId) returns (children: seq<LoopId>)
    ensures forall i: nat :: i in children <==> i < |parents| && parents[i] == Some(p)
    ensures Strictly(children)
  {
    children := [];
    for i := 0 to |parents|
      invariant forall j: nat :: j in children <==> j < i && parents[j] == Some(p)
      invariant forall a :: 0 <= a < |children| ==> children[a] < i
      invariant Strictly(children)
    {
      if parents[i] == Some(p) {
        children := children + [i];
      }
    }
  }

  // -- the innermost loop of each block --------------------------------------

  ghost predicate InnermostIs(loops: seq<Loop>, b: BlockId, inner: Option<LoopId>) {
    match inner
    case None => forall j :: 0 <= j < |loops| ==> b !in loops[j].blocks
    case Some(i) =>
      i < |loops| && b in loops[i].blocks &&
      forall j: nat :: j < |loops| && b in loops[j].blocks ==> j == i || Contains(loops, j, i)
  }

  lemma FirstIsInnermost(g: Cfg, loops: seq<Loop>, order: seq<nat>, pos: nat, b: BlockId)
    requires Found(g, loops) && BySize(loops, order) && pos < |order| && order[pos] < |loops|
    requires b in loops[order[pos]].blocks
    requires forall a :: 0 <= a < pos && order[a] < |loops| ==> b !in loops[order[a]].blocks
    ensures InnermostIs(loops, b, Some(order[pos]))
  {
    hide Found;
    var i := order[pos];
    forall j: nat | j < |loops| && b in loops[j].blocks
      ensures j == i || Contains(loops, j, i)
    {
      assert j in order;
      var a :| 0 <= a < |order| && order[a] == j;
      if j != i {
        SharingIsNested(g, loops, i, j, b);
        if Contains(loops, i, j) {
          ContainedIsInside(g, loops, i, j);
        }
      }
    }
  }

  /** What the blocks of the loops before position `pos` of the order have, the others nothing. */
  ghost predicate FilledUpTo(loops: seq<Loop>, order: seq<nat>, pos: nat, b: BlockId, inner: Option<LoopId>)
    requires pos <= |order|
  {
    if inner.Some? then InnermostIs(loops, b, inner)
    else forall a :: 0 <= a < pos && order[a] < |loops| ==> b !in loops[order[a]].blocks
  }

  /** The innermost loop of each block: the first that holds it in ascending size. */
  method Innermost(g: Cfg, loops: seq<Loop>, order: seq<nat>) returns (blockLoop: seq<Option<LoopId>>)
    requires Found(g, loops) && BySize(loops, order)
    ensures |blockLoop| == |g.blocks| && forall b: nat :: b < |g.blocks| ==> InnermostIs(loops, b, blockLoop[b])
  {
    hide Found, InnermostIs;
    var table := new Option<LoopId>[|g.blocks|](_ => None);
    for pos := 0 to |order|
      invariant forall b: nat :: b < table.Length ==> FilledUpTo(loops, order, pos, b, table[b])
    {
      assert order[pos] in order;
      var i := order[pos];
      LoopInGraph(g, loops, i);
      var blocks := loops[i].blocks;
      for k := 0 to |blocks|
        invariant forall b: nat :: b < table.Length ==> FilledUpTo(loops, order, pos, b, table[b])
        invariant forall j :: 0 <= j < k ==> blocks[j] < table.Length && table[blocks[j]].Some?
      {
        var b := blocks[k];
        assert b in blocks;
        if table[b].None? {
          FirstIsInnermost(g, loops, order, pos, b);
          table[b] := Some(i);
        }
      }
    }
    blockLoop := table[..];
    forall b: nat | b < |g.blocks|
      ensures InnermostIs(loops, b, blockLoop[b])
    {
      if blockLoop[b].None? {
        InNoLoop(loops, order, b);
      }
    }
  }

  lemma LoopInGraph(g: Cfg, loops: seq<Loop>, i: nat)
    requires Found(g, loops) && i < |loops|
    ensures forall b: nat :: b in loops[i].blocks ==> g.Has(b)
  {
    BodyInGraph(g, loops[i].header);
  }

  lemma InNoLoop(loops: seq<Loop>, order: seq<nat>, b: BlockId)
    requires BySize(loops, order) && FilledUpTo(loops, order, |order|, b, None)
    ensures InnermostIs(loops, b, None)
  {
    forall j: nat | j < |loops|
      ensures b !in loops[j].blocks
    {
      assert j in order;
      var a :| 0 <= a < |order| && order[a] == j;
    }
  }
}
