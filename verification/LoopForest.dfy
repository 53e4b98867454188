/** The loop forest of a graph, and its irreducible edges: the retreating edges of one
    depth-first search that are not back edges. */
module LoopForest {
  import opened Wrappers
  import opened Graphs
  import opened DepthFirst
  import opened Dominators
  import opened NaturalLoops
  import opened Loops

  datatype Forest = Forest(
    loops: seq<Loop>,
    blockLoop: seq<Option<LoopId>>,
    irreducibleEdges: seq<(BlockId, BlockId)>,
    doms: DominanceInfo)

  // -- irreducible regions ---------------------------------------------------

  ghost predicate Recorded(g: Cfg, irreducible: seq<(BlockId, BlockId)>, b: BlockId, s: BlockId) {
    BackEdge(g, b, s) || (b, s) in irreducible
  }

  /** Every edge looked at leads to a block finished before its source is, or up the
      stack to the next block of it, or was recorded. */
  ghost predicate Classified(g: Cfg, stack: seq<Frame>, post: seq<BlockId>, irreducible: seq<(BlockId, BlockId)>) {
    && (forall i, s :: 0 <= i < |post| && g.Edge(post[i], s) ==> s in post[..i] || Recorded(g, irreducible, post[i], s))
    && (forall k, j :: 0 <= k < |stack| && g.Has(stack[k].0) && 0 <= j < stack[k].1 <= |g.blocks[stack[k].0].succs| ==>
          var s := g.blocks[stack[k].0].succs[j];
          s in post || Recorded(g, irreducible, stack[k].0, s) || (k + 1 < |stack| && stack[k + 1].0 == s))
  }

  lemma ClassifiedSkips(g: Cfg, root: BlockId, seen: set<BlockId>, stack: seq<Frame>, post: seq<BlockId>,
                        irreducible: seq<(BlockId, BlockId)>, more: seq<(BlockId, BlockId)>)
    requires Search(g, root, seen, stack, post) && stack != [] && Classified(g, stack, post, irreducible)
    requires var (b, next) := stack[|stack| - 1];
             g.Has(b) && next < |g.blocks[b].succs| &&
             (g.blocks[b].succs[next] in post || Recorded(g, more, b, g.blocks[b].succs[next]))
    ensures var (b, next) := stack[|stack| - 1];
            Classified(g, stack[..|stack| - 1] + [(b, next + 1)], post, irreducible + more)
  {
    hide Search, BackEdge;
    var (b, next) := stack[|stack| - 1];
    var after := stack[..|stack| - 1] + [(b, next + 1)];
    assert forall k :: 0 <= k < |stack| ==> after[k].0 == stack[k].0;
    forall k, j | 0 <= k < |after| && g.Has(after[k].0) && 0 <= j < after[k].1 <= |g.blocks[after[k].0].succs|
      ensures var s := g.blocks[after[k].0].succs[j];
              s in post || Recorded(g, irreducible + more, after[k].0, s) || (k + 1 < |after| && after[k + 1].0 == s)
    {
      if k < |stack| - 1 || j < next {
        var s := g.blocks[stack[k].0].succs[j];
        assert s in post || Recorded(g, irreducible, stack[k].0, s) || (k + 1 < |stack| && stack[k + 1].0 == s);
      }
    }
  }

  lemma ClassifiedPushes(g: Cfg, stack: seq<Frame>, post: seq<BlockId>, irreducible: seq<(BlockId, BlockId)>)
    requires stack != [] && Classified(g, stack, post, irreducible)
    requires var (b, next) := stack[|stack| - 1]; g.Has(b) && next < |g.blocks[b].succs|
    ensures var (b, next) := stack[|stack| - 1];
            Classified(g, stack[..|stack| - 1] + [(b, next + 1), (g.blocks[b].succs[next], 0)], post, irreducible)
  {
    hide Recorded;
    var (b, next) := stack[|stack| - 1];
    var after := stack[..|stack| - 1] + [(b, next + 1), (g.blocks[b].succs[next], 0)];
    assert forall k :: 0 <= k < |stack| ==> after[k].0 == stack[k].0;
    forall k, j | 0 <= k < |after| && g.Has(after[k].0) && 0 <= j < after[k].1 <= |g.blocks[after[k].0].succs|
      ensures var s := g.blocks[after[k].0].succs[j];
              s in post || Recorded(g, irreducible, after[k].0, s) || (k + 1 < |after| && after[k + 1].0 == s)
    {
      if k < |stack| - 1 || (k == |stack| - 1 && j < next) {
        var s := g.blocks[stack[k].0].succs[j];
        assert s in post || Recorded(g, irreducible, stack[k].0, s) || (k + 1 < |stack| && stack[k + 1].0 == s);
      }
    }
  }

  lemma ClassifiedPops(g: Cfg, stack: seq<Frame>, post: seq<BlockId>, irreducible: seq<(BlockId, BlockId)>)
    requires stack != [] && Classified(g, stack, post, irreducible)
    requires var (b, next) := stack[|stack| - 1]; g.Has(b) && next == |g.blocks[b].succs|
    ensures Classified(g, stack[..|stack| - 1], post + [stack[|stack| - 1].0], irreducible)
  {
    hide Recorded;
    var top := |stack| - 1;
    var b := stack[top].0;
    var rest, done := stack[..top], post + [b];
    assert done[..|post|] == post;
    forall i, s | 0 <= i < |done| && g.Edge(done[i], s)
      ensures s in done[..i] || Recorded(g, irreducible, done[i], s)
    {
      if i < |post| {
        assert done[..i] == post[..i] && done[i] == post[i];
      } else {
        var j :| 0 <= j < |g.blocks[b].succs| && g.blocks[b].succs[j] == s;
        assert s in post || Recorded(g, irreducible, stack[top].0, g.blocks[b].succs[j]);
      }
    }
    forall k, j | 0 <= k < |rest| && g.Has(rest[k].0) && 0 <= j < rest[k].1 <= |g.blocks[rest[k].0].succs|
      ensures var s := g.blocks[rest[k].0].succs[j];
              s in done || Recorded(g, irreducible, rest[k].0, s) || (k + 1 < |rest| && rest[k + 1].0 == s)
    {
      var s := g.blocks[stack[k].0].succs[j];
      assert s in post || Recorded(g, irreducible, stack[k].0, s) || (k + 1 < |stack| && stack[k + 1].0 == s);
    }
  }

  ghost function Blocks(stack: seq<Frame>): seq<BlockId> {
    seq(|stack|, i requires 0 <= i < |stack| => stack[i].0)
  }

  /** The stack is a path from the root with no back edge: each block of it is reached
      without the next one. */
  lemma StackIsForward(g: Cfg, seen: set<BlockId>, stack: seq<Frame>, post: seq<BlockId>)
    requires Search(g, ENTRY, seen, stack, post) && stack != []
    ensures ForwardPath(g, Blocks(stack)) && Blocks(stack)[0] == ENTRY
  {
    var p := Blocks(stack);
    forall i | 0 <= i < |p|
      ensures g.Has(p[i])
    {
      assert Explored(g, seen, stack[i].0, stack[i].1);
    }
    assert IsPath(g, p);
    forall i | 0 <= i < |p| - 1
      ensures !BackEdge(g, p[i], p[i + 1])
    {
      PathSlice(g, p, 0, i + 1);
      assert forall k :: 0 <= k < |p[0..i + 1]| ==> p[0..i + 1][k] == stack[k].0;
    }
  }

  /** An edge recorded as retreating is on a cycle made of forward edges alone. */
  lemma RetreatMakesCycle(g: Cfg, seen: set<BlockId>, stack: seq<Frame>, post: seq<BlockId>, s: BlockId)
    requires Search(g, ENTRY, seen, stack, post) && stack != [] && OnStack(stack, s)
    requires g.Edge(stack[|stack| - 1].0, s) && !Dominates(g, ENTRY, s, stack[|stack| - 1].0)
    ensures HasForwardCycle(g)
  {
    StackIsForward(g, seen, stack, post);
    var p := Blocks(stack);
    var k :| 0 <= k < |stack| && stack[k].0 == s;
    SliceToCycle(g, p, k, s);
  }

  lemma SliceToCycle(g: Cfg, p: seq<BlockId>, k: nat, s: BlockId)
    requires ForwardPath(g, p) && p[0] == ENTRY && k < |p| && p[k] == s
    requires g.Edge(p[|p| - 1], s) && !Dominates(g, ENTRY, s, p[|p| - 1])
    ensures HasForwardCycle(g)
  {
    hide Dominates;
    OnPathReaches(g, ENTRY, p[|p| - 1], p, k);
    PathSlice(g, p, k, |p|);
    var c := p[k..] + [s];
    PathExtend(g, s, p[|p| - 1], s, p[k..]);
    forall i | 0 <= i < |c| - 1
      ensures !BackEdge(g, c[i], c[i + 1])
    {
      if i < |c| - 2 {
        assert c[i] == p[k + i] && c[i + 1] == p[k + i + 1];
      }
    }
    assert ForwardCycle(g, c);
  }

  /** Where every retreating edge is a back edge, the finishing order descends along the others. */
  lemma NoneIrreducible(g: Cfg, seen: set<BlockId>, post: seq<BlockId>)
    requires Search(g, ENTRY, seen, [], post) && Classified(g, [], post, [])
    ensures !HasForwardCycle(g)
  {
    hide Search, Classified;
    var rank := RankOf(g, seen, post, []);
    forall p
      ensures !ForwardCycle(g, p)
    {
      NoDescentInCycle(g, rank, p);
    }
  }

  /** The finishing order descends along every edge that was not recorded. */
  lemma RankOf(g: Cfg, seen: set<BlockId>, post: seq<BlockId>, irreducible: seq<(BlockId, BlockId)>)
    returns (rank: map<BlockId, nat>)
    requires Search(g, ENTRY, seen, [], post) && Classified(g, [], post, irreducible)
    ensures Descends(g, rank, irreducible)
  {
    SearchEnds(g, ENTRY, seen, post);
    rank := map b | b in post :: PositionOf(post, b);
    RankDescends(g, post, irreducible, rank);
  }

  lemma NoDescentInCycle(g: Cfg, rank: map<BlockId, nat>, p: seq<BlockId>)
    requires Descends(g, rank, [])
    ensures !ForwardCycle(g, p)
  {
    if ForwardCycle(g, p) {
      DescendsAlong(g, rank, p);
    }
  }

  ghost function PositionOf(s: seq<BlockId>, b: BlockId): (i: nat)
    requires b in s
    ensures i < |s| && s[i] == b
  {
    if s[0] == b then 0 else 1 + PositionOf(s[1..], b)
  }

  lemma RankDescends(g: Cfg, post: seq<BlockId>, irreducible: seq<(BlockId, BlockId)>, rank: map<BlockId, nat>)
    requires SearchOrder(g, ENTRY, Reverse(post)) && Classified(g, [], post, irreducible)
    requires Distinct(post)
    requires rank == map b | b in post :: PositionOf(post, b)
    ensures Descends(g, rank, irreducible)
  {
    forall b
      ensures b in post <==> Reaches(g, ENTRY, b)
    {
      var order := Reverse(post);
      if b in post {
        var i :| 0 <= i < |post| && post[i] == b;
        assert order[|post| - 1 - i] == b;
      }
      if b in order {
        var i :| 0 <= i < |order| && order[i] == b;
      }
    }
    forall b, s | b in rank && g.Edge(b, s) && !BackEdge(g, b, s) && (b, s) !in irreducible
      ensures s in rank && rank[s] < rank[b]
    {
      var i := PositionOf(post, b);
      assert g.Edge(post[i], s);
      assert s in post[..i];
      var j :| 0 <= j < i && post[j] == s;
      assert PositionOf(post, s) == j;
    }
  }

  const UNVISITED: int := 0
  const ON_STACK: int := 1
  const DONE: int := 2

  ghost predicate StatesOf(state: seq<int>, stack: seq<Frame>, post: seq<BlockId>) {
    forall b: nat :: b < |state| ==>
      state[b] in {UNVISITED, ON_STACK, DONE} &&
      (state[b] == ON_STACK <==> OnStack(stack, b)) && (state[b] == DONE <==> b in post)
  }

  /** The search so far, with the edges it recorded. */
  ghost predicate Searched(g: Cfg, seen: set<BlockId>, stack: seq<Frame>, post: seq<BlockId>,
                           irreducible: seq<(BlockId, BlockId)>, state: seq<int>) {
    && |state| == |g.blocks|
    && Search(g, ENTRY, seen, stack, post) && Classified(g, stack, post, irreducible)
    && StatesOf(state, stack, post) && Retreating(g, irreducible)
  }

  /** The retreating edges of the search from the entry that are not back edges: none
      exactly where the graph without its back edges has no cycle. */
  method IrreducibleEdges(g: Cfg, doms: DominanceInfo) returns (irreducible: seq<(BlockId, BlockId)>)
    requires DominanceOf(g, ENTRY, doms)
    ensures irreducible == [] <==> !HasForwardCycle(g)
    ensures AcyclicBut(g, irreducible)
    ensures forall b, s :: (b, s) in irreducible ==> g.Edge(b, s) && !Dominates(g, ENTRY, s, b)
  {
    InfoValid(g, doms);
    hide Search, Classified, DominanceOf, Retreating, StatesOf;
    irreducible := [];
    var state := new int[|g.blocks|](_ => UNVISITED);
    var stack: seq<Frame> := [(ENTRY, 0)];
    state[ENTRY] := ON_STACK;
    ghost var seen, post: seq<BlockId> := {ENTRY}, [];
    ghost var blocks := set b: nat | b < |g.blocks| && g.Has(b);
    SearchStarts(g, ENTRY);
    StartStates(state[..]);
    while stack != []
      invariant Searched(g, seen, stack, post, irreducible, state[..])
      decreases blocks - seen, |stack|, Unexplored(g, stack)
    {
      SearchTop(g, ENTRY, seen, stack, post);
      var (b, next) := stack[|stack| - 1];
      if next < |g.blocks[b].succs| {
        stack, irreducible, seen := LookAt(g, doms, state, stack, irreducible, seen, post);
      } else {
        SearchPops(g, ENTRY, seen, stack, post);
        ClassifiedPops(g, stack, post, irreducible);
        PopStates(g, seen, state[..], stack, post);
        state[b] := DONE;
        post := post + [b];
        stack := stack[..|stack| - 1];
      }
    }
    IrreducibleEnds(g, seen, post, irreducible);
  }

  /** The next edge out of the top block: its target is new, or retreated to, or done. */
  method LookAt(g: Cfg, doms: DominanceInfo, state: array<int>, stack: seq<Frame>,
                irreducible: seq<(BlockId, BlockId)>, ghost seen: set<BlockId>, ghost post: seq<BlockId>)
    returns (stack': seq<Frame>, irreducible': seq<(BlockId, BlockId)>, ghost seen': set<BlockId>)
    requires DominanceOf(g, ENTRY, doms) && stack != []
    requires Searched(g, seen, stack, post, irreducible, state[..])
    requires var (b, next) := stack[|stack| - 1]; g.Has(b) && next < |g.blocks[b].succs|
    modifies state
    ensures Searched(g, seen', stack', post, irreducible', state[..])
    ensures (exists s: nat :: g.Has(s) && s !in seen && seen' == seen + {s}) ||
            (seen' == seen && |stack'| == |stack| && Unexplored(g, stack') < Unexplored(g, stack))
  {
    hide *;
    InfoIsOf(g, doms);
    var (b, next) := stack[|stack| - 1];
    TargetHere(g, b, next);
    var s := g.blocks[b].succs[next];
    LookStates(g, seen, stack, post, irreducible, state[..], s);
    if state[s] == UNVISITED {
      ghost var was := state[..];
      LookNew(g, seen, stack, post, irreducible, was);
      state[s] := ON_STACK;
      assert state[..] == was[s := ON_STACK];
      seen' := seen + {s};
      stack' := stack[..|stack| - 1] + [(b, next + 1), (s, 0)];
      irreducible' := irreducible;
    } else {
      var more := Retreat(g, doms, b, s, state[s] == ON_STACK);
      LookAgain(g, seen, stack, post, irreducible, state[..], more);
      LookedOnce(g, stack);
      seen' := seen;
      stack' := stack[..|stack| - 1] + [(b, next + 1)];
      irreducible' := irreducible + more;
    }
  }

  lemma TargetHere(g: Cfg, b: BlockId, next: nat)
    requires g.Valid() && g.Has(b) && next < |g.blocks[b].succs|
    ensures b < |g.blocks| && g.blocks[b].succs[next] < |g.blocks|
    ensures g.Has(g.blocks[b].succs[next]) && g.Edge(b, g.blocks[b].succs[next])
  {
    EdgeHere(g, b, next);
  }

  lemma LookedOnce(g: Cfg, stack: seq<Frame>)
    requires stack != [] && g.Has(stack[|stack| - 1].0)
    ensures var (b, next) := stack[|stack| - 1];
            Unexplored(g, stack[..|stack| - 1] + [(b, next + 1)]) < Unexplored(g, stack)
  {
  }

  lemma LookStates(g: Cfg, seen: set<BlockId>, stack: seq<Frame>, post: seq<BlockId>,
                   irreducible: seq<(BlockId, BlockId)>, state: seq<int>, s: BlockId)
    requires Searched(g, seen, stack, post, irreducible, state) && g.Has(s)
    ensures |state| == |g.blocks|
    ensures state[s] == ON_STACK <==> OnStack(stack, s)
    ensures state[s] == UNVISITED <==> s !in seen
    ensures state[s] == DONE <==> s in post
    ensures state[s] == UNVISITED || state[s] == ON_STACK || state[s] == DONE
  {
    SeenStates(g, seen, stack, post, state, s);
  }

  lemma LookNew(g: Cfg, seen: set<BlockId>, stack: seq<Frame>, post: seq<BlockId>,
                irreducible: seq<(BlockId, BlockId)>, state: seq<int>)
    requires g.Valid() && Searched(g, seen, stack, post, irreducible, state) && stack != []
    requires var (b, next) := stack[|stack| - 1];
             g.Has(b) && next < |g.blocks[b].succs| && g.Has(g.blocks[b].succs[next]) && g.blocks[b].succs[next] !in seen
    ensures var (b, next) := stack[|stack| - 1];
            var s := g.blocks[b].succs[next];
            s < |state| &&
            Searched(g, seen + {s}, stack[..|stack| - 1] + [(b, next + 1), (s, 0)], post, irreducible,
                     state[s := ON_STACK])
  {
    var (b, next) := stack[|stack| - 1];
    var s := g.blocks[b].succs[next];
    SeenStates(g, seen, stack, post, state, s);
    hide Search, Classified, OnStack, Retreating, StatesOf;
    SearchPushes(g, ENTRY, seen, stack, post);
    ClassifiedPushes(g, stack, post, irreducible);
    PushStates(state, stack, post, (b, next + 1), s);
  }

  lemma LookAgain(g: Cfg, seen: set<BlockId>, stack: seq<Frame>, post: seq<BlockId>,
                  irreducible: seq<(BlockId, BlockId)>, state: seq<int>, more: seq<(BlockId, BlockId)>)
    requires g.Valid() && Searched(g, seen, stack, post, irreducible, state) && stack != []
    requires var (b, next) := stack[|stack| - 1];
             g.Has(b) && next < |g.blocks[b].succs| && g.blocks[b].succs[next] in seen &&
             var s := g.blocks[b].succs[next];
             more == (if OnStack(stack, s) && !Dominates(g, ENTRY, s, b) then [(b, s)] else []) &&
             (s in post || Recorded(g, more, b, s))
    ensures var (b, next) := stack[|stack| - 1];
            Searched(g, seen, stack[..|stack| - 1] + [(b, next + 1)], post, irreducible + more, state)
  {
    hide Search, Classified, OnStack, Retreating, StatesOf, Dominates, Recorded;
    var (b, next) := stack[|stack| - 1];
    EdgeHere(g, b, next);
    RetreatingMore(g, seen, stack, post, irreducible, g.blocks[b].succs[next], more);
    SearchSkips(g, ENTRY, seen, stack, post);
    ClassifiedSkips(g, ENTRY, seen, stack, post, irreducible, more);
    SkipStates(state, stack, post, (b, next + 1));
  }

  lemma IrreducibleEnds(g: Cfg, seen: set<BlockId>, post: seq<BlockId>, irreducible: seq<(BlockId, BlockId)>)
    requires Search(g, ENTRY, seen, [], post) && Classified(g, [], post, irreducible) && Retreating(g, irreducible)
    ensures irreducible == [] <==> !HasForwardCycle(g)
    ensures AcyclicBut(g, irreducible)
    ensures forall b, s :: (b, s) in irreducible ==> g.Edge(b, s) && !Dominates(g, ENTRY, s, b)
  {
    hide Search, Classified, Dominates;
    var rank := RankOf(g, seen, post, irreducible);
    if irreducible == [] {
      NoneIrreducible(g, seen, post);
    }
  }

  /** The edges recorded are retreating ones and not back edges. */
  ghost predicate Retreating(g: Cfg, irreducible: seq<(BlockId, BlockId)>) {
    && (irreducible != [] ==> HasForwardCycle(g))
    && (forall b, s :: (b, s) in irreducible ==> g.Edge(b, s) && !Dominates(g, ENTRY, s, b))
  }

  lemma RetreatingMore(g: Cfg, seen: set<BlockId>, stack: seq<Frame>, post: seq<BlockId>,
                       irreducible: seq<(BlockId, BlockId)>, s: BlockId, more: seq<(BlockId, BlockId)>)
    requires Search(g, ENTRY, seen, stack, post) && stack != [] && Retreating(g, irreducible)
    requires g.Edge(stack[|stack| - 1].0, s)
    requires more == if OnStack(stack, s) && !Dominates(g, ENTRY, s, stack[|stack| - 1].0)
                     then [(stack[|stack| - 1].0, s)] else []
    ensures Retreating(g, irreducible + more)
  {
    if more != [] {
      RetreatMakesCycle(g, seen, stack, post, s);
    }
    hide Search, Dominates, HasForwardCycle;
  }

  /** The edge from the top block to `s`, where that is on the stack and does not dominate it. */
  method Retreat(g: Cfg, doms: DominanceInfo, b: BlockId, s: BlockId, onStack: bool)
    returns (more: seq<(BlockId, BlockId)>)
    requires DominanceOf(g, ENTRY, doms) && g.Edge(b, s)
    ensures more == if onStack && !Dominates(g, ENTRY, s, b) then [(b, s)] else []
    ensures onStack ==> Recorded(g, more, b, s)
  {
    more := [];
    if onStack {
      var back := IsDominator(g, ENTRY, doms, s, b);
      if !back {
        more := [(b, s)];
      }
    }
  }

  lemma InfoIsOf(g: Cfg, doms: DominanceInfo)
    requires DominanceOf(g, ENTRY, doms)
    ensures g.Valid()
  {
  }

  lemma InfoValid(g: Cfg, doms: DominanceInfo)
    requires DominanceOf(g, ENTRY, doms)
    ensures g.Valid() && Classified(g, [(ENTRY, 0)], [], []) && Retreating(g, [])
  {
  }

  lemma StartStates(state: seq<int>)
    requires ENTRY < |state| && state[ENTRY] == ON_STACK
    requires forall b: nat :: b < |state| && b != ENTRY ==> state[b] == UNVISITED
    ensures StatesOf(state, [(ENTRY, 0)], [])
  {
    assert [(ENTRY, 0)][0].0 == ENTRY;
  }

  lemma EdgeHere(g: Cfg, b: BlockId, next: nat)
    requires g.Valid() && g.Has(b) && next < |g.blocks[b].succs|
    ensures g.Edge(b, g.blocks[b].succs[next])
  {
    assert g.blocks[b].succs[next] in g.blocks[b].succs;
  }

  lemma SeenStates(g: Cfg, seen: set<BlockId>, stack: seq<Frame>, post: seq<BlockId>, state: seq<int>, s: BlockId)
    requires Search(g, ENTRY, seen, stack, post) && StatesOf(state, stack, post) && s < |state|
    ensures state[s] == ON_STACK <==> OnStack(stack, s)
    ensures state[s] == UNVISITED <==> s !in seen
    ensures state[s] == DONE <==> s in post
    ensures s in seen <==> OnStack(stack, s) || s in post
  {
  }

  lemma PushStates(state: seq<int>, stack: seq<Frame>, post: seq<BlockId>, top: Frame, s: BlockId)
    requires StatesOf(state, stack, post) && s < |state| && s !in post
    requires stack != [] && top.0 == stack[|stack| - 1].0
    ensures StatesOf(state[s := ON_STACK], stack[..|stack| - 1] + [top, (s, 0)], post)
  {
    PushedStack(Cfg([]), stack, stack[..|stack| - 1] + [top, (s, 0)], []);
  }

  lemma SkipStates(state: seq<int>, stack: seq<Frame>, post: seq<BlockId>, top: Frame)
    requires StatesOf(state, stack, post) && stack != [] && top.0 == stack[|stack| - 1].0
    ensures StatesOf(state, stack[..|stack| - 1] + [top], post)
  {
    SameBlocks(Cfg([]), stack, stack[..|stack| - 1] + [top], []);
  }

  lemma PopStates(g: Cfg, seen: set<BlockId>, state: seq<int>, stack: seq<Frame>, post: seq<BlockId>)
    requires Search(g, ENTRY, seen, stack, post) && stack != []
    requires StatesOf(state, stack, post) && stack[|stack| - 1].0 < |state|
    ensures StatesOf(state[stack[|stack| - 1].0 := DONE], stack[..|stack| - 1], post + [stack[|stack| - 1].0])
  {
    var rest := stack[..|stack| - 1];
    forall b: nat
      ensures OnStack(rest, b) <==> OnStack(stack, b) && b != stack[|stack| - 1].0
    {
      if OnStack(rest, b) {
        var k :| 0 <= k < |rest| && rest[k].0 == b;
        assert stack[k].0 == b;
      }
      if OnStack(stack, b) && b != stack[|stack| - 1].0 {
        var k :| 0 <= k < |stack| && stack[k].0 == b;
        assert rest[k].0 == b;
      }
    }
  }

  // -- the forest ------------------------------------------------------------

  /** Each loop with its directly enclosing one, the loops directly in it, and its depth. */
  ghost predicate Nested(loops: seq<Loop>) {
    && (forall i: nat :: i < |loops| ==> ParentIs(loops, i, loops[i].parent))
    && (forall i: nat, c: nat :: i < |loops| ==>
          (c in loops[i].children <==> c < |loops| && loops[c].parent == Some(i)))
    && (forall i: nat :: i < |loops| ==> loops[i].depth == |Containers(loops, i)| + 1)
  }

  ghost predicate ForestOf(g: Cfg, f: Forest) {
    && DominanceOf(g, ENTRY, f.doms) && Found(g, f.loops) && Nested(f.loops)
    && |f.blockLoop| == |g.blocks|
    && (forall b: nat :: b < |g.blocks| ==> InnermostIs(f.loops, b, f.blockLoop[b]))
    && (f.irreducibleEdges == [] <==> !HasForwardCycle(g)) && AcyclicBut(g, f.irreducibleEdges)
  }

  ghost predicate SameLoops(a: seq<Loop>, b: seq<Loop>) {
    |a| == |b| && forall i :: 0 <= i < |a| ==>
      a[i].header == b[i].header && a[i].latches == b[i].latches && a[i].blocks == b[i].blocks
  }

  /** What a forest says of containment does not read parents, children or depths. */
  lemma SameContainment(g: Cfg, a: seq<Loop>, b: seq<Loop>)
    requires SameLoops(a, b)
    ensures Found(g, a) ==> Found(g, b)
    ensures forall j, i :: Contains(a, j, i) <==> Contains(b, j, i)
    ensures forall i, p :: ParentIs(a, i, p) ==> ParentIs(b, i, p)
    ensures forall i: nat :: Containers(a, i) == Containers(b, i)
    ensures forall x, i :: InnermostIs(a, x, i) ==> InnermostIs(b, x, i)
  {
    hide InBody, IsHeader, BackEdge, Strictly;
    forall j, i
      ensures Contains(a, j, i) <==> Contains(b, j, i)
    {
    }
    hide Contains;
    if Found(g, a) {
      SameFound(g, a, b);
    }
  }

  lemma SameFound(g: Cfg, a: seq<Loop>, b: seq<Loop>)
    requires SameLoops(a, b) && Found(g, a)
    ensures Found(g, b)
  {
    hide InBody, IsHeader, BackEdge, Strictly;
    forall h: nat
      ensures IsHeader(g, h) <==> exists i :: 0 <= i < |b| && b[i].header == h
    {
      if IsHeader(g, h) {
        var i :| 0 <= i < |a| && a[i].header == h;
        assert b[i].header == h;
      }
      if i :| 0 <= i < |b| && b[i].header == h {
        assert a[i].header == h;
      }
    }
  }

  /** The loops with their bodies, from the groups of back edges. */
  method LoopsOf(g: Cfg, doms: DominanceInfo) returns (loops: seq<Loop>)
    requires DominanceOf(g, ENTRY, doms)
    ensures Found(g, loops)
  {
    hide DominanceOf, InBody, Grouped;
    var groups := BackEdges(g, doms);
    loops := [];
    for i := 0 to |groups|
      invariant |loops| == i
      invariant forall j :: 0 <= j < i ==> LoopIs(g, groups[j], loops[j])
    {
      var (header, latches) := groups[i];
      GroupIs(g, groups, i);
      var blocks := Body(g, doms, header, latches);
      loops := loops + [Loop(header, latches, blocks, None, [], 0)];
    }
    GroupsAreLoops(g, groups, loops);
  }

  ghost predicate LoopIs(g: Cfg, group: Group, l: Loop) {
    && l.header == group.0 && l.latches == group.1
    && (forall x: nat :: x in l.blocks <==> InBody(g, l.header, x))
    && Strictly(l.blocks)
  }

  lemma GroupIs(g: Cfg, groups: seq<Group>, i: nat)
    requires Grouped(g, groups, |g.blocks|, []) && i < |groups|
    ensures g.Has(groups[i].0) && groups[i].1 != []
    ensures forall l: nat :: l in groups[i].1 <==> BackEdge(g, l, groups[i].0)
  {
    forall l: nat
      ensures l in groups[i].1 <==> BackEdge(g, l, groups[i].0)
    {
      if BackEdge(g, l, groups[i].0) {
        assert Seen(g, |g.blocks|, [], l, groups[i].0);
        var j :| 0 <= j < |groups| && groups[j].0 == groups[i].0 && l in groups[j].1;
      }
    }
    assert groups[i].1[0] in groups[i].1;
    HeaderReached(g, groups[i].0);
  }

  lemma GroupsAreLoops(g: Cfg, groups: seq<Group>, loops: seq<Loop>)
    requires Grouped(g, groups, |g.blocks|, [])
    requires forall i, j :: 0 <= i < j < |groups| ==> groups[i].0 < groups[j].0
    requires |loops| == |groups| && forall j :: 0 <= j < |groups| ==> LoopIs(g, groups[j], loops[j])
    ensures Found(g, loops)
  {
    hide InBody, Strictly;
    forall i: nat | i < |loops|
      ensures LoopIs(g, groups[i], loops[i])
      ensures forall l: nat :: l in loops[i].latches <==> BackEdge(g, l, loops[i].header)
    {
      GroupIs(g, groups, i);
    }
    forall h: nat
      ensures IsHeader(g, h) <==> exists i :: 0 <= i < |loops| && loops[i].header == h
    {
      if IsHeader(g, h) {
        var b: nat :| BackEdge(g, b, h);
        assert Seen(g, |g.blocks|, [], b, h);
        var i :| 0 <= i < |groups| && groups[i].0 == h && b in groups[i].1;
        assert loops[i].header == h;
      }
      if i :| 0 <= i < |loops| && loops[i].header == h {
        assert LoopIs(g, groups[i], loops[i]);
        assert loops[i].latches[0] in loops[i].latches by {
          GroupIs(g, groups, i);
        }
        assert BackEdge(g, loops[i].latches[0], h);
      }
    }
  }

  method LoopForestOf(g: Cfg) returns (f: Forest)
    requires g.Valid()
    ensures ForestOf(g, f)
  {
    hide DominanceOf, Found, HasForwardCycle, ParentIs, InnermostIs, Contains;
    var doms := DominatorsFrom(g, ENTRY);
    var loops := LoopsOf(g, doms);
    var order := OrderBySize(loops);
    var parents := Parents(g, loops, order);
    var nested := loops;
    for i := 0 to |loops|
      invariant SameLoops(loops, nested)
      invariant forall j: nat :: j < i ==>
                  nested[j].parent == parents[j] && nested[j].depth == |Containers(loops, j)| + 1 &&
                  forall c: nat :: c in nested[j].children <==> c < |parents| && parents[c] == Some(j)
    {
      var children := ChildrenOf(parents, i);
      var depth := DepthOf(g, loops, parents, i);
      nested := nested[i := nested[i].(parent := parents[i], children := children, depth := depth)];
    }
    var blockLoop := Innermost(g, loops, order);
    var irreducible := IrreducibleEdges(g, doms);
    SameContainment(g, loops, nested);
    f := Forest(nested, blockLoop, irreducible, doms);
  }
}
