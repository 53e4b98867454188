/** Dominance from a root block: the reverse postorder, the Cooper-Harvey-Kennedy
    iteration, dominance queries, dominance frontiers and their iteration. */
module Dominators {
  import opened Wrappers
  import opened Graphs
  import opened DepthFirst
  import opened DominatorTree

  datatype DominanceInfo = DominanceInfo(
    idom: seq<Option<BlockId>>,
    rpo: seq<BlockId>,
    rpoIndex: seq<nat>)
  {
    predicate IsReachable(b: BlockId)
      requires b < |rpoIndex|
    {
      rpoIndex[b] != UNREACHABLE
    }
  }

  /** `v` is a strict dominator of `b` that every strict dominator of `b` dominates. */
  ghost predicate ImmediatelyDominates(g: Cfg, root: BlockId, v: BlockId, b: BlockId) {
    && StrictlyDominates(g, root, v, b)
    && forall d: nat :: StrictlyDominates(g, root, d, b) ==> Dominates(g, root, d, v)
  }

  /** The tables are the true ones: the reverse postorder numbers the reachable blocks,
      and every one of them but the root has its immediate dominator. */
  ghost predicate DominanceOf(g: Cfg, root: BlockId, d: DominanceInfo) {
    && g.Has(root) && Numbered(g, root, d.rpo, d.rpoIndex) && |d.idom| == |g.blocks|
    && (forall b: nat :: b < |d.idom| ==> (d.idom[b].Some? <==> b != root && Reaches(g, root, b)))
    && (forall b: nat :: b < |d.idom| && d.idom[b].Some? ==>
          ImmediatelyDominates(g, root, d.idom[b].value, b) &&
          d.idom[b].value < |d.idom| &&
          d.rpoIndex[d.idom[b].value] < d.rpoIndex[b])
  }

  lemma ReachableIsNumbered(g: Cfg, root: BlockId, d: DominanceInfo, b: BlockId)
    requires DominanceOf(g, root, d) && g.Has(b)
    ensures d.IsReachable(b) <==> Reaches(g, root, b)
  {
    if b in d.rpo {
      var k :| 0 <= k < |d.rpo| && d.rpo[k] == b;
    }
  }

  /** Depth-first postorder from `root`, the stack holding each block with the
      index of its next successor. */
  method Postorder(g: Cfg, root: BlockId) returns (post: seq<BlockId>)
    requires g.Valid() && g.Has(root)
    ensures SearchOrder(g, root, Reverse(post))
  {
    hide Search;
    var n := |g.blocks|;
    post := [];
    var visited := new bool[n](_ => false);
    var stack: seq<Frame> := [(root, 0)];
    visited[root] := true;
    ghost var seen := {root};
    ghost var blocks := set b: nat | b < n && g.Has(b);
    SearchStarts(g, root);
    while stack != []
      invariant Search(g, root, seen, stack, post)
      invariant seen <= blocks
      invariant forall b: nat :: b < n ==> (visited[b] <==> b in seen)
      decreases blocks - seen, |stack|, Unexplored(g, stack)
    {
      var (b, next) := stack[|stack| - 1];
      SearchTop(g, root, seen, stack, post);
      var succs := g.blocks[b].succs;
      if next < |succs| {
        var s := succs[next];
        assert s in succs;
        if !visited[s] {
          SearchPushes(g, root, seen, stack, post);
          assert s in blocks - seen;
          visited[s] := true;
          seen := seen + {s};
          stack := stack[..|stack| - 1] + [(b, next + 1), (s, 0)];
        } else {
          SearchSkips(g, root, seen, stack, post);
          stack := stack[..|stack| - 1] + [(b, next + 1)];
        }
      } else {
        SearchPops(g, root, seen, stack, post);
        post := post + [b];
        stack := stack[..|stack| - 1];
      }
    }
    SearchEnds(g, root, seen, post);
  }

  /** The successors the top block still has to look at. */
  ghost function Unexplored(g: Cfg, stack: seq<Frame>): int {
    if stack == [] || !g.Has(stack[|stack| - 1].0) then 0
    else |g.blocks[stack[|stack| - 1].0].succs| - stack[|stack| - 1].1
  }

  ghost function TreeOf(idom: seq<Option<BlockId>>, idx: seq<nat>, root: BlockId): Tree
    requires root < |idom|
  {
    Tree(idom[root := None], idx, root)
  }

  /** The lowest block above both `a` and `b`: whichever is later in the order climbs. */
  method Intersect(idom: array<Option<BlockId>>, rpoIndex: array<nat>, a: BlockId, b: BlockId,
                   ghost g: Cfg, ghost rpo: seq<BlockId>, ghost root: BlockId) returns (x: BlockId)
    requires root < idom.Length && idom[root] == Some(root)
    requires Grounded(g, rpo, TreeOf(idom[..], rpoIndex[..], root))
    requires Processed(TreeOf(idom[..], rpoIndex[..], root), a)
    requires Processed(TreeOf(idom[..], rpoIndex[..], root), b)
    ensures Processed(TreeOf(idom[..], rpoIndex[..], root), x)
    ensures forall v: nat :: Above(TreeOf(idom[..], rpoIndex[..], root), v, x) <==>
                             Above(TreeOf(idom[..], rpoIndex[..], root), v, a) &&
                             Above(TreeOf(idom[..], rpoIndex[..], root), v, b)
  {
    hide Above, Numbered;
    ghost var t := TreeOf(idom[..], rpoIndex[..], root);
    x := a;
    var y := b;
    while x != y
      invariant Processed(t, x) && Processed(t, y)
      invariant forall v: nat :: Above(t, v, x) && Above(t, v, y) <==> Above(t, v, a) && Above(t, v, b)
      decreases t.idx[x] + t.idx[y]
    {
      ghost var x0, y0 := x, y;
      while rpoIndex[x] > rpoIndex[y]
        invariant Processed(t, x) && Processed(t, y)
        invariant forall v: nat :: Above(t, v, x) && Above(t, v, y) <==> Above(t, v, a) && Above(t, v, b)
        invariant t.idx[x] <= t.idx[x0] && (x != x0 ==> t.idx[x] < t.idx[x0])
        decreases t.idx[x]
      {
        RootIsFirst(g, rpo, t, x);
        ClimbsPast(t, x, y);
        x := idom[x].value;
      }
      while rpoIndex[y] > rpoIndex[x]
        invariant Processed(t, x) && Processed(t, y)
        invariant forall v: nat :: Above(t, v, x) && Above(t, v, y) <==> Above(t, v, a) && Above(t, v, b)
        invariant t.idx[y] <= t.idx[y0] && (y != y0 ==> t.idx[y] < t.idx[y0])
        decreases t.idx[y]
      {
        RootIsFirst(g, rpo, t, y);
        ClimbsPast(t, y, x);
        y := idom[y].value;
      }
      if x == x0 && y == y0 {
        SameIndexSameBlock(g, rpo, t, x, y);
      }
    }
  }

  /** The later of two blocks is not above the other: leaving it loses nothing above both. */
  lemma ClimbsPast(t: Tree, x: BlockId, y: BlockId)
    requires Rooted(t) && Processed(t, x) && Processed(t, y) && x != t.root && t.idx[x] > t.idx[y]
    ensures forall v: nat :: Above(t, v, x) && Above(t, v, y) <==> Above(t, v, t.idom[x].value) && Above(t, v, y)
  {
    NotBelowItself(t, x, y);
  }

  lemma RootIsFirst(g: Cfg, rpo: seq<BlockId>, t: Tree, x: BlockId)
    requires Grounded(g, rpo, t) && Processed(t, x)
    ensures x == t.root <==> t.idx[x] == 0
  {
    var k :| 0 <= k < |rpo| && rpo[k] == x;
  }

  lemma SameIndexSameBlock(g: Cfg, rpo: seq<BlockId>, t: Tree, x: BlockId, y: BlockId)
    requires Grounded(g, rpo, t) && Processed(t, x) && Processed(t, y) && t.idx[x] == t.idx[y]
    ensures x == y
  {
    var j :| 0 <= j < |rpo| && rpo[j] == x;
    var k :| 0 <= k < |rpo| && rpo[k] == y;
  }

  /** `cur` is the meet of those of the first `k` predecessors that are processed. */
  ghost predicate MeetUpTo(t: Tree, preds: seq<BlockId>, k: nat, cur: Option<BlockId>)
    requires Rooted(t) && k <= |preds|
  {
    match cur
    case None => forall j :: 0 <= j < k ==> !Processed(t, preds[j])
    case Some(z) =>
      Processed(t, z) &&
      forall v: nat :: Above(t, v, z) <==> AboveAll(t, preds[..k], v)
  }

  ghost predicate AboveAll(t: Tree, preds: seq<BlockId>, v: BlockId)
    requires Rooted(t)
  {
    forall p :: p in preds && Processed(t, p) ==> Above(t, v, p)
  }

  lemma MeetNext(t: Tree, preds: seq<BlockId>, k: nat, cur: Option<BlockId>, next: Option<BlockId>)
    requires Rooted(t) && k < |preds| && MeetUpTo(t, preds, k, cur)
    requires if !Processed(t, preds[k]) then next == cur
             else next.Some? && Processed(t, next.value) &&
                  forall v: nat :: Above(t, v, next.value) <==>
                                   (cur.Some? ==> Above(t, v, cur.value)) && Above(t, v, preds[k])
    ensures MeetUpTo(t, preds, k + 1, next)
  {
    assert preds[..k + 1] == preds[..k] + [preds[k]];
    forall v: nat
      ensures AboveAll(t, preds[..k + 1], v) <==>
              AboveAll(t, preds[..k], v) && (Processed(t, preds[k]) ==> Above(t, v, preds[k]))
    {
    }
    if cur.None? {
      forall v: nat
        ensures AboveAll(t, preds[..k], v)
      {
      }
    }
  }

  /** The meet of `b`'s processed predecessors, in their order. */
  method MeetPreds(g: Cfg, idom: array<Option<BlockId>>, rpoIndex: array<nat>, b: BlockId,
                   ghost rpo: seq<BlockId>, ghost root: BlockId) returns (newIdom: Option<BlockId>)
    requires root < idom.Length && idom[root] == Some(root) && g.Has(b)
    requires Grounded(g, rpo, TreeOf(idom[..], rpoIndex[..], root))
    ensures MeetUpTo(TreeOf(idom[..], rpoIndex[..], root), g.blocks[b].preds, |g.blocks[b].preds|, newIdom)
  {
    ghost var t := TreeOf(idom[..], rpoIndex[..], root);
    var preds := g.blocks[b].preds;
    newIdom := None;
    for k := 0 to |preds|
      invariant MeetUpTo(t, preds, k, newIdom)
    {
      var p := preds[k];
      assert p in preds;
      ghost var before := newIdom;
      if idom[p].Some? {
        match newIdom {
          case None =>
            newIdom := Some(p);
          case Some(cur) =>
            var x := Intersect(idom, rpoIndex, cur, p, g, rpo, root);
            newIdom := Some(x);
        }
      }
      MeetNext(t, preds, k, before, newIdom);
    }
  }

  /** A reachable block other than the root has a processed predecessor, so a meet. */
  lemma HasMeet(g: Cfg, rpo: seq<BlockId>, t: Tree, i: nat, newIdom: Option<BlockId>)
    requires Iterating(g, rpo, t, i) && 1 <= i < |rpo|
    requires MeetUpTo(t, g.blocks[rpo[i]].preds, |g.blocks[rpo[i]].preds|, newIdom)
    ensures newIdom.Some? && MeetOf(g, t, rpo[i], newIdom.value)
  {
    var preds := g.blocks[rpo[i]].preds;
    var p := EarlierPred(g, rpo, t, rpo[i]);
    assert p in preds && Processed(t, p);
    assert preds[..|preds|] == preds;
    if newIdom.Some? {
      forall v: nat
        ensures AboveAll(t, preds, v) <==> CommonAbove(g, t, rpo[i], v)
      {
      }
    }
  }

  ghost predicate InPass(g: Cfg, rpo: seq<BlockId>, t0: Tree, t: Tree, i: nat, changed: bool) {
    && Iterating(g, rpo, t, i) && |t.idom| == |t0.idom|
    && (if changed then Height(t, |t.idom|) < Height(t0, |t0.idom|) else t == t0 && Settled(g, rpo, t, i))
  }

  lemma StepInPass(g: Cfg, rpo: seq<BlockId>, t0: Tree, t: Tree, i: nat, changed: bool, z: BlockId)
    requires InPass(g, rpo, t0, t, i, changed) && 1 <= i < |rpo| && MeetOf(g, t, rpo[i], z)
    ensures InPass(g, rpo, t0, Rehung(t, rpo[i], z), i + 1, changed || t.idom[rpo[i]] != Some(z))
  {
    hide Iterating, MeetOf, Grounded;
    InPassAt(g, rpo, t0, t, i, changed);
    StepKeeps(g, rpo, t, i, z);
    if t.idom[rpo[i]] != Some(z) {
      StepDescends(g, rpo, t, i, z);
    } else {
      assert Rehung(t, rpo[i], z) == t;
      GroundedNext(g, rpo, t, i);
    }
  }

  lemma GroundedNext(g: Cfg, rpo: seq<BlockId>, t: Tree, i: nat)
    requires Iterating(g, rpo, t, i + 1)
    ensures Grounded(g, rpo, t) && i + 1 <= |rpo|
  {
  }

  /** One pass over the blocks in reverse postorder, the root skipped. */
  method Pass(g: Cfg, idom: array<Option<BlockId>>, rpoIndex: array<nat>, rpo: seq<BlockId>, ghost root: BlockId)
    returns (changed: bool)
    requires idom.Length == rpoIndex.Length && root < idom.Length && idom[root] == Some(root)
    requires rpo != [] && InPass(g, rpo, TreeOf(idom[..], rpoIndex[..], root),
                                 TreeOf(idom[..], rpoIndex[..], root), 1, false)
    modifies idom
    ensures idom[root] == Some(root)
    ensures InPass(g, rpo, old(TreeOf(idom[..], rpoIndex[..], root)),
                   TreeOf(idom[..], rpoIndex[..], root), |rpo|, changed)
  {
    hide InPass, MeetUpTo, MeetOf, Iterating, Grounded, Rooted;
    changed := false;
    ghost var t0 := TreeOf(idom[..], rpoIndex[..], root);
    ghost var t := t0;
    for i := 1 to |rpo|
      invariant idom[root] == Some(root)
      invariant t == TreeOf(idom[..], rpoIndex[..], root)
      invariant InPass(g, rpo, t0, t, i, changed)
    {
      var b := rpo[i];
      InPassAt(g, rpo, t0, t, i, changed);
      var newIdom := MeetPreds(g, idom, rpoIndex, b, rpo, root);
      HasMeet(g, rpo, t, i, newIdom);
      StepInPass(g, rpo, t0, t, i, changed, newIdom.value);
      t := Rehung(t, b, newIdom.value);
      if newIdom.Some? && idom[b] != newIdom {
        idom[b] := newIdom;
        changed := true;
      }
    }
  }

  lemma InPassAt(g: Cfg, rpo: seq<BlockId>, t0: Tree, t: Tree, i: nat, changed: bool)
    requires InPass(g, rpo, t0, t, i, changed) && 1 <= i < |rpo|
    ensures Iterating(g, rpo, t, i) && Grounded(g, rpo, t) && Rooted(t) && g.Has(rpo[i]) && rpo[i] != t.root
    ensures t.root < |t.idom| == |g.blocks|
  {
  }

  /** Dominance from `root`. */
  method DominatorsFrom(g: Cfg, root: BlockId) returns (d: DominanceInfo)
    requires g.Valid() && g.Has(root)
    ensures DominanceOf(g, root, d)
  {
    var n := |g.blocks|;
    var post := Postorder(g, root);
    var rpo := Reverse(post);
    ReachedInRange(g, root, rpo);
    var rpoIndex := Number(n, rpo);
    var idom := new Option<BlockId>[n](_ => None);
    idom[root] := Some(root); // self, during iteration
    ghost var t := TreeOf(idom[..], rpoIndex[..], root);
    IteratingStarts(g, rpo, t);
    var changed := true;
    while changed
      invariant idom[root] == Some(root)
      invariant t == TreeOf(idom[..], rpoIndex[..], root)
      invariant Iterating(g, rpo, t, if changed then 1 else |rpo|)
      invariant !changed ==> Settled(g, rpo, t, |rpo|)
      decreases Height(t, n), changed
    {
      FirstIsSettled(g, rpo, t);
      changed := Pass(g, idom, rpoIndex, rpo, root);
      t := TreeOf(idom[..], rpoIndex[..], root);
      if changed {
        PassEnds(g, rpo, t);
      }
    }
    idom[root] := None; // the root has no immediate dominator in the result
    assert idom[..] == t.idom;
    d := DominanceInfo(idom[..], rpo, rpoIndex[..]);
    SettledIsInfo(g, rpo, t);
  }

  /** Each block's position in the order, `UNREACHABLE` where it has none. */
  method Number(n: nat, rpo: seq<BlockId>) returns (rpoIndex: array<nat>)
    requires Distinct(rpo) && forall k :: 0 <= k < |rpo| ==> rpo[k] < n
    ensures fresh(rpoIndex) && rpoIndex.Length == n
    ensures forall k :: 0 <= k < |rpo| ==> rpoIndex[rpo[k]] == k
    ensures forall b :: 0 <= b < n && b !in rpo ==> rpoIndex[b] == UNREACHABLE
  {
    rpoIndex := new nat[n](_ => UNREACHABLE);
    for i := 0 to |rpo|
      invariant forall k :: 0 <= k < i ==> rpoIndex[rpo[k]] == k
      invariant forall b :: 0 <= b < n && b !in rpo ==> rpoIndex[b] == UNREACHABLE
    {
      rpoIndex[rpo[i]] := i;
    }
  }

  lemma ReachedInRange(g: Cfg, root: BlockId, rpo: seq<BlockId>)
    requires g.Valid() && SearchOrder(g, root, rpo)
    ensures |rpo| <= |g.blocks| && forall k :: 0 <= k < |rpo| ==> g.Has(rpo[k])
  {
    forall k | 0 <= k < |rpo|
      ensures g.Has(rpo[k])
    {
      assert rpo[k] in rpo;
    }
    DistinctFits(rpo, |g.blocks|);
  }

  lemma {:induction false} DistinctFits(s: seq<BlockId>, n: nat)
    requires Distinct(s) && forall k :: 0 <= k < |s| ==> s[k] < n
    ensures |s| <= n
  {
    if s != [] {
      assert s[0] < n;
      if i :| 0 <= i < |s| && s[i] == n - 1 {
        var rest := s[..i] + s[i + 1..];
        forall k | 0 <= k < |rest|
          ensures rest[k] < n - 1
        {
          assert rest[k] == s[if k < i then k else k + 1];
        }
        assert Distinct(rest) by {
          forall j, k | 0 <= j < k < |rest|
            ensures rest[j] != rest[k]
          {
            assert rest[j] == s[if j < i then j else j + 1] && rest[k] == s[if k < i then k else k + 1];
          }
        }
        DistinctFits(rest, n - 1);
      } else {
        DistinctFits(s, n - 1);
      }
    }
  }

  lemma FirstIsSettled(g: Cfg, rpo: seq<BlockId>, t: Tree)
    requires Iterating(g, rpo, t, 1)
    ensures rpo != [] && InPass(g, rpo, t, t, 1, false)
  {
  }

  lemma SettledIsInfo(g: Cfg, rpo: seq<BlockId>, t: Tree)
    requires Iterating(g, rpo, t, |rpo|) && Settled(g, rpo, t, |rpo|) && t.idom[t.root].None?
    ensures DominanceOf(g, t.root, DominanceInfo(t.idom, rpo, t.idx))
  {
    forall b: nat | b < |t.idom|
      ensures t.idom[b].Some? <==> b != t.root && Reaches(g, t.root, b)
      ensures t.idom[b].Some? ==> ImmediatelyDominates(g, t.root, t.idom[b].value, b)
    {
      if b in rpo {
        var k :| 0 <= k < |rpo| && rpo[k] == b;
        assert Processed(t, b);
      }
      if t.idom[b].Some? {
        assert Processed(t, b);
        SettledIsImmediate(g, rpo, t, b);
      }
    }
  }

  lemma SettledIsImmediate(g: Cfg, rpo: seq<BlockId>, t: Tree, b: BlockId)
    requires Iterating(g, rpo, t, |rpo|) && Settled(g, rpo, t, |rpo|)
    requires Processed(t, b) && b != t.root
    ensures ImmediatelyDominates(g, t.root, t.idom[b].value, b)
  {
    var v := t.idom[b].value;
    SettledIsDominance(g, rpo, t, v, b);
    assert Above(t, v, v);
    assert Processed(t, v);
    forall d: nat | StrictlyDominates(g, t.root, d, b)
      ensures Dominates(g, t.root, d, v)
    {
      SettledIsDominance(g, rpo, t, d, b);
      SettledIsDominance(g, rpo, t, d, v);
    }
  }

  /** Does `a` dominate `b`? Climbs from `b`; false if either is unreachable. */
  method IsDominator(g: Cfg, ghost root: BlockId, d: DominanceInfo, a: BlockId, b: BlockId) returns (yes: bool)
    requires DominanceOf(g, root, d) && g.Has(a) && g.Has(b)
    ensures yes <==> Dominates(g, root, a, b)
  {
    ReachableIsNumbered(g, root, d, a);
    ReachableIsNumbered(g, root, d, b);
    if !d.IsReachable(a) || !d.IsReachable(b) {
      if Dominates(g, root, a, b) {
        DominatorReaches(g, root, a, b);
      }
      return false;
    }
    var cur := b;
    DominatesSelf(g, root, b);
    while true
      invariant g.Has(cur) && Dominates(g, root, cur, b)
      invariant Dominates(g, root, a, b) ==> Dominates(g, root, a, cur)
      decreases d.rpoIndex[cur]
    {
      if cur == a {
        return true;
      }
      match d.idom[cur] {
        case Some(next) =>
          DominatesTransitive(g, root, next, cur, b);
          cur := next;
        case None =>
          DominatorReaches(g, root, cur, b);
          OnlyRootAtRoot(g, root, a);
          return false;
      }
    }
  }

  lemma OnlyRootAtRoot(g: Cfg, root: BlockId, a: BlockId)
    requires g.Has(root)
    ensures Dominates(g, root, a, root) <==> a == root
  {
    assert Connects(g, root, root, [root]);
  }
}
