/** Depth-first search with an explicit stack of (block, next successor index).
    What a search keeps at every step is stated once, over the blocks seen, the
    stack and the postorder so far; the dominator and the loop analyses both
    run it. */
module DepthFirst {
  import opened Graphs

  type Frame = (BlockId, nat)

  ghost predicate OnStack(stack: seq<Frame>, b: BlockId) {
    exists k :: 0 <= k < |stack| && stack[k].0 == b
  }

  ghost predicate Distinct(s: seq<BlockId>) {
    forall i, j :: 0 <= i < j < |s| ==> s[i] != s[j]
  }

  /** `b` has a predecessor that finishes after position `i` of the postorder. */
  ghost predicate FinishesUnder(g: Cfg, stack: seq<Frame>, post: seq<BlockId>, i: nat, b: BlockId) {
    exists u :: g.Edge(u, b) && (OnStack(stack, u) || exists j :: i < j < |post| && post[j] == u)
  }

  ghost predicate Explored(g: Cfg, seen: set<BlockId>, b: BlockId, upto: nat) {
    g.Has(b) && upto <= |g.blocks[b].succs| &&
    forall j :: 0 <= j < upto ==> g.blocks[b].succs[j] in seen
  }

  /** The blocks seen are those on the stack and those finished, each once. */
  ghost predicate Members(g: Cfg, root: BlockId, seen: set<BlockId>, stack: seq<Frame>, post: seq<BlockId>) {
    && root in seen
    && (forall b :: b in seen ==> Reaches(g, root, b))
    && (forall b :: b in seen <==> OnStack(stack, b) || b in post)
    && (forall i, j :: 0 <= i < j < |stack| ==> stack[i].0 != stack[j].0)
    && Distinct(post)
    && (forall k :: 0 <= k < |stack| ==> stack[k].0 !in post)
  }

  ghost predicate Progress(g: Cfg, seen: set<BlockId>, stack: seq<Frame>, post: seq<BlockId>) {
    && (forall k :: 0 <= k < |stack| ==> Explored(g, seen, stack[k].0, stack[k].1))
    && (forall b :: b in post ==> g.Has(b) && Explored(g, seen, b, |g.blocks[b].succs|))
  }

  /** The stack is a path from the root, and every block finishes before a predecessor of it. */
  ghost predicate Nested(g: Cfg, root: BlockId, stack: seq<Frame>, post: seq<BlockId>) {
    && (forall k :: 0 <= k < |stack| - 1 ==> g.Edge(stack[k].0, stack[k + 1].0))
    && (if stack == [] then post != [] && post[|post| - 1] == root else stack[0].0 == root)
    && (forall i :: 0 <= i < |post| ==>
          FinishesUnder(g, stack, post, i, post[i]) || (stack == [] && i == |post| - 1))
  }

  ghost predicate Search(g: Cfg, root: BlockId, seen: set<BlockId>, stack: seq<Frame>, post: seq<BlockId>) {
    Members(g, root, seen, stack, post) && Progress(g, seen, stack, post) && Nested(g, root, stack, post)
  }

  /** The postorder read backwards: the reachable blocks, once each, the root
      first and every other block after one of its predecessors. */
  ghost predicate SearchOrder(g: Cfg, root: BlockId, order: seq<BlockId>) {
    && order != [] && order[0] == root
    && Distinct(order)
    && (forall b :: b in order <==> Reaches(g, root, b))
    && (forall k :: 0 < k < |order| ==> exists j :: 0 <= j < k && g.Edge(order[j], order[k]))
  }

  function Reverse(s: seq<BlockId>): (r: seq<BlockId>)
    ensures |r| == |s|
    ensures forall i :: 0 <= i < |s| ==> r[i] == s[|s| - 1 - i]
  {
    seq(|s|, i requires 0 <= i < |s| => s[|s| - 1 - i])
  }

  lemma SearchStarts(g: Cfg, root: BlockId)
    requires g.Has(root)
    ensures Search(g, root, {root}, [(root, 0)], [])
  {
    ReachesSelf(g, root);
    assert [(root, 0)][0].0 == root;
  }

  lemma SearchTop(g: Cfg, root: BlockId, seen: set<BlockId>, stack: seq<Frame>, post: seq<BlockId>)
    requires Search(g, root, seen, stack, post) && stack != []
    ensures g.Has(stack[|stack| - 1].0) && stack[|stack| - 1].1 <= |g.blocks[stack[|stack| - 1].0].succs|
  {
    assert Explored(g, seen, stack[|stack| - 1].0, stack[|stack| - 1].1);
  }

  /** The next successor of the top block was seen before. */
  lemma SearchSkips(g: Cfg, root: BlockId, seen: set<BlockId>, stack: seq<Frame>, post: seq<BlockId>)
    requires Search(g, root, seen, stack, post) && stack != []
    requires var (b, next) := stack[|stack| - 1];
             next < |g.blocks[b].succs| && g.blocks[b].succs[next] in seen
    ensures var (b, next) := stack[|stack| - 1];
            Search(g, root, seen, stack[..|stack| - 1] + [(b, next + 1)], post)
  {
    hide OnStack, FinishesUnder;
    var (b, next) := stack[|stack| - 1];
    var after := stack[..|stack| - 1] + [(b, next + 1)];
    assert forall k :: 0 <= k < |stack| ==> after[k].0 == stack[k].0;
    SameBlocks(g, stack, after, post);
  }

  lemma SameBlocks(g: Cfg, stack: seq<Frame>, after: seq<Frame>, post: seq<BlockId>)
    requires |after| == |stack| && forall k :: 0 <= k < |stack| ==> after[k].0 == stack[k].0
    ensures forall b :: OnStack(stack, b) <==> OnStack(after, b)
    ensures forall i: nat, b :: FinishesUnder(g, stack, post, i, b) ==> FinishesUnder(g, after, post, i, b)
  {
    forall b
      ensures OnStack(stack, b) <==> OnStack(after, b)
    {
      if OnStack(stack, b) {
        var k :| 0 <= k < |stack| && stack[k].0 == b;
        assert after[k].0 == b;
      }
      if OnStack(after, b) {
        var k :| 0 <= k < |stack| && after[k].0 == b;
        assert stack[k].0 == b;
      }
    }
  }

  /** The next successor of the top block is new. */
  lemma SearchPushes(g: Cfg, root: BlockId, seen: set<BlockId>, stack: seq<Frame>, post: seq<BlockId>)
    requires g.Valid()
    requires Search(g, root, seen, stack, post) && stack != []
    requires var (b, next) := stack[|stack| - 1];
             next < |g.blocks[b].succs| && g.blocks[b].succs[next] !in seen
    ensures var (b, next) := stack[|stack| - 1];
            var s := g.blocks[b].succs[next];
            Search(g, root, seen + {s}, stack[..|stack| - 1] + [(b, next + 1), (s, 0)], post)
  {
    var (b, next) := stack[|stack| - 1];
    var s := g.blocks[b].succs[next];
    assert OnStack(stack, b);
    assert s in g.blocks[b].succs;
    ReachesStep(g, root, b, s);
    var after := stack[..|stack| - 1] + [(b, next + 1), (s, 0)];
    PushedStack(g, stack, after, post);
    PushedMembers(g, root, seen, stack, after, post, s);
    PushedProgress(g, seen, stack, after, post, s);
    assert Nested(g, root, after, post) by {
      assert forall k :: 0 <= k < |stack| ==> after[k].0 == stack[k].0;
    }
  }

  lemma PushedMembers(g: Cfg, root: BlockId, seen: set<BlockId>, stack: seq<Frame>, after: seq<Frame>,
                      post: seq<BlockId>, s: BlockId)
    requires Members(g, root, seen, stack, post)
    requires |after| == |stack| + 1 && after[|stack|].0 == s && s !in seen && Reaches(g, root, s)
    requires forall k :: 0 <= k < |stack| ==> after[k].0 == stack[k].0
    requires forall b :: OnStack(after, b) <==> OnStack(stack, b) || b == s
    ensures Members(g, root, seen + {s}, after, post)
  {
    forall k | 0 <= k < |stack|
      ensures stack[k].0 != s
    {
      assert OnStack(stack, stack[k].0);
    }
  }

  lemma PushedProgress(g: Cfg, seen: set<BlockId>, stack: seq<Frame>, after: seq<Frame>, post: seq<BlockId>, s: BlockId)
    requires Progress(g, seen, stack, post) && stack != []
    requires var (b, next) := stack[|stack| - 1];
             next < |g.blocks[b].succs| && g.blocks[b].succs[next] == s && g.Has(s) &&
             after == stack[..|stack| - 1] + [(b, next + 1), (s, 0)]
    ensures Progress(g, seen + {s}, after, post)
  {
    forall k | 0 <= k < |after|
      ensures Explored(g, seen + {s}, after[k].0, after[k].1)
    {
      if k < |stack| {
        assert Explored(g, seen, stack[k].0, stack[k].1);
      }
    }
  }

  lemma PushedStack(g: Cfg, stack: seq<Frame>, after: seq<Frame>, post: seq<BlockId>)
    requires |after| == |stack| + 1 && forall k :: 0 <= k < |stack| ==> after[k].0 == stack[k].0
    ensures forall b :: OnStack(after, b) <==> OnStack(stack, b) || b == after[|stack|].0
    ensures forall i: nat, b :: FinishesUnder(g, stack, post, i, b) ==> FinishesUnder(g, after, post, i, b)
  {
    SameBlocks(g, stack, after[..|stack|], post);
    forall b
      ensures OnStack(after, b) <==> OnStack(stack, b) || b == after[|stack|].0
    {
      if OnStack(stack, b) {
        var k :| 0 <= k < |stack| && stack[k].0 == b;
        assert after[k].0 == b;
      }
    }
  }

  /** The top block has no successor left: it joins the postorder. */
  lemma SearchPops(g: Cfg, root: BlockId, seen: set<BlockId>, stack: seq<Frame>, post: seq<BlockId>)
    requires Search(g, root, seen, stack, post) && stack != []
    requires var (b, next) := stack[|stack| - 1]; next == |g.blocks[b].succs|
    ensures Search(g, root, seen, stack[..|stack| - 1], post + [stack[|stack| - 1].0])
  {
    var b := stack[|stack| - 1].0;
    var after, done := stack[..|stack| - 1], post + [b];
    PoppedStack(stack);
    forall i | 0 <= i < |done|
      ensures FinishesUnder(g, after, done, i, done[i]) || (after == [] && i == |done| - 1)
    {
      PoppedFinishes(g, root, seen, stack, post, i);
    }
    hide FinishesUnder, OnStack;
  }

  lemma PoppedStack(stack: seq<Frame>)
    requires stack != []
    ensures forall x :: OnStack(stack, x) <==> OnStack(stack[..|stack| - 1], x) || x == stack[|stack| - 1].0
  {
    var after := stack[..|stack| - 1];
    forall x
      ensures OnStack(stack, x) <==> OnStack(after, x) || x == stack[|stack| - 1].0
    {
      if OnStack(stack, x) && x != stack[|stack| - 1].0 {
        var k :| 0 <= k < |stack| && stack[k].0 == x;
        assert after[k].0 == x;
      }
    }
  }

  lemma PoppedFinishes(g: Cfg, root: BlockId, seen: set<BlockId>, stack: seq<Frame>, post: seq<BlockId>, i: nat)
    requires Search(g, root, seen, stack, post) && stack != [] && i <= |post|
    ensures var (after, done) := (stack[..|stack| - 1], post + [stack[|stack| - 1].0]);
            FinishesUnder(g, after, done, i, done[i]) || (after == [] && i == |done| - 1)
  {
    var b := stack[|stack| - 1].0;
    var after, done := stack[..|stack| - 1], post + [b];
    PoppedStack(stack);
    if i < |post| {
      assert FinishesUnder(g, stack, post, i, post[i]);
      var u :| g.Edge(u, post[i]) && (OnStack(stack, u) || exists j :: i < j < |post| && post[j] == u);
      if !OnStack(after, u) {
        if u == b {
          assert done[|post|] == u;
        } else {
          var j :| i < j < |post| && post[j] == u;
          assert done[j] == u;
        }
      }
    } else if after != [] {
      assert OnStack(after, after[|after| - 1].0);
      assert g.Edge(stack[|stack| - 2].0, stack[|stack| - 1].0);
    }
  }

  /** When the stack empties, the blocks seen are the reachable ones, and the
      postorder backwards is a search order. */
  lemma SearchEnds(g: Cfg, root: BlockId, seen: set<BlockId>, post: seq<BlockId>)
    requires Search(g, root, seen, [], post)
    ensures SearchOrder(g, root, Reverse(post))
  {
    hide *;
    ReversedEnds(g, root, seen, post);
    ReversedReached(g, root, seen, post);
    ReversedParents(g, root, seen, post);
    OrderIs(g, root, Reverse(post));
  }

  ghost predicate Parented(g: Cfg, order: seq<BlockId>, k: int)
    requires 0 < k < |order|
  {
    exists j :: 0 <= j < k && g.Edge(order[j], order[k])
  }

  lemma OrderIs(g: Cfg, root: BlockId, order: seq<BlockId>)
    requires order != [] && order[0] == root && Distinct(order)
    requires forall b :: b in order <==> Reaches(g, root, b)
    requires forall k :: 0 < k < |order| ==> Parented(g, order, k)
    ensures SearchOrder(g, root, order)
  {
    hide Distinct, Reaches;
    forall k | 0 < k < |order| ensures exists j :: 0 <= j < k && g.Edge(order[j], order[k]) {
      assert Parented(g, order, k);
    }
  }

  lemma ReversedEnds(g: Cfg, root: BlockId, seen: set<BlockId>, post: seq<BlockId>)
    requires Search(g, root, seen, [], post)
    ensures post != [] && Reverse(post)[0] == root && Distinct(Reverse(post))
  {
    hide FinishesUnder, Reaches, Explored;
  }

  lemma ReversedReached(g: Cfg, root: BlockId, seen: set<BlockId>, post: seq<BlockId>)
    requires Search(g, root, seen, [], post)
    ensures forall b :: b in Reverse(post) <==> Reaches(g, root, b)
  {
    hide FinishesUnder, Explored;
    var order := Reverse(post);
    forall b
      ensures b in order <==> Reaches(g, root, b)
    {
      if b in order {
        assert b in post;
      }
      if Reaches(g, root, b) {
        var p :| Connects(g, root, b, p);
        SeenAlong(g, root, seen, post, p);
        var i :| 0 <= i < |post| && post[i] == b;
        assert order[|post| - 1 - i] == b;
      }
    }
  }

  lemma ReversedParents(g: Cfg, root: BlockId, seen: set<BlockId>, post: seq<BlockId>)
    requires Search(g, root, seen, [], post)
    ensures forall k :: 0 < k < |post| ==> Parented(g, Reverse(post), k)
  {
    hide Search, Parented;
    forall k | 0 < k < |post| ensures Parented(g, Reverse(post), k) {
      ReversedParent(g, root, seen, post, k);
    }
  }

  lemma ReversedParent(g: Cfg, root: BlockId, seen: set<BlockId>, post: seq<BlockId>, k: int)
    requires Search(g, root, seen, [], post) && 0 < k < |post|
    ensures Parented(g, Reverse(post), k)
  {
    hide *;
    var i := |post| - 1 - k;
    ReversedAt(post, i);
    var j := FinishedParent(g, root, seen, post, i);
    ReversedAt(post, j);
    ParentedBy(g, Reverse(post), k, |post| - 1 - j);
  }

  lemma ReversedAt(post: seq<BlockId>, i: nat)
    requires i < |post|
    ensures |Reverse(post)| == |post| && Reverse(post)[|post| - 1 - i] == post[i]
  {
  }

  lemma ParentedBy(g: Cfg, order: seq<BlockId>, k: int, j: nat)
    requires j < k < |order| && g.Edge(order[j], order[k])
    ensures Parented(g, order, k)
  {
  }

  // Of a finished search, each block but the last finished has an edge to it from one that finished later.
  lemma FinishedParent(g: Cfg, root: BlockId, seen: set<BlockId>, post: seq<BlockId>, i: nat) returns (j: nat)
    requires Search(g, root, seen, [], post) && i < |post| - 1
    ensures i < j < |post| && g.Edge(post[j], post[i])
  {
    hide Reaches, Explored, Distinct;
    assert FinishesUnder(g, [], post, i, post[i]);
    var u :| g.Edge(u, post[i]) && (OnStack([], u) || exists j :: i < j < |post| && post[j] == u);
    j :| i < j < |post| && post[j] == u;
  }

  lemma {:induction false} SeenAlong(g: Cfg, root: BlockId, seen: set<BlockId>, post: seq<BlockId>, p: seq<BlockId>)
    requires Search(g, root, seen, [], post)
    requires IsPath(g, p) && p[0] == root
    ensures p[|p| - 1] in post
  {
    if |p| > 1 {
      var q := p[..|p| - 1];
      PathSlice(g, p, 0, |p| - 1);
      assert p[0..|p| - 1] == q;
      SeenAlong(g, root, seen, post, q);
      var b := q[|q| - 1];
      assert Explored(g, seen, b, |g.blocks[b].succs|);
      assert g.Edge(p[|p| - 2], p[|p| - 1]);
    }
  }
}
