/** A topological order of the blocks labels come to, found depth first. */
module LabelOrder {
  import opened Wrappers
  import opened Graphs
  import opened LabelPaths
  import opened Sets

  // A block and how many of its successors were taken; 0 before it is entered.
  type Frame = (BlockId, nat)

  // No path of the blocks reached comes back to where it started.
  ghost predicate Acyclic(g: Cfg, roots: seq<BlockId>) {
    forall p :: IsPath(g, p) && |p| > 1 && Reached(g, roots, p[0]) ==> p[0] != p[|p| - 1]
  }

  function Succs(g: Cfg, b: BlockId): seq<BlockId> {
    if b < |g.blocks| then g.blocks[b].succs else []
  }

  ghost predicate IsOpen(open: seq<Frame>, b: BlockId) {
    exists k :: 0 <= k < |open| && open[k].0 == b
  }

  ghost predicate Known(stop: Option<BlockId>, post: seq<BlockId>, b: BlockId) {
    Some(b) == stop || b in post
  }

  // What was seen: the stop, what is finished and what is entered, each once.
  ghost predicate Members(g: Cfg, roots: seq<BlockId>, stop: Option<BlockId>, seen: set<BlockId>, open: seq<Frame>,
                          post: seq<BlockId>) {
    && (forall b: nat :: b in seen <==> Known(stop, post, b) || IsOpen(open, b))
    && (forall i, j :: 0 <= i < j < |post| ==> post[i] != post[j])
    && (forall i, j :: 0 <= i < j < |open| ==> open[i].0 != open[j].0)
    && (forall k :: 0 <= k < |open| ==> !Known(stop, post, open[k].0))
    && (forall b: nat :: b in post ==> Some(b) != stop && g.Has(b) && Reached(g, roots, b))
    && (forall k :: 0 <= k < |open| ==> g.Has(open[k].0) && Reached(g, roots, open[k].0))
  }

  // Each entered block took the next one last.
  ghost predicate Chained(g: Cfg, open: seq<Frame>) {
    && (forall k :: 0 <= k < |open| ==> 1 <= open[k].1 <= |Succs(g, open[k].0)| + 1)
    && (forall k :: 0 <= k < |open| - 1 ==> open[k].1 <= |Succs(g, open[k].0)| && Succs(g, open[k].0)[open[k].1 - 1] == open[k + 1].0)
  }

  // A successor dealt with is seen, and where there is no cycle it is finished.
  ghost predicate Settled(g: Cfg, roots: seq<BlockId>, stop: Option<BlockId>, seen: set<BlockId>, post: seq<BlockId>,
                          s: BlockId) {
    s in seen && (Acyclic(g, roots) ==> Known(stop, post, s))
  }

  ghost predicate PostSettled(g: Cfg, roots: seq<BlockId>, stop: Option<BlockId>, seen: set<BlockId>,
                              post: seq<BlockId>) {
    forall i, s :: 0 <= i < |post| && s in Succs(g, post[i]) ==> Settled(g, roots, stop, seen, post[..i], s)
  }

  ghost predicate OpenSettled(g: Cfg, roots: seq<BlockId>, stop: Option<BlockId>, seen: set<BlockId>,
                              open: seq<Frame>, post: seq<BlockId>) {
    forall k, m :: 0 <= k < |open| && 0 <= m < open[k].1 - 1 && m < |Succs(g, open[k].0)| ==>
      Settled(g, roots, stop, seen, post, Succs(g, open[k].0)[m])
  }

  // The search with the last successor taken by each entered block still to deal with.
  ghost predicate Core(g: Cfg, roots: seq<BlockId>, stop: Option<BlockId>, seen: set<BlockId>, open: seq<Frame>,
                       post: seq<BlockId>) {
    && Members(g, roots, stop, seen, open, post) && Chained(g, open)
    && PostSettled(g, roots, stop, seen, post) && OpenSettled(g, roots, stop, seen, open, post)
  }

  // The search between two steps: the top block's last successor is pending, or dealt with.
  ghost predicate Search(g: Cfg, roots: seq<BlockId>, stop: Option<BlockId>, seen: set<BlockId>, open: seq<Frame>,
                         pending: Option<BlockId>, post: seq<BlockId>)
  {
    && Core(g, roots, stop, seen, open, post)
    && (open != [] ==>
          var (b, i) := open[|open| - 1];
          && i <= |Succs(g, b)|
          && (if pending.Some? then pending.value == Succs(g, b)[i - 1] else Settled(g, roots, stop, seen, post, Succs(g, b)[i - 1])))
    && (open == [] && pending.Some? ==> pending.value in roots && g.Has(pending.value))
  }

  lemma {:induction false} ChainPath(g: Cfg, open: seq<Frame>, j: nat, k: nat) returns (p: seq<BlockId>)
    requires Chained(g, open) && j <= k < |open| && forall i :: 0 <= i < |open| ==> g.Has(open[i].0)
    ensures Connects(g, open[j].0, open[k].0, p)
    decreases k - j
  {
    if j == k {
      p := [open[j].0];
    } else {
      var q := ChainPath(g, open, j, k - 1);
      var b, s := open[k - 1].0, open[k].0;
      assert Succs(g, b)[open[k - 1].1 - 1] == open[k - 1 + 1].0;
      assert g.Edge(b, s);
      PathExtend(g, open[j].0, b, s, q);
      p := q + [s];
    }
  }

  lemma TopEdge(g: Cfg, roots: seq<BlockId>, stop: Option<BlockId>, seen: set<BlockId>, open: seq<Frame>,
                pending: BlockId, post: seq<BlockId>)
    requires Search(g, roots, stop, seen, open, Some(pending), post) && g.Has(pending)
    ensures forall k :: 0 <= k < |open| ==> g.Has(open[k].0) && Reached(g, roots, open[k].0)
    ensures open != [] ==> g.Edge(open[|open| - 1].0, pending)
    ensures open == [] ==> pending in roots
    ensures Chained(g, open) && Members(g, roots, stop, seen, open, post)
  {
    hide Acyclic, Reached, PostSettled, OpenSettled, Settled;
  }

  /** Without a cycle the successor taken is not itself being entered. */
  lemma NotOpen(g: Cfg, roots: seq<BlockId>, stop: Option<BlockId>, seen: set<BlockId>, open: seq<Frame>,
                pending: BlockId, post: seq<BlockId>)
    requires Search(g, roots, stop, seen, open, Some(pending), post) && g.Has(pending) && Acyclic(g, roots)
    ensures !IsOpen(open, pending)
  {
    hide Search, Reached, Members;
    TopEdge(g, roots, stop, seen, open, pending, post);
    if IsOpen(open, pending) {
      var j :| 0 <= j < |open| && open[j].0 == pending;
      var n := |open| - 1;
      var p := ChainPath(g, open, j, n);
      PathExtend(g, pending, open[n].0, pending, p);
    }
  }

  lemma SeenIs(g: Cfg, roots: seq<BlockId>, stop: Option<BlockId>, seen: set<BlockId>, open: seq<Frame>,
               post: seq<BlockId>, b: BlockId)
    requires Members(g, roots, stop, seen, open, post)
    ensures b in seen <==> Known(stop, post, b) || IsOpen(open, b)
  {
    hide Reached;
  }

  lemma Skips(g: Cfg, roots: seq<BlockId>, stop: Option<BlockId>, seen: set<BlockId>, open: seq<Frame>,
              pending: BlockId, post: seq<BlockId>)
    requires Search(g, roots, stop, seen, open, Some(pending), post) && pending in seen && g.Has(pending)
    ensures Search(g, roots, stop, seen, open, None, post)
  {
    hide Members, Chained, PostSettled, OpenSettled, Acyclic;
    SeenIs(g, roots, stop, seen, open, post, pending);
    if Acyclic(g, roots) {
      NotOpen(g, roots, stop, seen, open, pending, post);
    }
  }

  // Settled stays so as more is seen and finished.
  lemma StillSettled(g: Cfg, roots: seq<BlockId>, stop: Option<BlockId>, seen: set<BlockId>, more: set<BlockId>,
                     post: seq<BlockId>, after: seq<BlockId>, s: BlockId)
    requires Settled(g, roots, stop, seen, post, s) && seen <= more && forall b :: b in post ==> b in after
    ensures Settled(g, roots, stop, more, after, s)
  {
    hide Acyclic;
  }

  lemma StillPost(g: Cfg, roots: seq<BlockId>, stop: Option<BlockId>, seen: set<BlockId>, more: set<BlockId>,
                  post: seq<BlockId>)
    requires PostSettled(g, roots, stop, seen, post) && seen <= more
    ensures PostSettled(g, roots, stop, more, post)
  {
    hide Acyclic;
  }

  // The blocks of `open` and one more.
  lemma OpensOne(open: seq<Frame>, b: BlockId, i: nat, c: BlockId)
    ensures IsOpen(open + [(b, i)], c) <==> IsOpen(open, c) || c == b
  {
    var next := open + [(b, i)];
    if IsOpen(open, c) {
      var k :| 0 <= k < |open| && open[k].0 == c;
      assert next[k].0 == c;
    }
    if IsOpen(next, c) && c != b {
      var k :| 0 <= k < |next| && next[k].0 == c;
      assert open[k].0 == c;
    }
    assert next[|open|].0 == b;
  }

  lemma EnterMembers(g: Cfg, roots: seq<BlockId>, stop: Option<BlockId>, seen: set<BlockId>, open: seq<Frame>,
                     b: BlockId, post: seq<BlockId>)
    requires Members(g, roots, stop, seen, open, post) && b !in seen && g.Has(b) && Reached(g, roots, b)
    ensures Members(g, roots, stop, seen + {b}, open + [(b, 1)], post)
  {
    hide Reached;
    forall c: nat ensures IsOpen(open + [(b, 1)], c) <==> IsOpen(open, c) || c == b {
      OpensOne(open, b, 1, c);
    }
    assert forall k :: 0 <= k < |open| ==> IsOpen(open, open[k].0);
    assert !IsOpen(open, b) && !Known(stop, post, b);
  }

  lemma Enters1(g: Cfg, roots: seq<BlockId>, stop: Option<BlockId>, seen: set<BlockId>, open: seq<Frame>,
                pending: BlockId, post: seq<BlockId>)
    requires Search(g, roots, stop, seen, open, Some(pending), post) && pending !in seen && g.Has(pending)
    ensures Core(g, roots, stop, seen + {pending}, open + [(pending, 1)], post)
  {
    hide Members, PostSettled, OpenSettled, Settled, Acyclic, Reached, Chained;
    SearchIs(g, roots, stop, seen, open, pending, post);
    EnterChained(g, roots, stop, seen, open, pending, post);
    PendingReached(g, roots, stop, seen, open, pending, post);
    EnterMembers(g, roots, stop, seen, open, pending, post);
    StillPost(g, roots, stop, seen, seen + {pending}, post);
    EnterSettled(g, roots, stop, seen, open, pending, post);
  }

  lemma SearchIs(g: Cfg, roots: seq<BlockId>, stop: Option<BlockId>, seen: set<BlockId>, open: seq<Frame>,
                 pending: BlockId, post: seq<BlockId>)
    requires Search(g, roots, stop, seen, open, Some(pending), post)
    ensures Core(g, roots, stop, seen, open, post)
  {
    hide Core;
  }

  lemma EnterChained(g: Cfg, roots: seq<BlockId>, stop: Option<BlockId>, seen: set<BlockId>, open: seq<Frame>,
                     pending: BlockId, post: seq<BlockId>)
    requires Search(g, roots, stop, seen, open, Some(pending), post)
    ensures Chained(g, open + [(pending, 1)])
  {
    hide Members, PostSettled, OpenSettled, Settled, Acyclic, Reached;
  }

  lemma EnterSettled(g: Cfg, roots: seq<BlockId>, stop: Option<BlockId>, seen: set<BlockId>, open: seq<Frame>,
                     b: BlockId, post: seq<BlockId>)
    requires OpenSettled(g, roots, stop, seen, open, post)
    ensures OpenSettled(g, roots, stop, seen + {b}, open + [(b, 1)], post)
  {
    hide Settled, Acyclic;
    var next := open + [(b, 1)];
    forall k, m | 0 <= k < |next| && 0 <= m < next[k].1 - 1 && m < |Succs(g, next[k].0)|
      ensures Settled(g, roots, stop, seen + {b}, post, Succs(g, next[k].0)[m])
    {
      assert Settled(g, roots, stop, seen, post, Succs(g, open[k].0)[m]);
      StillSettled(g, roots, stop, seen, seen + {b}, post, post, Succs(g, open[k].0)[m]);
    }
  }

  lemma PendingReached(g: Cfg, roots: seq<BlockId>, stop: Option<BlockId>, seen: set<BlockId>, open: seq<Frame>,
                       pending: BlockId, post: seq<BlockId>)
    requires Search(g, roots, stop, seen, open, Some(pending), post) && g.Has(pending)
    ensures Reached(g, roots, pending)
  {
    hide Search, Members, Chained, Reached;
    TopEdge(g, roots, stop, seen, open, pending, post);
    if open == [] {
      RootReached(g, roots, pending);
    } else {
      ReachedStep(g, roots, open[|open| - 1].0, pending);
    }
  }

  // Popping the top block to take its next successor.
  lemma Resumes(g: Cfg, roots: seq<BlockId>, stop: Option<BlockId>, seen: set<BlockId>, open: seq<Frame>,
                post: seq<BlockId>)
    requires Search(g, roots, stop, seen, open, None, post) && open != []
    ensures var (b, i) := open[|open| - 1]; Core(g, roots, stop, seen, open[..|open| - 1] + [(b, i + 1)], post)
  {
    hide Members, PostSettled, OpenSettled, Settled, Acyclic;
    var n := |open| - 1;
    ResumeMembers(g, roots, stop, seen, open, post);
    ResumeSettled(g, roots, stop, seen, open, post);
  }

  lemma ResumeMembers(g: Cfg, roots: seq<BlockId>, stop: Option<BlockId>, seen: set<BlockId>, open: seq<Frame>,
                      post: seq<BlockId>)
    requires Members(g, roots, stop, seen, open, post) && open != []
    ensures var (b, i) := open[|open| - 1]; Members(g, roots, stop, seen, open[..|open| - 1] + [(b, i + 1)], post)
  {
    hide Reached;
    var n := |open| - 1;
    var next := open[..n] + [(open[n].0, open[n].1 + 1)];
    forall k | 0 <= k <= n ensures next[k].0 == open[k].0 {
    }
    forall c: nat ensures IsOpen(next, c) <==> IsOpen(open, c) {
      if IsOpen(open, c) {
        var k :| 0 <= k < |open| && open[k].0 == c;
        assert next[k].0 == c;
      }
    }
  }

  lemma ResumeSettled(g: Cfg, roots: seq<BlockId>, stop: Option<BlockId>, seen: set<BlockId>, open: seq<Frame>,
                      post: seq<BlockId>)
    requires OpenSettled(g, roots, stop, seen, open, post) && open != []
    requires var (b, i) := open[|open| - 1]; 1 <= i <= |Succs(g, b)| && Settled(g, roots, stop, seen, post, Succs(g, b)[i - 1])
    ensures var (b, i) := open[|open| - 1]; OpenSettled(g, roots, stop, seen, open[..|open| - 1] + [(b, i + 1)], post)
  {
    hide Settled, Acyclic;
    var n := |open| - 1;
    var (b, i) := open[n];
    var next := open[..n] + [(b, i + 1)];
    forall k, m | 0 <= k < |next| && 0 <= m < next[k].1 - 1 && m < |Succs(g, next[k].0)|
      ensures Settled(g, roots, stop, seen, post, Succs(g, next[k].0)[m])
    {
      if k < n || m < i - 1 {
        assert Settled(g, roots, stop, seen, post, Succs(g, open[k].0)[m]);
      }
    }
  }

  lemma Finishes(g: Cfg, roots: seq<BlockId>, stop: Option<BlockId>, seen: set<BlockId>, open: seq<Frame>,
                 post: seq<BlockId>)
    requires Core(g, roots, stop, seen, open, post) && open != []
    requires open[|open| - 1].1 == |Succs(g, open[|open| - 1].0)| + 1
    ensures Search(g, roots, stop, seen, open[..|open| - 1], None, post + [open[|open| - 1].0])
  {
    hide Members, PostSettled, OpenSettled, Settled, Acyclic;
    var n := |open| - 1;
    FinishedMembers(g, roots, stop, seen, open, post);
    FinishedPost(g, roots, stop, seen, open, post);
    FinishedOpen(g, roots, stop, seen, open, post);
    if n > 0 {
      assert Succs(g, open[n - 1].0)[open[n - 1].1 - 1] == open[n - 1 + 1].0;
      FinishedSettled(g, roots, stop, seen, open, post);
    }
  }

  lemma FinishedSettled(g: Cfg, roots: seq<BlockId>, stop: Option<BlockId>, seen: set<BlockId>, open: seq<Frame>,
                        post: seq<BlockId>)
    requires Members(g, roots, stop, seen, open, post) && open != []
    ensures Settled(g, roots, stop, seen, post + [open[|open| - 1].0], open[|open| - 1].0)
  {
    hide Acyclic, Reached;
    assert IsOpen(open, open[|open| - 1].0);
  }

  lemma FinishedPost(g: Cfg, roots: seq<BlockId>, stop: Option<BlockId>, seen: set<BlockId>, open: seq<Frame>,
                     post: seq<BlockId>)
    requires PostSettled(g, roots, stop, seen, post) && OpenSettled(g, roots, stop, seen, open, post) && open != []
    requires open[|open| - 1].1 == |Succs(g, open[|open| - 1].0)| + 1
    ensures PostSettled(g, roots, stop, seen, post + [open[|open| - 1].0])
  {
    hide Settled, Acyclic;
    var n := |open| - 1;
    var after := post + [open[n].0];
    forall i, s | 0 <= i < |after| && s in Succs(g, after[i]) ensures Settled(g, roots, stop, seen, after[..i], s) {
      if i < |post| {
        assert after[..i] == post[..i];
      } else {
        assert after[..i] == post;
        var m :| 0 <= m < |Succs(g, open[n].0)| && Succs(g, open[n].0)[m] == s;
        assert Settled(g, roots, stop, seen, post, Succs(g, open[n].0)[m]);
      }
    }
  }

  lemma FinishedOpen(g: Cfg, roots: seq<BlockId>, stop: Option<BlockId>, seen: set<BlockId>, open: seq<Frame>,
                     post: seq<BlockId>)
    requires OpenSettled(g, roots, stop, seen, open, post) && open != []
    ensures OpenSettled(g, roots, stop, seen, open[..|open| - 1], post + [open[|open| - 1].0])
  {
    hide Settled, Acyclic;
    var front, after := open[..|open| - 1], post + [open[|open| - 1].0];
    forall k, m | 0 <= k < |front| && 0 <= m < front[k].1 - 1 && m < |Succs(g, front[k].0)|
      ensures Settled(g, roots, stop, seen, after, Succs(g, front[k].0)[m])
    {
      assert Settled(g, roots, stop, seen, post, Succs(g, open[k].0)[m]);
      StillSettled(g, roots, stop, seen, seen, post, after, Succs(g, open[k].0)[m]);
    }
  }

  lemma FinishedMembers(g: Cfg, roots: seq<BlockId>, stop: Option<BlockId>, seen: set<BlockId>, open: seq<Frame>,
                        post: seq<BlockId>)
    requires Members(g, roots, stop, seen, open, post) && open != []
    ensures Members(g, roots, stop, seen, open[..|open| - 1], post + [open[|open| - 1].0])
  {
    hide Reached;
    var n := |open| - 1;
    var b := open[n].0;
    var front := open[..n];
    assert open == front + [(b, open[n].1)];
    forall c: nat ensures IsOpen(open, c) <==> IsOpen(front, c) || c == b {
      OpensOne(front, b, open[n].1, c);
    }
    assert !Known(stop, post, b);
  }

  lemma Starts(g: Cfg, roots: seq<BlockId>, stop: Option<BlockId>)
    ensures Search(g, roots, stop, if stop.Some? then {stop.value} else {}, [], None, [])
  {
  }

  lemma StartsRoot(g: Cfg, roots: seq<BlockId>, stop: Option<BlockId>, seen: set<BlockId>, post: seq<BlockId>,
                   r: BlockId)
    requires Search(g, roots, stop, seen, [], None, post) && r in roots && g.Has(r)
    ensures Search(g, roots, stop, seen, [], Some(r), post)
  {
  }

  // Everything reached is seen, once every root is.
  lemma {:induction false} AllSeen(g: Cfg, roots: seq<BlockId>, stop: Option<BlockId>, seen: set<BlockId>,
                                   post: seq<BlockId>, b: BlockId, p: seq<BlockId>)
    requires Search(g, roots, stop, seen, [], None, post) && FromRoots(g, roots, b, p)
    requires forall r :: r in roots ==> r in seen
    requires stop.Some? ==> Succs(g, stop.value) == []
    ensures b in seen
    decreases |p|
  {
    if |p| > 1 {
      Shorter(g, roots, b, p);
      var x := p[|p| - 2];
      AllSeen(g, roots, stop, seen, post, x, p[..|p| - 1]);
      SeenIs(g, roots, stop, seen, [], post, x);
      assert Some(x) != stop;
      var i :| 0 <= i < |post| && post[i] == x;
      assert b in Succs(g, post[i]);
      assert Settled(g, roots, stop, seen, post[..i], b);
    }
  }

  // Everything reached but the stop is finished.
  lemma FinishedIs(g: Cfg, roots: seq<BlockId>, stop: Option<BlockId>, seen: set<BlockId>, post: seq<BlockId>,
                   b: BlockId)
    requires Search(g, roots, stop, seen, [], None, post) && (forall r :: r in roots ==> r in seen)
    requires stop.Some? ==> Succs(g, stop.value) == []
    ensures b in post <==> Reached(g, roots, b) && Some(b) != stop
  {
    hide Acyclic, PostSettled, OpenSettled;
    if Reached(g, roots, b) && Some(b) != stop {
      var p :| FromRoots(g, roots, b, p);
      AllSeen(g, roots, stop, seen, post, b, p);
      SeenIs(g, roots, stop, seen, [], post, b);
    }
  }

  // Without a cycle a block's successors are finished before it.
  lemma SuccFinished(g: Cfg, roots: seq<BlockId>, stop: Option<BlockId>, seen: set<BlockId>, post: seq<BlockId>,
                     m: nat, s: BlockId)
    requires Search(g, roots, stop, seen, [], None, post) && Acyclic(g, roots) && m < |post| && g.Edge(post[m], s)
    ensures Some(s) == stop || s in post[..m]
  {
    hide Acyclic, Reached, Members, OpenSettled;
    assert s in Succs(g, post[m]);
    assert Settled(g, roots, stop, seen, post[..m], s);
  }

  lemma EachOnce(g: Cfg, roots: seq<BlockId>, stop: Option<BlockId>, seen: set<BlockId>, post: seq<BlockId>)
    requires Search(g, roots, stop, seen, [], None, post)
    ensures forall i, j :: 0 <= i < j < |post| ==> post[i] != post[j]
  {
    hide Acyclic, Reached, PostSettled, OpenSettled;
  }

  /** The order: what is finished, last first. */
  lemma OrderIs(g: Cfg, roots: seq<BlockId>, stop: Option<BlockId>, seen: set<BlockId>, post: seq<BlockId>,
                out: seq<BlockId>)
    requires Search(g, roots, stop, seen, [], None, post) && (forall r :: r in roots ==> r in seen)
    requires stop.Some? ==> Succs(g, stop.value) == []
    requires |out| == |post| && forall i :: 0 <= i < |out| ==> out[i] == post[|post| - 1 - i]
    ensures forall i, j :: 0 <= i < j < |out| ==> out[i] != out[j]
    ensures forall b: nat :: b in out <==> Reached(g, roots, b) && Some(b) != stop
    ensures Acyclic(g, roots) ==> Topological(g, roots, stop, out)
  {
    hide Acyclic, Search, Reached;
    EachOnce(g, roots, stop, seen, post);
    forall b: nat ensures b in out <==> Reached(g, roots, b) && Some(b) != stop {
      FinishedIs(g, roots, stop, seen, post, b);
      if b in post {
        var i :| 0 <= i < |post| && post[i] == b;
        assert out[|post| - 1 - i] == b;
      }
    }
    if Acyclic(g, roots) {
      forall i, j | 0 <= i < |out| && 0 <= j < |out| && g.Edge(out[i], out[j]) ensures i < j {
        var m := |post| - 1 - i;
        SuccFinished(g, roots, stop, seen, post, m, out[j]);
        assert out[j] in out;
        var n :| 0 <= n < m && post[n] == out[j];
        assert post[|post| - 1 - j] == post[n];
      }
    }
  }
}
