/** Divergent branches and their joins: labels pushed along an acyclic graph in topological order. */
module SyncDependence {
  import opened Wrappers
  import opened Graphs
  import opened LabelPaths
  import opened LabelOrder
  import Sets
  import Sorting

  // -- the order -----------------------------------------------------------------

  ghost function Unseen(n: nat, seen: set<BlockId>): nat {
    |set b: nat | b < n && b !in seen|
  }

  lemma SeesOne(n: nat, seen: set<BlockId>, b: BlockId)
    requires b < n && b !in seen
    ensures Unseen(n, seen + {b}) < Unseen(n, seen)
  {
    var before := set x: nat | x < n && x !in seen;
    var after := set x: nat | x < n && x !in seen + {b};
    assert after <= before - {b};
    Sets.SubsetSize(after, before - {b});
  }

  // What is left to take on the stack.
  ghost function Left(g: Cfg, stack: seq<Frame>): nat {
    if stack == [] then 0 else
    Left(g, stack[..|stack| - 1]) + FrameLeft(g, stack[|stack| - 1])
  }

  ghost function FrameLeft(g: Cfg, f: Frame): nat {
    if f.1 == 0 then 1 else if f.1 <= |Succs(g, f.0)| then 2 * (|Succs(g, f.0)| - f.1) + 2 else 1
  }

  lemma LeftTop(g: Cfg, front: seq<Frame>, f: Frame)
    ensures Left(g, front + [f]) == Left(g, front) + FrameLeft(g, f)
  {
    assert (front + [f])[..|front|] == front;
  }

  ghost predicate Marked(seen: array<bool>, s: set<BlockId>)
    reads seen
  {
    forall b: nat :: b < seen.Length ==> (seen[b] <==> b in s)
  }

  // The stack: the entered blocks, and the pending one.
  ghost predicate Stacked(stack: seq<Frame>, open: seq<Frame>, pending: Option<BlockId>) {
    stack == if pending.Some? then open + [(pending.value, 0)] else open
  }

  // The state of the search, its open frames inside the graph.
  ghost predicate Going(next: Next, stop: Option<BlockId>, roots: seq<BlockId>, seen: set<BlockId>, open: seq<Frame>,
                        pending: Option<BlockId>, post: seq<BlockId>)
  {
    && Search(GraphOf(next, stop), roots, stop, seen, open, pending, post)
    && (pending.Some? ==> pending.value < |next|)
  }

  lemma TopOf(next: Next, stop: Option<BlockId>, roots: seq<BlockId>, seen: set<BlockId>, open: seq<Frame>,
              post: seq<BlockId>)
    requires Going(next, stop, roots, seen, open, None, post) && open != []
    ensures var (b, i) := open[|open| - 1]; b < |next| && i >= 1 && Succs(GraphOf(next, stop), b) == next[b] && i <= |next[b]|
  {
    hide Reached, Acyclic, PostSettled, OpenSettled, Settled;
    var (b, i) := open[|open| - 1];
    assert b < |next| && !Known(stop, post, b);
  }

  lemma EnteredSuccs(next: Next, stop: Option<BlockId>, roots: seq<BlockId>, seen: set<BlockId>, open: seq<Frame>,
                     post: seq<BlockId>, b: BlockId)
    requires Going(next, stop, roots, seen, open, Some(b), post) && b !in seen
    ensures b < |next| && Succs(GraphOf(next, stop), b) == next[b]
  {
    hide Reached, Acyclic, PostSettled, OpenSettled, Settled;
    assert Known(stop, post, b) ==> b in seen;
  }

  /**
   * One turn: takes the next successor of the top block, or finishes it.
   */
  method Turn(next: Next, stop: Option<BlockId>, ghost roots: seq<BlockId>, seen: array<bool>, ghost s: set<BlockId>,
              stack: seq<Frame>, ghost open: seq<Frame>, ghost pending: Option<BlockId>, post: seq<BlockId>)
    returns (ghost s': set<BlockId>, stack': seq<Frame>, ghost open': seq<Frame>, ghost pending': Option<BlockId>, post': seq<BlockId>)
    requires NextInside(next) && stack != [] && seen.Length == |next| && Marked(seen, s)
    requires Stacked(stack, open, pending) && Going(next, stop, roots, s, open, pending, post)
    modifies seen
    ensures Marked(seen, s') && s <= s' && Stacked(stack', open', pending') && Going(next, stop, roots, s', open', pending', post')
    ensures pending.Some? ==> pending.value in s'
    ensures Unseen(|next|, s') < Unseen(|next|, s) ||
      (s' == s && Left(GraphOf(next, stop), stack') < Left(GraphOf(next, stop), stack))
  {
    hide Search, Left, Unseen, GraphOf;
    var n := |stack| - 1;
    var (b, i) := stack[n];
    ghost var g := GraphOf(next, stop);
    assert stack == stack[..n] + [stack[n]];
    LeftTop(g, stack[..n], stack[n]);
    s', post' := s, post;
    GraphHas(next, stop);
    if i == 0 {
      IsPending(next, stop, roots, s, stack, open, pending, post);
      if seen[b] {
        Skips(g, roots, stop, s, open, b, post);
        stack', open', pending' := stack[..n], open, None;
        return;
      }
      EnteredSuccs(next, stop, roots, s, open, post, b);
      Enters1(g, roots, stop, s, open, b, post);
      SeesOne(|next|, s, b);
      seen[b] := true;
      s' := s + {b};
      open' := open + [(b, 1)];
    } else {
      NotPending(stack, open, pending);
      TopOf(next, stop, roots, s, open, post);
      Resumes(g, roots, stop, s, open, post);
      open' := open[..n] + [(b, i + 1)];
    }
    stack', open', pending', post' := Take(next, stop, roots, s', stack[..n], open', b, i, post);
  }

  // Takes the next successor of an entered block, or finishes it.
  method Take(next: Next, stop: Option<BlockId>, ghost roots: seq<BlockId>, ghost s: set<BlockId>, front: seq<Frame>,
              ghost open: seq<Frame>, b: BlockId, i: nat, post: seq<BlockId>)
    returns (stack': seq<Frame>, ghost open': seq<Frame>, ghost pending': Option<BlockId>, post': seq<BlockId>)
    requires NextInside(next) && b < |next| && open == front + [(b, i + 1)] && i <= |next[b]|
    requires Succs(GraphOf(next, stop), b) == next[b] && Core(GraphOf(next, stop), roots, stop, s, open, post)
    ensures Stacked(stack', open', pending') && Going(next, stop, roots, s, open', pending', post')
    ensures i == 0 || Left(GraphOf(next, stop), stack') < Left(GraphOf(next, stop), front + [(b, i)])
  {
    hide Core, Search, Left, GraphOf;
    ghost var g := GraphOf(next, stop);
    LeftTop(g, front, (b, i));
    if i < |next[b]| {
      var taken := next[b][i];
      stack' := front + [(b, i + 1), (taken, 0)];
      open', pending', post' := open, Some(taken), post;
      assert stack' == (front + [(b, i + 1)]) + [(taken, 0)];
      LeftTop(g, front + [(b, i + 1)], (taken, 0));
      LeftTop(g, front, (b, i + 1));
      assert taken in next[b];
      TakesNext(g, roots, stop, s, open, post, taken);
    } else {
      Finishes(g, roots, stop, s, open, post);
      assert open[..|open| - 1] == front;
      stack', open', pending', post' := front, front, None, post + [b];
    }
  }

  lemma GraphHas(next: Next, stop: Option<BlockId>)
    ensures forall b: nat :: GraphOf(next, stop).Has(b) <==> b < |next|
  {
  }

  lemma IsPending(next: Next, stop: Option<BlockId>, roots: seq<BlockId>, seen: set<BlockId>, stack: seq<Frame>,
                  open: seq<Frame>, pending: Option<BlockId>, post: seq<BlockId>)
    requires Stacked(stack, open, pending) && stack != [] && Going(next, stop, roots, seen, open, pending, post)
    requires stack[|stack| - 1].1 == 0
    ensures pending == Some(stack[|stack| - 1].0) && open == stack[..|stack| - 1]
  {
    hide Reached, Acyclic, PostSettled, OpenSettled, Settled, Members;
    assert forall k :: 0 <= k < |open| ==> open[k].1 >= 1;
  }

  lemma NotPending(stack: seq<Frame>, open: seq<Frame>, pending: Option<BlockId>)
    requires Stacked(stack, open, pending) && stack != [] && stack[|stack| - 1].1 > 0
    ensures pending == None && open == stack
  {
  }

  // The successor just taken is pending.
  lemma TakesNext(g: Cfg, roots: seq<BlockId>, stop: Option<BlockId>, seen: set<BlockId>, open: seq<Frame>,
                  post: seq<BlockId>, s: BlockId)
    requires Core(g, roots, stop, seen, open, post) && open != []
    requires var (b, i) := open[|open| - 1]; 1 <= i <= |Succs(g, b)| && s == Succs(g, b)[i - 1]
    ensures Search(g, roots, stop, seen, open, Some(s), post)
  {
    hide Core;
  }

  /**
   * Lists what the roots reach around `stop`, topologically if the part reached is acyclic.
   */
  method Order(next: Next, roots: seq<BlockId>, stop: Option<BlockId>) returns (out: seq<BlockId>)
    requires NextInside(next) && (forall r :: r in roots ==> r < |next|) && (stop.Some? ==> stop.value < |next|)
    ensures forall i, j :: 0 <= i < j < |out| ==> out[i] != out[j]
    ensures forall b: nat :: b in out <==> Reached(GraphOf(next, stop), roots, b) && Some(b) != stop
    ensures Acyclic(GraphOf(next, stop), roots) ==> Topological(GraphOf(next, stop), roots, stop, out)
  {
    hide Search, GraphOf, Acyclic, Reached;
    ghost var g := GraphOf(next, stop);
    var seen := new bool[|next|](_ => false);
    ghost var s: set<BlockId> := if stop.Some? then {stop.value} else {};
    if stop.Some? {
      seen[stop.value] := true;
    }
    var post: seq<BlockId> := [];
    Starts(g, roots, stop);
    GraphHas(next, stop);
    var r := 0;
    while r < |roots|
      invariant 0 <= r <= |roots| && fresh(seen) && seen.Length == |next| && Marked(seen, s)
      invariant Going(next, stop, roots, s, [], None, post)
      invariant forall i :: 0 <= i < r ==> roots[i] in s
    {
      assert roots[r] in roots;
      StartsRoot(g, roots, stop, s, post, roots[r]);
      var stack: seq<Frame> := [(roots[r], 0)];
      ghost var open: seq<Frame>, pending := [], Some(roots[r]);
      ghost var taken := false;
      while stack != []
        invariant Marked(seen, s) && seen.Length == |next| && Stacked(stack, open, pending)
        invariant Going(next, stop, roots, s, open, pending, post)
        invariant (forall i :: 0 <= i < r ==> roots[i] in s)
        invariant if taken then roots[r] in s else pending == Some(roots[r])
        decreases Unseen(|next|, s), Left(g, stack)
      {
        s, stack, open, pending, post := Turn(next, stop, roots, seen, s, stack, open, pending, post);
        taken := true;
      }
      r := r + 1;
    }
    out := Reversed(post);
    StopSuccs(next, stop);
    assert forall b :: b in roots ==> b in s;
    OrderIs(g, roots, stop, s, post, out);
  }

  lemma StopSuccs(next: Next, stop: Option<BlockId>)
    ensures stop.Some? ==> Succs(GraphOf(next, stop), stop.value) == []
  {
  }

  function Reversed(s: seq<BlockId>): (r: seq<BlockId>)
    ensures |r| == |s| && forall i :: 0 <= i < |r| ==> r[i] == s[|s| - 1 - i]
  {
    if s == [] then [] else Reversed(s[1..]) + [s[0]]
  }

  // -- the labels ------------------------------------------------------------------

  // What the blocks of `from` pushed into `b` make of its label and whether labels met there.
  ghost predicate Tagged(roots: seq<BlockId>, tag: seq<Option<BlockId>>, met: bool, b: BlockId, from: set<BlockId>) {
    if b in roots then TagOf(tag, b) == Some(b) && (met <==> from != {})
    else if exists x, y :: x in from && y in from && TagOf(tag, x) != TagOf(tag, y) then TagOf(tag, b) == Some(b) && met
    else !met && (from == {} ==> TagOf(tag, b) == None) && forall x :: x in from ==> TagOf(tag, b) == TagOf(tag, x)
  }

  function TagOf(tag: seq<Option<BlockId>>, b: BlockId): Option<BlockId> {
    if b < |tag| then tag[b] else None
  }

  // A label comes no later than what it labels.
  ghost predicate Bounded(out: seq<BlockId>, tag: seq<Option<BlockId>>) {
    forall b: nat :: b < |tag| && tag[b].Some? ==> Position(out, tag[b].value) <= Position(out, b)
  }

  // The labels as pushed so far, `from` telling by which blocks.
  ghost predicate Labeling(g: Cfg, roots: seq<BlockId>, out: seq<BlockId>, tag: seq<Option<BlockId>>,
                           joins: seq<BlockId>, from: seq<set<BlockId>>)
  {
    && |tag| == |g.blocks| == |from|
    && (forall b: nat, x :: b < |from| && x in from[b] ==> x in out && x < |tag|)
    && (forall b: nat :: b < |tag| ==> Tagged(roots, tag, b in joins, b, from[b]))
    && Bounded(out, tag)
    && (forall b :: b in joins ==> b < |tag|)
  }

  // The blocks before the `n`-th, and it to some successors, have pushed; their labels are known.
  ghost predicate PushedBy(out: seq<BlockId>, n: nat, tag: seq<Option<BlockId>>, from: seq<set<BlockId>>)
    requires n <= |out|
  {
    && (forall b: nat, x :: b < |from| && x in from[b] ==> x in out[..n])
    && (forall i :: 0 <= i < n ==> out[i] < |tag| && tag[out[i]].Some?)
  }

  // The label a block takes from one pushed to it, and whether the two met.
  function Push(old_: Option<BlockId>, pushed: Option<BlockId>, s: BlockId): (Option<BlockId>, bool) {
    if old_.None? then (pushed, false) else if old_ != pushed then (Some(s), true) else (old_, false)
  }

  lemma PushTagged(roots: seq<BlockId>, tag: seq<Option<BlockId>>, met: bool, s: BlockId, from: set<BlockId>,
                   x: BlockId)
    requires s < |tag| && x < |tag| && (forall y :: y in from ==> y < |tag| && y != s && tag[y].Some?) && x != s
    requires Tagged(roots, tag, met, s, from) && tag[x].Some? && tag[x] != Some(s)
    ensures var (t, meets) := Push(tag[s], tag[x], s); Tagged(roots, tag[s := t], met || meets, s, from + {x})
  {
    var (t, meets) := Push(tag[s], tag[x], s);
    var after := tag[s := t];
    assert forall y :: y in from + {x} ==> TagOf(after, y) == TagOf(tag, y);
    if s !in roots {
      if y, z :| y in from && z in from && TagOf(tag, y) != TagOf(tag, z) {
        assert y in from + {x} && z in from + {x} && TagOf(after, y) != TagOf(after, z);
      } else if from != {} {
        var y := Sets.Pick(from);
        assert TagOf(tag, s) == TagOf(tag, y);
        if tag[y] != tag[x] {
          assert y in from + {x} && x in from + {x} && TagOf(after, y) != TagOf(after, x);
        }
      }
    }
  }

  lemma OthersTagged(roots: seq<BlockId>, tag: seq<Option<BlockId>>, met: bool, b: BlockId, from: set<BlockId>,
                     s: BlockId, t: Option<BlockId>)
    requires s < |tag| && b < |tag| && b != s && (forall y :: y in from ==> y < |tag| && y != s)
    requires Tagged(roots, tag, met, b, from)
    ensures Tagged(roots, tag[s := t], met, b, from)
  {
    var after := tag[s := t];
    assert forall y :: y in from ==> TagOf(after, y) == TagOf(tag, y);
  }

  /** Pushing a block's label along one of its edges. */
  lemma Pushes(g: Cfg, roots: seq<BlockId>, stop: Option<BlockId>, out: seq<BlockId>, n: nat, tag: seq<Option<BlockId>>,
               joins: seq<BlockId>, from: seq<set<BlockId>>, s: BlockId)
    requires Ordered(g, roots, stop, out) && n < |out| && g.Edge(out[n], s) && Reached(g, roots, out[n])
    requires Labeling(g, roots, out, tag, joins, from) && PushedBy(out, n + 1, tag, from)
    ensures var (t, meets) := Push(tag[s], tag[out[n]], s);
      && Labeling(g, roots, out, tag[s := t], if meets then joins + [s] else joins, from[s := from[s] + {out[n]}])
      && PushedBy(out, n + 1, tag[s := t], from[s := from[s] + {out[n]}])
  {
    hide Ordered, Tagged, Reached, Position, Labeling, PushedBy;
    PushFacts(g, roots, out, n, tag, joins, from);
    EdgesAscend(g, roots, stop, out, out[n], s);
    Positions(g, roots, stop, out, n, s);
    PushBounds(g, roots, out, n, tag, joins, from, s);
    PushLabeling(g, roots, out, n, tag, joins, from, s);
    PushSources(g, roots, out, n, tag, joins, from, s);
  }

  lemma PushFacts(g: Cfg, roots: seq<BlockId>, out: seq<BlockId>, n: nat, tag: seq<Option<BlockId>>,
                  joins: seq<BlockId>, from: seq<set<BlockId>>)
    requires Labeling(g, roots, out, tag, joins, from) && n < |out| && PushedBy(out, n + 1, tag, from)
    ensures |tag| == |g.blocks| == |from| && out[n] < |tag| && tag[out[n]].Some?
    ensures Position(out, tag[out[n]].value) <= Position(out, out[n])
  {
    hide Tagged, Position, Bounded;
    BoundedAt(out, tag, out[n]);
  }

  lemma BoundedAt(out: seq<BlockId>, tag: seq<Option<BlockId>>, b: BlockId)
    requires Bounded(out, tag) && b < |tag| && tag[b].Some?
    ensures Position(out, tag[b].value) <= Position(out, b)
  {
  }

  lemma PushBounds(g: Cfg, roots: seq<BlockId>, out: seq<BlockId>, n: nat, tag: seq<Option<BlockId>>,
                   joins: seq<BlockId>, from: seq<set<BlockId>>, s: BlockId)
    requires Labeling(g, roots, out, tag, joins, from) && n < |out| && PushedBy(out, n + 1, tag, from)
    requires s < |tag| && out[n] < |tag| && tag[out[n]].Some? && Position(out, out[n]) < Position(out, s)
    ensures Bounded(out, tag[s := Push(tag[s], tag[out[n]], s).0])
  {
    hide Tagged, Position, Bounded;
    BoundedAt(out, tag, out[n]);
    if tag[s].Some? {
      BoundedAt(out, tag, s);
    }
    BoundedWith(out, tag, s, Push(tag[s], tag[out[n]], s).0);
  }

  lemma BoundedWith(out: seq<BlockId>, tag: seq<Option<BlockId>>, s: BlockId, t: Option<BlockId>)
    requires Bounded(out, tag) && s < |tag| && (t.Some? ==> Position(out, t.value) <= Position(out, s))
    ensures Bounded(out, tag[s := t])
  {
    hide Position;
  }

  lemma PushLabeling(g: Cfg, roots: seq<BlockId>, out: seq<BlockId>, n: nat, tag: seq<Option<BlockId>>,
                     joins: seq<BlockId>, from: seq<set<BlockId>>, s: BlockId)
    requires Labeling(g, roots, out, tag, joins, from) && n < |out| && PushedBy(out, n + 1, tag, from)
    requires s < |tag| && out[n] < |tag| && s !in out[..n + 1] && tag[out[n]].Some? && tag[out[n]] != Some(s)
    requires Bounded(out, tag[s := Push(tag[s], tag[out[n]], s).0])
    ensures var (t, meets) := Push(tag[s], tag[out[n]], s);
      Labeling(g, roots, out, tag[s := t], if meets then joins + [s] else joins, from[s := from[s] + {out[n]}])
  {
    hide Tagged, Bounded, PushedBy;
    var x := out[n];
    var (t, meets) := Push(tag[s], tag[x], s);
    var more, after := if meets then joins + [s] else joins, from[s := from[s] + {x}];
    assert out[n] in out;
    forall b: nat | b < |tag|
      ensures (forall y :: y in after[b] ==> y in out && y < |tag|) && Tagged(roots, tag[s := t], b in more, b, after[b])
    {
      StillTagged(g, roots, out, n, tag, joins, from, s, b);
      TaggedHere(g, roots, out, tag, joins, from, b);
    }
  }

  lemma PushSources(g: Cfg, roots: seq<BlockId>, out: seq<BlockId>, n: nat, tag: seq<Option<BlockId>>,
                    joins: seq<BlockId>, from: seq<set<BlockId>>, s: BlockId)
    requires n < |out| && PushedBy(out, n + 1, tag, from) && |from| == |tag|
    requires s < |tag| && out[n] < |tag| && s !in out[..n + 1] && tag[out[n]].Some?
    ensures PushedBy(out, n + 1, tag[s := Push(tag[s], tag[out[n]], s).0], from[s := from[s] + {out[n]}])
  {
    assert out[n] in out[..n + 1] by {
      assert out[..n + 1][n] == out[n];
    }
    var after := from[s := from[s] + {out[n]}];
    forall b: nat, y | b < |after| && y in after[b] ensures y in out[..n + 1] {
      assert b == s || after[b] == from[b];
    }
    forall i | 0 <= i < n + 1 ensures out[i] != s {
      assert out[..n + 1][i] == out[i];
    }
  }

  lemma StillTagged(g: Cfg, roots: seq<BlockId>, out: seq<BlockId>, n: nat, tag: seq<Option<BlockId>>,
                    joins: seq<BlockId>, from: seq<set<BlockId>>, s: BlockId, b: BlockId)
    requires Labeling(g, roots, out, tag, joins, from) && n < |out| && PushedBy(out, n + 1, tag, from)
    requires s < |tag| && b < |tag| && out[n] < |tag| && s !in out[..n + 1] && tag[out[n]].Some? && tag[out[n]] != Some(s)
    ensures var (t, meets) := Push(tag[s], tag[out[n]], s);
      var after := if b == s then from[b] + {out[n]} else from[b];
      && (forall y :: y in after ==> y < |tag|)
      && Tagged(roots, tag[s := t], b in (if meets then joins + [s] else joins), b, after)
  {
    hide Tagged, Position;
    var x := out[n];
    var (t, meets) := Push(tag[s], tag[x], s);
    TaggedHere(g, roots, out, tag, joins, from, b);
    forall y | y in from[b] ensures y != s && tag[y].Some? {
      assert y in out[..n + 1];
      var i :| 0 <= i < n + 1 && out[..n + 1][i] == y;
      assert out[i] == y;
    }
    assert out[n] in out[..n + 1];
    if b == s {
      PushTagged(roots, tag, s in joins, s, from[s], x);
    } else {
      OthersTagged(roots, tag, b in joins, b, from[b], s, t);
    }
  }

  // Where an edge leads is after the blocks up to its source.
  lemma Positions(g: Cfg, roots: seq<BlockId>, stop: Option<BlockId>, out: seq<BlockId>, n: nat, s: BlockId)
    requires Ordered(g, roots, stop, out) && n < |out| && Position(out, out[n]) < Position(out, s)
    ensures Position(out, out[n]) == n && s !in out[..n + 1]
  {
    OrderDistinct(g, roots, stop, out);
    PositionIs(out, n);
    var front := out[..n + 1];
    forall i | 0 <= i < |front| ensures front[i] != s {
      PositionIs(out, i);
    }
  }

  ghost predicate DistinctIn(out: seq<BlockId>) {
    forall i, j :: 0 <= i < j < |out| ==> out[i] != out[j]
  }

  lemma OrderDistinct(g: Cfg, roots: seq<BlockId>, stop: Option<BlockId>, out: seq<BlockId>)
    requires Ordered(g, roots, stop, out)
    ensures DistinctIn(out)
  {
  }

  lemma PositionIs(out: seq<BlockId>, i: nat)
    requires DistinctIn(out) && i < |out|
    ensures Position(out, out[i]) == i
  {
    assert out[i] in out;
  }

  // Every edge into `b` from a block before the `n`-th is in `from`.
  ghost predicate Complete(g: Cfg, out: seq<BlockId>, n: nat, from: seq<set<BlockId>>)
    requires n <= |out|
  {
    |from| == |g.blocks| && forall b: nat, x: nat :: b < |from| ==> (x in from[b] <==> x in out[..n] && g.Edge(x, b))
  }

  /** When a block's turn comes its label is known. */
  lemma TurnKnown(g: Cfg, roots: seq<BlockId>, stop: Option<BlockId>, out: seq<BlockId>, n: nat,
                  tag: seq<Option<BlockId>>, joins: seq<BlockId>, from: seq<set<BlockId>>)
    requires Ordered(g, roots, stop, out) && n < |out| && Complete(g, out, n, from)
    requires Labeling(g, roots, out, tag, joins, from) && PushedBy(out, n, tag, from)
    ensures g.Has(out[n]) && Reached(g, roots, out[n]) && tag[out[n]].Some? && PushedBy(out, n + 1, tag, from)
  {
    hide Tagged, Ordered, Reached, Complete;
    var b := out[n];
    assert b in out;
    InOrder(g, roots, stop, out, b);
    ReachedHas(g, roots, b);
    TaggedHere(g, roots, out, tag, joins, from, b);
    if b in roots {
      TaggedRoot(roots, tag, b in joins, b, from[b]);
    } else {
      var y := EarlierFrom(g, roots, stop, out, n, from);
      TaggedFrom(roots, tag, b in joins, b, from[b], y);
    }
    NextPushed(out, n, tag, from);
  }

  lemma TaggedHere(g: Cfg, roots: seq<BlockId>, out: seq<BlockId>, tag: seq<Option<BlockId>>, joins: seq<BlockId>,
                   from: seq<set<BlockId>>, b: BlockId)
    requires Labeling(g, roots, out, tag, joins, from) && g.Has(b)
    ensures |tag| == |g.blocks| == |from| && forall x :: x in from[b] ==> x in out && x < |tag|
    ensures Tagged(roots, tag, b in joins, b, from[b])
  {
    hide Tagged;
  }

  // A block with no root's label has a predecessor whose turn came before.
  lemma EarlierFrom(g: Cfg, roots: seq<BlockId>, stop: Option<BlockId>, out: seq<BlockId>, n: nat,
                    from: seq<set<BlockId>>)
    returns (y: BlockId)
    requires Ordered(g, roots, stop, out) && n < |out| && Complete(g, out, n, from) && out[n] !in roots
    requires Reached(g, roots, out[n]) && g.Has(out[n])
    ensures y in from[out[n]] && y in out[..n]
  {
    hide Ordered, Reached;
    y := EntersBy(g, roots, out[n]);
    EdgesAscend(g, roots, stop, out, y, out[n]);
    OrderDistinct(g, roots, stop, out);
    PositionIs(out, n);
    var i := Position(out, y);
    assert out[..n][i] == y;
  }

  lemma NextPushed(out: seq<BlockId>, n: nat, tag: seq<Option<BlockId>>, from: seq<set<BlockId>>)
    requires n < |out| && PushedBy(out, n, tag, from) && out[n] < |tag| && tag[out[n]].Some?
    ensures PushedBy(out, n + 1, tag, from)
  {
    assert out[..n + 1] == out[..n] + [out[n]];
    forall b: nat, x | b < |from| && x in from[b] ensures x in out[..n + 1] {
      assert x in out[..n];
    }
  }

  lemma ReachedHas(g: Cfg, roots: seq<BlockId>, b: BlockId)
    requires Reached(g, roots, b)
    ensures g.Has(b)
  {
  }

  lemma TaggedRoot(roots: seq<BlockId>, tag: seq<Option<BlockId>>, met: bool, b: BlockId, from: set<BlockId>)
    requires b < |tag| && (forall x :: x in from ==> x < |tag|) && Tagged(roots, tag, met, b, from) && b in roots
    ensures tag[b] == Some(b)
  {
  }

  lemma TaggedFrom(roots: seq<BlockId>, tag: seq<Option<BlockId>>, met: bool, b: BlockId, from: set<BlockId>,
                   y: BlockId)
    requires b < |tag| && (forall x :: x in from ==> x < |tag|) && Tagged(roots, tag, met, b, from)
    requires y in from && tag[y].Some?
    ensures tag[b].Some?
  {
  }

  /** After every block's turn the labels are those of the graph, and the joins where they meet. */
  lemma AllPushed(g: Cfg, roots: seq<BlockId>, stop: Option<BlockId>, out: seq<BlockId>, tag: seq<Option<BlockId>>,
                  joins: seq<BlockId>, from: seq<set<BlockId>>)
    requires Ordered(g, roots, stop, out) && Complete(g, out, |out|, from) && forall r :: r in roots ==> g.Has(r)
    requires Labeling(g, roots, out, tag, joins, from) && PushedBy(out, |out|, tag, from)
    ensures Labeled(g, roots, tag)
    ensures forall b: nat :: b in joins <==> g.Has(b) && Meets(g, roots, tag, b)
  {
    hide Reached;
    assert out[..|out|] == out;
    forall b: nat | g.Has(b)
      ensures (tag[b].Some? <==> Reached(g, roots, b)) && (b in joins <==> Meets(g, roots, tag, b))
      ensures b in roots || Differ(g, roots, tag, b) ==> tag[b] == Some(b)
      ensures forall x: nat :: b !in roots && !Differ(g, roots, tag, b) && Enters(g, roots, x, b) ==> tag[b] == tag[x]
    {
      BlockPushed(g, roots, stop, out, tag, joins, from, b);
    }
  }

  lemma BlockPushed(g: Cfg, roots: seq<BlockId>, stop: Option<BlockId>, out: seq<BlockId>, tag: seq<Option<BlockId>>,
                    joins: seq<BlockId>, from: seq<set<BlockId>>, b: BlockId)
    requires Ordered(g, roots, stop, out) && Complete(g, out, |out|, from) && g.Has(b)
    requires Labeling(g, roots, out, tag, joins, from) && PushedBy(out, |out|, tag, from)
    ensures (tag[b].Some? <==> Reached(g, roots, b)) && (b in joins <==> Meets(g, roots, tag, b))
    ensures b in roots || Differ(g, roots, tag, b) ==> tag[b] == Some(b)
    ensures forall x: nat :: b !in roots && !Differ(g, roots, tag, b) && Enters(g, roots, x, b) ==> tag[b] == tag[x]
  {
    hide Reached, Ordered;
    assert out[..|out|] == out;
    forall x: nat ensures x in from[b] <==> Enters(g, roots, x, b) {
      if Enters(g, roots, x, b) {
        EdgesAscend(g, roots, stop, out, x, b);
      } else if x in from[b] {
        InOrder(g, roots, stop, out, x);
      }
    }
    assert Tagged(roots, tag, b in joins, b, from[b]);
    if b in roots {
      RootReached(g, roots, b);
    } else if Reached(g, roots, b) {
      var y := EntersBy(g, roots, b);
      var i :| 0 <= i < |out| && out[i] == y;
      TaggedFrom(roots, tag, b in joins, b, from[b], y);
    } else {
      forall x: nat ensures !Enters(g, roots, x, b) {
        if Enters(g, roots, x, b) {
          ReachedStep(g, roots, x, b);
        }
      }
      assert from[b] == {};
    }
  }

  lemma InOrder(g: Cfg, roots: seq<BlockId>, stop: Option<BlockId>, out: seq<BlockId>, x: BlockId)
    requires Ordered(g, roots, stop, out) && x in out
    ensures Reached(g, roots, x)
  {
    hide Reached;
  }

  lemma NothingPushed(g: Cfg, roots: seq<BlockId>, out: seq<BlockId>, tag: seq<Option<BlockId>>)
    requires |tag| == |g.blocks| && forall b: nat :: b < |tag| ==> tag[b] == if b in roots then Some(b) else None
    ensures var from := seq(|tag|, _ => {});
      Labeling(g, roots, out, tag, [], from) && PushedBy(out, 0, tag, from) && Complete(g, out, 0, from)
  {
  }

  // The edges of the block whose turn it is, up to the `j`-th, are in `from`.
  ghost predicate Partly(g: Cfg, out: seq<BlockId>, n: nat, j: nat, from: seq<set<BlockId>>)
    requires n < |out|
  {
    |from| == |g.blocks| && forall b: nat, x: nat :: b < |from| ==>
      (x in from[b] <==> (x in out[..n] && g.Edge(x, b)) || (x == out[n] && b in Succs(g, x)[..Least(j, |Succs(g, x)|)]))
  }

  function Least(x: nat, y: nat): nat {
    if x < y then x else y
  }

  lemma PartlyStarts(g: Cfg, out: seq<BlockId>, n: nat, from: seq<set<BlockId>>)
    requires n < |out| && Complete(g, out, n, from)
    ensures Partly(g, out, n, 0, from)
  {
  }

  lemma PartlyNext(g: Cfg, out: seq<BlockId>, n: nat, j: nat, from: seq<set<BlockId>>)
    requires n < |out| && Partly(g, out, n, j, from) && j < |Succs(g, out[n])| && Succs(g, out[n])[j] < |from|
    ensures var s := Succs(g, out[n])[j]; Partly(g, out, n, j + 1, from[s := from[s] + {out[n]}])
  {
    var succs := Succs(g, out[n]);
    assert succs[..j + 1] == succs[..j] + [succs[j]];
  }

  lemma PartlyEnds(g: Cfg, out: seq<BlockId>, n: nat, from: seq<set<BlockId>>)
    requires n < |out| && Partly(g, out, n, |Succs(g, out[n])|, from)
    ensures Complete(g, out, n + 1, from)
  {
    var succs := Succs(g, out[n]);
    assert succs[..|succs|] == succs;
    assert out[..n + 1] == out[..n] + [out[n]];
  }

  /**
   * Labels pushed from `succs` along an acyclic graph, around `stop`: each block's own label, and the sorted blocks at
   * which two labels arrive.
   */
  method Labels(next: Next, stop: BlockId, succs: seq<BlockId>)
    returns (tag: seq<Option<BlockId>>, joins: seq<BlockId>, ghost out: seq<BlockId>)
    requires NextInside(next) && (forall s :: s in succs ==> s < |next|) && stop < |next|
    ensures |tag| == |next|
    ensures Acyclic(GraphOf(next, Some(stop)), succs) ==>
      && Ordered(GraphOf(next, Some(stop)), succs, Some(stop), out) && Labeled(GraphOf(next, Some(stop)), succs, tag)
      && forall b: nat :: b in joins <==> b < |next| && Meets(GraphOf(next, Some(stop)), succs, tag, b)
    ensures forall i, j :: 0 <= i < j < |joins| ==> joins[i] < joins[j]
  {
    hide Acyclic, Reached, Tagged, Labeling, PushedBy, Complete, Partly, Ordered, Topological, Labeled, GraphOf, Meets;
    ghost var g := GraphOf(next, Some(stop));
    ghost var sound := Acyclic(g, succs);
    GraphHas(next, Some(stop));
    GraphSize(next, Some(stop));
    var order := Order(next, succs, Some(stop));
    out := order;
    if sound {
      IsOrdered(next, stop, succs, out);
    }
    tag := seq(|next|, i requires 0 <= i < |next| => if i in succs then Some(i) else None);
    var pushes: seq<BlockId> := [];
    ghost var from: seq<set<BlockId>> := seq(|tag|, _ => {});
    NothingPushed(g, succs, out, tag);
    var n := 0;
    while n < |order|
      invariant 0 <= n <= |order| && |tag| == |next| == |from|
      invariant sound ==> Labeling(g, succs, out, tag, pushes, from) && PushedBy(out, n, tag, from) && Complete(g, out, n, from)
    {
      var x := order[n];
      assert x in order;
      ReachedHas(g, succs, x);
      if sound {
        TurnKnown(g, succs, Some(stop), out, n, tag, pushes, from);
        PartlyStarts(g, out, n, from);
        NotStop(next, stop, succs, out, n);
      }
      var pushed := tag[x];
      var j := 0;
      while j < |next[x]|
        invariant 0 <= j <= |next[x]| && |tag| == |next| == |from|
        invariant sound ==> tag[x] == pushed && Labeling(g, succs, out, tag, pushes, from) && PushedBy(out, n + 1, tag, from)
        invariant sound ==> Partly(g, out, n, j, from)
      {
        var s := next[x][j];
        assert s in next[x];
        if sound {
          Pushes(g, succs, Some(stop), out, n, tag, pushes, from, s);
          PartlyNext(g, out, n, j, from);
          NotItself(g, succs, Some(stop), out, n, s);
        }
        if tag[s].None? {
          tag := tag[s := pushed];
        } else if tag[s] != pushed {
          tag := tag[s := Some(s)];
          pushes := pushes + [s];
        } else {
          assert tag[s := tag[s]] == tag;
        }
        from := from[s := from[s] + {x}];
        j := j + 1;
      }
      if sound {
        PartlyEnds(g, out, n, from);
      }
      n := n + 1;
    }
    if sound {
      AllPushed(g, succs, Some(stop), out, tag, pushes, from);
    }
    joins := Sorting.Sorted(pushes);
  }

  lemma GraphSize(next: Next, stop: Option<BlockId>)
    ensures |GraphOf(next, stop).blocks| == |next|
  {
  }

  lemma IsOrdered(next: Next, stop: BlockId, roots: seq<BlockId>, out: seq<BlockId>)
    requires Topological(GraphOf(next, Some(stop)), roots, Some(stop), out)
    ensures Ordered(GraphOf(next, Some(stop)), roots, Some(stop), out)
  {
    hide Topological;
  }

  lemma NotStop(next: Next, stop: BlockId, roots: seq<BlockId>, out: seq<BlockId>, n: nat)
    requires n < |out| && Ordered(GraphOf(next, Some(stop)), roots, Some(stop), out) && out[n] < |next| && NextInside(next)
    ensures Succs(GraphOf(next, Some(stop)), out[n]) == next[out[n]]
    ensures forall s :: s in next[out[n]] ==> s < |next| && GraphOf(next, Some(stop)).Edge(out[n], s)
  {
    hide Reached;
    assert out[n] in out;
  }

  lemma NotItself(g: Cfg, roots: seq<BlockId>, stop: Option<BlockId>, out: seq<BlockId>, n: nat, s: BlockId)
    requires Ordered(g, roots, stop, out) && n < |out| && g.Edge(out[n], s)
    ensures s != out[n]
  {
  }
}
