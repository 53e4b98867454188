/** Labels over an acyclic graph: what they say of the paths from its roots. */
module LabelPaths {
  import opened Wrappers
  import opened Graphs

  // Where each block passes its label on to.
  type Next = seq<seq<BlockId>>

  // The graph of these edges but those out of `stop`, where a path stops.
  function GraphOf(next: Next, stop: Option<BlockId>): Cfg {
    Cfg(seq(|next|, i requires 0 <= i < |next| => Block(0, 0, if stop == Some(i) then [] else next[i], [])))
  }

  ghost predicate NextInside(next: Next) {
    forall b, s :: 0 <= b < |next| && s in next[b] ==> s < |next|
  }

  ghost predicate FromRoots(g: Cfg, roots: seq<BlockId>, b: BlockId, p: seq<BlockId>) {
    IsPath(g, p) && p[0] in roots && p[|p| - 1] == b
  }

  ghost predicate Reached(g: Cfg, roots: seq<BlockId>, b: BlockId) {
    exists p :: FromRoots(g, roots, b, p)
  }

  ghost predicate OnEvery(g: Cfg, roots: seq<BlockId>, d: BlockId, b: BlockId) {
    forall p :: FromRoots(g, roots, b, p) ==> d in p
  }

  // The blocks reached but `stop`, each once and after every block with an edge to it.
  ghost predicate Topological(g: Cfg, roots: seq<BlockId>, stop: Option<BlockId>, out: seq<BlockId>) {
    && (forall i, j :: 0 <= i < j < |out| ==> out[i] != out[j])
    && (forall b: nat :: b in out <==> Reached(g, roots, b) && Some(b) != stop)
    && (forall i, j :: 0 <= i < |out| && 0 <= j < |out| && g.Edge(out[i], out[j]) ==> i < j)
  }

  lemma RootReached(g: Cfg, roots: seq<BlockId>, b: BlockId)
    requires b in roots && g.Has(b)
    ensures Reached(g, roots, b)
  {
    assert FromRoots(g, roots, b, [b]);
  }

  lemma ReachedNext(g: Cfg, roots: seq<BlockId>, b: BlockId, s: BlockId, p: seq<BlockId>)
    requires FromRoots(g, roots, b, p) && g.Edge(b, s)
    ensures FromRoots(g, roots, s, p + [s])
  {
    PathExtend(g, p[0], b, s, p);
  }

  lemma ReachedStep(g: Cfg, roots: seq<BlockId>, b: BlockId, s: BlockId)
    requires Reached(g, roots, b) && g.Edge(b, s)
    ensures Reached(g, roots, s)
  {
    var p :| FromRoots(g, roots, b, p);
    ReachedNext(g, roots, b, s, p);
  }

  // A path of more than one block without its last.
  lemma Shorter(g: Cfg, roots: seq<BlockId>, b: BlockId, p: seq<BlockId>)
    requires FromRoots(g, roots, b, p) && |p| > 1
    ensures g.Edge(p[|p| - 2], b) && FromRoots(g, roots, p[|p| - 2], p[..|p| - 1]) && p == p[..|p| - 1] + [b]
  {
    PathSlice(g, p, 0, |p| - 1);
    assert p[0..|p| - 1] == p[..|p| - 1];
    assert g.Edge(p[|p| - 2], p[|p| - 2 + 1]);
  }

  /**
   * What the labels satisfy: a root labels itself, a block all of whose reached predecessors share a label takes it,
   * and one two of whose differ labels itself.
   */
  ghost predicate Labeled(g: Cfg, roots: seq<BlockId>, tag: seq<Option<BlockId>>) {
    && |tag| == |g.blocks|
    && (forall b: nat :: g.Has(b) ==> (tag[b].Some? <==> Reached(g, roots, b)))
    && (forall b: nat :: g.Has(b) && b in roots ==> tag[b] == Some(b))
    && (forall b: nat :: g.Has(b) && b !in roots && Differ(g, roots, tag, b) ==> tag[b] == Some(b))
    && (forall b: nat, x: nat :: g.Has(b) && b !in roots && !Differ(g, roots, tag, b) && Enters(g, roots, x, b) ==>
          tag[b] == tag[x])
  }

  lemma LabelFacts(g: Cfg, roots: seq<BlockId>, tag: seq<Option<BlockId>>, b: BlockId)
    requires Labeled(g, roots, tag) && g.Has(b)
    ensures |tag| == |g.blocks| && (tag[b].Some? <==> Reached(g, roots, b))
    ensures b in roots || Differ(g, roots, tag, b) ==> tag[b] == Some(b)
    ensures forall x: nat :: b !in roots && !Differ(g, roots, tag, b) && Enters(g, roots, x, b) ==> tag[b] == tag[x]
  {
    hide Differ, Enters, Reached;
    if b in roots {
      assert tag[b] == Some(b);
    }
  }

  lemma RootPath(g: Cfg, roots: seq<BlockId>, b: BlockId)
    requires b in roots && g.Has(b)
    ensures FromRoots(g, roots, b, [b])
  {
  }

  lemma PathFacts(g: Cfg, roots: seq<BlockId>, b: BlockId, p: seq<BlockId>)
    requires FromRoots(g, roots, b, p)
    ensures |p| >= 1 && p[0] in roots && p[|p| - 1] == b && Reached(g, roots, b) && g.Has(b)
  {
  }

  lemma EntersFacts(g: Cfg, roots: seq<BlockId>, x: BlockId, b: BlockId)
    requires Enters(g, roots, x, b)
    ensures g.Edge(x, b) && Reached(g, roots, x) && g.Has(x) && g.Has(b)
  {
  }

  ghost predicate Enters(g: Cfg, roots: seq<BlockId>, x: BlockId, b: BlockId) {
    g.Edge(x, b) && Reached(g, roots, x)
  }

  // Two reached predecessors of `b` have different labels.
  ghost predicate Differ(g: Cfg, roots: seq<BlockId>, tag: seq<Option<BlockId>>, b: BlockId)
    requires |tag| == |g.blocks|
  {
    exists x: nat, y: nat :: Enters(g, roots, x, b) && Enters(g, roots, y, b) && tag[x] != tag[y]
  }

  // A block two labels meet at.
  ghost predicate Meets(g: Cfg, roots: seq<BlockId>, tag: seq<Option<BlockId>>, b: BlockId)
    requires |tag| == |g.blocks|
  {
    if b in roots then exists x: nat :: Enters(g, roots, x, b) else Differ(g, roots, tag, b)
  }

  // The position of a block in the order, `stop` last.
  ghost function Position(out: seq<BlockId>, b: BlockId): (i: nat)
    ensures i <= |out| && (b in out ==> i < |out| && out[i] == b) && (b !in out ==> i == |out|)
  {
    if b in out then (var i :| 0 <= i < |out| && out[i] == b; i) else |out|
  }

  // The order, and what every edge between reached blocks keeps.
  ghost predicate Ordered(g: Cfg, roots: seq<BlockId>, stop: Option<BlockId>, out: seq<BlockId>) {
    && Topological(g, roots, stop, out)
    && (stop.Some? && g.Has(stop.value) ==> g.blocks[stop.value].succs == [])
  }

  lemma EdgesAscend(g: Cfg, roots: seq<BlockId>, stop: Option<BlockId>, out: seq<BlockId>, x: BlockId, b: BlockId)
    requires Ordered(g, roots, stop, out) && Enters(g, roots, x, b)
    ensures x in out && Position(out, x) < Position(out, b)
  {
    ReachedStep(g, roots, x, b);
    assert Some(x) != stop;
    if b in out {
      assert g.Edge(out[Position(out, x)], out[Position(out, b)]);
    }
  }

  lemma {:induction false} PathAscends(g: Cfg, roots: seq<BlockId>, stop: Option<BlockId>, out: seq<BlockId>,
                                       b: BlockId, p: seq<BlockId>, x: BlockId)
    requires Ordered(g, roots, stop, out) && FromRoots(g, roots, b, p) && x in p && x != b
    ensures x in out && Position(out, x) < Position(out, b)
    decreases |p|
  {
    if |p| > 1 {
      Shorter(g, roots, b, p);
      var q, y := p[..|p| - 1], p[|p| - 2];
      EdgesAscend(g, roots, stop, out, y, b);
      assert x in q;
      if x != y {
        PathAscends(g, roots, stop, out, y, q, x);
      }
    }
  }

  lemma EntersBy(g: Cfg, roots: seq<BlockId>, b: BlockId) returns (x: BlockId)
    requires Reached(g, roots, b) && b !in roots
    ensures Enters(g, roots, x, b)
  {
    var p :| FromRoots(g, roots, b, p);
    Shorter(g, roots, b, p);
    x := p[|p| - 2];
    assert Reached(g, roots, x);
  }

  /** The label of a block lies on every path to it. */
  lemma {:induction false} LabelOnEvery(g: Cfg, roots: seq<BlockId>, stop: Option<BlockId>, out: seq<BlockId>,
                                        tag: seq<Option<BlockId>>, b: BlockId, p: seq<BlockId>)
    requires Ordered(g, roots, stop, out) && Labeled(g, roots, tag) && FromRoots(g, roots, b, p)
    ensures tag[b].Some? && tag[b].value in p
    decreases |p|
  {
    assert g.Has(b) && Reached(g, roots, b);
    if tag[b] != Some(b) {
      assert b !in roots && !Differ(g, roots, tag, b);
      if |p| > 1 {
        Shorter(g, roots, b, p);
        var y := p[|p| - 2];
        assert Enters(g, roots, y, b);
        LabelOnEvery(g, roots, stop, out, tag, y, p[..|p| - 1]);
      }
    }
  }

  /** A label labels itself. */
  lemma {:induction false} LabelIsOwn(g: Cfg, roots: seq<BlockId>, stop: Option<BlockId>, out: seq<BlockId>,
                                      tag: seq<Option<BlockId>>, b: BlockId)
    requires Ordered(g, roots, stop, out) && Labeled(g, roots, tag) && g.Has(b) && Reached(g, roots, b)
    ensures tag[b].Some? && g.Has(tag[b].value) && Reached(g, roots, tag[b].value)
    ensures tag[tag[b].value] == tag[b]
    decreases Position(out, b)
  {
    if tag[b] != Some(b) {
      var x := EntersBy(g, roots, b);
      EdgesAscend(g, roots, stop, out, x, b);
      LabelIsOwn(g, roots, stop, out, tag, x);
    }
  }

  ghost predicate Apart(p: seq<BlockId>, q: seq<BlockId>) {
    forall x :: x in p ==> x !in q
  }

  /** Two blocks of different labels are reached by paths with no block in common. */
  lemma {:induction false} LabelsApart(g: Cfg, roots: seq<BlockId>, stop: Option<BlockId>, out: seq<BlockId>,
                                       tag: seq<Option<BlockId>>, x: BlockId, y: BlockId) returns (p: seq<BlockId>,
                                       q: seq<BlockId>)
    requires Ordered(g, roots, stop, out) && Labeled(g, roots, tag) && g.Has(x) && g.Has(y)
    requires Reached(g, roots, x) && Reached(g, roots, y) && tag[x] != tag[y]
    ensures FromRoots(g, roots, x, p) && FromRoots(g, roots, y, q) && Apart(p, q)
    decreases Position(out, x) + Position(out, y)
  {
    if Position(out, x) <= Position(out, y) {
      p, q := LaterApart(g, roots, stop, out, tag, x, y);
    } else {
      q, p := LaterApart(g, roots, stop, out, tag, y, x);
    }
  }

  // The same, `y` not before `x`.
  lemma {:induction false} LaterApart(g: Cfg, roots: seq<BlockId>, stop: Option<BlockId>, out: seq<BlockId>,
                                      tag: seq<Option<BlockId>>, x: BlockId, y: BlockId) returns (p: seq<BlockId>,
                                      q: seq<BlockId>)
    requires Ordered(g, roots, stop, out) && Labeled(g, roots, tag) && g.Has(x) && g.Has(y)
    requires Reached(g, roots, x) && Reached(g, roots, y) && tag[x] != tag[y] && Position(out, x) <= Position(out, y)
    ensures FromRoots(g, roots, x, p) && FromRoots(g, roots, y, q) && Apart(p, q)
    decreases Position(out, x) + Position(out, y), 0
  {
    hide Ordered, Labeled, FromRoots, Reached, Differ;
    if y in roots {
      p := APath(g, roots, x);
      q := [y];
      RootPath(g, roots, y);
      NotOnPath(g, roots, stop, out, x, y, p);
    } else {
      var z := OtherLabel(g, roots, tag, x, y);
      EntersFacts(g, roots, z, y);
      EdgesAscend(g, roots, stop, out, z, y);
      var q0: seq<BlockId>;
      p, q0 := LabelsApart(g, roots, stop, out, tag, x, z);
      ReachedNext(g, roots, z, y, q0);
      NotOnPath(g, roots, stop, out, x, y, p);
      q := q0 + [y];
    }
  }

  // A predecessor of `y` labelled otherwise than `x`.
  lemma OtherLabel(g: Cfg, roots: seq<BlockId>, tag: seq<Option<BlockId>>, x: BlockId, y: BlockId) returns (z: BlockId)
    requires Labeled(g, roots, tag) && g.Has(x) && g.Has(y) && Reached(g, roots, y) && tag[x] != tag[y] && y !in roots
    ensures Enters(g, roots, z, y) && tag[z] != tag[x]
  {
    if Differ(g, roots, tag, y) {
      var a: nat, b: nat :| Enters(g, roots, a, y) && Enters(g, roots, b, y) && tag[a] != tag[b];
      z := if tag[a] != tag[x] then a else b;
    } else {
      z := EntersBy(g, roots, y);
    }
  }

  // A path to an earlier block does not pass a later one.
  lemma NotOnPath(g: Cfg, roots: seq<BlockId>, stop: Option<BlockId>, out: seq<BlockId>, x: BlockId, y: BlockId,
                  p: seq<BlockId>)
    requires Ordered(g, roots, stop, out) && FromRoots(g, roots, x, p) && x != y && Position(out, x) <= Position(out, y)
    ensures y !in p
  {
    if y in p {
      PathAscends(g, roots, stop, out, x, p, y);
    }
  }

  /**
   * The label of a block is the block nearest the roots on every path to it: it lies on each, and no other block lies
   * on every path to it.
   */
  lemma LabelIsNearest(g: Cfg, roots: seq<BlockId>, stop: Option<BlockId>, out: seq<BlockId>, tag: seq<Option<BlockId>>,
                       b: BlockId, d: BlockId)
    requires Ordered(g, roots, stop, out) && Labeled(g, roots, tag) && g.Has(b) && g.Has(d)
    ensures tag[b] == Some(d) <==>
      && Reached(g, roots, b) && OnEvery(g, roots, d, b)
      && Reached(g, roots, d) && forall e :: OnEvery(g, roots, e, d) ==> e == d
  {
    hide Ordered, Labeled, FromRoots, Reached;
    LabelFacts(g, roots, tag, b);
    if Reached(g, roots, b) {
      LabelIsOwn(g, roots, stop, out, tag, b);
      var l := tag[b].value;
      forall p | FromRoots(g, roots, b, p) ensures l in p {
        LabelOnEvery(g, roots, stop, out, tag, b, p);
      }
      forall e | OnEvery(g, roots, e, l) ensures e == l {
        AloneOnEvery(g, roots, stop, out, tag, l, e);
      }
      if OnEvery(g, roots, d, b) && Reached(g, roots, d) && forall e :: OnEvery(g, roots, e, d) ==> e == d {
        OwnIfAlone(g, roots, stop, out, tag, d);
        TwoOwn(g, roots, stop, out, tag, b, d);
      }
    }
  }

  // A block with no other on every path to it labels itself.
  lemma OwnIfAlone(g: Cfg, roots: seq<BlockId>, stop: Option<BlockId>, out: seq<BlockId>, tag: seq<Option<BlockId>>,
                   d: BlockId)
    requires Ordered(g, roots, stop, out) && Labeled(g, roots, tag) && g.Has(d) && Reached(g, roots, d)
    requires forall e :: OnEvery(g, roots, e, d) ==> e == d
    ensures tag[d] == Some(d)
  {
    hide Ordered, Labeled, FromRoots, Reached;
    LabelFacts(g, roots, tag, d);
    var l := tag[d].value;
    forall p | FromRoots(g, roots, d, p) ensures l in p {
      LabelOnEvery(g, roots, stop, out, tag, d, p);
    }
    assert OnEvery(g, roots, l, d);
  }

  // Only a block that labels itself itself is on every path to it.
  lemma AloneOnEvery(g: Cfg, roots: seq<BlockId>, stop: Option<BlockId>, out: seq<BlockId>, tag: seq<Option<BlockId>>,
                     l: BlockId, e: BlockId)
    requires Ordered(g, roots, stop, out) && Labeled(g, roots, tag) && g.Has(l) && Reached(g, roots, l)
    requires tag[l] == Some(l) && OnEvery(g, roots, e, l)
    ensures e == l
  {
    hide Ordered, Labeled, FromRoots, Reached, Differ, Enters;
    LabelFacts(g, roots, tag, l);
    if l in roots {
      RootPath(g, roots, l);
      assert e in [l];
    } else if Differ(g, roots, tag, l) {
      var p, q := TwoApart(g, roots, stop, out, tag, l);
      assert e in p + [l] && e in q + [l];
    } else {
      var x := EntersBy(g, roots, l);
      EntersFacts(g, roots, x, l);
      EdgesAscend(g, roots, stop, out, x, l);
      var p := APath(g, roots, x);
      LabelOnEvery(g, roots, stop, out, tag, x, p);
      if l != x {
        PathAscends(g, roots, stop, out, x, p, l);
      }
    }
  }

  lemma APath(g: Cfg, roots: seq<BlockId>, b: BlockId) returns (p: seq<BlockId>)
    requires Reached(g, roots, b)
    ensures FromRoots(g, roots, b, p)
  {
    p :| FromRoots(g, roots, b, p);
  }

  // Paths to two predecessors of different labels.
  lemma TwoApart(g: Cfg, roots: seq<BlockId>, stop: Option<BlockId>, out: seq<BlockId>, tag: seq<Option<BlockId>>,
                 b: BlockId)
    returns (p: seq<BlockId>, q: seq<BlockId>)
    requires Ordered(g, roots, stop, out) && Labeled(g, roots, tag) && g.Has(b) && Differ(g, roots, tag, b)
    ensures FromRoots(g, roots, b, p + [b]) && FromRoots(g, roots, b, q + [b]) && Apart(p, q) && p != [] && q != []
  {
    var x: nat, y: nat :| Enters(g, roots, x, b) && Enters(g, roots, y, b) && tag[x] != tag[y];
    p, q := LabelsApart(g, roots, stop, out, tag, x, y);
    ReachedNext(g, roots, x, b, p);
    ReachedNext(g, roots, y, b, q);
  }

  // Two blocks that label themselves are not both on every path to a third.
  lemma {:induction false} TwoOwn(g: Cfg, roots: seq<BlockId>, stop: Option<BlockId>, out: seq<BlockId>,
                                  tag: seq<Option<BlockId>>, b: BlockId, d: BlockId)
    requires Ordered(g, roots, stop, out) && Labeled(g, roots, tag) && g.Has(b) && Reached(g, roots, b)
    requires g.Has(d) && Reached(g, roots, d) && tag[d] == Some(d) && OnEvery(g, roots, d, b)
    ensures tag[b] == Some(d)
    decreases Position(out, b)
  {
    hide Ordered, Labeled, FromRoots, Reached, Differ, Enters;
    LabelFacts(g, roots, tag, b);
    if b != d {
      if b in roots {
        RootPath(g, roots, b);
        assert d in [b];
      } else if Differ(g, roots, tag, b) {
        var p, q := TwoApart(g, roots, stop, out, tag, b);
        assert d in p + [b] && d in q + [b];
      } else {
        var x := EntersBy(g, roots, b);
        EntersFacts(g, roots, x, b);
        EdgesAscend(g, roots, stop, out, x, b);
        forall p | FromRoots(g, roots, x, p) ensures d in p {
          ReachedNext(g, roots, x, b, p);
          assert d in p + [b];
        }
        TwoOwn(g, roots, stop, out, tag, x, d);
      }
    }
  }

  // Two different paths to a block with no earlier block in common.
  ghost predicate TwoWays(g: Cfg, roots: seq<BlockId>, b: BlockId, p: seq<BlockId>, q: seq<BlockId>) {
    && FromRoots(g, roots, b, p) && FromRoots(g, roots, b, q)
    && p != q && Apart(p[..|p| - 1], q[..|q| - 1])
  }

  /** Two labels meet exactly at the blocks two paths sharing no earlier block reach. */
  lemma MeetsWherePathsDo(g: Cfg, roots: seq<BlockId>, stop: Option<BlockId>, out: seq<BlockId>,
                          tag: seq<Option<BlockId>>, b: BlockId)
    requires Ordered(g, roots, stop, out) && Labeled(g, roots, tag) && g.Has(b)
    ensures Meets(g, roots, tag, b) <==> exists p, q :: TwoWays(g, roots, b, p, q)
  {
    hide Ordered, Labeled, Meets, TwoWays;
    LabelFacts(g, roots, tag, b);
    if Meets(g, roots, tag, b) {
      var p, q := WaysTo(g, roots, stop, out, tag, b);
    }
    if p, q :| TwoWays(g, roots, b, p, q) {
      WaysMeet(g, roots, stop, out, tag, b, p, q);
    }
  }

  lemma WaysTo(g: Cfg, roots: seq<BlockId>, stop: Option<BlockId>, out: seq<BlockId>, tag: seq<Option<BlockId>>,
               b: BlockId)
    returns (p: seq<BlockId>, q: seq<BlockId>)
    requires Ordered(g, roots, stop, out) && Labeled(g, roots, tag) && g.Has(b) && Meets(g, roots, tag, b)
    ensures TwoWays(g, roots, b, p, q)
  {
    hide Ordered, Labeled, FromRoots, Reached, Differ, Enters;
    if b in roots {
      var x: nat :| Enters(g, roots, x, b);
      EntersFacts(g, roots, x, b);
      var r := APath(g, roots, x);
      PathFacts(g, roots, x, r);
      ReachedNext(g, roots, x, b, r);
      RootPath(g, roots, b);
      p, q := [b], r + [b];
      assert q[..|r|] == r && p[..0] == [] && |p| != |q|;
    } else {
      var v, w := TwoApart(g, roots, stop, out, tag, b);
      p, q := v + [b], w + [b];
      assert p[..|v|] == v && q[..|w|] == w;
      assert v[0] in v && w[0] in w && p[0] == v[0] && q[0] == w[0];
    }
  }

  lemma WaysMeet(g: Cfg, roots: seq<BlockId>, stop: Option<BlockId>, out: seq<BlockId>, tag: seq<Option<BlockId>>,
                 b: BlockId, p: seq<BlockId>, q: seq<BlockId>)
    requires Ordered(g, roots, stop, out) && Labeled(g, roots, tag) && g.Has(b) && TwoWays(g, roots, b, p, q)
    ensures Meets(g, roots, tag, b)
  {
    hide Ordered, Labeled, FromRoots, Reached, Differ, Enters, Meets;
    PathFacts(g, roots, b, p);
    PathFacts(g, roots, b, q);
    if |p| > 1 {
      WayEnters(g, roots, stop, out, tag, b, p, q);
    } else {
      assert p == [b] && (|q| == 1 ==> q == [b]);
      assert Apart(q[..|q| - 1], p[..|p| - 1]);
      WayEnters(g, roots, stop, out, tag, b, q, p);
    }
  }

  lemma WayEnters(g: Cfg, roots: seq<BlockId>, stop: Option<BlockId>, out: seq<BlockId>, tag: seq<Option<BlockId>>,
                  b: BlockId, p: seq<BlockId>, q: seq<BlockId>)
    requires Ordered(g, roots, stop, out) && Labeled(g, roots, tag) && g.Has(b)
    requires TwoWays(g, roots, b, p, q) && |p| > 1
    ensures Meets(g, roots, tag, b)
  {
    hide Ordered, Labeled, FromRoots, Reached, Enters;
    LabelFacts(g, roots, tag, b);
    var x := LastStep(g, roots, b, p);
    EntersFacts(g, roots, x, b);
    if b !in roots {
      PathFacts(g, roots, b, q);
      var y := LastStep(g, roots, b, q);
      EntersFacts(g, roots, y, b);
      LabelOnEvery(g, roots, stop, out, tag, x, p[..|p| - 1]);
      LabelOnEvery(g, roots, stop, out, tag, y, q[..|q| - 1]);
      assert tag[x] != tag[y];
    }
  }

  lemma LastStep(g: Cfg, roots: seq<BlockId>, b: BlockId, p: seq<BlockId>) returns (x: BlockId)
    requires FromRoots(g, roots, b, p) && (|p| > 1 || b !in roots)
    ensures |p| > 1 && x == p[|p| - 2] && Enters(g, roots, x, b) && FromRoots(g, roots, x, p[..|p| - 1])
  {
    Shorter(g, roots, b, p);
    x := p[|p| - 2];
  }
}
