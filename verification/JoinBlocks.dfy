/** The joins of every block of a graph, and the blocks that decide at which trip and exit a loop is left. */
module JoinBlocks {
  import opened Wrappers
  import opened Graphs
  import opened NaturalLoops
  import opened Loops
  import opened LoopForest
  import opened LabelEdges
  import opened LabelPaths
  import opened LabelOrder
  import opened SyncDependence
  import Sorting

  /** A path of label edges from one of `roots` to `x`, all before its last block in `through`. */
  ghost predicate Way(g: Cfg, through: set<BlockId>, roots: seq<BlockId>, x: BlockId, p: seq<BlockId>) {
    LabelPath(g, p) && p[0] in roots && p[|p| - 1] == x && forall i :: 0 <= i < |p| - 1 ==> p[i] in through
  }

  /** Two different ways lead to `x` that share no block before it. */
  ghost predicate Joins(g: Cfg, through: set<BlockId>, roots: seq<BlockId>, x: BlockId) {
    exists p, q :: JoinsBy(g, through, roots, x, p, q)
  }

  ghost predicate JoinsBy(g: Cfg, through: set<BlockId>, roots: seq<BlockId>, x: BlockId, p: seq<BlockId>,
                          q: seq<BlockId>) {
    Way(g, through, roots, x, p) && Way(g, through, roots, x, q) && p != q && Apart(p[..|p| - 1], q[..|q| - 1])
  }

  /** Ways that share no block lead to two blocks not in `through`. */
  ghost predicate Parts(g: Cfg, through: set<BlockId>, roots: seq<BlockId>) {
    exists x: nat, y: nat :: PartsAt(g, through, roots, x, y)
  }

  ghost predicate PartsAt(g: Cfg, through: set<BlockId>, roots: seq<BlockId>, x: BlockId, y: BlockId) {
    x !in through && y !in through &&
    exists p, q :: Way(g, through, roots, x, p) && Way(g, through, roots, y, q) && Apart(p, q)
  }

  // The edges out of the blocks of `through` are their label edges, and no other goes on.
  ghost predicate Follows(g: Cfg, through: set<BlockId>, next: Next, stop: BlockId) {
    && |next| == |g.blocks| && NextInside(next) && stop < |next|
    && forall x: nat, y: nat :: GraphOf(next, Some(stop)).Edge(x, y) <==> x in through && LabelEdge(g, x, y)
  }

  lemma LabelEdgeHas(g: Cfg, x: BlockId, y: BlockId)
    requires LabelEdge(g, x, y)
    ensures g.Has(x) && g.Has(y)
  {
    if IsHeader(g, x) {
      HeaderReached(g, x);
    }
  }

  // -- ways are the paths of the label graph -----------------------------------------

  lemma WaysArePaths(g: Cfg, through: set<BlockId>, next: Next, stop: BlockId, roots: seq<BlockId>, x: BlockId,
                     p: seq<BlockId>)
    requires Follows(g, through, next, stop) && forall r :: r in roots ==> g.Has(r)
    ensures FromRoots(GraphOf(next, Some(stop)), roots, x, p) <==> Way(g, through, roots, x, p)
  {
    hide LabelEdge, GraphOf;
    var l := GraphOf(next, Some(stop));
    GraphHas(next, Some(stop));
    if FromRoots(l, roots, x, p) {
      forall i | 0 <= i < |p| - 1 ensures LabelEdge(g, p[i], p[i + 1]) && p[i] in through {
        assert l.Edge(p[i], p[i + 1]);
      }
    }
    if Way(g, through, roots, x, p) {
      forall i | 0 <= i < |p| - 1 ensures l.Edge(p[i], p[i + 1]) {
        assert LabelEdge(g, p[i], p[i + 1]) && p[i] in through;
      }
      forall i | 0 <= i < |p| ensures l.Has(p[i]) {
        if i > 0 {
          assert l.Edge(p[i - 1], p[i - 1 + 1]);
        }
      }
    }
  }

  /** On a reducible graph no path of the label graph from reachable roots comes back. */
  lemma LabelGraphAcyclic(g: Cfg, through: set<BlockId>, next: Next, stop: BlockId, roots: seq<BlockId>)
    requires Follows(g, through, next, stop) && !HasForwardCycle(g)
    requires forall r :: r in roots ==> g.Has(r) && Reaches(g, ENTRY, r)
    ensures Acyclic(GraphOf(next, Some(stop)), roots)
  {
    hide LabelEdge, GraphOf, HasForwardCycle, Follows;
    var l := GraphOf(next, Some(stop));
    forall p | IsPath(l, p) && |p| > 1 && Reached(l, roots, p[0]) ensures p[0] != p[|p| - 1] {
      var q :| FromRoots(l, roots, p[0], q);
      WaysArePaths(g, through, next, stop, roots, p[0], q);
      LabelPathReached(g, q, |q| - 1);
      PathOfLabels(g, through, next, stop, p);
      LabelEdgesAcyclic(g, p);
    }
  }

  lemma PathOfLabels(g: Cfg, through: set<BlockId>, next: Next, stop: BlockId, p: seq<BlockId>)
    requires Follows(g, through, next, stop) && IsPath(GraphOf(next, Some(stop)), p)
    ensures LabelPath(g, p) && g.Has(p[0])
  {
    hide LabelEdge, GraphOf;
    GraphHas(next, Some(stop));
    forall i | 0 <= i < |p| - 1 ensures LabelEdge(g, p[i], p[i + 1]) {
      assert GraphOf(next, Some(stop)).Edge(p[i], p[i + 1]);
    }
  }

  /** Labels meet where two ways do. */
  lemma MeetsIsJoins(g: Cfg, through: set<BlockId>, next: Next, stop: BlockId, roots: seq<BlockId>, out: seq<BlockId>,
                     tag: seq<Option<BlockId>>, x: BlockId)
    requires Follows(g, through, next, stop) && (forall r :: r in roots ==> g.Has(r)) && g.Has(x)
    requires Ordered(GraphOf(next, Some(stop)), roots, Some(stop), out) && Labeled(GraphOf(next, Some(stop)), roots, tag)
    ensures |tag| == |GraphOf(next, Some(stop)).blocks|
    ensures Meets(GraphOf(next, Some(stop)), roots, tag, x) <==> Joins(g, through, roots, x)
  {
    hide LabelEdge, LabelPath, Ordered, Meets, GraphOf, Follows, TwoWays, JoinsBy, Labeled;
    var l := GraphOf(next, Some(stop));
    SameBlocks(g, through, next, stop);
    TaggedAll(l, roots, tag);
    MeetsWherePathsDo(l, roots, Some(stop), out, tag, x);
    if p, q :| TwoWays(l, roots, x, p, q) {
      JoinsIsTwoWays(g, through, next, stop, roots, x, p, q);
    }
    if p, q :| JoinsBy(g, through, roots, x, p, q) {
      JoinsIsTwoWays(g, through, next, stop, roots, x, p, q);
    }
  }

  lemma JoinsIsTwoWays(g: Cfg, through: set<BlockId>, next: Next, stop: BlockId, roots: seq<BlockId>, x: BlockId,
                       p: seq<BlockId>, q: seq<BlockId>)
    requires Follows(g, through, next, stop) && forall r :: r in roots ==> g.Has(r)
    ensures TwoWays(GraphOf(next, Some(stop)), roots, x, p, q) <==> JoinsBy(g, through, roots, x, p, q)
  {
    hide LabelEdge, GraphOf, Follows;
    WaysArePaths(g, through, next, stop, roots, x, p);
    WaysArePaths(g, through, next, stop, roots, x, q);
  }

  lemma SameBlocks(g: Cfg, through: set<BlockId>, next: Next, stop: BlockId)
    requires Follows(g, through, next, stop)
    ensures |next| == |g.blocks| && NextInside(next) && stop < |next|
    ensures forall b: nat :: GraphOf(next, Some(stop)).Has(b) <==> g.Has(b)
  {
  }

  lemma TaggedAll(l: Cfg, roots: seq<BlockId>, tag: seq<Option<BlockId>>)
    requires Labeled(l, roots, tag)
    ensures |tag| == |l.blocks|
  {
  }

  /** Two blocks have labels that differ exactly where ways that share no block lead to them. */
  lemma DifferIsApart(l: Cfg, roots: seq<BlockId>, stop: Option<BlockId>, out: seq<BlockId>, tag: seq<Option<BlockId>>,
                      x: BlockId, y: BlockId)
    requires Ordered(l, roots, stop, out) && Labeled(l, roots, tag) && l.Has(x) && l.Has(y)
    ensures |tag| == |l.blocks|
    ensures tag[x].Some? && tag[y].Some? && tag[x] != tag[y] <==>
            exists p, q :: FromRoots(l, roots, x, p) && FromRoots(l, roots, y, q) && Apart(p, q)
  {
    hide Ordered, Labeled, FromRoots, Reached;
    TaggedAll(l, roots, tag);
    LabelFacts(l, roots, tag, x);
    LabelFacts(l, roots, tag, y);
    if tag[x].Some? && tag[y].Some? && tag[x] != tag[y] {
      var p, q := LabelsApart(l, roots, stop, out, tag, x, y);
    }
    if p, q :| FromRoots(l, roots, x, p) && FromRoots(l, roots, y, q) && Apart(p, q) {
      LabelOnEvery(l, roots, stop, out, tag, x, p);
      LabelOnEvery(l, roots, stop, out, tag, y, q);
    }
  }

  lemma DifferIsPart(g: Cfg, through: set<BlockId>, next: Next, stop: BlockId, roots: seq<BlockId>, out: seq<BlockId>,
                     tag: seq<Option<BlockId>>, x: BlockId, y: BlockId)
    requires Follows(g, through, next, stop) && (forall r :: r in roots ==> g.Has(r)) && g.Has(x) && g.Has(y)
    requires Ordered(GraphOf(next, Some(stop)), roots, Some(stop), out) && Labeled(GraphOf(next, Some(stop)), roots, tag)
    ensures |tag| == |GraphOf(next, Some(stop)).blocks| == |g.blocks|
    ensures tag[x].Some? && tag[y].Some? && tag[x] != tag[y] && x !in through && y !in through <==>
            PartsAt(g, through, roots, x, y)
  {
    hide LabelEdge, LabelPath, Ordered, GraphOf, Follows, FromRoots, Way, Apart, Labeled;
    var l := GraphOf(next, Some(stop));
    SameBlocks(g, through, next, stop);
    GraphSize(next, Some(stop));
    TaggedAll(l, roots, tag);
    DifferIsApart(l, roots, Some(stop), out, tag, x, y);
    if p, q :| FromRoots(l, roots, x, p) && FromRoots(l, roots, y, q) && Apart(p, q) {
      WaysArePaths(g, through, next, stop, roots, x, p);
      WaysArePaths(g, through, next, stop, roots, y, q);
    }
    if p, q :| Way(g, through, roots, x, p) && Way(g, through, roots, y, q) && Apart(p, q) {
      WaysArePaths(g, through, next, stop, roots, x, p);
      WaysArePaths(g, through, next, stop, roots, y, q);
    }
  }

  // -- the label edges -----------------------------------------------------------------

  ghost predicate Written(g: Cfg, next: Next, headers: set<BlockId>) {
    && |next| == |g.blocks|
    && forall x: nat, y: nat :: x < |next| ==>
         (y in next[x] <==> if x in headers then exists b: nat :: ExitsBy(g, x, b, y) else g.Edge(x, y))
  }

  /**
   * Each block's label edges: a header's lead where its loop's edges leave it, in block order.
   */
  method LabelEdgesOf(g: Cfg, loops: seq<Loop>) returns (next: Next)
    requires g.Valid() && Found(g, loops)
    ensures |next| == |g.blocks| && NextInside(next)
    ensures forall x: nat, y: nat :: x < |next| ==> (y in next[x] <==> LabelEdge(g, x, y))
  {
    hide Found, InBody, IsHeader;
    next := seq(|g.blocks|, b requires 0 <= b < |g.blocks| => g.blocks[b].succs);
    for i := 0 to |loops|
      invariant Written(g, next, set j | 0 <= j < i :: loops[j].header)
    {
      FoundLoop(g, loops, i);
      var exits := ExitsOf(g, loops[i]);
      var header := loops[i].header;
      ghost var before := set j | 0 <= j < i :: loops[j].header;
      assert (set j | 0 <= j < i + 1 :: loops[j].header) == before + {header};
      next := next[header := exits];
    }
    AllWritten(g, loops, next);
  }

  lemma FoundLoop(g: Cfg, loops: seq<Loop>, i: nat)
    requires Found(g, loops) && i < |loops|
    ensures g.Has(loops[i].header) && IsHeader(g, loops[i].header)
    ensures (forall x: nat :: x in loops[i].blocks <==> InBody(g, loops[i].header, x)) && Strictly(loops[i].blocks)
  {
    hide IsHeader, InBody, Strictly;
    HeaderReached(g, loops[i].header);
  }

  lemma AllWritten(g: Cfg, loops: seq<Loop>, next: Next)
    requires g.Valid() && Found(g, loops) && Written(g, next, set j | 0 <= j < |loops| :: loops[j].header)
    ensures |next| == |g.blocks| && NextInside(next)
    ensures forall x: nat, y: nat :: x < |next| ==> (y in next[x] <==> LabelEdge(g, x, y))
  {
    hide IsHeader, InBody;
    var headers := set j | 0 <= j < |loops| :: loops[j].header;
    forall x: nat ensures x in headers <==> IsHeader(g, x) {
    }
    forall x: nat, y: nat | x < |next| ensures y in next[x] <==> LabelEdge(g, x, y) {
    }
    forall b, s | 0 <= b < |next| && s in next[b] ensures s < |next| {
      LabelEdgeHas(g, b, s);
    }
  }

  // Where the edges of a loop's blocks lead outside it.
  method ExitsOf(g: Cfg, l: Loop) returns (exits: seq<BlockId>)
    requires g.Valid() && IsHeader(g, l.header) && forall x: nat :: x in l.blocks <==> InBody(g, l.header, x)
    ensures forall y: nat :: y in exits <==> exists b: nat :: ExitsBy(g, l.header, b, y)
    ensures forall i, j :: 0 <= i < j < |exits| ==> exits[i] < exits[j]
  {
    hide InBody;
    var found: seq<BlockId> := [];
    for i := 0 to |l.blocks|
      invariant forall y: nat :: y in found <==> exists k :: 0 <= k < i && ExitsBy(g, l.header, l.blocks[k], y)
    {
      var b := l.blocks[i];
      assert b in l.blocks;
      BodyReached(g, l.header, b);
      var more := Outside(g.blocks[b].succs, l.blocks);
      found := found + more;
    }
    forall y: nat ensures y in found <==> exists b: nat :: ExitsBy(g, l.header, b, y) {
      if b: nat :| ExitsBy(g, l.header, b, y) {
        assert b in l.blocks;
      }
    }
    exits := Sorting.Sorted(found);
  }

  function Outside(s: seq<BlockId>, blocks: seq<BlockId>): (out: seq<BlockId>)
    ensures forall y :: y in out <==> y in s && y !in blocks
  {
    if s == [] then [] else Outside(s[..|s| - 1], blocks) + if s[|s| - 1] in blocks then [] else [s[|s| - 1]]
  }

  // -- the joins of each block ---------------------------------------------------------

  ghost function AllBut(g: Cfg, b: BlockId): set<BlockId> {
    set x: nat | x < |g.blocks| && g.Has(x) && x != b
  }

  /** The joins of the paths leaving `b`: where two ways from its successors that do not pass it again meet. */
  ghost predicate JoinsAre(g: Cfg, b: BlockId, joins: seq<BlockId>)
    requires g.Has(b)
  {
    forall x: nat :: x in joins <==> Joins(g, AllBut(g, b), g.blocks[b].succs, x)
  }

  /** The answer given up to in an irreducible graph: all that can be reached. */
  ghost predicate ReachedAre(g: Cfg, b: BlockId, joins: seq<BlockId>)
    requires g.Has(b)
  {
    forall x: nat :: x in joins <==> exists s: nat :: s in g.blocks[b].succs && Reaches(g, s, x)
  }

  lemma FollowsAll(g: Cfg, next: Next, b: BlockId)
    requires g.Valid() && g.Has(b) && |next| == |g.blocks| && NextInside(next)
    requires forall x: nat, y: nat :: x < |next| ==> (y in next[x] <==> LabelEdge(g, x, y))
    ensures Follows(g, AllBut(g, b), next, b)
  {
    hide LabelEdge;
    var through := AllBut(g, b);
    forall x: nat, y: nat ensures GraphOf(next, Some(b)).Edge(x, y) <==> x in through && LabelEdge(g, x, y) {
      if LabelEdge(g, x, y) {
        LabelEdgeHas(g, x, y);
      }
    }
  }

  // The joins of one block of a reducible graph.
  method JoinsOf(g: Cfg, next: Next, b: BlockId) returns (joins: seq<BlockId>)
    requires g.Valid() && g.Has(b) && |next| == |g.blocks| && NextInside(next) && !HasForwardCycle(g)
    requires forall x: nat, y: nat :: x < |next| ==> (y in next[x] <==> LabelEdge(g, x, y))
    ensures Reaches(g, ENTRY, b) ==> JoinsAre(g, b, joins)
    ensures Strictly(joins)
  {
    hide LabelEdge, HasForwardCycle, Follows, GraphOf, Ordered, Labeled, Meets, Acyclic, Joins;
    ghost var through, succs, l := AllBut(g, b), g.blocks[b].succs, GraphOf(next, Some(b));
    var tag, pushed, out := Labels(next, b, g.blocks[b].succs);
    joins := pushed;
    FollowsAll(g, next, b);
    if Reaches(g, ENTRY, b) {
      forall r | r in succs ensures g.Has(r) && Reaches(g, ENTRY, r) {
        ReachesStep(g, ENTRY, b, r);
      }
      LabelGraphAcyclic(g, through, next, b, succs);
      forall x: nat ensures x in joins <==> Joins(g, through, succs, x) {
        if x < |next| {
          MeetsIsJoins(g, through, next, b, succs, out, tag, x);
        } else {
          JoinHas(g, through, succs, x);
        }
      }
    }
  }

  lemma JoinHas(g: Cfg, through: set<BlockId>, roots: seq<BlockId>, x: BlockId)
    requires forall r :: r in roots ==> g.Has(r)
    ensures Joins(g, through, roots, x) ==> g.Has(x)
  {
    hide LabelEdge;
    if p, q :| JoinsBy(g, through, roots, x, p, q) {
      WayHas(g, through, roots, x, p);
    }
  }

  lemma WayHas(g: Cfg, through: set<BlockId>, roots: seq<BlockId>, x: BlockId, p: seq<BlockId>)
    requires (forall r :: r in roots ==> g.Has(r)) && Way(g, through, roots, x, p)
    ensures g.Has(x)
  {
    hide LabelEdge;
    if |p| > 1 {
      assert LabelEdge(g, p[|p| - 2], p[|p| - 2 + 1]);
      LabelEdgeHas(g, p[|p| - 2], x);
    }
  }

  // The blocks the paths from `b` reach.
  method ReachedFrom(g: Cfg, b: BlockId) returns (joins: seq<BlockId>)
    requires g.Valid() && g.Has(b)
    ensures ReachedAre(g, b, joins) && Strictly(joins)
  {
    hide GraphOf, Reaches, IsPath, Topological, Reached;
    var next := seq(|g.blocks|, x requires 0 <= x < |g.blocks| => g.blocks[x].succs);
    var out := Order(next, g.blocks[b].succs, None);
    SamePaths(g, next);
    joins := Sorting.Sorted(out);
    RootsReach(g, GraphOf(next, None), g.blocks[b].succs);
  }

  // Two graphs of the same paths reach the same blocks from the same roots.
  lemma RootsReach(g: Cfg, l: Cfg, roots: seq<BlockId>)
    requires forall p :: IsPath(l, p) <==> IsPath(g, p)
    ensures forall x: nat :: Reached(l, roots, x) <==> exists s: nat :: s in roots && Reaches(g, s, x)
  {
    hide IsPath;
    forall x: nat ensures Reached(l, roots, x) <==> exists s: nat :: s in roots && Reaches(g, s, x) {
      RootReaches(g, l, roots, x);
    }
  }

  lemma RootReaches(g: Cfg, l: Cfg, roots: seq<BlockId>, x: BlockId)
    requires forall p :: IsPath(l, p) <==> IsPath(g, p)
    ensures Reached(l, roots, x) <==> exists s: nat :: s in roots && Reaches(g, s, x)
  {
    if p :| FromRoots(l, roots, x, p) {
      assert Connects(g, p[0], x, p);
    }
    if s: nat :| s in roots && Reaches(g, s, x) {
      var p :| Connects(g, s, x, p);
      assert FromRoots(l, roots, x, p);
    }
  }

  lemma SamePaths(g: Cfg, next: Next)
    requires g.Valid() && |next| == |g.blocks| && forall x: nat :: x < |next| ==> next[x] == g.blocks[x].succs
    ensures NextInside(next) && forall p :: IsPath(GraphOf(next, None), p) <==> IsPath(g, p)
  {
    var l := GraphOf(next, None);
    assert forall x: nat :: l.Has(x) <==> g.Has(x);
    assert forall x: nat, y: nat :: l.Edge(x, y) <==> g.Edge(x, y);
    forall p ensures IsPath(l, p) <==> IsPath(g, p) {
      hide GraphOf;
    }
  }

  lemma ForestParts(g: Cfg, f: Forest)
    requires ForestOf(g, f)
    ensures Found(g, f.loops) && (f.irreducibleEdges == [] <==> !HasForwardCycle(g))
  {
    hide Found, HasForwardCycle, Nested;
  }

  /**
   * Of every block: which blocks disjoint ways out of it end at, sorted.
   */
  method JoinBlocks(g: Cfg, f: Forest) returns (joins: seq<seq<BlockId>>)
    requires g.Valid() && ForestOf(g, f)
    ensures |joins| == |g.blocks|
    ensures forall b: nat :: b < |joins| ==> Strictly(joins[b])
    ensures !HasForwardCycle(g) ==> forall b: nat :: b < |joins| && Reaches(g, ENTRY, b) ==> JoinsAre(g, b, joins[b])
    ensures HasForwardCycle(g) ==> forall b: nat :: b < |joins| ==> ReachedAre(g, b, joins[b])
  {
    hide JoinsAre, ReachedAre, HasForwardCycle, LabelEdge, Strictly, ForestOf, Found;
    ForestParts(g, f);
    joins := [];
    if f.irreducibleEdges != [] {
      for b := 0 to |g.blocks|
        invariant |joins| == b && forall x: nat :: x < b ==> Strictly(joins[x]) && ReachedAre(g, x, joins[x])
      {
        var reached := ReachedFrom(g, b);
        joins := joins + [reached];
      }
    } else {
      var next := LabelEdgesOf(g, f.loops);
      for b := 0 to |g.blocks|
        invariant |joins| == b && forall x: nat :: x < b ==> Strictly(joins[x]) && (Reaches(g, ENTRY, x) ==> JoinsAre(g, x, joins[x]))
      {
        var met := JoinsOf(g, next, b);
        joins := joins + [met];
      }
    }
  }

  // -- the branches deciding how a loop is left ------------------------------------------

  ghost function Inner(g: Cfg, h: BlockId): set<BlockId> {
    set x: nat | x < |g.blocks| && Under(g, h, x)
  }

  lemma FollowsInner(g: Cfg, next: Next, within: Next, h: BlockId)
    requires g.Valid() && g.Has(h) && |next| == |g.blocks| == |within| && NextInside(next)
    requires forall x: nat, y: nat :: x < |next| ==> (y in next[x] <==> LabelEdge(g, x, y))
    requires forall x: nat :: x < |next| ==> within[x] == if Under(g, h, x) then next[x] else []
    ensures Follows(g, Inner(g, h), within, h)
  {
    hide LabelEdge, InBody;
    var through := Inner(g, h);
    forall x: nat, y: nat ensures GraphOf(within, Some(h)).Edge(x, y) <==> x in through && LabelEdge(g, x, y) {
      if LabelEdge(g, x, y) {
        LabelEdgeHas(g, x, y);
      }
    }
  }

  /**
   * Whether the branch at `b` decides where one trip of the loop ends: whether ways from its successors that share no
   * block lead to the header or to exits.
   */
  method Decides(g: Cfg, l: Loop, within: Next, b: BlockId) returns (decides: bool)
    requires g.Valid() && g.Has(b) && Reaches(g, ENTRY, b) && !HasForwardCycle(g)
    requires Follows(g, Inner(g, l.header), within, l.header) && forall x: nat :: x in l.blocks <==> InBody(g, l.header, x)
    ensures decides <==> Parts(g, Inner(g, l.header), g.blocks[b].succs)
  {
    hide LabelEdge, HasForwardCycle, Follows, GraphOf, Ordered, Labeled, Meets, Acyclic, PartsAt, InBody;
    ghost var through, succs := Inner(g, l.header), g.blocks[b].succs;
    SameBlocks(g, through, within, l.header);
    var tag, _, out := Labels(within, l.header, g.blocks[b].succs);
    forall r | r in succs ensures g.Has(r) && Reaches(g, ENTRY, r) {
      ReachesStep(g, ENTRY, b, r);
    }
    LabelGraphAcyclic(g, through, within, l.header, succs);
    ghost var differ := exists x: nat, y: nat :: LeftAt(through, tag, x) && LeftAt(through, tag, y) && tag[x] != tag[y];
    PartsIs(g, through, within, l.header, succs, out, tag);
    var first: Option<BlockId> := None;
    decides := false;
    for x := 0 to |tag|
      invariant first.Some? ==> exists y: nat :: y < x && LeftAt(through, tag, y) && tag[y] == first
      invariant forall y: nat :: y < x && LeftAt(through, tag, y) ==> first.Some?
      invariant !decides ==> forall y: nat :: y < x && LeftAt(through, tag, y) ==> tag[y] == first
      invariant decides ==> differ
    {
      var inside := x != l.header && x in l.blocks;
      assert inside <==> x in through;
      if !inside && tag[x].Some? {
        assert LeftAt(through, tag, x);
        if first.None? {
          first := tag[x];
        } else if tag[x] != first {
          decides := true;
        }
      }
    }
  }

  // A block outside that a label reached.
  ghost predicate LeftAt(through: set<BlockId>, tag: seq<Option<BlockId>>, x: BlockId) {
    x < |tag| && x !in through && tag[x].Some?
  }

  lemma PartsIs(g: Cfg, through: set<BlockId>, next: Next, stop: BlockId, roots: seq<BlockId>, out: seq<BlockId>,
                tag: seq<Option<BlockId>>)
    requires Follows(g, through, next, stop) && forall r :: r in roots ==> g.Has(r)
    requires Ordered(GraphOf(next, Some(stop)), roots, Some(stop), out) && Labeled(GraphOf(next, Some(stop)), roots, tag)
    ensures Parts(g, through, roots) <==>
            exists x: nat, y: nat :: LeftAt(through, tag, x) && LeftAt(through, tag, y) && tag[x] != tag[y]
  {
    hide Follows, Ordered, Labeled, GraphOf, PartsAt;
    SameBlocks(g, through, next, stop);
    GraphSize(next, Some(stop));
    TaggedAll(GraphOf(next, Some(stop)), roots, tag);
    if x: nat, y: nat :| LeftAt(through, tag, x) && LeftAt(through, tag, y) && tag[x] != tag[y] {
      DifferIsPart(g, through, next, stop, roots, out, tag, x, y);
    }
    if x: nat, y: nat :| PartsAt(g, through, roots, x, y) {
      PartHas(g, through, roots, x, y);
      DifferIsPart(g, through, next, stop, roots, out, tag, x, y);
    }
  }

  lemma PartHas(g: Cfg, through: set<BlockId>, roots: seq<BlockId>, x: BlockId, y: BlockId)
    requires (forall r :: r in roots ==> g.Has(r)) && PartsAt(g, through, roots, x, y)
    ensures g.Has(x) && g.Has(y)
  {
    hide Way, Apart;
    var p, q :| Way(g, through, roots, x, p) && Way(g, through, roots, y, q) && Apart(p, q);
    WayHas(g, through, roots, x, p);
    WayHas(g, through, roots, y, q);
  }

  /** The branches of a loop by which a thread's trip through it ends at different blocks. */
  ghost predicate BranchesAre(g: Cfg, l: Loop, branches: seq<BlockId>) {
    forall b: nat :: b in branches <==> b in l.blocks && g.Has(b) && Parts(g, Inner(g, l.header), g.blocks[b].succs)
  }

  /** The answer given up to in an irreducible graph: all blocks that branch at all. */
  ghost predicate BranchingAre(g: Cfg, l: Loop, branches: seq<BlockId>) {
    forall b: nat :: b in branches <==>
      b in l.blocks && g.Has(b) && exists s, t :: s in g.blocks[b].succs && t in g.blocks[b].succs && s != t
  }

  ghost predicate Deciding(g: Cfg, l: Loop, irreducible: bool, b: BlockId) {
    && g.Has(b)
    && if irreducible then exists s, t :: s in g.blocks[b].succs && t in g.blocks[b].succs && s != t
       else Parts(g, Inner(g, l.header), g.blocks[b].succs)
  }

  // The branches of one loop that decide how it is left.
  method BranchesOf(g: Cfg, l: Loop, next: Next, irreducible: bool) returns (branches: seq<BlockId>)
    requires g.Valid() && |next| == |g.blocks| && NextInside(next) && (irreducible <==> HasForwardCycle(g))
    requires forall x: nat, y: nat :: x < |next| ==> (y in next[x] <==> LabelEdge(g, x, y))
    requires IsHeader(g, l.header) && (forall x: nat :: x in l.blocks <==> InBody(g, l.header, x)) && Strictly(l.blocks)
    ensures if irreducible then BranchingAre(g, l, branches) else BranchesAre(g, l, branches)
    ensures Strictly(branches)
  {
    hide LabelEdge, HasForwardCycle, Follows, InBody, Parts, IsHeader;
    HeaderReached(g, l.header);
    var within := seq(|next|, x requires 0 <= x < |next| => if x != l.header && x in l.blocks then next[x] else []);
    FollowsInner(g, next, within, l.header);
    branches := [];
    for i := 0 to |l.blocks|
      invariant forall b: nat :: b in branches <==> b in l.blocks[..i] && Deciding(g, l, irreducible, b)
      invariant Strictly(branches) && forall j :: 0 <= j < |branches| ==> branches[j] in l.blocks[..i]
    {
      var b := l.blocks[i];
      assert b in l.blocks;
      BodyReached(g, l.header, b);
      var decides: bool;
      if irreducible {
        var succs := g.blocks[b].succs;
        decides := exists s :: s in succs && s != succs[0];
        assert decides ==> succs[0] in succs;
      } else {
        decides := Decides(g, l, within, b);
      }
      assert decides <==> Deciding(g, l, irreducible, b);
      assert l.blocks[..i + 1] == l.blocks[..i] + [b];
      if decides {
        branches := branches + [b];
      }
    }
    assert l.blocks[..|l.blocks|] == l.blocks;
  }

  /**
   * Of every loop: the blocks from which disjoint ways end its trip at two places.
   */
  method ExitBranches(g: Cfg, f: Forest) returns (branches: seq<seq<BlockId>>)
    requires g.Valid() && ForestOf(g, f)
    ensures |branches| == |f.loops| && forall i: nat :: i < |branches| ==> Strictly(branches[i])
    ensures forall i: nat :: i < |branches| ==>
      if HasForwardCycle(g) then BranchingAre(g, f.loops[i], branches[i]) else BranchesAre(g, f.loops[i], branches[i])
  {
    hide BranchesAre, BranchingAre, HasForwardCycle, LabelEdge, ForestOf, Found, Strictly;
    ForestParts(g, f);
    var next := LabelEdgesOf(g, f.loops);
    branches := [];
    for i := 0 to |f.loops|
      invariant |branches| == i && forall j: nat :: j < i ==> Strictly(branches[j])
      invariant forall j: nat :: j < i ==>
        if HasForwardCycle(g) then BranchingAre(g, f.loops[j], branches[j]) else BranchesAre(g, f.loops[j], branches[j])
    {
      FoundLoop(g, f.loops, i);
      var of := BranchesOf(g, f.loops[i], next, f.irreducibleEdges != []);
      branches := branches + [of];
    }
  }
}
