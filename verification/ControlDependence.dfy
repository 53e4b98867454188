/** Which threads reach a block within one trip: those taking toward it each branch it is control dependent on. */
module ControlDependence {
  import opened Wrappers
  import opened Graphs
  import opened Dominators
  import opened Frontiers
  import opened TripGraphs
  import opened Lanes
  import opened Participation
  import opened TallyBounds
  import Sorting

  // The predicate under which a block's conditional branch is taken, where it has one that was read.
  type Guards = BlockId -> Option<Pred>

  /** One trip: which edges it keeps, those edges turned around, and for each block the deciders found for it. */
  datatype Trip = Trip(g: Cfg, kept: Edges, turned: Cfg, deciders: seq<seq<BlockId>>, guards: Guards) {
    ghost predicate Valid() {
      && g.Valid() && Turned(g, kept, turned) && |deciders| == |g.blocks| + 1
      && forall c: nat, x: nat :: c < |deciders| ==> (x in deciders[c] <==> InFrontier(turned, |g.blocks|, c, x))
    }

    ghost predicate PostDominates(c: BlockId, d: BlockId) {
      Dominates(turned, |g.blocks|, c, d)
    }
  }

  /** A thread, and the successor it takes at each block. */
  datatype Thread = Thread(tid: Index, shape: Shape, leader: Leader, place: Place, pick: BlockId -> BlockId)

  // -- reading ----------------------------------------------------------------------

  datatype Step = Step(pred: Pred, left: nat, cut: bool)

  function Except(s: seq<BlockId>, c: BlockId): (out: seq<BlockId>)
    ensures forall x :: x in out <==> x in s && x != c
  {
    if s == [] then [] else
    assert s == s[..|s| - 1] + [s[|s| - 1]];
    Except(s[..|s| - 1], c) + if s[|s| - 1] == c then [] else [s[|s| - 1]]
  }

  // The branches that decide on `c`, in block order.
  function Levels(deciders: seq<seq<BlockId>>, c: BlockId): (out: seq<BlockId>)
    requires c < |deciders|
    ensures forall x :: x in out <==> x in deciders[c] && x != c
  {
    Sorting.Sorted(Except(deciders[c], c))
  }

  // The reading of a two-way branch: who goes from `x` to `c`.
  ghost function TowardOf(t: Trip, x: BlockId, c: BlockId): Pred {
    if x < |t.g.blocks| && |t.g.blocks[x].succs| == 2 && t.guards(x).Some? then
      var taken := t.g.blocks[x].succs[0];
      if t.kept(x, taken) && t.PostDominates(c, taken) then t.guards(x).value else Negated(t.guards(x).value)
    else Unknown
  }

  /** The reading from `d` on of who comes to `c`, walking `left` deciders at most; it says if that was too few. */
  ghost function ReachOf(t: Trip, d: BlockId, c: BlockId, left: nat): (s: Step)
    requires c < |t.deciders|
    ensures s.left <= left
    decreases left, 0
  {
    if left == 0 then Step(Unknown, 0, true)
    else if t.PostDominates(c, d) then Step(True, left - 1, false)
    else if !Reaches(t.turned, |t.g.blocks|, c) then Step(Unknown, left - 1, false)
    else WaysOf(t, d, c, Levels(t.deciders, c), left - 1)
  }

  // The same through one of the branches `xs`.
  ghost function WaysOf(t: Trip, d: BlockId, c: BlockId, xs: seq<BlockId>, left: nat): (s: Step)
    ensures s.left <= left
    decreases left, |xs| + 1
  {
    if xs == [] then Step(False, left, false) else
    var before := WaysOf(t, d, c, xs[..|xs| - 1], left);
    var x := xs[|xs| - 1];
    if Dominates(t.g, ENTRY, d, x) && x < |t.deciders| then
      var at := ReachOf(t, d, x, before.left);
      Step(Disjoined(before.pred, Conjoined(at.pred, TowardOf(t, x, c))), at.left, before.cut || at.cut)
    else before
  }

  // -- threads ----------------------------------------------------------------------

  ghost predicate ThreadPath(t: Trip, pick: BlockId -> BlockId, p: seq<BlockId>) {
    TripPath(t.g, t.kept, p) && forall i :: 0 <= i < |p| - 1 ==> p[i + 1] == pick(p[i])
  }

  ghost predicate VisitsBy(t: Trip, pick: BlockId -> BlockId, d: BlockId, c: BlockId, p: seq<BlockId>) {
    ThreadPath(t, pick, p) && p[0] == d && p[|p| - 1] == c
  }

  /** The thread's own path from `d`, within the trip, comes to `c`. */
  ghost predicate Visits(t: Trip, pick: BlockId -> BlockId, d: BlockId, c: BlockId) {
    exists p :: VisitsBy(t, pick, d, c, p)
  }

  ghost predicate Picks(t: Trip, pick: BlockId -> BlockId) {
    forall x: nat :: t.g.Has(x) && t.g.blocks[x].succs != [] ==> pick(x) in t.g.blocks[x].succs
  }

  // Every kept edge out of a reachable block descends: no path of a trip comes back.
  ghost predicate Ranked(t: Trip, rank: BlockId -> nat) {
    forall x: nat, y: nat :: Reaches(t.g, ENTRY, x) && t.g.Edge(x, y) && t.kept(x, y) ==> rank(y) < rank(x)
  }

  function Says(p: Pred, th: Thread): Tri
    requires Count(th.shape) > 0
  {
    Eval(p, th.tid, th.shape, th.leader, th.place)
  }

  // What a guard says of the thread is the branch it takes.
  ghost predicate GuardHolds(t: Trip, th: Thread, x: BlockId)
    requires Count(th.shape) > 0
  {
    t.g.Has(x) && |t.g.blocks[x].succs| == 2 && t.guards(x).Some? ==>
      && AllRanged(t.guards(x).value)
      && (Says(t.guards(x).value, th) == Yes ==> th.pick(x) == t.g.blocks[x].succs[0])
      && (Says(t.guards(x).value, th) == No ==> th.pick(x) == t.g.blocks[x].succs[1])
  }

  ghost predicate Follows(t: Trip, th: Thread) {
    Count(th.shape) > 0 && Picks(t, th.pick) && forall x: nat :: GuardHolds(t, th, x)
  }

  // Every branch a reachable block ends with is two-way, its guard read and decided for the thread.
  ghost predicate AllRead(t: Trip, th: Thread)
    requires Count(th.shape) > 0
  {
    forall x: nat :: Reaches(t.g, ENTRY, x) && |t.g.blocks[x].succs| >= 2 ==>
      |t.g.blocks[x].succs| == 2 && t.guards(x).Some? && Says(t.guards(x).value, th) != Maybe
  }

  lemma {:induction false} ThreadReached(t: Trip, pick: BlockId -> BlockId, p: seq<BlockId>, i: nat)
    requires ThreadPath(t, pick, p) && i < |p| && Reaches(t.g, ENTRY, p[0])
    ensures Reaches(t.g, ENTRY, p[i]) && t.g.Has(p[i])
  {
    if i > 0 {
      ThreadReached(t, pick, p, i - 1);
      assert t.g.Edge(p[i - 1], p[i - 1 + 1]);
      ReachesStep(t.g, ENTRY, p[i - 1], p[i]);
    }
  }

  /** A thread's path from a reachable block goes on to where the trip ends. */
  lemma {:induction false} RunsOut(t: Trip, pick: BlockId -> BlockId, rank: BlockId -> nat,
                                   d: BlockId) returns (p: seq<BlockId>)
    requires Picks(t, pick) && Ranked(t, rank) && Reaches(t.g, ENTRY, d) && t.g.Valid()
    ensures ThreadPath(t, pick, p) && TripFrom(t.g, t.kept, d, p)
    decreases rank(d)
  {
    if EndsTrip(t.g, t.kept, d) {
      p := [d];
    } else {
      var y := pick(d);
      assert t.g.Edge(d, y) && t.kept(d, y);
      ReachesStep(t.g, ENTRY, d, y);
      var rest := RunsOut(t, pick, rank, y);
      Prepended(t.g, t.kept, d, rest);
      p := [d] + rest;
    }
  }

  lemma PathSliced(t: Trip, pick: BlockId -> BlockId, p: seq<BlockId>, i: nat, j: nat)
    requires ThreadPath(t, pick, p) && i < j <= |p|
    ensures VisitsBy(t, pick, p[i], p[j - 1], p[i..j])
  {
    PathSlice(t.g, p, i, j);
    var q := p[i..j];
    forall k | 0 <= k < |q| - 1 ensures t.kept(q[k], q[k + 1]) && q[k + 1] == pick(q[k]) {
      assert q[k] == p[i + k] && q[k + 1] == p[i + k + 1];
    }
  }

  /** What every trip passes, the thread's does. */
  lemma VisitsIfOnEvery(t: Trip, pick: BlockId -> BlockId, rank: BlockId -> nat, d: BlockId, c: BlockId)
    requires Picks(t, pick) && Ranked(t, rank) && Reaches(t.g, ENTRY, d) && t.g.Valid()
    requires OnEveryTrip(t.g, t.kept, c, d)
    ensures Visits(t, pick, d, c)
  {
    var p := RunsOut(t, pick, rank, d);
    var i :| 0 <= i < |p| && p[i] == c;
    PathSliced(t, pick, p, 0, i + 1);
  }

  lemma VisitsThrough(t: Trip, pick: BlockId -> BlockId, d: BlockId, x: BlockId, c: BlockId)
    requires Visits(t, pick, d, x) && t.g.Edge(x, pick(x)) && t.kept(x, pick(x)) && Visits(t, pick, pick(x), c)
    ensures Visits(t, pick, d, c)
  {
    var p :| VisitsBy(t, pick, d, x, p);
    var q :| VisitsBy(t, pick, pick(x), c, q);
    PathExtend(t.g, d, x, pick(x), p);
    PathJoin(t.g, d, pick(x), c, p + [pick(x)], q);
    var r := p + q;
    assert p + [pick(x)] + q[1..] == r;
    forall i | 0 <= i < |r| - 1 ensures t.kept(r[i], r[i + 1]) && r[i + 1] == pick(r[i]) {
      if i < |p| - 1 {
        assert r[i] == p[i] && r[i + 1] == p[i + 1];
      } else if i >= |p| {
        assert r[i] == q[i - |p|] && r[i + 1] == q[i - |p| + 1];
      }
    }
    assert VisitsBy(t, pick, d, c, r);
  }

  // The thread leaves `x` by a kept edge to where every trip passes `c`.
  ghost predicate TurnsTo(t: Trip, pick: BlockId -> BlockId, x: BlockId, c: BlockId) {
    t.g.Edge(x, pick(x)) && t.kept(x, pick(x)) && OnEveryTrip(t.g, t.kept, c, pick(x))
  }

  // -- control dependence --------------------------------------------------------------

  ghost predicate Decides(t: Trip, c: BlockId, x: BlockId) {
    InFrontier(t.turned, |t.g.blocks|, c, x) && x != c
  }

  /** A branch decides on `c` where one kept edge out of it leads only to `c`, and not all do. */
  lemma DecidesIs(t: Trip, c: BlockId, x: BlockId)
    requires t.Valid() && t.g.Has(c) && x != c
    ensures Decides(t, c, x) <==>
            (t.g.Has(x) && !OnEveryTrip(t.g, t.kept, c, x) &&
             exists y: nat :: t.g.Edge(x, y) && t.kept(x, y) && OnEveryTrip(t.g, t.kept, c, y))
  {
    hide OnEveryTrip, Dominates, EndsTrip;
    var n := |t.g.blocks|;
    if p :| EndsAt(t.turned, n, c, x, p) {
      NotExit(t, c, p, x);
      TripGraphs.PostDominates(t.g, t.kept, t.turned, c, p);
      TripGraphs.PostDominates(t.g, t.kept, t.turned, c, x);
    }
    if y: nat :| t.g.Has(x) && t.g.Edge(x, y) && t.kept(x, y) && OnEveryTrip(t.g, t.kept, c, y) {
      TripGraphs.PostDominates(t.g, t.kept, t.turned, c, y);
      TripGraphs.PostDominates(t.g, t.kept, t.turned, c, x);
      if !OnEveryTrip(t.g, t.kept, c, x) {
        assert EndsAt(t.turned, n, c, x, y);
      }
    }
  }

  lemma NotExit(t: Trip, c: BlockId, p: BlockId, x: BlockId)
    requires t.Valid() && t.g.Has(c) && EndsAt(t.turned, |t.g.blocks|, c, x, p)
    ensures t.g.Has(p) && t.g.Has(x) && t.g.Edge(x, p) && t.kept(x, p)
  {
    hide EndsTrip;
    var n := |t.g.blocks|;
    TurnedEdge(t.g, t.kept, t.turned, p, x);
    OnlyRootAtRoot(t.turned, n, c);
  }

  /** Where all its edges lead only to `c`, so does a block. */
  lemma AllLead(t: Trip, c: BlockId, x: BlockId)
    requires t.g.Valid() && t.g.Has(x) && t.g.blocks[x].succs != []
    requires forall y :: y in t.g.blocks[x].succs ==> t.kept(x, y) && OnEveryTrip(t.g, t.kept, c, y)
    ensures OnEveryTrip(t.g, t.kept, c, x)
  {
    assert !EndsTrip(t.g, t.kept, x);
    hide EndsTrip;
    var y := t.g.blocks[x].succs[0];
    assert y in t.g.blocks[x].succs;
    var q :| TripFrom(t.g, t.kept, y, q);
    Prepended(t.g, t.kept, x, q);
    forall p | TripFrom(t.g, t.kept, x, p) ensures c in p {
      assert |p| > 1;
      assert t.g.Edge(p[0], p[0 + 1]);
      var rest := p[1..];
      PathSlice(t.g, p, 1, |p|);
      assert p[1..|p|] == rest;
      forall k | 0 <= k < |rest| - 1 ensures t.kept(rest[k], rest[k + 1]) {
        assert rest[k] == p[k + 1] && rest[k + 1] == p[k + 1 + 1];
      }
      assert TripFrom(t.g, t.kept, p[1], rest);
    }
  }

  // The thread's turn toward `c` by either edge of a two-way branch.
  ghost predicate LeadsBy(t: Trip, c: BlockId, x: BlockId, y: BlockId) {
    t.kept(x, y) && OnEveryTrip(t.g, t.kept, c, y)
  }

  /** Of the two edges of a branch that decides, one leads only to `c`. */
  lemma OneEdgeLeads(t: Trip, c: BlockId, x: BlockId)
    requires t.Valid() && t.g.Has(c) && Decides(t, c, x) && t.g.Has(x) && |t.g.blocks[x].succs| == 2
    ensures var s := t.g.blocks[x].succs; LeadsBy(t, c, x, s[0]) <==> !LeadsBy(t, c, x, s[1])
    ensures var s := t.g.blocks[x].succs; t.g.Edge(x, s[0]) && t.g.Edge(x, s[1])
    ensures var s := t.g.blocks[x].succs; t.PostDominates(c, s[0]) <==> OnEveryTrip(t.g, t.kept, c, s[0])
  {
    hide OnEveryTrip, Dominates, InFrontier;
    DecidesIs(t, c, x);
    var s := t.g.blocks[x].succs;
    assert s[0] in s && s[1] in s && forall y :: y in s ==> y == s[0] || y == s[1];
    if LeadsBy(t, c, x, s[0]) && LeadsBy(t, c, x, s[1]) {
      AllLead(t, c, x);
    }
    TripGraphs.PostDominates(t.g, t.kept, t.turned, c, s[0]);
  }

  lemma GuardFacts(t: Trip, th: Thread, x: BlockId)
    requires Follows(t, th) && t.g.Has(x) && |t.g.blocks[x].succs| == 2 && t.guards(x).Some?
    ensures Count(th.shape) > 0
    ensures Says(Negated(t.guards(x).value), th) == Negate(Says(t.guards(x).value, th))
    ensures Says(t.guards(x).value, th) == Yes ==> th.pick(x) == t.g.blocks[x].succs[0]
    ensures Says(t.guards(x).value, th) == No ==> th.pick(x) == t.g.blocks[x].succs[1]
  {
    hide Eval, Negated;
    assert GuardHolds(t, th, x);
    NegatedEval(t.guards(x).value, th.tid, th.shape, th.leader, th.place);
  }

  /** What a branch's reading says of the thread is whether it turns toward `c`. */
  lemma TowardSound(t: Trip, th: Thread, x: BlockId, c: BlockId)
    requires t.Valid() && t.g.Has(c) && Follows(t, th) && Decides(t, c, x)
    ensures Count(th.shape) > 0
    ensures Says(TowardOf(t, x, c), th) == Yes ==> TurnsTo(t, th.pick, x, c)
    ensures Says(TowardOf(t, x, c), th) == No ==> !TurnsTo(t, th.pick, x, c)
  {
    hide OnEveryTrip, Eval, Negated, Decides, Dominates, Follows;
    HasShape(t, th);
    DeciderHas(t, c, x);
    if |t.g.blocks[x].succs| == 2 && t.guards(x).Some? {
      GuardFacts(t, th, x);
      OneEdgeLeads(t, c, x);
    } else {
      UnknownSays(th);
    }
  }

  lemma UnknownSays(th: Thread)
    requires Count(th.shape) > 0
    ensures Says(Pred.Unknown, th) == Maybe && Says(Pred.True, th) == Yes && Says(Pred.False, th) == No
  {
  }

  /** A branch that decides has two edges, so its reading decides where every guard does. */
  lemma TowardRead(t: Trip, th: Thread, x: BlockId, c: BlockId)
    requires t.Valid() && t.g.Has(c) && Follows(t, th) && Decides(t, c, x) && AllRead(t, th) && Reaches(t.g, ENTRY, x)
    ensures Says(TowardOf(t, x, c), th) != Maybe
  {
    hide OnEveryTrip, Eval, Negated, Reaches, Dominates;
    DecidesIs(t, c, x);
    var s := t.g.blocks[x].succs;
    if |s| == 1 {
      AllLead(t, c, x);
    } else {
      assert |s| >= 2;
      GuardFacts(t, th, x);
    }
  }

  /** The block where a path to `c` last could still miss it decides on `c`, and the path's start dominates it. */
  lemma LastToDecide(t: Trip, pick: BlockId -> BlockId, rank: BlockId -> nat, d: BlockId,
                     c: BlockId) returns (x: BlockId)
    requires t.Valid() && Ranked(t, rank) && t.g.Has(c) && Dominates(t.g, ENTRY, d, c)
    requires Visits(t, pick, d, c) && !OnEveryTrip(t.g, t.kept, c, d) && OnEveryTrip(t.g, t.kept, c, c)
    ensures Decides(t, c, x) && Visits(t, pick, d, x) && TurnsTo(t, pick, x, c) && Dominates(t.g, ENTRY, d, x)
  {
    hide OnEveryTrip, Dominates, EndsTrip;
    DominatorReaches(t.g, ENTRY, d, c);
    var p :| VisitsBy(t, pick, d, c, p);
    var i := LastMissing(t, c, p);
    x := p[i];
    PathSliced(t, pick, p, 0, i + 1);
    ThreadReached(t, pick, p, i);
    PathDescends(t, pick, rank, p, i, |p| - 1);
    assert t.g.Edge(p[i], p[i + 1]) && t.kept(p[i], p[i + 1]) && p[i + 1] == pick(p[i]);
    DecidesIs(t, c, x);
    StaysDominated(t, pick, rank, d, c, p, i);
  }

  lemma {:induction false} LastMissing(t: Trip, c: BlockId, p: seq<BlockId>) returns (i: nat)
    requires p != [] && !OnEveryTrip(t.g, t.kept, c, p[0]) && OnEveryTrip(t.g, t.kept, c, p[|p| - 1])
    ensures i < |p| - 1 && !OnEveryTrip(t.g, t.kept, c, p[i]) && OnEveryTrip(t.g, t.kept, c, p[i + 1])
  {
    hide OnEveryTrip;
    var n := |p| - 1;
    if !OnEveryTrip(t.g, t.kept, c, p[n - 1]) {
      i := n - 1;
    } else {
      i := LastMissing(t, c, p[..n]);
    }
  }

  lemma {:induction false} PathDescends(t: Trip, pick: BlockId -> BlockId, rank: BlockId -> nat, p: seq<BlockId>,
                                        i: nat, j: nat)
    requires ThreadPath(t, pick, p) && Ranked(t, rank) && i < j < |p| && Reaches(t.g, ENTRY, p[0])
    ensures rank(p[j]) < rank(p[i])
    decreases j
  {
    ThreadReached(t, pick, p, j - 1);
    assert t.g.Edge(p[j - 1], p[j - 1 + 1]) && t.kept(p[j - 1], p[j - 1 + 1]);
    if i < j - 1 {
      PathDescends(t, pick, rank, p, i, j - 1);
    }
  }

  // Round the dominator a path would come back to it.
  lemma StaysDominated(t: Trip, pick: BlockId -> BlockId, rank: BlockId -> nat, d: BlockId, c: BlockId,
                       p: seq<BlockId>, i: nat)
    requires Ranked(t, rank) && VisitsBy(t, pick, d, c, p) && i < |p| && Dominates(t.g, ENTRY, d, c)
    ensures Dominates(t.g, ENTRY, d, p[i])
  {
    DominatorReaches(t.g, ENTRY, d, c);
    ThreadReached(t, pick, p, i);
    var x := p[i];
    PathSlice(t.g, p, i, |p|);
    forall q | Connects(t.g, ENTRY, x, q) ensures d in q {
      PathJoin(t.g, ENTRY, x, c, q, p[i..|p|]);
      assert d in q + p[i..|p|][1..];
      if d in p[i..|p|] {
        var j :| i <= j < |p| && p[j] == d;
        if 0 < j {
          PathDescends(t, pick, rank, p, 0, j);
        }
        assert q[|q| - 1] == d;
      }
    }
  }

  // -- the reading is sound, and complete where nothing is unread ---------------------

  lemma OrSays(a: Pred, b: Pred, w: Pred, th: Thread)
    requires Count(th.shape) > 0
    ensures Says(Disjoined(a, Conjoined(b, w)), th) == Either(Says(a, th), Both(Says(b, th), Says(w, th)))
  {
    hide Eval, Disjoined, Conjoined;
    ConjoinedEval(b, w, th.tid, th.shape, th.leader, th.place);
    DisjoinedEval(a, Conjoined(b, w), th.tid, th.shape, th.leader, th.place);
  }

  /**
   * What the reading says of a thread at `d` is whether its path comes to `c`; it says so unless a guard is not read or
   * the steps run out.
   */
  lemma {:induction false} ReachIsVisits(t: Trip, th: Thread, rank: BlockId -> nat, d: BlockId, c: BlockId, left: nat)
    requires t.Valid() && Ranked(t, rank) && Follows(t, th) && t.g.Has(c) && Dominates(t.g, ENTRY, d, c)
    ensures Says(ReachOf(t, d, c, left).pred, th) == Yes ==> Visits(t, th.pick, d, c)
    ensures Says(ReachOf(t, d, c, left).pred, th) == No ==> !Visits(t, th.pick, d, c)
    ensures !ReachOf(t, d, c, left).cut && AllRead(t, th) ==> Says(ReachOf(t, d, c, left).pred, th) != Maybe
    decreases left, 0
  {
    hide OnEveryTrip, Dominates, Eval, Ranked, Follows, GuardHolds, AllRead, Visits, Levels, WaysOf;
    var n := |t.g.blocks|;
    HasShape(t, th);
    UnknownSays(th);
    DominatorReaches(t.g, ENTRY, d, c);
    TripGraphs.PostDominates(t.g, t.kept, t.turned, c, d);
    if left == 0 {
    } else if t.PostDominates(c, d) {
      VisitsIfOnEvery(t, th.pick, rank, d, c);
    } else {
      EndIsReached(t, th, rank, d, c);
      DecidersDecide(t, c);
      WaysAreVisits(t, th, rank, d, c, Levels(t.deciders, c), left - 1);
      if Visits(t, th.pick, d, c) {
        var x := LastToDecide(t, th.pick, rank, d, c);
      }
    }
  }

  lemma HasShape(t: Trip, th: Thread)
    requires Follows(t, th)
    ensures Count(th.shape) > 0 && Picks(t, th.pick)
  {
  }

  // From a reachable block a trip ends.
  lemma EndIsReached(t: Trip, th: Thread, rank: BlockId -> nat, d: BlockId, c: BlockId)
    requires t.Valid() && Ranked(t, rank) && Follows(t, th) && t.g.Has(c) && Dominates(t.g, ENTRY, d, c)
    ensures Reaches(t.turned, |t.g.blocks|, c) && OnEveryTrip(t.g, t.kept, c, c)
  {
    hide Dominates, EndsTrip;
    ReachedByDominance(t.g, d, c);
    var p := RunsOut(t, th.pick, rank, c);
    TripGraphs.PostDominates(t.g, t.kept, t.turned, c, c);
  }

  lemma DecidersDecide(t: Trip, c: BlockId)
    requires t.Valid() && t.g.Has(c)
    ensures forall x: nat :: x in Levels(t.deciders, c) <==> Decides(t, c, x)
  {
    hide InFrontier;
  }

  lemma {:induction false} WaysAreVisits(t: Trip, th: Thread, rank: BlockId -> nat, d: BlockId, c: BlockId,
                                         xs: seq<BlockId>, left: nat)
    requires t.Valid() && Ranked(t, rank) && Follows(t, th) && t.g.Has(c) && Dominates(t.g, ENTRY, d, c)
    requires forall x :: x in xs ==> Decides(t, c, x)
    ensures Says(WaysOf(t, d, c, xs, left).pred, th) == Yes ==> Visits(t, th.pick, d, c)
    ensures Says(WaysOf(t, d, c, xs, left).pred, th) == No ==>
              forall x :: x in xs && Dominates(t.g, ENTRY, d, x) ==> !(Visits(t, th.pick, d, x) && TurnsTo(t, th.pick, x, c))
    ensures !WaysOf(t, d, c, xs, left).cut && AllRead(t, th) ==> Says(WaysOf(t, d, c, xs, left).pred, th) != Maybe
    decreases left, |xs| + 1
  {
    hide OnEveryTrip, Dominates, Eval, Ranked, Follows, GuardHolds, AllRead, Visits, TurnsTo, Decides, TowardOf, ReachOf;
    HasShape(t, th);
    UnknownSays(th);
    if xs != [] {
      var front, x := xs[..|xs| - 1], xs[|xs| - 1];
      assert xs == front + [x] && x in xs;
      WaysAreVisits(t, th, rank, d, c, front, left);
      DeciderHas(t, c, x);
      if Dominates(t.g, ENTRY, d, x) {
        OneWay(t, th, rank, d, c, x);
        var before := WaysOf(t, d, c, front, left);
        ReachIsVisits(t, th, rank, d, x, before.left);
        OrSays(before.pred, ReachOf(t, d, x, before.left).pred, TowardOf(t, x, c), th);
      }
    }
  }

  lemma DeciderHas(t: Trip, c: BlockId, x: BlockId)
    requires t.Valid() && t.g.Has(c) && Decides(t, c, x)
    ensures t.g.Has(x) && x < |t.deciders|
  {
    DecidesIs(t, c, x);
  }

  // What one branch's reading says of a thread that comes to it.
  lemma OneWay(t: Trip, th: Thread, rank: BlockId -> nat, d: BlockId, c: BlockId, x: BlockId)
    requires t.Valid() && Ranked(t, rank) && Follows(t, th) && t.g.Has(c) && Decides(t, c, x) && Dominates(t.g, ENTRY, d, x)
    ensures Visits(t, th.pick, d, x) && TurnsTo(t, th.pick, x, c) ==> Visits(t, th.pick, d, c)
    ensures Says(TowardOf(t, x, c), th) == Yes ==> TurnsTo(t, th.pick, x, c)
    ensures Says(TowardOf(t, x, c), th) == No ==> !TurnsTo(t, th.pick, x, c)
    ensures AllRead(t, th) ==> Says(TowardOf(t, x, c), th) != Maybe
  {
    hide OnEveryTrip, Dominates, Eval, Ranked, GuardHolds, AllRead, Visits, Decides, TowardOf;
    TowardSound(t, th, x, c);
    DominatorReaches(t.g, ENTRY, d, x);
    ReachedByDominance(t.g, d, x);
    if AllRead(t, th) {
      TowardRead(t, th, x, c);
    }
    if TurnsTo(t, th.pick, x, c) {
      ReachesStep(t.g, ENTRY, x, th.pick(x));
      VisitsIfOnEvery(t, th.pick, rank, th.pick(x), c);
      if Visits(t, th.pick, d, x) {
        VisitsThrough(t, th.pick, d, x, c);
      }
    }
  }

  lemma ReachedByDominance(g: Cfg, d: BlockId, x: BlockId)
    requires Dominates(g, ENTRY, d, x)
    ensures Reaches(g, ENTRY, x)
  {
  }

  // -- whole kernels ---------------------------------------------------------------------

  const REACH_BUDGET: nat := 32

  /**
   * Which threads run `b` where the trip is the whole kernel's: those that run its immediate dominator and reach it.
   */
  ghost function BlockOf(t: Trip, doms: DominanceInfo, b: BlockId): (s: Step)
    requires DominanceOf(t.g, ENTRY, doms) && b < |t.g.blocks| && |t.g.blocks| < |t.deciders|
    decreases doms.rpoIndex[b]
  {
    if doms.idom[b].Some? then
      var at, step := BlockOf(t, doms, doms.idom[b].value), ReachOf(t, doms.idom[b].value, b, REACH_BUDGET);
      Step(Conjoined(at.pred, step.pred), step.left, at.cut || step.cut)
    else Step(if b == ENTRY then True else False, REACH_BUDGET, false)
  }

  lemma VisitsJoin(t: Trip, pick: BlockId -> BlockId, d: BlockId, x: BlockId, c: BlockId)
    requires Visits(t, pick, d, x) && Visits(t, pick, x, c)
    ensures Visits(t, pick, d, c)
  {
    var q :| VisitsBy(t, pick, x, c, q);
    if |q| > 1 {
      assert q[0 + 1] == pick(q[0]) && t.g.Edge(q[0], q[0 + 1]) && t.kept(q[0], q[0 + 1]);
      PathSliced(t, pick, q, 1, |q|);
      VisitsThrough(t, pick, d, x, c);
    }
  }

  /** A thread that comes to a block came to its dominator. */
  lemma VisitsSplit(t: Trip, pick: BlockId -> BlockId, d: BlockId, c: BlockId)
    requires Visits(t, pick, ENTRY, c) && Dominates(t.g, ENTRY, d, c)
    ensures Visits(t, pick, ENTRY, d) && Visits(t, pick, d, c)
  {
    var p :| VisitsBy(t, pick, ENTRY, c, p);
    assert Connects(t.g, ENTRY, c, p);
    var i :| 0 <= i < |p| && p[i] == d;
    PathSliced(t, pick, p, 0, i + 1);
    PathSliced(t, pick, p, i, |p|);
  }

  lemma VisitsReaches(t: Trip, pick: BlockId -> BlockId, d: BlockId, c: BlockId)
    ensures Visits(t, pick, d, c) ==> Reaches(t.g, d, c)
  {
    if p :| VisitsBy(t, pick, d, c, p) {
      assert Connects(t.g, d, c, p);
    }
  }

  // A block's reading from the one above it.
  lemma BlockFrom(t: Trip, doms: DominanceInfo, b: BlockId)
    requires t.Valid() && DominanceOf(t.g, ENTRY, doms) && t.g.Has(b)
    ensures b < |t.g.blocks| < |t.deciders| && |doms.idom| == |t.g.blocks| <= |doms.rpoIndex|
    ensures match doms.idom[b]
            case Some(d) =>
              t.g.Has(d) && d < |t.g.blocks| && Dominates(t.g, ENTRY, d, b) && doms.rpoIndex[d] < doms.rpoIndex[b] &&
              (var at, step := BlockOf(t, doms, d), ReachOf(t, d, b, REACH_BUDGET);
               BlockOf(t, doms, b) == Step(Conjoined(at.pred, step.pred), step.left, at.cut || step.cut))
            case None =>
              BlockOf(t, doms, b) == Step(if b == ENTRY then True else False, REACH_BUDGET, false) &&
              (b == ENTRY || !Reaches(t.g, ENTRY, b))
  {
    hide ReachOf, Conjoined, InFrontier, Turned, Dominates, Reaches;
    InfoSizes(t.g, ENTRY, doms);
  }

  lemma BothSay(a: Pred, b: Pred, th: Thread)
    requires Count(th.shape) > 0
    ensures var (x, y, z) := (Says(a, th), Says(b, th), Says(Conjoined(a, b), th));
      && (z == Yes <==> x == Yes && y == Yes) && (z == No <==> x == No || y == No)
  {
    hide Eval, Conjoined;
    ConjoinedEval(a, b, th.tid, th.shape, th.leader, th.place);
  }

  // A thread runs a block exactly where it runs the one above it and goes on to it from there.
  lemma ByDominator(t: Trip, th: Thread, doms: DominanceInfo, d: BlockId, b: BlockId)
    requires t.Valid() && DominanceOf(t.g, ENTRY, doms) && t.g.Has(b) && t.g.Has(d) && doms.idom[b] == Some(d)
    ensures Visits(t, th.pick, ENTRY, b) <==> Visits(t, th.pick, ENTRY, d) && Visits(t, th.pick, d, b)
  {
    hide Visits;
    if Visits(t, th.pick, ENTRY, d) && Visits(t, th.pick, d, b) {
      VisitsJoin(t, th.pick, ENTRY, d, b);
    }
    if Visits(t, th.pick, ENTRY, b) {
      VisitsSplit(t, th.pick, d, b);
    }
  }

  /** What a block's reading says of a thread is whether the thread runs it. */
  lemma {:induction false} BlockIsVisited(t: Trip, th: Thread, rank: BlockId -> nat, doms: DominanceInfo, b: BlockId)
    requires t.Valid() && Ranked(t, rank) && Follows(t, th) && t.g.Has(b) && DominanceOf(t.g, ENTRY, doms)
    ensures Says(BlockOf(t, doms, b).pred, th) == Yes ==> Visits(t, th.pick, ENTRY, b)
    ensures Says(BlockOf(t, doms, b).pred, th) == No ==> !Visits(t, th.pick, ENTRY, b)
    ensures !BlockOf(t, doms, b).cut && AllRead(t, th) ==> Says(BlockOf(t, doms, b).pred, th) != Maybe
    decreases doms.rpoIndex[b]
  {
    hide *;
    HasShape(t, th);
    UnknownSays(th);
    BlockFrom(t, doms, b);
    if doms.idom[b].Some? {
      var d := doms.idom[b].value;
      BlockIsVisited(t, th, rank, doms, d);
      ReachIsVisits(t, th, rank, d, b, REACH_BUDGET);
      BothSay(BlockOf(t, doms, d).pred, ReachOf(t, d, b, REACH_BUDGET).pred, th);
      ByDominator(t, th, doms, d, b);
    } else if b == ENTRY {
      AtOnce(t, th.pick, b);
    } else {
      VisitsReaches(t, th.pick, ENTRY, b);
    }
  }

  lemma AtOnce(t: Trip, pick: BlockId -> BlockId, b: BlockId)
    requires t.g.Has(b)
    ensures Visits(t, pick, b, b)
  {
    assert VisitsBy(t, pick, b, b, [b]);
  }
}
