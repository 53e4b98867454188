/** How many steps a reading takes, and that it gives up just where its budget is less. */
module ReadingSteps {
  import opened Wrappers
  import opened Graphs
  import opened Dominators
  import opened Frontiers
  import opened TripGraphs
  import opened ControlDependence

  // The steps from `d` to `c`: one for itself, and those to each decider below `d`; none known past `depth` deciders
  // one above the other.
  ghost function StepsOf(t: Trip, d: BlockId, c: BlockId, depth: nat): Option<nat>
    requires c < |t.deciders|
    decreases depth, 0
  {
    if t.PostDominates(c, d) || !Reaches(t.turned, |t.g.blocks|, c) then Some(1)
    else if depth == 0 then None
    else match StepsOfAll(t, d, Levels(t.deciders, c), depth - 1) case Some(n) => Some(1 + n) case None => None
  }

  ghost function StepsOfAll(t: Trip, d: BlockId, xs: seq<BlockId>, depth: nat): Option<nat>
    decreases depth, |xs| + 1
  {
    if xs == [] then Some(0) else
    var x := xs[|xs| - 1];
    match StepsOfAll(t, d, xs[..|xs| - 1], depth)
    case None => None
    case Some(n) =>
      if !(Dominates(t.g, ENTRY, d, x) && x < |t.deciders|) then Some(n) else
      match StepsOf(t, d, x, depth) case Some(m) => Some(n + m) case None => None
  }

  // The reading spends so many steps of its budget, and gives up where it has fewer.
  ghost predicate Spends(s: Step, left: nat, n: nat) {
    if n <= left then !s.cut && s.left == left - n else s.cut
  }

  /** A reading gives up just where its steps are more than its budget, and else has the rest left. */
  lemma {:induction false} ReachSpends(t: Trip, d: BlockId, c: BlockId, left: nat, depth: nat)
    requires c < |t.deciders| && StepsOf(t, d, c, depth).Some?
    ensures StepsOf(t, d, c, depth).value >= 1 && Spends(ReachOf(t, d, c, left), left, StepsOf(t, d, c, depth).value)
    decreases depth, 0
  {
    hide Dominates, Reaches, Levels, StepsOfAll, WaysOf;
    if !(t.PostDominates(c, d) || !Reaches(t.turned, |t.g.blocks|, c)) {
      WaysSpend(t, d, c, Levels(t.deciders, c), if left == 0 then 0 else left - 1, depth - 1);
    }
  }

  lemma {:induction false} WaysSpend(t: Trip, d: BlockId, c: BlockId, xs: seq<BlockId>, left: nat, depth: nat)
    requires StepsOfAll(t, d, xs, depth).Some?
    ensures Spends(WaysOf(t, d, c, xs, left), left, StepsOfAll(t, d, xs, depth).value)
    decreases depth, |xs| + 1
  {
    hide Dominates, Reaches, Levels, StepsOf, ReachOf, TowardOf;
    if xs != [] {
      var front, x := xs[..|xs| - 1], xs[|xs| - 1];
      WaysSpend(t, d, c, front, left, depth);
      if Dominates(t.g, ENTRY, d, x) && x < |t.deciders| {
        ReachSpends(t, d, x, WaysOf(t, d, c, front, left).left, depth);
      }
    }
  }

  // -- the steps are known --------------------------------------------------------------

  // Some successor of each block.
  ghost function First(t: Trip): BlockId -> BlockId {
    (x: BlockId) => if x < |t.g.blocks| && t.g.blocks[x].succs != [] then t.g.blocks[x].succs[0] else 0
  }

  lemma FirstPicks(t: Trip)
    ensures Picks(t, First(t))
  {
  }

  /** A decider ranks above what it decides on. */
  lemma DeciderRanks(t: Trip, rank: BlockId -> nat, c: BlockId, x: BlockId)
    requires t.Valid() && Ranked(t, rank) && t.g.Has(c) && Decides(t, c, x) && Reaches(t.g, ENTRY, x)
    ensures rank(x) > rank(c)
  {
    hide OnEveryTrip, EndsTrip, Reaches, Picks, Ranked;
    DecidesIs(t, c, x);
    var y: nat :| t.g.Edge(x, y) && t.kept(x, y) && OnEveryTrip(t.g, t.kept, c, y);
    ReachesStep(t.g, ENTRY, x, y);
    FirstPicks(t);
    EdgeDescends(t, rank, x, y);
    var pick := First(t);
    VisitsIfOnEvery(t, pick, rank, y, c);
    var p :| VisitsBy(t, pick, y, c, p);
    if |p| > 1 {
      PathDescends(t, pick, rank, p, 0, |p| - 1);
    }
  }

  lemma EdgeDescends(t: Trip, rank: BlockId -> nat, x: BlockId, y: BlockId)
    requires Ranked(t, rank) && Reaches(t.g, ENTRY, x) && t.g.Edge(x, y) && t.kept(x, y)
    ensures rank(y) < rank(x)
  {
  }

  /** Where every block ranks at most `top`, the steps are known at a depth past `top` less the block's rank. */
  lemma {:induction false} StepsAreKnown(t: Trip, rank: BlockId -> nat, d: BlockId, c: BlockId, top: nat, depth: nat)
    requires t.Valid() && Ranked(t, rank) && t.g.Has(c) && Reaches(t.g, ENTRY, c)
    requires (forall x: nat :: t.g.Has(x) ==> rank(x) <= top) && depth + rank(c) > top
    ensures c < |t.deciders| && StepsOf(t, d, c, depth).Some?
    decreases depth, 0
  {
    hide OnEveryTrip, Dominates, Ranked, Reaches, Levels, StepsOfAll, InFrontier;
    if !(t.PostDominates(c, d) || !Reaches(t.turned, |t.g.blocks|, c)) {
      DecidersDecide(t, c);
      forall x | x in Levels(t.deciders, c) && Dominates(t.g, ENTRY, d, x)
        ensures t.g.Has(x) && Reaches(t.g, ENTRY, x) && rank(x) > rank(c)
      {
        DeciderHas(t, c, x);
        ReachedByDominance(t.g, d, x);
        DeciderRanks(t, rank, c, x);
      }
      AllKnown(t, rank, d, Levels(t.deciders, c), top, depth - 1);
    }
  }

  lemma {:induction false} AllKnown(t: Trip, rank: BlockId -> nat, d: BlockId, xs: seq<BlockId>, top: nat, depth: nat)
    requires t.Valid() && Ranked(t, rank) && forall x: nat :: t.g.Has(x) ==> rank(x) <= top
    requires forall x :: x in xs && Dominates(t.g, ENTRY, d, x) ==>
      t.g.Has(x) && Reaches(t.g, ENTRY, x) && depth + rank(x) > top
    ensures StepsOfAll(t, d, xs, depth).Some?
    decreases depth, |xs| + 1
  {
    hide OnEveryTrip, Dominates, Ranked, Reaches, Levels, StepsOf, InFrontier;
    if xs != [] {
      var x := xs[|xs| - 1];
      assert x in xs;
      AllKnown(t, rank, d, xs[..|xs| - 1], top, depth);
      if Dominates(t.g, ENTRY, d, x) {
        StepsAreKnown(t, rank, d, x, top, depth);
      }
    }
  }

  /** So on such a trip a reading gives up just where the steps to the block are more than its budget. */
  lemma GivesUpWhere(t: Trip, rank: BlockId -> nat, d: BlockId, c: BlockId, top: nat, left: nat)
    requires t.Valid() && Ranked(t, rank) && t.g.Has(c) && Reaches(t.g, ENTRY, c)
    requires forall x: nat :: t.g.Has(x) ==> rank(x) <= top
    ensures c < |t.deciders| && StepsOf(t, d, c, top + 1).Some?
    ensures ReachOf(t, d, c, left).cut <==> StepsOf(t, d, c, top + 1).value > left
  {
    hide Ranked, Reaches, StepsOf, ReachOf;
    StepsAreKnown(t, rank, d, c, top, top + 1);
    ReachSpends(t, d, c, left, top + 1);
  }
}
