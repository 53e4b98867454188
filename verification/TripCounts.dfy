/** The trips a run makes through a loop left at its latch: those its latch is solved for. */
module TripCounts {
  import opened Wrappers
  import opened Divisions
  import opened Graphs
  import opened NaturalLoops
  import opened Loops
  import opened LoopForest
  import opened LoopStays
  import opened Ssa
  import opened CounterRuns
  import E = ExitLimits
  import X = SymExprs

  // A run that enters a loop at `e`, what its counter's step adds staying as it is from there on.
  ghost predicate Entered(k: seq<Op>, ssa: RegisterSsa, f: Forest, l: LoopId, reg: Register, ct: Counter,
                          p: seq<BlockId>, H: History, e: nat, c: Amounts)
  {
    && FormOf(k, ssa) && ForestOf(ssa.g, f) && l < |f.loops| && CounterIs(k, ssa, f, l, reg, ct)
    && RunOf(k, ssa.g, p, H) && e < |p| && p[e] == f.loops[l].header && Steady(ssa, f, p, H, e, ct.step, c)
  }

  lemma EnteredFacts(k: seq<Op>, ssa: RegisterSsa, f: Forest, l: LoopId, reg: Register, ct: Counter, p: seq<BlockId>,
                     H: History, e: nat, c: Amounts)
    requires Entered(k, ssa, f, l, reg, ct, p, H, e, c)
    ensures Ssa.Valid(ssa) && IsPath(ssa.g, p) && e < |p| && l < |f.loops| && p[e] == f.loops[l].header && ssa.g.Has(p[e])
  {
    hide Ssa.Valid, ForestOf, CounterIs, Steady, Runs, Carries;
  }

  ghost function StepOf(ssa: RegisterSsa, ct: Counter, c: Amounts): int
    requires Ssa.Valid(ssa)
  {
    StepValue(ssa, ct.step, ReadingOf(ssa, c), c)
  }

  // What the counter holds at the run of the header at `i`.
  ghost function HeldAt(g: Cfg, H: History, h: BlockId, reg: Register, i: nat): int {
    if g.Has(h) then H(i, g.blocks[h].start, reg) else 0
  }

  // How many times the run from `e` to `t` ran the header.
  ghost function TripAt(p: seq<BlockId>, h: BlockId, e: nat, t: nat): int {
    if e <= t < |p| then Times(p, h, t + 1) - Times(p, h, e) else 0
  }

  // What a latch reads of the counter at the end of a trip: the value fed back, or before its increment the trip's own.
  ghost function Tested(g: Cfg, p: seq<BlockId>, H: History, h: BlockId, reg: Register, before: bool, t: nat): int {
    if before then (if t < |p| && h in p[..t + 1] then HeldAt(g, H, h, reg, LastIndex(p[..t + 1], h)) else 0)
    else if t < |p| && g.Has(p[t]) then H(t, g.blocks[p[t]].end, reg)
    else 0
  }

  ghost predicate Passes(g: Cfg, p: seq<BlockId>, H: History, h: BlockId, reg: Register, before: bool, cmp: E.Cmp,
                         bound: int, t: nat) {
    E.Holds(cmp, Tested(g, p, H, h, reg, before, t) - bound)
  }

  /**
   * From its header at `e` the run stays in the loop until it leaves it for position `x`, at a latch: a trip ends with
   * another one where the tested value less `bound` passes the comparison, and the last does not.
   */
  ghost predicate LeftAtLatch(g: Cfg, p: seq<BlockId>, H: History, h: BlockId, reg: Register, before: bool,
                              cmp: E.Cmp, bound: int, e: nat, x: nat)
  {
    && IsPath(g, p) && e < x < |p| && p[e] == h && g.Has(h)
    && (forall t :: e <= t < x ==> InBody(g, h, p[t])) && !InBody(g, h, p[x]) && g.Edge(p[x - 1], h)
    && (forall t :: e <= t < x - 1 && p[t + 1] == h ==> Passes(g, p, H, h, reg, before, cmp, bound, t))
    && !Passes(g, p, H, h, reg, before, cmp, bound, x - 1)
  }

  // The run goes on from `t` at the header or outside the loop, if at all.
  ghost predicate TripEnds(g: Cfg, h: BlockId, p: seq<BlockId>, t: nat) {
    t + 1 < |p| ==> p[t + 1] == h || !InBody(g, h, p[t + 1])
  }

  lemma SteadyTrip(k: seq<Op>, ssa: RegisterSsa, f: Forest, l: LoopId, reg: Register, ct: Counter, p: seq<BlockId>,
                   H: History, e: nat, t: nat, c: Amounts)
    requires Entered(k, ssa, f, l, reg, ct, p, H, e, c) && l < |f.loops| && t < |p|
    requires ct.step.exits == [] || TripEnds(ssa.g, f.loops[l].header, p, t)
    ensures Ssa.Valid(ssa) && IsPath(ssa.g, p[..t + 1]) && Steady(ssa, f, p[..t + 1], H, e, ct.step, c)
  {
    hide Ssa.Valid, InBody, ForestOf, CounterIs, FormOf, RunOf, Laps, NestedIn, ReadsSteady, EndsApart;
    EnteredFacts(k, ssa, f, l, reg, ct, p, H, e, c);
    FormValid(k, ssa);
    Prefix(ssa.g, p, t + 1);
    if ct.step.exits == [] {
      ReadsSteadyPrefix(ssa, p, H, e, ct.step, c, t + 1);
    } else {
      CounterNested(k, ssa, f, l, reg, ct);
      TripEndsApart(ssa.g, f, l, p, t + 1);
      SteadyPrefix(ssa, f, l, p, H, e, ct.step, c, t + 1);
    }
  }

  // The start of the trip a latch ends, and what the counter holds there and feeds back.
  lemma TripOf(k: seq<Op>, ssa: RegisterSsa, f: Forest, l: LoopId, reg: Register, ct: Counter, p: seq<BlockId>,
               H: History, e: nat, t: nat, c: Amounts) returns (i: nat)
    requires Entered(k, ssa, f, l, reg, ct, p, H, e, c) && l < |f.loops| && e <= t < |p|
    requires forall j :: e <= j <= t ==> InBody(ssa.g, f.loops[l].header, p[j])
    requires ssa.g.Edge(p[t], f.loops[l].header) && (ct.step.exits == [] || TripEnds(ssa.g, f.loops[l].header, p, t))
    ensures Ssa.Valid(ssa) && LastAt(p[..t + 1], f.loops[l].header, i)
    ensures TripAt(p, f.loops[l].header, e, i) == TripAt(p, f.loops[l].header, e, t)
    ensures var h := f.loops[l].header;
      && H(t, ssa.g.blocks[p[t]].end, reg) == HeldAt(ssa.g, H, h, reg, i) + StepOf(ssa, ct, c)
      && HeldAt(ssa.g, H, h, reg, i) == HeldAt(ssa.g, H, h, reg, e) + (TripAt(p, h, e, t) - 1) * StepOf(ssa, ct, c)
  {
    hide Ssa.Valid, InBody, ForestOf, CounterIs, FormOf, StepValue, ReadingOf, RunOf, Steady;
    EnteredFacts(k, ssa, f, l, reg, ct, p, H, e, c);
    var h := f.loops[l].header;
    i := PreviousHeader(p, h, e, t + 1);
    RunPrefix(k, ssa.g, p, H, t + 1);
    SteadyTrip(k, ssa, f, l, reg, ct, p, H, e, t, c);
    assert p[..t + 1][t] == p[t];
    FedHolds(k, ssa, f, l, reg, ct, p[..t + 1], H, e, i, c);
    CounterHolds(k, ssa, f, l, reg, ct, p, H, e, i, c);
  }

  /** At the end of trip k the latch reads the start plus k steps, or before the increment plus k - 1. */
  lemma TestedIs(k: seq<Op>, ssa: RegisterSsa, f: Forest, l: LoopId, reg: Register, ct: Counter, p: seq<BlockId>,
                 H: History, e: nat, t: nat, c: Amounts, before: bool)
    requires Entered(k, ssa, f, l, reg, ct, p, H, e, c) && l < |f.loops| && e <= t < |p|
    requires forall j :: e <= j <= t ==> InBody(ssa.g, f.loops[l].header, p[j])
    requires ssa.g.Edge(p[t], f.loops[l].header) && (ct.step.exits == [] || TripEnds(ssa.g, f.loops[l].header, p, t))
    ensures Ssa.Valid(ssa)
    ensures var h := f.loops[l].header;
      Tested(ssa.g, p, H, h, reg, before, t) ==
        HeldAt(ssa.g, H, h, reg, e) + (TripAt(p, h, e, t) - if before then 1 else 0) * StepOf(ssa, ct, c)
  {
    hide Ssa.Valid, InBody, Entered, StepOf, HeldAt, TripAt;
    var i := TripOf(k, ssa, f, l, reg, ct, p, H, e, t, c);
    LastIndexIs(p[..t + 1], f.loops[l].header, i);
    Distributes(StepOf(ssa, ct, c), TripAt(p, f.loops[l].header, e, t) - 1, 1);
  }

  lemma {:induction false} TimesGrow(p: seq<BlockId>, h: BlockId, i: nat, j: nat)
    requires i <= j <= |p|
    ensures Times(p, h, i) <= Times(p, h, j)
    decreases j
  {
    if i < j {
      TimesGrow(p, h, i, j - 1);
    }
  }

  // Where a trip that is not the last ends.
  lemma {:induction false} EndOfTrip(p: seq<BlockId>, h: BlockId, e: nat, x: nat, n: nat) returns (t: nat)
    requires e < x <= |p| && p[e] == h && 1 <= n < TripAt(p, h, e, x - 1)
    ensures e <= t < x - 1 && p[t + 1] == h && TripAt(p, h, e, t) == n
    decreases x
  {
    if p[x - 1] == h && Times(p, h, x - 1) - Times(p, h, e) == n {
      t := x - 2;
    } else {
      t := EndOfTrip(p, h, e, x - 1, n);
    }
  }

  lemma LeavesAt(g: Cfg, p: seq<BlockId>, H: History, h: BlockId, reg: Register, before: bool, cmp: E.Cmp, bound: int,
                 e: nat, x: nat)
    requires LeftAtLatch(g, p, H, h, reg, before, cmp, bound, e, x)
    ensures IsPath(g, p) && e < x < |p| && p[e] == h && g.Has(h) && g.Edge(p[x - 1], h)
    ensures forall t :: e <= t < x ==> InBody(g, h, p[t])
    ensures !Passes(g, p, H, h, reg, before, cmp, bound, x - 1) && TripAt(p, h, e, x - 1) >= 1 && TripEnds(g, h, p, x - 1)
  {
    hide InBody, Passes;
    TimesGrow(p, h, e + 1, x);
  }

  lemma GoesRound(g: Cfg, p: seq<BlockId>, H: History, h: BlockId, reg: Register, before: bool, cmp: E.Cmp,
                  bound: int, e: nat, x: nat, t: nat)
    requires LeftAtLatch(g, p, H, h, reg, before, cmp, bound, e, x) && e <= t < x - 1 && p[t + 1] == h
    ensures Passes(g, p, H, h, reg, before, cmp, bound, t) && g.Edge(p[t], h) && TripEnds(g, h, p, t)
  {
    hide InBody, Passes;
    assert g.Edge(p[t], p[t + 1]);
  }

  // What a latch's test starts from, at k = 0.
  ghost function FromOf(start: int, step: int, bound: int, before: bool): int {
    start - bound - if before then step else 0
  }

  // What a trip's end tests: the step times the trip's number plus where it starts from.
  lemma TestIs(k: seq<Op>, ssa: RegisterSsa, f: Forest, l: LoopId, reg: Register, ct: Counter, p: seq<BlockId>,
               H: History, e: nat, t: nat, c: Amounts, before: bool, cmp: E.Cmp, bound: int)
    requires Entered(k, ssa, f, l, reg, ct, p, H, e, c) && l < |f.loops| && e <= t < |p|
    requires forall j :: e <= j <= t ==> InBody(ssa.g, f.loops[l].header, p[j])
    requires ssa.g.Edge(p[t], f.loops[l].header) && (ct.step.exits == [] || TripEnds(ssa.g, f.loops[l].header, p, t))
    ensures Ssa.Valid(ssa)
    ensures var h := f.loops[l].header; var step := StepOf(ssa, ct, c);
      Passes(ssa.g, p, H, h, reg, before, cmp, bound, t) <==>
      E.GoesOn(cmp, step, FromOf(HeldAt(ssa.g, H, h, reg, e), step, bound, before), TripAt(p, h, e, t))
  {
    hide Ssa.Valid, InBody, Entered, StepOf, HeldAt, TripAt, Tested, E.Holds;
    TestedIs(k, ssa, f, l, reg, ct, p, H, e, t, c, before);
    Distributes(StepOf(ssa, ct, c), TripAt(p, f.loops[l].header, e, t) - 1, 1);
  }

  /** A run makes the trips its latch makes by the step and where its test starts from. */
  lemma TripsOnRun(k: seq<Op>, ssa: RegisterSsa, f: Forest, l: LoopId, reg: Register, ct: Counter, p: seq<BlockId>,
                   H: History, e: nat, x: nat, c: Amounts, before: bool, cmp: E.Cmp, bound: int)
    requires Entered(k, ssa, f, l, reg, ct, p, H, e, c) && l < |f.loops|
    requires LeftAtLatch(ssa.g, p, H, f.loops[l].header, reg, before, cmp, bound, e, x)
    ensures Ssa.Valid(ssa) && e < x < |p|
    ensures var h := f.loops[l].header; var step := StepOf(ssa, ct, c);
      E.RunsTrips(cmp, step, FromOf(HeldAt(ssa.g, H, h, reg, e), step, bound, before), TripAt(p, h, e, x - 1))
  {
    hide Ssa.Valid, InBody, Entered, StepOf, HeldAt, TripAt, Passes, E.GoesOn, LeftAtLatch, FromOf, TripEnds;
    EnteredFacts(k, ssa, f, l, reg, ct, p, H, e, c);
    var h, step := f.loops[l].header, StepOf(ssa, ct, c);
    LeavesAt(ssa.g, p, H, h, reg, before, cmp, bound, e, x);
    TestIs(k, ssa, f, l, reg, ct, p, H, e, x - 1, c, before, cmp, bound);
    forall i | 1 <= i < TripAt(p, h, e, x - 1)
      ensures E.GoesOn(cmp, step, FromOf(HeldAt(ssa.g, H, h, reg, e), step, bound, before), i)
    {
      var t := EndOfTrip(p, h, e, x, i);
      GoesRound(ssa.g, p, H, h, reg, before, cmp, bound, e, x, t);
      TestIs(k, ssa, f, l, reg, ct, p, H, e, t, c, before, cmp, bound);
    }
  }

  /** Where every stay in a loop is left at its latch, whose test counts `n` trips, each stay makes `n` laps. */
  lemma LapsOnRun(k: seq<Op>, ssa: RegisterSsa, f: Forest, l: LoopId, reg: Register, ct: Counter, p: seq<BlockId>,
                  H: History, e: nat, c: Amounts, before: bool, cmp: E.Cmp, bound: nat -> int, n: int)
    requires FormOf(k, ssa) && l < |f.loops| && IsPath(ssa.g, p) && p[0] == ENTRY
    requires !InBody(ssa.g, f.loops[l].header, p[|p| - 1])
    requires forall t: nat, x: nat ::
      (e <= x < |p| && StaysFrom(ssa.g, f.loops[l].header, p, t, x) && Leaves(ssa.g, f.loops[l].header, p, x) ==>
       StayCounts(k, ssa, f, l, reg, ct, p, H, t, x, c, before, cmp, bound(t), n))
    ensures Laps(ssa.g, f.loops[l].header, p, e, n)
  {
    hide InBody, Stay, StaysFrom, StayCounts;
    var h := f.loops[l].header;
    forall x: nat | e <= x < |p| && Leaves(ssa.g, h, p, x) ensures Stay(ssa.g, h, p, x + 1) == n {
      var t := StayStarts(ssa.g, h, p, x);
      StayBounds(ssa.g, h, p, t, x);
      assert StayCounts(k, ssa, f, l, reg, ct, p, H, t, x, c, before, cmp, bound(t), n);
      StayIsTrips(k, ssa, f, l, reg, ct, p, H, t, x, c, before, cmp, bound(t), n);
    }
  }

  lemma StayBounds(g: Cfg, h: BlockId, p: seq<BlockId>, t: nat, x: nat)
    requires StaysFrom(g, h, p, t, x)
    ensures t <= x < |p|
  {
    hide InBody;
  }

  // The stay from `t` to `x` is one through the loop's latch, whose test counts `n` trips from what the stay starts
  // with.
  ghost predicate StayCounts(k: seq<Op>, ssa: RegisterSsa, f: Forest, l: LoopId, reg: Register, ct: Counter,
                             p: seq<BlockId>, H: History, t: nat, x: nat, c: Amounts, before: bool, cmp: E.Cmp,
                             bound: int, n: int)
  {
    && Entered(k, ssa, f, l, reg, ct, p, H, t, c) && Ssa.Valid(ssa) && l < |f.loops| && x < |p|
    && LeftAtLatch(ssa.g, p, H, f.loops[l].header, reg, before, cmp, bound, t, x + 1)
    && E.RunsTrips(cmp, StepOf(ssa, ct, c),
                   FromOf(HeldAt(ssa.g, H, f.loops[l].header, reg, t), StepOf(ssa, ct, c), bound, before), n)
  }

  lemma StayIsTrips(k: seq<Op>, ssa: RegisterSsa, f: Forest, l: LoopId, reg: Register, ct: Counter, p: seq<BlockId>,
                    H: History, t: nat, x: nat, c: Amounts, before: bool, cmp: E.Cmp, bound: int, n: int)
    requires l < |f.loops| && t <= x < |p|
    requires StayCounts(k, ssa, f, l, reg, ct, p, H, t, x, c, before, cmp, bound, n)
    ensures Times(p, f.loops[l].header, x + 1) - Times(p, f.loops[l].header, t) == n
  {
    hide InBody, Ssa.Valid, Entered, LeftAtLatch, StepOf, FromOf, HeldAt, E.RunsTrips;
    TripsOnRun(k, ssa, f, l, reg, ct, p, H, t, x + 1, c, before, cmp, bound);
    OneCount(cmp, StepOf(ssa, ct, c), FromOf(HeldAt(ssa.g, H, f.loops[l].header, reg, t), StepOf(ssa, ct, c), bound, before),
             TripAt(p, f.loops[l].header, t, x), n);
  }

  lemma OneCount(cmp: E.Cmp, a1: int, a0: int, n: int, m: int)
    requires E.RunsTrips(cmp, a1, a0, n) && E.RunsTrips(cmp, a1, a0, m)
    ensures n == m
  {
  }

  // The latch's test in the form it is solved in.
  ghost predicate Reads(ssa: RegisterSsa, ct: Counter, c: Amounts, H: History, h: BlockId, reg: Register, e: nat,
                        before: bool, bound: int, a1: X.Int64, a0: X.SymExpr, env: X.Env)
  {
    && Ssa.Valid(ssa) && a1 == StepOf(ssa, ct, c) && X.Shaped(a0)
    && X.Value(a0, env) == FromOf(HeldAt(ssa.g, H, h, reg, e), a1, bound, before)
  }

  /** A run through a loop left at an ordered latch solved for T makes max(T, 1) trips. */
  lemma OrderedRunTrips(k: seq<Op>, ssa: RegisterSsa, f: Forest, l: LoopId, reg: Register, ct: Counter,
                        p: seq<BlockId>, H: History,
                        e: nat, x: nat, c: Amounts, before: bool, cmp: E.Cmp, bound: int, a1: X.Int64, a0: X.SymExpr,
                        env: X.Env)
    requires Entered(k, ssa, f, l, reg, ct, p, H, e, c) && l < |f.loops|
    requires LeftAtLatch(ssa.g, p, H, f.loops[l].header, reg, before, cmp, bound, e, x)
    requires Reads(ssa, ct, c, H, f.loops[l].header, reg, e, before, bound, a1, a0, env)
    requires cmp != E.Ne && E.Solvable(cmp, a1, a0) && E.ExitLimit(cmp, a1, a0).Solved?
    ensures e < x < |p| &&
      TripAt(p, f.loops[l].header, e, x - 1) == E.AtLeast(X.Value(E.ExitLimit(cmp, a1, a0).trips, env), 1)
  {
    hide Ssa.Valid, InBody, Entered, StepOf, HeldAt, TripAt, LeftAtLatch, FromOf, X.Value, E.ExitLimit, X.Shaped, E.RunsTrips;
    TripsOnRun(k, ssa, f, l, reg, ct, p, H, e, x, c, before, cmp, bound);
    E.OrderedTripsExact(cmp, a1, a0, env);
    OneCount(cmp, a1, X.Value(a0, env), TripAt(p, f.loops[l].header, e, x - 1),
             E.AtLeast(X.Value(E.ExitLimit(cmp, a1, a0).trips, env), 1));
  }

  /** Through one left at a `!=` latch, those solved for if and only if the distance is a positive number of steps. */
  lemma UnequalRunTrips(k: seq<Op>, ssa: RegisterSsa, f: Forest, l: LoopId, reg: Register, ct: Counter,
                        p: seq<BlockId>, H: History,
                        e: nat, x: nat, c: Amounts, before: bool, bound: int, a1: X.Int64, a0: X.SymExpr, env: X.Env)
    requires Entered(k, ssa, f, l, reg, ct, p, H, e, c) && l < |f.loops|
    requires LeftAtLatch(ssa.g, p, H, f.loops[l].header, reg, before, E.Ne, bound, e, x)
    requires Reads(ssa, ct, c, H, f.loops[l].header, reg, e, before, bound, a1, a0, env)
    requires a1 != 0 && E.Solvable(E.Ne, a1, a0) && E.ExitLimit(E.Ne, a1, a0).Solved?
    ensures var t := X.Value(E.ExitLimit(E.Ne, a1, a0).trips, env);
      e < x < |p| && (TripAt(p, f.loops[l].header, e, x - 1) == t <==> X.Value(a0, env) % E.Magnitude(a1) == 0 && t >= 1)
  {
    hide Ssa.Valid, InBody, Entered, StepOf, HeldAt, TripAt, LeftAtLatch, FromOf, X.Value, E.ExitLimit, X.Shaped, E.RunsTrips;
    var t := X.Value(E.ExitLimit(E.Ne, a1, a0).trips, env);
    TripsOnRun(k, ssa, f, l, reg, ct, p, H, e, x, c, before, E.Ne, bound);
    E.UnequalTripsExact(a1, a0, env);
    if X.Value(a0, env) % E.Magnitude(a1) == 0 && t >= 1 {
      OneCount(E.Ne, a1, X.Value(a0, env), TripAt(p, f.loops[l].header, e, x - 1), t);
    }
  }
}
