/** How close a tally is: its bounds are met in some world, and where every comparison is read it is the count. */
module TallyLimits {
  import opened Wrappers
  import opened ExitLimits
  import opened AffineExprs
  import opened Lanes
  import opened Participation
  import opened Readings
  import opened TallyBounds
  import SymExprs

  // -- what evaluation leaves open ----------------------------------------------------

  /** A predicate is left open just where both truths are: yes and no are said wherever they hold in every world. */
  lemma {:induction false} EvalIsExact(p: Pred, tid: Index, shape: Shape, leader: Leader, place: Place)
    requires Count(shape) > 0 && (ElectionFree(p) || leader != Lowest) && AllRanged(p)
    ensures MayBe(p, tid, shape, leader, place, true) <==> Eval(p, tid, shape, leader, place) != No
    ensures MayBe(p, tid, shape, leader, place, false) <==> Eval(p, tid, shape, leader, place) != Yes
    decreases p
  {
    hide Elected, Decide, Ranged;
    match p
    case Compares(k) =>
      assert k in Constraints(p);
      ReadLeavesOpen(k, tid, place);
    case Not(q) => EvalIsExact(q, tid, shape, leader, place);
    case And(a, b) =>
      PartsRanged(p, a, b);
      EvalIsExact(a, tid, shape, leader, place);
      EvalIsExact(b, tid, shape, leader, place);
    case Or(a, b) =>
      PartsRanged(p, a, b);
      EvalIsExact(a, tid, shape, leader, place);
      EvalIsExact(b, tid, shape, leader, place);
    case _ =>
  }

  lemma ReadLeavesOpen(k: Constraint, tid: Index, place: Place)
    requires Ranged(k)
    ensures Read(k, tid, place) != No <==>
      (FormOn(k, tid, place).Some? ==>
         var ends := Ends(k, FormOn(k, tid, place).value, place);
         exists y :: ends.0 <= y <= ends.1 && Holds(k.cmp, y))
    ensures Read(k, tid, place) != Yes <==>
      (FormOn(k, tid, place).Some? ==>
         var ends := Ends(k, FormOn(k, tid, place).value, place);
         exists y :: ends.0 <= y <= ends.1 && !Holds(k.cmp, y))
  {
    hide Decide, FormOn, Holds;
    ReadIs(k, tid, place);
    if FormOn(k, tid, place).Some? {
      var ends := Ends(k, FormOn(k, tid, place).value, place);
      DecideIsExact(k.cmp, ends.0, ends.1);
    }
  }

  // -- the bounds are met --------------------------------------------------------------

  // A leader tried under which a warp's count is the fewest, or the most.
  ghost predicate Best(p: Pred, shape: Shape, place: Place, leaders: seq<Leader>, l: nat, end: nat, leader: Leader,
                       most: bool)
    requires Count(shape) > 0
  {
    var (yes, maybe) := LanesAs(p, shape, leader, place, l, end);
    var (low, high) := OverLeaders(p, shape, place, leaders, l, end);
    leader in leaders && if most then yes + maybe == high else yes == low
  }

  lemma {:induction false} BestExists(p: Pred, shape: Shape, place: Place, leaders: seq<Leader>, l: nat, end: nat,
                                      most: bool) returns (leader: Leader)
    requires Count(shape) > 0 && leaders != [] && l <= end <= l + WARP
    ensures Best(p, shape, place, leaders, l, end, leader, most)
  {
    hide LanesAs;
    var n := |leaders| - 1;
    leader := leaders[n];
    LanesFit(p, shape, leader, place, l, end);
    if n == 0 {
      assert leaders[..n] == [];
      assert OverLeaders(p, shape, place, leaders[..n], l, end) == (NO_LANES, 0);
    } else {
      var other := BestExists(p, shape, place, leaders[..n], l, end, most);
      assert other in leaders;
      if !Best(p, shape, place, leaders, l, end, leader, most) {
        leader := other;
      }
    }
  }

  lemma LanesFit(p: Pred, shape: Shape, leader: Leader, place: Place, l: nat, end: nat)
    requires Count(shape) > 0 && l <= end
    ensures LanesAs(p, shape, leader, place, l, end).0 + LanesAs(p, shape, leader, place, l, end).1 <= end - l
  {
  }

  // The leaders tried for a warp.
  ghost function Tried(p: Pred, shape: Shape, place: Place, w: nat): seq<Leader>
    requires Count(shape) > 0 && ElectActive(p).Some?
  {
    var active, l, end := ElectActive(p).value, WarpStart(w), WarpEnd(w, shape);
    Leaders(active, shape, place, l, end) + if SomeCertain(active, shape, place, l, end) then [] else [Nobody]
  }

  lemma {:induction false} SomeTried(active: Pred, shape: Shape, place: Place, l: nat, end: nat)
    requires Count(shape) > 0 && SomeCertain(active, shape, place, l, end)
    ensures Leaders(active, shape, place, l, end) != []
    decreases end - l
  {
    hide Eval;
    if Eval(active, Thread(l, shape), shape, Lowest, place) != Yes {
      SomeTried(active, shape, place, l + 1, end);
    }
  }

  // Those named are lanes that may be active; nobody is tried only where no lane certainly is.
  lemma {:induction false} LeadersAre(active: Pred, shape: Shape, place: Place, l: nat, end: nat, leader: Leader)
    requires Count(shape) > 0 && leader in Leaders(active, shape, place, l, end)
    ensures leader.Lane? && l <= leader.t < end && Eval(active, Thread(leader.t, shape), shape, Lowest, place) != No
    decreases end - l
  {
    hide Eval;
    if leader != Lane(l) || Eval(active, Thread(l, shape), shape, Lowest, place) == No {
      LeadersAre(active, shape, place, l + 1, end, leader);
    }
  }

  lemma {:induction false} NoneCertain(active: Pred, shape: Shape, place: Place, l: nat, end: nat, t: int)
    requires Count(shape) > 0 && !SomeCertain(active, shape, place, l, end) && l <= t < end
    ensures Eval(active, Thread(t, shape), shape, Lowest, place) != Yes
    decreases end - l
  {
    hide Eval;
    if l < t {
      NoneCertain(active, shape, place, l + 1, end, t);
    }
  }

  // One that meets the bound.
  ghost function LeaderOf(p: Pred, shape: Shape, place: Place, w: nat, most: bool): (leader: Leader)
    requires Count(shape) > 0 && w < Warps(shape)
    ensures ElectActive(p).None? ==> leader == Lowest
    ensures ElectActive(p).Some? ==>
      Best(p, shape, place, Tried(p, shape, place, w), WarpStart(w), WarpEnd(w, shape), leader, most)
  {
    hide LanesAs, OverLeaders, Leaders, SomeCertain, Best, Tried;
    if ElectActive(p).None? then Lowest else
    TriedIsNotEmpty(p, shape, place, w);
    WarpIsShort(w, shape);
    BestThere(p, shape, place, Tried(p, shape, place, w), WarpStart(w), WarpEnd(w, shape), most);
    var leader :| Best(p, shape, place, Tried(p, shape, place, w), WarpStart(w), WarpEnd(w, shape), leader, most);
    leader
  }

  lemma BestThere(p: Pred, shape: Shape, place: Place, leaders: seq<Leader>, l: nat, end: nat, most: bool)
    requires Count(shape) > 0 && leaders != [] && l <= end <= l + WARP
    ensures exists leader :: Best(p, shape, place, leaders, l, end, leader, most)
  {
    hide Best;
    var leader := BestExists(p, shape, place, leaders, l, end, most);
  }

  lemma TriedIsNotEmpty(p: Pred, shape: Shape, place: Place, w: nat)
    requires Count(shape) > 0 && ElectActive(p).Some?
    ensures Tried(p, shape, place, w) != []
  {
    hide Leaders, SomeCertain;
    var active, l, end := ElectActive(p).value, WarpStart(w), WarpEnd(w, shape);
    if SomeCertain(active, shape, place, l, end) {
      SomeTried(active, shape, place, l, end);
    }
  }

  lemma WarpIsShort(w: nat, shape: Shape)
    requires w < Warps(shape)
    ensures WarpStart(w) <= WarpEnd(w, shape) <= WarpStart(w) + WARP && WarpEnd(w, shape) <= Count(shape)
  {
    hide Count;
  }

  ghost function LeadOf(p: Pred, shape: Shape, place: Place, most: bool, w: int): Leader
    requires Count(shape) > 0
  {
    if 0 <= w < Warps(shape) then LeaderOf(p, shape, place, w, most) else Nobody
  }

  // With each warp's such leader, the threads certainly in the set, or those that may be.
  ghost predicate In(p: Pred, shape: Shape, place: Place, most: bool, t: int) {
    0 <= t < Count(shape) &&
    var e := Eval(p, Thread(t, shape), shape, LeadOf(p, shape, place, most, t / WARP), place);
    if most then e != No else e == Yes
  }

  ghost predicate Runs(p: Pred, shape: Shape, place: Place, most: bool, t: int) {
    0 <= t < Count(shape) && ElectActive(p).Some? &&
    (LeadOf(p, shape, place, most, t / WARP) == Lane(t) ||
     Eval(ElectActive(p).value, Thread(t, shape), shape, Lowest, place) == Yes)
  }

  ghost function Extreme(p: Pred, shape: Shape, place: Place, most: bool): World
    requires Count(shape) > 0
  {
    World((t: int) => In(p, shape, place, most, t), (t: int) => Runs(p, shape, place, most, t),
          (w: nat) => LeadOf(p, shape, place, most, w))
  }

  lemma ExtremeLeads(p: Pred, shape: Shape, place: Place, most: bool, w: nat)
    requires Count(shape) > 0 && ElectActive(p).Some? && w < Warps(shape)
    ensures Leads(Extreme(p, shape, place, most), LeadOf(p, shape, place, most, w), WarpStart(w), WarpEnd(w, shape))
    ensures LeadOf(p, shape, place, most, w) != Lowest
  {
    hide Eval, Leaders, SomeCertain, LanesAs, OverLeaders, Thread;
    var active, l, end := ElectActive(p).value, WarpStart(w), WarpEnd(w, shape);
    var leader := LeadOf(p, shape, place, most, w);
    assert leader in Tried(p, shape, place, w);
    WarpIsShort(w, shape);
    forall t: int | l <= t < end ensures t / WARP == w {
      WarpsPartition(t, w, shape);
    }
    if leader in Leaders(active, shape, place, l, end) {
      LeadersAre(active, shape, place, l, end, leader);
    } else {
      assert leader == Nobody;
      forall t: int | l <= t < end ensures !Runs(p, shape, place, most, t) {
        NoneCertain(active, shape, place, l, end, t);
      }
    }
  }

  // Such a leader may be active.
  lemma LeadIsOpen(p: Pred, shape: Shape, place: Place, most: bool, t: int)
    requires Count(shape) > 0 && ElectActive(p).Some? && 0 <= t < Count(shape)
    requires LeadOf(p, shape, place, most, t / WARP) == Lane(t)
    ensures Eval(ElectActive(p).value, Thread(t, shape), shape, Lowest, place) != No
  {
    hide Eval, Leaders, SomeCertain, LanesAs, OverLeaders, Thread;
    var w := t / WARP;
    WarpsPartition(t, w, shape);
    assert Lane(t) in Tried(p, shape, place, w);
    LeadersAre(ElectActive(p).value, shape, place, WarpStart(w), WarpEnd(w, shape), Lane(t));
  }

  lemma ActiveRanged(p: Pred)
    requires AllRanged(p) && ElectActive(p).Some?
    ensures AllRanged(ElectActive(p).value)
  {
    ActiveInside(p);
  }

  lemma ExtremeIsWorld(p: Pred, shape: Shape, place: Place, most: bool)
    requires Count(shape) > 0 && OneElection(p) && AllRanged(p)
    ensures Allows(p, shape, place, Extreme(p, shape, place, most))
  {
    hide Eval, Thread, MayBe, AllRanged, Leads, LeadOf, OneElection, Elects, ElectionFree;
    var world := Extreme(p, shape, place, most);
    match ElectActive(p)
    case None =>
      NoElection(p);
      forall t: int | 0 <= t < Count(shape)
        ensures MayBe(p, Thread(t, shape), shape, Lowest, place, world.members(t))
      {
        LeadIsLowest(p, shape, place, most, t);
        EvalIsExact(p, Thread(t, shape), shape, Lowest, place);
      }
    case Some(active) =>
      ActiveRanged(p);
      ActiveIsFree(p);
      forall t: int | 0 <= t < Count(shape)
        ensures MayBe(active, Thread(t, shape), shape, Lowest, place, world.active(t))
        ensures MayBe(p, Thread(t, shape), shape, world.leaders(t / WARP), place, world.members(t))
      {
        WarpsPartition(t, t / WARP, shape);
        ExtremeLeads(p, shape, place, most, t / WARP);
        if LeadOf(p, shape, place, most, t / WARP) == Lane(t) {
          LeadIsOpen(p, shape, place, most, t);
        }
        EvalIsExact(active, Thread(t, shape), shape, Lowest, place);
        EvalIsExact(p, Thread(t, shape), shape, world.leaders(t / WARP), place);
      }
      forall w: nat | w < Warps(shape) ensures Leads(world, world.leaders(w), WarpStart(w), WarpEnd(w, shape)) {
        ExtremeLeads(p, shape, place, most, w);
      }
  }

  lemma LeadIsLowest(p: Pred, shape: Shape, place: Place, most: bool, t: int)
    requires 0 <= t < Count(shape) && ElectActive(p).None?
    ensures LeadOf(p, shape, place, most, t / WARP) == Lowest
  {
    WarpsPartition(t, t / WARP, shape);
  }

  lemma ActiveIsFree(p: Pred)
    requires OneElection(p) && ElectActive(p).Some?
    ensures ElectionFree(ElectActive(p).value)
  {
  }

  lemma {:induction false} LanesMet(p: Pred, shape: Shape, leader: Leader, place: Place, members: int -> bool, l: nat,
                                    end: nat, most: bool)
    requires Count(shape) > 0
    requires forall t: int :: l <= t < end ==>
      (members(t) <==> var e := Eval(p, Thread(t, shape), shape, leader, place); if most then e != No else e == Yes)
    ensures var (yes, maybe) := LanesAs(p, shape, leader, place, l, end);
      Members(members, l, end) == if most then yes + maybe else yes
    decreases end - l
  {
    hide Eval, Thread;
    if l < end {
      LanesMet(p, shape, leader, place, members, l + 1, end, most);
    }
  }

  lemma WarpMet(p: Pred, shape: Shape, place: Place, w: nat, most: bool)
    requires Count(shape) > 0 && w < Warps(shape)
    ensures var (low, high) := WarpTally(p, shape, place, WarpStart(w), WarpEnd(w, shape));
      Members(Extreme(p, shape, place, most).members, WarpStart(w), WarpEnd(w, shape)) == if most then high else low
  {
    hide Eval, Thread, LanesAs, OverLeaders, Leaders, SomeCertain, Members;
    var l, end := WarpStart(w), WarpEnd(w, shape);
    var leader := LeaderOf(p, shape, place, w, most);
    WarpIsShort(w, shape);
    forall t: int | l <= t < end ensures t / WARP == w && 0 <= t < Count(shape) {
      WarpsPartition(t, w, shape);
    }
    LanesMet(p, shape, leader, place, Extreme(p, shape, place, most).members, l, end, most);
  }

  lemma {:induction false} WarpsMet(p: Pred, shape: Shape, place: Place, w: nat, most: bool)
    requires Count(shape) > 0 && w <= Warps(shape)
    ensures var (threads, warps) := WarpsTally(p, shape, place, w);
      var members := Extreme(p, shape, place, most).members;
      && Threads(members, shape, w) == (if most then threads.possible else threads.certain)
      && Occupied(members, shape, w) == (if most then warps.possible else warps.certain)
  {
    hide WarpTally, Members, Extreme;
    if w > 0 {
      WarpsMet(p, shape, place, w - 1, most);
      WarpMet(p, shape, place, w - 1, most);
    }
  }

  lemma ExtremeHeld(p: Pred, shape: Shape, place: Place, most: bool)
    requires Tally(p, shape, place).Some?
    ensures var (threads, warps) := Tally(p, shape, place).value;
      var world := Extreme(p, shape, place, most);
      && HeldThreads(world, shape) == (if most then threads.possible else threads.certain)
      && HeldWarps(world, shape) == (if most then warps.possible else warps.certain)
  {
    hide WarpsTally, Members, Threads, Occupied, Extreme;
    WarpsMet(p, shape, place, Warps(shape), most);
    ThreadsAreMembers(Extreme(p, shape, place, most).members, shape, Warps(shape));
  }

  // Some world has just these.
  ghost predicate Meet(p: Pred, shape: Shape, place: Place, threads: nat, warps: nat)
    requires Count(shape) > 0
  {
    exists world :: Allows(p, shape, place, world) && HeldThreads(world, shape) == threads && HeldWarps(world, shape) == warps
  }

  /** The bounds are the best: in some world the set has the fewest threads and warps, in another the most. */
  lemma TallyIsMet(p: Pred, shape: Shape, place: Place)
    requires Tally(p, shape, place).Some? && Count(shape) > 0 && OneElection(p) && AllRanged(p)
    ensures var (threads, warps) := Tally(p, shape, place).value;
      && Meet(p, shape, place, threads.certain, warps.certain)
      && Meet(p, shape, place, threads.possible, warps.possible)
  {
    hide Tally, Allows, Extreme, HeldThreads, HeldWarps, AllRanged, OneElection;
    ExtremeIsWorld(p, shape, place, false);
    ExtremeIsWorld(p, shape, place, true);
    ExtremeHeld(p, shape, place, false);
    ExtremeHeld(p, shape, place, true);
  }

  // -- the representative leader --------------------------------------------------------

  /** It is said to be the one, or not to be, wherever it is so in every world: open just where both are left open. */
  lemma ElectedIsExact(active: Pred, t: int, shape: Shape, place: Place)
    requires 0 <= t < Count(shape) && ElectionFree(active) && AllRanged(active)
    ensures Elected(active, Thread(t, shape), shape, place) != No <==>
      && MayBe(active, Thread(t, shape), shape, Lowest, place, true)
      && forall s: int :: t - t % WARP <= s < t ==> MayBe(active, Thread(s, shape), shape, Lowest, place, false)
    ensures Elected(active, Thread(t, shape), shape, place) != Yes <==>
      || MayBe(active, Thread(t, shape), shape, Lowest, place, false)
      || exists s: int :: t - t % WARP <= s < t && MayBe(active, Thread(s, shape), shape, Lowest, place, true)
  {
    hide MayBe, Candidates, Eval, Thread, AllRanged;
    LinearOfThread(t, shape);
    var base := t - t % WARP;
    var end := if base + WARP < Count(shape) then base + WARP else Count(shape);
    CandidatesAre(active, shape, place, t, base, base, end, false, false);
    forall s: int | base <= s <= t
      ensures MayBe(active, Thread(s, shape), shape, Lowest, place, true) <==> LaneIs(active, shape, place, s) != No
      ensures MayBe(active, Thread(s, shape), shape, Lowest, place, false) <==> LaneIs(active, shape, place, s) != Yes
    {
      EvalIsExact(active, Thread(s, shape), shape, Lowest, place);
    }
  }

  ghost function LaneIs(active: Pred, shape: Shape, place: Place, s: int): Tri
    requires Count(shape) > 0
  {
    Eval(active, Thread(s, shape), shape, Lowest, place)
  }

  lemma {:induction false} CandidatesAre(active: Pred, shape: Shape, place: Place, t: int, base: int, l: int, end: int,
                                         any: bool, own: bool)
    requires Count(shape) > 0 && 0 <= base <= l <= end <= Count(shape) && base <= t < end
    requires any <==> exists s: int :: base <= s < l && LaneIs(active, shape, place, s) == Maybe
    requires forall s: int :: base <= s < l ==> LaneIs(active, shape, place, s) != Yes
    requires own <==> t < l && LaneIs(active, shape, place, t) == Maybe
    ensures Candidates(active, shape, place, t, l, end, any, own) != No <==>
      LaneIs(active, shape, place, t) != No && forall s: int :: base <= s < t ==> LaneIs(active, shape, place, s) != Yes
    ensures Candidates(active, shape, place, t, l, end, any, own) != Yes <==>
      LaneIs(active, shape, place, t) != Yes || exists s: int :: base <= s < t && LaneIs(active, shape, place, s) != No
    decreases end - l
  {
    hide Eval, Thread;
    if l < end {
      match LaneIs(active, shape, place, l) {
        case Yes =>
        case Maybe => CandidatesAre(active, shape, place, t, base, l + 1, end, true, own || l == t);
        case No => CandidatesAre(active, shape, place, t, base, l + 1, end, any, own);
      }
    }
  }

  // -- counts as sizes -------------------------------------------------------------------

  // The threads of the set from `l` to `end`.
  ghost function InSet(members: int -> bool, l: nat, end: nat): set<int> {
    set t: int | l <= t < end && members(t)
  }

  /** What is counted is the size of the set. */
  lemma {:induction false} MembersIsSize(members: int -> bool, l: nat, end: nat)
    ensures Members(members, l, end) == |InSet(members, l, end)|
    decreases end - l
  {
    var all := InSet(members, l, end);
    if l < end {
      MembersIsSize(members, l + 1, end);
      var rest := InSet(members, l + 1, end);
      assert all == if members(l) then {l} + rest else rest;
    } else {
      assert all == {};
    }
  }

  // Some thread of the warp is in the set.
  ghost predicate Holding(members: int -> bool, shape: Shape, w: int) {
    exists t :: 0 <= t < Count(shape) && t / WARP == w && members(t)
  }

  // The first `n` warps' indices, those with a thread in the set.
  ghost function HoldingWarps(members: int -> bool, shape: Shape, n: nat): set<int> {
    set w: int | 0 <= w < n && Holding(members, shape, w)
  }

  /** And of the warps, those with a thread in it. */
  lemma {:induction false} OccupiedIsSize(members: int -> bool, shape: Shape, w: nat)
    requires w <= Warps(shape)
    ensures Occupied(members, shape, w) == |HoldingWarps(members, shape, w)|
  {
    hide Holding, Members;
    var all := HoldingWarps(members, shape, w);
    if w > 0 {
      OccupiedIsSize(members, shape, w - 1);
      var rest := HoldingWarps(members, shape, w - 1);
      WarpHolds(members, shape, w - 1);
      assert all == if Holding(members, shape, w - 1) then {w - 1} + rest else rest;
    } else {
      assert all == {};
    }
  }

  lemma HoldingAt(members: int -> bool, shape: Shape, w: int)
    ensures Holding(members, shape, w) <==> exists t :: 0 <= t < Count(shape) && t / WARP == w && members(t)
  {
  }

  lemma WarpHolds(members: int -> bool, shape: Shape, w: nat)
    requires w < Warps(shape)
    ensures Members(members, WarpStart(w), WarpEnd(w, shape)) > 0 <==> Holding(members, shape, w)
  {
    hide Members;
    var l, end := WarpStart(w), WarpEnd(w, shape);
    MembersIsSize(members, l, end);
    var held := InSet(members, l, end);
    if t: int :| t in held {
      WarpsPartition(t, w, shape);
      HoldingAt(members, shape, w);
    }
    if Holding(members, shape, w) {
      HoldingAt(members, shape, w);
      var t :| 0 <= t < Count(shape) && t / WARP == w && members(t);
      WarpsPartition(t, w, shape);
      assert t in held;
      assert held != {};
    }
  }

  // -- the count itself ------------------------------------------------------------------

  // A predicate of comparisons alone.
  predicate Plain(p: Pred) {
    match p
    case True => true
    case False => true
    case Compares(_) => true
    case Not(q) => Plain(q)
    case And(a, b) => Plain(a) && Plain(b)
    case Or(a, b) => Plain(a) && Plain(b)
    case _ => false
  }

  // What it is at a valuation, over the integers.
  ghost predicate Satisfies(p: Pred, leaf: Leaf, env: SymExprs.Env) {
    match p
    case True => true
    case Compares(k) => Meets(k.cmp, FormValue(k.form, leaf, env))
    case Not(q) => !Satisfies(q, leaf, env)
    case And(a, b) => Satisfies(a, leaf, env) && Satisfies(b, leaf, env)
    case Or(a, b) => Satisfies(a, leaf, env) || Satisfies(b, leaf, env)
    case _ => false
  }

  // Nothing its comparisons name is left open, and each is read.
  ghost predicate AllRead(p: Pred, place: Place, leaf: Leaf, env: SymExprs.Env) {
    forall k :: k in Constraints(p) ==>
      Formed(k) && Closed(k.form) && !OpenCta(k, place) && !OpenTrip(k, place) && Readable(k, place, leaf, env)
  }

  /** Then a thread's reading is what the predicate is of it. */
  lemma {:induction false} EvalIsTruth(p: Pred, tid: Index, shape: Shape, leader: Leader, place: Place, leaf: Leaf,
                                       env: SymExprs.Env)
    requires Count(shape) > 0 && Plain(p) && Sees(leaf, tid, place) && AllRead(p, place, leaf, env)
    ensures Eval(p, tid, shape, leader, place) == if Satisfies(p, leaf, env) then Yes else No
  {
    hide Sees, Formed, Closed, Readable, Meets, Read, Count, FormValue;
    match p
    case Compares(k) =>
      assert k in Constraints(p);
      ReadIsTruth(k, tid, place, leaf, env);
    case Not(q) => EvalIsTruth(q, tid, shape, leader, place, leaf, env);
    case And(a, b) =>
      PartsRead(p, a, b, place, leaf, env);
      EvalIsTruth(a, tid, shape, leader, place, leaf, env);
      EvalIsTruth(b, tid, shape, leader, place, leaf, env);
    case Or(a, b) =>
      PartsRead(p, a, b, place, leaf, env);
      EvalIsTruth(a, tid, shape, leader, place, leaf, env);
      EvalIsTruth(b, tid, shape, leader, place, leaf, env);
    case _ =>
  }

  lemma PartsRead(p: Pred, a: Pred, b: Pred, place: Place, leaf: Leaf, env: SymExprs.Env)
    requires AllRead(p, place, leaf, env) && (p == And(a, b) || p == Or(a, b))
    ensures AllRead(a, place, leaf, env) && AllRead(b, place, leaf, env)
  {
    hide Formed, Closed, Readable, OpenCta, OpenTrip;
    assert forall k :: k in Constraints(a) || k in Constraints(b) ==> k in Constraints(p);
  }

  lemma ReadIsTruth(k: Constraint, tid: Index, place: Place, leaf: Leaf, env: SymExprs.Env)
    requires Formed(k) && Closed(k.form) && Sees(leaf, tid, place)
    requires !OpenCta(k, place) && !OpenTrip(k, place) && Readable(k, place, leaf, env)
    ensures Read(k, tid, place) == if Meets(k.cmp, FormValue(k.form, leaf, env)) then Yes else No
  {
    hide Sees, Formed, Closed, Readable, Meets, Read, FormValue;
    ReadExact(k, tid, place, leaf, env);
  }

  ghost function Satisfying(p: Pred, leaves: int -> Leaf, env: SymExprs.Env): int -> bool {
    (t: int) => Satisfies(p, leaves(t), env)
  }

  lemma SatisfyingIs(p: Pred, leaves: int -> Leaf, env: SymExprs.Env)
    ensures forall t :: Satisfying(p, leaves, env)(t) <==> Satisfies(p, leaves(t), env)
  {
  }

  /** And the tally is the count: of the threads that satisfy the predicate, and of the warps with one. */
  lemma TallyIsCount(p: Pred, shape: Shape, place: Place, leaves: int -> Leaf, env: SymExprs.Env)
    requires Tally(p, shape, place).Some? && Count(shape) > 0 && Plain(p)
    requires forall t :: 0 <= t < Count(shape) ==>
      Sees(leaves(t), Thread(t, shape), place) && AllRead(p, place, leaves(t), env)
    ensures var (threads, warps) := Tally(p, shape, place).value;
      var n := |InSet(Satisfying(p, leaves, env), 0, Count(shape))|;
      var m := |HoldingWarps(Satisfying(p, leaves, env), shape, Warps(shape))|;
      threads == Counted(n, n) && warps == Counted(m, m)
  {
    hide *;
    var members := Satisfying(p, leaves, env);
    SatisfyingIs(p, leaves, env);
    CountedBy(p, shape, place, leaves, env, members);
    MembersIsSize(members, 0, Count(shape));
    OccupiedIsSize(members, shape, Warps(shape));
  }

  lemma CountedBy(p: Pred, shape: Shape, place: Place, leaves: int -> Leaf, env: SymExprs.Env, members: int -> bool)
    requires Tally(p, shape, place).Some? && Count(shape) > 0 && Plain(p)
    requires forall t :: 0 <= t < Count(shape) ==>
      Sees(leaves(t), Thread(t, shape), place) && AllRead(p, place, leaves(t), env)
    requires forall t :: members(t) <==> Satisfies(p, leaves(t), env)
    ensures var (threads, warps) := Tally(p, shape, place).value;
      var n, m := Members(members, 0, Count(shape)), Occupied(members, shape, Warps(shape));
      threads == Counted(n, n) && warps == Counted(m, m)
  {
    hide WarpsTally, Members, Threads, Occupied, Satisfies, Sees, AllRead, Eval, Thread, Warps;
    PlainIsFree(p);
    forall t | 0 <= t < Count(shape)
      ensures Eval(p, Thread(t, shape), shape, Lowest, place) == if members(t) then Yes else No
    {
      EvalIsTruth(p, Thread(t, shape), shape, Lowest, place, leaves(t), env);
    }
    WarpsCounted(p, shape, place, members, Warps(shape));
    ThreadsAreMembers(members, shape, Warps(shape));
    WarpsCover(shape);
  }

  // Every thread's reading says whether it is in the set.
  ghost predicate Decided(p: Pred, shape: Shape, place: Place, members: int -> bool)
    requires Count(shape) > 0
  {
    forall t :: 0 <= t < Count(shape) ==>
      Eval(p, Thread(t, shape), shape, Lowest, place) == if members(t) then Yes else No
  }

  lemma WarpsCover(shape: Shape)
    ensures WARP * Warps(shape) >= Count(shape)
  {
    hide Count;
  }

  lemma {:induction false} PlainIsFree(p: Pred)
    requires Plain(p)
    ensures ElectActive(p).None?
  {
    match p
    case Not(q) => PlainIsFree(q);
    case And(a, b) => PlainIsFree(a); PlainIsFree(b);
    case Or(a, b) => PlainIsFree(a); PlainIsFree(b);
    case _ =>
  }

  lemma {:induction false} LanesCounted(p: Pred, shape: Shape, place: Place, members: int -> bool, l: nat, end: nat)
    requires Count(shape) > 0
    requires forall t :: l <= t < end ==>
      Eval(p, Thread(t, shape), shape, Lowest, place) == if members(t) then Yes else No
    ensures LanesAs(p, shape, Lowest, place, l, end) == (Members(members, l, end), 0)
    decreases end - l
  {
    hide Eval, Thread;
    if l < end {
      LanesCounted(p, shape, place, members, l + 1, end);
    }
  }

  lemma {:induction false} WarpsCounted(p: Pred, shape: Shape, place: Place, members: int -> bool, w: nat)
    requires Count(shape) > 0 && w <= Warps(shape) && ElectActive(p).None?
    requires Decided(p, shape, place, members)
    ensures var (n, m) := (Threads(members, shape, w), Occupied(members, shape, w));
      WarpsTally(p, shape, place, w) == (Counted(n, n), Counted(m, m))
  {
    hide Decided, WarpTally, Members, Warps;
    if w > 0 {
      WarpsCounted(p, shape, place, members, w - 1);
      WarpCounted(p, shape, place, members, w - 1);
    }
  }

  lemma WarpCounted(p: Pred, shape: Shape, place: Place, members: int -> bool, w: nat)
    requires Count(shape) > 0 && w < Warps(shape) && ElectActive(p).None?
    requires Decided(p, shape, place, members)
    ensures var n := Members(members, WarpStart(w), WarpEnd(w, shape));
      WarpTally(p, shape, place, WarpStart(w), WarpEnd(w, shape)) == (n, n)
  {
    hide Eval, Thread, LanesAs, Members, Warps, WarpStart, WarpEnd, Count;
    WarpIsShort(w, shape);
    LanesCounted(p, shape, place, members, WarpStart(w), WarpEnd(w, shape));
  }

  // -- what selects threads -----------------------------------------------------------

  // What a predicate is built of.
  function Leaves(p: Pred): (leaves: set<Pred>)
    ensures forall q :: q in leaves ==> !q.Not? && !q.And? && !q.Or?
  {
    match p
    case Not(q) => Leaves(q)
    case And(a, b) => Leaves(a) + Leaves(b)
    case Or(a, b) => Leaves(a) + Leaves(b)
    case _ => {p}
  }

  /** There is no tally just where there is no thread or the predicate is built of the true and the unread alone. */
  lemma {:induction false} NoTallyWhere(p: Pred, shape: Shape, place: Place)
    ensures Tally(p, shape, place).None? <==>
      Count(shape) == 0 || forall q :: q in Leaves(p) ==> q.True? || q.Unknown? || q.Uniform?
  {
    hide WarpsTally;
    SelectsWhere(p);
  }

  lemma {:induction false} SelectsWhere(p: Pred)
    ensures HasCondition(p) <==> exists q :: q in Leaves(p) && (q.False? || q.Compares? || q.Elect?)
  {
    match p
    case Not(q) => SelectsWhere(q);
    case And(a, b) => SelectsWhere(a); SelectsWhere(b);
    case Or(a, b) => SelectsWhere(a); SelectsWhere(b);
    case _ => assert p in Leaves(p);
  }
}
