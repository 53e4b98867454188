/** What a tally bounds: the set in every world its predicate leaves open. */
module TallyBounds {
  import opened Wrappers
  import opened ExitLimits
  import opened AffineExprs
  import opened Lanes
  import opened Participation
  import opened Readings
  import SymExprs

  // Negation, conjunction and disjunction as the source builds them

  function Inverse(cmp: Cmp): Cmp {
    match cmp
    case Lt => Ge
    case Ge => Lt
    case Le => Gt
    case Gt => Le
    case Eq => Ne
    case Ne => Eq
  }

  function Negated(p: Pred): Pred {
    match p
    case True => False
    case False => True
    case Unknown => Pred.Unknown
    case Uniform(a, n) => Uniform(a, !n)
    case Compares(k) => Compares(k.(cmp := Inverse(k.cmp)))
    case Elect(_) => Not(p)
    case Not(q) => q
    case And(a, b) => Disjoined(Negated(a), Negated(b))
    case Or(a, b) => Conjoined(Negated(a), Negated(b))
  }

  function Conjoined(a: Pred, b: Pred): Pred {
    if a.False? || b.False? then False
    else if a.True? then b
    else if b.True? then a
    else if a.Unknown? && b.Unknown? then Pred.Unknown
    else if a.Uniform? && a == b then a
    else And(a, b)
  }

  function Disjoined(a: Pred, b: Pred): Pred {
    if a.True? || b.True? then True
    else if a.False? then b
    else if b.False? then a
    else if a.Unknown? && b.Unknown? then Pred.Unknown
    else if a.Uniform? && a == b then a
    else Or(a, b)
  }

  lemma ConjoinedEval(a: Pred, b: Pred, tid: Index, shape: Shape, leader: Leader, place: Place)
    requires Count(shape) > 0
    ensures Eval(Conjoined(a, b), tid, shape, leader, place) ==
            Both(Eval(a, tid, shape, leader, place), Eval(b, tid, shape, leader, place))
  {
    hide Eval;
    EvalIs(a, b, tid, shape, leader, place);
    EvalIs(b, a, tid, shape, leader, place);
  }

  lemma EvalIs(a: Pred, b: Pred, tid: Index, shape: Shape, leader: Leader, place: Place)
    requires Count(shape) > 0
    ensures a.True? ==> Eval(a, tid, shape, leader, place) == Yes
    ensures a.False? ==> Eval(a, tid, shape, leader, place) == No
    ensures a.Unknown? || a.Uniform? ==> Eval(a, tid, shape, leader, place) == Maybe
    ensures Eval(Pred.Unknown, tid, shape, leader, place) == Maybe
    ensures Eval(True, tid, shape, leader, place) == Yes && Eval(False, tid, shape, leader, place) == No
    ensures Eval(And(a, b), tid, shape, leader, place) ==
            Both(Eval(a, tid, shape, leader, place), Eval(b, tid, shape, leader, place))
    ensures Eval(Or(a, b), tid, shape, leader, place) ==
            Either(Eval(a, tid, shape, leader, place), Eval(b, tid, shape, leader, place))
  {
    hide Eval;
    LeafEval(a, tid, shape, leader, place);
    LeafEval(Pred.Unknown, tid, shape, leader, place);
    LeafEval(True, tid, shape, leader, place);
    LeafEval(False, tid, shape, leader, place);
    PairEval(a, b, tid, shape, leader, place);
  }

  lemma LeafEval(a: Pred, tid: Index, shape: Shape, leader: Leader, place: Place)
    requires Count(shape) > 0
    ensures a.True? ==> Eval(a, tid, shape, leader, place) == Yes
    ensures a.False? ==> Eval(a, tid, shape, leader, place) == No
    ensures a.Unknown? || a.Uniform? ==> Eval(a, tid, shape, leader, place) == Maybe
  {
    hide Read, Elected, Count;
  }

  lemma PairEval(a: Pred, b: Pred, tid: Index, shape: Shape, leader: Leader, place: Place)
    requires Count(shape) > 0
    ensures Eval(And(a, b), tid, shape, leader, place) ==
            Both(Eval(a, tid, shape, leader, place), Eval(b, tid, shape, leader, place))
    ensures Eval(Or(a, b), tid, shape, leader, place) ==
            Either(Eval(a, tid, shape, leader, place), Eval(b, tid, shape, leader, place))
  {
    hide Read, Elected, Count, Both, Either;
  }

  lemma DisjoinedEval(a: Pred, b: Pred, tid: Index, shape: Shape, leader: Leader, place: Place)
    requires Count(shape) > 0
    ensures Eval(Disjoined(a, b), tid, shape, leader, place) ==
            Either(Eval(a, tid, shape, leader, place), Eval(b, tid, shape, leader, place))
  {
    hide Eval;
    EvalIs(a, b, tid, shape, leader, place);
    EvalIs(b, a, tid, shape, leader, place);
  }

  lemma InverseDecides(cmp: Cmp, lo: int, hi: int)
    requires lo <= hi
    ensures Decide(Inverse(cmp), lo, hi) == Negate(Decide(cmp, lo, hi))
  {
  }

  // The ranges a comparison records are not empty.
  ghost predicate Ranged(k: Constraint) {
    (k.cta.Some? ==> k.cta.value.0 <= k.cta.value.1) && (k.trip.Some? ==> k.trip.value.1.0 <= k.trip.value.1.1)
  }

  ghost predicate AllRanged(p: Pred) {
    forall k :: k in Constraints(p) ==> Ranged(k)
  }

  /** Negating a predicate negates what it says of every thread. */
  lemma {:induction false} NegatedEval(p: Pred, tid: Index, shape: Shape, leader: Leader, place: Place)
    requires Count(shape) > 0 && AllRanged(p)
    ensures Eval(Negated(p), tid, shape, leader, place) == Negate(Eval(p, tid, shape, leader, place))
    decreases p
  {
    match p
    case Compares(k) =>
      assert k in Constraints(p);
      NegatedRead(k, tid, place);
    case And(a, b) =>
      PartsRanged(p, a, b);
      NegatedEval(a, tid, shape, leader, place);
      NegatedEval(b, tid, shape, leader, place);
      DisjoinedEval(Negated(a), Negated(b), tid, shape, leader, place);
    case Or(a, b) =>
      PartsRanged(p, a, b);
      NegatedEval(a, tid, shape, leader, place);
      NegatedEval(b, tid, shape, leader, place);
      ConjoinedEval(Negated(a), Negated(b), tid, shape, leader, place);
    case _ =>
  }

  lemma PartsRanged(p: Pred, a: Pred, b: Pred)
    requires AllRanged(p) && (p == And(a, b) || p == Or(a, b))
    ensures AllRanged(a) && AllRanged(b)
  {
    assert forall k :: k in Constraints(a) || k in Constraints(b) ==> k in Constraints(p);
  }

  // The values a comparison takes on a thread over what is left open.
  function Ends(k: Constraint, x: int, place: Place): (int, int) {
    var (lo, hi) := if k.cta.Some? && place.cta.None? then (x + k.cta.value.0, x + k.cta.value.1) else (x, x);
    if k.trip.Some? && TripFor(k, place).None? then (lo + k.trip.value.1.0, hi + k.trip.value.1.1) else (lo, hi)
  }

  // Its form on a thread, none where the trip or a partial sum leaves its width.
  function FormOn(k: Constraint, tid: Index, place: Place): Option<int> {
    var trip := TripFor(k, place);
    if trip.Some? && !SymExprsFits(trip.value.1) then None else FormAt(k.form, Reading(tid, Place(place.cta, trip)))
  }

  function SymExprsFits(x: int): bool {
    -0x8000_0000_0000_0000 <= x <= 0x7FFF_FFFF_FFFF_FFFF
  }

  lemma ReadIs(k: Constraint, tid: Index, place: Place)
    ensures Read(k, tid, place) == match FormOn(k, tid, place)
      case None => Maybe
      case Some(x) => Decide(k.cmp, Ends(k, x, place).0, Ends(k, x, place).1)
  {
  }

  lemma NegatedRead(k: Constraint, tid: Index, place: Place)
    requires Ranged(k)
    ensures Read(k.(cmp := Inverse(k.cmp)), tid, place) == Negate(Read(k, tid, place))
  {
    hide Decide, FormAt;
    ReadIs(k, tid, place);
    ReadIs(k.(cmp := Inverse(k.cmp)), tid, place);
    if FormOn(k, tid, place).Some? {
      var x := FormOn(k, tid, place).value;
      InverseDecides(k.cmp, Ends(k, x, place).0, Ends(k, x, place).1);
    }
  }

  // Worlds

  // What a predicate may be of a thread, its unknowns anything, a CTA and a trip anything within their ranges.
  ghost predicate MayBe(p: Pred, tid: Index, shape: Shape, leader: Leader, place: Place, truth: bool)
    decreases p
  {
    match p
    case True => truth
    case False => !truth
    case Unknown => true
    case Uniform(_, _) => true
    case Compares(k) =>
      (match FormOn(k, tid, place)
       case None => true
       case Some(x) => exists y :: Ends(k, x, place).0 <= y <= Ends(k, x, place).1 && Holds(k.cmp, y) == truth)
    case Elect(_) => truth == (leader == Lane(Linear(tid, shape)))
    case Not(q) => MayBe(q, tid, shape, leader, place, !truth)
    case And(a, b) =>
      if truth then MayBe(a, tid, shape, leader, place, true) && MayBe(b, tid, shape, leader, place, true)
      else MayBe(a, tid, shape, leader, place, false) || MayBe(b, tid, shape, leader, place, false)
    case Or(a, b) =>
      if truth then MayBe(a, tid, shape, leader, place, true) || MayBe(b, tid, shape, leader, place, true)
      else MayBe(a, tid, shape, leader, place, false) && MayBe(b, tid, shape, leader, place, false)
  }

  predicate ElectionFree(p: Pred) {
    match p
    case Elect(_) => false
    case Not(q) => ElectionFree(q)
    case And(a, b) => ElectionFree(a) && ElectionFree(b)
    case Or(a, b) => ElectionFree(a) && ElectionFree(b)
    case _ => true
  }

  // Every election in the predicate chooses among the same threads.
  predicate Elects(p: Pred, active: Pred) {
    match p
    case Elect(q) => q == active
    case Not(q) => Elects(q, active)
    case And(a, b) => Elects(a, active) && Elects(b, active)
    case Or(a, b) => Elects(a, active) && Elects(b, active)
    case _ => true
  }

  /** Yes and no hold in every world. */
  lemma {:induction false} EvalIsSound(p: Pred, tid: Index, shape: Shape, leader: Leader, place: Place, truth: bool)
    requires Count(shape) > 0 && (ElectionFree(p) || leader != Lowest) && MayBe(p, tid, shape, leader, place, truth)
    ensures Eval(p, tid, shape, leader, place) == Yes ==> truth
    ensures Eval(p, tid, shape, leader, place) == No ==> !truth
    decreases p
  {
    hide Elected, Decide;
    match p
    case Compares(k) =>
      ReadIs(k, tid, place);
      if FormOn(k, tid, place).Some? {
        var x := FormOn(k, tid, place).value;
        var y :| Ends(k, x, place).0 <= y <= Ends(k, x, place).1 && Holds(k.cmp, y) == truth;
        DecideIsExact(k.cmp, Ends(k, x, place).0, Ends(k, x, place).1);
      }
    case Not(q) => EvalIsSound(q, tid, shape, leader, place, !truth);
    case And(a, b) =>
      if truth || MayBe(a, tid, shape, leader, place, false) {
        EvalIsSound(a, tid, shape, leader, place, truth);
      }
      if truth || MayBe(b, tid, shape, leader, place, false) {
        EvalIsSound(b, tid, shape, leader, place, truth);
      }
    case Or(a, b) =>
      if !truth || MayBe(a, tid, shape, leader, place, true) {
        EvalIsSound(a, tid, shape, leader, place, truth);
      }
      if !truth || MayBe(b, tid, shape, leader, place, true) {
        EvalIsSound(b, tid, shape, leader, place, truth);
      }
    case _ =>
  }

  // A world: the threads in the set and those active at the election, by linear index, and each warp's leader.
  datatype World = World(members: int -> bool, active: int -> bool, leaders: nat -> Leader)

  // The warp's leader is one of its active lanes, and none only where none is active.
  ghost predicate Leads(world: World, leader: Leader, l: nat, end: nat) {
    match leader
    case Lowest => false
    case Lane(t) => l <= t < end && world.active(t)
    case Nobody => forall t: int :: l <= t < end ==> !world.active(t)
  }

  ghost predicate Allows(p: Pred, shape: Shape, place: Place, world: World)
    requires Count(shape) > 0
  {
    match ElectActive(p)
    case None => forall t: int :: 0 <= t < Count(shape) ==>
      MayBe(p, Thread(t, shape), shape, Lowest, place, world.members(t))
    case Some(active) =>
      && (forall t: int :: 0 <= t < Count(shape) ==> MayBe(active, Thread(t, shape), shape, Lowest, place, world.active(t)))
      && (forall w: nat :: w < Warps(shape) ==> Leads(world, world.leaders(w), WarpStart(w), WarpEnd(w, shape)))
      && (forall t: int :: 0 <= t < Count(shape) ==>
            MayBe(p, Thread(t, shape), shape, world.leaders(t / WARP), place, world.members(t)))
  }

  // One election at most, its active set election-free.
  predicate OneElection(p: Pred) {
    match ElectActive(p)
    case None => true
    case Some(active) => Elects(p, active) && ElectionFree(active)
  }

  lemma {:induction false} NoElection(p: Pred)
    requires ElectActive(p).None?
    ensures ElectionFree(p)
  {
    match p
    case Not(q) => NoElection(q);
    case And(a, b) => NoElection(a); NoElection(b);
    case Or(a, b) => NoElection(a); NoElection(b);
    case _ =>
  }

  // Counting a world

  function Members(members: int -> bool, l: nat, end: nat): (n: nat)
    ensures l <= end ==> n <= end - l
    decreases end - l
  {
    if l >= end then 0 else (if members(l) then 1 else 0) + Members(members, l + 1, end)
  }

  function Threads(members: int -> bool, shape: Shape, w: nat): nat {
    if w == 0 then 0 else Threads(members, shape, w - 1) + Members(members, WarpStart(w - 1), WarpEnd(w - 1, shape))
  }

  function Occupied(members: int -> bool, shape: Shape, w: nat): nat {
    if w == 0 then 0 else
    Occupied(members, shape, w - 1) + if Members(members, WarpStart(w - 1), WarpEnd(w - 1, shape)) > 0 then 1 else 0
  }

  lemma {:induction false} LanesBound(p: Pred, shape: Shape, leader: Leader, place: Place, members: int -> bool,
                                      l: nat, end: nat)
    requires Count(shape) > 0 && end <= Count(shape) && (ElectionFree(p) || leader != Lowest)
    requires forall t: int :: l <= t < end ==> MayBe(p, Thread(t, shape), shape, leader, place, members(t))
    ensures var (yes, maybe) := LanesAs(p, shape, leader, place, l, end);
      yes <= Members(members, l, end) <= yes + maybe
    decreases end - l
  {
    hide Eval, MayBe, Thread;
    if l < end {
      EvalIsSound(p, Thread(l, shape), shape, leader, place, members(l));
      LanesBound(p, shape, leader, place, members, l + 1, end);
    }
  }

  lemma {:induction false} LeaderTried(active: Pred, shape: Shape, place: Place, world: World, l: nat, end: nat, t: int)
    requires Count(shape) > 0 && end <= Count(shape) && ElectionFree(active) && l <= t < end && world.active(t)
    requires MayBe(active, Thread(t, shape), shape, Lowest, place, true)
    ensures Lane(t) in Leaders(active, shape, place, l, end)
    decreases end - l
  {
    hide Eval, MayBe, Thread;
    if t == l {
      EvalIsSound(active, Thread(t, shape), shape, Lowest, place, true);
    } else {
      LeaderTried(active, shape, place, world, l + 1, end, t);
    }
  }

  lemma {:induction false} CertainIsActive(active: Pred, shape: Shape, place: Place, world: World, l: nat, end: nat)
    requires Count(shape) > 0 && end <= Count(shape) && ElectionFree(active) && SomeCertain(active, shape, place, l, end)
    requires forall t: int :: l <= t < end ==> MayBe(active, Thread(t, shape), shape, Lowest, place, world.active(t))
    ensures exists t: int :: l <= t < end && world.active(t)
    decreases end - l
  {
    hide Eval, MayBe, Thread;
    if Eval(active, Thread(l, shape), shape, Lowest, place) == Yes {
      EvalIsSound(active, Thread(l, shape), shape, Lowest, place, world.active(l));
      assert world.active(l);
    } else {
      CertainIsActive(active, shape, place, world, l + 1, end);
    }
  }

  lemma {:induction false} OverLeadersBound(p: Pred, shape: Shape, place: Place, leaders: seq<Leader>, l: nat,
                                            end: nat, leader: Leader, n: nat)
    requires Count(shape) > 0 && leader in leaders
    requires var (yes, maybe) := LanesAs(p, shape, leader, place, l, end); yes <= n <= yes + maybe
    ensures OverLeaders(p, shape, place, leaders, l, end).0 <= n <= OverLeaders(p, shape, place, leaders, l, end).1
  {
    hide LanesAs;
    var last := |leaders| - 1;
    if leaders[last] != leader {
      assert leader in leaders[..last];
      OverLeadersBound(p, shape, place, leaders[..last], l, end, leader, n);
    }
  }

  /** The lanes of a warp in the set lie between the fewest and the most, in every world. */
  lemma WarpBounds(p: Pred, shape: Shape, place: Place, world: World, w: nat)
    requires Count(shape) > 0 && OneElection(p) && Allows(p, shape, place, world) && w < Warps(shape)
    ensures var (l, end) := (WarpStart(w), WarpEnd(w, shape));
      WarpTally(p, shape, place, l, end).0 <= Members(world.members, l, end) <= WarpTally(p, shape, place, l, end).1
  {
    hide MayBe, Thread, LanesAs, OverLeaders, Leaders, SomeCertain, Members;
    var l, end := WarpStart(w), WarpEnd(w, shape);
    match ElectActive(p)
    case None =>
      NoElection(p);
      LanesBound(p, shape, Lowest, place, world.members, l, end);
    case Some(active) =>
      var leader := world.leaders(w);
      forall t: int | l <= t < end ensures MayBe(p, Thread(t, shape), shape, leader, place, world.members(t)) {
        WarpsPartition(t, w, shape);
      }
      LanesBound(p, shape, leader, place, world.members, l, end);
      var certain := SomeCertain(active, shape, place, l, end);
      var tried := Leaders(active, shape, place, l, end) + if certain then [] else [Nobody];
      if leader.Lane? {
        LeaderTried(active, shape, place, world, l, end, leader.t);
      } else if certain {
        CertainIsActive(active, shape, place, world, l, end);
      }
      OverLeadersBound(p, shape, place, tried, l, end, leader, Members(world.members, l, end));
  }

  lemma {:induction false} WarpsBound(p: Pred, shape: Shape, place: Place, world: World, w: nat)
    requires Count(shape) > 0 && OneElection(p) && Allows(p, shape, place, world) && w <= Warps(shape)
    ensures var (threads, warps) := WarpsTally(p, shape, place, w);
      && threads.certain <= Threads(world.members, shape, w) <= threads.possible
      && warps.certain <= Occupied(world.members, shape, w) <= warps.possible
  {
    hide WarpTally, Members, Allows;
    if w > 0 {
      WarpsBound(p, shape, place, world, w - 1);
      WarpBounds(p, shape, place, world, w - 1);
    }
  }

  /** The threads and the warps of the set lie between certain and possible, in every world. */
  lemma TallyBoundsWorlds(p: Pred, shape: Shape, place: Place, world: World)
    requires Tally(p, shape, place).Some? && OneElection(p) && Allows(p, shape, place, world)
    ensures var (threads, warps) := Tally(p, shape, place).value;
      && threads.certain <= Members(world.members, 0, Count(shape)) <= threads.possible
      && warps.certain <= Occupied(world.members, shape, Warps(shape)) <= warps.possible
  {
    hide WarpsTally, Members, Allows, Threads, Occupied;
    WarpsBound(p, shape, place, world, Warps(shape));
    ThreadsAreMembers(world.members, shape, Warps(shape));
  }

  lemma {:induction false} MembersJoin(members: int -> bool, l: nat, mid: nat, end: nat)
    requires l <= mid <= end
    ensures Members(members, l, end) == Members(members, l, mid) + Members(members, mid, end)
    decreases mid - l
  {
    if l < mid {
      MembersJoin(members, l + 1, mid, end);
    }
  }

  lemma {:induction false} ThreadsAreMembers(members: int -> bool, shape: Shape, w: nat)
    requires w <= Warps(shape)
    ensures var end := if WARP * w < Count(shape) then WARP * w else Count(shape);
      Threads(members, shape, w) == Members(members, 0, end)
  {
    hide Members;
    if w > 0 {
      ThreadsAreMembers(members, shape, w - 1);
      MembersJoin(members, 0, WarpStart(w - 1), WarpEnd(w - 1, shape));
    } else {
      NoMembers(members);
    }
  }

  lemma NoMembers(members: int -> bool)
    ensures Members(members, 0, 0) == 0
  {
  }

  // Comparisons over the integers

  // The form of a comparison with no partial sum cut off.
  function PlainOn(k: Constraint, tid: Index, place: Place): int {
    PlainAt(k.form, Reading(tid, Place(place.cta, TripFor(k, place))))
  }

  lemma FormIsPlain(k: Constraint, tid: Index, place: Place)
    requires FormOn(k, tid, place).Some?
    ensures FormOn(k, tid, place).value == PlainOn(k, tid, place)
  {
    CheckedIsPlain(k.form.terms, Reading(tid, Place(place.cta, TripFor(k, place))), ConstPart(k.form.base));
  }

  // The truths a comparison has over the integers where a CTA or a trip is left open.
  ghost predicate CanBe(k: Constraint, tid: Index, place: Place, truth: bool) {
    var ends := Ends(k, PlainOn(k, tid, place), place);
    exists y :: ends.0 <= y <= ends.1 && Holds(k.cmp, y) == truth
  }

  // What a predicate may be of a thread whose comparisons are those of the integers.
  ghost predicate Truly(p: Pred, tid: Index, shape: Shape, leader: Leader, place: Place, truth: bool)
    decreases p
  {
    match p
    case Compares(k) => CanBe(k, tid, place, truth)
    case Not(q) => Truly(q, tid, shape, leader, place, !truth)
    case And(a, b) =>
      if truth then Truly(a, tid, shape, leader, place, true) && Truly(b, tid, shape, leader, place, true)
      else Truly(a, tid, shape, leader, place, false) || Truly(b, tid, shape, leader, place, false)
    case Or(a, b) =>
      if truth then Truly(a, tid, shape, leader, place, true) || Truly(b, tid, shape, leader, place, true)
      else Truly(a, tid, shape, leader, place, false) && Truly(b, tid, shape, leader, place, false)
    case _ => MayBe(p, tid, shape, leader, place, truth)
  }

  ghost predicate AllowsTruly(p: Pred, shape: Shape, place: Place, world: World)
    requires Count(shape) > 0
  {
    match ElectActive(p)
    case None => forall t: int :: 0 <= t < Count(shape) ==>
      Truly(p, Thread(t, shape), shape, Lowest, place, world.members(t))
    case Some(active) =>
      && (forall t: int :: 0 <= t < Count(shape) ==> Truly(active, Thread(t, shape), shape, Lowest, place, world.active(t)))
      && (forall w: nat :: w < Warps(shape) ==> Leads(world, world.leaders(w), WarpStart(w), WarpEnd(w, shape)))
      && (forall t: int :: 0 <= t < Count(shape) ==>
            Truly(p, Thread(t, shape), shape, world.leaders(t / WARP), place, world.members(t)))
  }

  lemma {:induction false} TrulyMayBe(p: Pred, tid: Index, shape: Shape, leader: Leader, place: Place, truth: bool)
    requires Truly(p, tid, shape, leader, place, truth)
    ensures MayBe(p, tid, shape, leader, place, truth)
    decreases p
  {
    match p
    case Compares(k) =>
      if FormOn(k, tid, place).Some? {
        hide PlainOn, FormOn, Ends;
        FormIsPlain(k, tid, place);
      }
    case Not(q) => TrulyMayBe(q, tid, shape, leader, place, !truth);
    case And(a, b) =>
      if truth || Truly(a, tid, shape, leader, place, false) {
        TrulyMayBe(a, tid, shape, leader, place, truth);
      }
      if truth || Truly(b, tid, shape, leader, place, false) {
        TrulyMayBe(b, tid, shape, leader, place, truth);
      }
    case Or(a, b) =>
      if !truth || Truly(a, tid, shape, leader, place, true) {
        TrulyMayBe(a, tid, shape, leader, place, truth);
      }
      if !truth || Truly(b, tid, shape, leader, place, true) {
        TrulyMayBe(b, tid, shape, leader, place, truth);
      }
    case _ =>
  }

  lemma TrulyAllowed(p: Pred, shape: Shape, place: Place, world: World)
    requires Count(shape) > 0 && AllowsTruly(p, shape, place, world)
    ensures Allows(p, shape, place, world)
  {
    hide MayBe, Truly, Thread, Leads;
    match ElectActive(p)
    case None =>
      forall t: int | 0 <= t < Count(shape) ensures MayBe(p, Thread(t, shape), shape, Lowest, place, world.members(t)) {
        TrulyMayBe(p, Thread(t, shape), shape, Lowest, place, world.members(t));
      }
    case Some(active) =>
      forall t: int | 0 <= t < Count(shape)
        ensures MayBe(active, Thread(t, shape), shape, Lowest, place, world.active(t))
        ensures MayBe(p, Thread(t, shape), shape, world.leaders(t / WARP), place, world.members(t))
      {
        TrulyMayBe(active, Thread(t, shape), shape, Lowest, place, world.active(t));
        TrulyMayBe(p, Thread(t, shape), shape, world.leaders(t / WARP), place, world.members(t));
      }
  }

  // The comparison has the same truths of every thread at both places.
  ghost predicate Alike(k: Constraint, shape: Shape, e: Place, f: Place) {
    forall t: int, truth: bool :: 0 <= t < Count(shape) && CanBe(k, Thread(t, shape), e, truth) ==>
      CanBe(k, Thread(t, shape), f, truth)
  }

  ghost predicate AllAlike(p: Pred, shape: Shape, e: Place, f: Place) {
    forall k :: k in Constraints(p) ==> Alike(k, shape, e, f)
  }

  lemma {:induction false} TrulyAlike(p: Pred, t: int, shape: Shape, leader: Leader, e: Place, f: Place, truth: bool)
    requires 0 <= t < Count(shape) && AllAlike(p, shape, e, f) && Truly(p, Thread(t, shape), shape, leader, e, truth)
    ensures Truly(p, Thread(t, shape), shape, leader, f, truth)
    decreases p
  {
    hide CanBe, Thread;
    match p
    case Compares(k) =>
      assert k in Constraints(p);
    case Not(q) => TrulyAlike(q, t, shape, leader, e, f, !truth);
    case And(a, b) =>
      PartsAlike(p, a, b, shape, e, f);
      if truth || Truly(a, Thread(t, shape), shape, leader, e, false) {
        TrulyAlike(a, t, shape, leader, e, f, truth);
      }
      if truth || Truly(b, Thread(t, shape), shape, leader, e, false) {
        TrulyAlike(b, t, shape, leader, e, f, truth);
      }
    case Or(a, b) =>
      PartsAlike(p, a, b, shape, e, f);
      if !truth || Truly(a, Thread(t, shape), shape, leader, e, true) {
        TrulyAlike(a, t, shape, leader, e, f, truth);
      }
      if !truth || Truly(b, Thread(t, shape), shape, leader, e, true) {
        TrulyAlike(b, t, shape, leader, e, f, truth);
      }
    case _ =>
  }

  lemma PartsAlike(p: Pred, a: Pred, b: Pred, shape: Shape, e: Place, f: Place)
    requires AllAlike(p, shape, e, f) && (p == And(a, b) || p == Or(a, b))
    ensures AllAlike(a, shape, e, f) && AllAlike(b, shape, e, f)
  {
    hide Alike;
    assert forall k :: k in Constraints(a) || k in Constraints(b) ==> k in Constraints(p);
  }

  /** Where no comparison changes its truths, neither do the worlds. */
  lemma AlikeAllows(p: Pred, shape: Shape, e: Place, f: Place, world: World)
    requires Count(shape) > 0 && AllAlike(p, shape, e, f) && AllowsTruly(p, shape, e, world)
    ensures AllowsTruly(p, shape, f, world)
  {
    hide Truly, Thread, Alike, Leads;
    match ElectActive(p)
    case None =>
      forall t: int | 0 <= t < Count(shape) ensures Truly(p, Thread(t, shape), shape, Lowest, f, world.members(t)) {
        TrulyAlike(p, t, shape, Lowest, e, f, world.members(t));
      }
    case Some(active) =>
      ActiveInside(p);
      forall t: int | 0 <= t < Count(shape)
        ensures Truly(active, Thread(t, shape), shape, Lowest, f, world.active(t))
        ensures Truly(p, Thread(t, shape), shape, world.leaders(t / WARP), f, world.members(t))
      {
        TrulyAlike(active, t, shape, Lowest, e, f, world.active(t));
        TrulyAlike(p, t, shape, world.leaders(t / WARP), e, f, world.members(t));
      }
  }

  // The threads and the warps a world holds.
  function HeldThreads(world: World, shape: Shape): nat {
    Members(world.members, 0, Count(shape))
  }

  function HeldWarps(world: World, shape: Shape): nat {
    Occupied(world.members, shape, Warps(shape))
  }

  ghost predicate Counts(t: (Counted, Counted), world: World, shape: Shape) {
    && t.0.certain <= HeldThreads(world, shape) <= t.0.possible
    && t.1.certain <= HeldWarps(world, shape) <= t.1.possible
  }

  /** One place's tally bounds the worlds of every place where the comparisons have the same truths. */
  lemma TallyBoundsAlike(p: Pred, shape: Shape, e: Place, f: Place, world: World)
    requires Tally(p, shape, f).Some? && OneElection(p) && AllAlike(p, shape, e, f)
    requires Count(shape) > 0 && AllowsTruly(p, shape, e, world)
    ensures Counts(Tally(p, shape, f).value, world, shape)
  {
    hide Tally, AllAlike, AllowsTruly, Allows, OneElection, Members, Occupied;
    AlikeAllows(p, shape, e, f, world);
    TrulyAllowed(p, shape, f, world);
    TallyBoundsWorlds(p, shape, f, world);
  }

  // Worlds of what the comparisons' forms are

  ghost predicate AllClosed(p: Pred) {
    forall k :: k in Constraints(p) ==> Formed(k) && Closed(k.form)
  }

  // What a predicate may be of a thread whose comparisons are what their forms come to there.
  ghost predicate Actual(p: Pred, tid: Index, shape: Shape, leader: Leader, place: Place, truth: bool)
    decreases p
  {
    match p
    case True => truth
    case False => !truth
    case Unknown => true
    case Uniform(_, _) => true
    case Compares(k) => Happens(k, tid, place, truth)
    case Elect(_) => truth == (leader == Lane(Linear(tid, shape)))
    case Not(q) => Actual(q, tid, shape, leader, place, !truth)
    case And(a, b) =>
      if truth then Actual(a, tid, shape, leader, place, true) && Actual(b, tid, shape, leader, place, true)
      else Actual(a, tid, shape, leader, place, false) || Actual(b, tid, shape, leader, place, false)
    case Or(a, b) =>
      if truth then Actual(a, tid, shape, leader, place, true) || Actual(b, tid, shape, leader, place, true)
      else Actual(a, tid, shape, leader, place, false) && Actual(b, tid, shape, leader, place, false)
  }

  /** A world of the threads' own comparisons at a CTA and a trip. */
  ghost predicate AllowsActual(p: Pred, shape: Shape, place: Place, world: World)
    requires Count(shape) > 0
  {
    AllClosed(p) &&
    match ElectActive(p)
    case None => forall t: int :: 0 <= t < Count(shape) ==>
      Actual(p, Thread(t, shape), shape, Lowest, place, world.members(t))
    case Some(active) =>
      && (forall t: int :: 0 <= t < Count(shape) ==> Actual(active, Thread(t, shape), shape, Lowest, place, world.active(t)))
      && (forall w: nat :: w < Warps(shape) ==> Leads(world, world.leaders(w), WarpStart(w), WarpEnd(w, shape)))
      && (forall t: int :: 0 <= t < Count(shape) ==>
            Actual(p, Thread(t, shape), shape, world.leaders(t / WARP), place, world.members(t)))
  }

  lemma HappensCanBe(k: Constraint, tid: Index, place: Place, truth: bool)
    requires Formed(k) && Closed(k.form) && Happens(k, tid, place, truth)
    ensures CanBe(k, tid, place, truth)
  {
    hide Reading, PartOf, TermsValue, SymExprs.Value, Meets, Holds, Sees, Formed, TermsAt;
    var leaf: Leaf, env: SymExprs.Env :| Sees(leaf, tid, place) && InLaunch(k, place, leaf, env) &&
      Meets(k.cmp, FormValue(k.form, leaf, env)) == truth;
    TermsRead(k, k.form.terms, tid, place, leaf, env);
    ConstPartIs(k.form.base, env);
    var y := FormValue(k.form, leaf, env);
    MeetsIsHolds(k.cmp, y);
    TripOpen(k, place);
    assert y == PlainOn(k, tid, place) + (if OpenCta(k, place) then PartOf(k.form.terms, OnCta, leaf, env) else 0) +
      (if OpenTrip(k, place) then PartOf(k.form.terms, OnCounter, leaf, env) else 0);
    var ends := Ends(k, PlainOn(k, tid, place), place);
    assert ends.0 <= y <= ends.1;
    assert Holds(k.cmp, y) == truth;
  }

  lemma TripOpen(k: Constraint, place: Place)
    ensures OpenTrip(k, place) <==> k.trip.Some? && TripFor(k, place).None?
  {
  }

  lemma {:induction false} ActualTruly(p: Pred, tid: Index, shape: Shape, leader: Leader, place: Place, truth: bool)
    requires AllClosed(p) && Actual(p, tid, shape, leader, place, truth)
    ensures Truly(p, tid, shape, leader, place, truth)
    decreases p
  {
    hide CanBe, Happens, Formed, Closed;
    match p
    case Compares(k) =>
      assert k in Constraints(p);
      HappensCanBe(k, tid, place, truth);
    case Not(q) => ActualTruly(q, tid, shape, leader, place, !truth);
    case And(a, b) =>
      PartsClosed(p, a, b);
      if truth || Actual(a, tid, shape, leader, place, false) {
        ActualTruly(a, tid, shape, leader, place, truth);
      }
      if truth || Actual(b, tid, shape, leader, place, false) {
        ActualTruly(b, tid, shape, leader, place, truth);
      }
    case Or(a, b) =>
      PartsClosed(p, a, b);
      if !truth || Actual(a, tid, shape, leader, place, true) {
        ActualTruly(a, tid, shape, leader, place, truth);
      }
      if !truth || Actual(b, tid, shape, leader, place, true) {
        ActualTruly(b, tid, shape, leader, place, truth);
      }
    case _ =>
  }

  lemma PartsClosed(p: Pred, a: Pred, b: Pred)
    requires AllClosed(p) && (p == And(a, b) || p == Or(a, b))
    ensures AllClosed(a) && AllClosed(b)
  {
    hide Formed, Closed;
    assert forall k :: k in Constraints(a) || k in Constraints(b) ==> k in Constraints(p);
  }

  /** A world of what the forms are is one of what the code's plain readings are. */
  lemma ActualAllowed(p: Pred, shape: Shape, place: Place, world: World)
    requires Count(shape) > 0 && AllowsActual(p, shape, place, world)
    ensures AllowsTruly(p, shape, place, world)
  {
    hide Truly, Actual, Thread, Leads, Formed, Closed;
    match ElectActive(p)
    case None =>
      forall t: int | 0 <= t < Count(shape) ensures Truly(p, Thread(t, shape), shape, Lowest, place, world.members(t)) {
        ActualTruly(p, Thread(t, shape), shape, Lowest, place, world.members(t));
      }
    case Some(active) =>
      ActiveInside(p);
      forall t: int | 0 <= t < Count(shape)
        ensures Truly(active, Thread(t, shape), shape, Lowest, place, world.active(t))
        ensures Truly(p, Thread(t, shape), shape, world.leaders(t / WARP), place, world.members(t))
      {
        ActualTruly(active, Thread(t, shape), shape, Lowest, place, world.active(t));
        ActualTruly(p, Thread(t, shape), shape, world.leaders(t / WARP), place, world.members(t));
      }
  }

  /** In every world of what the comparisons' forms come to, the set lies between certain and possible. */
  lemma TallyBoundsActual(p: Pred, shape: Shape, place: Place, world: World)
    requires Tally(p, shape, place).Some? && OneElection(p) && Count(shape) > 0 && AllowsActual(p, shape, place, world)
    ensures Counts(Tally(p, shape, place).value, world, shape)
  {
    hide *;
    ActualAllowed(p, shape, place, world);
    AlikeItself(p, shape, place);
    TallyBoundsAlike(p, shape, place, place, world);
  }

  lemma AlikeItself(p: Pred, shape: Shape, place: Place)
    ensures AllAlike(p, shape, place, place)
  {
    hide CanBe;
  }

  // The representative leader

  /** The lowest-lane representative: yes and no hold in every world of the active threads. */
  lemma ElectedIsLowest(active: Pred, t: int, shape: Shape, place: Place, world: World)
    requires 0 <= t < Count(shape) && ElectionFree(active)
    requires forall s: int :: 0 <= s < Count(shape) ==> MayBe(active, Thread(s, shape), shape, Lowest, place, world.active(s))
    ensures var lowest := world.active(t) && forall s: int :: t - t % WARP <= s < t ==> !world.active(s);
      && (Elected(active, Thread(t, shape), shape, place) == Yes ==> lowest)
      && (Elected(active, Thread(t, shape), shape, place) == No ==> !lowest)
  {
    hide MayBe, Candidates;
    LinearOfThread(t, shape);
    var base := t - t % WARP;
    var end := if base + WARP < Count(shape) then base + WARP else Count(shape);
    CandidatesAreSound(active, shape, place, world, t, base, base, end, false, false);
  }

  lemma {:induction false} CandidatesAreSound(active: Pred, shape: Shape, place: Place, world: World, t: int, base: int,
                                              l: int, end: int, any: bool, own: bool)
    requires Count(shape) > 0 && 0 <= base <= l <= end <= Count(shape) && base <= t < end && ElectionFree(active)
    requires forall s: int :: 0 <= s < Count(shape) ==> MayBe(active, Thread(s, shape), shape, Lowest, place, world.active(s))
    requires !any ==> forall s: int :: base <= s < l ==> !world.active(s)
    requires own ==> any && t < l
    requires !own && t < l ==> !world.active(t)
    ensures var lowest := world.active(t) && forall s: int :: base <= s < t ==> !world.active(s);
      && (Candidates(active, shape, place, t, l, end, any, own) == Yes ==> lowest)
      && (Candidates(active, shape, place, t, l, end, any, own) == No ==> !lowest)
    decreases end - l
  {
    hide MayBe, Eval, Thread;
    if l < end {
      EvalIsSound(active, Thread(l, shape), shape, Lowest, place, world.active(l));
      match Eval(active, Thread(l, shape), shape, Lowest, place) {
        case Yes =>
        case Maybe => CandidatesAreSound(active, shape, place, world, t, base, l + 1, end, true, own || l == t);
        case No => CandidatesAreSound(active, shape, place, world, t, base, l + 1, end, any, own);
      }
    }
  }
}
