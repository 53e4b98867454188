/** Worlds where each election has leaders of its own, and which predicates the tally, with one leader for all, bounds. */
module Elections {
  import opened Wrappers
  import opened ExitLimits
  import opened AffineExprs
  import opened Lanes
  import opened Participation
  import opened TallyBounds
  import opened TallyLimits
  import SymExprs

  // Of each election, by the predicate it chooses among: the threads that run it, and each warp's leader.
  datatype Choices = Choices(active: (Pred, int) -> bool, leaders: (Pred, nat) -> Leader)

  // The elections in a predicate, those another chooses among too.
  ghost function ElectionsOf(p: Pred): set<Pred> {
    match p
    case Elect(q) => {q} + ElectionsOf(q)
    case Not(q) => ElectionsOf(q)
    case And(a, b) => ElectionsOf(a) + ElectionsOf(b)
    case Or(a, b) => ElectionsOf(a) + ElectionsOf(b)
    case _ => {}
  }

  // What a predicate may be of a thread, every election coming out as chosen.
  ghost predicate MayBeChosen(p: Pred, t: int, shape: Shape, choices: Choices, place: Place, truth: bool)
    requires 0 <= t < Count(shape)
    decreases p
  {
    match p
    case Elect(q) => truth == (choices.leaders(q, t / WARP) == Lane(t))
    case Not(q) => MayBeChosen(q, t, shape, choices, place, !truth)
    case And(a, b) =>
      if truth then MayBeChosen(a, t, shape, choices, place, true) && MayBeChosen(b, t, shape, choices, place, true)
      else MayBeChosen(a, t, shape, choices, place, false) || MayBeChosen(b, t, shape, choices, place, false)
    case Or(a, b) =>
      if truth then MayBeChosen(a, t, shape, choices, place, true) || MayBeChosen(b, t, shape, choices, place, true)
      else MayBeChosen(a, t, shape, choices, place, false) && MayBeChosen(b, t, shape, choices, place, false)
    case _ => MayBe(p, Thread(t, shape), shape, Lowest, place, truth)
  }

  function WorldOf(q: Pred, members: int -> bool, choices: Choices): World {
    World(members, (t: int) => choices.active(q, t), (w: nat) => choices.leaders(q, w))
  }

  // Each election's leaders are among the threads that run it, and those are the ones its predicate selects.
  ghost predicate Chooses(q: Pred, shape: Shape, place: Place, members: int -> bool, choices: Choices) {
    && (forall t: int :: 0 <= t < Count(shape) ==> MayBeChosen(q, t, shape, choices, place, choices.active(q, t)))
    && (forall w: nat :: w < Warps(shape) ==>
          Leads(WorldOf(q, members, choices), choices.leaders(q, w), WarpStart(w), WarpEnd(w, shape)))
  }

  ghost predicate AllowsChoices(p: Pred, shape: Shape, place: Place, members: int -> bool, choices: Choices) {
    && (forall t: int :: 0 <= t < Count(shape) ==> MayBeChosen(p, t, shape, choices, place, members(t)))
    && (forall q :: q in ElectionsOf(p) ==> Chooses(q, shape, place, members, choices))
  }

  // -- one election --------------------------------------------------------------------

  // With no election, or none but of `active`, its leader is the only one read.
  lemma {:induction false} OneLeader(p: Pred, active: Pred, t: int, shape: Shape, choices: Choices, leader: Leader,
                                     place: Place, truth: bool)
    requires 0 <= t < Count(shape) && MayBeChosen(p, t, shape, choices, place, truth)
    requires ElectionFree(p) || (Elects(p, active) && leader == choices.leaders(active, t / WARP))
    ensures MayBe(p, Thread(t, shape), shape, leader, place, truth)
    decreases p
  {
    hide Thread, FormOn, Ends, Linear;
    match p
    case Elect(_) => LinearOfThread(t, shape);
    case Not(q) => OneLeader(q, active, t, shape, choices, leader, place, !truth);
    case And(a, b) =>
      if truth || MayBeChosen(a, t, shape, choices, place, false) {
        OneLeader(a, active, t, shape, choices, leader, place, truth);
      }
      if truth || MayBeChosen(b, t, shape, choices, place, false) {
        OneLeader(b, active, t, shape, choices, leader, place, truth);
      }
    case Or(a, b) =>
      if !truth || MayBeChosen(a, t, shape, choices, place, true) {
        OneLeader(a, active, t, shape, choices, leader, place, truth);
      }
      if !truth || MayBeChosen(b, t, shape, choices, place, true) {
        OneLeader(b, active, t, shape, choices, leader, place, truth);
      }
    case _ =>
  }

  lemma {:induction false} FirstIsElection(p: Pred)
    ensures ElectActive(p).Some? ==> ElectActive(p).value in ElectionsOf(p)
  {
    match p
    case Not(q) => FirstIsElection(q);
    case And(a, b) => FirstIsElection(a); FirstIsElection(b);
    case Or(a, b) => FirstIsElection(a); FirstIsElection(b);
    case _ =>
  }

  function ActiveOf(p: Pred): Pred {
    if ElectActive(p).Some? then ElectActive(p).value else True
  }

  lemma ChosenAllowed(p: Pred, shape: Shape, place: Place, members: int -> bool, choices: Choices)
    requires Count(shape) > 0 && OneElection(p) && AllowsChoices(p, shape, place, members, choices)
    ensures Allows(p, shape, place, WorldOf(ActiveOf(p), members, choices))
  {
    hide MayBe, MayBeChosen, Thread, Leads, Elects, ElectionFree;
    match ElectActive(p)
    case None =>
      NoElection(p);
      forall t: int | 0 <= t < Count(shape) ensures MayBe(p, Thread(t, shape), shape, Lowest, place, members(t)) {
        OneLeader(p, True, t, shape, choices, Lowest, place, members(t));
      }
    case Some(active) =>
      FirstIsElection(p);
      assert Chooses(active, shape, place, members, choices);
      forall t: int | 0 <= t < Count(shape)
        ensures MayBe(active, Thread(t, shape), shape, Lowest, place, choices.active(active, t))
        ensures MayBe(p, Thread(t, shape), shape, choices.leaders(active, t / WARP), place, members(t))
      {
        OneLeader(active, active, t, shape, choices, Lowest, place, choices.active(active, t));
        OneLeader(p, active, t, shape, choices, choices.leaders(active, t / WARP), place, members(t));
      }
  }

  /** With one election, chosen among threads no other election decides, the tally bounds the set however each comes out. */
  lemma TallyBoundsChosen(p: Pred, shape: Shape, place: Place, members: int -> bool, choices: Choices)
    requires Tally(p, shape, place).Some? && Count(shape) > 0 && OneElection(p)
    requires AllowsChoices(p, shape, place, members, choices)
    ensures var (threads, warps) := Tally(p, shape, place).value;
      && threads.certain <= Members(members, 0, Count(shape)) <= threads.possible
      && warps.certain <= Occupied(members, shape, Warps(shape)) <= warps.possible
  {
    hide *;
    ChosenAllowed(p, shape, place, members, choices);
    TallyBoundsWorlds(p, shape, place, WorldOf(ActiveOf(p), members, choices));
    MembersOf(ActiveOf(p), members, choices);
  }

  lemma MembersOf(q: Pred, members: int -> bool, choices: Choices)
    ensures WorldOf(q, members, choices).members == members
  {
  }

  lemma {:induction false} ElectionsAreParts(p: Pred, q: Pred)
    requires q in ElectionsOf(p)
    ensures q < p
  {
    match p
    case Elect(a) => if q != a { ElectionsAreParts(a, q); }
    case Not(a) => ElectionsAreParts(a, q);
    case And(a, b) => if q in ElectionsOf(a) { ElectionsAreParts(a, q); } else { ElectionsAreParts(b, q); }
    case Or(a, b) => if q in ElectionsOf(a) { ElectionsAreParts(a, q); } else { ElectionsAreParts(b, q); }
    case _ =>
  }

  lemma {:induction false} NoneOf(p: Pred)
    ensures ElectionFree(p) <==> ElectionsOf(p) == {}
    ensures ElectionsOf(p) == {} ==> ElectActive(p).None?
  {
    match p
    case Elect(q) => assert q in ElectionsOf(p);
    case Not(q) => NoneOf(q);
    case And(a, b) => NoneOf(a); NoneOf(b);
    case Or(a, b) => NoneOf(a); NoneOf(b);
    case _ =>
  }

  lemma {:induction false} OnlyOf(p: Pred, active: Pred)
    requires ElectionFree(active)
    ensures Elects(p, active) <==> ElectionsOf(p) <= {active}
  {
    match p
    case Elect(q) => NoneOf(q);
    case Not(q) => OnlyOf(q, active);
    case And(a, b) => OnlyOf(a, active); OnlyOf(b, active);
    case Or(a, b) => OnlyOf(a, active); OnlyOf(b, active);
    case _ =>
  }

  /** A predicate has one election just where no two of its elections, nested ones too, choose among different sets. */
  lemma OneElectionWhere(p: Pred)
    ensures OneElection(p) <==> forall a, b :: a in ElectionsOf(p) && b in ElectionsOf(p) ==> a == b
  {
    hide Elects, ElectionFree;
    FirstIsElection(p);
    NoneOf(p);
    match ElectActive(p)
    case None => NoElection(p);
    case Some(active) =>
      NoneOf(active);
      if ElectionFree(active) {
        OnlyOf(p, active);
      } else {
        var q :| q in ElectionsOf(active);
        ElectionsAreParts(active, q);
        InnerElections(p, active, q);
      }
  }

  lemma {:induction false} InnerElections(p: Pred, a: Pred, q: Pred)
    requires a in ElectionsOf(p) && q in ElectionsOf(a)
    ensures q in ElectionsOf(p)
  {
    match p
    case Elect(b) => if a != b { InnerElections(b, a, q); }
    case Not(b) => InnerElections(b, a, q);
    case And(b, c) => if a in ElectionsOf(b) { InnerElections(b, a, q); } else { InnerElections(c, a, q); }
    case Or(b, c) => if a in ElectionsOf(b) { InnerElections(b, a, q); } else { InnerElections(c, a, q); }
    case _ =>
  }

  // -- two elections -------------------------------------------------------------------

  // Those an election among `a` picks and one among `b` does not.
  function PickedByOne(a: Pred, b: Pred): Pred {
    And(Elect(a), Not(Elect(b)))
  }

  lemma {:induction false} NoLanes(p: Pred, shape: Shape, leader: Leader, place: Place, l: nat, end: nat)
    requires Count(shape) > 0
    requires forall t: int :: l <= t < end ==> Eval(p, Thread(t, shape), shape, leader, place) == No
    ensures LanesAs(p, shape, leader, place, l, end) == (0, 0)
    decreases end - l
  {
    hide Eval, Thread;
    if l < end {
      NoLanes(p, shape, leader, place, l + 1, end);
    }
  }

  // A leader named is the one of both.
  lemma NeitherWay(a: Pred, b: Pred, tid: Index, shape: Shape, leader: Leader, place: Place)
    requires Count(shape) > 0 && leader != Lowest
    ensures Eval(PickedByOne(a, b), tid, shape, leader, place) == No
  {
    hide Read, Elected, Count, Linear, Eval;
    PairEval(Elect(a), Not(Elect(b)), tid, shape, leader, place);
    BothNamed(a, b, tid, shape, leader, place);
  }

  lemma BothNamed(a: Pred, b: Pred, tid: Index, shape: Shape, leader: Leader, place: Place)
    requires Count(shape) > 0 && leader != Lowest
    ensures Eval(Elect(a), tid, shape, leader, place) == Eval(Elect(b), tid, shape, leader, place) != Maybe
    ensures Eval(Not(Elect(b)), tid, shape, leader, place) == Negate(Eval(Elect(b), tid, shape, leader, place))
  {
    hide Read, Elected, Count, Linear;
  }

  lemma {:induction false} NoneOver(p: Pred, shape: Shape, place: Place, leaders: seq<Leader>, l: nat, end: nat)
    requires Count(shape) > 0 && leaders != []
    requires forall leader :: leader in leaders ==> LanesAs(p, shape, leader, place, l, end) == (0, 0)
    ensures OverLeaders(p, shape, place, leaders, l, end) == (0, 0)
  {
    hide LanesAs;
    var n := |leaders| - 1;
    assert leaders[n] in leaders;
    if n > 0 {
      NoneOver(p, shape, place, leaders[..n], l, end);
    } else {
      assert leaders[..n] == [];
    }
  }

  lemma NoneOfWarp(a: Pred, b: Pred, shape: Shape, place: Place, w: nat)
    requires Count(shape) > 0
    ensures WarpTally(PickedByOne(a, b), shape, place, WarpStart(w), WarpEnd(w, shape)) == (0, 0)
  {
    hide Eval, Thread, Leaders, SomeCertain, LanesAs, OverLeaders, WarpStart, WarpEnd;
    var p, l, end := PickedByOne(a, b), WarpStart(w), WarpEnd(w, shape);
    assert ElectActive(p) == Some(a);
    TriedIsNotEmpty(p, shape, place, w);
    forall leader | leader in Tried(p, shape, place, w) ensures LanesAs(p, shape, leader, place, l, end) == (0, 0) {
      if leader in Leaders(a, shape, place, l, end) {
        LeadersAre(a, shape, place, l, end, leader);
      }
      forall t: int | l <= t < end ensures Eval(p, Thread(t, shape), shape, leader, place) == No {
        NeitherWay(a, b, Thread(t, shape), shape, leader, place);
      }
      NoLanes(p, shape, leader, place, l, end);
    }
    NoneOver(p, shape, place, Tried(p, shape, place, w), l, end);
  }

  lemma {:induction false} NoneOfWarps(a: Pred, b: Pred, shape: Shape, place: Place, w: nat)
    requires Count(shape) > 0
    ensures WarpsTally(PickedByOne(a, b), shape, place, w) == (Counted(0, 0), Counted(0, 0))
  {
    hide WarpTally, WarpStart, WarpEnd, PickedByOne;
    if w > 0 {
      NoneOfWarps(a, b, shape, place, w - 1);
      NoneOfWarp(a, b, shape, place, w - 1);
    }
  }

  lemma {:induction false} NoMember(members: int -> bool, l: nat, end: nat)
    ensures Members(members, l, end) == 0 <==> forall t: int :: l <= t < end ==> !members(t)
    decreases end - l
  {
    if l < end {
      NoMember(members, l + 1, end);
    }
  }

  // Every leader the first election has is the second's.
  ghost predicate SameLeaders(a: Pred, b: Pred, shape: Shape, choices: Choices) {
    forall w: nat :: w < Warps(shape) && choices.leaders(a, w).Lane? ==> choices.leaders(b, w) == choices.leaders(a, w)
  }

  /**
   * Of two elections one leader stands for both, so of what only the first picks the tally holds nothing. It bounds the
   * set just where every leader of the first is the second's too.
   */
  lemma TwoElectionsWhere(a: Pred, b: Pred, shape: Shape, place: Place, members: int -> bool, choices: Choices)
    requires Count(shape) > 0 && AllowsChoices(PickedByOne(a, b), shape, place, members, choices)
    ensures Tally(PickedByOne(a, b), shape, place) == Some((Counted(0, 0), Counted(0, 0)))
    ensures Members(members, 0, Count(shape)) <= 0 <==> SameLeaders(a, b, shape, choices)
  {
    hide *;
    NoneCounted(a, b, shape, place);
    NoMember(members, 0, Count(shape));
    PickedWhere(a, b, shape, place, members, choices);
  }

  lemma NoneCounted(a: Pred, b: Pred, shape: Shape, place: Place)
    requires Count(shape) > 0
    ensures Tally(PickedByOne(a, b), shape, place) == Some((Counted(0, 0), Counted(0, 0)))
  {
    hide WarpsTally;
    assert HasCondition(Elect(a));
    NoneOfWarps(a, b, shape, place, Warps(shape));
  }

  lemma PickedIs(a: Pred, b: Pred, t: int, shape: Shape, choices: Choices, place: Place, truth: bool)
    requires 0 <= t < Count(shape) && MayBeChosen(PickedByOne(a, b), t, shape, choices, place, truth)
    ensures truth <==> choices.leaders(a, t / WARP) == Lane(t) && choices.leaders(b, t / WARP) != Lane(t)
  {
    hide Count;
    assert MayBeChosen(Elect(a), t, shape, choices, place, truth) <==> truth == (choices.leaders(a, t / WARP) == Lane(t));
    assert MayBeChosen(Not(Elect(b)), t, shape, choices, place, truth) <==>
      MayBeChosen(Elect(b), t, shape, choices, place, !truth);
  }

  lemma PickedWhere(a: Pred, b: Pred, shape: Shape, place: Place, members: int -> bool, choices: Choices)
    requires Count(shape) > 0 && AllowsChoices(PickedByOne(a, b), shape, place, members, choices)
    ensures (forall t: int :: 0 <= t < Count(shape) ==> !members(t)) <==> SameLeaders(a, b, shape, choices)
  {
    hide Count, Warps, WarpStart, WarpEnd, MayBeChosen, PickedByOne;
    PickedAre(a, b);
    assert Chooses(a, shape, place, members, choices);
    forall t: int | 0 <= t < Count(shape)
      ensures t / WARP < Warps(shape)
      ensures members(t) <==> choices.leaders(a, t / WARP) == Lane(t) && choices.leaders(b, t / WARP) != Lane(t)
    {
      WarpsPartition(t, t / WARP, shape);
      PickedIs(a, b, t, shape, choices, place, members(t));
    }
    forall w: nat | w < Warps(shape) && choices.leaders(a, w).Lane?
      ensures 0 <= choices.leaders(a, w).t < Count(shape) && choices.leaders(a, w).t / WARP == w
    {
      WarpIsShort(w, shape);
      WarpsPartition(choices.leaders(a, w).t, w, shape);
    }
    if !SameLeaders(a, b, shape, choices) {
      var w: nat :| w < Warps(shape) && choices.leaders(a, w).Lane? && choices.leaders(b, w) != choices.leaders(a, w);
      assert members(choices.leaders(a, w).t);
    }
  }

  lemma PickedAre(a: Pred, b: Pred)
    ensures a in ElectionsOf(PickedByOne(a, b))
  {
  }

  const ONE_WARP := Shape(32, 1, 1)
  const SOMEWHERE := Place(None, None)

  // All of a warp elect lane 0, none of it nobody.
  function AllAndNone(): Choices {
    Choices((q: Pred, t: int) => q.True?, (q: Pred, w: nat) => if q.True? then Lane(0) else Nobody)
  }

  function First(): int -> bool {
    (t: int) => t == 0
  }

  /** Such elections come about: the lane that all of a warp elect, with nobody elected by none, is held and not counted. */
  lemma TwoElectionsExceed()
    ensures AllowsChoices(PickedByOne(True, False), ONE_WARP, SOMEWHERE, First(), AllAndNone())
    ensures Tally(PickedByOne(True, False), ONE_WARP, SOMEWHERE) == Some((Counted(0, 0), Counted(0, 0)))
    ensures Members(First(), 0, Count(ONE_WARP)) > 0
  {
    hide Tally, AllowsChoices, Members, Count, PickedByOne;
    AllAndNoneAllowed();
    OneWarp();
    TwoElectionsWhere(True, False, ONE_WARP, SOMEWHERE, First(), AllAndNone());
    assert AllAndNone().leaders(True, 0) == Lane(0);
    assert !SameLeaders(True, False, ONE_WARP, AllAndNone());
  }

  lemma OneWarp()
    ensures Count(ONE_WARP) == 32 && Warps(ONE_WARP) == 1
  {
  }

  lemma AllAndNoneAllowed()
    ensures AllowsChoices(PickedByOne(True, False), ONE_WARP, SOMEWHERE, First(), AllAndNone())
  {
    var p := PickedByOne(True, False);
    assert ElectionsOf(p) == {True, False};
    AllAndNoneChosen();
    forall t: int | 0 <= t < Count(ONE_WARP)
      ensures MayBeChosen(p, t, ONE_WARP, AllAndNone(), SOMEWHERE, First()(t))
    {
      FirstPicked(t);
    }
  }

  lemma FirstPicked(t: int)
    requires 0 <= t < Count(ONE_WARP)
    ensures MayBeChosen(PickedByOne(True, False), t, ONE_WARP, AllAndNone(), SOMEWHERE, First()(t))
  {
    assert MayBeChosen(Elect(True), t, ONE_WARP, AllAndNone(), SOMEWHERE, t == 0);
    assert MayBeChosen(Not(Elect(False)), t, ONE_WARP, AllAndNone(), SOMEWHERE, true);
  }

  lemma AllAndNoneChosen()
    ensures Chooses(True, ONE_WARP, SOMEWHERE, First(), AllAndNone())
    ensures Chooses(False, ONE_WARP, SOMEWHERE, First(), AllAndNone())
  {
    OneWarp();
    assert Leads(WorldOf(True, First(), AllAndNone()), Lane(0), WarpStart(0), WarpEnd(0, ONE_WARP));
    assert Leads(WorldOf(False, First(), AllAndNone()), Nobody, WarpStart(0), WarpEnd(0, ONE_WARP));
  }

  // -- an election of elected threads ---------------------------------------------------

  // `%tid.x == 0`.
  function AtLane0(): Pred {
    Compares(Constraint(AffineExpr([(Tid(X), SymExprs.Const(1))], SymExprs.Const(0)), Eq, None, None))
  }

  // The elected of the elected, where it is lane 0.
  function ElectedTwice(): Pred {
    And(Elect(Elect(True)), AtLane0())
  }

  // Lane 1 is the elected of all, and of itself.
  function Lane1(): Choices {
    Choices((q: Pred, t: int) => q.True? || t == 1, (q: Pred, w: nat) => Lane(1))
  }

  function Nowhere(): int -> bool {
    (t: int) => false
  }

  /**
   * The threads an election chooses among are those of the lowest lane where another election selects them, so lane 0 is
   * counted as certain although any lane may be the one.
   */
  lemma ElectedTwiceExceeds()
    ensures AllowsChoices(ElectedTwice(), ONE_WARP, SOMEWHERE, Nowhere(), Lane1())
    ensures Tally(ElectedTwice(), ONE_WARP, SOMEWHERE) == Some((Counted(1, 1), Counted(1, 1)))
    ensures Members(Nowhere(), 0, Count(ONE_WARP)) == 0
  {
    hide Tally, MayBeChosen, ElectedTwice;
    NoMember(Nowhere(), 0, Count(ONE_WARP));
    ElectedTwiceTally();
    Lane1Elected();
    forall t: int | 0 <= t < Count(ONE_WARP)
      ensures MayBeChosen(ElectedTwice(), t, ONE_WARP, Lane1(), SOMEWHERE, false)
    {
      NotTwice(t);
    }
  }

  lemma NotTwice(t: int)
    requires 0 <= t < Count(ONE_WARP)
    ensures MayBeChosen(ElectedTwice(), t, ONE_WARP, Lane1(), SOMEWHERE, false)
  {
    hide MayBe, AtLane0;
    ReadsLane(t);
    assert AtLane0().Compares? by { Lane0Compares(); }
    assert MayBeChosen(AtLane0(), t, ONE_WARP, Lane1(), SOMEWHERE, false) <==>
      MayBe(AtLane0(), Thread(t, ONE_WARP), ONE_WARP, Lowest, SOMEWHERE, false);
    assert MayBeChosen(Elect(Elect(True)), t, ONE_WARP, Lane1(), SOMEWHERE, false) <==> t != 1;
  }

  lemma Lane0Compares()
    ensures AtLane0().Compares?
  {
  }

  lemma Lane1Elected()
    ensures forall q :: q in ElectionsOf(ElectedTwice()) ==> Chooses(q, ONE_WARP, SOMEWHERE, Nowhere(), Lane1())
  {
    assert ElectionsOf(ElectedTwice()) == {Elect(True), True};
    assert Leads(WorldOf(True, Nowhere(), Lane1()), Lane(1), WarpStart(0), WarpEnd(0, ONE_WARP));
    assert Leads(WorldOf(Elect(True), Nowhere(), Lane1()), Lane(1), WarpStart(0), WarpEnd(0, ONE_WARP));
  }

  lemma ReadsLane(t: int)
    requires 0 <= t < Count(ONE_WARP)
    ensures Eval(AtLane0(), Thread(t, ONE_WARP), ONE_WARP, Lane(0), SOMEWHERE) == if t == 0 then Yes else No
    ensures t != 0 ==> MayBe(AtLane0(), Thread(t, ONE_WARP), ONE_WARP, Lowest, SOMEWHERE, false)
  {
    var k := AtLane0().k;
    ReadIs(k, Thread(t, ONE_WARP), SOMEWHERE);
    assert k.form.terms[1..] == [];
    assert FormOn(k, Thread(t, ONE_WARP), SOMEWHERE) == Some(t);
    assert Ends(k, t, SOMEWHERE) == (t, t);
    assert t != 0 ==> !Holds(k.cmp, t);
  }

  // Lane 0 stands for the elected of all.
  lemma LowestElected(t: int)
    requires 0 <= t < Count(ONE_WARP)
    ensures Eval(Elect(True), Thread(t, ONE_WARP), ONE_WARP, Lowest, SOMEWHERE) == if t == 0 then Yes else No
  {
    LinearOfThread(t, ONE_WARP);
    hide Thread, Linear, Read;
    assert Elected(True, Thread(t, ONE_WARP), ONE_WARP, SOMEWHERE) ==
      Candidates(True, ONE_WARP, SOMEWHERE, t, 0, 32, false, false);
  }

  lemma {:induction false} NoMoreLeaders(l: nat, end: nat)
    requires 0 < l && end <= Count(ONE_WARP)
    ensures Leaders(Elect(True), ONE_WARP, SOMEWHERE, l, end) == []
    decreases end - l
  {
    hide Eval, Thread;
    if l < end {
      LowestElected(l);
      NoMoreLeaders(l + 1, end);
    }
  }

  lemma ElectedTwiceTally()
    ensures Tally(ElectedTwice(), ONE_WARP, SOMEWHERE) == Some((Counted(1, 1), Counted(1, 1)))
  {
    hide Eval, Thread;
    LowestElected(0);
    NoMoreLeaders(1, 32);
    forall t: int | 0 <= t < 32
      ensures Eval(ElectedTwice(), Thread(t, ONE_WARP), ONE_WARP, Lane(0), SOMEWHERE) == if t == 0 then Yes else No
    {
      TwiceReads(t);
    }
    NoLanes(ElectedTwice(), ONE_WARP, Lane(0), SOMEWHERE, 1, 32);
    var tried := Leaders(Elect(True), ONE_WARP, SOMEWHERE, 0, 32);
    assert tried == [Lane(0)] && tried[..0] == [];
    assert SomeCertain(Elect(True), ONE_WARP, SOMEWHERE, 0, 32);
    assert LanesAs(ElectedTwice(), ONE_WARP, Lane(0), SOMEWHERE, 0, 32) == (1, 0);
    assert OverLeaders(ElectedTwice(), ONE_WARP, SOMEWHERE, [], 0, 32) == (NO_LANES, 0);
    assert OverLeaders(ElectedTwice(), ONE_WARP, SOMEWHERE, tried, 0, 32) == (1, 1);
    assert WarpTally(ElectedTwice(), ONE_WARP, SOMEWHERE, 0, 32) == (1, 1);
    assert WarpsTally(ElectedTwice(), ONE_WARP, SOMEWHERE, 1) == (Counted(1, 1), Counted(1, 1));
  }

  lemma ElectNames(q: Pred, tid: Index, shape: Shape, named: int, place: Place)
    requires Count(shape) > 0
    ensures Eval(Elect(q), tid, shape, Lane(named), place) == if Linear(tid, shape) == named then Yes else No
  {
    hide Elected, Read, Linear, Count;
  }

  lemma TwiceReads(t: int)
    requires 0 <= t < Count(ONE_WARP)
    ensures Eval(ElectedTwice(), Thread(t, ONE_WARP), ONE_WARP, Lane(0), SOMEWHERE) == if t == 0 then Yes else No
  {
    hide Elected, Read, Thread, Linear, Eval, MayBe, AtLane0;
    ReadsLane(t);
    LinearOfThread(t, ONE_WARP);
    ElectNames(Elect(True), Thread(t, ONE_WARP), ONE_WARP, 0, SOMEWHERE);
    PairEval(Elect(Elect(True)), AtLane0(), Thread(t, ONE_WARP), ONE_WARP, Lane(0), SOMEWHERE);
  }
}
