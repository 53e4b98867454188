/** Which threads satisfy a predicate over thread, CTA and trip indices. */
module Participation {
  import opened Wrappers
  import opened Divisions
  import opened SymExprs
  import opened Spans
  import opened ExitLimits
  import opened AffineExprs
  import opened Lanes

  // `form cmp 0`, with the range of its CTA terms or of its one loop counter's term.
  datatype Constraint = Constraint(form: AffineExpr, cmp: Cmp, cta: Option<(int, int)>, trip: Option<(nat, (int, int))>)

  datatype Pred =
    | True
    | False
    | Unknown
    | Uniform(atom: nat, negated: bool)
    | Compares(k: Constraint)
    | Elect(active: Pred)
    | Not(p: Pred)
    | And(a: Pred, b: Pred)
    | Or(a: Pred, b: Pred)

  datatype Tri = Yes | No | Maybe

  // What an evaluation fixes besides the thread: a CTA, and a trip of one loop.
  datatype Place = Place(cta: Option<Index>, trip: Option<(nat, int)>)

  // An election's outcome: the lowest lane that runs it stands for the rest, or a lane is named, or nobody is.
  datatype Leader = Lowest | Lane(t: int) | Nobody

  function At(i: Index, axis: Axis): int {
    match axis
    case X => i.x
    case Y => i.y
    case Z => i.z
  }

  // Each thread index at `tid`, the CTA index and the trip where given, everything else 0.
  function LeafAt(tid: Index, env: Place, v: Var): int {
    match v
    case Tid(axis) => At(tid, axis)
    case Ctaid(axis) => if env.cta.Some? then At(env.cta.value, axis) else 0
    case Iteration(l) => if env.trip.Some? && env.trip.value.0 == l then env.trip.value.1 else 0
    case _ => 0
  }

  function Reading(tid: Index, env: Place): Leaf {
    (v: Var) => LeafAt(tid, env, v)
  }

  function ConstOr0(c: SymExpr): int {
    if c.Const? then c.c else 0
  }

  function ConstPart(e: SymExpr): int
    decreases e
  {
    match e
    case Const(c) => c
    case Sum(ts) => ConstParts(ts)
    case _ => 0
  }

  function ConstParts(ts: seq<SymExpr>): int
    decreases ts
  {
    if ts == [] then 0 else ConstPart(ts[0]) + ConstParts(ts[1..])
  }

  // The sum of the terms, every coefficient that is no constant as 0.
  function TermsAt(terms: seq<(Var, SymExpr)>, leaf: Leaf): int {
    if terms == [] then 0 else ConstOr0(terms[0].1) * VarValue(terms[0].0, leaf) + TermsAt(terms[1..], leaf)
  }

  // The same added to `sum` one at a time, none where a partial sum leaves i128.
  function CheckedAt(terms: seq<(Var, SymExpr)>, leaf: Leaf, sum: int): Option<int> {
    if terms == [] then Some(sum) else
    var term := ConstOr0(terms[0].1) * VarValue(terms[0].0, leaf);
    if FitsWide(term) && FitsWide(sum + term) then CheckedAt(terms[1..], leaf, sum + term) else None
  }

  function FormAt(form: AffineExpr, leaf: Leaf): Option<int> {
    CheckedAt(form.terms, leaf, ConstPart(form.base))
  }

  function PlainAt(form: AffineExpr, leaf: Leaf): int {
    ConstPart(form.base) + TermsAt(form.terms, leaf)
  }

  lemma {:induction false} CheckedIsPlain(terms: seq<(Var, SymExpr)>, leaf: Leaf, sum: int)
    requires CheckedAt(terms, leaf, sum).Some?
    ensures CheckedAt(terms, leaf, sum).value == sum + TermsAt(terms, leaf)
  {
    if terms != [] {
      CheckedIsPlain(terms[1..], leaf, sum + ConstOr0(terms[0].1) * VarValue(terms[0].0, leaf));
    }
  }

  // Whether every `x` from `lo` to `hi`, none, or only some satisfy the comparison.
  function Decide(cmp: Cmp, lo: int, hi: int): Tri {
    var zero, apart := lo == 0 && hi == 0, lo > 0 || hi < 0;
    var (all, none) := match cmp
      case Eq => (zero, apart)
      case Ne => (apart, zero)
      case _ => (Holds(cmp, lo) && Holds(cmp, hi), !Holds(cmp, lo) && !Holds(cmp, hi));
    if all then Yes else if none then No else Maybe
  }

  /** The ends decide: yes exactly where every value between them holds, no exactly where none does. */
  lemma DecideIsExact(cmp: Cmp, lo: int, hi: int)
    requires lo <= hi
    ensures Decide(cmp, lo, hi) == Yes <==> forall x :: lo <= x <= hi ==> Holds(cmp, x)
    ensures Decide(cmp, lo, hi) == No <==> forall x :: lo <= x <= hi ==> !Holds(cmp, x)
  {
    var middle := if lo <= 0 <= hi then 0 else lo;
    assert Decide(cmp, lo, hi) != Yes ==> !Holds(cmp, lo) || !Holds(cmp, hi) || !Holds(cmp, middle);
    assert Decide(cmp, lo, hi) != No ==> Holds(cmp, lo) || Holds(cmp, hi) || Holds(cmp, middle);
  }

  // The trip a comparison is read at: the evaluation's, where it is of the same loop.
  function TripFor(k: Constraint, env: Place): Option<(nat, int)> {
    if env.trip.Some? && k.trip.Some? && env.trip.value.0 == k.trip.value.0 then env.trip else None
  }

  function Read(k: Constraint, tid: Index, env: Place): Tri {
    var trip := TripFor(k, env);
    if trip.Some? && !Fits(trip.value.1) then Maybe else
    match FormAt(k.form, Reading(tid, Place(env.cta, trip)))
    case None => Maybe
    case Some(x) =>
      var (lo, hi) := if k.cta.Some? && env.cta.None? then (x + k.cta.value.0, x + k.cta.value.1) else (x, x);
      var (lo', hi') := if k.trip.Some? && trip.None? then (lo + k.trip.value.1.0, hi + k.trip.value.1.1) else (lo, hi);
      Decide(k.cmp, lo', hi')
  }

  function Negate(x: Tri): Tri {
    match x
    case Yes => No
    case No => Yes
    case Maybe => Maybe
  }

  function Both(x: Tri, y: Tri): Tri {
    if x == No || y == No then No else if x == Yes && y == Yes then Yes else Maybe
  }

  function Either(x: Tri, y: Tri): Tri {
    if x == Yes || y == Yes then Yes else if x == No && y == No then No else Maybe
  }

  /** Whether a thread satisfies the predicate. */
  function Eval(p: Pred, tid: Index, shape: Shape, leader: Leader, env: Place): Tri
    requires Count(shape) > 0
    decreases p, 1, 0
  {
    match p
    case True => Yes
    case False => No
    case Unknown => Maybe
    case Uniform(_, _) => Maybe
    case Compares(k) => Read(k, tid, env)
    case Elect(active) =>
      (match leader
       case Lowest => Elected(active, tid, shape, env)
       case Lane(t) => if Linear(tid, shape) == t then Yes else No
       case Nobody => No)
    case Not(q) => Negate(Eval(q, tid, shape, leader, env))
    case And(a, b) => Both(Eval(a, tid, shape, leader, env), Eval(b, tid, shape, leader, env))
    case Or(a, b) => Either(Eval(a, tid, shape, leader, env), Eval(b, tid, shape, leader, env))
  }

  // Is `tid` the one thread of its warp that an election picks among those admitted?
  function Elected(active: Pred, tid: Index, shape: Shape, env: Place): Tri
    requires Count(shape) > 0
    decreases active, 3, 0
  {
    var linear := Linear(tid, shape);
    var base := linear - linear % WARP;
    var end := if base + WARP < Count(shape) then base + WARP else Count(shape);
    Candidates(active, shape, env, linear, base, end, false, false)
  }

  // The lanes from `l` on, `any` telling of a lane before that may be active and `own` that `linear` was one.
  function Candidates(active: Pred, shape: Shape, env: Place, linear: int, l: int, end: int, any: bool, own: bool): Tri
    requires Count(shape) > 0
    decreases active, 2, end - l
  {
    if l >= end then (if own then Maybe else No) else
    match Eval(active, Thread(l, shape), shape, Lowest, env)
    case Yes => if !any then (if l == linear then Yes else No) else if own || l == linear then Maybe else No
    case Maybe => Candidates(active, shape, env, linear, l + 1, end, true, own || l == linear)
    case No => Candidates(active, shape, env, linear, l + 1, end, any, own)
  }

  // The comparisons of a predicate, left to right, those an election reads too.
  function Constraints(p: Pred): seq<Constraint> {
    match p
    case Compares(k) => [k]
    case Elect(q) => Constraints(q)
    case Not(q) => Constraints(q)
    case And(a, b) => Constraints(a) + Constraints(b)
    case Or(a, b) => Constraints(a) + Constraints(b)
    case _ => []
  }

  function HasCondition(p: Pred): bool {
    match p
    case True => false
    case Unknown => false
    case Uniform(_, _) => false
    case False => true
    case Compares(_) => true
    case Elect(_) => true
    case Not(q) => HasCondition(q)
    case And(a, b) => HasCondition(a) || HasCondition(b)
    case Or(a, b) => HasCondition(a) || HasCondition(b)
  }

  // The threads the first election in the predicate chose among.
  function ElectActive(p: Pred): Option<Pred> {
    match p
    case Elect(active) => Some(active)
    case Not(q) => ElectActive(q)
    case And(a, b) => if ElectActive(a).Some? then ElectActive(a) else ElectActive(b)
    case Or(a, b) => if ElectActive(a).Some? then ElectActive(a) else ElectActive(b)
    case _ => None
  }

  datatype Counted = Counted(certain: nat, possible: nat)

  // The lanes from `l` to `end` in the set, and those that may be.
  function LanesAs(p: Pred, shape: Shape, leader: Leader, env: Place, l: nat, end: nat): (r: (nat, nat))
    requires Count(shape) > 0
    ensures l <= end ==> r.0 + r.1 <= end - l
    decreases end - l
  {
    if l >= end then (0, 0) else
    var (yes, maybe) := LanesAs(p, shape, leader, env, l + 1, end);
    match Eval(p, Thread(l, shape), shape, leader, env)
    case Yes => (yes + 1, maybe)
    case Maybe => (yes, maybe + 1)
    case No => (yes, maybe)
  }

  // The leaders tried for a warp: each lane that may be active, and none where no lane certainly is.
  function Leaders(active: Pred, shape: Shape, env: Place, l: nat, end: nat): seq<Leader>
    requires Count(shape) > 0
    decreases end - l
  {
    if l >= end then [] else
    (if Eval(active, Thread(l, shape), shape, Lowest, env) != No then [Lane(l)] else []) +
    Leaders(active, shape, env, l + 1, end)
  }

  function SomeCertain(active: Pred, shape: Shape, env: Place, l: nat, end: nat): bool
    requires Count(shape) > 0
    decreases end - l
  {
    l < end && (Eval(active, Thread(l, shape), shape, Lowest, env) == Yes || SomeCertain(active, shape, env, l + 1, end))
  }

  const NO_LANES: nat := 0xFFFF_FFFF

  // The fewest and the most lanes over the leaders.
  function OverLeaders(p: Pred, shape: Shape, env: Place, leaders: seq<Leader>, l: nat, end: nat): (nat, nat)
    requires Count(shape) > 0
  {
    if leaders == [] then (NO_LANES, 0) else
    var n := |leaders| - 1;
    var (low, high) := OverLeaders(p, shape, env, leaders[..n], l, end);
    var (yes, maybe) := LanesAs(p, shape, leaders[n], env, l, end);
    (if yes < low then yes else low, if high < yes + maybe then yes + maybe else high)
  }

  // Bounds on how many lanes from `l` to `end`, one warp, are in the set.
  function WarpTally(p: Pred, shape: Shape, env: Place, l: nat, end: nat): (nat, nat)
    requires Count(shape) > 0
  {
    match ElectActive(p)
    case None =>
      var (yes, maybe) := LanesAs(p, shape, Lowest, env, l, end);
      (yes, yes + maybe)
    case Some(active) =>
      var tried := Leaders(active, shape, env, l, end) + if SomeCertain(active, shape, env, l, end) then [] else [Nobody];
      OverLeaders(p, shape, env, tried, l, end)
  }

  // The threads and the warps of the first `w` warps.
  function WarpsTally(p: Pred, shape: Shape, env: Place, w: nat): (Counted, Counted)
    requires Count(shape) > 0
  {
    if w == 0 then (Counted(0, 0), Counted(0, 0)) else
    var (threads, warps) := WarpsTally(p, shape, env, w - 1);
    var (low, high) := WarpTally(p, shape, env, WarpStart(w - 1), WarpEnd(w - 1, shape));
    (Counted(threads.certain + low, threads.possible + high),
     Counted(warps.certain + if low > 0 then 1 else 0, warps.possible + if high > 0 then 1 else 0))
  }

  /**
   * Least and most threads of a predicate, and least and most warps; nothing for one that selects no thread from
   * another.
   */
  function Tally(p: Pred, shape: Shape, env: Place): Option<(Counted, Counted)> {
    if !HasCondition(p) || Count(shape) == 0 then None else Some(WarpsTally(p, shape, env, Warps(shape)))
  }

  // How the source reads comparisons: those of no CTA range hold no CTA term, those of no trip no counter, and
  // those of a trip one counter's term, its coefficient not zero.
  predicate OnCta(v: Var) {
    match v
    case Ctaid(_) => true
    case Floor(x, _) => OnCta(x)
    case Rem(x, _) => OnCta(x)
    case _ => false
  }

  predicate OnCounter(v: Var) {
    match v
    case Iteration(_) => true
    case Floor(x, _) => OnCounter(x)
    case Rem(x, _) => OnCounter(x)
    case _ => false
  }

  function Coefficient(form: AffineExpr, v: Var): Option<SymExpr> {
    var i := AffineExprs.Index(form.terms, v);
    if i < |form.terms| then Some(form.terms[i].1) else None
  }

  ghost predicate Formed(k: Constraint) {
    && ValidTerms(k.form.terms)
    && (k.cta.None? ==> forall t :: t in k.form.terms ==> !OnCta(t.0))
    && (k.trip.None? ==> forall t :: t in k.form.terms ==> !OnCounter(t.0))
    && (k.trip.Some? ==>
          && k.cta.None?
          && (forall t :: t in k.form.terms && t.0 != Iteration(k.trip.value.0) ==> !OnCounter(t.0))
          && Coefficient(k.form, Iteration(k.trip.value.0)).Some?
          && ConstOr0(Coefficient(k.form, Iteration(k.trip.value.0)).value) != 0)
  }

  ghost predicate AllFormed(p: Pred) {
    forall k :: k in Constraints(p) ==> Formed(k)
  }

  // How evaluation depends on its comparisons

  // The comparison reads the same of every thread in both environments.
  ghost predicate SameReading(k: Constraint, shape: Shape, e: Place, f: Place) {
    forall t :: 0 <= t < Count(shape) ==> Read(k, Thread(t, shape), e) == Read(k, Thread(t, shape), f)
  }

  ghost predicate AllSame(p: Pred, shape: Shape, e: Place, f: Place) {
    forall k :: k in Constraints(p) ==> SameReading(k, shape, e, f)
  }

  /** Where every comparison reads the same of every thread, the predicate does. */
  lemma {:induction false} EvalSame(p: Pred, t: int, shape: Shape, leader: Leader, e: Place, f: Place)
    requires 0 <= t < Count(shape) && AllSame(p, shape, e, f)
    ensures Eval(p, Thread(t, shape), shape, leader, e) == Eval(p, Thread(t, shape), shape, leader, f)
    decreases p, 1, 0
  {
    match p
    case Compares(k) => assert k in Constraints(p);
    case Elect(active) =>
      if leader == Lowest {
        ElectedSame(active, t, shape, e, f);
      }
    case Not(q) => EvalSame(q, t, shape, leader, e, f);
    case And(a, b) =>
      assert forall k :: k in Constraints(a) || k in Constraints(b) ==> k in Constraints(p);
      EvalSame(a, t, shape, leader, e, f);
      EvalSame(b, t, shape, leader, e, f);
    case Or(a, b) =>
      assert forall k :: k in Constraints(a) || k in Constraints(b) ==> k in Constraints(p);
      EvalSame(a, t, shape, leader, e, f);
      EvalSame(b, t, shape, leader, e, f);
    case _ =>
  }

  lemma ElectedSame(active: Pred, t: int, shape: Shape, e: Place, f: Place)
    requires 0 <= t < Count(shape) && AllSame(active, shape, e, f)
    ensures Elected(active, Thread(t, shape), shape, e) == Elected(active, Thread(t, shape), shape, f)
    decreases active, 3, 0
  {
    LinearOfThread(t, shape);
    var linear := Linear(Thread(t, shape), shape);
    var base := linear - linear % WARP;
    var end := if base + WARP < Count(shape) then base + WARP else Count(shape);
    CandidatesSame(active, shape, e, f, linear, base, end, false, false);
  }

  lemma {:induction false} CandidatesSame(active: Pred, shape: Shape, e: Place, f: Place, linear: int, l: int, end: int,
                                          any: bool, own: bool)
    requires Count(shape) > 0 && 0 <= l && end <= Count(shape)
    requires AllSame(active, shape, e, f)
    ensures Candidates(active, shape, e, linear, l, end, any, own) == Candidates(active, shape, f, linear, l, end, any, own)
    decreases active, 2, end - l
  {
    hide AllSame, Eval;
    if l < end {
      EvalSame(active, l, shape, Lowest, e, f);
      CandidatesSame(active, shape, e, f, linear, l + 1, end, true, own || l == linear);
      CandidatesSame(active, shape, e, f, linear, l + 1, end, any, own);
    }
  }

  lemma {:induction false} LanesSame(p: Pred, shape: Shape, leader: Leader, e: Place, f: Place, l: nat, end: nat)
    requires Count(shape) > 0 && end <= Count(shape) && AllSame(p, shape, e, f)
    ensures LanesAs(p, shape, leader, e, l, end) == LanesAs(p, shape, leader, f, l, end)
    decreases end - l
  {
    hide AllSame, Eval;
    if l < end {
      EvalSame(p, l, shape, leader, e, f);
      LanesSame(p, shape, leader, e, f, l + 1, end);
    }
  }

  lemma {:induction false} LeadersSame(active: Pred, shape: Shape, e: Place, f: Place, l: nat, end: nat)
    requires Count(shape) > 0 && end <= Count(shape) && AllSame(active, shape, e, f)
    ensures Leaders(active, shape, e, l, end) == Leaders(active, shape, f, l, end)
    ensures SomeCertain(active, shape, e, l, end) == SomeCertain(active, shape, f, l, end)
    decreases end - l
  {
    hide AllSame, Eval;
    if l < end {
      EvalSame(active, l, shape, Lowest, e, f);
      LeadersSame(active, shape, e, f, l + 1, end);
    }
  }

  lemma {:induction false} OverLeadersSame(p: Pred, shape: Shape, e: Place, f: Place, leaders: seq<Leader>, l: nat,
                                           end: nat)
    requires Count(shape) > 0 && end <= Count(shape) && AllSame(p, shape, e, f)
    ensures OverLeaders(p, shape, e, leaders, l, end) == OverLeaders(p, shape, f, leaders, l, end)
  {
    hide AllSame, LanesAs;
    if leaders != [] {
      var n := |leaders| - 1;
      OverLeadersSame(p, shape, e, f, leaders[..n], l, end);
      LanesSame(p, shape, leaders[n], e, f, l, end);
    }
  }

  lemma {:induction false} ActiveInside(p: Pred)
    requires ElectActive(p).Some?
    ensures forall k :: k in Constraints(ElectActive(p).value) ==> k in Constraints(p)
  {
    match p
    case Elect(_) =>
    case Not(q) => ActiveInside(q);
    case And(a, b) => if ElectActive(a).Some? { ActiveInside(a); } else { ActiveInside(b); }
    case Or(a, b) => if ElectActive(a).Some? { ActiveInside(a); } else { ActiveInside(b); }
  }

  lemma {:induction false} WarpsSame(p: Pred, shape: Shape, e: Place, f: Place, w: nat)
    requires Count(shape) > 0 && w <= Warps(shape) && AllSame(p, shape, e, f)
    ensures WarpsTally(p, shape, e, w) == WarpsTally(p, shape, f, w)
  {
    hide AllSame, WarpTally;
    if w > 0 {
      WarpsSame(p, shape, e, f, w - 1);
      WarpSame(p, shape, e, f, WarpStart(w - 1), WarpEnd(w - 1, shape));
    }
  }

  lemma WarpSame(p: Pred, shape: Shape, e: Place, f: Place, l: nat, end: nat)
    requires Count(shape) > 0 && end <= Count(shape) && AllSame(p, shape, e, f)
    ensures WarpTally(p, shape, e, l, end) == WarpTally(p, shape, f, l, end)
  {
    hide LanesAs, Leaders, SomeCertain, OverLeaders, SameReading;
    LanesSame(p, shape, Lowest, e, f, l, end);
    if ElectActive(p).Some? {
      ActiveInside(p);
      var active := ElectActive(p).value;
      LeadersSame(active, shape, e, f, l, end);
      var tried := Leaders(active, shape, e, l, end) + if SomeCertain(active, shape, e, l, end) then [] else [Nobody];
      OverLeadersSame(p, shape, e, f, tried, l, end);
    }
  }

  /** And its tally. */
  lemma TallySame(p: Pred, shape: Shape, e: Place, f: Place)
    requires AllSame(p, shape, e, f)
    ensures Tally(p, shape, e) == Tally(p, shape, f)
  {
    hide AllSame, WarpsTally;
    if Count(shape) > 0 {
      WarpsSame(p, shape, e, f, Warps(shape));
    }
  }
}
