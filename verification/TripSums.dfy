/** The threads and warps a set holds, summed over the trips of a loop by runs of trips that read alike. */
module TripSums {
  import opened Wrappers
  import opened Divisions
  import opened SymExprs
  import opened ExitLimits
  import opened AffineExprs
  import opened Lanes
  import opened Participation
  import opened TallyBounds
  import Sorting

  const LANE_BUDGET: nat := 0x400_0000
  const WORD_MAX: nat := 0xFFFF_FFFF_FFFF_FFFF

  // The fewest and the most threads and warps.
  datatype Sums = Sums(threads: nat, mostThreads: nat, warps: nat, mostWarps: nat)

  function AtTrip(l: nat, x: int): Place {
    Place(None, Some((l, x)))
  }

  function Times(t: (Counted, Counted), n: nat): Sums {
    Sums(t.0.certain * n, t.0.possible * n, t.1.certain * n, t.1.possible * n)
  }

  function PlusSums(a: Sums, b: Sums): Sums {
    Sums(a.threads + b.threads, a.mostThreads + b.mostThreads, a.warps + b.warps, a.mostWarps + b.mostWarps)
  }

  predicate FitsWord(s: Sums) {
    s.threads <= WORD_MAX && s.mostThreads <= WORD_MAX && s.warps <= WORD_MAX && s.mostWarps <= WORD_MAX
  }

  /** The tallies of the trips from `a` up to `b`, one by one. */
  ghost function EachTrip(p: Pred, shape: Shape, l: nat, a: int, b: int): Sums
    requires HasCondition(p) && Count(shape) > 0
    decreases b - a
  {
    if a >= b then Sums(0, 0, 0, 0) else
    PlusSums(EachTrip(p, shape, l, a, b - 1), OneTrip(p, shape, l, b - 1))
  }

  ghost function OneTrip(p: Pred, shape: Shape, l: nat, x: int): Sums
    requires HasCondition(p) && Count(shape) > 0
  {
    Times(Tally(p, shape, AtTrip(l, x)).value, 1)
  }

  // No partial sum of a comparison with the loop's counter leaves i128, on any thread and trip.
  ghost predicate NoOverflow(p: Pred, shape: Shape, l: nat, n: nat) {
    forall k, t: int, x: int :: k in Constraints(p) && k.trip.Some? && k.trip.value.0 == l && 0 <= t < Count(shape) && 1 <= x <= n ==>
      FormAt(k.form, Reading(Thread(t, shape), AtTrip(l, x))).Some?
  }

  // How a comparison depends on the trip

  lemma {:induction false} NoCounter(v: Var, tid: Index, e: Place, f: Place)
    requires !OnCounter(v) && e.cta == f.cta
    ensures VarValue(v, Reading(tid, e)) == VarValue(v, Reading(tid, f))
    decreases v
  {
    match v
    case Floor(x, _) => NoCounter(x, tid, e, f);
    case Rem(x, _) => NoCounter(x, tid, e, f);
    case _ =>
  }

  lemma {:induction false} TermsPerTrip(terms: seq<(Var, SymExpr)>, l: nat, tid: Index, x: int)
    requires ValidTerms(terms)
    requires forall t :: t in terms && t.0 != Iteration(l) ==> !OnCounter(t.0)
    ensures var i := AffineExprs.Index(terms, Iteration(l));
      TermsAt(terms, Reading(tid, AtTrip(l, x))) ==
      TermsAt(terms, Reading(tid, Place(None, None))) + (if i < |terms| then ConstOr0(terms[i].1) else 0) * x
  {
    hide Shaped, ConstOr0;
    if terms != [] {
      var (v, c) := terms[0];
      assert ValidTerms(terms[1..]);
      TermsPerTrip(terms[1..], l, tid, x);
      if v == Iteration(l) {
        assert AffineExprs.Index(terms[1..], v) == |terms| - 1;
      } else {
        assert terms[0] in terms;
        NoCounter(v, tid, AtTrip(l, x), Place(None, None));
      }
    }
  }

  function SignOf(x: int): int {
    if x < 0 then -1 else if x == 0 then 0 else 1
  }

  lemma DecideBySign(cmp: Cmp, x: int, y: int)
    requires SignOf(x) == SignOf(y)
    ensures Decide(cmp, x, x) == Decide(cmp, y, y)
  {
  }

  // The points around the root of `den·x - num`.
  function Around(num: int, den: int): (seq<int>)
    requires den > 0
  {
    [num / den, num / den + 1, -(-num / den), -(-num / den) + 1]
  }

  /** Between two cuts the sign stays. */
  lemma SignStays(num: int, den: int, a: int, b: int, x: int, y: int)
    requires den > 0 && a <= x < b && a <= y < b
    requires forall c :: c in Around(num, den) ==> !(a < c < b)
    ensures SignOf(den * x - num) == SignOf(den * y - num)
  {
    var q, r := num / den, num % den;
    assert num == den * q + r;
    RoundsUp(num, den);
    assert q + 1 in Around(num, den) && -(-num / den) in Around(num, den);
    SignAt(den, q, r, x);
    SignAt(den, q, r, y);
  }

  lemma SignAt(den: int, q: int, r: int, x: int)
    requires den > 0 && 0 <= r < den
    ensures SignOf(den * x - (den * q + r)) == if x > q then 1 else if x == q && r == 0 then 0 else -1
  {
    Distributes(den, q, x - q);
    if x > q {
      Grows(den, x - q);
    } else if x < q {
      Grows(den, q - x);
      assert den * (x - q) == -(den * (q - x));
    }
  }

  // The root of a comparison on a lane, as a quotient.
  function Root(c: int, g: int): (int, int) {
    if c < 0 then (g, -c) else (-g, c)
  }

  // No cut of the comparison lies strictly between the trips `a` and `b`, on any lane.
  ghost predicate Uncut(k: Constraint, shape: Shape, a: int, b: int)
    requires k.trip.Some? && Formed(k)
  {
    forall t: int, c: int :: 0 <= t < Count(shape) && c in Around(RootOn(k, shape, t).0, RootOn(k, shape, t).1) ==>
      !(a < c < b)
  }

  ghost function RootOn(k: Constraint, shape: Shape, t: int): (r: (int, int))
    requires k.trip.Some? && Formed(k) && 0 <= t < Count(shape)
    ensures r.1 > 0
  {
    Root(ConstOr0(Coefficient(k.form, Iteration(k.trip.value.0)).value), PlainAt(k.form, Reading(Thread(t, shape), Place(None, None))))
  }

  lemma RootSign(c: int, g: int, x: int)
    requires c != 0
    ensures var (num, den) := Root(c, g); SignOf(c * x + g) == if c > 0 then SignOf(den * x - num) else -SignOf(den * x - num)
  {
    assert -c * x == -(c * x);
  }

  /** A comparison reads alike at the trips between two cuts. */
  lemma RunReadsAlike(k: Constraint, shape: Shape, l: nat, a: int, b: int, x: int, y: int)
    requires Formed(k) && 1 <= a <= x < b && a <= y < b && b <= MAX + 1
    requires k.trip.Some? && k.trip.value.0 == l ==> Uncut(k, shape, a, b)
    requires k.trip.Some? && k.trip.value.0 == l ==>
      forall t: int, z: int :: 0 <= t < Count(shape) && (z == x || z == y) ==>
        FormAt(k.form, Reading(Thread(t, shape), AtTrip(l, z))).Some?
    ensures SameReading(k, shape, AtTrip(l, x), AtTrip(l, y))
  {
    hide Uncut, FormAt, Decide, Formed, Thread;
    if k.trip.Some? && k.trip.value.0 == l {
      forall t: int | 0 <= t < Count(shape)
        ensures Read(k, Thread(t, shape), AtTrip(l, x)) == Read(k, Thread(t, shape), AtTrip(l, y))
      {
        LaneReadsAlike(k, shape, l, a, b, x, y, t);
      }
    }
  }

  lemma LaneReadsAlike(k: Constraint, shape: Shape, l: nat, a: int, b: int, x: int, y: int, t: int)
    requires Formed(k) && 1 <= a <= x < b && a <= y < b && b <= MAX + 1 && 0 <= t < Count(shape)
    requires k.trip.Some? && k.trip.value.0 == l && Uncut(k, shape, a, b)
    requires FormAt(k.form, Reading(Thread(t, shape), AtTrip(l, x))).Some?
    requires FormAt(k.form, Reading(Thread(t, shape), AtTrip(l, y))).Some?
    ensures Read(k, Thread(t, shape), AtTrip(l, x)) == Read(k, Thread(t, shape), AtTrip(l, y))
  {
    hide Decide, TermsAt, CheckedAt, ConstPart, Thread;
    var tid := Thread(t, shape);
    var c, g := ConstOr0(Coefficient(k.form, Iteration(l)).value), PlainAt(k.form, Reading(tid, Place(None, None)));
    CheckedIsPlain(k.form.terms, Reading(tid, AtTrip(l, x)), ConstPart(k.form.base));
    CheckedIsPlain(k.form.terms, Reading(tid, AtTrip(l, y)), ConstPart(k.form.base));
    TermsPerTrip(k.form.terms, l, tid, x);
    TermsPerTrip(k.form.terms, l, tid, y);
    RootSign(c, g, x);
    RootSign(c, g, y);
    var (num, den) := RootOn(k, shape, t);
    SignStays(num, den, a, b, x, y);
    DecideBySign(k.cmp, c * x + g, c * y + g);
  }

  // The cuts

  function Clamp(x: int, lo: int, hi: int): int {
    if x < lo then lo else if x > hi then hi else x
  }

  // The cuts of a comparison on the lanes before `t`, within the trips.
  ghost predicate CutsOf(k: Constraint, shape: Shape, t: int, end: int, cuts: seq<int>)
    requires k.trip.Some? && Formed(k) && t <= Count(shape)
  {
    forall i: int, c: int :: 0 <= i < t && c in Around(RootOn(k, shape, i).0, RootOn(k, shape, i).1) ==>
      Clamp(c, 1, end) in cuts
  }

  predicate OfLoop(k: Constraint, l: nat) {
    k.trip.Some? && k.trip.value.0 == l
  }

  // At the trip the comparison's form on a lane is less than one step before its zero and two past it.
  ghost predicate Crosses(k: Constraint, shape: Shape, t: int, x: int)
    requires k.trip.Some? && Formed(k) && 0 <= t < Count(shape)
  {
    var c := ConstOr0(CounterTerm(k));
    var v := c * x + PlainAt(k.form, Reading(Thread(t, shape), Place(None, None)));
    if c > 0 then -c < v < 2 * c else 2 * c < v < -c
  }

  lemma AroundIsNear(num: int, den: int, x: int)
    requires den > 0 && x in Around(num, den)
    ensures -den < den * x - num < 2 * den
  {
    var q, r := num / den, num % den;
    assert num == den * q + r;
    RoundsUp(num, den);
    Distributes(den, q, 1);
    Distributes(den, q, 2);
  }

  lemma AroundCrosses(k: Constraint, shape: Shape, t: int, x: int)
    requires k.trip.Some? && Formed(k) && 0 <= t < Count(shape)
    requires x in Around(RootOn(k, shape, t).0, RootOn(k, shape, t).1)
    ensures Crosses(k, shape, t, x)
  {
    hide Formed, PlainAt, ConstOr0, Thread, Around;
    var (num, den) := RootOn(k, shape, t);
    AroundIsNear(num, den, x);
    var c := ConstOr0(CounterTerm(k));
    assert -c * x == -(c * x);
  }

  // Where the form of one of the lanes before `n` crosses zero, within the trips.
  ghost predicate CrossedBefore(k: Constraint, shape: Shape, n: int, end: int, x: int)
    requires k.trip.Some? && Formed(k) && n <= Count(shape)
  {
    exists t: int, d: int :: 0 <= t < n && Crosses(k, shape, t, d) && x == Clamp(d, 1, end)
  }

  // The trips a cut may be at: the first, the one past the last, and those of a crossing.
  ghost predicate CutTrip(p: Pred, shape: Shape, l: nat, end: int, x: int)
    requires AllFormed(p)
  {
    x == 1 || x == end || exists k :: k in Constraints(p) && OfLoop(k, l) && CrossedBefore(k, shape, Count(shape), end, x)
  }

  // More of them than the budget has lanes for.
  ghost predicate ManyCuts(p: Pred, shape: Shape, l: nat, end: int)
    requires AllFormed(p)
  {
    exists cuts :: CutTrips(p, shape, l, end, cuts) && |cuts| * Count(shape) > LANE_BUDGET
  }

  ghost predicate CutTrips(p: Pred, shape: Shape, l: nat, end: int, cuts: seq<int>)
    requires AllFormed(p)
  {
    && (forall i, j :: 0 <= i < j < |cuts| ==> cuts[i] < cuts[j])
    && (forall x :: x in cuts ==> CutTrip(p, shape, l, end, x))
  }

  ghost predicate InTrips(cuts: seq<int>, end: int) {
    forall c :: c in cuts ==> 1 <= c <= end
  }

  // Whether a comparison's lane part leaves i128 on some thread.
  ghost predicate LaneOverflow(k: Constraint, shape: Shape) {
    exists t: int :: 0 <= t < Count(shape) && FormAt(k.form, Reading(Thread(t, shape), Place(None, None))).None?
  }

  // Adds the cuts of one comparison on every lane.
  method CutLanes(k: Constraint, shape: Shape, end: int, cuts: seq<int>) returns (more: Option<seq<int>>)
    requires k.trip.Some? && Formed(k) && end >= 1 && InTrips(cuts, end)
    ensures more.Some? ==> CutsOf(k, shape, Count(shape), end, more.value) && InTrips(more.value, end)
    ensures more.Some? ==> cuts <= more.value
    ensures more.Some? ==> forall x :: x in more.value ==> x in cuts || CrossedBefore(k, shape, Count(shape), end, x)
    ensures more.None? ==> LaneOverflow(k, shape)
  {
    hide FormAt, PlainAt, Thread, Formed, Crosses;
    var c := ConstOr0(CounterTerm(k));
    var out := cuts;
    var t := 0;
    while t < Count(shape)
      invariant 0 <= t <= Count(shape) && cuts <= out
      invariant CutsOf(k, shape, t, end, out) && InTrips(out, end)
      invariant forall x :: x in out ==> x in cuts || CrossedBefore(k, shape, t, end, x)
    {
      var g := FormAt(k.form, Reading(Thread(t, shape), Place(None, None)));
      if g.None? {
        return None;
      }
      RootRead(k, shape, t);
      var (num, den) := Root(c, g.value);
      var more := [Clamp(num / den, 1, end), Clamp(num / den + 1, 1, end),
                   Clamp(-(-num / den), 1, end), Clamp(-(-num / den) + 1, 1, end)];
      CutsNext(k, shape, t, end, out, more);
      CrossedNext(k, shape, t, end, cuts, out, more);
      out := out + more;
      t := t + 1;
    }
    more := Some(out);
  }

  // The coefficient of the comparison's counter.
  function CounterTerm(k: Constraint): (c: SymExpr)
    requires k.trip.Some? && Formed(k)
    ensures ConstOr0(c) != 0 && Coefficient(k.form, Iteration(k.trip.value.0)) == Some(c)
  {
    Coefficient(k.form, Iteration(k.trip.value.0)).value
  }

  lemma RootRead(k: Constraint, shape: Shape, t: int)
    requires k.trip.Some? && Formed(k) && 0 <= t < Count(shape)
    requires FormAt(k.form, Reading(Thread(t, shape), Place(None, None))).Some?
    ensures RootOn(k, shape, t) ==
      Root(ConstOr0(CounterTerm(k)), FormAt(k.form, Reading(Thread(t, shape), Place(None, None))).value)
    ensures RootOn(k, shape, t).1 > 0
  {
    CheckedIsPlain(k.form.terms, Reading(Thread(t, shape), Place(None, None)), ConstPart(k.form.base));
  }

  lemma CutsNext(k: Constraint, shape: Shape, t: int, end: int, out: seq<int>, more: seq<int>)
    requires k.trip.Some? && Formed(k) && 0 <= t < Count(shape) && end >= 1
    requires CutsOf(k, shape, t, end, out) && InTrips(out, end)
    requires var (num, den) := RootOn(k, shape, t);
      more == [Clamp(num / den, 1, end), Clamp(num / den + 1, 1, end),
               Clamp(-(-num / den), 1, end), Clamp(-(-num / den) + 1, 1, end)]
    ensures CutsOf(k, shape, t + 1, end, out + more) && InTrips(out + more, end)
  {
    hide RootOn, Formed;
    forall i: int, c: int | 0 <= i < t + 1 && c in Around(RootOn(k, shape, i).0, RootOn(k, shape, i).1)
      ensures Clamp(c, 1, end) in out + more
    {
      if i < t {
        assert Clamp(c, 1, end) in out;
      } else {
        var j :| 0 <= j < 4 && Around(RootOn(k, shape, i).0, RootOn(k, shape, i).1)[j] == c;
        assert more[j] == Clamp(c, 1, end);
        assert (out + more)[|out| + j] == more[j];
      }
    }
  }

  lemma CrossedNext(k: Constraint, shape: Shape, t: int, end: int, cuts: seq<int>, out: seq<int>, more: seq<int>)
    requires k.trip.Some? && Formed(k) && 0 <= t < Count(shape)
    requires forall x :: x in out ==> x in cuts || CrossedBefore(k, shape, t, end, x)
    requires var (num, den) := RootOn(k, shape, t);
      more == [Clamp(num / den, 1, end), Clamp(num / den + 1, 1, end),
               Clamp(-(-num / den), 1, end), Clamp(-(-num / den) + 1, 1, end)]
    ensures forall x :: x in out + more ==> x in cuts || CrossedBefore(k, shape, t + 1, end, x)
  {
    hide RootOn, Formed, Crosses, Clamp;
    var near := Around(RootOn(k, shape, t).0, RootOn(k, shape, t).1);
    forall x | x in out + more ensures x in cuts || CrossedBefore(k, shape, t + 1, end, x) {
      if x in more {
        var j :| 0 <= j < 4 && more[j] == x;
        assert near[j] in near && x == Clamp(near[j], 1, end);
        AroundCrosses(k, shape, t, near[j]);
      }
    }
  }

  /** Between two neighbours among the sorted cuts no comparison of the loop is cut. */
  lemma NeighboursUncut(k: Constraint, shape: Shape, end: int, cuts: seq<int>, sorted: seq<int>, i: nat)
    requires k.trip.Some? && Formed(k) && CutsOf(k, shape, Count(shape), end, cuts)
    requires forall x :: x in sorted <==> x in cuts
    requires forall x, y :: 0 <= x < y < |sorted| ==> sorted[x] < sorted[y]
    requires InTrips(cuts, end) && i + 1 < |sorted|
    ensures Uncut(k, shape, sorted[i], sorted[i + 1])
  {
    hide Formed, RootOn;
    var a, b := sorted[i], sorted[i + 1];
    assert a in cuts && b in cuts;
    forall t: int, c: int | 0 <= t < Count(shape) && c in Around(RootOn(k, shape, t).0, RootOn(k, shape, t).1)
      ensures !(a < c < b)
    {
      NoneBetween(sorted, i, Clamp(c, 1, end));
    }
  }

  lemma NoneBetween(sorted: seq<int>, i: nat, x: int)
    requires forall j, k :: 0 <= j < k < |sorted| ==> sorted[j] < sorted[k]
    requires i + 1 < |sorted| && x in sorted
    ensures x <= sorted[i] || x >= sorted[i + 1]
  {
    var j :| 0 <= j < |sorted| && sorted[j] == x;
  }

  /** The trips of one run tally alike. */
  lemma RunTalliesAlike(p: Pred, shape: Shape, l: nat, n: nat, a: int, b: int, x: int)
    requires AllFormed(p) && NoOverflow(p, shape, l, n) && n <= MAX && 1 <= a <= x < b <= n + 1
    requires forall k :: k in Constraints(p) && OfLoop(k, l) ==> Uncut(k, shape, a, b)
    ensures Tally(p, shape, AtTrip(l, x)) == Tally(p, shape, AtTrip(l, a))
  {
    hide Tally, SameReading, Formed, Uncut, FormAt;
    forall k | k in Constraints(p) ensures SameReading(k, shape, AtTrip(l, x), AtTrip(l, a)) {
      RunReadsAlike(k, shape, l, a, b, x, a);
    }
    TallySame(p, shape, AtTrip(l, x), AtTrip(l, a));
  }

  lemma {:induction false} RunSums(p: Pred, shape: Shape, l: nat, n: nat, a: int, b: int, x: int)
    requires HasCondition(p) && Count(shape) > 0
    requires AllFormed(p) && NoOverflow(p, shape, l, n) && n <= MAX && 1 <= a <= x <= b <= n + 1 && a < b
    requires forall k :: k in Constraints(p) && OfLoop(k, l) ==> Uncut(k, shape, a, b)
    ensures EachTrip(p, shape, l, a, x) == Times(Tally(p, shape, AtTrip(l, a)).value, x - a)
    decreases x - a
  {
    hide Formed, Uncut, FormAt, NoOverflow, AllFormed, WarpsTally;
    if x > a {
      RunSums(p, shape, l, n, a, b, x - 1);
      RunTalliesAlike(p, shape, l, n, a, b, x - 1);
      OneMoreTime(Tally(p, shape, AtTrip(l, a)).value, x - 1 - a);
    }
  }

  lemma OneMoreTime(t: (Counted, Counted), n: nat)
    ensures PlusSums(Times(t, n), Times(t, 1)) == Times(t, n + 1)
  {
    Distributes(t.0.certain, n, 1);
    Distributes(t.0.possible, n, 1);
    Distributes(t.1.certain, n, 1);
    Distributes(t.1.possible, n, 1);
  }

  lemma Rejoins(x: Sums, y: Sums, z: Sums)
    ensures PlusSums(PlusSums(x, y), z) == PlusSums(x, PlusSums(y, z))
  {
  }

  lemma {:induction false} EachTripJoins(p: Pred, shape: Shape, l: nat, a: int, b: int, c: int)
    requires HasCondition(p) && Count(shape) > 0 && a <= b <= c
    ensures EachTrip(p, shape, l, a, c) == PlusSums(EachTrip(p, shape, l, a, b), EachTrip(p, shape, l, b, c))
    decreases c - b
  {
    hide EachTrip, OneTrip;
    if b < c {
      EachTripJoins(p, shape, l, a, b, c - 1);
      LastTrip(p, shape, l, a, c);
      LastTrip(p, shape, l, b, c);
      Rejoins(EachTrip(p, shape, l, a, b), EachTrip(p, shape, l, b, c - 1), OneTrip(p, shape, l, c - 1));
    } else {
      NoTrip(p, shape, l, c);
    }
  }

  lemma LastTrip(p: Pred, shape: Shape, l: nat, a: int, b: int)
    requires HasCondition(p) && Count(shape) > 0 && a < b
    ensures EachTrip(p, shape, l, a, b) == PlusSums(EachTrip(p, shape, l, a, b - 1), OneTrip(p, shape, l, b - 1))
  {
    hide OneTrip;
  }

  lemma NoTrip(p: Pred, shape: Shape, l: nat, a: int)
    requires HasCondition(p) && Count(shape) > 0
    ensures EachTrip(p, shape, l, a, a) == Sums(0, 0, 0, 0)
  {
  }

  lemma {:induction false} EachTripGrows(p: Pred, shape: Shape, l: nat, a: int, b: int, c: int)
    requires HasCondition(p) && Count(shape) > 0 && a <= b <= c && FitsWord(EachTrip(p, shape, l, a, c))
    ensures FitsWord(EachTrip(p, shape, l, a, b))
  {
    hide EachTrip;
    EachTripJoins(p, shape, l, a, b, c);
  }

  // What the sum is read from: every cut of the loop's comparisons, ascending.
  ghost predicate Cut(p: Pred, shape: Shape, l: nat, end: int, cuts: seq<int>)
    requires AllFormed(p)
  {
    && cuts != [] && cuts[0] == 1 && cuts[|cuts| - 1] == end
    && (forall i, j :: 0 <= i < j < |cuts| ==> cuts[i] < cuts[j])
    && (forall k, i :: k in Constraints(p) && OfLoop(k, l) && 0 <= i && i + 1 < |cuts| ==> Uncut(k, shape, cuts[i], cuts[i + 1]))
  }

  // Every cut of the loop's comparisons, the first trip and the one past the last, ascending.
  method Cuts(p: Pred, shape: Shape, l: nat, end: int) returns (cuts: Option<seq<int>>)
    requires AllFormed(p) && end >= 1
    ensures cuts.Some? ==> Cut(p, shape, l, end, cuts.value)
    ensures cuts.Some? ==> CutTrips(p, shape, l, end, cuts.value)
    ensures cuts.None? ==> exists k :: k in Constraints(p) && OfLoop(k, l) && LaneOverflow(k, shape)
  {
    hide Formed, CutsOf, LaneOverflow, Thread, CutsFor, InTrips, CrossedBefore, CutTrips;
    var over := Constraints(p);
    var all: seq<int> := [1, end];
    StartsCut(over, shape, l, end);
    var i := 0;
    while i < |over|
      invariant 0 <= i <= |over| && CutsFor(over, i, shape, l, end, all)
    {
      if OfLoop(over[i], l) {
        assert over[i] in over;
        CutsForBounds(over, i, shape, l, end, all);
        var more := CutLanes(over[i], shape, end, all);
        if more.None? {
          return None;
        }
        CutsForNext(over, i, shape, l, end, all, more.value);
        all := more.value;
      } else {
        CutsForSkips(over, i, shape, l, end, all);
      }
      i := i + 1;
    }
    var sorted := Sorted(p, shape, l, end, all);
    cuts := Some(sorted);
  }

  // The cuts of the first `i` comparisons.
  ghost predicate CutsFor(over: seq<Constraint>, i: nat, shape: Shape, l: nat, end: int, all: seq<int>)
    requires i <= |over| && forall k :: k in over ==> Formed(k)
  {
    && InTrips(all, end) && 1 in all && end in all
    && (forall x :: x in all && x != 1 && x != end ==>
          exists j :: 0 <= j < i && OfLoop(over[j], l) && CrossedBefore(over[j], shape, Count(shape), end, x))
    && forall j :: 0 <= j < i && OfLoop(over[j], l) ==> CutsOf(over[j], shape, Count(shape), end, all)
  }

  lemma StartsCut(over: seq<Constraint>, shape: Shape, l: nat, end: int)
    requires end >= 1 && forall k :: k in over ==> Formed(k)
    ensures CutsFor(over, 0, shape, l, end, [1, end])
  {
    hide Formed;
  }

  lemma CutsForBounds(over: seq<Constraint>, i: nat, shape: Shape, l: nat, end: int, all: seq<int>)
    requires i <= |over| && (forall k :: k in over ==> Formed(k)) && CutsFor(over, i, shape, l, end, all)
    ensures InTrips(all, end)
  {
    hide Formed;
  }

  lemma CutsForSkips(over: seq<Constraint>, i: nat, shape: Shape, l: nat, end: int, all: seq<int>)
    requires i < |over| && (forall k :: k in over ==> Formed(k)) && CutsFor(over, i, shape, l, end, all)
    requires !OfLoop(over[i], l)
    ensures CutsFor(over, i + 1, shape, l, end, all)
  {
    hide Formed, CutsOf, CrossedBefore;
  }

  lemma CutsForNext(over: seq<Constraint>, i: nat, shape: Shape, l: nat, end: int, all: seq<int>, more: seq<int>)
    requires i < |over| && (forall k :: k in over ==> Formed(k)) && CutsFor(over, i, shape, l, end, all)
    requires OfLoop(over[i], l) && over[i] in over && CutsOf(over[i], shape, Count(shape), end, more)
    requires all <= more && InTrips(more, end)
    requires forall x :: x in more ==> x in all || CrossedBefore(over[i], shape, Count(shape), end, x)
    ensures CutsFor(over, i + 1, shape, l, end, more)
  {
    hide Formed, CutsOf, CrossedBefore;
    PrefixHolds(all, more);
    forall j | 0 <= j < i && OfLoop(over[j], l) ensures CutsOf(over[j], shape, Count(shape), end, more) {
      CutsStay(over[j], shape, end, all, more);
    }
  }

  lemma AscendsPlainly(s: seq<int>)
    requires Sorting.StrictlyBy((x: int) => x, s)
    ensures forall i, j :: 0 <= i < j < |s| ==> s[i] < s[j]
  {
    var key := (x: int) => x;
    forall i, j | 0 <= i < j < |s| ensures s[i] < s[j] {
      assert key(s[i]) < key(s[j]);
    }
  }

  lemma CutOfEach(over: seq<Constraint>, k: Constraint, shape: Shape, l: nat, end: int, all: seq<int>)
    requires (forall j :: j in over ==> Formed(j)) && CutsFor(over, |over|, shape, l, end, all)
    requires k in over && OfLoop(k, l)
    ensures CutsOf(k, shape, Count(shape), end, all)
  {
    hide Formed, CutsOf;
    var m :| 0 <= m < |over| && over[m] == k;
  }

  // The cuts in order, each once.
  method Sorted(p: Pred, shape: Shape, l: nat, end: int, all: seq<int>) returns (sorted: seq<int>)
    requires AllFormed(p) && end >= 1 && CutsFor(Constraints(p), |Constraints(p)|, shape, l, end, all)
    ensures Cut(p, shape, l, end, sorted) && CutTrips(p, shape, l, end, sorted)
  {
    hide Formed, CutsOf, Thread, Uncut, RootOn, Sorting.SortBy, Sorting.SortedBy, CrossedBefore, CutTrip;
    var key := (x: int) => x;
    Sorting.SortKeeps(key, all);
    sorted := Sorting.Dedup(key, Sorting.SortBy(key, all));
    AscendsPlainly(sorted);
    EndsOfSorted(all, sorted, end);
    forall x | x in sorted ensures CutTrip(p, shape, l, end, x) {
      AllAreCuts(p, shape, l, end, all, x);
    }
    forall k, j: nat | k in Constraints(p) && OfLoop(k, l) && j + 1 < |sorted|
      ensures Uncut(k, shape, sorted[j], sorted[j + 1])
    {
      CutOfEach(Constraints(p), k, shape, l, end, all);
      NeighboursUncut(k, shape, end, all, sorted, j);
    }
  }

  lemma AllAreCuts(p: Pred, shape: Shape, l: nat, end: int, all: seq<int>, x: int)
    requires AllFormed(p) && CutsFor(Constraints(p), |Constraints(p)|, shape, l, end, all) && x in all
    ensures CutTrip(p, shape, l, end, x)
  {
    hide Formed, CutsOf, CrossedBefore;
    var over := Constraints(p);
    if x != 1 && x != end {
      var j :| 0 <= j < |over| && OfLoop(over[j], l) && CrossedBefore(over[j], shape, Count(shape), end, x);
      assert over[j] in over;
    }
  }

  lemma CutsStay(k: Constraint, shape: Shape, end: int, cuts: seq<int>, more: seq<int>)
    requires k.trip.Some? && Formed(k) && CutsOf(k, shape, Count(shape), end, cuts) && cuts <= more
    ensures CutsOf(k, shape, Count(shape), end, more)
  {
    PrefixHolds(cuts, more);
  }

  lemma PrefixHolds(s: seq<int>, t: seq<int>)
    requires s <= t
    ensures forall x :: x in s ==> x in t
  {
    forall x | x in s ensures x in t {
      var i :| 0 <= i < |s| && s[i] == x;
      assert t[i] == x;
    }
  }

  lemma EndsOfSorted(all: seq<int>, sorted: seq<int>, end: int)
    requires forall x :: x in sorted <==> x in all
    requires forall i, j :: 0 <= i < j < |sorted| ==> sorted[i] < sorted[j]
    requires InTrips(all, end) && 1 in all && end in all
    ensures sorted != [] && sorted[0] == 1 && sorted[|sorted| - 1] == end
  {
    var i :| 0 <= i < |sorted| && sorted[i] == 1;
    var j :| 0 <= j < |sorted| && sorted[j] == end;
    assert sorted[0] in all && sorted[|sorted| - 1] in all;
  }

  // Over the integers

  // A comparison of the loop at one of its trips: the coefficient times the trip and the lane's part.
  lemma TripValue(k: Constraint, shape: Shape, l: nat, x: int, t: int)
    requires Formed(k) && OfLoop(k, l) && 0 <= t < Count(shape)
    ensures var g := PlainAt(k.form, Reading(Thread(t, shape), Place(None, None)));
      && PlainOn(k, Thread(t, shape), AtTrip(l, x)) == ConstOr0(CounterTerm(k)) * x + g
      && Ends(k, PlainOn(k, Thread(t, shape), AtTrip(l, x)), AtTrip(l, x)) ==
         (PlainOn(k, Thread(t, shape), AtTrip(l, x)), PlainOn(k, Thread(t, shape), AtTrip(l, x)))
      && RootOn(k, shape, t) == Root(ConstOr0(CounterTerm(k)), g)
  {
    hide Thread, TermsAt, ConstPart;
    TermsPerTrip(k.form.terms, l, Thread(t, shape), x);
  }

  /** Between two cuts a comparison has the same truths at every trip, whatever its partial sums. */
  lemma RunAlike(k: Constraint, shape: Shape, l: nat, a: int, b: int, x: int, y: int)
    requires Formed(k) && a <= x < b && a <= y < b
    requires OfLoop(k, l) ==> Uncut(k, shape, a, b)
    ensures Alike(k, shape, AtTrip(l, x), AtTrip(l, y))
  {
    forall t: int, truth: bool | 0 <= t < Count(shape) && CanBe(k, Thread(t, shape), AtTrip(l, x), truth)
      ensures CanBe(k, Thread(t, shape), AtTrip(l, y), truth)
    {
      if OfLoop(k, l) {
        LaneAlike(k, shape, l, a, b, x, y, t, truth);
      } else {
        hide PlainAt;
        assert TripFor(k, AtTrip(l, x)) == TripFor(k, AtTrip(l, y)) == None;
      }
    }
  }

  lemma LaneAlike(k: Constraint, shape: Shape, l: nat, a: int, b: int, x: int, y: int, t: int, truth: bool)
    requires Formed(k) && OfLoop(k, l) && a <= x < b && a <= y < b && Uncut(k, shape, a, b)
    requires 0 <= t < Count(shape) && CanBe(k, Thread(t, shape), AtTrip(l, x), truth)
    ensures CanBe(k, Thread(t, shape), AtTrip(l, y), truth)
  {
    hide Thread, PlainAt, PlainOn, Ends, Formed, ConstOr0;
    var tid := Thread(t, shape);
    var c, g := ConstOr0(CounterTerm(k)), PlainAt(k.form, Reading(tid, Place(None, None)));
    TripValue(k, shape, l, x, t);
    TripValue(k, shape, l, y, t);
    var (num, den) := RootOn(k, shape, t);
    RootSign(c, g, x);
    RootSign(c, g, y);
    SignStays(num, den, a, b, x, y);
    HoldsBySign(k.cmp, c * x + g, c * y + g);
    var v := PlainOn(k, tid, AtTrip(l, y));
    assert v <= v <= v && Holds(k.cmp, v) == truth;
  }

  lemma HoldsBySign(cmp: Cmp, x: int, y: int)
    requires SignOf(x) == SignOf(y)
    ensures Holds(cmp, x) == Holds(cmp, y)
  {
  }

  // The counter's term at the trip is one the comparison records.
  ghost predicate Recorded(k: Constraint, l: nat, x: int)
    requires Formed(k)
  {
    OfLoop(k, l) ==> k.trip.value.1.0 <= ConstOr0(CounterTerm(k)) * x <= k.trip.value.1.1
  }

  lemma RecordedAlike(k: Constraint, shape: Shape, l: nat, x: int)
    requires Formed(k) && Recorded(k, l, x)
    ensures Alike(k, shape, AtTrip(l, x), Place(None, None))
  {
    hide Thread, PlainAt, CounterTerm, Formed;
    forall t: int, truth: bool | 0 <= t < Count(shape) && CanBe(k, Thread(t, shape), AtTrip(l, x), truth)
      ensures CanBe(k, Thread(t, shape), Place(None, None), truth)
    {
      if OfLoop(k, l) {
        TripValue(k, shape, l, x, t);
        var v := PlainOn(k, Thread(t, shape), AtTrip(l, x));
        assert Holds(k.cmp, v) == truth;
        OpenEnds(k, shape, l, x, t);
      } else {
        assert TripFor(k, AtTrip(l, x)) == TripFor(k, Place(None, None)) == None;
      }
    }
  }

  lemma OpenEnds(k: Constraint, shape: Shape, l: nat, x: int, t: int)
    requires Formed(k) && OfLoop(k, l) && Recorded(k, l, x) && 0 <= t < Count(shape)
    ensures var ends := Ends(k, PlainOn(k, Thread(t, shape), Place(None, None)), Place(None, None));
      ends.0 <= PlainOn(k, Thread(t, shape), AtTrip(l, x)) <= ends.1
  {
    hide Thread, PlainAt;
    TripValue(k, shape, l, x, t);
  }

  /** A trip whose terms the comparisons record holds no fewer and no more than the tally with the trip left open. */
  lemma OpenTallyBoundsTrip(p: Pred, shape: Shape, l: nat, x: int, world: World)
    requires AllFormed(p) && OneElection(p) && Tally(p, shape, Place(None, None)).Some?
    requires forall k :: k in Constraints(p) ==> Recorded(k, l, x)
    requires Count(shape) > 0 && AllowsActual(p, shape, AtTrip(l, x), world)
    ensures Counts(Tally(p, shape, Place(None, None)).value, world, shape)
  {
    hide Tally, AllowsTruly, AllowsActual, OneElection, Formed, Alike, Recorded;
    ActualAllowed(p, shape, AtTrip(l, x), world);
    forall k | k in Constraints(p) ensures Alike(k, shape, AtTrip(l, x), Place(None, None)) {
      RecordedAlike(k, shape, l, x);
    }
    TallyBoundsAlike(p, shape, AtTrip(l, x), Place(None, None), world);
  }

  // At each trip from 1 to `n`, a world of what its comparisons' forms come to.
  ghost predicate Trips(p: Pred, shape: Shape, l: nat, n: nat, worlds: int -> World) {
    && Count(shape) > 0 && OneElection(p)
    && forall x: int :: 1 <= x <= n ==> AllowsActual(p, shape, AtTrip(l, x), worlds(x))
  }

  // The threads and the warps held over the trips from `a` up to `b`.
  ghost function ThreadsOver(worlds: int -> World, shape: Shape, a: int, b: int): nat
    decreases b - a
  {
    if a >= b then 0 else ThreadsOver(worlds, shape, a, b - 1) + HeldThreads(worlds(b - 1), shape)
  }

  ghost function WarpsOver(worlds: int -> World, shape: Shape, a: int, b: int): nat
    decreases b - a
  {
    if a >= b then 0 else WarpsOver(worlds, shape, a, b - 1) + HeldWarps(worlds(b - 1), shape)
  }

  ghost predicate Bounds(s: Sums, worlds: int -> World, shape: Shape, a: int, b: int) {
    && s.threads <= ThreadsOver(worlds, shape, a, b) <= s.mostThreads
    && s.warps <= WarpsOver(worlds, shape, a, b) <= s.mostWarps
  }

  // The sums bound what the trips before `end` hold, whatever is unknown.
  ghost predicate BoundsTrips(p: Pred, shape: Shape, l: nat, n: nat, end: int, s: Sums) {
    forall worlds: int -> World :: Trips(p, shape, l, n, worlds) ==> Bounds(s, worlds, shape, 1, end)
  }

  lemma {:induction false} BoundsJoin(s: Sums, r: Sums, worlds: int -> World, shape: Shape, a: int, b: int, c: int)
    requires a <= b <= c && Bounds(s, worlds, shape, a, b) && Bounds(r, worlds, shape, b, c)
    ensures Bounds(PlusSums(s, r), worlds, shape, a, c)
  {
    hide HeldThreads, HeldWarps, ThreadsOver, WarpsOver;
    OverJoins(worlds, shape, a, b, c);
  }

  lemma {:induction false} OverJoins(worlds: int -> World, shape: Shape, a: int, b: int, c: int)
    requires a <= b <= c
    ensures ThreadsOver(worlds, shape, a, c) == ThreadsOver(worlds, shape, a, b) + ThreadsOver(worlds, shape, b, c)
    ensures WarpsOver(worlds, shape, a, c) == WarpsOver(worlds, shape, a, b) + WarpsOver(worlds, shape, b, c)
    decreases c - b
  {
    hide HeldThreads, HeldWarps;
    if b < c {
      OverJoins(worlds, shape, a, b, c - 1);
    }
  }

  /** One trip's tally, times the length of its run, bounds what the run holds. */
  lemma {:induction false} RunBounds(p: Pred, shape: Shape, l: nat, n: nat, a: int, b: int, x: int, worlds: int -> World)
    requires AllFormed(p) && HasCondition(p) && Trips(p, shape, l, n, worlds) && 1 <= a <= x <= b <= n + 1 && a < b
    requires forall k :: k in Constraints(p) && OfLoop(k, l) ==> Uncut(k, shape, a, b)
    ensures Bounds(Times(Tally(p, shape, AtTrip(l, a)).value, x - a), worlds, shape, a, x)
    decreases x - a
  {
    hide HeldThreads, HeldWarps, WarpsTally, AllowsTruly, AllowsActual, OneElection, Formed, Uncut, Alike;
    var t := Tally(p, shape, AtTrip(l, a)).value;
    if a < x {
      RunBounds(p, shape, l, n, a, b, x - 1, worlds);
      forall k | k in Constraints(p) ensures Alike(k, shape, AtTrip(l, x - 1), AtTrip(l, a)) {
        RunAlike(k, shape, l, a, b, x - 1, a);
      }
      ActualAllowed(p, shape, AtTrip(l, x - 1), worlds(x - 1));
      TallyBoundsAlike(p, shape, AtTrip(l, x - 1), AtTrip(l, a), worlds(x - 1));
      OneBounds(t, worlds, shape, x - 1);
      OneMoreTime(t, x - 1 - a);
      BoundsJoin(Times(t, x - 1 - a), Times(t, 1), worlds, shape, a, x - 1, x);
    }
  }

  lemma OneBounds(t: (Counted, Counted), worlds: int -> World, shape: Shape, x: int)
    requires Counts(t, worlds(x), shape)
    ensures Bounds(Times(t, 1), worlds, shape, x, x + 1)
  {
    hide HeldThreads, HeldWarps;
    assert ThreadsOver(worlds, shape, x, x + 1) == ThreadsOver(worlds, shape, x, x) + HeldThreads(worlds(x), shape);
    assert WarpsOver(worlds, shape, x, x + 1) == WarpsOver(worlds, shape, x, x) + HeldWarps(worlds(x), shape);
  }

  // One more run.
  lemma CutBounds(p: Pred, shape: Shape, l: nat, n: nat, cuts: seq<int>, i: nat, s: Sums)
    requires AllFormed(p) && Cut(p, shape, l, n + 1, cuts) && i + 1 < |cuts| && HasCondition(p) && Count(shape) > 0
    requires BoundsTrips(p, shape, l, n, cuts[i], s)
    ensures cuts[i] < cuts[i + 1]
    ensures BoundsTrips(p, shape, l, n, cuts[i + 1],
                        PlusSums(s, Times(Tally(p, shape, AtTrip(l, cuts[i])).value, cuts[i + 1] - cuts[i])))
  {
    hide Formed, Uncut, WarpsTally, Trips, Bounds, AllFormed;
    var a, b := cuts[i], cuts[i + 1];
    CutsAscend(p, shape, l, n + 1, cuts, i);
    var r := Times(Tally(p, shape, AtTrip(l, a)).value, b - a);
    forall worlds: int -> World | Trips(p, shape, l, n, worlds)
      ensures Bounds(PlusSums(s, r), worlds, shape, 1, b)
    {
      RunBounds(p, shape, l, n, a, b, b, worlds);
      BoundsJoin(s, r, worlds, shape, 1, a, b);
    }
  }

  lemma NoneBounded(p: Pred, shape: Shape, l: nat, n: nat)
    ensures BoundsTrips(p, shape, l, n, 1, Sums(0, 0, 0, 0))
  {
    hide Trips;
  }

  /**
   * The threads and warps of trips 1 to `n`, counting one trip of each run: bounds of what the trips hold, their
   * comparisons what their forms come to and their unknowns anything; where no reading leaves its width, what the
   * trips' tallies sum to one by one, and none only without a condition or a thread, past the budget or past a word.
   */
  method OverTrips(p: Pred, shape: Shape, l: nat, n: nat) returns (r: Option<Sums>)
    requires AllFormed(p)
    ensures r.Some? && n == 0 ==> r.value == Sums(0, 0, 0, 0)
    ensures r.Some? && n > 0 ==> HasCondition(p) && Count(shape) > 0
    ensures r.Some? ==> BoundsTrips(p, shape, l, n, n + 1, r.value)
    ensures r.Some? && n > 0 && n <= MAX && NoOverflow(p, shape, l, n) ==> r.value == EachTrip(p, shape, l, 1, n + 1)
    ensures r.Some? ==> r.value.mostThreads <= WORD_MAX && r.value.mostWarps <= WORD_MAX
    ensures r.Some? ==> r.value.threads <= WORD_MAX && r.value.warps <= WORD_MAX
    ensures r.None? && HasCondition(p) && Count(shape) > 0 && n <= MAX && NoOverflow(p, shape, l, n) ==>
      || (var each := EachTrip(p, shape, l, 1, n + 1);
          each.threads > WORD_MAX || each.mostThreads > WORD_MAX || each.warps > WORD_MAX || each.mostWarps > WORD_MAX)
      || ManyCuts(p, shape, l, n + 1)
      || exists k :: k in Constraints(p) && OfLoop(k, l) && LaneOverflow(k, shape)
  {
    hide Tally, WarpsTally, EachTrip, NoOverflow, AllFormed, LaneOverflow, Cut, BoundsTrips, CutTrips;
    var end := n + 1;
    var all := Cuts(p, shape, l, end);
    if all.None? {
      return None;
    }
    var cuts := all.value;
    if |cuts| * Count(shape) > LANE_BUDGET {
      return None;
    }
    CutEnds(p, shape, l, end, cuts);
    ghost var exact := n <= MAX && NoOverflow(p, shape, l, n);
    var sums := Sums(0, 0, 0, 0);
    var i := 0;
    NoTrips(p, shape, l);
    NoneBounded(p, shape, l, n);
    while i + 1 < |cuts|
      invariant 0 <= i < |cuts|
      invariant i > 0 ==> HasCondition(p) && Count(shape) > 0
      invariant i == 0 ==> sums == Sums(0, 0, 0, 0)
      invariant FitsWord(sums)
      invariant BoundsTrips(p, shape, l, n, cuts[i], sums)
      invariant exact && HasCondition(p) && Count(shape) > 0 ==> sums == EachTrip(p, shape, l, 1, cuts[i])
    {
      var t := Tally(p, shape, AtTrip(l, cuts[i]));
      TallyIsNone(p, shape, AtTrip(l, cuts[i]));
      if t.None? {
        return None;
      }
      CutsAscend(p, shape, l, end, cuts, i);
      var next := PlusSums(sums, Times(t.value, cuts[i + 1] - cuts[i]));
      CutBounds(p, shape, l, n, cuts, i, sums);
      if exact {
        CutRun(p, shape, l, n, cuts, i);
        EachTripJoins(p, shape, l, 1, cuts[i], cuts[i + 1]);
        if FitsWord(EachTrip(p, shape, l, 1, end)) {
          EachTripGrows(p, shape, l, 1, cuts[i + 1], end);
        }
      }
      if !FitsWord(next) {
        return None;
      }
      sums := next;
      i := i + 1;
    }
    r := Some(sums);
  }

  lemma CutsAscend(p: Pred, shape: Shape, l: nat, end: int, cuts: seq<int>, i: nat)
    requires AllFormed(p) && Cut(p, shape, l, end, cuts) && i + 1 < |cuts|
    ensures 1 <= cuts[i] < cuts[i + 1] <= end
  {
    hide Formed, Uncut;
  }

  lemma NoTrips(p: Pred, shape: Shape, l: nat)
    ensures HasCondition(p) && Count(shape) > 0 ==> EachTrip(p, shape, l, 1, 1) == Sums(0, 0, 0, 0)
  {
  }

  lemma TallyIsNone(p: Pred, shape: Shape, e: Place)
    ensures Tally(p, shape, e).None? <==> !HasCondition(p) || Count(shape) == 0
  {
  }

  lemma CutEnds(p: Pred, shape: Shape, l: nat, end: int, cuts: seq<int>)
    requires AllFormed(p) && Cut(p, shape, l, end, cuts)
    ensures cuts != [] && cuts[0] == 1 && cuts[|cuts| - 1] == end
    ensures end == 1 ==> |cuts| == 1
  {
    hide Formed, Uncut;
    assert |cuts| > 1 ==> cuts[0] < cuts[|cuts| - 1];
  }

  // A run sums to its first trip's tally times its length.
  lemma CutRun(p: Pred, shape: Shape, l: nat, n: nat, cuts: seq<int>, i: nat)
    requires AllFormed(p) && Cut(p, shape, l, n + 1, cuts) && i + 1 < |cuts| && HasCondition(p) && Count(shape) > 0
    requires n <= MAX && NoOverflow(p, shape, l, n)
    ensures 1 <= cuts[i] < cuts[i + 1] <= n + 1
    ensures EachTrip(p, shape, l, cuts[i], cuts[i + 1]) ==
            Times(Tally(p, shape, AtTrip(l, cuts[i])).value, cuts[i + 1] - cuts[i])
  {
    hide Formed, Uncut, NoOverflow, Tally, WarpsTally, EachTrip;
    RunSums(p, shape, l, n, cuts[i], cuts[i + 1], cuts[i + 1]);
  }
}
