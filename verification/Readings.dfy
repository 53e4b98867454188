/** What a comparison is of a thread: its form's value over the integers, and when the code reads just that. */
module Readings {
  import opened Wrappers
  import opened SymExprs
  import opened Spans
  import opened ExitLimits
  import opened AffineExprs
  import opened Lanes
  import opened Participation

  // -- constants --------------------------------------------------------------------

  // A sum of constants, and one alone.
  predicate Constants(e: SymExpr)
    decreases e
  {
    match e
    case Const(_) => true
    case Sum(ts) => AllConstants(ts)
    case _ => false
  }

  predicate AllConstants(ts: seq<SymExpr>)
    decreases ts
  {
    ts == [] || (Constants(ts[0]) && AllConstants(ts[1..]))
  }

  /** Of constants the constant part is the value, whatever the symbols are. */
  lemma {:induction false} ConstPartIs(e: SymExpr, env: Env)
    requires Constants(e)
    ensures Value(e, env) == ConstPart(e)
    decreases e, 1
  {
    if e.Sum? {
      ConstPartsAre(e.terms, env);
    }
  }

  lemma {:induction false} ConstPartsAre(ts: seq<SymExpr>, env: Env)
    requires AllConstants(ts)
    ensures Total(ts, env) == ConstParts(ts)
    decreases ts, 0
  {
    if ts != [] {
      ConstPartIs(ts[0], env);
      ConstPartsAre(ts[1..], env);
    }
  }

  // Built from the indices of threads and CTAs and from counters.
  predicate OnThread(v: Var) {
    match v
    case Floor(x, _) => OnThread(x)
    case Rem(x, _) => OnThread(x)
    case Unknown(_) => false
    case _ => true
  }

  // A form as comparisons are built: constant coefficients of such variables, and a base of constants.
  ghost predicate Closed(form: AffineExpr) {
    Constants(form.base) && forall t :: t in form.terms ==> t.1.Const? && OnThread(t.0)
  }

  lemma {:induction false} TermsAre(terms: seq<(Var, SymExpr)>, leaf: Leaf, env: Env)
    requires forall t :: t in terms ==> t.1.Const?
    ensures TermsValue(terms, leaf, env) == TermsAt(terms, leaf)
  {
    if terms != [] {
      TermsAre(terms[1..], leaf, env);
    }
  }

  /** A closed form's plain reading is its value at every valuation of the symbols. */
  lemma PlainIsValue(form: AffineExpr, leaf: Leaf, env: Env)
    requires Closed(form)
    ensures PlainAt(form, leaf) == FormValue(form, leaf, env)
  {
    ConstPartIs(form.base, env);
    TermsAre(form.terms, leaf, env);
  }

  // Every term, and every sum of the base and the terms so far, fits in i128.
  ghost predicate SumsFit(form: AffineExpr, leaf: Leaf, env: Env) {
    forall n :: 0 <= n < |form.terms| ==> FitsAt(form.terms, form.base, leaf, env, n)
  }

  ghost predicate FitsAt(terms: seq<(Var, SymExpr)>, base: SymExpr, leaf: Leaf, env: Env, n: int)
    requires 0 <= n < |terms|
  {
    && FitsWide(TermsValue([terms[n]], leaf, env))
    && FitsWide(FormValue(AffineExpr(terms[..n + 1], base), leaf, env))
  }

  /** It is read just where no term and no partial sum leaves i128, and then it is the value. */
  lemma FormIsRead(form: AffineExpr, leaf: Leaf, env: Env)
    requires Closed(form)
    ensures FormAt(form, leaf).Some? <==> SumsFit(form, leaf, env)
    ensures FormAt(form, leaf).Some? ==> FormAt(form, leaf).value == FormValue(form, leaf, env)
  {
    hide CheckedAt, TermsValue, Value, ConstPart, SumsFit, Constants;
    ReadWhereFit(form, leaf, env);
    if FormAt(form, leaf).Some? {
      CheckedIsPlain(form.terms, leaf, ConstPart(form.base));
      PlainIsValue(form, leaf, env);
    }
  }

  lemma ReadWhereFit(form: AffineExpr, leaf: Leaf, env: Env)
    requires Closed(form)
    ensures FormAt(form, leaf).Some? <==> SumsFit(form, leaf, env)
  {
    hide CheckedAt, TermsValue, Value, ConstPart, Constants, FitsWide, VarValue, ConstOr0;
    ConstPartIs(form.base, env);
    assert form.terms[0..] == form.terms && form.terms[..0] == [];
    NothingSums(leaf, env);
    CheckedWhere(form.terms, form.base, leaf, env, ConstPart(form.base), 0);
  }

  lemma NothingSums(leaf: Leaf, env: Env)
    ensures TermsValue([], leaf, env) == 0
  {
  }

  lemma {:induction false} CheckedWhere(terms: seq<(Var, SymExpr)>, base: SymExpr, leaf: Leaf, env: Env, sum: int, i: nat)
    requires i <= |terms| && (forall t :: t in terms ==> t.1.Const?)
    requires sum == TermsValue(terms[..i], leaf, env) + Value(base, env)
    ensures CheckedAt(terms[i..], leaf, sum).Some? <==>
      forall n :: i <= n < |terms| ==> FitsAt(terms, base, leaf, env, n)
    decreases |terms| - i
  {
    hide VarValue, Value, TermsValue, FitsWide, ConstOr0;
    if i < |terms| {
      var t := terms[i];
      var term := ConstOr0(t.1) * VarValue(t.0, leaf);
      assert terms[i..][0] == t && terms[i..][1..] == terms[i + 1..];
      OneTerm(t, leaf, env);
      assert terms[..i + 1] == terms[..i] + [t];
      TermsAppend(terms[..i], [t], leaf, env);
      assert FitsAt(terms, base, leaf, env, i) <==> FitsWide(term) && FitsWide(sum + term);
      CheckedWhere(terms, base, leaf, env, sum + term, i + 1);
    } else {
      assert terms[i..] == [];
    }
  }

  lemma OneTerm(t: (Var, SymExpr), leaf: Leaf, env: Env)
    requires t.1.Const?
    ensures TermsValue([t], leaf, env) == ConstOr0(t.1) * VarValue(t.0, leaf)
  {
    assert [t][1..] == [];
  }

  /** Symbolic coefficients and a symbolic base read as nothing. */
  lemma {:induction false} SymbolicReadsZero(terms: seq<(Var, SymExpr)>, base: SymExpr, leaf: Leaf, sum: int)
    requires (forall t :: t in terms ==> !t.1.Const?) && !base.Const? && !base.Sum? && FitsWide(sum)
    ensures ConstPart(base) == 0 && CheckedAt(terms, leaf, sum) == Some(sum)
  {
    hide VarValue;
    if terms != [] {
      assert terms[0] in terms;
      SymbolicReadsZero(terms[1..], base, leaf, sum);
      NothingTimes(VarValue(terms[0].0, leaf), sum);
    }
  }

  lemma NothingTimes(x: int, sum: int)
    ensures 0 * x == 0 && FitsWide(0) && sum + 0 * x == sum
  {
  }

  // -- what a thread reads --------------------------------------------------------------

  // The valuations a thread reads its comparisons at: its own index, and its CTA's and its trip's where they are given.
  ghost predicate Sees(leaf: Leaf, tid: Index, place: Place) {
    && leaf(Tid(X)) == tid.x && leaf(Tid(Y)) == tid.y && leaf(Tid(Z)) == tid.z
    && (place.cta.Some? ==>
          leaf(Ctaid(X)) == place.cta.value.x && leaf(Ctaid(Y)) == place.cta.value.y && leaf(Ctaid(Z)) == place.cta.value.z)
    && (place.trip.Some? ==> leaf(Iteration(place.trip.value.0)) == place.trip.value.1)
  }

  // The terms of a kind at a valuation.
  ghost function PartOf(terms: seq<(Var, SymExpr)>, kind: Var -> bool, leaf: Leaf, env: Env): int {
    if terms == [] then 0 else
    (if kind(terms[0].0) then Value(terms[0].1, env) * VarValue(terms[0].0, leaf) else 0) +
    PartOf(terms[1..], kind, leaf, env)
  }

  ghost predicate OpenCta(k: Constraint, place: Place) {
    k.cta.Some? && place.cta.None?
  }

  ghost predicate OpenTrip(k: Constraint, place: Place) {
    k.trip.Some? && !(place.trip.Some? && place.trip.value.0 == k.trip.value.0)
  }

  // A CTA or a trip left open gives its terms a value in the range recorded for them.
  ghost predicate InLaunch(k: Constraint, place: Place, leaf: Leaf, env: Env) {
    && (OpenCta(k, place) ==> k.cta.value.0 <= PartOf(k.form.terms, OnCta, leaf, env) <= k.cta.value.1)
    && (OpenTrip(k, place) ==> k.trip.value.1.0 <= PartOf(k.form.terms, OnCounter, leaf, env) <= k.trip.value.1.1)
  }

  // `x cmp 0`.
  ghost predicate Meets(cmp: Cmp, x: int) {
    match cmp
    case Lt => x < 0
    case Le => x <= 0
    case Gt => x > 0
    case Ge => x >= 0
    case Eq => x == 0
    case Ne => x != 0
  }

  lemma MeetsIsHolds(cmp: Cmp, x: int)
    ensures Meets(cmp, x) <==> Holds(cmp, x)
  {
  }

  /** The comparison can have this truth of a thread: it does at some valuation the thread reads it at. */
  ghost predicate Happens(k: Constraint, tid: Index, place: Place, truth: bool) {
    exists leaf: Leaf, env: Env ::
      Sees(leaf, tid, place) && InLaunch(k, place, leaf, env) && Meets(k.cmp, FormValue(k.form, leaf, env)) == truth
  }

  // How a variable's value is found from the thread's index and what is given.
  lemma {:induction false} VarRead(v: Var, tid: Index, place: Place, leaf: Leaf, given: Place)
    requires OnThread(v) && Sees(leaf, tid, place)
    requires given.cta == place.cta && (given.trip.Some? ==> given.trip == place.trip)
    ensures !OnCta(v) && !OnCounter(v) ==> VarValue(v, Reading(tid, given)) == VarValue(v, leaf)
    ensures OnCta(v) ==> VarValue(v, Reading(tid, given)) == if place.cta.Some? then VarValue(v, leaf) else 0
    ensures OnCounter(v) && given.trip.None? ==> VarValue(v, Reading(tid, given)) == 0
    ensures v.Iteration? && given.trip.Some? && given.trip.value.0 == v.loop ==>
            VarValue(v, Reading(tid, given)) == VarValue(v, leaf)
    decreases v
  {
    match v
    case Floor(x, _) => VarRead(x, tid, place, leaf, given);
    case Rem(x, _) => VarRead(x, tid, place, leaf, given);
    case _ =>
  }

  // The value is what is read and what is left open.
  lemma {:induction false} TermsRead(k: Constraint, terms: seq<(Var, SymExpr)>, tid: Index, place: Place, leaf: Leaf,
                                     env: Env)
    requires Formed(k) && Sees(leaf, tid, place) && (forall t :: t in terms ==> t in k.form.terms)
    requires forall t :: t in terms ==> t.1.Const? && OnThread(t.0)
    ensures TermsValue(terms, leaf, env) ==
            TermsAt(terms, Reading(tid, Place(place.cta, TripFor(k, place)))) +
            (if OpenCta(k, place) then PartOf(terms, OnCta, leaf, env) else 0) +
            (if OpenTrip(k, place) then PartOf(terms, OnCounter, leaf, env) else 0)
  {
    hide Reading;
    if terms != [] {
      var t := terms[0];
      assert t in k.form.terms;
      VarRead(t.0, tid, place, leaf, Place(place.cta, TripFor(k, place)));
      TermIsRead(k, t, tid, place, leaf, env);
      TermsRead(k, terms[1..], tid, place, leaf, env);
    }
  }

  lemma NotBoth(v: Var)
    ensures !(OnCta(v) && OnCounter(v))
    decreases v
  {
    match v
    case Floor(x, _) => NotBoth(x);
    case Rem(x, _) => NotBoth(x);
    case _ =>
  }

  lemma TermIsRead(k: Constraint, t: (Var, SymExpr), tid: Index, place: Place, leaf: Leaf, env: Env)
    requires Formed(k) && Sees(leaf, tid, place) && t in k.form.terms && t.1.Const? && OnThread(t.0)
    ensures Value(t.1, env) * VarValue(t.0, leaf) ==
            ConstOr0(t.1) * VarValue(t.0, Reading(tid, Place(place.cta, TripFor(k, place)))) +
            (if OpenCta(k, place) && OnCta(t.0) then Value(t.1, env) * VarValue(t.0, leaf) else 0) +
            (if OpenTrip(k, place) && OnCounter(t.0) then Value(t.1, env) * VarValue(t.0, leaf) else 0)
  {
    hide Reading, VarValue;
    NotBoth(t.0);
    VarRead(t.0, tid, place, leaf, Place(place.cta, TripFor(k, place)));
  }

  // -- when the code reads it --------------------------------------------------------

  // What is left open is 0.
  ghost predicate Grounded(k: Constraint, place: Place, leaf: Leaf) {
    && (OpenCta(k, place) ==> leaf(Ctaid(X)) == 0 && leaf(Ctaid(Y)) == 0 && leaf(Ctaid(Z)) == 0)
    && (OpenTrip(k, place) ==> leaf(Iteration(k.trip.value.0)) == 0)
  }

  lemma {:induction false} GroundedRead(k: Constraint, v: Var, tid: Index, place: Place, leaf: Leaf)
    requires Sees(leaf, tid, place) && Grounded(k, place, leaf) && OnThread(v)
    requires (OnCta(v) ==> k.cta.Some?) && (OnCounter(v) ==> k.trip.Some? && v == Iteration(k.trip.value.0))
    ensures VarValue(v, Reading(tid, Place(place.cta, TripFor(k, place)))) == VarValue(v, leaf)
    decreases v
  {
    match v
    case Floor(x, _) => GroundedRead(k, x, tid, place, leaf);
    case Rem(x, _) => GroundedRead(k, x, tid, place, leaf);
    case Ctaid(axis) =>
      assert axis == X || axis == Y || axis == Z;
    case _ =>
  }

  lemma {:induction false} GroundedChecked(k: Constraint, terms: seq<(Var, SymExpr)>, tid: Index, place: Place, leaf: Leaf,
                                           sum: int)
    requires Formed(k) && Sees(leaf, tid, place) && Grounded(k, place, leaf)
    requires forall t :: t in terms ==> t in k.form.terms && OnThread(t.0)
    ensures CheckedAt(terms, Reading(tid, Place(place.cta, TripFor(k, place))), sum) == CheckedAt(terms, leaf, sum)
  {
    hide Reading, Grounded, Sees, FitsWide;
    if terms != [] {
      assert terms[0] in k.form.terms;
      GroundedRead(k, terms[0].0, tid, place, leaf);
      GroundedChecked(k, terms[1..], tid, place, leaf, sum + ConstOr0(terms[0].1) * VarValue(terms[0].0, leaf));
    }
  }

  // The trip it is read at, and each sum on the way, fit their widths.
  ghost predicate Readable(k: Constraint, place: Place, leaf: Leaf, env: Env) {
    && (k.trip.Some? && !OpenTrip(k, place) ==> Fits(place.trip.value.1))
    && SumsFit(k.form, leaf, env)
  }

  // The values it takes over what is left open.
  ghost function OpenRange(k: Constraint, place: Place): (int, int) {
    ((if OpenCta(k, place) then k.cta.value.0 else 0) + if OpenTrip(k, place) then k.trip.value.1.0 else 0,
     (if OpenCta(k, place) then k.cta.value.1 else 0) + if OpenTrip(k, place) then k.trip.value.1.1 else 0)
  }

  /** Yes where all the values it takes meet it, no where none does, and maybe else or where a sum leaves its width. */
  lemma ReadExact(k: Constraint, tid: Index, place: Place, leaf: Leaf, env: Env)
    requires Formed(k) && Closed(k.form) && Sees(leaf, tid, place) && Grounded(k, place, leaf)
    requires OpenCta(k, place) ==> k.cta.value.0 <= k.cta.value.1
    requires OpenTrip(k, place) ==> k.trip.value.1.0 <= k.trip.value.1.1
    ensures var (x, range) := (FormValue(k.form, leaf, env), OpenRange(k, place));
      && (Read(k, tid, place) == Yes <==>
            Readable(k, place, leaf, env) && forall y :: x + range.0 <= y <= x + range.1 ==> Meets(k.cmp, y))
      && (Read(k, tid, place) == No <==>
            Readable(k, place, leaf, env) && forall y :: x + range.0 <= y <= x + range.1 ==> !Meets(k.cmp, y))
  {
    hide Reading, Grounded, Sees, Decide, Closed, SumsFit, FormAt, Formed, Meets, Holds;
    var given := Place(place.cta, TripFor(k, place));
    FormIsRead(k.form, leaf, env);
    SameForm(k, tid, place, leaf);
    var (x, range) := (FormValue(k.form, leaf, env), OpenRange(k, place));
    DecideIsExact(k.cmp, x + range.0, x + range.1);
    forall y ensures Meets(k.cmp, y) <==> Holds(k.cmp, y) {
      MeetsIsHolds(k.cmp, y);
    }
    assert FormAt(k.form, Reading(tid, given)) == FormAt(k.form, leaf);
  }

  lemma SameForm(k: Constraint, tid: Index, place: Place, leaf: Leaf)
    requires Formed(k) && Closed(k.form) && Sees(leaf, tid, place) && Grounded(k, place, leaf)
    ensures FormAt(k.form, Reading(tid, Place(place.cta, TripFor(k, place)))) == FormAt(k.form, leaf)
  {
    hide Reading, Grounded, Sees;
    GroundedChecked(k, k.form.terms, tid, place, leaf, ConstPart(k.form.base));
  }
}
