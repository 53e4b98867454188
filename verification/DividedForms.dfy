/** When a form divides by a constant, exactly or with a remainder. */
module DividedForms {
  import opened Wrappers
  import opened Divisions
  import opened SymExprs
  import opened SymExprValues
  import opened SymQuotients
  import opened AffineExprs
  import opened AffineDivision
  import opened RangeEnds

  // -- exactly ------------------------------------------------------------------------

  // Constants times different indices, counters and unknown values.
  ghost predicate Indexed(a: AffineExpr) {
    && a.base.Const?
    && (forall i :: 0 <= i < |a.terms| ==> a.terms[i].1.Const? && IsLeaf(a.terms[i].0))
    && (forall i, j :: 0 <= i < j < |a.terms| ==> a.terms[i].0 != a.terms[j].0)
  }

  ghost function UnitLeaf(v: Option<Var>): Leaf {
    (x: Var) => if Some(x) == v then 1 else 0
  }

  lemma {:induction false} UnitTerms(terms: seq<(Var, SymExpr)>, i: nat, env: Env)
    requires Indexed(AffineExpr(terms, Const(0))) && i < |terms|
    ensures TermsValue(terms, UnitLeaf(Some(terms[i].0)), env) == terms[i].1.c
  {
    var leaf := UnitLeaf(Some(terms[i].0));
    ConstValue(terms[0].1.c, env);
    assert forall j :: 0 <= j < |terms| - 1 ==> terms[1..][j] == terms[j + 1];
    if i == 0 {
      ApartTerms(terms[1..], Some(terms[0].0), env);
    } else {
      UnitTerms(terms[1..], i - 1, env);
    }
  }

  lemma {:induction false} ApartTerms(terms: seq<(Var, SymExpr)>, v: Option<Var>, env: Env)
    requires forall i :: 0 <= i < |terms| ==> IsLeaf(terms[i].0) && Some(terms[i].0) != v
    ensures TermsValue(terms, UnitLeaf(v), env) == 0
  {
    if terms != [] {
      assert forall j :: 0 <= j < |terms| - 1 ==> terms[1..][j] == terms[j + 1];
      ApartTerms(terms[1..], v, env);
    }
  }

  /** A form of constants divides exactly just where all its values are multiples. */
  lemma DivExactWhere(a: AffineExpr, d: Divisor)
    requires Valid(a) && Indexed(a)
    ensures DivExact(a, d).Some? <==> forall leaf: Leaf, env: Env :: FormValue(a, leaf, env) % d == 0
  {
    hide Value, FloorQuotient, QuotientTerms, Shaped, TermsValue, DivExact;
    DivExactIs(a, d);
    var env: Env := (s: Symbol) => 0;
    if DivExact(a, d).Some? {
      forall leaf: Leaf, e: Env ensures FormValue(a, leaf, e) % d == 0 {
        DivExactValue(a, d, leaf, e);
        QuotientIs(FormValue(a, leaf, e), d, FormValue(DivExact(a, d).value, leaf, e), 0);
      }
    } else {
      ConstValue(a.base.c, env);
      ApartTerms(a.terms, None, env);
      assert FormValue(a, UnitLeaf(None), env) == a.base.c;
      if a.base.c % d == 0 {
        var i :| 0 <= i < |a.terms| && a.terms[i].1.c % d != 0;
        UnitTerms(a.terms, i, env);
        MultipleSum(a.base.c, a.terms[i].1.c, d);
        assert FormValue(a, UnitLeaf(Some(a.terms[i].0)), env) % d != 0;
      } else {
        assert FormValue(a, UnitLeaf(None), env) % d != 0;
      }
    }
  }

  lemma DivExactIs(a: AffineExpr, d: Divisor)
    requires Valid(a) && Indexed(a)
    ensures DivExact(a, d).Some? <==> a.base.c % d == 0 && forall i :: 0 <= i < |a.terms| ==> a.terms[i].1.c % d == 0
  {
    hide FloorQuotient, QuotientTerms, Shaped;
    forall i | 0 <= i < |a.terms| ensures DivisibleBy(a.terms[i].1, d) <==> a.terms[i].1.c % d == 0 {
    }
  }

  // -- with a remainder -----------------------------------------------------------------

  // A term that is no multiple.
  predicate Left(t: (Var, SymExpr), d: Divisor) {
    !DivisibleBy(t.1, d)
  }

  // A positive constant that divides `d`, times a variable.
  predicate Divides(t: (Var, SymExpr), d: Divisor) {
    t.1.Const? && t.1.c > 0 && d % t.1.c == 0
  }

  ghost predicate OneLeft(terms: seq<(Var, SymExpr)>, d: Divisor) {
    && (forall i, j :: 0 <= i < j < |terms| ==> !Left(terms[i], d) || !Left(terms[j], d))
    && (forall i :: 0 <= i < |terms| && Left(terms[i], d) ==> Divides(terms[i], d))
  }

  lemma {:induction false} SplitTermsWhere(terms: seq<(Var, SymExpr)>, d: Divisor, q: AffineExpr, rest: Rest)
    requires ValidTerms(terms) && Valid(q)
    ensures SplitTerms(terms, d, q, rest).Some? <==>
      OneLeft(terms, d) && (rest.Some? ==> forall i :: 0 <= i < |terms| ==> !Left(terms[i], d))
    ensures SplitTerms(terms, d, q, rest).Some? ==>
      var r := SplitTerms(terms, d, q, rest).value.1;
      && (forall i :: 0 <= i < |terms| && Left(terms[i], d) ==> r == Some((terms[i].0, terms[i].1.c)))
      && ((forall i :: 0 <= i < |terms| ==> !Left(terms[i], d)) ==> r == rest)
    decreases terms
  {
    hide Shaped, Plus, FloorQuotient, DivisibleBy, Valid, ValidTerms;
    if terms != [] {
      TailIsValid(terms);
      var (v, c) := terms[0];
      assert forall j :: 0 <= j < |terms| - 1 ==> terms[1..][j] == terms[j + 1];
      assert forall j :: 0 < j < |terms| ==> terms[j] == terms[1..][j - 1];
      if !Left(terms[0], d) {
        TermIsValid(v, FloorQuotient(c, d));
        SplitTermsWhere(terms[1..], d, Plus(q, Term(v, FloorQuotient(c, d))), rest);
      } else if rest.None? && Divides(terms[0], d) {
        SplitTermsWhere(terms[1..], d, q, Some((v, c.c)));
      }
    }
  }

  // What the base's constants leave over, and its other summands added up.
  function Over(ts: seq<SymExpr>, d: Divisor): nat {
    if ts == [] then 0 else (if ts[0].Const? then ts[0].c % d else 0) + Over(ts[1..], d)
  }

  function AddOthers(sum: SymExpr, ts: seq<SymExpr>): SymExpr
    requires Shaped(sum) && AllShaped(ts)
    decreases ts
  {
    if ts == [] then sum else
    DepthPart(ts, ts[1..]);
    if ts[0].Const? then AddOthers(sum, ts[1..]) else AddOthers(Add(sum, ts[0]), ts[1..])
  }

  lemma {:induction false} SplitBaseIs(ts: seq<SymExpr>, d: Divisor, k: nat, whole: SymExpr, multiple: SymExpr)
    requires AllShaped(ts) && Shaped(whole) && Shaped(multiple)
    ensures SplitBase(ts, d, k, whole, multiple).0 == k + Over(ts, d)
    ensures SplitBase(ts, d, k, whole, multiple).2 == AddOthers(multiple, ts)
    decreases ts
  {
    hide Shaped, Add, Depth, DepthAll, SplitBase;
    NothingGoes(d, k, whole, multiple);
    if ts != [] {
      DepthPart(ts, ts[1..]);
      match ts[0] {
        case Const(c) =>
          ConstGoes(ts, c, d, k, whole, multiple);
          SplitBaseIs(ts[1..], d, k + c % d, Add(whole, Const(c / d)), multiple);
        case _ =>
          TermGoes(ts, d, k, whole, multiple);
          SplitBaseIs(ts[1..], d, k, whole, Add(multiple, ts[0]));
      }
    }
  }

  // The form splits: the base's other summands are a multiple, and of the terms all but one `c·v`, which with what the
  // constants leave over stays within a multiple of `c`, or of `d` over v's range.
  ghost predicate SplitsBy(a: AffineExpr, d: Divisor, bound: VarBounds)
    requires Valid(a)
  {
    PartsShaped(a.base);
    ConstShape(0);
    var k := Over(Parts(a.base), d);
    && k / d <= MAX && DivisibleBy(AddOthers(Const(0), Parts(a.base)), d) && OneLeft(a.terms, d)
    && forall i :: 0 <= i < |a.terms| && Left(a.terms[i], d) ==>
         k % d < a.terms[i].1.c || StaysIn(a.terms[i].0, a.terms[i].1.c, k % d, d, bound)
  }

  /** A form splits just where it does by that. */
  lemma SplitWhere(a: AffineExpr, d: Divisor, bound: VarBounds)
    requires Valid(a)
    ensures Split(a, d, bound).Some? <==> SplitsBy(a, d, bound)
  {
    hide SplitTerms, SplitBase, SplitOver, Parts, Shaped, Over, AddOthers, DivisibleBy, StaysIn;
    PartsShaped(a.base);
    ConstShape(0);
    BaseIsValid(0);
    SplitTermsWhere(a.terms, d, Base(Const(0)), None);
    SplitBaseIs(Parts(a.base), d, 0, Const(0), Const(0));
    var (k, whole, multiple) := SplitBase(Parts(a.base), d, 0, Const(0), Const(0));
    if SplitTerms(a.terms, d, Base(Const(0)), None).Some? {
      var (q, rest) := SplitTerms(a.terms, d, Base(Const(0)), None).value;
      SplitOverWhere(q, rest, k, whole, multiple, d, bound);
      if rest.Some? {
        var i :| 0 <= i < |a.terms| && Left(a.terms[i], d);
      }
    }
  }

  lemma SplitOverWhere(q: AffineExpr, rest: Rest, k: nat, whole: SymExpr, multiple: SymExpr, d: Divisor, bound: VarBounds)
    requires Valid(q) && (rest.Some? ==> d % rest.value.1 == 0) && Shaped(whole) && Shaped(multiple)
    ensures SplitOver(q, rest, k, whole, multiple, d, bound).Some? <==>
      && k / d <= MAX && DivisibleBy(multiple, d)
      && (rest.Some? ==> k % d < rest.value.1 || StaysIn(rest.value.0, rest.value.1, k % d, d, bound))
  {
    hide Shaped, Valid, DivisibleBy, StaysIn, Based, Plus;
    BelowDivisor(k, d);
    FloorGrows(0, k, d);
  }

  /** A floor and a remainder are defined just where the form is no term, divides exactly, or splits. */
  lemma DividesWhere(a: AffineExpr, d: Divisor, bound: VarBounds)
    requires Valid(a)
    ensures DivConst(a, d, bound).Some? <==> a.terms == [] || DivExact(a, d).Some? || SplitsBy(a, d, bound)
    ensures ModuloConst(a, d, bound).Some? <==> DivConst(a, d, bound).Some?
    ensures AlignDown(a, d, bound).Some? <==> DivConst(a, d, bound).Some?
  {
    hide Split, DivExact, FloorQuotient, Remainder, Plus, Scale, Add, Mul, SplitsBy;
    SplitWhere(a, d, bound);
  }

  /** What is left stays within a multiple of `d` just where it does at every value within the bounds. */
  lemma StaysInIsExact(v: Var, c: Divisor, k: nat, d: Divisor, bound: VarBounds, leaf: Leaf)
    requires Spread(v, bound) && Allows(bound, leaf)
    ensures StaysIn(v, c, k, d, bound) <==>
      forall at: Leaf :: Allows(bound, at) ==> 0 <= c * VarValue(v, at) + k < d
  {
    hide VarRange, OwnRange, Allows, VarValue, Spread;
    var (lo, hi) := VarRange(v, bound).value;
    if StaysIn(v, c, k, d, bound) {
      forall at: Leaf | Allows(bound, at) ensures 0 <= c * VarValue(v, at) + k < d {
        VarRangeHolds(v, bound, at);
        StaysHere(v, c, k, d, bound, VarValue(v, at));
      }
    } else {
      VarRangeIsTaken(v, bound, leaf, lo);
      VarRangeIsTaken(v, bound, leaf, hi);
      var p: Leaf :| Allows(bound, p) && VarValue(v, p) == lo;
      var q: Leaf :| Allows(bound, q) && VarValue(v, q) == hi;
      assert !(0 <= c * VarValue(v, p) + k < d) || !(0 <= c * VarValue(v, q) + k < d);
    }
  }
}
