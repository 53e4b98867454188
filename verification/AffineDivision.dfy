/** Forms divided by a constant, exactly or as a quotient and a remainder. */
module AffineDivision {
  import opened Wrappers
  import opened Divisions
  import opened SymExprs
  import opened SymExprValues
  import opened SymQuotients
  import opened AffineExprs
  import Swizzles

  // Ranges of variables

  type VarBounds = Var -> Option<(Int64, Int64)>

  const LAST_THREAD := 1023

  // Every index and counter lies within its bounds, and the thread index in a block.
  ghost predicate Allows(bound: VarBounds, leaf: Leaf) {
    && (forall v: Var :: IsLeaf(v) && bound(v).Some? ==> bound(v).value.0 <= leaf(v) <= bound(v).value.1)
    && 0 <= leaf(Tid(X)) <= LAST_THREAD
  }

  function Low(x: int, y: int): int {
    if x < y then x else y
  }

  function High(x: int, y: int): int {
    if x < y then y else x
  }

  // The least and greatest value over the threads from `lo` to `hi`.
  function EvalRange(s: Swizzles.XorSwizzle, lo: int, hi: int): (r: (Int64, Int64))
    requires lo <= hi
    ensures forall t :: lo <= t <= hi ==> r.0 <= Swizzles.Signed(Swizzles.Eval(s, t)) <= r.1
    decreases hi - lo
  {
    SignedFits(Swizzles.Eval(s, hi));
    var x: Int64 := Swizzles.Signed(Swizzles.Eval(s, hi));
    if lo == hi then (x, x) else
    var (a, b) := EvalRange(s, lo, hi - 1);
    (if x < a then x else a, if x < b then b else x)
  }

  lemma SignedFits(b: Swizzles.Bits)
    ensures Fits(Swizzles.Signed(b))
  {
    hide Swizzles.NumberBelow;
    assert Swizzles.Power(63) == 0x8000_0000_0000_0000 && Swizzles.Power(64) == 0x1_0000_0000_0000_0000 by {
      Swizzles.WordPowers();
    }
    Swizzles.NumberRange(b, 64);
    Swizzles.NumberRange(b, 63);
    TopBit(b);
  }

  lemma TopBit(b: Swizzles.Bits)
    ensures Swizzles.NumberBelow(b, 64) ==
            Swizzles.NumberBelow(b, 63) + if 63 in b then Swizzles.Power(63) else 0
  {
  }

  function SwizzleRange(s: Swizzles.XorSwizzle, tid: Option<(Int64, Int64)>): (Int64, Int64) {
    var lo: int := if tid.Some? then High(tid.value.0, 0) else 0;
    var hi: int := if tid.Some? then Low(tid.value.1, LAST_THREAD) else LAST_THREAD;
    EvalRange(s, lo, High(hi, lo))
  }

  /** Bounds on what a variable takes; those of a floor or a remainder follow from the variable it is of. */
  function VarRange(v: Var, bound: VarBounds): Option<(Int64, Int64)>
    decreases v
  {
    match v
    case Floor(x, d) =>
      (match VarRange(x, bound)
       case Some((lo, hi)) => FloorFits(lo, d); FloorFits(hi, d); Some((lo / d, hi / d))
       case None => None)
    case Rem(x, d) =>
      (match VarRange(x, bound)
       case Some((lo, hi)) => Some(if lo >= 0 && hi < d then (lo, hi) else (0, d - 1))
       case None => None)
    case Swizzle(s) => Some(SwizzleRange(s, bound(Tid(X))))
    case _ => bound(v)
  }

  /** Bounds that hold with nothing known of the operand: remainders, their floors and swizzles have some. */
  function OwnRange(v: Var): Option<(Int64, Int64)>
    decreases v
  {
    match v
    case Floor(x, d) =>
      (match OwnRange(x)
       case Some((lo, hi)) => FloorFits(lo, d); FloorFits(hi, d); Some((lo / d, hi / d))
       case None => None)
    case Rem(_, d) => Some((0, d - 1))
    case Swizzle(s) => Some(SwizzleRange(s, None))
    case _ => None
  }

  ghost predicate InRange(x: int, r: Option<(Int64, Int64)>) {
    r.Some? ==> r.value.0 <= x <= r.value.1
  }

  lemma {:induction false} VarRangeHolds(v: Var, bound: VarBounds, leaf: Leaf)
    requires Allows(bound, leaf)
    ensures InRange(VarValue(v, leaf), VarRange(v, bound))
    ensures InRange(VarValue(v, leaf), OwnRange(v))
    decreases v
  {
    match v
    case Floor(x, d) =>
      hide Allows, EvalRange;
      VarRangeHolds(x, bound, leaf);
      var y := VarValue(x, leaf);
      if VarRange(x, bound).Some? {
        FloorGrows(VarRange(x, bound).value.0, y, d);
        FloorGrows(y, VarRange(x, bound).value.1, d);
      }
      if OwnRange(x).Some? {
        FloorGrows(OwnRange(x).value.0, y, d);
        FloorGrows(y, OwnRange(x).value.1, d);
      }
    case Rem(x, d) =>
      hide Allows, EvalRange;
      VarRangeHolds(x, bound, leaf);
      var y := VarValue(x, leaf);
      if 0 <= y < d {
        QuotientIs(y, d, 0, y);
      }
    case Swizzle(s) => SwizzleRangeHolds(s, bound, leaf);
    case _ =>
  }

  lemma SwizzleRangeHolds(s: Swizzles.XorSwizzle, bound: VarBounds, leaf: Leaf)
    requires Allows(bound, leaf)
    ensures InRange(VarValue(Swizzle(s), leaf), Some(SwizzleRange(s, bound(Tid(X)))))
    ensures InRange(VarValue(Swizzle(s), leaf), Some(SwizzleRange(s, None)))
  {
    hide EvalRange, Swizzles.Eval, Swizzles.Signed;
    assert IsLeaf(Tid(X));
  }

  // Dividing

  function DivisibleTerms(terms: seq<(Var, SymExpr)>, d: Divisor): bool {
    forall i :: 0 <= i < |terms| ==> DivisibleBy(terms[i].1, d)
  }

  function QuotientTerms(terms: seq<(Var, SymExpr)>, d: Divisor): (out: seq<(Var, SymExpr)>)
    requires ValidTerms(terms)
    ensures ValidTerms(out) && |out| == |terms| && forall i :: 0 <= i < |out| ==> out[i].0 == terms[i].0
  {
    if terms == [] then [] else
    assert forall i :: 0 < i < |terms| ==> terms[i] == terms[1..][i - 1];
    [(terms[0].0, FloorQuotient(terms[0].1, d))] + QuotientTerms(terms[1..], d)
  }

  /** The exact quotient, found where `d` is seen to divide all coefficients and the base too. */
  function DivExact(a: AffineExpr, d: Divisor): (r: Option<AffineExpr>)
    requires Valid(a)
    ensures r.Some? ==> Valid(r.value)
  {
    if DivisibleTerms(a.terms, d) && DivisibleBy(a.base, d)
    then Some(AffineExpr(QuotientTerms(a.terms, d), FloorQuotient(a.base, d)))
    else None
  }

  lemma {:induction false} QuotientTermsValue(terms: seq<(Var, SymExpr)>, d: Divisor, leaf: Leaf, env: Env)
    requires ValidTerms(terms) && DivisibleTerms(terms, d)
    ensures TermsValue(terms, leaf, env) == d * TermsValue(QuotientTerms(terms, d), leaf, env)
  {
    hide Value, VarValue, FloorQuotient, Shaped, DivisibleBy;
    if terms != [] {
      var v, rest := VarValue(terms[0].0, leaf), QuotientTerms(terms[1..], d);
      var c, q := Value(terms[0].1, env), Value(FloorQuotient(terms[0].1, d), env);
      QuotientTermsValue(terms[1..], d, leaf, env);
      DivisibleQuotient(terms[0].1, d, env);
      Associates(d, q, v);
      Distributes(d, q * v, TermsValue(rest, leaf, env));
      assert QuotientTerms(terms, d)[1..] == rest;
    }
  }

  lemma DivisibleQuotient(e: SymExpr, d: Divisor, env: Env)
    requires Shaped(e) && DivisibleBy(e, d)
    ensures Value(e, env) == d * Value(FloorQuotient(e, d), env)
  {
    hide Value, FloorQuotient, Shaped, DivisibleBy;
    DivisibleValue(e, d, env);
    FloorQuotientValue(e, d, env);
    var v := Value(e, env);
    assert v == d * (v / d) + v % d;
  }

  lemma DivExactValue(a: AffineExpr, d: Divisor, leaf: Leaf, env: Env)
    requires Valid(a) && DivExact(a, d).Some?
    ensures FormValue(a, leaf, env) == d * FormValue(DivExact(a, d).value, leaf, env)
  {
    hide Value, FloorQuotient, Shaped, DivisibleBy, TermsValue, QuotientTerms;
    QuotientTermsValue(a.terms, d, leaf, env);
    DivisibleQuotient(a.base, d, env);
    var q := DivExact(a, d).value;
    Distributes(d, TermsValue(q.terms, leaf, env), Value(q.base, env));
  }

  // Splitting

  // The one term that is no multiple: its variable and its coefficient.
  type Rest = Option<(Var, Divisor)>

  function SplitTerms(terms: seq<(Var, SymExpr)>, d: Divisor, q: AffineExpr, rest: Rest)
    : (r: Option<(AffineExpr, Rest)>)
    requires ValidTerms(terms) && Valid(q)
    ensures r.Some? ==> Valid(r.value.0)
    ensures r.Some? && (rest.Some? ==> d % rest.value.1 == 0) && r.value.1.Some? ==> d % r.value.1.value.1 == 0
    decreases terms
  {
    hide Shaped, Plus, FloorQuotient, DivisibleBy, ValidTerms, Valid;
    if terms == [] then Some((q, rest)) else
    TailIsValid(terms);
    var (v, c) := terms[0];
    if DivisibleBy(c, d) then
      TermIsValid(v, FloorQuotient(c, d));
      SplitTerms(terms[1..], d, Plus(q, Term(v, FloorQuotient(c, d))), rest)
    else if rest.Some? then None
    else if c.Const? && c.c > 0 && d % c.c == 0 then SplitTerms(terms[1..], d, q, Some((v, c.c)))
    else None
  }

  lemma TailIsValid(terms: seq<(Var, SymExpr)>)
    requires ValidTerms(terms) && terms != []
    ensures Shaped(terms[0].1) && ValidTerms(terms[1..])
  {
  }

  lemma TermIsValid(v: Var, c: SymExpr)
    requires Shaped(c)
    ensures Valid(Term(v, c))
  {
  }

  // The quotients of the constants and what they leave, and the other summands.
  function SplitBase(ts: seq<SymExpr>, d: Divisor, k: nat, whole: SymExpr, multiple: SymExpr)
    : (r: (nat, SymExpr, SymExpr))
    requires AllShaped(ts) && Shaped(whole) && Shaped(multiple)
    ensures Shaped(r.1) && Shaped(r.2)
    decreases ts
  {
    if ts == [] then (k, whole, multiple) else
    DepthPart(ts, ts[1..]);
    match ts[0]
    case Const(c) =>
      FloorFits(c, d);
      SplitBase(ts[1..], d, k + c % d, Add(whole, Const(c / d)), multiple)
    case t => SplitBase(ts[1..], d, k, whole, Add(multiple, t))
  }

  // The quotient, the floor of what remains over `d`, and what remains modulo `d`.
  datatype Parted = Parted(q: AffineExpr, floor: AffineExpr, rem: AffineExpr)

  // Where `c·v + k` stays within one multiple of `d`, over the variable's range.
  predicate StaysIn(v: Var, c: Divisor, k: nat, d: Divisor, bound: VarBounds) {
    var range := if VarRange(v, bound).Some? then VarRange(v, bound) else OwnRange(v);
    match range
    case Some((lo, hi)) => c * lo + k >= 0 && c * hi + k < d
    case None => false
  }

  // What remains, `c·v + k` with 0 <= k < d, divided.
  function SplitRest(v: Var, c: Divisor, k: Int64, d: Divisor, bound: VarBounds): (r: Option<(AffineExpr, AffineExpr)>)
    requires 0 <= k < d && d % c == 0
    ensures r.Some? ==> Valid(r.value.0) && Valid(r.value.1)
  {
    hide Plus, Valid, StaysIn;
    BaseIsValid(k);
    BaseIsValid(0);
    if k >= c then
      ConstTermIsValid(v, c);
      if StaysIn(v, c, k, d, bound) then Some((Base(Const(0)), Plus(Term(v, Const(c)), Base(Const(k))))) else None
    else
      QuotientPositive(d, c);
      ConstTermIsValid(Floor(v, d / c), 1);
      ConstTermIsValid(Rem(v, d / c), c);
      Some((Term(Floor(v, d / c), Const(1)), Plus(Term(Rem(v, d / c), Const(c)), Base(Const(k)))))
  }

  lemma ConstTermIsValid(v: Var, c: Int64)
    ensures Valid(Term(v, Const(c)))
  {
  }

  lemma QuotientPositive(d: int, c: int)
    requires d > 0 && c > 0 && d % c == 0
    ensures 0 < d / c <= d && d == c * (d / c)
  {
    FloorFits(d, c);
    assert d == c * (d / c) + d % c;
    if d / c == 0 {
      assert c * 0 == 0;
    }
  }

  /** The form as a multiple of `d` and a remainder of at most one more term, where it is one. */
  function Split(a: AffineExpr, d: Divisor, bound: VarBounds): (r: Option<Parted>)
    requires Valid(a)
    ensures r.Some? ==> Valid(r.value.q) && Valid(r.value.floor) && Valid(r.value.rem)
  {
    hide SplitTerms, SplitBase, SplitOver, Parts, Shaped;
    PartsShaped(a.base);
    ConstShape(0);
    BaseIsValid(0);
    match SplitTerms(a.terms, d, Base(Const(0)), None)
    case None => None
    case Some((q, rest)) =>
      var (k, whole, multiple) := SplitBase(Parts(a.base), d, 0, Const(0), Const(0));
      SplitOver(q, rest, k, whole, multiple, d, bound)
  }

  // The quotient's terms and the remaining one, with what the base splits into.
  function SplitOver(q: AffineExpr, rest: Rest, k: nat, whole: SymExpr, multiple: SymExpr, d: Divisor, bound: VarBounds)
    : (r: Option<Parted>)
    requires Valid(q) && (rest.Some? ==> d % rest.value.1 == 0) && Shaped(whole) && Shaped(multiple)
    ensures r.Some? ==> Valid(r.value.q) && Valid(r.value.floor) && Valid(r.value.rem)
  {
    hide *;
    BelowDivisor(k, d);
    if !CarryFits(k, d) || !DivisibleBy(multiple, d) then None else
    Halved(Based(q, multiple, whole, k / d, d), rest, k % d, d, bound)
  }

  predicate CarryFits(k: nat, d: Divisor) {
    Fits(k / d)
  }

  lemma BelowDivisor(k: nat, d: Divisor)
    ensures 0 <= k % d < d && k % d <= MAX && (CarryFits(k, d) ==> MIN <= k / d <= MAX)
  {
  }

  // The quotient, and the floor and remainder of what is left over the divisor.
  function Halved(quotient: AffineExpr, rest: Rest, low: Int64, d: Divisor, bound: VarBounds): (r: Option<Parted>)
    requires Valid(quotient) && 0 <= low < d && (rest.Some? ==> d % rest.value.1 == 0)
    ensures r.Some? ==> Valid(r.value.q) && Valid(r.value.floor) && Valid(r.value.rem)
  {
    hide SplitRest, Valid;
    BaseIsValid(0);
    BaseIsValid(low);
    match rest
    case None => Some(Parted(quotient, Base(Const(0)), Base(Const(low))))
    case Some((v, c)) =>
      match SplitRest(v, c, low, d, bound)
      case None => None
      case Some((floor, rem)) => Some(Parted(quotient, floor, rem))
  }

  // The quotient's terms over the base's.
  function Based(q: AffineExpr, multiple: SymExpr, whole: SymExpr, carry: Int64, d: Divisor): (r: AffineExpr)
    requires Valid(q) && Shaped(multiple) && Shaped(whole)
    ensures Valid(r)
  {
    AffineExpr(q.terms, Add(FloorQuotient(multiple, d), Add(whole, Const(carry))))
  }

  lemma BaseIsValid(c: Int64)
    ensures Valid(Base(Const(c)))
  {
  }

  lemma PartsShaped(e: SymExpr)
    requires Shaped(e)
    ensures AllShaped(Parts(e))
  {
    if e.Sum? {
      assert AllShaped(e.terms);
    }
  }

  function RestValue(rest: Rest, leaf: Leaf): int {
    if rest.Some? then rest.value.1 * VarValue(rest.value.0, leaf) else 0
  }

  lemma {:induction false} SplitTermsValue(terms: seq<(Var, SymExpr)>, d: Divisor, q: AffineExpr, rest: Rest,
                                           leaf: Leaf, env: Env)
    requires ValidTerms(terms) && Valid(q) && SplitTerms(terms, d, q, rest).Some?
    requires q.base == Const(0)
    ensures var (q', rest') := SplitTerms(terms, d, q, rest).value;
      && Value(q'.base, env) == 0
      && d * TermsValue(q'.terms, leaf, env) + RestValue(rest', leaf) ==
         d * TermsValue(q.terms, leaf, env) + RestValue(rest, leaf) + TermsValue(terms, leaf, env)
    decreases terms
  {
    hide Value, Shaped, Plus, FloorQuotient, DivisibleBy, VarValue, Valid, ValidTerms;
    ConstValue(0, env);
    if terms != [] {
      TailIsValid(terms);
      var (v, c) := terms[0];
      if DivisibleBy(c, d) {
        var term := Term(v, FloorQuotient(c, d));
        TermIsValid(v, FloorQuotient(c, d));
        PlusBase(q, term);
        PlusTermsValue(q, term, leaf, env);
        TermValue(v, FloorQuotient(c, d), leaf, env);
        DivisibleQuotient(c, d, env);
        var x, y := TermsValue(q.terms, leaf, env), Value(FloorQuotient(c, d), env);
        Distributes(d, x, y * VarValue(v, leaf));
        Associates(d, y, VarValue(v, leaf));
        SplitTermsValue(terms[1..], d, Plus(q, term), rest, leaf, env);
      } else {
        ConstValue(c.c, env);
        SplitTermsValue(terms[1..], d, q, Some((v, c.c)), leaf, env);
      }
    }
  }

  lemma PlusBase(a: AffineExpr, b: AffineExpr)
    requires Valid(a) && Valid(b) && a.base == Const(0) && b.base == Const(0)
    ensures Plus(a, b).base == Const(0)
  {
    ZeroPlusZero();
  }

  lemma ZeroPlusZero()
    ensures Add(Const(0), Const(0)) == Const(0)
  {
    var none: seq<SymExpr> := [];
    assert Parts(Const(0)) + Parts(Const(0)) == [Const(0), Const(0)];
    assert Collect([Const(0), Const(0)], 0, none) == Collect([Const(0)], 0, none);
    assert Collect([Const(0)], 0, none) == Collect(none, 0, none);
    assert none + [Const(0)] == [Const(0)];
    assert Picked([Const(0)], false) == [Const(0)] + Picked(none, false);
    assert Picked([Const(0)], true) == none + Picked(none, true);
  }

  lemma PlusTermsValue(a: AffineExpr, b: AffineExpr, leaf: Leaf, env: Env)
    requires Valid(a) && Valid(b)
    ensures TermsValue(Plus(a, b).terms, leaf, env) == TermsValue(a.terms, leaf, env) + TermsValue(b.terms, leaf, env)
  {
    hide Value, TermsValue, InsertAll;
    InsertAllValue(a.terms, b.terms, leaf, env);
  }

  function Multiple(d: int, x: int): int {
    d * x
  }

  lemma CarriesOver(d: int, w: int, c: int)
    requires d > 0
    ensures c % d + Multiple(d, w + c / d) == Multiple(d, w) + c
  {
    Distributes(d, w, c / d);
  }

  // A constant of the base: its quotient joins the whole, its remainder what is left.
  lemma ConstCarries(whole: SymExpr, c: Int64, d: Divisor, env: Env)
    requires Shaped(whole)
    ensures MIN <= c / d <= MAX && 0 <= c % d
    ensures Shaped(Const(c / d)) && Shaped(Add(whole, Const(c / d)))
    ensures c % d + Multiple(d, Value(Add(whole, Const(c / d)), env)) == Multiple(d, Value(whole, env)) + c
  {
    hide Value, Shaped, Add, Multiple;
    FloorFits(c, d);
    ConstShape(c / d);
    ConstValue(c / d, env);
    AddValue(whole, Const(c / d), env);
    CarriesOver(d, Value(whole, env), c);
  }

  lemma TotalNext(ts: seq<SymExpr>, env: Env)
    requires ts != []
    ensures Total(ts, env) == Value(ts[0], env) + Total(ts[1..], env)
  {
  }

  lemma {:induction false} SplitBaseValue(ts: seq<SymExpr>, d: Divisor, k: nat, whole: SymExpr, multiple: SymExpr,
                                          env: Env)
    requires AllShaped(ts) && Shaped(whole) && Shaped(multiple)
    ensures var (k', whole', multiple') := SplitBase(ts, d, k, whole, multiple);
      k' + Multiple(d, Value(whole', env)) + Value(multiple', env) ==
      k + Multiple(d, Value(whole, env)) + Value(multiple, env) + Total(ts, env)
    decreases ts
  {
    hide Value, Shaped, Add, Depth, DepthAll, Total, Multiple, SplitBase;
    NoFactors(env);
    NothingGoes(d, k, whole, multiple);
    if ts != [] {
      DepthPart(ts, ts[1..]);
      TotalNext(ts, env);
      match ts[0] {
        case Const(c) =>
          ConstCarries(whole, c, d, env);
          ConstValue(c, env);
          ConstGoes(ts, c, d, k, whole, multiple);
          SplitBaseValue(ts[1..], d, k + c % d, Add(whole, Const(c / d)), multiple, env);
        case _ =>
          AddValue(multiple, ts[0], env);
          TermGoes(ts, d, k, whole, multiple);
          SplitBaseValue(ts[1..], d, k, whole, Add(multiple, ts[0]), env);
      }
    }
  }

  lemma NothingGoes(d: Divisor, k: nat, whole: SymExpr, multiple: SymExpr)
    requires Shaped(whole) && Shaped(multiple)
    ensures AllShaped([]) && SplitBase([], d, k, whole, multiple) == (k, whole, multiple)
  {
  }

  // A constant goes to the carry and the whole part, any other term to the multiple.
  lemma ConstGoes(ts: seq<SymExpr>, c: Int64, d: Divisor, k: nat, whole: SymExpr, multiple: SymExpr)
    requires ts != [] && ts[0] == Const(c) && AllShaped(ts) && Shaped(whole) && Shaped(multiple)
    ensures AllShaped(ts[1..]) && Fits(c / d) && c % d >= 0 && Shaped(Const(c / d)) && Shaped(Add(whole, Const(c / d)))
    ensures SplitBase(ts, d, k, whole, multiple) == SplitBase(ts[1..], d, k + c % d, Add(whole, Const(c / d)), multiple)
  {
    hide Add, Depth, DepthAll;
    DepthPart(ts, ts[1..]);
    FloorFits(c, d);
  }

  lemma TermGoes(ts: seq<SymExpr>, d: Divisor, k: nat, whole: SymExpr, multiple: SymExpr)
    requires ts != [] && !ts[0].Const? && AllShaped(ts) && Shaped(whole) && Shaped(multiple)
    ensures AllShaped(ts[1..]) && Shaped(Add(multiple, ts[0]))
    ensures SplitBase(ts, d, k, whole, multiple) == SplitBase(ts[1..], d, k, whole, Add(multiple, ts[0]))
  {
    hide Add, Depth, DepthAll;
    DepthPart(ts, ts[1..]);
  }

  lemma SplitRestValue(v: Var, c: Divisor, k: Int64, d: Divisor, bound: VarBounds, leaf: Leaf, env: Env)
    requires 0 <= k < d && d % c == 0 && Allows(bound, leaf) && SplitRest(v, c, k, d, bound).Some?
    ensures var (floor, rem) := SplitRest(v, c, k, d, bound).value;
      var x := c * VarValue(v, leaf) + k;
      FormValue(floor, leaf, env) == x / d && FormValue(rem, leaf, env) == x % d
  {
    hide Value, Plus, VarRange, OwnRange, FormValue, Allows;
    var y := VarValue(v, leaf);
    BaseValue(Const(k), leaf, env);
    BaseValue(Const(0), leaf, env);
    ConstValue(k, env);
    ConstValue(0, env);
    ConstValue(1, env);
    ConstValue(c, env);
    if k >= c {
      VarRangeHolds(v, bound, leaf);
      StaysHere(v, c, k, d, bound, y);
      TermValue(v, Const(c), leaf, env);
      PlusValue(Term(v, Const(c)), Base(Const(k)), leaf, env);
      QuotientIs(c * y + k, d, 0, c * y + k);
    } else {
      QuotientPositive(d, c);
      var m := d / c;
      TermValue(Floor(v, m), Const(1), leaf, env);
      TermValue(Rem(v, m), Const(c), leaf, env);
      PlusValue(Term(Rem(v, m), Const(c)), Base(Const(k)), leaf, env);
      ScaledDivision(c, y, k, m);
    }
  }

  lemma StaysHere(v: Var, c: Divisor, k: nat, d: Divisor, bound: VarBounds, y: int)
    requires StaysIn(v, c, k, d, bound) && InRange(y, VarRange(v, bound)) && InRange(y, OwnRange(v))
    ensures 0 <= c * y + k < d
  {
    hide VarRange, OwnRange;
    var range := if VarRange(v, bound).Some? then VarRange(v, bound) else OwnRange(v);
    var (lo, hi) := range.value;
    assert lo <= y <= hi;
    Distributes(c, lo, y - lo);
    Distributes(c, y, hi - y);
    assert c * (y - lo) >= 0 && c * (hi - y) >= 0;
  }

  // A multiple of `c` and a constant below `c`, divided by `c·m`.
  lemma ScaledDivision(c: int, y: int, k: int, m: int)
    requires c > 0 && m > 0 && 0 <= k < c
    ensures c * m > 0 && (c * y + k) / (c * m) == y / m && (c * y + k) % (c * m) == c * (y % m) + k
  {
    var q, r := y / m, y % m;
    assert y == m * q + r;
    Distributes(c, m * q, r);
    Associates(c, m, q);
    assert c * r <= c * (m - 1) by { Distributes(c, r, m - 1 - r); assert c * (m - 1 - r) >= 0; }
    assert c * (m - 1) == c * m - c by { Distributes(c, m, -1); }
    assert c * r >= 0;
    QuotientIs(c * y + k, c * m, q, c * r + k);
  }

  // The quotient's value over the base's.
  lemma BasedValue(q: AffineExpr, multiple: SymExpr, whole: SymExpr, carry: Int64, d: Divisor, leaf: Leaf, env: Env)
    requires Valid(q) && Shaped(multiple) && Shaped(whole) && DivisibleBy(multiple, d)
    ensures d * FormValue(Based(q, multiple, whole, carry, d), leaf, env) ==
            d * TermsValue(q.terms, leaf, env) + (Value(multiple, env) + (d * Value(whole, env) + d * carry))
  {
    hide Add, FloorQuotient, Value, TermsValue, Shaped, DivisibleBy, VarValue;
    ConstShape(carry);
    AddValue(whole, Const(carry), env);
    AddValue(FloorQuotient(multiple, d), Add(whole, Const(carry)), env);
    ConstValue(carry, env);
    DivisibleQuotient(multiple, d, env);
    var t, m, w := TermsValue(q.terms, leaf, env), Value(FloorQuotient(multiple, d), env), Value(whole, env);
    Distributes(d, t, m + (w + carry));
    Distributes(d, m, w + carry);
    Distributes(d, w, carry);
  }

  // The floor and the remainder of what is left over the divisor.
  lemma HalvedValue(quotient: AffineExpr, rest: Rest, low: Int64, d: Divisor, bound: VarBounds, leaf: Leaf, env: Env)
    requires Valid(quotient) && 0 <= low < d && (rest.Some? ==> d % rest.value.1 == 0) && Allows(bound, leaf)
    requires Halved(quotient, rest, low, d, bound).Some?
    ensures var p, left := Halved(quotient, rest, low, d, bound).value, RestValue(rest, leaf) + low;
      && p.q == quotient && FormValue(p.floor, leaf, env) == left / d && FormValue(p.rem, leaf, env) == left % d
  {
    hide SplitRest, Value, TermsValue, Shaped, Allows, VarValue, FormValue, Valid;
    if rest.Some? {
      SplitRestValue(rest.value.0, rest.value.1, low, d, bound, leaf, env);
    } else {
      BaseValue(Const(0), leaf, env);
      BaseValue(Const(low), leaf, env);
      ConstValue(0, env);
      ConstValue(low, env);
      QuotientIs(low, d, 0, low);
    }
  }

  /** A form that splits divides into `d·q + r` with the floor and the remainder given. */
  lemma SplitValueIs(a: AffineExpr, d: Divisor, bound: VarBounds, leaf: Leaf, env: Env)
    requires Valid(a) && Split(a, d, bound).Some? && Allows(bound, leaf)
    ensures var p := Split(a, d, bound).value; var x := FormValue(a, leaf, env);
      && FormValue(p.q, leaf, env) + FormValue(p.floor, leaf, env) == x / d
      && FormValue(p.rem, leaf, env) == x % d
  {
    hide SplitTerms, SplitBase, SplitRest, Add, FloorQuotient, Parts, DepthAll, Depth, Value, TermsValue, Shaped,
      DivisibleBy, Allows, VarValue, Based, Halved, RestValue;
    PartsShaped(a.base);
    ConstShape(0);
    PartsValue(a.base, env);
    ConstValue(0, env);
    var start := Base(Const(0));
    SplitTermsValue(a.terms, d, start, None, leaf, env);
    NoTerms(leaf, env);
    NoRest(leaf);
    SplitBaseValue(Parts(a.base), d, 0, Const(0), Const(0), env);
    var (q, rest) := SplitTerms(a.terms, d, start, None).value;
    var (k, whole, multiple) := SplitBase(Parts(a.base), d, 0, Const(0), Const(0));
    BelowDivisor(k, d);
    var quotient := Based(q, multiple, whole, k / d, d);
    BasedValue(q, multiple, whole, k / d, d, leaf, env);
    HalvedValue(quotient, rest, k % d, d, bound, leaf, env);
    assert k == d * (k / d) + k % d;
    MultipleOf(d, FormValue(quotient, leaf, env), RestValue(rest, leaf) + k % d);
  }

  lemma NoRest(leaf: Leaf)
    ensures RestValue(None, leaf) == 0
  {
  }

  lemma NoTerms(leaf: Leaf, env: Env)
    ensures TermsValue([], leaf, env) == 0
  {
  }

  lemma MultipleOf(d: int, q: int, r: int)
    requires d > 0
    ensures (d * q + r) / d == q + r / d && (d * q + r) % d == r % d
  {
    QuotientIs(d * q, d, q, 0);
    MultipleSum(d * q, r, d);
  }

  // Floor division, remainder and alignment

  function DivConst(a: AffineExpr, d: Divisor, bound: VarBounds): (r: Option<AffineExpr>)
    requires Valid(a)
    ensures r.Some? ==> Valid(r.value)
  {
    if a.terms == [] then Some(Base(FloorQuotient(a.base, d)))
    else if DivExact(a, d).Some? then DivExact(a, d)
    else match Split(a, d, bound) case Some(p) => Some(Plus(p.q, p.floor)) case None => None
  }

  function ModuloConst(a: AffineExpr, d: Divisor, bound: VarBounds): (r: Option<AffineExpr>)
    requires Valid(a)
    ensures r.Some? ==> Valid(r.value)
  {
    if a.terms == [] then Some(Base(Remainder(a.base, d)))
    else if DivExact(a, d).Some? then Some(Base(Const(0)))
    else match Split(a, d, bound) case Some(p) => Some(p.rem) case None => None
  }

  function AlignDown(a: AffineExpr, d: Divisor, bound: VarBounds): (r: Option<AffineExpr>)
    requires Valid(a)
    ensures r.Some? ==> Valid(r.value)
  {
    if a.terms == [] then Some(Base(Add(a.base, Mul(Const(-1), Remainder(a.base, d)))))
    else if DivExact(a, d).Some? then Some(a)
    else match Split(a, d, bound) case Some(p) => Some(Scale(Plus(p.q, p.floor), Const(d))) case None => None
  }

  /** Whenever defined, the quotient evaluates to the floor division at every valuation within the bounds. */
  lemma DivConstValue(a: AffineExpr, d: Divisor, bound: VarBounds, leaf: Leaf, env: Env)
    requires Valid(a) && Allows(bound, leaf) && DivConst(a, d, bound).Some?
    ensures FormValue(DivConst(a, d, bound).value, leaf, env) == FormValue(a, leaf, env) / d
  {
    hide Split, DivExact, FloorQuotient, Value, Plus, Allows;
    if a.terms == [] {
      FloorQuotientValue(a.base, d, env);
    } else if DivExact(a, d).Some? {
      DivExactValue(a, d, leaf, env);
      QuotientIs(FormValue(a, leaf, env), d, FormValue(DivExact(a, d).value, leaf, env), 0);
    } else {
      SplitValueIs(a, d, bound, leaf, env);
      var p := Split(a, d, bound).value;
      PlusValue(p.q, p.floor, leaf, env);
    }
  }

  /** And the remainder to the Euclidean remainder. */
  lemma ModuloConstValue(a: AffineExpr, d: Divisor, bound: VarBounds, leaf: Leaf, env: Env)
    requires Valid(a) && Allows(bound, leaf) && ModuloConst(a, d, bound).Some?
    ensures FormValue(ModuloConst(a, d, bound).value, leaf, env) == FormValue(a, leaf, env) % d
  {
    hide Split, DivExact, Remainder, Value, Allows;
    if a.terms == [] {
      RemainderValue(a.base, d, env);
    } else if DivExact(a, d).Some? {
      DivExactValue(a, d, leaf, env);
      QuotientIs(FormValue(a, leaf, env), d, FormValue(DivExact(a, d).value, leaf, env), 0);
      BaseValue(Const(0), leaf, env);
      ConstValue(0, env);
    } else {
      SplitValueIs(a, d, bound, leaf, env);
    }
  }

  /** And the aligned form to the multiple of `d` at or below the value. */
  lemma AlignDownValue(a: AffineExpr, d: Divisor, bound: VarBounds, leaf: Leaf, env: Env)
    requires Valid(a) && Allows(bound, leaf) && AlignDown(a, d, bound).Some?
    ensures FormValue(AlignDown(a, d, bound).value, leaf, env) == d * (FormValue(a, leaf, env) / d)
  {
    hide Split, DivExact, Remainder, Value, Plus, Scale, Allows, Add, Mul;
    var x := FormValue(a, leaf, env);
    assert x == d * (x / d) + x % d;
    if a.terms == [] {
      RemainderValue(a.base, d, env);
      MulValue(Const(-1), Remainder(a.base, d), env);
      ConstValue(-1, env);
      AddValue(a.base, Mul(Const(-1), Remainder(a.base, d)), env);
    } else if DivExact(a, d).Some? {
      DivExactValue(a, d, leaf, env);
      QuotientIs(x, d, FormValue(DivExact(a, d).value, leaf, env), 0);
    } else {
      SplitValueIs(a, d, bound, leaf, env);
      var p := Split(a, d, bound).value;
      PlusValue(p.q, p.floor, leaf, env);
      ScaleValue(Plus(p.q, p.floor), Const(d), leaf, env);
      ConstValue(d, env);
    }
  }
}
