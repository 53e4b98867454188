/** How close the ranges are: which of their values are taken, the ends above all. */
module RangeEnds {
  import opened Wrappers
  import opened Divisions
  import opened SymExprs
  import opened SymExprValues
  import opened Spans
  import opened AffineExprs
  import opened AffineDivision
  import opened AffineRanges
  import Swizzles

  // -- variables -----------------------------------------------------------------------

  // The index, counter or unknown value a variable is of.
  function Root(v: Var): Var
    decreases v
  {
    match v
    case Floor(x, _) => Root(x)
    case Rem(x, _) => Root(x)
    case _ => v
  }

  // All the remainders by `d` are between `lo` and `hi`: these lie in the first multiple, or hold a whole one.
  predicate AllRemainders(lo: int, hi: int, d: Divisor) {
    (0 <= lo && hi < d) || lo + -lo % d + (d - 1) <= hi
  }

  // Bounds follow from the operand's alone: a remainder's operand stays below its divisor or passes a whole multiple.
  predicate Spread(v: Var, bound: VarBounds): (spread: bool)
    ensures spread ==> VarRange(v, bound).Some? && VarRange(v, bound).value.0 <= VarRange(v, bound).value.1
    decreases v
  {
    match v
    case Floor(x, d) =>
      Spread(x, bound) &&
      var (lo, hi) := VarRange(x, bound).value;
      FloorGrows(lo, hi, d);
      true
    case Rem(x, d) => Spread(x, bound) && AllRemainders(VarRange(x, bound).value.0, VarRange(x, bound).value.1, d)
    case Swizzle(_) => false
    case _ =>
      bound(v).Some? && bound(v).value.0 <= bound(v).value.1 && ThreadsIn(v, bound(v).value)
  }

  predicate ThreadsIn(v: Var, range: (Int64, Int64)) {
    v == Tid(X) ==> 0 <= range.0 && range.1 <= LAST_THREAD
  }

  ghost function Put(leaf: Leaf, x: Var, z: int): Leaf {
    (v: Var) => if v == x then z else leaf(v)
  }

  ghost predicate Bounded(x: Var, z: int, bound: VarBounds) {
    && IsLeaf(x)
    && (bound(x).Some? ==> bound(x).value.0 <= z <= bound(x).value.1)
    && (x == Tid(X) ==> 0 <= z <= LAST_THREAD)
  }

  lemma PutAllowed(leaf: Leaf, x: Var, z: int, bound: VarBounds)
    requires Allows(bound, leaf) && Bounded(x, z, bound)
    ensures Allows(bound, Put(leaf, x, z))
  {
  }

  // An operand between `lo` and `hi` whose floor is `q`.
  lemma FloorTaken(lo: int, hi: int, d: Divisor, q: int) returns (x: int)
    requires lo / d <= q <= hi / d && lo <= hi
    ensures lo <= x <= hi && x / d == q
  {
    FloorAtMost(lo, d, q);
    FloorAtMost(hi, d, q - 1);
    Distributes(d, q, 1);
    assert d * q <= hi;
    assert lo < d * q + d;
    if d * q >= lo {
      x := d * q;
      QuotientIs(x, d, q, 0);
    } else {
      x := lo;
      QuotientIs(x, d, q, lo - d * q) by {
        FloorAtMost(lo, d, q - 1);
      }
    }
  }

  lemma RemTaken(lo: int, hi: int, d: Divisor, r: int) returns (x: int)
    requires lo <= hi && AllRemainders(lo, hi, d) && (if lo >= 0 && hi < d then lo <= r <= hi else 0 <= r <= d - 1)
    ensures lo <= x <= hi && x % d == r
  {
    if lo >= 0 && hi < d {
      x := r;
      QuotientIs(r, d, 0, r);
    } else {
      var m := lo + -lo % d;
      assert m % d == 0 by {
        var q := -lo / d;
        assert -lo == d * q + -lo % d;
        Distributes(d, q, -q);
        QuotientIs(m, d, -q, 0);
      }
      x := m + r;
      QuotientIs(x, d, m / d, r);
    }
  }

  // A value of the root at which the variable is `y`.
  lemma {:induction false} ValueTaken(v: Var, bound: VarBounds, leaf: Leaf, y: int) returns (z: int)
    requires Spread(v, bound) && VarRange(v, bound).value.0 <= y <= VarRange(v, bound).value.1
    ensures Bounded(Root(v), z, bound) && VarValue(v, Put(leaf, Root(v), z)) == y
    decreases v
  {
    match v
    case Floor(x, d) =>
      var (lo, hi) := VarRange(x, bound).value;
      var w := FloorTaken(lo, hi, d, y);
      z := ValueTaken(x, bound, leaf, w);
    case Rem(x, d) =>
      var (lo, hi) := VarRange(x, bound).value;
      var w := RemTaken(lo, hi, d, y);
      z := ValueTaken(x, bound, leaf, w);
    case _ =>
      z := y;
  }

  /** The range holds just the values the variable takes within the bounds. */
  lemma VarRangeIsTaken(v: Var, bound: VarBounds, leaf: Leaf, y: int)
    requires Spread(v, bound) && Allows(bound, leaf)
    ensures VarRange(v, bound).value.0 <= y <= VarRange(v, bound).value.1 <==>
      exists at: Leaf :: Allows(bound, at) && VarValue(v, at) == y
  {
    hide Allows, VarRange, VarValue, Spread;
    if VarRange(v, bound).value.0 <= y <= VarRange(v, bound).value.1 {
      var z := ValueTaken(v, bound, leaf, y);
      PutAllowed(leaf, Root(v), z, bound);
    }
    if exists at: Leaf :: Allows(bound, at) && VarValue(v, at) == y {
      var at: Leaf :| Allows(bound, at) && VarValue(v, at) == y;
      VarRangeHolds(v, bound, at);
    }
  }

  // A swizzle's ends are taken by threads within the bounds.
  lemma {:induction false} EvalRangeMet(s: Swizzles.XorSwizzle, lo: int, hi: int) returns (t: int, u: int)
    requires lo <= hi
    ensures lo <= t <= hi && Swizzles.Signed(Swizzles.Eval(s, t)) == EvalRange(s, lo, hi).0
    ensures lo <= u <= hi && Swizzles.Signed(Swizzles.Eval(s, u)) == EvalRange(s, lo, hi).1
    decreases hi - lo
  {
    hide Swizzles.Eval, Swizzles.Signed;
    t, u := hi, hi;
    if lo < hi {
      var t', u' := EvalRangeMet(s, lo, hi - 1);
      if Swizzles.Signed(Swizzles.Eval(s, hi)) != EvalRange(s, lo, hi).0 {
        t := t';
      }
      if Swizzles.Signed(Swizzles.Eval(s, hi)) != EvalRange(s, lo, hi).1 {
        u := u';
      }
    }
  }

  /** The ends of a swizzle's range are values of it. */
  lemma SwizzleRangeMet(s: Swizzles.XorSwizzle, bound: VarBounds, leaf: Leaf)
    requires Allows(bound, leaf)
    ensures var (a, b) := VarRange(Swizzle(s), bound).value;
      && (exists at: Leaf :: Allows(bound, at) && VarValue(Swizzle(s), at) == a)
      && (exists at: Leaf :: Allows(bound, at) && VarValue(Swizzle(s), at) == b)
  {
    hide Allows, EvalRange, Swizzles.Eval, Swizzles.Signed;
    var tid := bound(Tid(X));
    var lo: int := if tid.Some? then High(tid.value.0, 0) else 0;
    var hi: int := if tid.Some? then Low(tid.value.1, LAST_THREAD) else LAST_THREAD;
    assert lo <= hi by {
      ThreadAllowed(bound, leaf);
    }
    var t, u := EvalRangeMet(s, lo, hi);
    PutAllowed(leaf, Tid(X), t, bound);
    PutAllowed(leaf, Tid(X), u, bound);
    assert VarValue(Swizzle(s), Put(leaf, Tid(X), t)) == VarRange(Swizzle(s), bound).value.0;
    assert VarValue(Swizzle(s), Put(leaf, Tid(X), u)) == VarRange(Swizzle(s), bound).value.1;
  }

  lemma ThreadAllowed(bound: VarBounds, leaf: Leaf)
    requires Allows(bound, leaf)
    ensures Bounded(Tid(X), leaf(Tid(X)), bound)
  {
  }

  // With nothing known of its root, every value a remainder and its floors have bounds for.
  predicate Unbound(v: Var)
    decreases v
  {
    match v
    case Floor(x, _) => Unbound(x)
    case Rem(_, _) => false
    case Swizzle(_) => false
    case _ => v != Tid(X)
  }

  predicate OwnSpread(v: Var): (spread: bool)
    ensures spread ==> OwnRange(v).Some? && OwnRange(v).value.0 <= OwnRange(v).value.1
    decreases v
  {
    match v
    case Floor(x, d) =>
      OwnSpread(x) &&
      var (lo, hi) := OwnRange(x).value;
      FloorGrows(lo, hi, d);
      true
    case Rem(x, d) => Unbound(x) || (x == Tid(X) && d <= LAST_THREAD + 1)
    case _ => false
  }

  lemma {:induction false} UnboundTaken(v: Var, leaf: Leaf, y: int) returns (z: int)
    requires Unbound(v)
    ensures IsLeaf(Root(v)) && Root(v) != Tid(X) && VarValue(v, Put(leaf, Root(v), z)) == y
    decreases v
  {
    match v
    case Floor(x, d) =>
      QuotientIs(d * y, d, y, 0);
      z := UnboundTaken(x, leaf, d * y);
    case _ =>
      z := y;
  }

  lemma {:induction false} OwnValueTaken(v: Var, leaf: Leaf, y: int) returns (z: int)
    requires OwnSpread(v) && OwnRange(v).value.0 <= y <= OwnRange(v).value.1
    ensures IsLeaf(Root(v)) && (Root(v) == Tid(X) ==> 0 <= z <= LAST_THREAD)
    ensures VarValue(v, Put(leaf, Root(v), z)) == y
    decreases v
  {
    match v
    case Floor(x, d) =>
      var (lo, hi) := OwnRange(x).value;
      var w := FloorTaken(lo, hi, d, y);
      z := OwnValueTaken(x, leaf, w);
    case Rem(x, d) =>
      QuotientIs(y, d, 0, y);
      if Unbound(x) {
        z := UnboundTaken(x, leaf, y);
      } else {
        z := y;
      }
  }

  /** And the range a variable has of its own just those it takes with nothing known of its root. */
  lemma OwnRangeIsTaken(v: Var, leaf: Leaf, y: int)
    requires OwnSpread(v) && 0 <= leaf(Tid(X)) <= LAST_THREAD
    ensures OwnRange(v).value.0 <= y <= OwnRange(v).value.1 <==>
      exists at: Leaf :: 0 <= at(Tid(X)) <= LAST_THREAD && VarValue(v, at) == y
  {
    hide OwnRange, VarValue, OwnSpread, VarRange;
    if OwnRange(v).value.0 <= y <= OwnRange(v).value.1 {
      var z := OwnValueTaken(v, leaf, y);
      var at := Put(leaf, Root(v), z);
      assert 0 <= at(Tid(X)) <= LAST_THREAD && VarValue(v, at) == y;
    }
    if exists at: Leaf :: 0 <= at(Tid(X)) <= LAST_THREAD && VarValue(v, at) == y {
      var at: Leaf :| 0 <= at(Tid(X)) <= LAST_THREAD && VarValue(v, at) == y;
      var free: VarBounds := (x: Var) => None;
      assert Allows(free, at);
      VarRangeHolds(v, free, at);
    }
  }

  // -- one variable, its floors and its remainders --------------------------------------

  // What the terms of one variable come to, by quotient and remainder: the coefficients of x, its floor and remainder.
  function Coefficient(terms: seq<(Var, Int64)>, v: Var): int {
    if terms == [] then 0 else (if terms[0].0 == v then terms[0].1 else 0) + Coefficient(terms[1..], v)
  }

  ghost function TermsOver(x: Var, d: Divisor, terms: seq<(Var, Int64)>, y: int): int {
    Coefficient(terms, x) * y + (Coefficient(terms, Floor(x, d)) * (y / d) + Coefficient(terms, Rem(x, d)) * (y % d))
  }

  // Only x, its floors by d and its remainders by d, each once.
  predicate OneDivisor(x: Var, d: Divisor, terms: seq<(Var, Int64)>) {
    && (forall t :: t in terms ==> (t.0 == x && Operand(x) == x) || t.0 == Floor(x, d) || t.0 == Rem(x, d))
    && (forall i, j :: 0 <= i < j < |terms| ==> terms[i].0 != terms[j].0)
  }

  // x runs over whole multiples of d, or within one.
  predicate WholeMultiples(lo: int, hi: int, d: Divisor) {
    (lo % d == 0 && hi % d == d - 1) || lo / d == hi / d
  }

  // No product and no sum on the way leaves i128.
  predicate StaysWide(c0: int, c1: int, c2: int, lo: int, hi: int, d: Divisor) {
    var a, b := c0 * d + c1, c0 + c2;
    var (r, s) := if lo / d == hi / d then (lo % d, hi % d) else (0, d - 1);
    && FitsWide(c0 * d) && FitsWide(a) && FitsWide(b)
    && FitsWide(a * (lo / d)) && FitsWide(a * (hi / d)) && FitsWide(b * r) && FitsWide(b * s)
    && FitsWide(Low(a * (lo / d), a * (hi / d)) + Low(b * r, b * s))
    && FitsWide(High(a * (lo / d), a * (hi / d)) + High(b * r, b * s))
  }

  lemma {:induction false} GroupAllIs(x: Var, d: Divisor, terms: seq<(Var, Int64)>, bound: VarBounds, g: Grouping)
    requires OneDivisor(x, d, terms) && VarRange(x, bound).Some? && (g.d.Some? ==> g.d.value == d)
    ensures GroupAll(terms, bound, g).Some?
    ensures var r := GroupAll(terms, bound, g).value;
      && r.c0 == g.c0 + Coefficient(terms, x) && r.c1 == g.c1 + Coefficient(terms, Floor(x, d))
      && r.c2 == g.c2 + Coefficient(terms, Rem(x, d))
      && r.d == if g.d.Some? || (exists t :: t in terms && t.0 != x) then Some(d) else None
  {
    hide TimesEnds, PlusRange;
    if terms != [] {
      var (v, k) := terms[0];
      var (lo, hi) := VarRange(v, bound).value;
      assert OneDivisor(x, d, terms[1..]) by {
        assert forall i :: 0 <= i < |terms| - 1 ==> terms[1..][i] == terms[i + 1];
      }
      assert x < Floor(x, d) && x < Rem(x, d);
      assert terms[0] in terms;
      GroupAllIs(x, d, terms[1..], bound, Group1(g, v, k, lo, hi));
    }
  }

  // The value at y by quotient and remainder.
  lemma OverParts(x: Var, d: Divisor, terms: seq<(Var, Int64)>, y: int)
    ensures var (c0, c1, c2) := (Coefficient(terms, x), Coefficient(terms, Floor(x, d)), Coefficient(terms, Rem(x, d)));
      TermsOver(x, d, terms, y) == (c0 * d + c1) * (y / d) + (c0 + c2) * (y % d)
  {
    hide Coefficient;
    ApartIs(Coefficient(terms, x), Coefficient(terms, Floor(x, d)), Coefficient(terms, Rem(x, d)), y, d);
  }

  // Some y between `lo` and `hi` has the quotient's end and the remainder's.
  lemma PartsTaken(lo: int, hi: int, d: Divisor, last: bool, up: bool) returns (y: int)
    requires lo <= hi && WholeMultiples(lo, hi, d)
    ensures lo <= y <= hi
    ensures y / d == if last then hi / d else lo / d
    ensures y % d == if lo / d == hi / d then (if up then hi % d else lo % d) else (if up then d - 1 else 0)
  {
    var q, r := if last then hi / d else lo / d, if up then d - 1 else 0;
    if lo / d == hi / d {
      y := if up then hi else lo;
    } else {
      FloorGrows(lo, hi, d);
      y := d * q + r;
      QuotientIs(y, d, q, r);
      assert lo == d * (lo / d) && hi == d * (hi / d) + (d - 1);
      StepUp(d, lo / d, hi / d);
    }
  }

  lemma StepUp(d: int, p: int, q: int)
    requires d > 0 && p <= q
    ensures d * p <= d * q
  {
    Distributes(d, p, q - p);
  }

  lemma JointMet(x: Var, d: Divisor, terms: seq<(Var, Int64)>, bound: VarBounds, g: Grouping) returns (u: int, v: int)
    requires VarRange(x, bound).Some? && VarRange(x, bound).value.0 <= VarRange(x, bound).value.1
    requires WholeMultiples(VarRange(x, bound).value.0, VarRange(x, bound).value.1, d)
    requires g.d == Some(d) && g.c0 == Coefficient(terms, x) && g.c1 == Coefficient(terms, Floor(x, d))
    requires g.c2 == Coefficient(terms, Rem(x, d))
    requires StaysWide(g.c0, g.c1, g.c2, VarRange(x, bound).value.0, VarRange(x, bound).value.1, d)
    ensures Joint(g, x, bound).Some?
    ensures var (lo, hi) := VarRange(x, bound).value; lo <= u <= hi && lo <= v <= hi
    ensures Joint(g, x, bound).value == (TermsOver(x, d, terms, u), TermsOver(x, d, terms, v))
  {
    hide VarRange, TermsOver, Coefficient, WholeMultiples;
    var (lo, hi) := VarRange(x, bound).value;
    var a, b := g.c0 * d + g.c1, g.c0 + g.c2;
    var (r, s) := if lo / d == hi / d then (lo % d, hi % d) else (0, d - 1);
    u := PartsTaken(lo, hi, d, a * (hi / d) < a * (lo / d), b * s < b * r);
    v := PartsTaken(lo, hi, d, a * (lo / d) < a * (hi / d), b * r < b * s);
    OverParts(x, d, terms, u);
    OverParts(x, d, terms, v);
  }

  lemma {:induction false} GroupValueIs(x: Var, d: Divisor, terms: seq<(Var, Int64)>, leaf: Leaf)
    requires OneDivisor(x, d, terms)
    ensures GroupValueOf(terms, leaf) == TermsOver(x, d, terms, VarValue(x, leaf))
  {
    hide VarValue, OneDivisor;
    if terms != [] {
      var (v, k) := terms[0];
      OneDivisorRest(x, d, terms);
      GroupValueIs(x, d, terms[1..], leaf);
      PartValue(x, d, v, leaf);
      SumTimes(k, Coefficient(terms[1..], v), VarValue(v, leaf));
    }
  }

  lemma OneDivisorRest(x: Var, d: Divisor, terms: seq<(Var, Int64)>)
    requires OneDivisor(x, d, terms) && terms != []
    ensures OneDivisor(x, d, terms[1..])
    ensures var v := terms[0].0; (v == x && Operand(x) == x) || v == Floor(x, d) || v == Rem(x, d)
    ensures x != Floor(x, d) && x != Rem(x, d)
  {
    assert x < Floor(x, d) && x < Rem(x, d);
    assert forall i :: 0 <= i < |terms| - 1 ==> terms[1..][i] == terms[i + 1];
    assert terms[0] in terms;
  }

  lemma PartValue(x: Var, d: Divisor, v: Var, leaf: Leaf)
    ensures v == Floor(x, d) ==> VarValue(v, leaf) == VarValue(x, leaf) / d
    ensures v == Rem(x, d) ==> VarValue(v, leaf) == VarValue(x, leaf) % d
  {
  }

  // The terms' coefficients and divisor as the code groups them.
  lemma GroupingIs(x: Var, d: Divisor, terms: seq<(Var, Int64)>, bound: VarBounds) returns (g: Grouping)
    requires OneDivisor(x, d, terms) && VarRange(x, bound).Some?
    ensures GroupAll(terms, bound, Grouping(Some((0, 0)), None, 0, 0, 0)) == Some(g)
    ensures g.c0 == Coefficient(terms, x) && g.c1 == Coefficient(terms, Floor(x, d))
    ensures g.c2 == Coefficient(terms, Rem(x, d))
    ensures g.d == if exists t :: t in terms && t.0 != x then Some(d) else None
    ensures GroupRange(x, terms, bound) == Some(Narrowed(g.sum, Joint(g, x, bound)))
  {
    hide VarRange, Coefficient, OneDivisor, GroupAll, Joint, Narrowed;
    var start := Grouping(Some((0, 0)), None, 0, 0, 0);
    GroupAllIs(x, d, terms, bound, start);
    g := GroupAll(terms, bound, start).value;
  }

  lemma SumHolds(x: Var, d: Divisor, terms: seq<(Var, Int64)>, bound: VarBounds, leaf: Leaf, g: Grouping)
    requires OneDivisor(x, d, terms) && Allows(bound, leaf)
    requires GroupAll(terms, bound, Grouping(Some((0, 0)), None, 0, 0, 0)) == Some(g)
    ensures Tracks(g.sum, GroupValueOf(terms, leaf))
  {
    hide VarRange, Allows, VarValue, GroupAll, GroupValueOf;
    GroupAllKnows(x, terms, bound, Grouping(Some((0, 0)), None, 0, 0, 0), leaf, 0);
  }

  // The value of the root at which the terms are at an end of their range.
  lemma EndTaken(x: Var, d: Divisor, terms: seq<(Var, Int64)>, bound: VarBounds, leaf: Leaf, most: bool) returns (z: int)
    requires OneDivisor(x, d, terms) && Spread(x, bound) && Allows(bound, leaf) && Settled(x, d, terms, bound)
    ensures GroupRange(x, terms, bound).Some? && Bounded(Root(x), z, bound)
    ensures GroupValueOf(terms, Put(leaf, Root(x), z)) ==
            if most then GroupRange(x, terms, bound).value.1 else GroupRange(x, terms, bound).value.0
  {
    hide VarRange, Allows, VarValue, GroupAll, GroupValueOf, OneDivisor, Spread, TermsOver, Coefficient, Joint, Bounded, Put;
    hide StaysWide, WholeMultiples;
    var (lo, hi) := VarRange(x, bound).value;
    var g := GroupingIs(x, d, terms, bound);
    if g.d.Some? {
      var u, v := JointMet(x, d, terms, bound, g);
      var p := ValueTaken(x, bound, leaf, u);
      var q := ValueTaken(x, bound, leaf, v);
      PutAllowed(leaf, Root(x), p, bound);
      PutAllowed(leaf, Root(x), q, bound);
      SumHolds(x, d, terms, bound, Put(leaf, Root(x), p), g);
      SumHolds(x, d, terms, bound, Put(leaf, Root(x), q), g);
      GroupValueIs(x, d, terms, Put(leaf, Root(x), p));
      GroupValueIs(x, d, terms, Put(leaf, Root(x), q));
      NarrowedToJoint(g.sum, Joint(g, x, bound));
      z := if most then q else p;
    } else {
      var y := PlainEnd(x, d, terms, bound, g, most);
      z := ValueTaken(x, bound, leaf, y);
      GroupValueIs(x, d, terms, Put(leaf, Root(x), z));
    }
  }

  // Where a floor or a remainder is among them, x runs over whole multiples or within one, and nothing leaves i128.
  predicate Settled(x: Var, d: Divisor, terms: seq<(Var, Int64)>, bound: VarBounds)
    requires VarRange(x, bound).Some?
  {
    var (lo, hi) := VarRange(x, bound).value;
    (exists t :: t in terms && t.0 != x) ==>
      && WholeMultiples(lo, hi, d)
      && StaysWide(Coefficient(terms, x), Coefficient(terms, Floor(x, d)), Coefficient(terms, Rem(x, d)), lo, hi, d)
  }

  lemma NarrowedToJoint(sum: Running, joint: Running)
    requires joint.Some? && Tracks(sum, joint.value.0) && Tracks(sum, joint.value.1)
    ensures Narrowed(sum, joint) == joint.value
  {
  }

  lemma PlainEnd(x: Var, d: Divisor, terms: seq<(Var, Int64)>, bound: VarBounds, g: Grouping, most: bool) returns (y: int)
    requires OneDivisor(x, d, terms) && VarRange(x, bound).Some? && VarRange(x, bound).value.0 <= VarRange(x, bound).value.1
    requires forall t :: t in terms ==> t.0 == x
    requires GroupAll(terms, bound, Grouping(Some((0, 0)), None, 0, 0, 0)) == Some(g) && g.d == None
    ensures VarRange(x, bound).value.0 <= y <= VarRange(x, bound).value.1
    ensures TermsOver(x, d, terms, y) ==
            if most then Narrowed(g.sum, Joint(g, x, bound)).1 else Narrowed(g.sum, Joint(g, x, bound)).0
  {
    hide VarRange, OneDivisor, GroupAll, TimesEnds;
    var (lo, hi) := VarRange(x, bound).value;
    if terms == [] {
      NoTermsOver(x, d, lo);
      NoGroup(bound);
      y := lo;
    } else {
      OneTerm(x, d, terms);
      var k := terms[0].1;
      OneTermOver(x, d, k, lo);
      OneTermOver(x, d, k, hi);
      OneGroup(x, k, bound);
      TimesEndsIs(k, lo, hi);
      y := if most == (k * lo < k * hi) then hi else lo;
    }
  }

  lemma NoTermsOver(x: Var, d: Divisor, y: int)
    ensures TermsOver(x, d, [], y) == 0
  {
  }

  lemma NoGroup(bound: VarBounds)
    ensures GroupAll([], bound, Grouping(Some((0, 0)), None, 0, 0, 0)) == Some(Grouping(Some((0, 0)), None, 0, 0, 0))
  {
  }

  lemma OneTerm(x: Var, d: Divisor, terms: seq<(Var, Int64)>)
    requires OneDivisor(x, d, terms) && terms != [] && forall t :: t in terms ==> t.0 == x
    ensures Operand(x) == x && terms == [(x, terms[0].1)]
  {
    forall i | 0 <= i < |terms| ensures terms[i].0 == x {
      assert terms[i] in terms;
    }
    assert terms[0] in terms;
    assert x < Floor(x, d) && x < Rem(x, d);
    OnePlace(x, d, terms, 0, |terms| - 1);
  }

  lemma OnePlace(x: Var, d: Divisor, terms: seq<(Var, Int64)>, i: nat, j: nat)
    requires OneDivisor(x, d, terms) && i < |terms| && j < |terms| && terms[i].0 == terms[j].0
    ensures i == j
  {
  }

  lemma OneTermOver(x: Var, d: Divisor, k: Int64, y: int)
    ensures TermsOver(x, d, [(x, k)], y) == k * y
  {
    assert x < Floor(x, d) && x < Rem(x, d);
    OneCoefficient(x, k, x);
    OneCoefficient(x, k, Floor(x, d));
    OneCoefficient(x, k, Rem(x, d));
  }

  lemma OneCoefficient(x: Var, k: Int64, v: Var)
    ensures Coefficient([(x, k)], v) == if x == v then k else 0
  {
    assert [(x, k)][1..] == [];
  }

  lemma OneGroup(x: Var, k: Int64, bound: VarBounds)
    requires Operand(x) == x && VarRange(x, bound).Some?
    ensures var (lo, hi) := VarRange(x, bound).value;
      GroupAll([(x, k)], bound, Grouping(Some((0, 0)), None, 0, 0, 0)) ==
      Some(Grouping(TimesEnds(k, lo, hi), None, k, 0, 0))
  {
    hide VarRange;
    var (lo, hi) := VarRange(x, bound).value;
    SmallProduct(k, lo, hi);
    assert [(x, k)][1..] == [];
  }

  lemma TimesEndsIs(k: Int64, lo: Int64, hi: Int64)
    ensures TimesEnds(k, lo, hi) == Some(if k * lo < k * hi then (k * lo, k * hi) else (k * hi, k * lo))
  {
    SmallProduct(k, lo, hi);
  }

  /** The range's ends are values the terms take within the bounds. */
  lemma GroupRangeMet(x: Var, d: Divisor, terms: seq<(Var, Int64)>, bound: VarBounds, leaf: Leaf)
    requires OneDivisor(x, d, terms) && Spread(x, bound) && Allows(bound, leaf) && Settled(x, d, terms, bound)
    ensures GroupRange(x, terms, bound).Some?
    ensures var (a, b) := GroupRange(x, terms, bound).value;
      && (exists at: Leaf :: Allows(bound, at) && GroupValueOf(terms, at) == a)
      && (exists at: Leaf :: Allows(bound, at) && GroupValueOf(terms, at) == b)
  {
    hide Allows, GroupRange, GroupValueOf, OneDivisor, Spread, Settled, Put, Bounded;
    var p := EndTaken(x, d, terms, bound, leaf, false);
    var q := EndTaken(x, d, terms, bound, leaf, true);
    PutAllowed(leaf, Root(x), p, bound);
    PutAllowed(leaf, Root(x), q, bound);
  }

  // -- whole forms -------------------------------------------------------------------------

  // The terms of one variable, its floors and its remainders, in order.
  function OfVar(terms: seq<(Var, SymExpr)>, x: Var): seq<(Var, Int64)> {
    if terms == [] then [] else
    var t := terms[|terms| - 1];
    OfVar(terms[..|terms| - 1], x) + if Operand(t.0) == x && t.1.Const? then [(t.0, t.1.c)] else []
  }

  // Constants times variables of roots of their own, each with its floors and remainders by one divisor.
  ghost predicate Independent(terms: seq<(Var, SymExpr)>, bound: VarBounds, divisor: Var -> Divisor) {
    && (forall t :: t in terms ==> t.1.Const? && GroupSettles(terms, bound, divisor, Operand(t.0)))
    && (forall s, t :: s in terms && t in terms && Operand(s.0) != Operand(t.0) ==> Root(s.0) != Root(t.0))
  }

  ghost predicate GroupSettles(terms: seq<(Var, SymExpr)>, bound: VarBounds, divisor: Var -> Divisor, x: Var) {
    && OneDivisor(x, divisor(x), OfVar(terms, x))
    && Spread(x, bound)
    && Settled(x, divisor(x), OfVar(terms, x), bound)
  }

  // Each variable's group holds its terms.
  ghost predicate Splits(groups: Groups, terms: seq<(Var, SymExpr)>) {
    && (forall i, j :: 0 <= i < j < |groups| ==> groups[i].0 != groups[j].0)
    && (forall i :: 0 <= i < |groups| ==> groups[i].1 == OfVar(terms, groups[i].0) && groups[i].1 != [])
    && Keyed(groups, terms)
  }

  ghost predicate Keyed(groups: Groups, terms: seq<(Var, SymExpr)>) {
    forall t :: t in terms ==> exists i :: 0 <= i < |groups| && groups[i].0 == Operand(t.0)
  }

  function KeyAt(groups: Groups, x: Var): (i: nat)
    ensures i <= |groups| && (i < |groups| ==> groups[i].0 == x)
    ensures forall j :: 0 <= j < i ==> groups[j].0 != x
  {
    if groups == [] || groups[0].0 == x then 0 else
    assert forall j :: 0 < j < |groups| ==> groups[j] == groups[1..][j - 1];
    1 + KeyAt(groups[1..], x)
  }

  lemma {:induction false} JoinedIs(groups: Groups, t: (Var, Int64))
    ensures var i := KeyAt(groups, Operand(t.0));
      Joined(groups, t) ==
        if i < |groups| then groups[i := (groups[i].0, groups[i].1 + [t])] else groups + [(Operand(t.0), [t])]
  {
    if groups != [] && groups[0].0 != Operand(t.0) {
      JoinedIs(groups[1..], t);
    }
  }

  lemma OfVarNext(terms: seq<(Var, SymExpr)>, t: (Var, SymExpr), x: Var)
    requires t.1.Const?
    ensures OfVar(terms + [t], x) == OfVar(terms, x) + if Operand(t.0) == x then [(t.0, t.1.c)] else []
  {
    assert (terms + [t])[..|terms|] == terms;
  }

  lemma {:induction false} OfNoVar(terms: seq<(Var, SymExpr)>, x: Var)
    requires forall t :: t in terms ==> Operand(t.0) != x
    ensures OfVar(terms, x) == []
  {
    if terms != [] {
      assert terms[|terms| - 1] in terms;
      OfNoVar(terms[..|terms| - 1], x);
    }
  }

  // The group of the term's variable has it at its end, a new one where there was none.
  lemma JoinedShape(groups: Groups, t: (Var, Int64))
    ensures var i, next := KeyAt(groups, Operand(t.0)), Joined(groups, t);
      && |next| == (if i < |groups| then |groups| else |groups| + 1)
      && (forall j :: 0 <= j < |groups| ==>
            next[j] == (groups[j].0, groups[j].1 + if j == i then [t] else []))
      && (i == |groups| ==> next[i] == (Operand(t.0), [t]))
  {
    hide KeyAt, Joined;
    JoinedIs(groups, t);
    assert forall j :: 0 <= j < |groups| ==> groups[j].1 + [] == groups[j].1;
  }

  lemma KeyedNext(groups: Groups, terms: seq<(Var, SymExpr)>, t: (Var, SymExpr), next: Groups)
    requires Keyed(groups, terms) && |groups| <= |next|
    requires forall j :: 0 <= j < |groups| ==> next[j].0 == groups[j].0
    requires exists i :: 0 <= i < |next| && next[i].0 == Operand(t.0)
    ensures Keyed(next, terms + [t])
  {
    hide Operand;
    forall s | s in terms + [t] ensures exists i :: 0 <= i < |next| && next[i].0 == Operand(s.0) {
      if s in terms {
        var i :| 0 <= i < |groups| && groups[i].0 == Operand(s.0);
        assert next[i].0 == Operand(s.0);
      }
    }
  }

  lemma SplitsNext(groups: Groups, terms: seq<(Var, SymExpr)>, t: (Var, SymExpr))
    requires Splits(groups, terms) && t.1.Const?
    ensures Splits(Joined(groups, (t.0, t.1.c)), terms + [t])
  {
    hide OfVar, Operand, Joined, KeyAt, Keyed;
    var x, i := Operand(t.0), KeyAt(groups, Operand(t.0));
    var next := Joined(groups, (t.0, t.1.c));
    JoinedShape(groups, (t.0, t.1.c));
    KeyedNext(groups, terms, t, next);
    if i == |groups| {
      OfNoVar(terms, x) by {
        KeyedOf(groups, terms, x);
      }
    }
    forall j | 0 <= j < |next| ensures next[j].1 == OfVar(terms + [t], next[j].0) && next[j].1 != [] {
      OfVarNext(terms, t, next[j].0);
      if j < |groups| {
        assert j == i <==> groups[j].0 == x;
        assert groups[j].1 + [] == groups[j].1;
      } else {
        assert [] + [(t.0, t.1.c)] == [(t.0, t.1.c)];
      }
    }
  }

  lemma KeyedOf(groups: Groups, terms: seq<(Var, SymExpr)>, x: Var)
    requires Keyed(groups, terms) && forall i :: 0 <= i < |groups| ==> groups[i].0 != x
    ensures forall t :: t in terms ==> Operand(t.0) != x
  {
  }

  // What the code groups the terms into.
  lemma {:induction false} TermRangesAre(terms: seq<(Var, SymExpr)>, n: nat, bound: VarBounds, sym: Bounds, r: Running,
                                         groups: Groups) returns (all: Groups)
    requires n <= |terms| && Splits(groups, terms[..n]) && forall t :: t in terms ==> t.1.Const?
    ensures TermRanges(terms[n..], bound, sym, r, groups) == Some((r, all)) && Splits(all, terms)
    decreases |terms| - n
  {
    hide Splits, Joined;
    all := groups;
    if n < |terms| {
      var t := terms[n];
      assert terms[..n + 1] == terms[..n] + [t];
      assert terms[n..][0] == t && terms[n..][1..] == terms[n + 1..];
      SplitsNext(groups, terms[..n], t);
      all := TermRangesAre(terms, n + 1, bound, sym, r, Joined(groups, (t.0, t.1.c)));
    } else {
      assert terms[..n] == terms;
    }
  }

  ghost predicate Loose(groups: Groups, bound: VarBounds, divisor: Var -> Divisor) {
    && (forall i :: 0 <= i < |groups| ==> LooseOne(groups[i].0, groups[i].1, bound, divisor))
    && (forall i, j :: 0 <= i < j < |groups| ==> Root(groups[i].0) != Root(groups[j].0))
  }

  ghost predicate LooseOne(x: Var, terms: seq<(Var, Int64)>, bound: VarBounds, divisor: Var -> Divisor) {
    OneDivisor(x, divisor(x), terms) && Spread(x, bound) && Settled(x, divisor(x), terms, bound)
  }

  lemma {:induction false} ValueApart(v: Var, leaf: Leaf, x: Var, z: int)
    requires Root(v) != x && IsLeaf(Root(v))
    ensures VarValue(v, Put(leaf, x, z)) == VarValue(v, leaf)
    decreases v
  {
    match v
    case Floor(y, _) => ValueApart(y, leaf, x, z);
    case Rem(y, _) => ValueApart(y, leaf, x, z);
    case _ =>
  }

  lemma {:induction false} SpreadRoot(v: Var, bound: VarBounds)
    requires Spread(v, bound)
    ensures IsLeaf(Root(v))
    decreases v
  {
    match v
    case Floor(y, _) => SpreadRoot(y, bound);
    case Rem(y, _) => SpreadRoot(y, bound);
    case _ =>
  }

  lemma {:induction false} TermsApart(y: Var, d: Divisor, terms: seq<(Var, Int64)>, leaf: Leaf, x: Var, z: int)
    requires OneDivisor(y, d, terms) && Root(y) != x && IsLeaf(Root(y))
    ensures GroupValueOf(terms, Put(leaf, x, z)) == GroupValueOf(terms, leaf)
  {
    hide VarValue, Put;
    GroupValueIs(y, d, terms, leaf);
    GroupValueIs(y, d, terms, Put(leaf, x, z));
    ValueApart(y, leaf, x, z);
  }

  lemma {:induction false} GroupsApart(groups: Groups, bound: VarBounds, divisor: Var -> Divisor, leaf: Leaf, x: Var, z: int)
    requires Loose(groups, bound, divisor) && forall i :: 0 <= i < |groups| ==> Root(groups[i].0) != x
    ensures GroupsValue(groups, Put(leaf, x, z)) == GroupsValue(groups, leaf)
  {
    hide VarValue, Put, OneDivisor, Settled, Spread, GroupValueOf, Root;
    if groups != [] {
      var (y, terms) := groups[0];
      SpreadRoot(y, bound);
      TermsApart(y, divisor(y), terms, leaf, x, z);
      LooseRest(groups, bound, divisor);
      GroupsApart(groups[1..], bound, divisor, leaf, x, z);
    }
  }

  lemma LooseRest(groups: Groups, bound: VarBounds, divisor: Var -> Divisor)
    requires Loose(groups, bound, divisor) && groups != []
    ensures Loose(groups[1..], bound, divisor)
    ensures forall i :: 0 <= i < |groups| - 1 ==> Root(groups[1..][i].0) != Root(groups[0].0)
  {
    hide LooseOne, Root;
    assert forall i :: 0 <= i < |groups| - 1 ==> groups[1..][i] == groups[i + 1];
  }

  function EndOf(r: (Int128, Int128), most: bool): int {
    if most then r.1 else r.0
  }

  // A valuation at which every group is at its end.
  lemma {:induction false} GroupsTaken(groups: Groups, bound: VarBounds, divisor: Var -> Divisor, r: Running, leaf: Leaf,
                                       most: bool) returns (at: Leaf)
    requires Loose(groups, bound, divisor) && Allows(bound, leaf)
    ensures Allows(bound, at)
    ensures GroupRanges(groups, bound, r).Some?
    ensures GroupRanges(groups, bound, r).value.Some? ==>
      r.Some? &&
      EndOf(GroupRanges(groups, bound, r).value.value, most) == EndOf(r.value, most) + GroupsValue(groups, at)
  {
    hide VarValue, Put, OneDivisor, Settled, Spread, GroupValueOf, Root, Allows, GroupRange, Bounded, FitsWide;
    at := leaf;
    if groups != [] {
      var (x, terms) := groups[0];
      LooseRest(groups, bound, divisor);
      assert LooseOne(x, terms, bound, divisor);
      var z := EndTaken(x, divisor(x), terms, bound, leaf, most);
      var (a, b) := GroupRange(x, terms, bound).value;
      var rest := GroupsTaken(groups[1..], bound, divisor, PlusRange(r, a, b), leaf, most);
      z := EndTaken(x, divisor(x), terms, bound, rest, most);
      at := Put(rest, Root(x), z);
      PutAllowed(rest, Root(x), z, bound);
      GroupsApart(groups[1..], bound, divisor, rest, Root(x), z);
    }
  }

  lemma {:induction false} GroupsAre(terms: seq<(Var, SymExpr)>, n: nat, bound: VarBounds, sym: Bounds, r: Running,
                                     groups: Groups, leaf: Leaf, env: Env)
    requires n <= |terms| && Grouped(groups) && forall t :: t in terms ==> t.1.Const?
    requires TermRanges(terms[n..], bound, sym, r, groups).Some?
    ensures GroupsValue(TermRanges(terms[n..], bound, sym, r, groups).value.1, leaf) ==
            GroupsValue(groups, leaf) + TermsValue(terms[n..], leaf, env)
    decreases |terms| - n
  {
    hide VarValue, Value, Joined, GroupsValue, Grouped;
    if n < |terms| {
      var t := terms[n];
      assert terms[n..][0] == t && terms[n..][1..] == terms[n + 1..];
      JoinedValue(groups, (t.0, t.1.c), leaf);
      ConstValue(t.1.c, env);
      GroupsAre(terms, n + 1, bound, sym, r, Joined(groups, (t.0, t.1.c)), leaf, env);
    }
  }

  // The groups the code makes of such terms.
  lemma FormGroups(terms: seq<(Var, SymExpr)>, bound: VarBounds, divisor: Var -> Divisor, sym: Bounds, r: Running)
    returns (groups: Groups)
    requires Independent(terms, bound, divisor)
    ensures TermRanges(terms, bound, sym, r, []) == Some((r, groups)) && Loose(groups, bound, divisor)
    ensures forall leaf, env :: GroupsValue(groups, leaf) == TermsValue(terms, leaf, env)
  {
    hide VarValue, Value, OneDivisor, Settled, Spread, Root, OfVar, TermRanges, TermsValue, Operand;
    var none: Groups := [];
    NoSplits(terms);
    assert terms[..0] == [] && terms[0..] == terms;
    groups := TermRangesAre(terms, 0, bound, sym, r, none);
    forall i | 0 <= i < |groups| ensures LooseOne(groups[i].0, groups[i].1, bound, divisor) {
      var t := TermOf(terms, groups[i].0);
      assert GroupSettles(terms, bound, divisor, Operand(t.0));
    }
    forall i, j | 0 <= i < j < |groups| ensures Root(groups[i].0) != Root(groups[j].0) {
      var s := TermOf(terms, groups[i].0);
      var t := TermOf(terms, groups[j].0);
      RootOfOperand(s.0);
      RootOfOperand(t.0);
    }
    forall leaf, env ensures GroupsValue(groups, leaf) == TermsValue(terms, leaf, env) {
      AffineRanges.NoGroups(leaf);
      GroupsAre(terms, 0, bound, sym, r, none, leaf, env);
    }
  }

  lemma NoSplits(terms: seq<(Var, SymExpr)>)
    ensures Splits([], [])
  {
  }

  lemma {:induction false} TermOf(terms: seq<(Var, SymExpr)>, x: Var) returns (t: (Var, SymExpr))
    requires OfVar(terms, x) != []
    ensures t in terms && Operand(t.0) == x
  {
    hide Operand;
    t := terms[|terms| - 1];
    if Operand(t.0) != x || !t.1.Const? {
      t := TermOf(terms[..|terms| - 1], x);
    }
  }

  lemma RootOfOperand(v: Var)
    ensures Root(Operand(v)) == Root(v)
  {
  }

  /** The ends of a form's range are values of it within the bounds, unless a partial sum left i128. */
  lemma FormRangeMet(a: AffineExpr, bound: VarBounds, divisor: Var -> Divisor, sym: Bounds, leaf: Leaf, env: Env)
    requires a.base.Const? && Independent(a.terms, bound, divisor) && Allows(bound, leaf)
    ensures FormRange(a, bound, sym).Some?
    ensures var r := FormRange(a, bound, sym).value;
      r == WHOLE ||
      ((exists at: Leaf :: Allows(bound, at) && FormValue(a, at, env) == r.0) &&
       (exists at: Leaf :: Allows(bound, at) && FormValue(a, at, env) == r.1))
  {
    hide Independent, Loose, Allows, TermRanges, GroupRanges, GroupsValue, TermsValue, Value;
    ConstValue(a.base.c, env);
    ConstSpan(a.base.c, sym);
    var start: Running := Some((a.base.c, a.base.c));
    var groups := FormGroups(a.terms, bound, divisor, sym, start);
    var p := GroupsTaken(groups, bound, divisor, start, leaf, false);
    var q := GroupsTaken(groups, bound, divisor, start, leaf, true);
    var r := FormRange(a, bound, sym).value;
    if r != WHOLE {
      assert FormValue(a, p, env) == r.0;
      assert FormValue(a, q, env) == r.1;
    }
  }

  lemma ConstSpan(c: Int64, sym: Bounds)
    ensures Span(Const(c), sym) == Range(c, c)
  {
  }

  // -- where nothing leaves i128 --------------------------------------------------------

  function Size(x: int): nat {
    if x < 0 then -x else x
  }

  function GroupSize(terms: seq<(Var, Int64)>): nat {
    if terms == [] then 0 else Size(terms[0].1) + GroupSize(terms[1..])
  }

  // The sum of the coefficients' sizes.
  function Sizes(terms: seq<(Var, SymExpr)>): nat {
    if terms == [] then 0 else (if terms[0].1.Const? then Size(terms[0].1.c) else 0) + Sizes(terms[1..])
  }

  const SMALL := 0x1000_0000_0000_0000

  lemma SizeTimes(x: int, y: int, m: nat, n: nat)
    requires Size(x) <= m && Size(y) <= n
    ensures Size(x * y) <= m * n
  {
    assert Size(x * y) == Size(x) * Size(y) by {
      if x < 0 && y >= 0 {
        assert (-x) * y == -(x * y);
      } else if x >= 0 && y < 0 {
        assert x * (-y) == -(x * y);
      } else if x < 0 && y < 0 {
        assert (-x) * (-y) == x * y;
      }
    }
    Distributes(Size(x), Size(y), n - Size(y));
    assert Size(x) * (n - Size(y)) >= 0;
    SumTimes(Size(x), m - Size(x), n);
    assert (m - Size(x)) * n >= 0;
  }

  // What a quotient's part comes to where the coefficients are small.
  lemma QuotientPartSmall(c0: int, c1: int, y: Int64, d: Divisor)
    requires Size(c0) <= SMALL && Size(c1) <= SMALL
    ensures Size((c0 * d + c1) * (y / d)) <= 0x3000_0000_0000_0000_0000_0000_0000_0000 / 2
  {
    var q := y / d;
    FloorFits(y, d);
    assert y == d * q + y % d;
    assert Size(d * q) <= 0x1_0000_0000_0000_0000;
    SizeTimes(c0, d * q, SMALL, 0x1_0000_0000_0000_0000);
    SizeTimes(c1, q, SMALL, 0x8000_0000_0000_0000);
    SumTimes(c0 * d, c1, q);
    Associates(c0, d, q);
  }

  lemma SmallStaysWide(c0: int, c1: int, c2: int, lo: Int64, hi: Int64, d: Divisor)
    requires Size(c0) + Size(c1) + Size(c2) <= SMALL
    ensures StaysWide(c0, c1, c2, lo, hi, d)
  {
    var a, b := c0 * d + c1, c0 + c2;
    var (r, s) := if lo / d == hi / d then (lo % d, hi % d) else (0, d - 1);
    SizeTimes(c0, d, SMALL, 0x8000_0000_0000_0000);
    QuotientPartSmall(c0, c1, lo, d);
    QuotientPartSmall(c0, c1, hi, d);
    SizeTimes(b, r, SMALL, 0x8000_0000_0000_0000);
    SizeTimes(b, s, SMALL, 0x8000_0000_0000_0000);
  }

  lemma {:induction false} CoefficientsSmall(terms: seq<(Var, Int64)>, x: Var, d: Divisor)
    ensures Size(Coefficient(terms, x)) + Size(Coefficient(terms, Floor(x, d))) + Size(Coefficient(terms, Rem(x, d))) <=
            GroupSize(terms)
  {
    hide Size;
    assert Size(0) == 0 by { ZeroSize(); }
    if terms != [] {
      assert x < Floor(x, d) && x < Rem(x, d);
      CoefficientsSmall(terms[1..], x, d);
      var (v, k) := terms[0];
      var c0, c1, c2 := Coefficient(terms[1..], x), Coefficient(terms[1..], Floor(x, d)), Coefficient(terms[1..], Rem(x, d));
      SizeSums(c0, k);
      SizeSums(c1, k);
      SizeSums(c2, k);
    }
  }

  lemma ZeroSize()
    ensures Size(0) == 0
  {
  }

  lemma SizeSums(x: int, y: int)
    ensures Size(y + x) <= Size(y) + Size(x)
  {
  }

  lemma {:induction false} GroupSizeAppend(terms: seq<(Var, Int64)>, t: (Var, Int64))
    ensures GroupSize(terms + [t]) == GroupSize(terms) + Size(t.1)
  {
    if terms == [] {
      assert [] + [t] == [t] && [t][1..] == [];
    } else {
      assert (terms + [t])[1..] == terms[1..] + [t];
      GroupSizeAppend(terms[1..], t);
    }
  }

  lemma {:induction false} SizesAppend(terms: seq<(Var, SymExpr)>, t: (Var, SymExpr))
    ensures Sizes(terms + [t]) == Sizes(terms) + if t.1.Const? then Size(t.1.c) else 0
  {
    if terms == [] {
      assert [] + [t] == [t] && [t][1..] == [];
    } else {
      assert (terms + [t])[1..] == terms[1..] + [t];
      SizesAppend(terms[1..], t);
    }
  }

  lemma {:induction false} OfVarSmall(terms: seq<(Var, SymExpr)>, x: Var)
    ensures GroupSize(OfVar(terms, x)) <= Sizes(terms)
  {
    if terms != [] {
      var n := |terms| - 1;
      var t := terms[n];
      assert terms == terms[..n] + [t];
      OfVarSmall(terms[..n], x);
      SizesAppend(terms[..n], t);
      if Operand(t.0) == x && t.1.Const? {
        GroupSizeAppend(OfVar(terms[..n], x), (t.0, t.1.c));
      } else {
        assert OfVar(terms, x) == OfVar(terms[..n], x);
      }
    }
  }

  // The same with only the ranges asked to be whole multiples or within one.
  ghost predicate Alone(terms: seq<(Var, SymExpr)>, bound: VarBounds, divisor: Var -> Divisor) {
    && (forall t :: t in terms ==> t.1.Const? && GroupIsWhole(terms, bound, divisor, Operand(t.0)))
    && (forall s, t :: s in terms && t in terms && Operand(s.0) != Operand(t.0) ==> Root(s.0) != Root(t.0))
  }

  ghost predicate GroupIsWhole(terms: seq<(Var, SymExpr)>, bound: VarBounds, divisor: Var -> Divisor, x: Var) {
    && OneDivisor(x, divisor(x), OfVar(terms, x))
    && Spread(x, bound)
    && ((exists t :: t in OfVar(terms, x) && t.0 != x) ==>
          WholeMultiples(VarRange(x, bound).value.0, VarRange(x, bound).value.1, divisor(x)))
  }

  lemma SmallIsSettled(terms: seq<(Var, SymExpr)>, bound: VarBounds, divisor: Var -> Divisor, x: Var)
    requires GroupIsWhole(terms, bound, divisor, x) && Sizes(terms) <= SMALL
    ensures GroupSettles(terms, bound, divisor, x)
  {
    hide OneDivisor, Spread, WholeMultiples, StaysWide, Coefficient, OfVar, VarRange;
    var own, d := OfVar(terms, x), divisor(x);
    OfVarSmall(terms, x);
    CoefficientsSmall(own, x, d);
    SmallStaysWide(Coefficient(own, x), Coefficient(own, Floor(x, d)), Coefficient(own, Rem(x, d)),
                   VarRange(x, bound).value.0, VarRange(x, bound).value.1, d);
  }

  lemma SmallIsIndependent(terms: seq<(Var, SymExpr)>, bound: VarBounds, divisor: Var -> Divisor)
    requires Alone(terms, bound, divisor) && Sizes(terms) <= SMALL
    ensures Independent(terms, bound, divisor)
  {
    hide GroupIsWhole, GroupSettles, Operand, Root;
    forall t | t in terms ensures GroupSettles(terms, bound, divisor, Operand(t.0)) {
      SmallIsSettled(terms, bound, divisor, Operand(t.0));
    }
  }

  function GroupsSize(groups: Groups): nat {
    if groups == [] then 0 else GroupSize(groups[0].1) + GroupsSize(groups[1..])
  }

  lemma {:induction false} JoinedSize(groups: Groups, t: (Var, Int64))
    ensures GroupsSize(Joined(groups, t)) == GroupsSize(groups) + Size(t.1)
  {
    hide Operand;
    if groups == [] {
      GroupSizeAppend([], t);
      assert [] + [t] == [t];
      assert [(Operand(t.0), [t])][1..] == [];
    } else if groups[0].0 == Operand(t.0) {
      GroupSizeAppend(groups[0].1, t);
      assert Joined(groups, t)[1..] == groups[1..];
    } else {
      JoinedSize(groups[1..], t);
      assert Joined(groups, t)[1..] == Joined(groups[1..], t);
    }
  }

  lemma {:induction false} GroupsSizeIs(terms: seq<(Var, SymExpr)>, bound: VarBounds, sym: Bounds, r: Running,
                                        groups: Groups)
    requires (forall t :: t in terms ==> t.1.Const?) && TermRanges(terms, bound, sym, r, groups).Some?
    ensures GroupsSize(TermRanges(terms, bound, sym, r, groups).value.1) == GroupsSize(groups) + Sizes(terms)
    decreases terms
  {
    hide Joined, GroupsSize;
    if terms != [] {
      var t := terms[0];
      JoinedSize(groups, (t.0, t.1.c));
      GroupsSizeIs(terms[1..], bound, sym, r, Joined(groups, (t.0, t.1.c)));
    }
  }

  lemma {:induction false} GroupValueSmall(x: Var, d: Divisor, terms: seq<(Var, Int64)>, bound: VarBounds, at: Leaf)
    requires OneDivisor(x, d, terms) && VarRange(x, bound).Some? && Allows(bound, at)
    ensures Size(GroupValueOf(terms, at)) <= GroupSize(terms) * 0x8000_0000_0000_0000
  {
    hide Allows, VarValue, OneDivisor, VarRange, OwnRange;
    if terms != [] {
      var (v, k) := terms[0];
      OneDivisorRest(x, d, terms);
      PartRange(x, d, v, bound);
      VarRangeHolds(v, bound, at);
      SizeTimes(k, VarValue(v, at), Size(k), 0x8000_0000_0000_0000);
      GroupValueSmall(x, d, terms[1..], bound, at);
    }
  }

  lemma PartRange(x: Var, d: Divisor, v: Var, bound: VarBounds)
    requires VarRange(x, bound).Some? && (v == x || v == Floor(x, d) || v == Rem(x, d))
    ensures VarRange(v, bound).Some?
  {
  }

  // The ranges summed stay within the coefficients' sizes times 2^63.
  lemma {:induction false} GroupRangesSmall(groups: Groups, bound: VarBounds, divisor: Var -> Divisor, r: Running,
                                            leaf: Leaf, m: nat)
    requires Loose(groups, bound, divisor) && Allows(bound, leaf)
    requires r.Some? && Size(r.value.0) <= m && Size(r.value.1) <= m
    requires m + GroupsSize(groups) * 0x8000_0000_0000_0000 <= 0x4000_0000_0000_0000_0000_0000_0000_0000
    ensures GroupRanges(groups, bound, r).Some? && GroupRanges(groups, bound, r).value.Some?
    ensures GroupRanges(groups, bound, r).value.value != WHOLE
  {
    hide Allows, OneDivisor, Settled, Spread, GroupRange, GroupValueOf, Root, Put, Bounded;
    if groups != [] {
      var (x, terms) := groups[0];
      LooseRest(groups, bound, divisor);
      assert LooseOne(x, terms, bound, divisor);
      var n := GroupSize(terms) * 0x8000_0000_0000_0000;
      EndSmall(x, divisor(x), terms, bound, leaf, false);
      EndSmall(x, divisor(x), terms, bound, leaf, true);
      var (a, b) := GroupRange(x, terms, bound).value;
      GroupRangesSmall(groups[1..], bound, divisor, PlusRange(r, a, b), leaf, m + n);
    }
  }

  lemma EndSmall(x: Var, d: Divisor, terms: seq<(Var, Int64)>, bound: VarBounds, leaf: Leaf, most: bool)
    requires OneDivisor(x, d, terms) && Spread(x, bound) && Allows(bound, leaf) && Settled(x, d, terms, bound)
    ensures GroupRange(x, terms, bound).Some?
    ensures Size(if most then GroupRange(x, terms, bound).value.1 else GroupRange(x, terms, bound).value.0) <=
            GroupSize(terms) * 0x8000_0000_0000_0000
  {
    hide Allows, OneDivisor, Settled, Spread, GroupRange, GroupValueOf, Root, Put, Bounded;
    var z := EndTaken(x, d, terms, bound, leaf, most);
    PutAllowed(leaf, Root(x), z, bound);
    GroupValueSmall(x, d, terms, bound, Put(leaf, Root(x), z));
  }

  /** With coefficients of at most 2^60 in all nothing leaves i128, and both ends are values within the bounds. */
  lemma SmallFormRangeMet(a: AffineExpr, bound: VarBounds, divisor: Var -> Divisor, sym: Bounds, leaf: Leaf, env: Env)
    requires a.base.Const? && Alone(a.terms, bound, divisor) && Sizes(a.terms) <= SMALL && Allows(bound, leaf)
    ensures FormRange(a, bound, sym).Some?
    ensures var r := FormRange(a, bound, sym).value;
      && (exists at: Leaf :: Allows(bound, at) && FormValue(a, at, env) == r.0)
      && (exists at: Leaf :: Allows(bound, at) && FormValue(a, at, env) == r.1)
  {
    hide Independent, Alone, Loose, Allows, TermRanges, GroupRanges, GroupsValue, TermsValue, Value, FormRange, Sizes;
    SmallIsIndependent(a.terms, bound, divisor);
    FormRangeMet(a, bound, divisor, sym, leaf, env);
    NotWhole(a, bound, divisor, sym, leaf);
  }

  lemma NotWhole(a: AffineExpr, bound: VarBounds, divisor: Var -> Divisor, sym: Bounds, leaf: Leaf)
    requires a.base.Const? && Independent(a.terms, bound, divisor) && Sizes(a.terms) <= SMALL && Allows(bound, leaf)
    ensures FormRange(a, bound, sym).Some? && FormRange(a, bound, sym).value != WHOLE
  {
    hide Loose, Allows, TermRanges, GroupRanges, Sizes, GroupsSize, GroupSettles, Root, Operand;
    ConstSpan(a.base.c, sym);
    var start: Running := Some((a.base.c, a.base.c));
    var groups := FormGroups(a.terms, bound, divisor, sym, start);
    GroupsSizeIs(a.terms, bound, sym, start, []);
    assert GroupsSize([]) == 0 by {
      NoSize();
    }
    GroupRangesSmall(groups, bound, divisor, start, leaf, 0x8000_0000_0000_0000);
  }

  lemma NoSize()
    ensures GroupsSize([]) == 0
  {
  }
}
