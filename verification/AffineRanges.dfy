/** The least and greatest value of a form over the bounds of its variables. */
module AffineRanges {
  import opened Wrappers
  import opened Divisions
  import opened SymExprs
  import opened SymExprValues
  import opened Spans
  import opened AffineExprs
  import opened AffineDivision

  // A range, none where a partial sum left i128.
  type Running = Option<(Int128, Int128)>

  const WHOLE: (Int128, Int128) := (WIDE_MIN, WIDE_MAX)

  // A value lies in a range, or the range is the whole line.
  ghost predicate Covers(r: (Int128, Int128), x: int) {
    r.0 <= x <= r.1 || r == WHOLE
  }

  ghost predicate Tracks(r: Running, x: int) {
    r.Some? ==> Covers(r.value, x)
  }

  function PlusRange(r: Running, lo: int, hi: int): Running {
    match r
    case None => None
    case Some((a, b)) => if FitsWide(a + lo) && FitsWide(b + hi) then Some((a + lo, b + hi)) else None
  }

  // The range of `c·x` for x between the ends, where it fits.
  function TimesEnds(c: int, lo: int, hi: int): Running {
    if FitsWide(c * lo) && FitsWide(c * hi) then
      Some(if c * lo < c * hi then (c * lo, c * hi) else (c * hi, c * lo))
    else None
  }

  lemma TimesEndsHolds(c: int, lo: int, x: int, hi: int)
    requires lo <= x <= hi
    ensures TimesEnds(c, lo, hi).Some? ==> TimesEnds(c, lo, hi).value.0 <= c * x <= TimesEnds(c, lo, hi).value.1
  {
    Between(c, lo, x, hi);
  }

  lemma SmallProduct(c: Int64, lo: Int64, hi: Int64)
    ensures TimesEnds(c, lo, hi).Some?
  {
    Corners(c, MIN, MAX, lo, MIN, MAX);
    Corners(c, MIN, MAX, hi, MIN, MAX);
  }

  lemma PlusRangeTracks(r: Running, x: int, lo: int, hi: int, y: int)
    requires Tracks(r, x) && lo <= y <= hi
    ensures Tracks(PlusRange(r, lo, hi), x + y)
  {
  }

  // Adding a range that may itself be the whole line.
  lemma PlusCovered(r: Running, x: int, s: (Int128, Int128), y: int)
    requires Tracks(r, x) && Covers(s, y)
    ensures Tracks(PlusRange(r, s.0, s.1), x + y)
  {
  }

  // Terms in one variable, its floors and its remainders

  function Operand(v: Var): Var {
    match v
    case Floor(x, _) => x
    case Rem(x, _) => x
    case _ => v
  }

  // The terms' ranges summed, their one divisor (0 for several), and the coefficients of x, its floors and remainders.
  datatype Grouping = Grouping(sum: Running, d: Option<nat>, c0: int, c1: int, c2: int)

  function SameDivisor(d: Option<nat>, e: nat): Option<nat> {
    if d.None? || d.value == e then Some(e) else Some(0)
  }

  function Group1(g: Grouping, v: Var, k: Int64, lo: Int64, hi: Int64): Grouping {
    SmallProduct(k, lo, hi);
    var (a, b) := TimesEnds(k, lo, hi).value;
    var sum := PlusRange(g.sum, a, b);
    match v
    case Floor(_, e) => Grouping(sum, SameDivisor(g.d, e), g.c0, g.c1 + k, g.c2)
    case Rem(_, e) => Grouping(sum, SameDivisor(g.d, e), g.c0, g.c1, g.c2 + k)
    case _ => Grouping(sum, g.d, g.c0 + k, g.c1, g.c2)
  }

  function GroupAll(terms: seq<(Var, Int64)>, bound: VarBounds, g: Grouping): Option<Grouping> {
    if terms == [] then Some(g) else
    match VarRange(terms[0].0, bound)
    case None => None
    case Some((lo, hi)) => GroupAll(terms[1..], bound, Group1(g, terms[0].0, terms[0].1, lo, hi))
  }

  // Bounds on a variable's three terms together: with x = d·q + r they come to `(c0·d + c1)·q + (c0 + c2)·r`, and q
  // and r range on their own.
  function Joint(g: Grouping, x: Var, bound: VarBounds): Running {
    if g.d.None? || g.d.value == 0 then None else
    match VarRange(x, bound)
    case None => None
    case Some((lo, hi)) =>
      var floors, rems := FloorPart(g, lo, hi), RemPart(g, lo, hi);
      if floors.None? || rems.None? then None else PlusRange(floors, rems.value.0, rems.value.1)
  }

  function FloorPart(g: Grouping, lo: int, hi: int): Running
    requires g.d.Some? && g.d.value > 0
  {
    var d := g.d.value;
    if FitsWide(g.c0 * d) && FitsWide(g.c0 * d + g.c1) then TimesEnds(g.c0 * d + g.c1, lo / d, hi / d) else None
  }

  function RemPart(g: Grouping, lo: int, hi: int): Running
    requires g.d.Some? && g.d.value > 0
  {
    var d := g.d.value;
    if !FitsWide(g.c0 + g.c2) then None
    else if lo / d == hi / d then TimesEnds(g.c0 + g.c2, lo % d, hi % d)
    else TimesEnds(g.c0 + g.c2, 0, d - 1)
  }

  function Narrowed(sum: Running, joint: Running): (Int128, Int128) {
    var (a, b) := if sum.Some? then sum.value else WHOLE;
    if joint.None? then (a, b)
    else (if a < joint.value.0 then joint.value.0 else a, if joint.value.1 < b then joint.value.1 else b)
  }

  /** The range of the terms in `x`, its floors and its remainders, no wider than over its quotient and remainder. */
  function GroupRange(x: Var, terms: seq<(Var, Int64)>, bound: VarBounds): Option<(Int128, Int128)> {
    match GroupAll(terms, bound, Grouping(Some((0, 0)), None, 0, 0, 0))
    case None => None
    case Some(g) => Some(Narrowed(g.sum, Joint(g, x, bound)))
  }

  function GroupValueOf(terms: seq<(Var, Int64)>, leaf: Leaf): int {
    if terms == [] then 0 else terms[0].1 * VarValue(terms[0].0, leaf) + GroupValueOf(terms[1..], leaf)
  }

  // What a grouping knows of the value `s` of the terms seen, at value `x` of their variable.
  ghost predicate Knows(g: Grouping, x: int, s: int) {
    Tracks(g.sum, s) && KnowsForm(g.d, g.c0, g.c1, g.c2, x, s)
  }

  ghost predicate KnowsForm(d: Option<nat>, c0: int, c1: int, c2: int, x: int, s: int) {
    && (d.None? ==> s == c0 * x && c1 == 0 && c2 == 0)
    && (d.Some? && d.value > 0 ==> s == c0 * x + (c1 * (x / d.value) + c2 * (x % d.value)))
  }

  lemma FormNext(d: Option<nat>, c0: int, c1: int, c2: int, x: int, s: int, k: int, e: nat)
    requires KnowsForm(d, c0, c1, c2, x, s) && e > 0
    ensures KnowsForm(SameDivisor(d, e), c0, c1 + k, c2, x, s + k * (x / e))
    ensures KnowsForm(SameDivisor(d, e), c0, c1, c2 + k, x, s + k * (x % e))
    ensures KnowsForm(d, c0 + k, c1, c2, x, s + k * x)
  {
    SumTimes(c0, k, x);
    SumTimes(c1, k, x / e);
    SumTimes(c2, k, x % e);
  }

  lemma KnowsNext(g: Grouping, v: Var, k: Int64, lo: Int64, hi: Int64, leaf: Leaf, s: int)
    requires Knows(g, VarValue(Operand(v), leaf), s) && lo <= VarValue(v, leaf) <= hi
    ensures Knows(Group1(g, v, k, lo, hi), VarValue(Operand(v), leaf), s + k * VarValue(v, leaf))
  {
    hide KnowsForm, Tracks, TimesEnds, PlusRange, SameDivisor;
    var x, y := VarValue(Operand(v), leaf), VarValue(v, leaf);
    SmallProduct(k, lo, hi);
    TimesEndsHolds(k, lo, y, hi);
    var (a, b) := TimesEnds(k, lo, hi).value;
    PlusRangeTracks(g.sum, s, a, b, k * y);
    match v
    case Floor(_, e) => FormNext(g.d, g.c0, g.c1, g.c2, x, s, k, e);
    case Rem(_, e) => FormNext(g.d, g.c0, g.c1, g.c2, x, s, k, e);
    case _ => FormNext(g.d, g.c0, g.c1, g.c2, x, s, k, 1);
  }

  lemma {:induction false} GroupAllKnows(x: Var, terms: seq<(Var, Int64)>, bound: VarBounds, g: Grouping, leaf: Leaf,
                                         s: int)
    requires Allows(bound, leaf) && Knows(g, VarValue(x, leaf), s) && GroupAll(terms, bound, g).Some?
    requires forall t :: t in terms ==> Operand(t.0) == x
    ensures Knows(GroupAll(terms, bound, g).value, VarValue(x, leaf), s + GroupValueOf(terms, leaf))
  {
    hide Knows, Allows, VarRange, VarValue, Group1;
    if terms != [] {
      var (v, k) := terms[0];
      assert Operand(v) == x;
      VarRangeHolds(v, bound, leaf);
      var (lo, hi) := VarRange(v, bound).value;
      KnowsNext(g, v, k, lo, hi, leaf, s);
      GroupAllKnows(x, terms[1..], bound, Group1(g, v, k, lo, hi), leaf, s + k * VarValue(v, leaf));
    }
  }

  lemma JointHolds(g: Grouping, x: Var, bound: VarBounds, leaf: Leaf, s: int)
    requires Allows(bound, leaf) && Knows(g, VarValue(x, leaf), s) && Joint(g, x, bound).Some?
    ensures Joint(g, x, bound).value.0 <= s <= Joint(g, x, bound).value.1
  {
    hide Allows, VarRange, VarValue, FloorPart, RemPart, Apart, Knows;
    VarRangeHolds(x, bound, leaf);
    var (lo, hi) := VarRange(x, bound).value;
    PartsHold(g, lo, VarValue(x, leaf), hi);
    KnowsApart(g, VarValue(x, leaf), s);
  }

  // The value by quotient and remainder.
  ghost function Apart(g: Grouping, y: int): (int, int)
    requires g.d.Some? && g.d.value > 0
  {
    ((g.c0 * g.d.value + g.c1) * (y / g.d.value), (g.c0 + g.c2) * (y % g.d.value))
  }

  lemma KnowsApart(g: Grouping, y: int, s: int)
    requires g.d.Some? && g.d.value > 0 && Knows(g, y, s)
    ensures s == Apart(g, y).0 + Apart(g, y).1
  {
    ApartIs(g.c0, g.c1, g.c2, y, g.d.value);
  }

  lemma PartsHold(g: Grouping, lo: int, y: int, hi: int)
    requires g.d.Some? && g.d.value > 0 && lo <= y <= hi
    ensures FloorPart(g, lo, hi).Some? ==> FloorPart(g, lo, hi).value.0 <= Apart(g, y).0 <= FloorPart(g, lo, hi).value.1
    ensures RemPart(g, lo, hi).Some? ==> RemPart(g, lo, hi).value.0 <= Apart(g, y).1 <= RemPart(g, lo, hi).value.1
  {
    hide TimesEnds;
    var d := g.d.value;
    RemainderBetween(lo, y, hi, d);
    TimesEndsHolds(g.c0 * d + g.c1, lo / d, y / d, hi / d);
    if lo / d == hi / d {
      TimesEndsHolds(g.c0 + g.c2, lo % d, y % d, hi % d);
    } else {
      TimesEndsHolds(g.c0 + g.c2, 0, y % d, d - 1);
    }
  }

  lemma ApartIs(c0: int, c1: int, c2: int, y: int, d: int)
    requires d > 0
    ensures c0 * y + (c1 * (y / d) + c2 * (y % d)) == (c0 * d + c1) * (y / d) + (c0 + c2) * (y % d)
  {
    var q, r := y / d, y % d;
    assert y == d * q + r;
    Distributes(c0, d * q, r);
    Associates(c0, d, q);
    SumTimes(c0 * d, c1, q);
    SumTimes(c0, c2, r);
  }

  lemma GroupRangeCovers(x: Var, terms: seq<(Var, Int64)>, bound: VarBounds, leaf: Leaf)
    requires Allows(bound, leaf) && GroupRange(x, terms, bound).Some?
    requires forall t :: t in terms ==> Operand(t.0) == x
    ensures Covers(GroupRange(x, terms, bound).value, GroupValueOf(terms, leaf))
  {
    hide Allows, VarValue, GroupAll, Joint, GroupValueOf;
    var start := Grouping(Some((0, 0)), None, 0, 0, 0);
    GroupAllKnows(x, terms, bound, start, leaf, 0);
    var g := GroupAll(terms, bound, start).value;
    if Joint(g, x, bound).Some? {
      JointHolds(g, x, bound, leaf, GroupValueOf(terms, leaf));
    }
  }

  // Whole forms

  type Groups = seq<(Var, seq<(Var, Int64)>)>

  // The terms put with those of the same variable.
  function Joined(groups: Groups, t: (Var, Int64)): Groups {
    if groups == [] then [(Operand(t.0), [t])]
    else if groups[0].0 == Operand(t.0) then [(groups[0].0, groups[0].1 + [t])] + groups[1..]
    else [groups[0]] + Joined(groups[1..], t)
  }

  // A term of a symbolic coefficient adds its own range; unbounded where a symbol or the variable is.
  function SymbolicRange(c: SymExpr, v: Var, bound: VarBounds, sym: Bounds): Option<Running> {
    match VarRange(v, bound)
    case None => None
    case Some((lo, hi)) =>
      match Span(c, sym)
      case Range(a, b) => (match Times(Range(a, b), Range(lo, hi)) case Range(x, y) => Some(Some((x, y))) case _ => Some(None))
      case TooWide => Some(None)
      case Unbounded => None
  }

  function TermRanges(terms: seq<(Var, SymExpr)>, bound: VarBounds, sym: Bounds, r: Running, groups: Groups)
    : Option<(Running, Groups)>
  {
    if terms == [] then Some((r, groups)) else
    var (v, c) := terms[0];
    if c.Const? then TermRanges(terms[1..], bound, sym, r, Joined(groups, (v, c.c))) else
    match SymbolicRange(c, v, bound, sym)
    case None => None
    case Some(None) => TermRanges(terms[1..], bound, sym, None, groups)
    case Some(Some((x, y))) => TermRanges(terms[1..], bound, sym, PlusRange(r, x, y), groups)
  }

  function GroupRanges(groups: Groups, bound: VarBounds, r: Running): Option<Running> {
    if groups == [] then Some(r) else
    match GroupRange(groups[0].0, groups[0].1, bound)
    case None => None
    case Some((a, b)) => GroupRanges(groups[1..], bound, PlusRange(r, a, b))
  }

  /** The form's range: none where a variable or a symbol has no bounds, the whole line past i128. */
  function FormRange(a: AffineExpr, bound: VarBounds, sym: Bounds): Option<(Int128, Int128)> {
    match Span(a.base, sym)
    case Unbounded => None
    case base =>
      var start: Running := if base.Range? then Some((base.lo, base.hi)) else None;
      match TermRanges(a.terms, bound, sym, start, [])
      case None => None
      case Some((r, groups)) =>
        match GroupRanges(groups, bound, r)
        case None => None
        case Some(None) => Some(WHOLE)
        case Some(Some(range)) => Some(range)
  }

  ghost predicate Grouped(groups: Groups) {
    forall i :: 0 <= i < |groups| ==> forall t :: t in groups[i].1 ==> Operand(t.0) == groups[i].0
  }

  function GroupsValue(groups: Groups, leaf: Leaf): int {
    if groups == [] then 0 else GroupValueOf(groups[0].1, leaf) + GroupsValue(groups[1..], leaf)
  }

  lemma {:induction false} GroupValueAppend(terms: seq<(Var, Int64)>, t: (Var, Int64), leaf: Leaf)
    ensures GroupValueOf(terms + [t], leaf) == GroupValueOf(terms, leaf) + t.1 * VarValue(t.0, leaf)
  {
    hide VarValue;
    if terms == [] {
      assert [t][1..] == [];
    } else {
      assert (terms + [t])[1..] == terms[1..] + [t];
      GroupValueAppend(terms[1..], t, leaf);
    }
  }

  lemma {:induction false} JoinedValue(groups: Groups, t: (Var, Int64), leaf: Leaf)
    requires Grouped(groups)
    ensures Grouped(Joined(groups, t))
    ensures GroupsValue(Joined(groups, t), leaf) == GroupsValue(groups, leaf) + t.1 * VarValue(t.0, leaf)
  {
    hide VarValue;
    if groups == [] {
      GroupValueAppend([], t, leaf);
      assert [] + [t] == [t];
      assert [(Operand(t.0), [t])][1..] == [];
    } else {
      assert Grouped(groups[1..]) by {
        assert forall i :: 0 <= i < |groups| - 1 ==> groups[1..][i] == groups[i + 1];
      }
      if groups[0].0 == Operand(t.0) {
        GroupValueAppend(groups[0].1, t, leaf);
        assert Joined(groups, t)[1..] == groups[1..];
      } else {
        JoinedValue(groups[1..], t, leaf);
        assert Joined(groups, t)[1..] == Joined(groups[1..], t);
      }
    }
  }

  lemma SymbolicRangeHolds(c: SymExpr, v: Var, bound: VarBounds, sym: Bounds, leaf: Leaf, env: Env)
    requires Allows(bound, leaf) && Admits(sym, env)
    ensures match SymbolicRange(c, v, bound, sym)
      case Some(Some((x, y))) => x <= Value(c, env) * VarValue(v, leaf) <= y
      case _ => true
  {
    hide Allows, VarRange, VarValue, Span, Value, Admits;
    VarRangeHolds(v, bound, leaf);
    SpanHolds(c, sym, env);
    if VarRange(v, bound).Some? && Span(c, sym).Range? {
      var (lo, hi) := VarRange(v, bound).value;
      Corners(Value(c, env), Span(c, sym).lo, Span(c, sym).hi, VarValue(v, leaf), lo, hi);
    }
  }

  lemma {:induction false} TermRangesTrack(terms: seq<(Var, SymExpr)>, bound: VarBounds, sym: Bounds, r: Running,
                                           groups: Groups, leaf: Leaf, env: Env, s: int)
    requires Allows(bound, leaf) && Admits(sym, env) && Grouped(groups) && Tracks(r, s)
    requires TermRanges(terms, bound, sym, r, groups).Some?
    ensures var (r', groups') := TermRanges(terms, bound, sym, r, groups).value;
      Grouped(groups') &&
      Tracks(r', s + TermsValue(terms, leaf, env) + GroupsValue(groups, leaf) - GroupsValue(groups', leaf))
    decreases terms
  {
    hide Allows, Admits, Value, VarValue, SymbolicRange, Joined, GroupsValue, Grouped, Covers;
    if terms != [] {
      var (v, c) := terms[0];
      if c.Const? {
        JoinedValue(groups, (v, c.c), leaf);
        ConstValue(c.c, env);
        TermRangesTrack(terms[1..], bound, sym, r, Joined(groups, (v, c.c)), leaf, env, s);
      } else {
        SymbolicRangeHolds(c, v, bound, sym, leaf, env);
        match SymbolicRange(c, v, bound, sym) {
          case Some(None) =>
            TermRangesTrack(terms[1..], bound, sym, None, groups, leaf, env, s + Value(c, env) * VarValue(v, leaf));
          case Some(Some((x, y))) =>
            PlusRangeTracks(r, s, x, y, Value(c, env) * VarValue(v, leaf));
            TermRangesTrack(terms[1..], bound, sym, PlusRange(r, x, y), groups, leaf, env,
                            s + Value(c, env) * VarValue(v, leaf));
        }
      }
    }
  }

  lemma {:induction false} GroupRangesTrack(groups: Groups, bound: VarBounds, r: Running, leaf: Leaf, s: int)
    requires Allows(bound, leaf) && Grouped(groups) && Tracks(r, s) && GroupRanges(groups, bound, r).Some?
    ensures Tracks(GroupRanges(groups, bound, r).value, s + GroupsValue(groups, leaf))
  {
    hide Allows, GroupRange, GroupValueOf;
    if groups != [] {
      assert Grouped(groups[1..]) by {
        assert forall i :: 0 <= i < |groups| - 1 ==> groups[1..][i] == groups[i + 1];
      }
      var (a, b) := GroupRange(groups[0].0, groups[0].1, bound).value;
      GroupRangeCovers(groups[0].0, groups[0].1, bound, leaf);
      PlusCovered(r, s, (a, b), GroupValueOf(groups[0].1, leaf));
      GroupRangesTrack(groups[1..], bound, PlusRange(r, a, b), leaf, s + GroupValueOf(groups[0].1, leaf));
    }
  }

  /** Every value within the bounds lies in the form's range, or the range is the whole i128 line. */
  lemma FormRangeHolds(a: AffineExpr, bound: VarBounds, sym: Bounds, leaf: Leaf, env: Env)
    requires Allows(bound, leaf) && Admits(sym, env) && FormRange(a, bound, sym).Some?
    ensures var (lo, hi) := FormRange(a, bound, sym).value;
      lo <= FormValue(a, leaf, env) <= hi || (lo == WIDE_MIN && hi == WIDE_MAX)
  {
    hide Allows, Admits, Value, Span, TermRanges, GroupRanges, GroupsValue;
    SpanHolds(a.base, sym, env);
    var base := Span(a.base, sym);
    var start: Running := if base.Range? then Some((base.lo, base.hi)) else None;
    NoGroups(leaf);
    TermRangesTrack(a.terms, bound, sym, start, [], leaf, env, Value(a.base, env));
    var (r, groups) := TermRanges(a.terms, bound, sym, start, []).value;
    var s := Value(a.base, env) + TermsValue(a.terms, leaf, env) - GroupsValue(groups, leaf);
    GroupRangesTrack(groups, bound, r, leaf, s);
  }

  lemma NoGroups(leaf: Leaf)
    ensures GroupsValue([], leaf) == 0 && Grouped([])
  {
  }
}
