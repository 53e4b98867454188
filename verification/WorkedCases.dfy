/** Kernels' own forms that the general laws cover: a thread index less its whole multiples, and the first threads. */
module WorkedCases {
  import opened Wrappers
  import opened Divisions
  import opened SymExprs
  import opened ExitLimits
  import opened AffineExprs
  import opened AffineDivision
  import opened AffineRanges
  import opened RangeEnds
  import opened Lanes
  import opened Participation
  import opened Readings
  import opened TallyBounds
  import opened TallyLimits
  import SpanEnds
  import Spans
  import SymExprFolds
  import SymQuotients

  // -- x - d·⌊x/d⌋ ---------------------------------------------------------------------

  function BlockOf(n: Divisor): VarBounds
    requires n <= LAST_THREAD + 1
  {
    (v: Var) => if v == Tid(X) then Some((0, n - 1)) else None
  }

  // `%tid.x - d·⌊%tid.x/d⌋`.
  function ByParts(d: Divisor): AffineExpr {
    AffineExpr([(Tid(X), Const(1)), (Floor(Tid(X), d), Const(0 - d))], Const(0))
  }

  lemma ByPartsValue(d: Divisor, leaf: Leaf, env: Env)
    ensures FormValue(ByParts(d), leaf, env) == leaf(Tid(X)) % d
  {
    var terms := ByParts(d).terms;
    assert terms == [terms[0]] + [terms[1]];
    TermsAppend([terms[0]], [terms[1]], leaf, env);
    AffineExprs.OneTerm(terms[0], leaf, env);
    AffineExprs.OneTerm(terms[1], leaf, env);
  }

  function Given(d: Divisor): Var -> Divisor {
    (x: Var) => d
  }

  lemma ByPartsGroup(d: Divisor)
    ensures OfVar(ByParts(d).terms, Tid(X)) == [(Tid(X), 1), (Floor(Tid(X), d), 0 - d)]
    ensures Sizes(ByParts(d).terms) == 1 + d
  {
    var terms := ByParts(d).terms;
    assert terms[..1] == [terms[0]] && terms[..1][..0] == [];
    assert OfVar(terms[..1], Tid(X)) == [(Tid(X), 1)];
    assert terms[1..] == [terms[1]];
    var none: seq<(Var, SymExpr)> := [];
    assert terms[1..][1..] == none;
    assert Sizes(terms[1..]) == Size(0 - d) + Sizes(none);
  }

  lemma LastOfWhole(n: Divisor, d: Divisor)
    requires n % d == 0
    ensures d <= n && (n - 1) % d == d - 1
  {
    var q := n / d;
    assert n == d * q;
    Distributes(d, q, -1);
    QuotientIs(n - 1, d, q - 1, d - 1);
    if d > n {
      QuotientIs(n, d, 0, n);
    }
  }

  lemma ByPartsAlone(d: Divisor, n: Divisor)
    requires n <= LAST_THREAD + 1 && n % d == 0
    ensures Alone(ByParts(d).terms, BlockOf(n), Given(d)) && Sizes(ByParts(d).terms) <= SMALL
  {
    hide OfVar, Sizes;
    ByPartsGroup(d);
    LastOfWhole(n, d);
    QuotientIs(0, d, 0, 0);
    assert VarRange(Tid(X), BlockOf(n)) == Some((0, n - 1));
    assert GroupIsWhole(ByParts(d).terms, BlockOf(n), Given(d), Tid(X));
  }

  // Every index 0 but the thread's.
  function AtThread(x: int): Leaf {
    (v: Var) => if v == Tid(X) then x else 0
  }

  function NoSymbols(): Env {
    (s: Symbol) => 0
  }

  /** Of the threads of a block of whole multiples of `d` it is the remainder by `d`: its range is just 0 to `d - 1`. */
  lemma ByPartsRange(d: Divisor, n: Divisor, sym: Spans.Bounds)
    requires n <= LAST_THREAD + 1 && n % d == 0 && Spans.Admits(sym, NoSymbols())
    ensures FormRange(ByParts(d), BlockOf(n), sym) == Some((0, d - 1))
  {
    hide FormRange, Alone, Sizes, FormValue, ByParts;
    LastOfWhole(n, d);
    ByPartsAlone(d, n);
    ByPartsConst(d);
    assert AffineDivision.Allows(BlockOf(n), AtThread(0)) && AffineDivision.Allows(BlockOf(n), AtThread(d - 1));
    SmallFormRangeMet(ByParts(d), BlockOf(n), Given(d), sym, AtThread(0), NoSymbols());
    var (a, b) := FormRange(ByParts(d), BlockOf(n), sym).value;
    var p: Leaf :| AffineDivision.Allows(BlockOf(n), p) && FormValue(ByParts(d), p, NoSymbols()) == a;
    var q: Leaf :| AffineDivision.Allows(BlockOf(n), q) && FormValue(ByParts(d), q, NoSymbols()) == b;
    ByPartsValue(d, p, NoSymbols());
    ByPartsValue(d, q, NoSymbols());
    FormRangeHolds(ByParts(d), BlockOf(n), sym, AtThread(0), NoSymbols());
    FormRangeHolds(ByParts(d), BlockOf(n), sym, AtThread(d - 1), NoSymbols());
    ByPartsValue(d, AtThread(0), NoSymbols());
    ByPartsValue(d, AtThread(d - 1), NoSymbols());
    QuotientIs(0, d, 0, 0);
    QuotientIs(d - 1, d, 0, d - 1);
  }

  lemma ByPartsConst(d: Divisor)
    ensures ByParts(d).base.Const?
  {
  }

  // -- the first threads -----------------------------------------------------------------

  // `%tid.x < n`.
  function Below(n: nat): Pred
    requires n <= LAST_THREAD + 1
  {
    Compares(Constraint(AffineExpr([(Tid(X), Const(1))], Const(0 - n)), Lt, None, None))
  }

  const NOWHERE := Place(None, None)

  function First(n: nat): int -> bool {
    (t: int) => t < n
  }

  function ByThread(): int -> Leaf {
    (t: int) => AtThread(t)
  }

  lemma BelowRead(n: nat, nx: nat, t: int)
    requires n <= nx <= LAST_THREAD + 1 && 0 <= t < nx
    ensures Sees(AtThread(t), Thread(t, Shape(nx, 1, 1)), NOWHERE) && AllRead(Below(n), NOWHERE, AtThread(t), NoSymbols())
  {
    QuotientIs(t, nx, 0, t);
    BelowSums(n, t);
    BelowFormed(n);
  }

  lemma BelowFormed(n: nat)
    requires n <= LAST_THREAD + 1
    ensures Below(n).Compares? && Formed(Below(n).k) && Closed(Below(n).k.form) && Below(n).k.trip.None?
    ensures Below(n).k.cta.None? && Constraints(Below(n)) == [Below(n).k]
  {
  }

  lemma BelowSums(n: nat, t: int)
    requires n <= LAST_THREAD + 1 && 0 <= t <= LAST_THREAD
    ensures SumsFit(Below(n).k.form, AtThread(t), NoSymbols())
  {
    var terms := Below(n).k.form.terms;
    assert terms[..1] == terms && [terms[0]] == terms;
    AffineExprs.OneTerm(terms[0], AtThread(t), NoSymbols());
    assert FormValue(AffineExpr(terms[..1], Below(n).k.form.base), AtThread(t), NoSymbols()) == t - n;
  }

  lemma BelowForm(n: nat, t: int)
    requires n <= LAST_THREAD + 1
    ensures Satisfies(Below(n), AtThread(t), NoSymbols()) <==> t < n
  {
    AffineExprs.OneTerm((Tid(X), Const(1)), AtThread(t), NoSymbols());
  }

  lemma {:induction false} FirstMembers(n: nat, l: nat, end: nat)
    requires l <= end
    ensures Members(First(n), l, end) == if n <= l then 0 else if end <= n then end - l else n - l
    decreases end - l
  {
    if l < end {
      FirstMembers(n, l + 1, end);
    }
  }

  lemma {:induction false} FirstWarps(n: nat, nx: nat, w: nat)
    requires n <= nx && nx > 0 && w <= Warps(Shape(nx, 1, 1))
    ensures Occupied(First(n), Shape(nx, 1, 1), w) == if WARP * w <= n then w else (n + WARP - 1) / WARP
  {
    if w > 0 {
      FirstWarps(n, nx, w - 1);
      FirstMembers(n, WarpStart(w - 1), WarpEnd(w - 1, Shape(nx, 1, 1)));
    }
  }

  /** In a block along x the tally of those below `n` is `n` threads and the warps they begin, for certain. */
  lemma BelowTally(n: nat, nx: nat)
    requires n <= nx <= LAST_THREAD + 1 && nx > 0
    ensures Tally(Below(n), Shape(nx, 1, 1), NOWHERE) ==
      Some((Counted(n, n), Counted((n + WARP - 1) / WARP, (n + WARP - 1) / WARP)))
  {
    hide Members, Occupied, Tally, Sees, AllRead, Satisfies, Below, Warps;
    var shape := Shape(nx, 1, 1);
    BelowPlain(n);
    forall t | 0 <= t < Count(shape)
      ensures Sees(ByThread()(t), Thread(t, shape), NOWHERE) && AllRead(Below(n), NOWHERE, ByThread()(t), NoSymbols())
    {
      BelowRead(n, nx, t);
    }
    forall t ensures First(n)(t) <==> Satisfies(Below(n), ByThread()(t), NoSymbols()) {
      BelowForm(n, t);
    }
    TallyIsGiven(n, shape);
    CountedBy(Below(n), shape, NOWHERE, ByThread(), NoSymbols(), First(n));
    assert Count(shape) == nx;
    FirstMembers(n, 0, nx);
    FirstWarps(n, nx, Warps(shape));
    AllWarps(n, nx);
    var (threads, warps) := Tally(Below(n), shape, NOWHERE).value;
    assert threads == Counted(n, n);
  }

  lemma TallyIsGiven(n: nat, shape: Shape)
    requires n <= LAST_THREAD + 1 && Count(shape) > 0
    ensures Tally(Below(n), shape, NOWHERE).Some?
  {
    hide WarpsTally, Below;
    BelowPlain(n);
  }

  lemma AllWarps(n: nat, nx: nat)
    requires n <= nx
    ensures WARP * Warps(Shape(nx, 1, 1)) <= n ==> Warps(Shape(nx, 1, 1)) == (n + WARP - 1) / WARP
  {
  }

  lemma BelowPlain(n: nat)
    requires n <= LAST_THREAD + 1
    ensures Plain(Below(n)) && HasCondition(Below(n))
  {
  }

  // -- a symbol and a constant -------------------------------------------------------------

  // `s + c`.
  function Padded(s: Symbol, c: Int64): SymExpr {
    Sum([Sym(s), Const(c)])
  }

  function Bounds(s: Symbol, lo: Int64, hi: Int64): Spans.Bounds {
    (u: Symbol) => if u == s then Some((lo, hi)) else None
  }

  lemma PaddedValue(s: Symbol, c: Int64, env: Env)
    ensures Value(Padded(s, c), env) == env(s) + c
  {
    var ts := [Sym(s), Const(c)];
    var none: seq<SymExpr> := [];
    assert ts[1..] == [Const(c)] && [Const(c)][1..] == none;
    assert Total([Const(c)], env) == c + Total(none, env);
    assert Total(ts, env) == env(s) + Total(ts[1..], env);
  }

  lemma PaddedSpanIs(s: Symbol, c: Int64, lo: Int64, hi: Int64)
    ensures Spans.Span(Padded(s, c), Bounds(s, lo, hi)).Range? && SpanEnds.Once(Padded(s, c), Bounds(s, lo, hi))
  {
    var bounds, ts := Bounds(s, lo, hi), [Sym(s), Const(c)];
    var none: seq<SymExpr> := [];
    assert ts[1..] == [Const(c)] && [Const(c)][1..] == none;
    assert Spans.SumSpan([Const(c)], bounds, Spans.Range(lo, hi)) ==
      Spans.SumSpan(none, bounds, Spans.Range(lo as int + c as int, hi as int + c as int));
    assert Spans.SumSpan(ts, bounds, Spans.Range(0, 0)) == Spans.SumSpan(ts[1..], bounds, Spans.Range(lo, hi));
    assert SpanEnds.AllOnce([Const(c)], bounds);
    assert SpanEnds.AllOnce(ts, bounds);
  }

  /** Its span is just the symbol's, `c` further on. */
  lemma PaddedSpan(s: Symbol, c: Int64, lo: Int64, hi: Int64)
    requires lo <= hi
    ensures Spans.Span(Padded(s, c), Bounds(s, lo, hi)) == Spans.Range(lo as int + c as int, hi as int + c as int)
  {
    hide Spans.Span, SpanEnds.Once, Padded, Value;
    var bounds := Bounds(s, lo, hi);
    var least, most: Env := (u: Symbol) => lo, (u: Symbol) => hi;
    PaddedSpanIs(s, c, lo, hi);
    SpanEnds.SpanMet(Padded(s, c), bounds, least);
    Spans.SpanHolds(Padded(s, c), bounds, least);
    Spans.SpanHolds(Padded(s, c), bounds, most);
    var span := Spans.Span(Padded(s, c), bounds);
    var p: Env :| Spans.Admits(bounds, p) && Value(Padded(s, c), p) == span.lo;
    var q: Env :| Spans.Admits(bounds, q) && Value(Padded(s, c), q) == span.hi;
    PaddedValue(s, c, p);
    PaddedValue(s, c, q);
    PaddedValue(s, c, least);
    PaddedValue(s, c, most);
    assert lo <= p(s) <= hi && lo <= q(s) <= hi by {
      assert bounds(s) == Some((lo, hi));
    }
  }

  /** And its least value over what is not negative is `c`. */
  lemma PaddedLeast(s: Symbol, c: Int64)
    requires c >= 0
    ensures SymQuotients.Least(Padded(s, c)) == Some(c)
  {
    PaddedRises(s, c);
    hide SymQuotients.Least, SymExprFolds.Upward, SymExprFolds.Follows, SymExprFolds.Rises, Padded, Value;
    SymExprFolds.LeastIsKnown(Padded(s, c));
    SymExprFolds.LeastIsMet(Padded(s, c));
    PaddedValue(s, c, SymExprFolds.Unit(None));
  }

  lemma PaddedRises(s: Symbol, c: Int64)
    requires c >= 0
    ensures SymExprFolds.Upward(Padded(s, c)) && SymExprFolds.Follows(Padded(s, c))
    ensures SymExprFolds.Rises(Padded(s, c)) == c
  {
    var ts := [Sym(s), Const(c)];
    var none: seq<SymExpr> := [];
    assert ts[1..] == [Const(c)] && [Const(c)][1..] == none;
    assert SymExprFolds.SumRises([Const(c)]) == c + SymExprFolds.SumRises(none);
    assert SymExprFolds.SumRises(ts) == SymExprFolds.SumRises(ts[1..]);
  }

  /** A base left as a sum of two constants, as where they do not fit one, counts as what they sum to. */
  lemma ConstantsBase(a: Int64, b: Int64)
    ensures ConstPart(Sum([Const(a), Const(b)])) == a as int + b as int
  {
    var ts: seq<SymExpr> := [Const(a), Const(b)];
    var none: seq<SymExpr> := [];
    assert ts[1..] == [Const(b)] && [Const(b)][1..] == none;
    assert AllConstants([Const(b)]) && AllConstants(ts);
    assert Total([Const(b)], NoSymbols()) == b + Total(none, NoSymbols());
    assert Total(ts, NoSymbols()) == a + Total(ts[1..], NoSymbols());
    ConstPartIs(Sum(ts), NoSymbols());
  }
}
