/** How close a span is: its ends are values, and it is missing only for want of bounds or past i128. */
module SpanEnds {
  import opened Wrappers
  import opened Divisions
  import opened SymExprs
  import opened SymExprValues
  import opened SymExprSymbols
  import opened SymQuotients
  import opened Spans

  // No symbol comes twice, and what a remainder is of stays within one multiple.
  predicate Once(e: SymExpr, bounds: Bounds)
    decreases e
  {
    match e
    case Const(_) => true
    case Sym(_) => true
    case Sum(ts) => AllOnce(ts, bounds)
    case Prod(fs) => AllOnce(fs, bounds)
    case CeilDiv(x, _) => Once(x, bounds)
    case FloorDiv(x, _) => Once(x, bounds)
    case Mod(x, d) => Once(x, bounds) && (Span(x, bounds).Range? ==> Span(x, bounds).lo / d == Span(x, bounds).hi / d)
    case Min(a, b) => Once(a, bounds) && Once(b, bounds) && Symbols(a) !! Symbols(b)
    case Max(a, b) => Once(a, bounds) && Once(b, bounds) && Symbols(a) !! Symbols(b)
  }

  predicate AllOnce(ts: seq<SymExpr>, bounds: Bounds)
    decreases ts
  {
    ts != [] ==> Once(ts[0], bounds) && AllOnce(ts[1..], bounds) && Symbols(ts[0]) !! AllSymbols(ts[1..])
  }

  // -- the ends are values --------------------------------------------------------------

  function End(r: Range, most: bool): int
    requires r.Range?
  {
    if most then r.hi else r.lo
  }

  // Another admitted valuation that differs on these symbols alone.
  ghost predicate Moves(bounds: Bounds, env: Env, ss: set<Symbol>, env': Env) {
    Admits(bounds, env') && forall s: Symbol :: s !in ss ==> env'(s) == env(s)
  }

  // A valuation at which the expression is at an end of its span.
  lemma {:induction false} EndIsValue(e: SymExpr, bounds: Bounds, env: Env, most: bool) returns (at: Env)
    requires Admits(bounds, env) && Once(e, bounds) && Span(e, bounds).Range?
    ensures Moves(bounds, env, Symbols(e), at) && Value(e, at) == End(Span(e, bounds), most)
    decreases e, 1
  {
    match e
    case Const(_) => at := env;
    case Sym(s) =>
      var (a, b) := bounds(s).value;
      at := (u: Symbol) => if u == s then (if most then b else a) else env(u);
      assert Admits(bounds, at) by {
        assert a <= env(s) <= b;
      }
    case Sum(ts) => at := SumEnd(ts, bounds, Range(0, 0), env, most);
    case Prod(fs) =>
      var x;
      x, at := ProdEnd(fs, bounds, Range(1, 1), env, most);
    case CeilDiv(x, _) => at := EndIsValue(x, bounds, env, most);
    case FloorDiv(x, _) => at := EndIsValue(x, bounds, env, most);
    case Mod(x, _) => at := EndIsValue(x, bounds, env, most);
    case Min(a, b) => at := BothEnds(e, a, b, bounds, env, most);
    case Max(a, b) => at := BothEnds(e, a, b, bounds, env, most);
  }

  lemma BothEnds(e: SymExpr, a: SymExpr, b: SymExpr, bounds: Bounds, env: Env, most: bool) returns (at: Env)
    requires e == Min(a, b) || e == Max(a, b)
    requires Admits(bounds, env) && Once(a, bounds) && Once(b, bounds) && Symbols(a) !! Symbols(b)
    requires Span(a, bounds).Range? && Span(b, bounds).Range?
    ensures Moves(bounds, env, Symbols(a) + Symbols(b), at)
    ensures Value(a, at) == End(Span(a, bounds), most) && Value(b, at) == End(Span(b, bounds), most)
    decreases e, 0
  {
    hide Once, Span, Value;
    var mid := EndIsValue(a, bounds, env, most);
    at := EndIsValue(b, bounds, mid, most);
    ValueOfSymbols(a, mid, at);
  }

  lemma {:induction false} SumEnd(ts: seq<SymExpr>, bounds: Bounds, sum: Range, env: Env, most: bool) returns (at: Env)
    requires Admits(bounds, env) && AllOnce(ts, bounds) && sum.Range? && SumSpan(ts, bounds, sum).Range?
    ensures Moves(bounds, env, AllSymbols(ts), at)
    ensures End(sum, most) + Total(ts, at) == End(SumSpan(ts, bounds, sum), most)
    decreases ts
  {
    hide Once, Span, Value;
    at := env;
    if ts != [] {
      var (a, b) := (Span(ts[0], bounds).lo, Span(ts[0], bounds).hi);
      var mid := SumEnd(ts[1..], bounds, Checked(sum.lo + a, sum.hi + b), env, most);
      at := EndIsValue(ts[0], bounds, mid, most);
      AllOfSymbols(ts[1..], mid, at);
    }
  }

  // The product's end is a corner: an end of the product so far times a value.
  lemma {:induction false} ProdEnd(fs: seq<SymExpr>, bounds: Bounds, product: Range, env: Env, most: bool)
    returns (high: bool, at: Env)
    requires Admits(bounds, env) && AllOnce(fs, bounds) && product.Range? && ProdSpan(fs, bounds, product).Range?
    ensures Moves(bounds, env, AllSymbols(fs), at)
    ensures End(product, high) * Product(fs, at) == End(ProdSpan(fs, bounds, product), most)
    decreases fs
  {
    hide Once, Span, Value, Times;
    high, at := most, env;
    if fs != [] {
      var own := Span(fs[0], bounds);
      var next := Times(product, Range(own.lo, own.hi));
      var up, mid := ProdEnd(fs[1..], bounds, next, env, most);
      var z;
      high, z := CornerOf(product, own, up);
      at := EndIsValue(fs[0], bounds, mid, z);
      AllOfSymbols(fs[1..], mid, at);
      Associates(End(product, high), End(own, z), Product(fs[1..], at));
    }
  }

  lemma CornerOf(x: Range, y: Range, up: bool) returns (p: bool, q: bool)
    requires x.Range? && y.Range? && Times(x, y).Range?
    ensures End(Times(x, y), up) == End(x, p) * End(y, q)
  {
    var end := End(Times(x, y), up);
    if end == x.lo * y.lo {
      p, q := false, false;
    } else if end == x.lo * y.hi {
      p, q := false, true;
    } else if end == x.hi * y.lo {
      p, q := true, false;
    } else {
      p, q := true, true;
    }
  }

  /** Where no symbol comes twice the ends of the span are values under the bounds. */
  lemma SpanMet(e: SymExpr, bounds: Bounds, env: Env)
    requires Admits(bounds, env) && Once(e, bounds) && Span(e, bounds).Range?
    ensures exists at: Env :: Admits(bounds, at) && Value(e, at) == Span(e, bounds).lo
    ensures exists at: Env :: Admits(bounds, at) && Value(e, at) == Span(e, bounds).hi
  {
    hide Once, Span, Value, Admits;
    var p := EndIsValue(e, bounds, env, false);
    var q := EndIsValue(e, bounds, env, true);
  }

  // -- when there is none ---------------------------------------------------------------

  predicate AllBounded(ss: set<Symbol>, bounds: Bounds) {
    forall s :: s in ss ==> bounds(s).Some?
  }

  // The greatest size the expression, and every sum and product on the way, may have.
  function Size(e: SymExpr, bounds: Bounds): nat
    requires AllBounded(Symbols(e), bounds)
    decreases e
  {
    match e
    case Const(c) => Abs(c)
    case Sym(s) => var (a, b) := bounds(s).value; Over(Abs(a), Abs(b))
    case Sum(ts) => SumSize(ts, bounds)
    case Prod(fs) => ProdSize(fs, bounds)
    case CeilDiv(x, _) => Size(x, bounds)
    case FloorDiv(x, _) => Size(x, bounds)
    case Mod(x, d) => Over(Size(x, bounds), d)
    case Min(a, b) => Over(Size(a, bounds), Size(b, bounds))
    case Max(a, b) => Over(Size(a, bounds), Size(b, bounds))
  }

  function Abs(x: int): nat {
    if x < 0 then -x else x
  }

  function Over(x: nat, y: nat): nat {
    if x < y then y else x
  }

  function SumSize(ts: seq<SymExpr>, bounds: Bounds): nat
    requires AllBounded(AllSymbols(ts), bounds)
    decreases ts
  {
    if ts == [] then 0 else Size(ts[0], bounds) + SumSize(ts[1..], bounds)
  }

  function ProdSize(fs: seq<SymExpr>, bounds: Bounds): (n: nat)
    requires AllBounded(AllSymbols(fs), bounds)
    ensures n >= 1
    decreases fs
  {
    if fs == [] then 1 else
    var x, rest := Over(1, Size(fs[0], bounds)), ProdSize(fs[1..], bounds);
    Grows(x, rest);
    x * rest
  }

  ghost predicate Around(r: Range, n: nat) {
    r.Range? && Abs(r.lo) <= n && Abs(r.hi) <= n
  }

  /** There is a span wherever every symbol has bounds and no size on the way passes i128. */
  lemma {:induction false} SpanIsKnown(e: SymExpr, bounds: Bounds)
    requires AllBounded(Symbols(e), bounds) && Size(e, bounds) <= WIDE_MAX
    ensures Around(Span(e, bounds), Size(e, bounds))
    decreases e
  {
    hide SumSpan, ProdSpan, SumSize, ProdSize;
    match e
    case Sum(ts) => SumIsKnown(ts, bounds, Range(0, 0), 0);
    case Prod(fs) =>
      assert 1 * ProdSize(fs, bounds) == ProdSize(fs, bounds);
      ProdIsKnown(fs, bounds, Range(1, 1), 1);
    case CeilDiv(x, d) =>
      SpanIsKnown(x, bounds);
      CeilKnown(x, d, bounds);
    case FloorDiv(x, d) =>
      SpanIsKnown(x, bounds);
      FloorFits(Span(x, bounds).lo, d);
      FloorFits(Span(x, bounds).hi, d);
    case Mod(x, _) => SpanIsKnown(x, bounds);
    case Min(a, b) => SpanIsKnown(a, bounds); SpanIsKnown(b, bounds);
    case Max(a, b) => SpanIsKnown(a, bounds); SpanIsKnown(b, bounds);
    case _ =>
  }

  lemma CeilKnown(x: SymExpr, d: Divisor, bounds: Bounds)
    requires AllBounded(Symbols(x), bounds) && Size(x, bounds) <= WIDE_MAX && Around(Span(x, bounds), Size(x, bounds))
    ensures Around(Span(CeilDiv(x, d), bounds), Size(x, bounds))
  {
    hide SumSpan, ProdSpan, SumSize, ProdSize;
    CeilFits(Span(x, bounds).lo, d);
    CeilFits(Span(x, bounds).hi, d);
  }

  lemma {:induction false} SumIsKnown(ts: seq<SymExpr>, bounds: Bounds, sum: Range, n: nat)
    requires AllBounded(AllSymbols(ts), bounds) && Around(sum, n) && n + SumSize(ts, bounds) <= WIDE_MAX
    ensures Around(SumSpan(ts, bounds, sum), n + SumSize(ts, bounds))
    decreases ts
  {
    hide Span, Size, Around, Checked;
    if ts != [] {
      SpanIsKnown(ts[0], bounds);
      var own := Span(ts[0], bounds);
      AroundSum(sum, own, n, Size(ts[0], bounds));
      SumIsKnown(ts[1..], bounds, Checked(sum.lo + own.lo, sum.hi + own.hi), n + Size(ts[0], bounds));
    }
  }

  lemma AroundSum(x: Range, y: Range, m: nat, n: nat)
    requires Around(x, m) && Around(y, n) && m + n <= WIDE_MAX
    ensures x.Range? && y.Range? && Around(Checked(x.lo + y.lo, x.hi + y.hi), m + n)
  {
  }

  lemma {:induction false} ProdIsKnown(fs: seq<SymExpr>, bounds: Bounds, product: Range, n: nat)
    requires AllBounded(AllSymbols(fs), bounds) && Around(product, n) && n >= 1 && n * ProdSize(fs, bounds) <= WIDE_MAX
    ensures Around(ProdSpan(fs, bounds, product), n * ProdSize(fs, bounds))
    decreases fs
  {
    hide Span, Times;
    if fs != [] {
      var x, rest := Over(1, Size(fs[0], bounds)), ProdSize(fs[1..], bounds);
      Associates(n, x, rest);
      Grows(n * x, rest) by { Grows(n, x); }
      assert x <= n * x by { Grows(n, x); }
      SpanIsKnown(fs[0], bounds);
      var own := Span(fs[0], bounds);
      TimesAround(product, own, n, x, n * x);
      ProdIsKnown(fs[1..], bounds, Times(product, Range(own.lo, own.hi)), n * x);
    }
  }

  // The corners of a product.
  ghost function Corner(x: int, y: int): int {
    x * y
  }

  lemma TimesAround(x: Range, y: Range, m: nat, n: nat, most: nat)
    requires Around(x, m) && Around(y, n) && most == m * n && most <= WIDE_MAX
    ensures Around(Times(x, y), most)
  {
    hide Abs, Least4, Greatest4, Times, FitsWide, Corner;
    CornerWithin(x.lo, y.lo, m, n, most);
    CornerWithin(x.lo, y.hi, m, n, most);
    CornerWithin(x.hi, y.lo, m, n, most);
    CornerWithin(x.hi, y.hi, m, n, most);
    OfFour(Corner(x.lo, y.lo), Corner(x.lo, y.hi), Corner(x.hi, y.lo), Corner(x.hi, y.hi), most);
    TimesCorners(x, y);
  }

  lemma CornerWithin(x: int, y: int, m: nat, n: nat, most: nat)
    requires Abs(x) <= m && Abs(y) <= n && most == m * n
    ensures Abs(Corner(x, y)) <= most
  {
    AbsTimes(x, y, m, n);
  }

  lemma TimesCorners(x: Range, y: Range)
    requires x.Range? && y.Range?
    requires FitsWide(Corner(x.lo, y.lo)) && FitsWide(Corner(x.lo, y.hi))
    requires FitsWide(Corner(x.hi, y.lo)) && FitsWide(Corner(x.hi, y.hi))
    ensures var (a, b, c, d) := (Corner(x.lo, y.lo), Corner(x.lo, y.hi), Corner(x.hi, y.lo), Corner(x.hi, y.hi));
      FitsWide(Least4(a, b, c, d)) && FitsWide(Greatest4(a, b, c, d)) &&
      Times(x, y) == Range(Least4(a, b, c, d), Greatest4(a, b, c, d))
  {
  }

  lemma OfFour(a: int, b: int, c: int, d: int, n: nat)
    requires Abs(a) <= n && Abs(b) <= n && Abs(c) <= n && Abs(d) <= n && n <= WIDE_MAX
    ensures Abs(Least4(a, b, c, d)) <= n && Abs(Greatest4(a, b, c, d)) <= n
    ensures FitsWide(a) && FitsWide(b) && FitsWide(c) && FitsWide(d)
  {
  }

  lemma AbsTimes(x: int, y: int, m: nat, n: nat)
    requires Abs(x) <= m && Abs(y) <= n
    ensures Abs(x * y) <= m * n
  {
    var p: int, q: int := 0 - m, 0 - n;
    Between(x, q, y, n);
    Between(n, p, x, m);
    assert x * q == -(x * n) && n * p == -(n * m);
  }

  /** And none where a symbol has no bounds. */
  lemma {:induction false} SpanNeedsBounds(e: SymExpr, bounds: Bounds)
    ensures Span(e, bounds).Range? ==> AllBounded(Symbols(e), bounds)
    ensures AllBounded(Symbols(e), bounds) ==> !Span(e, bounds).Unbounded?
    decreases e
  {
    match e
    case Sum(ts) => SumNeedsBounds(ts, bounds, Range(0, 0));
    case Prod(fs) => ProdNeedsBounds(fs, bounds, Range(1, 1));
    case CeilDiv(x, _) => SpanNeedsBounds(x, bounds);
    case FloorDiv(x, _) => SpanNeedsBounds(x, bounds);
    case Mod(x, _) => SpanNeedsBounds(x, bounds);
    case Min(a, b) => SpanNeedsBounds(a, bounds); SpanNeedsBounds(b, bounds);
    case Max(a, b) => SpanNeedsBounds(a, bounds); SpanNeedsBounds(b, bounds);
    case _ =>
  }

  lemma {:induction false} SumNeedsBounds(ts: seq<SymExpr>, bounds: Bounds, sum: Range)
    requires sum.Range?
    ensures SumSpan(ts, bounds, sum).Range? ==> AllBounded(AllSymbols(ts), bounds)
    ensures AllBounded(AllSymbols(ts), bounds) ==> !SumSpan(ts, bounds, sum).Unbounded?
    decreases ts
  {
    hide Span;
    if ts != [] {
      SpanNeedsBounds(ts[0], bounds);
      var own := Span(ts[0], bounds);
      if own.Range? && Checked(sum.lo + own.lo, sum.hi + own.hi).Range? {
        SumNeedsBounds(ts[1..], bounds, Checked(sum.lo + own.lo, sum.hi + own.hi));
      }
    }
  }

  lemma {:induction false} ProdNeedsBounds(fs: seq<SymExpr>, bounds: Bounds, product: Range)
    requires product.Range?
    ensures ProdSpan(fs, bounds, product).Range? ==> AllBounded(AllSymbols(fs), bounds)
    ensures AllBounded(AllSymbols(fs), bounds) ==> !ProdSpan(fs, bounds, product).Unbounded?
    decreases fs
  {
    hide Span, Times;
    if fs != [] {
      SpanNeedsBounds(fs[0], bounds);
      TimesIs(product, Span(fs[0], bounds));
      var own := Span(fs[0], bounds);
      if own.Range? && Times(product, Range(own.lo, own.hi)).Range? {
        ProdNeedsBounds(fs[1..], bounds, Times(product, Range(own.lo, own.hi)));
      }
    }
  }

  lemma TimesIs(x: Range, y: Range)
    requires x.Range?
    ensures y.Range? ==> !Times(x, y).Unbounded?
  {
  }
}
