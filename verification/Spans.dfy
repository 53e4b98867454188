/** The least and greatest value of a symbolic expression, with every overflow of i128 told apart. */
module Spans {
  import opened Wrappers
  import opened Divisions
  import opened SymExprs
  import opened SymExprValues
  import opened SymQuotients

  const WIDE_MIN: int := -0x8000_0000_0000_0000_0000_0000_0000_0000
  const WIDE_MAX: int := 0x7FFF_FFFF_FFFF_FFFF_FFFF_FFFF_FFFF_FFFF

  predicate FitsWide(x: int) {
    WIDE_MIN <= x <= WIDE_MAX
  }

  type Int128 = x: int | -0x8000_0000_0000_0000_0000_0000_0000_0000 <= x <= 0x7FFF_FFFF_FFFF_FFFF_FFFF_FFFF_FFFF_FFFF

  // A range, or why there is none: a symbol without bounds, or a bound past i128.
  datatype Range = Range(lo: Int128, hi: Int128) | Unbounded | TooWide

  type Bounds = Symbol -> Option<(Int64, Int64)>

  ghost predicate Inside(x: int, r: Range) {
    r.Range? ==> r.lo <= x <= r.hi
  }

  // The value of every symbol lies within its bounds.
  ghost predicate Admits(bounds: Bounds, env: Env) {
    forall s: Symbol :: bounds(s).Some? ==> bounds(s).value.0 <= env(s) <= bounds(s).value.1
  }

  function Checked(lo: int, hi: int): Range {
    if FitsWide(lo) && FitsWide(hi) then Range(lo, hi) else TooWide
  }

  function Least4(a: int, b: int, c: int, d: int): int {
    if a <= b && a <= c && a <= d then a else if b <= c && b <= d then b else if c <= d then c else d
  }

  function Greatest4(a: int, b: int, c: int, d: int): int {
    if a >= b && a >= c && a >= d then a else if b >= c && b >= d then b else if c >= d then c else d
  }

  // The product of two ranges; none where a corner leaves i128.
  function Times(x: Range, y: Range): Range
    requires x.Range? && y.Range?
  {
    var (a, b, c, d) := (x.lo * y.lo, x.lo * y.hi, x.hi * y.lo, x.hi * y.hi);
    if FitsWide(a) && FitsWide(b) && FitsWide(c) && FitsWide(d) then Range(Least4(a, b, c, d), Greatest4(a, b, c, d))
    else TooWide
  }

  function Span(e: SymExpr, bounds: Bounds): Range
    decreases e
  {
    match e
    case Const(c) => Range(c, c)
    case Sym(s) => (match bounds(s) case Some((a, b)) => Range(a, b) case None => Unbounded)
    case Sum(ts) => SumSpan(ts, bounds, Range(0, 0))
    case Prod(fs) => ProdSpan(fs, bounds, Range(1, 1))
    case FloorDiv(x, d) =>
      (match Span(x, bounds)
       case Range(a, b) => FloorFits(a, d); FloorFits(b, d); Range(a / d, b / d)
       case r => r)
    case CeilDiv(x, d) =>
      (match Span(x, bounds)
       case Range(a, b) =>
         if a == WIDE_MIN || b == WIDE_MIN then TooWide else
         CeilFits(a, d); CeilFits(b, d); Range(-(-a / d), -(-b / d))
       case r => r)
    case Mod(x, d) =>
      (match Span(x, bounds)
       case Range(a, b) => if a / d == b / d then Range(a % d, b % d) else Range(0, d - 1)
       case r => r)
    case Min(x, y) =>
      (match Span(x, bounds)
       case Range(a, b) =>
         (match Span(y, bounds)
          case Range(c, d) => Range(if a < c then a else c, if b < d then b else d)
          case r => r)
       case r => r)
    case Max(x, y) =>
      (match Span(x, bounds)
       case Range(a, b) =>
         (match Span(y, bounds)
          case Range(c, d) => Range(if a < c then c else a, if b < d then d else b)
          case r => r)
       case r => r)
  }

  function SumSpan(ts: seq<SymExpr>, bounds: Bounds, sum: Range): Range
    requires sum.Range?
    decreases ts
  {
    if ts == [] then sum else
    match Span(ts[0], bounds)
    case Range(a, b) =>
      var next := Checked(sum.lo + a, sum.hi + b);
      if next.Range? then SumSpan(ts[1..], bounds, next) else next
    case r => r
  }

  function ProdSpan(fs: seq<SymExpr>, bounds: Bounds, product: Range): Range
    requires product.Range?
    decreases fs
  {
    if fs == [] then product else
    match Span(fs[0], bounds)
    case Range(a, b) =>
      var next := Times(product, Range(a, b));
      if next.Range? then ProdSpan(fs[1..], bounds, next) else next
    case r => r
  }

  lemma Corners(x: int, a: int, b: int, y: int, c: int, d: int)
    requires a <= x <= b && c <= y <= d
    ensures Least4(a * c, a * d, b * c, b * d) <= x * y <= Greatest4(a * c, a * d, b * c, b * d)
  {
    Between(a, c, y, d);
    Between(b, c, y, d);
    Between(y, a, x, b);
  }

  // A product by `k` lies between the products of the ends.
  lemma Between(k: int, lo: int, x: int, hi: int)
    requires lo <= x <= hi
    ensures k >= 0 ==> k * lo <= k * x <= k * hi && lo * k <= x * k <= hi * k
    ensures k <= 0 ==> k * hi <= k * x <= k * lo && hi * k <= x * k <= lo * k
  {
    Distributes(k, lo, x - lo);
    Distributes(k, x, hi - x);
    assert k >= 0 ==> k * (x - lo) >= 0 && k * (hi - x) >= 0;
    assert k <= 0 ==> k * (x - lo) <= 0 && k * (hi - x) <= 0;
  }

  /** Every value under the bounds lies in the span. */
  lemma {:induction false} SpanHolds(e: SymExpr, bounds: Bounds, env: Env)
    requires Admits(bounds, env)
    ensures Inside(Value(e, env), Span(e, bounds))
    decreases e
  {
    match e
    case Const(_) =>
    case Sym(_) =>
    case Sum(ts) => SumSpanHolds(ts, bounds, Range(0, 0), 0, env);
    case Prod(fs) => ProdSpanHolds(fs, bounds, Range(1, 1), 1, env);
    case FloorDiv(x, d) =>
      SpanHolds(x, bounds, env);
      match Span(x, bounds) {
        case Range(a, b) =>
          FloorGrows(a, Value(x, env), d);
          FloorGrows(Value(x, env), b, d);
        case _ =>
      }
    case CeilDiv(x, d) =>
      SpanHolds(x, bounds, env);
      match Span(x, bounds) {
        case Range(a, b) =>
          var lo: int, hi: int := a, b;
          FloorGrows(-hi, -Value(x, env), d);
          FloorGrows(-Value(x, env), -lo, d);
        case _ =>
      }
    case Mod(x, d) =>
      SpanHolds(x, bounds, env);
      match Span(x, bounds) {
        case Range(a, b) => RemainderBetween(a, Value(x, env), b, d);
        case _ =>
      }
    case Min(x, y) =>
      SpanHolds(x, bounds, env);
      SpanHolds(y, bounds, env);
    case Max(x, y) =>
      SpanHolds(x, bounds, env);
      SpanHolds(y, bounds, env);
  }

  lemma RemainderBetween(a: int, x: int, b: int, d: int)
    requires a <= x <= b && d > 0
    ensures a / d <= x / d <= b / d
    ensures a / d == b / d ==> a % d <= x % d <= b % d
    ensures 0 <= x % d < d
  {
    FloorGrows(a, x, d);
    FloorGrows(x, b, d);
    assert a == d * (a / d) + a % d;
    assert x == d * (x / d) + x % d;
    assert b == d * (b / d) + b % d;
  }

  lemma {:induction false} SumSpanHolds(ts: seq<SymExpr>, bounds: Bounds, sum: Range, s: int, env: Env)
    requires Admits(bounds, env) && sum.Range? && sum.lo <= s <= sum.hi
    ensures Inside(s + Total(ts, env), SumSpan(ts, bounds, sum))
    decreases ts
  {
    if ts != [] {
      SpanHolds(ts[0], bounds, env);
      match Span(ts[0], bounds) {
        case Range(a, b) =>
          var next := Checked(sum.lo + a, sum.hi + b);
          if next.Range? {
            SumSpanHolds(ts[1..], bounds, next, s + Value(ts[0], env), env);
          }
        case _ =>
      }
    }
  }

  lemma {:induction false} ProdSpanHolds(fs: seq<SymExpr>, bounds: Bounds, product: Range, p: int, env: Env)
    requires Admits(bounds, env) && product.Range? && product.lo <= p <= product.hi
    ensures Inside(p * Product(fs, env), ProdSpan(fs, bounds, product))
    decreases fs
  {
    if fs != [] {
      var v := Value(fs[0], env);
      SpanHolds(fs[0], bounds, env);
      match Span(fs[0], bounds) {
        case Range(a, b) =>
          var next := Times(product, Range(a, b));
          if next.Range? {
            Corners(p, product.lo, product.hi, v, a, b);
            ProdSpanHolds(fs[1..], bounds, next, p * v, env);
            Associates(p, v, Product(fs[1..], env));
          }
        case _ =>
      }
    }
  }
}
