/** Quotients, remainders, extremes and bindings of symbolic expressions. */
module SymQuotients {
  import opened Wrappers
  import opened SymExprs
  import opened SymExprValues
  import opened Divisions

  // The sum of `ts`, added from the left.
  function AddAll(ts: seq<SymExpr>): (r: SymExpr)
    requires ts != [] && AllShaped(ts)
    ensures Shaped(r)
  {
    var n := |ts| - 1;
    if n == 0 then ts[0] else
    DepthPart(ts, ts[..n]);
    Add(AddAll(ts[..n]), ts[n])
  }

  lemma {:induction false} AddAllValue(ts: seq<SymExpr>, env: Env)
    requires ts != [] && AllShaped(ts)
    ensures Value(AddAll(ts), env) == Total(ts, env)
  {
    hide Value, Total, Add;
    var n := |ts| - 1;
    DepthPart(ts, ts[..n]);
    assert ts == ts[..n] + [ts[n]];
    TotalAppend(ts[..n], [ts[n]], env);
    TotalOne(ts[n], env);
    NoFactors(env);
    if n > 0 {
      AddAllValue(ts[..n], env);
      AddValue(AddAll(ts[..n]), ts[n], env);
    }
  }

  // Divisibility

  predicate DivisibleBy(e: SymExpr, m: Divisor)
    decreases e
  {
    match e
    case Const(c) => c % m == 0
    case Prod(fs) => fs != [] && fs[0].Const? && fs[0].c % m == 0
    case Sum(ts) => forall i :: 0 <= i < |ts| ==> DivisibleBy(ts[i], m)
    case Min(a, b) => DivisibleBy(a, m) && DivisibleBy(b, m)
    case Max(a, b) => DivisibleBy(a, m) && DivisibleBy(b, m)
    case _ => false
  }

  /** An expression found divisible is a multiple at every valuation. */
  lemma {:induction false} DivisibleValue(e: SymExpr, m: Divisor, env: Env)
    requires DivisibleBy(e, m)
    ensures Value(e, env) % m == 0
    decreases e
  {
    match e
    case Const(_) =>
    case Prod(fs) =>
      assert fs[0] == Const(fs[0].c);
      ConstValue(fs[0].c, env);
      MultipleTimes(fs[0].c, Product(fs[1..], env), m);
    case Sum(ts) => DivisibleTotal(ts, m, env);
    case Min(a, b) => DivisibleValue(a, m, env); DivisibleValue(b, m, env);
    case Max(a, b) => DivisibleValue(a, m, env); DivisibleValue(b, m, env);
  }

  lemma {:induction false} DivisibleTotal(ts: seq<SymExpr>, m: Divisor, env: Env)
    requires forall i :: 0 <= i < |ts| ==> DivisibleBy(ts[i], m)
    ensures Total(ts, env) % m == 0
    decreases ts
  {
    hide Value, DivisibleBy, Total;
    NoFactors(env);
    if ts != [] {
      DivisibleValue(ts[0], m, env);
      DivisibleTotal(ts[1..], m, env);
      assert ts == [ts[0]] + ts[1..];
      TotalAppend([ts[0]], ts[1..], env);
      TotalOne(ts[0], env);
      MultipleSum(Value(ts[0], env), Total(ts[1..], env), m);
    }
  }

  // Quotients

  /** The expression divided by `d`, rounded up. */
  function CeilQuotient(e: SymExpr, d: Divisor): (r: SymExpr)
    requires Shaped(e)
    ensures Shaped(r)
    decreases 1, 0, 0
  {
    if d == 1 then e else
    match e
    case Const(v) => Const(v / d + if v % d != 0 then 1 else 0)
    case _ => if DivisibleBy(e, d) then FloorQuotient(e, d) else CeilDiv(e, d)
  }

  /** The expression divided by `d`, rounded down. */
  function FloorQuotient(e: SymExpr, d: Divisor): (r: SymExpr)
    requires Shaped(e)
    ensures Shaped(r)
    decreases if DivisibleBy(e, d) then 0 else 2, Depth(e), 0
  {
    hide AddAll, MulAll, DivisibleBy, Depth, Shaped;
    if d == 1 then e else
    FloorDivShape(e, d);
    match e
    case Const(v) => ConstShape(v / d); Const(v / d)
    case Sum(ts) =>
      SumFacts(ts, d);
      if ts[|ts| - 1] == Const(d - 1) then CeilQuotient(AddAll(ts[..|ts| - 1]), d)
      else if forall i :: 0 <= i < |ts| ==> DivisibleBy(ts[i], d) then QuotientAll(ts, d)
      else FloorDiv(e, d)
    case Prod(fs) =>
      ProdFacts(fs);
      if fs[0].Const? && fs[0].c % d == 0 then
        LedShaped(fs, fs[0].c / d);
        MulAll([Const(fs[0].c / d)] + fs[1..])
      else FloorDiv(e, d)
    case _ => FloorDiv(e, d)
  }

  lemma FloorDivShape(e: SymExpr, d: Divisor)
    requires Shaped(e)
    ensures Shaped(FloorDiv(e, d))
  {
  }

  lemma SumFacts(ts: seq<SymExpr>, d: Divisor)
    requires Shaped(Sum(ts)) && d > 1
    ensures |ts| >= 2 && AllShaped(ts) && AllShaped(ts[..|ts| - 1]) && DepthAll(ts) < Depth(Sum(ts))
    ensures ts[|ts| - 1] == Const(d - 1) ==> !DivisibleBy(Sum(ts), d)
    ensures (forall i :: 0 <= i < |ts| ==> DivisibleBy(ts[i], d)) ==> DivisibleBy(Sum(ts), d)
  {
    assert AllShaped(ts);
    if ts[|ts| - 1] == Const(d - 1) {
      assert !DivisibleBy(ts[|ts| - 1], d);
    }
  }

  lemma ProdFacts(fs: seq<SymExpr>)
    requires Shaped(Prod(fs))
    ensures |fs| >= 2 && AllShaped(fs)
  {
    assert AllShaped(fs);
  }

  // The quotient of each of `ts`, added from the left.
  function QuotientAll(ts: seq<SymExpr>, d: Divisor): (r: SymExpr)
    requires ts != [] && AllShaped(ts) && forall i :: 0 <= i < |ts| ==> DivisibleBy(ts[i], d)
    ensures Shaped(r)
    decreases 0, DepthAll(ts), |ts|
  {
    var n := |ts| - 1;
    DepthPart(ts, ts[..n]);
    if n == 0 then FloorQuotient(ts[0], d) else Add(QuotientAll(ts[..n], d), FloorQuotient(ts[n], d))
  }

  lemma LedShaped(fs: seq<SymExpr>, k: Int64)
    requires fs != [] && AllShaped(fs)
    ensures AllShaped([Const(k)] + fs[1..])
  {
    forall i | 0 <= i < |fs| ensures Shaped(([Const(k)] + fs[1..])[i]) {
      if i > 0 {
        assert ([Const(k)] + fs[1..])[i] == fs[i];
      }
    }
  }

  lemma DividedByOne(x: int)
    ensures x / 1 == x && -(-x / 1) == x && x % 1 == 0
  {
  }

  lemma {:induction false} CeilQuotientValue(e: SymExpr, d: Divisor, env: Env)
    requires Shaped(e)
    ensures Value(CeilQuotient(e, d), env) == -(-Value(e, env) / d)
    decreases 1, 0, 0
  {
    hide FloorQuotient, DivisibleBy, Total, Product;
    DividedByOne(Value(e, env));
    if d > 1 {
      RoundsUp(Value(e, env), d);
      if !e.Const? && DivisibleBy(e, d) {
        DivisibleValue(e, d, env);
        FloorQuotientValue(e, d, env);
      }
    }
  }

  lemma {:induction false} FloorQuotientValue(e: SymExpr, d: Divisor, env: Env)
    requires Shaped(e)
    ensures Value(FloorQuotient(e, d), env) == Value(e, env) / d
    decreases if DivisibleBy(e, d) then 0 else 2, Depth(e), 0
  {
    DividedByOne(Value(e, env));
    if d > 1 {
      match e
      case Sum(ts) => SumQuotientValue(ts, d, env);
      case Prod(fs) => ProdQuotientValue(fs, d, env);
      case _ =>
    }
  }

  lemma {:induction false} SumQuotientValue(ts: seq<SymExpr>, d: Divisor, env: Env)
    requires Shaped(Sum(ts)) && d > 1
    ensures Value(FloorQuotient(Sum(ts), d), env) == Total(ts, env) / d
    decreases if DivisibleBy(Sum(ts), d) then 0 else 2, Depth(Sum(ts)), -1
  {
    hide CeilQuotient, AddAll, QuotientAll, Value, Total;
    assert AllShaped(ts);
    var n := |ts| - 1;
    if ts[n] == Const(d - 1) {
      assert !DivisibleBy(ts[n], d);
      DepthPart(ts, ts[..n]);
      AddAllValue(ts[..n], env);
      CeilQuotientValue(AddAll(ts[..n]), d, env);
      assert ts == ts[..n] + [ts[n]];
      TotalAppend(ts[..n], [ts[n]], env);
      ConstValue(d - 1, env);
      RoundsUp(Total(ts[..n], env), d);
    } else if forall i :: 0 <= i < |ts| ==> DivisibleBy(ts[i], d) {
      QuotientAllValue(ts, d, env);
    } else {
      FloorDivOfSum(ts, d, env);
    }
  }

  lemma FloorDivOfSum(ts: seq<SymExpr>, d: Divisor, env: Env)
    ensures Value(FloorDiv(Sum(ts), d), env) == Total(ts, env) / d
  {
    assert Value(Sum(ts), env) == Total(ts, env);
  }

  lemma ProdQuotientValue(fs: seq<SymExpr>, d: Divisor, env: Env)
    requires Shaped(Prod(fs)) && d > 1
    ensures Value(FloorQuotient(Prod(fs), d), env) == Product(fs, env) / d
  {
    hide MulAll, Product;
    assert AllShaped(fs);
    assert Value(Prod(fs), env) == Product(fs, env);
    if fs[0].Const? && fs[0].c % d == 0 {
      var k := fs[0].c / d;
      LedShaped(fs, k);
      MulAllValue([Const(k)] + fs[1..], env);
      ProductAppend([Const(k)], fs[1..], env);
      ConstValue(k, env);
      assert fs == [fs[0]] + fs[1..];
      ProductAppend([fs[0]], fs[1..], env);
      ProductOne(fs[0], env);
      MultipleTimes(fs[0].c, Product(fs[1..], env), d);
    }
  }

  lemma {:induction false} QuotientAllValue(ts: seq<SymExpr>, d: Divisor, env: Env)
    requires ts != [] && AllShaped(ts) && forall i :: 0 <= i < |ts| ==> DivisibleBy(ts[i], d)
    ensures Value(QuotientAll(ts, d), env) == Total(ts, env) / d
    decreases 0, DepthAll(ts), |ts|
  {
    hide Value, Total, Add, FloorQuotient, Depth, DepthAll, Shaped, DivisibleBy, Product;
    var n := |ts| - 1;
    DepthPart(ts, ts[..n]);
    FloorQuotientValue(ts[n], d, env);
    assert ts == ts[..n] + [ts[n]];
    TotalAppend(ts[..n], [ts[n]], env);
    TotalOne(ts[n], env);
    NoFactors(env);
    if n > 0 {
      QuotientAllValue(ts[..n], d, env);
      AddValue(QuotientAll(ts[..n], d), FloorQuotient(ts[n], d), env);
      DivisibleTotal(ts[..n], d, env);
      MultipleSum(Total(ts[..n], env), Value(ts[n], env), d);
    }
  }

  /** The expression modulo `d`. */
  function Remainder(e: SymExpr, d: Divisor): (r: SymExpr)
    requires Shaped(e)
    ensures Shaped(r)
    decreases e
  {
    if d == 1 then Const(0) else
    match e
    case Const(v) => Const(v % d)
    case Mod(x, a) => if a % d == 0 then Remainder(x, d) else Mod(e, d)
    case _ => Mod(e, d)
  }

  lemma {:induction false} RemainderValue(e: SymExpr, d: Divisor, env: Env)
    requires Shaped(e)
    ensures Value(Remainder(e, d), env) == Value(e, env) % d
    decreases e
  {
    DividedByOne(Value(e, env));
    if d > 1 && e.Mod? && e.d % d == 0 {
      RemainderValue(e.e, d, env);
      RemainderOfRemainder(Value(e.e, env), e.d, d);
    }
  }

  lemma RemainderOfRemainder(x: int, a: int, d: int)
    requires a > 0 && d > 0 && a % d == 0
    ensures x % a % d == x % d
  {
    assert x == a * (x / a) + x % a;
    MultipleTimes(a, x / a, d);
    MultipleSum(a * (x / a), x % a, d);
  }

  // Extremes

  // A lower bound while no symbol is negative, unless there is none or a partial sum does not fit.
  function Least(e: SymExpr): Option<Int64>
    decreases e
  {
    match e
    case Const(c) => Some(c)
    case Sym(_) => Some(0)
    case Mod(_, _) => Some(0)
    case Sum(ts) => LeastSum(ts, 0)
    case Prod(fs) => LeastProduct(fs, 1)
    case CeilDiv(x, d) =>
      (match Least(x)
       case Some(l) => if l == MIN then None else CeilFits(l, d); Some(-(-l / d))
       case None => None)
    case FloorDiv(x, d) =>
      (match Least(x)
       case Some(l) => FloorFits(l, d); Some(l / d)
       case None => None)
    case Min(a, b) =>
      (match (Least(a), Least(b))
       case (Some(x), Some(y)) => Some(if x < y then x else y)
       case _ => None)
    case Max(a, b) =>
      (match (Least(a), Least(b))
       case (Some(x), Some(y)) => Some(if x < y then y else x)
       case (Some(x), None) => Some(x)
       case (None, y) => y)
  }

  function LeastSum(ts: seq<SymExpr>, sum: Int64): Option<Int64>
    decreases ts
  {
    if ts == [] then Some(sum) else
    match Least(ts[0])
    case Some(l) => if Fits(sum + l) then LeastSum(ts[1..], sum + l) else None
    case None => None
  }

  function LeastProduct(fs: seq<SymExpr>, product: Int64): Option<Int64>
    decreases fs
  {
    if fs == [] then Some(product) else
    match Least(fs[0])
    case Some(l) => if l >= 0 && Fits(product * l) then LeastProduct(fs[1..], product * l) else None
    case None => None
  }

  ghost predicate NonNegative(env: Env) {
    forall s: Symbol :: env(s) >= 0
  }

  /** `Least` is below every value with no negative symbol. */
  lemma {:induction false} LeastIsBelow(e: SymExpr, env: Env)
    requires NonNegative(env) && Least(e).Some?
    ensures Least(e).value <= Value(e, env)
    decreases e
  {
    match e
    case Const(_) =>
    case Sym(_) =>
    case Mod(_, _) =>
    case Sum(ts) => LeastSumBelow(ts, 0, env);
    case Prod(fs) => LeastProductBelow(fs, 1, env);
    case CeilDiv(x, d) =>
      LeastIsBelow(x, env);
      FloorGrows(-Value(x, env), -Least(x).value, d);
    case FloorDiv(x, d) =>
      LeastIsBelow(x, env);
      FloorGrows(Least(x).value, Value(x, env), d);
    case Min(a, b) =>
      LeastIsBelow(a, env);
      LeastIsBelow(b, env);
    case Max(a, b) =>
      if Least(a).Some? {
        LeastIsBelow(a, env);
      }
      if Least(b).Some? {
        LeastIsBelow(b, env);
      }
  }

  lemma {:induction false} LeastSumBelow(ts: seq<SymExpr>, sum: Int64, env: Env)
    requires NonNegative(env) && LeastSum(ts, sum).Some?
    ensures LeastSum(ts, sum).value <= sum + Total(ts, env)
    decreases ts
  {
    if ts != [] {
      LeastIsBelow(ts[0], env);
      LeastSumBelow(ts[1..], sum + Least(ts[0]).value, env);
    }
  }

  lemma {:induction false} LeastProductBelow(fs: seq<SymExpr>, product: Int64, env: Env)
    requires NonNegative(env) && LeastProduct(fs, product).Some? && product >= 0
    ensures 0 <= LeastProduct(fs, product).value <= product * Product(fs, env)
    ensures Product(fs, env) >= 0
    decreases fs
  {
    if fs != [] {
      var l, v, rest := Least(fs[0]).value, Value(fs[0], env), Product(fs[1..], env);
      LeastIsBelow(fs[0], env);
      LeastProductBelow(fs[1..], product * l, env);
      TimesGrows(l, v, product, rest);
    }
  }

  lemma TimesGrows(l: int, v: int, p: int, rest: int)
    requires 0 <= l <= v && 0 <= p && 0 <= rest
    ensures (p * l) * rest <= p * (v * rest) && v * rest >= 0
  {
    assert l * rest <= v * rest by { assert v * rest == l * rest + (v - l) * rest; }
    Associates(p, l, rest);
    assert p * (v * rest) == p * (l * rest) + p * (v * rest - l * rest);
  }

  /** The minimum, folded if both sides are constants. */
  function Lesser(a: SymExpr, b: SymExpr): (r: SymExpr)
    requires Shaped(a) && Shaped(b)
    ensures Shaped(r)
    ensures forall env: Env :: Value(r, env) == if Value(a, env) < Value(b, env) then Value(a, env) else Value(b, env)
  {
    if a.Const? && b.Const? then Const(if a.c < b.c then a.c else b.c) else Min(a, b)
  }

  /** The maximum; just one side where a lower bound shows the constant other never exceeds it. */
  function Larger(a: SymExpr, b: SymExpr): (r: SymExpr)
    requires Shaped(a) && Shaped(b)
    ensures Shaped(r)
  {
    if a.Const? && b.Const? then Const(if a.c < b.c then b.c else a.c)
    else if b.Const? && Least(a).Some? && Least(a).value >= b.c then a
    else if a.Const? && Least(b).Some? && Least(b).value >= a.c then b
    else Max(a, b)
  }

  lemma LargerValue(a: SymExpr, b: SymExpr, env: Env)
    requires Shaped(a) && Shaped(b) && NonNegative(env)
    ensures Value(Larger(a, b), env) == if Value(a, env) < Value(b, env) then Value(b, env) else Value(a, env)
  {
    if Least(a).Some? {
      LeastIsBelow(a, env);
    }
    if Least(b).Some? {
      LeastIsBelow(b, env);
    }
  }

  // Binding

  type Bindings = map<Symbol, Int64>

  function BoundAt(bindings: Bindings, env: Env, s: Symbol): int {
    if s in bindings then bindings[s] else env(s)
  }

  function Bound(bindings: Bindings, env: Env): Env {
    (s: Symbol) => BoundAt(bindings, env, s)
  }

  /** The expression with the bound symbols' values, built again by the constructors. */
  function Bind(e: SymExpr, bindings: Bindings): (r: SymExpr)
    requires Shaped(e)
    ensures Shaped(r)
    decreases e
  {
    match e
    case Const(c) => Const(c)
    case Sym(s) => if s in bindings then Const(bindings[s]) else Sym(s)
    case Sum(ts) => assert AllShaped(ts); AddBound(ts, bindings)
    case Prod(fs) => assert AllShaped(fs); MulBound(fs, bindings)
    case CeilDiv(x, d) => CeilQuotient(Bind(x, bindings), d)
    case FloorDiv(x, d) => FloorQuotient(Bind(x, bindings), d)
    case Mod(x, d) => Remainder(Bind(x, bindings), d)
    case Min(a, b) => Lesser(Bind(a, bindings), Bind(b, bindings))
    case Max(a, b) => Larger(Bind(a, bindings), Bind(b, bindings))
  }

  function AddBound(ts: seq<SymExpr>, bindings: Bindings): (r: SymExpr)
    requires ts != [] && AllShaped(ts)
    ensures Shaped(r)
    decreases ts
  {
    var n := |ts| - 1;
    if n == 0 then Bind(ts[0], bindings) else
    DepthPart(ts, ts[..n]);
    Add(AddBound(ts[..n], bindings), Bind(ts[n], bindings))
  }

  function MulBound(fs: seq<SymExpr>, bindings: Bindings): (r: SymExpr)
    requires fs != [] && AllShaped(fs)
    ensures Shaped(r)
    decreases fs
  {
    var n := |fs| - 1;
    if n == 0 then Bind(fs[0], bindings) else
    DepthPart(fs, fs[..n]);
    Mul(MulBound(fs[..n], bindings), Bind(fs[n], bindings))
  }

  /** Binding commutes with evaluation where no other symbol is negative. */
  lemma {:induction false} BindValue(e: SymExpr, bindings: Bindings, env: Env)
    requires Shaped(e) && NonNegative(env)
    ensures Value(Bind(e, bindings), env) == Value(e, Bound(bindings, env))
    decreases e
  {
    hide Add, Mul, CeilQuotient, FloorQuotient, Remainder, Larger, AddBound, MulBound, Total, Product;
    match e
    case Const(_) =>
    case Sym(_) =>
    case Sum(ts) =>
      assert AllShaped(ts);
      AddBoundValue(ts, bindings, env);
    case Prod(fs) =>
      assert AllShaped(fs);
      MulBoundValue(fs, bindings, env);
    case CeilDiv(x, d) =>
      BindValue(x, bindings, env);
      CeilQuotientValue(Bind(x, bindings), d, env);
    case FloorDiv(x, d) =>
      BindValue(x, bindings, env);
      FloorQuotientValue(Bind(x, bindings), d, env);
    case Mod(x, d) =>
      BindValue(x, bindings, env);
      RemainderValue(Bind(x, bindings), d, env);
    case Min(a, b) =>
      BindValue(a, bindings, env);
      BindValue(b, bindings, env);
    case Max(a, b) =>
      BindValue(a, bindings, env);
      BindValue(b, bindings, env);
      LargerValue(Bind(a, bindings), Bind(b, bindings), env);
  }

  lemma {:induction false} AddBoundValue(ts: seq<SymExpr>, bindings: Bindings, env: Env)
    requires ts != [] && AllShaped(ts) && NonNegative(env)
    ensures Value(AddBound(ts, bindings), env) == Total(ts, Bound(bindings, env))
    decreases ts
  {
    hide Value, Total, Add, Bind;
    var n := |ts| - 1;
    DepthPart(ts, ts[..n]);
    BindValue(ts[n], bindings, env);
    assert ts == ts[..n] + [ts[n]];
    TotalAppend(ts[..n], [ts[n]], Bound(bindings, env));
    TotalOne(ts[n], Bound(bindings, env));
    NoFactors(Bound(bindings, env));
    if n > 0 {
      AddBoundValue(ts[..n], bindings, env);
      AddValue(AddBound(ts[..n], bindings), Bind(ts[n], bindings), env);
    }
  }

  lemma {:induction false} MulBoundValue(fs: seq<SymExpr>, bindings: Bindings, env: Env)
    requires fs != [] && AllShaped(fs) && NonNegative(env)
    ensures Value(MulBound(fs, bindings), env) == Product(fs, Bound(bindings, env))
    decreases fs
  {
    hide Value, Product, Mul, Bind;
    var n := |fs| - 1;
    DepthPart(fs, fs[..n]);
    BindValue(fs[n], bindings, env);
    assert fs == fs[..n] + [fs[n]];
    ProductAppend(fs[..n], [fs[n]], Bound(bindings, env));
    ProductOne(fs[n], Bound(bindings, env));
    NoFactors(Bound(bindings, env));
    if n > 0 {
      MulBoundValue(fs[..n], bindings, env);
      MulValue(MulBound(fs[..n], bindings), Bind(fs[n], bindings), env);
    }
  }
}
