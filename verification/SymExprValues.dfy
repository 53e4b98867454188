/** The simplifying constructors give expressions of the value of the operation. */
module SymExprValues {
  import opened Wrappers
  import opened SymExprs
  import opened Divisions

  lemma {:induction false} TotalAppend(xs: seq<SymExpr>, ys: seq<SymExpr>, env: Env)
    ensures Total(xs + ys, env) == Total(xs, env) + Total(ys, env)
  {
    if xs == [] {
      assert xs + ys == ys;
    } else {
      assert (xs + ys)[1..] == xs[1..] + ys;
      TotalAppend(xs[1..], ys, env);
    }
  }

  lemma {:induction false} ProductAppend(xs: seq<SymExpr>, ys: seq<SymExpr>, env: Env)
    ensures Product(xs + ys, env) == Product(xs, env) * Product(ys, env)
  {
    if xs == [] {
      assert xs + ys == ys;
    } else {
      assert (xs + ys)[1..] == xs[1..] + ys;
      ProductAppend(xs[1..], ys, env);
      Associates(Value(xs[0], env), Product(xs[1..], env), Product(ys, env));
    }
  }

  lemma TotalOne(t: SymExpr, env: Env)
    ensures Total([t], env) == Value(t, env)
  {
    assert [t][1..] == [];
  }

  lemma ProductOne(t: SymExpr, env: Env)
    ensures Product([t], env) == Value(t, env)
  {
    assert [t][1..] == [];
  }

  // What is left of `ys` without one `x`.
  lemma Without(xs: seq<SymExpr>, ys: seq<SymExpr>) returns (i: nat)
    requires xs != [] && multiset(xs) == multiset(ys)
    ensures i < |ys| && ys[i] == xs[0] && ys == ys[..i] + [ys[i]] + ys[i + 1..]
    ensures multiset(xs[1..]) == multiset(ys[..i] + ys[i + 1..])
  {
    hide *;
    assert xs[0] in multiset(ys);
    i :| 0 <= i < |ys| && ys[i] == xs[0];
    DropsOne(xs, 0);
    DropsOne(ys, i);
    assert xs[..0] + xs[1..] == xs[1..];
  }

  lemma DropsOne(xs: seq<SymExpr>, i: nat)
    requires i < |xs|
    ensures xs == xs[..i] + [xs[i]] + xs[i + 1..]
    ensures multiset(xs[..i] + xs[i + 1..]) == multiset(xs) - multiset{xs[i]}
  {
    hide *;
    assert xs == xs[..i] + [xs[i]] + xs[i + 1..];
    assert multiset(xs) == multiset(xs[..i] + xs[i + 1..]) + multiset{xs[i]};
  }

  lemma {:induction false} TotalSame(xs: seq<SymExpr>, ys: seq<SymExpr>, env: Env)
    requires multiset(xs) == multiset(ys)
    ensures Total(xs, env) == Total(ys, env)
  {
    if xs == [] {
      assert |multiset(ys)| == |ys|;
    } else {
      var i := Without(xs, ys);
      TotalSame(xs[1..], ys[..i] + ys[i + 1..], env);
      TotalAppend(ys[..i], ys[i + 1..], env);
      TotalAppend(ys[..i], [ys[i]], env);
      TotalAppend(ys[..i] + [ys[i]], ys[i + 1..], env);
      TotalOne(ys[i], env);
    }
  }

  lemma {:induction false} ProductSame(xs: seq<SymExpr>, ys: seq<SymExpr>, env: Env)
    requires multiset(xs) == multiset(ys)
    ensures Product(xs, env) == Product(ys, env)
  {
    if xs == [] {
      assert |multiset(ys)| == |ys|;
    } else {
      var i := Without(xs, ys);
      ProductSame(xs[1..], ys[..i] + ys[i + 1..], env);
      ProductAppend(ys[..i], ys[i + 1..], env);
      ProductAppend(ys[..i], [ys[i]], env);
      ProductAppend(ys[..i] + [ys[i]], ys[i + 1..], env);
      ProductOne(ys[i], env);
      Swaps(Product(ys[..i], env), Value(ys[i], env), Product(ys[i + 1..], env));
    }
  }

  lemma Swaps(x: int, y: int, z: int)
    ensures (x * y) * z == y * (x * z)
  {
  }

  // Products

  lemma {:induction false} FlattenValue(fs: seq<SymExpr>, konst: Int64, factors: seq<SymExpr>,
                                        overflowed: seq<SymExpr>, env: Env)
    ensures var (k, f, o) := Flatten(fs, konst, factors, overflowed);
      k * (Product(f, env) * Product(o, env)) == konst * (Product(factors, env) * Product(overflowed, env)) * Product(fs, env)
  {
    var p, q := Product(factors, env), Product(overflowed, env);
    if fs == [] {
    } else {
      var v, rest := Value(fs[0], env), Product(fs[1..], env);
      ProductOne(fs[0], env);
      match fs[0] {
        case Const(c) =>
          if Fits(konst * c) {
            FlattenValue(fs[1..], konst * c, factors, overflowed, env);
            MovesToConst(konst, c, p * q, rest);
          } else {
            FlattenValue(fs[1..], konst, factors, overflowed + [fs[0]], env);
            ProductAppend(overflowed, [fs[0]], env);
            MovesToSecond(konst, p, q, v, rest);
          }
        case _ =>
          FlattenValue(fs[1..], konst, factors + [fs[0]], overflowed, env);
          ProductAppend(factors, [fs[0]], env);
          MovesToFirst(konst, p, q, v, rest);
      }
    }
  }

  lemma MovesToConst(k: int, v: int, x: int, rest: int)
    ensures (k * v) * x * rest == k * x * (v * rest)
  {
    assert (k * v) * x == k * x * v by { Associates(k, v, x); Associates(k, x, v); }
    Associates(k * x, v, rest);
  }

  lemma MovesToFirst(k: int, p: int, q: int, v: int, rest: int)
    ensures k * ((p * v) * q) * rest == k * (p * q) * (v * rest)
  {
    assert (p * v) * q == (p * q) * v by { Associates(p, v, q); Associates(p, q, v); }
    Associates(k, p * q, v);
    Associates(k * (p * q), v, rest);
  }

  lemma MovesToSecond(k: int, p: int, q: int, v: int, rest: int)
    ensures k * (p * (q * v)) * rest == k * (p * q) * (v * rest)
  {
    Associates(p, q, v);
    Associates(k, p * q, v);
    Associates(k * (p * q), v, rest);
  }

  lemma FactorsValue(e: SymExpr, env: Env)
    ensures Product(Factors(e), env) == Value(e, env)
  {
    if !e.Prod? {
      ProductOne(e, env);
    }
  }

  lemma ProdValue(fs: seq<SymExpr>, env: Env)
    requires fs != []
    ensures Value(if |fs| == 1 then fs[0] else Prod(fs), env) == Product(fs, env)
  {
    if |fs| == 1 {
      assert fs == [fs[0]];
      ProductOne(fs[0], env);
    }
  }

  lemma MulFlatValue(a: SymExpr, b: SymExpr, env: Env)
    ensures Value(MulFlat(a, b), env) == Value(a, env) * Value(b, env)
  {
    hide Value, Product, Flatten, Sorted;
    FactorsValue(a, env);
    FactorsValue(b, env);
    ProductAppend(Factors(a), Factors(b), env);
    FlattenValue(Factors(a) + Factors(b), 1, [], [], env);
    NoFactors(env);
    var (konst, factors, overflowed) := Flatten(Factors(a) + Factors(b), 1, [], []);
    ProductSame(Sorted(factors), factors, env);
    ProductAppend(Sorted(factors), overflowed, env);
    var fs := Sorted(factors) + overflowed;
    var all := if konst != 1 || fs == [] then [Const(konst)] + fs else fs;
    ProductAppend([Const(konst)], fs, env);
    ConstValue(konst, env);
    ProdValue(all, env);
    ConstValue(0, env);
  }

  lemma NoFactors(env: Env)
    ensures Product([], env) == 1 && Total([], env) == 0
  {
  }

  lemma ConstValue(c: Int64, env: Env)
    ensures Value(Const(c), env) == c && Product([Const(c)], env) == c && Total([Const(c)], env) == c
  {
    ProductOne(Const(c), env);
    TotalOne(Const(c), env);
  }

  lemma {:induction false} MulValue(a: SymExpr, b: SymExpr, env: Env)
    requires Shaped(a) && Shaped(b)
    ensures Value(Mul(a, b), env) == Value(a, env) * Value(b, env)
    decreases Greater(Depth(a), Depth(b)), 0, 0
  {
    hide MulFlat, Scaled, Total, Product;
    if a.Const? && b.Sum? {
      ScaledValue(a.c, b.terms, env);
    } else if a.Sum? && b.Const? {
      ScaledValue(b.c, a.terms, env);
    } else {
      MulFlatValue(a, b, env);
    }
  }

  lemma {:induction false} ScaledValue(c: Int64, ts: seq<SymExpr>, env: Env)
    requires ts != [] && AllShaped(ts)
    ensures Value(Scaled(c, ts), env) == c * Total(ts, env)
    decreases DepthAll(ts), 5, |ts|
  {
    hide Value, Total, Mul, Add, Shaped, Depth, DepthAll, Parts, Product;
    var n := |ts| - 1;
    ConstShape(c);
    DepthPart(ts, ts[..n]);
    PartsDepth(Mul(Const(c), ts[n]));
    MulValue(Const(c), ts[n], env);
    ConstValue(c, env);
    assert ts == ts[..n] + [ts[n]];
    TotalAppend(ts[..n], [ts[n]], env);
    TotalOne(ts[n], env);
    if n > 0 {
      ScaledValue(c, ts[..n], env);
      AddValue(Scaled(c, ts[..n]), Mul(Const(c), ts[n]), env);
      Distributes(c, Total(ts[..n], env), Value(ts[n], env));
    } else {
      NoFactors(env);
    }
  }

  // Sums

  lemma {:induction false} CollectValue(ts: seq<SymExpr>, konst: Int64, terms: seq<SymExpr>, env: Env)
    ensures var (k, out) := Collect(ts, konst, terms); k + Total(out, env) == konst + Total(terms, env) + Total(ts, env)
  {
    if ts != [] {
      TotalOne(ts[0], env);
      TotalAppend(terms, [ts[0]], env);
      match ts[0] {
        case Const(c) =>
          if Fits(konst + c) {
            CollectValue(ts[1..], konst + c, terms, env);
          } else {
            CollectValue(ts[1..], konst, terms + [ts[0]], env);
          }
        case _ => CollectValue(ts[1..], konst, terms + [ts[0]], env);
      }
    }
  }

  ghost function GroupTotal(grouped: seq<(SymExpr, Int64)>, env: Env): int {
    if grouped == [] then 0 else grouped[0].1 * Value(grouped[0].0, env) + GroupTotal(grouped[1..], env)
  }

  lemma {:induction false} GroupAppends(grouped: seq<(SymExpr, Int64)>, g: (SymExpr, Int64), env: Env)
    ensures GroupTotal(grouped + [g], env) == GroupTotal(grouped, env) + g.1 * Value(g.0, env)
  {
    if grouped == [] {
      assert [g][1..] == [];
    } else {
      assert (grouped + [g])[1..] == grouped[1..] + [g];
      GroupAppends(grouped[1..], g, env);
    }
  }

  lemma {:induction false} GroupGrows(grouped: seq<(SymExpr, Int64)>, i: nat, n: Int64, c: int, env: Env)
    requires i < |grouped| && n == grouped[i].1 + c
    ensures GroupTotal(grouped[i := (grouped[i].0, n)], env) == GroupTotal(grouped, env) + c * Value(grouped[i].0, env)
  {
    var next := grouped[i := (grouped[i].0, n)];
    if i == 0 {
      assert next[1..] == grouped[1..];
      SumTimes(grouped[0].1, c, Value(grouped[0].0, env));
    } else {
      assert next[1..] == grouped[1..][i - 1 := (grouped[1..][i - 1].0, n)];
      GroupGrows(grouped[1..], i - 1, n, c, env);
    }
  }

  lemma SumTimes(x: int, y: int, v: int)
    ensures (x + y) * v == x * v + y * v
  {
  }

  lemma {:induction false} GroupValue(ts: seq<SymExpr>, grouped: seq<(SymExpr, Int64)>, kept: seq<SymExpr>, d: nat,
                                      env: Env)
    requires SymExprs.Within(ts, d) && GroupedWithin(grouped, d) && SymExprs.Within(kept, d)
    ensures var (g, k) := Group(ts, grouped, kept, d);
      GroupTotal(g, env) + Total(k, env) == GroupTotal(grouped, env) + Total(kept, env) + Total(ts, env)
    decreases d, 3, |ts|
  {
    hide Value, Mul, MulFlat, SplitConst, GroupTotal, Depth, Shaped;
    if ts != [] {
      var (c, rest) := SplitConst(ts[0]);
      ConstShape(c);
      SplitValue(ts[0], env);
      var i := Find(grouped, rest);
      if i == |grouped| {
        GroupAppends(grouped, (rest, c), env);
        GroupValue(ts[1..], grouped + [(rest, c)], kept, d, env);
      } else if Fits(grouped[i].1 + c) {
        GroupGrows(grouped, i, grouped[i].1 + c, c, env);
        GroupValue(ts[1..], grouped[i := (rest, grouped[i].1 + c)], kept, d, env);
      } else {
        MulValue(Const(c), rest, env);
        ConstValue(c, env);
        TotalOne(Mul(Const(c), rest), env);
        TotalAppend(kept, [Mul(Const(c), rest)], env);
        GroupValue(ts[1..], grouped, kept + [Mul(Const(c), rest)], d, env);
      }
    }
  }

  lemma {:induction false} RebuiltValue(grouped: seq<(SymExpr, Int64)>, d: nat, env: Env)
    requires GroupedWithin(grouped, d)
    ensures Total(Rebuilt(grouped, d), env) == GroupTotal(grouped, env)
    decreases d, 3, |grouped|
  {
    hide Value, Mul, Depth, Shaped;
    if grouped != [] {
      ConstShape(grouped[0].1);
      RebuiltValue(grouped[1..], d, env);
      if grouped[0].1 != 0 {
        var t := Mul(Const(grouped[0].1), grouped[0].0);
        MulValue(Const(grouped[0].1), grouped[0].0, env);
        ConstValue(grouped[0].1, env);
        TotalOne(t, env);
        TotalAppend([t], Rebuilt(grouped[1..], d), env);
        assert Rebuilt(grouped, d) == [t] + Rebuilt(grouped[1..], d);
      } else {
        assert Rebuilt(grouped, d) == [] + Rebuilt(grouped[1..], d) == Rebuilt(grouped[1..], d);
      }
    }
  }

  lemma {:induction false} SplitValue(e: SymExpr, env: Env)
    requires Shaped(e)
    ensures var (c, rest) := SplitConst(e); c * Value(rest, env) == Value(e, env)
    decreases Depth(e), 2, 0
  {
    hide MulAll;
    match e
    case Const(c) => ConstValue(1, env);
    case Prod(fs) =>
      assert AllShaped(fs);
      DepthPart(fs, fs[1..]);
      if fs[0].Const? {
        MulAllValue(fs[1..], env);
        assert fs[0] == Const(fs[0].c);
        ConstValue(fs[0].c, env);
        assert Product(fs, env) == Value(fs[0], env) * Product(fs[1..], env);
        assert SplitConst(e) == (fs[0].c, MulAll(fs[1..]));
      }
    case _ =>
  }

  lemma {:induction false} MulAllValue(fs: seq<SymExpr>, env: Env)
    requires fs != [] && AllShaped(fs)
    ensures Value(MulAll(fs), env) == Product(fs, env)
    decreases DepthAll(fs), 1, |fs|
  {
    hide Value, Product, Mul;
    var n := |fs| - 1;
    DepthPart(fs, fs[..n]);
    assert fs == fs[..n] + [fs[n]];
    ProductAppend(fs[..n], [fs[n]], env);
    ProductOne(fs[n], env);
    if n > 0 {
      MulAllValue(fs[..n], env);
      MulValue(MulAll(fs[..n]), fs[n], env);
    } else {
      NoFactors(env);
    }
  }

  lemma PartsValue(e: SymExpr, env: Env)
    ensures Total(Parts(e), env) == Value(e, env)
  {
    if !e.Sum? {
      TotalOne(e, env);
    }
  }

  lemma SumValue(ts: seq<SymExpr>, env: Env)
    requires ts != []
    ensures Value(if |ts| == 1 then ts[0] else Sum(ts), env) == Total(ts, env)
  {
    if |ts| == 1 {
      assert ts == [ts[0]];
      TotalOne(ts[0], env);
    }
  }

  /** A sum has the value of the sum, whatever folded, grouped or stayed apart for not fitting. */
  lemma {:induction false} AddValue(a: SymExpr, b: SymExpr, env: Env)
    requires Shaped(a) && Shaped(b)
    ensures Value(Add(a, b), env) == Value(a, env) + Value(b, env)
    decreases Greater(DepthAll(Parts(a)), DepthAll(Parts(b))), 4, 0
  {
    hide Value, Total, Collect, Group, Rebuilt, Assembled, Parts, DepthAll, GroupTotal;
    var d := Greater(DepthAll(Parts(a)), DepthAll(Parts(b)));
    AddStarts(a, b);
    PartsValue(a, env);
    PartsValue(b, env);
    TotalAppend(Parts(a), Parts(b), env);
    CollectValue(Parts(a) + Parts(b), 0, [], env);
    NoFactors(env);
    var (konst, terms) := Collect(Parts(a) + Parts(b), 0, []);
    GroupValue(terms, [], [], d, env);
    NoGroups(env);
    var (grouped, kept) := Group(terms, [], [], d);
    RebuiltValue(grouped, d, env);
    TotalAppend(Rebuilt(grouped, d), kept, env);
    AssembledValue(konst, Rebuilt(grouped, d) + kept, d, env);
  }

  lemma AssembledValue(konst: Int64, terms: seq<SymExpr>, d: nat, env: Env)
    requires SymExprs.Within(terms, d)
    ensures Value(Assembled(konst, terms, d), env) == konst + Total(terms, env)
  {
    hide Value, Total, Sorted, PositiveFirst;
    var ts := Sorted(terms);
    TotalSame(ts, terms, env);
    ConstValue(konst, env);
    TotalAppend(ts, [Const(konst)], env);
    NoFactors(env);
    var with := if konst != 0 || ts == [] then ts + [Const(konst)] else ts;
    TotalSame(PositiveFirst(with), with, env);
    WithinSorted(terms, d);
    WithinPositive(with, d);
    SumValue(PositiveFirst(with), env);
  }

  lemma NoGroups(env: Env)
    ensures GroupTotal([], env) == 0
  {
  }
}
