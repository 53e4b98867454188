/** Counts as symbolic expressions, built only by constructors that simplify. */
module SymExprs {
  import opened Wrappers

  const MIN: int := -0x8000_0000_0000_0000
  const MAX: int := 0x7FFF_FFFF_FFFF_FFFF

  predicate Fits(x: int) {
    MIN <= x <= MAX
  }

  type Int64 = x: int | -0x8000_0000_0000_0000 <= x <= 0x7FFF_FFFF_FFFF_FFFF
  type Divisor = x: int | 0 < x <= 0x7FFF_FFFF_FFFF_FFFF witness 1

  // A symbol, standing for a parameter, a register of the launch, an unknown value, a trip count or an address.
  type Symbol = nat
  type Env = Symbol -> int

  datatype SymExpr =
    | Const(c: Int64)
    | Sym(s: Symbol)
    | Sum(terms: seq<SymExpr>)
    | Prod(factors: seq<SymExpr>)
    | CeilDiv(e: SymExpr, d: Divisor)
    | FloorDiv(e: SymExpr, d: Divisor)
    | Mod(e: SymExpr, d: Divisor)
    | Min(a: SymExpr, b: SymExpr)
    | Max(a: SymExpr, b: SymExpr)

  // What an expression means

  function Value(e: SymExpr, env: Env): int
    decreases e
  {
    match e
    case Const(c) => c
    case Sym(s) => env(s)
    case Sum(ts) => Total(ts, env)
    case Prod(fs) => Product(fs, env)
    case CeilDiv(x, d) => -(-Value(x, env) / d)
    case FloorDiv(x, d) => Value(x, env) / d
    case Mod(x, d) => Value(x, env) % d
    case Min(a, b) => var x, y := Value(a, env), Value(b, env); if x < y then x else y
    case Max(a, b) => var x, y := Value(a, env), Value(b, env); if x < y then y else x
  }

  function Total(ts: seq<SymExpr>, env: Env): int
    decreases ts
  {
    if ts == [] then 0 else Value(ts[0], env) + Total(ts[1..], env)
  }

  function Product(fs: seq<SymExpr>, env: Env): int
    decreases fs
  {
    if fs == [] then 1 else Value(fs[0], env) * Product(fs[1..], env)
  }

  // Sums and products have at least two parts, all the way down.
  ghost predicate Shaped(e: SymExpr)
    decreases e
  {
    match e
    case Const(_) => true
    case Sym(_) => true
    case Sum(ts) => |ts| >= 2 && AllShaped(ts)
    case Prod(fs) => |fs| >= 2 && AllShaped(fs)
    case CeilDiv(x, _) => Shaped(x)
    case FloorDiv(x, _) => Shaped(x)
    case Mod(x, _) => Shaped(x)
    case Min(a, b) => Shaped(a) && Shaped(b)
    case Max(a, b) => Shaped(a) && Shaped(b)
  }

  ghost predicate AllShaped(ts: seq<SymExpr>)
    decreases ts
  {
    forall i :: 0 <= i < |ts| ==> Shaped(ts[i])
  }

  // How deep sums nest in each other through terms and factors, which bounds the constructors' recursion.
  ghost function Depth(e: SymExpr): nat
    decreases e
  {
    match e
    case Sum(ts) => 1 + DepthAll(ts)
    case Prod(fs) => DepthAll(fs)
    case _ => 0
  }

  ghost function DepthAll(ts: seq<SymExpr>): (d: nat)
    ensures forall t :: t in ts ==> Depth(t) <= d
    decreases ts
  {
    if ts == [] then 0 else
    var first, rest := Depth(ts[0]), DepthAll(ts[1..]);
    assert ts == [ts[0]] + ts[1..];
    if first < rest then rest else first
  }

  ghost predicate Within(ts: seq<SymExpr>, d: nat) {
    forall t :: t in ts ==> Shaped(t) && Depth(t) <= d
  }

  function Parts(e: SymExpr): (ts: seq<SymExpr>)
    ensures |ts| >= 1 || e == Sum([])
  {
    if e.Sum? then e.terms else [e]
  }

  // Order and sorting

  // The order the source derives: by constructor, then by content.
  function Kind(e: SymExpr): nat {
    match e
    case Const(_) => 0
    case Sym(_) => 1
    case Sum(_) => 2
    case Prod(_) => 3
    case CeilDiv(_, _) => 4
    case FloorDiv(_, _) => 5
    case Mod(_, _) => 6
    case Min(_, _) => 7
    case Max(_, _) => 8
  }

  function Sign(x: int, y: int): int {
    if x < y then -1 else if x > y then 1 else 0
  }

  // Negative where `x` comes first.
  function Compare(x: SymExpr, y: SymExpr): int
    decreases x
  {
    if Kind(x) != Kind(y) then Sign(Kind(x), Kind(y)) else
    match x
    case Const(c) => Sign(c, y.c)
    case Sym(s) => Sign(s, y.s)
    case Sum(ts) => CompareAll(ts, y.terms)
    case Prod(fs) => CompareAll(fs, y.factors)
    case CeilDiv(e, d) => var c := Compare(e, y.e); if c != 0 then c else Sign(d, y.d)
    case FloorDiv(e, d) => var c := Compare(e, y.e); if c != 0 then c else Sign(d, y.d)
    case Mod(e, d) => var c := Compare(e, y.e); if c != 0 then c else Sign(d, y.d)
    case Min(a, b) => var c := Compare(a, y.a); if c != 0 then c else Compare(b, y.b)
    case Max(a, b) => var c := Compare(a, y.a); if c != 0 then c else Compare(b, y.b)
  }

  function CompareAll(xs: seq<SymExpr>, ys: seq<SymExpr>): int
    decreases xs
  {
    if xs == [] || ys == [] then Sign(|xs|, |ys|) else
    var c := Compare(xs[0], ys[0]);
    if c != 0 then c else CompareAll(xs[1..], ys[1..])
  }

  function Sorted(ts: seq<SymExpr>): (out: seq<SymExpr>)
    ensures multiset(out) == multiset(ts)
  {
    if ts == [] then [] else
    assert ts == ts[..|ts| - 1] + [ts[|ts| - 1]];
    Inserted(Sorted(ts[..|ts| - 1]), ts[|ts| - 1])
  }

  // `t` after every term of the sorted `ts` that does not come after it.
  function Inserted(ts: seq<SymExpr>, t: SymExpr): (out: seq<SymExpr>)
    ensures multiset(out) == multiset(ts) + multiset{t}
  {
    if ts == [] then [t] else
    assert ts == ts[..|ts| - 1] + [ts[|ts| - 1]];
    if Compare(t, ts[|ts| - 1]) >= 0 then ts + [t] else Inserted(ts[..|ts| - 1], t) + [ts[|ts| - 1]]
  }

  // A constant, or a product led by one, that is below zero.
  predicate Negated(t: SymExpr) {
    match t
    case Const(c) => c < 0
    case Prod(fs) => fs != [] && fs[0].Const? && fs[0].c < 0
    case _ => false
  }

  function PositiveFirst(ts: seq<SymExpr>): (out: seq<SymExpr>)
    ensures multiset(out) == multiset(ts)
  {
    PickedAll(ts);
    Picked(ts, false) + Picked(ts, true)
  }

  function Picked(ts: seq<SymExpr>, negated: bool): seq<SymExpr> {
    if ts == [] then [] else (if Negated(ts[0]) == negated then [ts[0]] else []) + Picked(ts[1..], negated)
  }

  lemma {:induction false} PickedAll(ts: seq<SymExpr>)
    ensures multiset(Picked(ts, false)) + multiset(Picked(ts, true)) == multiset(ts)
  {
    if ts != [] {
      assert ts == [ts[0]] + ts[1..];
      PickedAll(ts[1..]);
    }
  }

  // Constructors

  function MulFlat(a: SymExpr, b: SymExpr): SymExpr {
    var (konst, factors, overflowed) := Flatten(Factors(a) + Factors(b), 1, [], []);
    var fs := Sorted(factors) + overflowed;
    if konst == 0 then Const(0) else
    var all := if konst != 1 || fs == [] then [Const(konst)] + fs else fs;
    if |all| == 1 then all[0] else Prod(all)
  }

  function Factors(e: SymExpr): seq<SymExpr> {
    if e.Prod? then e.factors else [e]
  }

  // Folds each constant of `fs` into `konst` while the product fits.
  function Flatten(fs: seq<SymExpr>, konst: Int64, factors: seq<SymExpr>, overflowed: seq<SymExpr>)
    : (Int64, seq<SymExpr>, seq<SymExpr>)
  {
    if fs == [] then (konst, factors, overflowed) else
    match fs[0]
    case Const(c) =>
      if Fits(konst * c) then Flatten(fs[1..], konst * c, factors, overflowed)
      else Flatten(fs[1..], konst, factors, overflowed + [fs[0]])
    case f => Flatten(fs[1..], konst, factors + [f], overflowed)
  }

  function Mul(a: SymExpr, b: SymExpr): (r: SymExpr)
    requires Shaped(a) && Shaped(b)
    ensures Shaped(r) && Depth(r) <= Greater(Depth(a), Depth(b))
    decreases Greater(Depth(a), Depth(b)), 0, 0
  {
    if a.Const? && b.Sum? then Scaled(a.c, b.terms)
    else if a.Sum? && b.Const? then Scaled(b.c, a.terms)
    else
      MulFlatShape(a, b);
      MulFlat(a, b)
  }

  // `c` times each of `ts`, added from the left.
  function Scaled(c: Int64, ts: seq<SymExpr>): (r: SymExpr)
    requires ts != [] && AllShaped(ts)
    ensures Shaped(r) && DepthAll(Parts(r)) <= DepthAll(ts)
    decreases DepthAll(ts), 5, |ts|
  {
    var n := |ts| - 1;
    DepthPart(ts, ts[..n]);
    PartsDepth(Mul(Const(c), ts[n]));
    if n == 0 then Mul(Const(c), ts[0])
    else Add(Scaled(c, ts[..n]), Mul(Const(c), ts[n]))
  }

  function Add(a: SymExpr, b: SymExpr): (r: SymExpr)
    requires Shaped(a) && Shaped(b)
    ensures Shaped(r) && DepthAll(Parts(r)) <= Greater(DepthAll(Parts(a)), DepthAll(Parts(b)))
    decreases Greater(DepthAll(Parts(a)), DepthAll(Parts(b))), 4, 0
  {
    hide Collect, Parts, DepthAll, Assembled;
    ghost var d := Greater(DepthAll(Parts(a)), DepthAll(Parts(b)));
    AddStarts(a, b);
    var (konst, terms) := Collect(Parts(a) + Parts(b), 0, []);
    var (grouped, kept) := Group(terms, [], [], d);
    Assembled(konst, Rebuilt(grouped, d) + kept, d)
  }

  // The terms in order, positive ones first, and a constant that is not zero or alone.
  function Assembled(konst: Int64, terms: seq<SymExpr>, ghost d: nat): (r: SymExpr)
    requires Within(terms, d)
    ensures Shaped(r) && DepthAll(Parts(r)) <= d
  {
    hide Sorted, PositiveFirst, Parts, DepthAll;
    WithinSorted(terms, d);
    var ts := Sorted(terms);
    var all := PositiveFirst(if konst != 0 || ts == [] then ts + [Const(konst)] else ts);
    WithinPositive(if konst != 0 || ts == [] then ts + [Const(konst)] else ts, d);
    SumWithin(all, d);
    if |all| == 1 then all[0] else Sum(all)
  }

  // Folds each constant of `ts` into `konst` while the sum fits.
  function Collect(ts: seq<SymExpr>, konst: Int64, terms: seq<SymExpr>): (Int64, seq<SymExpr>) {
    if ts == [] then (konst, terms) else
    match ts[0]
    case Const(c) =>
      if Fits(konst + c) then Collect(ts[1..], konst + c, terms) else Collect(ts[1..], konst, terms + [ts[0]])
    case t => Collect(ts[1..], konst, terms + [t])
  }

  // Like terms as one, by what is left without their constant; a multiplier that would not fit keeps its own term.
  function Group(ts: seq<SymExpr>, grouped: seq<(SymExpr, Int64)>, kept: seq<SymExpr>, ghost d: nat)
    : (r: (seq<(SymExpr, Int64)>, seq<SymExpr>))
    requires Within(ts, d) && GroupedWithin(grouped, d) && Within(kept, d)
    ensures GroupedWithin(r.0, d) && Within(r.1, d)
    decreases d, 3, |ts|
  {
    if ts == [] then (grouped, kept) else
    var (c, rest) := SplitConst(ts[0]);
    var i := Find(grouped, rest);
    if i == |grouped| then Group(ts[1..], grouped + [(rest, c)], kept, d)
    else if Fits(grouped[i].1 + c) then Group(ts[1..], grouped[i := (rest, grouped[i].1 + c)], kept, d)
    else Group(ts[1..], grouped, kept + [Mul(Const(c), rest)], d)
  }

  ghost predicate GroupedWithin(grouped: seq<(SymExpr, Int64)>, d: nat) {
    forall g :: g in grouped ==> Shaped(g.0) && Depth(g.0) <= d
  }

  function Find(grouped: seq<(SymExpr, Int64)>, rest: SymExpr): (i: nat)
    ensures i <= |grouped| && (i < |grouped| ==> grouped[i].0 == rest)
    ensures forall j :: 0 <= j < i ==> grouped[j].0 != rest
  {
    if grouped == [] then 0
    else if grouped[0].0 == rest then 0
    else
      assert forall j :: 0 < j < |grouped| ==> grouped[j] == grouped[1..][j - 1];
      1 + Find(grouped[1..], rest)
  }

  // Each group's multiplier times what it multiplies, but for those that sum to zero.
  function Rebuilt(grouped: seq<(SymExpr, Int64)>, ghost d: nat): (ts: seq<SymExpr>)
    requires GroupedWithin(grouped, d)
    ensures Within(ts, d)
    decreases d, 3, |grouped|
  {
    if grouped == [] then [] else
    (if grouped[0].1 == 0 then [] else [Mul(Const(grouped[0].1), grouped[0].0)]) + Rebuilt(grouped[1..], d)
  }

  /** Splits a constant factor off the front; where there is none it is 1. */
  function SplitConst(e: SymExpr): (r: (Int64, SymExpr))
    requires Shaped(e)
    ensures Shaped(r.1) && Depth(r.1) <= Depth(e)
    decreases Depth(e), 2, 0
  {
    match e
    case Const(c) => (c, Const(1))
    case Prod(fs) =>
      assert AllShaped(fs);
      DepthPart(fs, fs[1..]);
      if fs[0].Const? then (fs[0].c, MulAll(fs[1..])) else (1, e)
    case _ => (1, e)
  }

  // The factors multiplied from the left.
  function MulAll(fs: seq<SymExpr>): (r: SymExpr)
    requires fs != [] && AllShaped(fs)
    ensures Shaped(r) && Depth(r) <= DepthAll(fs)
    decreases DepthAll(fs), 1, |fs|
  {
    var n := |fs| - 1;
    DepthPart(fs, fs[..n]);
    if n == 0 then fs[0] else Mul(MulAll(fs[..n]), fs[n])
  }

  ghost function Greater(x: nat, y: nat): nat {
    if x < y then y else x
  }

  // How the constructors keep expressions shaped and no deeper

  lemma {:induction false} DepthLeast(ts: seq<SymExpr>, d: nat)
    requires forall t :: t in ts ==> Depth(t) <= d
    ensures DepthAll(ts) <= d
  {
    if ts != [] {
      DepthLeast(ts[1..], d);
    }
  }

  lemma DepthPart(ts: seq<SymExpr>, part: seq<SymExpr>)
    requires AllShaped(ts) && forall t :: t in part ==> t in ts
    ensures DepthAll(part) <= DepthAll(ts) && AllShaped(part)
  {
    DepthLeast(part, DepthAll(ts));
    forall i | 0 <= i < |part| ensures Shaped(part[i]) {
      assert part[i] in ts;
    }
  }

  lemma PartsDepth(e: SymExpr)
    ensures DepthAll(Parts(e)) <= Depth(e) <= DepthAll(Parts(e)) + 1
    ensures !e.Sum? ==> DepthAll(Parts(e)) == Depth(e)
  {
  }

  lemma PartsWithin(e: SymExpr, d: nat)
    requires Shaped(e) && DepthAll(Parts(e)) <= d
    ensures Within(Parts(e), d)
  {
    if e.Sum? {
      assert AllShaped(e.terms);
    }
  }

  lemma FactorsWithin(e: SymExpr)
    requires Shaped(e)
    ensures Within(Factors(e), Depth(e))
  {
    if e.Prod? {
      assert AllShaped(e.factors);
    }
  }

  lemma {:induction false} CollectWithin(ts: seq<SymExpr>, konst: Int64, terms: seq<SymExpr>, d: nat)
    requires Within(ts, d) && Within(terms, d)
    ensures Within(Collect(ts, konst, terms).1, d)
  {
    if ts != [] {
      match ts[0] {
        case Const(c) =>
          if Fits(konst + c) {
            CollectWithin(ts[1..], konst + c, terms, d);
          } else {
            CollectWithin(ts[1..], konst, terms + [ts[0]], d);
          }
        case t => CollectWithin(ts[1..], konst, terms + [t], d);
      }
    }
  }

  lemma {:induction false} FlattenWithin(fs: seq<SymExpr>, konst: Int64, factors: seq<SymExpr>,
                                         overflowed: seq<SymExpr>, d: nat)
    requires Within(fs, d) && Within(factors, d) && Within(overflowed, d)
    ensures var (k, f, o) := Flatten(fs, konst, factors, overflowed); Within(f, d) && Within(o, d)
  {
    if fs != [] {
      match fs[0] {
        case Const(c) =>
          if Fits(konst * c) {
            FlattenWithin(fs[1..], konst * c, factors, overflowed, d);
          } else {
            FlattenWithin(fs[1..], konst, factors, overflowed + [fs[0]], d);
          }
        case f => FlattenWithin(fs[1..], konst, factors + [f], overflowed, d);
      }
    }
  }

  lemma WithinSorted(ts: seq<SymExpr>, d: nat)
    requires Within(ts, d)
    ensures Within(Sorted(ts), d)
  {
    SameMembers(Sorted(ts), ts);
  }

  lemma WithinPositive(ts: seq<SymExpr>, d: nat)
    requires Within(ts, d)
    ensures Within(PositiveFirst(ts), d) && |PositiveFirst(ts)| == |ts|
  {
    SameMembers(PositiveFirst(ts), ts);
  }

  lemma SameMembers(xs: seq<SymExpr>, ys: seq<SymExpr>)
    requires multiset(xs) == multiset(ys)
    ensures |xs| == |ys| && forall t :: t in xs <==> t in ys
  {
    assert |xs| == |multiset(xs)| == |multiset(ys)| == |ys|;
    forall t ensures t in xs <==> t in ys {
      assert t in xs <==> t in multiset(xs);
      assert t in ys <==> t in multiset(ys);
    }
  }

  lemma AddStarts(a: SymExpr, b: SymExpr)
    requires Shaped(a) && Shaped(b)
    ensures var d := Greater(DepthAll(Parts(a)), DepthAll(Parts(b))); Within(Collect(Parts(a) + Parts(b), 0, []).1, d)
  {
    var d := Greater(DepthAll(Parts(a)), DepthAll(Parts(b)));
    PartsWithin(a, d);
    PartsWithin(b, d);
    CollectWithin(Parts(a) + Parts(b), 0, [], d);
  }

  lemma SumWithin(ts: seq<SymExpr>, d: nat)
    requires Within(ts, d) && ts != []
    ensures |ts| == 1 ==> Shaped(ts[0]) && DepthAll(Parts(ts[0])) <= d
    ensures |ts| > 1 ==> Shaped(Sum(ts)) && DepthAll(Parts(Sum(ts))) <= d
  {
    DepthLeast(ts, d);
    PartsDepth(ts[0]);
  }

  lemma MulFlatShape(a: SymExpr, b: SymExpr)
    requires Shaped(a) && Shaped(b)
    ensures Shaped(MulFlat(a, b)) && Depth(MulFlat(a, b)) <= Greater(Depth(a), Depth(b))
  {
    hide Flatten, Sorted, Depth, Shaped;
    var d := Greater(Depth(a), Depth(b));
    FactorsWithin(a);
    FactorsWithin(b);
    ConstShape(Flatten(Factors(a) + Factors(b), 1, [], []).0);
    FlattenWithin(Factors(a) + Factors(b), 1, [], [], d);
    var (konst, factors, overflowed) := Flatten(Factors(a) + Factors(b), 1, [], []);
    WithinSorted(factors, d);
    var fs := Sorted(factors) + overflowed;
    var all := if konst != 1 || fs == [] then [Const(konst)] + fs else fs;
    ProdWithin(all, d);
  }

  lemma ConstShape(c: Int64)
    ensures Shaped(Const(c)) && Depth(Const(c)) == 0
  {
  }

  lemma ProdWithin(fs: seq<SymExpr>, d: nat)
    requires Within(fs, d) && fs != []
    ensures |fs| == 1 ==> Shaped(fs[0]) && Depth(fs[0]) <= d
    ensures |fs| > 1 ==> Shaped(Prod(fs)) && Depth(Prod(fs)) <= d
  {
    DepthLeast(fs, d);
  }
}
