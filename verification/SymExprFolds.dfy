/** What the constructors fold and order: divisors seen, least values met, like terms joined, one order of all. */
module SymExprFolds {
  import opened Wrappers
  import opened Divisions
  import opened SymExprs
  import opened SymExprValues
  import opened SymQuotients
  import opened SymExprForms

  // -- divisibility -------------------------------------------------------------------

  // A constant, a symbol, or a constant times one.
  predicate Monomial(t: SymExpr) {
    match t
    case Const(_) => true
    case Sym(_) => true
    case Prod(fs) => |fs| == 2 && fs[0].Const? && fs[1].Sym?
    case _ => false
  }

  // The symbol of a monomial, and what it is times.
  function SymbolOf(t: SymExpr): Option<Symbol> {
    match t
    case Sym(s) => Some(s)
    case Prod(fs) => if Monomial(t) then Some(fs[1].s) else None
    case _ => None
  }

  function Factor(t: SymExpr): int {
    match t
    case Const(c) => c
    case Prod(fs) => if Monomial(t) then fs[0].c else 0
    case _ => 1
  }

  // A sum of monomials, of one constant and of each symbol at most one.
  predicate Linear(ts: seq<SymExpr>) {
    && (forall i :: 0 <= i < |ts| ==> Monomial(ts[i]))
    && (forall i, j :: 0 <= i < j < |ts| ==> SymbolOf(ts[i]) != SymbolOf(ts[j]))
  }

  ghost function Unit(s: Option<Symbol>): Env {
    (u: Symbol) => if Some(u) == s then 1 else 0
  }

  lemma MonomialValue(t: SymExpr, env: Env)
    requires Monomial(t)
    ensures Value(t, env) == Factor(t) * match SymbolOf(t) case Some(s) => env(s) case None => 1
  {
    if t.Prod? {
      var fs := t.factors;
      assert fs[1..] == [fs[1]];
      ProductOne(fs[1], env);
      ConstValue(fs[0].c, env);
      assert Product(fs, env) == Value(fs[0], env) * Product(fs[1..], env);
      assert Value(t, env) == Product(fs, env);
    }
  }

  // Raising one symbol from 0 to 1 adds its factor.
  lemma {:induction false} UnitTotal(ts: seq<SymExpr>, i: nat)
    requires Linear(ts) && i < |ts|
    ensures Total(ts, Unit(SymbolOf(ts[i]))) ==
            Total(ts, Unit(None)) + if SymbolOf(ts[i]).Some? then Factor(ts[i]) else 0
  {
    hide Value, Monomial, SymbolOf, Factor;
    LinearRest(ts);
    MonomialValue(ts[0], Unit(SymbolOf(ts[i])));
    MonomialValue(ts[0], Unit(None));
    if i > 0 {
      assert SymbolOf(ts[0]) != SymbolOf(ts[i]);
      assert ts[1..][i - 1] == ts[i];
      UnitTotal(ts[1..], i - 1);
    } else {
      OtherTotal(ts[1..], SymbolOf(ts[0]));
    }
  }

  lemma LinearRest(ts: seq<SymExpr>)
    requires Linear(ts) && ts != []
    ensures Linear(ts[1..]) && forall j :: 0 <= j < |ts| - 1 ==> SymbolOf(ts[1..][j]) != SymbolOf(ts[0])
  {
    hide Monomial, SymbolOf;
    assert forall j :: 0 <= j < |ts| - 1 ==> ts[1..][j] == ts[j + 1];
  }

  lemma {:induction false} OtherTotal(ts: seq<SymExpr>, s: Option<Symbol>)
    requires Linear(ts) && forall j :: 0 <= j < |ts| ==> SymbolOf(ts[j]) != s
    ensures Total(ts, Unit(s)) == Total(ts, Unit(None))
  {
    hide Value, Monomial, SymbolOf, Factor;
    if ts != [] {
      LinearRest(ts);
      MonomialValue(ts[0], Unit(s));
      MonomialValue(ts[0], Unit(None));
      assert forall j :: 0 <= j < |ts| - 1 ==> ts[1..][j] == ts[j + 1];
      OtherTotal(ts[1..], s);
    }
  }

  // At zero only the constant is left.
  lemma {:induction false} ZeroTotal(ts: seq<SymExpr>, i: nat)
    requires Linear(ts) && i < |ts| && SymbolOf(ts[i]).None?
    ensures Total(ts, Unit(None)) == Factor(ts[i])
  {
    hide Value, Monomial, SymbolOf, Factor;
    LinearRest(ts);
    MonomialValue(ts[0], Unit(None));
    if i > 0 {
      assert SymbolOf(ts[0]) != SymbolOf(ts[i]);
      assert ts[1..][i - 1] == ts[i];
      ZeroTotal(ts[1..], i - 1);
    } else {
      NoConstant(ts[1..]);
    }
  }

  lemma {:induction false} NoConstant(ts: seq<SymExpr>)
    requires Linear(ts) && forall j :: 0 <= j < |ts| ==> SymbolOf(ts[j]) != None
    ensures Total(ts, Unit(None)) == 0
  {
    hide Value, Monomial, SymbolOf, Factor;
    if ts != [] {
      LinearRest(ts);
      MonomialValue(ts[0], Unit(None));
      assert forall j :: 0 <= j < |ts| - 1 ==> ts[1..][j] == ts[j + 1];
      NoConstant(ts[1..]);
    }
  }

  lemma MonomialDivisible(t: SymExpr, m: Divisor)
    requires Monomial(t) && m > 1
    ensures DivisibleBy(t, m) <==> Factor(t) % m == 0
  {
  }

  /** A linear expression is seen to be divisible just where all its values are multiples. */
  lemma DivisibleIsExact(e: SymExpr, m: Divisor)
    requires Linear(Parts(e)) && m > 1
    ensures DivisibleBy(e, m) <==> forall env: Env :: Value(e, env) % m == 0
  {
    hide Monomial, Factor, SymbolOf, Linear, Total;
    if DivisibleBy(e, m) {
      forall env: Env ensures Value(e, env) % m == 0 {
        DivisibleValue(e, m, env);
      }
    } else {
      var ts := Parts(e);
      PartsValue(e, Unit(None));
      var i := PartLeft(e, m);
      assert Monomial(ts[i]) by { LinearAt(ts, i); }
      MonomialDivisible(ts[i], m);
      PartsValue(e, Unit(SymbolOf(ts[i])));
      UnitTotal(ts, i);
      if SymbolOf(ts[i]).None? {
        ZeroTotal(ts, i);
        assert Value(e, Unit(None)) % m != 0;
      } else {
        NotBoth(Value(e, Unit(None)), Factor(ts[i]), m);
        assert Value(e, Unit(None)) % m != 0 || Value(e, Unit(SymbolOf(ts[i]))) % m != 0;
      }
    }
  }

  lemma LinearAt(ts: seq<SymExpr>, i: nat)
    requires Linear(ts) && i < |ts|
    ensures Monomial(ts[i])
  {
  }

  lemma PartLeft(e: SymExpr, m: Divisor) returns (i: nat)
    requires !DivisibleBy(e, m)
    ensures i < |Parts(e)| && !DivisibleBy(Parts(e)[i], m)
  {
    if e.Sum? {
      i :| 0 <= i < |e.terms| && !DivisibleBy(e.terms[i], m);
    } else {
      i := 0;
    }
  }

  lemma NotBoth(x: int, k: int, m: int)
    requires m > 0 && k % m != 0
    ensures x % m != 0 || (x + k) % m != 0
  {
    if x % m == 0 {
      MultipleSum(x, k, m);
    }
  }

  // -- the least value ------------------------------------------------------------------

  // No remainder, and of a maximum both sides have a least value.
  predicate Follows(e: SymExpr)
    decreases e
  {
    match e
    case Mod(_, _) => false
    case Sum(ts) => forall i :: 0 <= i < |ts| ==> Follows(ts[i])
    case Prod(fs) => forall i :: 0 <= i < |fs| ==> Follows(fs[i])
    case CeilDiv(x, _) => Follows(x)
    case FloorDiv(x, _) => Follows(x)
    case Min(a, b) => Follows(a) && Follows(b)
    case Max(a, b) => Follows(a) && Follows(b) && Least(a).Some? && Least(b).Some?
    case _ => true
  }

  /** The least value is met, by symbols that are all zero. */
  lemma {:induction false} LeastIsMet(e: SymExpr)
    requires Follows(e) && Least(e).Some?
    ensures Least(e).value == Value(e, Unit(None))
    decreases e
  {
    match e
    case Sum(ts) => LeastSumMet(ts, 0);
    case Prod(fs) => LeastProductMet(fs, 1);
    case CeilDiv(x, _) => LeastIsMet(x);
    case FloorDiv(x, _) => LeastIsMet(x);
    case Min(a, b) => LeastIsMet(a); LeastIsMet(b);
    case Max(a, b) => LeastIsMet(a); LeastIsMet(b);
    case _ =>
  }

  lemma {:induction false} LeastSumMet(ts: seq<SymExpr>, sum: Int64)
    requires (forall i :: 0 <= i < |ts| ==> Follows(ts[i])) && LeastSum(ts, sum).Some?
    ensures LeastSum(ts, sum).value == sum + Total(ts, Unit(None))
    decreases ts
  {
    hide Follows, Least;
    if ts != [] {
      LeastIsMet(ts[0]);
      LeastSumMet(ts[1..], sum + Least(ts[0]).value);
    }
  }

  lemma {:induction false} LeastProductMet(fs: seq<SymExpr>, product: Int64)
    requires (forall i :: 0 <= i < |fs| ==> Follows(fs[i])) && LeastProduct(fs, product).Some?
    ensures LeastProduct(fs, product).value == product * Product(fs, Unit(None))
    decreases fs
  {
    hide Follows, Least;
    if fs != [] {
      LeastIsMet(fs[0]);
      LeastProductMet(fs[1..], product * Least(fs[0]).value);
      Associates(product, Least(fs[0]).value, Product(fs[1..], Unit(None)));
    }
  }

  // No negative constant.
  predicate Upward(e: SymExpr)
    decreases e
  {
    match e
    case Const(c) => c >= 0
    case Sym(_) => true
    case Mod(_, _) => true
    case Sum(ts) => forall i :: 0 <= i < |ts| ==> Upward(ts[i])
    case Prod(fs) => forall i :: 0 <= i < |fs| ==> Upward(fs[i])
    case CeilDiv(x, _) => Upward(x)
    case FloorDiv(x, _) => Upward(x)
    case Min(a, b) => Upward(a) && Upward(b)
    case Max(a, b) => Upward(a) && Upward(b)
  }

  // What the constants of such an expression come to at most on the way.
  function Rises(e: SymExpr): nat
    decreases e
  {
    match e
    case Const(c) => var x: int := c; if x < 0 then -x else x
    case Sym(_) => 0
    case Mod(_, _) => 0
    case Sum(ts) => SumRises(ts)
    case Prod(fs) => ProdRises(fs)
    case CeilDiv(x, _) => Rises(x)
    case FloorDiv(x, _) => Rises(x)
    case Min(a, b) => Rises(a) + Rises(b)
    case Max(a, b) => Rises(a) + Rises(b)
  }

  function SumRises(ts: seq<SymExpr>): nat
    decreases ts
  {
    if ts == [] then 0 else Rises(ts[0]) + SumRises(ts[1..])
  }

  function ProdRises(fs: seq<SymExpr>): (n: nat)
    ensures n >= 1
    decreases fs
  {
    if fs == [] then 1 else
    var x, rest := Rises(fs[0]) + 1, ProdRises(fs[1..]);
    Grows(x, rest);
    x * rest
  }

  /** There is one wherever no constant is negative and none on the way passes i64. */
  lemma {:induction false} LeastIsKnown(e: SymExpr)
    requires Upward(e) && Rises(e) <= MAX
    ensures Least(e).Some? && 0 <= Least(e).value <= Rises(e)
    decreases e
  {
    match e
    case Sum(ts) => SumIsKnown(ts, 0);
    case Prod(fs) =>
      assert 1 * ProdRises(fs) == ProdRises(fs);
      ProductIsKnown(fs, 1, 1);
    case CeilDiv(x, d) =>
      LeastIsKnown(x);
      CeilFits(Least(x).value, d);
    case FloorDiv(x, d) =>
      LeastIsKnown(x);
      FloorFits(Least(x).value, d);
    case Min(a, b) => LeastIsKnown(a); LeastIsKnown(b);
    case Max(a, b) => LeastIsKnown(a); LeastIsKnown(b);
    case _ =>
  }

  lemma {:induction false} SumIsKnown(ts: seq<SymExpr>, sum: Int64)
    requires (forall i :: 0 <= i < |ts| ==> Upward(ts[i])) && sum >= 0 && sum + SumRises(ts) <= MAX
    ensures LeastSum(ts, sum).Some? && 0 <= LeastSum(ts, sum).value <= sum + SumRises(ts)
    decreases ts
  {
    hide Upward, Least, Rises;
    if ts != [] {
      LeastIsKnown(ts[0]);
      SumIsKnown(ts[1..], sum + Least(ts[0]).value);
    }
  }

  lemma {:induction false} ProductIsKnown(fs: seq<SymExpr>, product: Int64, n: nat)
    requires (forall i :: 0 <= i < |fs| ==> Upward(fs[i])) && 0 <= product <= n && n >= 1 && n * ProdRises(fs) <= MAX
    ensures LeastProduct(fs, product).Some? && 0 <= LeastProduct(fs, product).value <= n * ProdRises(fs)
    decreases fs
  {
    hide Upward, Least, Rises;
    if fs != [] {
      var x, rest := Rises(fs[0]) + 1, ProdRises(fs[1..]);
      Associates(n, x, rest);
      Grows(n, x);
      Grows(n * x, rest);
      LeastIsKnown(fs[0]);
      var l := Least(fs[0]).value;
      SmallerProduct(product, n, l, x);
      ProductIsKnown(fs[1..], product * l, n * x);
    }
  }

  lemma SmallerProduct(p: int, n: int, l: int, x: int)
    requires 0 <= p <= n && 0 <= l <= x
    ensures 0 <= p * l <= n * x
  {
    SumTimes(p, n - p, l);
    Distributes(n, l, x - l);
    assert (n - p) * l >= 0 && n * (x - l) >= 0 && p * l >= 0;
  }

  // -- like terms ------------------------------------------------------------------------

  // The constants of a sum's parts added up, their sizes, and the other parts.
  function Constants(ts: seq<SymExpr>): int {
    if ts == [] then 0 else (if ts[0].Const? then ts[0].c else 0) + Constants(ts[1..])
  }

  function Size(x: int): nat {
    if x < 0 then -x else x
  }

  function ConstantSizes(ts: seq<SymExpr>): nat {
    if ts == [] then 0 else (if ts[0].Const? then Size(ts[0].c) else 0) + ConstantSizes(ts[1..])
  }

  function Others(ts: seq<SymExpr>): seq<SymExpr> {
    if ts == [] then [] else (if ts[0].Const? then [] else [ts[0]]) + Others(ts[1..])
  }

  // What the terms multiply `rest` by in all, and the sizes of all their multipliers.
  function Multiplier(ts: seq<SymExpr>, rest: SymExpr): int
    requires AllShaped(ts)
  {
    if ts == [] then 0 else
    ShapedRest(ts);
    (if SplitConst(ts[0]).1 == rest then SplitConst(ts[0]).0 else 0) + Multiplier(ts[1..], rest)
  }

  function MultiplierSizes(ts: seq<SymExpr>): nat
    requires AllShaped(ts)
  {
    if ts == [] then 0 else
    ShapedRest(ts);
    Size(SplitConst(ts[0]).0) + MultiplierSizes(ts[1..])
  }

  lemma ShapedRest(ts: seq<SymExpr>)
    requires AllShaped(ts) && ts != []
    ensures Shaped(ts[0]) && AllShaped(ts[1..])
  {
  }

  // What the terms multiply, those whose multipliers cancel left out.
  ghost function Rests(ts: seq<SymExpr>): set<SymExpr>
    requires AllShaped(ts)
  {
    set t: SymExpr | t in ts && Shaped(t) && Multiplier(ts, SplitConst(t).1) != 0 :: SplitConst(t).1
  }

  lemma {:induction false} CollectIs(ts: seq<SymExpr>, konst: Int64, terms: seq<SymExpr>)
    requires Size(konst) + ConstantSizes(ts) <= MAX
    ensures Fits(konst + Constants(ts)) && Collect(ts, konst, terms) == (konst + Constants(ts), terms + Others(ts))
  {
    hide Others;
    OthersNext(ts, terms);
    if ts != [] {
      match ts[0] {
        case Const(c) => CollectIs(ts[1..], konst + c, terms);
        case t => CollectIs(ts[1..], konst, terms + [t]);
      }
    }
  }

  lemma OthersNext(ts: seq<SymExpr>, terms: seq<SymExpr>)
    ensures ts == [] ==> terms + Others(ts) == terms
    ensures ts != [] && ts[0].Const? ==> terms + Others(ts) == terms + Others(ts[1..])
    ensures ts != [] && !ts[0].Const? ==> terms + Others(ts) == terms + [ts[0]] + Others(ts[1..])
  {
    if ts == [] {
      assert Others(ts) == [];
    } else {
      var rest := Others(ts[1..]);
      assert Others(ts) == (if ts[0].Const? then [] else [ts[0]]) + rest;
      Appended(terms, ts[0], rest);
    }
  }

  lemma Appended(xs: seq<SymExpr>, x: SymExpr, ys: seq<SymExpr>)
    ensures xs + ([] + ys) == xs + ys && xs + ([x] + ys) == xs + [x] + ys
  {
  }

  ghost predicate Distinct(grouped: seq<(SymExpr, Int64)>) {
    forall i, j :: 0 <= i < j < |grouped| ==> grouped[i].0 != grouped[j].0
  }

  function GroupSizes(grouped: seq<(SymExpr, Int64)>): nat {
    if grouped == [] then 0 else Size(grouped[0].1) + GroupSizes(grouped[1..])
  }

  function GroupOf(grouped: seq<(SymExpr, Int64)>, rest: SymExpr): int {
    var i := Find(grouped, rest);
    if i < |grouped| then grouped[i].1 else 0
  }

  lemma {:induction false} GroupSizesAt(grouped: seq<(SymExpr, Int64)>, i: nat, k: Int64)
    requires i < |grouped|
    ensures GroupSizes(grouped[i := (grouped[i].0, k)]) + Size(grouped[i].1) == GroupSizes(grouped) + Size(k)
  {
    var next := grouped[i := (grouped[i].0, k)];
    if i == 0 {
      assert next[1..] == grouped[1..];
    } else {
      assert next[1..] == grouped[1..][i - 1 := (grouped[i].0, k)];
      GroupSizesAt(grouped[1..], i - 1, k);
    }
  }

  lemma {:induction false} GroupSizesAppend(grouped: seq<(SymExpr, Int64)>, g: (SymExpr, Int64))
    ensures GroupSizes(grouped + [g]) == GroupSizes(grouped) + Size(g.1)
  {
    if grouped == [] {
      assert [] + [g] == [g] && [g][1..] == [];
    } else {
      assert (grouped + [g])[1..] == grouped[1..] + [g];
      GroupSizesAppend(grouped[1..], g);
    }
  }

  // One group for each rest, its multiplier the terms' added up, none kept apart where no sum of them leaves i64.
  lemma {:induction false} GroupJoins(ts: seq<SymExpr>, grouped: seq<(SymExpr, Int64)>, kept: seq<SymExpr>, d: nat)
    requires Within(ts, d) && GroupedWithin(grouped, d) && Within(kept, d) && AllShaped(ts) && Distinct(grouped)
    requires GroupSizes(grouped) + MultiplierSizes(ts) <= MAX
    ensures Group(ts, grouped, kept, d).1 == kept && Distinct(Group(ts, grouped, kept, d).0)
    ensures forall r :: GroupOf(Group(ts, grouped, kept, d).0, r) == GroupOf(grouped, r) + Multiplier(ts, r)
    decreases |ts|
  {
    hide SplitConst, Mul, Depth, Shaped, Distinct, GroupOf, GroupSizes;
    if ts != [] {
      ShapedRest(ts);
      var (c, rest) := SplitConst(ts[0]);
      var i := Find(grouped, rest);
      if i == |grouped| {
        JoinNew(grouped, rest, c);
        GroupJoins(ts[1..], grouped + [(rest, c)], kept, d);
      } else {
        JoinOld(grouped, i, c);
        GroupJoins(ts[1..], grouped[i := (rest, grouped[i].1 + c)], kept, d);
      }
    }
  }

  // Every group's rest is a term's, or was there.
  lemma {:induction false} GroupsFrom(ts: seq<SymExpr>, grouped: seq<(SymExpr, Int64)>, kept: seq<SymExpr>, d: nat)
    requires Within(ts, d) && GroupedWithin(grouped, d) && Within(kept, d)
    ensures forall g :: g in Group(ts, grouped, kept, d).0 ==> From(g.0, grouped, ts)
    decreases |ts|
  {
    hide SplitConst, Mul, Depth, Shaped, From;
    if ts == [] {
      FromGroups(grouped);
    } else {
      TermWithin(ts, d);
      var (c, rest) := SplitConst(ts[0]);
      var i := Find(grouped, rest);
      if i == |grouped| {
        GroupsFrom(ts[1..], grouped + [(rest, c)], kept, d);
        FromNext(ts, grouped, grouped + [(rest, c)]);
      } else if Fits(grouped[i].1 + c) {
        var next := grouped[i := (rest, grouped[i].1 + c)];
        assert grouped[i] in grouped;
        GroupsFrom(ts[1..], next, kept, d);
        FromNext(ts, grouped, next);
      } else {
        KeptWithin(c, rest, d);
        GroupsFrom(ts[1..], grouped, kept + [Mul(Const(c), rest)], d);
        FromNext(ts, grouped, grouped);
      }
    }
  }

  lemma TermWithin(ts: seq<SymExpr>, d: nat)
    requires Within(ts, d) && ts != []
    ensures Shaped(ts[0]) && Depth(ts[0]) <= d && Shaped(Const(SplitConst(ts[0]).0))
  {
    hide SplitConst;
    assert ts[0] in ts;
  }

  lemma FromGroups(grouped: seq<(SymExpr, Int64)>)
    ensures forall g :: g in grouped ==> From(g.0, grouped, [])
  {
  }

  lemma JoinNew(grouped: seq<(SymExpr, Int64)>, rest: SymExpr, c: Int64)
    requires Distinct(grouped) && Find(grouped, rest) == |grouped|
    ensures var next := grouped + [(rest, c)];
      && Distinct(next) && GroupSizes(next) == GroupSizes(grouped) + Size(c)
      && forall r :: GroupOf(next, r) == GroupOf(grouped, r) + if r == rest then c else 0
  {
    hide Find, GroupOf, GroupSizes;
    var next := grouped + [(rest, c)];
    GroupSizesAppend(grouped, (rest, c));
    forall r ensures GroupOf(next, r) == GroupOf(grouped, r) + if r == rest then c else 0 {
      FindAppend(grouped, (rest, c), r);
    }
  }

  lemma JoinOld(grouped: seq<(SymExpr, Int64)>, i: nat, c: Int64)
    requires Distinct(grouped) && i < |grouped| && GroupSizes(grouped) + Size(c) <= MAX
    ensures Fits(grouped[i].1 + c)
    ensures var next := grouped[i := (grouped[i].0, grouped[i].1 + c)];
      && Distinct(next) && GroupSizes(next) <= GroupSizes(grouped) + Size(c)
      && forall r :: GroupOf(next, r) == GroupOf(grouped, r) + if r == grouped[i].0 then c else 0
  {
    hide Find, GroupOf, GroupSizes;
    SizeOfOne(grouped, i);
    var next := grouped[i := (grouped[i].0, grouped[i].1 + c)];
    GroupSizesAt(grouped, i, grouped[i].1 + c);
    forall r ensures GroupOf(next, r) == GroupOf(grouped, r) + if r == grouped[i].0 then c else 0 {
      FindUpdate(grouped, i, grouped[i].1 + c, r);
    }
  }

  // A group's rest is one of those before or a term's.
  ghost predicate From(r: SymExpr, grouped: seq<(SymExpr, Int64)>, ts: seq<SymExpr>) {
    (exists h :: h in grouped && h.0 == r) || exists t :: t in ts && Shaped(t) && SplitConst(t).1 == r
  }

  lemma FromNext(ts: seq<SymExpr>, grouped: seq<(SymExpr, Int64)>, next: seq<(SymExpr, Int64)>)
    requires ts != [] && Shaped(ts[0])
    requires forall h :: h in next ==> h.0 == SplitConst(ts[0]).1 || exists g :: g in grouped && g.0 == h.0
    ensures forall r :: From(r, next, ts[1..]) ==> From(r, grouped, ts)
  {
    hide SplitConst, Shaped;
    forall r | From(r, next, ts[1..]) ensures From(r, grouped, ts) {
      if exists h :: h in next && h.0 == r {
        var h :| h in next && h.0 == r;
        assert ts[0] in ts;
      } else {
        var t :| t in ts[1..] && Shaped(t) && SplitConst(t).1 == r;
        assert t in ts;
      }
    }
  }

  lemma {:induction false} SizeOfOne(grouped: seq<(SymExpr, Int64)>, i: nat)
    requires i < |grouped|
    ensures Size(grouped[i].1) <= GroupSizes(grouped)
  {
    if i > 0 {
      SizeOfOne(grouped[1..], i - 1);
    }
  }

  lemma FindAppend(grouped: seq<(SymExpr, Int64)>, g: (SymExpr, Int64), r: SymExpr)
    requires Find(grouped, g.0) == |grouped|
    ensures GroupOf(grouped + [g], r) == GroupOf(grouped, r) + if r == g.0 then g.1 else 0
  {
    hide Find;
    var next := grouped + [g];
    var i, j := Find(grouped, r), Find(next, r);
    if i < |grouped| {
      assert next[i].0 == r && j <= i;
      assert next[j] == grouped[j];
    } else if r == g.0 {
      assert next[|grouped|].0 == r;
      assert j == |grouped|;
    }
  }

  lemma FindUpdate(grouped: seq<(SymExpr, Int64)>, i: nat, k: Int64, r: SymExpr)
    requires i < |grouped| && Distinct(grouped)
    ensures GroupOf(grouped[i := (grouped[i].0, k)], r) ==
            GroupOf(grouped, r) + if r == grouped[i].0 then k - grouped[i].1 else 0
  {
    hide Find;
    var next := grouped[i := (grouped[i].0, k)];
    var m, n := Find(grouped, r), Find(next, r);
    assert forall j :: 0 <= j < |grouped| ==> next[j].0 == grouped[j].0;
    assert m == n;
  }

  // The rests whose groups do not cancel.
  ghost function Live(grouped: seq<(SymExpr, Int64)>): set<SymExpr> {
    set g: (SymExpr, Int64) | g in grouped && g.1 != 0 :: g.0
  }

  lemma {:induction false} RebuiltCount(grouped: seq<(SymExpr, Int64)>, d: nat)
    requires GroupedWithin(grouped, d) && Distinct(grouped)
    ensures |Rebuilt(grouped, d)| == |Live(grouped)|
  {
    hide Mul, Depth, Shaped;
    if grouped == [] {
      assert Live(grouped) == {};
    } else {
      RebuiltCount(grouped[1..], d);
      var g := grouped[0];
      assert grouped == [g] + grouped[1..];
      assert Live(grouped) == if g.1 != 0 then {g.0} + Live(grouped[1..]) else Live(grouped[1..]);
      forall h | h in grouped[1..] ensures h.0 != g.0 {
        var j :| 0 <= j < |grouped[1..]| && grouped[1..][j] == h;
        assert grouped[j + 1] == h;
      }
    }
  }

  lemma LiveIsRests(ts: seq<SymExpr>, grouped: seq<(SymExpr, Int64)>)
    requires AllShaped(ts) && Distinct(grouped)
    requires forall r :: GroupOf(grouped, r) == Multiplier(ts, r)
    requires forall g :: g in grouped ==> From(g.0, [], ts)
    ensures Live(grouped) == Rests(ts)
  {
    hide SplitConst, Multiplier, Shaped, Find;
    forall r ensures r in Live(grouped) <==> r in Rests(ts) {
      var i := Find(grouped, r);
      if r in Live(grouped) {
        var g :| g in grouped && g.1 != 0 && g.0 == r;
        var j :| 0 <= j < |grouped| && grouped[j] == g;
        assert i == j;
        var t :| t in ts && Shaped(t) && SplitConst(t).1 == g.0;
        assert SplitConst(t).1 in Rests(ts);
      }
      if r in Rests(ts) {
        assert Multiplier(ts, r) != 0;
        assert grouped[i] in grouped;
      }
    }
  }

  /** Where no sum of multipliers leaves i64 a sum has one term for each rest whose multipliers do not cancel. */
  lemma AddJoins(a: SymExpr, b: SymExpr)
    requires Plain(a) && Plain(b) && ConstantSizes(Parts(a) + Parts(b)) <= MAX
    requires AllShaped(Others(Parts(a) + Parts(b))) && MultiplierSizes(Others(Parts(a) + Parts(b))) <= MAX
    ensures Shaped(a) && Shaped(b)
    ensures var k, n := Constants(Parts(a) + Parts(b)), |Rests(Others(Parts(a) + Parts(b)))|;
      if n == 0 then Fits(k) && Add(a, b) == Const(k) else |Parts(Add(a, b))| == n + if k != 0 then 1 else 0
  {
    hide Parts, Depth, DepthAll, Group, Rebuilt, Assembled, Collect, Plain, Shaped, Multiplier, Others, Constants, Rests;
    hide MultiplierSizes, ConstantSizes, IsTerm;
    PartsTerms(a);
    PartsTerms(b);
    var d := Greater(DepthAll(Parts(a)), DepthAll(Parts(b)));
    AddStarts(a, b);
    assert Terms(Parts(a) + Parts(b));
    CollectTerms(Parts(a) + Parts(b), 0, []);
    CollectIs(Parts(a) + Parts(b), 0, []);
    var (k, terms) := Collect(Parts(a) + Parts(b), 0, []);
    assert [] + Others(Parts(a) + Parts(b)) == Others(Parts(a) + Parts(b));
    var none: seq<(SymExpr, Int64)> := [];
    GroupTerms(terms, none, [], d);
    GroupJoins(terms, none, [], d);
    GroupsFrom(terms, none, [], d);
    var (grouped, kept) := Group(terms, none, [], d);
    LiveIsRests(terms, grouped);
    RebuiltCount(grouped, d);
    RebuiltTerms(grouped, d);
    assert Rebuilt(grouped, d) + kept == Rebuilt(grouped, d);
    AssembledCount(k, Rebuilt(grouped, d), d);
  }

  lemma AssembledCount(konst: Int64, terms: seq<SymExpr>, d: nat)
    requires Within(terms, d) && Terms(terms)
    ensures var r := Assembled(konst, terms, d);
      if terms == [] then r == Const(konst) else |Parts(r)| == |terms| + if konst != 0 then 1 else 0
  {
    hide Sorted, PositiveFirst, Shaped, Depth, Plain;
    var ts := Sorted(terms);
    SameMembers(ts, terms);
    var more := if konst != 0 || ts == [] then ts + [Const(konst)] else ts;
    SameMembers(PositiveFirst(more), more);
    var all := PositiveFirst(more);
    if |all| == 1 {
      assert all[0] in all;
      assert all[0] in more;
    }
  }

  /** So a symbol less itself is zero. */
  lemma SymbolCancels(s: Symbol)
    ensures Shaped(Sym(s)) && Shaped(Mul(Const(-1), Sym(s)))
    ensures Add(Sym(s), Mul(Const(-1), Sym(s))) == Const(0)
  {
    hide Add, Assembled, Group, Rebuilt, Collect;
    NegatedSymbol(s);
    PlainSymbol(s);
    var a, b := Sym(s), Prod([Const(-1), Sym(s)]);
    var ts := Parts(a) + Parts(b);
    assert ts == [a, b] && ts[1..] == [b] && [b][1..] == [];
    assert Others([b]) == [b] + Others([]) == [b];
    assert Others(ts) == [a] + Others([b]) == [a, b];
    TwoCancel(s);
    AddJoins(a, b);
  }

  lemma NegatedSymbol(s: Symbol)
    ensures Mul(Const(-1), Sym(s)) == Prod([Const(-1), Sym(s)])
  {
    hide Plain, Compare, Shaped, Depth;
    var none: seq<SymExpr> := [];
    assert Factors(Const(-1)) + Factors(Sym(s)) == [Const(-1), Sym(s)];
    assert Flatten([Const(-1), Sym(s)], 1, none, none) == Flatten([Sym(s)], -1, none, none);
    assert Flatten([Sym(s)], -1, none, none) == Flatten(none, -1, none + [Sym(s)], none);
    assert none + [Sym(s)] == [Sym(s)] && Sorted([Sym(s)]) == Inserted(Sorted(none), Sym(s));
    assert [Sym(s)] + none == [Sym(s)] && [Const(-1)] + [Sym(s)] == [Const(-1), Sym(s)];
    assert MulFlat(Const(-1), Sym(s)) == Prod([Const(-1), Sym(s)]);
  }

  lemma PlainSymbol(s: Symbol)
    ensures Plain(Sym(s)) && Plain(Prod([Const(-1), Sym(s)]))
    ensures Shaped(Sym(s)) && Shaped(Prod([Const(-1), Sym(s)]))
  {
  }

  lemma TwoCancel(s: Symbol)
    requires Shaped(Prod([Const(-1), Sym(s)]))
    ensures var ts := [Sym(s), Prod([Const(-1), Sym(s)])];
      && AllShaped(ts) && Rests(ts) == {} && MultiplierSizes(ts) == 2 && ConstantSizes(ts) == 0 && Constants(ts) == 0
  {
    var b := Prod([Const(-1), Sym(s)]);
    var ts := [Sym(s), b];
    assert ts[1..] == [b] && [b][1..] == [];
    var none: seq<SymExpr> := [];
    assert [Const(-1), Sym(s)][1..] == [Sym(s)];
    assert SplitConst(b) == (-1, Sym(s));
    assert SplitConst(Sym(s)) == (1, Sym(s));
    assert Multiplier([b], Sym(s)) == -1 + Multiplier(none, Sym(s));
    assert Multiplier(ts, Sym(s)) == 0;
    assert MultiplierSizes([b]) == 1 + MultiplierSizes(none);
    assert ConstantSizes([b]) == ConstantSizes(none);
    assert Constants([b]) == Constants(none);
    forall t | t in ts && Shaped(t) ensures SplitConst(t).1 == Sym(s) {
    }
  }

  // -- order ---------------------------------------------------------------------------

  /** Only an expression itself compares equal to it, and turning a comparison around turns its sign. */
  lemma {:induction false} CompareIsExact(x: SymExpr, y: SymExpr)
    ensures Compare(x, y) == 0 <==> x == y
    ensures Compare(y, x) == -Compare(x, y)
    decreases x
  {
    if Kind(x) == Kind(y) {
      match x
      case Sum(ts) => CompareAllIsExact(ts, y.terms);
      case Prod(fs) => CompareAllIsExact(fs, y.factors);
      case CeilDiv(e, _) => CompareIsExact(e, y.e);
      case FloorDiv(e, _) => CompareIsExact(e, y.e);
      case Mod(e, _) => CompareIsExact(e, y.e);
      case Min(a, b) => CompareIsExact(a, y.a); CompareIsExact(b, y.b);
      case Max(a, b) => CompareIsExact(a, y.a); CompareIsExact(b, y.b);
      case _ =>
    }
  }

  lemma {:induction false} CompareAllIsExact(xs: seq<SymExpr>, ys: seq<SymExpr>)
    ensures CompareAll(xs, ys) == 0 <==> xs == ys
    ensures CompareAll(ys, xs) == -CompareAll(xs, ys)
    decreases xs
  {
    if xs != [] && ys != [] {
      CompareIsExact(xs[0], ys[0]);
      CompareAllIsExact(xs[1..], ys[1..]);
      assert xs == [xs[0]] + xs[1..] && ys == [ys[0]] + ys[1..];
    }
  }

  ghost predicate InOrder(ts: seq<SymExpr>) {
    forall i :: 0 < i < |ts| ==> Compare(ts[i], ts[i - 1]) >= 0
  }

  lemma {:induction false} InsertedInOrder(ts: seq<SymExpr>, t: SymExpr)
    requires InOrder(ts)
    ensures InOrder(Inserted(ts, t)) && Inserted(ts, t) != []
    ensures var last := Inserted(ts, t)[|Inserted(ts, t)| - 1]; last == t || (ts != [] && last == ts[|ts| - 1])
  {
    hide Compare, Inserted, InOrder;
    InsertedIs(ts, t);
    if ts == [] {
      NextInOrder([], t);
    } else {
      var n := |ts| - 1;
      CompareIsExact(t, ts[n]);
      assert ts == ts[..n] + [ts[n]];
      FrontInOrder(ts);
      if Compare(t, ts[n]) < 0 {
        InsertedInOrder(ts[..n], t);
        NextInOrder(Inserted(ts[..n], t), ts[n]);
      } else {
        NextInOrder(ts, t);
      }
    }
  }

  lemma InsertedIs(ts: seq<SymExpr>, t: SymExpr)
    ensures ts == [] ==> Inserted(ts, t) == [] + [t]
    ensures ts != [] ==> var n := |ts| - 1;
      Inserted(ts, t) == if Compare(t, ts[n]) >= 0 then ts + [t] else Inserted(ts[..n], t) + [ts[n]]
  {
    hide Compare;
  }

  lemma FrontInOrder(ts: seq<SymExpr>)
    requires InOrder(ts) && ts != []
    ensures InOrder(ts[..|ts| - 1])
    ensures |ts| > 1 ==> Compare(ts[|ts| - 1], ts[|ts| - 2]) >= 0
  {
    hide Compare;
  }

  lemma NextInOrder(ts: seq<SymExpr>, t: SymExpr)
    requires InOrder(ts) && (ts != [] ==> Compare(t, ts[|ts| - 1]) >= 0)
    ensures InOrder(ts + [t])
  {
    hide Compare;
  }

  /** Sorting puts the parts in that order. */
  lemma {:induction false} SortedInOrder(ts: seq<SymExpr>)
    ensures InOrder(Sorted(ts)) && multiset(Sorted(ts)) == multiset(ts)
  {
    hide Compare, Inserted;
    if ts != [] {
      SortedInOrder(ts[..|ts| - 1]);
      InsertedInOrder(Sorted(ts[..|ts| - 1]), ts[|ts| - 1]);
    }
  }

  lemma {:induction false} PickedAre(ts: seq<SymExpr>, negated: bool)
    requires forall t :: t in ts ==> Shaped(t)
    ensures forall t :: t in Picked(ts, negated) ==> Shaped(t) && (SplitConst(t).0 < 0 <==> negated)
  {
    if ts != [] {
      PickedAre(ts[1..], negated);
      hide MulAll;
      assert ts[0] in ts;
    }
  }

  /** Of the parts those of a multiplier below zero come last. */
  lemma PositiveComeFirst(ts: seq<SymExpr>)
    requires forall t :: t in ts ==> Shaped(t)
    ensures var out := PositiveFirst(ts);
      && (forall t :: t in out ==> Shaped(t))
      && forall i, j :: 0 <= i < j < |out| && SplitConst(out[i]).0 < 0 ==> SplitConst(out[j]).0 < 0
  {
    hide SplitConst, Picked, Shaped;
    PickedAre(ts, false);
    PickedAre(ts, true);
    var a, b := Picked(ts, false), Picked(ts, true);
    assert PositiveFirst(ts) == a + b;
    forall t | t in a + b ensures Shaped(t) {
      assert t in a || t in b;
    }
    LastOnes(a, b);
  }

  // Of two such lists in a row, what follows one of the second is of the second.
  lemma LastOnes(a: seq<SymExpr>, b: seq<SymExpr>)
    requires forall t :: t in a + b ==> Shaped(t)
    requires (forall t :: t in a ==> SplitConst(t).0 >= 0) && (forall t :: t in b ==> SplitConst(t).0 < 0)
    ensures forall i, j :: 0 <= i < j < |a + b| && SplitConst((a + b)[i]).0 < 0 ==> SplitConst((a + b)[j]).0 < 0
  {
    hide SplitConst, Shaped;
    assert forall i :: 0 <= i < |a + b| ==> if i < |a| then (a + b)[i] in a else (a + b)[i] in b;
  }
}
