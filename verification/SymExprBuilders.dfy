/** The loops that build sums and products, a term at a time. */
module SymExprBuilders {
  import opened Wrappers
  import opened SymExprs
  import opened SymExprValues

  /** The sum of two expressions: constants folded while they fit, like terms grouped, the rest sorted. */
  method Sum2(a: SymExpr, b: SymExpr) returns (r: SymExpr)
    requires Shaped(a) && Shaped(b)
    ensures r == Add(a, b)
    ensures Shaped(r) && forall env: Env :: Value(r, env) == Value(a, env) + Value(b, env)
  {
    hide Value, Shaped, Depth, DepthAll, Parts, Assembled, SplitConst, Mul, Rebuilt, Group, Collect, Add,
      SymExprs.Within, GroupedWithin;
    ghost var d := Greater(DepthAll(Parts(a)), DepthAll(Parts(b)));
    AddIs(a, b);
    var konst, terms := Folded(Parts(a) + Parts(b));
    var grouped, kept := Gathered(terms, d);
    r := Assembled(konst, Rebuilt(grouped, d) + kept, d);
    forall env: Env ensures Value(r, env) == Value(a, env) + Value(b, env) {
      AddValue(a, b, env);
    }
  }

  lemma AddIs(a: SymExpr, b: SymExpr)
    requires Shaped(a) && Shaped(b)
    ensures var d := Greater(DepthAll(Parts(a)), DepthAll(Parts(b)));
      var (konst, terms) := Collect(Parts(a) + Parts(b), 0, []);
      && SymExprs.Within(terms, d) && GroupedWithin([], d) && SymExprs.Within([], d)
      && (var (grouped, kept) := Group(terms, [], [], d);
          && GroupedWithin(grouped, d) && SymExprs.Within(Rebuilt(grouped, d) + kept, d)
          && Add(a, b) == Assembled(konst, Rebuilt(grouped, d) + kept, d))
  {
    hide Shaped, Depth, DepthAll, Parts, Assembled, SplitConst, Mul, Rebuilt, Group, Collect;
    AddStarts(a, b);
  }

  // The constants of `ts` folded while their sum fits, and the other terms in order.
  method Folded(ts: seq<SymExpr>) returns (konst: Int64, terms: seq<SymExpr>)
    ensures (konst, terms) == Collect(ts, 0, [])
  {
    konst, terms := 0, [];
    var i := 0;
    while i < |ts|
      invariant 0 <= i <= |ts|
      invariant Collect(ts[i..], konst, terms) == Collect(ts, 0, [])
    {
      var t := ts[i];
      assert ts[i..][1..] == ts[i + 1..];
      if t.Const? && Fits(konst + t.c) {
        konst := konst + t.c;
      } else {
        terms := terms + [t];
      }
      i := i + 1;
    }
  }

  // Like terms gathered by what their constant multiplies.
  method Gathered(ts: seq<SymExpr>, ghost d: nat) returns (grouped: seq<(SymExpr, Int64)>, kept: seq<SymExpr>)
    requires SymExprs.Within(ts, d)
    ensures GroupedWithin(grouped, d) && SymExprs.Within(kept, d) && (grouped, kept) == Group(ts, [], [], d)
  {
    hide Shaped, Depth, SplitConst, Mul, Group, Find, SymExprs.Within, GroupedWithin;
    GroupStarts(d);
    grouped, kept := [], [];
    assert ts[0..] == ts;
    var i := 0;
    while i < |ts|
      invariant 0 <= i <= |ts|
      invariant SymExprs.Within(ts[i..], d) && GroupedWithin(grouped, d) && SymExprs.Within(kept, d)
      invariant Group(ts[i..], grouped, kept, d) == Group(ts, [], [], d)
    {
      assert ts[i..][0] == ts[i] && ts[i..][1..] == ts[i + 1..];
      GroupStep(ts[i..], grouped, kept, d);
      var (c, rest) := SplitConst(ts[i]);
      var at := Find(grouped, rest);
      ConstShape(c);
      if at == |grouped| {
        grouped := grouped + [(rest, c)];
      } else if Fits(grouped[at].1 + c) {
        grouped := grouped[at := (rest, grouped[at].1 + c)];
      } else {
        kept := kept + [Mul(Const(c), rest)];
      }
      i := i + 1;
    }
    GroupEnds(ts[i..], grouped, kept, d);
  }

  lemma GroupStarts(d: nat)
    ensures GroupedWithin([], d) && SymExprs.Within([], d)
  {
  }

  lemma GroupEnds(ts: seq<SymExpr>, grouped: seq<(SymExpr, Int64)>, kept: seq<SymExpr>, d: nat)
    requires ts == [] && SymExprs.Within(ts, d) && GroupedWithin(grouped, d) && SymExprs.Within(kept, d)
    ensures Group(ts, grouped, kept, d) == (grouped, kept)
  {
  }

  // One term taken into the groups.
  lemma GroupStep(ts: seq<SymExpr>, grouped: seq<(SymExpr, Int64)>, kept: seq<SymExpr>, d: nat)
    requires ts != [] && SymExprs.Within(ts, d) && GroupedWithin(grouped, d) && SymExprs.Within(kept, d)
    ensures SymExprs.Within(ts[1..], d) && Shaped(ts[0])
    ensures var (c, rest) := SplitConst(ts[0]);
      var at := Find(grouped, rest);
      if at == |grouped| then
        GroupedWithin(grouped + [(rest, c)], d) && Group(ts, grouped, kept, d) == Group(ts[1..], grouped + [(rest, c)], kept, d)
      else if Fits(grouped[at].1 + c) then
        var more := grouped[at := (rest, grouped[at].1 + c)];
        GroupedWithin(more, d) && Group(ts, grouped, kept, d) == Group(ts[1..], more, kept, d)
      else
        && Shaped(Const(c)) && Shaped(rest) && SymExprs.Within(kept + [Mul(Const(c), rest)], d)
        && Group(ts, grouped, kept, d) == Group(ts[1..], grouped, kept + [Mul(Const(c), rest)], d)
  {
    hide Depth, SplitConst, Mul;
    ConstShape(SplitConst(ts[0]).0);
  }

  /** The product of two expressions neither of which is a sum the other, a constant, distributes over. */
  method Product2(a: SymExpr, b: SymExpr) returns (r: SymExpr)
    ensures r == MulFlat(a, b)
    ensures forall env: Env :: Value(r, env) == Value(a, env) * Value(b, env)
  {
    var fs := Factors(a) + Factors(b);
    var konst: Int64, factors: seq<SymExpr>, overflowed: seq<SymExpr> := 1, [], [];
    var i := 0;
    while i < |fs|
      invariant 0 <= i <= |fs|
      invariant Flatten(fs[i..], konst, factors, overflowed) == Flatten(fs, 1, [], [])
    {
      var f := fs[i];
      assert fs[i..][1..] == fs[i + 1..];
      if !f.Const? {
        factors := factors + [f];
      } else if Fits(konst * f.c) {
        konst := konst * f.c;
      } else {
        overflowed := overflowed + [f];
      }
      i := i + 1;
    }
    factors := Sorted(factors) + overflowed;
    if konst == 0 {
      r := Const(0);
    } else {
      if konst != 1 || factors == [] {
        factors := [Const(konst)] + factors;
      }
      r := if |factors| == 1 then factors[0] else Prod(factors);
    }
    forall env: Env ensures Value(r, env) == Value(a, env) * Value(b, env) {
      MulFlatValue(a, b, env);
    }
  }
}
