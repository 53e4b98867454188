/** When no sum nests in a sum, and when a bound expression is a constant. */
module SymExprForms {
  import opened Wrappers
  import opened Divisions
  import opened SymExprs
  import opened SymExprValues
  import opened SymQuotients

  // -- plain expressions --------------------------------------------------------------

  // No sum holds a sum, no product a product, and of a product at most the first factor is a constant, and not one
  // over a sum alone.
  ghost predicate Plain(e: SymExpr)
    decreases e
  {
    match e
    case Const(_) => true
    case Sym(_) => true
    case Sum(ts) => |ts| >= 2 && forall i :: 0 <= i < |ts| ==> !ts[i].Sum? && Plain(ts[i])
    case Prod(fs) =>
      && |fs| >= 2
      && (forall i :: 0 <= i < |fs| ==> !fs[i].Prod? && Plain(fs[i]))
      && (forall i :: 0 < i < |fs| ==> !fs[i].Const?)
      && !(fs[0].Const? && |fs| == 2 && fs[1].Sum?)
    case CeilDiv(x, _) => Plain(x)
    case FloorDiv(x, _) => Plain(x)
    case Mod(x, _) => Plain(x)
    case Min(a, b) => Plain(a) && Plain(b)
    case Max(a, b) => Plain(a) && Plain(b)
  }

  lemma {:induction false} PlainIsShaped(e: SymExpr)
    requires Plain(e)
    ensures Shaped(e)
    decreases e
  {
    match e
    case Sum(ts) => forall i | 0 <= i < |ts| ensures Shaped(ts[i]) { PlainIsShaped(ts[i]); }
    case Prod(fs) => forall i | 0 <= i < |fs| ensures Shaped(fs[i]) { PlainIsShaped(fs[i]); }
    case CeilDiv(x, _) => PlainIsShaped(x);
    case FloorDiv(x, _) => PlainIsShaped(x);
    case Mod(x, _) => PlainIsShaped(x);
    case Min(a, b) => PlainIsShaped(a); PlainIsShaped(b);
    case Max(a, b) => PlainIsShaped(a); PlainIsShaped(b);
    case _ =>
  }

  // A term of a plain sum, and a factor of a plain product that is no constant.
  ghost predicate IsTerm(t: SymExpr) {
    Plain(t) && Shaped(t) && !t.Sum?
  }

  ghost predicate IsFactor(f: SymExpr) {
    Plain(f) && Shaped(f) && !f.Prod? && !f.Const?
  }

  ghost predicate Terms(ts: seq<SymExpr>) {
    forall t :: t in ts ==> IsTerm(t)
  }

  ghost predicate AllFactors(fs: seq<SymExpr>) {
    forall f :: f in fs ==> IsFactor(f)
  }

  // What is left of a term without its constant: one, or no constant and none in front.
  ghost predicate Bare(r: SymExpr) {
    IsTerm(r) && (r == Const(1) || (!r.Const? && (r.Prod? ==> !r.factors[0].Const?)))
  }

  lemma BareFactors(r: SymExpr)
    requires Bare(r) && r != Const(1)
    ensures AllFactors(Factors(r)) && (|Factors(r)| == 1 ==> !Factors(r)[0].Sum?) && |Factors(r)| >= 1
  {
    forall f | f in Factors(r) ensures IsFactor(f) {
      PlainIsShaped(f);
    }
  }

  // -- products -----------------------------------------------------------------------

  lemma {:induction false} FlattenFactors(fs: seq<SymExpr>, konst: Int64, factors: seq<SymExpr>, overflowed: seq<SymExpr>)
    requires AllFactors(fs)
    ensures Flatten(fs, konst, factors, overflowed) == (konst, factors + fs, overflowed)
  {
    if fs == [] {
      assert factors + [] == factors;
    } else {
      assert IsFactor(fs[0]);
      assert factors + [fs[0]] + fs[1..] == factors + fs;
      FlattenFactors(fs[1..], konst, factors + [fs[0]], overflowed);
    }
  }

  lemma FlattenLead(c: Int64, fs: seq<SymExpr>, konst: Int64, factors: seq<SymExpr>)
    requires AllFactors(fs)
    ensures Flatten([Const(c)] + fs, konst, factors, []) ==
      if Fits(konst * c) then (konst * c, factors + fs, []) else (konst, factors + fs, [Const(c)])
  {
    var all := [Const(c)] + fs;
    assert all[0] == Const(c) && all[1..] == fs;
    if Fits(konst * c) {
      FlattenFactors(fs, konst * c, factors, []);
    } else {
      assert [] + [all[0]] == [Const(c)];
      FlattenFactors(fs, konst, factors, [Const(c)]);
    }
  }

  lemma SortedFactors(fs: seq<SymExpr>)
    requires AllFactors(fs)
    ensures AllFactors(Sorted(fs)) && |Sorted(fs)| == |fs| && (|fs| == 1 ==> Sorted(fs) == fs)
  {
    hide Sorted;
    SameMembers(Sorted(fs), fs);
    if |fs| == 1 {
      assert Sorted(fs)[0] in Sorted(fs);
      assert fs == [fs[0]];
    }
  }

  // A product of factors that are no constants.
  lemma ProdOfFactors(fs: seq<SymExpr>)
    requires AllFactors(fs) && |fs| >= 2
    ensures Bare(Prod(fs))
  {
    forall i | 0 <= i < |fs| ensures IsFactor(fs[i]) {
      assert fs[i] in fs;
    }
  }

  lemma ProdOfLead(c: Int64, fs: seq<SymExpr>)
    requires AllFactors(fs) && fs != [] && (|fs| == 1 ==> !fs[0].Sum?)
    ensures IsTerm(Prod([Const(c)] + fs))
  {
    var all := [Const(c)] + fs;
    forall i | 0 < i < |all| ensures IsFactor(all[i]) {
      assert all[i] in fs;
    }
    forall i | 0 <= i < |all| ensures Shaped(all[i]) {
      assert i > 0 ==> IsFactor(all[i]);
    }
  }

  // The product built of a folded constant and factors, none overflowed.
  function Built(konst: Int64, fs: seq<SymExpr>): SymExpr {
    if konst == 0 then Const(0) else
    var all := if konst != 1 || fs == [] then [Const(konst)] + fs else fs;
    if |all| == 1 then all[0] else Prod(all)
  }

  lemma MulFlatIs(a: SymExpr, b: SymExpr, konst: Int64, fs: seq<SymExpr>, overflowed: seq<SymExpr>)
    requires Flatten(Factors(a) + Factors(b), 1, [], []) == (konst, fs, overflowed)
    ensures MulFlat(a, b) == Built(konst, Sorted(fs) + overflowed)
  {
    hide Flatten, Sorted, Factors;
  }

  // A constant times what is left of a term without its own.
  lemma MulBare(c: Int64, r: SymExpr)
    requires Bare(r)
    ensures Shaped(Const(c)) && Shaped(r) && IsTerm(Mul(Const(c), r))
  {
    hide Sorted, Flatten, Plain, Built, MulFlat;
    ConstShape(c);
    assert Mul(Const(c), r) == MulFlat(Const(c), r);
    if r == Const(1) {
      ConstTimesOne(c);
    } else {
      var fs := Factors(r);
      BareFactors(r);
      FlattenLead(c, fs, 1, []);
      assert [] + fs == fs && Factors(Const(c)) + fs == [Const(c)] + fs;
      MulFlatIs(Const(c), r, c, fs, []);
      SortedFactors(fs);
      assert Sorted(fs) + [] == Sorted(fs);
      BuiltTerm(c, Sorted(fs));
    }
  }

  lemma ConstTimesOne(c: Int64)
    ensures IsTerm(MulFlat(Const(c), Const(1)))
  {
    var none: seq<SymExpr> := [];
    assert Factors(Const(c)) + Factors(Const(1)) == [Const(c), Const(1)];
    assert Flatten([Const(c), Const(1)], 1, none, none) == Flatten([Const(1)], c, none, none);
    assert Flatten([Const(1)], c, none, none) == Flatten(none, c, none, none);
    assert Sorted(none) + none == none;
  }

  lemma BuiltTerm(konst: Int64, fs: seq<SymExpr>)
    requires AllFactors(fs) && fs != [] && (|fs| == 1 ==> !fs[0].Sum?)
    ensures IsTerm(Built(konst, fs))
  {
    hide Plain, Shaped;
    assert IsTerm(Const(0)) by { PlainConst(0); }
    if konst != 0 {
      if konst == 1 {
        assert fs[0] in fs;
        if |fs| >= 2 {
          ProdOfFactors(fs);
        }
      } else {
        ProdOfLead(konst, fs);
      }
    }
  }

  lemma PlainConst(c: Int64)
    ensures Plain(Const(c)) && Shaped(Const(c))
  {
  }

  // Factors multiplied from the left: one as it is, more as their product.
  lemma {:induction false} MulAllFactors(fs: seq<SymExpr>)
    requires AllFactors(fs) && AllShaped(fs) && fs != []
    ensures |fs| == 1 ==> MulAll(fs) == fs[0]
    ensures |fs| >= 2 ==> MulAll(fs).Prod? && multiset(MulAll(fs).factors) == multiset(fs)
    ensures |fs| >= 2 ==> Bare(MulAll(fs))
  {
    hide Plain, Shaped, Mul, Depth, DepthAll, Bare;
    var n := |fs| - 1;
    DepthPart(fs, fs[..n]);
    if n > 0 {
      MulAllFactors(fs[..n]);
      var front := MulAll(fs[..n]);
      assert fs[n] in fs && IsFactor(fs[n]);
      assert fs[..n][0] in fs;
      assert !front.Const?;
      MulTwo(front, fs[n], fs[..n]);
      assert fs == fs[..n] + [fs[n]];
    }
  }

  lemma LastFactor(last: SymExpr)
    requires Shaped(last) && IsFactor(last)
    ensures Factors(last) == [last]
  {
    hide Shaped;
  }

  lemma FrontFactors(front: SymExpr, fs: seq<SymExpr>)
    requires AllFactors(fs) && fs != [] && !front.Const?
    requires if |fs| == 1 then front == fs[0] else front.Prod? && multiset(front.factors) == multiset(fs)
    ensures multiset(Factors(front)) == multiset(fs) && AllFactors(Factors(front)) && |Factors(front)| == |fs|
  {
    hide Shaped, Plain, Bare;
    if |fs| == 1 {
      assert fs == [fs[0]] && fs[0] in fs;
      assert Factors(front) == fs;
    } else {
      SameMembers(front.factors, fs);
      assert |front.factors| == |multiset(front.factors)|;
    }
  }

  lemma MulTwo(front: SymExpr, last: SymExpr, fs: seq<SymExpr>)
    requires Shaped(front) && Shaped(last) && IsFactor(last) && AllFactors(fs) && fs != [] && !front.Const?
    requires if |fs| == 1 then front == fs[0] else front.Prod? && multiset(front.factors) == multiset(fs)
    ensures Mul(front, last).Prod? && multiset(Mul(front, last).factors) == multiset(fs + [last])
    ensures Bare(Mul(front, last))
  {
    hide Sorted, Flatten, Plain, Shaped, Bare;
    var all := Factors(front) + [last];
    FrontFactors(front, fs);
    LastFactor(last);
    assert AllFactors(all);
    assert Mul(front, last) == MulFlat(front, last);
    FlattenFactors(all, 1, [], []);
    assert [] + all == all;
    assert Factors(front) + Factors(last) == all;
    SortedFactors(all);
    assert Sorted(all) + [] == Sorted(all);
    assert |all| >= 2;
    ProdOfFactors(Sorted(all));
    assert multiset(all) == multiset(fs + [last]);
  }

  /** What is left of a plain term without its constant holds no constant in front and is no sum. */
  lemma SplitPlain(t: SymExpr)
    requires IsTerm(t)
    ensures Bare(SplitConst(t).1)
  {
    if t.Prod? && t.factors[0].Const? {
      var fs := t.factors[1..];
      assert forall i :: 0 <= i < |fs| ==> fs[i] == t.factors[i + 1];
      forall f | f in fs ensures IsFactor(f) {
        PlainIsShaped(f);
      }
      DepthPart(t.factors, fs);
      MulAllFactors(fs);
      if |fs| == 1 {
        assert fs[0] in fs;
      }
    }
  }

  // -- sums ---------------------------------------------------------------------------

  ghost predicate BareGroups(grouped: seq<(SymExpr, Int64)>) {
    forall g :: g in grouped ==> Bare(g.0)
  }

  lemma {:induction false} CollectTerms(ts: seq<SymExpr>, konst: Int64, terms: seq<SymExpr>)
    requires Terms(ts) && Terms(terms)
    ensures Terms(Collect(ts, konst, terms).1)
  {
    if ts != [] {
      match ts[0] {
        case Const(c) =>
          if Fits(konst + c) {
            CollectTerms(ts[1..], konst + c, terms);
          } else {
            CollectTerms(ts[1..], konst, terms + [ts[0]]);
          }
        case t => CollectTerms(ts[1..], konst, terms + [t]);
      }
    }
  }

  lemma {:induction false} GroupTerms(ts: seq<SymExpr>, grouped: seq<(SymExpr, Int64)>, kept: seq<SymExpr>, d: nat)
    requires Within(ts, d) && GroupedWithin(grouped, d) && Within(kept, d)
    requires Terms(ts) && BareGroups(grouped) && Terms(kept)
    ensures BareGroups(Group(ts, grouped, kept, d).0) && Terms(Group(ts, grouped, kept, d).1)
    decreases |ts|
  {
    hide SplitConst, Mul, Bare, IsTerm, Depth, Shaped;
    if ts != [] {
      var (c, rest) := SplitConst(ts[0]);
      assert IsTerm(ts[0]);
      SplitPlain(ts[0]);
      var i := Find(grouped, rest);
      if i == |grouped| {
        GroupTerms(ts[1..], grouped + [(rest, c)], kept, d);
      } else if Fits(grouped[i].1 + c) {
        GroupTerms(ts[1..], grouped[i := (rest, grouped[i].1 + c)], kept, d);
      } else {
        ConstShape(c);
        MulBare(c, rest);
        KeptWithin(c, rest, d);
        GroupTerms(ts[1..], grouped, kept + [Mul(Const(c), rest)], d);
      }
    }
  }

  lemma KeptWithin(c: Int64, rest: SymExpr, d: nat)
    requires Shaped(rest) && Depth(rest) <= d
    ensures Shaped(Mul(Const(c), rest)) && Depth(Mul(Const(c), rest)) <= d
  {
    ConstShape(c);
  }

  lemma {:induction false} RebuiltTerms(grouped: seq<(SymExpr, Int64)>, d: nat)
    requires GroupedWithin(grouped, d) && BareGroups(grouped)
    ensures Terms(Rebuilt(grouped, d))
  {
    hide Mul, Bare, IsTerm, Depth, Shaped;
    if grouped != [] {
      assert grouped[0] in grouped;
      MulBare(grouped[0].1, grouped[0].0);
      RebuiltTerms(grouped[1..], d);
    }
  }

  lemma AssembledPlain(konst: Int64, terms: seq<SymExpr>, d: nat)
    requires Within(terms, d) && Terms(terms)
    ensures Plain(Assembled(konst, terms, d))
  {
    hide Sorted, PositiveFirst, Shaped, Depth;
    var ts := Sorted(terms);
    SameMembers(ts, terms);
    var more := if konst != 0 || ts == [] then ts + [Const(konst)] else ts;
    assert IsTerm(Const(konst)) by { ConstShape(konst); }
    assert Terms(more);
    SameMembers(PositiveFirst(more), more);
    var all := PositiveFirst(more);
    forall i | 0 <= i < |all| ensures IsTerm(all[i]) {
      assert all[i] in all;
    }
  }

  lemma PartsTerms(e: SymExpr)
    requires Plain(e)
    ensures Terms(Parts(e)) && Shaped(e)
  {
    PlainIsShaped(e);
    forall t | t in Parts(e) ensures IsTerm(t) {
      PlainIsShaped(t);
    }
  }

  /** Adding keeps expressions plain: no sum comes to hold a sum. */
  lemma AddPlain(a: SymExpr, b: SymExpr)
    requires Plain(a) && Plain(b)
    ensures Shaped(a) && Shaped(b) && Plain(Add(a, b))
  {
    hide Collect, Parts, DepthAll, Depth, Assembled, Plain, Shaped, Group, Rebuilt, IsTerm;
    PartsTerms(a);
    PartsTerms(b);
    var d := Greater(DepthAll(Parts(a)), DepthAll(Parts(b)));
    AddStarts(a, b);
    assert Terms(Parts(a) + Parts(b));
    CollectTerms(Parts(a) + Parts(b), 0, []);
    var (konst, terms) := Collect(Parts(a) + Parts(b), 0, []);
    GroupTerms(terms, [], [], d);
    var (grouped, kept) := Group(terms, [], [], d);
    RebuiltTerms(grouped, d);
    AssembledPlain(konst, Rebuilt(grouped, d) + kept, d);
  }

  // -- which products stay plain ------------------------------------------------------

  // The constant of a product or a constant, and the factors beside it.
  function Lead(e: SymExpr): Int64 {
    match e
    case Const(c) => c
    case Prod(fs) => if fs != [] && fs[0].Const? then fs[0].c else 1
    case _ => 1
  }

  function Beside(e: SymExpr): seq<SymExpr> {
    match e
    case Const(_) => []
    case Prod(fs) => if fs != [] && fs[0].Const? then fs[1..] else fs
    case _ => [e]
  }

  lemma BesideFactors(e: SymExpr)
    requires Plain(e)
    ensures AllFactors(Beside(e)) && (Beside(e) == [] <==> e.Const?)
    ensures |Beside(e)| == 1 && Beside(e)[0].Sum? ==> e.Sum?
    ensures Factors(e) == Beside(e) || Factors(e) == [Const(Lead(e))] + Beside(e)
    ensures Factors(e) == Beside(e) ==> Lead(e) == 1
  {
    hide Shaped;
    PlainIsShaped(e);
    forall f | f in Beside(e) ensures IsFactor(f) {
      if e.Prod? {
        FactorAmong(e, f);
      }
    }
  }

  lemma FactorAmong(e: SymExpr, f: SymExpr)
    requires Plain(e) && e.Prod? && f in Beside(e)
    ensures IsFactor(f)
  {
    hide Shaped;
    var i :| 0 <= i < |e.factors| && e.factors[i] == f && (e.factors[0].Const? ==> i > 0);
    PlainIsShaped(f);
  }

  lemma PlainFactors(e: SymExpr)
    requires Plain(e)
    ensures AllFactors(Beside(e)) && (Beside(e) == [] <==> e.Const?)
    ensures |Beside(e)| == 1 && Beside(e)[0].Sum? ==> e.Sum?
    ensures Flatten(Factors(e), 1, [], []) == (Lead(e), Beside(e), [])
    ensures Factors(e) == Beside(e) || Factors(e) == [Const(Lead(e))] + Beside(e)
    ensures Factors(e) == Beside(e) ==> Lead(e) == 1
  {
    hide *;
    BesideFactors(e);
    FlattenWhole(e);
  }

  lemma FlattenWhole(e: SymExpr)
    requires AllFactors(Beside(e))
    requires if Factors(e) == Beside(e) then Lead(e) == 1 else Factors(e) == [Const(Lead(e))] + Beside(e)
    ensures Flatten(Factors(e), 1, [], []) == (Lead(e), Beside(e), [])
  {
    hide Flatten, IsFactor, Lead, Beside, Factors;
    var fs := Beside(e);
    assert [] + fs == fs;
    if Factors(e) == fs {
      FlattenFactors(fs, 1, [], []);
    } else {
      FlattenLead(Lead(e), fs, 1, []);
    }
  }

  lemma {:induction false} FlattenJoins(xs: seq<SymExpr>, ys: seq<SymExpr>, konst: Int64, factors: seq<SymExpr>,
                                        overflowed: seq<SymExpr>)
    ensures var (k, f, o) := Flatten(xs, konst, factors, overflowed);
      Flatten(xs + ys, konst, factors, overflowed) == Flatten(ys, k, f, o)
  {
    if xs == [] {
      assert xs + ys == ys;
    } else {
      assert (xs + ys)[0] == xs[0] && (xs + ys)[1..] == xs[1..] + ys;
      match xs[0] {
        case Const(c) =>
          if Fits(konst * c) {
            FlattenJoins(xs[1..], ys, konst * c, factors, overflowed);
          } else {
            FlattenJoins(xs[1..], ys, konst, factors, overflowed + [xs[0]]);
          }
        case f => FlattenJoins(xs[1..], ys, konst, factors + [f], overflowed);
      }
    }
  }

  lemma FlattenBoth(a: SymExpr, b: SymExpr)
    requires Plain(a) && Plain(b)
    ensures var fs := Beside(a) + Beside(b);
      Flatten(Factors(a) + Factors(b), 1, [], []) ==
      if Fits(Lead(a) * Lead(b)) then (Lead(a) * Lead(b), fs, []) else (Lead(a), fs, [Const(Lead(b))])
  {
    hide Flatten, Plain, Beside, Lead, Factors;
    PlainFactors(a);
    PlainFactors(b);
    FlattenJoins(Factors(a), Factors(b), 1, [], []);
    if Factors(b) == Beside(b) {
      FlattenFactors(Beside(b), Lead(a), Beside(a), []);
    } else {
      FlattenLead(Lead(b), Beside(b), Lead(a), Beside(a));
    }
  }

  /** The product of two plain expressions, no constant times a sum, is plain exactly where their constants' fits. */
  lemma MulFlatPlain(a: SymExpr, b: SymExpr)
    requires Plain(a) && Plain(b) && !(a.Const? && b.Sum?) && !(a.Sum? && b.Const?)
    ensures Plain(MulFlat(a, b)) <==> Fits(Lead(a) * Lead(b))
  {
    hide Flatten, Plain, Sorted, Beside, Lead, MulFlat, Built;
    var fs := Beside(a) + Beside(b);
    FlattenBoth(a, b);
    PlainFactors(a);
    PlainFactors(b);
    SortedFactors(fs);
    if Fits(Lead(a) * Lead(b)) {
      MulFlatIs(a, b, Lead(a) * Lead(b), fs, []);
      assert Sorted(fs) + [] == Sorted(fs);
      if fs == [] {
        BuiltConst(Lead(a) * Lead(b));
      } else {
        BuiltTerm(Lead(a) * Lead(b), Sorted(fs));
      }
    } else {
      MulFlatIs(a, b, Lead(a), fs, [Const(Lead(b))]);
      BuiltPast(Lead(a), Lead(b), Sorted(fs));
    }
  }

  lemma BuiltConst(konst: Int64)
    ensures Plain(Built(konst, [])) && Sorted([]) == []
  {
  }

  lemma BuiltPast(konst: Int64, c: Int64, fs: seq<SymExpr>)
    requires !Fits(konst * c)
    ensures !Plain(Built(konst, fs + [Const(c)]))
  {
    var all := [Const(konst)] + (fs + [Const(c)]);
    assert all[|all| - 1] == Const(c);
  }

  // Every product of constants the multiplication takes fits.
  predicate Multiplies(a: SymExpr, b: SymExpr) {
    if a.Const? && b.Sum? then forall i :: 0 <= i < |b.terms| ==> Fits(a.c * Lead(b.terms[i]))
    else if a.Sum? && b.Const? then forall i :: 0 <= i < |a.terms| ==> Fits(b.c * Lead(a.terms[i]))
    else Fits(Lead(a) * Lead(b))
  }

  lemma {:induction false} ScaledPlain(c: Int64, ts: seq<SymExpr>)
    requires ts != [] && Terms(ts) && AllShaped(ts) && forall i :: 0 <= i < |ts| ==> Fits(c * Lead(ts[i]))
    ensures Plain(Scaled(c, ts))
    decreases |ts|
  {
    hide Plain, Shaped, Depth, DepthAll, Add, Mul, Lead, Parts;
    var n := |ts| - 1;
    assert ts[n] in ts && IsTerm(ts[n]);
    DepthPart(ts, ts[..n]);
    TermTimes(c, ts[n]);
    if n > 0 {
      forall i | 0 <= i < n ensures Fits(c * Lead(ts[..n][i])) {
        assert ts[..n][i] == ts[i];
      }
      ScaledPlain(c, ts[..n]);
      AddPlain(Scaled(c, ts[..n]), Mul(Const(c), ts[n]));
    }
    ScaledIs(c, ts);
  }

  lemma ScaledIs(c: Int64, ts: seq<SymExpr>)
    requires ts != [] && AllShaped(ts)
    ensures Shaped(Const(c)) && AllShaped(ts[..|ts| - 1]) && Shaped(ts[|ts| - 1])
    ensures var n := |ts| - 1;
      Scaled(c, ts) == if n == 0 then Mul(Const(c), ts[0]) else Add(Scaled(c, ts[..n]), Mul(Const(c), ts[n]))
  {
    hide Add, Mul, Depth, DepthAll;
    ConstShape(c);
    DepthPart(ts, ts[..|ts| - 1]);
  }

  lemma TermTimes(c: Int64, t: SymExpr)
    requires IsTerm(t) && Fits(c * Lead(t))
    ensures Shaped(Const(c)) && Plain(Mul(Const(c), t))
  {
    hide Plain, MulFlat;
    PlainConst(c);
    MulFlatPlain(Const(c), t);
  }

  /** Multiplying keeps expressions plain where no product of constants leaves the word. */
  lemma MulPlain(a: SymExpr, b: SymExpr)
    requires Plain(a) && Plain(b) && Multiplies(a, b)
    ensures Shaped(a) && Shaped(b) && Plain(Mul(a, b))
  {
    hide MulFlat, Scaled, Lead, Depth;
    PlainIsShaped(a);
    PlainIsShaped(b);
    if a.Const? && b.Sum? {
      PartsTerms(b);
      ScaledPlain(a.c, b.terms);
    } else if a.Sum? && b.Const? {
      PartsTerms(a);
      ScaledPlain(b.c, a.terms);
    } else {
      MulFlatPlain(a, b);
    }
  }

  // -- a sum in a sum -----------------------------------------------------------------

  ghost predicate NestsSum(e: SymExpr) {
    e.Sum? && exists t :: t in e.terms && t.Sum?
  }

  /** A plain expression nests no sum in a sum. */
  lemma PlainNestsNone(e: SymExpr)
    requires Plain(e)
    ensures !NestsSum(e)
  {
  }

  // Two terms that share nothing add to the sum of both.
  lemma AddOfTwo(x: SymExpr, y: SymExpr)
    requires Shaped(x) && Shaped(y) && !x.Sum? && !y.Sum? && !x.Const? && !y.Const?
    requires SplitConst(x).0 != 0 && SplitConst(y).0 != 0 && SplitConst(x).1 != SplitConst(y).1
    ensures var ((c, r), (k, s)) := (SplitConst(x), SplitConst(y));
      var e := Add(x, y);
      && Shaped(Const(c)) && Shaped(Const(k))
      && e.Sum? && (e.terms == [Mul(Const(c), r), Mul(Const(k), s)] || e.terms == [Mul(Const(k), s), Mul(Const(c), r)])
  {
    hide Mul, SplitConst, Depth, DepthAll, Shaped;
    var (c, r) := SplitConst(x);
    var (k, s) := SplitConst(y);
    ConstShape(c);
    ConstShape(k);
    var d := Greater(DepthAll(Parts(x)), DepthAll(Parts(y)));
    AddStarts(x, y);
    CollectTwo(x, y);
    GroupTwo(x, y, d);
    var ts := [Mul(Const(c), r), Mul(Const(k), s)];
    AddParts(x, y, d, ts);
    AssembledTwo(ts[0], ts[1], d);
  }

  lemma AddParts(x: SymExpr, y: SymExpr, d: nat, ts: seq<SymExpr>)
    requires Shaped(x) && Shaped(y) && d == Greater(DepthAll(Parts(x)), DepthAll(Parts(y)))
    requires Within(Collect(Parts(x) + Parts(y), 0, []).1, d) && Collect(Parts(x) + Parts(y), 0, []) == (0, [x, y])
    requires var g := Group([x, y], [], [], d); g.1 == [] && Rebuilt(g.0, d) == ts
    ensures Within(ts, d) && Add(x, y) == Assembled(0, ts, d)
  {
    hide Collect, Group, Rebuilt, Assembled, Parts, DepthAll, Shaped, Depth;
    assert ts + [] == ts;
  }

  lemma CollectTwo(x: SymExpr, y: SymExpr)
    requires !x.Sum? && !y.Sum? && !x.Const? && !y.Const?
    ensures Collect(Parts(x) + Parts(y), 0, []) == (0, [x, y])
  {
    assert Parts(x) + Parts(y) == [x, y];
    assert [x, y][1..] == [y] && [y][1..] == [] && [] + [x] == [x] && [x] + [y] == [x, y];
    assert Collect([x, y], 0, []) == Collect([y], 0, [x]);
    assert Collect([y], 0, [x]) == Collect([], 0, [x, y]);
  }

  lemma GroupTwo(x: SymExpr, y: SymExpr, d: nat)
    requires Within([x, y], d) && SplitConst(x).0 != 0 && SplitConst(y).0 != 0 && SplitConst(x).1 != SplitConst(y).1
    requires Shaped(x) && Shaped(y) && Shaped(Const(SplitConst(x).0)) && Shaped(Const(SplitConst(y).0))
    ensures var ((c, r), (k, s)) := (SplitConst(x), SplitConst(y));
      && Group([x, y], [], [], d) == ([(r, c), (s, k)], [])
      && GroupedWithin([(r, c), (s, k)], d)
      && Rebuilt([(r, c), (s, k)], d) == [Mul(Const(c), r), Mul(Const(k), s)]
  {
    hide Mul, SplitConst, Depth, Shaped, Find, Kind, Compare;
    var (c, r) := SplitConst(x);
    var (k, s) := SplitConst(y);
    FindTwo((r, c), s);
    assert x in [x, y] && y in [x, y];
    assert [x, y][1..] == [y] && [y][1..] == [];
    var none: seq<(SymExpr, Int64)> := [];
    assert none + [(r, c)] == [(r, c)];
    assert Group([x, y], none, [], d) == Group([y], [(r, c)], [], d);
    assert [(r, c)] + [(s, k)] == [(r, c), (s, k)];
    assert Group([y], [(r, c)], [], d) == Group([], [(r, c), (s, k)], [], d);
    assert [(r, c), (s, k)][1..] == [(s, k)];
    assert [(s, k)][1..] == [];
    assert Rebuilt([(s, k)], d) == [Mul(Const(k), s)] + Rebuilt([], d);
  }

  lemma FindTwo(g: (SymExpr, Int64), s: SymExpr)
    requires g.0 != s
    ensures Find([], g.0) == 0 && Find([g], s) == 1
  {
    assert [g][1..] == [];
  }

  lemma AssembledTwo(u: SymExpr, v: SymExpr, d: nat)
    requires Within([u, v], d)
    ensures var e := Assembled(0, [u, v], d); e.Sum? && (e.terms == [u, v] || e.terms == [v, u])
  {
    hide Sorted, PositiveFirst, Shaped, Depth;
    var ts := Sorted([u, v]);
    SameMembers(ts, [u, v]);
    SameMembers(PositiveFirst(ts), ts);
    TwoSame(PositiveFirst(ts), u, v);
  }

  lemma TwoSame(ts: seq<SymExpr>, u: SymExpr, v: SymExpr)
    requires multiset(ts) == multiset([u, v])
    ensures ts == [u, v] || ts == [v, u]
  {
    SameMembers(ts, [u, v]);
    assert ts == [ts[0], ts[1]];
    assert multiset([u, v]) == multiset{u, v};
    assert multiset(ts) == multiset{ts[0], ts[1]};
    assert ts[0] in multiset{u, v} && ts[1] in multiset{u, v};
    if ts[0] == ts[1] {
      assert multiset{ts[0], ts[1]}[ts[0]] == 2;
    }
  }

  // A constant times a factor that is no sum.
  lemma ConstTimes(c: Int64, x: SymExpr)
    requires IsFactor(x) && !x.Sum? && c != 0 && c != 1
    ensures Shaped(Const(c)) && Mul(Const(c), x) == Prod([Const(c), x]) && Mul(x, Const(c)) == Prod([Const(c), x])
    ensures Shaped(Prod([Const(c), x])) && SplitConst(Prod([Const(c), x])) == (c, x)
  {
    hide Flatten, Sorted, Plain, Built, MulFlat, Depth, DepthAll;
    ConstShape(c);
    var xs := [x];
    assert AllFactors(xs);
    FlattenLead(c, xs, 1, []);
    FlattenFactors(xs, 1, [], []);
    FlattenLead(c, [], 1, xs);
    FlattenJoins(xs, [Const(c)], 1, [], []);
    assert [] + xs == xs && xs + [] == xs && [Const(c)] + [] == [Const(c)];
    MulFlatIs(Const(c), x, c, xs, []);
    MulFlatIs(x, Const(c), c, xs, []);
    SortedFactors(xs);
    assert [Const(c)] + xs == [Const(c), x];
    BuiltTwo(c, x);
    SplitTwo(c, x);
  }

  lemma BuiltTwo(c: Int64, x: SymExpr)
    requires c != 0 && c != 1
    ensures Built(c, [x] + []) == Prod([Const(c), x]) && Built(c, [x]) == Prod([Const(c), x])
  {
    assert [x] + [] == [x] && [Const(c)] + [x] == [Const(c), x];
  }

  lemma SplitTwo(c: Int64, x: SymExpr)
    requires Shaped(x) && Shaped(Const(c))
    ensures Shaped(Prod([Const(c), x])) && SplitConst(Prod([Const(c), x])) == (c, x)
  {
    hide Mul;
    assert [Const(c), x][1..] == [x];
    assert MulAll([x]) == x;
  }

  // Two constants whose product leaves the word, around a factor.
  lemma TimesPast(c: Int64, k: Int64, x: SymExpr)
    requires IsFactor(x) && !Fits(c * k)
    ensures MulFlat(Prod([Const(c), Const(k)]), x) == Prod([Const(c), x, Const(k)])
    ensures MulFlat(Const(c), Prod([Const(k), x])) == Prod([Const(c), x, Const(k)])
  {
    hide Flatten, Sorted, Plain, Built;
    var xs := [x];
    var all := [Const(c)] + ([Const(k)] + xs);
    var none: seq<SymExpr> := [];
    FlattenLead(c, none, 1, none);
    assert [Const(c)] + none == [Const(c)] && none + none == none && none + xs == xs;
    FlattenJoins([Const(c)], [Const(k)] + xs, 1, none, none);
    assert Flatten([Const(c)], 1, none, none) == (c, none, none);
    FlattenLead(k, xs, c, none);
    assert Flatten(all, 1, [], []) == (c, xs, [Const(k)]);
    assert Factors(Prod([Const(c), Const(k)])) + Factors(x) == all;
    assert Factors(Const(c)) + Factors(Prod([Const(k), x])) == all;
    MulFlatIs(Prod([Const(c), Const(k)]), x, c, xs, [Const(k)]);
    MulFlatIs(Const(c), Prod([Const(k), x]), c, xs, [Const(k)]);
    SortedFactors(xs);
    BuiltThree(c, x, k);
  }

  lemma BuiltThree(c: Int64, x: SymExpr, k: Int64)
    requires c != 0 && c != 1
    ensures Built(c, [x] + [Const(k)]) == Prod([Const(c), x, Const(k)])
  {
    assert [Const(c)] + ([x] + [Const(k)]) == [Const(c), x, Const(k)];
  }

  lemma SplitThree(c: Int64, x: SymExpr, k: Int64)
    requires Shaped(x)
    ensures Shaped(Prod([Const(c), x, Const(k)])) && Shaped(Const(k))
    ensures SplitConst(Prod([Const(c), x, Const(k)])) == (c, Mul(x, Const(k)))
  {
    hide Mul;
    ConstShape(c);
    ConstShape(k);
    var fs := [Const(c), x, Const(k)];
    assert AllShaped(fs);
    assert fs[1..] == [x, Const(k)];
    assert [x, Const(k)][..1] == [x];
    assert MulAll([x]) == x;
    MulAllTwo(x, Const(k));
  }

  lemma MulAllTwo(x: SymExpr, y: SymExpr)
    requires Shaped(x) && Shaped(y)
    ensures MulAll([x, y]) == Mul(x, y)
  {
    hide Mul;
    assert AllShaped([x, y]);
    assert [x, y][..1] == [x];
    assert MulAll([x]) == x;
  }

  // A constant times a sum of two.
  lemma ScaledTwo(c: Int64, x: SymExpr, y: SymExpr)
    requires Shaped(x) && Shaped(y)
    ensures Shaped(Const(c)) && Shaped(Sum([x, y])) && Scaled(c, [x, y]) == Add(Mul(Const(c), x), Mul(Const(c), y))
    ensures Mul(Const(c), Sum([x, y])) == Scaled(c, [x, y]) == Mul(Sum([x, y]), Const(c))
  {
    hide Mul, Add, Depth, DepthAll;
    assert AllShaped([x, y]);
    ScaledIs(c, [x, y]);
    assert [x, y][..1] == [x];
    ScaledIs(c, [x]);
    MulSum(c, [x, y]);
  }

  lemma MulSum(c: Int64, ts: seq<SymExpr>)
    requires |ts| >= 2 && AllShaped(ts)
    ensures Shaped(Const(c)) && Shaped(Sum(ts))
    ensures Mul(Const(c), Sum(ts)) == Scaled(c, ts) == Mul(Sum(ts), Const(c))
  {
    hide Scaled, MulFlat, Depth, DepthAll;
  }

  // Two symbols added.
  function Two(i: Symbol, j: Symbol): (r: SymExpr)
    ensures Shaped(r)
  {
    assert AllShaped([Sym(i), Sym(j)]);
    Sum([Sym(i), Sym(j)])
  }

  lemma SymbolFactor(i: Symbol)
    ensures IsFactor(Sym(i))
  {
  }

  lemma TwoFactor(i: Symbol, j: Symbol)
    requires i != j
    ensures Plain(Two(i, j)) && IsFactor(Two(i, j))
  {
    forall n | 0 <= n < 2 ensures !Two(i, j).terms[n].Sum? && Plain(Two(i, j).terms[n]) {
    }
  }

  // A constant times the sum of two symbols is the sum of the constant times each, in some order.
  lemma TimesTwo(k: Int64, i: Symbol, j: Symbol)
    requires i != j && k != 0 && k != 1
    ensures var (p, q) := (Prod([Const(k), Sym(i)]), Prod([Const(k), Sym(j)]));
      Shaped(Const(k)) && Mul(Two(i, j), Const(k)) in {Sum([p, q]), Sum([q, p])}
  {
    hide Mul, Add, SplitConst, Scaled, Depth, DepthAll;
    SymbolFactor(i);
    SymbolFactor(j);
    ScaledTwo(k, Sym(i), Sym(j));
    ConstTimes(k, Sym(i));
    ConstTimes(k, Sym(j));
    AddOfTwo(Prod([Const(k), Sym(i)]), Prod([Const(k), Sym(j)]));
  }

  // A second constant, their product past the word, times either order of it is a sum again.
  lemma TimesTwice(c: Int64, k: Int64, i: Symbol, j: Symbol)
    requires i != j && !Fits(c * k)
    ensures var r := Sum([Prod([Const(k), Sym(i)]), Prod([Const(k), Sym(j)])]);
      Shaped(Const(c)) && Shaped(r) && Mul(Const(c), r).Sum?
  {
    hide Mul, Add, SplitConst, Scaled, Depth, DepthAll, MulFlat;
    SymbolFactor(i);
    SymbolFactor(j);
    var (p, q) := (Prod([Const(k), Sym(i)]), Prod([Const(k), Sym(j)]));
    ConstTimes(k, Sym(i));
    ConstTimes(k, Sym(j));
    ScaledTwo(c, p, q);
    PastSplits(c, k, i);
    PastSplits(c, k, j);
    AddOfTwo(Mul(Const(c), p), Mul(Const(c), q));
  }

  lemma PastSplits(c: Int64, k: Int64, i: Symbol)
    requires !Fits(c * k)
    ensures var p := Prod([Const(k), Sym(i)]);
      Shaped(Const(c)) && Shaped(p) && Mul(Const(c), p).Prod? && SplitConst(Mul(Const(c), p)) == (c, p)
  {
    hide Scaled, Depth, DepthAll, MulFlat, SplitConst;
    var p := Prod([Const(k), Sym(i)]);
    SymbolFactor(i);
    ConstTimes(k, Sym(i));
    TimesPast(c, k, Sym(i));
    SplitThree(c, Sym(i), k);
  }

  lemma ConstsPast(c: Int64, k: Int64)
    requires !Fits(c * k)
    ensures MulFlat(Const(c), Const(k)) == Prod([Const(c), Const(k)])
  {
    hide Flatten, Sorted, Built;
    assert Factors(Const(c)) + Factors(Const(k)) == [Const(c)] + [Const(k)];
    FlattenLead(c, [], 1, []);
    FlattenLead(k, [], c, []);
    assert [Const(c)] + [] == [Const(c)] && [Const(k)] + [] == [Const(k)];
    FlattenJoins([Const(c)], [Const(k)], 1, [], []);
    MulFlatIs(Const(c), Const(k), c, [], [Const(k)]);
    BuiltPair(c, k);
  }

  lemma BuiltPair(c: Int64, k: Int64)
    requires c != 0 && c != 1
    ensures Sorted([]) == [] && Built(c, Sorted([]) + [Const(k)]) == Prod([Const(c), Const(k)])
  {
    assert [Const(c)] + ([] + [Const(k)]) == [Const(c), Const(k)];
  }

  // Two constants times the sum of two symbols, and a third symbol added.
  function TwoScaledPlus(c: Int64, k: Int64, i: Symbol, j: Symbol, m: Symbol): SymExpr {
    assert Shaped(Const(c)) && Shaped(Const(k)) && Shaped(Sym(m));
    Add(Mul(Mul(Const(c), Const(k)), Two(i, j)), Sym(m))
  }

  /** A sum comes to nest in a sum exactly where the product of the constants leaves the word. */
  lemma NestsWherePast(c: Int64, k: Int64, i: Symbol, j: Symbol, m: Symbol)
    requires i != j
    ensures NestsSum(TwoScaledPlus(c, k, i, j, m)) <==> !Fits(c * k)
  {
    hide Mul, Add, Plain, NestsSum, Two, Depth, DepthAll;
    if Fits(c * k) {
      StaysPlain(c, k, i, j, m);
      PlainNestsNone(TwoScaledPlus(c, k, i, j, m));
    } else {
      NestsPast(c, k, i, j, m);
    }
  }

  lemma StaysPlain(c: Int64, k: Int64, i: Symbol, j: Symbol, m: Symbol)
    requires i != j && Fits(c * k)
    ensures Plain(TwoScaledPlus(c, k, i, j, m))
  {
    hide Mul, Add, MulFlat, Depth, DepthAll;
    TwoFactor(i, j);
    MulPlain(Const(c), Const(k));
    ConstsFold(c, k);
    MulPlain(Const(c * k), Two(i, j));
    AddPlain(Mul(Const(c * k), Two(i, j)), Sym(m));
  }

  lemma ConstsFold(c: Int64, k: Int64)
    requires Fits(c * k)
    ensures Shaped(Const(c)) && Shaped(Const(k)) && Mul(Const(c), Const(k)) == Const(c * k)
  {
    var none: seq<SymExpr> := [];
    assert Factors(Const(c)) + Factors(Const(k)) == [Const(c), Const(k)];
    assert Flatten([Const(c), Const(k)], 1, none, none) == Flatten([Const(k)], c, none, none);
    assert Flatten([Const(k)], c, none, none) == Flatten(none, c * k, none, none);
    assert Sorted(none) + none == none;
    assert [Const(c * k)] + none == [Const(c * k)];
  }

  lemma NestsPast(c: Int64, k: Int64, i: Symbol, j: Symbol, m: Symbol)
    requires i != j && !Fits(c * k)
    ensures NestsSum(TwoScaledPlus(c, k, i, j, m))
  {
    hide Mul, Add, SplitConst, Scaled, MulFlat, Two, Depth, DepthAll;
    var s := Two(i, j);
    TwoFactor(i, j);
    MulOfConsts(c, k, s);
    var p := Prod([Const(c), s, Const(k)]);
    SplitThree(c, s, k);
    TimesTwo(k, i, j);
    var r := Mul(s, Const(k));
    TimesTwice(c, k, i, j);
    TimesTwice(c, k, j, i);
    SplitSymbol(m);
    AddOfTwo(p, Sym(m));
    var e := Add(p, Sym(m));
    assert Mul(Const(c), r) in e.terms;
  }

  lemma SplitSymbol(m: Symbol)
    ensures Shaped(Sym(m)) && SplitConst(Sym(m)) == (1, Sym(m))
  {
  }

  lemma MulOfConsts(c: Int64, k: Int64, s: SymExpr)
    requires !Fits(c * k) && IsFactor(s)
    ensures Shaped(Const(c)) && Shaped(Const(k)) && Shaped(Mul(Const(c), Const(k)))
    ensures Mul(Mul(Const(c), Const(k)), s) == Prod([Const(c), s, Const(k)])
  {
    hide MulFlat, Scaled, Depth, DepthAll;
    ConstShape(c);
    ConstShape(k);
    ConstsPast(c, k);
    TimesPast(c, k, s);
  }

  // -- when a bound expression is a constant --------------------------------------------

  // The value of an expression of bound symbols, its sums and products taken from the left; none where a symbol is not
  // bound or one of them leaves the word on the way.
  function Checked(e: SymExpr, bindings: Bindings): Option<Int64>
    requires Shaped(e)
    decreases e
  {
    match e
    case Const(c) => Some(c)
    case Sym(s) => if s in bindings then Some(bindings[s]) else None
    case Sum(ts) => assert AllShaped(ts); CheckedSum(ts, bindings)
    case Prod(fs) => assert AllShaped(fs); CheckedProduct(fs, bindings)
    case CeilDiv(x, d) => (match Checked(x, bindings) case Some(v) => Some(CeilOf(v, d)) case None => None)
    case FloorDiv(x, d) => (match Checked(x, bindings) case Some(v) => FloorFits(v, d); Some(v / d) case None => None)
    case Mod(x, d) => (match Checked(x, bindings) case Some(v) => Some(v % d) case None => None)
    case Min(a, b) =>
      (match (Checked(a, bindings), Checked(b, bindings))
       case (Some(x), Some(y)) => Some(if x < y then x else y)
       case _ => None)
    case Max(a, b) =>
      (match (Checked(a, bindings), Checked(b, bindings))
       case (Some(x), Some(y)) => Some(if x < y then y else x)
       case _ => None)
  }

  function CheckedSum(ts: seq<SymExpr>, bindings: Bindings): Option<Int64>
    requires ts != [] && AllShaped(ts)
    decreases ts
  {
    var n := |ts| - 1;
    if n == 0 then Checked(ts[0], bindings) else
    DepthPart(ts, ts[..n]);
    match (CheckedSum(ts[..n], bindings), Checked(ts[n], bindings))
    case (Some(x), Some(y)) => CheckedAdd(x, y)
    case _ => None
  }

  function CheckedProduct(fs: seq<SymExpr>, bindings: Bindings): Option<Int64>
    requires fs != [] && AllShaped(fs)
    decreases fs
  {
    var n := |fs| - 1;
    if n == 0 then Checked(fs[0], bindings) else
    DepthPart(fs, fs[..n]);
    match (CheckedProduct(fs[..n], bindings), Checked(fs[n], bindings))
    case (Some(x), Some(y)) => CheckedMul(x, y)
    case _ => None
  }

  function CheckedAdd(x: int, y: int): Option<Int64> {
    if Fits(x + y) then Some(x + y) else None
  }

  function CheckedMul(x: int, y: int): Option<Int64> {
    if Fits(x * y) then Some(x * y) else None
  }

  function CeilOf(v: int, d: Divisor): Int64
    requires Fits(v)
  {
    CeilFits(v, d);
    -(-v / d)
  }

  // Every expression binding builds on the way is a constant.
  ghost predicate StaysConst(e: SymExpr, bindings: Bindings)
    requires Shaped(e)
    decreases e
  {
    match e
    case Const(_) => true
    case Sym(s) => s in bindings
    case Sum(ts) => assert AllShaped(ts); SumStays(ts, bindings)
    case Prod(fs) => assert AllShaped(fs); ProductStays(fs, bindings)
    case CeilDiv(x, _) => StaysConst(x, bindings) && Bind(e, bindings).Const?
    case FloorDiv(x, _) => StaysConst(x, bindings) && Bind(e, bindings).Const?
    case Mod(x, _) => StaysConst(x, bindings) && Bind(e, bindings).Const?
    case Min(a, b) => StaysConst(a, bindings) && StaysConst(b, bindings) && Bind(e, bindings).Const?
    case Max(a, b) => StaysConst(a, bindings) && StaysConst(b, bindings) && Bind(e, bindings).Const?
  }

  ghost predicate SumStays(ts: seq<SymExpr>, bindings: Bindings)
    requires ts != [] && AllShaped(ts)
    decreases ts
  {
    var n := |ts| - 1;
    if n == 0 then StaysConst(ts[0], bindings) else
    DepthPart(ts, ts[..n]);
    SumStays(ts[..n], bindings) && StaysConst(ts[n], bindings) && AddBound(ts, bindings).Const?
  }

  ghost predicate ProductStays(fs: seq<SymExpr>, bindings: Bindings)
    requires fs != [] && AllShaped(fs)
    decreases fs
  {
    var n := |fs| - 1;
    if n == 0 then StaysConst(fs[0], bindings) else
    DepthPart(fs, fs[..n]);
    ProductStays(fs[..n], bindings) && StaysConst(fs[n], bindings) && MulBound(fs, bindings).Const?
  }

  // Two constants add to a constant exactly where their sum fits.
  lemma AddConsts(x: Int64, y: Int64)
    ensures Shaped(Const(x)) && Shaped(Const(y))
    ensures if Fits(x + y) then Add(Const(x), Const(y)) == Const(x + y) else Add(Const(x), Const(y)).Sum?
  {
    hide Mul, SplitConst;
    ConstShape(x);
    ConstShape(y);
    CollectConsts(x, y);
    var d := Greater(DepthAll(Parts(Const(x))), DepthAll(Parts(Const(y))));
    AddStarts(Const(x), Const(y));
    if Fits(x + y) {
      AddIs(Const(x), Const(y), d, x + y, [], []);
      AssembledNone(x + y, d);
    } else {
      GroupConst(y, d);
      AddIs(Const(x), Const(y), d, x, [Const(y)], [Const(y)]);
      AssembledOne(x, Const(y), d);
    }
  }

  lemma CollectConsts(x: Int64, y: Int64)
    ensures Fits(x + y) ==> Collect(Parts(Const(x)) + Parts(Const(y)), 0, []) == (x + y, [])
    ensures !Fits(x + y) ==> Collect(Parts(Const(x)) + Parts(Const(y)), 0, []) == (x, [Const(y)])
  {
    var none: seq<SymExpr> := [];
    assert Parts(Const(x)) + Parts(Const(y)) == [Const(x), Const(y)];
    assert [Const(x), Const(y)][1..] == [Const(y)] && [Const(y)][1..] == none;
    assert Collect([Const(x), Const(y)], 0, none) == Collect([Const(y)], x, none);
    assert none + [Const(y)] == [Const(y)];
    assert Collect([Const(y)], x, none) == if Fits(x + y) then Collect(none, x + y, none) else Collect(none, x, [Const(y)]);
  }

  lemma AddIs(a: SymExpr, b: SymExpr, d: nat, konst: Int64, terms: seq<SymExpr>, ts: seq<SymExpr>)
    requires Shaped(a) && Shaped(b) && d == Greater(DepthAll(Parts(a)), DepthAll(Parts(b)))
    requires Collect(Parts(a) + Parts(b), 0, []) == (konst, terms) && Within(terms, d)
    requires var g := Group(terms, [], [], d); Rebuilt(g.0, d) + g.1 == ts
    ensures Within(ts, d) && Add(a, b) == Assembled(konst, ts, d)
  {
    hide Collect, Group, Rebuilt, Assembled, Parts, DepthAll, Shaped, Depth;
  }

  lemma AssembledNone(konst: Int64, d: nat)
    ensures Assembled(konst, [], d) == Const(konst)
  {
    var none: seq<SymExpr> := [];
    assert Sorted(none) == none && none + [Const(konst)] == [Const(konst)];
    OneInFront(Const(konst));
  }

  lemma OneInFront(t: SymExpr)
    ensures PositiveFirst([t]) == [t]
  {
    assert [t][1..] == [];
  }

  lemma AssembledOne(konst: Int64, t: SymExpr, d: nat)
    requires konst != 0 && Within([t], d)
    ensures Assembled(konst, [t], d).Sum?
  {
    hide Sorted, PositiveFirst;
    SameMembers(Sorted([t]), [t]);
    SameMembers(PositiveFirst(Sorted([t]) + [Const(konst)]), Sorted([t]) + [Const(konst)]);
  }

  lemma GroupConst(y: Int64, d: nat)
    requires y != 0
    ensures Within([Const(y)], d)
    ensures var g := Group([Const(y)], [], [], d); Rebuilt(g.0, d) + g.1 == [Const(y)]
  {
    hide Mul, SplitConst, Shaped, Depth;
    ConstShape(y);
    ConstShape(1);
    SplitOfConst(y);
    ConstsFold(y, 1);
    var none: seq<(SymExpr, Int64)> := [];
    assert Find(none, Const(1)) == 0 && none + [(Const(1), y)] == [(Const(1), y)];
    assert [Const(y)][1..] == [];
    assert Group([Const(y)], none, [], d) == Group([], [(Const(1), y)], [], d);
    assert [(Const(1), y)][1..] == none;
    assert Rebuilt([(Const(1), y)], d) == [Mul(Const(y), Const(1))] + Rebuilt(none, d);
  }

  lemma SplitOfConst(y: Int64)
    ensures Shaped(Const(y)) && SplitConst(Const(y)) == (y, Const(1))
  {
  }

  lemma MulConsts(x: Int64, y: Int64)
    ensures Shaped(Const(x)) && Shaped(Const(y))
    ensures if Fits(x * y) then Mul(Const(x), Const(y)) == Const(x * y) else Mul(Const(x), Const(y)).Prod?
  {
    hide MulFlat;
    if Fits(x * y) {
      ConstsFold(x, y);
    } else {
      ConstsPast(x, y);
    }
  }

  /**
   * Binding keeps to constants all the way exactly where every sum and product on the way fits, and the constant it
   * ends at is then the expression's value.
   */
  lemma {:induction false} BindStaysConst(e: SymExpr, bindings: Bindings)
    requires Shaped(e)
    ensures StaysConst(e, bindings) <==> Checked(e, bindings).Some?
    ensures Checked(e, bindings).Some? ==> Bind(e, bindings) == Const(Checked(e, bindings).value)
    decreases e
  {
    hide SumStays, ProductStays, CheckedSum, CheckedProduct, AddBound, MulBound;
    match e
    case Sum(ts) =>
      assert AllShaped(ts);
      AddStaysConst(ts, bindings);
    case Prod(fs) =>
      assert AllShaped(fs);
      MulStaysConst(fs, bindings);
    case CeilDiv(x, d) =>
      BindStaysConst(x, bindings);
      if Checked(x, bindings).Some? {
        ConstCeil(Checked(x, bindings).value, d);
      }
    case FloorDiv(x, d) =>
      BindStaysConst(x, bindings);
      if Checked(x, bindings).Some? {
        ConstFloor(Checked(x, bindings).value, d);
      }
    case Mod(x, d) => BindStaysConst(x, bindings);
    case Min(a, b) =>
      BindStaysConst(a, bindings);
      BindStaysConst(b, bindings);
    case Max(a, b) =>
      BindStaysConst(a, bindings);
      BindStaysConst(b, bindings);
    case _ =>
  }

  lemma ConstCeil(v: Int64, d: Divisor)
    ensures Shaped(Const(v)) && CeilQuotient(Const(v), d) == Const(CeilOf(v, d))
  {
    var n: int := v;
    RoundsUp(n, d);
    if d == 1 {
      assert -(-n / 1) == n;
    }
  }

  lemma ConstFloor(v: Int64, d: Divisor)
    ensures Shaped(Const(v)) && MIN <= v / d <= MAX && FloorQuotient(Const(v), d) == Const(v / d)
  {
    FloorFits(v, d);
    if d == 1 {
      assert v / 1 == v;
    }
  }

  lemma {:induction false} AddStaysConst(ts: seq<SymExpr>, bindings: Bindings)
    requires ts != [] && AllShaped(ts)
    ensures SumStays(ts, bindings) <==> CheckedSum(ts, bindings).Some?
    ensures CheckedSum(ts, bindings).Some? ==> AddBound(ts, bindings) == Const(CheckedSum(ts, bindings).value)
    decreases ts
  {
    hide StaysConst, Checked, Bind, Add, Depth, DepthAll;
    var n := |ts| - 1;
    DepthPart(ts, ts[..n]);
    BindStaysConst(ts[n], bindings);
    if n > 0 {
      AddStaysConst(ts[..n], bindings);
      if CheckedSum(ts[..n], bindings).Some? && Checked(ts[n], bindings).Some? {
        AddConsts(CheckedSum(ts[..n], bindings).value, Checked(ts[n], bindings).value);
      }
    }
  }

  lemma {:induction false} MulStaysConst(fs: seq<SymExpr>, bindings: Bindings)
    requires fs != [] && AllShaped(fs)
    ensures ProductStays(fs, bindings) <==> CheckedProduct(fs, bindings).Some?
    ensures CheckedProduct(fs, bindings).Some? ==> MulBound(fs, bindings) == Const(CheckedProduct(fs, bindings).value)
    decreases fs
  {
    hide StaysConst, Checked, Bind, Mul, Depth, DepthAll;
    var n := |fs| - 1;
    DepthPart(fs, fs[..n]);
    BindStaysConst(fs[n], bindings);
    if n > 0 {
      MulStaysConst(fs[..n], bindings);
      if CheckedProduct(fs[..n], bindings).Some? && Checked(fs[n], bindings).Some? {
        MulConsts(CheckedProduct(fs[..n], bindings).value, Checked(fs[n], bindings).value);
      }
    }
  }

  /** The sum of two bound symbols is a constant exactly where their values' fits: not the greatest word and one. */
  lemma BoundSumOfTwo(i: Symbol, j: Symbol, bindings: Bindings)
    requires i in bindings && j in bindings
    ensures Bind(Two(i, j), bindings).Const? <==> CheckedAdd(bindings[i], bindings[j]).Some?
  {
    hide Add;
    var ts := [Sym(i), Sym(j)];
    assert AllShaped(ts);
    assert ts[..1] == [Sym(i)];
    assert AddBound([Sym(i)], bindings) == Const(bindings[i]);
    assert AddBound(ts, bindings) == Add(Const(bindings[i]), Const(bindings[j]));
    AddConsts(bindings[i], bindings[j]);
  }

  /**
   * A sum may leave the word on the way and still come back to a constant: the greatest word, one more and one less.
   */
  lemma ComesBack(bindings: Bindings)
    requires bindings == map[0 := MAX, 1 := 1, 2 := -1]
    ensures var ts := [Sym(0), Sym(1), Sym(2)];
      AllShaped(ts) && CheckedSum(ts, bindings).None? && AddBound(ts, bindings) == Const(MAX)
  {
    hide Add;
    var ts := [Sym(0), Sym(1), Sym(2)];
    assert AllShaped(ts);
    assert ts[..2] == [Sym(0), Sym(1)] && ts[..2][..1] == [Sym(0)];
    assert AddBound([Sym(0)], bindings) == Const(MAX) && CheckedSum([Sym(0)], bindings) == Some(MAX);
    assert AddBound(ts[..2], bindings) == Add(Const(MAX), Const(1));
    assert CheckedSum(ts[..2], bindings).None?;
    PastByOne();
    BackByOne();
  }

  lemma PastByOne()
    ensures Shaped(Const(MAX)) && Shaped(Const(1)) && Add(Const(MAX), Const(1)) == Sum([Const(1), Const(MAX)])
  {
    hide Mul, SplitConst, Sorted;
    ConstShape(MAX);
    ConstShape(1);
    CollectConsts(MAX, 1);
    var d := Greater(DepthAll(Parts(Const(MAX))), DepthAll(Parts(Const(1))));
    AddStarts(Const(MAX), Const(1));
    GroupConst(1, d);
    AddIs(Const(MAX), Const(1), d, MAX, [Const(1)], [Const(1)]);
    OneSorted(Const(1));
    TwoInFront();
  }

  lemma OneSorted(t: SymExpr)
    ensures Sorted([t]) == [t]
  {
    hide Sorted;
    SameMembers(Sorted([t]), [t]);
    assert Sorted([t])[0] in Sorted([t]);
  }

  lemma TwoInFront()
    ensures [Const(1)] + [Const(MAX)] == [Const(1), Const(MAX)]
    ensures PositiveFirst([Const(1), Const(MAX)]) == [Const(1), Const(MAX)]
  {
    hide Picked;
    var none: seq<SymExpr> := [];
    PickedNext(Const(MAX), none);
    PickedNext(Const(1), [Const(MAX)]);
    assert [Const(MAX)] + none == [Const(MAX)] && [Const(1)] + [Const(MAX)] == [Const(1), Const(MAX)];
    assert [Const(1), Const(MAX)] + none == [Const(1), Const(MAX)];
  }

  // Picking goes term by term.
  lemma PickedNext(t: SymExpr, rest: seq<SymExpr>)
    ensures Picked([], true) == Picked([], false) == []
    ensures forall n :: Picked([t] + rest, n) == (if Negated(t) == n then [t] else []) + Picked(rest, n)
  {
    assert ([t] + rest)[1..] == rest;
  }

  lemma BackByOne()
    ensures Shaped(Sum([Const(1), Const(MAX)])) && Shaped(Const(-1))
    ensures Add(Sum([Const(1), Const(MAX)]), Const(-1)) == Const(MAX)
  {
    hide Mul, SplitConst, Sorted;
    ConstShape(MAX);
    ConstShape(1);
    ConstShape(-1);
    var e := Sum([Const(1), Const(MAX)]);
    assert AllShaped(e.terms);
    CollectBack();
    var d := Greater(DepthAll(Parts(e)), DepthAll(Parts(Const(-1))));
    AddStarts(e, Const(-1));
    GroupConst(MAX, d);
    AddIs(e, Const(-1), d, 0, [Const(MAX)], [Const(MAX)]);
    OneSorted(Const(MAX));
    OneInFront(Const(MAX));
  }

  lemma CollectBack()
    ensures Collect(Parts(Sum([Const(1), Const(MAX)])) + Parts(Const(-1)), 0, []) == (0, [Const(MAX)])
  {
    var none: seq<SymExpr> := [];
    var all := [Const(1), Const(MAX), Const(-1)];
    assert Parts(Sum([Const(1), Const(MAX)])) + Parts(Const(-1)) == all;
    assert all[1..] == [Const(MAX), Const(-1)] && all[1..][1..] == [Const(-1)] && [Const(-1)][1..] == none;
    assert Collect(all, 0, none) == Collect(all[1..], 1, none);
    assert none + [Const(MAX)] == [Const(MAX)];
    assert Collect(all[1..], 1, none) == Collect([Const(-1)], 1, [Const(MAX)]);
    assert Collect([Const(-1)], 1, [Const(MAX)]) == Collect(none, 0, [Const(MAX)]);
  }
}
