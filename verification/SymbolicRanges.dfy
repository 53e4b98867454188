/** Ranges of forms with symbolic coefficients: their ends too are values, where nothing is shared. */
module SymbolicRanges {
  import opened Wrappers
  import opened Divisions
  import opened SymExprs
  import opened SymExprValues
  import opened SymExprSymbols
  import opened Spans
  import opened SpanEnds
  import opened AffineExprs
  import opened AffineDivision
  import opened AffineRanges
  import opened RangeEnds

  type Terms = seq<(Var, SymExpr)>

  // The terms of constant coefficients, and the others.
  function Kept(terms: Terms, consts: bool): Terms {
    if terms == [] then [] else
    Kept(terms[..|terms| - 1], consts) +
    if terms[|terms| - 1].1.Const? == consts then [terms[|terms| - 1]] else []
  }

  lemma {:induction false} KeptIn(terms: Terms, consts: bool)
    ensures forall t :: t in Kept(terms, consts) <==> t in terms && t.1.Const? == consts
  {
    if terms != [] {
      var n := |terms| - 1;
      assert terms == terms[..n] + [terms[n]];
      KeptIn(terms[..n], consts);
    }
  }

  lemma {:induction false} KeptValue(terms: Terms, leaf: Leaf, env: Env)
    ensures TermsValue(terms, leaf, env) ==
            TermsValue(Kept(terms, true), leaf, env) + TermsValue(Kept(terms, false), leaf, env)
  {
    hide Value, VarValue, TermsValue;
    if terms == [] {
      NoTerms(leaf, env);
    } else {
      var n := |terms| - 1;
      var front, t := terms[..n], terms[n];
      assert terms == front + [t];
      KeptValue(front, leaf, env);
      TermsAppend(front, [t], leaf, env);
      if t.1.Const? {
        TermsAppend(Kept(front, true), [t], leaf, env);
        assert Kept(terms, false) == Kept(front, false);
      } else {
        TermsAppend(Kept(front, false), [t], leaf, env);
        assert Kept(terms, true) == Kept(front, true);
      }
    }
  }

  // Symbolic terms of variables and symbols each its own, their ranges known.
  ghost predicate Separate(terms: Terms, bound: VarBounds, sym: Bounds) {
    && (forall i :: 0 <= i < |terms| ==> SeparateOne(terms[i], bound, sym))
    && (forall i, j :: 0 <= i < j < |terms| ==>
          Root(terms[i].0) != Root(terms[j].0) && Symbols(terms[i].1) !! Symbols(terms[j].1))
  }

  ghost predicate SeparateOne(t: (Var, SymExpr), bound: VarBounds, sym: Bounds) {
    !t.1.Const? && Spread(t.0, bound) && Once(t.1, sym) && AllBounded(Symbols(t.1), sym)
  }

  // The ranges of symbolic terms added up.
  function SymbolicSum(terms: Terms, bound: VarBounds, sym: Bounds, r: Running): Option<Running> {
    if terms == [] then Some(r) else
    var n := |terms| - 1;
    match (SymbolicSum(terms[..n], bound, sym, r), SymbolicRange(terms[n].1, terms[n].0, bound, sym))
    case (Some(s), Some(Some((x, y)))) => Some(PlusRange(s, x, y))
    case (Some(_), Some(None)) => Some(None)
    case _ => None
  }

  // The code's groups are those of the constant terms alone, its sum that of the others.
  lemma {:induction false} RangesApart(terms: Terms, n: nat, bound: VarBounds, sym: Bounds, start: Running, r: Running,
                                       groups: Groups, all: Groups)
    requires n <= |terms| && SymbolicSum(Kept(terms[..n], false), bound, sym, start) == Some(r)
    requires SymbolicSum(Kept(terms, false), bound, sym, start).Some?
    requires |Kept(terms[..n], true)| <= |Kept(terms, true)|
    requires TermRanges(Kept(terms, true)[|Kept(terms[..n], true)|..], bound, sym, start, groups) == Some((start, all))
    ensures TermRanges(terms[n..], bound, sym, r, groups) ==
            Some((SymbolicSum(Kept(terms, false), bound, sym, start).value, all))
    decreases |terms| - n
  {
    hide AffineRanges.Joined, SymbolicRange, PlusRange, Kept, SymbolicSum, TermRanges;
    if n == |terms| {
      assert terms[..n] == terms;
      NothingRanged(bound, sym, r, groups);
      NothingRanged(bound, sym, start, groups);
    } else {
      var t, m := terms[n], |Kept(terms[..n], true)|;
      KeptNext(terms, n);
      KeptPrefix(terms, n + 1, t.1.Const?);
      assert terms[n..][0] == t && terms[n..][1..] == terms[n + 1..];
      RangedNext(terms[n..], bound, sym, r, groups);
      if t.1.Const? {
        assert Kept(terms, true)[m] == t;
        assert Kept(terms, true)[m..][0] == t && Kept(terms, true)[m..][1..] == Kept(terms, true)[m + 1..];
        RangedNext(Kept(terms, true)[m..], bound, sym, start, groups);
        RangesApart(terms, n + 1, bound, sym, start, r, AffineRanges.Joined(groups, (t.0, t.1.c)), all);
      } else {
        SumPrefix(Kept(terms, false), |Kept(terms[..n + 1], false)|, bound, sym, start);
        SumNext(Kept(terms[..n], false), t, bound, sym, start);
        var next := SymbolicSum(Kept(terms[..n + 1], false), bound, sym, start).value;
        RangesApart(terms, n + 1, bound, sym, start, next, groups, all);
      }
    }
  }

  lemma KeptNext(terms: Terms, n: nat)
    requires n < |terms|
    ensures Kept(terms[..n + 1], terms[n].1.Const?) == Kept(terms[..n], terms[n].1.Const?) + [terms[n]]
    ensures Kept(terms[..n + 1], !terms[n].1.Const?) == Kept(terms[..n], !terms[n].1.Const?)
  {
    assert terms[..n + 1][..n] == terms[..n];
  }

  lemma NothingRanged(bound: VarBounds, sym: Bounds, r: Running, groups: Groups)
    ensures TermRanges([], bound, sym, r, groups) == Some((r, groups))
  {
  }

  lemma RangedNext(ts: Terms, bound: VarBounds, sym: Bounds, r: Running, groups: Groups)
    requires ts != []
    ensures var (v, c) := ts[0];
      TermRanges(ts, bound, sym, r, groups) ==
      if c.Const? then TermRanges(ts[1..], bound, sym, r, AffineRanges.Joined(groups, (v, c.c))) else
      match SymbolicRange(c, v, bound, sym)
      case None => None
      case Some(None) => TermRanges(ts[1..], bound, sym, None, groups)
      case Some(Some((x, y))) => TermRanges(ts[1..], bound, sym, PlusRange(r, x, y), groups)
  {
    hide AffineRanges.Joined, SymbolicRange, PlusRange;
  }

  lemma SumNext(front: Terms, t: (Var, SymExpr), bound: VarBounds, sym: Bounds, r: Running)
    ensures SymbolicSum(front + [t], bound, sym, r) ==
      match (SymbolicSum(front, bound, sym, r), SymbolicRange(t.1, t.0, bound, sym))
      case (Some(s), Some(Some((x, y)))) => Some(PlusRange(s, x, y))
      case (Some(_), Some(None)) => Some(None)
      case _ => None
  {
    hide SymbolicRange, PlusRange;
    assert (front + [t])[..|front|] == front;
  }

  lemma {:induction false} KeptPrefix(terms: Terms, n: nat, consts: bool)
    requires n <= |terms|
    ensures |Kept(terms[..n], consts)| <= |Kept(terms, consts)|
    ensures Kept(terms, consts)[..|Kept(terms[..n], consts)|] == Kept(terms[..n], consts)
    decreases |terms|
  {
    if n == |terms| {
      assert terms[..n] == terms;
    } else {
      var m := |terms| - 1;
      assert terms[..m][..n] == terms[..n];
      KeptPrefix(terms[..m], n, consts);
    }
  }

  lemma {:induction false} SumPrefix(terms: Terms, n: nat, bound: VarBounds, sym: Bounds, r: Running)
    requires n <= |terms| && SymbolicSum(terms, bound, sym, r).Some?
    ensures SymbolicSum(terms[..n], bound, sym, r).Some?
    decreases |terms|
  {
    hide SymbolicRange, PlusRange;
    if n == |terms| {
      assert terms[..n] == terms;
    } else {
      assert terms[..|terms| - 1][..n] == terms[..n];
      SumPrefix(terms[..|terms| - 1], n, bound, sym, r);
    }
  }

  // A symbolic term's end, by its variable's root and its own symbols alone.
  lemma SymbolicEnd(t: (Var, SymExpr), bound: VarBounds, sym: Bounds, leaf: Leaf, env: Env, most: bool)
    returns (z: int, at: Env)
    requires SeparateOne(t, bound, sym) && Allows(bound, leaf) && Admits(sym, env)
    requires SymbolicRange(t.1, t.0, bound, sym).Some? && SymbolicRange(t.1, t.0, bound, sym).value.Some?
    ensures RangeEnds.Bounded(Root(t.0), z, bound) && Moves(sym, env, Symbols(t.1), at)
    ensures Value(t.1, at) * VarValue(t.0, Put(leaf, Root(t.0), z)) ==
            EndOf(SymbolicRange(t.1, t.0, bound, sym).value.value, most)
  {
    hide Allows, Admits, VarRange, Span, Once, Spread, Value, VarValue, Put, RangeEnds.Bounded, Moves, Times;
    var (v, c) := t;
    var (lo, hi) := VarRange(v, bound).value;
    var p, q := CornerOf(Span(c, sym), Range(lo, hi), most);
    z := ValueTaken(v, bound, leaf, if q then hi else lo);
    at := EndIsValue(c, sym, env, p);
  }

  // The symbolic terms' sum at an end, by their roots and symbols alone.
  lemma {:induction false} SymbolicTaken(terms: Terms, bound: VarBounds, sym: Bounds, r: Running, leaf: Leaf, env: Env,
                                         most: bool) returns (leaf': Leaf, env': Env)
    requires Separate(terms, bound, sym) && Allows(bound, leaf) && Admits(sym, env)
    requires SymbolicSum(terms, bound, sym, r).Some? && SymbolicSum(terms, bound, sym, r).value.Some? && r.Some?
    ensures Allows(bound, leaf') && Admits(sym, env')
    ensures EndOf(SymbolicSum(terms, bound, sym, r).value.value, most) == EndOf(r.value, most) + TermsValue(terms, leaf', env')
    ensures forall s: Symbol :: (forall i :: 0 <= i < |terms| ==> s !in Symbols(terms[i].1)) ==> env'(s) == env(s)
    ensures forall x: Var :: (forall i :: 0 <= i < |terms| ==> x != Root(terms[i].0)) ==> leaf'(x) == leaf(x)
  {
    hide Allows, Admits, VarRange, Span, Once, Spread, Value, VarValue, Put, RangeEnds.Bounded, TermsValue, SymbolicRange;
    hide Symbols, Root;
    leaf', env' := leaf, env;
    if terms == [] {
      NoTerms(leaf, env);
    } else {
      var n := |terms| - 1;
      var front, t := terms[..n], terms[n];
      assert terms == front + [t];
      assert SeparateOne(t, bound, sym);
      var mid, at := SymbolicTaken(front, bound, sym, r, leaf, env, most);
      var z, to := SymbolicEnd(t, bound, sym, mid, at, most);
      leaf', env' := Put(mid, Root(t.0), z), to;
      PutAllowed(mid, Root(t.0), z, bound);
      forall i | 0 <= i < |front|
        ensures IsLeaf(Root(front[i].0)) && mid(Root(front[i].0)) == leaf'(Root(front[i].0))
        ensures AgreeOn(Symbols(front[i].1), at, env')
      {
        assert front[i] == terms[i] && SeparateOne(terms[i], bound, sym);
        SpreadRoot(front[i].0, bound);
        PutElsewhere(mid, Root(t.0), z, Root(front[i].0));
      }
      TermsAgree(front, mid, at, leaf', env');
      TermsAppend(front, [t], leaf', env');
      AffineExprs.OneTerm(t, leaf', env');
      TermProductIs(t, leaf', env');
      forall s: Symbol | forall i :: 0 <= i < |terms| ==> s !in Symbols(terms[i].1) ensures env'(s) == env(s) {
        assert s !in Symbols(terms[n].1);
        assert forall i :: 0 <= i < |front| ==> front[i] == terms[i];
      }
      forall x: Var | forall i :: 0 <= i < |terms| ==> x != Root(terms[i].0) ensures leaf'(x) == leaf(x) {
        assert x != Root(terms[n].0);
        assert forall i :: 0 <= i < |front| ==> front[i] == terms[i];
        PutElsewhere(mid, Root(t.0), z, x);
      }
    }
  }

  lemma PutElsewhere(leaf: Leaf, x: Var, z: int, y: Var)
    requires y != x
    ensures Put(leaf, x, z)(y) == leaf(y)
  {
  }

  lemma {:induction false} ValueAgrees(v: Var, leaf: Leaf, leaf': Leaf)
    requires IsLeaf(Root(v)) && leaf(Root(v)) == leaf'(Root(v))
    ensures VarValue(v, leaf) == VarValue(v, leaf')
    decreases v
  {
    match v
    case Floor(x, _) => ValueAgrees(x, leaf, leaf');
    case Rem(x, _) => ValueAgrees(x, leaf, leaf');
    case _ =>
  }

  // Terms keep their value where their roots and symbols do.
  lemma {:induction false} TermsAgree(terms: Terms, leaf: Leaf, env: Env, leaf': Leaf, env': Env)
    requires forall i :: 0 <= i < |terms| ==> IsLeaf(Root(terms[i].0)) && leaf(Root(terms[i].0)) == leaf'(Root(terms[i].0))
    requires forall i :: 0 <= i < |terms| ==> AgreeOn(Symbols(terms[i].1), env, env')
    ensures TermsValue(terms, leaf, env) == TermsValue(terms, leaf', env')
  {
    hide Value, VarValue, Symbols, Root, AgreeOn;
    if terms != [] {
      var (v, c) := terms[0];
      ValueAgrees(v, leaf, leaf');
      ValueOfSymbols(c, env, env');
      assert forall i :: 0 <= i < |terms| - 1 ==> terms[1..][i] == terms[i + 1];
      TermsAgree(terms[1..], leaf, env, leaf', env');
    }
  }

  // A form whose parts share nothing: no symbol comes twice, no root is of two variables.
  ghost predicate Shares(a: AffineExpr, bound: VarBounds, divisor: Var -> Divisor, sym: Bounds) {
    && Independent(Kept(a.terms, true), bound, divisor) && Separate(Kept(a.terms, false), bound, sym)
    && Once(a.base, sym) && AllBounded(Symbols(a.base), sym)
    && (forall s, t :: s in Kept(a.terms, true) && t in Kept(a.terms, false) ==> Root(s.0) != Root(t.0))
    && (forall t :: t in Kept(a.terms, false) ==> Symbols(t.1) !! Symbols(a.base))
  }

  lemma {:induction false} SumIsKnown(terms: Terms, bound: VarBounds, sym: Bounds, r: Running)
    requires forall i :: 0 <= i < |terms| ==> SeparateOne(terms[i], bound, sym)
    ensures SymbolicSum(terms, bound, sym, r).Some?
  {
    hide Span, Once, Spread, PlusRange, Times;
    if terms != [] {
      var n := |terms| - 1;
      SpanNeedsBounds(terms[n].1, sym);
      assert SeparateOne(terms[n], bound, sym);
      SumIsKnown(terms[..n], bound, sym, r);
    }
  }

  lemma {:induction false} NoneStays(terms: Terms, bound: VarBounds, sym: Bounds)
    requires SymbolicSum(terms, bound, sym, None).Some?
    ensures SymbolicSum(terms, bound, sym, None).value.None?
  {
    hide SymbolicRange;
    if terms != [] {
      NoneStays(terms[..|terms| - 1], bound, sym);
    }
  }

  // The form's range by the constant terms' groups and the others' sum.
  lemma RangeParts(a: AffineExpr, bound: VarBounds, divisor: Var -> Divisor, sym: Bounds) returns (groups: Groups)
    requires Shares(a, bound, divisor, sym)
    ensures !Span(a.base, sym).Unbounded? && Loose(groups, bound, divisor)
    ensures forall leaf, env :: GroupsValue(groups, leaf) == TermsValue(Kept(a.terms, true), leaf, env)
    ensures var start: Running :=
        if Span(a.base, sym).Range? then Some((Span(a.base, sym).lo, Span(a.base, sym).hi)) else None;
      var sum := SymbolicSum(Kept(a.terms, false), bound, sym, start);
      && sum.Some? && (start.None? ==> sum.value.None?)
      && TermRanges(a.terms, bound, sym, start, []) == Some((sum.value, groups))
  {
    hide Independent, Loose, Once, SymbolicSum, TermRanges, Span, GroupsValue, TermsValue, SeparateOne;
    SpanNeedsBounds(a.base, sym);
    var start: Running := if Span(a.base, sym).Range? then Some((Span(a.base, sym).lo, Span(a.base, sym).hi)) else None;
    groups := FormGroups(Kept(a.terms, true), bound, divisor, sym, start);
    SumIsKnown(Kept(a.terms, false), bound, sym, start);
    if start.None? {
      NoneStays(Kept(a.terms, false), bound, sym);
    }
    assert a.terms[..0] == [] && a.terms[0..] == a.terms;
    NothingSummed(bound, sym, start);
    assert Kept(a.terms, true)[0..] == Kept(a.terms, true);
    RangesApart(a.terms, 0, bound, sym, start, start, [], groups);
  }

  lemma NothingSummed(bound: VarBounds, sym: Bounds, r: Running)
    ensures SymbolicSum([], bound, sym, r) == Some(r)
  {
  }

  // A valuation at which the form is at an end of its range.
  lemma FormEnd(a: AffineExpr, bound: VarBounds, divisor: Var -> Divisor, sym: Bounds, leaf: Leaf, env: Env, most: bool)
    returns (leaf': Leaf, env': Env)
    requires Shares(a, bound, divisor, sym) && Allows(bound, leaf) && Admits(sym, env)
    ensures FormRange(a, bound, sym).Some? && Allows(bound, leaf') && Admits(sym, env')
    ensures FormRange(a, bound, sym).value == WHOLE ||
            FormValue(a, leaf', env') == EndOf(FormRange(a, bound, sym).value, most)
  {
    hide Independent, Loose, Allows, Admits, Once, SymbolicSum, TermRanges, GroupRanges, GroupsValue, TermsValue, Value,
      Span, Separate, Symbols, Root;
    var groups := RangeParts(a, bound, divisor, sym);
    var consts, others := Kept(a.terms, true), Kept(a.terms, false);
    var start: Running := if Span(a.base, sym).Range? then Some((Span(a.base, sym).lo, Span(a.base, sym).hi)) else None;
    var sum := SymbolicSum(others, bound, sym, start).value;
    var first := GroupsTaken(groups, bound, divisor, sum, leaf, most);
    leaf', env' := first, env;
    if GroupRanges(groups, bound, sum).value.Some? {
      var mid;
      leaf', mid := SymbolicTaken(others, bound, sym, start, first, env, most);
      env' := EndIsValue(a.base, sym, mid, most);
      OthersKeep(a, bound, divisor, sym, leaf', mid, env');
      ConstsKeep(a, bound, divisor, sym, first, leaf', mid, env');
      KeptValue(a.terms, leaf', env');
    }
  }

  // The base's symbols are not the other terms'.
  lemma OthersKeep(a: AffineExpr, bound: VarBounds, divisor: Var -> Divisor, sym: Bounds, leaf: Leaf, env: Env, env': Env)
    requires Shares(a, bound, divisor, sym) && Moves(sym, env, Symbols(a.base), env')
    ensures TermsValue(Kept(a.terms, false), leaf, env) == TermsValue(Kept(a.terms, false), leaf, env')
  {
    hide Independent, Once, TermsValue, Symbols, Root, Spread, Admits;
    var others := Kept(a.terms, false);
    forall i | 0 <= i < |others| ensures IsLeaf(Root(others[i].0)) && AgreeOn(Symbols(others[i].1), env, env') {
      assert others[i] in others && SeparateOne(others[i], bound, sym);
      SpreadRoot(others[i].0, bound);
    }
    TermsAgree(others, leaf, env, leaf, env');
  }

  // Nor are their roots the constant terms'.
  lemma ConstsKeep(a: AffineExpr, bound: VarBounds, divisor: Var -> Divisor, sym: Bounds, leaf: Leaf, leaf': Leaf,
                   env: Env, env': Env)
    requires Shares(a, bound, divisor, sym)
    requires forall x: Var :: (forall i :: 0 <= i < |Kept(a.terms, false)| ==> x != Root(Kept(a.terms, false)[i].0)) ==>
      leaf'(x) == leaf(x)
    ensures TermsValue(Kept(a.terms, true), leaf, env) == TermsValue(Kept(a.terms, true), leaf', env')
  {
    hide Once, TermsValue, Symbols, Spread, Separate, Root, Settled, OneDivisor;
    var consts, others := Kept(a.terms, true), Kept(a.terms, false);
    forall i | 0 <= i < |consts|
      ensures IsLeaf(Root(consts[i].0)) && leaf(Root(consts[i].0)) == leaf'(Root(consts[i].0))
      ensures AgreeOn(Symbols(consts[i].1), env, env')
    {
      assert consts[i] in consts && GroupSettles(consts, bound, divisor, Operand(consts[i].0));
      SpreadRoot(Operand(consts[i].0), bound);
      RootOfOperand(consts[i].0);
      assert forall j :: 0 <= j < |others| ==> others[j] in others;
      ConstSymbols(consts[i].1, env, env');
    }
    TermsAgree(consts, leaf, env, leaf', env');
  }

  lemma ConstSymbols(c: SymExpr, env: Env, env': Env)
    requires c.Const?
    ensures AgreeOn(Symbols(c), env, env')
  {
  }

  /** With symbolic coefficients too both ends are values within the bounds, unless a partial sum left i128. */
  lemma SymbolicFormRangeMet(a: AffineExpr, bound: VarBounds, divisor: Var -> Divisor, sym: Bounds, leaf: Leaf, env: Env)
    requires Shares(a, bound, divisor, sym) && Allows(bound, leaf) && Admits(sym, env)
    ensures FormRange(a, bound, sym).Some?
    ensures var r := FormRange(a, bound, sym).value;
      r == WHOLE || (Reached(a, bound, sym, r.0) && Reached(a, bound, sym, r.1))
  {
    hide Shares, Allows, Admits, FormRange, FormValue;
    var p, c := FormEnd(a, bound, divisor, sym, leaf, env, false);
    var q, d := FormEnd(a, bound, divisor, sym, leaf, env, true);
  }

  // Some valuation within the bounds gives the form this value.
  ghost predicate Reached(a: AffineExpr, bound: VarBounds, sym: Bounds, x: int) {
    exists leaf: Leaf, env: Env :: Allows(bound, leaf) && Admits(sym, env) && FormValue(a, leaf, env) == x
  }
}
