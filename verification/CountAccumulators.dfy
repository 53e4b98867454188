/** Symbolic sums that collect like terms. */
module CountAccumulators {
  import opened Wrappers
  import opened Divisions
  import opened SymExprs
  import opened SymExprValues

  // A count and what it multiplies by, none where that is not known.
  datatype Contribution = Contribution(count: Int64, mult: Option<SymExpr>)

  ghost predicate AllKnown(cs: seq<Contribution>) {
    forall c :: c in cs ==> c.mult.Some? && Shaped(c.mult.value)
  }

  ghost function Contributed(cs: seq<Contribution>, env: Env): int
    requires AllKnown(cs)
  {
    if cs == [] then 0 else cs[0].count * Value(cs[0].mult.value, env) + Contributed(cs[1..], env)
  }

  lemma {:induction false} OneMore(cs: seq<Contribution>, c: Contribution, env: Env)
    requires AllKnown(cs) && AllKnown([c])
    ensures AllKnown(cs + [c])
    ensures Contributed(cs + [c], env) == Contributed(cs, env) + c.count * Value(c.mult.value, env)
  {
    if cs == [] {
      assert [c][1..] == [];
      assert [] + [c] == [c];
    } else {
      assert (cs + [c])[1..] == cs[1..] + [c];
      OneMore(cs[1..], c, env);
    }
  }

  // The groups' sum as an expression, added from the left.
  function ExprOf(groups: seq<(SymExpr, Int64)>): (r: SymExpr)
    requires forall g :: g in groups ==> Shaped(g.0)
    ensures Shaped(r)
  {
    if groups == [] then Const(0) else
    var n := |groups| - 1;
    Add(ExprOf(groups[..n]), Mul(Const(groups[n].1), groups[n].0))
  }

  lemma EmptyExpr(env: Env)
    ensures Value(ExprOf([]), env) == 0
  {
    hide Value;
    ConstValue(0, env);
  }

  lemma LastGroup(groups: seq<(SymExpr, Int64)>, env: Env)
    requires groups != [] && forall g :: g in groups ==> Shaped(g.0)
    ensures var n := |groups| - 1;
      Value(ExprOf(groups), env) == Value(ExprOf(groups[..n]), env) + groups[n].1 * Value(groups[n].0, env)
  {
    hide Value, Add, Mul;
    var n := |groups| - 1;
    var last := groups[n];
    ConstValue(last.1, env);
    MulValue(Const(last.1), last.0, env);
    AddValue(ExprOf(groups[..n]), Mul(Const(last.1), last.0), env);
  }

  lemma NoGroups(env: Env)
    ensures GroupTotal([], env) == 0
  {
  }

  lemma {:induction false} ExprOfValue(groups: seq<(SymExpr, Int64)>, env: Env)
    requires forall g :: g in groups ==> Shaped(g.0)
    ensures Value(ExprOf(groups), env) == GroupTotal(groups, env)
  {
    hide Value, Add, Mul, Shaped, GroupTotal, ExprOf;
    EmptyExpr(env);
    NoGroups(env);
    if groups != [] {
      var n := |groups| - 1;
      var last := groups[n];
      ExprOfValue(groups[..n], env);
      LastGroup(groups, env);
      assert groups == groups[..n] + [last];
      GroupAppends(groups[..n], last, env);
    }
  }

  // The groups, no two of one multiplier, sum what was accepted.
  ghost predicate Sums(groups: seq<(SymExpr, Int64)>, accepted: seq<Contribution>) {
    && (forall g :: g in groups ==> Shaped(g.0))
    && (forall i, j :: 0 <= i < j < |groups| ==> groups[i].0 != groups[j].0)
    && AllKnown(accepted)
    && (forall env: Env :: GroupTotal(groups, env) == Contributed(accepted, env))
  }

  // The groups with a contribution, where it is known and fits.
  ghost function Grouped(groups: seq<(SymExpr, Int64)>, count: Int64, mult: Option<SymExpr>)
    : Option<seq<(SymExpr, Int64)>>
    requires mult.Some? ==> Shaped(mult.value)
  {
    if mult.None? then None else
    var (coeff, rest) := SplitConst(mult.value);
    if !Fits(coeff * count) then None else
    var i := Find(groups, rest);
    if i == |groups| then Some(groups + [(rest, coeff * count)])
    else if Fits(groups[i].1 + coeff * count) then Some(groups[i := (rest, groups[i].1 + coeff * count)])
    else None
  }

  class CountAccumulator {
    var groups: seq<(SymExpr, Int64)>
    var atMost: bool
    var atLeast: bool
    var touched: bool
    // Every contribution, and those the groups hold.
    ghost var all: seq<Contribution>
    ghost var accepted: seq<Contribution>

    /** The groups hold what was accepted, and the sum is at least it alone exactly where something was not. */
    ghost predicate Valid()
      reads this
    {
      && Sums(groups, accepted)
      && |accepted| <= |all|
      && (atLeast <==> |accepted| < |all|)
      && (touched <==> all != [])
    }

    constructor ()
      ensures Valid() && all == [] && accepted == [] && !atMost
    {
      groups, atMost, atLeast, touched := [], false, false, false;
      all, accepted := [], [];
    }

    /** Takes `count` times `mult`, or where that is not known or does not fit only marks the sum as at least itself. */
    method Add(count: Int64, mult: Option<SymExpr>, most: bool)
      requires Valid() && (mult.Some? ==> Shaped(mult.value))
      modifies this
      ensures Valid() && all == old(all) + [Contribution(count, mult)]
      ensures accepted == old(accepted) + (if Grouped(old(groups), count, mult).Some? then [Contribution(count, mult)] else [])
      ensures atMost == (old(atMost) || (most && Grouped(old(groups), count, mult).Some?))
    {
      hide SplitConst, GroupTotal, Value, Shaped, Sums;
      ghost var c := Contribution(count, mult);
      if mult.None? {
        AddUnknown(c);
        return;
      }
      var (coeff, rest) := SplitConst(mult.value);
      if !Fits(coeff * count) {
        AddUnknown(c);
        return;
      }
      var term: Int64 := coeff * count;
      var i := Find(groups, rest);
      if i < |groups| {
        if !Fits(groups[i].1 + term) {
          AddUnknown(c);
          return;
        }
        groups := groups[i := (rest, groups[i].1 + term)];
      } else {
        groups := groups + [(rest, term)];
      }
      StillSums(old(groups), accepted, count, mult);
      atMost := atMost || most;
      touched := true;
      all, accepted := all + [c], accepted + [c];
    }

    method AddUnknown(ghost c: Contribution)
      requires Valid()
      modifies this
      ensures Valid() && all == old(all) + [c] && accepted == old(accepted)
      ensures groups == old(groups) && atMost == old(atMost) && atLeast && touched
    {
      atLeast, touched := true, true;
      all := all + [c];
    }

    /** The sum of every contribution taken, as one expression. */
    method Expr() returns (r: SymExpr)
      requires Valid()
      ensures Shaped(r) && forall env: Env :: Value(r, env) == Contributed(accepted, env)
    {
      hide Value, Shaped, GroupTotal, ExprOf, SymExprs.Add, Mul;
      r := Const(0);
      var i := 0;
      NoExpr();
      while i < |groups|
        invariant 0 <= i <= |groups|
        invariant Shaped(r) && r == ExprOf(groups[..i])
      {
        ExprNext(groups, i);
        r := SymExprs.Add(r, Mul(Const(groups[i].1), groups[i].0));
        i := i + 1;
      }
      assert groups[..i] == groups;
      forall env: Env ensures Value(r, env) == Contributed(accepted, env) {
        ExprOfValue(groups, env);
      }
    }
  }

  lemma NoExpr()
    ensures ExprOf([]) == Const(0) && Shaped(Const(0))
  {
  }

  lemma ExprNext(groups: seq<(SymExpr, Int64)>, i: nat)
    requires i < |groups| && forall g :: g in groups ==> Shaped(g.0)
    ensures Shaped(Const(groups[i].1)) && Shaped(groups[i].0)
    ensures ExprOf(groups[..i + 1]) == Add(ExprOf(groups[..i]), Mul(Const(groups[i].1), groups[i].0))
  {
    assert groups[..i + 1][..i] == groups[..i];
  }

  // Taking a contribution keeps the groups the sum of what was accepted.
  lemma StillSums(groups: seq<(SymExpr, Int64)>, accepted: seq<Contribution>, count: Int64, mult: Option<SymExpr>)
    requires Sums(groups, accepted) && (mult.Some? ==> Shaped(mult.value)) && Grouped(groups, count, mult).Some?
    ensures Sums(Grouped(groups, count, mult).value, accepted + [Contribution(count, mult)])
  {
    hide SplitConst, GroupTotal, Value, Shaped, Contributed;
    var after, c := Grouped(groups, count, mult).value, Contribution(count, mult);
    forall env: Env ensures GroupTotal(after, env) == Contributed(accepted + [c], env) {
      TakesTerm(groups, count, mult.value, env);
      OneMore(accepted, c, env);
    }
  }

  // A term taken into its group, or as a new one, adds the contribution's value.
  lemma TakesTerm(groups: seq<(SymExpr, Int64)>, count: Int64, mult: SymExpr, env: Env)
    requires Shaped(mult) && Grouped(groups, count, Some(mult)).Some?
    ensures GroupTotal(Grouped(groups, count, Some(mult)).value, env) == GroupTotal(groups, env) + count * Value(mult, env)
  {
    hide Value, SplitConst, GroupTotal;
    var (coeff, rest) := SplitConst(mult);
    var i := Find(groups, rest);
    SplitValue(mult, env);
    assert (coeff * count) * Value(rest, env) == count * Value(mult, env) by {
      Associates(count, coeff, Value(rest, env));
    }
    if i == |groups| {
      GroupAppends(groups, (rest, coeff * count), env);
    } else {
      GroupGrows(groups, i, groups[i].1 + coeff * count, coeff * count, env);
    }
  }
}
