/** What a launch's sums read: which axes of the grid, and which CTAs have a weight. */
module LaunchLimits {
  import opened Wrappers
  import opened Divisions
  import opened SymExprs
  import opened SymExprValues
  import opened SymExprSymbols
  import opened SymQuotients
  import opened AffineExprs
  import opened RangeEnds
  import opened Lanes
  import opened GridSums
  import opened Participation
  import opened LaunchSums
  import CtaSums

  // -- axes ---------------------------------------------------------------------------

  // Whether an axis is among them.
  predicate Among(axis: Axis, axes: Axes) {
    match axis
    case X => axes.x
    case Y => axes.y
    case Z => axes.z
  }

  lemma {:induction false} AxesOfRoot(v: Var, axis: Axis)
    ensures Among(axis, AxesOf(v)) <==> Root(v) == Ctaid(axis)
    decreases v
  {
    match v
    case Floor(x, _) => AxesOfRoot(x, axis);
    case Rem(x, _) => AxesOfRoot(x, axis);
    case _ =>
  }

  // A term of the CTA's index on the axis.
  predicate ReadsAxis(terms: seq<(Var, SymExpr)>, axis: Axis) {
    exists i :: 0 <= i < |terms| && Root(terms[i].0) == Ctaid(axis)
  }

  lemma {:induction false} TermAxesAre(terms: seq<(Var, SymExpr)>, used: Axes, axis: Axis)
    ensures Among(axis, TermAxes(terms, used)) <==> Among(axis, used) || ReadsAxis(terms, axis)
  {
    hide AxesOf, Root;
    if terms != [] {
      AxesOfRoot(terms[0].0, axis);
      TermAxesAre(terms[1..], JoinAxes(used, AxesOf(terms[0].0)), axis);
      assert forall i :: 0 <= i < |terms| - 1 ==> terms[1..][i] == terms[i + 1];
      if ReadsAxis(terms, axis) && Root(terms[0].0) != Ctaid(axis) {
        var i :| 0 <= i < |terms| && Root(terms[i].0) == Ctaid(axis);
        assert terms[1..][i - 1] == terms[i];
      }
    }
  }

  lemma {:induction false} UsedAxesAre(over: seq<Constraint>, used: Axes, axis: Axis)
    ensures Among(axis, UsedAxes(over, used)) <==>
      Among(axis, used) || exists i :: 0 <= i < |over| && ReadsAxis(over[i].form.terms, axis)
  {
    hide ReadsAxis, TermAxes, Among;
    if over != [] {
      TermAxesAre(over[0].form.terms, used, axis);
      UsedAxesAre(over[1..], TermAxes(over[0].form.terms, used), axis);
      assert forall i :: 0 <= i < |over| - 1 ==> over[1..][i] == over[i + 1];
      if i :| 0 <= i < |over| && ReadsAxis(over[i].form.terms, axis) && i > 0 {
        assert over[1..][i - 1] == over[i];
      }
    }
  }

  /** The axes gone through are those the weight reads and those a comparison over CTAs does, no other. */
  lemma UsedWhere(p: Pred, read: Axes, axis: Axis)
    ensures Among(axis, Used(p, read)) <==>
      Among(axis, read) || exists k :: k in Constraints(p) && k.cta.Some? && ReadsAxis(k.form.terms, axis)
  {
    hide ReadsAxis, UsedAxes, Among, Constraints;
    var over := OverCtas(Constraints(p));
    UsedAxesAre(over, read, axis);
    if k :| k in Constraints(p) && k.cta.Some? && ReadsAxis(k.form.terms, axis) {
      assert k in over;
    }
    if i :| 0 <= i < |over| && ReadsAxis(over[i].form.terms, axis) {
      assert over[i] in over;
    }
  }

  // -- weights ----------------------------------------------------------------------------

  // The symbol of the CTA's index on an axis.
  function SymbolOn(regs: CtaSums.Registers, axis: Axis): Symbol {
    match axis
    case X => regs.x
    case Y => regs.y
    case Z => regs.z
  }

  /** The axes a product of counts reads are those whose symbol one of the counts does. */
  lemma AxesReadWhere(loops: seq<CtaSums.Trips>, regs: CtaSums.Registers, axis: Axis)
    ensures Among(axis, CtaSums.AxesRead(loops, regs)) <==>
      exists i :: 0 <= i < |loops| && SymbolOn(regs, axis) in Symbols(loops[i].count)
  {
    hide Symbols;
  }

  ghost predicate PositiveMultiple(x: int, step: int) {
    step != 0 && exists q: int :: q >= 1 && x == step * q
  }

  // A count that comes to a constant, not negative, its distance one too and a positive multiple of its step.
  ghost predicate Known(t: CtaSums.Trips, regs: CtaSums.Registers, c: Lanes.Index)
    requires Shaped(t.count) && (t.distance.Some? ==> Shaped(t.distance.value.0))
    requires Fits(c.x) && Fits(c.y) && Fits(c.z)
  {
    var count := Bind(t.count, CtaSums.CtaAt(regs, c));
    && count.Const? && count.c >= 0
    && (t.distance.Some? ==>
          var (x, step) := (Bind(t.distance.value.0, CtaSums.CtaAt(regs, c)), t.distance.value.1);
          x.Const? && !(x.c == MIN && step == -1) && PositiveMultiple(x.c, step))
  }

  // What the counts multiply to, those before the `n`th.
  ghost function CountProduct(loops: seq<CtaSums.Trips>, regs: CtaSums.Registers, c: Lanes.Index): int
    requires CtaSums.Formed(loops) && Fits(c.x) && Fits(c.y) && Fits(c.z)
  {
    if loops == [] then 1 else
    var n := |loops| - 1;
    var count := Bind(loops[n].count, CtaSums.CtaAt(regs, c));
    CountProduct(loops[..n], regs, c) * if count.Const? then count.c else 0
  }

  lemma DividesUpWhere(x: Int64, step: Int64)
    ensures CtaSums.DividesUp(x, step) <==>
      !(x == MIN && step == -1) && PositiveMultiple(x, step)
  {
    if CtaSums.DividesUp(x, step) {
      CtaSums.Positive(x, step);
    }
    if PositiveMultiple(x, step) {
      var q: int :| q >= 1 && x == step * q;
      if step > 0 {
        QuotientIs(x, step, q, 0);
        Distributes(step, 1, q - 1);
        assert step * (q - 1) >= 0;
      } else {
        var p: int := -(step as int);
        assert x == p * -q by {
          assert step * q == p * -q;
        }
        QuotientIs(x, p, -q, 0);
        NegativeDivisor(x, step, -q);
        Distributes(step, 1, q - 1);
        assert step * (q - 1) <= 0;
      }
    }
  }

  // A remainder by a negative divisor is that by its size.
  lemma NegativeDivisor(x: int, d: int, q: int)
    requires d < 0 && x == -d * q
    ensures x % d == 0
  {
    var r := x % d;
    assert x == d * (x / d) + r && 0 <= r < -d;
    var k := q + x / d;
    assert -d * k == -d * q + -d * (x / d);
    assert -d * (x / d) == -(d * (x / d));
    assert r == -d * k;
    QuotientIs(r, -d, k, 0);
    QuotientIs(r, -d, 0, r);
  }

  /** A CTA has a weight just where every count is known and no product of the first ones passes 64 bits. */
  lemma {:induction false} WeightWhere(loops: seq<CtaSums.Trips>, regs: CtaSums.Registers, c: Lanes.Index)
    requires CtaSums.Formed(loops) && Fits(c.x) && Fits(c.y) && Fits(c.z)
    ensures CtaSums.WeightAt(loops, regs, c).Some? <==>
      && (forall i :: 0 <= i < |loops| ==> Known(loops[i], regs, c))
      && (forall n :: 0 <= n <= |loops| ==> CountProduct(loops[..n], regs, c) < CtaSums.U64)
    ensures CtaSums.WeightAt(loops, regs, c).Some? ==> CtaSums.WeightAt(loops, regs, c).value == CountProduct(loops, regs, c)
  {
    hide Bind, Shaped, CtaSums.CtaAt, Known;
    if loops == [] {
      assert loops[..0] == [];
    } else {
      var front, last := loops[..|loops| - 1], loops[|loops| - 1];
      WeightWhere(front, regs, c);
      KnownIs(last, regs, c);
      assert loops[..|loops|] == loops;
      assert forall n :: 0 <= n < |loops| ==> front[..n] == loops[..n];
      forall n | 0 <= n <= |loops| ensures CountProduct(loops[..n], regs, c) ==
        if n < |loops| then CountProduct(front[..n], regs, c) else CountProduct(loops, regs, c)
      {
      }
    }
  }

  lemma KnownIs(t: CtaSums.Trips, regs: CtaSums.Registers, c: Lanes.Index)
    requires Shaped(t.count) && (t.distance.Some? ==> Shaped(t.distance.value.0))
    requires Fits(c.x) && Fits(c.y) && Fits(c.z)
    ensures var n := CtaSums.AsConst(Bind(t.count, CtaSums.CtaAt(regs, c)));
      Known(t, regs, c) <==>
      n.Some? && n.value >= 0 && (t.distance.Some? ==> CtaSums.Divides(t.distance.value, regs, c))
  {
    hide Bind, Shaped, CtaSums.CtaAt, CtaSums.DividesUp;
    if t.distance.Some? {
      var x := Bind(t.distance.value.0, CtaSums.CtaAt(regs, c));
      if x.Const? {
        DividesUpWhere(x.c, t.distance.value.1);
      }
    }
  }
}
