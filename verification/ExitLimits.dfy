/** Loop-exit inequalities solved for the number of trips. */
module ExitLimits {
  import opened Wrappers
  import opened Divisions
  import opened SymExprs
  import opened SymExprValues
  import opened SymQuotients

  datatype Cmp = Lt | Le | Gt | Ge | Eq | Ne

  predicate Holds(cmp: Cmp, x: int) {
    match cmp
    case Lt => x < 0
    case Le => x <= 0
    case Gt => x > 0
    case Ge => x >= 0
    case Eq => x == 0
    case Ne => x != 0
  }

  function Negative(e: SymExpr): (r: SymExpr)
    requires Shaped(e)
    ensures Shaped(r)
  {
    Mul(Const(-1), e)
  }

  function Minus(a: SymExpr, b: SymExpr): (r: SymExpr)
    requires Shaped(a) && Shaped(b)
    ensures Shaped(r)
  {
    Add(a, Mul(Const(-1), b))
  }

  lemma NegativeValue(e: SymExpr, env: Env)
    requires Shaped(e)
    ensures Value(Negative(e), env) == -Value(e, env)
  {
    hide Value;
    MulValue(Const(-1), e, env);
    ConstValue(-1, env);
  }

  lemma MinusValue(a: SymExpr, b: SymExpr, env: Env)
    requires Shaped(a) && Shaped(b)
    ensures Value(Minus(a, b), env) == Value(a, env) - Value(b, env)
  {
    hide Value, Add;
    MulValue(Const(-1), b, env);
    ConstValue(-1, env);
    AddValue(a, Mul(Const(-1), b), env);
  }

  // Ordered comparisons as a test below zero

  /** Turns an ordered `e cmp 0` into a test that some expression is negative. */
  function BelowZero(cmp: Cmp, e: SymExpr): (r: Option<SymExpr>)
    requires Shaped(e)
    ensures r.Some? ==> Shaped(r.value)
  {
    match cmp
    case Lt => Some(Undivided(e))
    case Le => Some(Undivided(Minus(e, Const(1))))
    case Gt => Some(Undivided(Negative(e)))
    case Ge => Some(Undivided(Minus(Negative(e), Const(1))))
    case Eq => None
    case Ne => None
  }

  function Constants(ts: seq<SymExpr>): int {
    if ts == [] then 0 else (if ts[0].Const? then ts[0].c else 0) + Constants(ts[1..])
  }

  function Others(ts: seq<SymExpr>): seq<SymExpr> {
    if ts == [] then [] else (if ts[0].Const? then [] else [ts[0]]) + Others(ts[1..])
  }

  lemma {:induction false} OthersIn(ts: seq<SymExpr>)
    ensures forall t :: t in Others(ts) ==> t in ts
  {
    if ts != [] {
      OthersIn(ts[1..]);
    }
  }

  // A quotient's operand and the constant that make the same test below zero.
  function Undividing(t: SymExpr, b: int): (r: Option<(SymExpr, int)>)
    requires Shaped(t)
    ensures r.Some? ==> Shaped(r.value.0)
  {
    match SplitConst(t)
    case (1, FloorDiv(x, d)) => Some((x, b * d))
    case (-1, FloorDiv(x, d)) => Some((Negative(x), (b + 1) * d - 1))
    case (1, CeilDiv(x, d)) => Some((x, (b + 1) * d - 1))
    case (-1, CeilDiv(x, d)) => Some((Negative(x), b * d))
    case _ => None
  }

  /** One quotient and constants below zero as the same test of what is divided. */
  function Undivided(e: SymExpr): (r: SymExpr)
    requires Shaped(e)
    ensures Shaped(r)
  {
    if |Others(Parts(e))| != 1 then e else
    OthersShaped(e);
    match Undividing(Others(Parts(e))[0], Constants(Parts(e)))
    case Some((x, k)) => if Fits(k) then Add(x, Const(k)) else e
    case None => e
  }

  lemma OthersShaped(e: SymExpr)
    requires Shaped(e)
    ensures AllShaped(Others(Parts(e)))
  {
    OthersIn(Parts(e));
    PartsDepth(e);
    PartsWithin(e, DepthAll(Parts(e)));
  }

  lemma {:induction false} ApartValue(ts: seq<SymExpr>, env: Env)
    ensures Total(ts, env) == Constants(ts) + Total(Others(ts), env)
  {
    if ts != [] {
      ApartValue(ts[1..], env);
      if !ts[0].Const? {
        TotalAppend([ts[0]], Others(ts[1..]), env);
        TotalOne(ts[0], env);
      } else {
        assert [] + Others(ts[1..]) == Others(ts[1..]);
      }
    }
  }

  lemma UndividingValue(t: SymExpr, b: int, env: Env)
    requires Shaped(t) && Undividing(t, b).Some?
    ensures var (x, k) := Undividing(t, b).value; Value(t, env) + b < 0 <==> Value(x, env) + k < 0
  {
    hide Total, Product, Mul, SplitConst, Value;
    SplitValue(t, env);
    match SplitConst(t)
    case (1, FloorDiv(x, d)) => FloorBelow(x, d, b, env);
    case (-1, FloorDiv(x, d)) => FloorBelow(x, d, b, env);
    case (1, CeilDiv(x, d)) => CeilBelow(x, d, b, env);
    case (-1, CeilDiv(x, d)) => CeilBelow(x, d, b, env);
  }

  lemma FloorBelow(x: SymExpr, d: Divisor, b: int, env: Env)
    requires Shaped(x)
    ensures 1 * Value(FloorDiv(x, d), env) + b < 0 <==> Value(x, env) + b * d < 0
    ensures -1 * Value(FloorDiv(x, d), env) + b < 0 <==> Value(Negative(x), env) + ((b + 1) * d - 1) < 0
  {
    hide Negative;
    var v := Value(x, env);
    var q := v / d;
    assert Value(FloorDiv(x, d), env) == q;
    NegativeValue(x, env);
    assert q <= -b - 1 <==> v < -(b * d) by {
      FloorAtMost(v, d, -b - 1);
      assert (-b - 1 + 1) * d == -(b * d);
    }
    FloorAtMost(v, d, b);
  }

  lemma CeilBelow(x: SymExpr, d: Divisor, b: int, env: Env)
    requires Shaped(x)
    ensures 1 * Value(CeilDiv(x, d), env) + b < 0 <==> Value(x, env) + ((b + 1) * d - 1) < 0
    ensures -1 * Value(CeilDiv(x, d), env) + b < 0 <==> Value(Negative(x), env) + b * d < 0
  {
    hide Negative;
    var v := Value(x, env);
    var q := -(-v / d);
    assert Value(CeilDiv(x, d), env) == q;
    NegativeValue(x, env);
    assert q <= -b - 1 <==> v <= -((b + 1) * d) by {
      CeilAtMost(v, d, -b - 1);
      assert (-b - 1) * d == -((b + 1) * d);
    }
    CeilAtMost(v, d, b);
  }

  lemma UndividedValue(e: SymExpr, env: Env)
    requires Shaped(e)
    ensures Value(Undivided(e), env) < 0 <==> Value(e, env) < 0
  {
    hide Total, Add, Value, Constants, Others;
    if |Others(Parts(e))| == 1 {
      OthersShaped(e);
      var rest := Others(Parts(e))[0];
      assert Others(Parts(e)) == [rest];
      ApartValue(Parts(e), env);
      PartsValue(e, env);
      TotalOne(rest, env);
      var b := Constants(Parts(e));
      if Undividing(rest, b).Some? {
        UndividingValue(rest, b, env);
        var (x, k) := Undividing(rest, b).value;
        if Fits(k) {
          AddValue(x, Const(k), env);
          ConstValue(k, env);
        }
      }
    }
  }

  /** The test below zero holds exactly where the comparison does. */
  lemma BelowZeroTests(cmp: Cmp, e: SymExpr, env: Env)
    requires Shaped(e)
    ensures BelowZero(cmp, e).None? <==> cmp == Eq || cmp == Ne
    ensures BelowZero(cmp, e).Some? ==> (Value(BelowZero(cmp, e).value, env) < 0 <==> Holds(cmp, Value(e, env)))
  {
    hide Value, Undivided;
    ConstValue(1, env);
    match cmp
    case Lt => UndividedValue(e, env);
    case Le =>
      MinusValue(e, Const(1), env);
      UndividedValue(Minus(e, Const(1)), env);
    case Gt =>
      NegativeValue(e, env);
      UndividedValue(Negative(e), env);
    case Ge =>
      NegativeValue(e, env);
      MinusValue(Negative(e), Const(1), env);
      UndividedValue(Minus(Negative(e), Const(1)), env);
    case _ =>
  }

  // Trip counts

  datatype Refusal = NoCounter | MovesAway | NeverMeets | Unrecognized
  datatype Limit = Solved(trips: SymExpr) | Refused(why: Refusal)

  // The solver takes no step's magnitude that a word cannot hold.
  predicate Solvable(cmp: Cmp, a1: Int64, a0: SymExpr) {
    a1 == MIN ==> cmp == Lt || cmp == Le || cmp == Eq || (cmp == Ne && a0.Const? && a0.c <= 0)
  }

  /** Solves a latch's test `a1·k + a0` for the first trip it fails at, where there is one to give. */
  function ExitLimit(cmp: Cmp, a1: Int64, a0: SymExpr): (r: Limit)
    requires Shaped(a0) && Solvable(cmp, a1, a0)
    ensures r.Solved? ==> Shaped(r.trips)
    decreases match cmp case Gt => 1 case Ge => 1 case _ => 0
  {
    match cmp
    case Ne =>
      if a1 == 0 then Refused(NoCounter) else
      var distance := if a1 > 0 then Negative(a0) else a0;
      var step := Magnitude(a1);
      if distance.Const? && (distance.c <= 0 || distance.c % step != 0) then Refused(NeverMeets)
      else Solved(FloorQuotient(distance, step))
    case Lt =>
      if a1 > 0 then Solved(CeilQuotient(Negative(a0), a1))
      else if a1 == 0 then Refused(NoCounter) else Refused(MovesAway)
    case Le =>
      if a1 > 0 then Solved(Add(FloorQuotient(Negative(a0), a1), Const(1)))
      else if a1 == 0 then Refused(NoCounter) else Refused(MovesAway)
    case Gt => ExitLimit(Lt, -a1, Negative(a0))
    case Ge => ExitLimit(Le, -a1, Negative(a0))
    case Eq => Refused(Unrecognized)
  }

  // The latch goes on after trip `k`.
  predicate GoesOn(cmp: Cmp, a1: int, a0: int, k: int) {
    Holds(cmp, a1 * k + a0)
  }

  /** The loop, its test after each trip, runs `n` trips. */
  ghost predicate RunsTrips(cmp: Cmp, a1: int, a0: int, n: int) {
    n >= 1 && !GoesOn(cmp, a1, a0, n) && forall k :: 1 <= k < n ==> GoesOn(cmp, a1, a0, k)
  }

  function AtLeast(t: int, least: int): int {
    if t < least then least else t
  }

  lemma MirrorsTest(cmp: Cmp, a1: int, a0: int, k: int)
    ensures GoesOn(Gt, a1, a0, k) == GoesOn(Lt, -a1, -a0, k)
    ensures GoesOn(Ge, a1, a0, k) == GoesOn(Le, -a1, -a0, k)
  {
    assert -a1 * k == -(a1 * k);
  }

  // Below the count an ordered test holds, and from it on it fails.
  lemma {:induction false} OrderedLimit(cmp: Cmp, a1: Int64, a0: SymExpr, env: Env, k: int)
    requires Shaped(a0) && Solvable(cmp, a1, a0) && cmp != Ne && ExitLimit(cmp, a1, a0).Solved?
    ensures GoesOn(cmp, a1, Value(a0, env), k) <==> k < Value(ExitLimit(cmp, a1, a0).trips, env)
    decreases match cmp case Gt => 1 case Ge => 1 case _ => 0
  {
    hide Value, Add, Mul, FloorQuotient, CeilQuotient;
    var v := Value(a0, env);
    NegativeValue(a0, env);
    match cmp
    case Lt =>
      CeilQuotientValue(Negative(a0), a1, env);
      CeilAtMost(-v, a1, k);
    case Le =>
      FloorQuotientValue(Negative(a0), a1, env);
      AddValue(FloorQuotient(Negative(a0), a1), Const(1), env);
      ConstValue(1, env);
      FloorAtMost(-v, a1, k - 1);
    case Gt =>
      OrderedLimit(Lt, -a1, Negative(a0), env, k);
      MirrorsTest(Lt, a1, v, k);
    case Ge =>
      OrderedLimit(Le, -a1, Negative(a0), env, k);
      MirrorsTest(Le, a1, v, k);
  }

  /**
   * Once an ordered latch gives T: the loop makes max(T, 1) trips, and max(T, 0) if it is entered only where its own
   * test holds at k = 0.
   */
  lemma OrderedTripsExact(cmp: Cmp, a1: Int64, a0: SymExpr, env: Env)
    requires Shaped(a0) && Solvable(cmp, a1, a0) && cmp != Ne && ExitLimit(cmp, a1, a0).Solved?
    ensures var t := Value(ExitLimit(cmp, a1, a0).trips, env);
      && RunsTrips(cmp, a1, Value(a0, env), AtLeast(t, 1))
      && (if GoesOn(cmp, a1, Value(a0, env), 0) then t >= 1 else AtLeast(t, 0) == 0)
  {
    hide Value, ExitLimit, GoesOn;
    var t := Value(ExitLimit(cmp, a1, a0).trips, env);
    OrderedLimit(cmp, a1, a0, env, 0);
    OrderedLimit(cmp, a1, a0, env, AtLeast(t, 1));
    forall k | 1 <= k < AtLeast(t, 1) ensures GoesOn(cmp, a1, Value(a0, env), k) {
      OrderedLimit(cmp, a1, a0, env, k);
    }
  }

  lemma RefusedMeans(cmp: Cmp, a1: Int64, a0: SymExpr)
    requires Shaped(a0) && cmp != Ne && cmp != Eq && Solvable(cmp, a1, a0) && ExitLimit(cmp, a1, a0).Refused?
    ensures cmp == Lt || cmp == Le ==> a1 <= 0
    ensures cmp == Gt || cmp == Ge ==> a1 >= 0
  {
    hide Negative, FloorQuotient, CeilQuotient, Add;
  }

  /** An ordered latch is refused only where it stops after the first trip or never does. */
  lemma RefusedGoesOnForever(cmp: Cmp, a1: Int64, a0: SymExpr, env: Env, k: int)
    requires Shaped(a0) && cmp != Ne && cmp != Eq && Solvable(cmp, a1, a0) && ExitLimit(cmp, a1, a0).Refused?
    requires GoesOn(cmp, a1, Value(a0, env), 1) && k >= 1
    ensures GoesOn(cmp, a1, Value(a0, env), k)
  {
    hide ExitLimit, Value;
    RefusedMeans(cmp, a1, a0);
    assert a1 * k == a1 + a1 * (k - 1);
    assert a1 <= 0 ==> a1 * (k - 1) <= 0;
    assert a1 >= 0 ==> a1 * (k - 1) >= 0;
  }

  /**
   * The count a `!=` latch gives is the trips made if and only if the distance is a positive number of steps. That is
   * so of every constant distance solved, if its negation fits.
   */
  lemma UnequalTripsExact(a1: Int64, a0: SymExpr, env: Env)
    requires Shaped(a0) && Solvable(Ne, a1, a0) && ExitLimit(Ne, a1, a0).Solved?
    ensures var (v, t) := (Value(a0, env), Value(ExitLimit(Ne, a1, a0).trips, env));
      RunsTrips(Ne, a1, v, t) <==> v % Magnitude(a1) == 0 && t >= 1
    ensures a0.Const? && a0.c != MIN ==> RunsTrips(Ne, a1, Value(a0, env), Value(ExitLimit(Ne, a1, a0).trips, env))
  {
    hide Value, FloorQuotient, Negative, RunsTrips;
    var v, step := Value(a0, env), Magnitude(a1);
    NegativeValue(a0, env);
    var distance := if a1 > 0 then Negative(a0) else a0;
    FloorQuotientValue(distance, step, env);
    var n := Value(distance, env);
    UnequalTrips(a1, v, n);
    if a0.Const? && a0.c != MIN {
      NegativeConst(a0.c);
      ConstValue(distance.c, env);
      SameMultiples(v, step);
      FloorAtMost(n, step, 0);
    }
  }

  lemma UnequalTrips(a1: int, v: int, n: int)
    requires a1 != 0 && n == if a1 > 0 then -v else v
    ensures RunsTrips(Ne, a1, v, n / Magnitude(a1)) <==> v % Magnitude(a1) == 0 && n / Magnitude(a1) >= 1
  {
    var step := Magnitude(a1);
    var t := n / step;
    assert n == step * t + n % step;
    SameMultiples(v, step);
    forall k: int ensures GoesOn(Ne, a1, v, k) <==> step * k != n {
      assert -step * k == -(step * k);
    }
    forall k: int | k < t ensures step * k < step * t {
      Distributes(step, k, t - k);
      Grows(step, t - k);
    }
  }

  lemma NegativeConst(c: Int64)
    requires c != MIN
    ensures Negative(Const(c)) == Const(-c)
  {
    var none: seq<SymExpr> := [];
    assert Factors(Const(-1)) + Factors(Const(c)) == [Const(-1), Const(c)];
    assert Flatten([Const(-1), Const(c)], 1, none, none) == Flatten([Const(c)], -1, none, none);
    assert Flatten([Const(c)], -1, none, none) == Flatten(none, -c, none, none);
    assert Sorted(none) + none == none;
    assert [Const(-c)] + none == [Const(-c)];
  }

  function Magnitude(x: int): int {
    if x < 0 then -x else x
  }

  lemma SameMultiples(v: int, step: int)
    requires step > 0
    ensures v % step == 0 <==> -v % step == 0
  {
    assert v == step * (v / step) + v % step;
    assert -v == step * (-v / step) + -v % step;
    if v % step == 0 {
      assert step * -(v / step) == -(step * (v / step));
      QuotientIs(-v, step, -(v / step), 0);
    }
    if -v % step == 0 {
      assert step * -(-v / step) == -(step * (-v / step));
      QuotientIs(v, step, -(-v / step), 0);
    }
  }

  // How far the latch has to go, counted along its step.
  function DistanceOf(a1: int, c: int): int {
    if a1 > 0 then -c else c
  }

  // A trip stops the constant latch exactly where it covers the whole distance.
  lemma StopsAt(a1: int, c: int, k: int)
    ensures !GoesOn(Ne, a1, c, k) <==> Magnitude(a1) * k == DistanceOf(a1, c)
  {
    assert -a1 * k == -(a1 * k);
  }

  ghost predicate NeverStops(a1: int, c: int) {
    forall k :: k >= 1 ==> GoesOn(Ne, a1, c, k)
  }

  lemma CoversIs(step: int, n: int, k: int)
    requires step > 0 && k >= 1
    ensures step * k == n ==> n > 0 && n % step == 0
  {
    if step * k == n {
      QuotientIs(n, step, k, 0);
      Grows(step, k);
    }
  }

  lemma Covers(step: int, n: int)
    requires step > 0 && n > 0 && n % step == 0
    ensures n / step >= 1 && step * (n / step) == n
  {
    FloorAtMost(n, step, 0);
  }

  // Never stopping, read off the distance.
  lemma NeverStopsIs(a1: int, c: int)
    requires a1 != 0
    ensures NeverStops(a1, c) <==> DistanceOf(a1, c) <= 0 || DistanceOf(a1, c) % Magnitude(a1) != 0
  {
    var step, n := Magnitude(a1), DistanceOf(a1, c);
    assert step > 0;
    hide GoesOn, DistanceOf, Magnitude;
    if n > 0 && n % step == 0 {
      Covers(step, n);
      StopsAt(a1, c, n / step);
    }
    forall k | k >= 1 ensures GoesOn(Ne, a1, c, k) || (n > 0 && n % step == 0) {
      StopsAt(a1, c, k);
      CoversIs(step, n, k);
    }
  }

  /**
   * A constant `!=` latch is refused exactly where no trip stops it, but for one distance: the least word, whose
   * negation is no constant.
   */
  lemma RefusedNeverMeets(a1: Int64, c: Int64)
    requires Solvable(Ne, a1, Const(c)) && a1 != 0
    ensures ExitLimit(Ne, a1, Const(c)).Refused? <==> NeverStops(a1, c) && !(a1 > 0 && c == MIN)
  {
    hide NeverStops, Negative;
    NeverStopsIs(a1, c);
    if a1 > 0 && c == MIN {
      NegativeOfLeast();
    } else if a1 > 0 {
      NegativeConst(c);
    }
  }

  lemma NegativeOfLeast()
    ensures !Negative(Const(MIN)).Const?
  {
    var none: seq<SymExpr> := [];
    assert Factors(Const(-1)) + Factors(Const(MIN)) == [Const(-1), Const(MIN)];
    assert Flatten([Const(-1), Const(MIN)], 1, none, none) == Flatten([Const(MIN)], -1, none, none);
  }

  /** The latch that steps by three toward the far side of the least word is solved, though no trip stops it. */
  lemma LeastDistanceIsSolved()
    ensures ExitLimit(Ne, 3, Const(MIN)).Solved? && NeverStops(3, MIN)
  {
    hide NeverStops, ExitLimit;
    NeverStopsIs(3, MIN);
    RefusedNeverMeets(3, MIN);
  }
}
