/** How far lane offsets reach: within the limit wherever the code goes on, and it goes on wherever sizes are. */
module OffsetLimits {
  import opened Wrappers
  import opened Divisions
  import opened SymExprs
  import opened SymExprValues
  import opened AffineExprs
  import opened AffineDivision
  import opened AffineRanges
  import opened Lanes
  import Participation
  import F = Footprints
  import Spans

  // A term's group.
  lemma OneGroup(v: Var, c: Int64, bound: VarBounds)
    requires VarRange(v, bound).Some?
    ensures var (lo, hi) := VarRange(v, bound).value;
      var start := Grouping(Some((0, 0)), None, 0, 0, 0);
      GroupAll([(v, c)], bound, start) == Some(Group1(start, v, c, lo, hi)) &&
      Group1(start, v, c, lo, hi).sum == TimesEnds(c, lo, hi)
  {
    hide VarRange;
    var (lo, hi) := VarRange(v, bound).value;
    SmallProduct(c, lo, hi);
    assert [(v, c)][1..] == [];
  }

  lemma OneGroupRange(v: Var, c: Int64, bound: VarBounds)
    requires VarRange(v, bound).Some?
    ensures GroupRange(Operand(v), [(v, c)], bound).Some?
    ensures var (lo, hi) := VarRange(v, bound).value;
      var (a, b) := GroupRange(Operand(v), [(v, c)], bound).value;
      TimesEnds(c, lo, hi).Some? && TimesEnds(c, lo, hi).value.0 <= a && b <= TimesEnds(c, lo, hi).value.1
  {
    hide VarRange, Joint, GroupAll, TimesEnds, Group1;
    var (lo, hi) := VarRange(v, bound).value;
    SmallProduct(c, lo, hi);
    OneGroup(v, c, bound);
  }

  // A form of one term ranges as its group.
  lemma OneTermRange(v: Var, c: Int64, bound: VarBounds, sym: Spans.Bounds)
    requires c != 0 && GroupRange(Operand(v), [(v, c)], bound).Some?
    ensures FormRange(Term(v, Const(c)), bound, sym) == GroupRange(Operand(v), [(v, c)], bound)
  {
    hide VarRange, GroupRange;
    var none: Groups := [];
    var groups: Groups := [(Operand(v), [(v, c)])];
    assert [(v, Const(c))][1..] == [] && groups[1..] == none;
    assert Joined(none, (v, c)) == groups;
    var zero: Running := Some((0, 0));
    assert TermRanges([(v, Const(c))], bound, sym, zero, none) == TermRanges([], bound, sym, zero, groups);
    var (a, b) := GroupRange(Operand(v), [(v, c)], bound).value;
    assert GroupRanges(groups, bound, zero) == GroupRanges(none, bound, Some((a, b)));
  }

  function Size(x: int): nat {
    if x < 0 then -x else x
  }

  // The greatest size of a variable within bounds.
  function Reach(v: Var, bound: VarBounds): nat
    requires VarRange(v, bound).Some?
  {
    var (lo, hi) := VarRange(v, bound).value;
    if Size(lo) < Size(hi) then Size(hi) else Size(lo)
  }

  lemma TimesEndsSmall(c: Int64, lo: Int64, hi: Int64, n: nat)
    requires Size(lo) <= n && Size(hi) <= n
    ensures TimesEnds(c, lo, hi).Some?
    ensures -(Size(c) * n) <= TimesEnds(c, lo, hi).value.0 && TimesEnds(c, lo, hi).value.1 <= Size(c) * n
  {
    SmallProduct(c, lo, hi);
    SizeProduct(c, lo, n);
    SizeProduct(c, hi, n);
  }

  lemma SizeProduct(c: int, x: int, n: nat)
    requires Size(x) <= n
    ensures -(Size(c) * n) <= c * x <= Size(c) * n
  {
    var low: int := -(n as int);
    Spans.Between(c, low, x, n);
    assert c * low == -(c * n) && (c < 0 ==> Size(c) * n == -(c * n));
  }

  /** A term of a constant coefficient has a range that holds its value, no wider than its sizes. */
  lemma TermRange(v: Var, c: Int64, bound: VarBounds, leaf: Leaf)
    requires VarRange(v, bound).Some? && Allows(bound, leaf)
    ensures FormRange(Term(v, Const(c)), bound, F.NoSymbols()).Some?
    ensures var (a, b) := FormRange(Term(v, Const(c)), bound, F.NoSymbols()).value;
      -(Size(c) * Reach(v, bound)) <= a <= c * VarValue(v, leaf) <= b <= Size(c) * Reach(v, bound)
  {
    hide VarRange, Allows, VarValue, GroupRange, TimesEnds, FormRange, Size, Reach;
    assert Size(0) == 0 by { ZeroSize(); }
    if c == 0 {
      NothingRanges(v, bound);
    } else {
      var (lo, hi) := VarRange(v, bound).value;
      ReachIs(v, bound);
      TimesEndsSmall(c, lo, hi, Reach(v, bound));
      OneGroupRange(v, c, bound);
      OneTermRange(v, c, bound, F.NoSymbols());
      GroupRangeCovers(Operand(v), [(v, c)], bound, leaf);
      OneTermValue(v, c, leaf);
      NotWhole(c, lo, hi);
    }
  }

  lemma ZeroSize()
    ensures Size(0) == 0
  {
  }

  lemma NothingRanges(v: Var, bound: VarBounds)
    ensures FormRange(Term(v, Const(0)), bound, F.NoSymbols()) == Some((0, 0))
  {
    var zero: Running := Some((0, 0));
    assert TermRanges([], bound, F.NoSymbols(), zero, []) == Some((zero, []));
    assert GroupRanges([], bound, zero) == Some(zero);
  }

  lemma ReachIs(v: Var, bound: VarBounds)
    requires VarRange(v, bound).Some?
    ensures Size(VarRange(v, bound).value.0) <= Reach(v, bound) && Size(VarRange(v, bound).value.1) <= Reach(v, bound)
  {
    hide VarRange;
  }

  lemma OneTermValue(v: Var, c: Int64, leaf: Leaf)
    ensures GroupValueOf([(v, c)], leaf) == c * VarValue(v, leaf)
  {
    hide VarValue;
    assert [(v, c)][1..] == [];
  }

  // The products of two words stay inside the line.
  lemma NotWhole(c: Int64, lo: Int64, hi: Int64)
    ensures TimesEnds(c, lo, hi).Some? && TimesEnds(c, lo, hi).value.0 > Spans.WIDE_MIN
  {
    TimesEndsSmall(c, lo, hi, 0x8000_0000_0000_0000);
    Distributes(0x8000_0000_0000_0000, Size(c), 0x8000_0000_0000_0000 - Size(c));
  }

  // -- the offsets of a block's lanes -----------------------------------------------------------

  const EXTENT_LIMIT: nat := 0x1_0000_0000

  // The lane terms have constant coefficients, and the block's extents fit in 32 bits.
  ghost predicate Known(terms: seq<(Var, SymExpr)>, shape: Shape) {
    F.LaneConstant(terms) && shape.nx < EXTENT_LIMIT && shape.ny < EXTENT_LIMIT && shape.nz < EXTENT_LIMIT
  }

  /** A lane's index ranges over the block's extent, and nothing else is bounded. */
  lemma InBlockIs(shape: Shape, v: Var)
    requires shape.nx < EXTENT_LIMIT && shape.ny < EXTENT_LIMIT && shape.nz < EXTENT_LIMIT
    ensures F.InBlock(shape)(v) ==
      match v
      case Tid(X) => Some((0, shape.nx - 1))
      case Tid(Y) => Some((0, shape.ny - 1))
      case Tid(Z) => Some((0, shape.nz - 1))
      case _ => None
  {
  }

  // So every lane's variable has a range.
  lemma {:induction false} LaneRanges(v: Var, shape: Shape)
    requires shape.nx < EXTENT_LIMIT && shape.ny < EXTENT_LIMIT && shape.nz < EXTENT_LIMIT && F.DependsOnLane(v)
    ensures VarRange(v, F.InBlock(shape)).Some?
    decreases v
  {
    hide F.InBlock;
    match v
    case Floor(x, _) => LaneRanges(x, shape);
    case Rem(x, _) => LaneRanges(x, shape);
    case Tid(_) => InBlockIs(shape, v);
    case _ =>
  }

  lemma FirstKnown(terms: seq<(Var, SymExpr)>, shape: Shape)
    requires Known(terms, shape) && terms != []
    ensures Known(terms[1..], shape)
    ensures F.DependsOnLane(terms[0].0) ==> terms[0].1.Const? && VarRange(terms[0].0, F.InBlock(shape)).Some?
  {
    hide F.DependsOnLane, VarRange, F.InBlock;
    assert forall i :: 0 <= i < |terms| - 1 ==> terms[1..][i] == terms[i + 1];
    if F.DependsOnLane(terms[0].0) {
      LaneRanges(terms[0].0, shape);
    }
  }

  // The greatest offset the sizes of the lane terms allow.
  ghost function ReachSum(terms: seq<(Var, SymExpr)>, shape: Shape): nat
    requires Known(terms, shape)
  {
    hide F.DependsOnLane, VarRange, F.InBlock, Known, Size, Reach;
    if terms == [] then 0 else
    FirstKnown(terms, shape);
    (if F.DependsOnLane(terms[0].0) then Size(terms[0].1.c) * Reach(terms[0].0, F.InBlock(shape)) else 0) +
    ReachSum(terms[1..], shape)
  }

  lemma LaneAllowed(tid: Index, shape: Shape)
    requires Inside(tid, shape) && shape.nx <= LAST_THREAD + 1
    ensures Allows(F.InBlock(shape), F.LaneLeaf(tid))
  {
  }

  // The sum of the ranges holds the offset and stays within the sizes.
  lemma {:induction false} OffsetSumHolds(terms: seq<(Var, SymExpr)>, shape: Shape, tid: Index, lo: int, hi: int, x: int,
                                          n: nat)
    requires Known(terms, shape) && Allows(F.InBlock(shape), F.LaneLeaf(tid))
    requires lo <= x <= hi && 0 <= lo + n && hi <= n
    ensures n + ReachSum(terms, shape) <= F.OFFSET_LIMIT ==> F.OffsetSum(terms, shape, lo, hi).Some?
    ensures F.OffsetSum(terms, shape, lo, hi).Some? ==>
      var (a, b) := F.OffsetSum(terms, shape, lo, hi).value;
      && a <= x + F.Offset(terms, tid) <= b
      && -(n + ReachSum(terms, shape)) <= a && b <= n + ReachSum(terms, shape)
  {
    hide F.DependsOnLane, VarRange, Allows, VarValue, FormRange, Size, Reach, F.LaneLeaf, F.InBlock;
    if terms != [] {
      assert forall i :: 0 <= i < |terms| - 1 ==> terms[1..][i] == terms[i + 1];
      var (v, c) := terms[0];
      if F.DependsOnLane(v) {
        LaneRanges(v, shape);
        TermRange(v, c.c, F.InBlock(shape), F.LaneLeaf(tid));
        var (a, b) := FormRange(Term(v, c), F.InBlock(shape), F.NoSymbols()).value;
        OffsetSumHolds(terms[1..], shape, tid, lo + a, hi + b, x + c.c * VarValue(v, F.LaneLeaf(tid)),
                       n + Size(c.c) * Reach(v, F.InBlock(shape)));
      } else {
        OffsetSumHolds(terms[1..], shape, tid, lo, hi, x, n);
      }
    }
  }

  /** Where the code goes on every lane's offset is within the limit. */
  lemma OffsetsFitHold(terms: seq<(Var, SymExpr)>, shape: Shape, tid: Index)
    requires Known(terms, shape) && Inside(tid, shape) && shape.nx <= LAST_THREAD + 1 && F.OffsetsFit(terms, shape)
    ensures -F.OFFSET_LIMIT <= F.Offset(terms, tid) <= F.OFFSET_LIMIT
  {
    hide F.OffsetSum, F.Offset, Allows;
    LaneAllowed(tid, shape);
    OffsetSumHolds(terms, shape, tid, 0, 0, 0, 0);
  }

  /** And it goes on wherever the terms' sizes sum to no more than the limit. */
  lemma SmallOffsetsFit(terms: seq<(Var, SymExpr)>, shape: Shape)
    requires Known(terms, shape) && Count(shape) > 0 && shape.nx <= LAST_THREAD + 1
    requires ReachSum(terms, shape) <= F.OFFSET_LIMIT
    ensures F.OffsetsFit(terms, shape)
  {
    hide F.OffsetSum, F.Offset, Allows;
    PositiveExtents(shape);
    var origin := Index(0, 0, 0);
    LaneAllowed(origin, shape);
    OffsetSumHolds(terms, shape, origin, 0, 0, 0, 0);
  }
}
