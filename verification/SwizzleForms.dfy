/** Forms read as xors of the bits of the thread index. */
module SwizzleForms {
  import opened Wrappers
  import opened Divisions
  import opened SymExprs
  import opened SymExprValues
  import opened AffineExprs
  import S = Swizzles

  const THREADS := 1024

  ghost predicate InBlock(leaf: Leaf) {
    0 <= leaf(Tid(X)) < THREADS
  }

  // The words of the swizzles in a variable lie below 2^62.
  ghost predicate Narrow(v: Var)
    decreases v
  {
    match v
    case Floor(x, _) => Narrow(x)
    case Rem(x, _) => Narrow(x)
    case Swizzle(s) => Below62(S.MaySet(s))
    case _ => true
  }

  predicate Below62(b: S.Bits) {
    forall i :: i in b ==> i < S.ROOM
  }

  // -- shifts and masks of words ------------------------------------------------------

  function Shift(b: S.Bits, k: nat): S.Bits {
    set i | i in b && i >= k :: i - k
  }

  function Mask(b: S.Bits, k: nat): S.Bits {
    set i | i in b && i < k
  }

  lemma ShiftHolds(b: S.Bits, k: nat, i: nat)
    ensures i in Shift(b, k) <==> i + k in b
  {
    if i + k in b {
      assert i + k - k in Shift(b, k);
    }
  }

  lemma {:induction false} NumberSplit(b: S.Bits, k: nat, n: nat)
    ensures S.NumberBelow(b, k + n) == S.NumberBelow(b, k) + S.Power(k) * S.NumberBelow(Shift(b, k), n)
  {
    hide Shift;
    if n > 0 {
      NumberSplit(b, k, n - 1);
      ShiftHolds(b, k, n - 1);
      S.PowerSum(k, n - 1);
      Distributes(S.Power(k), S.NumberBelow(Shift(b, k), n - 1), if n - 1 in Shift(b, k) then S.Power(n - 1) else 0);
    }
  }

  /** A shift divides, a mask takes the remainder. */
  lemma ShiftNumber(b: S.Bits, k: nat)
    ensures S.Number(Shift(b, k)) == S.Number(b) / S.Power(k)
    ensures S.Number(Mask(b, k)) == S.Number(b) % S.Power(k)
  {
    hide S.Power, S.NumberBelow, Shift;
    NumberSplit(b, k, 64);
    S.NoneAbove(b, 64, k + 64);
    S.NumberRange(b, k);
    QuotientIs(S.Number(b), S.Power(k), S.Number(Shift(b, k)), S.NumberBelow(b, k));
    S.SameBelow(b, Mask(b, k), k);
    S.NoneAbove(Mask(b, k), 64, k + 64);
    S.NoneAbove(Mask(b, k), k, k + 64);
  }

  function Shifted(b: S.XorSwizzle, k: nat): S.XorSwizzle {
    S.XorSwizzle(seq(|b.columns|, i requires 0 <= i < |b.columns| => Shift(b.columns[i], k)), Shift(b.constant, k))
  }

  function Masked(b: S.XorSwizzle, k: nat): S.XorSwizzle {
    S.XorSwizzle(seq(|b.columns|, i requires 0 <= i < |b.columns| => Mask(b.columns[i], k)), Mask(b.constant, k))
  }

  lemma ShiftXor(x: S.Bits, y: S.Bits, k: nat)
    ensures Shift(S.Xor(x, y), k) == S.Xor(Shift(x, k), Shift(y, k))
    ensures Mask(S.Xor(x, y), k) == S.Xor(Mask(x, k), Mask(y, k))
  {
    hide Shift;
    forall i: nat ensures i in Shift(S.Xor(x, y), k) <==> i in S.Xor(Shift(x, k), Shift(y, k)) {
      ShiftHolds(S.Xor(x, y), k, i);
      ShiftHolds(x, k, i);
      ShiftHolds(y, k, i);
    }
  }

  lemma {:induction false} ShiftedEval(b: S.XorSwizzle, k: nat, tid: int, n: nat)
    requires n <= |b.columns|
    ensures S.EvalBelow(Shifted(b, k), tid, n) == Shift(S.EvalBelow(b, tid, n), k)
    ensures S.EvalBelow(Masked(b, k), tid, n) == Mask(S.EvalBelow(b, tid, n), k)
  {
    hide Shift, Mask, S.Xor, S.BitSet;
    if n > 0 {
      ShiftedEval(b, k, tid, n - 1);
      ShiftXor(S.EvalBelow(b, tid, n - 1), b.columns[n - 1], k);
    }
  }

  // -- powers of two ----------------------------------------------------------------------

  function LowestSet(x: nat): (k: nat)
    requires x > 0
    ensures x % S.Power(k) == 0 && x / S.Power(k) % 2 == 1
  {
    if x % 2 == 1 then
      assert x / 1 == x && x % 1 == 0;
      0
    else
      var k := LowestSet(x / 2);
      Doubled(x, S.Power(k));
      1 + k
  }

  lemma Doubled(x: nat, p: nat)
    requires p > 0 && x % 2 == 0 && x / 2 % p == 0
    ensures x % (2 * p) == 0 && x / (2 * p) == x / 2 / p
  {
    var q := x / 2 / p;
    assert x / 2 == p * q;
    Associates(2, p, q);
    QuotientIs(x, 2 * p, q, 0);
  }

  predicate IsPower(d: nat)
    requires d > 0
  {
    d == S.Power(LowestSet(d))
  }

  // -- variables ----------------------------------------------------------------------------

  function ThreadIndex(): S.XorSwizzle {
    S.XorSwizzle(seq(S.COLUMNS, i requires 0 <= i < S.COLUMNS => Bit(i)), {})
  }

  function Bit(i: nat): S.Bits
    requires i < 64
  {
    {i}
  }

  /** Reads the variable bit by bit as a swizzle, where it is built from the thread index by powers of two alone. */
  function VarSwizzle(v: Var): Option<S.XorSwizzle>
    decreases v
  {
    match v
    case Tid(X) => Some(ThreadIndex())
    case Floor(x, d) =>
      (match VarSwizzle(x)
       case Some(b) => if IsPower(d) then Some(Shifted(b, LowestSet(d))) else None
       case None => None)
    case Rem(x, m) =>
      (match VarSwizzle(x)
       case Some(b) => if IsPower(m) then Some(Masked(b, LowestSet(m))) else None
       case None => None)
    case Swizzle(s) => Some(s)
    case _ => None
  }

  lemma {:induction false} IndexBits(t: int, n: nat)
    requires n <= S.COLUMNS
    ensures S.EvalBelow(ThreadIndex(), t, n) == S.BitsBelow(t, n)
  {
    hide S.BitSet;
    if n > 0 {
      IndexBits(t, n - 1);
      assert forall i: nat :: i < n ==> (S.BitSet(t, i) <==> i in S.BitsBelow(t, n));
    }
  }

  lemma IndexNumber(t: int)
    requires 0 <= t < THREADS
    ensures S.Number(S.Eval(ThreadIndex(), t)) == t
  {
    hide S.BitSet, S.NumberBelow;
    assert S.Power(S.COLUMNS) == THREADS;
    IndexBits(t, S.COLUMNS);
    S.BitsMake(t, S.COLUMNS);
    S.NoneAbove(S.BitsBelow(t, S.COLUMNS), S.COLUMNS, 64);
  }

  // -- how far a reading is from the variable -----------------------------------------------

  // The variable's value against the number its word makes: the same; 2^e less, where the word of a negative value
  // keeps no sign from bit e up; or 2^m - 2^e more, where a remainder by 2^m was taken of such a value.
  datatype Sight = Same | Less(e: nat) | More(e: nat, m: nat)

  ghost function SightOf(v: Var, leaf: Leaf): Sight
    requires VarSwizzle(v).Some?
    decreases v
  {
    match v
    case Floor(x, d) => ShiftSight(SightOf(x, leaf), LowestSet(d))
    case Rem(x, d) => MaskSight(SightOf(x, leaf), LowestSet(d))
    case Swizzle(s) => if 63 in S.Eval(s, leaf(Tid(X))) then Less(64) else Same
    case _ => Same
  }

  function ShiftSight(s: Sight, k: nat): Sight {
    match s
    case Same => Same
    case Less(e) => Less(Drop(e, k))
    case More(e, m) => if m <= k then Same else More(Drop(e, k), m - k)
  }

  function MaskSight(s: Sight, k: nat): Sight {
    match s
    case Same => Same
    case Less(e) => if k <= e then Same else More(e, k)
    case More(e, m) => if k <= e then Same else More(e, if k < m then k else m)
  }

  function Drop(e: nat, k: nat): nat {
    if k <= e then e - k else 0
  }

  function Slip(s: Sight): int {
    match s
    case Same => 0
    case Less(e) => 0 - S.Power(e)
    case More(e, m) => S.Power(m) - S.Power(e)
  }

  // Which numbers a word makes where it stands so to the value.
  ghost predicate Makes(s: Sight, n: nat) {
    match s
    case Same => n < S.Power(63)
    case Less(e) => n < S.Power(e) && e <= 64 && (e == 64 ==> n >= S.Power(63))
    case More(e, m) => n < S.Power(e) && e < m < 63
  }

  lemma {:induction false} PowerOrder(i: nat, j: nat)
    requires i < j
    ensures 2 * S.Power(i) <= S.Power(j)
    decreases j
  {
    if i + 1 < j {
      PowerOrder(i, j - 1);
    }
  }

  // The quotient by 2^k, and what is left.
  function Over(x: int, k: nat): (q: int)
    ensures x >= 0 ==> 0 <= q <= x
  {
    assert x == S.Power(k) * (x / S.Power(k)) + x % S.Power(k);
    Scales(S.Power(k), x / S.Power(k));
    x / S.Power(k)
  }

  lemma Scales(p: int, q: int)
    requires p >= 1
    ensures q > 0 ==> p * q >= q
    ensures q < 0 ==> p * q <= -p
  {
    Distributes(p, q, -q - 1);
    if q > 0 {
      Grows(p, q);
    } else if q < 0 {
      assert p * (-q - 1) >= 0;
      assert p * (q + (-q - 1)) == -p;
    }
  }

  function Left(x: int, k: nat): (r: nat)
    ensures r < S.Power(k)
  {
    x % S.Power(k)
  }

  lemma OverNone(x: int)
    ensures Over(x, 0) == x
  {
    QuotientIs(x, 1, x, 0);
  }

  // A floor by 2^k of a number 2^m higher.
  lemma FloorHigher(y: int, m: nat, k: nat)
    requires k <= m
    ensures Over(y + S.Power(m), k) == Over(y, k) + S.Power(m - k)
    ensures Left(y + S.Power(m), k) == Left(y, k)
  {
    hide S.Power;
    var p := S.Power(k);
    S.PowerSum(k, m - k);
    assert y == p * (y / p) + y % p;
    Distributes(p, y / p, S.Power(m - k));
    QuotientIs(y + S.Power(m), p, y / p + S.Power(m - k), y % p);
  }

  lemma SmallOver(n: nat, k: nat)
    requires n < S.Power(k)
    ensures Over(n, k) == 0 && Left(n, k) == n
  {
    hide S.Power;
    QuotientIs(n, S.Power(k), 0, n);
  }

  // A value 2^e below a number less than that, floored by more.
  lemma FloorBelow(n: nat, e: nat, k: nat)
    requires n < S.Power(e) && e < k
    ensures Over(n - S.Power(e), k) == -1 && Over(n, k) == 0
    ensures Left(n - S.Power(e), k) == n - S.Power(e) + S.Power(k) && Left(n, k) == n
  {
    hide S.Power;
    PowerOrder(e, k);
    SmallOver(n, k);
    QuotientIs(n - S.Power(e), S.Power(k), -1, n - S.Power(e) + S.Power(k));
  }

  lemma ShiftLess(n: nat, e: nat, k: nat)
    requires Makes(Less(e), n)
    ensures Over(n - S.Power(e), k) == Over(n, k) - S.Power(Drop(e, k))
    ensures Makes(Less(Drop(e, k)), Over(n, k))
  {
    hide S.Power, Over;
    OnePower();
    if k == 0 {
      OverNone(n);
      OverNone(n - S.Power(e));
    } else if k <= e {
      FloorLower(n, e, k);
      QuotientBelow(n, e, k);
    } else {
      FloorBelow(n, e, k);
    }
  }

  lemma FloorLower(n: nat, e: nat, k: nat)
    requires k <= e
    ensures Over(n - S.Power(e), k) == Over(n, k) - S.Power(e - k)
    ensures Left(n - S.Power(e), k) == Left(n, k)
  {
    hide S.Power, Over, Left;
    FloorHigher(n - S.Power(e), e, k);
  }

  lemma OnePower()
    ensures S.Power(0) == 1
  {
  }

  lemma QuotientBelow(n: nat, e: nat, k: nat)
    requires n < S.Power(e) && k <= e
    ensures Over(n, k) < S.Power(e - k)
  {
    hide S.Power;
    S.PowerSum(k, e - k);
    FloorAtMost(n, S.Power(k), S.Power(e - k) - 1);
    assert (S.Power(e - k) - 1 + 1) * S.Power(k) == S.Power(e);
  }

  lemma MoreGone(n: nat, e: nat, m: nat, k: nat)
    requires Makes(More(e, m), n) && m <= k
    ensures Over(n + S.Power(m) - S.Power(e), k) == Over(n, k) + Slip(ShiftSight(More(e, m), k))
    ensures Makes(ShiftSight(More(e, m), k), Over(n, k))
  {
    hide S.Power, Over;
    ShiftGone(n, e, m, k);
  }

  lemma MoreKeeps(n: nat, e: nat, m: nat, k: nat)
    requires Makes(More(e, m), n) && k <= e && k < m
    ensures Over(n + S.Power(m) - S.Power(e), k) == Over(n, k) + Slip(ShiftSight(More(e, m), k))
    ensures Makes(ShiftSight(More(e, m), k), Over(n, k))
  {
    hide S.Power, Over;
    ShiftKeeps(n, e, m, k);
  }

  lemma MoreOnes(n: nat, e: nat, m: nat, k: nat)
    requires Makes(More(e, m), n) && e < k < m
    ensures Over(n + S.Power(m) - S.Power(e), k) == Over(n, k) + Slip(ShiftSight(More(e, m), k))
    ensures Makes(ShiftSight(More(e, m), k), Over(n, k))
  {
    hide S.Power, Over;
    ShiftOnes(n, e, m, k);
  }

  lemma ShiftMore(n: nat, e: nat, m: nat, k: nat)
    requires Makes(More(e, m), n)
    ensures Over(n + S.Power(m) - S.Power(e), k) == Over(n, k) + Slip(ShiftSight(More(e, m), k))
    ensures Makes(ShiftSight(More(e, m), k), Over(n, k))
  {
    hide *;
    if m <= k {
      MoreGone(n, e, m, k);
    } else if k <= e {
      MoreKeeps(n, e, m, k);
    } else {
      MoreOnes(n, e, m, k);
    }
  }

  lemma ShiftGone(n: nat, e: nat, m: nat, k: nat)
    requires n < S.Power(e) && e < m <= k
    ensures Over(n + S.Power(m) - S.Power(e), k) == 0 && Over(n, k) == 0 < S.Power(63)
  {
    hide S.Power, Over, Left;
    PowerOrder(e, m);
    PowersOrdered(m, k);
    PowersOrdered(0, 63);
    OnePower();
    SmallOver(n + S.Power(m) - S.Power(e), k);
    SmallOver(n, k);
  }

  lemma ShiftKeeps(n: nat, e: nat, m: nat, k: nat)
    requires n < S.Power(e) && k <= e < m
    ensures Over(n + S.Power(m) - S.Power(e), k) == Over(n, k) + S.Power(m - k) - S.Power(e - k)
    ensures Over(n, k) < S.Power(e - k)
  {
    hide S.Power, Over, Left;
    FloorAwayTwice(n, e, m, k);
    QuotientBelow(n, e, k);
  }

  lemma ShiftOnes(n: nat, e: nat, m: nat, k: nat)
    requires n < S.Power(e) && e < k < m
    ensures Over(n + S.Power(m) - S.Power(e), k) == S.Power(m - k) - 1
    ensures Over(n, k) == 0 && S.Power(0) == 1
  {
    hide S.Power, Over, Left;
    OnePower();
    FloorBelow(n, e, k);
    FloorHigher(n - S.Power(e), m, k);
  }

  lemma {:induction false} PowersOrdered(i: nat, j: nat)
    requires i <= j
    ensures S.Power(i) <= S.Power(j)
  {
    if i < j {
      PowerOrder(i, j);
    }
  }

  lemma FloorAwayTwice(n: nat, e: nat, m: nat, k: nat)
    requires k <= e < m
    ensures Over(n + S.Power(m) - S.Power(e), k) == Over(n, k) + S.Power(m - k) - S.Power(e - k)
    ensures Left(n + S.Power(m) - S.Power(e), k) == Left(n, k)
  {
    hide S.Power, Over, Left;
    FloorHigher(n - S.Power(e), m, k);
    FloorLower(n, e, k);
  }

  /** A shift of the word stands to the floor of the value as the word stood to the value, shifted. */
  lemma ShiftStands(x: int, n: nat, s: Sight, k: nat)
    requires Makes(s, n) && x == n + Slip(s)
    ensures Over(x, k) == Over(n, k) + Slip(ShiftSight(s, k))
    ensures Makes(ShiftSight(s, k), Over(n, k))
  {
    hide S.Power, Over;
    match s
    case Same =>
    case Less(e) => ShiftLess(n, e, k);
    case More(e, m) => ShiftMore(n, e, m, k);
  }

  /** And a mask to the remainder. */
  lemma MaskStands(x: int, n: nat, s: Sight, k: nat)
    requires Makes(s, n) && x == n + Slip(s) && k < 63
    ensures Left(x, k) == Left(n, k) + Slip(MaskSight(s, k))
    ensures Makes(MaskSight(s, k), Left(n, k))
  {
    hide S.Power, Over, Left;
    PowersOrdered(k, 63);
    match s
    case Same =>
    case Less(e) =>
      if k <= e {
        FloorLower(n, e, k);
      } else {
        FloorBelow(n, e, k);
      }
    case More(e, m) =>
      if k <= e {
        FloorAwayTwice(n, e, m, k);
      } else if k <= m {
        FloorBelow(n, e, k);
        FloorHigher(n - S.Power(e), m, k);
      } else {
        PowerOrder(e, m);
        PowersOrdered(m, k);
        SmallOver(n, k);
        SmallOver(n + S.Power(m) - S.Power(e), k);
      }
  }

  /** How far the number a variable's word makes is from its value, at every thread. */
  lemma {:induction false} VarSwizzleValue(v: Var, leaf: Leaf)
    requires VarSwizzle(v).Some? && InBlock(leaf)
    ensures VarValue(v, leaf) == S.Number(S.Eval(VarSwizzle(v).value, leaf(Tid(X)))) + Slip(SightOf(v, leaf))
    ensures Makes(SightOf(v, leaf), S.Number(S.Eval(VarSwizzle(v).value, leaf(Tid(X)))))
    decreases v
  {
    hide S.NumberBelow, S.Power, S.MaySet, S.EvalBelow, LowestSet, Shift, Mask, Slip, Makes, ShiftSight, MaskSight, Over,
      Left;
    var t := leaf(Tid(X));
    match v
    case Tid(_) => IndexStands(t);
    case Floor(x, d) =>
      VarSwizzleValue(x, leaf);
      Divided(VarSwizzle(x).value, d, t);
      ShiftStands(VarValue(x, leaf), S.Number(S.Eval(VarSwizzle(x).value, t)), SightOf(x, leaf), LowestSet(d));
    case Rem(x, d) =>
      VarSwizzleValue(x, leaf);
      Divided(VarSwizzle(x).value, d, t);
      MaskStands(VarValue(x, leaf), S.Number(S.Eval(VarSwizzle(x).value, t)), SightOf(x, leaf), LowestSet(d));
    case Swizzle(s) => SignedStands(S.Eval(s, t));
  }

  lemma IndexStands(t: int)
    requires 0 <= t < THREADS
    ensures S.Number(S.Eval(ThreadIndex(), t)) == t && Slip(Same) == 0 && Makes(Same, t)
  {
    hide S.EvalBelow, S.NumberBelow, S.Power;
    IndexNumber(t);
    S.WordPowers();
  }

  lemma SignedStands(w: S.Bits)
    ensures var s := if 63 in w then Less(64) else Same;
      S.Signed(w) == S.Number(w) + Slip(s) && Makes(s, S.Number(w))
  {
    hide S.Power;
    S.NumberRange(w, 64);
    S.NumberRange(w, 63);
    assert S.NumberBelow(w, 64) == S.NumberBelow(w, 63) + if 63 in w then S.Power(63) else 0;
  }

  lemma Divided(b: S.XorSwizzle, d: Divisor, t: int)
    requires IsPower(d)
    ensures S.Number(S.Eval(Shifted(b, LowestSet(d)), t)) == Over(S.Number(S.Eval(b, t)), LowestSet(d))
    ensures S.Number(S.Eval(Masked(b, LowestSet(d)), t)) == Left(S.Number(S.Eval(b, t)), LowestSet(d))
    ensures LowestSet(d) < 63
    ensures forall x :: Over(x, LowestSet(d)) == x / d && Left(x, LowestSet(d)) == x % d
  {
    hide S.NumberBelow, S.Power, S.MaySet, S.EvalBelow, LowestSet, Shift, Mask;
    ShiftedEval(b, LowestSet(d), t, |b.columns|);
    ShiftNumber(S.Eval(b, t), LowestSet(d));
    S.WordPowers();
    if LowestSet(d) >= 63 {
      PowersOrdered(63, LowestSet(d));
    }
  }

  /** The word is the variable's value, in two's complement. */
  ghost predicate ReadRight(v: Var, leaf: Leaf)
    requires VarSwizzle(v).Some?
  {
    VarValue(v, leaf) == S.Signed(S.Eval(VarSwizzle(v).value, leaf(Tid(X))))
  }

  /** Where a reading is right: exactly where the word kept its signs or there were none. */
  lemma ReadRightWhere(v: Var, leaf: Leaf)
    requires VarSwizzle(v).Some? && InBlock(leaf)
    ensures ReadRight(v, leaf) <==> SightOf(v, leaf) == Same || SightOf(v, leaf) == Less(64)
  {
    hide S.Power, S.NumberBelow, S.EvalBelow, VarSwizzle, VarValue, SightOf;
    var w, sight := S.Eval(VarSwizzle(v).value, leaf(Tid(X))), SightOf(v, leaf);
    VarSwizzleValue(v, leaf);
    SignedStands(w);
    S.WordPowers();
    match sight
    case Same =>
    case Less(e) =>
      if e < 64 {
        PowersOrdered(e, 63);
      }
    case More(e, m) =>
      PowerOrder(e, m);
      PowersOrdered(e, 63);
  }

  /**
   * Of an operand read right, a floor by a power of two is read right exactly where the power is one or the operand is
   * not negative, and a remainder always.
   */
  lemma DividedReadRight(x: Var, d: Divisor, leaf: Leaf)
    requires VarSwizzle(x).Some? && IsPower(d) && InBlock(leaf) && ReadRight(x, leaf)
    ensures VarSwizzle(Floor(x, d)).Some? && VarSwizzle(Rem(x, d)).Some?
    ensures ReadRight(Floor(x, d), leaf) <==> d == 1 || VarValue(x, leaf) >= 0
    ensures ReadRight(Rem(x, d), leaf)
  {
    hide S.NumberBelow, S.EvalBelow, LowestSet, ReadRight, S.Power;
    ReadRightWhere(x, leaf);
    ReadRightWhere(Floor(x, d), leaf);
    ReadRightWhere(Rem(x, d), leaf);
    VarSwizzleValue(x, leaf);
    Divided(VarSwizzle(x).value, d, leaf(Tid(X)));
    OnePower();
    S.WordPowers();
    if LowestSet(d) > 0 {
      PowerOrder(0, LowestSet(d));
    }
  }

  /** A swizzle itself is read right, and a floor of one exactly where it takes nothing off or bit 63 is clear. */
  lemma SwizzleReadRight(s: S.XorSwizzle, d: Divisor, leaf: Leaf)
    requires IsPower(d) && InBlock(leaf)
    ensures ReadRight(Swizzle(s), leaf) && ReadRight(Rem(Swizzle(s), d), leaf)
    ensures ReadRight(Floor(Swizzle(s), d), leaf) <==> d == 1 || 63 !in S.Eval(s, leaf(Tid(X)))
  {
    hide S.NumberBelow, S.EvalBelow, IsPower, LowestSet, S.Power;
    DividedReadRight(Swizzle(s), d, leaf);
    SignedStands(S.Eval(s, leaf(Tid(X))));
    S.WordPowers();
  }

  // The word makes the variable's own value.
  ghost predicate Upright(v: Var, leaf: Leaf) {
    VarSwizzle(v).Some? ==> SightOf(v, leaf) == Same
  }

  /** Swizzles below 2^62 are read upright wherever they stand. */
  lemma {:induction false} NarrowIsUpright(v: Var, leaf: Leaf)
    requires Narrow(v)
    ensures Upright(v, leaf)
    decreases v
  {
    match v
    case Floor(x, _) => NarrowIsUpright(x, leaf);
    case Rem(x, _) => NarrowIsUpright(x, leaf);
    case Swizzle(s) => S.EvalMaySet(s, leaf(Tid(X)), |s.columns|);
    case _ =>
  }

  lemma TwoIsPower()
    ensures IsPower(2)
  {
    assert S.Power(1) == 2 && LowestSet(2) == 1;
  }

  /** With the sign bit set the shift is not the floor: a swizzle of value -2^63 over 2. */
  lemma SignBitMisread(leaf: Leaf)
    requires InBlock(leaf)
    ensures var s := S.XorSwizzle(S.NO_COLUMNS, {63});
      VarSwizzle(Floor(Swizzle(s), 2)).Some? && !ReadRight(Floor(Swizzle(s), 2), leaf)
  {
    hide S.NumberBelow, S.Power, S.EvalBelow, IsPower, LowestSet, ReadRight;
    var s := S.XorSwizzle(S.NO_COLUMNS, {63});
    TwoIsPower();
    NoColumns(s, leaf(Tid(X)), S.COLUMNS);
    SwizzleReadRight(s, 2, leaf);
  }

  lemma {:induction false} NoColumns(s: S.XorSwizzle, t: int, n: nat)
    requires n <= |s.columns| && forall i :: 0 <= i < |s.columns| ==> s.columns[i] == {}
    ensures S.EvalBelow(s, t, n) == s.constant
  {
    if n > 0 {
      NoColumns(s, t, n - 1);
    }
  }

  // -- forms ----------------------------------------------------------------------------------

  // The columns and the constants of both.
  function Together(a: S.XorSwizzle, b: S.XorSwizzle): S.XorSwizzle {
    S.XorSwizzle(seq(|a.columns|, i requires 0 <= i < |a.columns| => Either(a.columns[i], b.columns[i])), a.constant + b.constant)
  }

  function Either(x: S.Bits, y: S.Bits): S.Bits {
    x + y
  }

  lemma NoneInBoth(m: set<nat>, n: set<nat>)
    requires m * n == {}
    ensures forall i :: i in m ==> i !in n
  {
    forall i | i in m ensures i !in n {
      assert i in n ==> i in m * n;
    }
  }

  lemma XorApart(x: S.Bits, c: S.Bits, y: S.Bits, d: S.Bits, m: S.Bits, n: S.Bits)
    requires x <= m && c <= m && y <= n && d <= n && m * n == {}
    ensures S.Xor(x + y, c + d) == S.Xor(x, c) + S.Xor(y, d)
  {
    NoneInBoth(m, n);
    forall i: nat ensures i in S.Xor(x + y, c + d) <==> i in S.Xor(x, c) + S.Xor(y, d) {
      assert i in m ==> i !in n;
    }
  }

  /** Where no bit is set by both, the xor of both is their sum. */
  lemma {:induction false} TogetherEval(a: S.XorSwizzle, b: S.XorSwizzle, t: int, n: nat)
    requires n <= |a.columns| && S.MaySet(a) * S.MaySet(b) == {}
    ensures S.EvalBelow(Together(a, b), t, n) == S.EvalBelow(a, t, n) + S.EvalBelow(b, t, n)
  {
    hide S.MaySet, S.BitSet, S.Xor;
    if n > 0 {
      TogetherEval(a, b, t, n - 1);
      S.EvalMaySet(a, t, n - 1);
      S.EvalMaySet(b, t, n - 1);
      S.ColumnMaySet(a, n - 1);
      S.ColumnMaySet(b, n - 1);
      XorApart(S.EvalBelow(a, t, n - 1), a.columns[n - 1], S.EvalBelow(b, t, n - 1), b.columns[n - 1],
               S.MaySet(a), S.MaySet(b));
    }
  }

  lemma TogetherNumber(a: S.XorSwizzle, b: S.XorSwizzle, t: int)
    requires S.MaySet(a) * S.MaySet(b) == {}
    ensures S.Number(S.Eval(Together(a, b), t)) == S.Number(S.Eval(a, t)) + S.Number(S.Eval(b, t))
    ensures S.MaySet(Together(a, b)) <= S.MaySet(a) + S.MaySet(b)
  {
    hide S.EvalBelow, S.NumberBelow;
    var n := |a.columns|;
    TogetherEval(a, b, t, n);
    S.EvalMaySet(a, t, n);
    S.EvalMaySet(b, t, n);
    NoneInBoth(S.MaySet(a), S.MaySet(b));
    S.DisjointSum(S.Eval(a, t), S.Eval(b, t), 64);
    forall i | i in S.MaySet(Together(a, b)) ensures i in S.MaySet(a) + S.MaySet(b) {
      if i in S.Union(Together(a, b).columns) {
        S.UnionOnly(Together(a, b).columns, i);
        var c :| 0 <= c < n && i in a.columns[c] + b.columns[c];
        S.UnionHolds(a.columns, c);
        S.UnionHolds(b.columns, c);
      }
    }
  }

  // The terms joined to the xor so far, `used` the bits it and the base may set.
  ghost function Joined(terms: seq<(Var, SymExpr)>, out: S.XorSwizzle, used: S.Bits): Option<(S.XorSwizzle, S.Bits)> {
    if terms == [] then Some((out, used)) else
    var times := TermSwizzle(terms[0].0, terms[0].1);
    if times.None? || used * S.MaySet(times.value) != {} then None
    else Joined(terms[1..], Together(out, times.value), used + S.MaySet(times.value))
  }

  // The xor a term reads as: none where its variable is none or its product carries.
  ghost function TermSwizzle(v: Var, c: SymExpr): Option<S.XorSwizzle> {
    if VarSwizzle(v).None? || !c.Const? || c.c < 0 || !S.CarriesNothing(S.MaySet(VarSwizzle(v).value), c.c) then None
    else Some(S.Multiple(VarSwizzle(v).value, c.c))
  }

  /**
   * The xor a form reads as: none where a term is no xor, its product carries, two set one bit, or any is past 2^62.
   */
  ghost function SwizzleOf(a: AffineExpr): Option<S.XorSwizzle> {
    if !a.base.Const? || a.base.c < 0 then None else
    var joined := Joined(a.terms, Constant(a.base.c), Word(a.base.c));
    if joined.Some? && Below62(joined.value.1) then Some(joined.value.0) else None
  }

  // The xor that flips nothing.
  function Constant(c: nat): S.XorSwizzle {
    S.XorSwizzle(S.NO_COLUMNS, Word(c))
  }

  // How far the terms' words are from the terms, together.
  ghost function Slips(terms: seq<(Var, SymExpr)>, leaf: Leaf): int {
    if terms == [] then 0 else
    (if terms[0].1.Const? && VarSwizzle(terms[0].0).Some? then terms[0].1.c * Slip(SightOf(terms[0].0, leaf)) else 0) +
    Slips(terms[1..], leaf)
  }

  lemma {:induction false} SlipsAppend(terms: seq<(Var, SymExpr)>, t: (Var, SymExpr), leaf: Leaf)
    ensures Slips(terms + [t], leaf) == Slips(terms, leaf) +
      if t.1.Const? && VarSwizzle(t.0).Some? then t.1.c * Slip(SightOf(t.0, leaf)) else 0
  {
    hide VarSwizzle, SightOf, Slip;
    if terms == [] {
      assert [t][1..] == [];
    } else {
      assert (terms + [t])[1..] == terms[1..] + [t];
      SlipsAppend(terms[1..], t, leaf);
    }
  }

  // Every term that counts is read upright.
  ghost predicate UprightTerms(terms: seq<(Var, SymExpr)>, leaf: Leaf) {
    forall i :: 0 <= i < |terms| ==> terms[i].1 == Const(0) || Upright(terms[i].0, leaf)
  }

  lemma {:induction false} UprightSlipsNone(terms: seq<(Var, SymExpr)>, leaf: Leaf)
    requires UprightTerms(terms, leaf)
    ensures Slips(terms, leaf) == 0
  {
    hide VarSwizzle, SightOf;
    if terms != [] {
      forall i | 0 <= i < |terms[1..]| ensures terms[1..][i].1 == Const(0) || Upright(terms[1..][i].0, leaf) {
        assert terms[1..][i] == terms[i + 1];
      }
      UprightSlipsNone(terms[1..], leaf);
      assert Slip(Same) == 0;
    }
  }

  // The sum of the constant and the terms is the swizzle's value and the terms' slips.
  ghost predicate Reads(terms: seq<(Var, SymExpr)>, base: int, b: S.XorSwizzle) {
    forall leaf: Leaf, env: Env :: InBlock(leaf) ==> TermsValue(terms, leaf, env) + base == At(b, leaf) + Slips(terms, leaf)
  }

  ghost function At(b: S.XorSwizzle, leaf: Leaf): int {
    S.Number(S.Eval(b, leaf(Tid(X))))
  }

  // The bits of a number below 2^64.
  function Word(x: nat): S.Bits {
    S.BitsBelow(x, 64)
  }

  lemma ConstantReads(base: nat)
    requires base < S.Power(64)
    ensures var b := Constant(base);
      Reads([], base, b) && S.MaySet(b) <= Word(base)
  {
    hide S.Power, S.NumberBelow, S.BitsBelow;
    var b := Constant(base);
    assert Word(base) == S.BitsBelow(base, 64);
    S.BitsMake(base, 64);
    S.Remains(base, S.Power(64));
    forall leaf: Leaf, env: Env | InBlock(leaf) ensures TermsValue([], leaf, env) + base == At(b, leaf) + Slips([], leaf) {
      NoColumns(b, leaf(Tid(X)), S.COLUMNS);
    }
    forall i | i in S.MaySet(b) ensures i in b.constant {
      if i in S.Union(b.columns) {
        S.UnionOnly(b.columns, i);
      }
    }
  }

  lemma TermReads(terms: seq<(Var, SymExpr)>, base: int, out: S.XorSwizzle, v: Var, c: Int64, read: S.XorSwizzle)
    requires c >= 0 && Reads(terms, base, out)
    requires VarSwizzle(v) == Some(read) && S.CarriesNothing(S.MaySet(read), c)
    requires S.MaySet(out) * S.MaySet(S.Multiple(read, c)) == {}
    ensures Reads(terms + [(v, Const(c))], base, Together(out, S.Multiple(read, c)))
  {
    hide S.MaySet, S.CarriesNothing, S.Multiple, S.Number, S.EvalBelow, VarValue, Together, Slip, SightOf, VarSwizzle, Slips;
    var times := S.Multiple(read, c);
    forall leaf: Leaf, env: Env | InBlock(leaf)
      ensures TermsValue(terms + [(v, Const(c))], leaf, env) + base ==
              At(Together(out, times), leaf) + Slips(terms + [(v, Const(c))], leaf)
    {
      var t := leaf(Tid(X));
      TermsAppend(terms, [(v, Const(c))], leaf, env);
      OneTerm((v, Const(c)), leaf, env);
      ConstValue(c, env);
      VarSwizzleValue(v, leaf);
      S.MultipleIsTimes(read, c, t);
      TogetherNumber(out, times, t);
      SlipsAppend(terms, (v, Const(c)), leaf);
      Distributes(c, S.Number(S.Eval(read, t)), Slip(SightOf(v, leaf)));
      assert TermsValue(terms, leaf, env) + base == At(out, leaf) + Slips(terms, leaf);
    }
  }

  /**
   * The form as one xor of the thread index's bits, where its terms and base set no bit in common and all lie below
   * 2^62: its value at every thread less its terms' slips, none of them where every term is read upright.
   */
  method FormSwizzle(a: AffineExpr) returns (r: Option<S.XorSwizzle>)
    requires Valid(a)
    ensures r == SwizzleOf(a)
    ensures r.Some? ==> forall leaf: Leaf, env: Env :: InBlock(leaf) ==>
      FormValue(a, leaf, env) == At(r.value, leaf) + Slips(a.terms, leaf)
    ensures r.Some? ==> Below62(S.MaySet(r.value))
  {
    hide S.MaySet, S.CarriesNothing, S.Multiple, S.Power, S.NumberBelow, S.EvalBelow, VarSwizzle, Together, VarValue, Reads, Word,
      Joined, Slips;
    if !a.base.Const? || a.base.c < 0 {
      return None;
    }
    Room(a.base.c);
    var used: S.Bits := Word(a.base.c);
    var out := Constant(a.base.c);
    ConstantReads(a.base.c);
    assert a.terms[..0] == [] && a.terms[0..] == a.terms;
    ghost var all := Joined(a.terms, out, used);
    for i := 0 to |a.terms|
      invariant Joined(a.terms[i..], out, used) == all
      invariant S.MaySet(out) <= used && Reads(a.terms[..i], a.base.c, out)
    {
      var (v, c) := a.terms[i];
      JoinedNext(a.terms, i, out, used);
      var read := VarSwizzle(v);
      if read.None? || !c.Const? || c.c < 0 {
        return None;
      }
      var times := S.Times(read.value, c.c);
      if times.None? {
        return None;
      }
      var shifted := S.MaySet(times.value);
      if used * shifted != {} {
        return None;
      }
      NoneInBoth(used, shifted);
      assert S.MaySet(out) * shifted == {};
      assert a.terms[..i + 1] == a.terms[..i] + [(v, Const(c.c))];
      TermReads(a.terms[..i], a.base.c, out, v, c.c, read.value);
      TogetherNumber(out, times.value, 0);
      used := used + shifted;
      out := Together(out, times.value);
    }
    assert a.terms[..|a.terms|] == a.terms;
    JoinedEnds(a.terms, out, used);
    if !Below62(used) {
      return None;
    }
    r := Some(out);
    ReadsForm(a, out);
  }

  lemma JoinedNext(terms: seq<(Var, SymExpr)>, i: nat, out: S.XorSwizzle, used: S.Bits)
    requires i < |terms|
    ensures var times := TermSwizzle(terms[i].0, terms[i].1);
      Joined(terms[i..], out, used) ==
      if times.None? || used * S.MaySet(times.value) != {} then None
      else Joined(terms[i + 1..], Together(out, times.value), used + S.MaySet(times.value))
  {
    hide S.MaySet, TermSwizzle, Together;
    assert terms[i..][0] == terms[i] && terms[i..][1..] == terms[i + 1..];
  }

  lemma JoinedEnds(terms: seq<(Var, SymExpr)>, out: S.XorSwizzle, used: S.Bits)
    ensures Joined(terms[|terms|..], out, used) == Some((out, used))
  {
  }

  lemma Room(c: Int64)
    ensures c < S.Power(64)
  {
    hide S.Power;
    S.WordPowers();
  }

  lemma ReadsForm(a: AffineExpr, b: S.XorSwizzle)
    requires a.base.Const? && Reads(a.terms, a.base.c, b)
    ensures forall leaf: Leaf, env: Env :: InBlock(leaf) ==> FormValue(a, leaf, env) == At(b, leaf) + Slips(a.terms, leaf)
  {
    hide At, Slips, TermsValue;
    forall leaf: Leaf, env: Env | InBlock(leaf) ensures FormValue(a, leaf, env) == At(b, leaf) + Slips(a.terms, leaf) {
      ConstValue(a.base.c, env);
      assert TermsValue(a.terms, leaf, env) + a.base.c == At(b, leaf) + Slips(a.terms, leaf);
    }
  }

  // -- xors of forms ----------------------------------------------------------------------------

  function XorOf(a: S.XorSwizzle, b: S.XorSwizzle): S.XorSwizzle {
    S.XorSwizzle(seq(|a.columns|, i requires 0 <= i < |a.columns| => S.Xor(a.columns[i], b.columns[i])),
                 S.Xor(a.constant, b.constant))
  }

  lemma XorSwaps(x: S.Bits, c: S.Bits, y: S.Bits, d: S.Bits)
    ensures S.Xor(S.Xor(x, y), S.Xor(c, d)) == S.Xor(S.Xor(x, c), S.Xor(y, d))
  {
    var l, r := S.Xor(S.Xor(x, y), S.Xor(c, d)), S.Xor(S.Xor(x, c), S.Xor(y, d));
    forall i: nat ensures i in l <==> i in r {
    }
  }

  lemma {:induction false} XorEval(a: S.XorSwizzle, b: S.XorSwizzle, t: int, n: nat)
    requires n <= |a.columns|
    ensures S.EvalBelow(XorOf(a, b), t, n) == S.Xor(S.EvalBelow(a, t, n), S.EvalBelow(b, t, n))
  {
    hide S.Xor, S.BitSet;
    if n > 0 {
      XorEval(a, b, t, n - 1);
      XorSwaps(S.EvalBelow(a, t, n - 1), a.columns[n - 1], S.EvalBelow(b, t, n - 1), b.columns[n - 1]);
    }
  }

  function SignedWord(b: S.Bits): (x: Int64)
    ensures x == S.Signed(b)
  {
    SignedStands(b);
    S.WordPowers();
    S.NumberRange(b, 64);
    S.Signed(b)
  }

  // The bits of the constant no column sets, and those one does.
  function Fixed(s: S.XorSwizzle): S.Bits {
    s.constant - S.Union(s.columns)
  }

  function Moving(s: S.XorSwizzle): S.XorSwizzle {
    S.XorSwizzle(s.columns, s.constant * S.Union(s.columns))
  }

  /** The swizzle as a form: what no thread changes in the base, the rest a variable. */
  function FormOf(s: S.XorSwizzle): AffineExpr {
    if S.Union(s.columns) == {} then Base(Const(SignedWord(Fixed(s))))
    else Plus(Base(Const(SignedWord(Fixed(s)))), Term(Swizzle(Moving(s)), Const(1)))
  }

  lemma {:induction false} ApartEval(s: S.XorSwizzle, t: int, n: nat)
    requires n <= |s.columns|
    ensures S.EvalBelow(Moving(s), t, n) <= S.Union(s.columns)
    ensures S.EvalBelow(s, t, n) == Fixed(s) + S.EvalBelow(Moving(s), t, n)
  {
    hide S.BitSet;
    if n > 0 {
      ApartEval(s, t, n - 1);
      S.UnionHolds(s.columns, n - 1);
    }
  }

  lemma SignedApart(a: S.Bits, b: S.Bits)
    requires forall i :: i in a ==> i !in b
    ensures S.Signed(a + b) == S.Signed(a) + S.Signed(b)
  {
    S.DisjointSum(a, b, 64);
  }

  /** The form has the swizzle's value at every thread. */
  lemma FormOfValue(s: S.XorSwizzle, leaf: Leaf, env: Env)
    ensures FormValue(FormOf(s), leaf, env) == S.Signed(S.Eval(s, leaf(Tid(X))))
  {
    hide S.EvalBelow, S.Signed, S.Union, FormValue, Plus;
    var t, n := leaf(Tid(X)), |s.columns|;
    ApartEval(s, t, n);
    SignedApart(Fixed(s), S.Eval(Moving(s), t));
    BaseValue(Const(SignedWord(Fixed(s))), leaf, env);
    ConstValue(SignedWord(Fixed(s)), env);
    if S.Union(s.columns) == {} {
      assert S.Eval(Moving(s), t) == {};
      NoneSigned();
    } else {
      TermValue(Swizzle(Moving(s)), Const(1), leaf, env);
      ConstValue(1, env);
      PlusValue(Base(Const(SignedWord(Fixed(s)))), Term(Swizzle(Moving(s)), Const(1)), leaf, env);
    }
  }

  lemma NoneSigned()
    ensures S.Signed({}) == 0
  {
    S.NoBits(64);
  }

  lemma XorsBelow62(x: S.XorSwizzle, y: S.XorSwizzle)
    requires Below62(S.MaySet(x)) && Below62(S.MaySet(y))
    ensures Below62(S.MaySet(XorOf(x, y))) && Narrow(Swizzle(Moving(XorOf(x, y))))
  {
    var s := XorOf(x, y);
    forall i | i in S.MaySet(s) ensures i < S.ROOM {
      if i in S.Union(s.columns) {
        S.UnionOnly(s.columns, i);
        var c :| 0 <= c < |s.columns| && i in s.columns[c];
        S.UnionHolds(x.columns, c);
        S.UnionHolds(y.columns, c);
        assert i in S.MaySet(x) || i in S.MaySet(y);
      } else {
        assert i in S.MaySet(x) || i in S.MaySet(y);
      }
    }
    assert S.MaySet(Moving(s)) <= S.MaySet(s);
  }

  /**
   * The xor of two forms that read as swizzles, turned back into a form, has the xor of their words at every thread,
   * and the variable it is built of lies below 2^62, so that wherever it stands it is read upright.
   */
  lemma XorFormValue(x: S.XorSwizzle, y: S.XorSwizzle, leaf: Leaf, env: Env)
    requires Below62(S.MaySet(x)) && Below62(S.MaySet(y))
    ensures FormValue(FormOf(XorOf(x, y)), leaf, env) ==
            S.Number(S.Xor(S.Eval(x, leaf(Tid(X))), S.Eval(y, leaf(Tid(X)))))
    ensures forall i :: 0 <= i < |FormOf(XorOf(x, y)).terms| ==> Narrow(FormOf(XorOf(x, y)).terms[i].0)
  {
    hide S.EvalBelow, S.NumberBelow, S.Union, FormValue, Below62;
    var s, t := XorOf(x, y), leaf(Tid(X));
    FormOfValue(s, leaf, env);
    XorEval(x, y, t, |x.columns|);
    XorsBelow62(x, y);
    S.EvalMaySet(s, t, |s.columns|);
    NoSign(S.Eval(s, t), S.MaySet(s));
    FormOfTerms(s);
    hide FormOf, Narrow;
  }

  lemma FormOfTerms(s: S.XorSwizzle)
    ensures forall i :: 0 <= i < |FormOf(s).terms| ==> FormOf(s).terms[i].0 == Swizzle(Moving(s))
  {
    hide S.Union, S.Signed;
    if S.Union(s.columns) != {} {
      var t := (Swizzle(Moving(s)), Const(1));
      assert Term(t.0, t.1).terms == [t];
      assert [t][1..] == [];
      assert InsertAll([], [t]) == Insert([], t);
    }
  }

  lemma NoSign(w: S.Bits, mask: S.Bits)
    requires w <= mask && Below62(mask)
    ensures S.Signed(w) == S.Number(w)
  {
    assert 63 !in mask;
  }
}
