/** How close the masks are: bits some value sets, where the terms' bits lie apart. */
module MaskEnds {
  import opened Wrappers
  import opened Divisions
  import opened SymExprs
  import opened SymExprValues
  import opened SymQuotients
  import opened AffineExprs
  import opened SwizzleForms
  import opened MaySets
  import opened RangeEnds
  import AffineDivision
  import S = Swizzles

  // -- greatest values ------------------------------------------------------------------

  // Indices and counters from 0 to their greatest values, nothing known of any other.
  ghost function FromZero(largest: Largest): AffineDivision.VarBounds {
    (v: Var) => BoundOf(largest, v)
  }

  ghost function BoundOf(largest: Largest, v: Var): Option<(Int64, Int64)> {
    if IsLeaf(v) && !v.Unknown? && largest(v).Some? then Some((0, largest(v).value)) else None
  }

  // The variable takes every value from 0 to its greatest: a remainder's operand passes all the remainders.
  ghost predicate Filled(v: Var, largest: Largest)
    decreases v, 0
  {
    match v
    case Floor(x, _) => Filled(x, largest)
    case Rem(x, m) => Filled(x, largest) && Top(x, largest) >= m - 1
    case Swizzle(_) => false
    case Unknown(_) => false
    case _ => largest(v).Some? && largest(v).value >= 0 && (v == Tid(X) ==> largest(v).value < THREADS)
  }

  ghost function Top(v: Var, largest: Largest): int
    requires Filled(v, largest)
    decreases v, 1
  {
    match v
    case Floor(x, d) => Top(x, largest) / d
    case Rem(_, m) => m - 1
    case _ => largest(v).value
  }

  /** Such a variable's greatest value is known. */
  lemma {:induction false} GreatestIsTop(v: Var, largest: Largest)
    requires Filled(v, largest)
    ensures Top(v, largest) >= 0 && Greatest(v, largest) == Some(Top(v, largest))
    ensures Spread(v, FromZero(largest)) && AffineDivision.VarRange(v, FromZero(largest)) == Some((0, Top(v, largest)))
    decreases v
  {
    match v
    case Floor(x, d) =>
      GreatestIsTop(x, largest);
      QuotientIs(0, d, 0, 0);
      FloorFits(Top(x, largest), d);
    case Rem(x, m) =>
      GreatestIsTop(x, largest);
      QuotientIs(0, m, 0, 0);
    case _ =>
  }

  /** And a swizzle's is a value of it within the bounds. */
  lemma GreatestOfSwizzleMet(s: S.XorSwizzle, largest: Largest, leaf: Leaf)
    requires MaySets.Within(largest, leaf)
    ensures Greatest(Swizzle(s), largest).Some?
    ensures exists at: Leaf :: MaySets.Within(largest, at) && VarValue(Swizzle(s), at) == Greatest(Swizzle(s), largest).value
  {
    hide AffineDivision.EvalRange, S.Eval, S.Signed;
    var tid := largest(Tid(X));
    var hi: int := if tid.Some? then AffineDivision.Low(tid.value, AffineDivision.LAST_THREAD) else AffineDivision.LAST_THREAD;
    assert IsLeaf(Tid(X)) && 0 <= leaf(Tid(X)) <= hi;
    var t, u := EvalRangeMet(s, 0, hi);
    var at := Put(leaf, Tid(X), u);
    assert MaySets.Within(largest, at);
    assert VarValue(Swizzle(s), at) == Greatest(Swizzle(s), largest).value;
  }

  // -- what a swizzle may set -----------------------------------------------------------------

  lemma {:induction false} NoThreadBits(b: S.XorSwizzle, n: nat)
    requires n <= |b.columns|
    ensures S.EvalBelow(b, 0, n) == b.constant
  {
    hide S.Power;
    if n > 0 {
      NoThreadBits(b, n - 1);
      QuotientIs(0, S.Power(n - 1), 0, 0);
    }
  }

  lemma {:induction false} OneThreadBit(b: S.XorSwizzle, j: nat, n: nat)
    requires n <= |b.columns| && j < |b.columns|
    ensures S.EvalBelow(b, S.Power(j), n) == if j < n then S.Xor(b.constant, b.columns[j]) else b.constant
  {
    hide S.Power, S.Xor;
    if n > 0 {
      OneThreadBit(b, j, n - 1);
      PowerBit(j, n - 1);
    }
  }

  lemma PowerBit(j: nat, i: nat)
    ensures S.BitSet(S.Power(j), i) <==> i == j
  {
    hide S.Power;
    if i < j {
      S.PowerSum(i, j - i);
      PowerNext(j - i - 1);
      QuotientIs(S.Power(j), S.Power(i), S.Power(j - i), 0);
    } else if i == j {
      QuotientIs(S.Power(j), S.Power(i), 1, 0);
    } else {
      PowerGrows(j, i - 1);
      PowerNext(i - 1);
      QuotientIs(S.Power(j), S.Power(i), 0, S.Power(j));
    }
  }

  /** Every bit a swizzle may set it sets at some thread of a block. */
  lemma SwizzleMaySetIsMet(b: S.XorSwizzle, i: nat) returns (t: nat)
    requires i in S.MaySet(b)
    ensures t < THREADS && i in S.Eval(b, t)
  {
    hide S.Power, S.Union;
    t := 0;
    NoThreadBits(b, |b.columns|);
    if i !in b.constant {
      S.UnionOnly(b.columns, i);
      var j: nat :| j < |b.columns| && i in b.columns[j];
      t := S.Power(j);
      OneThreadBit(b, j, |b.columns|);
      PowerGrows(j, 9);
      assert S.Power(9) == 512 by {
        PowerOfNine();
      }
    }
  }

  lemma PowerOfNine()
    ensures S.Power(9) == 512
  {
    PowerNext(0);
    PowerNext(1);
    PowerNext(2);
    PowerNext(3);
    PowerNext(4);
    PowerNext(5);
    PowerNext(6);
    PowerNext(7);
    PowerNext(8);
  }

  // -- terms apart -------------------------------------------------------------------------

  // A power of two times such a variable.
  ghost predicate Field(t: (Var, SymExpr), largest: Largest) {
    t.1.Const? && (exists k: nat :: k < 63 && t.1.c == S.Power(k)) && Filled(t.0, largest)
  }

  // The bits from the coefficient's to the greatest value's top one.
  ghost function FieldBits(t: (Var, SymExpr), largest: Largest): S.Bits
    requires Field(t, largest)
  {
    set i: nat | i < 64 && t.1.c <= S.Power(i) <= t.1.c * Top(t.0, largest)
  }

  ghost function TopSum(terms: Terms, largest: Largest): int
    requires forall j :: 0 <= j < |terms| ==> Field(terms[j], largest)
  {
    if terms == [] then 0 else
    var n := |terms| - 1;
    assert Field(terms[n], largest);
    TopSum(terms[..n], largest) + terms[n].1.c * Top(terms[n].0, largest)
  }

  // Such terms of roots of their own and a base, their bits apart, and their greatest sum below 2^128.
  ghost predicate Layout(terms: Terms, base: int, largest: Largest) {
    && 0 <= base <= MAX
    && (forall j :: 0 <= j < |terms| ==> Field(terms[j], largest) && FieldBits(terms[j], largest) !! Word(base))
    && (forall i, j :: 0 <= i < j < |terms| ==>
          Root(terms[i].0) != Root(terms[j].0) && FieldBits(terms[i], largest) !! FieldBits(terms[j], largest))
    && TopSum(terms, largest) + base < WIDE
  }

  lemma FieldMask(t: (Var, SymExpr), largest: Largest)
    requires Field(t, largest)
    ensures TermBits(t.0, t.1, largest).Some?
    ensures TermBits(t.0, t.1, largest).value.0 <= FieldBits(t, largest)
    ensures TermBits(t.0, t.1, largest).value.1 == t.1.c * Top(t.0, largest)
  {
    hide S.Power, LowestSet, ProductBits, Greatest;
    GreatestIsTop(t.0, largest);
    var c: nat := t.1.c;
    var k: nat :| k < 63 && c == S.Power(k);
    forall i | i in TermBits(t.0, t.1, largest).value.0 ensures i in FieldBits(t, largest) {
      assert i >= LowestSet(c);
      LowestOfPower(k);
      PowerGrows(k, i);
    }
  }

  lemma LowestOfPower(k: nat)
    ensures LowestSet(S.Power(k)) == k
  {
    hide S.Power, LowestSet;
    var l := LowestSet(S.Power(k));
    if l < k {
      S.PowerSum(l, k - l);
      PowerNext(k - l - 1);
      QuotientIs(S.Power(k), S.Power(l), S.Power(k - l), 0);
    } else if l > k {
      S.PowerSum(k, l - k);
      PowerNext(l - k - 1);
      assert S.Power(l) > S.Power(k) by {
        PowerGrows(k, l - 1);
        PowerNext(l - 1);
      }
      QuotientIs(S.Power(k), S.Power(l), 0, S.Power(k));
    }
  }

  // Each term's mask lies in its field's bits, and there is one for each.
  lemma {:induction false} LayoutMasks(terms: Terms, base: nat, largest: Largest) returns (masks: seq<S.Bits>)
    requires forall j :: 0 <= j < |terms| ==> Field(terms[j], largest)
    requires TopSum(terms, largest) + base < WIDE
    ensures MasksOf(terms, base, largest) == Some((masks, TopSum(terms, largest) + base)) && TopSum(terms, largest) >= 0
    ensures |masks| == |terms| && forall j :: 0 <= j < |terms| ==> masks[j] <= FieldBits(terms[j], largest)
  {
    hide TermBits, FieldBits, Top, Filled;
    masks := [];
    if terms != [] {
      var n := |terms| - 1;
      FieldMask(terms[n], largest);
      GreatestIsTop(terms[n].0, largest);
      FieldIsPositive(terms[n], largest);
      var front := LayoutMasks(terms[..n], base, largest);
      masks := front + [TermBits(terms[n].0, terms[n].1, largest).value.0];
    }
  }

  lemma FieldIsPositive(t: (Var, SymExpr), largest: Largest)
    requires Field(t, largest) && Top(t.0, largest) >= 0
    ensures t.1.c > 0 && t.1.c * Top(t.0, largest) >= 0
  {
  }

  lemma {:induction false} ApartSizes(masks: seq<S.Bits>)
    requires forall i, j :: 0 <= i < j < |masks| ==> masks[i] !! masks[j]
    ensures SizeSum(masks) == |S.Union(masks)|
  {
    if masks != [] {
      assert forall j :: 0 <= j < |masks| - 1 ==> masks[1..][j] == masks[j + 1];
      ApartSizes(masks[1..]);
      ApartUnion(masks[0], masks[1..]);
      assert |masks[0] + S.Union(masks[1..])| == |masks[0]| + |S.Union(masks[1..])|;
    }
  }

  lemma {:induction false} ApartUnion(b: S.Bits, masks: seq<S.Bits>)
    requires forall j :: 0 <= j < |masks| ==> b !! masks[j]
    ensures b !! S.Union(masks)
  {
    if masks != [] {
      assert forall j :: 0 <= j < |masks| - 1 ==> masks[1..][j] == masks[j + 1];
      ApartUnion(b, masks[1..]);
    }
  }

  lemma {:induction false} InUnion(masks: seq<S.Bits>, i: nat) returns (j: nat)
    requires i in S.Union(masks)
    ensures j < |masks| && i in masks[j]
  {
    j := 0;
    if i !in masks[0] {
      var j' := InUnion(masks[1..], i);
      j := j' + 1;
    }
  }

  // The mask of such terms: a bit of the base's, or of a field's.
  lemma LayoutBits(terms: Terms, base: nat, largest: Largest, i: nat) returns (j: nat)
    requires Layout(terms, base, largest)
    ensures SumBits(terms, base, largest).Some?
    ensures i in SumBits(terms, base, largest).value ==>
      i in Word(base) || (j < |terms| && i in FieldBits(terms[j], largest))
  {
    hide MasksOf, FieldBits, Field, Word, TopSum;
    var masks := LayoutMasks(terms, base, largest);
    var all := [Word(base)] + masks;
    forall x, y | 0 <= x < y < |all| ensures all[x] !! all[y] {
      if x > 0 {
        assert all[x] == masks[x - 1] && all[y] == masks[y - 1];
        assert FieldBits(terms[x - 1], largest) !! FieldBits(terms[y - 1], largest);
      } else {
        assert all[y] == masks[y - 1];
      }
    }
    ApartSizes(all);
    j := 0;
    if i in S.Union(all) {
      var n := InUnion(all, i);
      if n > 0 {
        j := n - 1;
        assert all[n] == masks[j];
      }
    }
  }

  /**
   * A sum's mask where terms share bits: from the lowest bit one of them or the base has, every one a number up to the
   * largest sum may set.
   */
  lemma SharedBitsAre(terms: Terms, base: nat, largest: Largest, i: nat)
    requires MasksOf(terms, base, largest).Some?
    requires var all := [Word(base)] + MasksOf(terms, base, largest).value.0; SizeSum(all) != |S.Union(all)|
    ensures var (masks, total) := MasksOf(terms, base, largest).value;
      var all := [Word(base)] + masks;
      && SumBits(terms, base, largest).Some?
      && (i in SumBits(terms, base, largest).value <==>
            i < 64 && S.Power(i) <= total && exists j, l :: 0 <= j < |all| && l in all[j] && l <= i)
  {
    hide MasksOf, Word, S.Power, S.Union;
    var (masks, total) := MasksOf(terms, base, largest).value;
    var all := [Word(base)] + masks;
    var low := LowestOf(all);
    if low == 64 {
      NoBits(all);
    }
  }

  lemma {:induction false} NoBits(masks: seq<S.Bits>)
    requires forall j, i :: 0 <= j < |masks| && i in masks[j] ==> i >= 64
    ensures SizeSum(masks) == |S.Union(masks)|
  {
    if masks != [] {
      assert masks[0] == {} by {
        NoneFrom(masks[0]);
      }
      assert forall j :: 0 <= j < |masks| - 1 ==> masks[1..][j] == masks[j + 1];
      NoBits(masks[1..]);
      assert S.Union(masks) == S.Union(masks[1..]);
    }
  }

  // Every index and counter 0.
  ghost function Zero(): Leaf {
    (v: Var) => 0
  }

  lemma {:induction false} ZeroValue(v: Var)
    requires IsLeaf(Root(v))
    ensures VarValue(v, Zero()) == 0
    decreases v
  {
    match v
    case Floor(x, d) =>
      ZeroValue(x);
      QuotientIs(0, d, 0, 0);
    case Rem(x, d) =>
      ZeroValue(x);
      QuotientIs(0, d, 0, 0);
    case _ =>
  }

  lemma FieldRoot(t: (Var, SymExpr), largest: Largest)
    requires Field(t, largest)
    ensures IsLeaf(Root(t.0)) && t.1.Const?
  {
    GreatestIsTop(t.0, largest);
    SpreadRoot(t.0, FromZero(largest));
  }

  // With one root raised only its term has a value.
  lemma {:induction false} OneRaised(terms: Terms, largest: Largest, x: Var, z: int, env: Env)
    requires forall j :: 0 <= j < |terms| ==> Field(terms[j], largest) && Root(terms[j].0) != x
    ensures TermsValue(terms, Put(Zero(), x, z), env) == 0
  {
    hide Field, Put, Zero, VarValue, Value, Root;
    if terms != [] {
      assert forall j :: 0 <= j < |terms| - 1 ==> terms[1..][j] == terms[j + 1];
      FieldRoot(terms[0], largest);
      ZeroValue(terms[0].0);
      ValueApart(terms[0].0, Zero(), x, z);
      OneRaised(terms[1..], largest, x, z, env);
    }
  }

  lemma {:induction false} OneTermRaised(terms: Terms, largest: Largest, j: nat, z: int, env: Env)
    requires (forall i :: 0 <= i < |terms| ==> Field(terms[i], largest)) && j < |terms|
    requires forall i, n :: 0 <= i < n < |terms| ==> Root(terms[i].0) != Root(terms[n].0)
    ensures terms[j].1.Const?
    ensures var leaf := Put(Zero(), Root(terms[j].0), z);
      TermsValue(terms, leaf, env) == terms[j].1.c * VarValue(terms[j].0, leaf)
  {
    hide Field, Put, Zero, VarValue, Value, Root;
    FieldRoot(terms[0], largest);
    FieldRoot(terms[j], largest);
    ConstValue(terms[0].1.c, env);
    assert forall i :: 0 <= i < |terms| - 1 ==> terms[1..][i] == terms[i + 1];
    if j == 0 {
      OneRaised(terms[1..], largest, Root(terms[0].0), z, env);
    } else {
      ZeroValue(terms[0].0);
      ValueApart(terms[0].0, Zero(), Root(terms[j].0), z);
      OneTermRaised(terms[1..], largest, j - 1, z, env);
    }
  }

  lemma {:induction false} AllZero(terms: Terms, largest: Largest, env: Env)
    requires forall j :: 0 <= j < |terms| ==> Field(terms[j], largest)
    ensures TermsValue(terms, Zero(), env) == 0
  {
    hide Field, Zero, VarValue, Value, Root;
    if terms != [] {
      assert forall j :: 0 <= j < |terms| - 1 ==> terms[1..][j] == terms[j + 1];
      FieldRoot(terms[0], largest);
      ZeroValue(terms[0].0);
      AllZero(terms[1..], largest, env);
    }
  }

  // A bit not set in `x` is once 2^i is added.
  lemma BitAdded(x: nat, i: nat)
    requires !S.BitSet(x, i)
    ensures S.BitSet(x + S.Power(i), i)
  {
    hide S.Power;
    QuotientIs(S.Power(i), S.Power(i), 1, 0);
    MultipleSum(S.Power(i), x, S.Power(i));
  }

  lemma WordSet(x: nat, i: nat)
    requires i < 64
    ensures i in Word(x) <==> S.BitSet(x, i)
  {
    hide S.BitSet;
  }

  // The value of the variable that makes its term 2^i.
  lemma FieldValue(t: (Var, SymExpr), largest: Largest, i: nat) returns (y: nat)
    requires Field(t, largest) && i in FieldBits(t, largest)
    ensures y <= Top(t.0, largest) && t.1.c * y == S.Power(i) && i < 64
  {
    hide S.Power, Top, Filled;
    var k: nat :| k < 63 && t.1.c == S.Power(k);
    if i < k {
      PowerGrows(i, k - 1);
      PowerNext(k - 1);
    }
    S.PowerSum(k, i - k);
    y := S.Power(i - k);
    if y > Top(t.0, largest) {
      Distributes(t.1.c, Top(t.0, largest), y - Top(t.0, largest));
      Grows(t.1.c, y - Top(t.0, largest));
    }
  }

  lemma PutWithin(largest: Largest, x: Var, z: int)
    requires MaySets.Within(largest, Zero()) && Reaches(x, z, largest)
    ensures MaySets.Within(largest, Put(Zero(), x, z))
  {
  }

  ghost predicate Reaches(x: Var, z: int, largest: Largest) {
    0 <= z && (!x.Unknown? && largest(x).Some? ==> z <= largest(x).value) && (x == Tid(X) ==> z < THREADS)
  }

  lemma {:induction false} RootBounded(v: Var, largest: Largest, z: int)
    requires Filled(v, largest) && RangeEnds.Bounded(Root(v), z, FromZero(largest))
    ensures Reaches(Root(v), z, largest)
    decreases v
  {
    match v
    case Floor(x, _) => RootBounded(x, largest, z);
    case Rem(x, _) => RootBounded(x, largest, z);
    case _ =>
  }

  /** Every bit of the mask of such terms and base is set by some value within the bounds. */
  lemma SumBitsMet(terms: Terms, base: nat, largest: Largest, i: nat, env: Env) returns (leaf: Leaf)
    requires Layout(terms, base, largest) && MaySets.Within(largest, Zero())
    requires SumBits(terms, base, largest).Some? ==> i in SumBits(terms, base, largest).value
    ensures SumBits(terms, base, largest).Some? && i < 64
    ensures MaySets.Within(largest, leaf) && S.BitSet(TermsValue(terms, leaf, env) + base, i)
  {
    hide S.Power, S.BitSet, SumBits, Filled, Top, MaySets.Within, Word, RangeEnds.Bounded, Reaches, Put, Zero, Root, VarValue, FieldBits, TopSum;
    var j := LayoutBits(terms, base, largest, i);
    WordBelow(base, i);
    if i in Word(base) {
      leaf := Zero();
      AllZero(terms, largest, env);
      WordSet(base, i);
    } else {
      var y := FieldValue(terms[j], largest, i);
      GreatestIsTop(terms[j].0, largest);
      var z := ValueTaken(terms[j].0, FromZero(largest), Zero(), y);
      RootBounded(terms[j].0, largest, z);
      PutWithin(largest, Root(terms[j].0), z);
      leaf := Put(Zero(), Root(terms[j].0), z);
      OneTermRaised(terms, largest, j, z, env);
      WordSet(base, i);
      BitAdded(base, i);
    }
  }

  lemma WordBelow(x: nat, i: nat)
    ensures i in Word(x) ==> i < 64
  {
  }

  // -- variables read as xors ---------------------------------------------------------------

  // The thread index or a swizzle, under floors and remainders by powers of two.
  ghost predicate Bitwise(v: Var)
    decreases v
  {
    match v
    case Tid(X) => true
    case Floor(x, d) => Bitwise(x) && PowerOfTwo(d)
    case Rem(x, m) => Bitwise(x) && PowerOfTwo(m)
    case Swizzle(_) => true
    case _ => false
  }

  ghost predicate PowerOfTwo(d: int) {
    exists k: nat :: d == S.Power(k)
  }

  /** Just these are read as xors of the thread index's bits. */
  lemma {:induction false} VarSwizzleWhere(v: Var)
    ensures VarSwizzle(v).Some? <==> Bitwise(v)
    decreases v
  {
    hide S.Power, SwizzleForms.Shifted, SwizzleForms.Masked, IsPower;
    match v
    case Floor(x, d) =>
      VarSwizzleWhere(x);
      PowerWhere(d);
      assert VarSwizzle(v).Some? <==> VarSwizzle(x).Some? && IsPower(d);
    case Rem(x, m) =>
      VarSwizzleWhere(x);
      PowerWhere(m);
      assert VarSwizzle(v).Some? <==> VarSwizzle(x).Some? && IsPower(m);
    case _ =>
  }

  lemma PowerWhere(d: Divisor)
    ensures IsPower(d) <==> PowerOfTwo(d)
  {
    hide S.Power, LowestSet;
    if k: nat :| d == S.Power(k) {
      LowestOfPower(k);
    }
  }

  // -- forms read as one xor --------------------------------------------------------------

  // What a term's xor may set.
  ghost function PieceBits(t: (Var, SymExpr)): S.Bits
    requires TermSwizzle(t.0, t.1).Some?
  {
    S.MaySet(TermSwizzle(t.0, t.1).value)
  }

  // Every term is read as an xor, and no two of them, nor one and `used`, may set one bit.
  ghost predicate Apart(terms: Terms, used: S.Bits) {
    && (forall i :: 0 <= i < |terms| ==> TermSwizzle(terms[i].0, terms[i].1).Some? && PieceBits(terms[i]) !! used)
    && (forall i, j :: 0 <= i < j < |terms| ==> PieceBits(terms[i]) !! PieceBits(terms[j]))
  }

  lemma ApartRest(terms: Terms, used: S.Bits)
    requires terms != [] && TermSwizzle(terms[0].0, terms[0].1).Some?
    ensures Apart(terms, used) <==> PieceBits(terms[0]) !! used && Apart(terms[1..], used + PieceBits(terms[0]))
  {
    hide TermSwizzle, PieceBits;
    assert forall i :: 0 <= i < |terms| - 1 ==> terms[1..][i] == terms[i + 1];
    if PieceBits(terms[0]) !! used && Apart(terms[1..], used + PieceBits(terms[0])) {
      forall i | 0 <= i < |terms| ensures TermSwizzle(terms[i].0, terms[i].1).Some? && PieceBits(terms[i]) !! used {
        assert i > 0 ==> terms[1..][i - 1] == terms[i];
      }
      forall i, j | 0 <= i < j < |terms| ensures PieceBits(terms[i]) !! PieceBits(terms[j]) {
        assert terms[1..][j - 1] == terms[j] && (i > 0 ==> terms[1..][i - 1] == terms[i]);
      }
    }
    if Apart(terms, used) {
      forall i | 0 <= i < |terms[1..]|
        ensures TermSwizzle(terms[1..][i].0, terms[1..][i].1).Some? && PieceBits(terms[1..][i]) !! used + PieceBits(terms[0])
      {
        assert terms[1..][i] == terms[i + 1];
      }
    }
  }

  lemma {:induction false} JoinedWhere(terms: Terms, out: S.XorSwizzle, used: S.Bits)
    ensures Joined(terms, out, used).Some? <==> Apart(terms, used)
    ensures Apart(terms, used) ==> forall b: nat :: b in Joined(terms, out, used).value.1 <==>
      b in used || exists i :: 0 <= i < |terms| && b in PieceBits(terms[i])
  {
    hide TermSwizzle, S.MaySet, Together;
    if terms != [] {
      var times := TermSwizzle(terms[0].0, terms[0].1);
      if times.Some? {
        ApartRest(terms, used);
        NoneShared(used, PieceBits(terms[0]));
        var more := used + PieceBits(terms[0]);
        JoinedWhere(terms[1..], Together(out, times.value), more);
        if Apart(terms, used) {
          PiecesAre(terms);
        }
      }
    }
  }

  lemma NoneShared(a: S.Bits, b: S.Bits)
    ensures a * b == {} <==> b !! a
  {
    forall i ensures i in a && i in b <==> i in a * b {
    }
  }

  lemma PiecesAre(terms: Terms)
    requires terms != [] && forall i :: 0 <= i < |terms| ==> TermSwizzle(terms[i].0, terms[i].1).Some?
    ensures forall b: nat ::
      (exists i :: 0 <= i < |terms| && b in PieceBits(terms[i])) <==>
      b in PieceBits(terms[0]) || exists i :: 0 <= i < |terms| - 1 && b in PieceBits(terms[1..][i])
  {
    hide TermSwizzle, PieceBits;
    assert forall i :: 0 <= i < |terms| - 1 ==> terms[1..][i] == terms[i + 1];
    forall b: nat, i | 0 < i < |terms| && b in PieceBits(terms[i])
      ensures exists j :: 0 <= j < |terms| - 1 && b in PieceBits(terms[1..][j])
    {
      assert terms[1..][i - 1] == terms[i];
    }
  }

  /**
   * A form is read as one xor just where its base is no negative constant, every term is an xor times a constant that
   * carries nothing, no two of them or of the base may set one bit, and none a bit from 62 on.
   */
  lemma FormSwizzleWhere(a: AffineExpr)
    ensures SwizzleOf(a).Some? <==>
      && a.base.Const? && a.base.c >= 0
      && Apart(a.terms, Word(a.base.c))
      && (forall b :: b in Word(a.base.c) ==> b < S.ROOM)
      && (forall i, b :: 0 <= i < |a.terms| && b in PieceBits(a.terms[i]) ==> b < S.ROOM)
    ensures forall i :: 0 <= i < |a.terms| ==>
      (TermSwizzle(a.terms[i].0, a.terms[i].1).Some? <==>
         Bitwise(a.terms[i].0) && VarSwizzle(a.terms[i].0).Some? && a.terms[i].1.Const? && a.terms[i].1.c >= 0 &&
         S.CarriesNothing(S.MaySet(VarSwizzle(a.terms[i].0).value), a.terms[i].1.c))
  {
    hide Joined, Word, Constant, PieceBits, VarSwizzle, Bitwise, S.CarriesNothing, S.MaySet, S.Multiple, Apart;
    forall i | 0 <= i < |a.terms| ensures VarSwizzle(a.terms[i].0).Some? <==> Bitwise(a.terms[i].0) {
      VarSwizzleWhere(a.terms[i].0);
    }
    if a.base.Const? && a.base.c >= 0 {
      JoinedWhere(a.terms, Constant(a.base.c), Word(a.base.c));
      if Apart(a.terms, Word(a.base.c)) {
        ApartIsRead(a.terms, Word(a.base.c));
        AllBelow(a.terms, Word(a.base.c), Joined(a.terms, Constant(a.base.c), Word(a.base.c)).value.1);
      }
    }
  }

  lemma AllBelow(terms: Terms, used: S.Bits, all: S.Bits)
    requires forall i :: 0 <= i < |terms| ==> TermSwizzle(terms[i].0, terms[i].1).Some?
    requires forall b: nat :: b in all <==> b in used || exists i :: 0 <= i < |terms| && b in PieceBits(terms[i])
    ensures (forall b :: b in all ==> b < S.ROOM) <==>
      && (forall b :: b in used ==> b < S.ROOM)
      && (forall i, b :: 0 <= i < |terms| && b in PieceBits(terms[i]) ==> b < S.ROOM)
  {
    hide TermSwizzle, PieceBits;
    if forall b :: b in all ==> b < S.ROOM {
      forall i, b | 0 <= i < |terms| && b in PieceBits(terms[i]) ensures b < S.ROOM {
        assert b in all;
      }
    }
  }

  lemma ApartIsRead(terms: Terms, used: S.Bits)
    requires Apart(terms, used)
    ensures forall i :: 0 <= i < |terms| ==> TermSwizzle(terms[i].0, terms[i].1).Some?
  {
    hide TermSwizzle;
  }

  // -- whole forms --------------------------------------------------------------------------

  lemma {:induction false} FormBitsShrink(a: AffineExpr, largest: Largest, k: nat, n: nat)
    requires 1 <= k <= n <= 63
    ensures FormBits(a, largest, n) <= FormBits(a, largest, k)
    decreases n
  {
    hide SumBits, BaseModulo, Undivided, S.Power, From;
    if k < n {
      FormBitsShrink(a, largest, k, n - 1);
    }
  }

  /** The mask of such a form has just the bits its values set within the bounds. */
  lemma MaySetIsMet(a: AffineExpr, largest: Largest, i: nat, env: Env) returns (leaf: Leaf)
    requires a.base.Const? && Layout(a.terms, a.base.c, largest) && MaySets.Within(largest, Zero())
    requires i in FormBits(a, largest, 63)
    ensures i < 64 && MaySets.Within(largest, leaf) && S.BitSet(FormValue(a, leaf, env), i)
  {
    hide S.Power, S.BitSet, SumBits, MaySets.Within, TermsValue, Value, Layout, Zero, FormBits;
    FormBitsShrink(a, largest, 1, 63);
    FormBitsFirst(a, largest);
    ConstValue(a.base.c, env);
    LayoutBase(a.terms, a.base.c, largest);
    leaf := SumBitsMet(a.terms, a.base.c, largest, i, env);
  }

  lemma FormBitsFirst(a: AffineExpr, largest: Largest)
    requires a.base.Const?
    ensures var whole := SumBits(a.terms, a.base.c, largest);
      whole.Some? ==> FormBits(a, largest, 1) == whole.value
  {
    hide SumBits;
  }

  lemma LayoutBase(terms: Terms, base: int, largest: Largest)
    requires Layout(terms, base, largest)
    ensures 0 <= base <= MAX
  {
  }

  // What a base of a constant, or one seen to be a multiple, leaves modulo `p`.
  function LeftOver(base: SymExpr, p: Divisor): int {
    if base.Const? then base.c % p else 0
  }

  /** And below bit k those of what is left once multiples of 2^k are dropped, where that lies below 2^k. */
  lemma LowBitsAreMet(a: AffineExpr, largest: Largest, k: nat, i: nat, env: Env) returns (leaf: Leaf)
    requires 1 <= k < 63 && MaySets.Within(largest, Zero()) && 1 <= S.Power(k) <= MAX
    requires a.base.Const? || DivisibleBy(a.base, S.Power(k))
    requires Layout(Undivided(a.terms, S.Power(k)), LeftOver(a.base, S.Power(k)), largest)
    requires FieldsBelow(Undivided(a.terms, S.Power(k)), largest, k)
    requires i < k && i in FormBits(a, largest, 63)
    ensures MaySets.Within(largest, leaf) && S.BitSet(FormValue(a, leaf, env), i)
  {
    hide S.Power, S.BitSet, SumBits, MaySets.Within, TermsValue, FormValue, Value, Layout, Zero, Undivided, BaseModulo,
      FieldBits, FormBits, FieldsBelow, LeftOver, DivisibleBy;
    var p: Divisor := S.Power(k);
    LeavesOver(a.base, p);
    var rest, base := Undivided(a.terms, p), BaseModulo(a.base, p).value;
    LayoutBase(rest, base, largest);
    BaseModuloBelow(a.base, p);
    LowMask(rest, base, largest, k);
    FormBitsShrink(a, largest, k + 1, 63);
    NarrowedLow(a, largest, k, i);
    leaf := SumBitsMet(rest, base, largest, i, env);
    SameLowBit(a, k, p, i, leaf, env);
  }

  // The form and what is left of it have the same bits below k.
  lemma SameLowBit(a: AffineExpr, k: nat, p: Divisor, i: nat, leaf: Leaf, env: Env)
    requires p == S.Power(k) && i < k && BaseModulo(a.base, p).Some?
    ensures S.BitSet(FormValue(a, leaf, env), i) ==
            S.BitSet(TermsValue(Undivided(a.terms, p), leaf, env) + BaseModulo(a.base, p).value, i)
  {
    hide S.Power, S.BitSet, TermsValue, Value, Undivided, BaseModulo;
    UndividedValue(a.terms, p, leaf, env);
    BaseModuloValue(a.base, p, env);
    var rest, base := TermsValue(Undivided(a.terms, p), leaf, env), BaseModulo(a.base, p).value;
    var x, y := FormValue(a, leaf, env), rest + base;
    MultipleSum(TermsValue(a.terms, leaf, env) - rest, Value(a.base, env) - base, p);
    assert x - y == TermsValue(a.terms, leaf, env) - rest + (Value(a.base, env) - base);
    SameBit(x, y, k, i);
  }

  lemma LeavesOver(base: SymExpr, p: Divisor)
    requires base.Const? || DivisibleBy(base, p)
    ensures BaseModulo(base, p) == Some(LeftOver(base, p))
  {
  }

  lemma BaseModuloBelow(base: SymExpr, p: Divisor)
    requires BaseModulo(base, p).Some?
    ensures 0 <= BaseModulo(base, p).value < p
  {
  }

  ghost predicate FieldsBelow(terms: Terms, largest: Largest, k: nat) {
    forall j :: 0 <= j < |terms| ==> Field(terms[j], largest) && forall b :: b in FieldBits(terms[j], largest) ==> b < k
  }

  // The mask of what is left lies below bit k.
  lemma LowMask(terms: Terms, base: nat, largest: Largest, k: nat)
    requires Layout(terms, base, largest) && base < S.Power(k)
    requires FieldsBelow(terms, largest, k)
    ensures SumBits(terms, base, largest).Some? && forall b :: b in SumBits(terms, base, largest).value ==> b < k
  {
    hide S.Power, S.BitSet, SumBits, Word, FieldBits, Layout;
    var any := LayoutBits(terms, base, largest, 0);
    forall b | b in SumBits(terms, base, largest).value ensures b < k {
      var j := LayoutBits(terms, base, largest, b);
      WordBelow(base, b);
      if b in Word(base) && b >= k {
        PowerGrows(k, b);
        QuotientIs(base, S.Power(b), 0, base);
        WordSet(base, b);
        NotSet(base, b);
      }
    }
  }

  lemma NotSet(x: nat, b: nat)
    requires x / S.Power(b) == 0
    ensures !S.BitSet(x, b)
  {
    hide S.Power;
  }

  lemma NarrowedLow(a: AffineExpr, largest: Largest, k: nat, i: nat)
    requires 1 <= k < 63 && i < k && i in FormBits(a, largest, k + 1) && 1 <= S.Power(k) <= MAX
    requires BaseModulo(a.base, S.Power(k)).Some?
    requires var rest := SumBits(Undivided(a.terms, S.Power(k)), BaseModulo(a.base, S.Power(k)).value, largest);
      rest.Some? && forall b :: b in rest.value ==> b < k
    ensures i in SumBits(Undivided(a.terms, S.Power(k)), BaseModulo(a.base, S.Power(k)).value, largest).value
  {
    hide S.Power, SumBits, Undivided, BaseModulo, FormBits;
    FormBitsNext(a, largest, k);
  }

  lemma FormBitsNext(a: AffineExpr, largest: Largest, k: nat)
    requires 1 <= k < 63
    ensures FormBits(a, largest, k + 1) == Narrowed(a, largest, k, FormBits(a, largest, k))
  {
    hide S.Power, SumBits, Undivided, BaseModulo, Narrowed;
  }
}
