/** Bit masks that cover whatever an affine form comes to. */
module MaySets {
  import opened Wrappers
  import opened Divisions
  import opened SymExprs
  import opened SymExprValues
  import opened SymQuotients
  import opened AffineExprs
  import opened SwizzleForms
  import AffineDivision
  import S = Swizzles

  // A variable's greatest value, where one is given.
  type Largest = Var -> Option<Int64>

  type Terms = seq<(Var, SymExpr)>

  // Every index and counter is at most its greatest value and never negative, and the thread index in a block.
  ghost predicate Within(largest: Largest, leaf: Leaf) {
    && InBlock(leaf)
    && forall v: Var :: IsLeaf(v) && !v.Unknown? && largest(v).Some? ==> 0 <= leaf(v) <= largest(v).value
  }

  /** An upper bound on a variable; the code takes it for one of a variable that is at least 0 too. */
  function Greatest(v: Var, largest: Largest): Option<Int64>
    decreases v
  {
    match v
    case Rem(_, m) => Some(m - 1)
    case Floor(x, d) =>
      (match Greatest(x, largest)
       case Some(hi) => FloorFits(hi, d); Some(hi / d)
       case None => None)
    case Swizzle(s) =>
      var tid := largest(Tid(X));
      Some(AffineDivision.SwizzleRange(s, if tid.Some? then Some((0, tid.value)) else None).1)
    case Unknown(_) => None
    case _ => largest(v)
  }

  // No swizzle the variable takes its sign from sets bit 63.
  ghost predicate AtLeastZero(v: Var, leaf: Leaf)
    decreases v
  {
    match v
    case Floor(x, _) => AtLeastZero(x, leaf)
    case Swizzle(s) => 63 !in S.Eval(s, leaf(Tid(X)))
    case _ => true
  }

  /** A variable is never above its greatest value, and below zero only where a swizzle's sign bit is set. */
  lemma {:induction false} GreatestHolds(v: Var, largest: Largest, leaf: Leaf)
    requires Within(largest, leaf) && Greatest(v, largest).Some?
    ensures VarValue(v, leaf) <= Greatest(v, largest).value
    ensures VarValue(v, leaf) >= 0 <==> AtLeastZero(v, leaf)
    decreases v
  {
    match v
    case Rem(_, _) =>
    case Floor(x, d) =>
      hide S.EvalBelow, S.NumberBelow, S.Power, Within;
      GreatestHolds(x, largest, leaf);
      FloorGrows(VarValue(x, leaf), Greatest(x, largest).value, d);
      FloorSign(VarValue(x, leaf), d);
    case Swizzle(s) =>
      GreatestOfSwizzle(s, largest, leaf);
    case _ =>
  }

  lemma GreatestOfSwizzle(s: S.XorSwizzle, largest: Largest, leaf: Leaf)
    requires Within(largest, leaf)
    ensures VarValue(Swizzle(s), leaf) <= Greatest(Swizzle(s), largest).value
    ensures VarValue(Swizzle(s), leaf) >= 0 <==> AtLeastZero(Swizzle(s), leaf)
  {
    hide S.EvalBelow, S.NumberBelow, S.Power;
    assert IsLeaf(Tid(X));
    S.NumberRange(S.Eval(s, leaf(Tid(X))), 64);
  }

  lemma FloorSign(x: int, d: Divisor)
    ensures x / d >= 0 <==> x >= 0
  {
    FloorAtMost(x, d, -1);
  }

  // -- bits of numbers --------------------------------------------------------------------

  function EveryBelow(n: nat): (b: S.Bits)
    requires n <= 64
    ensures forall i: nat :: i in b <==> i < n
  {
    if n == 0 then {} else EveryBelow(n - 1) + {n - 1}
  }

  // The bits from `k` up.
  function From(k: nat): S.Bits {
    set i | i in EveryBelow(64) && i >= k
  }

  // The bits a number up to `n` may set.
  function Upto(n: nat): S.Bits {
    set i: nat | i < 64 && S.Power(i) <= n
  }

  // The low 64 bits of `x` are among the mask's.
  ghost predicate Sets(x: int, mask: S.Bits) {
    forall i: nat :: i < 64 && S.BitSet(x, i) ==> i in mask
  }

  lemma UptoSets(x: int, n: nat)
    requires 0 <= x <= n
    ensures Sets(x, Upto(n))
  {
    hide S.Power;
    forall i: nat | i < 64 && S.BitSet(x, i) ensures i in Upto(n) {
      var p := S.Power(i);
      assert x == p * (x / p) + x % p;
      if x < p {
        QuotientIs(x, p, 0, x);
      }
    }
  }

  /** Numbers apart by a multiple of 2^k have the same bits below `k`. */
  lemma SameBit(x: int, y: int, k: nat, i: nat)
    requires i < k && (x - y) % S.Power(k) == 0
    ensures S.BitSet(x, i) == S.BitSet(y, i)
  {
    hide S.Power;
    var p, q := S.Power(i), S.Power(k - i - 1);
    S.PowerSum(i, k - i);
    assert S.Power(k - i) == 2 * q by { PowerNext(k - i - 1); }
    var m := (x - y) / S.Power(k);
    assert x - y == S.Power(k) * m;
    Associates(p, 2 * q, m);
    Associates(2, q, m);
    QuotientIs(x - y, p, 2 * (q * m), 0);
    MultipleSum(x - y, y, p);
    MultipleSum(2 * (q * m), y / p, 2);
  }

  lemma PowerNext(n: nat)
    ensures S.Power(n + 1) == 2 * S.Power(n)
  {
  }

  lemma LowClear(x: int, k: nat)
    requires x % S.Power(k) == 0
    ensures Sets(x, From(k))
  {
    hide S.Power;
    forall i: nat | i < 64 && S.BitSet(x, i) ensures i in From(k) {
      if i < k {
        SameBit(x, 0, k, i);
        QuotientIs(0, S.Power(i), 0, 0);
      }
    }
  }

  lemma SetsBoth(x: int, a: S.Bits, b: S.Bits)
    requires Sets(x, a) && Sets(x, b)
    ensures Sets(x, a * b)
  {
  }

  lemma BitsSet(x: int, mask: S.Bits)
    ensures Sets(x, mask) <==> S.BitsBelow(x, 64) <= mask
  {
    hide S.BitSet;
  }

  // Two numbers whose parts below `w` make `n` differ from it by a multiple of `w`.
  lemma SumIsWhole(x: nat, y: nat, w: int, n: int)
    requires w > 0 && n == x % w + y % w
    ensures (x + y - n) % w == 0
  {
    assert x == w * (x / w) + x % w;
    assert y == w * (y / w) + y % w;
    Distributes(w, x / w, y / w);
    QuotientIs(x + y - n, w, x / w + y / w, 0);
  }

  /** Numbers that set no bit in common add without carrying. */
  lemma AddsApart(x: nat, y: nat, a: S.Bits, b: S.Bits)
    requires Sets(x, a) && Sets(y, b) && a * b == {}
    ensures Sets(x + y, a + b)
  {
    hide S.Power, S.NumberBelow, S.BitSet;
    var bitsX, bitsY: S.Bits := S.BitsBelow(x, 64), S.BitsBelow(y, 64);
    NoneInBoth(a, b);
    BitsSet(x, a);
    BitsSet(y, b);
    S.BitsMake(x, 64);
    S.BitsMake(y, 64);
    S.DisjointSum(bitsX, bitsY, 64);
    var n := S.NumberBelow(bitsX + bitsY, 64);
    SumIsWhole(x, y, S.Power(64), n);
    forall i: nat | i < 64 && S.BitSet(x + y, i) ensures i in a + b {
      SameBit(x + y, n, 64, i);
      S.MakeBits(bitsX + bitsY, 64, i);
    }
  }

  /** A number setting only bits from `k` up is a multiple of 2^k. */
  lemma MaskMultiple(x: nat, mask: S.Bits, k: nat)
    requires Sets(x, mask) && k <= 64 && forall i :: i in mask ==> i >= k
    ensures x % S.Power(k) == 0
  {
    hide S.Power, S.NumberBelow, S.BitSet;
    S.BitsMake(x, k);
    assert S.BitsBelow(x, k) == {};
    S.NoBits(k);
  }

  // -- masks of terms ---------------------------------------------------------------------

  // The variable is not negative, and its word, where it has one, is its own.
  ghost predicate Clear(v: Var, leaf: Leaf) {
    AtLeastZero(v, leaf) && Upright(v, leaf)
  }

  ghost predicate ClearTerms(terms: Terms, leaf: Leaf) {
    forall i :: 0 <= i < |terms| ==> Clear(terms[i].0, leaf)
  }

  /** Variables of swizzles below 2^62 are clear wherever they stand. */
  lemma {:induction false} NarrowIsClear(v: Var, leaf: Leaf)
    requires Narrow(v)
    ensures Clear(v, leaf)
    decreases v
  {
    NarrowIsUpright(v, leaf);
    match v
    case Floor(x, _) => NarrowIsClear(x, leaf);
    case Swizzle(s) => S.EvalMaySet(s, leaf(Tid(X)), |s.columns|);
    case _ =>
  }

  // What the value of each term may set.
  ghost predicate Masked(terms: Terms, masks: seq<S.Bits>, largest: Largest) {
    |masks| == |terms| && forall j :: 0 <= j < |terms| ==> TermMasked(terms[j], masks[j], largest)
  }

  ghost predicate TermMasked(t: (Var, SymExpr), mask: S.Bits, largest: Largest) {
    forall leaf: Leaf, env: Env :: Within(largest, leaf) && Clear(t.0, leaf) ==>
      TermProduct(t, leaf, env) >= 0 && Sets(TermProduct(t, leaf, env), mask)
  }

  ghost predicate Bounded(terms: Terms, top: nat, largest: Largest) {
    forall leaf: Leaf, env: Env :: Within(largest, leaf) && ClearTerms(terms, leaf) ==> 0 <= TermsValue(terms, leaf, env) <= top
  }

  ghost function ProductBits(v: Var, c: nat): S.Bits {
    var read := VarSwizzle(v);
    if read.Some? && S.CarriesNothing(S.MaySet(read.value), c) then S.MaySet(S.Multiple(read.value, c)) else EveryBelow(64)
  }

  // What a term may set and its greatest value: none where it is not a positive constant times a bounded variable.
  ghost function TermBits(v: Var, c: SymExpr, largest: Largest): Option<(S.Bits, nat)> {
    var hi := Greatest(v, largest);
    if !c.Const? || c.c <= 0 || hi.None? || hi.value < 0 then None
    else Some((Upto(ProductOf(c.c, hi.value)) * From(LowestSet(c.c)) * ProductBits(v, c.c), ProductOf(c.c, hi.value)))
  }

  // Each term's bits, and the greatest sum with the base, where all are bounded and it stays below 2^128.
  ghost function MasksOf(terms: Terms, base: nat, largest: Largest): Option<(seq<S.Bits>, nat)> {
    if terms == [] then Some(([], base)) else
    var n := |terms| - 1;
    match (MasksOf(terms[..n], base, largest), TermBits(terms[n].0, terms[n].1, largest))
    case (Some((masks, total)), Some((mask, top))) => if total + top >= WIDE then None else Some((masks + [mask], total + top))
    case _ => None
  }

  /**
   * A sum's mask: of disjoint terms their union; of others every bit from the lowest any has to the top one of the
   * largest sum.
   */
  ghost function SumBits(terms: Terms, base: int, largest: Largest): Option<S.Bits> {
    if base < 0 then None else
    match MasksOf(terms, base, largest)
    case None => None
    case Some((masks, total)) =>
      var all := [Word(base)] + masks;
      if SizeSum(all) == |S.Union(all)| then Some(S.Union(all))
      else Some(Upto(total) * From(if LowestOf(all) == 64 then 0 else LowestOf(all)))
  }

  lemma {:induction false} NoMasks(terms: Terms, i: nat, base: nat, largest: Largest)
    requires i <= |terms| && MasksOf(terms[..i], base, largest).None?
    ensures MasksOf(terms, base, largest).None?
    decreases |terms|
  {
    hide TermBits;
    if i < |terms| {
      assert terms[..|terms| - 1][..i] == terms[..i];
      NoMasks(terms[..|terms| - 1], i, base, largest);
    } else {
      assert terms[..i] == terms;
    }
  }

  // Which bits the product of a variable by a positive constant sets, where it is an xor of the thread index's.
  method ProductMask(v: Var, c: nat) returns (mask: S.Bits)
    requires c > 0
    ensures mask == ProductBits(v, c)
    ensures forall leaf: Leaf :: InBlock(leaf) && Upright(v, leaf) ==> Sets(c * VarValue(v, leaf), mask)
  {
    hide S.Power, S.NumberBelow, S.MaySet, S.EvalBelow, S.CarriesNothing, S.Multiple, VarSwizzle, VarValue, S.BitSet;
    mask := EveryBelow(64);
    var read := VarSwizzle(v);
    if read.Some? {
      var times := S.Times(read.value, c);
      if times.Some? {
        mask := S.MaySet(times.value);
        forall leaf: Leaf | InBlock(leaf) && Upright(v, leaf) ensures Sets(c * VarValue(v, leaf), mask) {
          ProductSets(v, c, read.value, leaf);
        }
      }
    }
  }

  lemma ProductSets(v: Var, c: nat, read: S.XorSwizzle, leaf: Leaf)
    requires InBlock(leaf) && VarSwizzle(v) == Some(read) && Upright(v, leaf) && S.CarriesNothing(S.MaySet(read), c)
    ensures Sets(c * VarValue(v, leaf), S.MaySet(S.Multiple(read, c)))
  {
    hide S.Power, S.NumberBelow, S.MaySet, S.EvalBelow, S.CarriesNothing, S.Multiple, VarSwizzle, VarValue, S.BitSet;
    var t := leaf(Tid(X));
    var product := S.Multiple(read, c);
    VarSwizzleValue(v, leaf);
    assert Slip(Same) == 0;
    S.MultipleIsTimes(read, c, t);
    S.EvalMaySet(product, t, |product.columns|);
    forall i: nat | i < 64 && S.BitSet(c * VarValue(v, leaf), i) ensures i in S.MaySet(product) {
      S.MakeBits(S.Eval(product, t), 64, i);
    }
  }

  function ProductOf(c: nat, hi: nat): nat {
    c * hi
  }

  // The greatest value of a term, what it may set, or none where it is not a positive constant times a bounded
  // variable.
  method TermMask(v: Var, c: SymExpr, largest: Largest) returns (r: Option<(S.Bits, nat)>)
    ensures r == TermBits(v, c, largest)
    ensures r.Some? ==> TermMasked((v, c), r.value.0, largest)
    ensures r.Some? ==> forall leaf: Leaf, env: Env :: Within(largest, leaf) && Clear(v, leaf) ==> 0 <= TermProduct((v, c), leaf, env) <= r.value.1
  {
    hide S.Power, S.NumberBelow, VarValue, S.BitSet, LowestSet, Upto, From, TermProduct, Sets, ProductOf, ProductBits, Greatest, AtLeastZero, Upright;
    if !c.Const? || c.c <= 0 {
      return None;
    }
    var hi := Greatest(v, largest);
    if hi.None? || hi.value < 0 {
      return None;
    }
    var top := ProductOf(c.c, hi.value);
    var product := ProductMask(v, c.c);
    var mask: S.Bits := Upto(top) * From(LowestSet(c.c)) * product;
    forall leaf: Leaf, env: Env | Within(largest, leaf) && Clear(v, leaf)
      ensures 0 <= TermProduct((v, c), leaf, env) <= top && Sets(TermProduct((v, c), leaf, env), mask)
    {
      TermSets(v, c.c, largest, leaf, env, hi.value, product);
    }
    r := Some((mask, top));
  }

  lemma TermSets(v: Var, c: Int64, largest: Largest, leaf: Leaf, env: Env, hi: nat, product: S.Bits)
    requires Within(largest, leaf) && Clear(v, leaf) && c > 0 && Greatest(v, largest) == Some(hi)
    requires Sets(c * VarValue(v, leaf), product)
    ensures 0 <= TermProduct((v, Const(c)), leaf, env) <= ProductOf(c, hi)
    ensures Sets(TermProduct((v, Const(c)), leaf, env), Upto(ProductOf(c, hi)) * From(LowestSet(c)) * product)
  {
    hide S.Power, S.NumberBelow, VarValue, S.BitSet, LowestSet, Upto, From, Sets, Greatest;
    GreatestHolds(v, largest, leaf);
    var y, x := VarValue(v, leaf), TermProduct((v, Const(c)), leaf, env);
    ConstValue(c, env);
    Between(c, y, hi);
    UptoSets(x, c * hi);
    MultipleTimes(c, y, S.Power(LowestSet(c)));
    LowClear(x, LowestSet(c));
    SetsBoth(x, Upto(c * hi), From(LowestSet(c)));
    SetsBoth(x, Upto(c * hi) * From(LowestSet(c)), product);
  }

  lemma Between(c: nat, y: int, hi: int)
    requires 0 <= y <= hi
    ensures 0 <= c * y <= c * hi
  {
    Distributes(c, y, hi - y);
    assert c * (hi - y) >= 0;
  }

  // -- sums ---------------------------------------------------------------------------------

  function SizeSum(masks: seq<S.Bits>): nat {
    if masks == [] then 0 else |masks[0]| + SizeSum(masks[1..])
  }

  lemma {:induction false} UnionSize(masks: seq<S.Bits>)
    ensures |S.Union(masks)| <= SizeSum(masks)
  {
    if masks != [] {
      UnionSize(masks[1..]);
    }
  }

  /** Masks as large together as their union meet nowhere. */
  lemma ApartBySize(masks: seq<S.Bits>)
    requires masks != [] && SizeSum(masks) == |S.Union(masks)|
    ensures masks[0] * S.Union(masks[1..]) == {} && SizeSum(masks[1..]) == |S.Union(masks[1..])|
  {
    var a, b := masks[0], S.Union(masks[1..]);
    UnionSize(masks[1..]);
    assert |a + b| == |a| + |b| - |a * b|;
    assert |a * b| == 0;
  }

  /** Terms whose masks are disjoint add up bit by bit: the sum sets no bit outside the masks. */
  lemma {:induction false} SumApart(terms: Terms, masks: seq<S.Bits>, largest: Largest, leaf: Leaf, env: Env)
    requires Masked(terms, masks, largest) && Within(largest, leaf) && ClearTerms(terms, leaf) && SizeSum(masks) == |S.Union(masks)|
    ensures TermsValue(terms, leaf, env) >= 0 && Sets(TermsValue(terms, leaf, env), S.Union(masks))
  {
    hide S.Power, S.NumberBelow, S.BitSet, Sets, VarValue, Value, Within, TermProduct;
    if terms == [] {
      ZeroSets();
    } else {
      ApartBySize(masks);
      SumApart(terms[1..], masks[1..], largest, leaf, env);
      assert TermMasked(terms[0], masks[0], largest);
      TermProductIs(terms[0], leaf, env);
      AddsApart(TermProduct(terms[0], leaf, env), TermsValue(terms[1..], leaf, env), masks[0], S.Union(masks[1..]));
    }
  }

  lemma ZeroSets()
    ensures Sets(0, {})
  {
    hide S.Power;
    forall i: nat | i < 64 ensures !S.BitSet(0, i) {
      QuotientIs(0, S.Power(i), 0, 0);
    }
  }

  /** Where all masks lie from bit `k` up, the sum is a multiple of 2^k. */
  lemma {:induction false} SumMultiple(terms: Terms, masks: seq<S.Bits>, largest: Largest, leaf: Leaf, env: Env, k: nat)
    requires Masked(terms, masks, largest) && Within(largest, leaf) && ClearTerms(terms, leaf) && k <= 64
    requires forall j, i :: 0 <= j < |masks| && i in masks[j] ==> i >= k
    ensures TermsValue(terms, leaf, env) % S.Power(k) == 0
  {
    hide S.Power, S.NumberBelow, S.BitSet, Sets, VarValue, Value, Within, TermProduct;
    if terms == [] {
      QuotientIs(0, S.Power(k), 0, 0);
    } else {
      assert forall j, i :: 0 <= j < |masks[1..]| && i in masks[1..][j] ==> i in masks[j + 1];
      SumMultiple(terms[1..], masks[1..], largest, leaf, env, k);
      assert TermMasked(terms[0], masks[0], largest);
      TermProductIs(terms[0], leaf, env);
      MaskMultiple(TermProduct(terms[0], leaf, env), masks[0], k);
      MultipleSum(TermProduct(terms[0], leaf, env), TermsValue(terms[1..], leaf, env), S.Power(k));
    }
  }

  // The lowest bit any mask sets, if any does.
  function LowestOf(masks: seq<S.Bits>): (k: nat)
    ensures forall j, i :: 0 <= j < |masks| && i in masks[j] ==> i >= k
    ensures k <= 64 && (k < 64 ==> exists j :: 0 <= j < |masks| && k in masks[j])
  {
    hide LowestFrom;
    if masks == [] then 64 else
    var low, rest := LowestFrom(masks[0], 0), LowestOf(masks[1..]);
    assert forall j :: 0 < j < |masks| ==> masks[j] == masks[1..][j - 1];
    if low < rest then low else rest
  }

  function LowestFrom(b: S.Bits, i: nat): (k: nat)
    requires i <= 64 && forall x :: x in b ==> x >= i
    ensures i <= k <= 64 && (forall x :: x in b ==> x >= k) && (k < 64 <==> b != {}) && (k < 64 ==> k in b)
    decreases 64 - i
  {
    if i == 64 then NoneFrom(b); 64
    else if i in b then i
    else LowestFrom(b, i + 1)
  }

  lemma NoneFrom(b: S.Bits)
    requires forall x :: x in b ==> x >= 64
    ensures b == {}
  {
    forall x ensures x !in b {
    }
  }

  // The value of base and terms is one of the mask's, at every valuation within bounds.
  ghost predicate SumSets(terms: Terms, base: int, mask: S.Bits, largest: Largest) {
    forall leaf: Leaf, env: Env :: Within(largest, leaf) && ClearTerms(terms, leaf) ==>
      Sets(TermsValue(terms, leaf, env) + base, mask)
  }

  const WIDE: nat := 0x1_0000_0000_0000_0000_0000_0000_0000_0000

  /**
   * A mask for the terms and a constant base together, found where every coefficient is a constant above 0 and every
   * variable has a bound.
   */
  method BitsOf(terms: Terms, base: int, largest: Largest) returns (r: Option<S.Bits>)
    requires Fits(base)
    ensures r == SumBits(terms, base, largest)
    ensures r.Some? ==> SumSets(terms, base, r.value, largest)
  {
    hide S.Power, S.NumberBelow, S.BitSet, VarValue, Value, S.BitsBelow, TermMasked, Word, TermBits, MasksOf, Upto, From, LowestOf;
    if base < 0 {
      return None;
    }
    var masks: seq<S.Bits> := [];
    var total: nat := base;
    assert terms[..0] == [];
    NoTermMasks(base, largest);
    for i := 0 to |terms|
      invariant MasksOf(terms[..i], base, largest) == Some((masks, total))
      invariant Masked(terms[..i], masks, largest) && total >= base && Bounded(terms[..i], total - base, largest)
    {
      var (v, c) := terms[i];
      var one := TermMask(v, c, largest);
      assert terms[..i + 1] == terms[..i] + [terms[i]];
      MasksNext(terms[..i], (v, c), base, largest);
      if one.None? {
        NoMasks(terms, i + 1, base, largest);
        return None;
      }
      var (mask, top) := one.value;
      if total + top >= WIDE {
        NoMasks(terms, i + 1, base, largest);
        return None;
      }
      BoundNext(terms[..i], terms[i], total - base, top, largest);
      masks := masks + [mask];
      total := total + top;
    }
    assert terms[..|terms|] == terms;
    BaseMasked(base);
    var all := [Word(base)] + masks;
    if SizeSum(all) == |S.Union(all)| {
      r := Some(S.Union(all));
      UnionSets(terms, base, masks, largest);
    } else {
      var low := LowestOf(all);
      var mask: S.Bits := Upto(total) * From(if low == 64 then 0 else low);
      r := Some(mask);
      UptoFromSets(terms, base, masks, total, largest);
    }
  }

  lemma NoTermMasks(base: nat, largest: Largest)
    ensures MasksOf([], base, largest) == Some(([], base))
  {
  }

  lemma MasksNext(terms: Terms, t: (Var, SymExpr), base: nat, largest: Largest)
    ensures MasksOf(terms + [t], base, largest) ==
      match (MasksOf(terms, base, largest), TermBits(t.0, t.1, largest))
      case (Some((masks, total)), Some((mask, top))) => if total + top >= WIDE then None else Some((masks + [mask], total + top))
      case _ => None
  {
    hide TermBits;
    assert (terms + [t])[..|terms|] == terms;
  }

  lemma BoundNext(terms: Terms, t: (Var, SymExpr), sum: nat, top: nat, largest: Largest)
    requires Bounded(terms, sum, largest)
    requires forall leaf: Leaf, env: Env :: Within(largest, leaf) && Clear(t.0, leaf) ==> 0 <= TermProduct(t, leaf, env) <= top
    ensures Bounded(terms + [t], sum + top, largest)
  {
    hide TermProduct, VarValue, Value, Within, Clear;
    forall leaf: Leaf, env: Env | Within(largest, leaf) && ClearTerms(terms + [t], leaf)
      ensures 0 <= TermsValue(terms + [t], leaf, env) <= sum + top
    {
      ClearParts(terms, [t], leaf);
      TermsAppend(terms, [t], leaf, env);
      OneTerm(t, leaf, env);
      assert 0 <= TermProduct(t, leaf, env) <= top;
      assert 0 <= TermsValue(terms, leaf, env) <= sum;
    }
  }

  lemma ClearParts(s: Terms, t: Terms, leaf: Leaf)
    requires ClearTerms(s + t, leaf)
    ensures ClearTerms(s, leaf) && ClearTerms(t, leaf)
    ensures forall x :: x in t ==> Clear(x.0, leaf)
  {
    hide Clear;
    forall i | 0 <= i < |s| ensures Clear(s[i].0, leaf) {
      assert (s + t)[i] == s[i];
    }
    forall i | 0 <= i < |t| ensures Clear(t[i].0, leaf) {
      assert (s + t)[|s| + i] == t[i];
    }
  }

  lemma BaseMasked(base: Int64)
    requires base >= 0
    ensures Sets(base, Word(base))
  {
    hide S.BitSet;
  }

  lemma UnionSets(terms: Terms, base: Int64, masks: seq<S.Bits>, largest: Largest)
    requires base >= 0 && Masked(terms, masks, largest)
    requires var all := [Word(base)] + masks; SizeSum(all) == |S.Union(all)|
    ensures SumSets(terms, base, S.Union([Word(base)] + masks), largest)
  {
    hide S.Power, S.NumberBelow, S.BitSet, Sets, VarValue, Value, Within, Masked, Word;
    var all := [Word(base)] + masks;
    ApartBySize(all);
    assert all[1..] == masks;
    BaseMasked(base);
    forall leaf: Leaf, env: Env | Within(largest, leaf) && ClearTerms(terms, leaf)
      ensures Sets(TermsValue(terms, leaf, env) + base, S.Union(all))
    {
      SumApart(terms, masks, largest, leaf, env);
      AddsApart(base, TermsValue(terms, leaf, env), Word(base), S.Union(masks));
    }
  }

  lemma UptoFromSets(terms: Terms, base: Int64, masks: seq<S.Bits>, total: nat, largest: Largest)
    requires base >= 0 && Masked(terms, masks, largest) && total >= base && Bounded(terms, total - base, largest)
    ensures var low := LowestOf([Word(base)] + masks);
            SumSets(terms, base, Upto(total) * From(if low == 64 then 0 else low), largest)
  {
    hide S.Power, S.NumberBelow, S.BitSet, Sets, VarValue, Value, Within, Masked, Upto, From, LowestOf, Word;
    var all := [Word(base)] + masks;
    var low := LowestOf(all);
    var k := if low == 64 then 0 else low;
    assert all[0] == Word(base) && forall j :: 0 <= j < |masks| ==> masks[j] == all[j + 1];
    BaseMasked(base);
    MaskMultiple(base, Word(base), k);
    forall leaf: Leaf, env: Env | Within(largest, leaf) && ClearTerms(terms, leaf)
      ensures Sets(TermsValue(terms, leaf, env) + base, Upto(total) * From(k))
    {
      var x := TermsValue(terms, leaf, env) + base;
      SumMultiple(terms, masks, largest, leaf, env, k);
      MultipleSum(base, TermsValue(terms, leaf, env), S.Power(k));
      LowClear(x, k);
      UptoSets(x, total);
      SetsBoth(x, Upto(total), From(k));
    }
  }

  // -- whole forms ----------------------------------------------------------------------------

  // The terms left once those `p` is seen to divide are dropped.
  function Undivided(terms: Terms, p: Divisor): (out: Terms)
    ensures forall t :: t in out ==> t in terms
  {
    if terms == [] then [] else
    (if DivisibleBy(terms[0].1, p) then [] else [terms[0]]) + Undivided(terms[1..], p)
  }

  lemma {:induction false} UndividedValue(terms: Terms, p: Divisor, leaf: Leaf, env: Env)
    ensures (TermsValue(terms, leaf, env) - TermsValue(Undivided(terms, p), leaf, env)) % p == 0
  {
    hide VarValue, Value, DivisibleBy;
    if terms != [] {
      var rest := Undivided(terms[1..], p);
      UndividedValue(terms[1..], p, leaf, env);
      var t, more, kept := Value(terms[0].1, env) * VarValue(terms[0].0, leaf), TermsValue(terms[1..], leaf, env),
        TermsValue(rest, leaf, env);
      if DivisibleBy(terms[0].1, p) {
        DivisibleValue(terms[0].1, p, env);
        MultipleTimes(Value(terms[0].1, env), VarValue(terms[0].0, leaf), p);
        MultipleSum(t, more - kept, p);
        assert t + more - kept == t + (more - kept);
        assert Undivided(terms, p) == rest;
      } else {
        assert ([terms[0]] + rest)[1..] == rest;
      }
    }
  }

  // What a base is modulo `p`, where that is known.
  function BaseModulo(base: SymExpr, p: Divisor): Option<Int64> {
    match base
    case Const(c) => Some(c % p)
    case _ => if DivisibleBy(base, p) then Some(0) else None
  }

  lemma BaseModuloValue(base: SymExpr, p: Divisor, env: Env)
    requires BaseModulo(base, p).Some?
    ensures (Value(base, env) - BaseModulo(base, p).value) % p == 0
  {
    hide Value, DivisibleBy;
    if base.Const? {
      ConstValue(base.c, env);
      var c := base.c;
      assert c == p * (c / p) + c % p;
      QuotientIs(c - c % p, p, c / p, 0);
    } else {
      DivisibleValue(base, p, env);
    }
  }

  /** The bits below `k` are those of what is left of the form, multiples of 2^k dropped. */
  lemma LowBits(a: AffineExpr, k: nat, p: Divisor, mask: S.Bits, largest: Largest, leaf: Leaf, env: Env)
    requires p == S.Power(k) && BaseModulo(a.base, p).Some? && Within(largest, leaf) && ClearTerms(a.terms, leaf)
    requires SumSets(Undivided(a.terms, p), BaseModulo(a.base, p).value, mask, largest)
    ensures Sets(FormValue(a, leaf, env), mask + From(k))
  {
    hide VarValue, Value, S.Power, BaseModulo, Undivided, Within, S.BitSet, DivisibleBy;
    var rest, base := TermsValue(Undivided(a.terms, p), leaf, env), BaseModulo(a.base, p).value;
    var terms, whole := TermsValue(a.terms, leaf, env), Value(a.base, env);
    UndividedValue(a.terms, p, leaf, env);
    BaseModuloValue(a.base, p, env);
    MultipleSum(terms - rest, whole - base, p);
    ClearUndivided(a.terms, p, leaf);
    var x := FormValue(a, leaf, env);
    assert Sets(rest + base, mask);
    forall i: nat | i < 64 && S.BitSet(x, i) ensures i in mask + From(k) {
      if i < k {
        SameBit(x, rest + base, k, i);
      }
    }
  }

  // What is known of the bits once the remainders modulo 2^1 up to 2^(k - 1) were taken.
  ghost function FormBits(a: AffineExpr, largest: Largest, k: nat): S.Bits
    requires 1 <= k <= 63
    decreases k
  {
    if k == 1 then
      var whole := if a.base.Const? then SumBits(a.terms, a.base.c, largest) else None;
      if whole.Some? then whole.value else EveryBelow(64)
    else Narrowed(a, largest, k - 1, FormBits(a, largest, k - 1))
  }

  // The bits met with those of the remainder modulo 2^k, where that is bounded below 2^k, and all above.
  ghost function Narrowed(a: AffineExpr, largest: Largest, k: nat, mask: S.Bits): S.Bits
    requires 1 <= k < 63
  {
    PowerFits(k);
    var base := BaseModulo(a.base, S.Power(k));
    if base.None? then mask else
    var rest := SumBits(Undivided(a.terms, S.Power(k)), base.value, largest);
    if rest.Some? && forall i :: i in rest.value ==> i < k then mask * (rest.value + From(k)) else mask
  }

  /** No value of the form within bounds has a bit outside the mask. */
  ghost predicate FormSets(a: AffineExpr, mask: S.Bits, largest: Largest) {
    forall leaf: Leaf, env: Env :: Within(largest, leaf) && ClearTerms(a.terms, leaf) ==> Sets(FormValue(a, leaf, env), mask)
  }

  lemma EverySet(a: AffineExpr, largest: Largest)
    requires Valid(a)
    ensures FormSets(a, EveryBelow(64), largest)
  {
    hide FormValue, Valid, Within, ClearTerms, S.BitSet;
  }

  method MaySet(a: AffineExpr, largest: Largest) returns (mask: S.Bits)
    requires Valid(a)
    ensures mask == FormBits(a, largest, 63)
    ensures FormSets(a, mask, largest)
  {
    hide VarValue, Value, S.Power, Within, S.BitSet, S.NumberBelow, DivisibleBy, Undivided, BaseModulo, From, Valid, FormValue,
      SumBits, SumSets, Sets, EveryBelow;
    mask := EveryBelow(64);
    EverySet(a, largest);
    if a.base.Const? {
      var whole := BitsOf(a.terms, a.base.c, largest);
      if whole.Some? {
        mask := whole.value;
        WholeSets(a, mask, largest);
      }
    }
    for k := 1 to 63
      invariant FormSets(a, mask, largest) && mask == FormBits(a, largest, k)
    {
      PowerFits(k);
      var p: Divisor := S.Power(k);
      var base := BaseModulo(a.base, p);
      if base.Some? {
        var rest := BitsOf(Undivided(a.terms, p), base.value, largest);
        if rest.Some? && forall i :: i in rest.value ==> i < k {
          var left: S.Bits := rest.value + From(k);
          forall leaf: Leaf, env: Env | Within(largest, leaf) && ClearTerms(a.terms, leaf)
            ensures Sets(FormValue(a, leaf, env), mask * left)
          {
            LowBits(a, k, p, rest.value, largest, leaf, env);
            SetsBoth(FormValue(a, leaf, env), mask, left);
          }
          mask := mask * left;
        }
      }
    }
  }

  lemma WholeSets(a: AffineExpr, mask: S.Bits, largest: Largest)
    requires a.base.Const? && SumSets(a.terms, a.base.c, mask, largest)
    ensures FormSets(a, mask, largest)
  {
    hide VarValue, Within, Sets;
    forall leaf: Leaf, env: Env | Within(largest, leaf) && ClearTerms(a.terms, leaf) ensures Sets(FormValue(a, leaf, env), mask) {
      ConstValue(a.base.c, env);
      assert Sets(TermsValue(a.terms, leaf, env) + a.base.c, mask);
    }
  }

  lemma ClearUndivided(terms: Terms, p: Divisor, leaf: Leaf)
    requires ClearTerms(terms, leaf)
    ensures ClearTerms(Undivided(terms, p), leaf)
  {
    hide Clear, Undivided;
    var out := Undivided(terms, p);
    forall i | 0 <= i < |out| ensures Clear(out[i].0, leaf) {
      assert out[i] in out;
    }
  }

  lemma PowerFits(k: nat)
    requires 1 <= k < 63
    ensures 1 <= S.Power(k) <= 0x7FFF_FFFF_FFFF_FFFF
  {
    hide S.Power;
    PowerGrows(k, 62);
    S.WordPowers();
  }

  lemma {:induction false} PowerGrows(k: nat, n: nat)
    requires k <= n
    ensures S.Power(k) <= S.Power(n)
    decreases n
  {
    if k < n {
      PowerGrows(k, n - 1);
    }
  }
}
