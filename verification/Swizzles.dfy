/** Words as sets of bit positions, and xors of the bits of a thread index. */
module Swizzles {
  import opened Wrappers
  import opened Divisions

  // The positions below 64 of the bits a word sets.
  type Bits = s: set<nat> | forall i :: i in s ==> i < 64

  function Power(n: nat): (p: nat)
    ensures p >= 1
  {
    if n == 0 then 1 else 2 * Power(n - 1)
  }

  // The number the bits below `n` make.
  function NumberBelow(b: set<nat>, n: nat): nat {
    if n == 0 then 0 else NumberBelow(b, n - 1) + if n - 1 in b then Power(n - 1) else 0
  }

  function Number(b: Bits): nat {
    NumberBelow(b, 64)
  }

  // The word read as a signed one.
  function Signed(b: Bits): int {
    if 63 in b then Number(b) - Power(64) else Number(b)
  }

  predicate BitSet(x: int, i: nat) {
    x / Power(i) % 2 == 1
  }

  // The bits of `x` below `n`.
  function BitsBelow(x: int, n: nat): set<nat> {
    set i: nat | 0 <= i < n && BitSet(x, i)
  }

  function Xor(a: Bits, b: Bits): Bits {
    (a - b) + (b - a)
  }

  const COLUMNS := 10

  // A word for each bit of the thread index.
  type Columns = s: seq<Bits> | |s| == COLUMNS witness NO_COLUMNS

  const NO_COLUMNS: seq<Bits> := [{}, {}, {}, {}, {}, {}, {}, {}, {}, {}]

  // The constant, and for each bit of the thread index the word it flips.
  datatype XorSwizzle = XorSwizzle(columns: Columns, constant: Bits)

  // The xor of the constant and the first `n` columns whose thread bit is set.
  function EvalBelow(b: XorSwizzle, tid: int, n: nat): Bits
    requires n <= |b.columns|
  {
    if n == 0 then b.constant else
    var x := EvalBelow(b, tid, n - 1);
    if BitSet(tid, n - 1) then Xor(x, b.columns[n - 1]) else x
  }

  function Eval(b: XorSwizzle, tid: int): Bits {
    EvalBelow(b, tid, |b.columns|)
  }

  // Every bit some column or the constant has.
  function MaySet(b: XorSwizzle): Bits {
    Union(b.columns) + b.constant
  }

  function Union(columns: seq<Bits>): Bits {
    if columns == [] then {} else columns[0] + Union(columns[1..])
  }

  lemma {:induction false} UnionHolds(columns: seq<Bits>, i: nat)
    requires i < |columns|
    ensures columns[i] <= Union(columns)
  {
    if i > 0 {
      UnionHolds(columns[1..], i - 1);
    }
  }

  lemma {:induction false} UnionOnly(columns: seq<Bits>, x: nat)
    requires x in Union(columns)
    ensures exists i :: 0 <= i < |columns| && x in columns[i]
  {
    if x !in columns[0] {
      UnionOnly(columns[1..], x);
      var i :| 0 <= i < |columns[1..]| && x in columns[1..][i];
      assert x in columns[i + 1];
    }
  }

  /** Every value sets only bits the swizzle may set. */
  lemma {:induction false} EvalMaySet(b: XorSwizzle, tid: int, n: nat)
    requires n <= |b.columns|
    ensures EvalBelow(b, tid, n) <= MaySet(b)
  {
    if n > 0 {
      EvalMaySet(b, tid, n - 1);
      UnionHolds(b.columns, n - 1);
    }
  }

  // Numbers and their bits

  lemma {:induction false} DisjointSum(a: set<nat>, b: set<nat>, n: nat)
    requires forall i :: i in a ==> i !in b
    ensures NumberBelow(a + b, n) == NumberBelow(a, n) + NumberBelow(b, n)
  {
    if n > 0 {
      DisjointSum(a, b, n - 1);
    }
  }

  lemma {:induction false} NumberRange(b: set<nat>, n: nat)
    ensures NumberBelow(b, n) < Power(n)
  {
    if n > 0 {
      NumberRange(b, n - 1);
    }
  }

  lemma {:induction false} NumberMonotone(a: set<nat>, b: set<nat>, n: nat)
    requires a <= b
    ensures NumberBelow(a, n) <= NumberBelow(b, n)
  {
    if n > 0 {
      NumberMonotone(a, b, n - 1);
    }
  }

  lemma {:induction false} PowerSum(i: nat, j: nat)
    ensures Power(i + j) == Power(i) * Power(j)
  {
    if i > 0 {
      PowerSum(i - 1, j);
      Associates(2, Power(i - 1), Power(j));
    }
  }

  lemma WordPowers()
    ensures Power(62) == 0x4000_0000_0000_0000 && Power(63) == 0x8000_0000_0000_0000
    ensures Power(64) == 0x1_0000_0000_0000_0000
  {
    hide Power;
    SmallPowers();
    PowerSum(6, 6);
    PowerSum(12, 12);
    PowerSum(24, 6);
    PowerSum(30, 30);
    PowerSum(60, 2);
    PowerSum(62, 1);
    PowerSum(62, 2);
    assert Power(12) == 0x1000 && Power(24) == 0x100_0000 && Power(30) == 0x4000_0000;
    assert Power(60) == 0x1000_0000_0000_0000;
  }

  lemma SmallPowers()
    ensures Power(1) == 2 && Power(2) == 4 && Power(6) == 0x40
  {
  }

  // A number's low bits with one more of them.
  lemma NextBit(x: int, m: nat)
    ensures x % Power(m + 1) == Power(m) * (x / Power(m) % 2) + x % Power(m)
    ensures x / Power(m + 1) == x / Power(m) / 2
  {
    var p, q := Power(m), x / Power(m);
    var h, b := q / 2, q % 2;
    assert x == p * q + x % p;
    assert q == 2 * h + b;
    Distributes(p, 2 * h, b);
    Associates(p, 2, h);
    assert p * 2 == 2 * p;
    var r := p * b + x % p;
    assert p * b == (if b == 1 then p else 0);
    QuotientIs(x, 2 * p, h, r);
  }

  /** A number below 2^n is the one its bits make. */
  lemma {:induction false} BitsMake(x: nat, n: nat)
    ensures NumberBelow(BitsBelow(x, n), n) == x % Power(n)
  {
    if n == 0 {
      assert x % 1 == 0;
    } else {
      var m := n - 1;
      BitsMake(x, m);
      SameBelow(BitsBelow(x, n), BitsBelow(x, m), m);
      NextBit(x, m);
    }
  }

  lemma {:induction false} SameBelow(a: set<nat>, b: set<nat>, n: nat)
    requires forall i: nat :: i < n ==> (i in a <==> i in b)
    ensures NumberBelow(a, n) == NumberBelow(b, n)
  {
    if n > 0 {
      SameBelow(a, b, n - 1);
    }
  }

  /** The bits of the number a word makes are the word's. */
  lemma {:induction false} MakeBits(b: set<nat>, n: nat, i: nat)
    requires i < n
    ensures BitSet(NumberBelow(b, n), i) <==> i in b
  {
    var m := n - 1;
    var low := NumberBelow(b, m);
    NumberRange(b, m);
    if i == m {
      if i in b {
        QuotientIs(NumberBelow(b, n), Power(m), 1, low);
      } else {
        QuotientIs(NumberBelow(b, n), Power(m), 0, low);
      }
    } else {
      MakeBits(b, m, i);
      if m in b {
        PowerSum(i, m - i);
        AddsAbove(low, i, m);
      }
    }
  }

  // Adding a higher power leaves a bit as it was.
  lemma AddsAbove(x: int, i: nat, m: nat)
    requires i < m
    ensures BitSet(x + Power(m), i) == BitSet(x, i)
  {
    var p, k := Power(i), Power(m - i - 1);
    PowerSum(i, m - i);
    assert Power(m) == p * (2 * k);
    QuotientIs(p * (2 * k), p, 2 * k, 0);
    MultipleSum(p * (2 * k), x, p);
    assert (x + Power(m)) / p == 2 * k + x / p;
    assert (2 * k + x / p) % 2 == x / p % 2 by { MultipleSum(2 * k, x / p, 2); }
  }

  // Multiples that carry nothing

  const ROOM := 62

  // The bits of `c` times the bit at `j`.
  function Part(c: nat, j: nat): Bits {
    BitsBelow(c * Power(j), ROOM)
  }

  // `c` times each bit of `mask` stays below 2^62 and meets no other.
  ghost predicate CarriesNothing(mask: Bits, c: nat) {
    && (forall j: nat :: j in mask ==> c * Power(j) < Power(ROOM))
    && (forall i: nat, j: nat :: i in mask && j in mask && i != j ==> Part(c, i) !! Part(c, j))
  }

  // The parts of the bits of `x` below `n`.
  function ScaledBelow(x: Bits, c: nat, n: nat): Bits {
    if n == 0 then {} else ScaledBelow(x, c, n - 1) + if n - 1 in x then Part(c, n - 1) else {}
  }

  function Scale(x: Bits, c: nat): Bits {
    ScaledBelow(x, c, 64)
  }

  lemma {:induction false} ScaledHolds(x: Bits, c: nat, n: nat, b: nat)
    ensures b in ScaledBelow(x, c, n) <==> exists j: nat :: j < n && j in x && b in Part(c, j)
  {
    if n > 0 {
      ScaledHolds(x, c, n - 1, b);
    }
  }

  lemma ScaleHolds(x: Bits, c: nat, b: nat)
    ensures b in Scale(x, c) <==> exists j: nat :: j in x && b in Part(c, j)
  {
    ScaledHolds(x, c, 64, b);
  }

  /** Where nothing carries, scaling keeps xors. */
  lemma ScaleXor(mask: Bits, x: Bits, y: Bits, c: nat)
    requires CarriesNothing(mask, c) && x <= mask && y <= mask
    ensures Scale(Xor(x, y), c) == Xor(Scale(x, c), Scale(y, c))
  {
    hide Scale, Part, Power;
    forall b: nat ensures b in Scale(Xor(x, y), c) <==> b in Xor(Scale(x, c), Scale(y, c)) {
      ScaleHolds(Xor(x, y), c, b);
      ScaleHolds(x, c, b);
      ScaleHolds(y, c, b);
      if j: nat :| j in mask && b in Part(c, j) {
        assert forall i: nat :: i in mask && b in Part(c, i) ==> i == j;
      }
    }
  }

  /** Where nothing carries, the scaled word makes the multiple. */
  lemma {:induction false} ScaledNumber(mask: Bits, x: Bits, c: nat, n: nat)
    requires CarriesNothing(mask, c) && x <= mask && n <= 64
    ensures NumberBelow(ScaledBelow(x, c, n), 64) == c * NumberBelow(x, n)
  {
    if n == 0 {
      NoBits(64);
    } else {
      ScaledNumber(mask, x, c, n - 1);
      if n - 1 in x {
        var low, part := ScaledBelow(x, c, n - 1), Part(c, n - 1);
        forall i | i in low ensures i !in part {
          ScaledHolds(x, c, n - 1, i);
        }
        DisjointSum(low, part, 64);
        PartNumber(c, n - 1);
        Distributes(c, NumberBelow(x, n - 1), Power(n - 1));
      } else {
        assert ScaledBelow(x, c, n) == ScaledBelow(x, c, n - 1);
      }
    }
  }

  lemma {:induction false} NoBits(n: nat)
    ensures NumberBelow({}, n) == 0
  {
    if n > 0 {
      NoBits(n - 1);
    }
  }

  lemma PartNumber(c: nat, j: nat)
    requires c * Power(j) < Power(ROOM)
    ensures Number(Part(c, j)) == c * Power(j)
  {
    hide Power, NumberBelow, BitSet;
    var x := c * Power(j);
    BitsMake(x, ROOM);
    Remains(x, Power(ROOM));
    NoneAbove(BitsBelow(x, ROOM), ROOM, 64);
  }

  lemma Remains(x: int, m: int)
    requires 0 <= x < m
    ensures x % m == x
  {
  }

  lemma {:induction false} NoneAbove(b: set<nat>, n: nat, m: nat)
    requires n <= m && forall i :: i in b ==> i < n
    ensures NumberBelow(b, m) == NumberBelow(b, n)
  {
    if n < m {
      NoneAbove(b, n, m - 1);
    }
  }

  // The parts of the first `n` bits of the mask, none of which meets another.
  ghost predicate PartsOf(mask: Bits, c: nat, parts: seq<Bits>, n: nat) {
    && |parts| == n
    && (forall i: nat :: i < n ==> parts[i] == if i in mask then Part(c, i) else {})
    && (forall i: nat :: i < n && i in mask ==> c * Power(i) < Power(ROOM))
    && PartsApart(mask, c, n)
  }

  ghost predicate PartsApart(mask: Bits, c: nat, n: nat) {
    forall i: nat, k: nat :: i < k < n && i in mask && k in mask ==> Part(c, i) !! Part(c, k)
  }

  lemma StillApart(mask: Bits, c: nat, seen: Bits, n: nat)
    requires PartsApart(mask, c, n) && SeenOf(mask, c, seen, n) && (n in mask ==> seen * Part(c, n) == {})
    ensures PartsApart(mask, c, n + 1)
  {
    hide Part, Power;
    forall i: nat, k: nat | i < k < n + 1 && i in mask && k in mask ensures Part(c, i) !! Part(c, k) {
      if k == n {
        Apart(Part(c, i), Part(c, n), seen);
      }
    }
  }

  ghost predicate SeenOf(mask: Bits, c: nat, seen: Bits, n: nat) {
    && (forall i: nat :: i < n && i in mask ==> Part(c, i) <= seen)
    && (forall x: nat :: x in seen ==> exists i: nat :: i < n && i in mask && x in Part(c, i))
  }

  lemma NextPart(mask: Bits, c: nat, parts: seq<Bits>, seen: Bits, n: nat)
    requires PartsOf(mask, c, parts, n) && SeenOf(mask, c, seen, n)
    requires n in mask ==> c * Power(n) < Power(ROOM) && seen * Part(c, n) == {}
    ensures n in mask ==> PartsOf(mask, c, parts + [Part(c, n)], n + 1) && SeenOf(mask, c, seen + Part(c, n), n + 1)
    ensures n !in mask ==> PartsOf(mask, c, parts + [{}], n + 1) && SeenOf(mask, c, seen, n + 1)
  {
    hide Part, Power, PartsOf, SeenOf;
    if n in mask {
      TakesPart(mask, c, parts, seen, n);
      TakesSeen(mask, c, seen, n);
    } else {
      PassesPart(mask, c, parts, seen, n);
    }
  }

  lemma TakesPart(mask: Bits, c: nat, parts: seq<Bits>, seen: Bits, n: nat)
    requires PartsOf(mask, c, parts, n) && SeenOf(mask, c, seen, n) && n in mask
    requires c * Power(n) < Power(ROOM) && seen * Part(c, n) == {}
    ensures PartsOf(mask, c, parts + [Part(c, n)], n + 1)
  {
    hide Part, Power, PartsApart;
    StillApart(mask, c, seen, n);
  }

  lemma TakesSeen(mask: Bits, c: nat, seen: Bits, n: nat)
    requires SeenOf(mask, c, seen, n) && n in mask
    ensures SeenOf(mask, c, seen + Part(c, n), n + 1)
  {
    hide Part, Power;
  }

  lemma PassesPart(mask: Bits, c: nat, parts: seq<Bits>, seen: Bits, n: nat)
    requires PartsOf(mask, c, parts, n) && SeenOf(mask, c, seen, n) && n !in mask
    ensures PartsOf(mask, c, parts + [{}], n + 1) && SeenOf(mask, c, seen, n + 1)
  {
    hide Part, Power, PartsApart;
    StillApart(mask, c, seen, n);
  }

  lemma Apart(a: set<nat>, b: set<nat>, seen: set<nat>)
    requires a <= seen && seen * b == {}
    ensures a !! b
  {
    forall x | x in a ensures x !in b {
      assert x in seen;
      assert x in b ==> x in seen * b;
    }
  }

  lemma AllParts(mask: Bits, c: nat, parts: seq<Bits>)
    requires PartsOf(mask, c, parts, 64)
    ensures CarriesNothing(mask, c)
  {
    hide Part, Power;
    forall i: nat, j: nat | i in mask && j in mask && i != j ensures Part(c, i) !! Part(c, j) {
      if j < i {
        assert Part(c, j) !! Part(c, i);
      }
    }
  }

  /** `c` times the swizzle, when the product carries nothing. */
  method Times(b: XorSwizzle, c: nat) returns (r: Option<XorSwizzle>)
    ensures r.Some? <==> CarriesNothing(MaySet(b), c)
    ensures r.Some? ==> r.value == Multiple(b, c)
  {
    hide Part, Power, MaySet, PartsOf, SeenOf, CarriesNothing;
    var parts: seq<Bits> := [];
    var seen: Bits := {};
    var j := 0;
    var mask := MaySet(b);
    NoParts(mask, c);
    while j < 64
      invariant 0 <= j <= 64 && PartsOf(mask, c, parts, j) && SeenOf(mask, c, seen, j)
    {
      if j in mask {
        if c * Power(j) >= Power(ROOM) {
          Reaches(mask, c, j);
          return None;
        }
        var part := Part(c, j);
        if seen * part != {} {
          Meets(mask, c, seen, j);
          return None;
        }
        NextPart(mask, c, parts, seen, j);
        seen := seen + part;
        parts := parts + [part];
      } else {
        NextPart(mask, c, parts, seen, j);
        parts := parts + [{}];
      }
      j := j + 1;
    }
    AllParts(mask, c, parts);
    var all := Joined(b, c, parts);
    r := Some(all);
  }

  lemma NoParts(mask: Bits, c: nat)
    ensures PartsOf(mask, c, [], 0) && SeenOf(mask, c, {}, 0)
  {
  }

  lemma Reaches(mask: Bits, c: nat, j: nat)
    requires j in mask && c * Power(j) >= Power(ROOM)
    ensures !CarriesNothing(mask, c)
  {
  }

  // Each word as the union of its bits' parts.
  method Joined(b: XorSwizzle, c: nat, parts: seq<Bits>) returns (r: XorSwizzle)
    requires PartsOf(MaySet(b), c, parts, 64)
    ensures r == Multiple(b, c)
  {
    hide PartsOf;
    var columns: seq<Bits> := [];
    var i := 0;
    while i < |b.columns|
      invariant 0 <= i <= |b.columns| && columns == Multiple(b, c).columns[..i]
    {
      UnionHolds(b.columns, i);
      var column := Gathered(b.columns[i], MaySet(b), parts, c);
      columns := columns + [column];
      i := i + 1;
    }
    var constant := Gathered(b.constant, MaySet(b), parts, c);
    r := XorSwizzle(columns, constant);
  }

  lemma Meets(mask: Bits, c: nat, seen: Bits, j: nat)
    requires j in mask && seen * Part(c, j) != {} && SeenOf(mask, c, seen, j)
    ensures !CarriesNothing(mask, c)
  {
    var x :| x in seen * Part(c, j);
    var i: nat :| i < j && i in mask && x in Part(c, i);
    assert !(Part(c, i) !! Part(c, j));
  }

  // The union of the parts of the bits of `x`.
  method Gathered(x: Bits, ghost mask: Bits, parts: seq<Bits>, ghost c: nat) returns (out: Bits)
    requires x <= mask && PartsOf(mask, c, parts, 64)
    ensures out == Scale(x, c)
  {
    out := {};
    var j := 0;
    while j < 64
      invariant 0 <= j <= 64 && out == ScaledBelow(x, c, j)
    {
      if j in x {
        out := out + parts[j];
      }
      j := j + 1;
    }
  }

  // Each word of the swizzle scaled.
  function Multiple(b: XorSwizzle, c: nat): XorSwizzle {
    XorSwizzle(seq(|b.columns|, k requires 0 <= k < |b.columns| => Scale(b.columns[k], c)), Scale(b.constant, c))
  }

  lemma ColumnMaySet(b: XorSwizzle, i: nat)
    requires i < |b.columns|
    ensures b.columns[i] <= MaySet(b)
  {
    UnionHolds(b.columns, i);
  }

  lemma {:induction false} MultipleEval(b: XorSwizzle, c: nat, tid: int, n: nat)
    requires n <= |b.columns| && CarriesNothing(MaySet(b), c)
    ensures EvalBelow(Multiple(b, c), tid, n) == Scale(EvalBelow(b, tid, n), c)
  {
    hide Scale, CarriesNothing, MaySet, Xor, BitSet;
    if n > 0 {
      MultipleEval(b, c, tid, n - 1);
      EvalMaySet(b, tid, n - 1);
      ColumnMaySet(b, n - 1);
      ScaleXor(MaySet(b), EvalBelow(b, tid, n - 1), b.columns[n - 1], c);
    }
  }

  /** A multiple that carries nothing evaluates to the multiple at every thread. */
  lemma MultipleIsTimes(b: XorSwizzle, c: nat, tid: int)
    requires CarriesNothing(MaySet(b), c)
    ensures Number(Eval(Multiple(b, c), tid)) == c * Number(Eval(b, tid))
  {
    MultipleEval(b, c, tid, |b.columns|);
    EvalMaySet(b, tid, |b.columns|);
    ScaledNumber(MaySet(b), Eval(b, tid), c, 64);
  }
}
