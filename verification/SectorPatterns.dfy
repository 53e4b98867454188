/** One warp's access inside a loop: its sectors at every alignment of the base, summed over the trips. */
module SectorPatterns {
  import opened Wrappers
  import opened Divisions
  import opened Divisibility
  import opened Sectors

  type Alignment = n: int | n > 0 witness 1

  // The sectors at every alignment of the base, the lanes' common residue, the alignment and the counter's step.
  datatype SectorPattern = SectorPattern(byResidue: seq<nat>, residue: Option<int>, align: Alignment, stride: int)

  function NewPattern(offsets: seq<int>, bytes: nat, align: Alignment, stride: int): SectorPattern {
    SectorPattern(
      seq(SECTOR, i requires 0 <= i < SECTOR => SectorCount(offsets, bytes, i)),
      if offsets != [] && SameResidue(offsets, align, offsets[0] % align) then Some(offsets[0] % align) else None,
      align, stride)
  }

  function Aligned(p: SectorPattern, rho: int, trips: nat): bool {
    p.residue.Some? && forall k :: 1 <= k <= trips ==> AlignedAt(p.align, p.residue.value, p.stride, rho, k)
  }

  function Total(p: SectorPattern, rho: int, trips: nat): nat
    requires |p.byResidue| == SECTOR
  {
    if trips == 0 then 0 else Total(p, rho, trips - 1) + p.byResidue[(rho + p.stride * trips) % SECTOR]
  }

  // The sectors of each trip's access at a base, summed.
  ghost function EachTrip(offsets: seq<int>, bytes: nat, stride: int, base: int, trips: nat): nat {
    if trips == 0 then 0
    else EachTrip(offsets, bytes, stride, base, trips - 1) + SectorCount(offsets, bytes, base + stride * trips)
  }

  /** The pattern's total is the sum over the trips, at every base of that residue. */
  lemma {:induction false} TotalIsEachTrip(offsets: seq<int>, bytes: nat, align: Alignment, stride: int, rho: int,
                                           base: int, trips: nat)
    requires rho % SECTOR == base % SECTOR
    ensures Total(NewPattern(offsets, bytes, align, stride), rho, trips) == EachTrip(offsets, bytes, stride, base, trips)
  {
    hide SectorCount;
    if trips > 0 {
      TotalIsEachTrip(offsets, bytes, align, stride, rho, base, trips - 1);
      var shift := (rho + stride * trips) % SECTOR;
      assert shift % SECTOR == (base + stride * trips) % SECTOR by {
        SameAfter(rho, base, stride * trips);
      }
      SameResidueSameCount(offsets, bytes, shift, base + stride * trips);
    }
  }

  lemma SameAfter(x: int, y: int, d: int)
    requires x % SECTOR == y % SECTOR
    ensures (x + d) % SECTOR % SECTOR == (y + d) % SECTOR
  {
  }

  // A lane's address at trip `k`.
  ghost function AddressAt(o: int, stride: int, base: int, k: int): int {
    base + stride * k + o
  }

  // A lane's access at trip `k` is aligned.
  predicate AlignedAt(align: Alignment, o: int, stride: int, base: int, k: int) {
    (base + stride * k + o) % align == 0
  }

  /** A base of that residue keeps every trip's access aligned exactly where the pattern says so. */
  lemma AlignedIsEveryTrip(offsets: seq<int>, bytes: nat, align: Alignment, stride: int, rho: int, base: int,
                           trips: nat)
    requires offsets != [] && SECTOR % align == 0 && rho % SECTOR == base % SECTOR && trips >= 1
    ensures Aligned(NewPattern(offsets, bytes, align, stride), rho, trips) <==>
      forall k, i :: 1 <= k <= trips && 0 <= i < |offsets| ==> AddressAt(offsets[i], stride, base, k) % align == 0
  {
    assert forall k, i :: 1 <= k <= trips && 0 <= i < |offsets| ==>
      (AlignedAt(align, offsets[i], stride, base, k) <==> AddressAt(offsets[i], stride, base, k) % align == 0);
    hide AlignedAt, AddressAt;
    var p := NewPattern(offsets, bytes, align, stride);
    if Aligned(p, rho, trips) {
      forall k, i | 1 <= k <= trips && 0 <= i < |offsets| ensures AlignedAt(align, offsets[i], stride, base, k) {
        ResidueIsEnough(offsets[i], align);
        MovesAligned(align, p.residue.value, offsets[i], stride, rho, base, k);
      }
    }
    if forall k, i :: 1 <= k <= trips && 0 <= i < |offsets| ==> AlignedAt(align, offsets[i], stride, base, k) {
      forall i | 0 <= i < |offsets| ensures offsets[i] % align == offsets[0] % align {
        assert AlignedAt(align, offsets[i], stride, base, 1) && AlignedAt(align, offsets[0], stride, base, 1);
        AlignedTogether(align, offsets[i], offsets[0], stride, base, 1);
      }
      forall k | 1 <= k <= trips ensures AlignedAt(align, p.residue.value, stride, rho, k) {
        ResidueIsEnough(offsets[0], align);
        MovesAligned(align, offsets[0], p.residue.value, stride, base, rho, k);
      }
    }
  }

  lemma AlignedTogether(align: Alignment, x: int, y: int, stride: int, base: int, k: int)
    requires AlignedAt(align, x, stride, base, k) && AlignedAt(align, y, stride, base, k)
    ensures x % align == y % align
  {
    OneResidue(x, y, base + stride * k, align);
  }

  // Aligned at one base and lane, aligned at another of the same residues.
  lemma MovesAligned(align: Alignment, r: int, o: int, stride: int, rho: int, base: int, k: int)
    requires SECTOR % align == 0 && rho % SECTOR == base % SECTOR && o % align == r % align
    requires AlignedAt(align, r, stride, rho, k)
    ensures AlignedAt(align, o, stride, base, k)
  {
    hide Divides;
    assert Divides(align, base - rho) by {
      DividesIs(align, SECTOR);
      DividesIs(SECTOR, base - rho);
      DividesTrans(align, SECTOR, base - rho);
    }
    MovesResidue(align, rho + stride * k, base + stride * k, r, o);
  }

  lemma ResidueIsEnough(x: int, align: int)
    requires align > 0
    ensures x % align % align == x % align
  {
    QuotientIs(x % align, align, 0, x % align);
  }

  lemma MovesResidue(align: int, x: int, y: int, r: int, o: int)
    requires align > 0 && (x + r) % align == 0 && Divides(align, y - x) && o % align == r % align
    ensures (y + o) % align == 0
  {
    hide Divides;
    assert r == align * (r / align) + r % align && o == align * (o / align) + o % align;
    var d := o / align - r / align;
    assert align * d == align * (o / align) - align * (r / align) by { Distributes(align, r / align, d); }
    assert o - r == align * d;
    DividesIs(align, x + r);
    DividesSum(align, x + r, y - x);
    SelfDivides(align);
    DividesProduct(align, align, d);
    DividesSum(align, (x + r) + (y - x), align * d);
    assert (x + r) + (y - x) + align * d == y + o;
    DividesIs(align, y + o);
  }
}
