/** The 32-byte sectors a warp's access touches, over the alignments its uniform part may have. */
module Sectors {
  import opened Wrappers
  import opened Divisions
  import opened Sets
  import Sorting

  const SECTOR: int := 32

  // The union of the byte runs at the offsets.
  function Bytes(offsets: seq<int>, bytes: nat): set<int> {
    if offsets == [] then {} else Bytes(offsets[1..], bytes) + Run(offsets[0], offsets[0] + bytes)
  }

  // The integers from `a` up to `b`.
  function Run(a: int, b: int): (r: set<int>)
    ensures forall x :: x in r <==> a <= x < b
    ensures |r| == if a < b then b - a else 0
    decreases b - a
  {
    if a >= b then {} else Run(a, b - 1) + {b - 1}
  }

  // The sectors the access touches, moved by `shift`.
  function SectorSet(offsets: seq<int>, bytes: nat, shift: int): set<int> {
    if offsets == [] || bytes == 0 then {} else
    SectorSet(offsets[1..], bytes, shift) +
    Run((offsets[0] + shift) / SECTOR, (offsets[0] + shift + bytes - 1) / SECTOR + 1)
  }

  function SectorCount(offsets: seq<int>, bytes: nat, shift: int): nat {
    |SectorSet(offsets, bytes, shift)|
  }

  function SectorOf(x: int, shift: int): int {
    (x + shift) / SECTOR
  }

  ghost predicate HoldsByte(b: set<int>, shift: int, s: int) {
    exists x :: x in b && SectorOf(x, shift) == s
  }

  lemma OneRun(a: int, bytes: nat, shift: int, s: int)
    requires bytes > 0
    ensures (a + shift) / SECTOR <= s <= (a + shift + bytes - 1) / SECTOR <==> HoldsByte(Run(a, a + bytes), shift, s)
  {
    var r := Run(a, a + bytes);
    if (a + shift) / SECTOR <= s <= (a + shift + bytes - 1) / SECTOR {
      var x := if a <= SECTOR * s - shift then SECTOR * s - shift else a;
      assert x in r && SectorOf(x, shift) == s;
    }
    if x :| x in r && SectorOf(x, shift) == s {
      FloorGrows(a + shift, x + shift, SECTOR);
      FloorGrows(x + shift, a + bytes - 1 + shift, SECTOR);
    }
  }

  /** A sector is touched exactly when one of its bytes is. */
  lemma {:induction false} TouchedByByte(offsets: seq<int>, bytes: nat, shift: int, s: int)
    ensures s in SectorSet(offsets, bytes, shift) <==> HoldsByte(Bytes(offsets, bytes), shift, s)
  {
    hide Run, SectorOf;
    if offsets != [] {
      TouchedByByte(offsets[1..], bytes, shift, s);
      if bytes > 0 {
        OneRun(offsets[0], bytes, shift, s);
      } else {
        NoBytes(offsets);
      }
    }
  }

  lemma {:induction false} NoBytes(offsets: seq<int>)
    ensures Bytes(offsets, 0) == {}
  {
    if offsets != [] {
      NoBytes(offsets[1..]);
    }
  }

  /** Moving every address by whole sectors touches as many. */
  lemma SameResidueSameCount(offsets: seq<int>, bytes: nat, shift: int, moved: int)
    requires shift % SECTOR == moved % SECTOR
    ensures SectorCount(offsets, bytes, shift) == SectorCount(offsets, bytes, moved)
  {
    hide SectorSet, Bytes;
    var d := moved / SECTOR - shift / SECTOR;
    var b := Bytes(offsets, bytes);
    var s, t := SectorSet(offsets, bytes, shift), SectorSet(offsets, bytes, moved);
    forall y: int ensures y in t <==> y in Moved(s, d) {
      TouchedByByte(offsets, bytes, shift, y - d);
      TouchedByByte(offsets, bytes, moved, y);
      MovedByte(b, shift, moved, y - d);
      MovedHolds(s, d, y);
    }
    MovedSize(s, d);
    assert t == Moved(s, d);
  }

  lemma MovedByte(b: set<int>, shift: int, moved: int, s: int)
    requires shift % SECTOR == moved % SECTOR
    ensures HoldsByte(b, shift, s) <==> HoldsByte(b, moved, s + (moved / SECTOR - shift / SECTOR))
  {
    var d := moved / SECTOR - shift / SECTOR;
    if x :| x in b && SectorOf(x, shift) == s {
      assert SectorOf(x, moved) == s + d;
    }
    if x :| x in b && SectorOf(x, moved) == s + d {
      assert SectorOf(x, shift) == s;
    }
  }

  function Moved(s: set<int>, d: int): set<int> {
    set x | x in s :: x + d
  }

  lemma MovedHolds(s: set<int>, d: int, y: int)
    ensures y in Moved(s, d) <==> y - d in s
  {
    if y - d in s {
      assert (y - d) + d in Moved(s, d);
    }
  }

  lemma {:induction false} MovedSize(s: set<int>, d: int)
    ensures |Moved(s, d)| == |s|
  {
    if s == {} {
      assert Moved(s, d) == {};
    } else {
      var x := Pick(s);
      MovedSize(s - {x}, d);
      forall y ensures y in Moved(s, d) <==> y in Moved(s - {x}, d) + {x + d} {
        MovedHolds(s, d, y);
        MovedHolds(s - {x}, d, y);
      }
      MovedHolds(s - {x}, d, x + d);
      assert Moved(s, d) == Moved(s - {x}, d) + {x + d};
    }
  }

  lemma FewInSector(here: set<int>, shift: int, s: int)
    requires forall x :: x in here ==> SectorOf(x, shift) == s
    ensures |here| <= SECTOR
  {
    forall x | x in here ensures SECTOR * s - shift <= x < SECTOR * s - shift + SECTOR {
      assert SectorOf(x, shift) == s;
    }
    SubsetSize(here, Run(SECTOR * s - shift, SECTOR * s - shift + SECTOR));
  }

  /** A sector holds 32 bytes, so the bytes packed never need more sectors. */
  lemma {:induction false} PackedIsFewest(bytes: set<int>, sectors: set<int>, shift: int)
    requires forall x :: x in bytes ==> SectorOf(x, shift) in sectors
    ensures |bytes| <= SECTOR * |sectors|
  {
    hide SectorOf;
    if bytes != {} {
      var y := Pick(bytes);
      var s := SectorOf(y, shift);
      var here := set x | x in bytes && SectorOf(x, shift) == s;
      FewInSector(here, shift, s);
      PackedIsFewest(bytes - here, sectors - {s}, shift);
      assert bytes == (bytes - here) + here && |bytes| == |bytes - here| + |here|;
      assert |sectors| == |sectors - {s}| + 1;
    }
  }

  /** The fewest sectors the distinct bytes could occupy never exceed those touched. */
  lemma PackedAtMostTouched(offsets: seq<int>, bytes: nat, shift: int)
    ensures (|Bytes(offsets, bytes)| + (SECTOR - 1)) / SECTOR <= SectorCount(offsets, bytes, shift)
  {
    hide SectorSet, Bytes;
    var b, s := Bytes(offsets, bytes), SectorSet(offsets, bytes, shift);
    forall x | x in b ensures SectorOf(x, shift) in s {
      TouchedByByte(offsets, bytes, shift, SectorOf(x, shift));
    }
    PackedIsFewest(b, s, shift);
  }

  // Distinct bytes

  lemma {:induction false} BytesHold(offsets: seq<int>, bytes: nat, x: int)
    ensures x in Bytes(offsets, bytes) <==> exists i :: 0 <= i < |offsets| && offsets[i] <= x < offsets[i] + bytes
  {
    if offsets != [] {
      BytesHold(offsets[1..], bytes, x);
      if i :| 0 <= i < |offsets[1..]| && offsets[1..][i] <= x < offsets[1..][i] + bytes {
        assert offsets[i + 1] <= x < offsets[i + 1] + bytes;
      }
      if i :| 0 <= i < |offsets| && offsets[i] <= x < offsets[i] + bytes && i > 0 {
        assert offsets[1..][i - 1] == offsets[i];
      }
    }
  }

  /** The distinct bytes of an access at each offset, counted by one pass over them in order. */
  method DistinctBytes(offsets: seq<int>, bytes: nat) returns (distinct: nat)
    ensures distinct == |Bytes(offsets, bytes)|
  {
    var key := (x: int) => x;
    var sorted := Sorting.SortBy(key, offsets);
    Sorting.SortKeeps(key, offsets);
    hide Run, Bytes, Sorting.SortBy;
    distinct := 0;
    Nothing(bytes);
    var i, end: int := 0, if sorted == [] then 0 else sorted[0];
    while i < |sorted|
      invariant 0 <= i <= |sorted|
      invariant i > 0 ==> end == sorted[i - 1] + bytes && Run(sorted[i - 1], end) <= Bytes(sorted[..i], bytes)
      invariant i == 0 && sorted != [] ==> end == sorted[0]
      invariant Below(Bytes(sorted[..i], bytes), end)
      invariant distinct == |Bytes(sorted[..i], bytes)|
    {
      var o := sorted[i];
      assert i > 0 ==> key(sorted[i - 1]) <= key(sorted[i]);
      var from := if end > o then end else o;
      NextBytes(sorted, i, bytes, from, end);
      distinct := distinct + if o + bytes - from > 0 then o + bytes - from else 0;
      end := if end > o + bytes then end else o + bytes;
      i := i + 1;
    }
    assert sorted[..i] == sorted;
    SameBytes(sorted, offsets, bytes);
  }

  ghost predicate Below(s: set<int>, end: int) {
    forall x :: x in s ==> x < end
  }

  lemma SameBytes(xs: seq<int>, ys: seq<int>, bytes: nat)
    requires forall x :: x in xs <==> x in ys
    ensures Bytes(xs, bytes) == Bytes(ys, bytes)
  {
    forall x ensures x in Bytes(xs, bytes) <==> x in Bytes(ys, bytes) {
      BytesHold(xs, bytes, x);
      BytesHold(ys, bytes, x);
      if i :| 0 <= i < |xs| && xs[i] <= x < xs[i] + bytes {
        assert xs[i] in ys;
      }
      if i :| 0 <= i < |ys| && ys[i] <= x < ys[i] + bytes {
        assert ys[i] in xs;
      }
    }
  }

  lemma BytesNext(sorted: seq<int>, i: nat, bytes: nat)
    requires i < |sorted|
    ensures Bytes(sorted[..i + 1], bytes) == Bytes(sorted[..i], bytes) + Run(sorted[i], sorted[i] + bytes)
  {
    hide Run;
    BytesAppend(sorted[..i], sorted[i], bytes);
    assert sorted[..i + 1] == sorted[..i] + [sorted[i]];
  }

  lemma {:induction false} BytesAppend(offsets: seq<int>, o: int, bytes: nat)
    ensures Bytes(offsets + [o], bytes) == Bytes(offsets, bytes) + Run(o, o + bytes)
  {
    hide Run;
    if offsets == [] {
      assert [o][1..] == [] && offsets + [o] == [o];
    } else {
      assert (offsets + [o])[1..] == offsets[1..] + [o];
      BytesAppend(offsets[1..], o, bytes);
    }
  }

  // The next access adds the bytes from the end of those before it.
  lemma NextBytes(sorted: seq<int>, i: nat, bytes: nat, from: int, end: int)
    requires i < |sorted| && (i > 0 ==> sorted[i - 1] <= sorted[i] && end == sorted[i - 1] + bytes)
    requires i == 0 ==> end == sorted[0]
    requires from == if end > sorted[i] then end else sorted[i]
    requires Below(Bytes(sorted[..i], bytes), end)
    requires i > 0 ==> Run(sorted[i - 1], end) <= Bytes(sorted[..i], bytes)
    ensures |Bytes(sorted[..i + 1], bytes)| ==
            |Bytes(sorted[..i], bytes)| + if sorted[i] + bytes - from > 0 then sorted[i] + bytes - from else 0
    ensures Below(Bytes(sorted[..i + 1], bytes), sorted[i] + bytes)
    ensures Run(sorted[i], sorted[i] + bytes) <= Bytes(sorted[..i + 1], bytes)
  {
    hide Run, Bytes;
    var o := sorted[i];
    BytesNext(sorted, i, bytes);
    var before := Bytes(sorted[..i], bytes);
    if i == 0 {
      assert sorted[..0] == [];
      Nothing(bytes);
      assert Run(o, from) == {};
    } else if from > o {
      assert Run(o, from) <= Run(sorted[i - 1], end);
    } else {
      assert Run(o, from) == {};
    }
    JoinsRun(before, o, from, o + bytes);
  }

  lemma JoinsRun(before: set<int>, o: int, from: int, end: int)
    requires o <= from && Run(o, from) <= before && Below(before, from)
    ensures |before + Run(o, end)| == |before| + if end - from > 0 then end - from else 0
  {
    hide Run;
    forall x: int ensures x in before + Run(o, end) <==> x in before + Run(from, end) {
      if x in Run(o, end) && x < from {
        assert x in Run(o, from);
      }
    }
    assert before + Run(o, end) == before + Run(from, end);
    assert before !! Run(from, end);
  }

  lemma Nothing(bytes: nat)
    ensures Bytes([], bytes) == {}
  {
  }

  // Every offset leaves one residue.
  predicate SameResidue(xs: seq<int>, align: int, residue: int)
    requires align > 0
  {
    forall i :: 0 <= i < |xs| ==> xs[i] % align == residue
  }
}
