/** The ends of a warp's footprint: counts of real accesses, each at some value of the part no lane changes. */
module FootprintEnds {
  import opened Wrappers
  import opened Divisions
  import opened SymExprs
  import opened SymExprValues
  import opened AffineExprs
  import opened Lanes
  import opened Sectors
  import opened Divisibility
  import opened Footprints

  // -- combinations --------------------------------------------------------------------

  /** The greatest common divisor is a combination. */
  lemma {:induction false} Bezout(a: int, b: int) returns (g: int, p: int, q: int)
    ensures g == a * p + b * q && Divides(g, a) && Divides(g, b)
    decreases if b < 0 then -b else b
  {
    hide Divides;
    if b == 0 {
      g, p, q := a, 1, 0;
      SelfDivides(a);
      DividesNothing(a);
    } else {
      var r := TruncRem(a, b);
      var m := TruncatedQuotient(a, b);
      var p', q';
      g, p', q' := Bezout(b, r);
      p, q := q', p' - m * q';
      SameDivisors(g, a, b);
      // a == b * m + r
      Distributes(b, p', -(m * q'));
      Associates(b, m, q');
      SumTimes(b * m, r, q');
      assert b * -(m * q') == -(b * (m * q'));
    }
  }

  function Dot(ks: seq<int>, xs: seq<int>): int
    requires |ks| == |xs|
  {
    if ks == [] then 0 else ks[0] * xs[0] + Dot(ks[1..], xs[1..])
  }

  function Times(xs: seq<int>, m: int): seq<int> {
    seq(|xs|, i requires 0 <= i < |xs| => xs[i] * m)
  }

  lemma {:induction false} DotTimes(ks: seq<int>, xs: seq<int>, m: int)
    requires |ks| == |xs|
    ensures Dot(ks, Times(xs, m)) == Dot(ks, xs) * m
  {
    if ks != [] {
      assert Times(xs, m)[1..] == Times(xs[1..], m);
      DotTimes(ks[1..], xs[1..], m);
      Associates(ks[0], xs[0], m);
      SumTimes(ks[0] * xs[0], Dot(ks[1..], xs[1..]), m);
    }
  }

  // A combination of the numbers and of `n` that divides them all.
  lemma {:induction false} Combination(ks: seq<int>, n: int) returns (g: int, xs: seq<int>, y: int)
    ensures |xs| == |ks| && g == Dot(ks, xs) + n * y && Divides(g, n)
    ensures forall i :: 0 <= i < |ks| ==> Divides(g, ks[i])
  {
    hide Divides;
    if ks == [] {
      g, xs, y := n, [], 1;
      SelfDivides(n);
    } else {
      var h, rest, z := Combination(ks[1..], n);
      var p, q;
      g, p, q := Bezout(ks[0], h);
      xs, y := [p] + Times(rest, q), z * q;
      assert xs[1..] == Times(rest, q);
      DotTimes(ks[1..], rest, q);
      SumTimes(Dot(ks[1..], rest), n * z, q);
      Associates(n, z, q);
      DividesTrans(g, h, n);
      forall i | 0 <= i < |ks| ensures Divides(g, ks[i]) {
        if i > 0 {
          assert ks[i] == ks[1..][i - 1];
          DividesTrans(g, h, ks[i]);
        }
      }
    }
  }

  // -- the uniform part --------------------------------------------------------------------

  // A constant, a symbol, or a constant times one other than the pointer's.
  predicate Loose(t: SymExpr, pointer: Pointer) {
    match t
    case Const(_) => true
    case Sym(_) => true
    case Prod(fs) => |fs| == 2 && fs[0].Const? && fs[1].Sym? && (pointer.Some? ==> fs[1].s != pointer.value.0)
    case _ => false
  }

  function SymbolOf(t: SymExpr): Option<Symbol> {
    match t
    case Sym(s) => Some(s)
    case Prod(fs) => if |fs| == 2 && fs[1].Sym? then Some(fs[1].s) else None
    case _ => None
  }

  // The uniform part is of constants times different indices, counters and unknown values, and different symbols.
  ghost predicate Free(a: AffineExpr, pointer: Pointer) {
    && FreeTerms(a.terms) && FreeSummands(Parts(a.base), pointer)
  }

  ghost predicate FreeTerms(terms: seq<(Var, SymExpr)>) {
    && (forall i :: 0 <= i < |terms| && !DependsOnLane(terms[i].0) ==> terms[i].1.Const? && IsLeaf(terms[i].0))
    && (forall i, j :: 0 <= i < j < |terms| ==> terms[i].0 != terms[j].0)
  }

  ghost predicate FreeSummands(ts: seq<SymExpr>, pointer: Pointer) {
    && (forall i :: 0 <= i < |ts| ==> Loose(ts[i], pointer))
    && (forall i, j :: 0 <= i < j < |ts| && SymbolOf(ts[i]).Some? ==> SymbolOf(ts[i]) != SymbolOf(ts[j]))
  }

  function TermNumbers(terms: seq<(Var, SymExpr)>): seq<int> {
    if terms == [] then [] else
    [if DependsOnLane(terms[0].0) then 0 else TermNumber(terms[0].1)] + TermNumbers(terms[1..])
  }

  function SummandNumbers(ts: seq<SymExpr>, pointer: Pointer): seq<int> {
    if ts == [] then [] else [if ts[0].Const? then 0 else Factor(ts[0], pointer)] + SummandNumbers(ts[1..], pointer)
  }

  lemma {:induction false} NumberAt(terms: seq<(Var, SymExpr)>, i: nat)
    requires i < |terms|
    ensures |TermNumbers(terms)| == |terms|
    ensures TermNumbers(terms)[i] == if DependsOnLane(terms[i].0) then 0 else TermNumber(terms[i].1)
  {
    hide DependsOnLane;
    if i > 0 {
      NumberAt(terms[1..], i - 1);
    } else if |terms| > 1 {
      NumberAt(terms[1..], 0);
    }
  }

  lemma {:induction false} NumbersLength(terms: seq<(Var, SymExpr)>, ts: seq<SymExpr>, pointer: Pointer)
    ensures |TermNumbers(terms)| == |terms| && |SummandNumbers(ts, pointer)| == |ts|
  {
    if terms != [] {
      NumbersLength(terms[1..], ts, pointer);
    } else if ts != [] {
      NumbersLength(terms, ts[1..], pointer);
    }
  }

  lemma {:induction false} SummandAt(ts: seq<SymExpr>, pointer: Pointer, i: nat)
    requires i < |ts| == |SummandNumbers(ts, pointer)|
    ensures SummandNumbers(ts, pointer)[i] == if ts[i].Const? then 0 else Factor(ts[i], pointer)
  {
    hide Factor;
    if i > 0 {
      NumbersLength([], ts[1..], pointer);
      SummandAt(ts[1..], pointer, i - 1);
    }
  }

  // Each uniform variable its own value, everything else 0.
  ghost function LeafOf(terms: seq<(Var, SymExpr)>, xs: seq<int>): Leaf
    requires |xs| == |terms|
  {
    (v: Var) => var i := AffineExprs.Index(terms, v); if i < |terms| then xs[i] else 0
  }

  lemma {:induction false} TermsDot(terms: seq<(Var, SymExpr)>, xs: seq<int>, common: Leaf, env: Env)
    requires |xs| == |terms| && FreeTerms(terms)
    requires forall i :: 0 <= i < |terms| && !DependsOnLane(terms[i].0) ==> common(terms[i].0) == xs[i]
    ensures |TermNumbers(terms)| == |terms| && UniformTerms(terms, common, env) == Dot(TermNumbers(terms), xs)
  {
    hide DependsOnLane;
    NumbersLength(terms, [], None);
    if terms != [] {
      assert forall i :: 0 <= i < |terms| - 1 ==> terms[1..][i] == terms[i + 1] && xs[1..][i] == xs[i + 1];
      TermsDot(terms[1..], xs[1..], common, env);
      assert TermNumbers(terms)[1..] == TermNumbers(terms[1..]);
      if !DependsOnLane(terms[0].0) {
        ConstValue(terms[0].1.c, env);
        LeafValue(terms[0].0, common);
      }
    }
  }

  lemma LeafValue(v: Var, leaf: Leaf)
    requires IsLeaf(v)
    ensures VarValue(v, leaf) == leaf(v)
  {
  }

  lemma LeafOfIs(terms: seq<(Var, SymExpr)>, xs: seq<int>, i: nat)
    requires |xs| == |terms| && FreeTerms(terms) && i < |terms|
    ensures LeafOf(terms, xs)(terms[i].0) == xs[i]
  {
    hide DependsOnLane;
    var j := AffineExprs.Index(terms, terms[i].0);
    assert j == i;
  }

  function SymbolIndex(ts: seq<SymExpr>, s: Symbol): (i: nat)
    ensures i <= |ts| && (i < |ts| ==> SymbolOf(ts[i]) == Some(s))
    ensures forall j :: 0 <= j < i ==> SymbolOf(ts[j]) != Some(s)
  {
    if ts == [] || SymbolOf(ts[0]) == Some(s) then 0 else
    assert forall j :: 0 < j < |ts| ==> ts[j] == ts[1..][j - 1];
    1 + SymbolIndex(ts[1..], s)
  }

  // Each symbol its own value, the pointer's a multiple of its alignment.
  ghost function EnvOf(ts: seq<SymExpr>, pointer: Pointer, ys: seq<int>): Env
    requires |ys| == |ts|
  {
    (s: Symbol) => SymbolAt(ts, pointer, ys, s)
  }

  ghost function SymbolAt(ts: seq<SymExpr>, pointer: Pointer, ys: seq<int>, s: Symbol): int
    requires |ys| == |ts|
  {
    var i := SymbolIndex(ts, s);
    var y := if i < |ts| then ys[i] else 0;
    if pointer.Some? && pointer.value.0 == s then pointer.value.1 * y else y
  }

  lemma EnvRespects(ts: seq<SymExpr>, pointer: Pointer, ys: seq<int>)
    requires |ys| == |ts|
    ensures Respects(EnvOf(ts, pointer, ys), pointer)
  {
    if pointer.Some? {
      var d := pointer.value.1;
      var i := SymbolIndex(ts, pointer.value.0);
      var y := if i < |ts| then ys[i] else 0;
      QuotientIs(d * y, d, y, 0);
    }
  }

  lemma SummandValue(ts: seq<SymExpr>, pointer: Pointer, ys: seq<int>, i: nat)
    requires |ys| == |ts| && FreeSummands(ts, pointer) && i < |ts|
    ensures Value(ts[i], EnvOf(ts, pointer, ys)) == if ts[i].Const? then ts[i].c else Factor(ts[i], pointer) * ys[i]
  {
    var env := EnvOf(ts, pointer, ys);
    match ts[i]
    case Const(_) =>
    case Sym(s) =>
      assert SymbolIndex(ts, s) == i;
    case Prod(fs) =>
      var s := fs[1].s;
      assert SymbolIndex(ts, s) == i;
      assert fs[1..] == [fs[1]];
      ProductOne(fs[1], env);
      ConstValue(fs[0].c, env);
      assert Product(fs, env) == Value(fs[0], env) * Product(fs[1..], env);
  }

  function ConstantTotal(ts: seq<SymExpr>): int {
    if ts == [] then 0 else (if ts[0].Const? then ts[0].c else 0) + ConstantTotal(ts[1..])
  }

  lemma {:induction false} SummandsDot(ts: seq<SymExpr>, pointer: Pointer, ys: seq<int>, env: Env)
    requires |ys| == |ts|
    requires forall i :: 0 <= i < |ts| ==> Value(ts[i], env) == if ts[i].Const? then ts[i].c else Factor(ts[i], pointer) * ys[i]
    ensures |SummandNumbers(ts, pointer)| == |ts|
    ensures Total(ts, env) == ConstantTotal(ts) + Dot(SummandNumbers(ts, pointer), ys)
  {
    hide Value, Factor;
    NumbersLength([], ts, pointer);
    if ts != [] {
      assert forall i :: 0 <= i < |ts| - 1 ==> ts[1..][i] == ts[i + 1] && ys[1..][i] == ys[i + 1];
      SummandsDot(ts[1..], pointer, ys[1..], env);
      assert SummandNumbers(ts, pointer)[1..] == SummandNumbers(ts[1..], pointer);
    }
  }

  lemma {:induction false} ConstantsModulo(ts: seq<SymExpr>)
    ensures Divides(SECTOR, ConstantTotal(ts) - ConstantResidues(ts))
  {
    hide Divides, Residue;
    if ts == [] {
      DividesNothing(SECTOR);
    } else {
      var n := |ts| - 1;
      assert ts == ts[..n] + [ts[n]];
      ConstantsModulo(ts[..n]);
      ConstantTotalAppend(ts[..n], ts[n]);
      ResidueModulo(ts[n]);
      DividesSum(SECTOR, ConstantTotal(ts[..n]) - ConstantResidues(ts[..n]),
                 (if ts[n].Const? then ts[n].c else 0) - Residue(ts[n]));
    }
  }

  lemma ResidueModulo(t: SymExpr)
    ensures Divides(SECTOR, (if t.Const? then t.c else 0) - Residue(t))
  {
    if t.Const? {
      assert t.c - t.c % SECTOR == SECTOR * (t.c / SECTOR);
    } else {
      assert 0 - Residue(t) == SECTOR * 0;
    }
  }

  lemma {:induction false} ConstantTotalAppend(ts: seq<SymExpr>, t: SymExpr)
    ensures ConstantTotal(ts + [t]) == ConstantTotal(ts) + if t.Const? then t.c else 0
  {
    if ts == [] {
      assert [] + [t] == [t] && [t][1..] == [];
    } else {
      assert (ts + [t])[1..] == ts[1..] + [t];
      ConstantTotalAppend(ts[1..], t);
    }
  }

  lemma {:induction false} DotJoin(ks: seq<int>, ms: seq<int>, xs: seq<int>, ys: seq<int>)
    requires |ks| == |xs| && |ms| == |ys|
    ensures Dot(ks + ms, xs + ys) == Dot(ks, xs) + Dot(ms, ys)
  {
    if ks == [] {
      assert ks + ms == ms && xs + ys == ys;
    } else {
      assert (ks + ms)[1..] == ks[1..] + ms && (xs + ys)[1..] == xs[1..] + ys;
      DotJoin(ks[1..], ms, xs[1..], ys);
    }
  }

  // What divides all the numbers divides the one found.
  lemma DividesFound(a: AffineExpr, pointer: Pointer, c: int, g: int, b: int)
    requires ResiduesAre(a, pointer, c, g) && Divides(b, SECTOR)
    requires forall i :: 0 <= i < |TermNumbers(a.terms)| ==> Divides(b, TermNumbers(a.terms)[i])
    requires forall i :: 0 <= i < |SummandNumbers(Parts(a.base), pointer)| ==>
      Divides(b, SummandNumbers(Parts(a.base), pointer)[i])
    ensures Divides(b, g)
  {
    hide Divides, DependsOnLane, TermNumber;
    var ts := Parts(a.base);
    NumbersLength(a.terms, ts, pointer);
    forall i | 0 <= i < |a.terms| && !DependsOnLane(a.terms[i].0) ensures Divides(b, TermNumber(a.terms[i].1)) {
      NumberAt(a.terms, i);
    }
    forall j | 0 <= j < |ts| ensures Divides(b, Factor(ts[j], pointer)) {
      SummandAt(ts, pointer, j);
    }
    assert DividesFirst(a.terms, |a.terms|, ts, |ts|, pointer, b);
  }

  /** Each residue the code leaves open is one of the uniform part's. */
  lemma ResiduesAreMet(a: AffineExpr, pointer: Pointer, c: int, g: int, s: int) returns (common: Leaf, env: Env)
    requires ResiduesAre(a, pointer, c, g) && Free(a, pointer)
    ensures Respects(env, pointer) && Divides(SECTOR, Uniform(a, common, env) - (c + g * s))
  {
    hide Divides, DependsOnLane, Dot, TermNumbers, SummandNumbers, FreeTerms, FreeSummands, ResiduesAre, UniformTerms, Value;
    var ts := Parts(a.base);
    var ks, ms := TermNumbers(a.terms), SummandNumbers(ts, pointer);
    NumbersLength(a.terms, ts, pointer);
    var b, all, y := Combination(ks + ms, SECTOR);
    BothNumbers(ks, ms, b);
    DividesFound(a, pointer, c, g, b);
    var m := QuotientOf(b, g);
    var xs, ys := Times(all[..|ks|], m * s), Times(all[|ks|..], m * s);
    common, env := LeafOf(a.terms, xs), EnvOf(ts, pointer, ys);
    EnvRespects(ts, pointer, ys);
    forall i | 0 <= i < |a.terms| ensures common(a.terms[i].0) == xs[i] {
      LeafOfIs(a.terms, xs, i);
    }
    TermsDot(a.terms, xs, common, env);
    forall i | 0 <= i < |ts| ensures Value(ts[i], env) == if ts[i].Const? then ts[i].c else Factor(ts[i], pointer) * ys[i] {
      SummandValue(ts, pointer, ys, i);
    }
    SummandsDot(ts, pointer, ys, env);
    PartsValue(a.base, env);
    DotTimes(ks, all[..|ks|], m * s);
    DotTimes(ms, all[|ks|..], m * s);
    assert all == all[..|ks|] + all[|ks|..];
    DotJoin(ks, ms, all[..|ks|], all[|ks|..]);
    ConstantsModulo(ts);
    ConstantIs(a, pointer, c, g);
    UniformIs(Uniform(a, common, env), Dot(ks, all[..|ks|]), Dot(ms, all[|ks|..]), ConstantTotal(ts), c, g, s, b, m, y);
  }

  lemma ConstantIs(a: AffineExpr, pointer: Pointer, c: int, g: int)
    requires ResiduesAre(a, pointer, c, g)
    ensures c == ConstantResidues(Parts(a.base))
  {
  }

  lemma BothNumbers(ks: seq<int>, ms: seq<int>, b: int)
    requires forall i :: 0 <= i < |ks + ms| ==> Divides(b, (ks + ms)[i])
    ensures forall i :: 0 <= i < |ks| ==> Divides(b, ks[i])
    ensures forall i :: 0 <= i < |ms| ==> Divides(b, ms[i])
  {
    hide Divides;
    forall i | 0 <= i < |ks| ensures Divides(b, ks[i]) {
      assert (ks + ms)[i] == ks[i];
    }
    forall i | 0 <= i < |ms| ensures Divides(b, ms[i]) {
      assert (ks + ms)[|ks| + i] == ms[i];
    }
  }

  lemma QuotientOf(b: int, g: int) returns (m: int)
    requires Divides(b, g)
    ensures g == b * m
  {
    m :| g == b * m;
  }

  lemma UniformIs(u: int, p: int, q: int, total: int, c: int, g: int, s: int, b: int, m: int, y: int)
    requires u == p * (m * s) + (total + q * (m * s)) && b == (p + q) + SECTOR * y && g == b * m
    requires Divides(SECTOR, total - c)
    ensures Divides(SECTOR, u - (c + g * s))
  {
    hide Divides;
    SumTimes(p, q, m * s);
    SumTimes(p + q, SECTOR * y, m * s);
    Associates(b, m, s);
    Associates(SECTOR, y, m * s);
    var k := -(y * (m * s));
    assert SECTOR * k == -(SECTOR * (y * (m * s)));
    SelfDivides(SECTOR);
    DividesProduct(SECTOR, SECTOR, k);
    DividesSum(SECTOR, total - c, SECTOR * k);
    assert u - (c + g * s) == (total - c) + SECTOR * k;
  }

  // -- footprints -----------------------------------------------------------------------------

  // At some value of the uniform part a warp's access is aligned, and touches so many sectors.
  ghost predicate Touches(a: AffineExpr, bytes: nat, align: Divisor, pointer: Pointer, shape: Shape,
                          executes: Lanes.Index -> bool, n: nat)
  {
    exists w: nat, common: Leaf, env: Env :: w < Warps(shape) &&
      Aligned(a, align, pointer, shape, executes, w, common, env) &&
      SectorCount(AddressesAt(a, common, env, shape, executes, w), bytes, 0) == n
  }

  // A warp with an executing lane is aligned there.
  ghost predicate Aligned(a: AffineExpr, align: Divisor, pointer: Pointer, shape: Shape, executes: Lanes.Index -> bool,
                          w: nat, common: Leaf, env: Env)
    requires w < Warps(shape)
  {
    && Respects(env, pointer) && AddressesAt(a, common, env, shape, executes, w) != []
    && AllAligned(AddressesAt(a, common, env, shape, executes, w), align)
  }

  // A count at a shift tried is one of a real access.
  lemma ShiftTouches(a: AffineExpr, bytes: nat, align: Divisor, pointer: Pointer, shape: Shape,
                     executes: Lanes.Index -> bool, warps: seq<seq<int>>, residue: int, c: int, g: int, xs: seq<int>, s: int)
    requires LaneConstant(a.terms) && ListsWarps(a.terms, shape, executes, Warps(shape), warps) && xs in warps
    requires SameResidue(xs, align, residue) && SECTOR % align == 0 && ResiduesAre(a, pointer, c, g) && Free(a, pointer)
    requires g > 0 && s in Congruent(AlignedShifts(align, residue, SECTOR), c, g)
    ensures Touches(a, bytes, align, pointer, shape, executes, SectorCount(xs, bytes, s))
  {
    hide LaneConstant, WarpAt, Uniform, AddressesAt, SectorCount, Divides, Free, ResiduesAre, Respects;
    var w: nat :| w < Warps(shape) && xs == WarpAt(a.terms, shape, executes, w);
    assert s - c == g * ((s - c) / g);
    var common, env := ResiduesAreMet(a, pointer, c, g, (s - c) / g);
    var u := Uniform(a, common, env);
    ShiftAt(a, common, env, shape, executes, w);
    var ys := AddressesAt(a, common, env, shape, executes, w);
    DividesIs(SECTOR, u - s);
    SameModulo(u, s);
    forall i | 0 <= i < |ys| ensures ys[i] % align == 0 {
      LaneAligned(xs[i], u, s, align, residue);
    }
    ShiftedSectors(xs, ys, u, bytes);
    SameResidueSameCount(xs, bytes, s, u);
    SectorsAre(xs, ys, bytes, u);
    assert Aligned(a, align, pointer, shape, executes, w, common, env);
  }

  lemma SectorsAre(xs: seq<int>, ys: seq<int>, bytes: nat, d: int)
    requires SectorSet(ys, bytes, 0) == SectorSet(xs, bytes, d)
    ensures SectorCount(ys, bytes, 0) == SectorCount(xs, bytes, d)
  {
    hide SectorSet;
  }

  lemma SameModulo(u: int, s: int)
    requires (u - s) % SECTOR == 0
    ensures u % SECTOR == s % SECTOR
  {
    MultipleSum(u - s, s, SECTOR);
  }

  lemma LaneAligned(x: int, u: int, s: int, align: Divisor, residue: int)
    requires x % align == residue && (s + residue) % align == 0 && SECTOR % align == 0 && (u - s) % SECTOR == 0
    ensures (x + u) % align == 0
  {
    hide Divides;
    DividesIs(align, SECTOR);
    DividesIs(SECTOR, u - s);
    DividesTrans(align, SECTOR, u - s);
    DividesIs(align, s + residue);
    assert x == align * (x / align) + residue;
    SelfDivides(align);
    DividesProduct(align, align, x / align);
    DividesSum(align, align * (x / align), u - s);
    DividesSum(align, align * (x / align) + (u - s), s + residue);
    assert x + u == align * (x / align) + (u - s) + (s + residue);
    DividesIs(align, x + u);
  }

  /** Of the aligned shifts just those the uniform part leaves are tried, or all where it leaves none. */
  lemma NarrowedIs(aligned: seq<int>, c: int, g: int, s: int)
    requires g > 0
    ensures s in Narrowed(aligned, c, g) <==>
      s in aligned && ((s - c) % g == 0 || forall t :: t in aligned ==> (t - c) % g != 0)
  {
    var known := Congruent(aligned, c, g);
    if known == [] {
      assert forall t :: t in aligned && (t - c) % g == 0 ==> t in known;
    } else {
      assert known[0] in known;
    }
  }

  lemma SearchedBy(a: AffineExpr, pointer: Pointer, align: Divisor, residue: int, warps: seq<seq<int>>,
                   shifts: seq<int>) returns (c: int, g: int)
    requires Searched(a, pointer, align, residue, warps, shifts)
    ensures ResiduesAre(a, pointer, c, g) && g > 0 && Divides(g, SECTOR)
    ensures shifts == Narrowed(AlignedShifts(align, residue, SECTOR), c, g)
  {
    hide Narrowed, AlignedShifts, Divides, DependsOnLane;
    c, g :| ResiduesAre(a, pointer, c, g) && shifts == Narrowed(AlignedShifts(align, residue, SECTOR), c, g);
  }

  /** Both ends of the range are touched by real accesses, where the promised alignment can be met at all. */
  lemma FootprintIsMet(a: AffineExpr, bytes: nat, align: Divisor, pointer: Pointer, shape: Shape,
                       executes: Lanes.Index -> bool, sectors: CountRange, warps: seq<seq<int>>, shifts: seq<int>,
                       residue: int, w: nat, common: Leaf, env: Env)
    requires LaneConstant(a.terms) && ListsWarps(a.terms, shape, executes, Warps(shape), warps)
    requires Searched(a, pointer, align, residue, warps, shifts) && Free(a, pointer) && SECTOR % align == 0
    requires warps != [] && shifts != [] ==> Attained(Some(sectors), warps, bytes, shifts)
    requires w < Warps(shape) && Aligned(a, align, pointer, shape, executes, w, common, env)
    ensures Touches(a, bytes, align, pointer, shape, executes, sectors.min)
    ensures Touches(a, bytes, align, pointer, shape, executes, sectors.max)
  {
    hide LaneConstant, WarpAt, Uniform, AddressesAt, SectorCount, Divides, Free, ResiduesAre, Respects, Touches, AllAligned;
    var c, g := SearchedBy(a, pointer, align, residue, warps, shifts);
    var ys, u := AddressesAt(a, common, env, shape, executes, w), Uniform(a, common, env);
    ShiftAt(a, common, env, shape, executes, w);
    var xs := WarpAt(a.terms, shape, executes, w);
    assert xs in warps;
    var i :| 0 <= i < |warps| && warps[i] == xs;
    ResiduesHold(a, pointer, c, g, common, env);
    FirstAligned(xs, ys, u, align, residue);
    UniformIsTried(u, align, residue, c, g);
    assert forall p :: p in warps ==> SameResidue(p, align, residue);
    var p, s :| p in warps && s in shifts && SectorCount(p, bytes, s) == sectors.min;
    ShiftTouches(a, bytes, align, pointer, shape, executes, warps, residue, c, g, p, s);
    var q, t :| q in warps && t in shifts && SectorCount(q, bytes, t) == sectors.max;
    ShiftTouches(a, bytes, align, pointer, shape, executes, warps, residue, c, g, q, t);
  }
}
