/** How many sectors each warp's access touches, whatever the part of its address no lane changes. */
module Footprints {
  import opened Wrappers
  import opened Divisions
  import opened SymExprs
  import opened SymExprValues
  import opened AffineExprs
  import opened AffineDivision
  import opened AffineRanges
  import opened Lanes
  import Participation
  import opened Sectors
  import opened Divisibility
  import Swizzles

  // The lanes' part and the uniform part of an address

  predicate DependsOnLane(v: Var) {
    match v
    case Tid(_) => true
    case Floor(x, _) => DependsOnLane(x)
    case Rem(x, _) => DependsOnLane(x)
    case Swizzle(s) => exists i :: 0 <= i < |s.columns| && s.columns[i] != {}
    case _ => false
  }

  // What a thread reads: its own index, everything else as every thread does.
  function ThreadLeaf(common: Leaf, tid: Index): Leaf {
    (v: Var) => if v.Tid? then Participation.At(tid, v.axis) else common(v)
  }

  function LaneLeaf(tid: Index): Leaf {
    Participation.Reading(tid, Participation.Place(None, None))
  }

  // The lane's part of an address: its terms in the thread index, each of a constant coefficient.
  function Offset(terms: seq<(Var, SymExpr)>, tid: Index): int {
    if terms == [] then 0 else
    (if DependsOnLane(terms[0].0) then Participation.ConstOr0(terms[0].1) * VarValue(terms[0].0, LaneLeaf(tid)) else 0) +
    Offset(terms[1..], tid)
  }

  ghost function UniformTerms(terms: seq<(Var, SymExpr)>, common: Leaf, env: Env): int {
    if terms == [] then 0 else
    (if DependsOnLane(terms[0].0) then 0 else Value(terms[0].1, env) * VarValue(terms[0].0, common)) +
    UniformTerms(terms[1..], common, env)
  }

  // The part of an address no lane changes.
  ghost function Uniform(a: AffineExpr, common: Leaf, env: Env): int {
    UniformTerms(a.terms, common, env) + Value(a.base, env)
  }

  predicate LaneConstant(terms: seq<(Var, SymExpr)>) {
    forall i :: 0 <= i < |terms| && DependsOnLane(terms[i].0) ==> terms[i].1.Const?
  }

  lemma {:induction false} NoColumns(s: Swizzles.XorSwizzle, t: int, n: nat)
    requires n <= |s.columns| && forall i :: 0 <= i < |s.columns| ==> s.columns[i] == {}
    ensures Swizzles.EvalBelow(s, t, n) == s.constant
  {
    if n > 0 {
      NoColumns(s, t, n - 1);
      assert Swizzles.Xor(s.constant, {}) == s.constant;
    }
  }

  lemma {:induction false} LaneVar(v: Var, common: Leaf, tid: Index)
    ensures DependsOnLane(v) ==> VarValue(v, ThreadLeaf(common, tid)) == VarValue(v, LaneLeaf(tid))
    ensures !DependsOnLane(v) ==> VarValue(v, ThreadLeaf(common, tid)) == VarValue(v, common)
    decreases v
  {
    match v
    case Floor(x, _) => LaneVar(x, common, tid);
    case Rem(x, _) => LaneVar(x, common, tid);
    case Swizzle(s) =>
      if !DependsOnLane(v) {
        NoColumns(s, tid.x, |s.columns|);
        NoColumns(s, common(Tid(X)), |s.columns|);
      }
    case _ =>
  }

  lemma {:induction false} TermsSplit(terms: seq<(Var, SymExpr)>, common: Leaf, env: Env, tid: Index)
    requires LaneConstant(terms)
    ensures TermsValue(terms, ThreadLeaf(common, tid), env) == Offset(terms, tid) + UniformTerms(terms, common, env)
  {
    hide VarValue, DependsOnLane, Value;
    if terms != [] {
      LaneVar(terms[0].0, common, tid);
      assert LaneConstant(terms[1..]);
      TermsSplit(terms[1..], common, env, tid);
      if DependsOnLane(terms[0].0) {
        ConstValue(terms[0].1.c, env);
      }
    }
  }

  /** A thread's address is its offset moved by the part no lane changes. */
  lemma AddressSplits(a: AffineExpr, common: Leaf, env: Env, tid: Index)
    requires LaneConstant(a.terms)
    ensures FormValue(a, ThreadLeaf(common, tid), env) == Offset(a.terms, tid) + Uniform(a, common, env)
  {
    hide TermsValue, Offset, UniformTerms, Value;
    TermsSplit(a.terms, common, env, tid);
  }

  // Residues of the uniform part

  // A kernel parameter with how far its pointer is aligned.
  type Pointer = Option<(Symbol, Divisor)>

  ghost predicate Respects(env: Env, pointer: Pointer) {
    pointer.Some? ==> env(pointer.value.0) % pointer.value.1 == 0
  }

  // What every value of a summand is a multiple of, its constant apart.
  function Factor(t: SymExpr, pointer: Pointer): int {
    match t
    case Const(_) => SECTOR
    case Sym(s) => if pointer.Some? && pointer.value.0 == s then pointer.value.1 else 1
    case Prod(fs) => if fs != [] && fs[0].Const? then fs[0].c else 1
    case _ => 1
  }

  function Residue(t: SymExpr): int {
    if t.Const? then t.c % SECTOR else 0
  }

  lemma SummandResidue(t: SymExpr, pointer: Pointer, env: Env)
    requires Respects(env, pointer)
    ensures Divides(Factor(t, pointer), Value(t, env) - Residue(t)) || (t.Const? && Divides(SECTOR, Value(t, env) - Residue(t)))
  {
    match t
    case Const(n) => assert n - n % SECTOR == SECTOR * (n / SECTOR);
    case Sym(s) =>
      if pointer.Some? && pointer.value.0 == s {
        var (v, d) := (env(s), pointer.value.1);
        assert v == d * (v / d) + v % d;
      } else {
        assert env(s) == 1 * env(s);
      }
    case Prod(fs) =>
      if fs != [] && fs[0].Const? {
        assert fs[0] == Const(fs[0].c);
        assert Value(t, env) == fs[0].c * Product(fs[1..], env);
      } else {
        assert Value(t, env) == 1 * Value(t, env);
      }
    case _ => assert Value(t, env) == 1 * Value(t, env);
  }

  ghost function ConstantResidues(ts: seq<SymExpr>): int {
    if ts == [] then 0 else ConstantResidues(ts[..|ts| - 1]) + Residue(ts[|ts| - 1])
  }

  // `g` divides the uniform coefficients before `i`.
  ghost predicate DividesTerms(terms: seq<(Var, SymExpr)>, i: nat, g: int)
    requires i <= |terms|
  {
    forall j :: 0 <= j < i && !DependsOnLane(terms[j].0) && terms[j].1.Const? ==> Divides(g, terms[j].1.c)
  }

  ghost predicate OnlyUnit(terms: seq<(Var, SymExpr)>, i: nat, g: int)
    requires i <= |terms|
  {
    forall j :: 0 <= j < i && !DependsOnLane(terms[j].0) && !terms[j].1.Const? ==> g == 1
  }

  ghost predicate DividesSummands(ts: seq<SymExpr>, i: nat, pointer: Pointer, g: int)
    requires i <= |ts|
  {
    forall j :: 0 <= j < i ==> Divides(g, Factor(ts[j], pointer))
  }

  // The coefficient of a uniform term, 1 for one that is no constant.
  function TermNumber(c: SymExpr): int {
    if c.Const? then c.c else 1
  }

  // `h` divides a sector, the first uniform coefficients and the factors of the first summands.
  ghost predicate DividesFirst(terms: seq<(Var, SymExpr)>, i: nat, ts: seq<SymExpr>, j: nat, pointer: Pointer, h: int)
    requires i <= |terms| && j <= |ts|
  {
    && Divides(h, SECTOR)
    && (forall m :: 0 <= m < i && !DependsOnLane(terms[m].0) ==> Divides(h, TermNumber(terms[m].1)))
    && DividesSummands(ts, j, pointer, h)
  }

  // No greater number divides all of them.
  ghost predicate Greatest(terms: seq<(Var, SymExpr)>, i: nat, ts: seq<SymExpr>, j: nat, pointer: Pointer, g: int)
    requires i <= |terms| && j <= |ts|
  {
    forall h: int :: DividesFirst(terms, i, ts, j, pointer, h) ==> Divides(h, g)
  }

  // The constants of the base modulo a sector, and the greatest number that divides a sector, the uniform coefficients
  // and the other summands.
  ghost predicate ResiduesAre(a: AffineExpr, pointer: Pointer, c: int, g: int) {
    && g > 0 && c == ConstantResidues(Parts(a.base))
    && DividesFirst(a.terms, |a.terms|, Parts(a.base), |Parts(a.base)|, pointer, g)
    && Greatest(a.terms, |a.terms|, Parts(a.base), |Parts(a.base)|, pointer, g)
  }

  lemma GreatestStart(terms: seq<(Var, SymExpr)>, ts: seq<SymExpr>, pointer: Pointer)
    ensures Greatest(terms, 0, ts, 0, pointer, SECTOR)
  {
  }

  lemma GreatestTerm(terms: seq<(Var, SymExpr)>, i: nat, ts: seq<SymExpr>, pointer: Pointer, g: int, next: int)
    requires i < |terms| && Greatest(terms, i, ts, 0, pointer, g)
    requires if DependsOnLane(terms[i].0) then next == g
      else forall h: int :: Divides(h, g) && Divides(h, TermNumber(terms[i].1)) ==> Divides(h, next)
    ensures Greatest(terms, i + 1, ts, 0, pointer, next)
  {
    hide Divides, DependsOnLane, Factor;
    forall h: int | DividesFirst(terms, i + 1, ts, 0, pointer, h) ensures Divides(h, next) {
      assert DividesFirst(terms, i, ts, 0, pointer, h);
    }
  }

  lemma GreatestSummand(terms: seq<(Var, SymExpr)>, ts: seq<SymExpr>, j: nat, pointer: Pointer, g: int, next: int)
    requires j < |ts| && Greatest(terms, |terms|, ts, j, pointer, g)
    requires forall h: int :: Divides(h, g) && Divides(h, Factor(ts[j], pointer)) ==> Divides(h, next)
    ensures Greatest(terms, |terms|, ts, j + 1, pointer, next)
  {
    hide Divides, DependsOnLane, Factor;
    forall h: int | DividesFirst(terms, |terms|, ts, j + 1, pointer, h) ensures Divides(h, next) {
      assert DividesFirst(terms, |terms|, ts, j, pointer, h);
    }
  }

  /** The uniform part modulo a sector, as `c` and the multiples of `g`, the greatest that can be told. */
  method UniformResidues(a: AffineExpr, pointer: Pointer) returns (c: int, g: int)
    requires Valid(a)
    ensures ResiduesAre(a, pointer, c, g)
    ensures forall common: Leaf, env: Env :: Respects(env, pointer) ==> Divides(g, Uniform(a, common, env) - c)
  {
    hide Divides, DependsOnLane, Factor, Greatest;
    g := SECTOR;
    SelfDivides(SECTOR);
    GreatestStart(a.terms, Parts(a.base), pointer);
    var i := 0;
    while i < |a.terms|
      invariant 0 <= i <= |a.terms| && g > 0 && Divides(g, SECTOR)
      invariant Greatest(a.terms, i, Parts(a.base), 0, pointer, g)
      invariant DividesTerms(a.terms, i, g) && OnlyUnit(a.terms, i, g)
    {
      if !DependsOnLane(a.terms[i].0) {
        var k := if a.terms[i].1.Const? then a.terms[i].1.c else 1;
        var next := Gcd(g, k);
        DividesTrans(next, g, SECTOR);
        KeepsTerms(a.terms, i, g, next);
        if !a.terms[i].1.Const? {
          UnitDivisor(next);
        }
        GreatestTerm(a.terms, i, Parts(a.base), pointer, g, next);
        g := next;
      } else {
        GreatestTerm(a.terms, i, Parts(a.base), pointer, g, g);
      }
      i := i + 1;
    }
    var ts := Parts(a.base);
    c := 0;
    var j := 0;
    while j < |ts|
      invariant 0 <= j <= |ts| && g > 0 && Divides(g, SECTOR) && Greatest(a.terms, |a.terms|, ts, j, pointer, g)
      invariant DividesTerms(a.terms, |a.terms|, g) && OnlyUnit(a.terms, |a.terms|, g)
      invariant DividesSummands(ts, j, pointer, g) && c == ConstantResidues(ts[..j])
    {
      assert ts[..j + 1][..j] == ts[..j];
      c := c + Residue(ts[j]);
      var next := Gcd(g, Factor(ts[j], pointer));
      DividesTrans(next, g, SECTOR);
      KeepsTerms(a.terms, |a.terms|, g, next);
      KeepsSummands(ts, j, pointer, g, next);
      GreatestSummand(a.terms, ts, j, pointer, g, next);
      g := next;
      j := j + 1;
    }
    assert ts[..j] == ts;
    NumbersDivided(a.terms, g);
    forall common: Leaf, env: Env | Respects(env, pointer) ensures Divides(g, Uniform(a, common, env) - c) {
      ResiduesHold(a, pointer, c, g, common, env);
    }
  }

  lemma NumbersDivided(terms: seq<(Var, SymExpr)>, g: int)
    requires DividesTerms(terms, |terms|, g) && OnlyUnit(terms, |terms|, g)
    ensures forall m :: 0 <= m < |terms| && !DependsOnLane(terms[m].0) ==> Divides(g, TermNumber(terms[m].1))
  {
    hide DependsOnLane;
    SelfDivides(1);
  }

  /** No uniform part leaves another residue over `g` than `c` does. */
  lemma ResiduesHold(a: AffineExpr, pointer: Pointer, c: int, g: int, common: Leaf, env: Env)
    requires ResiduesAre(a, pointer, c, g) && Respects(env, pointer)
    ensures Divides(g, Uniform(a, common, env) - c)
  {
    hide Divides, DependsOnLane, Factor, Greatest, Respects, Value;
    var ts := Parts(a.base);
    forall m | 0 <= m < |a.terms| && !DependsOnLane(a.terms[m].0) && !a.terms[m].1.Const? ensures g == 1 {
      UnitDivisor(g);
    }
    TermsDivide(a.terms, g, common, env);
    SummandsDivide(ts, pointer, g, env);
    PartsValue(a.base, env);
    DividesSum(g, UniformTerms(a.terms, common, env), Total(ts, env) - c);
    assert Uniform(a, common, env) - c == UniformTerms(a.terms, common, env) + (Total(ts, env) - c);
  }

  lemma KeepsTerms(terms: seq<(Var, SymExpr)>, i: nat, g: int, next: int)
    requires i <= |terms| && DividesTerms(terms, i, g) && OnlyUnit(terms, i, g) && g > 0 && next > 0 && Divides(next, g)
    ensures DividesTerms(terms, i, next) && OnlyUnit(terms, i, next)
  {
    hide Divides, DependsOnLane;
    forall j | 0 <= j < i && !DependsOnLane(terms[j].0) && terms[j].1.Const? ensures Divides(next, terms[j].1.c) {
      DividesTrans(next, g, terms[j].1.c);
    }
    if g == 1 {
      UnitDivisor(next);
    }
  }

  lemma KeepsSummands(ts: seq<SymExpr>, j: nat, pointer: Pointer, g: int, next: int)
    requires j < |ts| && DividesSummands(ts, j, pointer, g) && Divides(next, g) && Divides(next, Factor(ts[j], pointer))
    ensures DividesSummands(ts, j + 1, pointer, next)
  {
    hide Divides, Factor;
    forall i | 0 <= i < j ensures Divides(next, Factor(ts[i], pointer)) {
      DividesTrans(next, g, Factor(ts[i], pointer));
    }
  }

  lemma {:induction false} TermsDivide(terms: seq<(Var, SymExpr)>, g: int, common: Leaf, env: Env)
    requires DividesTerms(terms, |terms|, g) && OnlyUnit(terms, |terms|, g)
    ensures Divides(g, UniformTerms(terms, common, env))
  {
    hide DependsOnLane, VarValue, Value;
    if terms == [] {
      assert 0 == g * 0;
    } else {
      var (v, c) := terms[0];
      assert DividesTerms(terms[1..], |terms| - 1, g) by {
        assert forall j :: 0 <= j < |terms| - 1 ==> terms[1..][j] == terms[j + 1];
      }
      assert OnlyUnit(terms[1..], |terms| - 1, g) by {
        assert forall j :: 0 <= j < |terms| - 1 ==> terms[1..][j] == terms[j + 1];
      }
      TermsDivide(terms[1..], g, common, env);
      if !DependsOnLane(v) {
        if c.Const? {
          ConstValue(c.c, env);
          DividesProduct(g, c.c, VarValue(v, common));
        } else {
          assert Value(c, env) * VarValue(v, common) == 1 * (Value(c, env) * VarValue(v, common));
        }
        DividesSum(g, Value(c, env) * VarValue(v, common), UniformTerms(terms[1..], common, env));
      }
    }
  }

  lemma {:induction false} SummandsDivide(ts: seq<SymExpr>, pointer: Pointer, g: int, env: Env)
    requires DividesSummands(ts, |ts|, pointer, g) && Divides(g, SECTOR) && Respects(env, pointer)
    ensures Divides(g, Total(ts, env) - ConstantResidues(ts))
  {
    hide Divides, Value, Factor, Residue, Total;
    NoFactors(env);
    if ts == [] {
      DividesNothing(g);
    } else {
      var n := |ts| - 1;
      var t := ts[n];
      assert ts == ts[..n] + [t];
      SummandsDivide(ts[..n], pointer, g, env);
      TotalAppend(ts[..n], [t], env);
      TotalOne(t, env);
      SummandResidue(t, pointer, env);
      if Divides(Factor(t, pointer), Value(t, env) - Residue(t)) {
        DividesTrans(g, Factor(t, pointer), Value(t, env) - Residue(t));
      } else {
        DividesTrans(g, SECTOR, Value(t, env) - Residue(t));
      }
      DividesSum(g, Total(ts[..n], env) - ConstantResidues(ts[..n]), Value(t, env) - Residue(t));
      assert Total(ts, env) - ConstantResidues(ts) ==
        (Total(ts[..n], env) - ConstantResidues(ts[..n])) + (Value(t, env) - Residue(t));
    }
  }

  // A warp's lanes

  // The offsets of the executing lanes from `l` to `end`.
  function WarpOffsets(terms: seq<(Var, SymExpr)>, shape: Shape, executes: Index -> bool, l: nat, end: nat): seq<int>
    requires end <= Count(shape)
    decreases end - l
  {
    if l >= end then [] else
    (if executes(Thread(l, shape)) then [Offset(terms, Thread(l, shape))] else []) +
    WarpOffsets(terms, shape, executes, l + 1, end)
  }

  // Their addresses.
  ghost function Addresses(a: AffineExpr, common: Leaf, env: Env, shape: Shape, executes: Index -> bool, l: nat,
                           end: nat)
    : seq<int>
    requires end <= Count(shape)
    decreases end - l
  {
    if l >= end then [] else
    (if executes(Thread(l, shape)) then [FormValue(a, ThreadLeaf(common, Thread(l, shape)), env)] else []) +
    Addresses(a, common, env, shape, executes, l + 1, end)
  }

  // Each of `xs` moved by `d`.
  ghost predicate Shifted(xs: seq<int>, ys: seq<int>, d: int) {
    |xs| == |ys| && forall i :: 0 <= i < |xs| ==> ys[i] == xs[i] + d
  }

  lemma {:induction false} AddressesShift(a: AffineExpr, common: Leaf, env: Env, shape: Shape,
                                          executes: Index -> bool, l: nat, end: nat)
    requires LaneConstant(a.terms) && end <= Count(shape)
    ensures Shifted(WarpOffsets(a.terms, shape, executes, l, end), Addresses(a, common, env, shape, executes, l, end),
                    Uniform(a, common, env))
    decreases end - l
  {
    hide Offset, FormValue, Uniform, LaneConstant, Thread;
    if l < end {
      AddressSplits(a, common, env, Thread(l, shape));
      AddressesShift(a, common, env, shape, executes, l + 1, end);
    }
  }

  lemma {:induction false} ShiftedSectors(xs: seq<int>, ys: seq<int>, d: int, bytes: nat)
    requires Shifted(xs, ys, d)
    ensures SectorSet(ys, bytes, 0) == SectorSet(xs, bytes, d)
    ensures |Bytes(ys, bytes)| == |Bytes(xs, bytes)|
  {
    ShiftedSet(xs, ys, d, bytes);
    ShiftedBytes(xs, ys, d, bytes);
    MovedSize(Bytes(xs, bytes), d);
  }

  lemma {:induction false} ShiftedSet(xs: seq<int>, ys: seq<int>, d: int, bytes: nat)
    requires Shifted(xs, ys, d)
    ensures SectorSet(ys, bytes, 0) == SectorSet(xs, bytes, d)
  {
    hide Run;
    if xs != [] {
      ShiftedSet(xs[1..], ys[1..], d, bytes);
    }
  }

  lemma {:induction false} ShiftedBytes(xs: seq<int>, ys: seq<int>, d: int, bytes: nat)
    requires Shifted(xs, ys, d)
    ensures Bytes(ys, bytes) == Moved(Bytes(xs, bytes), d)
  {
    hide Run;
    if xs == [] {
      assert Moved({}, d) == {};
    } else {
      ShiftedBytes(xs[1..], ys[1..], d, bytes);
      var rest, run := Bytes(xs[1..], bytes), Run(xs[0], xs[0] + bytes);
      forall x ensures x in Moved(rest + run, d) <==> x in Moved(rest, d) + Run(ys[0], ys[0] + bytes) {
        MovedHolds(rest + run, d, x);
        MovedHolds(rest, d, x);
      }
      assert Moved(rest + run, d) == Moved(rest, d) + Run(ys[0], ys[0] + bytes);
    }
  }

  ghost predicate AllAligned(xs: seq<int>, align: int)
    requires align > 0
  {
    forall i :: 0 <= i < |xs| ==> xs[i] % align == 0
  }

  // Shifts

  // The shifts below `n` that align a lane of that residue.
  function AlignedShifts(align: Divisor, residue: int, n: nat): (out: seq<int>)
    ensures forall s :: s in out <==> 0 <= s < n && (s + residue) % align == 0
  {
    if n == 0 then [] else
    AlignedShifts(align, residue, n - 1) + if (n - 1 + residue) % align == 0 then [n - 1] else []
  }

  function Congruent(shifts: seq<int>, c: int, g: int): (out: seq<int>)
    requires g > 0
    ensures forall s :: s in out <==> s in shifts && (s - c) % g == 0
  {
    if shifts == [] then [] else
    assert shifts == [shifts[0]] + shifts[1..];
    (if (shifts[0] - c) % g == 0 then [shifts[0]] else []) + Congruent(shifts[1..], c, g)
  }

  // Of the aligned shifts only those that leave `c` over `g`, unless there is no such shift.
  function Narrowed(aligned: seq<int>, c: int, g: int): seq<int>
    requires g > 0
  {
    var known := Congruent(aligned, c, g);
    if known == [] then aligned else known
  }

  /** The residue of the uniform part is one of the shifts tried. */
  lemma UniformIsTried(u: int, align: Divisor, residue: int, c: int, g: int)
    requires SECTOR % align == 0 && (u + residue) % align == 0
    requires g > 0 && Divides(g, SECTOR) && Divides(g, u - c)
    ensures u % SECTOR in Congruent(AlignedShifts(align, residue, SECTOR), c, g)
    ensures u % SECTOR in Narrowed(AlignedShifts(align, residue, SECTOR), c, g)
  {
    hide Divides;
    var s := u % SECTOR;
    assert s == u - SECTOR * (u / SECTOR);
    DividesIs(align, SECTOR);
    DividesProduct(align, SECTOR, -(u / SECTOR));
    DividesIs(align, u + residue);
    DividesSum(align, u + residue, SECTOR * -(u / SECTOR));
    DividesIs(align, s + residue);
    DividesProduct(g, SECTOR, -(u / SECTOR));
    DividesSum(g, u - c, SECTOR * -(u / SECTOR));
    DividesIs(g, s - c);
    assert s + residue == u + residue + SECTOR * -(u / SECTOR);
    assert s - c == u - c + SECTOR * -(u / SECTOR);
    assert s in Congruent(AlignedShifts(align, residue, SECTOR), c, g);
  }

  // Footprints

  datatype CountRange = CountRange(min: nat, max: nat)

  datatype Refusal = NoShape | SymbolicLane | TooFar | Unaligned
  datatype Footprint = Counted(sectors: CountRange, ideal: CountRange) | Refused(why: Refusal)

  function Packed(distinct: nat): nat {
    (distinct + (SECTOR - 1)) / SECTOR
  }

  // `k` sectors hold `n` bytes and no fewer do.
  ghost predicate Fewest(n: nat, k: nat) {
    n <= SECTOR * k && forall j: nat :: n <= SECTOR * j ==> k <= j
  }

  /** Packing takes the fewest sectors, and nothing else is the fewest. */
  lemma PackedIsLeast(n: nat, k: nat)
    ensures Fewest(n, k) <==> k == Packed(n)
  {
    assert Fewest(n, Packed(n));
  }

  function Spread(r: Option<CountRange>, n: nat): CountRange {
    match r
    case None => CountRange(n, n)
    case Some(c) => CountRange(if n < c.min then n else c.min, if c.max < n then n else c.max)
  }

  ghost predicate InRange(r: Option<CountRange>, n: nat) {
    r.Some? && r.value.min <= n <= r.value.max
  }

  // The range of the counts of the first `n` shifts, and of `old_`, is theirs and no wider.
  ghost predicate Tried(r: Option<CountRange>, old_: Option<CountRange>, offsets: seq<int>, bytes: nat,
                        shifts: seq<int>, n: nat)
    requires n <= |shifts|
  {
    && (forall i :: 0 <= i < n ==> InRange(r, SectorCount(offsets, bytes, shifts[i])))
    && (old_.Some? ==> r.Some? && r.value.min <= old_.value.min && old_.value.max <= r.value.max)
    && (n == 0 ==> r == old_)
  }

  method TryShifts(offsets: seq<int>, bytes: nat, shifts: seq<int>,
                   start: Option<CountRange>) returns (r: Option<CountRange>)
    ensures Tried(r, start, offsets, bytes, shifts, |shifts|)
    ensures r.Some? && r != start ==>
      && ((start.Some? && r.value.min == start.value.min) || (exists s :: s in shifts && SectorCount(offsets, bytes, s) == r.value.min))
      && ((start.Some? && r.value.max == start.value.max) || (exists s :: s in shifts && SectorCount(offsets, bytes, s) == r.value.max))
  {
    hide SectorCount;
    r := start;
    var i := 0;
    while i < |shifts|
      invariant 0 <= i <= |shifts| && Tried(r, start, offsets, bytes, shifts, i)
      invariant r.Some? && r != start ==>
        && ((start.Some? && r.value.min == start.value.min) || (exists s :: s in shifts && SectorCount(offsets, bytes, s) == r.value.min))
        && ((start.Some? && r.value.max == start.value.max) || (exists s :: s in shifts && SectorCount(offsets, bytes, s) == r.value.max))
    {
      assert shifts[i] in shifts;
      r := Some(Spread(r, SectorCount(offsets, bytes, shifts[i])));
      i := i + 1;
    }
  }

  // Whether the lane terms, each range taken on its own, sum within 2^62 bytes of 0.
  const OFFSET_LIMIT: int := 0x4000_0000_0000_0000

  function Extent(shape: Shape, axis: Axis): nat {
    match axis
    case X => shape.nx
    case Y => shape.ny
    case Z => shape.nz
  }

  function InBlock(shape: Shape): VarBounds {
    (v: Var) => if v.Tid? && Fits(Extent(shape, v.axis) - 1) then Some((0, Extent(shape, v.axis) - 1)) else None
  }

  // No symbol has bounds.
  function NoSymbols(): Spans.Bounds {
    (s: Symbol) => None
  }

  function OffsetSum(terms: seq<(Var, SymExpr)>, shape: Shape, lo: int, hi: int): Option<(int, int)> {
    if terms == [] then Some((lo, hi)) else
    if !DependsOnLane(terms[0].0) then OffsetSum(terms[1..], shape, lo, hi) else
    match FormRange(Term(terms[0].0, terms[0].1), InBlock(shape), NoSymbols())
    case None => None
    case Some((a, b)) =>
      if Spans.FitsWide(lo + a) && Spans.FitsWide(hi + b) then OffsetSum(terms[1..], shape, lo + a, hi + b) else None
  }

  function OffsetsFit(terms: seq<(Var, SymExpr)>, shape: Shape): bool {
    match OffsetSum(terms, shape, 0, 0)
    case None => false
    case Some((lo, hi)) => -OFFSET_LIMIT <= lo && hi <= OFFSET_LIMIT
  }

  // The offsets of each warp with an executing lane.
  ghost predicate ListsWarps(terms: seq<(Var, SymExpr)>, shape: Shape, executes: Index -> bool, n: nat,
                             warps: seq<seq<int>>)
    requires n <= Warps(shape)
  {
    && (forall w: nat :: w < n && WarpAt(terms, shape, executes, w) != [] ==> WarpAt(terms, shape, executes, w) in warps)
    && (forall xs :: xs in warps ==> xs != [] && exists w: nat :: w < n && xs == WarpAt(terms, shape, executes, w))
  }

  function WarpAt(terms: seq<(Var, SymExpr)>, shape: Shape, executes: Index -> bool, w: nat): seq<int>
    requires w < Warps(shape)
  {
    WarpOffsets(terms, shape, executes, WarpStart(w), WarpEnd(w, shape))
  }

  method WarpLanes(terms: seq<(Var, SymExpr)>, shape: Shape, executes: Index -> bool) returns (warps: seq<seq<int>>)
    ensures ListsWarps(terms, shape, executes, Warps(shape), warps)
  {
    hide WarpAt;
    warps := [];
    var w := 0;
    while w < Warps(shape)
      invariant 0 <= w <= Warps(shape) && ListsWarps(terms, shape, executes, w, warps)
    {
      var offsets := WarpAt(terms, shape, executes, w);
      if offsets != [] {
        warps := warps + [offsets];
      }
      w := w + 1;
    }
  }

  ghost function AddressesAt(a: AffineExpr, common: Leaf, env: Env, shape: Shape, executes: Index -> bool,
                             w: nat): seq<int>
    requires w < Warps(shape)
  {
    Addresses(a, common, env, shape, executes, WarpStart(w), WarpEnd(w, shape))
  }

  // Some executing lane of the block is not aligned there.
  ghost predicate SomeUnaligned(a: AffineExpr, common: Leaf, env: Env, shape: Shape, executes: Index -> bool,
                                align: Divisor) {
    exists w: nat :: w < Warps(shape) && !AllAligned(AddressesAt(a, common, env, shape, executes, w), align)
  }

  // At every uniform part that aligns a warp's lanes, its sectors and its packed bytes lie in the ranges.
  ghost predicate Bounds(a: AffineExpr, bytes: nat, align: Divisor, pointer: Pointer, shape: Shape,
                         executes: Index -> bool, sectors: CountRange, ideal: CountRange)
  {
    forall w: nat, common: Leaf, env: Env ::
      (w < Warps(shape) && AddressesAt(a, common, env, shape, executes, w) != [] &&
       AllAligned(AddressesAt(a, common, env, shape, executes, w), align) && Respects(env, pointer) && SECTOR % align == 0) ==>
        WarpInside(AddressesAt(a, common, env, shape, executes, w), bytes, sectors, ideal)
  }

  ghost predicate WarpInside(xs: seq<int>, bytes: nat, sectors: CountRange, ideal: CountRange) {
    && sectors.min <= SectorCount(xs, bytes, 0) <= sectors.max
    && exists k: nat :: Fewest(|Bytes(xs, bytes)|, k) && ideal.min <= k <= ideal.max && k <= SectorCount(xs, bytes, 0)
  }

  // The ends of the range are counts of warps moved by shifts.
  ghost predicate Attained(r: Option<CountRange>, warps: seq<seq<int>>, bytes: nat, shifts: seq<int>) {
    r.Some? ==>
      && (exists xs, s :: xs in warps && s in shifts && SectorCount(xs, bytes, s) == r.value.min)
      && (exists xs, s :: xs in warps && s in shifts && SectorCount(xs, bytes, s) == r.value.max)
  }

  // The ends of the ideal are the fewest sectors the bytes of warps fill.
  ghost predicate IdealAttained(ideal: CountRange, warps: seq<seq<int>>, bytes: nat) {
    && (exists xs :: xs in warps && Fewest(|Bytes(xs, bytes)|, ideal.min))
    && (exists xs :: xs in warps && Fewest(|Bytes(xs, bytes)|, ideal.max))
  }

  ghost predicate CountsWarps(warps: seq<seq<int>>, n: nat, bytes: nat, shifts: seq<int>, sectors: Option<CountRange>,
                              ideal: Option<CountRange>)
    requires n <= |warps|
  {
    && (forall i, s :: 0 <= i < n && s in shifts ==> InRange(sectors, SectorCount(warps[i], bytes, s)))
    && (forall i :: 0 <= i < n ==> InRange(ideal, Packed(|Bytes(warps[i], bytes)|)))
    && Attained(sectors, warps[..n], bytes, shifts)
    && (ideal.Some? ==> (exists i, j :: 0 <= i < n && 0 <= j < n && Packed(|Bytes(warps[i], bytes)|) == ideal.value.min &&
                           Packed(|Bytes(warps[j], bytes)|) == ideal.value.max))
  }

  lemma CountsNext(warps: seq<seq<int>>, n: nat, bytes: nat, shifts: seq<int>, sectors: Option<CountRange>,
                   ideal: Option<CountRange>, next: Option<CountRange>, packed: nat)
    requires n < |warps| && CountsWarps(warps, n, bytes, shifts, sectors, ideal)
    requires Tried(next, sectors, warps[n], bytes, shifts, |shifts|)
    requires next.Some? && next != sectors ==>
      && ((sectors.Some? && next.value.min == sectors.value.min) || (exists s :: s in shifts && SectorCount(warps[n], bytes, s) == next.value.min))
      && ((sectors.Some? && next.value.max == sectors.value.max) || (exists s :: s in shifts && SectorCount(warps[n], bytes, s) == next.value.max))
    requires packed == Packed(|Bytes(warps[n], bytes)|)
    ensures CountsWarps(warps, n + 1, bytes, shifts, next, Some(Spread(ideal, packed)))
  {
    hide SectorCount, Packed, Bytes;
    assert warps[..n + 1] == warps[..n] + [warps[n]];
    assert warps[n] in warps[..n + 1];
    assert forall xs :: xs in warps[..n] ==> xs in warps[..n + 1];
    forall i, s | 0 <= i < n + 1 && s in shifts ensures InRange(next, SectorCount(warps[i], bytes, s)) {
      if i < n {
        assert InRange(sectors, SectorCount(warps[i], bytes, s));
      } else {
        var k :| 0 <= k < |shifts| && shifts[k] == s;
        assert InRange(next, SectorCount(warps[n], bytes, shifts[k]));
      }
    }
  }

  // The shifts tried: for lanes of one residue those that align it, and of these the ones the uniform part leaves.
  ghost predicate Searched(a: AffineExpr, pointer: Pointer, align: Divisor, residue: int, warps: seq<seq<int>>,
                           shifts: seq<int>)
  {
    (forall i :: 0 <= i < |warps| ==> SameResidue(warps[i], align, residue)) &&
    exists c, g: int :: ResiduesAre(a, pointer, c, g) && shifts == Narrowed(AlignedShifts(align, residue, SECTOR), c, g)
  }

  /**
   * How many sectors a warp's access touches, at the least and the most over warps and over the uniform parts left
   * open, next to the sectors its bytes would fill with no gaps.
   */
  method WarpFootprint(a: AffineExpr, bytes: nat, alignment: nat, pointer: Pointer, shape: Shape,
                       executes: Index -> bool)
    returns (r: Footprint, ghost warps: seq<seq<int>>, ghost shifts: seq<int>, ghost residue: int)
    requires Valid(a) && alignment <= MAX
    ensures bytes == 0 ==> r == Counted(CountRange(0, 0), CountRange(0, 0))
    ensures r == Refused(SymbolicLane) <==>
      bytes > 0 && exists i :: 0 <= i < |a.terms| && DependsOnLane(a.terms[i].0) && !a.terms[i].1.Const?
    ensures r == Refused(NoShape) <==> bytes > 0 && LaneConstant(a.terms) && Count(shape) == 0
    ensures r == Refused(TooFar) <==> bytes > 0 && LaneConstant(a.terms) && Count(shape) > 0 && !OffsetsFit(a.terms, shape)
    ensures r == Refused(Unaligned) ==>
      forall common: Leaf, env: Env :: SomeUnaligned(a, common, env, shape, executes, AtLeast1(alignment))
    ensures r.Counted? && bytes > 0 ==> Bounds(a, bytes, AtLeast1(alignment), pointer, shape, executes, r.sectors, r.ideal)
    ensures r.Counted? && bytes > 0 ==> ListsWarps(a.terms, shape, executes, Warps(shape), warps)
    ensures r.Counted? && bytes > 0 ==> Searched(a, pointer, AtLeast1(alignment), residue, warps, shifts)
    ensures r.Counted? && bytes > 0 && warps != [] && shifts != [] ==>
      Attained(Some(r.sectors), warps, bytes, shifts) && IdealAttained(r.ideal, warps, bytes)
    ensures forall s :: s in shifts ==> 0 <= s < SECTOR
  {
    hide LaneConstant, OffsetsFit, SectorCount, Bytes, ListsWarps, Bounds, CountsWarps, AllAligned, Attained,
      IdealAttained, ResiduesAre, AlignedShifts, Narrowed, Congruent;
    warps, shifts, residue := [], [], 0;
    if bytes == 0 {
      r := Counted(CountRange(0, 0), CountRange(0, 0));
      return;
    }
    LaneConstantIs(a.terms);
    if !LaneConstant(a.terms) {
      r := Refused(SymbolicLane);
      return;
    }
    if Count(shape) == 0 {
      r := Refused(NoShape);
      return;
    }
    if !OffsetsFit(a.terms, shape) {
      r := Refused(TooFar);
      return;
    }
    var align := AtLeast1(alignment);
    var lanes := WarpLanes(a.terms, shape, executes);
    warps := lanes;
    ListedNotEmpty(a.terms, shape, executes, lanes);
    var common := if lanes == [] then 0 else lanes[0][0] % align;
    residue := common;
    if !(forall i :: 0 <= i < |lanes| ==> SameResidue(lanes[i], align, common)) {
      NoneAligns(a, align, shape, executes, lanes, common);
      r := Refused(Unaligned);
      return;
    }
    var c, g := UniformResidues(a, pointer);
    ResidueDivides(a, pointer, c, g);
    var tries := Narrowed(AlignedShifts(align, common, SECTOR), c, g);
    shifts := tries;
    TriesInside(align, common, c, g);
    var sectors: Option<CountRange>, ideal: Option<CountRange> := None, None;
    var i := 0;
    NoCounts(lanes, bytes, tries);
    while i < |lanes|
      invariant 0 <= i <= |lanes| && CountsWarps(lanes, i, bytes, tries, sectors, ideal)
    {
      var distinct := DistinctBytes(lanes[i], bytes);
      var next := TryShifts(lanes[i], bytes, tries, sectors);
      CountsNext(lanes, i, bytes, tries, sectors, ideal, next, Packed(distinct));
      sectors := next;
      ideal := Some(Spread(ideal, Packed(distinct)));
      i := i + 1;
    }
    if sectors.None? {
      r := Counted(CountRange(0, 0), CountRange(0, 0));
    } else {
      IdealKnown(lanes, bytes, tries, sectors, ideal);
      r := Counted(sectors.value, ideal.value);
    }
    CountsBound(a, bytes, align, pointer, shape, executes, lanes, common, c, g, sectors, ideal);
    assert lanes[..i] == lanes;
    CountsAttained(lanes, bytes, tries, sectors, ideal);
    if sectors.Some? {
      IdealIsAttained(lanes, bytes, tries, sectors, ideal);
    }
  }

  lemma LaneConstantIs(terms: seq<(Var, SymExpr)>)
    ensures !LaneConstant(terms) <==> exists i :: 0 <= i < |terms| && DependsOnLane(terms[i].0) && !terms[i].1.Const?
  {
    hide DependsOnLane;
  }

  lemma TriesInside(align: Divisor, residue: int, c: int, g: int)
    requires g > 0
    ensures forall s :: s in Narrowed(AlignedShifts(align, residue, SECTOR), c, g) ==> 0 <= s < SECTOR
  {
  }

  lemma ResidueDivides(a: AffineExpr, pointer: Pointer, c: int, g: int)
    requires ResiduesAre(a, pointer, c, g)
    ensures g > 0 && Divides(g, SECTOR)
  {
  }

  function AtLeast1(n: nat): (d: Divisor)
    requires n <= MAX
    ensures d == n || (n == 0 && d == 1)
  {
    if n == 0 then 1 else n
  }

  lemma ListedNotEmpty(terms: seq<(Var, SymExpr)>, shape: Shape, executes: Index -> bool, warps: seq<seq<int>>)
    requires ListsWarps(terms, shape, executes, Warps(shape), warps)
    ensures forall i :: 0 <= i < |warps| ==> warps[i] != []
  {
    hide WarpAt;
    assert forall i :: 0 <= i < |warps| ==> warps[i] in warps;
  }

  lemma NoCounts(warps: seq<seq<int>>, bytes: nat, shifts: seq<int>)
    ensures CountsWarps(warps, 0, bytes, shifts, None, None)
  {
  }

  lemma IdealKnown(warps: seq<seq<int>>, bytes: nat, shifts: seq<int>, sectors: Option<CountRange>,
                   ideal: Option<CountRange>)
    requires CountsWarps(warps, |warps|, bytes, shifts, sectors, ideal) && sectors.Some?
    ensures ideal.Some?
  {
    hide SectorCount, Bytes, Packed;
    var xs, s :| xs in warps[..|warps|] && s in shifts && SectorCount(xs, bytes, s) == sectors.value.min;
    var i :| 0 <= i < |warps| && warps[i] == xs;
    assert InRange(ideal, Packed(|Bytes(warps[i], bytes)|));
  }

  lemma CountsAttained(warps: seq<seq<int>>, bytes: nat, shifts: seq<int>, sectors: Option<CountRange>,
                       ideal: Option<CountRange>)
    requires CountsWarps(warps, |warps|, bytes, shifts, sectors, ideal)
    ensures Attained(sectors, warps, bytes, shifts)
    ensures warps != [] && shifts != [] ==> sectors.Some?
  {
    hide SectorCount, Bytes, Packed;
    assert warps[..|warps|] == warps;
    if warps != [] && shifts != [] {
      assert shifts[0] in shifts;
      assert InRange(sectors, SectorCount(warps[0], bytes, shifts[0]));
    }
  }

  lemma IdealIsAttained(warps: seq<seq<int>>, bytes: nat, shifts: seq<int>, sectors: Option<CountRange>,
                        ideal: Option<CountRange>)
    requires CountsWarps(warps, |warps|, bytes, shifts, sectors, ideal) && ideal.Some?
    ensures IdealAttained(ideal.value, warps, bytes)
  {
    hide SectorCount, Bytes, Packed, Attained, Fewest;
    var i, j :| 0 <= i < |warps| && 0 <= j < |warps| && Packed(|Bytes(warps[i], bytes)|) == ideal.value.min &&
      Packed(|Bytes(warps[j], bytes)|) == ideal.value.max;
    PackedIsLeast(|Bytes(warps[i], bytes)|, ideal.value.min);
    PackedIsLeast(|Bytes(warps[j], bytes)|, ideal.value.max);
    assert warps[i] in warps && warps[j] in warps;
  }

  /** Lanes of different residues are aligned by no uniform part. */
  lemma NoneAligns(a: AffineExpr, align: Divisor, shape: Shape, executes: Index -> bool, warps: seq<seq<int>>,
                   residue: int)
    requires LaneConstant(a.terms) && ListsWarps(a.terms, shape, executes, Warps(shape), warps)
    requires warps != [] ==> warps[0] != [] && residue == warps[0][0] % align
    requires !(forall i :: 0 <= i < |warps| ==> SameResidue(warps[i], align, residue))
    ensures forall common: Leaf, env: Env :: SomeUnaligned(a, common, env, shape, executes, align)
  {
    hide LaneConstant, WarpAt, Uniform, AddressesAt;
    var i :| 0 <= i < |warps| && !SameResidue(warps[i], align, residue);
    var j :| 0 <= j < |warps[i]| && warps[i][j] % align != residue;
    assert warps[i] in warps && warps[0] in warps;
    var w: nat :| w < Warps(shape) && warps[i] == WarpAt(a.terms, shape, executes, w);
    var v: nat :| v < Warps(shape) && warps[0] == WarpAt(a.terms, shape, executes, v);
    forall common: Leaf, env: Env
      ensures SomeUnaligned(a, common, env, shape, executes, align)
    {
      ShiftAt(a, common, env, shape, executes, w);
      ShiftAt(a, common, env, shape, executes, v);
      var u := Uniform(a, common, env);
      if AllAligned(AddressesAt(a, common, env, shape, executes, w), align) &&
         AllAligned(AddressesAt(a, common, env, shape, executes, v), align) {
        assert AddressesAt(a, common, env, shape, executes, w)[j] == warps[i][j] + u;
        assert AddressesAt(a, common, env, shape, executes, v)[0] == warps[0][0] + u;
        OneResidue(warps[i][j], warps[0][0], u, align);
      }
    }
  }

  lemma ShiftAt(a: AffineExpr, common: Leaf, env: Env, shape: Shape, executes: Index -> bool, w: nat)
    requires LaneConstant(a.terms) && w < Warps(shape)
    ensures Shifted(WarpAt(a.terms, shape, executes, w), AddressesAt(a, common, env, shape, executes, w), Uniform(a, common, env))
  {
    hide LaneConstant, Uniform, Addresses, WarpOffsets;
    AddressesShift(a, common, env, shape, executes, WarpStart(w), WarpEnd(w, shape));
  }

  lemma CountsBound(a: AffineExpr, bytes: nat, align: Divisor, pointer: Pointer, shape: Shape, executes: Index -> bool,
                    warps: seq<seq<int>>, residue: int, c: int, g: int, sectors: Option<CountRange>,
                    ideal: Option<CountRange>)
    requires LaneConstant(a.terms) && ListsWarps(a.terms, shape, executes, Warps(shape), warps) && g > 0 && Divides(g, SECTOR)
    requires forall i :: 0 <= i < |warps| ==> SameResidue(warps[i], align, residue)
    requires forall common: Leaf, env: Env :: Respects(env, pointer) ==> Divides(g, Uniform(a, common, env) - c)
    requires CountsWarps(warps, |warps|, bytes, Narrowed(AlignedShifts(align, residue, SECTOR), c, g), sectors, ideal)
    ensures var fallback := CountRange(0, 0);
      Bounds(a, bytes, align, pointer, shape, executes, if sectors.Some? then sectors.value else fallback,
             if sectors.Some? && ideal.Some? then ideal.value else fallback)
  {
    hide LaneConstant, WarpAt, Uniform, AddressesAt, SectorCount, Bytes, CountsWarps, Divides, Narrowed, AlignedShifts,
      AllAligned, Respects, WarpInside;
    var fallback := CountRange(0, 0);
    var s, p := if sectors.Some? then sectors.value else fallback, if sectors.Some? && ideal.Some? then ideal.value else fallback;
    forall w: nat, common: Leaf, env: Env |
      (w < Warps(shape) && AddressesAt(a, common, env, shape, executes, w) != [] &&
       AllAligned(AddressesAt(a, common, env, shape, executes, w), align) && Respects(env, pointer) && SECTOR % align == 0)
      ensures WarpInside(AddressesAt(a, common, env, shape, executes, w), bytes, s, p)
    {
      var xs, ys, u := WarpAt(a.terms, shape, executes, w), AddressesAt(a, common, env, shape, executes, w), Uniform(a, common, env);
      ShiftAt(a, common, env, shape, executes, w);
      assert xs in warps;
      var i :| 0 <= i < |warps| && warps[i] == xs;
      FirstAligned(xs, ys, u, align, residue);
      WarpBound(warps, i, ys, u, bytes, align, residue, c, g, sectors, ideal);
    }
  }

  lemma FirstAligned(xs: seq<int>, ys: seq<int>, u: int, align: Divisor, residue: int)
    requires Shifted(xs, ys, u) && ys != [] && AllAligned(ys, align) && SameResidue(xs, align, residue)
    ensures (u + residue) % align == 0
  {
    var x := xs[0];
    assert ys[0] == x + u;
    assert x == align * (x / align) + residue;
    QuotientIs(align * (x / align), align, x / align, 0);
    MultipleSum(align * (x / align), u + residue, align);
  }

  lemma WarpBound(warps: seq<seq<int>>, i: nat, ys: seq<int>, u: int, bytes: nat, align: Divisor, residue: int,
                  c: int, g: int, sectors: Option<CountRange>, ideal: Option<CountRange>)
    requires i < |warps| && Shifted(warps[i], ys, u) && SECTOR % align == 0 && (u + residue) % align == 0
    requires g > 0 && Divides(g, SECTOR) && Divides(g, u - c)
    requires CountsWarps(warps, |warps|, bytes, Narrowed(AlignedShifts(align, residue, SECTOR), c, g), sectors, ideal)
    ensures sectors.Some? && ideal.Some? && WarpInside(ys, bytes, sectors.value, ideal.value)
  {
    hide Bytes, Divides, Narrowed, AlignedShifts, SectorSet;
    UniformIsTried(u, align, residue, c, g);
    var shift := u % SECTOR;
    assert InRange(sectors, SectorCount(warps[i], bytes, shift));
    SameResidueSameCount(warps[i], bytes, shift, u);
    ShiftedSectors(warps[i], ys, u, bytes);
    assert InRange(ideal, Packed(|Bytes(warps[i], bytes)|));
    PackedAtMostTouched(ys, bytes, 0);
    PackedIsLeast(|Bytes(ys, bytes)|, Packed(|Bytes(ys, bytes)|));
  }
}
