/** A product of trip counts summed over the CTAs of a grid. */
module CtaSums {
  import opened Wrappers
  import opened Divisions
  import opened SymExprs
  import opened SymExprValues
  import opened SymExprSymbols
  import opened SymQuotients
  import opened Lanes
  import opened GridSums
  import LaunchSums

  const U64: nat := 0x1_0000_0000_0000_0000

  // How many trips a loop makes; for a `!=` latch also how far its counter goes, and by what at a time.
  datatype Trips = Trips(count: SymExpr, distance: Option<(SymExpr, Int64)>)

  // The symbols of the CTA index.
  datatype Registers = Registers(x: Symbol, y: Symbol, z: Symbol)

  ghost predicate Formed(loops: seq<Trips>) {
    forall i :: 0 <= i < |loops| ==> Shaped(loops[i].count) && (loops[i].distance.Some? ==> Shaped(loops[i].distance.value.0))
  }

  // -- one CTA --------------------------------------------------------------------------

  function CtaAt(regs: Registers, c: Index): Bindings
    requires Fits(c.x) && Fits(c.y) && Fits(c.z)
  {
    map[regs.z := c.z][regs.y := c.y][regs.x := c.x]
  }

  ghost predicate Distinct(regs: Registers) {
    regs.x != regs.y && regs.y != regs.z && regs.x != regs.z
  }

  // What every symbol is at a CTA.
  function EnvAt(regs: Registers, c: Index, env: Env): Env {
    (s: Symbol) => if s == regs.x then c.x else if s == regs.y then c.y else if s == regs.z then c.z else env(s)
  }

  // The division leaves nothing over and gives at least one trip.
  predicate DividesUp(x: Int64, step: Int64) {
    && step != 0 && !(x == MIN && step == -1)
    && x % step == 0 && (if step > 0 then x >= step else x <= step)
  }

  function AsConst(e: SymExpr): Option<Int64> {
    if e.Const? then Some(e.c) else None
  }

  // The product of the counts at a CTA, none where one is not known or negative, or the product past 64 bits.
  function WeightAt(loops: seq<Trips>, regs: Registers, c: Index): Option<nat>
    requires Formed(loops) && Fits(c.x) && Fits(c.y) && Fits(c.z)
  {
    if loops == [] then Some(1) else
    var last := loops[|loops| - 1];
    match (WeightAt(loops[..|loops| - 1], regs, c), AsConst(Bind(last.count, CtaAt(regs, c))))
    case (Some(w), Some(n)) =>
      if last.distance.Some? && !Divides(last.distance.value, regs, c) then None
      else Checked(w, n)
    case _ => None
  }

  function Checked(w: nat, n: int): Option<nat> {
    if n < 0 || w * n >= U64 then None else Some(w * n)
  }

  predicate Divides(distance: (SymExpr, Int64), regs: Registers, c: Index)
    requires Shaped(distance.0) && Fits(c.x) && Fits(c.y) && Fits(c.z)
  {
    var x := AsConst(Bind(distance.0, CtaAt(regs, c)));
    x.Some? && DividesUp(x.value, distance.1)
  }

  /** The product of the counts' values at a CTA. */
  ghost function Counts(loops: seq<Trips>, regs: Registers, c: Index, env: Env): int {
    if loops == [] then 1 else
    Counts(loops[..|loops| - 1], regs, c, env) * Value(loops[|loops| - 1].count, EnvAt(regs, c, env))
  }

  lemma BoundIsAt(e: SymExpr, regs: Registers, c: Index, env: Env)
    requires Shaped(e) && Distinct(regs) && NonNegative(env) && Fits(c.x) && Fits(c.y) && Fits(c.z)
    requires Bind(e, CtaAt(regs, c)).Const?
    ensures Bind(e, CtaAt(regs, c)).c == Value(e, EnvAt(regs, c, env))
  {
    hide Bind, Value;
    BindValue(e, CtaAt(regs, c), env);
    ConstValue(Bind(e, CtaAt(regs, c)).c, env);
    ValueOfSymbols(e, Bound(CtaAt(regs, c), env), EnvAt(regs, c, env));
  }

  /**
   * The weight is the product of the counts' values, no count negative, and every distance a positive multiple of its
   * step.
   */
  lemma {:induction false} WeightIsProduct(loops: seq<Trips>, regs: Registers, c: Index, env: Env)
    requires Formed(loops) && Distinct(regs) && NonNegative(env) && Fits(c.x) && Fits(c.y) && Fits(c.z)
    requires WeightAt(loops, regs, c).Some?
    ensures WeightAt(loops, regs, c).value == Counts(loops, regs, c, env)
    ensures forall i :: 0 <= i < |loops| ==> Value(loops[i].count, EnvAt(regs, c, env)) >= 0
    ensures forall i :: 0 <= i < |loops| && loops[i].distance.Some? ==>
      var (x, step) := loops[i].distance.value; exists q :: q >= 1 && Value(x, EnvAt(regs, c, env)) == step * q
  {
    hide Bind, Value, Shaped, EnvAt, CtaAt;
    if loops != [] {
      var front, last := loops[..|loops| - 1], loops[|loops| - 1];
      WeightIsProduct(front, regs, c, env);
      BoundIsAt(last.count, regs, c, env);
      if last.distance.Some? {
        var (x, step) := last.distance.value;
        BoundIsAt(x, regs, c, env);
        Positive(Value(x, EnvAt(regs, c, env)), step);
      }
      assert loops == front + [last];
    }
  }

  lemma Positive(x: int, step: int)
    requires step != 0 && x % step == 0 && (if step > 0 then x >= step else x <= step)
    ensures exists q :: q >= 1 && x == step * q
  {
    var q := x / step;
    assert x == step * q + x % step;
    if step > 0 {
      AtLeastOne(step, q);
    } else {
      assert -step * q == -(step * q);
      AtLeastOne(-step, q);
    }
    assert q >= 1 && x == step * q;
  }

  lemma AtLeastOne(step: int, q: int)
    requires step > 0 && step * q >= step
    ensures q >= 1
  {
    Distributes(step, q, -1);
    assert step * (q - 1) >= 0;
  }

  // -- the grid ----------------------------------------------------------------------------

  // The axes the counts read.
  function AxesRead(loops: seq<Trips>, regs: Registers): Axes {
    Axes(exists i :: 0 <= i < |loops| && regs.x in Symbols(loops[i].count),
         exists i :: 0 <= i < |loops| && regs.y in Symbols(loops[i].count),
         exists i :: 0 <= i < |loops| && regs.z in Symbols(loops[i].count))
  }

  ghost function CountsFrom(loops: seq<Trips>, regs: Registers, env: Env): Index -> nat {
    (c: Index) => if Counts(loops, regs, c, env) < 0 then 0 else Counts(loops, regs, c, env)
  }

  lemma {:induction false} SameCounts(loops: seq<Trips>, regs: Registers, used: Axes, c: Index, d: Index, env: Env)
    requires Distinct(regs) && Agree(c, d, used)
    requires forall i :: 0 <= i < |loops| && regs.x in Symbols(loops[i].count) ==> used.x
    requires forall i :: 0 <= i < |loops| && regs.y in Symbols(loops[i].count) ==> used.y
    requires forall i :: 0 <= i < |loops| && regs.z in Symbols(loops[i].count) ==> used.z
    ensures Counts(loops, regs, c, env) == Counts(loops, regs, d, env)
  {
    hide Value, Symbols;
    if loops != [] {
      SameCounts(loops[..|loops| - 1], regs, used, c, d, env);
      ValueOfSymbols(loops[|loops| - 1].count, EnvAt(regs, c, env), EnvAt(regs, d, env));
    }
  }

  lemma CountsReadOnly(loops: seq<Trips>, regs: Registers, env: Env)
    requires Distinct(regs)
    ensures ReadsOnly(CountsFrom(loops, regs, env), AxesRead(loops, regs))
  {
    hide Counts, Symbols;
    var used := AxesRead(loops, regs);
    forall c: Index, d: Index | Agree(c, d, used)
      ensures CountsFrom(loops, regs, env)(c) == CountsFrom(loops, regs, env)(d)
    {
      SameCounts(loops, regs, used, c, d, env);
    }
  }

  // The sums so far are those of the counts at every valuation of the other symbols.
  ghost predicate SumsTo(loops: seq<Trips>, regs: Registers, m: Shape, x: nat, y: nat, z: nat, sum: nat) {
    forall env: Env :: NonNegative(env) ==>
      var f := CountsFrom(loops, regs, env); sum == SolidSum(f, m.nx, m.ny, z) + PlaneSum(f, m.nx, y, z) + RowSum(f, x, y, z)
  }

  /** The counts' product summed over every CTA of the grid. */
  ghost predicate GridSumIs(loops: seq<Trips>, regs: Registers, grid: Shape, sum: nat) {
    forall env: Env :: NonNegative(env) ==> sum == LinearSum(CountsFrom(loops, regs, env), grid, Count(grid))
  }

  lemma AddCta(loops: seq<Trips>, regs: Registers, m: Shape, x: nat, y: nat, z: nat, sum: nat)
    requires Formed(loops) && Distinct(regs) && SumsTo(loops, regs, m, x, y, z, sum) && Fits(x) && Fits(y) && Fits(z)
    requires WeightAt(loops, regs, Index(x, y, z)).Some?
    ensures SumsTo(loops, regs, m, x + 1, y, z, sum + WeightAt(loops, regs, Index(x, y, z)).value)
  {
    hide WeightAt, Counts, NonNegative, SolidSum, PlaneSum, Formed;
    forall env: Env | NonNegative(env)
      ensures var f := CountsFrom(loops, regs, env);
        sum + WeightAt(loops, regs, Index(x, y, z)).value ==
        SolidSum(f, m.nx, m.ny, z) + PlaneSum(f, m.nx, y, z) + RowSum(f, x + 1, y, z)
    {
      WeightIsProduct(loops, regs, Index(x, y, z), env);
    }
  }

  lemma Totals(loops: seq<Trips>, regs: Registers, grid: Shape, sum: nat)
    requires Distinct(regs)
    requires var m := Reduced(grid, AxesRead(loops, regs)); SumsTo(loops, regs, m, 0, 0, m.nz, sum)
    ensures GridSumIs(loops, regs, grid, Rest(grid, AxesRead(loops, regs)) * sum)
  {
    hide Counts, NonNegative, SolidSum, AxesRead, LinearSum, ReadsOnly, Rest;
    var used := AxesRead(loops, regs);
    var m := Reduced(grid, used);
    forall env: Env | NonNegative(env)
      ensures Rest(grid, used) * sum == LinearSum(CountsFrom(loops, regs, env), grid, Count(grid))
    {
      var f := CountsFrom(loops, regs, env);
      CountsReadOnly(loops, regs, env);
      UnreadAxesMultiply(f, used, grid);
      WholeIsNested(f, m);
    }
  }

  /**
   * The product of the loops' counts summed over the grid, each axis no count reads only multiplying.
   */
  method CtaSum(loops: seq<Trips>, regs: Registers, grid: Shape) returns (r: Option<nat>)
    requires Formed(loops) && Distinct(regs) && grid.nx < 0x1_0000_0000 && grid.ny < 0x1_0000_0000 && grid.nz < 0x1_0000_0000
    ensures r.Some? ==> GridSumIs(loops, regs, grid, r.value) && r.value < U64
    ensures r.None? && Count(grid) > 0 ==> Uncounted(loops, regs, grid)
  {
    hide SumsTo, WeightAt, Formed, GridSumIs, AxesRead, Uncounted;
    var used := AxesRead(loops, regs);
    var m := Reduced(grid, used);
    TooMany(loops, regs, grid);
    if Count(m) > LaunchSums.CTA_BUDGET {
      return None;
    }
    var sum: nat := 0;
    Nothing(loops, regs, m);
    for z := 0 to m.nz
      invariant sum < U64 && SumsTo(loops, regs, m, 0, 0, z, sum)
    {
      for y := 0 to m.ny
        invariant sum < U64 && SumsTo(loops, regs, m, 0, y, z, sum)
      {
        for x := 0 to m.nx
          invariant sum < U64 && SumsTo(loops, regs, m, x, y, z, sum)
        {
          var weight := WeightAt(loops, regs, Index(x, y, z));
          if weight.None? {
            NoWeight(loops, regs, grid, Index(x, y, z));
            return None;
          }
          AddCta(loops, regs, m, x, y, z, sum);
          if sum + weight.value >= U64 {
            SumPasses(loops, regs, grid, x + 1, y, z, sum + weight.value);
            return None;
          }
          sum := sum + weight.value;
        }
        RowEnds(loops, regs, m, y, z, sum);
      }
      PlaneEnds(loops, regs, m, z, sum);
    }
    Totals(loops, regs, grid, sum);
    r := Multiplied(sum, grid, used);
    if Rest(grid, used) * sum >= U64 {
      TotalPasses(loops, regs, grid, Rest(grid, used) * sum);
    }
  }

  // The sum times the extents of the axes not read, in their order, none past 64 bits.
  method Multiplied(sum: nat, grid: Shape, used: Axes) returns (r: Option<nat>)
    requires sum < U64
    ensures r.Some? ==> r.value == Rest(grid, used) * sum && r.value < U64
    ensures r.None? && Count(grid) > 0 ==> Rest(grid, used) * sum >= U64
  {
    RestTimes(grid, used, sum);
    hide Rest, Count;
    var left := sum;
    if !used.x {
      left := left * grid.nx;
      if left >= U64 {
        return None;
      }
    }
    if !used.y {
      left := left * grid.ny;
      if left >= U64 {
        return None;
      }
    }
    if !used.z {
      left := left * grid.nz;
      if left >= U64 {
        return None;
      }
    }
    r := Some(left);
  }

  // Why no sum is given: too many CTAs read, one without a weight, or a sum past 64 bits.
  ghost predicate Uncounted(loops: seq<Trips>, regs: Registers, grid: Shape)
    requires Formed(loops) && grid.nx < 0x1_0000_0000 && grid.ny < 0x1_0000_0000 && grid.nz < 0x1_0000_0000
  {
    var m := Reduced(grid, AxesRead(loops, regs));
    || Count(m) > LaunchSums.CTA_BUDGET
    || (exists c :: Inside(c, m) && WeightAt(loops, regs, c).None?)
    || Passes64(loops, regs, grid)
  }

  // At some valuation of the other symbols the sum over the grid is past 64 bits.
  ghost predicate Passes64(loops: seq<Trips>, regs: Registers, grid: Shape) {
    exists env: Env :: NonNegative(env) && LinearSum(CountsFrom(loops, regs, env), grid, Count(grid)) >= U64
  }

  lemma TooMany(loops: seq<Trips>, regs: Registers, grid: Shape)
    requires Formed(loops) && grid.nx < 0x1_0000_0000 && grid.ny < 0x1_0000_0000 && grid.nz < 0x1_0000_0000
    ensures Count(Reduced(grid, AxesRead(loops, regs))) > LaunchSums.CTA_BUDGET ==> Uncounted(loops, regs, grid)
  {
  }

  lemma NoWeight(loops: seq<Trips>, regs: Registers, grid: Shape, c: Index)
    requires Formed(loops) && grid.nx < 0x1_0000_0000 && grid.ny < 0x1_0000_0000 && grid.nz < 0x1_0000_0000
    requires Inside(c, Reduced(grid, AxesRead(loops, regs))) && WeightAt(loops, regs, c).None?
    ensures Uncounted(loops, regs, grid)
  {
    hide WeightAt, AxesRead, Formed, Passes64;
  }

  lemma SomeEnv() returns (env: Env)
    ensures NonNegative(env)
  {
    env := (s: Symbol) => 0;
  }

  lemma TotalPasses(loops: seq<Trips>, regs: Registers, grid: Shape, total: nat)
    requires Formed(loops) && grid.nx < 0x1_0000_0000 && grid.ny < 0x1_0000_0000 && grid.nz < 0x1_0000_0000
    requires GridSumIs(loops, regs, grid, total) && total >= U64
    ensures Uncounted(loops, regs, grid)
  {
    hide WeightAt, AxesRead, Formed, LinearSum, NonNegative;
    var env := SomeEnv();
    assert LinearSum(CountsFrom(loops, regs, env), grid, Count(grid)) >= U64;
  }

  lemma {:induction false} RowGrows(f: Index -> nat, x: nat, nx: nat, y: int, z: int)
    requires x <= nx
    ensures RowSum(f, x, y, z) <= RowSum(f, nx, y, z)
    decreases nx
  {
    if x < nx {
      RowGrows(f, x, nx - 1, y, z);
    }
  }

  lemma {:induction false} PlaneGrows(f: Index -> nat, nx: nat, y: nat, ny: nat, z: int)
    requires y <= ny
    ensures PlaneSum(f, nx, y, z) <= PlaneSum(f, nx, ny, z)
    decreases ny
  {
    if y < ny {
      PlaneGrows(f, nx, y, ny - 1, z);
    }
  }

  lemma {:induction false} SolidGrows(f: Index -> nat, nx: nat, ny: nat, z: nat, nz: nat)
    requires z <= nz
    ensures SolidSum(f, nx, ny, z) <= SolidSum(f, nx, ny, nz)
    decreases nz
  {
    if z < nz {
      SolidGrows(f, nx, ny, z, nz - 1);
    }
  }

  // A sum over part of the axes read is at most the whole one.
  lemma PartBelow(f: Index -> nat, m: Shape, x: nat, y: nat, z: nat)
    requires x <= m.nx && y < m.ny && z < m.nz
    ensures SolidSum(f, m.nx, m.ny, z) + PlaneSum(f, m.nx, y, z) + RowSum(f, x, y, z) <= LinearSum(f, m, Count(m))
  {
    hide LinearSum;
    WholeIsNested(f, m);
    RowGrows(f, x, m.nx, y, z);
    PlaneGrows(f, m.nx, y + 1, m.ny, z);
    SolidGrows(f, m.nx, m.ny, z + 1, m.nz);
  }

  lemma SumPasses(loops: seq<Trips>, regs: Registers, grid: Shape, x: nat, y: nat, z: nat, sum: nat)
    requires Formed(loops) && grid.nx < 0x1_0000_0000 && grid.ny < 0x1_0000_0000 && grid.nz < 0x1_0000_0000
    requires Distinct(regs) && sum >= U64
    requires var m := Reduced(grid, AxesRead(loops, regs));
      x <= m.nx && y < m.ny && z < m.nz && SumsTo(loops, regs, m, x, y, z, sum)
    ensures Count(grid) > 0 ==> Uncounted(loops, regs, grid)
  {
    hide WeightAt, AxesRead, Formed, LinearSum, NonNegative, Counts, ReadsOnly, SolidSum, PlaneSum, RowSum, Rest;
    var used := AxesRead(loops, regs);
    var m := Reduced(grid, used);
    if Count(grid) > 0 {
      var env := SomeEnv();
      var f := CountsFrom(loops, regs, env);
      PartBelow(f, m, x, y, z);
      CountsReadOnly(loops, regs, env);
      UnreadAxesMultiply(f, used, grid);
      RestPositive(grid, used);
      var part := LinearSum(f, m, Count(m));
      assert Rest(grid, used) * part >= part by { TimesAtLeast(Rest(grid, used), part); }
      assert LinearSum(f, grid, Count(grid)) >= U64;
    }
  }

  lemma TimesAtLeast(k: nat, x: nat)
    requires k >= 1
    ensures k * x >= x
  {
    Distributes(x, k - 1, 1);
    assert (k - 1) * x >= 0;
  }

  lemma RestPositive(grid: Shape, used: Axes)
    requires Count(grid) > 0
    ensures Rest(grid, used) >= 1
  {
    PositiveExtents(grid);
    var kx, ky, kz := Unread(grid.nx, used.x), Unread(grid.ny, used.y), Unread(grid.nz, used.z);
    TimesAtLeast(kx, ky);
    TimesAtLeast(kx * ky, kz);
  }

  lemma RestTimes(grid: Shape, used: Axes, sum: nat)
    ensures var x := if used.x then sum else sum * grid.nx;
      var y := if used.y then x else x * grid.ny;
      var z := if used.z then y else y * grid.nz;
      Rest(grid, used) * sum == z && (Count(grid) > 0 ==> z >= y >= x)
  {
    hide Unread, Count;
    RestIs(Unread(grid.nx, used.x), Unread(grid.ny, used.y), Unread(grid.nz, used.z), sum);
    var x := if used.x then sum else sum * grid.nx;
    var y := if used.y then x else x * grid.ny;
    Scaled(sum, grid.nx, used.x);
    Scaled(x, grid.ny, used.y);
    Scaled(y, grid.nz, used.z);
    if Count(grid) > 0 {
      PositiveExtents(grid);
    }
  }

  // One extent's part in the product.
  lemma Scaled(x: nat, n: nat, used: bool)
    ensures (if used then x else x * n) == x * Unread(n, used)
    ensures n >= 1 ==> (if used then x else x * n) >= x
  {
    if n >= 1 {
      TimesAtLeast(n, x);
    }
  }

  lemma RestIs(kx: nat, ky: nat, kz: nat, sum: nat)
    ensures kx * ky * kz * sum == sum * kx * ky * kz
  {
    Associates(sum, kx, ky);
    Associates(sum, kx * ky, kz);
  }

  lemma Nothing(loops: seq<Trips>, regs: Registers, m: Shape)
    ensures SumsTo(loops, regs, m, 0, 0, 0, 0)
  {
  }

  lemma RowEnds(loops: seq<Trips>, regs: Registers, m: Shape, y: nat, z: nat, sum: nat)
    requires SumsTo(loops, regs, m, m.nx, y, z, sum)
    ensures SumsTo(loops, regs, m, 0, y + 1, z, sum)
  {
    hide NonNegative, Counts;
  }

  lemma PlaneEnds(loops: seq<Trips>, regs: Registers, m: Shape, z: nat, sum: nat)
    requires SumsTo(loops, regs, m, 0, m.ny, z, sum)
    ensures SumsTo(loops, regs, m, 0, 0, z + 1, sum)
  {
    hide NonNegative, Counts;
  }
}
