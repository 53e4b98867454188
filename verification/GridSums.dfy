/** Sums over every index of a grid. */
module GridSums {
  import opened Divisions
  import opened Lanes

  // Over the first `n` of a row, of a plane's rows and of the planes.
  ghost function RowSum(f: Index -> nat, n: nat, y: int, z: int): nat {
    if n == 0 then 0 else RowSum(f, n - 1, y, z) + f(Index(n - 1, y, z))
  }

  ghost function PlaneSum(f: Index -> nat, nx: nat, n: nat, z: int): nat {
    if n == 0 then 0 else PlaneSum(f, nx, n - 1, z) + RowSum(f, nx, n - 1, z)
  }

  ghost function SolidSum(f: Index -> nat, nx: nat, ny: nat, n: nat): nat {
    if n == 0 then 0 else SolidSum(f, nx, ny, n - 1) + PlaneSum(f, nx, ny, n - 1)
  }

  // Over the first `n` by linear index.
  ghost function LinearSum(f: Index -> nat, shape: Shape, n: nat): nat
    requires n <= Count(shape)
  {
    if n == 0 then 0 else LinearSum(f, shape, n - 1) + f(Thread(n - 1, shape))
  }

  lemma LinearBelow(shape: Shape, x: nat, y: nat, z: nat)
    requires x <= shape.nx && (x > 0 ==> y < shape.ny && z < shape.nz)
    requires y <= shape.ny && (y > 0 ==> z < shape.nz) && z <= shape.nz
    ensures 0 <= Linear(Index(x, y, z), shape) <= Count(shape)
  {
    if x > 0 {
      ThreadOfLinear(Index(x - 1, y, z), shape);
    } else if y > 0 {
      if shape.nx > 0 {
        ThreadOfLinear(Index(shape.nx - 1, y - 1, z), shape);
        Distributes(shape.nx, y - 1 + shape.ny * z, 1);
      } else {
        assert 0 * (y + shape.ny * z) == 0;
      }
    } else {
      Associates(shape.nx, shape.ny, z);
      Distributes(shape.nx * shape.ny, z, shape.nz - z);
      assert shape.nx * shape.ny * (shape.nz - z) >= 0;
    }
  }

  /** Counting by linear index counts row by row, plane by plane. */
  lemma {:induction false} LinearIsNested(f: Index -> nat, shape: Shape, x: nat, y: nat, z: nat)
    requires x <= shape.nx && (x > 0 ==> y < shape.ny && z < shape.nz)
    requires y <= shape.ny && (y > 0 ==> z < shape.nz) && z <= shape.nz
    ensures 0 <= Linear(Index(x, y, z), shape) <= Count(shape)
    ensures LinearSum(f, shape, Linear(Index(x, y, z), shape)) ==
            SolidSum(f, shape.nx, shape.ny, z) + PlaneSum(f, shape.nx, y, z) + RowSum(f, x, y, z)
    decreases z, y, x
  {
    LinearBelow(shape, x, y, z);
    if x > 0 {
      LinearIsNested(f, shape, x - 1, y, z);
      ThreadOfLinear(Index(x - 1, y, z), shape);
    } else if y > 0 {
      Distributes(shape.nx, y - 1 + shape.ny * z, 1);
      assert Linear(Index(shape.nx, y - 1, z), shape) == Linear(Index(0, y, z), shape);
      LinearIsNested(f, shape, shape.nx, y - 1, z);
    } else if z > 0 {
      Distributes(shape.ny, z - 1, 1);
      assert Linear(Index(0, shape.ny, z - 1), shape) == Linear(Index(0, 0, z), shape);
      LinearIsNested(f, shape, 0, shape.ny, z - 1);
    } else {
      assert Linear(Index(0, 0, 0), shape) == 0;
    }
  }

  lemma WholeIsNested(f: Index -> nat, shape: Shape)
    ensures LinearSum(f, shape, Count(shape)) == SolidSum(f, shape.nx, shape.ny, shape.nz)
  {
    LinearIsNested(f, shape, 0, 0, shape.nz);
    Associates(shape.nx, shape.ny, shape.nz);
    assert Linear(Index(0, 0, shape.nz), shape) == Count(shape);
  }

  // Which axes something reads.
  datatype Axes = Axes(x: bool, y: bool, z: bool)

  ghost predicate Agree(i: Index, j: Index, used: Axes) {
    (used.x ==> i.x == j.x) && (used.y ==> i.y == j.y) && (used.z ==> i.z == j.z)
  }

  ghost predicate ReadsOnly(f: Index -> nat, used: Axes) {
    forall i: Index, j: Index :: Agree(i, j, used) ==> f(i) == f(j)
  }

  lemma {:induction false} UnreadRow(f: Index -> nat, used: Axes, n: nat, y: int, z: int)
    requires ReadsOnly(f, used) && !used.x
    ensures RowSum(f, n, y, z) == n * RowSum(f, 1, y, z)
  {
    if n > 0 {
      UnreadRow(f, used, n - 1, y, z);
      assert Agree(Index(n - 1, y, z), Index(0, y, z), used);
      assert RowSum(f, 1, y, z) == RowSum(f, 0, y, z) + f(Index(0, y, z));
      var one := RowSum(f, 1, y, z);
      assert n * one == (n - 1) * one + one;
    }
  }

  lemma {:induction false} SameRow(f: Index -> nat, used: Axes, n: nat, y: int, z: int, v: int, w: int)
    requires ReadsOnly(f, used) && (used.y ==> y == v) && (used.z ==> z == w)
    ensures RowSum(f, n, y, z) == RowSum(f, n, v, w)
  {
    if n > 0 {
      SameRow(f, used, n - 1, y, z, v, w);
      assert Agree(Index(n - 1, y, z), Index(n - 1, v, w), used);
    }
  }

  lemma {:induction false} UnreadPlane(f: Index -> nat, used: Axes, nx: nat, n: nat, z: int)
    requires ReadsOnly(f, used) && !used.y
    ensures PlaneSum(f, nx, n, z) == n * PlaneSum(f, nx, 1, z)
  {
    if n > 0 {
      UnreadPlane(f, used, nx, n - 1, z);
      SameRow(f, used, nx, n - 1, z, 0, z);
      assert PlaneSum(f, nx, 1, z) == PlaneSum(f, nx, 0, z) + RowSum(f, nx, 0, z);
      var one := PlaneSum(f, nx, 1, z);
      assert n * one == (n - 1) * one + one;
    }
  }

  lemma {:induction false} SamePlane(f: Index -> nat, used: Axes, nx: nat, n: nat, z: int, w: int)
    requires ReadsOnly(f, used) && (used.z ==> z == w)
    ensures PlaneSum(f, nx, n, z) == PlaneSum(f, nx, n, w)
  {
    if n > 0 {
      SamePlane(f, used, nx, n - 1, z, w);
      SameRow(f, used, nx, n - 1, z, n - 1, w);
    }
  }

  lemma {:induction false} UnreadSolid(f: Index -> nat, used: Axes, nx: nat, ny: nat, n: nat)
    requires ReadsOnly(f, used) && !used.z
    ensures SolidSum(f, nx, ny, n) == n * SolidSum(f, nx, ny, 1)
  {
    if n > 0 {
      UnreadSolid(f, used, nx, ny, n - 1);
      SamePlane(f, used, nx, ny, n - 1, 0);
      assert SolidSum(f, nx, ny, 1) == SolidSum(f, nx, ny, 0) + PlaneSum(f, nx, ny, 0);
      var one := SolidSum(f, nx, ny, 1);
      assert n * one == (n - 1) * one + one;
    }
  }

  lemma {:induction false} PlaneFactor(f: Index -> nat, k: nat, nx: nat, mx: nat, n: nat, z: int)
    requires forall y: int :: RowSum(f, nx, y, z) == k * RowSum(f, mx, y, z)
    ensures PlaneSum(f, nx, n, z) == k * PlaneSum(f, mx, n, z)
  {
    if n > 0 {
      PlaneFactor(f, k, nx, mx, n - 1, z);
      Distributes(k, PlaneSum(f, mx, n - 1, z), RowSum(f, mx, n - 1, z));
    }
  }

  lemma {:induction false} SolidFactor(f: Index -> nat, k: nat, nx: nat, ny: nat, mx: nat, my: nat, n: nat)
    requires forall z: int :: PlaneSum(f, nx, ny, z) == k * PlaneSum(f, mx, my, z)
    ensures SolidSum(f, nx, ny, n) == k * SolidSum(f, mx, my, n)
  {
    if n > 0 {
      SolidFactor(f, k, nx, ny, mx, my, n - 1);
      Distributes(k, SolidSum(f, mx, my, n - 1), PlaneSum(f, mx, my, n - 1));
    }
  }

  // The grid of the axes read, one index on each other, and the indices of those.
  function Reduced(grid: Shape, used: Axes): Shape {
    Shape(if used.x then grid.nx else 1, if used.y then grid.ny else 1, if used.z then grid.nz else 1)
  }

  function Unread(n: nat, used: bool): nat {
    if used then 1 else n
  }

  function Rest(grid: Shape, used: Axes): nat {
    Unread(grid.nx, used.x) * Unread(grid.ny, used.y) * Unread(grid.nz, used.z)
  }

  /** A sum that does not read an axis only multiplies by its extent. */
  lemma UnreadAxesMultiply(f: Index -> nat, used: Axes, grid: Shape)
    requires ReadsOnly(f, used)
    ensures LinearSum(f, grid, Count(grid)) ==
            Rest(grid, used) * LinearSum(f, Reduced(grid, used), Count(Reduced(grid, used)))
  {
    hide ReadsOnly, LinearSum;
    WholeIsNested(f, grid);
    var m := Reduced(grid, used);
    WholeIsNested(f, m);
    var kx, ky, kz := Unread(grid.nx, used.x), Unread(grid.ny, used.y), Unread(grid.nz, used.z);
    forall z: int ensures PlaneSum(f, grid.nx, grid.ny, z) == (kx * ky) * PlaneSum(f, m.nx, m.ny, z) {
      PlaneReduces(f, used, grid, z);
    }
    SolidFactor(f, kx * ky, grid.nx, grid.ny, m.nx, m.ny, grid.nz);
    if !used.z {
      UnreadSolid(f, used, m.nx, m.ny, grid.nz);
    }
    var one := SolidSum(f, m.nx, m.ny, m.nz);
    assert SolidSum(f, m.nx, m.ny, grid.nz) == kz * one;
    Associates(kx * ky, kz, one);
  }

  lemma PlaneReduces(f: Index -> nat, used: Axes, grid: Shape, z: int)
    requires ReadsOnly(f, used)
    ensures var m := Reduced(grid, used);
      PlaneSum(f, grid.nx, grid.ny, z) ==
      (Unread(grid.nx, used.x) * Unread(grid.ny, used.y)) * PlaneSum(f, m.nx, m.ny, z)
  {
    hide ReadsOnly, RowSum, PlaneSum;
    var m := Reduced(grid, used);
    var kx, ky := Unread(grid.nx, used.x), Unread(grid.ny, used.y);
    forall y: int ensures RowSum(f, grid.nx, y, z) == kx * RowSum(f, m.nx, y, z) {
      if !used.x {
        UnreadRow(f, used, grid.nx, y, z);
      }
    }
    PlaneFactor(f, kx, grid.nx, m.nx, grid.ny, z);
    if !used.y {
      UnreadPlane(f, used, m.nx, grid.ny, z);
    }
    var one := PlaneSum(f, m.nx, m.ny, z);
    assert PlaneSum(f, m.nx, grid.ny, z) == ky * one;
    Associates(kx, ky, one);
  }
}
