/** Threads of a block by their linear index, and the warps they make. */
module Lanes {
  import opened Divisions

  datatype Index = Index(x: int, y: int, z: int)

  // A block or a grid: its extent on each axis.
  datatype Shape = Shape(nx: nat, ny: nat, nz: nat)

  const WARP := 32

  function Count(shape: Shape): nat {
    shape.nx * shape.ny * shape.nz
  }

  ghost predicate Inside(i: Index, shape: Shape) {
    0 <= i.x < shape.nx && 0 <= i.y < shape.ny && 0 <= i.z < shape.nz
  }

  // The linear index, x varying fastest.
  function Linear(i: Index, shape: Shape): int {
    i.x + shape.nx * (i.y + shape.ny * i.z)
  }

  // The thread of a linear index.
  function Thread(t: int, shape: Shape): Index
    requires Count(shape) > 0
  {
    PositiveExtents(shape);
    Index(t % shape.nx, t / shape.nx % shape.ny, t / (shape.nx * shape.ny))
  }

  lemma PositiveExtents(shape: Shape)
    requires Count(shape) > 0
    ensures shape.nx > 0 && shape.ny > 0 && shape.nz > 0 && shape.nx * shape.ny > 0
  {
  }

  /** Every linear index below the count is its thread's, in the block. */
  lemma LinearOfThread(t: int, shape: Shape)
    requires 0 <= t < Count(shape)
    ensures Inside(Thread(t, shape), shape) && Linear(Thread(t, shape), shape) == t
  {
    PositiveExtents(shape);
    var nx, ny, nz := shape.nx, shape.ny, shape.nz;
    var q := t / nx;
    assert t == nx * q + t % nx;
    assert q == ny * (q / ny) + q % ny;
    NestedQuotient(t, nx, ny);
    assert t / (nx * ny) == q / ny;
    FloorAtMost(t, nx * ny, nz - 1);
    assert (nz - 1 + 1) * (nx * ny) == nx * ny * nz;
    FloorGrows(0, t, nx * ny);
  }

  /** The thread after another: one further in x, or from the end of a row the next row's first, or the next layer's. */
  lemma ThreadAfter(t: int, shape: Shape)
    requires 0 <= t && t + 1 < Count(shape)
    ensures Thread(0, shape) == Index(0, 0, 0)
    ensures var i := Thread(t, shape);
      Thread(t + 1, shape) == if i.x + 1 < shape.nx then Index(i.x + 1, i.y, i.z)
                              else if i.y + 1 < shape.ny then Index(0, i.y + 1, i.z)
                              else Index(0, 0, i.z + 1)
  {
    hide Thread, Linear;
    LinearOfThread(t, shape);
    LinearOfThread(t + 1, shape);
    var i := Thread(t, shape);
    var next := if i.x + 1 < shape.nx then Index(i.x + 1, i.y, i.z)
      else if i.y + 1 < shape.ny then Index(0, i.y + 1, i.z) else Index(0, 0, i.z + 1);
    NextLinear(i, shape);
    FirstThread(shape);
    NextInside(i, next, t, shape);
    ThreadOfLinear(next, shape);
  }

  lemma FirstThread(shape: Shape)
    requires Count(shape) > 0
    ensures Thread(0, shape) == Index(0, 0, 0)
  {
    PositiveExtents(shape);
  }

  // Along a row, then along a layer, then through the layers, the linear index goes up by one.
  lemma NextLinear(i: Index, shape: Shape)
    ensures Linear(Index(i.x + 1, i.y, i.z), shape) == Linear(i, shape) + 1
    ensures i.x + 1 == shape.nx ==> Linear(Index(0, i.y + 1, i.z), shape) == Linear(i, shape) + 1
    ensures i.x + 1 == shape.nx && i.y + 1 == shape.ny ==> Linear(Index(0, 0, i.z + 1), shape) == Linear(i, shape) + 1
  {
    var nx, ny := shape.nx, shape.ny;
    Distributes(nx, i.y + ny * i.z, 1);
    Distributes(ny, i.z, 1);
  }

  lemma NextInside(i: Index, next: Index, t: int, shape: Shape)
    requires Inside(i, shape) && Linear(i, shape) == t && t + 1 < Count(shape)
    requires next == if i.x + 1 < shape.nx then Index(i.x + 1, i.y, i.z)
      else if i.y + 1 < shape.ny then Index(0, i.y + 1, i.z) else Index(0, 0, i.z + 1)
    ensures Inside(next, shape)
  {
    if i.z + 1 >= shape.nz && i.x + 1 >= shape.nx && i.y + 1 >= shape.ny {
      LastLinear(shape);
    }
  }

  lemma LastLinear(shape: Shape)
    requires Count(shape) > 0
    ensures Linear(Index(shape.nx - 1, shape.ny - 1, shape.nz - 1), shape) == Count(shape) - 1
  {
    var nx, ny, nz := shape.nx, shape.ny, shape.nz;
    Distributes(ny, nz, -1);
    Distributes(nx, ny * nz, -1);
    assert nx * (ny * nz) == nx * ny * nz;
  }

  lemma NestedQuotient(t: int, a: int, b: int)
    requires a > 0 && b > 0
    ensures a * b > 0 && t / (a * b) == t / a / b
  {
    var q := t / a;
    var r := q % b;
    assert t == a * q + t % a;
    assert q == b * (q / b) + r;
    Distributes(a, b * (q / b), r);
    Associates(a, b, q / b);
    assert a * r <= a * (b - 1) by { Distributes(a, r, b - 1 - r); assert a * (b - 1 - r) >= 0; }
    assert a * (b - 1) == a * b - a by { Distributes(a, b, -1); }
    assert a * r >= 0;
    assert a * b > 0 by { Grows(a, b); }
    QuotientIs(t, a * b, q / b, a * r + t % a);
  }

  /** And every thread of the block has its own below the count. */
  lemma ThreadOfLinear(i: Index, shape: Shape)
    requires Inside(i, shape)
    ensures 0 <= Linear(i, shape) < Count(shape) && Thread(Linear(i, shape), shape) == i
  {
    var nx, ny, nz := shape.nx, shape.ny, shape.nz;
    var q := i.y + ny * i.z;
    assert 0 <= ny * i.z <= ny * (nz - 1) by {
      Distributes(ny, i.z, nz - 1 - i.z);
      assert ny * (nz - 1 - i.z) >= 0;
    }
    Distributes(ny, nz, -1);
    assert 0 <= q <= ny * nz - 1;
    assert 0 <= nx * q <= nx * (ny * nz - 1) by {
      Distributes(nx, q, ny * nz - 1 - q);
      assert nx * (ny * nz - 1 - q) >= 0;
    }
    Distributes(nx, ny * nz, -1);
    Associates(nx, ny, nz);
    QuotientIs(Linear(i, shape), nx, q, i.x);
    QuotientIs(q, ny, i.z, i.y);
    NestedQuotient(Linear(i, shape), nx, ny);
  }

  // The warps: runs of 32 consecutive threads, the last maybe shorter.
  function Warps(shape: Shape): nat {
    (Count(shape) + (WARP - 1)) / WARP
  }

  function WarpStart(w: nat): nat {
    WARP * w
  }

  function WarpEnd(w: nat, shape: Shape): nat {
    var e := WARP * (w + 1);
    if e < Count(shape) then e else Count(shape)
  }

  /** Each thread is in exactly one warp, that of its index divided by 32. */
  lemma WarpsPartition(t: nat, w: nat, shape: Shape)
    requires t < Count(shape)
    ensures t / WARP < Warps(shape)
    ensures w < Warps(shape) && WarpStart(w) <= t < WarpEnd(w, shape) <==> w == t / WARP
  {
  }
}
