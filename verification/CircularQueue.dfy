// The geometry of probe_heat_circqueue.c: slabs of rows, the queue regions that
// hold one time level each, and what the code computes in a slab.
module CircularQueue {
  import opened Arithmetic
  import opened Grid
  import opened Stencil

  // The rows one slab works on. A slab owns ty rows; earlier time steps
  // compute a margin around them, one row narrower on each side per step.
  datatype Slab = Slab(ny: int, start: int, ty: int, steps: int)
  {
    ghost predicate Valid() {
      0 <= start && 0 < ty && start + ty <= ny - 2 && 1 <= steps
    }

    function RawMin(t: int): int { start - (steps - t) + 2 }

    function RawMax(t: int): int { start + ty + (steps - t) }

    // writeBlockMin_y, writeBlockRealMin_y, writeBlockMax_y, writeBlockRealMax_y.
    function Min(t: int): int { if RawMin(t) < 1 then 0 else RawMin(t) }

    function RealMin(t: int): int { if RawMin(t) < 1 then 1 else RawMin(t) }

    function Max(t: int): int { if RawMax(t) > ny - 1 then ny else RawMax(t) }

    function RealMax(t: int): int { if RawMax(t) > ny - 1 then ny - 1 else RawMax(t) }

    // The row that readOffset points at.
    function ReadRow(t: int): int { if Min(t) == 0 || t == 0 then 0 else Min(t) - 1 }

    // Step t computes this cell of a plane nx wide.
    ghost predicate Computes(t: int, nx: int, j: int, i: int) {
      RealMin(t) <= j < RealMax(t) && 1 <= i < nx - 1
    }

    // Step t copies this ghost cell.
    ghost predicate Copies(t: int, nx: int, j: int, i: int) {
      || ((i == 0 || i == nx - 1) && Min(t) + 1 <= j < Max(t) - 1)
      || (1 <= i < nx - 1 && j == 0 && Min(t) == 0)
      || (1 <= i < nx - 1 && j == ny - 1 && Max(t) == ny)
    }

    ghost predicate Writes(t: int, nx: int, j: int, i: int) {
      Computes(t, nx, j, i) || (t < steps - 1 && Copies(t, nx, j, i))
    }

    function Rows(u: int): int { ty + 2 * (steps - u) }
  }

  // What step t reads relative to where step t-1 wrote: the same row origin,
  // and only cells that were written.
  lemma ReadsWhatWasWritten(s: Slab, t: int, nx: int, j: int, i: int)
    requires s.Valid() && 1 <= t < s.steps && nx > 0
    ensures s.ReadRow(t) == s.Min(t - 1)
    ensures s.Computes(t, nx, j, i) ==>
              && s.Writes(t - 1, nx, j, i)
              && s.Writes(t - 1, nx, j - 1, i) && s.Writes(t - 1, nx, j + 1, i)
              && s.Writes(t - 1, nx, j, i - 1) && s.Writes(t - 1, nx, j, i + 1)
    ensures t < s.steps - 1 && s.Copies(t, nx, j, i) ==> s.Writes(t - 1, nx, j, i)
  {
  }

  // The rows written by step t fit the region of level t+1.
  lemma WritesInRows(s: Slab, t: int, nx: int, j: int, i: int)
    requires s.Valid() && 0 <= t < s.steps && nx > 0 && s.Writes(t, nx, j, i)
    ensures 0 <= j < s.ny && 0 <= i < nx
    ensures 0 <= j - s.Min(t) && (t < s.steps - 1 ==> j - s.Min(t) < s.Rows(t + 1))
  {
  }

  // Index3D of a cell relative to the start of a row of the same plane: the
  // form in which every queue access is written.
  function Rel(g: Geometry, i: int, j: int, z: int, row: int): int {
    Index3D(g.nx, g.ny, i, j, z) - Index3D(g.nx, g.ny, 0, row, z)
  }

  lemma RelIsRowMajor(g: Geometry, i: int, j: int, z: int, row: int)
    ensures Rel(g, i, j, z, row) == i + g.nx * (j - row)
  {
    var a, b := g.ny * z + j, g.ny * z + row;
    assert g.nx * a - g.nx * b == g.nx * (a - b);
  }

  lemma RelInRange(g: Geometry, i: int, j: int, z: int, row: int, rows: int)
    requires 0 <= i < g.nx && 0 <= j - row < rows
    ensures 0 <= Rel(g, i, j, z, row) < rows * g.nx
  {
    RelIsRowMajor(g, i, j, z, row);
    MulUpper(j - row, rows, g.nx);
  }

  lemma RelInjective(g: Geometry, i: int, j: int, i': int, j': int, z: int, row: int)
    requires 0 <= i < g.nx && 0 <= i' < g.nx
    requires Rel(g, i, j, z, row) == Rel(g, i', j', z, row)
    ensures i == i' && j == j'
  {
    RelIsRowMajor(g, i, j, z, row);
    RelIsRowMajor(g, i', j', z, row);
    QuotientUnique(j - row, j' - row, i, i', g.nx);
  }

  // Seen from the start of plane z', a cell of plane z shifted up by row rows.
  lemma RelInPlane(g: Geometry, i: int, j: int, z: int, row: int, z': int)
    ensures Index3D(g.nx, g.ny, 0, 0, z') + Rel(g, i, j, z, row) == Index3D(g.nx, g.ny, i, j - row, z')
  {
    RelIsRowMajor(g, i, j, z, row);
    RelIsRowMajor(g, i, j - row, z', 0);
  }

  // What the code computes in a slab, whatever it is given. Boundary cells
  // come from A0 at every level; the two ghost planes are read through
  // readOffset, ReadRow(t) rows too low.
  ghost function GhostRow(s: Slab, t: int, y: int): int {
    if 1 <= y - s.ReadRow(t) <= y then y - s.ReadRow(t) else y
  }

  ghost function Ghost<T>(p: Problem<T>, s: Slab, t: int, c: Point): T
    requires p.Valid() && InGrid(p.g, c)
  {
    p.Initial(0, c.(y := GhostRow(s, t, c.y)))
  }

  ghost function Val<T>(p: Problem<T>, s: Slab, t: int, c: Point): T
    requires p.Valid() && InGrid(p.g, c)
    decreases t, 0
  {
    if t <= 0 || !Interior(p.g, c) then p.Initial(0, c) else p.f(p.fac, Reads(p, s, t - 1, c))
  }

  ghost function Reads<T>(p: Problem<T>, s: Slab, t: int, c: Point): Cells<T>
    requires p.Valid() && Interior(p.g, c)
    decreases t, 1
  {
    Cells(Val(p, s, t, c),
          Val(p, s, t, c.(x := c.x + 1)), Val(p, s, t, c.(x := c.x - 1)),
          Val(p, s, t, c.(y := c.y + 1)), Val(p, s, t, c.(y := c.y - 1)),
          if c.z == p.g.nz - 2 then Ghost(p, s, t, c.(z := c.z + 1)) else Val(p, s, t, c.(z := c.z + 1)),
          if c.z == 1 then Ghost(p, s, t, c.(z := c.z - 1)) else Val(p, s, t, c.(z := c.z - 1)))
  }

  // Where the region of time level u starts in a queue plane: queuePlanesIndices[u-1].
  function RegionStart(nx: int, ty: int, steps: int, u: int): int {
    if u <= 1 then 0 else RegionStart(nx, ty, steps, u - 1) + RegionSize(nx, ty, steps, u - 1)
  }

  function RegionSize(nx: int, ty: int, steps: int, u: int): int {
    (ty + 2 * (steps - u)) * nx
  }

  // A plane's regions in closed form: their sizes fall by two rows per level.
  lemma {:induction false} RegionStartClosed(nx: int, ty: int, steps: int, u: int)
    requires 1 <= u
    ensures RegionStart(nx, ty, steps, u) == (u - 1) * (ty + 2 * steps - u) * nx
    decreases u
  {
    if u > 1 {
      RegionStartClosed(nx, ty, steps, u - 1);
      var a := ty + 2 * steps - u;
      assert (u - 2) * (a + 1) + (a - u + 2) == (u - 1) * a by {
        assert (u - 2) * (a + 1) == (u - 2) * a + (u - 2);
        assert (u - 1) * a == (u - 2) * a + a;
      }
      assert ((u - 2) * (a + 1)) * nx + (a - u + 2) * nx == ((u - 2) * (a + 1) + (a - u + 2)) * nx;
    } else {
      assert (u - 1) * (ty + 2 * steps - u) == 0;
    }
  }

  // Regions of different levels do not overlap, and all end before the plane does.
  lemma {:induction false} RegionsOrdered(nx: nat, ty: nat, steps: int, u: int, v: int)
    requires 1 <= u <= v <= steps
    ensures 0 <= RegionStart(nx, ty, steps, u) <= RegionStart(nx, ty, steps, v)
    ensures u < v ==>
              RegionStart(nx, ty, steps, u) + RegionSize(nx, ty, steps, u) <= RegionStart(nx, ty, steps, v)
    ensures 0 <= RegionSize(nx, ty, steps, u)
    decreases v
  {
    hide RegionSize;
    RegionSizePositive(nx, ty, steps, u);
    if u < v {
      RegionsOrdered(nx, ty, steps, u, v - 1);
      RegionSizePositive(nx, ty, steps, v - 1);
    } else if 1 < u {
      RegionsOrdered(nx, ty, steps, u - 1, u - 1);
      RegionSizePositive(nx, ty, steps, u - 1);
    }
  }

  lemma RegionSizePositive(nx: nat, ty: nat, steps: int, u: int)
    requires u <= steps
    ensures 0 <= RegionSize(nx, ty, steps, u)
  {
  }

  // The three planes occupy the three thirds of the allocation in some order.
  ghost predicate Thirds(b0: int, b1: int, b2: int, w: int) {
    && (b0 == 0 || b0 == w || b0 == 2 * w) && (b1 == 0 || b1 == w || b1 == 2 * w)
    && (b2 == 0 || b2 == w || b2 == 2 * w)
    && (w > 0 ==> b0 != b1 && b0 != b2 && b1 != b2)
  }

  // The cells at base hold level u of plane z of the slab, where step u-1 wrote it.
  ghost predicate PlaneHolds<T>(p: Problem<T>, s: Slab, c: seq<T>, base: int, u: int, z: int)
    requires p.Valid()
  {
    forall j, i :: s.Writes(u - 1, p.g.nx, j, i) ==> CellHolds(p, s, c, base, u, z, j, i)
  }

  ghost predicate CellHolds<T>(p: Problem<T>, s: Slab, c: seq<T>, base: int, u: int, z: int, j: int, i: int)
    requires p.Valid()
  {
    var d := base + Rel(p.g, i, j, z, s.Min(u - 1));
    InGrid(p.g, Point(i, j, z)) && 0 <= d < |c| && c[d] == Val(p, s, u, Point(i, j, z))
  }

  // At iteration k, after steps 0..tt-1: the region of level u holds planes
  // k-u-1, k-u and, once step u-1 has run, k-u+1 of this slab.
  ghost predicate QueueHolds<T>(p: Problem<T>, s: Slab, c: seq<T>, b0: int, b1: int, b2: int, k: int, tt: int)
    requires p.Valid()
  {
    forall u {:trigger RegionStart(p.g.nx, s.ty, s.steps, u)} :: 1 <= u < s.steps ==>
      var at := RegionStart(p.g.nx, s.ty, s.steps, u);
      && (1 <= k - u - 1 < p.g.nz - 1 ==> PlaneHolds(p, s, c, b0 + at, u, k - u - 1))
      && (1 <= k - u < p.g.nz - 1 ==> PlaneHolds(p, s, c, b1 + at, u, k - u))
      && (u <= tt && 1 <= k - u + 1 < p.g.nz - 1 ==> PlaneHolds(p, s, c, b2 + at, u, k - u + 1))
  }

  // A slab starts with nothing: whatever an earlier slab left is not relied on.
  lemma QueueEmpty<T>(p: Problem<T>, s: Slab, c: seq<T>, b0: int, b1: int, b2: int)
    requires p.Valid()
    ensures QueueHolds(p, s, c, b0, b1, b2, 1, 0)
  {
  }

  // Rotating the planes turns iteration k into iteration k+1.
  lemma QueueRotates<T>(p: Problem<T>, s: Slab, c: seq<T>, b0: int, b1: int, b2: int, k: int)
    requires p.Valid() && QueueHolds(p, s, c, b0, b1, b2, k, s.steps)
    ensures QueueHolds(p, s, c, b1, b2, b0, k + 1, 0)
  {
  }

  // Writing cells lo..hi leaves a plane elsewhere alone.
  lemma PlaneKeeps<T>(p: Problem<T>, s: Slab, c: seq<T>, c': seq<T>, base: int, u: int, z: int, lo: int, hi: int)
    requires p.Valid() && s.Valid() && s.ny == p.g.ny && p.g.nx > 0 && 1 <= u < s.steps
    requires PlaneHolds(p, s, c, base, u, z)
    requires |c'| == |c| && forall a :: 0 <= a < |c| && !(lo <= a < hi) ==> c'[a] == c[a]
    requires base + RegionSize(p.g.nx, s.ty, s.steps, u) <= lo || hi <= base
    ensures PlaneHolds(p, s, c', base, u, z)
  {
    hide Rel;
    forall j, i | s.Writes(u - 1, p.g.nx, j, i) ensures CellHolds(p, s, c', base, u, z, j, i) {
      assert CellHolds(p, s, c, base, u, z, j, i);
      WritesInRows(s, u - 1, p.g.nx, j, i);
      RelInRange(p.g, i, j, z, s.Min(u - 1), s.Rows(u));
    }
  }

  // One step of an iteration, on an active plane or not.
  lemma QueueSteps<T>(p: Problem<T>, s: Slab, c: seq<T>, c': seq<T>, b0: int, b1: int, b2: int, k: int, t: int)
    requires p.Valid() && s.Valid() && s.ny == p.g.ny && p.g.nx > 0 && 0 <= t < s.steps
    requires Thirds(b0, b1, b2, RegionStart(p.g.nx, s.ty, s.steps, s.steps))
    requires QueueHolds(p, s, c, b0, b1, b2, k, t)
    requires
      var lo := b2 + RegionStart(p.g.nx, s.ty, s.steps, t + 1);
      var hi := lo + RegionSize(p.g.nx, s.ty, s.steps, t + 1);
      if t < s.steps - 1 && 1 <= k - t < p.g.nz - 1 then
        && PlaneHolds(p, s, c', lo, t + 1, k - t)
        && |c'| == |c| && (forall a :: 0 <= a < |c| && !(lo <= a < hi) ==> c'[a] == c[a])
      else c' == c
    ensures QueueHolds(p, s, c', b0, b1, b2, k, t + 1)
  {
    hide PlaneHolds;
    hide RegionSize;
    if t < s.steps - 1 && 1 <= k - t < p.g.nz - 1 {
      var lo := b2 + RegionStart(p.g.nx, s.ty, s.steps, t + 1);
      var hi := lo + RegionSize(p.g.nx, s.ty, s.steps, t + 1);
      forall u {:trigger RegionStart(p.g.nx, s.ty, s.steps, u)} | 1 <= u < s.steps
        ensures
          var at := RegionStart(p.g.nx, s.ty, s.steps, u);
          && (1 <= k - u - 1 < p.g.nz - 1 ==> PlaneHolds(p, s, c', b0 + at, u, k - u - 1))
          && (1 <= k - u < p.g.nz - 1 ==> PlaneHolds(p, s, c', b1 + at, u, k - u))
          && (u <= t + 1 && 1 <= k - u + 1 < p.g.nz - 1 ==> PlaneHolds(p, s, c', b2 + at, u, k - u + 1))
      {
        var at := RegionStart(p.g.nx, s.ty, s.steps, u);
        RegionsOrdered(p.g.nx, s.ty, s.steps, u, s.steps);
        RegionsOrdered(p.g.nx, s.ty, s.steps, t + 1, s.steps);
        if u < t + 1 {
          RegionsOrdered(p.g.nx, s.ty, s.steps, u, t + 1);
        } else if t + 1 < u {
          RegionsOrdered(p.g.nx, s.ty, s.steps, t + 1, u);
        }
        if 1 <= k - u - 1 < p.g.nz - 1 {
          PlaneKeeps(p, s, c, c', b0 + at, u, k - u - 1, lo, hi);
        }
        if 1 <= k - u < p.g.nz - 1 {
          PlaneKeeps(p, s, c, c', b1 + at, u, k - u, lo, hi);
        }
        if u <= t && 1 <= k - u + 1 < p.g.nz - 1 {
          PlaneKeeps(p, s, c, c', b2 + at, u, k - u + 1, lo, hi);
        }
      }
    }
  }
}
