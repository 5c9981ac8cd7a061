// The three-dimensional grid of stencilprobe_bench and its flat row-major layout.
module Grid {
  import opened Arithmetic

  datatype Geometry = Geometry(nx: nat, ny: nat, nz: nat)

  datatype Point = Point(x: int, y: int, z: int)

  // Index3D of common.h.
  function Index3D(nx: int, ny: int, i: int, j: int, k: int): int {
    i + nx * (j + ny * k)
  }

  function Size(g: Geometry): nat {
    g.nx * g.ny * g.nz
  }

  predicate InGrid(g: Geometry, p: Point) {
    0 <= p.x < g.nx && 0 <= p.y < g.ny && 0 <= p.z < g.nz
  }

  // The cells the sweeps write: everything but the outermost layer.
  predicate Interior(g: Geometry, p: Point) {
    1 <= p.x < g.nx - 1 && 1 <= p.y < g.ny - 1 && 1 <= p.z < g.nz - 1
  }

  // p and q are the two ends of an arm of the 7-point stencil.
  predicate Neighbours(p: Point, q: Point) {
    || (q.y == p.y && q.z == p.z && (q.x == p.x + 1 || q.x == p.x - 1))
    || (q.x == p.x && q.z == p.z && (q.y == p.y + 1 || q.y == p.y - 1))
    || (q.x == p.x && q.y == p.y && (q.z == p.z + 1 || q.z == p.z - 1))
  }

  function Index(g: Geometry, p: Point): (n: nat)
    requires InGrid(g, p)
    ensures n < Size(g)
  {
    IndexInRange(g, p);
    Index3D(g.nx, g.ny, p.x, p.y, p.z)
  }

  // The grid point stored in flat cell n.
  function PointAt(g: Geometry, n: nat): (p: Point)
    requires n < Size(g)
    ensures InGrid(g, p) && Index(g, p) == n
  {
    PointAtIsInverse(g, n);
    Point(n % g.nx, (n / g.nx) % g.ny, n / g.nx / g.ny)
  }

  lemma IndexInRange(g: Geometry, p: Point)
    requires InGrid(g, p)
    ensures 0 <= Index3D(g.nx, g.ny, p.x, p.y, p.z) < Size(g)
  {
    var row := p.y + g.ny * p.z;
    MulUpper(p.z, g.nz, g.ny);
    assert 0 <= g.ny * p.z;
    assert 0 <= row < g.ny * g.nz;
    MulUpper(row, g.ny * g.nz, g.nx);
    assert 0 <= g.nx * row;
    assert g.nx * (g.ny * g.nz) == Size(g);
  }

  // x runs fastest, z slowest.
  lemma IndexStrides(nx: int, ny: int, i: int, j: int, k: int)
    ensures Index3D(nx, ny, 0, 0, 0) == 0
    ensures Index3D(nx, ny, i + 1, j, k) == Index3D(nx, ny, i, j, k) + 1
    ensures Index3D(nx, ny, i, j + 1, k) == Index3D(nx, ny, i, j, k) + nx
    ensures Index3D(nx, ny, i, j, k + 1) == Index3D(nx, ny, i, j, k) + nx * ny
  {
    var row := j + ny * k;
    assert nx * (row + 1) == nx * row + nx;
    assert ny * (k + 1) == ny * k + ny;
    assert nx * (row + ny) == nx * row + nx * ny;
  }

  // Distinct grid points live in distinct cells.
  lemma IndexInjective(g: Geometry, p: Point, q: Point)
    requires InGrid(g, p) && InGrid(g, q)
    requires Index(g, p) == Index(g, q)
    ensures p == q
  {
    QuotientUnique(p.y + g.ny * p.z, q.y + g.ny * q.z, p.x, q.x, g.nx);
    QuotientUnique(p.z, q.z, p.y, q.y, g.ny);
  }

  lemma HasSides(g: Geometry)
    requires Size(g) > 0
    ensures g.nx > 0 && g.ny > 0 && g.nz > 0
  {
  }

  lemma QuotientInRange(n: nat, d: nat, m: nat)
    requires n < d * m
    ensures d > 0 && 0 <= n / d < m && 0 <= n % d < d && n == n % d + d * (n / d)
  {
  }

  lemma SizeAsRows(g: Geometry)
    ensures Size(g) == g.nx * (g.ny * g.nz)
  {
  }

  lemma PointAtIsInverse(g: Geometry, n: nat)
    requires n < Size(g)
    ensures g.nx > 0 && g.ny > 0
    ensures
      var p := Point(n % g.nx, (n / g.nx) % g.ny, n / g.nx / g.ny);
      InGrid(g, p) && Index3D(g.nx, g.ny, p.x, p.y, p.z) == n
  {
    SizeAsRows(g);
    QuotientInRange(n, g.nx, g.ny * g.nz);
    var row := n / g.nx;
    QuotientInRange(row, g.ny, g.nz);
  }
}
