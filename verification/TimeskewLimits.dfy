// What probe_heat_timeskew.c does with block sizes that do not divide the grid:
// it overwrites the boundary.
module TimeskewLimits {
  import opened Arithmetic
  import opened Grid
  import opened Stencil
  import opened ProbeTimeskew

  // The loop over one axis starts a block at c.
  ghost predicate StartsAt(c: int, n: int, w: int)
    requires w > 0
  {
    1 <= c < n - 1 && (c - 1) % w == 0
  }

  // The loop bounds of the block at c include x at step t.
  ghost predicate Includes(c: int, n: int, w: int, t: int, x: int) {
    var neg, pos := if c == 1 then 0 else 1, if c == n - w - 1 then 0 else -1;
    Max(1, c - t * neg) <= x < Max(1, c + w + t * pos)
  }

  // No block of an axis reaches its boundary at any step.
  ghost predicate StaysInside(n: int, w: int, steps: nat)
    requires w > 0
  {
    forall c, t, x :: StartsAt(c, n, w) && 0 <= t < steps && Includes(c, n, w, t, x) ==> 1 <= x < n - 1
  }

  lemma DividedStart(c: int, n: int, w: int)
    requires w > 0 && StartsAt(c, n, w) && (n - 2) % w == 0
    ensures OnEdge(c, n, w)
  {
    var k, m := (c - 1) / w, (n - 2) / w;
    assert w * m - w * k == w * (m - k);
    RemainderUnique(n - 1 - c, w, m - k, 0);
  }

  // The last block of an axis that its width does not divide.
  lemma LastBlock(n: int, w: int)
    requires w > 0 && n >= 3 && (n - 2) % w != 0
    ensures
      var c := 1 + w * ((n - 2) / w);
      StartsAt(c, n, w) && n - 1 < c + w
  {
    var k := (n - 2) / w;
    RemainderUnique(w * k, w, k, 0);
  }

  // Divisible block sizes are not merely sufficient: with any others the
  // traversal overwrites the boundary in its first step.
  lemma StaysInsideExactly(n: int, w: int, steps: nat)
    requires w > 0 && n >= 3 && steps >= 1
    ensures StaysInside(n, w, steps) <==> (n - 2) % w == 0
  {
    if (n - 2) % w == 0 {
      forall c, t, x | StartsAt(c, n, w) && 0 <= t < steps && Includes(c, n, w, t, x) ensures 1 <= x < n - 1 {
        DividedStart(c, n, w);
        NextEdge(c, n, w);
        BoundsAreEdges(c, n, w, t, if c == 1 then 0 else 1, if c == n - w - 1 then 0 else -1);
      }
    } else {
      LastBlock(n, w);
      var c := 1 + w * ((n - 2) / w);
      assert Includes(c, n, w, 0, n - 1);
    }
  }

  // One assignment of the innermost loop.
  datatype Assignment = Assignment(t: int, p: Point)

  // The traversal makes it.
  ghost predicate Assigns(b: Blocks, steps: nat, a: Assignment)
    requires b.Positive()
  {
    0 <= a.t < steps && exists kk, jj, ii ::
      && StartsAt(kk, b.g.nz, b.tz) && Includes(kk, b.g.nz, b.tz, a.t, a.p.z)
      && StartsAt(jj, b.g.ny, b.ty) && Includes(jj, b.g.ny, b.ty, a.t, a.p.y)
      && StartsAt(ii, b.g.nx, b.tx) && Includes(ii, b.g.nx, b.tx, a.t, a.p.x)
  }

  // All of them are to interior cells exactly for divisible blocks.
  lemma AssignsInteriorExactly(b: Blocks, steps: nat)
    requires b.Positive() && b.Runs(steps)
    ensures b.Divides() <==> forall a :: Assigns(b, steps, a) ==> Interior(b.g, a.p)
  {
    StaysInsideExactly(b.g.nx, b.tx, steps);
    StaysInsideExactly(b.g.ny, b.ty, steps);
    StaysInsideExactly(b.g.nz, b.tz, steps);
    hide StartsAt;
    hide Includes;
    if !b.Divides() {
      UndividedAssigns(b, steps);
    }
  }

  // Where an undivided traversal leaves the interior in its first step.
  ghost function Outside(b: Blocks): Point
    requires b.Positive()
  {
    if (b.g.nx - 2) % b.tx != 0 then Point(b.g.nx - 1, 1, 1)
    else if (b.g.ny - 2) % b.ty != 0 then Point(1, b.g.ny - 1, 1)
    else Point(1, 1, b.g.nz - 1)
  }

  lemma FirstBlock(n: int, w: int)
    requires w > 0 && n >= 3
    ensures StartsAt(1, n, w) && Includes(1, n, w, 0, 1)
  {
  }

  lemma UndividedAssigns(b: Blocks, steps: nat)
    requires b.Positive() && b.Runs(steps) && !b.Divides()
    ensures Assigns(b, steps, Assignment(0, Outside(b)))
    ensures InGrid(b.g, Outside(b)) && !Interior(b.g, Outside(b))
  {
    FirstBlock(b.g.nx, b.tx);
    FirstBlock(b.g.ny, b.ty);
    FirstBlock(b.g.nz, b.tz);
    hide Includes;
    hide StartsAt;
    if (b.g.nx - 2) % b.tx != 0 {
      LastBlock(b.g.nx, b.tx);
    } else if (b.g.ny - 2) % b.ty != 0 {
      LastBlock(b.g.ny, b.ty);
    } else {
      LastBlock(b.g.nz, b.tz);
    }
  }

  // The two arrays as memory without end: buffer t%2 and flat cell.
  type Memory<!T> = (int, int) -> T

  function Load<T>(m: Memory<T>, g: Geometry, t: int, x: int, y: int, z: int): T {
    m(t % 2, Index3D(g.nx, g.ny, x, y, z))
  }

  ghost function Assigned<T>(g: Geometry, f: Kernel<T>, fac: T, m: Memory<T>, a: Assignment): Memory<T> {
    var x, y, z, t := a.p.x, a.p.y, a.p.z, a.t;
    var v := f(fac, Cells(Load(m, g, t, x, y, z), Load(m, g, t, x + 1, y, z), Load(m, g, t, x - 1, y, z),
                          Load(m, g, t, x, y + 1, z), Load(m, g, t, x, y - 1, z),
                          Load(m, g, t, x, y, z + 1), Load(m, g, t, x, y, z - 1)));
    (b, n) => if b == (t + 1) % 2 && n == Index3D(g.nx, g.ny, x, y, z) then v else m(b, n)
  }

  // Assignments carried out in order.
  ghost function Executed<T>(g: Geometry, f: Kernel<T>, fac: T, m: Memory<T>, s: seq<Assignment>): Memory<T> {
    if s == [] then m else Executed(g, f, fac, Assigned(g, f, fac, m, s[0]), s[1..])
  }

  // A kernel that always yields v leaves v wherever anything is assigned.
  lemma {:induction false} ConstantLeaves<T>(g: Geometry, v: T, fac: T, m: Memory<T>, s: seq<Assignment>,
                                             t: int, n: int)
    requires m(t % 2, n) == v || exists a :: a in s && Writes(g, a, t, n)
    ensures Executed(g, Constant(v), fac, m, s)(t % 2, n) == v
    decreases |s|
  {
    if s != [] {
      var m' := Assigned(g, Constant(v), fac, m, s[0]);
      if !(m'(t % 2, n) == v) {
        var a :| a in s && Writes(g, a, t, n);
        assert a in s[1..];
      }
      ConstantLeaves(g, v, fac, m', s[1..], t, n);
    }
  }

  ghost predicate Writes(g: Geometry, a: Assignment, t: int, n: int) {
    (a.t + 1) % 2 == t % 2 && n == Index3D(g.nx, g.ny, a.p.x, a.p.y, a.p.z)
  }

  ghost function Constant<T>(v: T): Kernel<T> {
    (fac, c) => v
  }

  // After these assignments, the second array's cell q is not what the plain
  // sweep would leave there.
  ghost predicate Differs<T>(p: Problem<T>, steps: nat, s: seq<Assignment>, m: Memory<T>, q: Point)
    requires p.Valid() && InGrid(p.g, q)
  {
    Executed(p.g, p.f, p.fac, m, s)(1, Index(p.g, q)) != p.Final(steps, 1)[Index(p.g, q)]
  }

  // So whatever the arrays hold, an undivided traversal of the grid goes wrong
  // for some kernel.
  lemma UndividedDiffers(b: Blocks, steps: nat, s: seq<Assignment>, p: Problem<real>, m: Memory<real>)
    requires b.Positive() && b.Runs(steps) && !b.Divides() && p.Valid() && p.g == b.g
    requires forall a :: a in s <==> Assigns(b, steps, a)
    ensures InGrid(b.g, Outside(b))
    ensures exists f: Kernel<real> :: Differs(p.(f := f), steps, s, m, Outside(b))
  {
    UndividedAssigns(b, steps);
    hide Outside;
    hide Assigns;
    hide Size;
    hide Blocks.Divides;
    var q := Outside(b);
    assert Assignment(0, q) in s;
    BoundaryDiffers(p.(f := Constant(p.Initial(1, q) + 1.0)), steps, s, m, q);
  }

  lemma BoundaryDiffers(p: Problem<real>, steps: nat, s: seq<Assignment>, m: Memory<real>, q: Point)
    requires p.Valid() && InGrid(p.g, q) && !Interior(p.g, q) && Assignment(0, q) in s
    requires p.f == Constant(p.Initial(1, q) + 1.0)
    ensures Differs(p, steps, s, m, q)
  {
    hide Size;
    hide Executed;
    hide Problem.Final;
    var n := Index(p.g, q);
    assert Writes(p.g, Assignment(0, q), 1, n);
    ConstantLeaves(p.g, p.Initial(1, q) + 1.0, p.fac, m, s, 1, n);
    BoundaryFinal(p, steps, q);
  }

  // The plain sweep leaves the boundary alone.
  lemma BoundaryFinal<T>(p: Problem<T>, steps: nat, q: Point)
    requires p.Valid() && InGrid(p.g, q) && !Interior(p.g, q)
    ensures p.Final(steps, 1)[Index(p.g, q)] == p.Initial(1, q)
  {
    hide Index;
    hide Size;
    IndexInjective(p.g, q, PointAt(p.g, Index(p.g, q)));
  }
}
