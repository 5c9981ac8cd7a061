// probe_heat_oblivious.c: the cache-oblivious recursive decomposition of
// space-time into trapezoids.
module ProbeOblivious {
  import opened Grid
  import opened Stencil

  // Integer division of C: towards zero.
  function TruncDiv(a: int, b: int): int
    requires b > 0
  {
    if a >= 0 then a / b else -(-a / b)
  }

  // One axis of a trapezoid: edges p0 and p1 with slopes d0 and d1 per step.
  datatype Extent = Extent(p0: int, d0: int, p1: int, d1: int)
  {
    function Lo(s: int): int { p0 + s * d0 }

    function Hi(s: int): int { p1 + s * d1 }

    ghost predicate Has(s: int, c: int) {
      Lo(s) <= c < Hi(s)
    }

    // Fits an axis of n cells for dt steps: an edge that does not move is the
    // edge of the grid, the others move left by one, and the width does not
    // become negative (an axis without interior is never cut).
    ghost predicate Fits(n: int, dt: int) {
      && (d0 == 0 || d0 == -1) && (d1 == 0 || d1 == -1)
      && (d0 == 0 ==> p0 == 1) && (d1 == 0 ==> p1 == n - 1)
      && 1 <= p0 && p1 <= n - 1
      && (d0 == -1 ==> 1 <= Lo(dt))
      && ((p0 <= p1 && Lo(dt) <= Hi(dt)) || (d0 == 0 && d1 == 0))
    }

    // The guard of a space cut, and where it cuts; ds is 1.
    predicate Wide(dt: int) {
      2 * (p1 - p0) + (d1 - d0) * dt >= 4 * dt
    }

    function Middle(dt: int): int {
      TruncDiv(2 * (p0 + p1) + (2 + d0 + d1) * dt, 4)
    }

    function Left(m: int): Extent { Extent(p0, d0, m, -1) }

    function Right(m: int): Extent { Extent(m, -1, p1, d1) }

    function After(s: int): Extent { Extent(p0 + d0 * s, d0, p1 + d1 * s, d1) }
  }

  lemma CutFits(e: Extent, n: int, dt: int)
    requires e.Fits(n, dt) && dt > 1 && e.Wide(dt)
    ensures e.p0 < e.Middle(dt) < e.p1 && e.p1 - e.p0 > 2
    ensures e.Left(e.Middle(dt)).Fits(n, dt) && e.Right(e.Middle(dt)).Fits(n, dt)
  {
  }

  // A cut goes through the middle: half-way through the steps, the two sides are
  // equally wide, up to rounding. It is made where they are wide enough there
  // for an edge of slope one to cross.
  lemma CutHalves(e: Extent, n: nat, dt: int)
    requires e.Fits(n, dt) && dt > 1
    ensures
      var m := e.Middle(dt);
      var left := 2 * (m - e.p0) + (-1 - e.d0) * dt;
      var right := 2 * (e.p1 - m) + (e.d1 + 1) * dt;
      0 <= right - left < 4 && (e.Wide(dt) <==> left + right >= 4 * dt)
  {
  }

  // The two sides of a cut partition the axis at every step.
  lemma CutPartitions(e: Extent, n: int, dt: int, s: int, c: int)
    requires e.Fits(n, dt) && dt > 1 && e.Wide(dt) && 0 <= s < dt
    ensures
      var a, b := e.Left(e.Middle(dt)), e.Right(e.Middle(dt));
      (e.Has(s, c) <==> a.Has(s, c) || b.Has(s, c)) && !(a.Has(s, c) && b.Has(s, c))
  {
    CutFits(e, n, dt);
  }

  // A cell on the left of a cut never depends on one on the right.
  lemma CutOrders(e: Extent, m: int, s: int, c: int, c': int)
    requires e.Left(m).Has(s, c) && c' <= c + 1
    ensures !e.Right(m).Has(s - 1, c')
  {
  }

  lemma WidthBound(e: Extent, n: nat, dt: int)
    requires e.Fits(n, dt)
    ensures e.p1 - e.p0 >= -2
  {
  }

  lemma AfterFits(e: Extent, n: int, dt: int, s: int)
    requires e.Fits(n, dt) && 0 <= s <= dt
    ensures e.Fits(n, s) && e.After(s).Fits(n, dt - s)
    ensures forall u, c :: e.After(s).Has(u - s, c) <==> e.Has(u, c)
  {
    forall u ensures e.After(s).Lo(u - s) == e.Lo(u) && e.After(s).Hi(u - s) == e.Hi(u) {
    }
  }

  lemma HasInside(e: Extent, n: int, dt: int, s: int, c: int)
    requires e.Fits(n, dt) && 0 <= s < dt && e.Has(s, c)
    ensures 1 <= c < n - 1
  {
  }

  // The space-time region one call of walk3 is responsible for: (t, p) stands
  // for the update of p that reads time level t.
  datatype Trapezoid = Trapezoid(t0: int, t1: int, xs: Extent, ys: Extent, zs: Extent)
  {
    ghost predicate Has(t: int, p: Point) {
      t0 <= t < t1 && xs.Has(t - t0, p.x) && ys.Has(t - t0, p.y) && zs.Has(t - t0, p.z)
    }

    ghost predicate Fits(g: Geometry) {
      xs.Fits(g.nx, t1 - t0) && ys.Fits(g.ny, t1 - t0) && zs.Fits(g.nz, t1 - t0)
    }

    function Cells(): int {
      (xs.p1 - xs.p0) * (ys.p1 - ys.p0) * (zs.p1 - zs.p0)
    }
  }

  ghost predicate Near(p: Point, q: Point) {
    q == p || Neighbours(p, q)
  }

  // a and b partition tr, and nothing in a depends on b.
  ghost predicate Splits(tr: Trapezoid, a: Trapezoid, b: Trapezoid) {
    && (forall t, p {:trigger tr.Has(t, p)} {:trigger a.Has(t, p)} {:trigger b.Has(t, p)} ::
          (tr.Has(t, p) <==> a.Has(t, p) || b.Has(t, p)) && !(a.Has(t, p) && b.Has(t, p)))
    && (forall t, p, q :: a.Has(t, p) && Near(p, q) ==> !b.Has(t - 1, q))
  }

  lemma HasInterior(g: Geometry, tr: Trapezoid, t: int, p: Point)
    requires tr.Fits(g) && tr.Has(t, p)
    ensures Interior(g, p)
  {
    HasInside(tr.xs, g.nx, tr.t1 - tr.t0, t - tr.t0, p.x);
    HasInside(tr.ys, g.ny, tr.t1 - tr.t0, t - tr.t0, p.y);
    HasInside(tr.zs, g.nz, tr.t1 - tr.t0, t - tr.t0, p.z);
  }

  lemma CutZ(g: Geometry, tr: Trapezoid)
    requires tr.Fits(g) && tr.t1 - tr.t0 > 1 && tr.zs.Wide(tr.t1 - tr.t0)
    ensures
      var m := tr.zs.Middle(tr.t1 - tr.t0);
      var a, b := tr.(zs := tr.zs.Left(m)), tr.(zs := tr.zs.Right(m));
      a.Fits(g) && b.Fits(g) && Splits(tr, a, b)
  {
    hide Extent.Has;
    hide Extent.Fits;
    hide Extent.Middle;
    var dt := tr.t1 - tr.t0;
    CutFits(tr.zs, g.nz, dt);
    forall s, c | 0 <= s < dt { CutPartitions(tr.zs, g.nz, dt, s, c); }
    var m := tr.zs.Middle(dt);
    var a, b := tr.(zs := tr.zs.Left(m)), tr.(zs := tr.zs.Right(m));
    forall t, p, q | a.Has(t, p) && Near(p, q) ensures !b.Has(t - 1, q) {
      CutOrders(tr.zs, m, t - tr.t0, p.z, q.z);
      assert t - 1 - tr.t0 == t - tr.t0 - 1;
    }
  }

  lemma CutY(g: Geometry, tr: Trapezoid)
    requires tr.Fits(g) && tr.t1 - tr.t0 > 1 && tr.ys.Wide(tr.t1 - tr.t0)
    ensures
      var m := tr.ys.Middle(tr.t1 - tr.t0);
      var a, b := tr.(ys := tr.ys.Left(m)), tr.(ys := tr.ys.Right(m));
      a.Fits(g) && b.Fits(g) && Splits(tr, a, b)
  {
    hide Extent.Has;
    hide Extent.Fits;
    hide Extent.Middle;
    var dt := tr.t1 - tr.t0;
    CutFits(tr.ys, g.ny, dt);
    forall s, c | 0 <= s < dt { CutPartitions(tr.ys, g.ny, dt, s, c); }
    var m := tr.ys.Middle(dt);
    var a, b := tr.(ys := tr.ys.Left(m)), tr.(ys := tr.ys.Right(m));
    forall t, p, q | a.Has(t, p) && Near(p, q) ensures !b.Has(t - 1, q) {
      CutOrders(tr.ys, m, t - tr.t0, p.y, q.y);
      assert t - 1 - tr.t0 == t - tr.t0 - 1;
    }
  }

  lemma CutTime(g: Geometry, tr: Trapezoid, s: int)
    requires tr.Fits(g) && 0 < s < tr.t1 - tr.t0
    ensures
      var a := tr.(t1 := tr.t0 + s);
      var b := Trapezoid(tr.t0 + s, tr.t1, tr.xs.After(s), tr.ys.After(s), tr.zs.After(s));
      a.Fits(g) && b.Fits(g) && Splits(tr, a, b)
  {
    hide Extent.Has;
    hide Extent.Fits;
    AfterFits(tr.xs, g.nx, tr.t1 - tr.t0, s);
    AfterFits(tr.ys, g.ny, tr.t1 - tr.t0, s);
    AfterFits(tr.zs, g.nz, tr.t1 - tr.t0, s);
    var b := Trapezoid(tr.t0 + s, tr.t1, tr.xs.After(s), tr.ys.After(s), tr.zs.After(s));
    forall t, p ensures b.Has(t, p) <==> tr.Has(t, p) && t >= tr.t0 + s {
      assert t - b.t0 == (t - tr.t0) - s;
    }
  }

  // Nothing in tr is done, and all it depends on is done or in tr.
  ghost predicate Ready(L: Levels, tr: Trapezoid) {
    && (forall t, p :: tr.Has(t, p) ==> !Done(L, t, p))
    && (forall t, p, q :: tr.Has(t, p) && q in L && Near(p, q) ==> Done(L, t - 1, q) || tr.Has(t - 1, q))
  }

  // L' is L after exactly the updates in tr.
  ghost predicate Walked(L: Levels, L': Levels, tr: Trapezoid) {
    L'.Keys == L.Keys
    && forall t, p {:trigger Done(L', t, p)} {:trigger Done(L, t, p)} {:trigger tr.Has(t, p)} ::
         Done(L', t, p) <==> Done(L, t, p) || tr.Has(t, p)
  }

  lemma ReadyFirst(L: Levels, tr: Trapezoid, a: Trapezoid, b: Trapezoid)
    requires Splits(tr, a, b) && Ready(L, tr)
    ensures Ready(L, a)
  {
  }

  lemma ReadySecond(L: Levels, L': Levels, tr: Trapezoid, a: Trapezoid, b: Trapezoid)
    requires Splits(tr, a, b) && Ready(L, tr) && Walked(L, L', a)
    ensures Ready(L', b)
  {
  }

  lemma WalkedNothing(L: Levels, tr: Trapezoid)
    requires tr.t1 <= tr.t0
    ensures Walked(L, L, tr)
  {
  }

  lemma WalkedBoth(L: Levels, L': Levels, L'': Levels, tr: Trapezoid, a: Trapezoid, b: Trapezoid)
    requires Splits(tr, a, b) && Walked(L, L', a) && Walked(L', L'', b)
    ensures Walked(L, L'', tr)
  {
  }

  // The cell fac is re-read from is never written.
  lemma FactorCell<T>(run: Run<T>, L: Levels)
    requires Inv(run, L)
    ensures run.a0.Length > 0 && run.a0[0] == run.prob.fac
  {
    var corner := PointAt(run.prob.g, 0);
    assert Index3D(run.prob.g.nx, run.prob.g.ny, 0, 0, 0) == 0;
    assert Holds(run, L, corner);
  }

  // The levels inside the box of time step t, once all earlier steps are done.
  lemma BoxReady(g: Geometry, L0: Levels, L: Levels, tr: Trapezoid, t: int)
    requires tr.Fits(g) && Covers(g, L0) && Covers(g, L) && Ready(L0, tr)
    requires forall u, p :: Done(L, u, p) <==> Done(L0, u, p) || (tr.Has(u, p) && u < t)
    ensures forall p :: tr.Has(t, p) ==> p in L && L[p] == t
    ensures forall p, q :: tr.Has(t, p) && q in L && Neighbours(p, q) ==> L[q] >= t
  {
    forall p | tr.Has(t, p) ensures p in L && L[p] == t {
      HasInterior(g, tr, t, p);
      assert !Done(L, t, p) && Near(p, p) && Done(L, t - 1, p);
    }
    forall p, q | tr.Has(t, p) && q in L && Neighbours(p, q) ensures L[q] >= t {
      assert Near(p, q) && Done(L, t - 1, q);
    }
  }

  // run is the one on these arrays.
  ghost predicate Working<T>(run: Run<T>, f: Kernel<T>, a0: array<T>, a1: array<T>, g: Geometry) {
    run.Valid() && run.a0 == a0 && run.a1 == a1 && run.prob.g == g && run.prob.f == f
  }

  // The base case: step by step, box by box.
  method Sweep<T>(f: Kernel<T>, a0: array<T>, a1: array<T>, g: Geometry, tr: Trapezoid,
                  ghost run: Run<T>, ghost L0: Levels)
    returns (ghost L: Levels)
    requires Inv(run, L0) && Covers(g, L0)
    requires Working(run, f, a0, a1, g)
    requires tr.Fits(g) && Ready(L0, tr)
    modifies a0, a1
    ensures Inv(run, L) && Covers(g, L) && Walked(L0, L, tr)
  {
    hide Inv;
    hide Extent.Fits;
    hide Extent.Lo;
    hide Extent.Hi;
    hide Neighbours;
    hide Size;
    L := L0;
    FactorCell(run, L);
    var fac := a0[0];
    var t := tr.t0;
    while t < tr.t1
      invariant tr.t0 <= t
      invariant Inv(run, L) && Covers(g, L)
      invariant forall u, p :: Done(L, u, p) <==> Done(L0, u, p) || (tr.Has(u, p) && u < t)
    {
      var src, dst := if t % 2 == 0 then a0 else a1, if (t + 1) % 2 == 0 then a0 else a1;
      var s := t - tr.t0;
      var box := Box(tr.xs.Lo(s), tr.xs.Hi(s), tr.ys.Lo(s), tr.ys.Hi(s), tr.zs.Lo(s), tr.zs.Hi(s));
      BoxReady(g, L0, L, tr, t);
      assert forall p :: box.Has(p) <==> tr.Has(t, p);
      L := SweepBox(g, f, fac, src, dst, box, run, t, L);
      t := t + 1;
    }
  }

  method Walk3<T>(f: Kernel<T>, a0: array<T>, a1: array<T>, g: Geometry, cutoff: int,
                  t0: int, t1: int, xs: Extent, ys: Extent, zs: Extent,
                  ghost run: Run<T>, ghost L0: Levels)
    returns (ghost L: Levels)
    requires Inv(run, L0) && Covers(g, L0)
    requires Working(run, f, a0, a1, g)
    requires Trapezoid(t0, t1, xs, ys, zs).Fits(g) && Ready(L0, Trapezoid(t0, t1, xs, ys, zs))
    modifies a0, a1
    ensures Inv(run, L) && Covers(g, L) && Walked(L0, L, Trapezoid(t0, t1, xs, ys, zs))
    decreases t1 - t0, (zs.p1 - zs.p0) + (ys.p1 - ys.p0)
  {
    hide Inv;
    hide Ready;
    hide Walked;
    hide Splits;
    hide Covers;
    hide Working;
    hide Extent.Fits;
    hide Extent.Middle;
    WidthBound(zs, g.nz, t1 - t0);
    WidthBound(ys, g.ny, t1 - t0);
    ghost var tr := Trapezoid(t0, t1, xs, ys, zs);
    var dt := t1 - t0;
    if dt == 1 || (xs.p1 - xs.p0) * (ys.p1 - ys.p0) * (zs.p1 - zs.p0) < cutoff {
      L := Sweep(f, a0, a1, g, Trapezoid(t0, t1, xs, ys, zs), run, L0);
    } else if dt > 1 {
      ghost var a, b;
      ghost var L';
      if zs.Wide(dt) {
        var zm := zs.Middle(dt);
        CutZ(g, tr);
        CutFits(zs, g.nz, dt);
        a, b := tr.(zs := zs.Left(zm)), tr.(zs := zs.Right(zm));
        ReadyFirst(L0, tr, a, b);
        L' := Walk3(f, a0, a1, g, cutoff, t0, t1, xs, ys, zs.Left(zm), run, L0);
        ReadySecond(L0, L', tr, a, b);
        L := Walk3(f, a0, a1, g, cutoff, t0, t1, xs, ys, zs.Right(zm), run, L');
      } else if ys.Wide(dt) {
        var ym := ys.Middle(dt);
        CutY(g, tr);
        CutFits(ys, g.ny, dt);
        a, b := tr.(ys := ys.Left(ym)), tr.(ys := ys.Right(ym));
        ReadyFirst(L0, tr, a, b);
        L' := Walk3(f, a0, a1, g, cutoff, t0, t1, xs, ys.Left(ym), zs, run, L0);
        ReadySecond(L0, L', tr, a, b);
        L := Walk3(f, a0, a1, g, cutoff, t0, t1, xs, ys.Right(ym), zs, run, L');
      } else {
        var s := dt / 2;
        CutTime(g, tr, s);
        a, b := tr.(t1 := t0 + s), Trapezoid(t0 + s, t1, xs.After(s), ys.After(s), zs.After(s));
        ReadyFirst(L0, tr, a, b);
        L' := Walk3(f, a0, a1, g, cutoff, t0, t0 + s, xs, ys, zs, run, L0);
        ReadySecond(L0, L', tr, a, b);
        L := Walk3(f, a0, a1, g, cutoff, t0 + s, t1, xs.After(s), ys.After(s), zs.After(s), run, L');
      }
      WalkedBoth(L0, L', L, tr, a, b);
    } else {
      WalkedNothing(L0, tr);
      L := L0;
    }
  }

  // The top-level call: edges that do not move, the whole interior, all steps.
  function Whole(g: Geometry, timesteps: int): Trapezoid {
    Trapezoid(0, timesteps, Extent(1, 0, g.nx - 1, 0), Extent(1, 0, g.ny - 1, 0), Extent(1, 0, g.nz - 1, 0))
  }

  lemma WholeReady(g: Geometry, timesteps: int)
    ensures Whole(g, timesteps).Fits(g) && Ready(Start(g), Whole(g, timesteps))
  {
  }

  lemma WholeWalked(g: Geometry, L: Levels, timesteps: int)
    requires Walked(Start(g), L, Whole(g, timesteps)) && Covers(g, L)
    ensures forall p :: p in L ==> L[p] == Steps(timesteps)
  {
    forall p | p in L ensures L[p] == Steps(timesteps) {
      assert !Done(L, Steps(timesteps), p);
      assert Done(L, Steps(timesteps) - 1, p);
    }
  }

  method StencilProbe<T>(f: Kernel<T>, a0: array<T>, anext: array<T>, g: Geometry, cutoff: int, timesteps: int)
    requires Arguments(g, a0, anext)
    modifies a0, anext
    ensures a0[..] == old(EntryRun(g, f, a0, anext)).prob.Final(Steps(timesteps), 0)
    ensures anext[..] == old(EntryRun(g, f, a0, anext)).prob.Final(Steps(timesteps), 1)
  {
    hide Inv;
    hide Ready;
    hide Walked;
    hide Index;
    hide Size;
    hide Extent.Fits;
    ghost var run := EntryRun(g, f, a0, anext);
    InvStart(run);
    WholeReady(g, timesteps);
    ghost var L := Walk3(f, a0, anext, g, cutoff, 0, timesteps,
                         Extent(1, 0, g.nx - 1, 0), Extent(1, 0, g.ny - 1, 0), Extent(1, 0, g.nz - 1, 0),
                         run, Start(g));
    WholeWalked(g, L, timesteps);
    InvFinal(run, L, Steps(timesteps));
  }
}
