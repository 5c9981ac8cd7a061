// probe_heat_blocked.c: every time step is swept tile by tile. The tiles need
// not divide the grid; the last ones are clamped.
module ProbeBlocked {
  import opened Arithmetic
  import opened Grid
  import opened Stencil

  // The tiles before (jj, ii) contain p.
  ghost predicate TiledBefore(p: Point, jj: int, ii: int, ty: int) {
    p.y < jj || (p.y < jj + ty && p.x < ii)
  }

  function Tile(g: Geometry, jj: int, ii: int, tx: int, ty: int): Box {
    Box(ii, Min(ii + tx, g.nx - 1), jj, Min(jj + ty, g.ny - 1), 1, g.nz - 1)
  }

  // The cells of the tiles before (jj, ii) are one level ahead of all others.
  ghost predicate Tiled(g: Geometry, L: Levels, t: int, jj: int, ii: int, ty: int) {
    Covers(g, L) && forall p :: p in L ==> L[p] == if TiledBefore(p, jj, ii, ty) then t + 1 else t
  }

  ghost predicate AllAt(g: Geometry, L: Levels, t: int) {
    Covers(g, L) && forall p :: p in L ==> L[p] == t
  }

  // A tile meets the demands of the sweep: its own cells have not been swept
  // in this step, and no cell is behind.
  lemma TileReady(g: Geometry, L: Levels, t: int, jj: int, ii: int, tx: int, ty: int)
    requires Tiled(g, L, t, jj, ii, ty) && 1 <= jj && 1 <= ii
    ensures forall p :: Tile(g, jj, ii, tx, ty).Has(p) ==> p in L && L[p] == t
    ensures forall p, q :: Tile(g, jj, ii, tx, ty).Has(p) && q in L && Neighbours(p, q) ==> L[q] >= t
  {
  }

  lemma TileSwept(g: Geometry, L: Levels, L': Levels, t: int, jj: int, ii: int, tx: int, ty: int)
    requires Tiled(g, L, t, jj, ii, ty) && 1 <= jj && 1 <= ii < g.nx - 1 && tx > 0
    requires Swept(L, L', Tile(g, jj, ii, tx, ty), t)
    ensures Tiled(g, L', t, jj, ii + tx, ty)
  {
  }

  lemma RowTiled(g: Geometry, L: Levels, t: int, jj: int, ii: int, ty: int)
    requires Tiled(g, L, t, jj, ii, ty) && ii >= g.nx - 1 && ty > 0
    ensures Tiled(g, L, t, jj + ty, 1, ty)
  {
  }

  lemma StepTiled(g: Geometry, L: Levels, t: int, jj: int, ty: int)
    requires Tiled(g, L, t, jj, 1, ty) && jj >= g.ny - 1
    ensures AllAt(g, L, t + 1)
  {
  }

  lemma StepStarts(g: Geometry, L: Levels, t: int, ty: int)
    requires AllAt(g, L, t)
    ensures Tiled(g, L, t, 1, 1, ty)
  {
  }

  method StencilProbe<T>(f: Kernel<T>, a0: array<T>, anext: array<T>, g: Geometry, tx: int, ty: int, timesteps: int)
    requires Arguments(g, a0, anext) && tx > 0 && ty > 0
    modifies a0, anext
    ensures a0[..] == old(EntryRun(g, f, a0, anext)).prob.Final(Steps(timesteps), 0)
    ensures anext[..] == old(EntryRun(g, f, a0, anext)).prob.Final(Steps(timesteps), 1)
  {
    hide Inv;
    hide Index;
    hide Size;
    hide Neighbours;
    hide Sweeping;
    hide Tile;
    hide Tiled;
    hide Swept;
    hide Problem.Final;
    EntrySweeping(g, f, a0, anext);
    ghost var run := EntryRun(g, f, a0, anext);
    ghost var L := Start(g);
    InvStart(run);
    var fac := a0[0];
    var src, dst := a0, anext;
    var t := 0;
    while t < timesteps
      invariant 0 <= t <= Steps(timesteps)
      invariant Inv(run, L) && AllAt(g, L, t) && Sweeping(run, g, f, fac, src, dst, t)
      invariant (src == a0 || src == anext) && (dst == a0 || dst == anext)
    {
      StepStarts(g, L, t, ty);
      var jj := 1;
      while jj < g.ny - 1
        invariant 1 <= jj
        invariant Inv(run, L) && Tiled(g, L, t, jj, 1, ty)
      {
        var ii := 1;
        while ii < g.nx - 1
          invariant 1 <= ii
          invariant Inv(run, L) && Tiled(g, L, t, jj, ii, ty)
        {
          TileReady(g, L, t, jj, ii, tx, ty);
          ghost var L' := SweepBox(g, f, fac, src, dst, Tile(g, jj, ii, tx, ty), run, t, L);
          TileSwept(g, L, L', t, jj, ii, tx, ty);
          L := L';
          ii := ii + tx;
        }
        RowTiled(g, L, t, jj, ii, ty);
        jj := jj + ty;
      }
      StepTiled(g, L, t, jj, ty);
      Swap(run, g, f, fac, src, dst, t);
      src, dst := dst, src;
      t := t + 1;
    }
    InvFinal(run, L, t);
  }
}
