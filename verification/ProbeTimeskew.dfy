// probe_heat_timeskew.c: cache blocks are run for all time steps one after the
// other, with edges that drift towards the origin.
module ProbeTimeskew {
  import opened Arithmetic
  import opened Grid
  import opened Stencil

  // c is where a block of width w starts, or the end of an axis of n cells.
  ghost predicate OnEdge(c: int, n: int, w: int)
    requires w > 0
  {
    1 <= c && (c == 1 || c <= n - 1) && (n - 1 - c) % w == 0
  }

  lemma NextEdge(c: int, n: int, w: int)
    requires w > 0 && OnEdge(c, n, w) && c < n - 1
    ensures c + w <= n - 1 && OnEdge(c + w, n, w)
  {
    var d := n - 1 - c;
    var k := d / w;
    assert d == w * k;
    MulUpper(0, k, w);
    assert w * (k - 1) == d - w;
    RemainderUnique(d - w, w, k - 1, 0);
  }

  lemma FirstEdge(n: int, w: int)
    requires w > 0 && (n - 2) % w == 0
    ensures OnEdge(1, n, w)
  {
  }

  // Where the block edge that starts out at c is at step t.
  ghost function Edge(c: int, n: int, t: int): int {
    if c >= n - 1 then n - 1 else Max(1, c - t)
  }

  // Slopes of 0 at the two ends of the grid and the MAX clamps make the loop
  // bounds exactly the drifting edges, however many steps are taken.
  lemma BoundsAreEdges(c: int, n: int, w: int, t: int, neg: int, pos: int)
    requires w > 0 && OnEdge(c, n, w) && c < n - 1 && 0 <= t
    requires neg == if c == 1 then 0 else 1
    requires pos == if c == n - w - 1 then 0 else -1
    ensures Max(1, c - t * neg) == Edge(c, n, t)
    ensures Max(1, c + w + t * pos) == Edge(c + w, n, t)
  {
    NextEdge(c, n, w);
  }

  datatype Blocks = Blocks(g: Geometry, tx: int, ty: int, tz: int)
  {
    predicate Positive() {
      tx > 0 && ty > 0 && tz > 0
    }

    // There is something to update.
    predicate Runs(timesteps: int) {
      timesteps > 0 && g.nx > 2 && g.ny > 2 && g.nz > 2
    }

    ghost predicate Divides()
      requires Positive()
    {
      && (g.nx - 2) % tx == 0 && (g.ny - 2) % ty == 0 && (g.nz - 2) % tz == 0
    }

    // A block starts at (ii, jj, kk).
    ghost predicate At(kk: int, jj: int, ii: int)
      requires Positive()
    {
      && OnEdge(kk, g.nz, tz) && OnEdge(jj, g.ny, ty) && OnEdge(ii, g.nx, tx)
      && kk < g.nz - 1 && jj < g.ny - 1 && ii < g.nx - 1
    }

    // The cells of the block at (ii, jj, kk) at step t.
    ghost function Cells(t: int, kk: int, jj: int, ii: int): Box {
      Box(Edge(ii, g.nx, t), Edge(ii + tx, g.nx, t),
          Edge(jj, g.ny, t), Edge(jj + ty, g.ny, t),
          Edge(kk, g.nz, t), Edge(kk + tz, g.nz, t))
    }

    ghost predicate In(t: int, p: Point, kk: int, jj: int, ii: int) {
      Cells(t, kk, jj, ii).Has(p)
    }

    // At step t, p belongs to a block visited before (ii, jj, kk).
    ghost predicate Before(t: int, p: Point, kk: int, jj: int, ii: int) {
      || p.z < Edge(kk, g.nz, t)
      || (p.z < Edge(kk + tz, g.nz, t)
          && (p.y < Edge(jj, g.ny, t)
              || (p.y < Edge(jj + ty, g.ny, t) && p.x < Edge(ii, g.nx, t))))
    }

    // Exactly the first `steps` updates of the earlier blocks have happened.
    ghost predicate Visited(L: Levels, steps: int, kk: int, jj: int, ii: int) {
      Covers(g, L) &&
      forall u, p :: p in L ==> (Done(L, u, p) <==> u < 0 || (u < steps && Before(u, p, kk, jj, ii)))
    }

    // In addition, the block at (ii, jj, kk) has reached step t.
    ghost predicate Reached(L: Levels, steps: int, kk: int, jj: int, ii: int, t: int) {
      Covers(g, L) &&
      forall u, p :: p in L ==>
        (Done(L, u, p) <==> u < 0 || (u < steps && (Before(u, p, kk, jj, ii) || (u < t && In(u, p, kk, jj, ii)))))
    }
  }

  // Every dependency of a block's step lies in an earlier block or step.
  lemma DependsOnEarlier(b: Blocks, t: int, p: Point, q: Point, kk: int, jj: int, ii: int)
    requires b.Positive() && 1 <= t
    requires b.In(t, p, kk, jj, ii) && (q == p || Neighbours(p, q)) && Interior(b.g, q)
    ensures b.Before(t - 1, q, kk, jj, ii) || b.In(t - 1, q, kk, jj, ii)
  {
  }

  lemma InNotBefore(b: Blocks, t: int, p: Point, kk: int, jj: int, ii: int)
    requires b.In(t, p, kk, jj, ii)
    ensures !b.Before(t, p, kk, jj, ii)
  {
  }

  lemma InIsInterior(b: Blocks, t: int, p: Point, kk: int, jj: int, ii: int)
    requires b.Positive() && 0 <= t
    requires b.At(kk, jj, ii) && b.In(t, p, kk, jj, ii)
    ensures Interior(b.g, p)
  {
    NextEdge(kk, b.g.nz, b.tz);
    NextEdge(jj, b.g.ny, b.ty);
    NextEdge(ii, b.g.nx, b.tx);
  }

  // Sweeping the block's box of step t brings it to step t+1.
  lemma BoxReady(b: Blocks, L: Levels, steps: int, kk: int, jj: int, ii: int, t: int)
    requires b.Positive()
    requires b.Reached(L, steps, kk, jj, ii, t) && 0 <= t < steps
    requires b.At(kk, jj, ii)
    ensures forall p :: b.Cells(t, kk, jj, ii).Has(p) ==> p in L && L[p] == t
    ensures forall p, q :: b.Cells(t, kk, jj, ii).Has(p) && q in L && Neighbours(p, q) ==> L[q] >= t
  {
    hide Edge;
    hide Blocks.Before;
    hide Blocks.Cells;
    forall p, q | b.In(t, p, kk, jj, ii) && q in L && (q == p || Neighbours(p, q)) ensures L[q] >= t {
      if t > 0 {
        DependsOnEarlier(b, t, p, q, kk, jj, ii);
      }
      assert Done(L, t - 1, q);
    }
    forall p | b.In(t, p, kk, jj, ii) ensures p in L && L[p] == t {
      InNotBefore(b, t, p, kk, jj, ii);
      InIsInterior(b, t, p, kk, jj, ii);
      assert !Done(L, t, p);
    }
  }

  lemma BoxSwept(b: Blocks, L: Levels, L': Levels, box: Box, steps: int, kk: int, jj: int, ii: int, t: int)
    requires b.Positive()
    requires b.Reached(L, steps, kk, jj, ii, t) && 0 <= t < steps
    requires b.At(kk, jj, ii)
    requires Swept(L, L', box, t) && box == b.Cells(t, kk, jj, ii)
    ensures b.Reached(L', steps, kk, jj, ii, t + 1)
  {
    BoxReady(b, L, steps, kk, jj, ii, t);
    forall u, p | p in L'
      ensures Done(L', u, p) <==>
              u < 0 || (u < steps && (b.Before(u, p, kk, jj, ii) || (u < t + 1 && b.In(u, p, kk, jj, ii))))
    {
      assert p in L;
      assert Done(L', u, p) <==> Done(L, u, p) || (u == t && box.Has(p));
    }
  }

  lemma BlockStarts(b: Blocks, L: Levels, steps: int, kk: int, jj: int, ii: int)
    requires b.Visited(L, steps, kk, jj, ii)
    ensures b.Reached(L, steps, kk, jj, ii, 0)
  {
  }

  lemma BlockEnds(b: Blocks, L: Levels, steps: int, kk: int, jj: int, ii: int)
    requires b.Positive()
    requires b.Reached(L, steps, kk, jj, ii, steps)
    ensures b.Visited(L, steps, kk, jj, ii + b.tx)
  {
  }

  lemma RowEnds(b: Blocks, L: Levels, steps: int, kk: int, jj: int, ii: int)
    requires b.Positive()
    requires b.Visited(L, steps, kk, jj, ii) && ii >= b.g.nx - 1
    ensures b.Visited(L, steps, kk, jj + b.ty, 1)
  {
  }

  lemma SlabEnds(b: Blocks, L: Levels, steps: int, kk: int, jj: int)
    requires b.Positive()
    requires b.Visited(L, steps, kk, jj, 1) && jj >= b.g.ny - 1
    ensures b.Visited(L, steps, kk + b.tz, 1, 1)
  {
  }

  lemma AllVisited(b: Blocks, L: Levels, steps: nat, kk: int)
    requires b.Visited(L, steps, kk, 1, 1) && kk >= b.g.nz - 1
    ensures forall p :: p in L ==> L[p] == steps
  {
    forall p | p in L ensures L[p] == steps {
      assert !Done(L, steps, p);
      assert Done(L, steps - 1, p);
    }
  }

  lemma NoneVisited(b: Blocks, steps: nat)
    requires b.Positive()
    ensures b.Visited(Start(b.g), steps, 1, 1, 1)
  {
  }

  // All time steps of one block. Positive slopes move an edge away from the
  // block's centre, negative ones towards it.
  method RunBlock<T>(f: Kernel<T>, fac: T, a0: array<T>, anext: array<T>, g: Geometry,
                     tx: int, ty: int, tz: int, kk: int, jj: int, ii: int, timesteps: int,
                     ghost run: Run<T>, ghost L0: Levels)
    returns (ghost L: Levels)
    requires Blocks(g, tx, ty, tz).Positive()
    requires Inv(run, L0) && Sweeping(run, g, f, fac, a0, anext, 0)
    requires 0 < timesteps ==>
               && Blocks(g, tx, ty, tz).At(kk, jj, ii)
               && Blocks(g, tx, ty, tz).Visited(L0, timesteps, kk, jj, ii)
    modifies a0, anext
    ensures Inv(run, L)
    ensures if 0 < timesteps then Blocks(g, tx, ty, tz).Visited(L, timesteps, kk, jj, ii + tx) else L == L0
  {
    hide Inv;
    hide Size;
    hide Edge;
    hide OnEdge;
    hide Max;
    hide Blocks.Visited;
    hide Blocks.Reached;
    hide Swept;
    hide Neighbours;
    hide Sweeping;
    hide Blocks.In;
    hide Box.Has;
    var negX, posX := if ii == 1 then 0 else 1, if ii == g.nx - tx - 1 then 0 else -1;
    var negY, posY := if jj == 1 then 0 else 1, if jj == g.ny - ty - 1 then 0 else -1;
    var negZ, posZ := if kk == 1 then 0 else 1, if kk == g.nz - tz - 1 then 0 else -1;
    ghost var b, steps := Blocks(g, tx, ty, tz), Steps(timesteps);
    L := L0;
    if 0 < timesteps {
      BlockStarts(b, L, steps, kk, jj, ii);
    }
    var src, dst := a0, anext;
    var t := 0;
    while t < timesteps
      invariant 0 <= t <= steps
      invariant Inv(run, L) && if 0 < timesteps then b.Reached(L, steps, kk, jj, ii, t) else L == L0
      invariant Sweeping(run, g, f, fac, src, dst, t)
      invariant (src == a0 || src == anext) && (dst == a0 || dst == anext)
    {
      var box := Box(
        Max(1, ii - t * negX), Max(1, ii + tx + t * posX),
        Max(1, jj - t * negY), Max(1, jj + ty + t * posY),
        Max(1, kk - t * negZ), Max(1, kk + tz + t * posZ));
      assert box == b.Cells(t, kk, jj, ii) by {
        BoundsAreEdges(kk, g.nz, tz, t, negZ, posZ);
        BoundsAreEdges(jj, g.ny, ty, t, negY, posY);
        BoundsAreEdges(ii, g.nx, tx, t, negX, posX);
      }
      BoxReady(b, L, steps, kk, jj, ii, t);
      ghost var L' := SweepBox(g, f, fac, src, dst, box, run, t, L);
      BoxSwept(b, L, L', box, steps, kk, jj, ii, t);
      L := L';
      Swap(run, g, f, fac, src, dst, t);
      src, dst := dst, src;
      t := t + 1;
    }
    if 0 < timesteps {
      BlockEnds(b, L, steps, kk, jj, ii);
    }
  }

  method StencilProbe<T>(f: Kernel<T>, a0: array<T>, anext: array<T>, g: Geometry,
                         tx: int, ty: int, tz: int, timesteps: int)
    requires Arguments(g, a0, anext) && Blocks(g, tx, ty, tz).Positive()
    requires Blocks(g, tx, ty, tz).Runs(timesteps) ==> Blocks(g, tx, ty, tz).Divides()
    modifies a0, anext
    ensures a0[..] == old(EntryRun(g, f, a0, anext)).prob.Final(Steps(timesteps), 0)
    ensures anext[..] == old(EntryRun(g, f, a0, anext)).prob.Final(Steps(timesteps), 1)
  {
    hide Inv;
    hide Index;
    hide Size;
    hide OnEdge;
    hide Blocks.Visited;
    hide Sweeping;
    hide Problem.Final;
    EntrySweeping(g, f, a0, anext);
    ghost var b, steps := Blocks(g, tx, ty, tz), Steps(timesteps);
    ghost var run := EntryRun(g, f, a0, anext);
    ghost var L := Start(g);
    InvStart(run);
    ghost var runs := b.Runs(timesteps);
    if runs {
      NoneVisited(b, steps);
      FirstEdge(g.nx, tx);
      FirstEdge(g.ny, ty);
      FirstEdge(g.nz, tz);
    }
    var fac := a0[0];
    var kk := 1;
    while kk < g.nz - 1
      invariant 1 <= kk && (runs ==> OnEdge(kk, g.nz, tz))
      invariant Inv(run, L) && if runs then b.Visited(L, steps, kk, 1, 1) else L == Start(g)
    {
      var jj := 1;
      while jj < g.ny - 1
        invariant 1 <= jj && (runs ==> OnEdge(jj, g.ny, ty))
        invariant Inv(run, L) && if runs then b.Visited(L, steps, kk, jj, 1) else L == Start(g)
      {
        var ii := 1;
        while ii < g.nx - 1
          invariant 1 <= ii && (runs ==> OnEdge(ii, g.nx, tx))
          invariant Inv(run, L) && if runs then b.Visited(L, steps, kk, jj, ii) else L == Start(g)
        {
          L := RunBlock(f, fac, a0, anext, g, tx, ty, tz, kk, jj, ii, timesteps, run, L);
          if runs {
            NextEdge(ii, g.nx, tx);
          }
          ii := ii + tx;
        }
        if runs {
          RowEnds(b, L, steps, kk, jj, ii);
          NextEdge(jj, g.ny, ty);
        }
        jj := jj + ty;
      }
      if runs {
        SlabEnds(b, L, steps, kk, jj);
        NextEdge(kk, g.nz, tz);
      }
      kk := kk + tz;
    }
    if runs {
      AllVisited(b, L, steps, kk);
    }
    InvFinal(run, L, steps);
  }
}
