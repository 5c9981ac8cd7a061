// probe_heat.c: the plain sweep, time step by time step.
module ProbeHeat {
  import opened Grid
  import opened Stencil

  method StencilProbe<T>(f: Kernel<T>, a0: array<T>, anext: array<T>, g: Geometry, timesteps: int)
    requires Arguments(g, a0, anext)
    modifies a0, anext
    ensures a0[..] == old(EntryRun(g, f, a0, anext)).prob.Final(Steps(timesteps), 0)
    ensures anext[..] == old(EntryRun(g, f, a0, anext)).prob.Final(Steps(timesteps), 1)
  {
    hide Inv;
    hide Index;
    hide Size;
    hide Neighbours;
    hide Sweeping;
    hide Problem.Final;
    EntrySweeping(g, f, a0, anext);
    ghost var run := EntryRun(g, f, a0, anext);
    ghost var L := Start(g);
    InvStart(run);
    var fac := a0[0];
    var src, dst := a0, anext;
    var t := 0;
    while t < timesteps
      invariant 0 <= t <= Steps(timesteps)
      invariant Inv(run, L) && Covers(g, L) && Sweeping(run, g, f, fac, src, dst, t)
      invariant (src == a0 || src == anext) && (dst == a0 || dst == anext)
      invariant forall p :: p in L ==> L[p] == t
    {
      L := SweepBox(g, f, fac, src, dst, Box(1, g.nx - 1, 1, g.ny - 1, 1, g.nz - 1), run, t, L);
      Swap(run, g, f, fac, src, dst, t);
      src, dst := dst, src;
      t := t + 1;
    }
    InvFinal(run, L, t);
  }
}
