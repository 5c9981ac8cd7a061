// The two-buffer 7-point stencil that every probe of stencilprobe_bench runs,
// its reference meaning, and the one invariant all reorderings rest on.
//
// The element type and the kernel are parameters: what is proved here holds
// for any arithmetic, rounded or exact.
module Stencil {
  import opened Grid

  // The seven values a kernel reads, named after the offset they come from.
  datatype Cells<T> = Cells(centre: T, xp: T, xm: T, yp: T, ym: T, zp: T, zm: T)

  // A kernel gets the loop-invariant factor and the seven cells.
  type Kernel<!T> = (T, Cells<T>) -> T

  // What a run starts from: the two arrays' contents on entry.
  datatype Problem<!T> = Problem(g: Geometry, f: Kernel<T>, fac: T, init0: seq<T>, init1: seq<T>)
  {
    ghost predicate Valid() {
      |init0| == |init1| == Size(g) > 0 && fac == init0[0]
    }

    // Initial contents of the buffer that time levels of t's parity live in.
    ghost function Initial(t: int, p: Point): T
      requires Valid() && InGrid(g, p)
    {
      (if t % 2 == 0 then init0 else init1)[Index(g, p)]
    }

    // The value of cell p at time level t. Boundary cells keep what their
    // buffer held; level -1 is what the second buffer held at the start.
    ghost function Ref(t: int, p: Point): T
      requires Valid() && InGrid(g, p)
      decreases t, 0
    {
      if t <= 0 || !Interior(g, p) then Initial(t, p) else f(fac, RefCells(t - 1, p))
    }

    ghost function RefCells(t: int, p: Point): Cells<T>
      requires Valid() && Interior(g, p)
      decreases t, 1
    {
      Cells(Ref(t, p),
            Ref(t, p.(x := p.x + 1)), Ref(t, p.(x := p.x - 1)),
            Ref(t, p.(y := p.y + 1)), Ref(t, p.(y := p.y - 1)),
            Ref(t, p.(z := p.z + 1)), Ref(t, p.(z := p.z - 1)))
    }

    // What buffer b (0 or 1) holds after t steps: the newest level of its parity.
    ghost function Final(t: nat, b: int): seq<T>
      requires Valid()
    {
      seq(Size(g), n requires 0 <= n < Size(g) => Ref(if t % 2 == b then t else t - 1, PointAt(g, n)))
    }
  }

  // The two arrays of a run and the problem they are solving.
  datatype Run<!T> = Run(prob: Problem<T>, a0: array<T>, a1: array<T>)
  {
    ghost predicate Valid() {
      prob.Valid() && a0 != a1 && a0.Length == Size(prob.g) && a1.Length == Size(prob.g)
    }

    // The array holding time levels of t's parity: A[t%2].
    function Buffer(t: int): array<T> {
      if t % 2 == 0 then a0 else a1
    }

    ghost function At(t: int, p: Point): T
      requires Valid() && InGrid(prob.g, p)
      reads a0, a1
    {
      Buffer(t)[Index(prob.g, p)]
    }
  }

  // The seven reads of a stencil around p.
  function Gather<T>(g: Geometry, a: array<T>, p: Point): Cells<T>
    requires Interior(g, p) && a.Length == Size(g)
    reads a
  {
    Cells(a[Index(g, p)],
          a[Index(g, p.(x := p.x + 1))], a[Index(g, p.(x := p.x - 1))],
          a[Index(g, p.(y := p.y + 1))], a[Index(g, p.(y := p.y - 1))],
          a[Index(g, p.(z := p.z + 1))], a[Index(g, p.(z := p.z - 1))])
  }

  // How often each interior cell has been updated.
  type Levels = imap<Point, int>

  ghost function Level(L: Levels, p: Point): int {
    if p in L then L[p] else 0
  }

  // The update of p that reads level t has happened.
  ghost predicate Done(L: Levels, t: int, p: Point) {
    p in L && t < L[p]
  }

  // Levels are kept for the interior cells.
  ghost predicate Covers(g: Geometry, L: Levels) {
    forall p :: p in L <==> Interior(g, p)
  }

  ghost predicate Tracks(g: Geometry, L: Levels) {
    && Covers(g, L)
    && (forall p :: p in L ==> 0 <= L[p])
    && (forall p, q :: p in L && q in L && Neighbours(p, q) ==> L[q] <= L[p] + 1)
  }

  // A cell at level l holds its value at time l in one buffer and its value at
  // time l-1 in the other.
  ghost predicate Holds<T>(run: Run<T>, L: Levels, p: Point)
    requires run.Valid() && InGrid(run.prob.g, p)
    reads run.a0, run.a1
  {
    && run.At(Level(L, p), p) == run.prob.Ref(Level(L, p), p)
    && run.At(Level(L, p) + 1, p) == run.prob.Ref(Level(L, p) - 1, p)
  }

  // The invariant of every run.
  ghost predicate Inv<T>(run: Run<T>, L: Levels)
    reads run.a0, run.a1
  {
    && run.Valid()
    && Tracks(run.prob.g, L)
    && (forall p {:trigger Holds(run, L, p)} :: InGrid(run.prob.g, p) ==> Holds(run, L, p))
  }

  ghost function Start(g: Geometry): Levels {
    imap p: Point | Interior(g, p) :: 0
  }

  // At the start every level is 0.
  lemma InvStart<T>(run: Run<T>)
    requires run.Valid()
    requires run.a0[..] == run.prob.init0 && run.a1[..] == run.prob.init1
    ensures Inv(run, Start(run.prob.g)) && Covers(run.prob.g, Start(run.prob.g))
  {
  }

  lemma BoundaryRef<T>(prob: Problem<T>, s: int, t: int, p: Point)
    requires prob.Valid() && InGrid(prob.g, p) && !Interior(prob.g, p) && s % 2 == t % 2
    ensures prob.Ref(s, p) == prob.Ref(t, p)
  {
  }

  // Level t of a cell is in one buffer and level t-1 in the other.
  lemma FinalCell<T>(run: Run<T>, L: Levels, t: nat, p: Point)
    requires Inv(run, L) && InGrid(run.prob.g, p)
    requires forall p :: p in L ==> L[p] == t
    ensures run.At(t, p) == run.prob.Ref(t, p)
    ensures run.At(t + 1, p) == run.prob.Ref(t - 1, p)
  {
    hide Index;
    hide Size;
    hide Problem.Ref;
    assert Holds(run, L, p);
    if p !in L {
      if t % 2 == 0 {
        BoundaryRef(run.prob, 0, t, p);
        BoundaryRef(run.prob, -1, t - 1, p);
      } else {
        BoundaryRef(run.prob, -1, t, p);
        BoundaryRef(run.prob, 0, t - 1, p);
      }
    }
  }

  lemma InvValid<T>(run: Run<T>, L: Levels)
    requires Inv(run, L)
    ensures run.Valid()
  {
  }

  // When every cell has reached level t, the arrays are those of the plain sweep.
  lemma InvFinal<T>(run: Run<T>, L: Levels, t: nat)
    requires Inv(run, L)
    requires forall p :: p in L ==> L[p] == t
    ensures run.a0[..] == run.prob.Final(t, 0)
    ensures run.a1[..] == run.prob.Final(t, 1)
  {
    hide Index;
    hide Size;
    hide Inv;
    hide Problem.Ref;
    InvValid(run, L);
    forall n | 0 <= n < Size(run.prob.g)
      ensures run.a0[n] == run.prob.Final(t, 0)[n]
      ensures run.a1[n] == run.prob.Final(t, 1)[n]
    {
      FinalCell(run, L, t, PointAt(run.prob.g, n));
    }
  }

  // A cell none of whose neighbours is behind it reads only values of its own
  // time level: neighbours are at most one ahead, and then the other buffer
  // still holds what is needed.
  lemma ReadsOwnLevel<T>(run: Run<T>, L: Levels, p: Point, q: Point)
    requires Inv(run, L) && p in L
    requires InGrid(run.prob.g, q) && (q == p || Neighbours(p, q))
    requires q in L ==> L[q] >= L[p]
    ensures q in L ==> L[p] <= L[q] <= L[p] + 1
    ensures run.At(L[p], q) == run.prob.Ref(L[p], q)
  {
    hide Index;
    hide Size;
    assert Holds(run, L, q);
  }

  // So its update computes the next time level.
  lemma GathersRef<T>(run: Run<T>, L: Levels, p: Point)
    requires Inv(run, L) && p in L && Interior(run.prob.g, p)
    requires forall q :: q in L && Neighbours(p, q) ==> L[q] >= L[p]
    ensures Gather(run.prob.g, run.Buffer(L[p]), p) == run.prob.RefCells(L[p], p)
  {
    hide Inv;
    hide Index;
    hide Size;
    hide Problem.Ref;
    ReadsOwnLevel(run, L, p, p);
    ReadsOwnLevel(run, L, p, p.(x := p.x + 1));
    ReadsOwnLevel(run, L, p, p.(x := p.x - 1));
    ReadsOwnLevel(run, L, p, p.(y := p.y + 1));
    ReadsOwnLevel(run, L, p, p.(y := p.y - 1));
    ReadsOwnLevel(run, L, p, p.(z := p.z + 1));
    ReadsOwnLevel(run, L, p, p.(z := p.z - 1));
  }

  lemma TracksUpdate(g: Geometry, L: Levels, p: Point)
    requires Tracks(g, L) && p in L
    requires forall q :: q in L && Neighbours(p, q) ==> L[q] >= L[p]
    ensures Tracks(g, L[p := L[p] + 1])
  {
  }

  // Storing level t+1 over level t-1 keeps the invariant.
  method Store<T>(g: Geometry, dst: array<T>, p: Point, v: T, ghost run: Run<T>, ghost t: int, ghost L: Levels)
    requires Inv(run, L) && g == run.prob.g && dst == run.Buffer(t + 1)
    requires p in L && Interior(g, p) && L[p] == t && v == run.prob.Ref(t + 1, p)
    requires Tracks(g, L[p := t + 1])
    modifies dst
    ensures Inv(run, L[p := t + 1])
  {
    hide Index3D;
    hide Size;
    hide Tracks;
    hide Problem.Ref;
    dst[Index(g, p)] := v;
    forall q | InGrid(g, q) ensures Holds(run, L[p := t + 1], q) {
      assert old(Holds(run, L, q));
      if q != p && Index(g, q) == Index(g, p) {
        IndexInjective(g, p, q);
        assert false;
      }
    }
  }

  // Everything the loops need to know about the run they are part of: src
  // holds time level t, dst is to receive level t+1.
  ghost predicate Sweeping<T>(run: Run<T>, g: Geometry, f: Kernel<T>, fac: T, src: array<T>, dst: array<T>, t: int)
  {
    && run.Valid() && g == run.prob.g && f == run.prob.f && fac == run.prob.fac
    && src == run.Buffer(t) && dst == run.Buffer(t + 1)
  }

  // Swapping the pointers after a time step.
  lemma Swap<T>(run: Run<T>, g: Geometry, f: Kernel<T>, fac: T, src: array<T>, dst: array<T>, t: int)
    requires Sweeping(run, g, f, fac, src, dst, t)
    ensures Sweeping(run, g, f, fac, dst, src, t + 1)
  {
  }

  // One assignment of the innermost loop.
  method Update<T>(g: Geometry, f: Kernel<T>, fac: T, src: array<T>, dst: array<T>, p: Point,
                   ghost run: Run<T>, ghost t: int, ghost L: Levels)
    returns (ghost L': Levels)
    requires Inv(run, L) && Sweeping(run, g, f, fac, src, dst, t)
    requires p in L && L[p] == t
    requires forall q :: q in L && Neighbours(p, q) ==> L[q] >= t
    modifies dst
    ensures Inv(run, L')
    ensures L' == L[p := t + 1]
  {
    hide Index;
    hide Size;
    hide Gather;
    GathersRef(run, L, p);
    TracksUpdate(g, L, p);
    Store(g, dst, p, f(fac, Gather(g, src, p)), run, t, L);
    L' := L[p := t + 1];
  }

  // The cells of the triple loop bounds of one time level.
  datatype Box = Box(x0: int, x1: int, y0: int, y1: int, z0: int, z1: int)
  {
    ghost predicate Has(p: Point) {
      x0 <= p.x < x1 && y0 <= p.y < y1 && z0 <= p.z < z1
    }

    // p comes before (x, y, z) in the order of the triple loop.
    ghost predicate HasBefore(p: Point, x: int, y: int, z: int) {
      Has(p) && (p.z < z || (p.z == z && (p.y < y || (p.y == y && p.x < x))))
    }
  }

  // L with the cells of a box moved from level t to t+1.
  ghost predicate Swept(L: Levels, L': Levels, box: Box, t: int) {
    L'.Keys == L.Keys && forall p :: p in L ==> L'[p] == if box.Has(p) then t + 1 else L[p]
  }

  // The z, y, x loops every probe runs at one time level. All the box asks is
  // that its cells are at level t and nothing beside it is behind.
  method SweepBox<T>(g: Geometry, f: Kernel<T>, fac: T, src: array<T>, dst: array<T>, box: Box,
                     ghost run: Run<T>, ghost t: int, ghost L: Levels)
    returns (ghost L': Levels)
    requires Inv(run, L) && Sweeping(run, g, f, fac, src, dst, t)
    requires forall p :: box.Has(p) ==> p in L && L[p] == t
    requires forall p, q :: box.Has(p) && q in L && Neighbours(p, q) ==> L[q] >= t
    modifies dst
    ensures Inv(run, L')
    ensures Swept(L, L', box, t)
  {
    hide Inv;
    hide Sweeping;
    L' := L;
    var z := box.z0;
    while z < box.z1
      invariant box.z0 <= z
      invariant Inv(run, L') && L'.Keys == L.Keys
      invariant forall p :: p in L ==> L'[p] == if box.HasBefore(p, box.x0, box.y0, z) then t + 1 else L[p]
    {
      var y := box.y0;
      while y < box.y1
        invariant box.y0 <= y
        invariant Inv(run, L') && L'.Keys == L.Keys
        invariant forall p :: p in L ==> L'[p] == if box.HasBefore(p, box.x0, y, z) then t + 1 else L[p]
      {
        var x := box.x0;
        while x < box.x1
          invariant box.x0 <= x
          invariant Inv(run, L') && L'.Keys == L.Keys
          invariant forall p :: p in L ==> L'[p] == if box.HasBefore(p, x, y, z) then t + 1 else L[p]
        {
          assert box.Has(Point(x, y, z));
          L' := Update(g, f, fac, src, dst, Point(x, y, z), run, t, L');
          x := x + 1;
        }
        y := y + 1;
      }
      z := z + 1;
    }
  }

  // The run a probe is called on: whatever its two arrays hold on entry.
  ghost function EntryRun<T>(g: Geometry, f: Kernel<T>, a0: array<T>, anext: array<T>): Run<T>
    requires Arguments(g, a0, anext)
    reads a0, anext
  {
    Run(Problem(g, f, a0[0], a0[..], anext[..]), a0, anext)
  }

  // What the caller has to pass: two distinct arrays of the grid's size.
  ghost predicate Arguments<T>(g: Geometry, a0: array<T>, anext: array<T>) {
    a0 != anext && a0.Length == anext.Length == Size(g) > 0
  }

  function Steps(timesteps: int): nat {
    if timesteps > 0 then timesteps else 0
  }

  lemma EntrySweeping<T>(g: Geometry, f: Kernel<T>, a0: array<T>, anext: array<T>)
    requires Arguments(g, a0, anext)
    ensures EntryRun(g, f, a0, anext).Valid()
    ensures Sweeping(EntryRun(g, f, a0, anext), g, f, a0[0], a0, anext, 0)
  {
  }
}
