// probe_heat_circqueue.c: slabs run through queues of three revolving planes
// per time level.
module ProbeCircqueue {
  import opened Arithmetic
  import opened Grid
  import opened Stencil
  import opened CircularQueue

  // A C pointer into an array.
  datatype Ptr<!T> = Ptr(a: array<T>, at: int)

  // The setting of one (s, k, t) iteration: read through r0, r1, r2 relative to
  // row `row`, write through w relative to row `wrow` into cells lo..hi of its
  // array, which held orig.
  datatype Step<!T> = Step(prob: Problem<T>, slab: Slab, t: int, z: int,
                           r0: Ptr<T>, r1: Ptr<T>, r2: Ptr<T>, row: int,
                           w: Ptr<T>, wrow: int, orig: seq<T>, lo: int, hi: int)
  {
    ghost predicate Writes(j: int, i: int) {
      slab.Writes(t, prob.g.nx, j, i)
    }

    ghost function Spot(j: int, i: int): int {
      w.at + Rel(prob.g, i, j, z, wrow)
    }

    ghost predicate Valid() {
      && prob.Valid() && slab.Valid() && slab.ny == prob.g.ny && 0 <= t < slab.steps
      && 1 <= z < prob.g.nz - 1 && prob.g.nx > 0
      && |orig| == w.a.Length && 0 <= lo <= hi <= w.a.Length
      && (forall j, i :: Writes(j, i) ==> lo <= Spot(j, i) < hi)
      && (forall j, i :: Writes(j, i) ==> InGrid(prob.g, Point(i, j, z)))
    }

    // What this iteration has to put at (j, i).
    ghost function Value(j: int, i: int): T
      requires prob.Valid() && InGrid(prob.g, Point(i, j, z))
    {
      Val(prob, slab, t + 1, Point(i, j, z))
    }

    ghost predicate Good(j: int, i: int)
      requires Valid() && Writes(j, i)
      reads w.a
    {
      w.a[Spot(j, i)] == Value(j, i)
    }

    // Reading cell (j, i) through r gives v, now and while the plane is written.
    ghost predicate Gives(r: Ptr<T>, j: int, i: int, v: T)
      reads r.a
    {
      var d := r.at + Rel(prob.g, i, j, z, row);
      0 <= d < r.a.Length && r.a[d] == v && (r.a == w.a ==> !(lo <= d < hi))
    }

    ghost predicate GivesAll(j: int, i: int)
      requires prob.Valid() && Interior(prob.g, Point(i, j, z))
      reads r0.a, r1.a, r2.a
    {
      var c := Reads(prob, slab, t, Point(i, j, z));
      && Gives(r0, j, i, c.zm) && Gives(r2, j, i, c.zp)
      && Gives(r1, j - 1, i, c.ym) && Gives(r1, j, i - 1, c.xm)
      && Gives(r1, j, i + 1, c.xp) && Gives(r1, j + 1, i, c.yp)
      && Gives(r1, j, i, c.centre)
    }

    // A region of the level being read lies apart from the cells being written.
    ghost predicate Apart(base: int) {
      base + RegionSize(prob.g.nx, slab.ty, slab.steps, t) <= lo || hi <= base
    }

    ghost predicate Feeds()
      requires Valid()
      reads r0.a, r1.a, r2.a
    {
      && (forall j, i :: slab.Computes(t, prob.g.nx, j, i) ==> GivesAll(j, i))
      && (t < slab.steps - 1 ==>
            forall j, i :: slab.Copies(t, prob.g.nx, j, i) ==> Gives(r1, j, i, Value(j, i)))
    }

    ghost predicate Framed()
      requires Valid()
      reads w.a
    {
      forall a :: 0 <= a < w.a.Length && (forall j, i :: Writes(j, i) ==> a != Spot(j, i)) ==> w.a[a] == orig[a]
    }

    ghost predicate Ok()
      reads r0.a, r1.a, r2.a, w.a
    {
      Valid() && Feeds() && Framed()
    }
  }

  // One write of a right value keeps everything else.
  method Put<T>(g: Geometry, w: Ptr<T>, i: int, j: int, z: int, wrow: int, v: T, ghost st: Step<T>)
    requires st.Ok() && g == st.prob.g && w == st.w && z == st.z && wrow == st.wrow
    requires st.Writes(j, i) && v == st.Value(j, i)
    modifies w.a
    ensures st.Ok() && st.Good(j, i)
    ensures forall j', i' :: st.Writes(j', i') && old(st.Good(j', i')) ==> st.Good(j', i')
  {
    hide Rel;
    hide Val;
    hide Reads;
    hide Slab.Writes;
    hide Slab.Computes;
    hide Slab.Copies;
    w.a[w.at + Rel(g, i, j, z, wrow)] := v;
    forall j', i' | st.Writes(j', i') && st.Spot(j', i') == st.Spot(j, i) ensures i' == i && j' == j {
      RelInjective(g, i, j, i', j', z, wrow);
    }
  }

  // An array cell through a pointer.
  function Deref<T>(g: Geometry, r: Ptr<T>, i: int, j: int, z: int, row: int): T
    requires 0 <= r.at + Rel(g, i, j, z, row) < r.a.Length
    reads r.a
  {
    r.a[r.at + Rel(g, i, j, z, row)]
  }

  // Copies the ghost columns, and the ghost rows of the first and last slabs.
  method CopyGhosts<T>(g: Geometry, slab: Slab, t: int, z: int, r1: Ptr<T>, row: int, w: Ptr<T>, wrow: int,
                       ghost st: Step<T>)
    requires st.Ok() && t < slab.steps - 1
    requires g == st.prob.g && slab == st.slab && t == st.t && z == st.z
    requires r1 == st.r1 && row == st.row && w == st.w && wrow == st.wrow
    modifies w.a
    ensures st.Ok()
    ensures forall j, i :: slab.Copies(t, g.nx, j, i) ==> st.Good(j, i)
  {
    hide Rel;
    hide Val;
    hide Step.Good;
    hide Step.Value;
    hide Step.Framed;
    hide Step.Feeds;
    var lo, hi := slab.Min(t), slab.Max(t);
    var j := lo + 1;
    while j < hi - 1
      invariant lo + 1 <= j
      invariant st.Ok()
      invariant forall j', i' :: lo + 1 <= j' < j && j' < hi - 1 && (i' == 0 || i' == g.nx - 1) ==> st.Good(j', i')
    {
      CopyCell(g, slab, t, z, 0, j, r1, row, w, wrow, st);
      CopyCell(g, slab, t, z, g.nx - 1, j, r1, row, w, wrow, st);
      j := j + 1;
    }
    if lo == 0 {
      CopyRow(g, slab, t, z, 0, r1, row, w, wrow, st);
    }
    if hi == g.ny {
      CopyRow(g, slab, t, z, slab.RealMax(t), r1, row, w, wrow, st);
    }
  }

  method CopyCell<T>(g: Geometry, slab: Slab, t: int, z: int, i: int, j: int,
                     r1: Ptr<T>, row: int, w: Ptr<T>, wrow: int, ghost st: Step<T>)
    requires st.Ok() && t < slab.steps - 1
    requires g == st.prob.g && slab == st.slab && t == st.t && z == st.z
    requires r1 == st.r1 && row == st.row && w == st.w && wrow == st.wrow
    requires slab.Copies(t, g.nx, j, i)
    modifies w.a
    ensures st.Ok() && st.Good(j, i)
    ensures forall j', i' :: st.Writes(j', i') && old(st.Good(j', i')) ==> st.Good(j', i')
  {
    hide Rel;
    assert st.Gives(r1, j, i, st.Value(j, i));
    Put(g, w, i, j, z, wrow, Deref(g, r1, i, j, z, row), st);
  }

  method CopyRow<T>(g: Geometry, slab: Slab, t: int, z: int, j: int,
                    r1: Ptr<T>, row: int, w: Ptr<T>, wrow: int, ghost st: Step<T>)
    requires st.Ok() && t < slab.steps - 1
    requires g == st.prob.g && slab == st.slab && t == st.t && z == st.z
    requires r1 == st.r1 && row == st.row && w == st.w && wrow == st.wrow
    requires forall i :: 1 <= i < g.nx - 1 ==> slab.Copies(t, g.nx, j, i)
    modifies w.a
    ensures st.Ok()
    ensures forall i :: 1 <= i < g.nx - 1 ==> st.Good(j, i)
    ensures forall j', i' :: st.Writes(j', i') && old(st.Good(j', i')) ==> st.Good(j', i')
  {
    hide Rel;
    hide Val;
    hide Step.Good;
    hide Step.Value;
    hide Step.Framed;
    hide Step.Feeds;
    var i := 1;
    while i < g.nx - 1
      invariant 1 <= i
      invariant st.Ok()
      invariant forall i' :: 1 <= i' < i && i' < g.nx - 1 ==> st.Good(j, i')
      invariant forall j', i' :: st.Writes(j', i') && old(st.Good(j', i')) ==> st.Good(j', i')
    {
      CopyCell(g, slab, t, z, i, j, r1, row, w, wrow, st);
      i := i + 1;
    }
  }

  // The stencil at one cell, in the queue code's order of reads.
  method ComputeCell<T>(f: Kernel<T>, fac: T, g: Geometry, slab: Slab, t: int, z: int, i: int, j: int,
                        r0: Ptr<T>, r1: Ptr<T>, r2: Ptr<T>, row: int, w: Ptr<T>, wrow: int, ghost st: Step<T>)
    requires st.Ok() && f == st.prob.f && fac == st.prob.fac
    requires g == st.prob.g && slab == st.slab && t == st.t && z == st.z
    requires r0 == st.r0 && r1 == st.r1 && r2 == st.r2 && row == st.row && w == st.w && wrow == st.wrow
    requires slab.Computes(t, g.nx, j, i)
    modifies w.a
    ensures st.Ok() && st.Good(j, i)
    ensures forall j', i' :: st.Writes(j', i') && old(st.Good(j', i')) ==> st.Good(j', i')
  {
    hide Rel;
    assert st.Writes(j, i);
    assert st.GivesAll(j, i);
    var v := f(fac, Cells(
      Deref(g, r1, i, j, z, row),
      Deref(g, r1, i + 1, j, z, row), Deref(g, r1, i - 1, j, z, row),
      Deref(g, r1, i, j + 1, z, row), Deref(g, r1, i, j - 1, z, row),
      Deref(g, r2, i, j, z, row), Deref(g, r0, i, j, z, row)));
    Put(g, w, i, j, z, wrow, v, st);
  }

  // One plane of one time step: ghost copies unless this is the last step,
  // then the stencil.
  method FillPlane<T>(f: Kernel<T>, fac: T, g: Geometry, slab: Slab, t: int, z: int,
                      r0: Ptr<T>, r1: Ptr<T>, r2: Ptr<T>, row: int, w: Ptr<T>, wrow: int, ghost st: Step<T>)
    requires st.Ok() && f == st.prob.f && fac == st.prob.fac
    requires g == st.prob.g && slab == st.slab && t == st.t && z == st.z
    requires r0 == st.r0 && r1 == st.r1 && r2 == st.r2 && row == st.row && w == st.w && wrow == st.wrow
    modifies w.a
    ensures st.Ok()
    ensures forall j, i :: st.Writes(j, i) ==> st.Good(j, i)
  {
    hide Rel;
    hide Val;
    hide Step.Good;
    hide Step.Value;
    hide Step.Framed;
    hide Step.Feeds;
    if t < slab.steps - 1 {
      CopyGhosts(g, slab, t, z, r1, row, w, wrow, st);
    }
    var j := slab.RealMin(t);
    while j < slab.RealMax(t)
      invariant slab.RealMin(t) <= j
      invariant st.Ok()
      invariant t < slab.steps - 1 ==> forall j', i' :: slab.Copies(t, g.nx, j', i') ==> st.Good(j', i')
      invariant forall j', i' :: slab.Computes(t, g.nx, j', i') && j' < j ==> st.Good(j', i')
    {
      var i := 1;
      while i < g.nx - 1
        invariant 1 <= i
        invariant st.Ok()
        invariant t < slab.steps - 1 ==> forall j', i' :: slab.Copies(t, g.nx, j', i') ==> st.Good(j', i')
        invariant forall j', i' :: slab.Computes(t, g.nx, j', i') && (j' < j || (j' == j && i' < i)) ==> st.Good(j', i')
      {
        ComputeCell(f, fac, g, slab, t, z, i, j, r0, r1, r2, row, w, wrow, st);
        i := i + 1;
      }
      j := j + 1;
    }
  }

  // The globals set up by CircularQueueInit: one allocation of three planes
  // and where each time level's region starts in a plane.
  class Queue<T(0)> {
    const queuePlanes: array<T>
    const queuePlanesIndices: seq<int>
    var queuePlane0: int
    var queuePlane1: int
    var queuePlane2: int

    ghost predicate Valid(nx: int, ty: int, steps: int)
      reads this
    {
      && |queuePlanesIndices| == steps - 1
      && (forall t :: 1 <= t < steps ==> queuePlanesIndices[t - 1] == RegionStart(nx, ty, steps, t))
      && queuePlanes.Length == 3 * RegionStart(nx, ty, steps, steps)
      && Thirds(queuePlane0, queuePlane1, queuePlane2, RegionStart(nx, ty, steps, steps))
    }

    constructor (nx: nat, ty: nat, timesteps: int)
      requires 1 <= timesteps
      ensures Valid(nx, ty, timesteps) && fresh(queuePlanes)
      ensures queuePlane0 == 0 && queuePlane1 == RegionStart(nx, ty, timesteps, timesteps)
      ensures queuePlane2 == 2 * queuePlane1
    {
      var indices: seq<int> := [];
      var ptr := 0;
      var t := 1;
      while t < timesteps
        invariant 1 <= t <= timesteps && |indices| == t - 1
        invariant ptr == RegionStart(nx, ty, timesteps, t)
        invariant forall u :: 1 <= u < t ==> indices[u - 1] == RegionStart(nx, ty, timesteps, u)
      {
        indices := indices + [ptr];
        var numPointsInQueuePlane := (ty + 2 * (timesteps - t)) * nx;
        ptr := ptr + numPointsInQueuePlane;
        t := t + 1;
      }
      RegionsOrdered(nx, ty, timesteps, timesteps, timesteps);
      queuePlanesIndices := indices;
      queuePlanes := new T[3 * ptr];
      queuePlane0, queuePlane1, queuePlane2 := 0, ptr, 2 * ptr;
    }

    // The end of an iteration over k.
    method Rotate(ghost nx: int, ghost ty: int, ghost steps: int)
      requires Valid(nx, ty, steps)
      modifies this
      ensures Valid(nx, ty, steps)
      ensures queuePlane0 == old(queuePlane1) && queuePlane1 == old(queuePlane2) && queuePlane2 == old(queuePlane0)
    {
      var tempQueuePlane := queuePlane0;
      queuePlane0 := queuePlane1;
      queuePlane1 := queuePlane2;
      queuePlane2 := tempQueuePlane;
    }
  }

  // Reading A0 through a pointer to the start of plane z'.
  lemma GridGives<T>(st: Step<T>, a0: array<T>, z': int, j: int, i: int)
    requires st.prob.Valid() && a0[..] == st.prob.init0 && a0 != st.w.a
    requires InGrid(st.prob.g, Point(i, j - st.row, z'))
    ensures
      st.Gives(Ptr(a0, Index3D(st.prob.g.nx, st.prob.g.ny, 0, 0, z')), j, i,
               st.prob.Initial(0, Point(i, j - st.row, z')))
  {
    hide Rel;
    hide Index3D;
    RelInPlane(st.prob.g, i, j, st.z, st.row, z');
    var n := Index(st.prob.g, Point(i, j - st.row, z'));
    assert a0[n] == a0[..][n];
  }

  // Reading a queue plane that holds level t of grid plane z'.
  lemma QueueGives<T>(st: Step<T>, planes: array<T>, base: int, z': int, j: int, i: int)
    requires st.prob.Valid() && st.slab.Valid() && st.slab.ny == st.prob.g.ny && st.prob.g.nx > 0
    requires 1 <= st.t < st.slab.steps && st.row == st.slab.ReadRow(st.t)
    requires PlaneHolds(st.prob, st.slab, planes[..], base, st.t, z')
    requires st.slab.Writes(st.t - 1, st.prob.g.nx, j, i)
    requires planes == st.w.a ==> st.Apart(base)
    ensures InGrid(st.prob.g, Point(i, j, z'))
    ensures st.Gives(Ptr(planes, base), j, i, Val(st.prob, st.slab, st.t, Point(i, j, z')))
  {
    hide Rel;
    hide Val;
    assert CellHolds(st.prob, st.slab, planes[..], base, st.t, z', j, i);
    ReadsWhatWasWritten(st.slab, st.t, st.prob.g.nx, j, i);
    WritesInRows(st.slab, st.t - 1, st.prob.g.nx, j, i);
    RelIsRowMajor(st.prob.g, i, j, z', st.row);
    RelIsRowMajor(st.prob.g, i, j, st.z, st.row);
    RelInRange(st.prob.g, i, j, z', st.row, st.slab.Rows(st.t));
  }

  // Step 0 reads three planes of A0.
  lemma FirstStepFeeds<T>(st: Step<T>, a0: array<T>)
    requires st.Valid() && st.t == 0 && st.row == 0
    requires a0[..] == st.prob.init0 && a0 != st.w.a
    requires st.r0 == Ptr(a0, Index3D(st.prob.g.nx, st.prob.g.ny, 0, 0, st.z - 1))
    requires st.r1 == Ptr(a0, Index3D(st.prob.g.nx, st.prob.g.ny, 0, 0, st.z))
    requires st.r2 == Ptr(a0, Index3D(st.prob.g.nx, st.prob.g.ny, 0, 0, st.z + 1))
    ensures st.Feeds()
  {
    hide Rel;
    hide Index3D;
    hide Step.Gives;
    var z := st.z;
    forall j, i | st.slab.Computes(0, st.prob.g.nx, j, i) ensures st.GivesAll(j, i) {
      GridGives(st, a0, z - 1, j, i);
      GridGives(st, a0, z, j, i);
      GridGives(st, a0, z, j - 1, i);
      GridGives(st, a0, z, j + 1, i);
      GridGives(st, a0, z, j, i - 1);
      GridGives(st, a0, z, j, i + 1);
      GridGives(st, a0, z + 1, j, i);
    }
    if 0 < st.slab.steps - 1 {
      forall j, i | st.slab.Copies(0, st.prob.g.nx, j, i) ensures st.Gives(st.r1, j, i, st.Value(j, i)) {
        assert st.Writes(j, i);
        GridGives(st, a0, z, j, i);
      }
    }
  }

  // The pointers of a later step: three queue planes of its level, except that
  // the outermost planes come from A0.
  ghost predicate LaterStep<T>(st: Step<T>, a0: array<T>, planes: array<T>, b0: int, b1: int, b2: int)
    reads a0, planes
  {
    && st.Valid() && 1 <= st.t && st.row == st.slab.ReadRow(st.t)
    && a0[..] == st.prob.init0 && a0 != st.w.a
    && st.r0 == (if st.z == 1 then Ptr(a0, Index3D(st.prob.g.nx, st.prob.g.ny, 0, 0, 0)) else Ptr(planes, b0))
    && st.r1 == Ptr(planes, b1)
    && st.r2 == (if st.z == st.prob.g.nz - 2
                 then Ptr(a0, Index3D(st.prob.g.nx, st.prob.g.ny, 0, 0, st.prob.g.nz - 1)) else Ptr(planes, b2))
    && (st.z != 1 ==> PlaneHolds(st.prob, st.slab, planes[..], b0, st.t, st.z - 1))
    && PlaneHolds(st.prob, st.slab, planes[..], b1, st.t, st.z)
    && (st.z != st.prob.g.nz - 2 ==> PlaneHolds(st.prob, st.slab, planes[..], b2, st.t, st.z + 1))
    && (planes == st.w.a ==> st.Apart(b0) && st.Apart(b1) && st.Apart(b2))
  }

  lemma LaterStepGivesAll<T>(st: Step<T>, a0: array<T>, planes: array<T>, b0: int, b1: int, b2: int, j: int, i: int)
    requires LaterStep(st, a0, planes, b0, b1, b2) && st.slab.Computes(st.t, st.prob.g.nx, j, i)
    ensures Interior(st.prob.g, Point(i, j, st.z)) && st.GivesAll(j, i)
  {
    hide Rel;
    hide Index3D;
    hide PlaneHolds;
    hide Step.Gives;
    hide Step.Apart;
    hide Slab.Writes;
    var z := st.z;
    assert Interior(st.prob.g, Point(i, j, z));
    ReadsWhatWasWritten(st.slab, st.t, st.prob.g.nx, j, i);
    if z == 1 {
      GridGives(st, a0, 0, j, i);
    } else {
      QueueGives(st, planes, b0, z - 1, j, i);
    }
    QueueGives(st, planes, b1, z, j, i);
    QueueGives(st, planes, b1, z, j - 1, i);
    QueueGives(st, planes, b1, z, j + 1, i);
    QueueGives(st, planes, b1, z, j, i - 1);
    QueueGives(st, planes, b1, z, j, i + 1);
    if z == st.prob.g.nz - 2 {
      GridGives(st, a0, z + 1, j, i);
    } else {
      QueueGives(st, planes, b2, z + 1, j, i);
    }
  }

  lemma LaterStepFeeds<T>(st: Step<T>, a0: array<T>, planes: array<T>, b0: int, b1: int, b2: int)
    requires LaterStep(st, a0, planes, b0, b1, b2)
    ensures st.Feeds()
  {
    hide Rel;
    hide PlaneHolds;
    hide Step.Gives;
    hide Step.GivesAll;
    hide Step.Apart;
    var t, nx := st.t, st.prob.g.nx;
    forall j, i | st.slab.Computes(t, nx, j, i) ensures st.GivesAll(j, i) {
      LaterStepGivesAll(st, a0, planes, b0, b1, b2, j, i);
    }
    if t < st.slab.steps - 1 {
      forall j, i | st.slab.Copies(t, nx, j, i) ensures st.Gives(st.r1, j, i, st.Value(j, i)) {
        assert st.Writes(j, i);
        ReadsWhatWasWritten(st.slab, t, nx, j, i);
        QueueGives(st, planes, b1, st.z, j, i);
      }
    }
  }

  lemma OriginIsZero(nx: int, ny: int)
    ensures Index3D(nx, ny, 0, 0, 0) == 0
  {
  }

  // The result array after the last step of plane z: its computed cells hold
  // the last level, everything else is as before.
  ghost predicate Stored<T>(p: Problem<T>, s: Slab, z: int, c: seq<T>, c': seq<T>)
    requires p.Valid()
  {
    |c| == |c'| == Size(p.g) && forall a :: InGrid(p.g, a) ==> StoredAt(p, s, z, c, c', a)
  }

  ghost predicate StoredAt<T>(p: Problem<T>, s: Slab, z: int, c: seq<T>, c': seq<T>, a: Point)
    requires p.Valid() && |c| == |c'| == Size(p.g) && InGrid(p.g, a)
  {
    c'[Index(p.g, a)] ==
    if a.z == z && s.Computes(s.steps - 1, p.g.nx, a.y, a.x) then Val(p, s, s.steps, a) else c[Index(p.g, a)]
  }

  lemma ResultSpot<T>(st: Step<T>, j: int, i: int)
    requires st.wrow == 0 && st.w.at == Index3D(st.prob.g.nx, st.prob.g.ny, 0, 0, st.z)
    requires InGrid(st.prob.g, Point(i, j, st.z))
    ensures st.Spot(j, i) == Index(st.prob.g, Point(i, j, st.z))
  {
    RelInPlane(st.prob.g, i, j, st.z, 0, st.z);
  }

  lemma ResultStored<T>(st: Step<T>)
    requires st.Ok() && st.t == st.slab.steps - 1 && |st.orig| == Size(st.prob.g)
    requires st.wrow == 0 && st.w.at == Index3D(st.prob.g.nx, st.prob.g.ny, 0, 0, st.z)
    requires forall j, i :: st.Writes(j, i) ==> st.Good(j, i)
    ensures Stored(st.prob, st.slab, st.z, st.orig, st.w.a[..])
  {
    hide Rel;
    hide Index;
    hide Size;
    hide Val;
    hide Step.Spot;
    forall a | InGrid(st.prob.g, a) ensures StoredAt(st.prob, st.slab, st.z, st.orig, st.w.a[..], a) {
      if a.z == st.z && st.slab.Computes(st.t, st.prob.g.nx, a.y, a.x) {
        assert st.Writes(a.y, a.x) && st.Good(a.y, a.x);
        ResultSpot(st, a.y, a.x);
      } else {
        forall j, i | st.Writes(j, i) ensures Index(st.prob.g, a) != st.Spot(j, i) {
          ResultSpot(st, j, i);
          if Index(st.prob.g, a) == st.Spot(j, i) {
            IndexInjective(st.prob.g, a, Point(i, j, st.z));
            assert false;
          }
        }
      }
    }
  }

  // The queue cells a step writes lie in its region, and hold its plane afterwards.
  lemma QueueStepValid<T>(st: Step<T>)
    requires st.prob.Valid() && st.slab.Valid() && st.slab.ny == st.prob.g.ny && st.prob.g.nx > 0
    requires 0 <= st.t < st.slab.steps - 1 && 1 <= st.z < st.prob.g.nz - 1
    requires st.wrow == st.slab.Min(st.t) && st.lo == st.w.at
    requires st.hi == st.lo + RegionSize(st.prob.g.nx, st.slab.ty, st.slab.steps, st.t + 1)
    requires |st.orig| == st.w.a.Length && 0 <= st.lo <= st.hi <= st.w.a.Length
    ensures st.Valid()
  {
    hide Rel;
    forall j, i | st.Writes(j, i) ensures st.lo <= st.Spot(j, i) < st.hi && InGrid(st.prob.g, Point(i, j, st.z)) {
      WritesInRows(st.slab, st.t, st.prob.g.nx, j, i);
      RelInRange(st.prob.g, i, j, st.z, st.wrow, st.slab.Rows(st.t + 1));
    }
  }

  lemma QueueStored<T>(st: Step<T>)
    requires st.Ok() && st.t < st.slab.steps - 1 && st.wrow == st.slab.Min(st.t) && st.lo == st.w.at
    requires forall j, i :: st.Writes(j, i) ==> st.Good(j, i)
    ensures PlaneHolds(st.prob, st.slab, st.w.a[..], st.lo, st.t + 1, st.z)
    ensures forall a :: 0 <= a < |st.orig| && !(st.lo <= a < st.hi) ==> st.w.a[..][a] == st.orig[a]
  {
    hide Rel;
    hide Val;
    forall j, i | st.slab.Writes(st.t, st.prob.g.nx, j, i)
      ensures CellHolds(st.prob, st.slab, st.w.a[..], st.lo, st.t + 1, st.z, j, i)
    {
      assert st.Writes(j, i) && st.Good(j, i);
    }
  }

  lemma ResultStepValid<T>(st: Step<T>)
    requires st.prob.Valid() && st.slab.Valid() && st.slab.ny == st.prob.g.ny && st.prob.g.nx > 0
    requires st.t == st.slab.steps - 1 && 1 <= st.z < st.prob.g.nz - 1
    requires st.wrow == 0 && st.w.at == Index3D(st.prob.g.nx, st.prob.g.ny, 0, 0, st.z)
    requires |st.orig| == st.w.a.Length == Size(st.prob.g) && st.lo == 0 && st.hi == st.w.a.Length
    ensures st.Valid()
  {
    hide Rel;
    hide Index;
    hide Index3D;
    hide Size;
    hide Step.Spot;
    forall j, i | st.Writes(j, i) ensures st.lo <= st.Spot(j, i) < st.hi && InGrid(st.prob.g, Point(i, j, st.z)) {
      WritesInRows(st.slab, st.t, st.prob.g.nx, j, i);
      ResultSpot(st, j, i);
    }
  }

  // Everything one iteration relies on.
  ghost predicate Setting<T(0)>(prob: Problem<T>, slab: Slab, f: Kernel<T>, fac: T, a0: array<T>, anext: array<T>,
                                g: Geometry, q: Queue<T>)
    reads a0, q
  {
    && prob.Valid() && prob.g == g && prob.f == f && prob.fac == fac && g.nx > 0
    && slab.Valid() && slab.ny == g.ny
    && a0[..] == prob.init0 && anext.Length == Size(g)
    && a0 != anext && q.queuePlanes != a0 && q.queuePlanes != anext
    && q.Valid(g.nx, slab.ty, slab.steps)
  }

  ghost predicate Holding<T(0)>(prob: Problem<T>, slab: Slab, q: Queue<T>, k: int, t: int)
    requires prob.Valid()
    reads q, q.queuePlanes
  {
    QueueHolds(prob, slab, q.queuePlanes[..], q.queuePlane0, q.queuePlane1, q.queuePlane2, k, t)
  }

  // The read pointers of step t at plane k-t.
  method ReadPointers<T(0)>(a0: array<T>, g: Geometry, q: Queue<T>, k: int, t: int, ghost slab: Slab)
    returns (r0: Ptr<T>, r1: Ptr<T>, r2: Ptr<T>)
    requires slab.Valid() && q.Valid(g.nx, slab.ty, slab.steps)
    requires 0 <= t < slab.steps && t < k < g.nz + t - 1
    ensures t == 0 ==>
              && r0 == Ptr(a0, Index3D(g.nx, g.ny, 0, 0, k - 1))
              && r1 == Ptr(a0, Index3D(g.nx, g.ny, 0, 0, k))
              && r2 == Ptr(a0, Index3D(g.nx, g.ny, 0, 0, k + 1))
    ensures t >= 1 ==>
              var at := RegionStart(g.nx, slab.ty, slab.steps, t);
              && r0 == (if k - t == 1
                        then Ptr(a0, Index3D(g.nx, g.ny, 0, 0, 0)) else Ptr(q.queuePlanes, q.queuePlane0 + at))
              && r1 == Ptr(q.queuePlanes, q.queuePlane1 + at)
              && r2 == (if k - t == g.nz - 2
                        then Ptr(a0, Index3D(g.nx, g.ny, 0, 0, g.nz - 1)) else Ptr(q.queuePlanes, q.queuePlane2 + at))
  {
    hide Index3D;
    OriginIsZero(g.nx, g.ny);
    if t == 0 {
      r0 := Ptr(a0, Index3D(g.nx, g.ny, 0, 0, k - 1));
      r1 := Ptr(a0, Index3D(g.nx, g.ny, 0, 0, k));
      r2 := Ptr(a0, Index3D(g.nx, g.ny, 0, 0, k + 1));
    } else {
      r0 := Ptr(q.queuePlanes, q.queuePlane0 + q.queuePlanesIndices[t - 1]);
      r1 := Ptr(q.queuePlanes, q.queuePlane1 + q.queuePlanesIndices[t - 1]);
      r2 := Ptr(q.queuePlanes, q.queuePlane2 + q.queuePlanesIndices[t - 1]);
    }
    // The two outermost planes never change, so they come from A0 itself.
    if k == t + 1 {
      r0 := Ptr(a0, 0);
    }
    if k == g.nz + t - 2 {
      r2 := Ptr(a0, Index3D(g.nx, g.ny, 0, 0, g.nz - 1));
    }
  }

  // The pointers give the step what it needs, wherever it writes.
  lemma PointersFeed<T(0)>(st: Step<T>, a0: array<T>, q: Queue<T>, k: int)
    requires st.Valid() && q.Valid(st.prob.g.nx, st.slab.ty, st.slab.steps)
    requires a0[..] == st.prob.init0 && a0 != st.w.a && st.row == st.slab.ReadRow(st.t) && st.z == k - st.t
    requires Holding(st.prob, st.slab, q, k, st.t)
    requires
      var nx, ny := st.prob.g.nx, st.prob.g.ny;
      if st.t == 0 then
        && st.r0 == Ptr(a0, Index3D(nx, ny, 0, 0, k - 1))
        && st.r1 == Ptr(a0, Index3D(nx, ny, 0, 0, k))
        && st.r2 == Ptr(a0, Index3D(nx, ny, 0, 0, k + 1))
      else
        var at := RegionStart(nx, st.slab.ty, st.slab.steps, st.t);
        && st.r0 == (if st.z == 1 then Ptr(a0, Index3D(nx, ny, 0, 0, 0)) else Ptr(q.queuePlanes, q.queuePlane0 + at))
        && st.r1 == Ptr(q.queuePlanes, q.queuePlane1 + at)
        && st.r2 == (if st.z == st.prob.g.nz - 2
                     then Ptr(a0, Index3D(nx, ny, 0, 0, st.prob.g.nz - 1)) else Ptr(q.queuePlanes, q.queuePlane2 + at))
    requires q.queuePlanes == st.w.a ==>
               && st.t < st.slab.steps - 1
               && st.lo == q.queuePlane2 + RegionStart(st.prob.g.nx, st.slab.ty, st.slab.steps, st.t + 1)
               && st.hi == st.lo + RegionSize(st.prob.g.nx, st.slab.ty, st.slab.steps, st.t + 1)
    ensures st.Feeds()
  {
    hide Index3D;
    hide Step.Feeds;
    hide PlaneHolds;
    hide RegionSize;
    var nx, ty, steps, t := st.prob.g.nx, st.slab.ty, st.slab.steps, st.t;
    if t == 0 {
      FirstStepFeeds(st, a0);
    } else {
      var at := RegionStart(nx, ty, steps, t);
      RegionsOrdered(nx, ty, steps, t, steps);
      if q.queuePlanes == st.w.a {
        RegionsOrdered(nx, ty, steps, t, t + 1);
        RegionsOrdered(nx, ty, steps, t + 1, steps);
      }
      assert LaterStep(st, a0, q.queuePlanes, q.queuePlane0 + at, q.queuePlane1 + at, q.queuePlane2 + at);
      LaterStepFeeds(st, a0, q.queuePlanes, q.queuePlane0 + at, q.queuePlane1 + at, q.queuePlane2 + at);
    }
  }

  // The body of the loops over s, k and t, on an active plane.
  method StepPlane<T(0)>(f: Kernel<T>, fac: T, a0: array<T>, anext: array<T>, g: Geometry, q: Queue<T>,
                         slab: Slab, k: int, t: int, ghost prob: Problem<T>)
    requires Setting(prob, slab, f, fac, a0, anext, g, q)
    requires 0 <= t < slab.steps && t < k < g.nz + t - 1
    requires Holding(prob, slab, q, k, t)
    modifies q.queuePlanes, anext
    ensures Holding(prob, slab, q, k, t + 1)
    ensures t < slab.steps - 1 ==> anext[..] == old(anext[..])
    ensures t == slab.steps - 1 ==> Stored(prob, slab, k - t, old(anext[..]), anext[..])
  {
    hide Index3D;
    hide Size;
    hide QueueHolds;
    hide PlaneHolds;
    hide Stored;
    hide RegionSize;
    hide Step.Feeds;
    hide Step.Framed;
    hide Step.Valid;
    hide Step.Good;
    hide Step.Spot;
    hide Thirds;
    var z := k - t;
    var r0, r1, r2 := ReadPointers(a0, g, q, k, t, slab);
    var row := slab.ReadRow(t);
    if t == slab.steps - 1 {
      var w := Ptr(anext, Index3D(g.nx, g.ny, 0, 0, z));
      ghost var st := Step(prob, slab, t, z, r0, r1, r2, row, w, 0, anext[..], 0, anext.Length);
      ResultStepValid(st);
      PointersFeed(st, a0, q, k);
      StepFramed(st);
      FillPlane(f, fac, g, slab, t, z, r0, r1, r2, row, w, 0, st);
      ResultStored(st);
    } else {
      var w := Ptr(q.queuePlanes, q.queuePlane2 + q.queuePlanesIndices[t]);
      ghost var c := q.queuePlanes[..];
      ghost var hi := w.at + RegionSize(g.nx, slab.ty, slab.steps, t + 1);
      ghost var st := Step(prob, slab, t, z, r0, r1, r2, row, w, slab.Min(t), c, w.at, hi);
      RegionInPlanes(q, g.nx, slab.ty, slab.steps, t + 1);
      QueueStepValid(st);
      PointersFeed(st, a0, q, k);
      StepFramed(st);
      FillPlane(f, fac, g, slab, t, z, r0, r1, r2, row, w, slab.Min(t), st);
      QueueStored(st);
      assert anext[..] == old(anext[..]);
    }
    QueueSteps(prob, slab, old(q.queuePlanes[..]), q.queuePlanes[..],
               q.queuePlane0, q.queuePlane1, q.queuePlane2, k, t);
  }

  lemma StepFramed<T>(st: Step<T>)
    requires st.Valid() && st.orig == st.w.a[..]
    ensures st.Framed()
  {
  }

  lemma RegionInPlanes<T(0)>(q: Queue<T>, nx: nat, ty: nat, steps: int, u: int)
    requires q.Valid(nx, ty, steps) && 1 <= u < steps
    ensures
      var lo := q.queuePlane2 + RegionStart(nx, ty, steps, u);
      0 <= lo <= lo + RegionSize(nx, ty, steps, u) <= q.queuePlanes.Length
  {
    hide RegionSize;
    RegionsOrdered(nx, ty, steps, u, steps);
  }

  // The slab a row belongs to.
  ghost function OwnSlab(g: Geometry, ty: int, steps: int, y: int): Slab
    requires ty > 0
  {
    Slab(g.ny, (y - 1) / ty * ty, ty, steps)
  }

  // The last row that belongs to a slab: numBlocks_y * ty.
  ghost function Covered(g: Geometry, ty: int): int
    requires ty > 0
  {
    (g.ny - 2) / ty * ty
  }

  // What the code leaves in the result array, for any contents of the two arrays.
  ghost function QueueFinal<T>(p: Problem<T>, ty: int, steps: int): seq<T>
    requires p.Valid() && ty > 0
  {
    seq(Size(p.g), n requires 0 <= n < Size(p.g) => QueueFinalAt(p, ty, steps, PointAt(p.g, n)))
  }

  ghost function QueueFinalAt<T>(p: Problem<T>, ty: int, steps: int, a: Point): T
    requires p.Valid() && ty > 0 && InGrid(p.g, a)
  {
    if 1 <= steps && Interior(p.g, a) && a.y <= Covered(p.g, ty)
    then Val(p, OwnSlab(p.g, ty, steps, a.y), steps, a) else p.Initial(1, a)
  }

  // The slabs before start are finished, and in the slab at start the planes before z.
  ghost predicate Finished(start: int, ty: int, z: int, a: Point) {
    a.y <= start || (a.y <= start + ty && a.z < z)
  }

  ghost predicate Progress<T>(p: Problem<T>, c: seq<T>, start: int, ty: int, steps: int, z: int)
    requires p.Valid() && ty > 0
  {
    |c| == Size(p.g) && forall a :: InGrid(p.g, a) ==> ProgressAt(p, c, start, ty, steps, z, a)
  }

  ghost predicate ProgressAt<T>(p: Problem<T>, c: seq<T>, start: int, ty: int, steps: int, z: int, a: Point)
    requires p.Valid() && ty > 0 && |c| == Size(p.g) && InGrid(p.g, a)
  {
    c[Index(p.g, a)] == if Finished(start, ty, z, a) then QueueFinalAt(p, ty, steps, a) else p.Initial(1, a)
  }

  lemma OwnStart(s: int, ty: int, y: int)
    requires 0 <= s && 0 < ty && s * ty + 1 <= y <= s * ty + ty
    ensures (y - 1) / ty * ty == s * ty
  {
    QuotientUnique((y - 1) / ty, s, (y - 1) % ty, y - 1 - s * ty, ty);
  }

  lemma ProgressStep<T>(p: Problem<T>, c: seq<T>, c': seq<T>, s: int, slab: Slab, z: int)
    requires p.Valid() && 0 <= s && slab.Valid() && slab.ny == p.g.ny && slab.start == s * slab.ty
    requires slab.start + slab.ty <= Covered(p.g, slab.ty)
    requires Progress(p, c, slab.start, slab.ty, slab.steps, z)
    requires if 1 <= z < p.g.nz - 1 then Stored(p, slab, z, c, c') else c' == c
    ensures Progress(p, c', slab.start, slab.ty, slab.steps, z + 1)
  {
    hide Index;
    hide Size;
    hide Val;
    hide Reads;
    hide Covered;
    forall a | InGrid(p.g, a) ensures ProgressAt(p, c', slab.start, slab.ty, slab.steps, z + 1, a) {
      assert ProgressAt(p, c, slab.start, slab.ty, slab.steps, z, a);
      if 1 <= z < p.g.nz - 1 {
        assert StoredAt(p, slab, z, c, c', a);
        if slab.start + 1 <= a.y <= slab.start + slab.ty {
          OwnStart(s, slab.ty, a.y);
        }
      }
    }
  }

  lemma ProgressStart<T>(p: Problem<T>, ty: int, steps: int, z: int)
    requires p.Valid() && ty > 0 && (1 <= steps ==> z <= 1)
    ensures Progress(p, p.init1, 0, ty, steps, z)
  {
    hide Index;
    hide Size;
    forall a | InGrid(p.g, a) ensures ProgressAt(p, p.init1, 0, ty, steps, z, a) {
    }
  }

  // Without time steps there is no progress to speak of.
  lemma ProgressIdle<T>(p: Problem<T>, c: seq<T>, start: int, start': int, ty: int, steps: int, z: int, z': int)
    requires p.Valid() && ty > 0 && steps < 1 && Progress(p, c, start, ty, steps, z)
    ensures Progress(p, c, start', ty, steps, z')
  {
    hide Index;
    hide Size;
    forall a | InGrid(p.g, a) ensures ProgressAt(p, c, start', ty, steps, z', a) {
      assert ProgressAt(p, c, start, ty, steps, z, a);
    }
  }

  lemma ProgressSlab<T>(p: Problem<T>, c: seq<T>, start: int, ty: int, steps: int, z: int, z': int)
    requires p.Valid() && ty > 0 && Progress(p, c, start, ty, steps, z)
    requires 1 <= steps && p.g.nz - 1 <= z && z' <= 1
    ensures Progress(p, c, start + ty, ty, steps, z')
  {
    hide Index;
    hide Size;
    hide Val;
    forall a | InGrid(p.g, a) ensures ProgressAt(p, c, start + ty, ty, steps, z', a) {
      assert ProgressAt(p, c, start, ty, steps, z, a);
    }
  }

  lemma ProgressEnd<T>(p: Problem<T>, c: seq<T>, start: int, ty: int, steps: int, z: int)
    requires p.Valid() && ty > 0 && Progress(p, c, start, ty, steps, z)
    requires start == Covered(p.g, ty) || (start == 0 && Covered(p.g, ty) < 0)
    requires 1 <= steps ==> z <= 1
    ensures c == QueueFinal(p, ty, steps)
  {
    hide Index;
    hide Size;
    hide Val;
    forall n | 0 <= n < Size(p.g) ensures c[n] == QueueFinal(p, ty, steps)[n] {
      assert ProgressAt(p, c, start, ty, steps, z, PointAt(p.g, n));
    }
  }

  // One iteration over k: every time step on its plane, then the rotation.
  method Iterate<T(0)>(f: Kernel<T>, fac: T, a0: array<T>, anext: array<T>, g: Geometry, q: Queue<T>,
                       slab: Slab, k: int, ghost s: int, ghost prob: Problem<T>)
    requires prob.Valid() && 1 <= k && 0 <= s && 0 < slab.ty && slab.start == s * slab.ty
    requires slab.start + slab.ty <= Covered(prob.g, slab.ty)
    requires 1 <= slab.steps ==> Setting(prob, slab, f, fac, a0, anext, g, q) && Holding(prob, slab, q, k, 0)
    requires Progress(prob, anext[..], slab.start, slab.ty, slab.steps, k - slab.steps + 1)
    modifies q, q.queuePlanes, anext
    ensures 1 <= slab.steps ==> q.Valid(g.nx, slab.ty, slab.steps) && Holding(prob, slab, q, k + 1, 0)
    ensures Progress(prob, anext[..], slab.start, slab.ty, slab.steps, k - slab.steps + 2)
  {
    hide Size;
    hide QueueHolds;
    hide Progress;
    hide Stored;
    hide Thirds;
    ghost var b0, b1, b2 := q.queuePlane0, q.queuePlane1, q.queuePlane2;
    if slab.steps < 1 {
      ProgressIdle(prob, anext[..], slab.start, slab.start, slab.ty, slab.steps,
                   k - slab.steps + 1, k - slab.steps + 2);
    }
    var t := 0;
    while t < slab.steps
      invariant 0 <= t <= Steps(slab.steps) && unchanged(q)
      invariant 1 <= slab.steps ==> Setting(prob, slab, f, fac, a0, anext, g, q) && Holding(prob, slab, q, k, t)
      invariant Progress(prob, anext[..], slab.start, slab.ty, slab.steps,
                         if t < slab.steps then k - slab.steps + 1 else k - slab.steps + 2)
    {
      ghost var c, r := q.queuePlanes[..], anext[..];
      if t < k && k < g.nz + t - 1 {
        StepPlane(f, fac, a0, anext, g, q, slab, k, t, prob);
      } else {
        QueueSteps(prob, slab, c, c, b0, b1, b2, k, t);
      }
      if t == slab.steps - 1 {
        ProgressStep(prob, r, anext[..], s, slab, k - t);
      }
      t := t + 1;
    }
    if t > 0 {
      QueueRotates(prob, slab, q.queuePlanes[..], b0, b1, b2, k);
      q.Rotate(g.nx, slab.ty, slab.steps);
    }
  }

  // One slab: all planes through the queues.
  method RunSlab<T(0)>(f: Kernel<T>, fac: T, a0: array<T>, anext: array<T>, g: Geometry, q: Queue<T>,
                       slab: Slab, ghost s: int, ghost prob: Problem<T>)
    requires prob.Valid() && 0 <= s && 0 < slab.ty && slab.start == s * slab.ty
    requires slab.start + slab.ty <= Covered(prob.g, slab.ty) && q.queuePlanes != a0 && a0 != anext
    requires 1 <= slab.steps ==> Setting(prob, slab, f, fac, a0, anext, g, q)
    requires Progress(prob, anext[..], slab.start, slab.ty, slab.steps, 2 - slab.steps)
    modifies q, q.queuePlanes, anext
    ensures 1 <= slab.steps ==> q.Valid(g.nx, slab.ty, slab.steps)
    ensures Progress(prob, anext[..], slab.start + slab.ty, slab.ty, slab.steps, 2 - slab.steps)
  {
    hide Size;
    hide QueueHolds;
    hide Progress;
    hide Thirds;
    QueueEmpty(prob, slab, q.queuePlanes[..], q.queuePlane0, q.queuePlane1, q.queuePlane2);
    var k := 1;
    while k < g.nz + slab.steps - 2
      invariant 1 <= k
      invariant 1 <= slab.steps ==> Setting(prob, slab, f, fac, a0, anext, g, q) && Holding(prob, slab, q, k, 0)
      invariant Progress(prob, anext[..], slab.start, slab.ty, slab.steps, k - slab.steps + 1)
    {
      Iterate(f, fac, a0, anext, g, q, slab, k, s, prob);
      k := k + 1;
    }
    if slab.steps < 1 {
      ProgressIdle(prob, anext[..], slab.start, slab.start + slab.ty, slab.ty, slab.steps,
                   k - slab.steps + 1, 2 - slab.steps);
    } else {
      ProgressSlab(prob, anext[..], slab.start, slab.ty, slab.steps, k - slab.steps + 1, 2 - slab.steps);
    }
  }

  // With time steps to make, the queue has to come from CircularQueueInit with
  // the same sizes.
  method StencilProbe<T(0)>(f: Kernel<T>, a0: array<T>, anext: array<T>, g: Geometry, q: Queue<T>,
                            ty: int, timesteps: int)
    requires Arguments(g, a0, anext) && ty > 0
    requires q.queuePlanes != a0 && q.queuePlanes != anext
    requires 1 <= timesteps ==> q.Valid(g.nx, ty, timesteps)
    modifies q, q.queuePlanes, anext
    ensures a0[..] == old(a0[..])
    ensures anext[..] == QueueFinal(old(EntryRun(g, f, a0, anext)).prob, ty, timesteps)
  {
    HasSides(g);
    hide Size;
    hide Progress;
    hide Thirds;
    hide QueueFinal;
    ghost var prob := EntryRun(g, f, a0, anext).prob;
    var fac := a0[0];
    var numBlocks := (g.ny - 2) / ty;
    ProgressStart(prob, ty, timesteps, 2 - timesteps);
    var s := 0;
    while s < numBlocks
      invariant 0 <= s && (s <= numBlocks || (s == 0 && numBlocks < 0))
      invariant 1 <= timesteps ==> q.Valid(g.nx, ty, timesteps)
      invariant a0[..] == prob.init0 && anext.Length == Size(g)
      invariant Progress(prob, anext[..], s * ty, ty, timesteps, 2 - timesteps)
    {
      SlabCovered(g, s, ty);
      RunSlab(f, fac, a0, anext, g, q, Slab(g.ny, s * ty, ty, timesteps), s, prob);
      s := s + 1;
    }
    LastSlab(g, s, ty);
    ProgressEnd(prob, anext[..], s * ty, ty, timesteps, 2 - timesteps);
  }

  lemma SlabCovered(g: Geometry, s: int, ty: int)
    requires ty > 0 && 0 <= s < (g.ny - 2) / ty
    ensures 0 <= s * ty && (s + 1) * ty == s * ty + ty <= Covered(g, ty) <= g.ny - 2
  {
    MulUpper(s, (g.ny - 2) / ty, ty);
  }

  lemma LastSlab(g: Geometry, s: int, ty: int)
    requires ty > 0 && (s == (g.ny - 2) / ty || (s == 0 && (g.ny - 2) / ty < 0))
    ensures s * ty == Covered(g, ty) || (s * ty == 0 && Covered(g, ty) < 0)
  {
    if s == 0 && (g.ny - 2) / ty < 0 {
      MulUpper(-((g.ny - 2) / ty) - 1, -((g.ny - 2) / ty), ty);
    }
  }
}
