// main.test.c: the four reorderings against the plain sweep, on arrays of ones,
// and what happens on other contents.
module ProbeTest {
  import opened Grid
  import opened Stencil
  import opened CircqueueMeaning
  import CircularQueue
  import Kernels
  import ProbeHeat
  import ProbeBlocked
  import ProbeTimeskew
  import ProbeOblivious
  import ProbeCircqueue

  // StencilInit of util.c without RANDOMVALUES.
  method StencilInit(g: Geometry, a: array<real>)
    requires a.Length == Size(g)
    modifies a
    ensures forall n :: 0 <= n < a.Length ==> a[n] == 1.0
  {
    var i := 0;
    while i < Size(g)
      invariant 0 <= i <= a.Length
      invariant forall n :: 0 <= n < i ==> a[n] == 1.0
    {
      a[i] := 1.0;
      i := i + 1;
    }
  }

  function Ones(n: nat): seq<real> {
    seq(n, _ => 1.0)
  }

  // The plain sweep's problem on two arrays of ones.
  ghost function OnesProblem(g: Geometry, f: Kernel<real>): Problem<real> {
    Problem(g, f, 1.0, Ones(Size(g)), Ones(Size(g)))
  }

  // The array the newest level ends up in.
  ghost function Newest(g: Geometry, steps: nat): seq<real>
    requires Size(g) > 0
  {
    OnesProblem(g, Kernels.Heat).Final(steps, steps % 2)
  }

  lemma OnesObliviousIsHeat(g: Geometry, steps: nat)
    requires Size(g) > 0
    ensures OnesProblem(g, Kernels.Oblivious).Final(steps, steps % 2) == Newest(g, steps)
  {
    Kernels.ObliviousIsHeat(1.0);
    var p, q := OnesProblem(g, Kernels.Heat), OnesProblem(g, Kernels.Oblivious);
    forall c ensures Kernels.Oblivious(1.0, c) == p.f(p.fac, c) {
    }
    assert q == p.(f := Kernels.Oblivious);
    Kernels.FinalDependsOnKernel(p, Kernels.Oblivious, steps, steps % 2);
  }

  // The circular queue's kernel on such contents, against the plain sweep's:
  // whatever the factor and the interior.
  lemma QueueIsPlain(p: Problem<real>, ty: int, steps: nat)
    requires p.Valid() && Slabs(p.g, ty, steps) && SameBoundary(p) && FlatGhosts(p) && p.f == Kernels.Heat
    ensures ProbeCircqueue.QueueFinal(p.(f := Kernels.Queue), ty, steps) == p.Final(steps, steps % 2)
  {
    var q := p.(f := Kernels.Queue);
    SameEdgeContents(p, q);
    FlatIsFinal(q, ty, steps);
    forall c ensures Kernels.Queue(p.fac, c) == p.f(p.fac, c) {
      Kernels.QueueIsHeat(p.fac, c);
    }
    Kernels.FinalDependsOnKernel(p, Kernels.Queue, steps, steps % 2);
  }

  lemma SameEdgeContents(p: Problem<real>, q: Problem<real>)
    requires p.Valid() && q.Valid() && q == p.(f := q.f) && SameBoundary(p) && FlatGhosts(p)
    ensures SameBoundary(q) && FlatGhosts(q)
  {
    assert forall t, a {:trigger q.Initial(t, a)} :: InGrid(p.g, a) ==> q.Initial(t, a) == p.Initial(t, a);
  }

  lemma OnesQueueIsHeat(g: Geometry, ty: int, steps: nat)
    requires Size(g) > 0 && Slabs(g, ty, steps)
    ensures ProbeCircqueue.QueueFinal(OnesProblem(g, Kernels.Queue), ty, steps) == Newest(g, steps)
  {
    var p := OnesProblem(g, Kernels.Heat);
    QueueIsPlain(p, ty, steps);
    assert OnesProblem(g, Kernels.Queue) == p.(f := Kernels.Queue);
  }

  // Two arrays of ones.
  method Setup(g: Geometry) returns (a0: array<real>, anext: array<real>)
    requires Size(g) > 0
    ensures fresh(a0) && fresh(anext) && Arguments(g, a0, anext)
    ensures a0[..] == anext[..] == Ones(Size(g)) && a0[0] == 1.0
  {
    a0 := new real[Size(g)];
    anext := new real[Size(g)];
    StencilInit(g, a0);
    StencilInit(g, anext);
  }

  // Afinal: the array the newest level is in.
  function Newer<T>(a0: array<T>, anext: array<T>, timesteps: int): array<T> {
    if timesteps % 2 == 0 then a0 else anext
  }

  method Naive(g: Geometry, timesteps: nat) returns (r: array<real>)
    requires Size(g) > 0
    ensures fresh(r) && r[..] == Newest(g, timesteps)
  {
    hide Size;
    hide Problem.Final;
    var a0, anext := Setup(g);
    ProbeHeat.StencilProbe(Kernels.Heat, a0, anext, g, timesteps);
    r := Newer(a0, anext, timesteps);
  }

  method Rivera(g: Geometry, tx: int, ty: int, timesteps: nat) returns (r: array<real>)
    requires Size(g) > 0 && tx > 0 && ty > 0
    ensures fresh(r) && r[..] == Newest(g, timesteps)
  {
    hide Size;
    hide Problem.Final;
    var a0, anext := Setup(g);
    ProbeBlocked.StencilProbe(Kernels.Heat, a0, anext, g, tx, ty, timesteps);
    r := Newer(a0, anext, timesteps);
  }

  method Oblivious(g: Geometry, cutoff: int, timesteps: nat) returns (r: array<real>)
    requires Size(g) > 0
    ensures fresh(r) && r[..] == Newest(g, timesteps)
  {
    hide Size;
    hide Problem.Final;
    var a0, anext := Setup(g);
    ProbeOblivious.StencilProbe(Kernels.Oblivious, a0, anext, g, cutoff, timesteps);
    OnesObliviousIsHeat(g, timesteps);
    r := Newer(a0, anext, timesteps);
  }

  // The constraints main prints for time skewing.
  ghost predicate Skewable(g: Geometry, tx: int, ty: int, tz: int) {
    var b := ProbeTimeskew.Blocks(g, tx, ty, tz);
    b.Positive() && b.Divides()
  }

  method Timeskew(g: Geometry, tx: int, ty: int, tz: int, timesteps: nat) returns (r: array<real>)
    requires Size(g) > 0 && Skewable(g, tx, ty, tz)
    ensures fresh(r) && r[..] == Newest(g, timesteps)
  {
    hide Size;
    hide Problem.Final;
    var a0, anext := Setup(g);
    ProbeTimeskew.StencilProbe(Kernels.Heat, a0, anext, g, tx, ty, tz, timesteps);
    r := Newer(a0, anext, timesteps);
  }

  method Circqueue(g: Geometry, ty: int, timesteps: nat) returns (r: array<real>)
    requires Size(g) > 0 && Slabs(g, ty, timesteps)
    ensures fresh(r) && r[..] == Newest(g, timesteps)
  {
    hide Size;
    hide Problem.Final;
    var a0, anext := Setup(g);
    HasSides(g);
    var q := new ProbeCircqueue.Queue<real>(g.nx, ty, timesteps);
    ProbeCircqueue.StencilProbe(Kernels.Queue, a0, anext, g, q, ty, timesteps);
    OnesQueueIsHeat(g, ty, timesteps);
    r := anext;
  }

  // What main.test.c compares: over the reals, all five results are the same.
  method CompareProbes(g: Geometry, tx: int, ty: int, tz: int, cutoff: int, timesteps: int)
    returns (naive: array<real>, rivera: array<real>, oblivious: array<real>,
             timeskew: array<real>, circqueue: array<real>)
    requires Size(g) > 0 && Skewable(g, tx, ty, tz) && 1 <= timesteps
    ensures naive[..] == rivera[..] == oblivious[..] == timeskew[..] == circqueue[..]
  {
    hide Size;
    hide Newest;
    naive := Naive(g, timesteps);
    rivera := Rivera(g, tx, ty, timesteps);
    oblivious := Oblivious(g, cutoff, timesteps);
    timeskew := Timeskew(g, tx, ty, tz, timesteps);
    circqueue := Circqueue(g, ty, timesteps);
  }

  // The first level is right in every slab: step 0 reads A0 where the plain sweep does.
  lemma FirstLevelRight<T>(p: Problem<T>, s: CircularQueue.Slab, a: Point)
    requires p.Valid() && InGrid(p.g, a) && Interior(p.g, a)
    ensures CircularQueue.Val(p, s, 1, a) == p.Ref(1, a) == p.f(p.fac, p.RefCells(0, a))
  {
    hide Index;
    hide Size;
    assert CircularQueue.Reads(p, s, 0, a) == p.RefCells(0, a);
  }

  // Two inputs on which the circular queue is wrong: arrays that differ on the
  // boundary, and equal arrays whose bottom plane varies in y.
  lemma UnequalBoundariesFail()
    ensures
      var p := Problem(Geometry(3, 3, 3), Kernels.Heat, 1.0, Ones(27), seq(27, _ => 0.0));
      p.Valid() && Slabs(p.g, 1, 2) && !Right(p, 1, 2)
  {
    hide Index;
    var p := Problem(Geometry(3, 3, 3), Kernels.Heat, 1.0, Ones(27), seq(27, _ => 0.0));
    assert p.Valid();
    var a, s := Point(1, 1, 1), ProbeCircqueue.OwnSlab(p.g, 1, 2, 1);
    FirstLevelRight(p, s, a);
    var c, d := CircularQueue.Reads(p, s, 1, a), p.RefCells(1, a);
    assert c == Cells(d.centre, 1.0, 1.0, 1.0, 1.0, 1.0, 1.0) by { UniformReads(p, s, a); }
    assert d == Cells(d.centre, 0.0, 0.0, 0.0, 0.0, 0.0, 0.0) by { UniformReads(p, s, a); }
    LastStep(p, s, a);
    assert !RightAt(p, 1, 2, a);
  }

  lemma UniformReads(p: Problem<real>, s: CircularQueue.Slab, a: Point)
    requires p.Valid() && p.g == Geometry(3, 3, 3) && a == Point(1, 1, 1)
    requires (forall n :: 0 <= n < 27 ==> p.init0[n] == 1.0) && (forall n :: 0 <= n < 27 ==> p.init1[n] == 0.0)
    ensures
      CircularQueue.Reads(p, s, 1, a) == Cells(CircularQueue.Val(p, s, 1, a), 1.0, 1.0, 1.0, 1.0, 1.0, 1.0)
    ensures p.RefCells(1, a) == Cells(p.Ref(1, a), 0.0, 0.0, 0.0, 0.0, 0.0, 0.0)
  {
    hide Index;
  }

  lemma LastStep<T>(p: Problem<T>, s: CircularQueue.Slab, a: Point)
    requires p.Valid() && Interior(p.g, a)
    ensures CircularQueue.Val(p, s, 2, a) == p.f(p.fac, CircularQueue.Reads(p, s, 1, a))
    ensures p.Ref(2, a) == p.f(p.fac, p.RefCells(1, a))
  {
  }

  lemma SlopingGhostsFail()
    ensures
      var c := Ones(36)[7 := 2.0];
      var p := Problem(Geometry(3, 4, 3), Kernels.Heat, 1.0, c, c);
      p.Valid() && Slabs(p.g, 1, 2) && SameBoundary(p) && !Right(p, 1, 2)
  {
    var c := Ones(36)[7 := 2.0];
    var p := Problem(Geometry(3, 4, 3), Kernels.Heat, 1.0, c, c);
    assert p.Valid();
    var a, s := Point(1, 2, 1), ProbeCircqueue.OwnSlab(p.g, 1, 2, 2);
    FirstLevelRight(p, s, a);
    FirstLevelRight(p, s, Point(1, 1, 1));
    SlopingReads(p, s, a);
    LastStep(p, s, a);
    assert !RightAt(p, 1, 2, a);
  }

  lemma SlopingReads(p: Problem<real>, s: CircularQueue.Slab, a: Point)
    requires p.Valid() && p.g == Geometry(3, 4, 3) && p.init0 == p.init1 == Ones(36)[7 := 2.0]
    requires a == Point(1, 2, 1) && s == CircularQueue.Slab(4, 1, 1, 2)
    requires CircularQueue.Val(p, s, 1, a) == p.Ref(1, a)
    requires CircularQueue.Val(p, s, 1, Point(1, 1, 1)) == p.Ref(1, Point(1, 1, 1))
    ensures CircularQueue.Reads(p, s, 1, a) == p.RefCells(1, a).(zm := 1.0) && p.RefCells(1, a).zm == 2.0
  {
    hide Index;
    SlopingCells(p.g);
    var d := p.RefCells(1, a);
    assert d.zm == p.Initial(1, Point(1, 2, 0)) && d.zp == p.Initial(1, Point(1, 2, 2));
    assert s.ReadRow(1) == 1;
  }

  lemma SlopingCells(g: Geometry)
    requires g == Geometry(3, 4, 3)
    ensures Index(g, Point(1, 2, 0)) == 7 && Index(g, Point(1, 1, 0)) == 4
    ensures Index(g, Point(1, 2, 2)) == 31 && Index(g, Point(1, 1, 2)) == 28
  {
  }
}
