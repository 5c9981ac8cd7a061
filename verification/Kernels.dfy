// The kernels of the probes over the reals, and when they agree.
module Kernels {
  import opened Grid
  import opened Stencil

  // Division by zero, infinite or undefined in C, is not modelled.
  function Div(a: real, b: real): real {
    if b == 0.0 then 0.0 else a / b
  }

  lemma DivTimes(a: real, b: real)
    requires b != 0.0
    ensures Div(a, b) * b == a
  {
  }

  // probe_heat.c, probe_heat_blocked.c, probe_heat_timeskew.c: only the centre
  // term is divided.
  function Heat(fac: real, c: Cells<real>): real {
    c.zp + c.zm + c.yp + c.ym + c.xp + c.xm - Div(6.0 * c.centre, fac * fac)
  }

  // probe_heat_circqueue.c: another order of the same terms.
  function Queue(fac: real, c: Cells<real>): real {
    c.zm + c.zp + c.ym + c.xm + c.xp + c.yp - Div(6.0 * c.centre, fac * fac)
  }

  // probe_heat_oblivious.c: the whole sum is divided.
  function Oblivious(fac: real, c: Cells<real>): real {
    Div(c.xp + c.xm + c.yp + c.ym + c.zp + c.zm - 6.0 * c.centre, fac * fac)
  }

  lemma ProductPositive(x: real, y: real, d: real)
    requires x > 0.0 && y > 0.0 && d == x * y
    ensures d > 0.0
  {
  }

  lemma SquareIsNotZero(x: real, d: real)
    requires x != 0.0 && d == x * x
    ensures d != 0.0
  {
    if x > 0.0 {
      ProductPositive(x, x, d);
    } else {
      ProductPositive(-x, -x, d);
    }
  }

  // The three kernels without their division: six neighbours of weight one
  // against six times the centre.
  lemma KernelEquations(fac: real, c: Cells<real>)
    requires fac != 0.0
    ensures
      var sum := c.xp + c.xm + c.yp + c.ym + c.zp + c.zm;
      && (sum - Heat(fac, c)) * (fac * fac) == 6.0 * c.centre
      && (sum - Queue(fac, c)) * (fac * fac) == 6.0 * c.centre
      && Oblivious(fac, c) * (fac * fac) == sum - 6.0 * c.centre
  {
    var sum := c.xp + c.xm + c.yp + c.ym + c.zp + c.zm;
    var d :| d == fac * fac;
    SquareIsNotZero(fac, d);
    DivTimes(6.0 * c.centre, d);
    DivTimes(sum - 6.0 * c.centre, d);
    hide Div;
    assert sum - Heat(fac, c) == Div(6.0 * c.centre, d) && sum - Queue(fac, c) == Div(6.0 * c.centre, d);
  }

  lemma QueueIsHeat(fac: real, c: Cells<real>)
    ensures Queue(fac, c) == Heat(fac, c)
  {
  }

  // The oblivious probe's kernel is the heat kernel exactly for factors of
  // square one.
  lemma ObliviousIsHeat(fac: real)
    requires fac != 0.0
    ensures (forall c {:trigger Oblivious(fac, c)} :: Oblivious(fac, c) == Heat(fac, c)) <==> fac * fac == 1.0
  {
    var c := Cells(0.0, 1.0, 0.0, 0.0, 0.0, 0.0, 0.0);
    if Oblivious(fac, c) == Heat(fac, c) {
      assert 1.0 / (fac * fac) == 1.0;
    }
  }

  // Time levels depend on the kernel only through its values at the factor.
  lemma {:induction false} RefDependsOnKernel<T>(p: Problem<T>, f: Kernel<T>, t: int, a: Point)
    requires p.Valid() && InGrid(p.g, a)
    requires forall c {:trigger f(p.fac, c)} :: f(p.fac, c) == p.f(p.fac, c)
    ensures p.Ref(t, a) == p.(f := f).Ref(t, a)
    decreases t, 0
  {
    if t > 0 && Interior(p.g, a) {
      RefCellsDependOnKernel(p, f, t - 1, a);
      var c := p.RefCells(t - 1, a);
      assert f(p.fac, c) == p.f(p.fac, c);
    }
  }

  lemma {:induction false} RefCellsDependOnKernel<T>(p: Problem<T>, f: Kernel<T>, t: int, a: Point)
    requires p.Valid() && Interior(p.g, a)
    requires forall c {:trigger f(p.fac, c)} :: f(p.fac, c) == p.f(p.fac, c)
    ensures p.RefCells(t, a) == p.(f := f).RefCells(t, a)
    decreases t, 1
  {
    RefDependsOnKernel(p, f, t, a);
    RefDependsOnKernel(p, f, t, a.(x := a.x + 1));
    RefDependsOnKernel(p, f, t, a.(x := a.x - 1));
    RefDependsOnKernel(p, f, t, a.(y := a.y + 1));
    RefDependsOnKernel(p, f, t, a.(y := a.y - 1));
    RefDependsOnKernel(p, f, t, a.(z := a.z + 1));
    RefDependsOnKernel(p, f, t, a.(z := a.z - 1));
  }

  lemma FinalDependsOnKernel<T>(p: Problem<T>, f: Kernel<T>, t: nat, b: int)
    requires p.Valid()
    requires forall c {:trigger f(p.fac, c)} :: f(p.fac, c) == p.f(p.fac, c)
    ensures p.Final(t, b) == p.(f := f).Final(t, b)
  {
    forall n | 0 <= n < Size(p.g) ensures p.Final(t, b)[n] == p.(f := f).Final(t, b)[n] {
      RefDependsOnKernel(p, f, if t % 2 == b then t else t - 1, PointAt(p.g, n));
    }
  }

  // The oblivious probe leaves what the plain probe leaves, for this factor.
  ghost predicate Interchangeable(fac: real) {
    forall p: Problem<real>, t: nat, b :: p.Valid() && p.fac == fac ==>
      p.(f := Oblivious).Final(t, b) == p.(f := Heat).Final(t, b)
  }

  // All cells zero but the corner, which is the factor, and one cell beside the
  // only interior one.
  function Witness(fac: real): Problem<real> {
    var c := seq(27, _ => 0.0)[0 := fac][14 := 1.0];
    Problem(Geometry(3, 3, 3), Heat, fac, c, c)
  }

  lemma WitnessCells(fac: real)
    ensures Witness(fac).Valid()
    ensures Witness(fac).RefCells(0, Point(1, 1, 1)) == Cells(0.0, 1.0, 0.0, 0.0, 0.0, 0.0, 0.0)
    ensures Witness(fac).(f := Oblivious).RefCells(0, Point(1, 1, 1)) == Cells(0.0, 1.0, 0.0, 0.0, 0.0, 0.0, 0.0)
  {
    var g := Geometry(3, 3, 3);
    assert Index(g, Point(1, 1, 1)) == 13 && Index(g, Point(2, 1, 1)) == 14 && Index(g, Point(0, 1, 1)) == 12;
    assert Index(g, Point(1, 2, 1)) == 16 && Index(g, Point(1, 0, 1)) == 10;
    assert Index(g, Point(1, 1, 2)) == 22 && Index(g, Point(1, 1, 0)) == 4;
  }

  // The two probes are interchangeable exactly for factors of square one.
  lemma InterchangeableExactly(fac: real)
    requires fac != 0.0
    ensures Interchangeable(fac) <==> fac * fac == 1.0
  {
    ObliviousIsHeat(fac);
    if fac * fac == 1.0 {
      forall p: Problem<real>, t: nat, b | p.Valid() && p.fac == fac
        ensures p.(f := Oblivious).Final(t, b) == p.(f := Heat).Final(t, b)
      {
        FinalDependsOnKernel(p.(f := Heat), Oblivious, t, b);
      }
    } else if Interchangeable(fac) {
      var p, a := Witness(fac), Point(1, 1, 1);
      WitnessCells(fac);
      assert p.(f := Oblivious).Final(1, 1) == p.(f := Heat).Final(1, 1);
      FinalCentre(p);
      FinalCentre(p.(f := Oblivious));
    }
  }

  lemma FinalCentre(p: Problem<real>)
    requires p.Valid() && p.g == Geometry(3, 3, 3)
    ensures p.Final(1, 1)[13] == p.f(p.fac, p.RefCells(0, Point(1, 1, 1)))
  {
    assert PointAt(p.g, 13) == Point(1, 1, 1);
  }
}
