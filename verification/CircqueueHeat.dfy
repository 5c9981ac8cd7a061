// Exactly when the circular queue computes what the plain sweep computes with
// the one kernel both have: disagreeing boundary reads may cancel.
module CircqueueHeat {
  import opened Grid
  import opened Stencil
  import opened CircularQueue
  import opened ProbeCircqueue
  import opened CircqueueMeaning
  import opened Kernels

  // p runs the heat kernel, in whatever order its terms are added.
  ghost predicate IsHeat(p: Problem<real>) {
    forall c {:trigger p.f(p.fac, c)} :: p.f(p.fac, c) == Heat(p.fac, c)
  }

  // What the centre takes off.
  function Damping(fac: real, x: real): real {
    Div(6.0 * x, fac * fac)
  }

  // By how much the queue code is off at time t. The error starts at zero, is
  // fed by the boundary reads and spreads like the values themselves.
  ghost function Error(p: Problem<real>, s: Slab, t: int, a: Point): real
    requires p.Valid() && Interior(p.g, a)
    decreases t, 0
  {
    if t <= 0 then 0.0
    else
      ArmError(p, s, t - 1, ZP, a) + ArmError(p, s, t - 1, ZM, a)
      + ArmError(p, s, t - 1, YP, a) + ArmError(p, s, t - 1, YM, a)
      + ArmError(p, s, t - 1, XP, a) + ArmError(p, s, t - 1, XM, a)
      - Damping(p.fac, Error(p, s, t - 1, a))
  }

  ghost function ArmError(p: Problem<real>, s: Slab, t: int, arm: Arm, a: Point): real
    requires p.Valid() && Interior(p.g, a)
    decreases t, 1
  {
    if Interior(p.g, arm.From(a)) then Error(p, s, t, arm.From(a))
    else EdgeRead(p, s, t, arm, a) - p.Initial(t, arm.From(a))
  }

  lemma DivLinear(a: real, b: real, d: real)
    ensures Div(6.0 * a, d) - Div(6.0 * b, d) == Div(6.0 * (a - b), d)
  {
    if d != 0.0 {
      assert 6.0 * a / d - 6.0 * b / d == (6.0 * a - 6.0 * b) / d;
    }
  }

  // The two kernels' results differ as their arguments do.
  lemma HeatLinear(fac: real, c: Cells<real>, d: Cells<real>)
    ensures
      Heat(fac, c) - Heat(fac, d) ==
      (c.zp - d.zp) + (c.zm - d.zm) + (c.yp - d.yp) + (c.ym - d.ym) + (c.xp - d.xp) + (c.xm - d.xm)
      - Damping(fac, c.centre - d.centre)
  {
    hide Div;
    DivLinear(c.centre, d.centre, fac * fac);
  }

  lemma ErrorUnfolds(p: Problem<real>, s: Slab, t: nat, a: Point)
    requires p.Valid() && Interior(p.g, a)
    ensures Error(p, s, 0, a) == 0.0
    ensures
      Error(p, s, t + 1, a) ==
      ArmError(p, s, t, ZP, a) + ArmError(p, s, t, ZM, a) + ArmError(p, s, t, YP, a) + ArmError(p, s, t, YM, a)
      + ArmError(p, s, t, XP, a) + ArmError(p, s, t, XM, a) - Damping(p.fac, Error(p, s, t, a))
  {
    hide Damping;
    hide EdgeRead;
  }

  lemma LevelsUnfold(p: Problem<real>, s: Slab, t: nat, a: Point)
    requires p.Valid() && Interior(p.g, a)
    ensures Val(p, s, 0, a) == p.Ref(0, a)
    ensures Val(p, s, t + 1, a) == p.f(p.fac, Reads(p, s, t, a)) && p.Ref(t + 1, a) == p.f(p.fac, p.RefCells(t, a))
    ensures Reads(p, s, t, a).centre == Val(p, s, t, a) && p.RefCells(t, a).centre == p.Ref(t, a)
  {
    hide Index;
    hide Size;
  }

  // The error is what it is called.
  lemma {:induction false} ErrorIsDifference(p: Problem<real>, s: Slab, t: nat, a: Point)
    requires p.Valid() && IsHeat(p) && Interior(p.g, a)
    ensures Val(p, s, t, a) - p.Ref(t, a) == Error(p, s, t, a)
    decreases t, 0
  {
    hide Heat;
    hide Damping;
    hide Error;
    hide ArmError;
    hide Val;
    hide Reads;
    hide Problem.Ref;
    hide Problem.RefCells;
    LevelsUnfold(p, s, 0, a);
    ErrorUnfolds(p, s, 0, a);
    if t > 0 {
      LevelsUnfold(p, s, t - 1, a);
      ErrorUnfolds(p, s, t - 1, a);
      var c, d := Reads(p, s, t - 1, a), p.RefCells(t - 1, a);
      forall arm: Arm ensures arm.Pick(c) - arm.Pick(d) == ArmError(p, s, t - 1, arm, a) {
        ArmErrorIsDifference(p, s, t - 1, arm, a);
      }
      ErrorIsDifference(p, s, t - 1, a);
      HeatLinear(p.fac, c, d);
      Gathered(p, s, t - 1, a, c, d);
      assert p.f(p.fac, c) == Heat(p.fac, c) && p.f(p.fac, d) == Heat(p.fac, d);
    }
  }

  lemma {:induction false} ArmErrorIsDifference(p: Problem<real>, s: Slab, t: nat, arm: Arm, a: Point)
    requires p.Valid() && IsHeat(p) && Interior(p.g, a)
    ensures arm.Pick(Reads(p, s, t, a)) - arm.Pick(p.RefCells(t, a)) == ArmError(p, s, t, arm, a)
    decreases t, 1
  {
    hide Heat;
    hide Damping;
    hide Index;
    hide Size;
    if Interior(p.g, arm.From(a)) {
      ErrorIsDifference(p, s, t, arm.From(a));
    } else {
      EdgeIsRead(p, s, t, arm, a);
    }
  }

  // The arms one by one.
  lemma Gathered(p: Problem<real>, s: Slab, t: nat, a: Point, c: Cells<real>, d: Cells<real>)
    requires p.Valid() && Interior(p.g, a)
    requires forall arm: Arm {:trigger arm.Pick(c)} :: arm.Pick(c) - arm.Pick(d) == ArmError(p, s, t, arm, a)
    ensures c.zp - d.zp == ArmError(p, s, t, ZP, a) && c.zm - d.zm == ArmError(p, s, t, ZM, a)
    ensures c.yp - d.yp == ArmError(p, s, t, YP, a) && c.ym - d.ym == ArmError(p, s, t, YM, a)
    ensures c.xp - d.xp == ArmError(p, s, t, XP, a) && c.xm - d.xm == ArmError(p, s, t, XM, a)
  {
    hide ArmError;
    assert ZP.Pick(c) == c.zp && ZM.Pick(c) == c.zm && YP.Pick(c) == c.yp;
    assert YM.Pick(c) == c.ym && XP.Pick(c) == c.xp && XM.Pick(c) == c.xm;
  }

  // What enters through the boundary has cancelled wherever a slab's result is
  // taken. Only the boundary of the two arrays, the factor, ty and the number
  // of steps matter.
  ghost predicate ErrorsCancel(p: Problem<real>, ty: int, steps: int)
    requires p.Valid() && 0 < ty
  {
    forall a {:trigger OwnSlab(p.g, ty, steps, a.y)} ::
      Interior(p.g, a) ==> Error(p, OwnSlab(p.g, ty, steps, a.y), steps, a) == 0.0
  }

  // The heat probe through the queue is right exactly when the errors cancel.
  lemma HeatRightExactly(p: Problem<real>, ty: int, steps: nat)
    requires p.Valid() && IsHeat(p) && Slabs(p.g, ty, steps)
    ensures Right(p, ty, steps) <==> ErrorsCancel(p, ty, steps)
  {
    hide Error;
    hide Val;
    hide Problem.Ref;
    hide Index;
    hide Size;
    hide Heat;
    SlabsCover(p.g, ty);
    forall a | Interior(p.g, a)
      ensures RightAt(p, ty, steps, a) <==> Error(p, OwnSlab(p.g, ty, steps, a.y), steps, a) == 0.0
    {
      ErrorIsDifference(p, OwnSlab(p.g, ty, steps, a.y), steps, a);
    }
  }

  lemma ErrorsAt0(p: Problem<real>, p': Problem<real>, s: Slab, t: int, a: Point)
    requires SameEdges(p, p') && Interior(p.g, a)
    ensures p.Valid() && p'.Valid() && p'.g == p.g
    ensures t <= 0 ==> Error(p', s, t, a) == Error(p, s, t, a)
  {
  }

  // The interior has no part in it.
  lemma {:induction false} ErrorOfEdges(p: Problem<real>, p': Problem<real>, s: Slab, t: int, a: Point)
    requires SameEdges(p, p') && p'.fac == p.fac && Interior(p.g, a)
    ensures Error(p', s, t, a) == Error(p, s, t, a)
    decreases t, 0
  {
    hide Damping;
    hide ArmError;
    hide Error;
    hide SameEdges;
    ErrorsAt0(p, p', s, t, a);
    if t > 0 {
      ErrorUnfolds(p, s, t - 1, a);
      ErrorUnfolds(p', s, t - 1, a);
      ErrorOfEdges(p, p', s, t - 1, a);
      ArmErrorOfEdges(p, p', s, t - 1, ZP, a);
      ArmErrorOfEdges(p, p', s, t - 1, ZM, a);
      ArmErrorOfEdges(p, p', s, t - 1, YP, a);
      ArmErrorOfEdges(p, p', s, t - 1, YM, a);
      ArmErrorOfEdges(p, p', s, t - 1, XP, a);
      ArmErrorOfEdges(p, p', s, t - 1, XM, a);
    }
  }

  lemma {:induction false} ArmErrorOfEdges(p: Problem<real>, p': Problem<real>, s: Slab, t: int, arm: Arm, a: Point)
    requires SameEdges(p, p') && p'.fac == p.fac && Interior(p.g, a)
    ensures ArmError(p', s, t, arm, a) == ArmError(p, s, t, arm, a)
    decreases t, 1
  {
    hide Index;
    hide Size;
    if Interior(p.g, arm.From(a)) {
      ErrorOfEdges(p, p', s, t, arm.From(a));
    } else {
      SameReads(p, p', s, t, arm, a);
    }
  }

  // What the queue probe leaves, with its own order of additions, is the plain
  // probe's newest level exactly when the errors cancel.
  lemma QueueProbeExactly(p: Problem<real>, ty: int, steps: nat)
    requires p.Valid() && p.f == Heat && Slabs(p.g, ty, steps)
    ensures
      (forall a :: Interior(p.g, a) ==> QueueFinalAt(p.(f := Kernels.Queue), ty, steps, a) == p.Ref(steps, a))
      <==> ErrorsCancel(p, ty, steps)
  {
    var q := p.(f := Kernels.Queue);
    forall c ensures q.f(p.fac, c) == p.f(p.fac, c) == Heat(p.fac, c) {
      QueueIsHeat(p.fac, c);
    }
    hide Heat;
    hide Kernels.Queue;
    hide Index;
    hide Size;
    hide Error;
    hide Val;
    HeatRightExactly(q, ty, steps);
    assert forall t, b :: InGrid(p.g, b) ==> q.Initial(t, b) == p.Initial(t, b);
    forall a | Interior(p.g, a)
      ensures q.Ref(steps, a) == p.Ref(steps, a)
      ensures Error(q, OwnSlab(p.g, ty, steps, a.y), steps, a) == Error(p, OwnSlab(p.g, ty, steps, a.y), steps, a)
    {
      RefDependsOnKernel(p, Kernels.Queue, steps, a);
      ErrorOfEdges(p, q, OwnSlab(p.g, ty, steps, a.y), steps, a);
    }
    assert forall a :: Interior(p.g, a) ==>
      (RightAt(q, ty, steps, a) <==> QueueFinalAt(q, ty, steps, a) == p.Ref(steps, a));
  }

  lemma SameFactor(p: Problem<real>, p': Problem<real>)
    requires SameEdges(p, p')
    ensures p'.fac == p.fac
  {
    HasSides(p.g);
    var corner := Point(0, 0, 0);
    assert Index(p.g, corner) == 0;
    assert p'.Initial(0, corner) == p.Initial(0, corner);
  }

  // So a heat run that is right for one interior is right for all.
  lemma RightForAllInteriors(p: Problem<real>, ty: int, steps: nat)
    requires p.Valid() && IsHeat(p) && Slabs(p.g, ty, steps)
    ensures Right(p, ty, steps) <==> forall p' :: SameEdges(p, p') && IsHeat(p') ==> Right(p', ty, steps)
  {
    hide Error;
    hide Right;
    hide IsHeat;
    HeatRightExactly(p, ty, steps);
    if Right(p, ty, steps) {
      forall p' | SameEdges(p, p') && IsHeat(p') ensures Right(p', ty, steps) {
        SameFactor(p, p');
        forall a | Interior(p.g, a)
          ensures Error(p', OwnSlab(p'.g, ty, steps, a.y), steps, a) == 0.0
        {
          ErrorOfEdges(p, p', OwnSlab(p.g, ty, steps, a.y), steps, a);
        }
        HeatRightExactly(p', ty, steps);
      }
    }
    assert SameEdges(p, p);
  }

  // Agreeing edges are one way for that to happen, for any factor.
  lemma AgreeingCancels(p: Problem<real>, ty: int, steps: nat)
    requires p.Valid() && Slabs(p.g, ty, steps) && EdgesAgree(p, ty, steps)
    ensures ErrorsCancel(p, ty, steps)
  {
    hide Error;
    var q := p.(f := Heat);
    SameEdgesAgree(p, q, ty, steps);
    AgreeingIsRight(q, ty, steps);
    HeatRightExactly(q, ty, steps);
    forall a | Interior(p.g, a) ensures Error(p, OwnSlab(p.g, ty, steps, a.y), steps, a) == 0.0 {
      ErrorOfEdges(q, p, OwnSlab(p.g, ty, steps, a.y), steps, a);
    }
  }

  // Another way: two reads that are wrong by opposite amounts.
  function Cancelling(): Problem<real> {
    var c := seq(27, _ => 1.0);
    Problem(Geometry(3, 3, 3), Heat, 1.0, c, c[12 := 0.0][14 := 2.0])
  }

  lemma CancellingIsRight()
    ensures
      var p := Cancelling();
      p.Valid() && Slabs(p.g, 1, 2) && !EdgesAgree(p, 1, 2) && Right(p, 1, 2)
  {
    var p := Cancelling();
    CancellingCells(p);
    hide Size;
    hide Right;
    hide EdgesAgree;
    SixDisagrees(p);
    SixCancels(p);
    HeatRightExactly(p, 1, 2);
  }

  // The six boundary cells beside the only interior one.
  ghost predicate Six(p: Problem<real>) {
    && p.Valid() && p.g == Geometry(3, 3, 3)
    && (forall x, y, z {:trigger Point(x, y, z)} :: InGrid(p.g, Point(x, y, z)) ==> p.Initial(0, Point(x, y, z)) == 1.0)
    && p.Initial(1, Point(2, 1, 1)) == 2.0 && p.Initial(1, Point(0, 1, 1)) == 0.0
    && p.Initial(1, Point(1, 2, 1)) == 1.0 && p.Initial(1, Point(1, 0, 1)) == 1.0
    && p.Initial(1, Point(1, 1, 2)) == 1.0 && p.Initial(1, Point(1, 1, 0)) == 1.0
  }

  lemma CancellingCells(p: Problem<real>)
    requires p == Cancelling()
    ensures Six(p)
  {
    CancellingIndices(p.g);
    assert p.Valid();
    hide Index;
    forall x, y, z | InGrid(p.g, Point(x, y, z)) ensures p.Initial(0, Point(x, y, z)) == 1.0 {
      assert Index(p.g, Point(x, y, z)) < 27;
    }
  }

  lemma CancellingIndices(g: Geometry)
    requires g == Geometry(3, 3, 3)
    ensures Index(g, Point(2, 1, 1)) == 14 && Index(g, Point(0, 1, 1)) == 12
    ensures Index(g, Point(1, 2, 1)) == 16 && Index(g, Point(1, 0, 1)) == 10
    ensures Index(g, Point(1, 1, 2)) == 22 && Index(g, Point(1, 1, 0)) == 4
    ensures Size(g) == 27
  {
  }

  lemma LowestGhostRow(s: Slab, t: int)
    ensures GhostRow(s, t, 1) == 1
  {
  }

  lemma CancellingRead(p: Problem<real>, s: Slab, t: int, arm: Arm, a: Point)
    requires Six(p) && s == Slab(3, 0, 1, 2) && a == Point(1, 1, 1)
    ensures !Interior(p.g, arm.From(a)) && EdgeRead(p, s, t, arm, a) == 1.0
  {
    hide Problem.Initial;
    hide Size;
    hide GhostRow;
    LowestGhostRow(s, t);
    var q := arm.From(a);
    assert q == Point(q.x, q.y, q.z) && InGrid(p.g, q);
  }

  lemma DisagreesAt(p: Problem<real>, ty: int, steps: int, y: int, t: int, arm: Arm, a: Point)
    requires p.Valid() && 0 < ty && 1 <= y < p.g.ny - 1 && 0 <= t < steps
    requires Interior(p.g, a) && !Interior(p.g, arm.From(a))
    requires OwnSlab(p.g, ty, steps, y).Computes(t, p.g.nx, a.y, a.x)
    requires EdgeRead(p, OwnSlab(p.g, ty, steps, y), t, arm, a) != p.Initial(t, arm.From(a))
    ensures !EdgesAgree(p, ty, steps)
  {
    hide EdgeRead;
    hide Problem.Initial;
    hide Size;
    hide Slab.Computes;
    assert !EdgesAgreeAt(p, OwnSlab(p.g, ty, steps, y), t, a);
  }

  lemma MiddleComputed()
    ensures Slab(3, 0, 1, 2).Computes(1, 3, 1, 1)
  {
  }

  lemma SixDisagrees(p: Problem<real>)
    requires Six(p)
    ensures !EdgesAgree(p, 1, 2)
  {
    hide Problem.Initial;
    hide Size;
    hide EdgeRead;
    hide EdgesAgree;
    hide Val;
    hide Problem.Ref;
    var s, a := OwnSlab(p.g, 1, 2, 1), Point(1, 1, 1);
    MiddleComputed();
    hide Slab.Computes;
    assert s == Slab(3, 0, 1, 2);
    CancellingRead(p, s, 1, XP, a);
    DisagreesAt(p, 1, 2, 1, 1, XP, a);
  }

  lemma SixCancels(p: Problem<real>)
    requires Six(p)
    ensures ErrorsCancel(p, 1, 2)
  {
    var s, a := OwnSlab(p.g, 1, 2, 1), Point(1, 1, 1);
    assert s == Slab(3, 0, 1, 2);
    CancellingErrors(p, s, a);
    assert forall b :: Interior(p.g, b) ==> b == a;
    hide Error;
    hide OwnSlab;
    hide Problem.Initial;
    hide Size;
  }

  lemma CancellingErrors(p: Problem<real>, s: Slab, a: Point)
    requires Six(p) && s == Slab(3, 0, 1, 2) && a == Point(1, 1, 1)
    ensures Error(p, s, 2, a) == 0.0
  {
    hide Error;
    hide ArmError;
    hide Damping;
    hide EdgeRead;
    hide Problem.Initial;
    hide Size;
    forall arm: Arm, t {:trigger ArmError(p, s, t, arm, a)}
      ensures ArmError(p, s, t, arm, a) == 1.0 - p.Initial(t, arm.From(a))
    {
      CancellingArm(p, s, t, arm, a);
    }
    NoDamping(p.fac);
    ErrorUnfolds(p, s, 0, a);
    ErrorUnfolds(p, s, 1, a);
    assert Error(p, s, 1, a) == 0.0;
  }

  lemma NoDamping(fac: real)
    ensures Damping(fac, 0.0) == 0.0
  {
  }

  lemma CancellingArm(p: Problem<real>, s: Slab, t: int, arm: Arm, a: Point)
    requires Six(p) && s == Slab(3, 0, 1, 2) && a == Point(1, 1, 1)
    ensures ArmError(p, s, t, arm, a) == 1.0 - p.Initial(t, arm.From(a))
  {
    CancellingRead(p, s, t, arm, a);
    hide Error;
    hide EdgeRead;
    hide Problem.Initial;
    hide Size;
  }
}
