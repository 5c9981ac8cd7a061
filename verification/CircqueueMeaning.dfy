// Exactly when the circular queue computes what the plain sweep computes.
module CircqueueMeaning {
  import opened Arithmetic
  import opened Grid
  import opened Stencil
  import opened CircularQueue
  import opened ProbeCircqueue

  // The six arms of the stencil.
  datatype Arm = XP | XM | YP | YM | ZP | ZM
  {
    function From(a: Point): Point {
      match this
      case XP => a.(x := a.x + 1)
      case XM => a.(x := a.x - 1)
      case YP => a.(y := a.y + 1)
      case YM => a.(y := a.y - 1)
      case ZP => a.(z := a.z + 1)
      case ZM => a.(z := a.z - 1)
    }

    function Pick<T>(c: Cells<T>): T {
      match this
      case XP => c.xp
      case XM => c.xm
      case YP => c.yp
      case YM => c.ym
      case ZP => c.zp
      case ZM => c.zm
    }
  }

  // What step t of slab s reads for a boundary cell: A0, and in the two ghost
  // planes A0 at a shifted row.
  ghost function EdgeRead<T>(p: Problem<T>, s: Slab, t: int, arm: Arm, a: Point): T
    requires p.Valid() && Interior(p.g, a) && !Interior(p.g, arm.From(a))
  {
    if arm.ZP? || arm.ZM? then Ghost(p, s, t, arm.From(a)) else p.Initial(0, arm.From(a))
  }

  ghost predicate EdgesAgreeAt<T>(p: Problem<T>, s: Slab, t: int, a: Point)
    requires p.Valid() && Interior(p.g, a)
  {
    forall arm: Arm :: !Interior(p.g, arm.From(a)) ==> EdgeRead(p, s, t, arm, a) == p.Initial(t, arm.From(a))
  }

  // Every boundary value read on the way to some slab's result is the one the
  // plain sweep would read at that time.
  ghost predicate EdgesAgree<T>(p: Problem<T>, ty: int, steps: int)
    requires p.Valid() && ty > 0
  {
    forall y, t, a {:trigger OwnSlab(p.g, ty, steps, y).Computes(t, p.g.nx, a.y, a.x)} ::
      1 <= y < p.g.ny - 1 && 0 <= t < steps && Interior(p.g, a)
      && OwnSlab(p.g, ty, steps, y).Computes(t, p.g.nx, a.y, a.x)
      ==> EdgesAgreeAt(p, OwnSlab(p.g, ty, steps, y), t, a)
  }

  // The result of the queue code is right for this kernel and these contents.
  ghost predicate Right<T>(p: Problem<T>, ty: int, steps: int)
    requires p.Valid() && ty > 0
  {
    forall a :: Interior(p.g, a) ==> RightAt(p, ty, steps, a)
  }

  ghost predicate RightAt<T>(p: Problem<T>, ty: int, steps: int, a: Point)
    requires p.Valid() && ty > 0 && Interior(p.g, a)
  {
    QueueFinalAt(p, ty, steps, a) == p.Ref(steps, a)
  }

  // EdgeRead is what the two schedules' reads come to at a boundary arm.
  lemma EdgeIsRead<T>(p: Problem<T>, s: Slab, t: nat, arm: Arm, a: Point)
    requires p.Valid() && Interior(p.g, a) && !Interior(p.g, arm.From(a))
    ensures arm.Pick(Reads(p, s, t, a)) == EdgeRead(p, s, t, arm, a)
    ensures arm.Pick(p.RefCells(t, a)) == p.Initial(t, arm.From(a))
  {
    hide Index;
    hide Size;
  }

  // ---------- the condition suffices ----------

  ghost predicate Slabs(g: Geometry, ty: int, steps: int) {
    0 < ty && 1 <= steps && (g.ny - 2) % ty == 0
  }

  // The slabs cover the interior.
  ghost predicate RowsCovered(g: Geometry, ty: int)
    requires ty > 0
  {
    (g.ny - 2) % ty == 0 || g.nx <= 2 || g.ny <= 2 || g.nz <= 2
  }

  lemma SlabsCover(g: Geometry, ty: int)
    requires 0 < ty && (g.ny - 2) % ty == 0
    ensures Covered(g, ty) == g.ny - 2
  {
  }

  lemma OwnSlabValid(g: Geometry, ty: int, steps: int, y: int)
    requires Slabs(g, ty, steps) && 1 <= y < g.ny - 1
    ensures
      var s := OwnSlab(g, ty, steps, y);
      s.Valid() && s.start + 1 <= y <= s.start + ty
  {
    var m, n := (y - 1) / ty, (g.ny - 2) / ty;
    assert y - 1 == m * ty + (y - 1) % ty;
    assert g.ny - 2 == n * ty;
    if m < n {
      MulUpper(m, n, ty);
    }
  }

  // On the rows a slab computes, its values are the plain sweep's.
  lemma {:induction false} WindowIsRef<T>(p: Problem<T>, ty: int, steps: int, y: int, t: nat, a: Point)
    requires p.Valid() && Slabs(p.g, ty, steps) && EdgesAgree(p, ty, steps)
    requires 1 <= y < p.g.ny - 1 && 0 <= t <= steps && Interior(p.g, a)
    requires t > 0 ==> OwnSlab(p.g, ty, steps, y).Computes(t - 1, p.g.nx, a.y, a.x)
    ensures Val(p, OwnSlab(p.g, ty, steps, y), t, a) == p.Ref(t, a)
    decreases t, 0
  {
    if t > 0 {
      var s := OwnSlab(p.g, ty, steps, y);
      var c, d := Reads(p, s, t - 1, a), p.RefCells(t - 1, a);
      forall arm: Arm ensures SameArm(arm, c, d) {
        ArmIsRef(p, ty, steps, y, t - 1, arm, a);
      }
      CentreComputed(s, p.g, ty, steps, y, t - 1, a);
      WindowIsRef(p, ty, steps, y, t - 1, a);
      CellsEqual(c, d);
    }
  }

  ghost predicate SameArm<T>(arm: Arm, c: Cells<T>, d: Cells<T>) {
    arm.Pick(c) == arm.Pick(d)
  }

  lemma CellsEqual<T>(c: Cells<T>, d: Cells<T>)
    requires c.centre == d.centre && forall arm: Arm :: SameArm(arm, c, d)
    ensures c == d
  {
    assert SameArm(XP, c, d) && SameArm(XM, c, d) && SameArm(YP, c, d);
    assert SameArm(YM, c, d) && SameArm(ZP, c, d) && SameArm(ZM, c, d);
  }

  lemma CentreComputed(s: Slab, g: Geometry, ty: int, steps: int, y: int, t: int, a: Point)
    requires Slabs(g, ty, steps) && 1 <= y < g.ny - 1 && s == OwnSlab(g, ty, steps, y) && 0 <= t < steps
    requires Interior(g, a) && s.Computes(t, g.nx, a.y, a.x)
    ensures t > 0 ==> s.Computes(t - 1, g.nx, a.y, a.x)
    ensures forall arm: Arm :: t > 0 && Interior(g, arm.From(a)) ==>
              s.Computes(t - 1, g.nx, arm.From(a).y, arm.From(a).x)
  {
    OwnSlabValid(g, ty, steps, y);
    if t > 0 {
      ReadsWhatWasWritten(s, t, g.nx, a.y, a.x);
    }
  }

  lemma {:induction false} ArmIsRef<T>(p: Problem<T>, ty: int, steps: int, y: int, t: nat, arm: Arm, a: Point)
    requires p.Valid() && Slabs(p.g, ty, steps) && EdgesAgree(p, ty, steps)
    requires 1 <= y < p.g.ny - 1 && t < steps && Interior(p.g, a)
    requires OwnSlab(p.g, ty, steps, y).Computes(t, p.g.nx, a.y, a.x)
    ensures arm.Pick(Reads(p, OwnSlab(p.g, ty, steps, y), t, a)) == arm.Pick(p.RefCells(t, a))
    decreases t, 1
  {
    var s, q := OwnSlab(p.g, ty, steps, y), arm.From(a);
    if Interior(p.g, q) {
      CentreComputed(s, p.g, ty, steps, y, t, a);
      WindowIsRef(p, ty, steps, y, t, q);
    } else {
      EdgeIsRead(p, s, t, arm, a);
      assert EdgesAgreeAt(p, s, t, a);
      assert EdgeRead(p, s, t, arm, a) == p.Initial(t, q);
    }
  }

  lemma AgreeingIsRight<T>(p: Problem<T>, ty: int, steps: int)
    requires p.Valid() && Slabs(p.g, ty, steps) && EdgesAgree(p, ty, steps)
    ensures Right(p, ty, steps)
  {
    SlabsCover(p.g, ty);
    forall a | Interior(p.g, a) ensures RightAt(p, ty, steps, a) {
      OwnSlabValid(p.g, ty, steps, a.y);
      WindowIsRef(p, ty, steps, a.y, steps, a);
    }
  }

  // ---------- the condition is necessary ----------

  // p with other interior contents and another kernel.
  ghost predicate SameEdges(p: Problem<real>, p': Problem<real>) {
    && p.Valid() && p'.Valid() && p'.g == p.g
    && forall t, a {:trigger p'.Initial(t, a)} ::
         InGrid(p.g, a) && !Interior(p.g, a) ==> p'.Initial(t, a) == p.Initial(t, a)
  }

  // A kernel that uses the integer part of the centre as a clock. At time t it
  // notes in the fraction whether the given arm reads v; from then on the note
  // travels `far` rows up or down, and then stays.
  function Probe(t: int, arm: Arm, v: real, far: int, c: Cells<real>): real {
    var n := c.centre.Floor;
    if n < t then (n + 1) as real
    else if n == t then Note(n + 1, arm.Pick(c) == v)
    else
      var from := if n - t - 1 < far then c.ym else if n - t - 1 < -far then c.yp else c.centre;
      Note(n + 1, from == Note(n, true))
  }

  ghost function ProbeKernel(t: int, arm: Arm, v: real, far: int): Kernel<real> {
    (fac, c) => Probe(t, arm, v, far, c)
  }

  function Note(n: int, yes: bool): real {
    n as real + if yes then 0.5 else 0.25
  }

  lemma NoteClock(n: int, yes: bool)
    ensures Note(n, yes).Floor == n && (n as real).Floor == n
  {
  }

  // Where the note is at level n, when it was taken at row y.
  function NoteRow(t: int, y: int, far: int, n: int): int {
    var moved := n - t - 1;
    if far >= 0 then y + (if moved < far then moved else far) else y - (if moved < -far then moved else -far)
  }

  // The contents of a buffer with the interior cleared.
  ghost function Cleared(g: Geometry, c: seq<real>): seq<real>
    requires |c| == Size(g)
  {
    seq(Size(g), n requires 0 <= n < Size(g) => if Interior(g, PointAt(g, n)) then 0.0 else c[n])
  }

  ghost function Probing(p: Problem<real>, t: int, arm: Arm, v: real, far: int): Problem<real>
    requires p.Valid()
  {
    var c0, c1 := Cleared(p.g, p.init0), Cleared(p.g, p.init1);
    Problem(p.g, ProbeKernel(t, arm, v, far), c0[0], c0, c1)
  }

  lemma ClearedAt(g: Geometry, c: seq<real>, a: Point)
    requires |c| == Size(g) && InGrid(g, a)
    ensures Cleared(g, c)[Index(g, a)] == if Interior(g, a) then 0.0 else c[Index(g, a)]
  {
    IndexInjective(g, a, PointAt(g, Index(g, a)));
  }

  lemma ProbingEdges(p: Problem<real>, t: int, arm: Arm, v: real, far: int)
    requires p.Valid()
    ensures SameEdges(p, Probing(p, t, arm, v, far))
    ensures Probes(Probing(p, t, arm, v, far), t, arm, v, far)
  {
    forall u, a | InGrid(p.g, a)
      ensures Probing(p, t, arm, v, far).Initial(u, a) == if Interior(p.g, a) then 0.0 else p.Initial(u, a)
    {
      ClearedAt(p.g, p.init0, a);
      ClearedAt(p.g, p.init1, a);
    }
  }

  // One step of a probing run: what the kernel makes of the seven cells.
  lemma ProbeStep(t: nat, arm: Arm, v: real, far: int, n: nat, c: Cells<real>)
    requires c.centre.Floor == n
    ensures Probe(t, arm, v, far, c).Floor == n + 1
    ensures n == t ==> Probe(t, arm, v, far, c) == Note(n + 1, arm.Pick(c) == v)
    ensures
      var from := if n - t - 1 < far then c.ym else if n - t - 1 < -far then c.yp else c.centre;
      n > t ==> forall b :: from == Note(n, b) ==> Probe(t, arm, v, far, c) == Note(n + 1, b)
  {
    NoteClock(n + 1, true);
    NoteClock(n + 1, false);
  }

  // p runs the probing kernel on a cleared interior.
  ghost predicate Probes(p: Problem<real>, t: int, arm: Arm, v: real, far: int) {
    && p.Valid()
    && p.f == ProbeKernel(t, arm, v, far)
    && (forall u, a :: Interior(p.g, a) ==> p.Initial(u, a) == 0.0)
  }

  lemma {:induction false} QueueClock(p: Problem<real>, t: nat, arm: Arm, v: real, far: int, s: Slab, n: nat, a: Point)
    requires Probes(p, t, arm, v, far) && Interior(p.g, a)
    ensures Val(p, s, n, a).Floor == n
  {
    hide Index;
    hide Size;
    hide Probe;
    if n > 0 {
      QueueClock(p, t, arm, v, far, s, n - 1, a);
      var c := Reads(p, s, n - 1, a);
      ProbeStep(t, arm, v, far, n - 1, c);
      assert p.f(p.fac, c) == Probe(t, arm, v, far, c);
    }
  }

  lemma {:induction false} RefClock(p: Problem<real>, t: nat, arm: Arm, v: real, far: int, n: nat, a: Point)
    requires Probes(p, t, arm, v, far) && Interior(p.g, a)
    ensures p.Ref(n, a).Floor == n
  {
    hide Index;
    hide Size;
    hide Probe;
    if n > 0 {
      RefClock(p, t, arm, v, far, n - 1, a);
      var c := p.RefCells(n - 1, a);
      ProbeStep(t, arm, v, far, n - 1, c);
      assert p.f(p.fac, c) == Probe(t, arm, v, far, c);
    }
  }

  // In the queue code the note says whether its read was v.
  lemma {:induction false} QueueTrail(p: Problem<real>, t: nat, arm: Arm, v: real, far: int, s: Slab, n: nat, a: Point)
    requires Probes(p, t, arm, v, far) && Interior(p.g, a) && !Interior(p.g, arm.From(a)) && t < n
    requires 1 <= a.y + far < p.g.ny - 1
    ensures Val(p, s, n, a.(y := NoteRow(t, a.y, far, n))) == Note(n, EdgeRead(p, s, t, arm, a) == v)
  {
    hide Index;
    hide Size;
    hide Problem.Initial;
    hide Probe;
    hide Note;
    var b := a.(y := NoteRow(t, a.y, far, n));
    var c := Reads(p, s, n - 1, b);
    QueueClock(p, t, arm, v, far, s, n - 1, b);
    ProbeStep(t, arm, v, far, n - 1, c);
    assert Interior(p.g, b);
    assert Val(p, s, n, b) == p.f(p.fac, c);
    assert p.f(p.fac, c) == Probe(t, arm, v, far, c);
    if n == t + 1 {
      assert b == a;
      EdgeIsRead(p, s, t, arm, a);
    } else {
      QueueTrail(p, t, arm, v, far, s, n - 1, a);
      NoteArrives(t, a.y, far, n, b.y);
    }
  }

  // In the plain sweep it says whether the value of that time was v.
  lemma {:induction false} RefTrail(p: Problem<real>, t: nat, arm: Arm, v: real, far: int, n: nat, a: Point)
    requires Probes(p, t, arm, v, far) && Interior(p.g, a) && !Interior(p.g, arm.From(a)) && t < n
    requires 1 <= a.y + far < p.g.ny - 1
    ensures p.Ref(n, a.(y := NoteRow(t, a.y, far, n))) == Note(n, p.Initial(t, arm.From(a)) == v)
  {
    hide Index;
    hide Size;
    hide Problem.Initial;
    hide Probe;
    hide Note;
    var b := a.(y := NoteRow(t, a.y, far, n));
    var c := p.RefCells(n - 1, b);
    RefClock(p, t, arm, v, far, n - 1, b);
    ProbeStep(t, arm, v, far, n - 1, c);
    assert p.Ref(n, b) == p.f(p.fac, c);
    assert p.f(p.fac, c) == Probe(t, arm, v, far, c);
    if n == t + 1 {
      assert b == a;
      EdgeIsRead(p, Slab(0, 0, 0, 0), t, arm, a);
    } else {
      RefTrail(p, t, arm, v, far, n - 1, a);
      NoteArrives(t, a.y, far, n, b.y);
    }
  }

  // The row a note is read from is where it was one level earlier.
  lemma NoteArrives(t: nat, y: int, far: int, n: nat, row: int)
    requires t + 1 < n && row == NoteRow(t, y, far, n)
    ensures
      NoteRow(t, y, far, n - 1) ==
      if n - 1 - t - 1 < far then row - 1 else if n - 1 - t - 1 < -far then row + 1 else row
  {
  }

  // The row of a slab's result nearest to y.
  function Nearest(s: Slab, y: int): int {
    if y <= s.start then s.start + 1 else if y > s.start + s.ty then s.start + s.ty else y
  }

  // From a row computed at time t, a note gets there in time.
  lemma NoteRests(s: Slab, t: nat, nx: int, y: int, x: int)
    requires s.Valid() && t < s.steps && s.Computes(t, nx, y, x)
    ensures s.start + 1 <= Nearest(s, y) <= s.start + s.ty
    ensures NoteRow(t, y, Nearest(s, y) - y, s.steps) == Nearest(s, y)
  {
  }

  // Boundary reads depend on the edges only.
  lemma SameReads(p: Problem<real>, p': Problem<real>, s: Slab, t: int, arm: Arm, a: Point)
    requires SameEdges(p, p') && Interior(p.g, a) && !Interior(p.g, arm.From(a))
    ensures EdgeRead(p', s, t, arm, a) == EdgeRead(p, s, t, arm, a)
    ensures p'.Initial(t, arm.From(a)) == p.Initial(t, arm.From(a))
  {
    hide Index;
    hide Size;
    var q := arm.From(a);
    var r := if arm.ZP? || arm.ZM? then q.(y := GhostRow(s, t, q.y)) else q;
    assert p'.Initial(0, r) == p.Initial(0, r);
  }

  // The two notes tell different things.
  lemma TrailsDiffer(p: Problem<real>, t: nat, arm: Arm, v: real, far: int, s: Slab, a: Point)
    requires Probes(p, t, arm, v, far) && Interior(p.g, a) && !Interior(p.g, arm.From(a)) && t < s.steps
    requires 1 <= a.y + far < p.g.ny - 1 && NoteRow(t, a.y, far, s.steps) == a.y + far
    requires EdgeRead(p, s, t, arm, a) != p.Initial(t, arm.From(a)) == v
    ensures
      var b := a.(y := a.y + far);
      Interior(p.g, b) && Val(p, s, s.steps, b) != p.Ref(s.steps, b)
  {
    QueueTrail(p, t, arm, v, far, s, s.steps, a);
    RefTrail(p, t, arm, v, far, s.steps, a);
    hide Val;
    hide Problem.Ref;
    hide Index;
    hide Size;
    hide NoteRow;
  }

  // What a slab computes in its own rows is what is left there.
  lemma OwnRow(p: Problem<real>, ty: int, steps: int, y: int, b: Point)
    requires p.Valid() && Slabs(p.g, ty, steps) && 1 <= y < p.g.ny - 1 && Interior(p.g, b)
    requires
      var s := OwnSlab(p.g, ty, steps, y);
      s.start + 1 <= b.y <= s.start + s.ty && Val(p, s, steps, b) != p.Ref(steps, b)
    ensures !Right(p, ty, steps)
  {
    hide Val;
    hide Problem.Ref;
    hide Index;
    hide Size;
    SameSlab(ty, y, b.y);
    SlabsCover(p.g, ty);
    assert !RightAt(p, ty, steps, b);
  }

  // A disagreeing boundary read shows in the result of some run.
  lemma DisagreementShows(p: Problem<real>, ty: int, steps: int, y: int, t: nat, arm: Arm, a: Point)
    requires p.Valid() && Slabs(p.g, ty, steps) && 1 <= y < p.g.ny - 1 && t < steps
    requires Interior(p.g, a) && !Interior(p.g, arm.From(a))
    requires OwnSlab(p.g, ty, steps, y).Computes(t, p.g.nx, a.y, a.x)
    requires EdgeRead(p, OwnSlab(p.g, ty, steps, y), t, arm, a) != p.Initial(t, arm.From(a))
    ensures exists p' :: SameEdges(p, p') && !Right(p', ty, steps)
  {
    hide Right;
    hide Probes;
    hide EdgeRead;
    hide Problem.Initial;
    hide Size;
    hide NoteRow;
    hide Slab.Computes;
    var s, v := OwnSlab(p.g, ty, steps, y), p.Initial(t, arm.From(a));
    OwnSlabValid(p.g, ty, steps, y);
    NoteRests(s, t, p.g.nx, a.y, a.x);
    var far := Nearest(s, a.y) - a.y;
    var p' := Probing(p, t, arm, v, far);
    ProbingEdges(p, t, arm, v, far);
    SameReads(p, p', s, t, arm, a);
    TrailsDiffer(p', t, arm, v, far, s, a);
    OwnRow(p', ty, steps, y, a.(y := a.y + far));
    assert SameEdges(p, p') && !Right(p', ty, steps);
  }

  lemma SameSlab(ty: int, y: int, y': int)
    requires 0 < ty && (y - 1) / ty * ty + 1 <= y' <= (y - 1) / ty * ty + ty
    ensures (y' - 1) / ty * ty == (y - 1) / ty * ty
  {
    QuotientUnique((y' - 1) / ty, (y - 1) / ty, (y' - 1) % ty, y' - 1 - (y - 1) / ty * ty, ty);
  }

  // Rows that no slab covers are never computed.
  lemma UncoveredShows(p: Problem<real>, ty: int, steps: int)
    requires p.Valid() && 0 < ty && 1 <= steps && !RowsCovered(p.g, ty)
    ensures exists p' :: SameEdges(p, p') && !Right(p', ty, steps)
  {
    var a := Point(1, p.g.ny - 2, 1);
    var p' := Probing(p, 0, XP, 0.0, 0).(f := (fac, c) => 1.0);
    ProbingEdges(p, 0, XP, 0.0, 0);
    ClearedAt(p.g, p.init0, a);
    ClearedAt(p.g, p.init1, a);
    UncoveredRow(p.g, ty);
    hide Index;
    hide Size;
    assert QueueFinalAt(p', ty, steps, a) == p'.Initial(1, a) == 0.0;
    assert p'.Ref(steps, a) == 1.0;
    assert !RightAt(p', ty, steps, a);
    assert forall t, b :: InGrid(p.g, b) ==> p'.Initial(t, b) == Probing(p, 0, XP, 0.0, 0).Initial(t, b);
    assert SameEdges(p, p') && !Right(p', ty, steps);
  }

  lemma UncoveredRow(g: Geometry, ty: int)
    requires 0 < ty && (g.ny - 2) % ty != 0
    ensures Covered(g, ty) < g.ny - 2
  {
    assert g.ny - 2 == (g.ny - 2) / ty * ty + (g.ny - 2) % ty;
  }

  // The queue code is right for every kernel and all interior contents exactly
  // when its slabs cover the interior and the boundary values it reads are those
  // of the plain sweep.
  lemma RightExactly(p: Problem<real>, ty: int, steps: int)
    requires p.Valid() && 0 < ty && 1 <= steps
    ensures RowsCovered(p.g, ty) && EdgesAgree(p, ty, steps)
            <==> forall p' :: SameEdges(p, p') ==> Right(p', ty, steps)
  {
    if RowsCovered(p.g, ty) && EdgesAgree(p, ty, steps) {
      forall p' | SameEdges(p, p') ensures Right(p', ty, steps) {
        if Slabs(p.g, ty, steps) {
          SameEdgesAgree(p, p', ty, steps);
          AgreeingIsRight(p', ty, steps);
        }
      }
    } else if !RowsCovered(p.g, ty) {
      UncoveredShows(p, ty, steps);
    } else {
      var y, t, a :| 1 <= y < p.g.ny - 1 && 0 <= t < steps && Interior(p.g, a)
        && OwnSlab(p.g, ty, steps, y).Computes(t, p.g.nx, a.y, a.x)
        && !EdgesAgreeAt(p, OwnSlab(p.g, ty, steps, y), t, a);
      var arm: Arm :| !Interior(p.g, arm.From(a))
        && EdgeRead(p, OwnSlab(p.g, ty, steps, y), t, arm, a) != p.Initial(t, arm.From(a));
      DisagreementShows(p, ty, steps, y, t, arm, a);
    }
  }

  lemma SameEdgesAgree(p: Problem<real>, p': Problem<real>, ty: int, steps: int)
    requires Slabs(p.g, ty, steps) && SameEdges(p, p') && EdgesAgree(p, ty, steps)
    ensures EdgesAgree(p', ty, steps)
  {
    forall y, t, a | 1 <= y < p.g.ny - 1 && 0 <= t < steps && Interior(p.g, a)
      && OwnSlab(p.g, ty, steps, y).Computes(t, p.g.nx, a.y, a.x)
      ensures EdgesAgreeAt(p', OwnSlab(p.g, ty, steps, y), t, a)
    {
      var s := OwnSlab(p.g, ty, steps, y);
      assert EdgesAgreeAt(p, s, t, a);
      forall arm: Arm | !Interior(p.g, arm.From(a)) ensures EdgeRead(p', s, t, arm, a) == p'.Initial(t, arm.From(a)) {
        assert EdgeRead(p, s, t, arm, a) == p.Initial(t, arm.From(a));
      }
    }
  }

  // ---------- what a caller can check ----------

  // Both arrays hold the same boundary.
  ghost predicate SameBoundary<T>(p: Problem<T>)
    requires p.Valid()
  {
    forall a {:trigger p.Initial(1, a)} :: InGrid(p.g, a) && !Interior(p.g, a) ==> p.Initial(0, a) == p.Initial(1, a)
  }

  // Away from their edges, the bottom and top planes of A0 do not vary in y.
  ghost predicate FlatGhosts<T>(p: Problem<T>)
    requires p.Valid()
  {
    forall a, y {:trigger p.Initial(0, a.(y := y))} ::
      InGrid(p.g, a) && 1 <= a.x < p.g.nx - 1 && 1 <= a.y < p.g.ny - 1 && 1 <= y < p.g.ny - 1
      && (a.z == 0 || a.z == p.g.nz - 1)
      ==> p.Initial(0, a.(y := y)) == p.Initial(0, a)
  }

  lemma FlatEdgesAgree<T>(p: Problem<T>, ty: int, steps: int)
    requires p.Valid() && Slabs(p.g, ty, steps) && SameBoundary(p) && FlatGhosts(p)
    ensures EdgesAgree(p, ty, steps)
  {
    hide Index;
    hide Size;
    forall y, t, a | 1 <= y < p.g.ny - 1 && 0 <= t < steps && Interior(p.g, a)
      && OwnSlab(p.g, ty, steps, y).Computes(t, p.g.nx, a.y, a.x)
      ensures EdgesAgreeAt(p, OwnSlab(p.g, ty, steps, y), t, a)
    {
      var s := OwnSlab(p.g, ty, steps, y);
      forall arm: Arm | !Interior(p.g, arm.From(a)) ensures EdgeRead(p, s, t, arm, a) == p.Initial(t, arm.From(a)) {
        var q := arm.From(a);
        assert p.Initial(0, q) == p.Initial(1, q);
        if arm.ZP? || arm.ZM? {
          assert p.Initial(0, q.(y := GhostRow(s, t, q.y))) == p.Initial(0, q);
        }
      }
    }
  }

  // A single step is right whatever the arrays hold.
  lemma OneStepEdgesAgree<T>(p: Problem<T>, ty: int)
    requires p.Valid() && ty > 0
    ensures EdgesAgree(p, ty, 1)
  {
    hide Index;
    hide Size;
  }

  // With equal boundaries, right on the interior means that the whole result
  // array is the one the plain sweep leaves its newest time level in.
  lemma RightIsFinal<T>(p: Problem<T>, ty: int, steps: nat)
    requires p.Valid() && ty > 0 && SameBoundary(p)
    ensures Right(p, ty, steps) <==> QueueFinal(p, ty, steps) == p.Final(steps, steps % 2)
  {
    hide Val;
    hide Index;
    hide Size;
    if Right(p, ty, steps) {
      forall n | 0 <= n < Size(p.g) ensures QueueFinal(p, ty, steps)[n] == p.Final(steps, steps % 2)[n] {
        var a := PointAt(p.g, n);
        if Interior(p.g, a) {
          assert RightAt(p, ty, steps, a);
        } else {
          assert p.Initial(1, a) == p.Initial(0, a);
        }
      }
    }
    if QueueFinal(p, ty, steps) == p.Final(steps, steps % 2) {
      forall a | Interior(p.g, a) ensures RightAt(p, ty, steps, a) {
        var n := Index(p.g, a);
        IndexInjective(p.g, a, PointAt(p.g, n));
        assert QueueFinal(p, ty, steps)[n] == p.Final(steps, steps % 2)[n];
      }
    }
  }

  // Equal boundaries and ghost planes that do not vary in y are enough, for
  // every kernel and all interior contents.
  lemma FlatIsFinal<T>(p: Problem<T>, ty: int, steps: nat)
    requires p.Valid() && Slabs(p.g, ty, steps) && SameBoundary(p) && FlatGhosts(p)
    ensures QueueFinal(p, ty, steps) == p.Final(steps, steps % 2)
  {
    FlatEdgesAgree(p, ty, steps);
    AgreeingIsRight(p, ty, steps);
    RightIsFinal(p, ty, steps);
  }
}
