# Verified models of stencilprobe_bench and strace

This project models two programs in Dafny and proves what they are for.

**stencilprobe_bench** runs a 7-point stencil over a three-dimensional grid,
once by plain loops (`probe_heat.c`) and four more times in an order that suits
a cache: tiled, time skewed, recursively decomposed, and through circular
queues. Two arrays alternate, so level t+1 of a cell is stored over level t-1.
`Stencil.Problem.Ref` defines the value of every cell at every time without
reference to any order. One invariant, `Stencil.Inv`, carries all in-place
schedules: a ghost map says how often each cell has been updated, and a cell
updated l times holds its value at time l in one array and at time l-1 in the
other. An update keeps it whenever no neighbour is behind. What remains for
each schedule is that its order is legal and complete; its method then leaves
both arrays as `Stencil.Problem.Final` says. The plain sweep meets the same
specification, so every schedule is compared with it. Element type and kernel
are parameters, so these results hold for rounded arithmetic too.

The circular queue recomputes margins and is treated apart: what it leaves is
described by `ProbeCircqueue.QueueFinal` for *all* contents of the arrays, and
then compared with the plain sweep.

**strace** is covered where its logic is its own: the decimal conversion and
`printf` replacement of `vsprintf.c`, `string_quote` and the word-by-word part
of `umovestr` in `util.c`, and the table of trace control blocks in `strace.c`
under arbitrary sequences of wait results.

The constraint printed at `stencilprobe_bench/main.c:33`, that block sizes
divide the grid sizes less 2, turns out to be the exact condition for time
skewing: `TimeskewLimits.AssignsInteriorExactly` shows that without it, and only
then, boundary cells are overwritten, and `TimeskewLimits.UndividedDiffers` that
the arrays then differ from the plain sweep's for some kernel.

What turned out different from what the program's own words suggest:

- The comment at `stencilprobe_bench/probe_heat_timeskew.c:8-13` bounds the
  number of time steps by the smallest block. The bound is not needed: the
  clamps keep the traversal right for every number of steps.
- The circular queue is not a drop-in replacement. It keeps the boundary of
  `A0` at every level and reads the bottom and top planes at a shifted row. It
  is right for every kernel exactly when its slabs cover the interior and these
  reads agree with the plain sweep's (`CircqueueMeaning.RightExactly`). With
  the heat kernel, which the program runs, wrong reads may cancel: there it is
  right exactly when the error they feed, spread like the values themselves, is
  zero in the end (`CircqueueHeat.HeatRightExactly`,
  `CircqueueHeat.QueueProbeExactly`; `CircqueueHeat.CancellingIsRight` has two
  reads that cancel). Arrays of ones, as in `main.test.c`, satisfy both
  conditions; random contents, as in the Makefile's builds with `RANDOMVALUES`,
  need not (`ProbeTest.UnequalBoundariesFail`, `ProbeTest.SlopingGhostsFail`).
- The head of `probe_heat_circqueue.c` asks for ty to divide ny. The code, and
  the constraint printed at `stencilprobe_bench/main.c:34`, need it to divide
  ny-2; otherwise the rows left over are never computed
  (`CircqueueMeaning.UncoveredShows`).
- The oblivious probe divides the whole sum by the squared factor, the others
  only the centre term. Over the reals the two are interchangeable if and only
  if that square is one (`Kernels.InterchangeableExactly`).
- `umovestr` tests whole words, so it can report a NUL that lies behind the
  bytes it was asked for. `Umovestr.AnswerExact` says exactly when its answer
  is right, `Umovestr.OvershootExample` is a case in which it is not.

One module corresponds to one source file or one part of it; `Grid`, `Stencil`,
`Arithmetic`, `Digits` and `Buffers` hold what several of them share. `dafny
verify dfyconfig.toml` checks everything.

## Model

| member | source | states |
|---|---|---|
| Grid.IndexInRange | stencilprobe_bench/common.h:3-3 | every grid point has a cell inside the array |
| Grid.IndexStrides | stencilprobe_bench/common.h:3-3 | one step in x, y or z is a step of 1, nx or nx*ny cells |
| Grid.IndexInjective | stencilprobe_bench/common.h:3-3 | distinct grid points never share a cell, so a write changes one value only |
| Grid.PointAt | stencilprobe_bench/common.h:3-3 | every cell of the array belongs to a grid point: the layout is a bijection |
| Stencil.InvStart | stencilprobe_bench/probe_heat.c:16-20 | any contents of the two arrays start a run with every cell at level 0 |
| Stencil.ReadsOwnLevel | stencilprobe_bench/probe_heat.c:23-31 | if no neighbour is behind a cell, the array it reads still holds every neighbour's value of its own level; neighbours are at most one level ahead |
| Stencil.GathersRef | stencilprobe_bench/probe_heat.c:23-31 | hence the seven values an update reads are exactly those the definition of the next level uses |
| Stencil.Store | stencilprobe_bench/probe_heat.c:23-24 | storing level t+1 over level t-1 destroys nothing any cell is still to hold |
| Stencil.Update | stencilprobe_bench/probe_heat.c:23-31 | one assignment of the innermost loop keeps the invariant of all cells and moves one cell up one level |
| Stencil.SweepBox | stencilprobe_bench/probe_heat.c:21-34 | the triple loop over a box moves exactly the cells of the box from level t to t+1, provided none outside beside it is behind |
| Stencil.FinalCell | stencilprobe_bench/probe_heat.c:20-38 | when all cells are at level t, each array holds level t or t-1 by parity, boundary included |
| Stencil.InvFinal | stencilprobe_bench/probe_heat.c:20-38 | then both arrays are, cell for cell, what the reference says |
| ProbeHeat.StencilProbe | stencilprobe_bench/probe_heat.c:12-39 | the plain sweep leaves both arrays as the reference values of time say, for any contents, any kernel and any number of steps |
| ProbeBlocked.TileReady | stencilprobe_bench/probe_heat_blocked.c:24-28 | a clamped tile contains only cells not yet updated in this step |
| ProbeBlocked.TileSwept | stencilprobe_bench/probe_heat_blocked.c:24-28 | tiles cover each interior (i, j) of a row of tiles exactly once, whether or not they divide the grid |
| ProbeBlocked.StepTiled | stencilprobe_bench/probe_heat_blocked.c:24-45 | after the last row of tiles every cell has made exactly one step |
| ProbeBlocked.StencilProbe | stencilprobe_bench/probe_heat_blocked.c:15-46 | tiling with any positive tile sizes leaves both arrays exactly as the plain sweep does |
| ProbeTimeskew.BoundsAreEdges | stencilprobe_bench/probe_heat_timeskew.c:39-80 | slopes of 0 at the two ends and the MAX clamps make the six loop bounds the drifting block edges, for every step number |
| TimeskewLimits.StaysInsideExactly | stencilprobe_bench/probe_heat_timeskew.c:39-80 | the loop bounds of an axis stay off its boundary, at every step, if and only if the block size divides the axis less 2 |
| TimeskewLimits.AssignsInteriorExactly | stencilprobe_bench/main.c:33-33 | no assignment of the traversal leaves the interior if and only if every block size divides its grid size less 2 |
| TimeskewLimits.ConstantLeaves | stencilprobe_bench/probe_heat_timeskew.c:82-99 | with a constant kernel, whatever is assigned anywhere, in any order, holds that constant in the end |
| TimeskewLimits.UndividedDiffers | stencilprobe_bench/probe_heat_timeskew.c:39-103 | whenever a block size does not divide, some kernel leaves in the second array a boundary value the plain sweep does not |
| ProbeTimeskew.DependsOnEarlier | stencilprobe_bench/probe_heat_timeskew.c:73-95 | whatever a block's step reads was computed by an earlier block or an earlier step of the same block |
| ProbeTimeskew.InNotBefore | stencilprobe_bench/probe_heat_timeskew.c:73-95 | no cell is updated by two blocks at the same step |
| ProbeTimeskew.BoxReady | stencilprobe_bench/probe_heat_timeskew.c:73-95 | when a block's step starts, its cells are at that level and no neighbour is behind |
| ProbeTimeskew.BoxSwept | stencilprobe_bench/probe_heat_timeskew.c:73-99 | the box of one step advances exactly the block's share of that step |
| ProbeTimeskew.BlockEnds | stencilprobe_bench/probe_heat_timeskew.c:59-100 | a finished block's steps are exactly those the next block counts on |
| ProbeTimeskew.RowEnds | stencilprobe_bench/probe_heat_timeskew.c:49-101 | a row of blocks leaves no gap to the next row, though the edges drift |
| ProbeTimeskew.SlabEnds | stencilprobe_bench/probe_heat_timeskew.c:39-102 | nor does a slab of rows to the next slab |
| ProbeTimeskew.AllVisited | stencilprobe_bench/probe_heat_timeskew.c:39-102 | after the last block every interior cell has made every step once |
| ProbeTimeskew.RunBlock | stencilprobe_bench/probe_heat_timeskew.c:59-100 | all steps of one block keep the invariant and perform exactly this block's updates |
| ProbeTimeskew.StencilProbe | stencilprobe_bench/probe_heat_timeskew.c:27-103 | time skewing leaves both arrays exactly as the plain sweep does, for every number of steps, with block sizes that divide the interior; with any positive ones where there is nothing to update |
| ProbeOblivious.CutFits | stencilprobe_bench/probe_heat_oblivious.c:35-43 | a cut lies strictly inside; both halves have slopes 0 or -1, end at the grid's edge where they do not move, and have widths that stay non-negative |
| ProbeOblivious.CutHalves | stencilprobe_bench/probe_heat_oblivious.c:35-42 | a cut leaves two sides equally wide half-way through the steps, up to rounding, and is made exactly when together they are at least twice as wide there as there are steps |
| ProbeOblivious.CutPartitions | stencilprobe_bench/probe_heat_oblivious.c:35-43 | under truncating division the two sides of a cut partition the axis at every step |
| ProbeOblivious.CutOrders | stencilprobe_bench/probe_heat_oblivious.c:35-43 | the left side never depends on the right side |
| ProbeOblivious.AfterFits | stencilprobe_bench/probe_heat_oblivious.c:45-50 | both halves of a time cut are well formed and describe the same cells as before |
| ProbeOblivious.CutZ | stencilprobe_bench/probe_heat_oblivious.c:35-39 | a z cut splits a trapezoid into two well-formed ones that partition its updates and respect all dependencies |
| ProbeOblivious.CutY | stencilprobe_bench/probe_heat_oblivious.c:40-44 | so does a y cut |
| ProbeOblivious.CutTime | stencilprobe_bench/probe_heat_oblivious.c:45-50 | so does a time cut |
| ProbeOblivious.HasInterior | stencilprobe_bench/probe_heat_oblivious.c:17-28 | every update of a well-formed trapezoid is of an interior cell |
| ProbeOblivious.ReadyFirst | stencilprobe_bench/probe_heat_oblivious.c:37-48 | the first recursive call finds all it depends on done |
| ProbeOblivious.ReadySecond | stencilprobe_bench/probe_heat_oblivious.c:37-48 | and so does the second after exactly the updates of the first |
| ProbeOblivious.FactorCell | stencilprobe_bench/probe_heat_oblivious.c:15-15 | the cell the factor is re-read from in every base case still holds the entry value |
| ProbeOblivious.BoxReady | stencilprobe_bench/probe_heat_oblivious.c:17-28 | in a base case, the cells of a step are at its level and no neighbour is behind |
| ProbeOblivious.Sweep | stencilprobe_bench/probe_heat_oblivious.c:14-33 | the base case performs exactly the updates of its trapezoid, each at the right level |
| ProbeOblivious.Walk3 | stencilprobe_bench/probe_heat_oblivious.c:7-52 | for any cutoff, walk3 terminates and performs exactly the updates of its trapezoid, each once and each when its inputs are ready |
| ProbeOblivious.WholeReady | stencilprobe_bench/probe_heat_oblivious.c:64-68 | the top-level call is well formed and ready for every grid and number of steps |
| ProbeOblivious.WholeWalked | stencilprobe_bench/probe_heat_oblivious.c:64-68 | its trapezoid contains every interior cell at every step |
| ProbeOblivious.StencilProbe | stencilprobe_bench/probe_heat_oblivious.c:58-69 | the oblivious probe leaves both arrays exactly as the plain sweep of the same kernel does |
| CircularQueue.ReadsWhatWasWritten | stencilprobe_bench/probe_heat_circqueue.c:94-161 | a later step reads with the row origin its predecessor wrote with, and only cells the predecessor wrote, at clamped slabs too |
| CircularQueue.WritesInRows | stencilprobe_bench/probe_heat_circqueue.c:94-161 | every write lies in the grid and in the rows its queue region has room for |
| CircularQueue.RelInRange | stencilprobe_bench/probe_heat_circqueue.c:111-161 | the differences of indices used as offsets stay inside the region |
| CircularQueue.RelInjective | stencilprobe_bench/probe_heat_circqueue.c:111-161 | and different cells have different offsets |
| CircularQueue.RegionStartClosed | stencilprobe_bench/probe_heat_circqueue.c:38-42 | where each region starts, in closed form; at the last level this is the size of a plane |
| CircularQueue.RegionsOrdered | stencilprobe_bench/probe_heat_circqueue.c:38-42 | the regions of different time levels are disjoint and end before the plane does |
| CircularQueue.QueueEmpty | stencilprobe_bench/probe_heat_circqueue.c:78-80 | nothing an earlier slab left in the queues is relied on |
| CircularQueue.PlaneKeeps | stencilprobe_bench/probe_heat_circqueue.c:133-161 | writes to one region leave the planes of all others alone |
| CircularQueue.QueueSteps | stencilprobe_bench/probe_heat_circqueue.c:80-164 | a step, on an active plane or not, keeps what the queues hold: at level u the planes k-u-1, k-u and, once written, k-u+1 |
| CircularQueue.QueueRotates | stencilprobe_bench/probe_heat_circqueue.c:166-171 | rotating the plane pointers turns the invariant of iteration k into that of k+1 |
| ProbeCircqueue.Queue.constructor | stencilprobe_bench/probe_heat_circqueue.c:27-55 | the allocation is three planes of all regions, with the index table pointing at each region |
| ProbeCircqueue.Queue.Rotate | stencilprobe_bench/probe_heat_circqueue.c:166-171 | the three pointers move round by one and stay on the three thirds |
| ProbeCircqueue.Put | stencilprobe_bench/probe_heat_circqueue.c:151-161 | storing a right value disturbs no other value and nothing still to be read |
| ProbeCircqueue.CopyGhosts | stencilprobe_bench/probe_heat_circqueue.c:133-149 | the ghost columns and rows of the plane being written hold what the next level needs |
| ProbeCircqueue.ComputeCell | stencilprobe_bench/probe_heat_circqueue.c:154-161 | one stencil puts the next level's value at its cell and keeps all others |
| ProbeCircqueue.FillPlane | stencilprobe_bench/probe_heat_circqueue.c:133-162 | every cell of the plane a step is to write gets its value, and nothing else is written |
| ProbeCircqueue.ReadPointers | stencilprobe_bench/probe_heat_circqueue.c:83-92 | which array and offset each of the three read pointers has, ghost planes included |
| ProbeCircqueue.FirstStepFeeds | stencilprobe_bench/probe_heat_circqueue.c:83-87 | step 0 finds level 0 in three planes of A0 |
| ProbeCircqueue.LaterStepFeeds | stencilprobe_bench/probe_heat_circqueue.c:88-131 | later steps find their level in the queues of this slab, and in A0 for the outermost planes |
| ProbeCircqueue.QueueStored | stencilprobe_bench/probe_heat_circqueue.c:114-117 | afterwards the written region holds the plane and the rest of the queues is as before |
| ProbeCircqueue.ResultStored | stencilprobe_bench/probe_heat_circqueue.c:109-112 | the last step changes the result array in the slab's cells of its plane only |
| ProbeCircqueue.StepPlane | stencilprobe_bench/probe_heat_circqueue.c:80-164 | one step of one iteration keeps the queue invariant and stores finished cells in the result array |
| ProbeCircqueue.Iterate | stencilprobe_bench/probe_heat_circqueue.c:79-172 | one iteration over k finishes one plane of the slab and leaves the rotated queues ready for the next |
| ProbeCircqueue.RunSlab | stencilprobe_bench/probe_heat_circqueue.c:78-173 | one slab finishes its rows in all planes, starting from arbitrary queue contents |
| ProbeCircqueue.StencilProbe | stencilprobe_bench/probe_heat_circqueue.c:61-174 | for every positive ty and every number of steps, A0 is unchanged and the result array is as described, rows beyond the last whole slab untouched, for every contents of the two arrays; every access is in bounds |
| CircqueueMeaning.WindowIsRef | stencilprobe_bench/probe_heat_circqueue.c:94-161 | where the boundary reads agree, the rows a slab computes redundantly carry the plain sweep's values at every step |
| CircqueueMeaning.AgreeingIsRight | stencilprobe_bench/probe_heat_circqueue.c:61-174 | then the result is right on the whole interior |
| CircqueueMeaning.DisagreementShows | stencilprobe_bench/probe_heat_circqueue.c:118-131 | a single boundary read that disagrees spoils the result for some kernel and interior contents (for the heat kernel see CircqueueHeat) |
| CircqueueMeaning.UncoveredShows | stencilprobe_bench/probe_heat_circqueue.c:76-78 | so does a ty that leaves rows over, which are never computed |
| CircqueueMeaning.RightExactly | stencilprobe_bench/probe_heat_circqueue.c:61-174 | the code is right for every kernel and all interior contents if and only if its slabs cover the interior and its boundary reads agree with the plain sweep's |
| CircqueueMeaning.FlatEdgesAgree | stencilprobe_bench/probe_heat_circqueue.c:118-131 | equal boundaries in both arrays and ghost planes that do not vary in y are enough for that |
| CircqueueMeaning.OneStepEdgesAgree | stencilprobe_bench/probe_heat_circqueue.c:83-92 | a single time step needs no condition |
| CircqueueMeaning.RightIsFinal | stencilprobe_bench/probe_heat_circqueue.c:61-174 | with equal boundaries, right on the interior is the same as the result array being the plain sweep's newest one, by the parity of the step count |
| CircqueueMeaning.FlatIsFinal | stencilprobe_bench/probe_heat_circqueue.c:61-174 | for such arrays the result array is the plain sweep's newest array, for every kernel |
| CircqueueHeat.ErrorIsDifference | stencilprobe_bench/probe_heat_circqueue.c:154-161 | with the heat kernel, the queue's value minus the plain sweep's is, at every cell and time, the error fed by the boundary reads |
| CircqueueHeat.HeatRightExactly | stencilprobe_bench/probe_heat_circqueue.c:61-174 | a heat run is right if and only if that error is zero at the last level in every slab's own rows |
| CircqueueHeat.QueueProbeExactly | stencilprobe_bench/probe_heat_circqueue.c:155-161 | the same for the queue's own order of additions against the plain probe's kernel |
| CircqueueHeat.ErrorOfEdges | stencilprobe_bench/probe_heat_circqueue.c:118-131 | the error depends on the boundary, the factor and the slab only, not on the interior |
| CircqueueHeat.RightForAllInteriors | stencilprobe_bench/probe_heat_circqueue.c:61-174 | so a heat run is right for one interior if and only if it is right for all |
| CircqueueHeat.AgreeingCancels | stencilprobe_bench/probe_heat_circqueue.c:118-131 | agreeing boundary reads make the error zero |
| CircqueueHeat.CancellingIsRight | stencilprobe_bench/probe_heat_circqueue.c:154-161 | a 3x3x3 input whose boundary reads disagree and whose result is right all the same |
| Kernels.DivTimes | stencilprobe_bench/probe_heat.c:31-31 | the quotient times the divisor is the dividend |
| Kernels.KernelEquations | stencilprobe_bench/probe_heat_oblivious.c:21-28 | the three kernels as equations without division: six neighbours of weight one, six times the centre, and which part the squared factor divides |
| Kernels.QueueIsHeat | stencilprobe_bench/probe_heat_circqueue.c:155-161 | over the reals, the queue's order of additions does not matter |
| Kernels.ObliviousIsHeat | stencilprobe_bench/probe_heat_oblivious.c:21-28 | dividing the whole sum equals dividing the centre for all cells exactly when the squared factor is one |
| Kernels.RefDependsOnKernel | stencilprobe_bench/probe_heat.c:24-31 | kernels that agree at the run's factor give the same value of every cell at every time |
| Kernels.FinalDependsOnKernel | stencilprobe_bench/probe_heat.c:20-38 | and leave the same arrays |
| Kernels.InterchangeableExactly | stencilprobe_bench/probe_heat_oblivious.c:21-28 | the oblivious probe leaves what the plain probe leaves, on all grids, contents and step counts, exactly when the squared factor is one |
| ProbeTest.StencilInit | stencilprobe_bench/util.c:17-28 | fills the array with ones |
| ProbeTest.OnesObliviousIsHeat | stencilprobe_bench/main.test.c:89-100 | on arrays of ones the oblivious kernel's newest array is the plain one's |
| ProbeTest.QueueIsPlain | stencilprobe_bench/main.test.c:115-124 | over the reals, for any factor and interior, the queue's own kernel yields the plain kernel's newest array when boundaries agree and ghost planes are flat |
| ProbeTest.CompareProbes | stencilprobe_bench/main.test.c:63-124 | the five results the test program compares are equal cell for cell, over the reals |
| ProbeTest.UnequalBoundariesFail | stencilprobe_bench/probe_heat_circqueue.c:133-149 | a 3x3x3 input, boundaries differing, on which the circular queue is wrong after two steps |
| ProbeTest.SlopingGhostsFail | stencilprobe_bench/probe_heat_circqueue.c:118-131 | a 3x4x3 input, equal arrays with a bottom plane that varies in y, on which it is wrong too |
| PutDec.Recip32 | strace/vsprintf.c:50-92 | multiplication by 0x1999999a and a shift by 32 is division by 10 on the range given for it |
| PutDec.Recip19 | strace/vsprintf.c:167-179 | so is 0xcccd and 19 in 32-bit arithmetic below 81920 |
| PutDec.Recip16 | strace/vsprintf.c:50-92 | so is 0x199a and 16 below 16389 |
| PutDec.Recip11 | strace/vsprintf.c:50-92 | so is 0xcd and 11 below 1029 |
| PutDec.PutDecFull9 | strace/vsprintf.c:50-92 | writes exactly the nine low digits, least significant first, leading zeros included, and nothing else |
| PutDec.PutDecTrunc8 | strace/vsprintf.c:99-128 | writes exactly the digits of a number below 10^8 without leading zeros |
| PutDec.PutDec | strace/vsprintf.c:151-161 | the generic conversion writes exactly the decimal numeral of every 64-bit number |
| PutDec.PutDecFull4 | strace/vsprintf.c:167-179 | writes exactly four digits, all intermediates wrapped at 32 bits |
| PutDec.LimbDigits | strace/vsprintf.c:194-216 | the constants are the powers of 2^16 in base 10000 |
| PutDec.LimbsReassemble | strace/vsprintf.c:194-216 | limbs, sums and carries reassemble every 64-bit number, and no sum exceeds 32 bits |
| PutDec.GroupsStrip | strace/vsprintf.c:198-224 | the groups of four with trailing zero characters removed are the numeral |
| PutDec.StripZeros | strace/vsprintf.c:222-223 | the backward loop removes exactly the zeros at the end |
| PutDec.PutDecLimbs | strace/vsprintf.c:186-225 | the conversion without 64-bit division writes the same numeral for every 64-bit number, within 20 cells |
| Digits.NumeralReads | strace/vsprintf.c:151-161 | a numeral consists of digits, has no leading zero and has the value it was made from |
| Digits.DigitIsAscii | strace/vsprintf.c:276-276 | the digits are the ASCII characters 0 to 9 and a to f |
| Digits.NumeralUnique | strace/vsprintf.c:151-161 | it is the only such string |
| Digits.NumeralJoins | strace/vsprintf.c:151-161 | low digits padded to a group in front of a numeral make a numeral |
| Digits.StrippedPadded | strace/vsprintf.c:222-223 | a padded number stripped of its leading zeros is its numeral |
| Number.MaskedDigits | strace/vsprintf.c:322-331 | masking and shifting yields the octal or hexadecimal numeral of every 64-bit number in at most 22 characters |
| Number.DigitsOf | strace/vsprintf.c:312-334 | in each of the three bases the digits are the number's numeral and fit tmp |
| Number.Compose | strace/vsprintf.c:342-393 | the four padding loops, sign and prefix come out in the documented layout under every flag combination |
| Number.NumberTextLength | strace/vsprintf.c:282-288 | the text has the larger of the field width and the width of its parts, and never exceeds the crude bound |
| Number.Number | strace/vsprintf.c:271-396 | either the room is too small and the pointer only advances by the bound, or exactly the text described by SignedReadsBack, UnsignedReadsBack and NumberLayout is written |
| Number.NumberReadsBack | strace/vsprintf.c:271-396 | reading the text as strtol would gives back the number, under every combination of flags and width |
| Number.SignedReadsBack | strace/vsprintf.c:293-298 | for every v from -2^63 to 2^63-1, a signed conversion of its two's complement reads back as v |
| Number.UnsignedReadsBack | strace/vsprintf.c:271-396 | an unsigned conversion of every 64-bit number reads back as that number |
| Number.NumberLayout | strace/vsprintf.c:342-393 | by flag: a minus sign for negative numbers, then 0x or 0, stand right in front of the digits or of the zeros that pad them; spaces pad the other side; and the total width |
| Vsnprintf.StringOut | strace/vsprintf.c:398-434 | a string is cut at the precision and padded to the width, or only counted when it does not fit |
| Vsnprintf.StringLayout | strace/vsprintf.c:398-434 | a string, or (null), cut at a precision that is not negative, and the side the spaces are on |
| Vsnprintf.CharOut | strace/vsprintf.c:680-701 | a character is padded to the width, each cell guarded by the end of the buffer |
| Vsnprintf.CharacterLayout | strace/vsprintf.c:680-701 | a character and the side its padding is on |
| Vsnprintf.AddressReadsBack | strace/vsprintf.c:436-448 | without a width, a pointer is sixteen hexadecimal digits that read back as it |
| Vsnprintf.AddressIsNumber | strace/vsprintf.c:436-448 | with one, it is a number in base 16 |
| Vsnprintf.TextOut | strace/vsprintf.c:661-670 | literal text is copied as far as it fits and counted in full |
| Vsnprintf.LiteralText | strace/vsprintf.c:661-727 | literal text stands for itself and %% for a percent sign |
| Vsnprintf.TextOfJoins | strace/vsprintf.c:654-743 | the text of a format in two parts is that of the first followed by that of the second |
| Vsnprintf.EmptyBufferAsks | strace/vsprintf.c:282-288 | in an empty buffer a number asks for 28 cells or its width |
| Vsnprintf.NumberLength | strace/vsprintf.c:282-288 | the size check is never too small: no number is longer than the bound |
| Vsnprintf.PutItem | strace/vsprintf.c:654-743 | one conversion advances by what the specification says and, while inside the buffer, has written its whole text |
| Vsnprintf.PassCovers | strace/vsprintf.c:644-758 | whatever the buffer size, the length reported is at least that of the full text |
| Vsnprintf.SecondPassExact | strace/vsprintf.c:771-779 | with 256 cells more than a first pass reported, no conversion takes the overflow return and the length is exact |
| Vsnprintf.LengthExact | strace/vsprintf.c:282-288 | the length reported is that of the text if and only if every number has the room it is checked for or is as long as that |
| Vsnprintf.Vsnprintf | strace/vsprintf.c:644-758 | a length below the buffer size means the complete text and its NUL are in the buffer |
| Vsnprintf.UpToNulExact | strace/vsprintf.c:781-781 | what is printed of a text is its longest start without a NUL, so all of it if it has none |
| Vsnprintf.Printer.Vfprintf | strace/vsprintf.c:760-784 | whatever size the static buffer has, exactly the text of formatting into unlimited space is printed, whole if it holds no NUL and else up to it; the first pass's length is returned, and a buffer that was too small is replaced by one of 256 cells more |
| Quote.BodyReads | strace/util.c:421-491 | escapes followed by escapes are read back one by one: no escape swallows its successor |
| Quote.OctalReads | strace/util.c:467-486 | an octal escape, shortened unless a digit follows, reads back as its byte |
| Quote.EscapeLength | strace/util.c:440-489 | which kind of escape a byte gets: itself, a named one, or octal in as few digits as possible, in three before a digit |
| Quote.NamedEscapes | strace/util.c:440-464 | the seven named escapes |
| Quote.HexEscapeLayout | strace/util.c:421-433 | a hex escape is a backslash, x and two lower-case digits |
| Quote.PlainBodyLength | strace/util.c:471-477 | the full octal form is taken exactly where a decimal digit follows |
| Quote.NeedsHexExactly | strace/util.c:404-415 | which bytes make -x quote in hex |
| Quote.UseHexExactly | strace/util.c:391-417 | hex mode applies always under -xx, never without -x, and under -x exactly when there is such a byte |
| Quote.ContentFacts | strace/util.c:384-393 | what is quoted: all size bytes, or those before the first NUL and at most size - 1 |
| Quote.QuotedReads | strace/util.c:380-510 | a quoted string reads back, by section 6.4.4.4 of ISO/IEC 9899:1999, as exactly the bytes quoted, in hex and in plain mode |
| Quote.ScanForHex | strace/util.c:395-417 | -x quotes in hex exactly when a byte before the end is neither printable nor white space |
| Quote.EmitBody | strace/util.c:421-491 | the loop writes the escapes of exactly the bytes before the end, at most four characters each |
| Quote.StringQuote | strace/util.c:379-510 | the output is the quoted content and a NUL, within 3 + 4 * size cells; 0 is returned exactly when len is -1 and a NUL is among the first size bytes |
| Umovestr.NulBits | strace/util.c:1046-1048 | the bit trick flags a word if and only if one of its eight bytes is NUL |
| Umovestr.BytesMakeWord | strace/util.c:1014-1046 | the eight bytes copied from a word are below 256 and make up the word, the lowest first |
| Umovestr.WordMadeOf | strace/util.c:1014-1046 | byte i of a word made of eight bytes is the i-th of them |
| Umovestr.VerdictUnique | strace/util.c:991-1055 | the specification allows one answer only |
| Umovestr.ScanHead | strace/util.c:1014-1017 | whether a byte of the word from the given one on is NUL |
| Umovestr.CopyHead | strace/util.c:1012-1022 | the partial first word: its bytes are copied up to len and all of them are tested |
| Umovestr.CopyWords | strace/util.c:1025-1054 | the loop over whole words gives the right answer for the words it looks at and writes only within the len bytes |
| Umovestr.Umovestr | strace/util.c:991-1055 | -1, 1 or 0 as an unreadable word, a word with a NUL or neither comes first; unless -1, everything up to the first NUL was copied and nothing beyond len was touched |
| Umovestr.CopiedString | strace/util.c:991-1055 | the bytes before the first NUL are copied as they are, and the NUL itself if it is among the len bytes |
| Umovestr.VerdictReadable | strace/util.c:991-1055 | on readable memory the answer is whether the words looked at hold a NUL |
| Umovestr.AnswerExact | strace/util.c:991-1055 | on readable memory the answer is right for the len bytes exactly when they hold a NUL or the rest of the last word holds none; always when addr+len is aligned; and 0 always means no NUL |
| Umovestr.OvershootExample | strace/util.c:1046-1048 | four bytes without a NUL that are reported to have one |
| TcbTable.Tracer.constructor | strace/strace.c:1558-1566 | the initial table of argc blocks, none in use |
| TcbTable.Tracer.ExpandTcbtab | strace/strace.c:651-668 | the table doubles, old blocks stay where they are, new ones are zero |
| TcbTable.Tracer.FirstFree | strace/strace.c:679-694 | a table that is not full always yields a free block: the exit with "bug in alloctcb" is not reached |
| TcbTable.Tracer.Alloctcb | strace/strace.c:670-695 | the pid gets one fresh block, in a table grown if need be, and every other block is unchanged |
| TcbTable.Tracer.Droptcb | strace/strace.c:697-725 | exactly this block's pid leaves the table, the block is zeroed, and printing_tcp and current_tcp no longer point at it |
| TcbTable.Tracer.Pid2tcb | strace/strace.c:1846-1861 | finds the one in-use block of a pid, or NULL exactly when there is none |
| TcbTable.Tracer.Cleanup | strace/strace.c:1863-1886 | afterwards nothing is in use and nprocs is zero |
| TcbTable.Tracer.Lookup | strace/strace.c:2008-2026 | a reported pid has exactly one block afterwards, unless it is unknown and -f is off |
| TcbTable.Tracer.SwitchPid | strace/strace.c:2075-2079 | the thread's block takes over the leader's pid; its old pid is gone and pids stay unique |
| TcbTable.Tracer.HandleSwitch | strace/strace.c:2046-2087 | if the kernel's report can be relied on and names another pid that is in the table, that pid is gone and its block has the reported pid; otherwise no pid changes |
| TcbTable.Tracer.HandleExec | strace/strace.c:2046-2093 | with -b execve the pid leaves the table as well, unless this execve is to be skipped |
| TcbTable.Tracer.FirstStop | strace/strace.c:2141-2155 | the first stop clears the startup flag and an inherited breakpoint, and fails exactly when clearing that fails |
| TcbTable.Tracer.Fork | strace/syscall.c:1656-1674 | with -f, a system call sets or clears the breakpoint, and nothing else does |
| TcbTable.Tracer.Finish | strace/strace.c:2103-2301 | a process that is gone is dropped, and nothing else leaves the table unless the tracer gives up and detaches all |
| TcbTable.Tracer.HandleWait | strace/strace.c:2008-2301 | one turn of the wait loop keeps the invariant; the reported pid is added, an old pid of a threaded execve removed, and the reported one removed again if it is detached by -b execve or gone |
| TcbTable.Tracer.Trace | strace/strace.c:1898-2303 | every run of wait results keeps the invariant and ends with the set of pids the specification computes |
| TcbTable.Tracer.Counts | strace/strace.c:652-725 | the invariant in the table's own terms: nprocs is the number of in-use blocks, pids are unique, in use means a non-zero pid, printing_tcp is NULL or in use |
| TcbTable.AfterExactly | strace/strace.c:2008-2139 | the same for the specification of runs, condition by condition |
| TcbTable.CountMatches | strace/strace.c:670-695 | as many pids as in-use blocks, and the count equals the table size exactly when all are in use |
| TcbTable.RunSplits | strace/strace.c:1907-1963 | a run is its first part followed by the rest, which knows whether the output filter has ended |
| TcbTable.GoneAfterDeath | strace/strace.c:2103-2139 | over any run, a process that died and was not reported again is not in the table |
| TcbTable.GoneAfterDetach | strace/strace.c:2089-2093 | over any run, a process detached by -b execve and not reported again is not in the table |
| TcbTable.SkipsOnce | strace/strace.c:2089-2093 | over any run, the skip is in force until the first execve is reported, and never again |
| TcbTable.FilterIgnored | strace/strace.c:1958-1962 | events of the output filter change nothing until it has ended; then its pid is one like any other |
| TcbTable.StaysUntilGone | strace/strace.c:2008-2139 | over any run, a traced process stays in the table until it dies, changes its pid by execve or is detached by -b execve |
| TcbTable.ExecReplaces | strace/strace.c:2046-2093 | over any run, after a threaded execve the thread's old pid stays out of the table until it is reported again, and the leader's pid stays in until it dies or changes |

## Left out

- Floating point: no rounding is modelled. The schedules are proved for any
  element type and kernel; only `Kernels`, `CircqueueHeat`, `ProbeTest` and the
  necessity halves of `RightExactly` and `UndividedDiffers` use reals. Division by a zero factor is not modelled.
- Timers, argument parsing, `main` and the measuring code of
  stencilprobe_bench.
- Overflow of C integers in grid sizes, lengths, field widths and buffer sizes.
  The 32-bit and 64-bit widths of the decimal conversion are modelled.
- Failing allocations.
- ProbeTimeskew.StencilProbe: where there is something to update it requires block sizes that divide the interior, as main.c:33 does; of other runs, which may leave the arrays, `TimeskewLimits` says only that the boundary is overwritten.
- ProbeCircqueue.StencilProbe: ty is positive, because the code divides by it. The queues are set up for one step too, where the original skips it; they are then empty.
- CircqueueMeaning.FlatIsFinal: asks for flat ghost planes in all rows, which a caller can check easily; `RightExactly` and `HeatRightExactly` have the exact conditions.
- `format_decode` and variable arguments: a format is a sequence of conversions
  already decoded, each with its argument.
- Vsnprintf.Printer.Vfprintf: a failing output stream is not modelled.
- Number.Number: negating the smallest 64-bit number, undefined in C, is taken to wrap.
- Number.Number: `precision` is not used, as in the original.
- The `process_vm_readv` part of `umovestr`, four-byte longs, big-endian
  machines, and the messages printed on errors.
- The header and footer of quoted strings in callers of `string_quote`.
- Register access, ptrace, wait4 and signals: wait results and the answers of
  calls are arbitrary inputs of the table model. Exits of the whole program on
  fatal errors and by an interrupt end a run at a point the model allows.
- Log lines, output files and column positions of traced processes.
- Attaching at startup: runs start from any table with one block per pid, so
  the same pid given twice with -p is outside the model.
- System call decoders and symbol tables.
