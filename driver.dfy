/**
 * The driver arithmetic of the swept solver (`sweep`) and of the
 * design-space-exploration driver (`dse`): the step counts derived from the
 * block size and the time range, the shape of the shared array, the
 * configuration checks, and the order of the phases of the main loop as an
 * event trace.
 */
module Driver {
  import opened PyCore
  import Kernels

  // ---------------------------------------------------------------------
  // Setup of `sweep`

  /** The constants `sweep` derives before it creates the shared array. */
  datatype SweepSetup = SweepSetup(splitX: nat, splitY: nat, mpss: nat, moss: nat, mgst: int, timeSteps: int,
                                   sharedShape: seq<int>)

  /**
   * `sweep`'s setup: `SPLIT = BS/2` on each axis, `MPSS = len(up_sets)`,
   * `MOSS = len(down_sets + up_sets[1:])`, `MGST = TSO*ceil(time_steps/MOSS)`,
   * `time_steps` reset to `MGST*MOSS + 1`, and the shared shape
   * `(MOSS+TSO+1, V, X+2*OPS+SPLITX, Y+2*OPS+SPLITY)`. The index sets come
   * from a module that is not part of this model, so only their counts
   * `upSets` and `downSets` are inputs; `steps` is `int((tf-t0)/dt)`.
   */
  function SweepConstants(bs0: nat, bs1: nat, ops: nat, tso: nat, upSets: nat, downSets: nat, steps: int,
                          nv: nat, nx: nat, ny: nat): (r: Result<SweepSetup>)
    // MOSS counts the down sets and every up set but the first; none is a division by zero
    ensures r.Err? <==> downSets == 0 && upSets <= 1
    ensures r.Err? ==> r.error == ZeroDivisionError
    ensures r.Ok? ==> r.value.mpss == upSets && r.value.moss > 0 && |r.value.sharedShape| == 4
    ensures r.Ok? ==> r.value.moss + 1 == downSets + upSets || (upSets == 0 && r.value.moss == downSets)
  {
    // `int(BS[i]/TWO)`: exact halving truncated, the floor for a natural
    var splitX := bs0 / 2;
    var splitY := bs1 / 2;
    var mpss := upSets;
    var moss := downSets + if upSets == 0 then 0 else upSets - 1;
    if moss == 0 then Err(ZeroDivisionError)
    else
      var mgst := tso * Ceil(steps as real / moss as real);
      Ok(SweepSetup(splitX, splitY, mpss, moss, mgst, mgst * moss + 1,
                    [moss + tso + 1, nv, nx + 2 * ops + splitX, ny + 2 * ops + splitY]))
  }

  /** `a/b <= k` over the reals moves to `a <= k*b` over the integers. */
  lemma QuotientAtMost(a: int, b: int, k: int)
    requires b > 0
    ensures a as real / b as real <= k as real <==> a <= k * b
  {
    var q := a as real / b as real;
    assert q * b as real == a as real;
    assert (k * b) as real == k as real * b as real;
    if q <= k as real {
      assert k as real * b as real >= q * b as real;
    } else {
      assert k as real * b as real < q * b as real;
    }
  }

  /** `a/b < k` over the reals moves to `a < k*b` over the integers. */
  lemma QuotientBelow(a: int, b: int, k: int)
    requires b > 0
    ensures a as real / b as real < k as real <==> a < k * b
  {
    var q := a as real / b as real;
    assert q * b as real == a as real;
    assert (k * b) as real == k as real * b as real;
    if q < k as real {
      assert k as real * b as real > q * b as real;
    } else {
      assert k as real * b as real <= q * b as real;
    }
  }

  /** `ceil(a/b)` for integers: the least `k` with `k*b >= a`. */
  lemma CeilQuotient(a: int, b: nat)
    requires b > 0
    ensures var k := Ceil(a as real / b as real); k * b >= a && (k - 1) * b < a
  {
    var k := Ceil(a as real / b as real);
    QuotientAtMost(a, b, k);
    QuotientAtMost(a, b, k - 1);
  }

  /**
   * `MGST` is `TSO` times the least number of octahedron cycles of `MOSS`
   * steps that covers `time_steps`.
   */
  lemma SweepGlobalSteps(bs0: nat, bs1: nat, ops: nat, tso: nat, upSets: nat, downSets: nat, steps: int,
                         nv: nat, nx: nat, ny: nat)
    requires downSets + upSets > 1
    ensures var s := SweepConstants(bs0, bs1, ops, tso, upSets, downSets, steps, nv, nx, ny).value;
      exists k :: s.mgst == tso * k && k * s.moss >= steps && (k - 1) * s.moss < steps
  {
    var s := SweepConstants(bs0, bs1, ops, tso, upSets, downSets, steps, nv, nx, ny).value;
    var k := Ceil(steps as real / s.moss as real);
    CeilQuotient(steps, s.moss);
    assert s.mgst == tso * k;
  }

  /**
   * With a positive time-scheme order and step count, the reset
   * `time_steps = MGST*MOSS + 1` exceeds the requested one.
   */
  lemma SweepStepsCover(bs0: nat, bs1: nat, ops: nat, tso: nat, upSets: nat, downSets: nat, steps: int,
                        nv: nat, nx: nat, ny: nat)
    requires downSets + upSets > 1 && tso >= 1 && steps >= 0
    ensures SweepConstants(bs0, bs1, ops, tso, upSets, downSets, steps, nv, nx, ny).value.timeSteps > steps
  {
    var s := SweepConstants(bs0, bs1, ops, tso, upSets, downSets, steps, nv, nx, ny).value;
    SweepGlobalSteps(bs0, bs1, ops, tso, upSets, downSets, steps, nv, nx, ny);
    var k :| s.mgst == tso * k && k * s.moss >= steps && (k - 1) * s.moss < steps;
    CoverMonotone(tso, k, s.moss, steps);
  }

  lemma CoverMonotone(tso: nat, k: int, moss: nat, steps: int)
    requires tso >= 1 && steps >= 0 && k * moss >= steps
    ensures (tso * k) * moss >= steps
  {
    assert (tso * k) * moss == tso * (k * moss);
    if k * moss > 0 {
      assert tso * (k * moss) >= k * moss;
    }
  }

  /**
   * The shared array holds the initial condition at time `TSO-1` in
   * `[OPS, X+OPS) x [OPS, Y+OPS)`, with an `OPS` halo before it and an
   * `OPS + SPLIT` halo after it on each axis, and `MOSS + TSO + 1` time slices.
   */
  lemma SharedShapeHoldsDomain(bs0: nat, bs1: nat, ops: nat, tso: nat, upSets: nat, downSets: nat, steps: int,
                               nv: nat, nx: nat, ny: nat)
    requires downSets + upSets > 1 && tso >= 1
    ensures var s := SweepConstants(bs0, bs1, ops, tso, upSets, downSets, steps, nv, nx, ny).value;
      && 0 <= tso - 1 < s.sharedShape[0] && s.sharedShape[0] - (tso - 1) == s.moss + 2
      && s.sharedShape[1] == nv
      && s.sharedShape[2] - (nx + ops) == ops + s.splitX && 2 * s.splitX <= bs0 < 2 * s.splitX + 2
      && s.sharedShape[3] - (ny + ops) == ops + s.splitY && 2 * s.splitY <= bs1 < 2 * s.splitY + 2
  {
  }

  // ---------------------------------------------------------------------
  // Setup of `dse`

  /** The constants `dse` derives from its swept arguments. */
  datatype DseSetup = DseSetup(splitX: nat, splitY: nat, mpss: int, moss: int, mgst: int, timeSteps: int)

  /**
   * `dse`'s setup: the block size must be a multiple of `2*OPS`; the block
   * is `(BS, BS, 1)`, `MPSS = BS/(2*OPS) - 1`, `MOSS = 2*MPSS`,
   * `MGST = int(TSO*time_steps/MOSS - 1)` and `time_steps` is reset to
   * `int(MGST*MOSS/TSO + MPSS)`. Each division by zero is an error.
   */
  function DseConstants(bs: nat, ops: nat, tso: nat, steps: int): (r: Result<DseSetup>)
    // fails exactly on OPS == 0, a block that is not a multiple of 2*OPS, a block of
    // exactly 2*OPS (MOSS == 0) and TSO == 0
    ensures r.Err? <==> ops == 0 || bs % (2 * ops) != 0 || bs == 2 * ops || tso == 0
    ensures ops > 0 && bs % (2 * ops) != 0 ==> r.Err? && r.error.AssertionError?
    ensures r.Err? && !r.error.AssertionError? ==> r.error == ZeroDivisionError
    ensures r.Ok? ==> r.value.moss == 2 * r.value.mpss && r.value.moss != 0
  {
    if 2 * ops == 0 then Err(ZeroDivisionError)
    else if bs % (2 * ops) != 0 then Err(AssertionError("Invalid blocksize"))
    else
      var mpss := bs / (2 * ops) - 1;
      var moss := 2 * mpss;
      if moss == 0 then Err(ZeroDivisionError)
      else
        var mgst := Trunc((tso * steps) as real / moss as real - 1.0);
        if tso == 0 then Err(ZeroDivisionError)
        else Ok(DseSetup(bs / 2, bs / 2, mpss, moss, mgst, Trunc((mgst * moss) as real / tso as real + mpss as real)))
  }

  /**
   * An accepted block is `2*OPS*(MPSS+1)` cells wide with `MOSS = 2*MPSS`:
   * a pyramid of `MPSS` steps shrinks it by `OPS` per side per step down to
   * a `2*OPS` core.
   */
  lemma DseBlockShape(bs: nat, ops: nat, tso: nat, steps: int)
    requires DseConstants(bs, ops, tso, steps).Ok?
    ensures var s := DseConstants(bs, ops, tso, steps).value;
      bs == 2 * ops * (s.mpss + 1) && s.moss == 2 * s.mpss && s.mpss != 0 && s.splitX == s.splitY == ops * (s.mpss + 1)
  {
    var s := DseConstants(bs, ops, tso, steps).value;
    assert bs == (2 * ops) * (bs / (2 * ops));
    assert bs / 2 == ops * (bs / (2 * ops));
  }

  /** `g = int(T/m - 1)` with `T >= m > 0` is the number of whole `m`-cycles in `T`, less one. */
  lemma TruncCycles(t: int, m: int, g: int)
    requires m > 0 && t >= m && g == Trunc(t as real / m as real - 1.0)
    ensures (g + 1) * m <= t < (g + 2) * m
  {
    QuotientBelow(t, m, 1);
    QuotientBelow(t, m, g + 1);
    QuotientBelow(t, m, g + 2);
  }

  /**
   * For a block `dse` accepts, the centred growing window of the GPU
   * kernels at step `j` is the shrinking window at step `MPSS - j`, so the
   * down half of an octahedron retraces its up half.
   */
  lemma DseBlockMirrorsKernelWindows(bs: nat, ops: nat, tso: nat, steps: int, j: int)
    requires DseConstants(bs, ops, tso, steps).Ok? && bs > 0
    requires 0 <= j <= DseConstants(bs, ops, tso, steps).value.mpss
    ensures var mpss := DseConstants(bs, ops, tso, steps).value.mpss;
      Kernels.DownLoCentred(bs, ops, j) == Kernels.UpLo(ops, mpss - j) &&
      Kernels.DownHiCentred(bs, ops, j) == Kernels.UpHi(bs, ops, mpss - j) - 1
  {
    var s := DseConstants(bs, ops, tso, steps).value;
    DseBlockShape(bs, ops, tso, steps);
    Kernels.DownCentredMirrorsUp(bs, ops, s.mpss, j);
  }

  /**
   * `MGST + 1` octahedron cycles of `MOSS` steps fit in `TSO * time_steps`
   * and `MGST + 2` do not, when at least one cycle fits.
   */
  lemma DseGlobalSteps(bs: nat, ops: nat, tso: nat, steps: int)
    requires DseConstants(bs, ops, tso, steps).Ok?
    requires var s := DseConstants(bs, ops, tso, steps).value; s.moss > 0 && tso * steps >= s.moss
    ensures var s := DseConstants(bs, ops, tso, steps).value;
      (s.mgst + 1) * s.moss <= tso * steps < (s.mgst + 2) * s.moss
  {
    var s := DseConstants(bs, ops, tso, steps).value;
    TruncCycles(tso * steps, s.moss, s.mgst);
  }

  /** `int(r)` is at most a natural `n` that bounds `r`. */
  lemma TruncAtMost(r: real, n: int)
    requires r <= n as real && n >= 0
    ensures Trunc(r) <= n
  {
  }

  /** `int(N/t + p) <= steps` when `N + p*t <= t*steps`. */
  lemma TruncQuotientAtMost(num: int, t: int, p: int, steps: int)
    requires t > 0 && steps >= 0 && num + p * t <= t * steps
    ensures Trunc(num as real / t as real + p as real) <= steps
  {
    assert num <= (steps - p) * t;
    QuotientAtMost(num, t, steps - p);
    TruncAtMost(num as real / t as real + p as real, steps);
  }

  /**
   * With a first- or second-order time scheme, the reset `time_steps` of
   * `dse` never exceeds the requested one: `MGST + 1` cycles fit in
   * `TSO*time_steps`, and the `MPSS` steps added back are at most the
   * `MOSS/TSO` steps of the cycle dropped by the `- 1`.
   */
  lemma DseStepsWithin(bs: nat, ops: nat, tso: nat, steps: int)
    requires DseConstants(bs, ops, tso, steps).Ok? && tso <= 2
    requires var s := DseConstants(bs, ops, tso, steps).value; s.moss > 0 && tso * steps >= s.moss
    ensures DseConstants(bs, ops, tso, steps).value.timeSteps <= steps
  {
    var s := DseConstants(bs, ops, tso, steps).value;
    DseBlockShape(bs, ops, tso, steps);
    DseGlobalSteps(bs, ops, tso, steps);
    CyclesWithin(s.mgst, s.moss, s.mpss, tso, steps);
  }

  /**
   * `int(g*m/tso + p) <= steps` when `g + 1` cycles of `m = 2*p` steps fit
   * in `tso*steps` and `tso` is 1 or 2.
   */
  lemma CyclesWithin(g: int, m: int, p: int, tso: int, steps: int)
    requires m == 2 * p && p > 0 && 0 < tso <= 2 && (g + 1) * m <= tso * steps && m <= tso * steps
    ensures Trunc((g * m) as real / tso as real + p as real) <= steps
  {
    assert (g + 1) * m == g * m + m;
    assert p * tso <= p * 2 == m;
    assert steps > 0;
    TruncQuotientAtMost(g * m, tso, p, steps);
  }

  /**
   * `shared_shape` of `dse`: `MOSS+TSO+1` time slices, the variables, the
   * node's block columns (the sum of the node's per-architecture block
   * counts, which come from a module outside this model) times `BS`, and the
   * full y extent.
   */
  function DseSharedShape(moss: int, tso: nat, nv: nat, nodeBlocks: nat, bs: nat, ny: nat): (shape: seq<int>)
    ensures |shape| == 4 && shape[1] == nv && shape[3] == ny
    ensures moss >= 0 && tso >= 1 ==> 0 <= tso - 1 < shape[0]
  {
    [moss + tso + 1, nv, nodeBlocks * bs, ny]
  }

  /**
   * The node master fills slot `TSO-1` of the shared array with the node's
   * x range `[lo*BS, hi*BS)` of the initial condition, every variable and
   * all of y. When the node's block count is `hi - lo`, that slab fits the
   * array exactly on the variable, x and y axes, and `MOSS + 2` time slots
   * follow from slot `TSO-1` on, which is the room for one swept cycle.
   */
  lemma DseSharedHoldsNode(moss: nat, tso: nat, nv: nat, lo: nat, hi: nat, bs: nat, ny: nat)
    requires lo <= hi && tso >= 1
    ensures var shape := DseSharedShape(moss, tso, nv, hi - lo, bs, ny);
      && 0 <= tso - 1 < shape[0] && shape[0] - (tso - 1) == moss + 2
      && shape[1] == nv
      && shape[2] == Slice(lo * bs, hi * bs).Width()
      && shape[3] == ny
  {
    assert (hi - lo) * bs == hi * bs - lo * bs;
  }

  // ---------------------------------------------------------------------
  // Configuration checks of `dse`

  /**
   * The three assertions a node master makes once the GPUs are counted: a
   * heterogeneous run (`AF < 1`) needs fewer GPUs than ranks, and a run
   * using GPUs (`AF > 0`) needs at least one and no more than the GPU rows.
   */
  function ConfigCheck(af: real, totalGpus: int, commSize: int, gnr: int): (r: Result<()>)
    ensures r.Ok? <==> (af < 1.0 ==> totalGpus < commSize) && (af > 0.0 ==> 0 < totalGpus <= gnr)
  {
    if af < 1.0 && !(totalGpus < commSize) then
      Err(AssertionError("The affinity specifies use of heterogeneous system but number of GPUs exceeds number of specified ranks."))
    else if af > 0.0 && !(totalGpus > 0) then Err(AssertionError("There are no avaliable GPUs"))
    else if af > 0.0 && !(totalGpus <= gnr) then
      Err(AssertionError("Not enough rows for the number of GPUS, added more GPU rows, increase affinity, or exclude GPUs."))
    else Ok(())
  }

  /** The check after the unused ranks are removed: a GPU-only run gives every node rank a GPU. */
  function NodeGpuCheck(af: real, totalGpus: int, nodeSize: int): (r: Result<()>)
    ensures r.Ok? <==> (af == 1.0 ==> totalGpus >= nodeSize)
  {
    if af == 1.0 && !(totalGpus >= nodeSize) then Err(AssertionError("Not enough GPUs for ranks")) else Ok(())
  }

  /** A heterogeneous run that passes the checks has at least one GPU rank and at least one CPU rank. */
  lemma HeterogeneousRunHasBoth(af: real, totalGpus: int, commSize: int, gnr: int)
    requires 0.0 < af < 1.0 && ConfigCheck(af, totalGpus, commSize, gnr).Ok?
    ensures 0 < totalGpus && commSize - totalGpus >= 1 && totalGpus <= gnr
  {
  }

  // ---------------------------------------------------------------------
  // Phase schedules

  /**
   * The phases of a run, in the order the driver calls them. `shifted`
   * says whether a pyramid or octahedron works on the grid shifted by half
   * a block (the shifted read and write regions) or on the unshifted one.
   */
  datatype Event =
    | InitialWrite
    | Up(shifted: bool)
    | Bridge
    | ReverseBridge
    | Octahedron(shifted: bool)
    | Down(shifted: bool)
    | Shift
    | Write
    | Boundary
    | FirstPrism
    | SendForward
    | UpPrism
    | SendBackward

  /** A pyramid or octahedron phase, the events that carry a grid. */
  predicate OnGrid(e: Event) { e.Up? || e.Octahedron? || e.Down? }

  /** The shifted flags of the pyramid and octahedron phases of a trace, in order. */
  function Grids(s: seq<Event>): seq<bool>
  {
    if s == [] then []
    else
      var e := s[|s| - 1];
      Grids(s[..|s| - 1]) + if OnGrid(e) then [e.shifted] else []
  }

  lemma {:induction false} GridsAppend(a: seq<Event>, b: seq<Event>)
    ensures Grids(a + b) == Grids(a) + Grids(b)
  {
    if b != [] {
      assert (a + b)[..|a + b| - 1] == a + b[..|b| - 1];
      GridsAppend(a, b[..|b| - 1]);
    } else {
      assert a + b == a;
    }
  }

  /** A stretch without pyramids or octahedra contributes no grid. */
  lemma {:induction false} GridsNone(s: seq<Event>)
    requires forall i :: 0 <= i < |s| ==> !OnGrid(s[i])
    ensures Grids(s) == []
  {
    if s != [] {
      GridsNone(s[..|s| - 1]);
    }
  }

  /** One pass of `sweep`'s `for GST` loop. */
  const SweepCycle: seq<Event> :=
    [Octahedron(true), Shift, Write, Boundary, ReverseBridge, Octahedron(false), Write, Boundary, Bridge]

  /** `n` passes of `sweep`'s loop. */
  function SweepCycles(n: nat): seq<Event>
  {
    Repeat(SweepCycle, n)
  }

  /** `n` copies of `c`, end to end. */
  function Repeat(c: seq<Event>, n: nat): seq<Event>
  {
    if n == 0 then [] else Repeat(c, n - 1) + c
  }

  /** Each event occurs in `n` copies of `c` `n` times as often as in `c`. */
  lemma {:induction false} RepeatCount(c: seq<Event>, n: nat, e: Event)
    ensures multiset(Repeat(c, n))[e] == n * multiset(c)[e]
  {
    if n > 0 {
      RepeatCount(c, n - 1, e);
      assert multiset(Repeat(c, n)) == multiset(Repeat(c, n - 1)) + multiset(c);
      assert n * multiset(c)[e] == (n - 1) * multiset(c)[e] + multiset(c)[e];
    }
  }

  /**
   * The schedule of `sweep`: the time-0 write, the first pyramid and bridge,
   * `MGST - 1` passes of the loop (`GST = 1 .. MGST-1`), then the down
   * pyramid on the shifted grid, the edge shift and the last write.
   */
  function SweepTrace(mgst: int): seq<Event>
  {
    SweepHead + SweepCycles(if mgst > 1 then mgst - 1 else 0) + SweepTail
  }

  /** The events before `sweep`'s loop: the time-0 write, the first pyramid and the first bridge. */
  const SweepHead: seq<Event> := [InitialWrite, Up(false), Bridge]

  /** The events after `sweep`'s loop: the down pyramid, the edge shift and the last write. */
  const SweepTail: seq<Event> := [Down(true), Shift, Write]

  /** The phase calls of `sweep`, recorded as they are made. */
  method SweepSchedule(mgst: int) returns (trace: seq<Event>)
    ensures trace == SweepTrace(mgst)
  {
    trace := [InitialWrite, Up(false), Bridge];
    var last := if mgst > 1 then mgst else 1;
    for gst := 1 to last
      invariant trace == [InitialWrite, Up(false), Bridge] + SweepCycles(gst - 1)
    {
      trace := trace + [Octahedron(true), Shift, Write, Boundary];
      trace := trace + [ReverseBridge];
      trace := trace + [Octahedron(false), Write, Boundary];
      trace := trace + [Bridge];
    }
    trace := trace + [Down(true), Shift, Write];
  }

  /** The grids of one loop pass: the shifted octahedron, then the unshifted one. */
  lemma SweepCycleGrids()
    ensures Grids(SweepCycle) == [true, false]
  {
    var quiet1: seq<Event> := [Shift, Write, Boundary, ReverseBridge];
    var quiet2: seq<Event> := [Write, Boundary, Bridge];
    assert SweepCycle == [Octahedron(true)] + quiet1 + [Octahedron(false)] + quiet2;
    GridsNone(quiet1);
    GridsNone(quiet2);
    GridsAppend([Octahedron(true)] + quiet1 + [Octahedron(false)], quiet2);
    GridsAppend([Octahedron(true)] + quiet1, [Octahedron(false)]);
    GridsAppend([Octahedron(true)], quiet1);
    assert Grids([Octahedron(true)]) == [true] by {
      assert [Octahedron(true)][..0] == [];
    }
    assert Grids([Octahedron(false)]) == [false] by {
      assert [Octahedron(false)][..0] == [];
    }
  }

  /** The events of one loop pass, counted. */
  lemma SweepCycleCounts()
    ensures var m := multiset(SweepCycle);
      m[Write] == 2 && m[Boundary] == 2 && m[Bridge] == 1 && m[ReverseBridge] == 1 && m[InitialWrite] == 0
  {
    var m := multiset(SweepCycle);
    assert m == multiset{Octahedron(true), Shift, Write, Boundary, ReverseBridge, Octahedron(false), Write, Boundary, Bridge};
  }

  /** `len` flags alternating from `start`. */
  function Alternate(len: nat, start: bool): (r: seq<bool>)
    ensures |r| == len
  {
    seq(len, i => (i % 2 == 0) == start)
  }

  lemma AlternateSnoc(len: nat, start: bool)
    requires len % 2 == 0
    ensures Alternate(len, start) + [start, !start] == Alternate(len + 2, start)
  {
  }

  lemma AlternateWrap(half: nat)
    ensures [false] + Alternate(2 * half, true) + [true] == Alternate(2 * half + 2, false)
  {
    var len := 2 * half;
    var r := [false] + Alternate(len, true) + [true];
    forall i | 0 <= i < len + 2
      ensures r[i] == Alternate(len + 2, false)[i]
    {
      if 0 < i <= len {
        assert r[i] == Alternate(len, true)[i - 1];
      }
    }
  }

  lemma SweepCyclesCounts(n: nat)
    ensures var m := multiset(SweepCycles(n));
      m[Write] == 2 * n && m[Boundary] == 2 * n && m[Bridge] == n && m[ReverseBridge] == n && m[InitialWrite] == 0
  {
    SweepCycleCounts();
    RepeatCount(SweepCycle, n, Write);
    RepeatCount(SweepCycle, n, Boundary);
    RepeatCount(SweepCycle, n, Bridge);
    RepeatCount(SweepCycle, n, ReverseBridge);
    RepeatCount(SweepCycle, n, InitialWrite);
  }

  /** `n` loop passes alternate shifted and unshifted octahedra, `2*n` of them. */
  lemma {:induction false} SweepCyclesGrids(n: nat)
    ensures Grids(SweepCycles(n)) == Alternate(2 * n, true)
  {
    if n > 0 {
      SweepCyclesGrids(n - 1);
      GridsAppend(SweepCycles(n - 1), SweepCycle);
      SweepCycleGrids();
      AlternateSnoc(2 * (n - 1), true);
    }
  }

  /**
   * `sweep` makes `2*(MGST-1) + 1` swept writes after the time-0 write and
   * one bridge per loop pass plus the first.
   */
  lemma SweepScheduleCounts(mgst: int)
    requires mgst >= 1
    ensures multiset(SweepTrace(mgst))[InitialWrite] == 1
    ensures multiset(SweepTrace(mgst))[Write] == 2 * (mgst - 1) + 1
    ensures multiset(SweepTrace(mgst))[Bridge] == mgst && multiset(SweepTrace(mgst))[ReverseBridge] == mgst - 1
  {
    var n := mgst - 1;
    SweepCyclesCounts(n);
    var c := SweepCycles(n);
    assert SweepTrace(mgst) == SweepHead + c + SweepTail;
    assert multiset(SweepHead + c + SweepTail) == multiset(SweepHead) + multiset(c) + multiset(SweepTail);
    SweepEndsCounts();
  }

  /** The events before and after `sweep`'s loop, counted. */
  lemma SweepEndsCounts()
    ensures var m := multiset(SweepHead);
      m[InitialWrite] == 1 && m[Write] == 0 && m[Bridge] == 1 && m[ReverseBridge] == 0
    ensures var m := multiset(SweepTail);
      m[InitialWrite] == 0 && m[Write] == 1 && m[Bridge] == 0 && m[ReverseBridge] == 0
  {
    assert multiset(SweepHead) == multiset{InitialWrite, Up(false), Bridge};
    assert multiset(SweepTail) == multiset{Down(true), Shift, Write};
  }

  /**
   * The pyramids and octahedra of `sweep` alternate between the unshifted
   * and the shifted grid, starting with the unshifted up pyramid and ending
   * with the shifted down pyramid.
   */
  lemma SweepScheduleGrids(mgst: int)
    requires mgst >= 1
    ensures Grids(SweepTrace(mgst)) == Alternate(2 * mgst, false)
  {
    var n := mgst - 1;
    assert SweepTrace(mgst) == SweepHead + SweepCycles(n) + SweepTail;
    SweepCyclesGrids(n);
    SweepEndsGrids();
    GridsAppend(SweepHead + SweepCycles(n), SweepTail);
    GridsAppend(SweepHead, SweepCycles(n));
    AlternateWrap(n);
    assert 2 * n + 2 == 2 * mgst;
  }

  /** The up pyramid before the loop is unshifted and the down pyramid after it shifted. */
  lemma SweepEndsGrids()
    ensures Grids(SweepHead) == [false] && Grids(SweepTail) == [true]
  {
    GridsAppend([InitialWrite, Up(false)], [Bridge]);
    GridsAppend([InitialWrite], [Up(false)]);
    GridsAppend([Down(true)], [Shift, Write]);
    assert SweepHead == [InitialWrite] + [Up(false)] + [Bridge];
    assert SweepTail == [Down(true)] + [Shift, Write];
    GridsNone([InitialWrite]);
    GridsNone([Bridge]);
    GridsNone([Shift, Write]);
    assert Grids([Up(false)]) == [false] by {
      assert [Up(false)][..0] == [];
    }
    assert Grids([Down(true)]) == [true] by {
      assert [Down(true)][..0] == [];
    }
  }

  /** One pass of `dse`'s `for i in range(MGST)` loop. */
  const DseCycle: seq<Event> := [SendForward, UpPrism, SendBackward, Write, UpPrism, Write]

  /** `n` passes of `dse`'s loop. */
  function DseCycles(n: nat): seq<Event>
  {
    Repeat(DseCycle, n)
  }

  /** The schedule of `dse`: the first prism, `MGST` loop passes, and a last forward, prism, backward and write. */
  function DseTrace(mgst: int): seq<Event>
  {
    [FirstPrism] + DseCycles(if mgst > 0 then mgst else 0) + [SendForward, UpPrism, SendBackward, Write]
  }

  /** The phase calls of `dse`, recorded as they are made. */
  method DseSchedule(mgst: int) returns (trace: seq<Event>)
    ensures trace == DseTrace(mgst)
  {
    trace := [FirstPrism];
    var n := if mgst > 0 then mgst else 0;
    for i := 0 to n
      invariant trace == [FirstPrism] + DseCycles(i)
    {
      trace := trace + [SendForward, UpPrism, SendBackward];
      trace := trace + [Write];
      trace := trace + [UpPrism, Write];
    }
    trace := trace + [SendForward, UpPrism, SendBackward, Write];
  }

  /** The events of one loop pass, counted. */
  lemma DseCycleCounts()
    ensures var m := multiset(DseCycle);
      m[UpPrism] == 2 && m[Write] == 2 && m[SendForward] == 1 && m[SendBackward] == 1 && m[FirstPrism] == 0
  {
    var m := multiset(DseCycle);
    assert m == multiset{SendForward, UpPrism, SendBackward, Write, UpPrism, Write};
  }

  lemma DseCyclesCounts(n: nat)
    ensures var m := multiset(DseCycles(n));
      m[UpPrism] == 2 * n && m[Write] == 2 * n && m[SendForward] == n && m[SendBackward] == n && m[FirstPrism] == 0
  {
    DseCycleCounts();
    RepeatCount(DseCycle, n, UpPrism);
    RepeatCount(DseCycle, n, Write);
    RepeatCount(DseCycle, n, SendForward);
    RepeatCount(DseCycle, n, SendBackward);
    RepeatCount(DseCycle, n, FirstPrism);
  }

  /**
   * `dse` runs `2*MGST + 1` up-prisms and writes after its first prism, and
   * sends forward and backward once per pass and once more at the end.
   */
  lemma DseScheduleShape(mgst: nat)
    ensures multiset(DseTrace(mgst))[FirstPrism] == 1
    ensures multiset(DseTrace(mgst))[UpPrism] == 2 * mgst + 1 && multiset(DseTrace(mgst))[Write] == 2 * mgst + 1
    ensures multiset(DseTrace(mgst))[SendForward] == mgst + 1 && multiset(DseTrace(mgst))[SendBackward] == mgst + 1
  {
    DseCyclesCounts(mgst);
  }
}
