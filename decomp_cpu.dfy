/**
 * The CPU branch of `decomposition` in the standard decomposition: copy each
 * halo-padded block out of the local array, apply `CPU_Decomp` to it, write
 * the blocks' interiors back, and store the local array without its halo
 * into the process's region of the shared array.
 */
module DecompCpu {
  import opened PyCore
  import opened Arena
  import opened Blocks
  import Phases
  import opened IndexSets

  /** The `lr.x` by `lr.y` window of one time slice. */
  function WindowSlab(s: Slab, lr: Region, nx: nat, ny: nat): (r: Slab)
    requires Shaped(s, nx, ny)
    requires 0 <= lr.x.start <= lr.x.stop <= nx && 0 <= lr.y.start <= lr.y.stop <= ny
    ensures |r| == |s| && Shaped(r, (lr.x.stop - lr.x.start) as nat, (lr.y.stop - lr.y.start) as nat)
  {
    var w := (lr.x.stop - lr.x.start) as nat;
    var h := (lr.y.stop - lr.y.start) as nat;
    seq(|s|, v requires 0 <= v < |s| =>
      seq(w, x requires 0 <= x < w =>
        seq(h, y requires 0 <= y < h => s[v][lr.x.start + x][lr.y.start + y])))
  }

  /**
   * `arr[lr]` for a region of `create_blocks_list`, which takes every time
   * slice and every variable: the `lr.x` by `lr.y` window of each slice.
   */
  function Window(arr: seq<Slab>, lr: Region, nv: nat, nx: nat, ny: nat): (r: Block)
    requires forall t :: 0 <= t < |arr| ==> Shaped(arr[t], nx, ny) && |arr[t]| == nv
    requires 0 <= lr.x.start <= lr.x.stop <= nx && 0 <= lr.y.start <= lr.y.stop <= ny
    ensures |r| == |arr|
    ensures forall t :: 0 <= t < |r| ==>
      |r[t]| == nv && Shaped(r[t], (lr.x.stop - lr.x.start) as nat, (lr.y.stop - lr.y.start) as nat)
  {
    seq(|arr|, t requires 0 <= t < |arr| => WindowSlab(arr[t], lr, nx, ny))
  }

  /** Two blocks have one numpy shape (compared axis by axis, to the innermost rows). */
  predicate SameShape(p: Block, q: Block)
  {
    && |p| == |q|
    && (forall t :: 0 <= t < |p| ==> |p[t]| == |q[t]|)
    && (forall t, v :: 0 <= t < |p| && 0 <= v < |p[t]| ==> |p[t][v]| == |q[t][v]|)
    && (forall t, v, x :: 0 <= t < |p| && 0 <= v < |p[t]| && 0 <= x < |p[t][v]| ==> |p[t][v][x]| == |q[t][v][x]|)
  }

  /** A stencil that returns a block of the shape it was given. */
  ghost predicate KeepsShape(step: (Block, seq<Cell>, int) -> Block)
  {
    forall b, cells, ts :: SameShape(step(b, cells, ts), b)
  }

  /** The blocks of `decomposition` after `CPU_Decomp`: block `c` is `arr[regions[c]]` with `step` applied once. */
  function DecompBlocks(arr: seq<Slab>, regions: seq<Region>, step: (Block, seq<Cell>, int) -> Block,
                        ops: nat, nv: nat, nx: nat, ny: nat): (r: seq<Block>)
    requires forall t :: 0 <= t < |arr| ==> Shaped(arr[t], nx, ny) && |arr[t]| == nv
    requires forall c :: 0 <= c < |regions| ==> RegionFits(regions[c], ops, nx, ny)
    ensures |r| == |regions|
  {
    seq(|regions|, c requires 0 <= c < |regions| =>
      var lr := regions[c];
      assert RegionFits(lr, ops, nx, ny);
      Phases.CpuDecomp(step, Window(arr, lr, nv, nx, ny), (lr.x.stop - lr.x.start) as nat, (lr.y.stop - lr.y.start) as nat, ops))
  }

  /** A shape-keeping stencil leaves every block fitting its region, at every time slice. */
  lemma DecompBlocksFit(arr: seq<Slab>, regions: seq<Region>, step: (Block, seq<Cell>, int) -> Block,
                        ops: nat, nv: nat, nx: nat, ny: nat, t: nat)
    requires forall t :: 0 <= t < |arr| ==> Shaped(arr[t], nx, ny) && |arr[t]| == nv
    requires forall c :: 0 <= c < |regions| ==> RegionFits(regions[c], ops, nx, ny)
    requires KeepsShape(step) && t < |arr|
    ensures FitsAt(DecompBlocks(arr, regions, step, ops, nv, nx, ny), regions, ops, t, |regions|, nv, nx, ny)
  {
    var blocks := DecompBlocks(arr, regions, step, ops, nv, nx, ny);
    forall c | 0 <= c < |regions|
      ensures t < |blocks[c]| && PieceFits(blocks[c][t], regions[c], ops, nv, nx, ny)
    {
      var lr := regions[c];
      var w := (lr.x.stop - lr.x.start) as nat;
      var h := (lr.y.stop - lr.y.start) as nat;
      var win := Window(arr, lr, nv, nx, ny);
      var cells := DecompCells(w, h, ops);
      assert blocks[c] == step(win, cells, 0);
      assert SameShape(step(win, cells, 0), win);
    }
  }

  /**
   * The CPU branch of `decomposition`: the loop that copies `arr[lr]` out
   * for each local region, `CPU_Decomp` mapped over the copies, and
   * `rebuild_blocks` writing their interiors back into `arr`. The result is
   * what `rebuild_blocks` returns (the array, or the one block).
   */
  method DecompositionCpu(a: array<Slab>, regions: seq<Region>, step: (Block, seq<Cell>, int) -> Block,
                          ops: nat, nv: nat, nx: nat, ny: nat) returns (r: Result<Block>)
    requires forall t :: 0 <= t < a.Length ==> Shaped(a[t], nx, ny) && |a[t]| == nv
    requires forall c :: 0 <= c < |regions| ==> RegionFits(regions[c], ops, nx, ny)
    requires |regions| > 1 ==> ops > 0
    requires KeepsShape(step)
    modifies a
    ensures var blocks := DecompBlocks(old(a[..]), regions, step, ops, nv, nx, ny);
      && (|regions| == 0 ==> r == Err(IndexError) && a[..] == old(a[..]))
      && (|regions| == 1 ==> r == Ok(blocks[0]) && a[..] == old(a[..]))
      && (|regions| > 1 ==> r == Ok(a[..]) && forall t :: 0 <= t < a.Length ==>
            a[t] == RebuiltSlab(old(a[t]), nx, ny, blocks, t, regions, ops, |regions|))
  {
    var blocks: seq<Block> := [];
    for c := 0 to |regions|
      invariant |blocks| == c
      invariant forall i :: 0 <= i < c ==> blocks[i] == Window(a[..], regions[i], nv, nx, ny)
    {
      blocks := blocks + [Window(a[..], regions[c], nv, nx, ny)];
    }
    var done := seq(|blocks|, c requires 0 <= c < |blocks| =>
      var lr := regions[c];
      Phases.CpuDecomp(step, blocks[c], (lr.x.stop - lr.x.start) as nat, (lr.y.stop - lr.y.start) as nat, ops));
    assert done == DecompBlocks(a[..], regions, step, ops, nv, nx, ny);
    forall t | 0 <= t < a.Length
      ensures FitsAt(done, regions, ops, t, |regions|, nv, nx, ny)
    {
      DecompBlocksFit(a[..], regions, step, ops, nv, nx, ny, t);
    }
    r := RebuildBlocksInPlace(a, done, regions, ops, nv, nx, ny);
  }

  /** The extent `arr[:, :, ops:-ops]` keeps on an axis of `n` cells (`[0:-0]` is empty). */
  function Inner(n: nat, ops: nat): nat
    requires 2 * ops <= n
  {
    if ops == 0 then 0 else n - 2 * ops
  }

  /** `Inner` is the length numpy gives the slice `[ops:-ops]`. */
  lemma InnerIsSlice(s: seq<real>, ops: nat)
    requires 2 * ops <= |s|
    ensures |PySlice(s, ops, -(ops as int))| == Inner(|s|, ops)
  {
  }

  /** The box of `shared_arr[region]` moved onto the source `arr[:, :, ops:-ops, ops:-ops]`. */
  function SourceBox(region: Region, ops: nat): Box
  {
    RegionBox(region).Moved(-region.v.start, ops - region.x.start, ops - region.y.start)
  }

  /**
   * `shared_arr[region] = arr[:, :, ops:-ops, ops:-ops]`, the last step of
   * `decomposition`: time slice `region.t.start + t` of the shared array
   * takes time slice `t` of `arr` without its halo in the region's window.
   * numpy demands that the two sides have one shape.
   */
  method SharedWrite(shared: array<Slab>, region: Region, arr: seq<Slab>, ops: nat,
                     snv: nat, snx: nat, sny: nat, nx: nat, ny: nat)
    requires forall t :: 0 <= t < shared.Length ==> Shaped(shared[t], snx, sny) && |shared[t]| == snv
    requires 0 <= region.t.start <= region.t.stop <= shared.Length && RegionBox(region).Fits(snv, snx, sny)
    requires 2 * ops <= nx && 2 * ops <= ny
    requires region.t.Width() == |arr| && region.x.Width() == Inner(nx, ops) && region.y.Width() == Inner(ny, ops)
    requires forall t :: 0 <= t < |arr| ==> Shaped(arr[t], nx, ny) && |arr[t]| == region.v.Width()
    modifies shared
    ensures forall t :: 0 <= t < shared.Length && region.t.Contains(t) ==>
      shared[t] == Paste(old(shared[t]), arr[t - region.t.start], snx, sny, nx, ny, RegionBox(region),
                         -region.v.start, ops - region.x.start, ops - region.y.start)
    ensures forall t :: 0 <= t < shared.Length && !region.t.Contains(t) ==> shared[t] == old(shared[t])
  {
    var b := RegionBox(region);
    assert b.Moved(-region.v.start, ops - region.x.start, ops - region.y.start)
        == Box(Slice(0, region.v.Width()), Slice(ops, ops + region.x.Width()), Slice(ops, ops + region.y.Width()));
    forall t | region.t.start <= t < region.t.stop {
      shared[t] := Paste(shared[t], arr[t - region.t.start], snx, sny, nx, ny, b,
                         -region.v.start, ops - region.x.start, ops - region.y.start);
    }
  }

  /**
   * After the shared write, the region's window holds `arr` without its
   * `ops` halo, cell for cell: the window is moved onto exactly
   * `[ops, n - ops)` of each axis of `arr`, and every cell outside the window
   * keeps its value.
   */
  lemma SharedReceivesInterior(s: Slab, src: Slab, region: Region, ops: nat, snx: nat, sny: nat, nx: nat, ny: nat)
    requires Shaped(s, snx, sny) && RegionBox(region).Fits(|s|, snx, sny)
    requires 2 * ops <= nx && 2 * ops <= ny
    requires region.x.Width() == Inner(nx, ops) && region.y.Width() == Inner(ny, ops)
    requires Shaped(src, nx, ny) && |src| == region.v.Width()
    ensures SourceBox(region, ops) == Box(Slice(0, |src|), Slice(ops, ops + Inner(nx, ops)), Slice(ops, ops + Inner(ny, ops)))
    ensures SourceBox(region, ops).Fits(|src|, nx, ny)
    ensures var r := Paste(s, src, snx, sny, nx, ny, RegionBox(region), -region.v.start, ops - region.x.start, ops - region.y.start);
      && (forall v, x, y :: RegionBox(region).Holds(v, x, y) ==>
            r[v][x][y] == src[v - region.v.start][x - region.x.start + ops][y - region.y.start + ops])
      && (forall v, x, y :: 0 <= v < |s| && 0 <= x < snx && 0 <= y < sny && !RegionBox(region).Holds(v, x, y) ==>
            r[v][x][y] == s[v][x][y])
  {
  }
}
