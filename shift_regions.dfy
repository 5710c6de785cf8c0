/**
 * Regions moved by half a block (`SPLITX`, `SPLITY`) for the shifted swept
 * steps. A shifted slice that runs past the end of the periodic extent is cut
 * in two, the overflow re-entering at the low end. Also the older per-rank
 * row split of `region_split`.
 */
module ShiftRegions {
  import opened PyCore

  /**
   * `s` moved by `d` inside the periodic extent [lo, hi): one piece when it
   * fits, otherwise the part up to `hi` and the overflow starting again at `lo`.
   */
  function WrapSplit(s: Slice, d: int, lo: int, hi: int): (r: seq<Slice>)
    ensures 1 <= |r| <= 2
    // no cell is gained or lost ...
    ensures r[0].Width() + (if |r| == 2 then r[1].Width() else 0) == s.Width()
    ensures |r| == 2 <==> s.stop + d > hi
    ensures |r| == 2 ==> r[0].stop == hi && r[1].start == lo
    // ... every moved cell lands in a piece, wrapped when past hi ...
    ensures forall i :: s.Contains(i) && i + d < hi ==> r[0].Contains(i + d)
    ensures forall i :: s.Contains(i) && i + d >= hi ==> |r| == 2 && r[1].Contains(i + d - (hi - lo))
    // ... and every cell of a piece comes from one
    ensures forall j :: r[0].Contains(j) ==> s.Contains(j - d)
    ensures |r| == 2 && s.start + d <= hi ==> forall j :: r[1].Contains(j) ==> s.Contains(j + (hi - lo) - d)
  {
    if s.stop + d > hi then [Slice(s.start + d, hi), Slice(lo, s.stop + d + lo - hi)]
    else [s.Shift(d)]
  }

  /** A region with its x or y slice replaced. */
  function WithX(r: Region, x: Slice): Region { Region(r.t, r.v, x, r.y) }
  function WithY(r: Region, y: Slice): Region { Region(r.t, r.v, r.x, y) }

  /**
   * `create_shift_regions(wregion, SPLITX, SPLITY, shared_shape, mod)`: the
   * region moved by (SPLITX, SPLITY) in the periodic extent [mod, shape - mod)
   * on x and y. `shape` holds `shared_shape[2]` and `shared_shape[3]`.
   */
  function CreateShiftRegions(w: Region, splitX: int, splitY: int, shapeX: int, shapeY: int, mod: int): (r: seq<Region>)
    ensures |r| == 1 || |r| == 2
    ensures forall k :: 0 <= k < |r| ==> r[k].t == w.t && r[k].v == w.v
    // no overflow: one region moved by (SPLITX, SPLITY)
    ensures w.x.stop + splitX <= shapeX - mod && w.y.stop + splitY <= shapeY - mod ==>
      r == [Region(w.t, w.v, w.x.Shift(splitX), w.y.Shift(splitY))]
    // x overflow only: the x slice wraps into [mod, shape - mod), y is moved
    ensures w.x.stop + splitX > shapeX - mod && w.y.stop + splitY <= shapeY - mod ==>
      |r| == 2 && [r[0].x, r[1].x] == WrapSplit(w.x, splitX, mod, shapeX - mod)
      && r[0].y == r[1].y == w.y.Shift(splitY)
    // y overflow only: x is moved, but y starts SPLITX (not SPLITY) further on
    ensures w.x.stop + splitX <= shapeX - mod && w.y.stop + splitY > shapeY - mod ==>
      |r| == 2 && r[0].x == r[1].x == w.x.Shift(splitX)
      && r[0].y == Slice(w.y.start + splitX, shapeY - mod) && r[1].y == Slice(mod, w.y.stop + splitY + mod - (shapeY - mod))
    // both overflow: only the two diagonal pieces
    ensures w.x.stop + splitX > shapeX - mod && w.y.stop + splitY > shapeY - mod ==>
      |r| == 2
      && r[0].x == Slice(w.x.start + splitX, shapeX - mod) && r[0].y == Slice(w.y.start + splitX, shapeY - mod)
      && r[1].x == Slice(mod, w.x.stop + splitX + mod - (shapeX - mod)) && r[1].y == Slice(mod, w.y.stop + splitY + mod - (shapeY - mod))
  {
    var asx := shapeX - mod;
    var asy := shapeY - mod;
    var wsx := w.x.stop + splitX;
    var wsy := w.y.stop + splitY;
    var c1 := wsx > asx;
    var c2 := wsy > asy;
    if c1 && c2 then
      [Region(w.t, w.v, Slice(w.x.start + splitX, asx), Slice(w.y.start + splitX, asy)),
       Region(w.t, w.v, Slice(mod, wsx + mod - asx), Slice(mod, wsy + mod - asy))]
    else if c1 then
      [Region(w.t, w.v, Slice(w.x.start + splitX, asx), Slice(w.y.start + splitY, wsy)),
       Region(w.t, w.v, Slice(mod, wsx + mod - asx), Slice(w.y.start + splitY, wsy))]
    else if c2 then
      [Region(w.t, w.v, Slice(w.x.start + splitX, wsx), Slice(w.y.start + splitX, asy)),
       Region(w.t, w.v, Slice(w.x.start + splitX, wsx), Slice(mod, wsy + mod - asy))]
    else
      [Region(w.t, w.v, Slice(w.x.start + splitX, w.x.stop + splitX), Slice(w.y.start + splitY, w.y.stop + splitY))]
  }

  /**
   * On an x overflow the two pieces keep the region's x width; on a y
   * overflow the y widths add up to the original only when SPLITX == SPLITY.
   */
  lemma ShiftRegionsWidths(w: Region, splitX: int, splitY: int, shapeX: int, shapeY: int, mod: int)
    ensures var r := CreateShiftRegions(w, splitX, splitY, shapeX, shapeY, mod);
      w.x.stop + splitX > shapeX - mod && w.y.stop + splitY <= shapeY - mod ==>
        r[0].x.Width() + r[1].x.Width() == w.x.Width()
    ensures var r := CreateShiftRegions(w, splitX, splitY, shapeX, shapeY, mod);
      w.x.stop + splitX <= shapeX - mod && w.y.stop + splitY > shapeY - mod ==>
        (r[0].y.Width() + r[1].y.Width() == w.y.Width() <==> splitX == splitY)
  {
  }

  /**
   * When both axes overflow, the off-diagonal corner is lost: the cell at the
   * last x before the wrap and the first y after it is a shifted cell (its x
   * in the first piece's x range, its y in the second piece's y range) but
   * neither returned region holds it.
   */
  lemma ShiftRegionsLoseCorner(w: Region, splitX: int, splitY: int, shapeX: int, shapeY: int, mod: int)
    requires w.x.stop + splitX > shapeX - mod && w.y.stop + splitY > shapeY - mod
    requires w.x.start + splitX < shapeX - mod              // the first piece is not empty along x
    requires w.x.stop + splitX + mod - (shapeX - mod) < shapeX - mod   // the pieces do not meet along x
    requires mod < w.y.start + splitX                        // the first piece starts past mod along y
    ensures var r := CreateShiftRegions(w, splitX, splitY, shapeX, shapeY, mod);
      var cx, cy := shapeX - mod - 1, mod;
      && r[0].x.Contains(cx) && r[1].y.Contains(cy)
      && !(r[0].x.Contains(cx) && r[0].y.Contains(cy))
      && !(r[1].x.Contains(cx) && r[1].y.Contains(cy))
  {
  }

  /** The two sets of bridge regions: x bridges and y bridges. */
  datatype Bridges = Bridges(x: seq<Region>, y: seq<Region>)

  /**
   * `create_bridge_regions(shared_shape, region, SPLITX, SPLITY)`: the region
   * moved along x by SPLITX, and separately along y (also by SPLITX), each
   * wrapped into [0, shape) when it runs past the end.
   */
  function CreateBridgeRegions(shapeX: int, shapeY: int, region: Region, splitX: int, splitY: int): (r: Bridges)
    ensures |r.x| == |WrapSplit(region.x, splitX, 0, shapeX)| && |r.y| == |WrapSplit(region.y, splitX, 0, shapeY)|
    // the x bridges keep t, v and y and wrap x
    ensures forall k :: 0 <= k < |r.x| ==> r.x[k] == WithX(region, WrapSplit(region.x, splitX, 0, shapeX)[k])
    // the y bridges keep t, v and x and wrap y moved by SPLITX
    ensures forall k :: 0 <= k < |r.y| ==> r.y[k] == WithY(region, WrapSplit(region.y, splitX, 0, shapeY)[k])
  {
    var xb := Region(region.t, region.v, region.x.Shift(splitX), region.y);
    var xs := if xb.x.stop > shapeX then
        [WithX(xb, Slice(xb.x.start, shapeX)), WithX(xb, Slice(0, xb.x.stop - shapeX))]
      else [xb];
    var yb := Region(region.t, region.v, region.x, region.y.Shift(splitX));
    var ys := if yb.y.stop > shapeY then
        [WithY(yb, Slice(yb.y.start, shapeY)), WithY(yb, Slice(0, yb.y.stop - shapeY))]
      else [yb];
    Bridges(xs, ys)
  }

  /**
   * The x bridges hold every cell of the region moved by SPLITX along x, wrapped
   * periodically into [0, shapeX), and nothing else when the move starts inside.
   */
  lemma BridgeRegionsWrapX(shapeX: int, shapeY: int, region: Region, splitX: int, splitY: int, i: int)
    requires shapeX > 0 && region.x.Contains(i)
    ensures var b := CreateBridgeRegions(shapeX, shapeY, region, splitX, splitY);
      exists k :: 0 <= k < |b.x| && b.x[k].x.Contains(if i + splitX < shapeX then i + splitX else i + splitX - shapeX)
  {
    var w := WrapSplit(region.x, splitX, 0, shapeX);
    var b := CreateBridgeRegions(shapeX, shapeY, region, splitX, splitY);
    if i + splitX < shapeX {
      assert b.x[0].x == w[0] && w[0].Contains(i + splitX);
    } else {
      assert b.x[1].x == w[1] && w[1].Contains(i + splitX - shapeX);
    }
  }

  /**
   * The y bridges hold every cell of the region moved along y by SPLITX (not
   * SPLITY), wrapped periodically into [0, shapeY).
   */
  lemma BridgeRegionsWrapY(shapeX: int, shapeY: int, region: Region, splitX: int, splitY: int, j: int)
    requires shapeY > 0 && region.y.Contains(j)
    ensures var b := CreateBridgeRegions(shapeX, shapeY, region, splitX, splitY);
      exists k :: 0 <= k < |b.y| && b.y[k].y.Contains(if j + splitX < shapeY then j + splitX else j + splitX - shapeY)
  {
    var w := WrapSplit(region.y, splitX, 0, shapeY);
    var b := CreateBridgeRegions(shapeX, shapeY, region, splitX, splitY);
    if j + splitX < shapeY {
      assert b.y[0].y == w[0] && w[0].Contains(j + splitX);
    } else {
      assert b.y[1].y == w[1] && w[1].Contains(j + splitX - shapeY);
    }
  }

  /**
   * The y rows handed out as written: consecutive chunks of `per` rows from 0
   * for as long as a whole chunk fits (`range(per, total + 1, per)`).
   */
  function SplitRows(total: nat, per: nat): (rows: seq<Slice>)
    requires per > 0
    ensures |rows| == total / per
    ensures forall m :: 0 <= m < |rows| ==> rows[m] == Slice(m * per, (m + 1) * per)
  {
    seq(total / per, m => Slice(m * per, (m + 1) * per))
  }

  /** The chunks lie end to end from 0, each `per` rows wide, and end within `total`. */
  lemma SplitRowsContiguous(total: nat, per: nat)
    requires per > 0 && total >= per
    ensures Tiles(SplitRows(total, per), 0, (total / per) * per)
    ensures (total / per) * per <= total
  {
    var rows := SplitRows(total, per);
    assert (total / per) * per + total % per == total;
    forall m | 0 <= m < |rows| - 1
      ensures rows[m].stop == rows[m + 1].start
    {
    }
  }

  /**
   * The chunking drops the rows past the last whole chunk: with 5 block rows
   * and ceil(5/2) == 3 rows per CPU there is one chunk [0, 3), and rows 3 and 4
   * go to no rank.
   */
  lemma SplitRowsDropsRemainder()
    ensures SplitRows(5, 3) == [Slice(0, 3)]
    ensures forall m :: 0 <= m < |SplitRows(5, 3)| ==> !SplitRows(5, 3)[m].Contains(3)
  {
    assert 5 / 3 == 1;
  }

  /** The chunking with the final partial chunk kept, so that every row goes to a rank. */
  function SplitRowsCovering(total: nat, per: nat): (rows: seq<Slice>)
    requires per > 0
    ensures |rows| == total / per + (if total % per != 0 then 1 else 0)
    ensures forall m :: 0 <= m < total / per ==> rows[m] == Slice(m * per, (m + 1) * per)
    ensures total > 0 ==> Tiles(rows, 0, total)
  {
    var whole := SplitRows(total, per);
    assert (total / per) * per + total % per == total;
    assert total > 0 && total % per == 0 ==> total / per > 0 && whole[|whole| - 1].stop == total by {
      if total > 0 && total % per == 0 {
        assert (total / per) * per == total;
      }
    }
    if total % per != 0 then whole + [Slice((total / per) * per, total)] else whole
  }

  /** With `ceil(total/ranks)` rows per rank, the covering chunks need no more than `ranks` ranks. */
  lemma SplitRowsCoveringFits(total: nat, ranks: nat)
    requires ranks > 0 && total > 0
    ensures Ceil(total as real / ranks as real) > 0
    ensures |SplitRowsCovering(total, Ceil(total as real / ranks as real))| <= ranks
  {
    var q := total as real / ranks as real;
    assert q * ranks as real == total as real;
    var per := Ceil(q);
    RealMulSign(q, ranks as real);
    assert per > 0;
    // per * ranks >= total
    RealMulSign(per as real - q, ranks as real);
    assert (per as real - q) * ranks as real == (per * ranks) as real - total as real;
    assert ranks * per >= total;
    var k := total / per;
    assert k * per + total % per == total;
    if total % per != 0 {
      assert k * per < ranks * per;
      MulLessCancel(k, ranks, per);
    } else {
      assert k * per <= ranks * per;
      if k > ranks {
        MulLessCancel(ranks, k, per);
      }
    }
  }

  /** The regions of one chunk of rows: unshifted, and moved by (SPLITX, SPLITY). */
  function ChunkRegion(moss: nat, v: Slice, x: Slice, rows: Slice, bs1: nat): Region
  {
    Region(Slice(0, moss), v, x, Slice(rows.start * bs1, rows.stop * bs1))
  }

  function ShiftedChunkRegion(moss: nat, v: Slice, x: Slice, rows: Slice, bs1: nat, splitX: int, splitY: int): Region
  {
    Region(Slice(0, moss), v, x.Shift(splitX), Slice(rows.start * bs1 + splitY, rows.stop * bs1 + splitY))
  }

  /**
   * The master's loop of `region_split`: for `i` in `range(per, total+1, per)`
   * it appends the region of rows [prev, i) and its shifted copy.
   */
  method ChunkRegions(moss: nat, v: Slice, x: Slice, per: nat, total: nat, bs1: nat, splitX: int, splitY: int)
    returns (region1: seq<Option<Region>>, region2: seq<Option<Region>>)
    requires per > 0
    ensures region1 == seq(total / per, m requires 0 <= m < total / per => Some(ChunkRegion(moss, v, x, SplitRows(total, per)[m], bs1)))
    ensures region2 == seq(total / per, m requires 0 <= m < total / per => Some(ShiftedChunkRegion(moss, v, x, SplitRows(total, per)[m], bs1, splitX, splitY)))
  {
    var prev := 0;
    region1 := [];
    region2 := [];
    var i := per;
    while i <= total
      invariant i == (|region1| + 1) * per && prev == |region1| * per && |region2| == |region1|
      invariant |region1| * per <= total
      invariant forall m :: 0 <= m < |region1| ==>
        region1[m] == Some(ChunkRegion(moss, v, x, Slice(m * per, (m + 1) * per), bs1))
        && region2[m] == Some(ShiftedChunkRegion(moss, v, x, Slice(m * per, (m + 1) * per), bs1, splitX, splitY))
      decreases total - i
    {
      region1 := region1 + [Some(Region(Slice(0, moss), v, x, Slice(prev * bs1, i * bs1)))];
      region2 := region2 + [Some(Region(Slice(0, moss), v, x.Shift(splitX), Slice(prev * bs1 + splitY, i * bs1 + splitY)))];
      prev := i;
      i := i + per;
    }
    FloorDivUnique(|region1|, total, per);
  }

  /** The two region lists the master scatters. */
  datatype RegionLists = RegionLists(region1: seq<Option<Region>>, region2: seq<Option<Region>>)

  /**
   * `region_split` on the GPU master (`gpu_rank` true): the y blocks of
   * `gpu_slices` are cut into consecutive chunks of `floor(blocks/total_gpus)`
   * rows; the time and variable slices are `(0, MOSS)` and `gpu_slices[0]`.
   */
  method RegionSplitGpu(gpuSlices: seq<Slice>, totalGpus: nat, bs0: nat, bs1: nat, moss: nat) returns (r: Result<RegionLists>)
    requires |gpuSlices| == 3 && gpuSlices[2].Width() >= 0
    ensures bs1 == 0 || totalGpus == 0 ==> r == Err(ZeroDivisionError)
    ensures bs1 > 0 && totalGpus > 0 ==>
      var blocks := gpuSlices[2].Width() / bs1;
      var per := blocks / totalGpus;
      // range(0, ..., 0) raises
      && (per == 0 ==> r == Err(ValueError))
      && (per > 0 ==>
          && r.Ok? && |r.value.region1| == |r.value.region2| == blocks / per
          && (forall m :: 0 <= m < blocks / per ==>
                r.value.region1[m] == Some(ChunkRegion(moss, gpuSlices[0], gpuSlices[1], SplitRows(blocks, per)[m], bs1))
                && r.value.region2[m] == Some(ShiftedChunkRegion(moss, gpuSlices[0], gpuSlices[1], SplitRows(blocks, per)[m], bs1, bs0 / 2, bs1 / 2))))
  {
    var splitX := bs0 / 2;
    var splitY := bs1 / 2;
    if bs1 == 0 {
      return Err(ZeroDivisionError);
    }
    var gpuBlocks := Trunc(gpuSlices[2].Width() as real / bs1 as real);
    TruncOfQuotient(gpuSlices[2].Width(), bs1);
    if totalGpus == 0 {
      return Err(ZeroDivisionError);
    }
    var blocksPerGpu := Trunc(gpuBlocks as real / totalGpus as real);
    TruncOfQuotient(gpuBlocks, totalGpus);
    if blocksPerGpu == 0 {
      return Err(ValueError);
    }
    var region1, region2 := ChunkRegions(moss, gpuSlices[0], gpuSlices[1], blocksPerGpu, gpuBlocks, bs1, splitX, splitY);
    return Ok(RegionLists(region1, region2));
  }

  /**
   * `region_split` on the CPU master (`gpu_rank` false): chunks of
   * `ceil(blocks/total_cpus)` rows of `cpu_slices`, with the variable slice
   * `gpu_slices[0]` (here `v`). An empty CPU variable slice gives empty
   * entries only, and the lists are padded with empty entries to `total_cpus`.
   */
  method RegionSplitCpu(v: Slice, cpuSlices: seq<Slice>, totalCpus: nat, bs0: nat, bs1: nat, moss: nat) returns (r: Result<RegionLists>)
    requires |cpuSlices| == 3 && cpuSlices[2].Width() >= 0
    ensures bs1 == 0 || totalCpus == 0 ==> r == Err(ZeroDivisionError)
    ensures bs1 > 0 && totalCpus > 0 ==>
      var blocks := cpuSlices[2].Width() / bs1;
      var per := Ceil(blocks as real / totalCpus as real);
      // no blocks: ceil(0) rows per CPU, and range(0, ..., 0) raises
      && (blocks == 0 ==> r == Err(ValueError))
      && (blocks > 0 ==>
          && per > 0
          && r.Ok? && |r.value.region1| == |r.value.region2| == (if blocks / per < totalCpus then totalCpus else blocks / per)
          && (forall m :: 0 <= m < |r.value.region1| ==>
                if m < blocks / per && cpuSlices[0].stop > 0 then
                  r.value.region1[m] == Some(ChunkRegion(moss, v, cpuSlices[1], SplitRows(blocks, per)[m], bs1))
                  && r.value.region2[m] == Some(ShiftedChunkRegion(moss, v, cpuSlices[1], SplitRows(blocks, per)[m], bs1, bs0 / 2, bs1 / 2))
                else r.value.region1[m] == None && r.value.region2[m] == None))
  {
    var splitX := bs0 / 2;
    var splitY := bs1 / 2;
    if bs1 == 0 {
      return Err(ZeroDivisionError);
    }
    var cpuBlocks := Trunc(cpuSlices[2].Width() as real / bs1 as real);
    TruncOfQuotient(cpuSlices[2].Width(), bs1);
    if totalCpus == 0 {
      return Err(ZeroDivisionError);
    }
    var blocksPerCpu := Ceil(cpuBlocks as real / totalCpus as real);
    CeilOfQuotient(cpuBlocks, totalCpus);
    if blocksPerCpu == 0 {
      return Err(ValueError);
    }
    var region1, region2;
    if cpuSlices[0].stop > 0 {
      region1, region2 := ChunkRegions(moss, v, cpuSlices[1], blocksPerCpu, cpuBlocks, bs1, splitX, splitY);
    } else {
      region1, region2 := EmptyEntries(cpuBlocks / blocksPerCpu);
    }
    if |region1| < totalCpus {
      var extra1, extra2 := EmptyEntries(totalCpus - |region1|);
      region1, region2 := region1 + extra1, region2 + extra2;
    }
    return Ok(RegionLists(region1, region2));
  }

  /** `k` empty entries in each list (`region1.append(tuple())`, `region2.append(tuple())`). */
  method EmptyEntries(k: nat) returns (region1: seq<Option<Region>>, region2: seq<Option<Region>>)
    ensures |region1| == |region2| == k
    ensures forall m :: 0 <= m < k ==> region1[m] == None && region2[m] == None
  {
    region1, region2 := [], [];
    for i := 0 to k
      invariant |region1| == |region2| == i
      invariant forall m :: 0 <= m < i ==> region1[m] == None && region2[m] == None
    {
      region1, region2 := region1 + [None], region2 + [None];
    }
  }

  /**
   * Each shifted region is its unshifted partner moved by SPLITX along x and
   * SPLITY along y; the unshifted regions' y slices lie end to end from 0.
   */
  lemma ChunkRegionsShifted(moss: nat, v: Slice, x: Slice, rows: seq<Slice>, bs1: nat, splitX: int, splitY: int, m: nat)
    requires m < |rows|
    ensures var a := ChunkRegion(moss, v, x, rows[m], bs1);
      var b := ShiftedChunkRegion(moss, v, x, rows[m], bs1, splitX, splitY);
      b == Region(a.t, a.v, a.x.Shift(splitX), a.y.Shift(splitY))
  {
  }

  lemma ChunkRegionsContiguous(moss: nat, v: Slice, x: Slice, total: nat, per: nat, bs1: nat)
    requires per > 0 && total >= per
    ensures Tiles(seq(total / per, m requires 0 <= m < total / per => ChunkRegion(moss, v, x, SplitRows(total, per)[m], bs1).y),
                  0, (total / per) * per * bs1)
  {
    SplitRowsContiguous(total, per);
    var rows := SplitRows(total, per);
    var ys := seq(total / per, m requires 0 <= m < total / per => ChunkRegion(moss, v, x, rows[m], bs1).y);
    assert ys[|ys| - 1].stop == rows[|rows| - 1].stop * bs1;
  }
}
