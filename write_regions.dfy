/**
 * The regions of the shared array a rank writes, reads and outputs.
 *
 * Within an architecture, the block rows along y are dealt out to the ranks so
 * that the counts differ by at most one; a rank's write region covers its block
 * rows (offset by the `ops` halo) over the x range of its architecture and all
 * time slices. The read region adds the halo back; the output region removes
 * the offset again.
 */
module WriteRegions {
  import opened PyCore

  /**
   * How far rank `i`'s block count is from `bpr`: with a surplus of `rem`
   * blocks the first `rem` ranks take one more, with a deficit the last `-rem`
   * ranks take one fewer.
   */
  function Adjust(rem: int, n: nat, i: int): int
  {
    if rem > 0 && i < rem then 1
    else if rem < 0 && i >= n + rem then -1
    else 0
  }

  /** `round(y / n)` misses `y` by at most half of `n` blocks in total. */
  lemma RoundedShareError(y: int, n: nat)
    requires n > 0
    ensures var bpr := RoundHalfEven(y as real / n as real);
      -(n as int) <= 2 * (y - bpr * n) <= n
  {
    var bpr := RoundHalfEven(y as real / n as real);
    var q := y as real / n as real;
    assert q * n as real == y as real;
    var lo := q - bpr as real + 0.5;
    var hi := 0.5 - (q - bpr as real);
    RealMulSign(lo, n as real);
    RealMulSign(hi, n as real);
    assert lo * n as real == y as real - (bpr * n) as real + 0.5 * n as real;
    assert hi * n as real == 0.5 * n as real - y as real + (bpr * n) as real;
  }

  /** Rank `i`'s interval once the surplus or deficit `rem` has been spread. */
  function SpreadBlock(bpr: int, rem: int, n: nat, i: int): Slice
  {
    if rem > 0 then
      (if i < rem then Slice((bpr + 1) * i, (bpr + 1) * (i + 1)) else Slice(bpr * i + rem, bpr * (i + 1) + rem))
    else if rem < 0 then
      (if i < n + rem then Slice(bpr * i, bpr * (i + 1))
       else Slice(bpr * i - (i - (n + rem)), bpr * (i + 1) - (i - (n + rem)) - 1))
    else Slice(bpr * i, bpr * (i + 1))
  }

  /** The spread intervals tile [0, bpr*n + rem) with the adjusted widths. */
  lemma SpreadTiles(bpr: int, rem: int, n: nat)
    requires n > 0 && -(n as int) <= rem <= n
    ensures Tiles(seq(n, i => SpreadBlock(bpr, rem, n, i)), 0, bpr * n + rem)
    ensures forall i :: 0 <= i < n ==> SpreadBlock(bpr, rem, n, i).Width() == bpr + Adjust(rem, n, i)
  {
    var s := seq(n, i => SpreadBlock(bpr, rem, n, i));
    forall i | 0 <= i < n - 1
      ensures s[i].stop == s[i + 1].start
    {
      if rem > 0 && i + 1 == rem {
        assert (bpr + 1) * (i + 1) == bpr * (i + 1) + rem;
      } else if rem < 0 && i + 1 == n + rem {
        assert bpr * (i + 1) == bpr * (i + 1) - (i + 1 - (n + rem));
      }
    }
    assert s[n - 1].stop == bpr * n + rem by {
      if rem > 0 && n - 1 < rem {
        assert rem == n;
        assert (bpr + 1) * n == bpr * n + n;
      }
    }
  }

  /** The master's first loops: one more block each for the first `rem` ranks, the rest shift up. */
  method SpreadSurplus(rankBlocks: array<Slice>, bpr: int, rem: int)
    requires 0 < rem <= rankBlocks.Length
    requires forall k :: 0 <= k < rankBlocks.Length ==> rankBlocks[k] == Slice(bpr * k, bpr * (k + 1))
    modifies rankBlocks
    ensures forall k :: 0 <= k < rankBlocks.Length ==> rankBlocks[k] == SpreadBlock(bpr, rem, rankBlocks.Length, k)
  {
    var n := rankBlocks.Length;
    var ct := 0;
    for i := 0 to rem
      invariant ct == i
      invariant forall k :: 0 <= k < n ==>
        rankBlocks[k] == if k < i then SpreadBlock(bpr, rem, n, k) else Slice(bpr * k, bpr * (k + 1))
    {
      assert bpr * i + ct == (bpr + 1) * i && bpr * (i + 1) + 1 + ct == (bpr + 1) * (i + 1);
      rankBlocks[i] := Slice(rankBlocks[i].start + ct, rankBlocks[i].stop + 1 + ct);
      ct := ct + 1;
    }
    for j := rem to n
      invariant forall k :: 0 <= k < n ==>
        rankBlocks[k] == if k < j then SpreadBlock(bpr, rem, n, k) else Slice(bpr * k, bpr * (k + 1))
    {
      rankBlocks[j] := Slice(rankBlocks[j].start + ct, rankBlocks[j].stop + ct);
    }
  }

  /**
   * The master's loop for a deficit: over the negative indices `rem, ..., -1`
   * (the last `-rem` ranks) each rank gives up one block and moves down by the
   * blocks given up before it.
   */
  method SpreadDeficit(rankBlocks: array<Slice>, bpr: int, rem: int)
    requires -rankBlocks.Length <= rem < 0
    requires forall k :: 0 <= k < rankBlocks.Length ==> rankBlocks[k] == Slice(bpr * k, bpr * (k + 1))
    modifies rankBlocks
    ensures forall k :: 0 <= k < rankBlocks.Length ==> rankBlocks[k] == SpreadBlock(bpr, rem, rankBlocks.Length, k)
  {
    var n := rankBlocks.Length;
    var ct := 0;
    for i := rem to 0
      invariant ct == rem - i
      invariant forall k :: 0 <= k < n ==>
        rankBlocks[k] == if n + rem <= k < n + i then SpreadBlock(bpr, rem, n, k) else Slice(bpr * k, bpr * (k + 1))
    {
      var k := PyIndex(i, n);
      rankBlocks[k] := Slice(rankBlocks[k].start + ct, rankBlocks[k].stop - 1 + ct);
      ct := ct - 1;
    }
  }

  /**
   * The block intervals the master hands to the `totalRanks` ranks of an
   * architecture with `yBlocks` block rows: every rank first asks for
   * `round(yBlocks/totalRanks)` rows, and the master spreads the surplus or
   * deficit in place over the gathered list.
   */
  method RankBlocks(yBlocks: nat, totalRanks: nat) returns (r: Result<seq<Slice>>)
    ensures r.Err? <==> totalRanks == 0
    ensures r.Ok? ==>
      var bpr := RoundHalfEven(yBlocks as real / totalRanks as real);
      var rem := yBlocks - bpr * totalRanks;
      // one interval per rank, end to end over [0, yBlocks) ...
      && |r.value| == totalRanks && Tiles(r.value, 0, yBlocks)
      // ... with the surplus going to the first ranks and the deficit taken
      // from the last, one block each
      && (forall i :: 0 <= i < totalRanks ==> r.value[i].Width() == bpr + Adjust(rem, totalRanks, i))
  {
    if totalRanks == 0 {
      return Err(ZeroDivisionError);
    }
    var n := totalRanks;
    var bpr := RoundHalfEven(yBlocks as real / n as real);
    // the gathered (blocks_per_rank*rank, blocks_per_rank*(rank+1)) of every rank
    var rankBlocks := new Slice[n](i => Slice(bpr * i, bpr * (i + 1)));
    var rem := yBlocks - rankBlocks[n - 1].stop;
    RoundedShareError(yBlocks, n);
    if rem > 0 {
      SpreadSurplus(rankBlocks, bpr, rem);
    } else if rem < 0 {
      SpreadDeficit(rankBlocks, bpr, rem);
    }
    SpreadTiles(bpr, rem, n);
    assert rankBlocks[..] == seq(n, i => SpreadBlock(bpr, rem, n, i));
    return Ok(rankBlocks[..]);
  }

  /**
   * Every rank's count is within one block of `round(yBlocks/totalRanks)` and
   * none is negative.
   */
  lemma RankBlocksBalanced(yBlocks: nat, n: nat, i: nat)
    requires 0 <= i < n
    ensures var bpr := RoundHalfEven(yBlocks as real / n as real);
      var w := bpr + Adjust(yBlocks - bpr * n, n, i);
      0 <= w && bpr - 1 <= w <= bpr + 1
  {
    var bpr := RoundHalfEven(yBlocks as real / n as real);
    if bpr <= 0 && yBlocks - bpr * n < 0 {
      assert bpr * n >= 0;
    }
  }

  /**
   * `create_write_region` on one rank: all time slices, the architecture's
   * variable slice, its x slice and the rank's block rows along y, both offset
   * by the `ops` halo.
   */
  function CreateWriteRegion(rankBlock: Slice, bs1: nat, slices: seq<Slice>, timeSteps: nat, ops: nat): (r: Region)
    requires |slices| >= 2
    ensures r.t == Slice(0, timeSteps) && r.v == slices[0]
    // x is the architecture's x slice moved past the halo
    ensures r.x.Width() == slices[1].Width() && r.x.start == slices[1].start + ops
    // y covers the rank's block rows, moved past the halo
    ensures r.y.Width() == bs1 * rankBlock.Width() && r.y.start == bs1 * rankBlock.start + ops
  {
    Region(Slice(0, timeSteps), slices[0], slices[1].Shift(ops),
           Slice(bs1 * rankBlock.start + ops, bs1 * rankBlock.stop + ops))
  }

  /** The y slices of the ranks' write regions tile [ops, ops + bs1*yBlocks). */
  lemma WriteRegionsTile(blocks: seq<Slice>, yBlocks: nat, bs1: nat, slices: seq<Slice>, timeSteps: nat, ops: nat)
    requires |slices| >= 2 && Tiles(blocks, 0, yBlocks)
    ensures Tiles(seq(|blocks|, i requires 0 <= i < |blocks| => CreateWriteRegion(blocks[i], bs1, slices, timeSteps, ops).y),
                  ops, ops + bs1 * yBlocks)
  {
  }

  /** `create_read_region`: the write region widened by the halo on x and y. */
  function CreateReadRegion(region: Region, ops: nat): (r: Region)
    ensures r.t == region.t && r.v == region.v
    ensures r.x.Width() == region.x.Width() + 2 * ops && r.x.start == region.x.start - ops
    ensures r.y.Width() == region.y.Width() + 2 * ops && r.y.start == region.y.start - ops
  {
    Region(region.t, region.v,
           Slice(region.x.start - ops, region.x.stop + ops),
           Slice(region.y.start - ops, region.y.stop + ops))
  }

  /**
   * A slice widened by `ops` on each side holds exactly the positions within
   * `ops` of the (non-empty) slice.
   */
  lemma WidenedIsHalo(s: Slice, ops: nat, i: int)
    requires s.Width() > 0
    ensures Slice(s.start - ops, s.stop + ops).Contains(i) <==> exists j :: s.Contains(j) && i - ops <= j <= i + ops
  {
    if Slice(s.start - ops, s.stop + ops).Contains(i) {
      var j := if i < s.start then s.start else if i >= s.stop then s.stop - 1 else i;
      assert s.Contains(j) && i - ops <= j <= i + ops;
    }
  }

  /**
   * A cell `(i, k)` is in the read region exactly when it is within `ops` of
   * the (non-empty) write region, on each spatial axis.
   */
  lemma ReadRegionIsHalo(region: Region, ops: nat, i: int, k: int)
    requires region.x.Width() > 0 && region.y.Width() > 0
    ensures CreateReadRegion(region, ops).x.Contains(i) <==>
      exists j :: region.x.Contains(j) && i - ops <= j <= i + ops
    ensures CreateReadRegion(region, ops).y.Contains(k) <==>
      exists j :: region.y.Contains(j) && k - ops <= j <= k + ops
  {
    WidenedIsHalo(region.x, ops, i);
    WidenedIsHalo(region.y, ops, k);
  }

  /** `get_slices_shape`: the extent of each slice. */
  function SlicesShape(slices: seq<Slice>): (shape: seq<int>)
    ensures |shape| == |slices|
    ensures forall i :: 0 <= i < |slices| ==> shape[i] == slices[i].stop - slices[i].start
  {
    if slices == [] then [] else [slices[0].Width()] + SlicesShape(slices[1..])
  }

  /** The loop of `get_slices_shape`: `stuple` grows by one extent per slice. */
  method GetSlicesShape(slices: seq<Slice>) returns (stuple: seq<int>)
    ensures stuple == SlicesShape(slices)
  {
    stuple := [];
    for i := 0 to |slices|
      invariant |stuple| == i
      invariant forall j :: 0 <= j < i ==> stuple[j] == slices[j].stop - slices[j].start
    {
      stuple := stuple + [slices[i].stop - slices[i].start];
    }
  }

  /** The read region's shape is the write region's plus `2*ops` on x and y. */
  lemma ReadRegionShape(region: Region, ops: nat)
    ensures var w := SlicesShape([region.t, region.v, region.x, region.y]);
      SlicesShape([region.t, region.v, CreateReadRegion(region, ops).x, CreateReadRegion(region, ops).y])
      == [w[0], w[1], w[2] + 2 * ops, w[3] + 2 * ops]
  {
  }

  /**
   * `hregion`: the part of the output data set a rank writes, i.e. the write
   * region's variable slice with x and y moved back by the halo.
   */
  function OutputRegion(region: Region, ops: nat): (r: seq<Slice>)
    ensures |r| == 3 && r[0] == region.v
    ensures r[1].Width() == region.x.Width() && r[1].start + ops == region.x.start
    ensures r[2].Width() == region.y.Width() && r[2].start + ops == region.y.start
  {
    [region.v, region.x.Shift(-(ops as int)), region.y.Shift(-(ops as int))]
  }

  /**
   * The output region undoes the halo offset of the write region: it is the
   * architecture's x slice and the rank's block rows scaled to cells.
   */
  lemma OutputRegionOfWriteRegion(rankBlock: Slice, bs1: nat, slices: seq<Slice>, timeSteps: nat, ops: nat)
    requires |slices| >= 2
    ensures OutputRegion(CreateWriteRegion(rankBlock, bs1, slices, timeSteps, ops), ops)
      == [slices[0], slices[1], Slice(bs1 * rankBlock.start, bs1 * rankBlock.stop)]
  {
  }

  /** A rank is kept when neither spatial slice of its write region is empty. */
  predicate Useful(region: Region)
  {
    region.y.start != region.y.stop && region.x.start != region.x.stop
  }

  /**
   * The rank-pruning filter: the ranks (indices of the gathered write regions)
   * that are kept, in gather order.
   */
  function IncludeRanks(regions: seq<Region>): (ranks: seq<nat>)
    ensures forall k :: 0 <= k < |ranks| ==> ranks[k] < |regions| && Useful(regions[ranks[k]])
    ensures forall i :: 0 <= i < |regions| && Useful(regions[i]) ==> i in ranks
    ensures forall k, l :: 0 <= k < l < |ranks| ==> ranks[k] < ranks[l]
  {
    if regions == [] then []
    else
      var front := IncludeRanks(regions[..|regions| - 1]);
      if Useful(regions[|regions| - 1]) then front + [|regions| - 1] else front
  }
}
