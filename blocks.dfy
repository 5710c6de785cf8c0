/**
 * Cutting a process's share of the domain into halo-padded blocks and
 * writing the blocks back: `create_blocks_list` and `rebuild_blocks` of
 * the decomposition files (regions of the local array, written back in
 * place), and `create_blocks`/`rebuild_blocks` of the swept functions
 * (numpy `array_split` and `concatenate`).
 */
module Blocks {
  import opened PyCore
  import opened Arena
  import IndexSets

  // ---------------------------------------------------------------------
  // create_blocks_list

  /** `len(range(start, stop, step))` for a positive step. */
  function RangeCount(start: int, stop: int, step: nat): nat
    requires step > 0
  {
    if start < stop then (stop - start + step - 1) / step else 0
  }

  /** The `k`-th value `start + k*step` of the range is present exactly when it is below `stop`. */
  lemma RangeCountMembers(start: int, stop: int, step: nat, k: nat)
    requires step > 0
    ensures k < RangeCount(start, stop, step) <==> start + k * step < stop
  {
    if start < stop {
      var d := stop - start;
      IndexSets.LeDivIff(k + 1, d + step - 1, step);
      assert (k + 1) * step == k * step + step;
    } else {
      assert k * step >= 0;
    }
  }

  /**
   * The block with block-row `a` and block-column `c`: every time slice and
   * variable, and the `b0 + 2*ops` by `b1 + 2*ops` window starting at
   * `(a*b0, c*b1)`.
   */
  function BlockAt(nt: nat, nv: nat, b0: nat, b1: nat, ops: nat, a: int, c: int): Region
  {
    Region(Slice(0, nt), Slice(0, nv), Slice(a * b0, a * b0 + b0 + 2 * ops), Slice(c * b1, c * b1 + b1 + 2 * ops))
  }

  /** The first `rows` block-rows of `cy` blocks each, in the order the nested loops list them. */
  function BlockGrid(nt: nat, nv: nat, b0: nat, b1: nat, ops: nat, rows: nat, cy: nat): seq<Region>
  {
    if rows == 0 then []
    else BlockGrid(nt, nv, b0, b1, ops, rows - 1, cy) + seq(cy, c => BlockAt(nt, nv, b0, b1, ops, rows - 1, c))
  }

  /**
   * The blocks of `create_blocks_list(arr_shape, block_size, ops)` for
   * `arr_shape = (nt, nv, nx, ny)`: one per `i` in
   * `range(ops + b0, nx, b0)` and `j` in `range(ops + b1, ny, b1)`.
   */
  function BlocksList(nt: nat, nv: nat, nx: nat, ny: nat, b0: nat, b1: nat, ops: nat): seq<Region>
    requires b0 > 0 && b1 > 0
  {
    BlockGrid(nt, nv, b0, b1, ops, RangeCount(ops + b0, nx, b0), RangeCount(ops + b1, ny, b1))
  }

  /**
   * `create_blocks_list(arr_shape, block_size, ops)`. A zero block size makes
   * the (otherwise unused) block counts divide by zero.
   */
  method CreateBlocksList(nt: nat, nv: nat, nx: nat, ny: nat, b0: nat, b1: nat, ops: nat) returns (r: Result<seq<Region>>)
    ensures b0 == 0 || b1 == 0 ==> r == Err(ZeroDivisionError)
    ensures b0 > 0 && b1 > 0 ==> r == Ok(BlocksList(nt, nv, nx, ny, b0, b1, ops))
  {
    if b0 == 0 || b1 == 0 {
      return Err(ZeroDivisionError);
    }
    var cx := RangeCount(ops + b0, nx, b0);
    var cy := RangeCount(ops + b1, ny, b1);
    var slices: seq<Region> := [];
    var i := ops + b0;
    ghost var a: nat := 0;
    RangeCountMembers(ops + b0, nx, b0, 0);
    while i < nx
      invariant i == ops + b0 + a * b0 && a <= cx
      invariant a < cx <==> i < nx
      invariant slices == BlockGrid(nt, nv, b0, b1, ops, a, cy)
      decreases nx - i
    {
      var j := ops + b1;
      ghost var c: nat := 0;
      RangeCountMembers(ops + b1, ny, b1, 0);
      while j < ny
        invariant j == ops + b1 + c * b1 && c <= cy
        invariant c < cy <==> j < ny
        invariant slices == BlockGrid(nt, nv, b0, b1, ops, a, cy) + seq(c, c' => BlockAt(nt, nv, b0, b1, ops, a, c'))
        decreases ny - j
      {
        assert i - b0 - ops == a * b0 && j - b1 - ops == c * b1;
        RowSnoc(nt, nv, b0, b1, ops, a, c);
        slices := slices + [Region(Slice(0, nt), Slice(0, nv), Slice(i - b0 - ops, i + ops), Slice(j - b1 - ops, j + ops))];
        j := j + b1;
        c := c + 1;
        RangeCountMembers(ops + b1, ny, b1, c);
      }
      assert slices == BlockGrid(nt, nv, b0, b1, ops, a + 1, cy);
      i := i + b0;
      a := a + 1;
      RangeCountMembers(ops + b0, nx, b0, a);
    }
    return Ok(slices);
  }

  /** The first `c + 1` blocks of block-row `a` are its first `c` and block `(a, c)`. */
  lemma RowSnoc(nt: nat, nv: nat, b0: nat, b1: nat, ops: nat, a: int, c: nat)
    ensures seq(c + 1, c' => BlockAt(nt, nv, b0, b1, ops, a, c'))
         == seq(c, c' => BlockAt(nt, nv, b0, b1, ops, a, c')) + [BlockAt(nt, nv, b0, b1, ops, a, c)]
  {
  }

  /** The grid lists block `(a, c)` at position `a*cy + c`. */
  lemma {:induction false} GridIndex(nt: nat, nv: nat, b0: nat, b1: nat, ops: nat, rows: nat, cy: nat, a: nat, c: nat)
    requires a < rows && c < cy
    ensures |BlockGrid(nt, nv, b0, b1, ops, rows, cy)| == rows * cy
    ensures a * cy + c < rows * cy
    ensures BlockGrid(nt, nv, b0, b1, ops, rows, cy)[a * cy + c] == BlockAt(nt, nv, b0, b1, ops, a, c)
  {
    GridLength(nt, nv, b0, b1, ops, rows - 1, cy);
    assert rows * cy == (rows - 1) * cy + cy;
    if a < rows - 1 {
      GridIndex(nt, nv, b0, b1, ops, rows - 1, cy, a, c);
    } else {
      assert a * cy + c == (rows - 1) * cy + c;
    }
  }

  lemma {:induction false} GridLength(nt: nat, nv: nat, b0: nat, b1: nat, ops: nat, rows: nat, cy: nat)
    ensures |BlockGrid(nt, nv, b0, b1, ops, rows, cy)| == rows * cy
  {
    if rows > 0 {
      GridLength(nt, nv, b0, b1, ops, rows - 1, cy);
      assert rows * cy == (rows - 1) * cy + cy;
    }
  }

  /**
   * `create_blocks_list` is row-major, x then y: the block at position
   * `a*cy + c` starts at `(a*b0, c*b1)`, spans `b0 + 2*ops` by `b1 + 2*ops`
   * cells, and covers every time slice and variable.
   */
  lemma BlocksListIndex(nt: nat, nv: nat, nx: nat, ny: nat, b0: nat, b1: nat, ops: nat, a: nat, c: nat)
    requires b0 > 0 && b1 > 0
    requires a < RangeCount(ops + b0, nx, b0) && c < RangeCount(ops + b1, ny, b1)
    ensures var cx := RangeCount(ops + b0, nx, b0);
      var cy := RangeCount(ops + b1, ny, b1);
      var l := BlocksList(nt, nv, nx, ny, b0, b1, ops);
      && |l| == cx * cy && a * cy + c < |l|
      && l[a * cy + c].t == Slice(0, nt) && l[a * cy + c].v == Slice(0, nv)
      && l[a * cy + c].x.start == a * b0 && l[a * cy + c].x.Width() == b0 + 2 * ops
      && l[a * cy + c].y.start == c * b1 && l[a * cy + c].y.Width() == b1 + 2 * ops
  {
    GridIndex(nt, nv, b0, b1, ops, RangeCount(ops + b0, nx, b0), RangeCount(ops + b1, ny, b1), a, c);
  }

  /** In a domain `2*ops + n*b` wide with `0 < ops <= b`, the range yields exactly `n` blocks. */
  lemma RangeCountDivisible(ops: nat, b: nat, n: nat)
    requires 0 < ops <= b
    ensures RangeCount(ops + b, 2 * ops + n * b, b) == n
  {
    var k := RangeCount(ops + b, 2 * ops + n * b, b);
    RangeCountMembers(ops + b, 2 * ops + n * b, b, n);
    assert ops + b + n * b >= 2 * ops + n * b;
    if n > 0 {
      RangeCountMembers(ops + b, 2 * ops + n * b, b, n - 1);
      assert ops + b + (n - 1) * b == ops + n * b;
    }
  }

  /** The cell `(x, y)` lies in the `ops`-trimmed interior of region `r`. */
  predicate InInterior(r: Region, ops: nat, x: int, y: int)
  {
    r.x.start + ops <= x < r.x.stop - ops && r.y.start + ops <= y < r.y.stop - ops
  }

  /** A position below `n*m` in a list of `m`-long rows is row `k / m`, column `k % m`, with row below `n`. */
  lemma RowColumn(k: nat, n: nat, m: nat)
    requires k < n * m
    ensures m > 0 && k / m < n && k % m < m && k == (k / m) * m + k % m
  {
  }

  /** `a < n` gives `(a + 1) * b <= n * b` for `b >= 0`. */
  lemma NextMultiple(a: nat, n: nat, b: nat)
    requires a < n
    ensures a * b + b <= n * b
  {
    assert (a + 1) * b <= n * b;
  }

  /** The trimmed interior of block `(a, c)` holds exactly the cells whose offsets from the halo divide to `(a, c)`. */
  lemma InteriorBlock(nt: nat, nv: nat, b0: nat, b1: nat, ops: nat, a: int, c: int, x: int, y: int)
    requires b0 > 0 && b1 > 0 && x >= ops && y >= ops
    ensures InInterior(BlockAt(nt, nv, b0, b1, ops, a, c), ops, x, y) <==> a == (x - ops) / b0 && c == (y - ops) / b1
  {
    var qa := (x - ops) / b0;
    var qc := (y - ops) / b1;
    assert qa * b0 <= x - ops < qa * b0 + b0;
    assert qc * b1 <= y - ops < qc * b1 + b1;
    if a * b0 <= x - ops < a * b0 + b0 {
      assert (a + 1) * b0 == a * b0 + b0;
      FloorDivUnique(a, x - ops, b0);
    }
    if c * b1 <= y - ops < c * b1 + b1 {
      assert (c + 1) * b1 == c * b1 + b1;
      FloorDivUnique(c, y - ops, b1);
    }
  }

  /** In a domain of `n` by `m` whole blocks plus the halo, the list is the `n` by `m` grid. */
  lemma BlocksListDivisible(nt: nat, nv: nat, b0: nat, b1: nat, ops: nat, n: nat, m: nat)
    requires 0 < ops <= b0 && ops <= b1
    ensures BlocksList(nt, nv, 2 * ops + n * b0, 2 * ops + m * b1, b0, b1, ops) == BlockGrid(nt, nv, b0, b1, ops, n, m)
    ensures |BlockGrid(nt, nv, b0, b1, ops, n, m)| == n * m
  {
    RangeCountDivisible(ops, b0, n);
    RangeCountDivisible(ops, b1, m);
    GridLength(nt, nv, b0, b1, ops, n, m);
  }

  /** The interior cell `(x, y)` lies in the trimmed interior of grid block `((x-ops)/b0, (y-ops)/b1)`. */
  lemma GridCovers(nt: nat, nv: nat, b0: nat, b1: nat, ops: nat, n: nat, m: nat, x: int, y: int)
    requires 0 < ops <= b0 && ops <= b1
    requires ops <= x < ops + n * b0 && ops <= y < ops + m * b1
    ensures var g := BlockGrid(nt, nv, b0, b1, ops, n, m);
      var k := ((x - ops) / b0) * m + (y - ops) / b1;
      0 <= k < |g| && InInterior(g[k], ops, x, y)
  {
    var a := (x - ops) / b0;
    var c := (y - ops) / b1;
    IndexSets.LeDivIff(n, x - ops, b0);
    IndexSets.LeDivIff(m, y - ops, b1);
    GridCell(nt, nv, b0, b1, ops, n, m, a, c, x, y);
  }

  /** Grid block `(a, c)` sits at position `a*m + c` and holds `(x, y)` in its trimmed interior when `(a, c)` is the quotient pair. */
  lemma GridCell(nt: nat, nv: nat, b0: nat, b1: nat, ops: nat, n: nat, m: nat, a: int, c: int, x: int, y: int)
    requires 0 < ops <= b0 && ops <= b1 && ops <= x && ops <= y
    requires 0 <= a < n && 0 <= c < m && a == (x - ops) / b0 && c == (y - ops) / b1
    ensures var g := BlockGrid(nt, nv, b0, b1, ops, n, m);
      0 <= a * m + c < |g| && InInterior(g[a * m + c], ops, x, y)
  {
    GridIndex(nt, nv, b0, b1, ops, n, m, a, c);
    InteriorBlock(nt, nv, b0, b1, ops, a, c, x, y);
  }

  /** Only that grid block holds `(x, y)` in its trimmed interior. */
  lemma GridUnique(nt: nat, nv: nat, b0: nat, b1: nat, ops: nat, n: nat, m: nat, x: int, y: int, k': nat)
    requires 0 < ops <= b0 && ops <= b1 && ops <= x && ops <= y
    requires k' < n * m
    requires var g := BlockGrid(nt, nv, b0, b1, ops, n, m); k' < |g| && InInterior(g[k'], ops, x, y)
    ensures k' == ((x - ops) / b0) * m + (y - ops) / b1
  {
    RowColumn(k', n, m);
    GridIndex(nt, nv, b0, b1, ops, n, m, k' / m, k' % m);
    InteriorBlock(nt, nv, b0, b1, ops, k' / m, k' % m, x, y);
  }

  /**
   * When the domain is `n` blocks of `b0` plus a halo of `ops` on each side
   * in x (and `m` blocks of `b1` in y), with `0 < ops <= b0, b1`, there are
   * `n*m` blocks and their trimmed interiors partition the domain's
   * interior: each interior cell lies in exactly one of them.
   */
  lemma BlockInteriorsPartition(nt: nat, nv: nat, b0: nat, b1: nat, ops: nat, n: nat, m: nat, x: int, y: int)
    requires 0 < ops <= b0 && ops <= b1
    requires ops <= x < ops + n * b0 && ops <= y < ops + m * b1
    ensures var l := BlocksList(nt, nv, 2 * ops + n * b0, 2 * ops + m * b1, b0, b1, ops);
      var k := ((x - ops) / b0) * m + (y - ops) / b1;
      && |l| == n * m
      && 0 <= k < |l| && InInterior(l[k], ops, x, y)
      && (forall k' :: 0 <= k' < |l| && InInterior(l[k'], ops, x, y) ==> k' == k)
  {
    BlocksListDivisible(nt, nv, b0, b1, ops, n, m);
    GridCovers(nt, nv, b0, b1, ops, n, m, x, y);
    var l := BlocksList(nt, nv, 2 * ops + n * b0, 2 * ops + m * b1, b0, b1, ops);
    forall k' | 0 <= k' < |l| && InInterior(l[k'], ops, x, y)
      ensures k' == ((x - ops) / b0) * m + (y - ops) / b1
    {
      GridUnique(nt, nv, b0, b1, ops, n, m, x, y, k');
    }
  }

  /** In the same setting every block lies inside the array's x and y extents. */
  lemma BlocksInside(nt: nat, nv: nat, b0: nat, b1: nat, ops: nat, n: nat, m: nat, k: nat)
    requires 0 < ops <= b0 && ops <= b1
    requires k < |BlocksList(nt, nv, 2 * ops + n * b0, 2 * ops + m * b1, b0, b1, ops)|
    ensures var r := BlocksList(nt, nv, 2 * ops + n * b0, 2 * ops + m * b1, b0, b1, ops)[k];
      0 <= r.x.start && r.x.stop <= 2 * ops + n * b0 && 0 <= r.y.start && r.y.stop <= 2 * ops + m * b1
  {
    BlocksListDivisible(nt, nv, b0, b1, ops, n, m);
    var a, c := GridPosition(nt, nv, b0, b1, ops, n, m, k);
    BlockAtInside(nt, nv, b0, b1, ops, n, m, a, c);
  }

  /** Position `k` of the `n` by `m` grid is block `(k / m, k % m)`. */
  lemma GridPosition(nt: nat, nv: nat, b0: nat, b1: nat, ops: nat, n: nat, m: nat, k: nat) returns (a: nat, c: nat)
    requires k < |BlockGrid(nt, nv, b0, b1, ops, n, m)| && |BlockGrid(nt, nv, b0, b1, ops, n, m)| == n * m
    ensures a < n && c < m && BlockGrid(nt, nv, b0, b1, ops, n, m)[k] == BlockAt(nt, nv, b0, b1, ops, a, c)
  {
    RowColumn(k, n, m);
    a, c := k / m, k % m;
    GridIndex(nt, nv, b0, b1, ops, n, m, a, c);
  }

  /** Block `(a, c)` of the `n` by `m` grid lies inside the `2*ops + n*b0` by `2*ops + m*b1` array. */
  lemma BlockAtInside(nt: nat, nv: nat, b0: nat, b1: nat, ops: nat, n: nat, m: nat, a: nat, c: nat)
    requires a < n && c < m
    ensures var r := BlockAt(nt, nv, b0, b1, ops, a, c);
      0 <= r.x.start && r.x.stop <= 2 * ops + n * b0 && 0 <= r.y.start && r.y.stop <= 2 * ops + m * b1
  {
    NextMultiple(a, n, b0);
    NextMultiple(c, m, b1);
  }

  // ---------------------------------------------------------------------
  // rebuild_blocks of the decomposition files

  /** A 4-D array: time slices of variable planes. */
  type Block = seq<Slab>

  /** `(slice(None), slice(lr2), slice(lr3))` of `rebuild_blocks`: region `lr` trimmed by `ops`. */
  function Trimmed(lr: Region, ops: nat, nv: nat): Box
  {
    Box(Slice(0, nv), Slice(lr.x.start + ops, lr.x.stop - ops), Slice(lr.y.start + ops, lr.y.stop - ops))
  }

  /** Region `lr` lies in an `nx` by `ny` array and is at least `2*ops` wide on both axes. */
  predicate RegionFits(lr: Region, ops: nat, nx: nat, ny: nat)
  {
    && 0 <= lr.x.start && lr.x.start + 2 * ops <= lr.x.stop <= nx
    && 0 <= lr.y.start && lr.y.start + 2 * ops <= lr.y.stop <= ny
  }

  /**
   * One time slice `p` of a block cut out at region `lr` of a local array of
   * `nv` variables and `nx` by `ny` cells: the region fits and `p` has its
   * shape.
   */
  predicate PieceFits(p: Slab, lr: Region, ops: nat, nv: nat, nx: nat, ny: nat)
  {
    RegionFits(lr, ops, nx, ny) && |p| == nv && Shaped(p, (lr.x.stop - lr.x.start) as nat, (lr.y.stop - lr.y.start) as nat)
  }

  /** Every time slice of `block` fits region `lr`. */
  predicate Fitting(block: Block, lr: Region, ops: nat, nt: nat, nv: nat, nx: nat, ny: nat)
  {
    |block| == nt && forall t :: 0 <= t < nt ==> PieceFits(block[t], lr, ops, nv, nx, ny)
  }

  /** Time slice `t` of the first `n` blocks fits their regions. */
  predicate FitsAt(blocks: seq<Block>, regions: seq<Region>, ops: nat, t: nat, n: nat, nv: nat, nx: nat, ny: nat)
  {
    n <= |regions| && n <= |blocks| &&
    forall c :: 0 <= c < n ==> t < |blocks[c]| && PieceFits(blocks[c][t], regions[c], ops, nv, nx, ny)
  }

  /**
   * Time slice `t` after the first `n` iterations of the write-back loop
   * over blocks that all fit their regions:
   * iteration `c` stores the `ops`-trimmed interior of block `c` at region
   * `c` trimmed by `ops`.
   */
  function RebuiltSlab(s: Slab, nx: nat, ny: nat, blocks: seq<Block>, t: nat, regions: seq<Region>, ops: nat, n: nat): (r: Slab)
    requires Shaped(s, nx, ny) && n <= |regions| && FitsAt(blocks, regions, ops, t, |regions|, |s|, nx, ny)
    ensures Shaped(r, nx, ny) && |r| == |s|
    decreases n
  {
    if n == 0 then s
    else
      assert PieceFits(blocks[n - 1][t], regions[n - 1], ops, |s|, nx, ny);
      PasteInterior(RebuiltSlab(s, nx, ny, blocks, t, regions, ops, n - 1), blocks[n - 1][t], regions[n - 1], ops, nx, ny)
  }

  /**
   * `arr[:, :, lr2, lr3] = block[:, :, ops:-ops, ops:-ops]` on one time
   * slice: the `ops`-trimmed interior of piece `p`, cut out at region `lr`,
   * pasted back into `s` at the same place.
   */
  function PasteInterior(s: Slab, p: Slab, lr: Region, ops: nat, nx: nat, ny: nat): (r: Slab)
    requires Shaped(s, nx, ny) && PieceFits(p, lr, ops, |s|, nx, ny)
    ensures Shaped(r, nx, ny) && |r| == |s|
    ensures forall v, x, y :: 0 <= v < |s| && 0 <= x < nx && 0 <= y < ny ==>
      r[v][x][y] == if Trimmed(lr, ops, |s|).Holds(v, x, y) then p[v][x - lr.x.start][y - lr.y.start] else s[v][x][y]
  {
    var b := Trimmed(lr, ops, |s|);
    assert b.Moved(0, -lr.x.start, -lr.y.start) == Box(Slice(0, |s|), Slice(ops, lr.x.stop - lr.x.start - ops), Slice(ops, lr.y.stop - lr.y.start - ops));
    Paste(s, p, nx, ny, (lr.x.stop - lr.x.start) as nat, (lr.y.stop - lr.y.start) as nat, b, 0, -lr.x.start, -lr.y.start)
  }

  /** Blocks that fit their regions fit them at every time slice. */
  lemma FittingAt(blocks: seq<Block>, regions: seq<Region>, ops: nat, nt: nat, nv: nat, nx: nat, ny: nat, t: nat, n: nat)
    requires n <= |regions| && n <= |blocks| && t < nt
    requires forall c :: 0 <= c < n ==> Fitting(blocks[c], regions[c], ops, nt, nv, nx, ny)
    ensures FitsAt(blocks, regions, ops, t, n, nv, nx, ny)
  {
  }

  /**
   * `rebuild_blocks(arr, blocks, local_regions, ops)` of the decomposition
   * files. With more than one block, each block's `ops`-trimmed interior is
   * written in place into the array `a` at its trimmed region and the array
   * is returned; with one block that block is returned and `a` is left
   * alone; with none, `blocks[0]` raises. The shapes must agree, which for
   * a region of positive width needs `ops > 0` (`[0:-0]` is empty).
   */
  method RebuildBlocksInPlace(a: array<Slab>, blocks: seq<Block>, regions: seq<Region>, ops: nat, nv: nat, nx: nat, ny: nat)
    returns (r: Result<Block>)
    requires forall t :: 0 <= t < a.Length ==> Shaped(a[t], nx, ny) && |a[t]| == nv
    requires |blocks| > 1 ==> ops > 0 && |regions| <= |blocks|
    requires |blocks| > 1 ==> forall c :: 0 <= c < |regions| ==> RegionFits(regions[c], ops, nx, ny)
    requires |blocks| > 1 ==> forall t :: 0 <= t < a.Length ==> FitsAt(blocks, regions, ops, t, |regions|, nv, nx, ny)
    modifies a
    ensures |blocks| == 0 ==> r == Err(IndexError) && a[..] == old(a[..])
    ensures |blocks| == 1 ==> r == Ok(blocks[0]) && a[..] == old(a[..])
    ensures |blocks| > 1 ==> r == Ok(a[..]) && forall t :: 0 <= t < a.Length ==>
      a[t] == RebuiltSlab(old(a[t]), nx, ny, blocks, t, regions, ops, |regions|)
  {
    if |blocks| > 1 {
      ghost var a0 := a[..];
      for ct := 0 to |regions|
        invariant |a0| == a.Length && forall t :: 0 <= t < a.Length ==> a0[t] == old(a[t])
        invariant forall t :: 0 <= t < a.Length ==> a[t] == RebuiltSlab(a0[t], nx, ny, blocks, t, regions, ops, ct)
      {
        WriteBackStep(a, blocks, regions, ops, nv, nx, ny, a0, ct);
      }
      return Ok(a[..]);
    } else if |blocks| == 1 {
      return Ok(blocks[0]);
    } else {
      return Err(IndexError);
    }
  }

  /**
   * Iteration `ct` of the write-back loop: the array, holding the first
   * `ct` iterations' result over `a0`, afterwards holds the first `ct + 1`.
   */
  method WriteBackStep(a: array<Slab>, blocks: seq<Block>, regions: seq<Region>, ops: nat, nv: nat, nx: nat, ny: nat,
                       ghost a0: seq<Slab>, ct: nat)
    requires |a0| == a.Length && ct < |regions| <= |blocks| && RegionFits(regions[ct], ops, nx, ny)
    requires forall t :: 0 <= t < a.Length ==> Shaped(a0[t], nx, ny) && |a0[t]| == nv
    requires forall t :: 0 <= t < a.Length ==> FitsAt(blocks, regions, ops, t, |regions|, nv, nx, ny)
    requires forall t :: 0 <= t < a.Length ==> a[t] == RebuiltSlab(a0[t], nx, ny, blocks, t, regions, ops, ct)
    modifies a
    ensures forall t :: 0 <= t < a.Length ==> a[t] == RebuiltSlab(a0[t], nx, ny, blocks, t, regions, ops, ct + 1)
  {
    var block := blocks[ct];
    var lr := regions[ct];
    forall t | 0 <= t < a.Length
      ensures t < |block| && PieceFits(block[t], lr, ops, nv, nx, ny)
    {
      assert FitsAt(blocks, regions, ops, t, |regions|, nv, nx, ny);
    }
    if a.Length > 0 {
      assert FitsAt(blocks, regions, ops, a.Length - 1, |regions|, nv, nx, ny);
      assert PieceFits(block[a.Length - 1], lr, ops, nv, nx, ny);
    }
    forall t | 0 <= t < a.Length
      ensures Shaped(a[t], nx, ny) && |a[t]| == nv
    {
      assert a[t] == RebuiltSlab(a0[t], nx, ny, blocks, t, regions, ops, ct);
    }
    ghost var prev := a[..];
    WriteBack(a, block, lr, ops, nv, nx, ny);
    forall t | 0 <= t < a.Length
      ensures a[t] == RebuiltSlab(a0[t], nx, ny, blocks, t, regions, ops, ct + 1)
    {
      assert prev[t] == RebuiltSlab(a0[t], nx, ny, blocks, t, regions, ops, ct);
    }
  }

  /** One iteration of the write-back loop: `block`'s trimmed interior goes to `lr` trimmed, on every time slice. */
  method WriteBack(a: array<Slab>, block: Block, lr: Region, ops: nat, nv: nat, nx: nat, ny: nat)
    requires forall t :: 0 <= t < a.Length ==> Shaped(a[t], nx, ny) && |a[t]| == nv
    requires RegionFits(lr, ops, nx, ny) && a.Length <= |block|
    requires forall t :: 0 <= t < a.Length ==>
      |block[t]| == nv && Shaped(block[t], (lr.x.stop - lr.x.start) as nat, (lr.y.stop - lr.y.start) as nat)
    modifies a
    ensures forall t :: 0 <= t < a.Length ==> Shaped(a[t], nx, ny) && |a[t]| == nv
    ensures forall t :: 0 <= t < a.Length ==> a[t] == PasteInterior(old(a[t]), block[t], lr, ops, nx, ny)
  {
    forall t | 0 <= t < a.Length {
      a[t] := PasteInterior(a[t], block[t], lr, ops, nx, ny);
    }
  }

  /** A cell in none of the trimmed interiors keeps its value. */
  lemma {:induction false} RebuiltOutside(s: Slab, nx: nat, ny: nat, blocks: seq<Block>, t: nat, regions: seq<Region>, ops: nat, n: nat,
                                          v: nat, x: nat, y: nat)
    requires Shaped(s, nx, ny) && n <= |regions| && FitsAt(blocks, regions, ops, t, |regions|, |s|, nx, ny)
    requires v < |s| && x < nx && y < ny
    requires forall c :: 0 <= c < n ==> !InInterior(regions[c], ops, x, y)
    ensures RebuiltSlab(s, nx, ny, blocks, t, regions, ops, n)[v][x][y] == s[v][x][y]
    decreases n
  {
    if n > 0 {
      assert !InInterior(regions[n - 1], ops, x, y);
      RebuiltOutside(s, nx, ny, blocks, t, regions, ops, n - 1, v, x, y);
    }
  }

  /**
   * A cell in the trimmed interior of region `c`, and in no later one, takes
   * the value of block `c` at the same place relative to the region.
   */
  lemma {:induction false} RebuiltInside(s: Slab, nx: nat, ny: nat, blocks: seq<Block>, t: nat, regions: seq<Region>, ops: nat, n: nat,
                                         c: nat, v: nat, x: nat, y: nat)
    requires Shaped(s, nx, ny) && n <= |regions| && FitsAt(blocks, regions, ops, t, |regions|, |s|, nx, ny)
    requires v < |s| && x < nx && y < ny
    requires c < n && InInterior(regions[c], ops, x, y)
    requires forall c' :: c < c' < n ==> !InInterior(regions[c'], ops, x, y)
    ensures 0 <= x - regions[c].x.start && 0 <= y - regions[c].y.start
    ensures t < |blocks[c]| && RebuiltSlab(s, nx, ny, blocks, t, regions, ops, n)[v][x][y]
         == blocks[c][t][v][x - regions[c].x.start][y - regions[c].y.start]
    decreases n
  {
    if c < n - 1 {
      assert !InInterior(regions[n - 1], ops, x, y);
      RebuiltInside(s, nx, ny, blocks, t, regions, ops, n - 1, c, v, x, y);
    } else {
      assert Trimmed(regions[c], ops, |s|).Holds(v, x, y);
    }
  }

  // ---------------------------------------------------------------------
  // create_blocks / rebuild_blocks of the swept functions

  /** Where piece `i` of `numpy.array_split` of `len` items into `n` sections starts. */
  function SplitPoint(len: nat, n: nat, i: nat): nat
    requires n > 0
  {
    i * (len / n) + IndexSets.Min(i, len % n)
  }

  /**
   * The first `len % n` sections get `len / n + 1` items and the others
   * `len / n`; the sections run from 0 to `len`.
   */
  lemma SplitPointStep(len: nat, n: nat, i: nat)
    requires 0 < n && i < n
    ensures SplitPoint(len, n, 0) == 0 && SplitPoint(len, n, n) == len
    ensures SplitPoint(len, n, i) <= SplitPoint(len, n, i + 1) <= len
    ensures SplitPoint(len, n, i + 1) - SplitPoint(len, n, i) == len / n + if i < len % n then 1 else 0
  {
    var q := len / n;
    assert (i + 1) * q == i * q + q;
    NextMultiple(i, n, q);
  }

  /** `numpy.array_split(s, n)` along one axis, for `n > 0` sections. */
  function Pieces<T>(s: seq<T>, n: nat): (r: seq<seq<T>>)
    requires n > 0
    ensures |r| == n
  {
    seq(n, i requires 0 <= i < n =>
      SplitPointStep(|s|, n, i);
      s[SplitPoint(|s|, n, i)..SplitPoint(|s|, n, i + 1)])
  }

  /** `numpy.concatenate` along one axis: the parts end to end. */
  function Flatten<T>(parts: seq<seq<T>>): seq<T>
  {
    if |parts| == 0 then [] else Flatten(parts[..|parts| - 1]) + parts[|parts| - 1]
  }

  /** The first `k` sections, end to end, are the items before section `k`. */
  lemma {:induction false} FlattenPieces<T>(s: seq<T>, n: nat, k: nat)
    requires 0 < n && k <= n
    ensures SplitPoint(|s|, n, k) <= |s|
    ensures Flatten(Pieces(s, n)[..k]) == s[..SplitPoint(|s|, n, k)]
  {
    if k == 0 {
      SplitPointStep(|s|, n, 0);
    } else {
      SplitPointStep(|s|, n, k - 1);
      var p := Pieces(s, n);
      var lo, hi := SplitPoint(|s|, n, k - 1), SplitPoint(|s|, n, k);
      assert p[k - 1] == s[lo..hi];
      FlattenSnoc(p, k);
      FlattenPieces(s, n, k - 1);
      PrefixSnoc(s, lo, hi);
    }
  }

  /** The first `k` parts end to end are the first `k - 1` followed by part `k - 1`. */
  lemma FlattenSnoc<T>(parts: seq<seq<T>>, k: nat)
    requires 0 < k <= |parts|
    ensures Flatten(parts[..k]) == Flatten(parts[..k - 1]) + parts[k - 1]
  {
    assert parts[..k][..k - 1] == parts[..k - 1];
  }

  /** A prefix up to `hi` is the prefix up to `lo` followed by the items between. */
  lemma PrefixSnoc<T>(s: seq<T>, lo: nat, hi: nat)
    requires lo <= hi <= |s|
    ensures s[..hi] == s[..lo] + s[lo..hi]
  {
  }

  /** `array_split` followed by `concatenate` gives the sequence back. */
  lemma ConcatPieces<T>(s: seq<T>, n: nat)
    requires n > 0
    ensures Flatten(Pieces(s, n)) == s
  {
    FlattenPieces(s, n, n);
    SplitPointStep(|s|, n, 0);
    assert Pieces(s, n)[..n] == Pieces(s, n);
  }

  /** The sizes `array_split` gives: the first `len % n` sections one longer. */
  lemma PieceSizes<T>(s: seq<T>, n: nat, i: nat)
    requires 0 < n && i < n
    ensures |Pieces(s, n)[i]| == |s| / n + if i < |s| % n then 1 else 0
  {
    SplitPointStep(|s|, n, i);
  }

  /** `numpy.array_split(a, n, axis=2)`: sections along x. */
  function SplitX(a: Block, n: nat): (r: seq<Block>)
    requires n > 0
    ensures |r| == n
  {
    seq(n, i requires 0 <= i < n =>
      seq(|a|, t requires 0 <= t < |a| => seq(|a[t]|, v requires 0 <= v < |a[t]| => Pieces(a[t][v], n)[i])))
  }

  /** `numpy.array_split(a, n, axis=3)`: sections along y. */
  function SplitY(a: Block, n: nat): (r: seq<Block>)
    requires n > 0
    ensures |r| == n
  {
    seq(n, i requires 0 <= i < n =>
      seq(|a|, t requires 0 <= t < |a| => seq(|a[t]|, v requires 0 <= v < |a[t]| =>
        seq(|a[t][v]|, x requires 0 <= x < |a[t][v]| => Pieces(a[t][v][x], n)[i]))))
  }

  /** The x-rows of variable `v` at time `t` of `b`, if present. */
  function PlaneOf(b: Block, t: nat, v: nat): Plane
  {
    if t < |b| && v < |b[t]| then b[t][v] else []
  }

  /** Row `x` of variable `v` at time `t` of `b`, if present. */
  function RowOf(b: Block, t: nat, v: nat, x: nat): seq<real>
  {
    if t < |b| && v < |b[t]| && x < |b[t][v]| then b[t][v][x] else []
  }

  /**
   * `numpy.concatenate(parts, axis=2)`, the other axes taken from the first
   * part; numpy's error on parts that disagree there is not modelled.
   */
  function ConcatX(parts: seq<Block>): Block
    requires |parts| > 0
  {
    seq(|parts[0]|, t requires 0 <= t < |parts[0]| => seq(|parts[0][t]|, v requires 0 <= v < |parts[0][t]| =>
      Flatten(seq(|parts|, i requires 0 <= i < |parts| => PlaneOf(parts[i], t, v)))))
  }

  /**
   * `numpy.concatenate(parts, axis=3)`, the other axes taken from the first
   * part; numpy's error on parts that disagree there is not modelled.
   */
  function ConcatY(parts: seq<Block>): Block
    requires |parts| > 0
  {
    seq(|parts[0]|, t requires 0 <= t < |parts[0]| => seq(|parts[0][t]|, v requires 0 <= v < |parts[0][t]| =>
      seq(|parts[0][t][v]|, x requires 0 <= x < |parts[0][t][v]| =>
        Flatten(seq(|parts|, i requires 0 <= i < |parts| => RowOf(parts[i], t, v, x))))))
  }

  /**
   * `create_blocks(arr, bsx, bsy)`: `arr` split into `bsx` sections along x,
   * each split into `bsy` sections along y, listed x-section by x-section.
   * A section count of zero makes `array_split` raise.
   */
  function CreateBlocks(a: Block, bsx: nat, bsy: nat): (r: Result<seq<Block>>)
    ensures r.Err? <==> bsx == 0 || bsy == 0
    ensures r.Err? ==> r.error == ValueError
    ensures r.Ok? ==> |r.value| == bsx * bsy
  {
    if bsx == 0 || bsy == 0 then Err(ValueError)
    else
      var rows := seq(bsx, i requires 0 <= i < bsx => SplitY(SplitX(a, bsx)[i], bsy));
      FlattenEvenLength(rows, bsy);
      Ok(Flatten(rows))
  }

  /** Run `k` of `bsy` consecutive blocks ends inside the list. */
  lemma RunInside(n: nat, bsy: nat, k: nat)
    requires bsy > 0 && k < n / bsy
    ensures k * bsy + bsy <= n
  {
    IndexSets.LeDivIff(k + 1, n, bsy);
    assert (k + 1) * bsy == k * bsy + bsy;
  }

  /** Blocks `k*bsy` to `k*bsy + bsy - 1` joined along y. */
  function RunAt(blocks: seq<Block>, bsy: nat, k: nat): Block
    requires bsy > 0 && k < |blocks| / bsy
  {
    RunInside(|blocks|, bsy, k);
    ConcatY(blocks[k * bsy..k * bsy + bsy])
  }

  /** The list `temp` of `rebuild_blocks`: one y-joined run per whole run of `bsy` blocks. */
  function Runs(blocks: seq<Block>, bsy: nat): (r: seq<Block>)
    requires bsy > 0
    ensures |r| == |blocks| / bsy
  {
    seq(|blocks| / bsy, k requires 0 <= k < |blocks| / bsy => RunAt(blocks, bsy, k))
  }

  /**
   * `rebuild_blocks(blocks, bsx, bsy)` of the swept functions: each run of
   * `bsy` consecutive blocks is joined along y (a trailing partial run is
   * dropped), and the joined pieces along x. One block is returned as it
   * is; none, or fewer than `bsy`, raise on the index `[0]`, and `bsy == 0`
   * makes `range` raise. `bsx` is not used.
   */
  function RebuildSplit(blocks: seq<Block>, bsy: nat): Result<Block>
  {
    if |blocks| > 1 then
      if bsy == 0 then Err(ValueError)
      else
        var temp := Runs(blocks, bsy);
        if |temp| > 1 then Ok(ConcatX(temp))
        else if |temp| == 1 then Ok(temp[0])
        else Err(IndexError)
    else if |blocks| == 1 then Ok(blocks[0])
    else Err(IndexError)
  }

  /** The loop of `rebuild_blocks`: `temp` grows by one y-joined run per `i` in `range(bsy, len+1, bsy)`. */
  method RebuildBlocksSplit(blocks: seq<Block>, bsx: nat, bsy: nat) returns (r: Result<Block>)
    ensures r == RebuildSplit(blocks, bsy)
  {
    if |blocks| <= 1 {
      return if |blocks| == 1 then Ok(blocks[0]) else Err(IndexError);
    }
    if bsy == 0 {
      return Err(ValueError);
    }
    var temp: seq<Block> := [];
    var i := bsy;
    ghost var k: nat := 0;
    ghost var all := Runs(blocks, bsy);
    while i <= |blocks|
      invariant i == k * bsy + bsy && k <= |blocks| / bsy
      invariant temp == all[..k]
      decreases |blocks| + 1 - i
    {
      IndexSets.LeDivIff(k + 1, |blocks|, bsy);
      assert (k + 1) * bsy == k * bsy + bsy;
      assert all[k] == ConcatY(blocks[i - bsy..i]);
      assert all[..k + 1] == all[..k] + [all[k]];
      temp := temp + [ConcatY(blocks[i - bsy..i])];
      i := i + bsy;
      k := k + 1;
    }
    IndexSets.LeDivIff(k + 1, |blocks|, bsy);
    assert (k + 1) * bsy == k * bsy + bsy;
    assert all[..k] == all;
    if |temp| > 1 {
      r := Ok(ConcatX(temp));
    } else if |temp| == 1 {
      r := Ok(temp[0]);
    } else {
      r := Err(IndexError);
    }
  }

  /** Joining the y-sections of a block along y gives the block back. */
  lemma ConcatSplitY(a: Block, n: nat)
    requires n > 0
    ensures ConcatY(SplitY(a, n)) == a
  {
    var parts := SplitY(a, n);
    var c := ConcatY(parts);
    assert |c| == |a|;
    forall t | 0 <= t < |a| ensures c[t] == a[t] {
      assert |c[t]| == |a[t]|;
      forall v | 0 <= v < |a[t]| ensures c[t][v] == a[t][v] {
        assert |c[t][v]| == |a[t][v]|;
        forall x | 0 <= x < |a[t][v]| ensures c[t][v][x] == a[t][v][x] {
          var rows := seq(n, i requires 0 <= i < n => RowOf(parts[i], t, v, x));
          assert rows == Pieces(a[t][v][x], n);
          ConcatPieces(a[t][v][x], n);
        }
      }
    }
  }

  /** Joining the x-sections of a block along x gives the block back. */
  lemma ConcatSplitX(a: Block, n: nat)
    requires n > 0
    ensures ConcatX(SplitX(a, n)) == a
  {
    var parts := SplitX(a, n);
    var c := ConcatX(parts);
    assert |c| == |a|;
    forall t | 0 <= t < |a| ensures c[t] == a[t] {
      assert |c[t]| == |a[t]|;
      forall v | 0 <= v < |a[t]| ensures c[t][v] == a[t][v] {
        var planes := seq(n, i requires 0 <= i < n => PlaneOf(parts[i], t, v));
        assert planes == Pieces(a[t][v], n);
        ConcatPieces(a[t][v], n);
      }
    }
  }

  /** One section is the whole sequence. */
  lemma OnePiece<T>(s: seq<T>)
    ensures Pieces(s, 1) == [s]
  {
    SplitPointStep(|s|, 1, 0);
    assert Pieces(s, 1)[0] == s[0..|s|] == s;
  }

  /** Splitting into one section along x, or along y, keeps the block. */
  lemma SplitOne(a: Block)
    ensures SplitX(a, 1) == [a] && SplitY(a, 1) == [a]
  {
    var x := SplitX(a, 1)[0];
    var y := SplitY(a, 1)[0];
    forall t | 0 <= t < |a| ensures x[t] == a[t] && y[t] == a[t] {
      forall v | 0 <= v < |a[t]| ensures x[t][v] == a[t][v] && y[t][v] == a[t][v] {
        OnePiece(a[t][v]);
        forall r | 0 <= r < |a[t][v]| ensures y[t][v][r] == a[t][v][r] {
          OnePiece(a[t][v][r]);
        }
      }
    }
    assert x == a && y == a;
  }

  /** Equal-length parts end to end: `|parts| * m` items. */
  lemma {:induction false} FlattenEvenLength<T>(parts: seq<seq<T>>, m: nat)
    requires forall i :: 0 <= i < |parts| ==> |parts[i]| == m
    ensures |Flatten(parts)| == |parts| * m
    decreases |parts|
  {
    if |parts| > 0 {
      var n := |parts|;
      FlattenEvenLength(parts[..n - 1], m);
      assert (n - 1) * m + m == n * m;
    }
  }

  /** Equal-length parts end to end: part `k` sits at `k*m`. */
  lemma {:induction false} FlattenEven<T>(parts: seq<seq<T>>, m: nat, k: nat)
    requires forall i :: 0 <= i < |parts| ==> |parts[i]| == m
    requires k < |parts|
    ensures |Flatten(parts)| == |parts| * m
    ensures k * m + m <= |parts| * m
    ensures Flatten(parts)[k * m..k * m + m] == parts[k]
    decreases |parts|
  {
    var n := |parts|;
    var init := parts[..n - 1];
    var head := Flatten(init);
    var last := parts[n - 1];
    FlattenEvenLength(parts, m);
    FlattenEvenLength(init, m);
    assert Flatten(parts) == head + last;
    NextMultiple(k, n, m);
    if k < n - 1 {
      FlattenEven(init, m, k);
      SliceOfHead(head, last, k * m, k * m + m);
    } else {
      SliceOfTail(head, last, k * m);
    }
  }

  /** A slice inside the first operand of a concatenation. */
  lemma SliceOfHead<T>(head: seq<T>, tail: seq<T>, lo: nat, hi: nat)
    requires lo <= hi <= |head|
    ensures (head + tail)[lo..hi] == head[lo..hi]
  {
  }

  /** The second operand of a concatenation, as a slice of it. */
  lemma SliceOfTail<T>(head: seq<T>, tail: seq<T>, lo: nat)
    requires lo == |head|
    ensures (head + tail)[lo..lo + |tail|] == tail
  {
  }

  /**
   * `rebuild_blocks(create_blocks(arr, bsx, bsy), bsx, bsy)` gives `arr`
   * back for any positive section counts.
   */
  lemma CreateRebuildRoundTrip(a: Block, bsx: nat, bsy: nat)
    requires bsx > 0 && bsy > 0
    ensures CreateBlocks(a, bsx, bsy).Ok?
    ensures RebuildSplit(CreateBlocks(a, bsx, bsy).value, bsy) == Ok(a)
  {
    var xs := SplitX(a, bsx);
    var rows := seq(bsx, i requires 0 <= i < bsx => SplitY(xs[i], bsy));
    var blocks := Flatten(rows);
    assert CreateBlocks(a, bsx, bsy).value == blocks;
    FlattenEven(rows, bsy, 0);
    assert |blocks| == bsx * bsy;
    IndexSets.LeDivIff(bsx, |blocks|, bsy);
    IndexSets.LeDivIff(bsx + 1, |blocks|, bsy);
    assert (bsx + 1) * bsy == bsx * bsy + bsy;
    assert |blocks| / bsy == bsx;
    var temp := Runs(blocks, bsy);
    forall k | 0 <= k < bsx ensures temp[k] == xs[k] {
      FlattenEven(rows, bsy, k);
      ConcatSplitY(xs[k], bsy);
    }
    assert temp == xs;
    if bsx > 1 {
      ConcatSplitX(a, bsx);
    } else {
      SplitOne(a);
      if bsy == 1 {
        SplitOne(xs[0]);
        assert blocks == rows[0];
      }
    }
  }
}
