/**
 * Splitting the global domain between the GPU ranks and the CPU ranks by the
 * affinity ratio, along whole block columns so that no column of blocks is
 * shared by the two architectures.
 *
 * The domain is (variables, x, y). Shapes are assumed divisible by the block
 * size (so that numpy's float divisions are exact); the affinity is a rational.
 */
module Affinity {
  import opened PyCore

  /** A quotient `q = a/b` with `0 <= a < b` lies in [0, 1) and exceeds one half iff `2a > b`. */
  lemma QuotientBounds(q: real, a: real, b: real)
    requires b > 0.0 && q * b == a && 0.0 <= a < b
    ensures 0.0 <= q < 1.0 && (q > 0.5 <==> 2.0 * a > b)
  {
    RealMulSign(q, b);
    var d1 := q - 1.0;
    RealMulSign(d1, b);
    assert d1 * b == a - b;
    var d2 := q - 0.5;
    RealMulSign(d2, b);
    assert d2 * b == a - 0.5 * b;
  }

  /** `round(m / per)` for a remainder `m` of `per` is 1 exactly when `m` is over half of `per`. */
  lemma RoundFraction(m: int, per: int)
    requires 0 <= m < per
    ensures RoundHalfEven(m as real / per as real) == if 2 * m > per then 1 else 0
  {
    var q := m as real / per as real;
    QuotientBounds(q, m as real, per as real);
  }

  /**
   * The column rounding shared by both affinity splits: `g % per` blocks stick
   * out of the last whole column; `round((g % per)/per)` decides whether that
   * column is completed or dropped. The result counts whole columns.
   * (`g + round(..)*per - g % per` is an exact multiple of `per`, so its
   * quotient is `g / per + round(..)`.)
   */
  function ColumnRound(g: int, per: nat): (nc: int)
    requires per > 0
    // nc*per is a nearest multiple of per to g; an exact half column is dropped
    ensures -(per as int) <= 2 * (nc * per - g) < per
  {
    var colMod := g % per;
    var up := RoundHalfEven(colMod as real / per as real);
    RoundFraction(colMod, per);
    assert g == (g / per) * per + colMod;
    assert (g / per + up) * per == (g / per) * per + up * per;
    g / per + up
  }

  /** `round(af * n)`: the share of `n` blocks an affinity `af` asks for. */
  function BlockShare(af: real, n: nat): (g: int)
    // an affinity in [0, 1] asks for between none and all of the blocks
    ensures 0.0 <= af <= 1.0 ==> 0 <= g <= n
  {
    var y := n as real;
    assert 0.0 <= af <= 1.0 ==> 0 <= RoundHalfEven(af * y) <= n by {
      if 0.0 <= af <= 1.0 {
        RealProductWithin(af, y);
        RoundWithin(af * y, n);
      }
    }
    RoundHalfEven(af * y)
  }

  /** Rounding a value in [0, n] stays in [0, n]. */
  lemma RoundWithin(r: real, n: nat)
    requires 0.0 <= r <= n as real
    ensures 0 <= RoundHalfEven(r) <= n
  {
    var k := RoundHalfEven(r);
    assert -1.0 < k as real < n as real + 1.0;
  }

  /** `af * y` lies in [0, y] for `af` in [0, 1] and `y >= 0`. */
  lemma RealProductWithin(af: real, y: real)
    requires 0.0 <= af <= 1.0 && y >= 0.0
    ensures 0.0 <= af * y <= y
  {
    if y > 0.0 {
      RealMulSign(af, y);
      RealMulSign(1.0 - af, y);
      assert y - af * y == (1.0 - af) * y;
    }
  }

  /** Whole columns taken from a share `g` in [0, cols*per] stay in [0, cols]. */
  lemma ColumnRoundBounds(g: int, per: nat, cols: nat)
    requires per > 0 && 0 <= g <= cols * per
    ensures 0 <= ColumnRound(g, per) <= cols
  {
    var nc := ColumnRound(g, per);
    assert (-1) * per < nc * per;
    MulLessCancel(-1, nc, per);
    assert nc * per < (cols + 1) * per;
    MulLessCancel(nc, cols + 1, per);
  }

  /** A rounded share of `cols * per` blocks makes between none and all of the columns. */
  lemma ShareToColumns(af: real, n: nat, g: int, per: nat, cols: nat)
    requires per > 0 && n == cols * per && g == BlockShare(af, n)
    ensures 0.0 <= af <= 1.0 ==> 0 <= ColumnRound(g, per) <= cols
  {
    if 0.0 <= af <= 1.0 {
      ColumnRoundBounds(g, per, cols);
    }
  }

  /**
   * The number of whole block columns given to the GPU when the domain has
   * `cols` columns of `per` blocks each: `round(affinity * cols * per)` blocks,
   * completed to or cut back to a whole column.
   */
  function GpuColumns(affinity: real, cols: nat, per: nat): (nc: int)
    requires per > 0
    // the nearest whole column count to the rounded block share
    ensures var g := BlockShare(affinity, cols * per);
      -(per as int) <= 2 * (nc * per - g) < per
    // an affinity in [0, 1] takes between none and all of the columns
    ensures 0.0 <= affinity <= 1.0 ==> 0 <= nc <= cols
  {
    var g := BlockShare(affinity, cols * per);
    ShareToColumns(affinity, cols * per, g, per, cols);
    ColumnRound(g, per)
  }

  /** A multiple of `b` is `b` times its quotient by `b`. */
  lemma ExactQuotient(n: nat, b: nat)
    requires b > 0 && n % b == 0
    ensures b * (n / b) == n
  {
    assert n == (n / b) * b + n % b;
  }

  /** `k` whole columns of width `w` fit in `cols` columns. */
  lemma ColumnsFit(w: nat, k: int, cols: nat)
    requires 0 <= k <= cols
    ensures 0 <= w * k <= w * cols
  {
  }

  /** The GPU and CPU slices of `get_affinity_slices`. */
  datatype Split = Split(gpu: seq<Slice>, cpu: seq<Slice>)

  /**
   * `get_affinity_slices(affinity, block_size, arr_shape)` with
   * `arr_shape == (nv, nx, ny)`. The GPU takes the first whole block columns
   * along x, the CPU the rest of x; the GPU slices hold only the variable and
   * x entries.
   */
  function GetAffinitySlices(affinity: real, bs0: nat, bs1: nat, nv: nat, nx: nat, ny: nat): (r: Result<Split>)
    requires bs0 > 0 ==> nx % bs0 == 0
    requires bs1 > 0 ==> ny % bs1 == 0
    // block_size of 0 divides by zero; so does an empty y extent (`% 0.0`)
    ensures r.Err? <==> bs0 == 0 || bs1 == 0 || ny == 0
    // the GPU x range is [0, bs0 * columns) for the columns the affinity selects,
    // counting nx / bs0 columns of ny / bs1 blocks
    ensures r.Ok? ==> r.value.gpu == [Slice(0, nv), Slice(0, bs0 * GpuColumns(affinity, nx / bs0, ny / bs1))]
    // the CPU takes the rest of x and all of y
    ensures r.Ok? ==> r.value.cpu == [Slice(0, nv), Slice(r.value.gpu[1].stop, nx), Slice(0, ny)]
    // for an affinity in [0, 1] the two x slices tile [0, nx)
    ensures r.Ok? && 0.0 <= affinity <= 1.0 ==> 0 <= r.value.gpu[1].stop <= nx
  {
    if bs1 == 0 || bs0 == 0 then Err(ZeroDivisionError)
    else
      var blocksPerColumn := ny / bs1;
      var blocksPerRow := nx / bs0;
      if blocksPerColumn == 0 then Err(ZeroDivisionError)
      else
        var numColumns := GpuColumns(affinity, blocksPerRow, blocksPerColumn);
        var xStop := bs0 * numColumns;
        assert 0.0 <= affinity <= 1.0 ==> 0 <= xStop <= nx by {
          if 0.0 <= affinity <= 1.0 {
            ColumnsFit(bs0, numColumns, blocksPerRow);
          }
        }
        Ok(Split([Slice(0, nv), Slice(0, xStop)],
                 [Slice(0, nv), Slice(xStop, nx), Slice(0, ny)]))
  }

  /**
   * `affinity_split(affinity, block_size, arr_shape, total_gpus)`, the older
   * split (`total_gpus` is unused by it). It counts its columns with
   * `nx / bs0` blocks each, i.e. as if they ran along y, but then uses the count
   * as a number of x columns; see `AffinitySplitOverrun`.
   */
  function AffinitySplit(affinity: real, bs0: nat, bs1: nat, nv: nat, nx: nat, ny: nat): (r: Result<Split>)
    requires bs0 > 0 ==> nx % bs0 == 0
    requires bs1 > 0 ==> ny % bs1 == 0
    ensures r.Err? <==> bs0 == 0 || bs1 == 0 || nx == 0
    // ny / bs1 columns of nx / bs0 blocks
    ensures r.Ok? ==> r.value.gpu == [Slice(0, nv), Slice(0, bs0 * GpuColumns(affinity, ny / bs1, nx / bs0)), Slice(0, ny)]
    // the CPU x range starts at the GPU x stop and ends at bs0 * blocks_per_column == nx
    ensures r.Ok? ==> r.value.cpu == [Slice(0, nv), Slice(r.value.gpu[1].stop, nx), Slice(0, ny)]
  {
    if bs1 == 0 || bs0 == 0 then Err(ZeroDivisionError)
    else
      var blocksPerRow := ny / bs1;
      var blocksPerColumn := nx / bs0;
      if blocksPerColumn == 0 then Err(ZeroDivisionError)
      else
        var numColumns := GpuColumns(affinity, blocksPerRow, blocksPerColumn);
        var numRows := blocksPerRow;
        ExactQuotient(ny, bs1);
        ExactQuotient(nx, bs0);
        Ok(Split([Slice(0, nv), Slice(0, bs0 * numColumns), Slice(0, bs1 * numRows)],
                 [Slice(0, nv), Slice(bs0 * numColumns, bs0 * blocksPerColumn), Slice(0, bs1 * numRows)]))
  }

  /**
   * The older split as written overruns the x extent on a domain with fewer
   * block columns than block rows: shape (1, 8, 32), blocks 4x4, affinity 1
   * gives the GPU x range [0, 32) and the CPU the negative-width [32, 8).
   */
  lemma AffinitySplitOverrun()
    ensures var r := AffinitySplit(1.0, 4, 4, 1, 8, 32);
      r.Ok? && r.value.gpu[1] == Slice(0, 32) && r.value.cpu[1] == Slice(32, 8)
  {
    RoundOfIntegral(16);
    assert 1.0 * (8 * 2) as real == 16 as real;
    assert 16 % 2 == 0;
    RoundFraction(0, 2);
    assert ColumnRound(16, 2) == 8;
  }

  /**
   * The older split with its columns counted along the right axis (as
   * `get_affinity_slices` does): `nx / bs0` columns of `ny / bs1` blocks, so the
   * GPU x range never exceeds the x extent and the CPU slice never has negative
   * width. The third (y) slice of each part is kept.
   */
  function AffinitySplitCorrected(affinity: real, bs0: nat, bs1: nat, nv: nat, nx: nat, ny: nat): (r: Result<Split>)
    requires bs0 > 0 ==> nx % bs0 == 0
    requires bs1 > 0 ==> ny % bs1 == 0
    ensures r.Err? <==> bs0 == 0 || bs1 == 0 || ny == 0
    ensures r.Ok? ==> r.value.gpu == [Slice(0, nv), Slice(0, bs0 * GpuColumns(affinity, nx / bs0, ny / bs1)), Slice(0, ny)]
    ensures r.Ok? ==> r.value.cpu == [Slice(0, nv), Slice(r.value.gpu[1].stop, nx), Slice(0, ny)]
    // the x slices tile [0, nx): neither has negative width
    ensures r.Ok? && 0.0 <= affinity <= 1.0 ==> 0 <= r.value.gpu[1].stop <= nx
  {
    match GetAffinitySlices(affinity, bs0, bs1, nv, nx, ny)
    case Err(e) => Err(e)
    case Ok(s) => Ok(Split(s.gpu + [Slice(0, ny)], s.cpu))
  }

  /** The smallest multiple of `m` that is at least `share`. */
  function RoundUpToMultiple(share: int, m: nat): (g: int)
    requires m > 0
    ensures g % m == 0 && share <= g < share + m
  {
    var blockMod := share % m;
    assert share == (share / m) * m + blockMod;
    if blockMod != 0 then
      DivModUnique(share / m + 1, 0, m);
      assert share + m - blockMod == (share / m + 1) * m;
      share + m - blockMod
    else share
  }

  /** Rounding a share in [0, k*m] up to a multiple of m stays in [0, k*m]. */
  lemma RoundUpWithin(share: int, m: nat, k: nat)
    requires m > 0 && 0 <= share <= k * m
    ensures 0 <= RoundUpToMultiple(share, m) <= k * m
  {
    var g := RoundUpToMultiple(share, m);
    MultipleAtMost(g, m, k);
  }

  /** A multiple of `m` below `k*m + m` is at most `k*m`. */
  lemma MultipleAtMost(g: int, m: nat, k: nat)
    requires m > 0 && g % m == 0 && g < k * m + m
    ensures g <= k * m
  {
    var q := g / m;
    assert g == q * m;
    assert q * m < (k + 1) * m;
    MulLessCancel(q, k + 1, m);
  }

  /** The GPU share `round(total / (1 + 1/af))` of an affinity ratio `af` (GPU:CPU). */
  function RatioShare(total: nat, af: real): (share: int)
    requires af != 0.0 && af != -1.0
    // a positive ratio gives the GPU between none and all of the blocks
    ensures af > 0.0 ==> 0 <= share <= total
  {
    var inv := 1.0 / af;
    assert inv * af == 1.0;
    assert 1.0 + inv != 0.0;
    var d := 1.0 + inv;
    var x := total as real / d;
    assert x * d == total as real;
    assert af > 0.0 ==> 0.0 <= x <= total as real by {
      if af > 0.0 {
        RealMulSign(inv, af);
        RealMulSign(x, d);
        RealMulSign(x, inv);
        assert x * d == x + x * inv;
      }
    }
    RoundHalfEven(x)
  }

  /**
   * `arch_work_blocks(plane_shape, block_size, gpu_affinity)` from the former
   * driver: the affinity is a GPU:CPU ratio; the GPU share is rounded up to a
   * whole number of y rows (`blocks_y` blocks each). Returns (gpu, cpu) blocks.
   */
  function ArchWorkBlocks(p0: nat, p1: nat, b0: nat, b1: nat, gpuAffinity: real): (r: Result<(int, int)>)
    // every division by zero raises: a zero block size, a zero affinity, an
    // affinity of -1 (1 + 1/af == 0) or no blocks along y
    ensures r.Err? <==>
      b0 == 0 || b1 == 0 || gpuAffinity == 0.0 || gpuAffinity == -1.0 || p1 / b1 == 0
    ensures r.Ok? ==>
      var total := (p0 / b0) * (p1 / b1);
      var share := RatioShare(total, gpuAffinity);
      var (gpu, cpu) := r.value;
      // rounded up to a whole number of rows, adding fewer than blocks_y
      && gpu % (p1 / b1) == 0 && share <= gpu < share + p1 / b1
      // the two shares make up all the blocks
      && gpu + cpu == total
      // a positive ratio never hands the GPU more than everything
      && (gpuAffinity > 0.0 ==> 0 <= gpu && 0 <= cpu)
  {
    if b0 == 0 || b1 == 0 || gpuAffinity == 0.0 || gpuAffinity == -1.0 || p1 / b1 == 0 then Err(ZeroDivisionError)
    else Ok(GpuCpuSplit(p0 / b0, p1 / b1, gpuAffinity))
  }

  /** The split itself, once the block counts along x and y are known. */
  function GpuCpuSplit(blocksX: nat, blocksY: nat, gpuAffinity: real): (r: (int, int))
    requires blocksY > 0 && gpuAffinity != 0.0 && gpuAffinity != -1.0
    ensures
      var share := RatioShare(blocksX * blocksY, gpuAffinity);
      && r.0 % blocksY == 0 && share <= r.0 < share + blocksY
      && r.0 + r.1 == blocksX * blocksY
      && (gpuAffinity > 0.0 ==> 0 <= r.0 && 0 <= r.1)
  {
    var total := blocksX * blocksY;
    var share := RatioShare(total, gpuAffinity);
    var gpu := RoundUpToMultiple(share, blocksY);
    assert gpuAffinity > 0.0 ==> 0 <= gpu <= total by {
      if gpuAffinity > 0.0 {
        RoundUpWithin(share, blocksY, blocksX);
      }
    }
    (gpu, total - gpu)
  }
}
