/**
 * The index arithmetic of the GPU swept kernels: the flattened thread
 * number, the thread's place in the block's shared tile and in the global
 * state array, and, per thread, the iterations at which the `UpPyramid`,
 * `Octahedron` and `DownPyramid` kernels apply the stencil and the time
 * slots they write. Each thread is modelled on its own, sequentially; the
 * barriers and the shared-memory fills between threads are not part of this
 * model.
 */
module Kernels {
  import opened PyCore

  /** `gridDim` and `blockDim` of a two-dimensional launch. */
  datatype Launch = Launch(gdx: nat, gdy: nat, bdx: nat, bdy: nat)

  /** `blockIdx` and `threadIdx` of one thread. */
  datatype Thread = Thread(blockX: nat, blockY: nat, tx: nat, ty: nat)

  predicate Valid(l: Launch, th: Thread)
  {
    th.blockX < l.gdx && th.blockY < l.gdy && th.tx < l.bdx && th.ty < l.bdy
  }

  /** The number of threads of the launch. */
  function Threads(l: Launch): nat
  {
    (l.gdx * l.gdy) * (l.bdx * l.bdy)
  }

  lemma MulLeMono(a: int, b: int, m: int)
    requires a <= b && 0 <= m
    ensures a * m <= b * m
  {
    assert (b - a) * m >= 0;
    assert (b - a) * m == b * m - a * m;
  }

  /** A digit `b` below `m` after a leading digit `a` below `n`. */
  lemma RadixBound(a: int, b: int, m: int, n: int)
    requires 0 <= a < n && 0 <= b < m
    ensures 0 <= a * m + b < n * m
  {
    MulLeMono(a, n - 1, m);
    MulLeMono(0, a, m);
    assert (n - 1) * m == n * m - m;
  }

  /** `getGlobalIdx_2D_2D`: the block number times the block size, plus the thread's row-major place in its block. */
  function GlobalIdx2D(l: Launch, th: Thread): int
  {
    (th.blockX + th.blockY * l.gdx) * (l.bdx * l.bdy) + (th.ty * l.bdx + th.tx)
  }

  /** Every thread of the launch gets a number in `[0, threads)`. */
  lemma GlobalIdxRange(l: Launch, th: Thread)
    requires Valid(l, th)
    ensures 0 <= GlobalIdx2D(l, th) < Threads(l)
  {
    RadixBound(th.blockY, th.blockX, l.gdx, l.gdy);
    RadixBound(th.ty, th.tx, l.bdx, l.bdy);
    RadixBound(th.blockX + th.blockY * l.gdx, th.ty * l.bdx + th.tx, l.bdx * l.bdy, l.gdx * l.gdy);
  }

  /** Distinct threads get distinct numbers. */
  lemma GlobalIdxInjective(l: Launch, th: Thread, th': Thread)
    requires Valid(l, th) && Valid(l, th')
    requires GlobalIdx2D(l, th) == GlobalIdx2D(l, th')
    ensures th == th'
  {
    RadixBound(th.ty, th.tx, l.bdx, l.bdy);
    RadixBound(th'.ty, th'.tx, l.bdx, l.bdy);
    MixedRadixInjective(th.blockX + th.blockY * l.gdx, th.ty * l.bdx + th.tx, th'.blockX + th'.blockY * l.gdx, th'.ty * l.bdx + th'.tx, l.bdx * l.bdy);
    MixedRadixInjective(th.blockY, th.blockX, th'.blockY, th'.blockX, l.gdx);
    MixedRadixInjective(th.ty, th.tx, th'.ty, th'.tx, l.bdx);
  }

  /** `n` below `g*t` has quotient below `g`. */
  lemma QuotientBelow(n: nat, t: nat, g: nat)
    requires n < g * t
    ensures t > 0 && n / t < g
  {
    if n / t >= g {
      MulLeMono(g, n / t, t);
    }
  }

  /** The thread that `getGlobalIdx_2D_2D` numbers `n`. */
  function ThreadOf(l: Launch, n: nat): (th: Thread)
    requires n < Threads(l)
    ensures Valid(l, th) && GlobalIdx2D(l, th) == n
  {
    Digits(l, n);
    var block := n / (l.bdx * l.bdy);
    var inner := n % (l.bdx * l.bdy);
    Thread(block % l.gdx, block / l.gdx, inner % l.bdx, inner / l.bdx)
  }

  /** The block and in-block digits of a thread number below the thread count. */
  lemma Digits(l: Launch, n: nat)
    requires n < Threads(l)
    ensures l.bdx > 0 && l.bdy > 0 && l.gdx > 0 && l.bdx * l.bdy > 0
    ensures var block := n / (l.bdx * l.bdy);
      var inner := n % (l.bdx * l.bdy);
      && 0 <= block % l.gdx && 0 <= block / l.gdx && 0 <= inner % l.bdx && 0 <= inner / l.bdx
      && var th := Thread(block % l.gdx, block / l.gdx, inner % l.bdx, inner / l.bdx);
      Valid(l, th) && GlobalIdx2D(l, th) == n
  {
    var m := l.bdx * l.bdy;
    QuotientBelow(n, m, l.gdx * l.gdy);
    var block := n / m;
    var inner := n % m;
    assert n == block * m + inner;
    QuotientBelow(block, l.gdx, l.gdy);
    assert l.bdx > 0 && l.bdy > 0;
    QuotientBelow(inner, l.bdx, l.bdy);
    assert block == (block / l.gdx) * l.gdx + block % l.gdx;
    assert inner == (inner / l.bdx) * l.bdx + inner % l.bdx;
  }

  /** The numbering is a bijection from the launch's threads onto `[0, threads)`. */
  lemma GlobalIdxBijection(l: Launch)
    ensures forall th :: Valid(l, th) ==> 0 <= GlobalIdx2D(l, th) < Threads(l)
    ensures forall th, th' :: Valid(l, th) && Valid(l, th') && GlobalIdx2D(l, th) == GlobalIdx2D(l, th') ==> th == th'
    ensures forall n: nat :: n < Threads(l) ==> Valid(l, ThreadOf(l, n)) && GlobalIdx2D(l, ThreadOf(l, n)) == n
  {
    forall th | Valid(l, th) ensures 0 <= GlobalIdx2D(l, th) < Threads(l) {
      GlobalIdxRange(l, th);
    }
    forall th, th' | Valid(l, th) && Valid(l, th') && GlobalIdx2D(l, th) == GlobalIdx2D(l, th')
      ensures th == th'
    {
      GlobalIdxInjective(l, th, th');
    }
  }

  /** `get_sgid(tidx, tidy)`: row-major place in a shared tile whose rows are `blockDim.y + 2*OPS` long. */
  function Sgid(bdy: nat, ops: nat, tidx: int, tidy: int): int
  {
    tidy + (bdy + 2 * ops) * tidx
  }

  /** Inside the padded tile, distinct places have distinct shared indices, all within the tile. */
  lemma SgidInjective(bdx: nat, bdy: nat, ops: nat, tidx: nat, tidy: nat, tidx': nat, tidy': nat)
    requires tidx < bdx + 2 * ops && tidy < bdy + 2 * ops
    requires tidx' < bdx + 2 * ops && tidy' < bdy + 2 * ops
    ensures 0 <= Sgid(bdy, ops, tidx, tidy) < (bdx + 2 * ops) * (bdy + 2 * ops)
    ensures Sgid(bdy, ops, tidx, tidy) == Sgid(bdy, ops, tidx', tidy') ==> tidx == tidx' && tidy == tidy'
  {
    RadixBound(tidx, tidy, bdy + 2 * ops, bdx + 2 * ops);
    if Sgid(bdy, ops, tidx, tidy) == Sgid(bdy, ops, tidx', tidy') {
      MixedRadixInjective(tidx, tidy, tidx', tidy', bdy + 2 * ops);
    }
  }

  /** The length of a y-row of the global state: `gridDim.y*blockDim.y + 2*OPS`. */
  function Major(l: Launch, ops: nat): nat
  {
    l.gdy * l.bdy + 2 * ops
  }

  /** `get_gid()`: the thread's cell of the global state array, rows `Major` long. */
  function Gid(l: Launch, ops: nat, th: Thread): int
  {
    var m := Major(l, ops);
    m * (ops + th.tx) + ops + th.ty + l.bdy * th.blockY + l.bdx * th.blockX * m
  }

  /**
   * `get_gid` is the row-major index of the cell `(x, y)` with
   * `x = OPS + tx + bdx*bx` and `y = OPS + ty + bdy*by`; both lie past the
   * `OPS` halo and before the far halo.
   */
  lemma GidCell(l: Launch, ops: nat, th: Thread)
    requires Valid(l, th)
    ensures var x := ops + th.tx + l.bdx * th.blockX;
      var y := ops + th.ty + l.bdy * th.blockY;
      && Gid(l, ops, th) == x * Major(l, ops) + y
      && ops <= x < ops + l.gdx * l.bdx
      && ops <= y < Major(l, ops) - ops
  {
    var m := Major(l, ops);
    assert (ops + th.tx + l.bdx * th.blockX) * m == m * (ops + th.tx) + l.bdx * th.blockX * m;
    RadixBound(th.blockX, th.tx, l.bdx, l.gdx);
    RadixBound(th.blockY, th.ty, l.bdy, l.gdy);
  }

  /** Distinct threads of the launch update distinct cells. */
  lemma GidInjective(l: Launch, ops: nat, th: Thread, th': Thread)
    requires Valid(l, th) && Valid(l, th')
    requires Gid(l, ops, th) == Gid(l, ops, th')
    ensures th == th'
  {
    GidCell(l, ops, th);
    GidCell(l, ops, th');
    MixedRadixInjective(ops + th.tx + l.bdx * th.blockX, ops + th.ty + l.bdy * th.blockY,
                        ops + th'.tx + l.bdx * th'.blockX, ops + th'.ty + l.bdy * th'.blockY, Major(l, ops));
    MixedRadixInjective(th.blockX, th.tx, th'.blockX, th'.tx, l.bdx);
    MixedRadixInjective(th.blockY, th.ty, th'.blockY, th'.ty, l.bdy);
  }

  // ---------------------------------------------------------------------
  // Swept windows and time slots, per thread

  /** The lower bound of the shrinking (up) window at iteration `k`. */
  function UpLo(ops: nat, k: int): int { ops + k * ops }

  /** The exclusive upper bound of the shrinking window on an axis of `bd` threads. */
  function UpHi(bd: nat, ops: nat, k: int): int { bd + ops - k * ops }

  /** Active in the up window: `lx <= tidx < ux` and `ly <= tidy < uy`. */
  predicate UpActive(bdx: nat, bdy: nat, ops: nat, k: int, tidx: int, tidy: int)
  {
    UpLo(ops, k) <= tidx < UpHi(bdx, ops, k) && UpLo(ops, k) <= tidy < UpHi(bdy, ops, k)
  }

  /**
   * The lower bound of the growing (down) window at iteration `k`: the
   * kernel starts from `(blockDim+OPS)/TWO + 1 - OPS` with `TWO` a float,
   * truncated on assignment to an `int`.
   */
  function DownLo(bd: nat, ops: nat, k: int): int
  {
    Trunc((bd + ops) as real / 2.0 + 1.0 - ops as real) - k * ops
  }

  /** The inclusive upper bound of the growing window: from `(blockDim+OPS)/TWO + OPS`, truncated. */
  function DownHi(bd: nat, ops: nat, k: int): int
  {
    Trunc((bd + ops) as real / 2.0 + ops as real) + k * ops
  }

  /** Active in the down window: `lx <= tidx <= ux` and `ly <= tidy <= uy`. */
  predicate DownActive(bdx: nat, bdy: nat, ops: nat, k: int, tidx: int, tidy: int)
  {
    DownLo(bdx, ops, k) <= tidx <= DownHi(bdx, ops, k) && DownLo(bdy, ops, k) <= tidy <= DownHi(bdy, ops, k)
  }

  /**
   * The time slots a thread writes in `n` iterations of a shrinking loop
   * whose iteration `i` writes slot `base + i + 1`.
   */
  function UpSlots(bdx: nat, bdy: nat, ops: nat, tidx: int, tidy: int, n: nat, base: int): seq<int>
  {
    if n == 0 then []
    else UpSlots(bdx, bdy, ops, tidx, tidy, n - 1, base) + if UpActive(bdx, bdy, ops, n - 1, tidx, tidy) then [base + n] else []
  }

  /** The same for a growing loop. */
  function DownSlots(bdx: nat, bdy: nat, ops: nat, tidx: int, tidy: int, n: nat, base: int): seq<int>
  {
    if n == 0 then []
    else DownSlots(bdx, bdy, ops, tidx, tidy, n - 1, base) + if DownActive(bdx, bdy, ops, n - 1, tidx, tidy) then [base + n] else []
  }

  /**
   * The shrinking loop of a kernel, as one thread `(tidx, tidy)` runs it:
   * `for (k = from; k < to; k++)` with the window starting as the whole
   * block `[OPS, blockDim+OPS)` and losing `OPS` a side per iteration; an
   * active thread writes slot `k + 1`.
   */
  method ShrinkingLoop(bdx: nat, bdy: nat, ops: nat, tidx: int, tidy: int, from: nat, to: int) returns (slots: seq<int>)
    ensures slots == UpSlots(bdx, bdy, ops, tidx, tidy, if to <= from then 0 else to - from, from)
  {
    var lx: int, ly: int, ux: int, uy: int := ops, ops, bdx + ops, bdy + ops;
    slots := [];
    ghost var n: nat := if to <= from then 0 else to - from;
    ghost var i: nat := 0;
    var k := from;
    while k < to
      invariant k == from + i && i <= n
      invariant lx == UpLo(ops, i) && ux == UpHi(bdx, ops, i)
      invariant ly == UpLo(ops, i) && uy == UpHi(bdy, ops, i)
      invariant slots == UpSlots(bdx, bdy, ops, tidx, tidy, i, from)
      decreases n - i
    {
      if tidx < ux && tidx >= lx && tidy < uy && tidy >= ly {
        slots := slots + [k + 1];
      }
      assert (i + 1) * ops == i * ops + ops;
      ux := ux - ops;
      uy := uy - ops;
      lx := lx + ops;
      ly := ly + ops;
      k := k + 1;
      i := i + 1;
    }
  }

  /**
   * The growing loop of a kernel, as one thread runs it: `MPSS` iterations
   * from the window `[(blockDim+OPS)/TWO + 1 - OPS, (blockDim+OPS)/TWO + OPS]`,
   * gaining `OPS` a side per iteration; an active thread writes slot `k + 1`.
   */
  method GrowingLoop(bdx: nat, bdy: nat, ops: nat, tidx: int, tidy: int, mpss: nat) returns (slots: seq<int>)
    ensures slots == DownSlots(bdx, bdy, ops, tidx, tidy, mpss, 0)
  {
    var lx := Trunc((bdx + ops) as real / 2.0 + 1.0 - ops as real);
    var ly := Trunc((bdy + ops) as real / 2.0 + 1.0 - ops as real);
    var ux := Trunc((bdx + ops) as real / 2.0 + ops as real);
    var uy := Trunc((bdy + ops) as real / 2.0 + ops as real);
    slots := [];
    for k := 0 to mpss
      invariant lx == DownLo(bdx, ops, k) && ux == DownHi(bdx, ops, k)
      invariant ly == DownLo(bdy, ops, k) && uy == DownHi(bdy, ops, k)
      invariant slots == DownSlots(bdx, bdy, ops, tidx, tidy, k, 0)
    {
      if tidx <= ux && tidx >= lx && tidy <= uy && tidy >= ly {
        slots := slots + [k + 1];
      }
      ux := ux + ops;
      uy := uy + ops;
      lx := lx - ops;
      ly := ly - ops;
    }
  }

  /** `UpPyramid` for the thread `(tx, ty)` of its block: the shrinking loop over `k = 0 .. MPSS-1`. */
  method UpPyramidKernel(bdx: nat, bdy: nat, ops: nat, mpss: nat, tx: nat, ty: nat) returns (slots: seq<int>)
    ensures slots == UpSlots(bdx, bdy, ops, tx + ops, ty + ops, mpss, 0)
  {
    slots := ShrinkingLoop(bdx, bdy, ops, tx + ops, ty + ops, 0, mpss);
  }

  /**
   * `Octahedron` for one thread: the growing loop writing slots `1..MPSS`,
   * then, with the window reset to the whole block, the shrinking loop over
   * `k = MPSS .. 2*MPSS-2` writing slots `MPSS+1 .. 2*MPSS-1`.
   */
  method OctahedronKernel(bdx: nat, bdy: nat, ops: nat, mpss: nat, tx: nat, ty: nat) returns (slots: seq<int>)
    ensures slots == DownSlots(bdx, bdy, ops, tx + ops, ty + ops, mpss, 0)
                   + UpSlots(bdx, bdy, ops, tx + ops, ty + ops, if mpss == 0 then 0 else mpss - 1, mpss)
  {
    var down := GrowingLoop(bdx, bdy, ops, tx + ops, ty + ops, mpss);
    var up := ShrinkingLoop(bdx, bdy, ops, tx + ops, ty + ops, mpss, 2 * mpss - 1);
    slots := down + up;
  }

  /** `DownPyramid` for one thread: the growing loop alone, writing slots `1..MPSS`. */
  method DownPyramidKernel(bdx: nat, bdy: nat, ops: nat, mpss: nat, tx: nat, ty: nat) returns (slots: seq<int>)
    ensures slots == DownSlots(bdx, bdy, ops, tx + ops, ty + ops, mpss, 0)
  {
    slots := GrowingLoop(bdx, bdy, ops, tx + ops, ty + ops, mpss);
  }

  /** A thread active in the shrinking window at iteration `k` was active at every earlier one. */
  lemma UpActiveEarlier(bdx: nat, bdy: nat, ops: nat, j: int, k: int, tidx: int, tidy: int)
    requires j <= k && UpActive(bdx, bdy, ops, k, tidx, tidy)
    ensures UpActive(bdx, bdy, ops, j, tidx, tidy)
  {
    MulLeMono(j, k, ops);
  }

  /** A thread active in the growing window at iteration `j` stays active at every later one. */
  lemma DownActiveLater(bdx: nat, bdy: nat, ops: nat, j: int, k: int, tidx: int, tidy: int)
    requires j <= k && DownActive(bdx, bdy, ops, j, tidx, tidy)
    ensures DownActive(bdx, bdy, ops, k, tidx, tidy)
  {
    MulLeMono(j, k, ops);
  }

  /**
   * In a shrinking loop a thread writes the consecutive slots
   * `base+1, base+2, ...`, one per iteration, for exactly as long as it is
   * inside the window.
   */
  lemma {:induction false} UpSlotsConsecutive(bdx: nat, bdy: nat, ops: nat, tidx: int, tidy: int, n: nat, base: int)
    ensures var s := UpSlots(bdx, bdy, ops, tidx, tidy, n, base);
      && |s| <= n
      && (forall i :: 0 <= i < |s| ==> s[i] == base + i + 1)
      && (forall k :: 0 <= k < n ==> (UpActive(bdx, bdy, ops, k, tidx, tidy) <==> k < |s|))
  {
    if n > 0 {
      UpSlotsConsecutive(bdx, bdy, ops, tidx, tidy, n - 1, base);
      if UpActive(bdx, bdy, ops, n - 1, tidx, tidy) {
        forall k | 0 <= k < n - 1 ensures UpActive(bdx, bdy, ops, k, tidx, tidy) {
          UpActiveEarlier(bdx, bdy, ops, k, n - 1, tidx, tidy);
        }
      }
    }
  }

  /**
   * In a growing loop a thread writes the consecutive slots ending with
   * `base + n`: it is inside the window from some iteration to the last.
   */
  lemma {:induction false} DownSlotsConsecutive(bdx: nat, bdy: nat, ops: nat, tidx: int, tidy: int, n: nat, base: int)
    ensures var s := DownSlots(bdx, bdy, ops, tidx, tidy, n, base);
      && |s| <= n
      && (forall i :: 0 <= i < |s| ==> s[i] == base + n - |s| + i + 1)
      && (forall k :: 0 <= k < n ==> (DownActive(bdx, bdy, ops, k, tidx, tidy) <==> n - |s| <= k))
  {
    if n > 0 {
      var s' := DownSlots(bdx, bdy, ops, tidx, tidy, n - 1, base);
      DownSlotsConsecutive(bdx, bdy, ops, tidx, tidy, n - 1, base);
      if !DownActive(bdx, bdy, ops, n - 1, tidx, tidy) {
        if |s'| > 0 {
          DownActiveLater(bdx, bdy, ops, n - 2, n - 1, tidx, tidy);
        }
      }
    }
  }

  /** Every thread of the block is inside the first shrinking window, so each writes slot `base + 1`. */
  lemma UpFirstWindowIsBlock(bdx: nat, bdy: nat, ops: nat, tx: nat, ty: nat, base: int)
    requires tx < bdx && ty < bdy
    ensures UpActive(bdx, bdy, ops, 0, tx + ops, ty + ops)
    ensures UpSlots(bdx, bdy, ops, tx + ops, ty + ops, 1, base) == [base + 1]
  {
  }

  // ---------------------------------------------------------------------
  // Centring of the growing window

  /**
   * The growing window the kernels evidently intend: iteration `j` of the
   * growing loop is the shrinking window of iteration `MPSS - j` (the CPU
   * down pyramid likewise visits the up pyramid's layers in reverse), so it
   * starts as the `2*OPS` wide centre `[bd/2, bd/2 + 2*OPS - 1]`.
   */
  function DownLoCentred(bd: nat, ops: nat, k: int): int { bd / 2 - k * ops }

  function DownHiCentred(bd: nat, ops: nat, k: int): int { bd / 2 + 2 * ops - 1 + k * ops }

  /**
   * For a block of `2*OPS*(MPSS+1)` threads, the centred growing window at
   * iteration `j` is exactly the shrinking window at iteration `MPSS - j`.
   */
  lemma DownCentredMirrorsUp(bd: nat, ops: nat, mpss: nat, j: int)
    requires bd == 2 * ops * (mpss + 1) && 0 <= j <= mpss
    ensures DownLoCentred(bd, ops, j) == UpLo(ops, mpss - j)
    ensures DownHiCentred(bd, ops, j) == UpHi(bd, ops, mpss - j) - 1
  {
    assert bd == 2 * (ops * (mpss + 1));
    assert bd / 2 == ops * (mpss + 1);
    assert (mpss - j) * ops == ops * (mpss + 1) - ops - j * ops;
  }

  /** With `OPS` of 1 or 2 and an even block, the kernels' growing window is the centred one. */
  lemma DownWindowCentredForSmallOps(bd: nat, ops: nat, k: int)
    requires bd % 2 == 0 && (ops == 1 || ops == 2)
    ensures DownLo(bd, ops, k) == DownLoCentred(bd, ops, k)
    ensures DownHi(bd, ops, k) == DownHiCentred(bd, ops, k)
  {
    var h := bd / 2;
    assert bd == 2 * h;
    if ops == 1 {
      assert (bd + ops) as real / 2.0 + 1.0 - ops as real == h as real + 0.5;
      assert (bd + ops) as real / 2.0 + ops as real == (h + 1) as real + 0.5;
    } else {
      assert (bd + ops) as real / 2.0 + 1.0 - ops as real == h as real;
      assert (bd + ops) as real / 2.0 + ops as real == (h + 3) as real;
    }
  }

  /**
   * With `OPS == 3` and a block of 12 threads (`MPSS == 1`), the kernels'
   * first growing window is `[5, 10]` where the shrinking window it should
   * mirror is `[6, 11]`: the thread at 11 is skipped and the one at 5 is
   * stepped.
   */
  lemma DownWindowOffCentre()
    ensures DownLo(12, 3, 0) == 5 && DownHi(12, 3, 0) == 10
    ensures UpLo(3, 1) == 6 && UpHi(12, 3, 1) - 1 == 11
    ensures UpActive(12, 12, 3, 1, 11, 11) && !DownActive(12, 12, 3, 0, 11, 11)
    ensures !UpActive(12, 12, 3, 1, 5, 5) && DownActive(12, 12, 3, 0, 5, 5)
  {
    assert (12 + 3) as real / 2.0 + 1.0 - 3 as real == 5.5;
    assert (12 + 3) as real / 2.0 + 3 as real == 10.5;
  }
}
