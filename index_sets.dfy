/**
 * The swept index sets: lists of (x, y) offsets inside a halo-padded block on
 * which one swept step computes. Each layer of a pyramid is a rectangle that
 * is `ops` smaller on every side than the one before; the bridges are the
 * strips between two neighbouring pyramids.
 *
 * `np.ndindex((nx, ny))` lists the cells of an nx-by-ny grid row-major (x
 * outer, y inner); a rectangle of cells listed that way is `RowMajor`.
 */
module IndexSets {
  import opened PyCore

  type Cell = (int, int)

  function Max(a: int, b: int): int { if a >= b then a else b }
  function Min(a: int, b: int): int { if a <= b then a else b }

  /** The cells (x, y) for y in [y0, y1). */
  function Row(x: int, y0: int, y1: int): (r: seq<Cell>)
    ensures |r| == Max(0, y1 - y0)
    ensures forall j :: 0 <= j < |r| ==> r[j] == (x, y0 + j)
  {
    seq(Max(0, y1 - y0), j => (x, y0 + j))
  }

  /** The rectangle [x0, x1) x [y0, y1) listed row-major. */
  function RowMajor(x0: int, x1: int, y0: int, y1: int): seq<Cell>
    decreases x1 - x0
  {
    if x0 >= x1 then [] else Row(x0, y0, y1) + RowMajor(x0 + 1, x1, y0, y1)
  }

  /** A rectangle holds exactly the cells inside its bounds. */
  lemma {:induction false} RowMajorMembers(x0: int, x1: int, y0: int, y1: int, c: Cell)
    ensures c in RowMajor(x0, x1, y0, y1) <==> x0 <= c.0 < x1 && y0 <= c.1 < y1
    decreases x1 - x0
  {
    if x0 < x1 {
      RowMajorMembers(x0 + 1, x1, y0, y1, c);
      assert c in Row(x0, y0, y1) <==> c.0 == x0 && y0 <= c.1 < y1 by {
        if c.0 == x0 && y0 <= c.1 < y1 {
          assert Row(x0, y0, y1)[c.1 - y0] == c;
        }
      }
    }
  }

  /** A rectangle of `x1 - x0` rows of `y1 - y0` cells. */
  lemma {:induction false} RowMajorLength(x0: int, x1: int, y0: int, y1: int)
    requires x0 <= x1
    ensures |RowMajor(x0, x1, y0, y1)| == (x1 - x0) * Max(0, y1 - y0)
    decreases x1 - x0
  {
    if x0 < x1 {
      RowMajorLength(x0 + 1, x1, y0, y1);
      assert (x1 - x0) * Max(0, y1 - y0) == Max(0, y1 - y0) + (x1 - x0 - 1) * Max(0, y1 - y0);
    }
  }

  /** Cutting the rows at `xm` splits the listing. */
  lemma {:induction false} RowMajorSplit(x0: int, xm: int, x1: int, y0: int, y1: int)
    requires x0 <= xm <= x1
    ensures RowMajor(x0, x1, y0, y1) == RowMajor(x0, xm, y0, y1) + RowMajor(xm, x1, y0, y1)
    decreases xm - x0
  {
    if x0 < xm {
      RowMajorSplit(x0 + 1, xm, x1, y0, y1);
    }
  }

  /** The rectangle is empty exactly when one of its ranges is. */
  lemma RowMajorEmpty(x0: int, x1: int, y0: int, y1: int)
    ensures |RowMajor(x0, x1, y0, y1)| > 0 <==> x0 < x1 && y0 < y1
  {
    if x0 < x1 && y0 < y1 {
      RowMajorMembers(x0, x1, y0, y1, (x0, y0));
    } else if x0 < x1 {
      RowMajorLength(x0, x1, y0, y1);
    }
  }

  /** `s[k:-k]` of `a + b + c` with `k` cells in each of `a` and `c` is `b`. */
  lemma SliceMiddle<T>(a: seq<T>, b: seq<T>, c: seq<T>, k: int)
    requires k > 0 && |a| == k && |c| == k
    ensures PySlice(a + b + c, k, -k) == b
  {
    var s := a + b + c;
    assert s[k..|s| - k] == b;
  }

  /** `s[k:-k]` is empty when `s` has fewer than `2k` cells. */
  lemma SliceShort<T>(s: seq<T>, k: int)
    requires k > 0 && |s| < 2 * k
    ensures PySlice(s, k, -k) == []
  {
  }

  /**
   * Dropping `c*w` cells from each end of a listing with rows of width `w`
   * (`s[c*w:-c*w]`) drops `c` rows from each end.
   */
  lemma SliceRows(x0: int, x1: int, y0: int, y1: int, c: int)
    requires c > 0 && y1 - y0 > 0
    ensures PySlice(RowMajor(x0, x1, y0, y1), c * (y1 - y0), -(c * (y1 - y0))) == RowMajor(x0 + c, x1 - c, y0, y1)
  {
    var w := y1 - y0;
    var k := c * w;
    assert Max(0, w) == w;
    if x1 - x0 >= 2 * c {
      SliceRowsWide(x0, x1, y0, y1, c, k);
    } else {
      SliceRowsNarrow(x0, x1, y0, y1, c, k);
    }
  }

  lemma SliceRowsWide(x0: int, x1: int, y0: int, y1: int, c: int, k: int)
    requires c > 0 && y1 - y0 > 0 && x1 - x0 >= 2 * c && k == c * (y1 - y0)
    ensures PySlice(RowMajor(x0, x1, y0, y1), k, -k) == RowMajor(x0 + c, x1 - c, y0, y1)
  {
    var a := RowMajor(x0, x0 + c, y0, y1);
    var b := RowMajor(x0 + c, x1 - c, y0, y1);
    var d := RowMajor(x1 - c, x1, y0, y1);
    RowMajorSplit(x0, x0 + c, x1, y0, y1);
    RowMajorSplit(x0 + c, x1 - c, x1, y0, y1);
    RowMajorLength(x0, x0 + c, y0, y1);
    RowMajorLength(x1 - c, x1, y0, y1);
    assert x0 + c - x0 == c && x1 - (x1 - c) == c;
    assert |a| == k && |d| == k;
    SliceMiddle(a, b, d, k);
  }

  lemma SliceRowsNarrow(x0: int, x1: int, y0: int, y1: int, c: int, k: int)
    requires c > 0 && y1 - y0 > 0 && x1 - x0 < 2 * c && k == c * (y1 - y0)
    ensures PySlice(RowMajor(x0, x1, y0, y1), k, -k) == RowMajor(x0 + c, x1 - c, y0, y1)
  {
    var w := y1 - y0;
    if x0 < x1 {
      RowMajorLength(x0, x1, y0, y1);
      var n := x1 - x0;
      assert |RowMajor(x0, x1, y0, y1)| == n * w;
      NarrowProduct(n, c, w, k);
    }
    assert x0 + c >= x1 - c;
    SliceShort(RowMajor(x0, x1, y0, y1), k);
  }

  /** Fewer than `2*c` rows of width `w` hold fewer than `2*c*w` cells. */
  lemma NarrowProduct(n: int, c: int, w: int, k: int)
    requires 0 < n < 2 * c && w > 0 && k == c * w
    ensures n * w < 2 * k
  {
    assert (2 * c - n) * w > 0;
  }

  /** `[(x, y) for x, y in s if ly <= y < uy]`. */
  function FilterY(s: seq<Cell>, ly: int, uy: int): (r: seq<Cell>)
    ensures |r| <= |s|
  {
    if s == [] then []
    else (if ly <= s[0].1 < uy then [s[0]] else []) + FilterY(s[1..], ly, uy)
  }

  lemma {:induction false} FilterAppend(a: seq<Cell>, b: seq<Cell>, ly: int, uy: int)
    ensures FilterY(a + b, ly, uy) == FilterY(a, ly, uy) + FilterY(b, ly, uy)
    decreases |a|
  {
    if a != [] {
      assert (a + b)[1..] == a[1..] + b;
      FilterAppend(a[1..], b, ly, uy);
    } else {
      assert a + b == b;
    }
  }

  lemma {:induction false} FilterRow(x: int, y0: int, y1: int, ly: int, uy: int)
    ensures FilterY(Row(x, y0, y1), ly, uy) == Row(x, Max(y0, ly), Min(y1, uy))
    decreases y1 - y0
  {
    if y0 < y1 {
      var r := Row(x, y0, y1);
      assert r[1..] == Row(x, y0 + 1, y1);
      FilterRow(x, y0 + 1, y1, ly, uy);
      if ly <= y0 < uy {
        assert Row(x, Max(y0, ly), Min(y1, uy)) == [(x, y0)] + Row(x, Max(y0 + 1, ly), Min(y1, uy));
      }
    }
  }

  /** Filtering the y values of a rectangle narrows its y range. */
  lemma {:induction false} FilterRows(x0: int, x1: int, y0: int, y1: int, ly: int, uy: int)
    ensures FilterY(RowMajor(x0, x1, y0, y1), ly, uy) == RowMajor(x0, x1, Max(y0, ly), Min(y1, uy))
    decreases x1 - x0
  {
    if x0 < x1 {
      FilterAppend(Row(x0, y0, y1), RowMajor(x0 + 1, x1, y0, y1), ly, uy);
      FilterRow(x0, y0, y1, ly, uy);
      FilterRows(x0 + 1, x1, y0, y1, ly, uy);
    }
  }

  /** `SliceRows` with the row width and the new row bounds named. */
  lemma SliceRowsAt(x0: int, x1: int, y0: int, y1: int, c: int, w: int, cut: int, x0': int, x1': int)
    requires c > 0 && w == y1 - y0 > 0 && cut == c * w && x0' == x0 + c && x1' == x1 - c
    ensures PySlice(RowMajor(x0, x1, y0, y1), cut, -cut) == RowMajor(x0', x1', y0, y1)
  {
    SliceRows(x0, x1, y0, y1, c);
  }

  /** `SliceRowsAt` with the end bound written `(-c) * w`. */
  lemma SliceRowsNeg(x0: int, x1: int, y0: int, y1: int, c: nat, w: int, x0': int, x1': int)
    requires c > 0 && w == y1 - y0 > 0 && x0' == x0 + c && x1' == x1 - c
    ensures PySlice(RowMajor(x0, x1, y0, y1), c * w, -(c as int) * w) == RowMajor(x0', x1', y0, y1)
  {
    assert -(c as int) * w == -(c * w);
    SliceRowsAt(x0, x1, y0, y1, c, w, c * w, x0', x1');
  }

  /** `j <= n / d` exactly when `j * d <= n`. */
  lemma LeDivIff(j: int, n: int, d: int)
    requires d > 0
    ensures j <= n / d <==> j * d <= n
  {
    var q := n / d;
    assert q * d + n % d == n;
    if j <= q {
      assert j * d <= q * d;
    } else {
      assert (q + 1) * d <= j * d;
    }
  }

  /**
   * Layer `j` of a pyramid in a `bsx` by `bsy` block: the rectangle `j*ops`
   * inside the block edge on every side.
   */
  function Layer(bsx: int, bsy: int, ops: int, j: int): seq<Cell>
  {
    RowMajor(j * ops, bsx - j * ops, j * ops, bsy - j * ops)
  }

  /** Layer `j` is non-empty exactly when `2*j*ops` is less than the smaller side. */
  lemma LayerNonEmpty(bsx: int, bsy: int, ops: int, j: int)
    ensures |Layer(bsx, bsy, ops, j)| > 0 <==> 2 * j * ops < bsx && 2 * j * ops < bsy
  {
    RowMajorEmpty(j * ops, bsx - j * ops, j * ops, bsy - j * ops);
  }

  /** The step below on a rectangle whose sides are `a` inside the block's. */
  lemma RectStep(bsx: int, bsy: int, ops: int, a: int, w: int, cut: int)
    requires ops > 0 && w == bsy - 2 * a && w > 0 && cut == ops * w
    ensures FilterY(PySlice(RowMajor(a, bsx - a, a, bsy - a), cut, -cut), a + ops, bsy - (a + ops))
      == RowMajor(a + ops, bsx - (a + ops), a + ops, bsy - (a + ops))
  {
    var b := a + ops;
    var mid := RowMajor(b, bsx - b, a, bsy - a);
    SliceRowsAt(a, bsx - a, a, bsy - a, ops, w, cut, b, bsx - b);
    FilterInner(mid, b, bsx - b, a, bsy - a, b, bsy - b);
  }

  /** Filtering a rectangle's y values to bounds inside its own. */
  lemma FilterInner(s: seq<Cell>, x0: int, x1: int, y0: int, y1: int, ly: int, uy: int)
    requires s == RowMajor(x0, x1, y0, y1) && y0 <= ly && uy <= y1
    ensures FilterY(s, ly, uy) == RowMajor(x0, x1, ly, uy)
  {
    FilterRows(x0, x1, y0, y1, ly, uy);
    assert Max(y0, ly) == ly && Min(y1, uy) == uy;
  }

  /**
   * One round of the loop: dropping `ops` rows from each end of layer `i`
   * (rows `w` wide) and filtering its y values to the next bounds gives layer
   * `i + 1`.
   */
  lemma LayerStep(bsx: int, bsy: int, ops: int, i: int, w: int, cut: int, ly: int, uy: int)
    requires ops > 0 && w == bsy - i * 2 * ops && w > 0 && cut == ops * w
    requires ly == (i + 1) * ops && uy == bsy - ly
    ensures FilterY(PySlice(Layer(bsx, bsy, ops, i), cut, -cut), ly, uy) == Layer(bsx, bsy, ops, i + 1)
  {
    var a := i * ops;
    LayerProducts(i, ops);
    LayerAt(bsx, bsy, ops, i, a);
    LayerAt(bsx, bsy, ops, i + 1, a + ops);
    RectStep(bsx, bsy, ops, a, w, cut);
  }

  /** Layer `j` with its offset `j*ops` named. */
  lemma LayerAt(bsx: int, bsy: int, ops: int, j: int, a: int)
    requires a == j * ops
    ensures Layer(bsx, bsy, ops, j) == RowMajor(a, bsx - a, a, bsy - a)
  {
  }

  /** Layer `j` is non-empty exactly when `j` is at most `(min(bsx, bsy) - 1) / (2*ops)`. */
  lemma LayerCount(bsx: int, bsy: int, ops: int, j: int)
    requires ops > 0
    ensures |Layer(bsx, bsy, ops, j)| > 0 <==> j <= (Min(bsx, bsy) - 1) / (2 * ops)
  {
    LayerNonEmpty(bsx, bsy, ops, j);
    LeDivIff(j, Min(bsx, bsy) - 1, 2 * ops);
    assert 2 * j * ops == j * (2 * ops);
  }

  /** The loop's bookkeeping for round `i` of `m / (2*ops)`. */
  lemma IidxRound(bsy: int, ops: int, i: int, m: int)
    requires ops > 0 && 0 <= i < m / (2 * ops) && m <= bsy
    ensures (i + 1) * ops == i * ops + ops && (i + 2) * ops == (i + 1) * ops + ops
    ensures bsy - i * 2 * ops > 0
  {
    LeDivIff(i + 1, m, 2 * ops);
    assert (i + 1) * (2 * ops) == i * 2 * ops + 2 * ops;
  }

  /**
   * `create_iidx_sets(block_size, ops)` from the shared-array decomposition:
   * for the block padded by `ops` on each side, the non-empty layers
   * 1, 2, ... of the pyramid, each listed row-major. Layer 1 is the unpadded
   * block; there are `(min(bsx, bsy) - 1) / (2*ops)` of them.
   */
  method CreateIidxSets(bs0: nat, bs1: nat, ops: nat) returns (r: Result<seq<seq<Cell>>>)
    // min_bs divides by 2*ops
    ensures r.Err? <==> ops == 0
    ensures r.Ok? ==>
      && |r.value| == (Min(bs0, bs1) + 2 * ops - 1) / (2 * ops)
      && forall k :: 0 <= k < |r.value| ==> r.value[k] == Layer(bs0 + 2 * ops, bs1 + 2 * ops, ops, k + 1)
  {
    if ops == 0 {
      return Err(ZeroDivisionError);
    }
    var bsx := bs0 + 2 * ops;
    var bsy := bs1 + 2 * ops;
    var m := Min(bsx, bsy);
    assert m == Min(bs0, bs1) + 2 * ops;
    var minBs := Trunc(m as real / (2 * ops) as real);
    TruncOfQuotient(m, 2 * ops);
    LeDivIff((m - 1) / (2 * ops), m, 2 * ops);
    LeDivIff((m - 1) / (2 * ops), m - 1, 2 * ops);
    var sets := PeelLayers(bsx, bsy, ops, minBs);
    return Ok(sets);
  }

  /** The loop of `create_iidx_sets`, run for `rounds` rounds on a `bsx` by `bsy` block. */
  method PeelLayers(bsx: nat, bsy: nat, ops: nat, rounds: nat) returns (sets: seq<seq<Cell>>)
    requires ops > 0 && rounds == Min(bsx, bsy) / (2 * ops)
    requires Min(bsx, bsy) >= 2 * ops  // the block carries its halo
    ensures |sets| == Min(rounds, (Min(bsx, bsy) - 1) / (2 * ops))
    ensures forall k :: 0 <= k < |sets| ==> sets[k] == Layer(bsx, bsy, ops, k + 1)
  {
    var m := Min(bsx, bsy);
    var count := (m - 1) / (2 * ops);
    var ly := ops;
    var uy := bsy - ops;
    var iidx := RowMajor(0, bsx, 0, bsy);
    assert iidx == Layer(bsx, bsy, ops, 0);
    sets := [];
    for i := 0 to rounds
      invariant PeeledLayers(sets, iidx, ly, uy, bsx, bsy, ops, i, count)
    {
      sets, iidx, ly, uy := PeelRound(sets, iidx, ly, uy, bsy, ops, i, bsx, m, count);
    }
  }

  /** One round of that loop: drop `ops` rows from each end, filter the y values, keep a non-empty result. */
  method PeelRound(sets: seq<seq<Cell>>, iidx: seq<Cell>, ly: int, uy: int, bsy: nat, ops: nat, i: nat, ghost bsx: nat, ghost m: int, ghost count: int)
    returns (sets': seq<seq<Cell>>, iidx': seq<Cell>, ly': int, uy': int)
    requires ops > 0 && i < m / (2 * ops) && m == Min(bsx, bsy) && count == (m - 1) / (2 * ops)
    requires PeeledLayers(sets, iidx, ly, uy, bsx, bsy, ops, i, count)
    ensures PeeledLayers(sets', iidx', ly', uy', bsx, bsy, ops, i + 1, count)
  {
    IidxRound(bsy, ops, i, m);
    var w := bsy - i * 2 * ops;
    LayerStep(bsx, bsy, ops, i, w, ops * w, ly, uy);
    iidx' := PySlice(iidx, ops * w, -(ops * w));
    iidx' := FilterY(iidx', ly, uy);
    PeeledStep(sets, iidx', ly, bsx, bsy, ops, i, count);
    sets' := sets;
    if |iidx'| > 0 {
      sets' := sets + [iidx'];
    }
    ly' := ly + ops;
    uy' := uy - ops;
  }

  /**
   * The state of the `create_iidx_sets` loop after `i` rounds: the current
   * listing is layer `i`, the next filter bounds are those of layer `i + 1`,
   * and `sets` holds the non-empty layers `1 .. i`.
   */
  ghost predicate PeeledLayers(sets: seq<seq<Cell>>, iidx: seq<Cell>, ly: int, uy: int, bsx: int, bsy: int, ops: int, i: int, count: int)
  {
    && ly == (i + 1) * ops && uy == bsy - ly
    && iidx == Layer(bsx, bsy, ops, i)
    && |sets| == Min(i, count)
    && forall k :: 0 <= k < |sets| ==> sets[k] == Layer(bsx, bsy, ops, k + 1)
  }

  /** One round keeps `PeeledLayers`: layer `i + 1` is appended exactly when it is non-empty. */
  lemma PeeledStep(sets: seq<seq<Cell>>, next: seq<Cell>, ly: int, bsx: int, bsy: int, ops: int, i: nat, count: int)
    requires ops > 0 && count == (Min(bsx, bsy) - 1) / (2 * ops)
    requires |sets| == Min(i, count) && ly == (i + 1) * ops
    requires forall k :: 0 <= k < |sets| ==> sets[k] == Layer(bsx, bsy, ops, k + 1)
    requires next == Layer(bsx, bsy, ops, i + 1)
    ensures PeeledLayers(if |next| > 0 then sets + [next] else sets, next, ly + ops, bsy - (ly + ops), bsx, bsy, ops, i + 1, count)
  {
    LayerCount(bsx, bsy, ops, i + 1);
    LayerProducts(i + 1, ops);
    if |next| > 0 {
      assert |sets| == i;
    }
  }

  /**
   * The layers of a pyramid shrink: every cell of layer `j + 1` is in layer
   * `j`, and layer `j + 1` lacks the cells of layer `j`'s outer ring.
   */
  lemma LayersNested(bsx: int, bsy: int, ops: nat, j: int, c: Cell)
    requires ops > 0
    ensures c in Layer(bsx, bsy, ops, j + 1) ==> c in Layer(bsx, bsy, ops, j)
    ensures c in Layer(bsx, bsy, ops, j) && (c.0 < (j + 1) * ops || c.1 < (j + 1) * ops) ==>
      c !in Layer(bsx, bsy, ops, j + 1)
  {
    RowMajorMembers(j * ops, bsx - j * ops, j * ops, bsy - j * ops, c);
    RowMajorMembers((j + 1) * ops, bsx - (j + 1) * ops, (j + 1) * ops, bsy - (j + 1) * ops, c);
  }

  /** There are at most `floor(min(bsx, bsy) / (2*ops))` layers. */
  lemma LayerCountBound(bs0: nat, bs1: nat, ops: nat)
    requires ops > 0
    ensures (Min(bs0, bs1) + 2 * ops - 1) / (2 * ops) <= (Min(bs0, bs1) + 2 * ops) / (2 * ops)
  {
    var m := Min(bs0, bs1) + 2 * ops;
    LeDivIff((m - 1) / (2 * ops), m, 2 * ops);
    LeDivIff((m - 1) / (2 * ops), m - 1, 2 * ops);
  }

  // ---------------------------------------------------------------------
  // Rows of a row-major listing

  /** `(a + r + b)[|a| + c : |a| + |r| - d]` is the middle of `r`. */
  lemma SliceOfMiddle<T>(a: seq<T>, r: seq<T>, b: seq<T>, c: int, d: int, lo: int, hi: int)
    requires 0 <= c && 0 <= d && c + d <= |r| && lo == |a| + c && hi == |a| + |r| - d
    ensures PySlice(a + r + b, lo, hi) == r[c .. |r| - d]
  {
    assert (a + r + b)[lo .. hi] == r[c .. |r| - d];
  }

  /** The single row `x0` of the rectangle `[x0, x0 + 1)`. */
  lemma RowMajorOneRow(x0: int, y0: int, y1: int)
    ensures RowMajor(x0, x0 + 1, y0, y1) == Row(x0, y0, y1)
  {
    assert RowMajor(x0 + 1, x0 + 1, y0, y1) == [];
  }

  /** Appending row `x1` to the rectangle `[x0, x1)`. */
  lemma RowMajorSnoc(x0: int, x1: int, y0: int, y1: int)
    requires x0 <= x1
    ensures RowMajor(x0, x1 + 1, y0, y1) == RowMajor(x0, x1, y0, y1) + Row(x1, y0, y1)
  {
    RowMajorSplit(x0, x1, x1 + 1, y0, y1);
    RowMajorOneRow(x1, y0, y1);
  }

  /**
   * Cells `[i*w - w + c, i*w - c)` of a rectangle with rows `w` wide are row
   * `i - 1` without `c` cells at each end.
   */
  lemma RowInterior(x0: int, x1: int, y0: int, y1: int, i: int, c: int)
    requires 1 <= i <= x1 - x0 && 0 <= c && 2 * c <= y1 - y0
    ensures PySlice(RowMajor(x0, x1, y0, y1), i * (y1 - y0) - (y1 - y0) + c, i * (y1 - y0) - c)
      == Row(x0 + i - 1, y0 + c, y1 - c)
  {
    var w := y1 - y0;
    var xr := x0 + i - 1;
    RowDecomp(x0, x1, y0, y1, i);
    SliceOfMiddle(RowMajor(x0, xr, y0, y1), Row(xr, y0, y1), RowMajor(xr + 1, x1, y0, y1), c, c, i * w - w + c, i * w - c);
    RowMiddle(xr, y0, y1, c);
  }

  /** A rectangle is the rows before row `x0 + i - 1`, that row, and the rows after it. */
  lemma RowDecomp(x0: int, x1: int, y0: int, y1: int, i: int)
    requires 1 <= i <= x1 - x0 && y0 <= y1
    ensures RowMajor(x0, x1, y0, y1)
      == RowMajor(x0, x0 + i - 1, y0, y1) + Row(x0 + i - 1, y0, y1) + RowMajor(x0 + i, x1, y0, y1)
    ensures |RowMajor(x0, x0 + i - 1, y0, y1)| == i * (y1 - y0) - (y1 - y0)
    ensures |Row(x0 + i - 1, y0, y1)| == y1 - y0
  {
    var xr := x0 + i - 1;
    RowMajorSplit(x0, xr, x1, y0, y1);
    RowMajorSplit(xr, xr + 1, x1, y0, y1);
    RowMajorOneRow(xr, y0, y1);
    RowMajorLength(x0, xr, y0, y1);
    assert Max(0, y1 - y0) == y1 - y0;
    PredMul(i, y1 - y0);
  }

  lemma PredMul(i: int, w: int)
    ensures (i - 1) * w == i * w - w
  {
  }

  /** A row without `c` cells at each end. */
  lemma RowMiddle(x: int, y0: int, y1: int, c: int)
    requires 0 <= c && 2 * c <= y1 - y0
    ensures Row(x, y0, y1)[c .. y1 - y0 - c] == Row(x, y0 + c, y1 - c)
  {
  }

  /** `row[lo:hi]` of a row `(x, 0) .. (x, n - 1)`. */
  lemma RowSlice(x: int, n: nat, lo: int, hi: int)
    ensures PySlice(Row(x, 0, n), lo, hi) == Row(x, SliceBound(lo, n), SliceBound(hi, n))
  {
  }

  /** The cells of a listing, as the `set(...)` of the source builds them. */
  function Cells(s: seq<Cell>): (r: set<Cell>)
    ensures forall c :: c in r <==> c in s
  {
    set c | c in s
  }

  // ---------------------------------------------------------------------
  // create_iidx_sets of the per-block swept functions

  /** Appending the interior of row `i - 1` of `[x0, x1) x [y0, y1)` (rows `w` wide). */
  lemma PeelRowStep(x0: int, x1: int, y0: int, y1: int, w: int, i: int, ops: int)
    requires 1 <= i <= x1 - x0 && 0 <= ops && 2 * ops <= y1 - y0 && w == y1 - y0
    ensures RowMajor(x0, x0 + i - 1, y0 + ops, y1 - ops) + PySlice(RowMajor(x0, x1, y0, y1), i * w - w + ops, i * w - ops)
      == RowMajor(x0, x0 + i, y0 + ops, y1 - ops)
  {
    RowInterior(x0, x1, y0, y1, i, ops);
    RowMajorSnoc(x0, x0 + i - 1, y0 + ops, y1 - ops);
  }

  /**
   * One round of the `while` loop of `create_iidx_sets` in the per-block
   * swept functions: drop `ops*shapeX` cells from each end, then keep cells
   * `ops .. shapeX - ops` of each of the `shapeY - 2*ops` rows of width
   * `shapeX`, and add the result to `sets` when it is non-empty. On a
   * square layer `k` (both extents `b - 2*k*ops`) this yields layer `k + 1`.
   */
  method PeelSquare(sets: seq<set<Cell>>, iidx: seq<Cell>, shapeX: int, shapeY: int, ops: nat, ghost b: int, ghost k: nat)
    returns (sets': seq<set<Cell>>, tl: seq<Cell>, shapeX': int, shapeY': int)
    ensures shapeX' == shapeX - 2 * ops && shapeY' == shapeY - 2 * ops
    ensures sets' == if |tl| > 0 then sets + [Cells(tl)] else sets
    ensures |tl| > 0 ==> shapeY' >= 1
    ensures ops == 0 ==> tl == []
    ensures ops > 0 && |iidx| > 0 && SquareLayers(sets, iidx, shapeX, shapeY, b, ops, k) ==>
      SquareLayers(sets', tl, shapeX', shapeY', b, ops, k + 1)
  {
    var rest := PySlice(iidx, ops * shapeX, -(ops as int) * shapeX);
    shapeY' := shapeY - 2 * ops;
    tl := RowInteriors(rest, shapeX, shapeY', ops);
    shapeX' := shapeX - 2 * ops;
    if ops == 0 {
      assert rest == [];
      InteriorsOfEmpty(shapeX, shapeY', ops);
    }
    sets' := sets;
    if |tl| > 0 {
      sets' := sets + [Cells(tl)];
    }
    if ops > 0 && |iidx| > 0 && SquareLayers(sets, iidx, shapeX, shapeY, b, ops, k) {
      SquareLayerSide(sets, iidx, shapeX, shapeY, b, ops, k);
      PeeledLayer(iidx, rest, tl, shapeX, shapeY', b, ops, k);
      SquareLayersStep(sets, iidx, shapeX, shapeY, b, ops, k, tl);
    }
  }

  /** A non-empty square layer `k` has positive side `b - 2*k*ops`. */
  lemma SquareLayerSide(sets: seq<set<Cell>>, iidx: seq<Cell>, shapeX: int, shapeY: int, b: int, ops: nat, k: nat)
    requires ops > 0 && |iidx| > 0 && SquareLayers(sets, iidx, shapeX, shapeY, b, ops, k)
    ensures shapeX == shapeY == b - 2 * k * ops > 0 && iidx == Layer(b, b, ops, k)
  {
    RowMajorEmpty(k * ops, b - k * ops, k * ops, b - k * ops);
  }

  /** Peeling square layer `k` of side `w` gives layer `k + 1`. */
  lemma PeelLayer(b: int, ops: nat, k: nat, w: int)
    requires ops > 0 && w == b - 2 * k * ops > 0
    ensures Interiors(PySlice(Layer(b, b, ops, k), ops * w, -(ops as int) * w), w, w - 2 * ops, ops) == Layer(b, b, ops, k + 1)
  {
    var a := k * ops;
    LayerProducts(k, ops);
    LayerAt(b, b, ops, k, a);
    LayerAt(b, b, ops, k + 1, a + ops);
    PeelRect(b, ops, a, w);
  }

  /** Peeling the square `[a, b - a)` on both axes, of side `w`, gives the square `[a + ops, b - a - ops)`. */
  lemma PeelRect(b: int, ops: nat, a: int, w: int)
    requires ops > 0 && w == b - 2 * a > 0
    ensures Interiors(PySlice(RowMajor(a, b - a, a, b - a), ops * w, -(ops as int) * w), w, w - 2 * ops, ops)
         == RowMajor(a + ops, b - (a + ops), a + ops, b - (a + ops))
  {
    var c := a + ops;
    var rest := PySlice(RowMajor(a, b - a, a, b - a), ops * w, -(ops as int) * w);
    SliceRowsNeg(a, b - a, a, b - a, ops, w, c, b - c);
    InteriorsOfRectAt(rest, c, b - c, a, b - a, w, w - 2 * ops, ops, b - c, c, b - c);
  }

  /**
   * `ops` cells in from each end of rows `1 .. n` of `rest`, rows being `w`
   * cells wide, end to end: what the `while` loop of `create_iidx_sets`
   * collects.
   */
  function Interiors(rest: seq<Cell>, w: int, n: int, ops: int): seq<Cell>
    decreases n
  {
    if n <= 0 then [] else Interiors(rest, w, n - 1, ops) + PySlice(rest, n * w - w + ops, n * w - ops)
  }

  /** The loop over rows `i = 1 .. n` that appends `rest[i*w - w + ops : i*w - ops]`. */
  method RowInteriors(rest: seq<Cell>, w: int, n: int, ops: int) returns (tl: seq<Cell>)
    ensures tl == Interiors(rest, w, n, ops)
  {
    tl := [];
    var i := 1;
    while i < n + 1
      invariant i == 1 || 1 <= i <= n + 1
      invariant tl == Interiors(rest, w, i - 1, ops)
      decreases n + 1 - i
    {
      tl := AppendRow(rest, w, i, ops, tl);
      i := i + 1;
    }
    if n <= 0 {
      InteriorsNone(rest, w, n, ops);
    } else {
      assert i - 1 == n;
    }
  }

  /** One round of that loop: row `i` without its `ops` edge cells on either side. */
  method AppendRow(rest: seq<Cell>, w: int, i: int, ops: int, tl: seq<Cell>) returns (tl': seq<Cell>)
    requires i >= 1 && tl == Interiors(rest, w, i - 1, ops)
    ensures tl' == Interiors(rest, w, i, ops)
  {
    tl' := tl + PySlice(rest, i * w - w + ops, i * w - ops);
  }

  /** Collecting row `n` after rows `1 .. n - 1`. */
  lemma InteriorsStep(rest: seq<Cell>, w: int, n: int, ops: int, init: seq<Cell>)
    requires n >= 1 && Interiors(rest, w, n - 1, ops) == init
    ensures Interiors(rest, w, n, ops) == init + PySlice(rest, n * w - w + ops, n * w - ops)
  {
  }

  /** No rows are collected for `n <= 0`. */
  lemma InteriorsNone(rest: seq<Cell>, w: int, n: int, ops: int)
    requires n <= 0
    ensures Interiors(rest, w, n, ops) == []
  {
  }

  /** Nothing is collected from an empty listing. */
  lemma {:induction false} InteriorsOfEmpty(w: int, n: int, ops: int)
    ensures Interiors([], w, n, ops) == []
    decreases n
  {
    if n > 0 {
      InteriorsOfEmpty(w, n - 1, ops);
    }
  }

  /** The first `n` rows of a rectangle `w` wide, trimmed by `ops` at each end of each row. */
  /**
   * `InteriorsOfRect` for a listing `rest` known to be a rectangle, with the
   * bounds of the result named; for `n <= 0` the result is empty.
   */
  lemma InteriorsOfRectAt(rest: seq<Cell>, x0: int, x1: int, y0: int, y1: int, w: int, n: int, ops: int, x1': int, y0': int, y1': int)
    requires rest == RowMajor(x0, x1, y0, y1)
    requires n <= x1 - x0 && 0 <= ops && w == y1 - y0
    requires (0 <= n && x1' == x0 + n && 2 * ops <= w) || (n < 0 && x1' <= x0)
    requires y0' == y0 + ops && y1' == y1 - ops
    ensures Interiors(rest, w, n, ops) == RowMajor(x0, x1', y0', y1')
  {
    if n >= 0 {
      InteriorsOfRect(x0, x1, y0, y1, w, n, ops);
    }
  }

  lemma {:induction false} InteriorsOfRect(x0: int, x1: int, y0: int, y1: int, w: int, n: int, ops: int)
    requires 0 <= n <= x1 - x0 && 0 <= ops && 2 * ops <= y1 - y0 && w == y1 - y0
    ensures Interiors(RowMajor(x0, x1, y0, y1), w, n, ops) == RowMajor(x0, x0 + n, y0 + ops, y1 - ops)
    decreases n
  {
    if n == 0 {
      RowMajorEmpty(x0, x0, y0 + ops, y1 - ops);
    } else {
      var rest := RowMajor(x0, x1, y0, y1);
      InteriorsOfRect(x0, x1, y0, y1, w, n - 1, ops);
      PeelRowStep(x0, x1, y0, y1, w, n, ops);
      InteriorsStep(rest, w, n, ops, RowMajor(x0, x0 + n - 1, y0 + ops, y1 - ops));
    }
  }

  /** The products that place layers `k` and `k + 1`. */
  lemma LayerProducts(k: int, ops: int)
    ensures (k + 1) * ops == k * ops + ops && 2 * k * ops == 2 * (k * ops) && k * 2 * ops == 2 * (k * ops)
  {
  }

  /** The side of square layer `k + 1` is that of layer `k` less `2*ops`. */
  lemma NextSide(b: int, k: int, ops: int)
    ensures b - 2 * (k + 1) * ops == (b - 2 * k * ops) - 2 * ops
  {
    assert 2 * (k + 1) * ops == 2 * k * ops + 2 * ops;
  }

  /**
   * The state of the `create_iidx_sets` loop on a square block of side `b`
   * after `k` rounds: the current listing is layer `k`, of side
   * `b - 2*k*ops`, and `sets` holds the non-empty layers so far.
   */
  ghost predicate SquareLayers(sets: seq<set<Cell>>, iidx: seq<Cell>, shapeX: int, shapeY: int, b: int, ops: nat, k: nat)
  {
    && shapeX == shapeY == b - 2 * k * ops
    && iidx == Layer(b, b, ops, k)
    && |sets| == (if |iidx| > 0 || k == 0 then k + 1 else k)
    && (forall j :: 0 <= j < |sets| ==> sets[j] == Cells(Layer(b, b, ops, j)))
    && (k >= 1 ==> |Layer(b, b, ops, k - 1)| > 0)
  }

  /** One round of the loop on a non-empty square layer keeps that state. */
  lemma SquareLayersStep(sets: seq<set<Cell>>, iidx: seq<Cell>, shapeX: int, shapeY: int, b: int, ops: nat, k: nat, tl: seq<Cell>)
    requires ops > 0 && shapeX == shapeY == b - 2 * k * ops > 0 && |iidx| > 0
    requires SquareLayers(sets, iidx, shapeX, shapeY, b, ops, k)
    requires tl == Layer(b, b, ops, k + 1)
    ensures SquareLayers(if |tl| > 0 then sets + [Cells(tl)] else sets, tl, shapeX - 2 * ops, shapeY - 2 * ops, b, ops, k + 1)
  {
    NextSide(b, k, ops);
    assert |sets| == k + 1;
    if |tl| > 0 {
      var sets' := sets + [Cells(tl)];
      assert sets'[k + 1] == Cells(Layer(b, b, ops, k + 1));
    }
  }

  /** The round's two cuts, applied to square layer `k` of side `w`, give layer `k + 1`. */
  lemma PeeledLayer(iidx: seq<Cell>, rest: seq<Cell>, tl: seq<Cell>, w: int, h: int, b: int, ops: nat, k: nat)
    requires ops > 0 && w == b - 2 * k * ops > 0 && h == w - 2 * ops && iidx == Layer(b, b, ops, k)
    requires rest == PySlice(iidx, ops * w, -(ops as int) * w) && tl == Interiors(rest, w, h, ops)
    ensures tl == Layer(b, b, ops, k + 1)
  {
    PeelLayer(b, ops, k, w);
  }
  /**
   * `create_iidx_sets(block_size, ops)` of the per-block swept functions: the
   * full block, then each non-empty layer, each as a set of cells. The loop
   * treats `ops*b_shape_x` cells as `ops` rows, which is right only for a
   * square block; for `bs0 == bs1 == b` layer `k` is the square
   * `[k*ops, b - k*ops)` on both axes and there are `(b - 1)/(2*ops) + 1` of
   * them (one when `b == 0` or `ops == 0`).
   */
  method CreateIidxSetsSquare(bs0: nat, bs1: nat, ops: nat) returns (sets: seq<set<Cell>>)
    ensures |sets| >= 1 && sets[0] == Cells(RowMajor(0, bs0, 0, bs1))
    ensures bs0 == bs1 ==>
      && |sets| == (if bs0 == 0 || ops == 0 then 1 else (bs0 - 1) / (2 * ops) + 1)
      && forall j :: 0 <= j < |sets| ==> sets[j] == Cells(Layer(bs0, bs0, ops, j))
  {
    var shapeX: int := bs0;
    var shapeY: int := bs1;
    var iidx := RowMajor(0, bs0, 0, bs1);
    sets := [Cells(iidx)];
    ghost var full := sets[0];
    RowMajorEmpty(0, bs0, 0, bs1);
    ghost var k: nat := 0;
    ghost var b := bs0;
    ghost var square := bs0 == bs1;
    assert Layer(b, b, ops, 0) == RowMajor(0, b, 0, b);
    while |iidx| > 0
      invariant |sets| >= 1 && sets[0] == full
      invariant |iidx| > 0 ==> shapeY > 0
      invariant ops == 0 ==> k <= 1 && (k == 1 ==> iidx == []) && |sets| == 1
      invariant square && ops > 0 ==> SquareLayers(sets, iidx, shapeX, shapeY, b, ops, k)
      invariant square && ops == 0 ==> k == 0 ==> iidx == RowMajor(0, b, 0, b)
      decreases if |iidx| == 0 then 0 else shapeY + 1
    {
      sets, iidx, shapeX, shapeY := PeelSquare(sets, iidx, shapeX, shapeY, ops, b, k);
      k := k + 1;
    }
    if square && ops > 0 {
      SquareLayersDone(sets, iidx, shapeX, shapeY, b, ops, k);
    }
  }

  /** When the loop ends on a square block, `sets` holds all `(b - 1)/(2*ops) + 1` layers. */
  lemma SquareLayersDone(sets: seq<set<Cell>>, iidx: seq<Cell>, shapeX: int, shapeY: int, b: nat, ops: nat, k: nat)
    requires ops > 0 && |iidx| == 0 && SquareLayers(sets, iidx, shapeX, shapeY, b, ops, k)
    ensures |sets| == (if b == 0 then 1 else (b - 1) / (2 * ops) + 1)
    ensures forall j :: 0 <= j < |sets| ==> sets[j] == Cells(Layer(b, b, ops, j))
  {
    if b > 0 {
      LayerCount(b, b, ops, k - 1);
      LayerCount(b, b, ops, k);
      assert Min(b, b) == b;
    }
  }

  /** The cells of square layer `k`: both coordinates in `[k*ops, b - k*ops)`. */
  lemma SquareLayerCells(b: int, ops: int, k: int, c: Cell)
    ensures c in Cells(Layer(b, b, ops, k)) <==> k * ops <= c.0 < b - k * ops && k * ops <= c.1 < b - k * ops
  {
    RowMajorMembers(k * ops, b - k * ops, k * ops, b - k * ops, c);
  }

  // ---------------------------------------------------------------------
  // create_bridge_sets

  /**
   * `[cell for row in riidx[rlo:rhi] for cell in row[clo:chi]]` where
   * `riidx` holds the `bsx` rows of a `bsx` by `bsy` block: the rectangle
   * between the Python-clamped bounds.
   */
  function Strip(bsx: nat, bsy: nat, rlo: int, rhi: int, clo: int, chi: int): seq<Cell>
  {
    RowMajor(SliceBound(rlo, bsx), SliceBound(rhi, bsx), SliceBound(clo, bsy), SliceBound(chi, bsy))
  }

  /** A strip whose bounds need no clamping holds exactly the cells between them. */
  lemma StripMembers(bsx: nat, bsy: nat, rlo: int, rhi: int, clo: int, chi: int, c: Cell)
    requires 0 <= rlo <= bsx && 0 <= rhi <= bsx && 0 <= clo <= bsy && 0 <= chi <= bsy
    ensures c in Strip(bsx, bsy, rlo, rhi, clo, chi) <==> rlo <= c.0 < rhi && clo <= c.1 < chi
  {
    RowMajorMembers(rlo, rhi, clo, chi, c);
  }

  /**
   * Bridge `i` along x: rows `[2*ops + i*ops, bsy - 2*ops - i*ops)` and
   * columns `[MPSS*ops - i*ops, MPSS*ops + 2*ops + i*ops)` of the padded block.
   */
  function XStrip(bsx: nat, bsy: nat, ops: int, mpss: int, i: int): seq<Cell>
  {
    Strip(bsx, bsy, 2 * ops + i * ops, bsy - 2 * ops - i * ops, mpss * ops - i * ops, mpss * ops + 2 * ops + i * ops)
  }

  /** Bridge `i` along y: the x-bridge's bounds with rows and columns exchanged. */
  function YStrip(bsx: nat, bsy: nat, ops: int, mpss: int, i: int): seq<Cell>
  {
    Strip(bsx, bsy, mpss * ops - i * ops, mpss * ops + 2 * ops + i * ops, 2 * ops + i * ops, bsx - 2 * ops - i * ops)
  }

  /** `s[::-1]`. */
  function Reverse<T>(s: seq<T>): (r: seq<T>)
    ensures |r| == |s| && forall j :: 0 <= j < |s| ==> r[j] == s[|s| - 1 - j]
  {
    seq(|s|, j requires 0 <= j < |s| => s[|s| - 1 - j])
  }

  datatype BridgeCells = BridgeCells(x: seq<seq<Cell>>, y: seq<seq<Cell>>)

  /**
   * `riidx = [iidx[x*bsy:(x+1)*bsy] for x in range(bsx)]`: the rows of the
   * row-major listing of a `bsx` by `bsy` block.
   */
  method BlockRows(bsx: nat, bsy: nat) returns (riidx: seq<seq<Cell>>)
    ensures |riidx| == bsx && forall x :: 0 <= x < bsx ==> riidx[x] == Row(x, 0, bsy)
  {
    var iidx := RowMajor(0, bsx, 0, bsy);
    riidx := [];
    for x := 0 to bsx
      invariant |riidx| == x && forall x' :: 0 <= x' < x ==> riidx[x'] == Row(x', 0, bsy)
    {
      BlockRow(bsx, bsy, x);
      riidx := riidx + [PySlice(iidx, x * bsy, (x + 1) * bsy)];
    }
  }

  /** Cells `x*bsy .. (x+1)*bsy` of the row-major block listing are its row `x`. */
  lemma BlockRow(bsx: nat, bsy: nat, x: nat)
    requires x < bsx
    ensures PySlice(RowMajor(0, bsx, 0, bsy), x * bsy, (x + 1) * bsy) == Row(x, 0, bsy)
  {
    RowInterior(0, bsx, 0, bsy, x + 1, 0);
    assert (x + 1) * bsy - bsy == x * bsy;
  }

  /**
   * `temp` of one bridge round: the cells `row[clo:chi]` of each row in
   * `riidx[rlo:rhi]`, in order.
   */
  method StripCells(riidx: seq<seq<Cell>>, bsx: nat, bsy: nat, rlo: int, rhi: int, clo: int, chi: int)
    returns (temp: seq<Cell>)
    requires |riidx| == bsx && forall x :: 0 <= x < bsx ==> riidx[x] == Row(x, 0, bsy)
    ensures temp == Strip(bsx, bsy, rlo, rhi, clo, chi)
  {
    var rows := PySlice(riidx, rlo, rhi);
    var a := SliceBound(rlo, bsx);
    var cl := SliceBound(clo, bsy);
    var ch := SliceBound(chi, bsy);
    temp := [];
    for j := 0 to |rows|
      invariant a + |rows| <= bsx
      invariant temp == RowMajor(a, a + j, cl, ch)
    {
      assert rows[j] == riidx[a + j] == Row(a + j, 0, bsy);
      RowSlice(a + j, bsy, clo, chi);
      RowMajorSnoc(a, a + j, cl, ch);
      temp := temp + PySlice(rows[j], clo, chi);
    }
    if |rows| == 0 {
      assert SliceBound(rhi, bsx) <= a;
    }
  }

  /**
   * The bridge rounds: `n` strips, the row bounds moving in by `step` and
   * the column bounds out by `step` after each.
   */
  method Strips(riidx: seq<seq<Cell>>, bsx: nat, bsy: nat, rlo: int, rhi: int, clo: int, chi: int, step: int, n: int)
    returns (bridge: seq<seq<Cell>>)
    requires |riidx| == bsx && forall x :: 0 <= x < bsx ==> riidx[x] == Row(x, 0, bsy)
    ensures bridge == StripSeq(bsx, bsy, rlo, rhi, clo, chi, step, n)
  {
    var ly, uy, lx, ux := rlo, rhi, clo, chi;
    bridge := [];
    var i := 0;
    while i < n
      invariant 0 <= i <= Max(0, n) && |bridge| == i
      invariant ly == rlo + i * step && uy == rhi - i * step && lx == clo - i * step && ux == chi + i * step
      invariant forall i' :: 0 <= i' < i ==> bridge[i'] == StripAt(bsx, bsy, rlo, rhi, clo, chi, step, i')
    {
      var temp := StripCells(riidx, bsx, bsy, ly, uy, lx, ux);
      assert temp == StripAt(bsx, bsy, rlo, rhi, clo, chi, step, i);
      bridge := bridge + [temp];
      PredMul(i + 1, step);
      lx, ux, ly, uy := lx - step, ux + step, ly + step, uy - step;
      i := i + 1;
    }
  }

  /** Strip `i` of a bridge: its row bounds moved in, and its column bounds out, by `i*step`. */
  function StripAt(bsx: nat, bsy: nat, rlo: int, rhi: int, clo: int, chi: int, step: int, i: int): seq<Cell>
  {
    Strip(bsx, bsy, rlo + i * step, rhi - i * step, clo - i * step, chi + i * step)
  }

  /** `n` strips (none when `n <= 0`), strip `i` being `StripAt(.., i)`. */
  function StripSeq(bsx: nat, bsy: nat, rlo: int, rhi: int, clo: int, chi: int, step: int, n: int): seq<seq<Cell>>
  {
    seq(Max(0, n), i => StripAt(bsx, bsy, rlo, rhi, clo, chi, step, i))
  }

  /**
   * `create_bridge_sets(mbx, mby, block_size, ops, MPSS)` as written: the
   * `MPSS - 1` x-bridges and, for a square block, the x-bridges reversed as
   * the y-bridges; otherwise the y-bridges computed with rows and columns
   * exchanged. `min_bs` divides by `2*ops`.
   */
  method CreateBridgeSets(bs0: nat, bs1: nat, ops: nat, mpss: int) returns (r: Result<BridgeCells>)
    ensures r.Err? <==> ops == 0
    ensures r.Ok? ==> r.value.x == XStrips(bs0 + 2 * ops, bs1 + 2 * ops, ops, mpss)
    ensures r.Ok? ==>
      r.value.y == (if bs0 == bs1 then Reverse(r.value.x) else YStrips(bs0 + 2 * ops, bs1 + 2 * ops, ops, mpss))
  {
    if ops == 0 {
      return Err(ZeroDivisionError);
    }
    var bsx := bs0 + 2 * ops;
    var bsy := bs1 + 2 * ops;
    var riidx := BlockRows(bsx, bsy);
    var xb := XBridges(riidx, bsx, bsy, ops, mpss);
    var yb;
    if bs0 == bs1 {
      yb := Reverse(xb);
    } else {
      yb := YBridges(riidx, bsx, bsy, ops, mpss);
    }
    return Ok(BridgeCells(xb, yb));
  }

  /**
   * `create_bridge_sets` with the y-bridges always built from the exchanged
   * bounds, so that on a square block each y-bridge is its x-bridge
   * transposed.
   */
  method CreateBridgeSetsTransposed(bs0: nat, bs1: nat, ops: nat, mpss: int) returns (r: Result<BridgeCells>)
    ensures r.Err? <==> ops == 0
    ensures r.Ok? ==> r.value.x == XStrips(bs0 + 2 * ops, bs1 + 2 * ops, ops, mpss)
    ensures r.Ok? ==> r.value.y == YStrips(bs0 + 2 * ops, bs1 + 2 * ops, ops, mpss)
  {
    if ops == 0 {
      return Err(ZeroDivisionError);
    }
    var bsx := bs0 + 2 * ops;
    var bsy := bs1 + 2 * ops;
    var riidx := BlockRows(bsx, bsy);
    var xb := XBridges(riidx, bsx, bsy, ops, mpss);
    var yb := YBridges(riidx, bsx, bsy, ops, mpss);
    return Ok(BridgeCells(xb, yb));
  }

  /** The x-bridge loop of `create_bridge_sets`, from `(MPSS-1)*ops` outward. */
  method XBridges(riidx: seq<seq<Cell>>, bsx: nat, bsy: nat, ops: nat, mpss: int) returns (xb: seq<seq<Cell>>)
    requires |riidx| == bsx && forall x :: 0 <= x < bsx ==> riidx[x] == Row(x, 0, bsy)
    ensures xb == XStrips(bsx, bsy, ops, mpss)
  {
    var m := (mpss - 1) * ops;
    xb := Strips(riidx, bsx, bsy, 2 * ops, bsy - 2 * ops, m + ops, m + 3 * ops, ops, mpss - 1);
    XStripsAre(bsx, bsy, ops, mpss, m + ops, m + 3 * ops, xb);
  }

  /** The y-bridge loop of `create_bridge_sets`: the x-bridge bounds exchanged. */
  method YBridges(riidx: seq<seq<Cell>>, bsx: nat, bsy: nat, ops: nat, mpss: int) returns (yb: seq<seq<Cell>>)
    requires |riidx| == bsx && forall x :: 0 <= x < bsx ==> riidx[x] == Row(x, 0, bsy)
    ensures yb == YStrips(bsx, bsy, ops, mpss)
  {
    var m := (mpss - 1) * ops;
    yb := Strips(riidx, bsx, bsy, m + ops, m + 3 * ops, 2 * ops, bsx - 2 * ops, -(ops as int), mpss - 1);
    YStripsAre(bsx, bsy, ops, mpss, m + ops, m + 3 * ops, yb);
  }

  /** All `MPSS - 1` x-bridges. */
  function XStrips(bsx: nat, bsy: nat, ops: int, mpss: int): seq<seq<Cell>>
  {
    StripSeq(bsx, bsy, 2 * ops, bsy - 2 * ops, mpss * ops, mpss * ops + 2 * ops, ops, mpss - 1)
  }

  /** All `MPSS - 1` y-bridges. */
  function YStrips(bsx: nat, bsy: nat, ops: int, mpss: int): seq<seq<Cell>>
  {
    StripSeq(bsx, bsy, mpss * ops, mpss * ops + 2 * ops, 2 * ops, bsx - 2 * ops, -ops, mpss - 1)
  }

  /** There are `MPSS - 1` bridges along each axis, bridge `i` being `XStrip`/`YStrip` `i`. */
  lemma StripsAt(bsx: nat, bsy: nat, ops: int, mpss: int, i: int)
    requires 0 <= i < mpss - 1
    ensures |XStrips(bsx, bsy, ops, mpss)| == |YStrips(bsx, bsy, ops, mpss)| == mpss - 1
    ensures XStrips(bsx, bsy, ops, mpss)[i] == XStrip(bsx, bsy, ops, mpss, i)
    ensures YStrips(bsx, bsy, ops, mpss)[i] == YStrip(bsx, bsy, ops, mpss, i)
  {
    NegMul(i, ops);
  }

  /** The strips the source's bounds give are the x-bridges. */
  lemma XStripsAre(bsx: nat, bsy: nat, ops: nat, mpss: int, lo: int, hi: int, xb: seq<seq<Cell>>)
    requires lo == (mpss - 1) * ops + ops && hi == lo + 2 * ops
    requires xb == StripSeq(bsx, bsy, 2 * ops, bsy - 2 * ops, lo, hi, ops, mpss - 1)
    ensures xb == XStrips(bsx, bsy, ops, mpss)
  {
    PredMul(mpss, ops);
  }

  /** The strips the source's exchanged bounds give are the y-bridges. */
  lemma YStripsAre(bsx: nat, bsy: nat, ops: nat, mpss: int, lo: int, hi: int, yb: seq<seq<Cell>>)
    requires lo == (mpss - 1) * ops + ops && hi == lo + 2 * ops
    requires yb == StripSeq(bsx, bsy, lo, hi, 2 * ops, bsx - 2 * ops, -(ops as int), mpss - 1)
    ensures yb == YStrips(bsx, bsy, ops, mpss)
  {
    PredMul(mpss, ops);
  }

  /** Moving by `-ops` per round is moving back by `ops`. */
  lemma NegMul(i: int, ops: int)
    ensures i * -ops == -(i * ops)
  {
  }

  /**
   * Bridge `i` along x, when its bounds lie in the block: the cells with
   * row in `[2*ops + i*ops, bsy - 2*ops - i*ops)` and column in
   * `[MPSS*ops - i*ops, MPSS*ops + 2*ops + i*ops)`.
   */
  lemma XStripCells(bsx: nat, bsy: nat, ops: nat, mpss: int, i: int, c: Cell)
    requires 0 <= 2 * ops + i * ops <= bsx && 0 <= bsy - 2 * ops - i * ops <= bsx
    requires 0 <= mpss * ops - i * ops <= bsy && 0 <= mpss * ops + 2 * ops + i * ops <= bsy
    ensures c in XStrip(bsx, bsy, ops, mpss, i) <==>
      2 * ops + i * ops <= c.0 < bsy - 2 * ops - i * ops && mpss * ops - i * ops <= c.1 < mpss * ops + 2 * ops + i * ops
  {
    StripMembers(bsx, bsy, 2 * ops + i * ops, bsy - 2 * ops - i * ops, mpss * ops - i * ops, mpss * ops + 2 * ops + i * ops, c);
  }

  /** On a square block each y-bridge is the transpose of its x-bridge. */
  lemma BridgesTransposed(bs: nat, ops: int, mpss: int, i: int, c: Cell)
    ensures c in YStrip(bs, bs, ops, mpss, i) <==> (c.1, c.0) in XStrip(bs, bs, ops, mpss, i)
  {
    var d := (c.1, c.0);
    RowMajorMembers(SliceBound(mpss * ops - i * ops, bs), SliceBound(mpss * ops + 2 * ops + i * ops, bs),
      SliceBound(2 * ops + i * ops, bs), SliceBound(bs - 2 * ops - i * ops, bs), c);
    RowMajorMembers(SliceBound(2 * ops + i * ops, bs), SliceBound(bs - 2 * ops - i * ops, bs),
      SliceBound(mpss * ops - i * ops, bs), SliceBound(mpss * ops + 2 * ops + i * ops, bs), d);
  }

  /**
   * With a block of 8 (10 with its halo), `ops = 1` and `MPSS = 3`, the first
   * y-bridge as written is the second x-bridge; it holds the cell (6, 2),
   * whose transpose (2, 6) is not in the first x-bridge.
   */
  lemma ReversedBridgeNotTransposed()
    ensures |Reverse(XStrips(10, 10, 1, 3))| == 2
    ensures (6, 2) in Reverse(XStrips(10, 10, 1, 3))[0]
    ensures (2, 6) !in XStrips(10, 10, 1, 3)[0]
  {
    var xs := XStrips(10, 10, 1, 3);
    StripsAt(10, 10, 1, 3, 0);
    StripsAt(10, 10, 1, 3, 1);
    assert xs[1] == XStrip(10, 10, 1, 3, 1) == Strip(10, 10, 3, 7, 2, 6);
    StripMembers(10, 10, 3, 7, 2, 6, (6, 2));
    assert xs[0] == Strip(10, 10, 2, 8, 3, 5);
    StripMembers(10, 10, 2, 8, 3, 5, (2, 6));
  }

  // ---------------------------------------------------------------------
  // CPU_Decomp

  /**
   * The cells `CPU_Decomp` hands to `step` for a block whose planes are
   * `s2` by `s3`: drop `s3*ops` cells from each end of the row-major
   * listing, then keep `y` in `[ops, s3 - ops)`. For `ops > 0` that is the
   * block without its `ops` halo, row-major; for `ops == 0` the slice
   * `[0:-0]` is empty, and so is the list.
   */
  function DecompCells(s2: nat, s3: nat, ops: nat): (r: seq<Cell>)
  {
    FilterY(PySlice(RowMajor(0, s2, 0, s3), s3 * ops, -(s3 * ops)), ops, s3 - ops)
  }

  lemma DecompCellsInterior(s2: nat, s3: nat, ops: nat)
    ensures DecompCells(s2, s3, ops) == if ops == 0 then [] else RowMajor(ops, s2 - ops, ops, s3 - ops)
  {
    if ops == 0 {
      assert PySlice(RowMajor(0, s2, 0, s3), 0, 0) == [];
    } else if s3 == 0 {
      DecompNoColumns(s2, ops);
    } else {
      DecompInterior(s2, s3, ops);
    }
  }

  lemma DecompNoColumns(s2: nat, ops: nat)
    requires ops > 0
    ensures DecompCells(s2, 0, ops) == RowMajor(ops, s2 - ops, ops, 0 - ops)
  {
    RowMajorLength(0, s2, 0, 0);
    RowMajorEmpty(ops, s2 - ops, ops, 0 - ops);
  }

  lemma DecompInterior(s2: nat, s3: nat, ops: nat)
    requires ops > 0 && s3 > 0
    ensures DecompCells(s2, s3, ops) == RowMajor(ops, s2 - ops, ops, s3 - ops)
  {
    TrimBlockRows(s2, s3, ops);
    FilterInner(RowMajor(ops, s2 - ops, 0, s3), ops, s2 - ops, 0, s3, ops, s3 - ops);
  }

  /** Dropping `s3*ops` cells from each end of an `s2` by `s3` block drops `ops` rows at each end. */
  lemma TrimBlockRows(s2: nat, s3: nat, ops: nat)
    requires ops > 0 && s3 > 0
    ensures PySlice(RowMajor(0, s2, 0, s3), s3 * ops, -(s3 * ops)) == RowMajor(ops, s2 - ops, 0, s3)
  {
    var k := ops * (s3 - 0);
    assert s3 * ops == k;
    SliceRows(0, s2, 0, s3, ops);
    assert PySlice(RowMajor(0, s2, 0, s3), k, -k) == RowMajor(0 + ops, s2 - ops, 0, s3);
  }
}
