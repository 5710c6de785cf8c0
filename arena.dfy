/**
 * The shared array of the swept solver: a 4-D array indexed (time, variable,
 * x, y). Its time axis is a Dafny `array` whose elements are the time slices;
 * each slice is a value (`Slab`) indexed [variable][x][y]. The numpy slab
 * assignments of the source become functions on slabs: numpy evaluates the
 * right-hand side before storing, so each copy reads the slab as it was
 * before that statement, overlap or not.
 */
module Arena {
  import opened PyCore
  import WriteRegions

  type Plane = seq<seq<real>>
  type Slab = seq<Plane>

  /** Every variable plane of `s` is `nx` rows of `ny` values. */
  predicate Shaped(s: Slab, nx: nat, ny: nat)
  {
    forall v :: 0 <= v < |s| ==> |s[v]| == nx && forall x :: 0 <= x < nx ==> |s[v][x]| == ny
  }

  /** `s[dst:dst+n] = s[src:src+n]` on one axis of a sequence. */
  function Copy<T>(s: seq<T>, dst: nat, src: nat, n: nat): (r: seq<T>)
    requires dst + n <= |s| && src + n <= |s|
    ensures |r| == |s|
    ensures forall i :: 0 <= i < |s| ==> r[i] == if dst <= i < dst + n then s[i - dst + src] else s[i]
  {
    seq(|s|, i requires 0 <= i < |s| => if dst <= i < dst + n then s[i - dst + src] else s[i])
  }

  /** `s[:, dst:dst+n, :] = s[:, src:src+n, :]`: copy `n` x-rows. */
  function CopyRows(s: Slab, nx: nat, ny: nat, dst: nat, src: nat, n: nat): (r: Slab)
    requires Shaped(s, nx, ny) && dst + n <= nx && src + n <= nx
    ensures Shaped(r, nx, ny) && |r| == |s|
    ensures forall v, x, y :: 0 <= v < |s| && 0 <= x < nx && 0 <= y < ny ==>
      r[v][x][y] == if dst <= x < dst + n then s[v][x - dst + src][y] else s[v][x][y]
  {
    seq(|s|, v requires 0 <= v < |s| => Copy(s[v], dst, src, n))
  }

  /** `s[:, :, dst:dst+n] = s[:, :, src:src+n]`: copy `n` y-columns. */
  function CopyCols(s: Slab, nx: nat, ny: nat, dst: nat, src: nat, n: nat): (r: Slab)
    requires Shaped(s, nx, ny) && dst + n <= ny && src + n <= ny
    ensures Shaped(r, nx, ny) && |r| == |s|
    ensures forall v, x, y :: 0 <= v < |s| && 0 <= x < nx && 0 <= y < ny ==>
      r[v][x][y] == if dst <= y < dst + n then s[v][x][y - dst + src] else s[v][x][y]
  {
    seq(|s|, v requires 0 <= v < |s| => seq(nx, x requires 0 <= x < nx => Copy(s[v][x], dst, src, n)))
  }

  /** Two slabs of one shape are equal when they agree everywhere. */
  lemma SlabExt(a: Slab, b: Slab, nx: nat, ny: nat)
    requires Shaped(a, nx, ny) && Shaped(b, nx, ny) && |a| == |b|
    requires forall v, x, y :: 0 <= v < |a| && 0 <= x < nx && 0 <= y < ny ==> a[v][x][y] == b[v][x][y]
    ensures a == b
  {
    forall v | 0 <= v < |a|
      ensures a[v] == b[v]
    {
      forall x | 0 <= x < nx
        ensures a[v][x] == b[v][x]
      {
      }
    }
  }

  /** Rows `[dst, dst + n)` of `r` hold the same values as rows `[src, src + n)`. */
  predicate RowsAgree(r: Slab, nx: nat, ny: nat, dst: nat, src: nat, n: nat)
    requires Shaped(r, nx, ny) && dst + n <= nx && src + n <= nx
  {
    forall v, x, x', y :: 0 <= v < |r| && dst <= x < dst + n && x' == x - dst + src && 0 <= y < ny ==>
      r[v][x][y] == r[v][x'][y]
  }

  /** Columns `[dst, dst + n)` of `r` hold the same values as columns `[src, src + n)`. */
  predicate ColsAgree(r: Slab, nx: nat, ny: nat, dst: nat, src: nat, n: nat)
    requires Shaped(r, nx, ny) && dst + n <= ny && src + n <= ny
  {
    forall v, x, y, y' :: 0 <= v < |r| && 0 <= x < nx && dst <= y < dst + n && y' == y - dst + src ==>
      r[v][x][y] == r[v][x][y']
  }

  /** A copy between disjoint row ranges makes them agree. */
  lemma CopyRowsAgree(s: Slab, nx: nat, ny: nat, dst: nat, src: nat, n: nat)
    requires Shaped(s, nx, ny) && dst + n <= nx && src + n <= nx && (src + n <= dst || dst + n <= src)
    ensures RowsAgree(CopyRows(s, nx, ny, dst, src, n), nx, ny, dst, src, n)
  {
  }

  /** A copy between disjoint column ranges makes them agree. */
  lemma CopyColsAgree(s: Slab, nx: nat, ny: nat, dst: nat, src: nat, n: nat)
    requires Shaped(s, nx, ny) && dst + n <= ny && src + n <= ny && (src + n <= dst || dst + n <= src)
    ensures ColsAgree(CopyCols(s, nx, ny, dst, src, n), nx, ny, dst, src, n)
  {
  }

  /** A column copy moves whole columns, so rows that agreed still agree. */
  lemma CopyColsKeepsRows(s: Slab, nx: nat, ny: nat, dst: nat, src: nat, n: nat, d: nat, c: nat, m: nat)
    requires Shaped(s, nx, ny) && dst + n <= ny && src + n <= ny && d + m <= nx && c + m <= nx
    requires RowsAgree(s, nx, ny, d, c, m)
    ensures RowsAgree(CopyCols(s, nx, ny, dst, src, n), nx, ny, d, c, m)
  {
    var r := CopyCols(s, nx, ny, dst, src, n);
    forall v, x, x', y | 0 <= v < |r| && d <= x < d + m && x' == x - d + c && 0 <= y < ny
      ensures r[v][x][y] == r[v][x'][y]
    {
      var y' := if dst <= y < dst + n then y - dst + src else y;
      assert s[v][x][y'] == s[v][x'][y'];
    }
  }

  /** A row copy moves whole rows, so columns that agreed still agree. */
  lemma CopyRowsKeepsCols(s: Slab, nx: nat, ny: nat, dst: nat, src: nat, n: nat, d: nat, c: nat, m: nat)
    requires Shaped(s, nx, ny) && dst + n <= nx && src + n <= nx && d + m <= ny && c + m <= ny
    requires ColsAgree(s, nx, ny, d, c, m)
    ensures ColsAgree(CopyRows(s, nx, ny, dst, src, n), nx, ny, d, c, m)
  {
    var r := CopyRows(s, nx, ny, dst, src, n);
    forall v, x, y, y' | 0 <= v < |r| && 0 <= x < nx && d <= y < d + m && y' == y - d + c
      ensures r[v][x][y] == r[v][x][y']
    {
      var x' := if dst <= x < dst + n then x - dst + src else x;
      assert s[v][x'][y] == s[v][x'][y'];
    }
  }

  /** A row copy that touches neither of two agreeing row ranges keeps them agreeing. */
  lemma CopyRowsKeepsRows(s: Slab, nx: nat, ny: nat, dst: nat, src: nat, n: nat, d: nat, c: nat, m: nat)
    requires Shaped(s, nx, ny) && dst + n <= nx && src + n <= nx && d + m <= nx && c + m <= nx
    requires (dst + n <= d || d + m <= dst) && (dst + n <= c || c + m <= dst)
    requires RowsAgree(s, nx, ny, d, c, m)
    ensures RowsAgree(CopyRows(s, nx, ny, dst, src, n), nx, ny, d, c, m)
  {
    var r := CopyRows(s, nx, ny, dst, src, n);
    forall v, x, x', y | 0 <= v < |r| && d <= x < d + m && x' == x - d + c && 0 <= y < ny
      ensures r[v][x][y] == r[v][x'][y]
    {
      assert s[v][x][y] == s[v][x'][y];
    }
  }

  /** A column copy that touches neither of two agreeing column ranges keeps them agreeing. */
  lemma CopyColsKeepsCols(s: Slab, nx: nat, ny: nat, dst: nat, src: nat, n: nat, d: nat, c: nat, m: nat)
    requires Shaped(s, nx, ny) && dst + n <= ny && src + n <= ny && d + m <= ny && c + m <= ny
    requires (dst + n <= d || d + m <= dst) && (dst + n <= c || c + m <= dst)
    requires ColsAgree(s, nx, ny, d, c, m)
    ensures ColsAgree(CopyCols(s, nx, ny, dst, src, n), nx, ny, d, c, m)
  {
    var r := CopyCols(s, nx, ny, dst, src, n);
    forall v, x, y, y' | 0 <= v < |r| && 0 <= x < nx && d <= y < d + m && y' == y - d + c
      ensures r[v][x][y] == r[v][x][y']
    {
      assert s[v][x][y] == s[v][x][y'];
    }
  }

  /** Copying rows onto rows that already hold the same values changes nothing. */
  lemma CopyRowsNoop(s: Slab, nx: nat, ny: nat, dst: nat, src: nat, n: nat)
    requires Shaped(s, nx, ny) && dst + n <= nx && src + n <= nx
    requires RowsAgree(s, nx, ny, dst, src, n)
    ensures CopyRows(s, nx, ny, dst, src, n) == s
  {
    var r := CopyRows(s, nx, ny, dst, src, n);
    forall v, x, y | 0 <= v < |s| && 0 <= x < nx && 0 <= y < ny
      ensures r[v][x][y] == s[v][x][y]
    {
      if dst <= x < dst + n {
        var x' := x - dst + src;
        assert s[v][x][y] == s[v][x'][y];
      }
    }
    SlabExt(r, s, nx, ny);
  }

  /** Copying columns onto columns that already hold the same values changes nothing. */
  lemma CopyColsNoop(s: Slab, nx: nat, ny: nat, dst: nat, src: nat, n: nat)
    requires Shaped(s, nx, ny) && dst + n <= ny && src + n <= ny
    requires ColsAgree(s, nx, ny, dst, src, n)
    ensures CopyCols(s, nx, ny, dst, src, n) == s
  {
    var r := CopyCols(s, nx, ny, dst, src, n);
    forall v, x, y | 0 <= v < |s| && 0 <= x < nx && 0 <= y < ny
      ensures r[v][x][y] == s[v][x][y]
    {
      if dst <= y < dst + n {
        var y' := y - dst + src;
        assert s[v][x][y] == s[v][x][y'];
      }
    }
    SlabExt(r, s, nx, ny);
  }

  // ---------------------------------------------------------------------
  // boundary_update

  /**
   * The four copies of `boundary_update` on time slice 0, in order: low x
   * ghosts from `[-2*ops:-ops]`, low y ghosts likewise, then high x ghosts
   * from `[ops:2*ops]` and high y ghosts likewise.
   */
  function BoundaryUpdated(s: Slab, nx: nat, ny: nat, ops: nat): (r: Slab)
    requires Shaped(s, nx, ny) && 0 < ops && 2 * ops <= nx && 2 * ops <= ny
    ensures Shaped(r, nx, ny) && |r| == |s|
  {
    var s1 := CopyRows(s, nx, ny, 0, nx - 2 * ops, ops);
    var s2 := CopyCols(s1, nx, ny, 0, ny - 2 * ops, ops);
    var s3 := CopyRows(s2, nx, ny, nx - ops, ops, ops);
    CopyCols(s3, nx, ny, ny - ops, ops, ops)
  }

  /**
   * The periodic ghost relation: on each axis the low ghosts `[:ops]` equal
   * the far interior slab `[-2*ops:-ops]` and the high ghosts `[-ops:]`
   * equal the near interior slab `[ops:2*ops]`.
   */
  predicate PeriodicGhosts(r: Slab, nx: nat, ny: nat, ops: nat)
    requires Shaped(r, nx, ny) && 2 * ops <= nx && 2 * ops <= ny
  {
    && RowsAgree(r, nx, ny, 0, nx - 2 * ops, ops) && RowsAgree(r, nx, ny, nx - ops, ops, ops)
    && ColsAgree(r, nx, ny, 0, ny - 2 * ops, ops) && ColsAgree(r, nx, ny, ny - ops, ops, ops)
  }

  /** `r` and `s` agree on the window `[x0, x1) x [y0, y1)` of every variable. */
  predicate Kept(r: Slab, s: Slab, nx: nat, ny: nat, x0: nat, x1: nat, y0: nat, y1: nat)
    requires Shaped(r, nx, ny) && Shaped(s, nx, ny) && |r| == |s| && x1 <= nx && y1 <= ny
  {
    forall v, x, y :: 0 <= v < |s| && x0 <= x < x1 && y0 <= y < y1 ==> r[v][x][y] == s[v][x][y]
  }

  /** A row copy whose target misses the window keeps it. */
  lemma CopyRowsKept(s: Slab, t: Slab, nx: nat, ny: nat, dst: nat, src: nat, n: nat, x0: nat, x1: nat, y0: nat, y1: nat)
    requires Shaped(s, nx, ny) && Shaped(t, nx, ny) && |s| == |t| && dst + n <= nx && src + n <= nx
    requires x1 <= nx && y1 <= ny && (dst + n <= x0 || x1 <= dst)
    requires Kept(s, t, nx, ny, x0, x1, y0, y1)
    ensures Kept(CopyRows(s, nx, ny, dst, src, n), t, nx, ny, x0, x1, y0, y1)
  {
  }

  /** A column copy whose target misses the window keeps it. */
  lemma CopyColsKept(s: Slab, t: Slab, nx: nat, ny: nat, dst: nat, src: nat, n: nat, x0: nat, x1: nat, y0: nat, y1: nat)
    requires Shaped(s, nx, ny) && Shaped(t, nx, ny) && |s| == |t| && dst + n <= ny && src + n <= ny
    requires x1 <= nx && y1 <= ny && (dst + n <= y0 || y1 <= dst)
    requires Kept(s, t, nx, ny, x0, x1, y0, y1)
    ensures Kept(CopyCols(s, nx, ny, dst, src, n), t, nx, ny, x0, x1, y0, y1)
  {
  }

  /** After `boundary_update` both x-ghost slabs hold their periodic images. */
  lemma BoundaryRows(s: Slab, nx: nat, ny: nat, ops: nat)
    requires Shaped(s, nx, ny) && 0 < ops && 3 * ops <= nx && 2 * ops <= ny
    ensures var r := BoundaryUpdated(s, nx, ny, ops);
      RowsAgree(r, nx, ny, 0, nx - 2 * ops, ops) && RowsAgree(r, nx, ny, nx - ops, ops, ops)
  {
    LowRows(s, nx, ny, ops);
    HighRows(s, nx, ny, ops);
  }

  /** The low x-ghosts, filled by the first copy, survive the last three. */
  lemma LowRows(s: Slab, nx: nat, ny: nat, ops: nat)
    requires Shaped(s, nx, ny) && 0 < ops && 3 * ops <= nx && 2 * ops <= ny
    ensures RowsAgree(BoundaryUpdated(s, nx, ny, ops), nx, ny, 0, nx - 2 * ops, ops)
  {
    var s1 := CopyRows(s, nx, ny, 0, nx - 2 * ops, ops);
    var s2 := CopyCols(s1, nx, ny, 0, ny - 2 * ops, ops);
    var s3 := CopyRows(s2, nx, ny, nx - ops, ops, ops);
    CopyRowsAgree(s, nx, ny, 0, nx - 2 * ops, ops);
    CopyColsKeepsRows(s1, nx, ny, 0, ny - 2 * ops, ops, 0, nx - 2 * ops, ops);
    CopyRowsKeepsRows(s2, nx, ny, nx - ops, ops, ops, 0, nx - 2 * ops, ops);
    CopyColsKeepsRows(s3, nx, ny, ny - ops, ops, ops, 0, nx - 2 * ops, ops);
  }

  /** The high x-ghosts, filled by the third copy, survive the last one. */
  lemma HighRows(s: Slab, nx: nat, ny: nat, ops: nat)
    requires Shaped(s, nx, ny) && 0 < ops && 3 * ops <= nx && 2 * ops <= ny
    ensures RowsAgree(BoundaryUpdated(s, nx, ny, ops), nx, ny, nx - ops, ops, ops)
  {
    var s1 := CopyRows(s, nx, ny, 0, nx - 2 * ops, ops);
    var s2 := CopyCols(s1, nx, ny, 0, ny - 2 * ops, ops);
    var s3 := CopyRows(s2, nx, ny, nx - ops, ops, ops);
    CopyRowsAgree(s2, nx, ny, nx - ops, ops, ops);
    CopyColsKeepsRows(s3, nx, ny, ny - ops, ops, ops, nx - ops, ops, ops);
  }

  /** After `boundary_update` both y-ghost slabs hold their periodic images. */
  lemma BoundaryCols(s: Slab, nx: nat, ny: nat, ops: nat)
    requires Shaped(s, nx, ny) && 0 < ops && 2 * ops <= nx && 3 * ops <= ny
    ensures var r := BoundaryUpdated(s, nx, ny, ops);
      ColsAgree(r, nx, ny, 0, ny - 2 * ops, ops) && ColsAgree(r, nx, ny, ny - ops, ops, ops)
  {
    LowCols(s, nx, ny, ops);
    HighCols(s, nx, ny, ops);
  }

  /** The low y-ghosts, filled by the second copy, survive the last two. */
  lemma LowCols(s: Slab, nx: nat, ny: nat, ops: nat)
    requires Shaped(s, nx, ny) && 0 < ops && 2 * ops <= nx && 3 * ops <= ny
    ensures ColsAgree(BoundaryUpdated(s, nx, ny, ops), nx, ny, 0, ny - 2 * ops, ops)
  {
    var s1 := CopyRows(s, nx, ny, 0, nx - 2 * ops, ops);
    var s2 := CopyCols(s1, nx, ny, 0, ny - 2 * ops, ops);
    var s3 := CopyRows(s2, nx, ny, nx - ops, ops, ops);
    CopyColsAgree(s1, nx, ny, 0, ny - 2 * ops, ops);
    CopyRowsKeepsCols(s2, nx, ny, nx - ops, ops, ops, 0, ny - 2 * ops, ops);
    CopyColsKeepsCols(s3, nx, ny, ny - ops, ops, ops, 0, ny - 2 * ops, ops);
  }

  /** The high y-ghosts are filled by the last copy. */
  lemma HighCols(s: Slab, nx: nat, ny: nat, ops: nat)
    requires Shaped(s, nx, ny) && 0 < ops && 2 * ops <= nx && 3 * ops <= ny
    ensures ColsAgree(BoundaryUpdated(s, nx, ny, ops), nx, ny, ny - ops, ops, ops)
  {
    var s1 := CopyRows(s, nx, ny, 0, nx - 2 * ops, ops);
    var s2 := CopyCols(s1, nx, ny, 0, ny - 2 * ops, ops);
    var s3 := CopyRows(s2, nx, ny, nx - ops, ops, ops);
    CopyColsAgree(s3, nx, ny, ny - ops, ops, ops);
  }

  /**
   * When each spatial extent is at least `3*ops`, `boundary_update` leaves
   * the periodic ghost relation on both axes.
   */
  lemma BoundaryGhosts(s: Slab, nx: nat, ny: nat, ops: nat)
    requires Shaped(s, nx, ny) && 0 < ops && 3 * ops <= nx && 3 * ops <= ny
    ensures PeriodicGhosts(BoundaryUpdated(s, nx, ny, ops), nx, ny, ops)
  {
    BoundaryRows(s, nx, ny, ops);
    BoundaryCols(s, nx, ny, ops);
  }

  /** `boundary_update` writes only ghost cells: the interior keeps its values. */
  lemma BoundaryInterior(s: Slab, nx: nat, ny: nat, ops: nat)
    requires Shaped(s, nx, ny) && 0 < ops && 2 * ops <= nx && 2 * ops <= ny
    ensures Kept(BoundaryUpdated(s, nx, ny, ops), s, nx, ny, ops, nx - ops, ops, ny - ops)
  {
    var s1 := CopyRows(s, nx, ny, 0, nx - 2 * ops, ops);
    var s2 := CopyCols(s1, nx, ny, 0, ny - 2 * ops, ops);
    var s3 := CopyRows(s2, nx, ny, nx - ops, ops, ops);
    assert Kept(s, s, nx, ny, ops, nx - ops, ops, ny - ops);
    CopyRowsKept(s, s, nx, ny, 0, nx - 2 * ops, ops, ops, nx - ops, ops, ny - ops);
    CopyColsKept(s1, s, nx, ny, 0, ny - 2 * ops, ops, ops, nx - ops, ops, ny - ops);
    CopyRowsKept(s2, s, nx, ny, nx - ops, ops, ops, ops, nx - ops, ops, ny - ops);
    CopyColsKept(s3, s, nx, ny, ny - ops, ops, ops, ops, nx - ops, ops, ny - ops);
  }

  /** `boundary_update` is idempotent when each spatial extent is at least `3*ops`. */
  lemma BoundaryIdempotent(s: Slab, nx: nat, ny: nat, ops: nat)
    requires Shaped(s, nx, ny) && 0 < ops && 3 * ops <= nx && 3 * ops <= ny
    ensures BoundaryUpdated(BoundaryUpdated(s, nx, ny, ops), nx, ny, ops) == BoundaryUpdated(s, nx, ny, ops)
  {
    var r := BoundaryUpdated(s, nx, ny, ops);
    BoundaryGhosts(s, nx, ny, ops);
    CopyRowsNoop(r, nx, ny, 0, nx - 2 * ops, ops);
    CopyColsNoop(r, nx, ny, 0, ny - 2 * ops, ops);
    CopyRowsNoop(r, nx, ny, nx - ops, ops, ops);
    CopyColsNoop(r, nx, ny, ny - ops, ops, ops);
  }

  /**
   * `boundary_update(shared_arr, ops)`: refreshes the periodic ghost cells of
   * time slice 0 in place; no other time slice changes. A spatial extent
   * below `2*ops`, or `ops == 0` (where `[-0:]` is the whole axis), makes
   * numpy's shapes disagree.
   */
  method BoundaryUpdate(a: array<Slab>, nx: nat, ny: nat, ops: nat)
    requires a.Length > 0 && Shaped(a[0], nx, ny) && 0 < ops && 2 * ops <= nx && 2 * ops <= ny
    modifies a
    ensures a[0] == BoundaryUpdated(old(a[0]), nx, ny, ops)
    ensures forall t :: 1 <= t < a.Length ==> a[t] == old(a[t])
  {
    a[0] := CopyRows(a[0], nx, ny, 0, nx - 2 * ops, ops);
    a[0] := CopyCols(a[0], nx, ny, 0, ny - 2 * ops, ops);
    a[0] := CopyRows(a[0], nx, ny, nx - ops, ops, ops);
    a[0] := CopyCols(a[0], nx, ny, ny - ops, ops, ops);
  }

  // ---------------------------------------------------------------------
  // edge_comm of the per-block swept functions

  /**
   * One time slice of `edge_comm(shared_arr, SPLITX, SPLITY, dir)`: with
   * `dir` false the last `SPLITX` x-planes take the first ones and then the
   * last `SPLITY` y-planes the first ones; with `dir` true the other way
   * round. A split wider than the axis covers the whole axis.
   */
  function EdgeSwept(s: Slab, nx: nat, ny: nat, sx: nat, sy: nat, dir: bool): (r: Slab)
    requires Shaped(s, nx, ny) && 0 < sx && 0 < sy
    ensures Shaped(r, nx, ny) && |r| == |s|
  {
    var kx := if sx <= nx then sx else nx;
    var ky := if sy <= ny then sy else ny;
    if !dir then CopyCols(CopyRows(s, nx, ny, nx - kx, 0, kx), nx, ny, ny - ky, 0, ky)
    else CopyCols(CopyRows(s, nx, ny, 0, nx - kx, kx), nx, ny, 0, ny - ky, ky)
  }

  /**
   * When both splits fit twice in their axes, after `edge_comm` the last
   * `SPLITX` x-planes equal the first and the last `SPLITY` y-planes equal the
   * first; the side that was copied from keeps its values.
   */
  lemma EdgeSweptMirror(s: Slab, nx: nat, ny: nat, sx: nat, sy: nat, dir: bool)
    requires Shaped(s, nx, ny) && 0 < sx && 0 < sy && 2 * sx <= nx && 2 * sy <= ny
    ensures var r := EdgeSwept(s, nx, ny, sx, sy, dir);
      && (!dir ==> RowsAgree(r, nx, ny, nx - sx, 0, sx) && ColsAgree(r, nx, ny, ny - sy, 0, sy)
                   && Kept(r, s, nx, ny, 0, nx - sx, 0, ny - sy))
      && (dir ==> RowsAgree(r, nx, ny, 0, nx - sx, sx) && ColsAgree(r, nx, ny, 0, ny - sy, sy)
                  && Kept(r, s, nx, ny, sx, nx, sy, ny))
  {
    var r := EdgeSwept(s, nx, ny, sx, sy, dir);
    if !dir {
      EdgeMirrorCopies(s, r, nx, ny, nx - sx, 0, sx, ny - sy, 0, sy, 0, nx - sx, 0, ny - sy);
    } else {
      EdgeMirrorCopies(s, r, nx, ny, 0, nx - sx, sx, 0, ny - sy, sy, sx, nx, sy, ny);
    }
  }

  /**
   * A row copy followed by a column copy, between disjoint ranges: the copied
   * rows and columns agree with their sources, and a window that neither copy
   * writes keeps its values.
   */
  lemma EdgeMirrorCopies(s: Slab, r: Slab, nx: nat, ny: nat, dx: nat, cx: nat, kx: nat, dy: nat, cy: nat, ky: nat,
                         x0: nat, x1: nat, y0: nat, y1: nat)
    requires Shaped(s, nx, ny)
    requires dx + kx <= nx && cx + kx <= nx && (dx + kx <= cx || cx + kx <= dx)
    requires dy + ky <= ny && cy + ky <= ny && (dy + ky <= cy || cy + ky <= dy)
    requires x1 <= nx && y1 <= ny && (x1 <= dx || dx + kx <= x0)
    requires y1 <= dy || dy + ky <= y0
    requires r == CopyCols(CopyRows(s, nx, ny, dx, cx, kx), nx, ny, dy, cy, ky)
    ensures Shaped(r, nx, ny) && |r| == |s|
    ensures RowsAgree(r, nx, ny, dx, cx, kx) && ColsAgree(r, nx, ny, dy, cy, ky) && Kept(r, s, nx, ny, x0, x1, y0, y1)
  {
    var s1 := CopyRows(s, nx, ny, dx, cx, kx);
    CopyRowsAgree(s, nx, ny, dx, cx, kx);
    CopyColsKeepsRows(s1, nx, ny, dy, cy, ky, dx, cx, kx);
    CopyColsAgree(s1, nx, ny, dy, cy, ky);
    assert Kept(s, s, nx, ny, x0, x1, y0, y1);
    CopyRowsKept(s, s, nx, ny, dx, cx, kx, x0, x1, y0, y1);
    CopyColsKept(s1, s, nx, ny, dy, cy, ky, x0, x1, y0, y1);
  }

  /**
   * `edge_comm(shared_arr, SPLITX, SPLITY, dir)` of the per-block swept
   * functions, on every time slice. `SPLITX == 0` would make `[-0:]` the
   * whole axis against an empty `[:0]`.
   */
  method EdgeCommSwept(a: array<Slab>, nx: nat, ny: nat, sx: nat, sy: nat, dir: bool)
    requires forall t :: 0 <= t < a.Length ==> Shaped(a[t], nx, ny)
    requires 0 < sx && 0 < sy
    modifies a
    ensures forall t :: 0 <= t < a.Length ==> a[t] == EdgeSwept(old(a[t]), nx, ny, sx, sy, dir)
  {
    forall t | 0 <= t < a.Length {
      a[t] := EdgeSwept(a[t], nx, ny, sx, sy, dir);
    }
  }

  // ---------------------------------------------------------------------
  // edge_comm of the standard decomposition

  /**
   * The ghost copies of the decomposition's `edge_comm` on one time slice:
   * both x-ghost slabs from `[ops:2*ops]`, then both y-ghost slabs likewise.
   */
  function EdgeDecomp(s: Slab, nx: nat, ny: nat, ops: nat): (r: Slab)
    requires Shaped(s, nx, ny) && 0 < ops && 2 * ops <= nx && 2 * ops <= ny
    ensures Shaped(r, nx, ny) && |r| == |s|
  {
    var s1 := CopyRows(s, nx, ny, nx - ops, ops, ops);
    var s2 := CopyRows(s1, nx, ny, 0, ops, ops);
    var s3 := CopyCols(s2, nx, ny, ny - ops, ops, ops);
    CopyCols(s3, nx, ny, 0, ops, ops)
  }

  /**
   * When each extent is at least `3*ops`, both ghost slabs on each axis equal
   * the interior slab `[ops:2*ops]` (a copy from the low side, not a
   * periodic wrap).
   */
  lemma EdgeDecompGhosts(s: Slab, nx: nat, ny: nat, ops: nat)
    requires Shaped(s, nx, ny) && 0 < ops && 3 * ops <= nx && 3 * ops <= ny
    ensures var r := EdgeDecomp(s, nx, ny, ops);
      && RowsAgree(r, nx, ny, 0, ops, ops) && RowsAgree(r, nx, ny, nx - ops, ops, ops)
      && ColsAgree(r, nx, ny, 0, ops, ops) && ColsAgree(r, nx, ny, ny - ops, ops, ops)
  {
    var s1 := CopyRows(s, nx, ny, nx - ops, ops, ops);
    var s2 := CopyRows(s1, nx, ny, 0, ops, ops);
    var s3 := CopyCols(s2, nx, ny, ny - ops, ops, ops);
    CopyRowsAgree(s, nx, ny, nx - ops, ops, ops);
    CopyRowsKeepsRows(s1, nx, ny, 0, ops, ops, nx - ops, ops, ops);
    CopyRowsAgree(s1, nx, ny, 0, ops, ops);
    CopyColsKeepsRows(s2, nx, ny, ny - ops, ops, ops, nx - ops, ops, ops);
    CopyColsKeepsRows(s2, nx, ny, ny - ops, ops, ops, 0, ops, ops);
    CopyColsAgree(s2, nx, ny, ny - ops, ops, ops);
    CopyColsKeepsRows(s3, nx, ny, 0, ops, ops, nx - ops, ops, ops);
    CopyColsKeepsRows(s3, nx, ny, 0, ops, ops, 0, ops, ops);
    CopyColsKeepsCols(s3, nx, ny, 0, ops, ops, ny - ops, ops, ops);
    CopyColsAgree(s3, nx, ny, 0, ops, ops);
  }

  /** The decomposition's `edge_comm` writes only ghost cells. */
  lemma EdgeDecompInterior(s: Slab, nx: nat, ny: nat, ops: nat)
    requires Shaped(s, nx, ny) && 0 < ops && 2 * ops <= nx && 2 * ops <= ny
    ensures Kept(EdgeDecomp(s, nx, ny, ops), s, nx, ny, ops, nx - ops, ops, ny - ops)
  {
    var s1 := CopyRows(s, nx, ny, nx - ops, ops, ops);
    var s2 := CopyRows(s1, nx, ny, 0, ops, ops);
    var s3 := CopyCols(s2, nx, ny, ny - ops, ops, ops);
    assert Kept(s, s, nx, ny, ops, nx - ops, ops, ny - ops);
    CopyRowsKept(s, s, nx, ny, nx - ops, ops, ops, ops, nx - ops, ops, ny - ops);
    CopyRowsKept(s1, s, nx, ny, 0, ops, ops, ops, nx - ops, ops, ny - ops);
    CopyColsKept(s2, s, nx, ny, ny - ops, ops, ops, ops, nx - ops, ops, ny - ops);
    CopyColsKept(s3, s, nx, ny, 0, ops, ops, ops, nx - ops, ops, ny - ops);
  }

  /**
   * `edge_comm(shared_arr, ops)` of the standard decomposition: time slice 0
   * takes slice 1, then every time slice has its ghost slabs refreshed.
   */
  method EdgeCommDecomp(a: array<Slab>, nx: nat, ny: nat, ops: nat)
    requires a.Length >= 2 && forall t :: 0 <= t < a.Length ==> Shaped(a[t], nx, ny)
    requires 0 < ops && 2 * ops <= nx && 2 * ops <= ny
    modifies a
    ensures a[0] == EdgeDecomp(old(a[1]), nx, ny, ops)
    ensures forall t :: 1 <= t < a.Length ==> a[t] == EdgeDecomp(old(a[t]), nx, ny, ops)
  {
    a[0] := a[1];
    forall t | 0 <= t < a.Length {
      a[t] := EdgeDecomp(a[t], nx, ny, ops);
    }
  }

  // ---------------------------------------------------------------------
  // Window writes

  /** A window of a slab: slices on the variable, x and y axes. */
  datatype Box = Box(v: Slice, x: Slice, y: Slice) {
    predicate Holds(i: int, j: int, k: int) { v.Contains(i) && x.Contains(j) && y.Contains(k) }
    /** The window lies inside a slab of `nv` planes of `nx` by `ny`. */
    predicate Fits(nv: nat, nx: nat, ny: nat)
    {
      0 <= v.start <= v.stop <= nv && 0 <= x.start <= x.stop <= nx && 0 <= y.start <= y.stop <= ny
    }
    function Moved(dv: int, dx: int, dy: int): Box { Box(v.Shift(dv), x.Shift(dx), y.Shift(dy)) }
  }

  /**
   * `dst[b] = src[b moved by (dv, dx, dy)]`: inside the window each cell takes
   * the source cell at the offset; outside it the slab is unchanged.
   */
  function Paste(dst: Slab, src: Slab, nx: nat, ny: nat, snx: nat, sny: nat, b: Box, dv: int, dx: int, dy: int): (r: Slab)
    requires Shaped(dst, nx, ny) && Shaped(src, snx, sny)
    requires b.Fits(|dst|, nx, ny) && b.Moved(dv, dx, dy).Fits(|src|, snx, sny)
    ensures Shaped(r, nx, ny) && |r| == |dst|
    ensures forall v, x, y :: 0 <= v < |dst| && 0 <= x < nx && 0 <= y < ny ==>
      r[v][x][y] == if b.Holds(v, x, y) then src[v + dv][x + dx][y + dy] else dst[v][x][y]
  {
    seq(|dst|, v requires 0 <= v < |dst| =>
      seq(nx, x requires 0 <= x < nx =>
        seq(ny, y requires 0 <= y < ny =>
          if b.Holds(v, x, y) then src[v + dv][x + dx][y + dy] else dst[v][x][y])))
  }

  function RegionBox(region: Region): Box { Box(region.v, region.x, region.y) }

  /**
   * The shift of `write_and_shift` in the per-block swept functions:
   * `shared_arr[:MPSS, r] = shared_arr[MPSS:, r]` for the window `r` of
   * `region1`. The two sides have one shape only when the time axis is
   * `2*MPSS` long.
   */
  method WriteAndShift(a: array<Slab>, nx: nat, ny: nat, region1: Region, mpss: nat)
    requires a.Length == 2 * mpss
    requires forall t :: 0 <= t < a.Length ==> Shaped(a[t], nx, ny) && RegionBox(region1).Fits(|a[t]|, nx, ny)
    modifies a
    ensures forall t :: 0 <= t < mpss ==>
      a[t] == Paste(old(a[t]), old(a[t + mpss]), nx, ny, nx, ny, RegionBox(region1), 0, 0, 0)
    ensures forall t :: mpss <= t < a.Length ==> a[t] == old(a[t])
  {
    var b := RegionBox(region1);
    assert b.Moved(0, 0, 0) == b;
    forall t | 0 <= t < mpss {
      a[t] := Paste(a[t], a[t + mpss], nx, ny, nx, ny, b, 0, 0, 0);
    }
  }

  /**
   * `write_and_shift` of the shared-array decomposition: the output rows
   * `[MPSS*(GST-1), MPSS*GST)` and output window (the write region moved
   * back by the halo) the caller writes, and the shift
   * `shared_arr[:MPSS+1, r] = shared_arr[MPSS+1:, r]`, which needs a time
   * axis `2*(MPSS+1)` long.
   */
  method WriteAndShiftDecomp(a: array<Slab>, nx: nat, ny: nat, region1: Region, ops: nat, mpss: nat, gst: int)
    returns (rows: Slice, window: seq<Slice>)
    requires a.Length == 2 * (mpss + 1)
    requires forall t :: 0 <= t < a.Length ==> Shaped(a[t], nx, ny) && RegionBox(region1).Fits(|a[t]|, nx, ny)
    modifies a
    ensures rows == Slice(mpss * (gst - 1), mpss * gst) && rows.Width() == mpss
    ensures window == WriteRegions.OutputRegion(region1, ops)
    ensures forall t :: 0 <= t <= mpss ==>
      a[t] == Paste(old(a[t]), old(a[t + mpss + 1]), nx, ny, nx, ny, RegionBox(region1), 0, 0, 0)
    ensures forall t :: mpss + 1 <= t < a.Length ==> a[t] == old(a[t])
  {
    window := WriteRegions.OutputRegion(region1, ops);
    rows := Slice(mpss * (gst - 1), mpss * gst);
    var b := RegionBox(region1);
    assert b.Moved(0, 0, 0) == b;
    forall t | 0 <= t <= mpss {
      a[t] := Paste(a[t], a[t + mpss + 1], nx, ny, nx, ny, b, 0, 0, 0);
    }
  }

  /**
   * The initial condition placement of the sweep driver:
   * `sarr[TSO-1, :, OPS:X+OPS, OPS:Y+OPS] = arr0` for an `X` by `Y` initial
   * condition with the shared array's variables. `TSO - 1` is a Python
   * index, so `TSO == 0` means the last time slice.
   */
  method PlaceInitial(a: array<Slab>, nx: nat, ny: nat, tso: int, arr0: Slab, x0: nat, y0: nat, ops: nat)
    requires -(a.Length as int) <= tso - 1 < a.Length
    requires forall t :: 0 <= t < a.Length ==> Shaped(a[t], nx, ny) && |a[t]| == |arr0|
    requires Shaped(arr0, x0, y0) && x0 + ops <= nx && y0 + ops <= ny
    modifies a
    ensures var k := PyIndex(tso - 1, a.Length);
      a[k] == Paste(old(a[k]), arr0, nx, ny, x0, y0,
                    Box(Slice(0, |arr0|), Slice(ops, x0 + ops), Slice(ops, y0 + ops)), 0, -(ops as int), -(ops as int))
    ensures forall t :: 0 <= t < a.Length && t != PyIndex(tso - 1, a.Length) ==> a[t] == old(a[t])
  {
    var k := PyIndex(tso - 1, a.Length);
    var b := Box(Slice(0, |arr0|), Slice(ops, x0 + ops), Slice(ops, y0 + ops));
    assert b.Moved(0, -(ops as int), -(ops as int)) == Box(Slice(0, |arr0|), Slice(0, x0), Slice(0, y0));
    a[k] := Paste(a[k], arr0, nx, ny, x0, y0, b, 0, -(ops as int), -(ops as int));
  }

  /**
   * After placing the initial condition, the slice `TSO - 1` holds `arr0`
   * offset by `ops` in x and y, and keeps its cells outside that window.
   */
  lemma InitialPlaced(s: Slab, arr0: Slab, nx: nat, ny: nat, x0: nat, y0: nat, ops: nat)
    requires Shaped(s, nx, ny) && Shaped(arr0, x0, y0) && |s| == |arr0| && x0 + ops <= nx && y0 + ops <= ny
    ensures var b := Box(Slice(0, |arr0|), Slice(ops, x0 + ops), Slice(ops, y0 + ops));
      b.Moved(0, -(ops as int), -(ops as int)).Fits(|arr0|, x0, y0) &&
      var r := Paste(s, arr0, nx, ny, x0, y0, b, 0, -(ops as int), -(ops as int));
      && (forall v, x, y :: 0 <= v < |arr0| && 0 <= x < x0 && 0 <= y < y0 ==> r[v][x + ops][y + ops] == arr0[v][x][y])
      && (forall v, x, y :: 0 <= v < |s| && 0 <= x < nx && 0 <= y < ny && !(ops <= x < x0 + ops && ops <= y < y0 + ops) ==>
            r[v][x][y] == s[v][x][y])
  {
    var b := Box(Slice(0, |arr0|), Slice(ops, x0 + ops), Slice(ops, y0 + ops));
    assert b.Moved(0, -(ops as int), -(ops as int)) == Box(Slice(0, |arr0|), Slice(0, x0), Slice(0, y0));
    PlacedInside(s, arr0, nx, ny, x0, y0, ops, b);
    PlacedOutside(s, arr0, nx, ny, x0, y0, ops, b);
  }

  /** The window of the placed slice holds `arr0`. */
  lemma PlacedInside(s: Slab, arr0: Slab, nx: nat, ny: nat, x0: nat, y0: nat, ops: nat, b: Box)
    requires Shaped(s, nx, ny) && Shaped(arr0, x0, y0) && |s| == |arr0| && x0 + ops <= nx && y0 + ops <= ny
    requires b == Box(Slice(0, |arr0|), Slice(ops, x0 + ops), Slice(ops, y0 + ops))
    requires b.Moved(0, -(ops as int), -(ops as int)) == Box(Slice(0, |arr0|), Slice(0, x0), Slice(0, y0))
    ensures var r := Paste(s, arr0, nx, ny, x0, y0, b, 0, -(ops as int), -(ops as int));
      forall v, x, y :: 0 <= v < |arr0| && 0 <= x < x0 && 0 <= y < y0 ==> r[v][x + ops][y + ops] == arr0[v][x][y]
  {
    var r := Paste(s, arr0, nx, ny, x0, y0, b, 0, -(ops as int), -(ops as int));
    forall v, x, y | 0 <= v < |arr0| && 0 <= x < x0 && 0 <= y < y0
      ensures r[v][x + ops][y + ops] == arr0[v][x][y]
    {
      assert b.Holds(v, x + ops, y + ops);
    }
  }

  /** Outside the window the placed slice keeps its values. */
  lemma PlacedOutside(s: Slab, arr0: Slab, nx: nat, ny: nat, x0: nat, y0: nat, ops: nat, b: Box)
    requires Shaped(s, nx, ny) && Shaped(arr0, x0, y0) && |s| == |arr0| && x0 + ops <= nx && y0 + ops <= ny
    requires b == Box(Slice(0, |arr0|), Slice(ops, x0 + ops), Slice(ops, y0 + ops))
    requires b.Moved(0, -(ops as int), -(ops as int)) == Box(Slice(0, |arr0|), Slice(0, x0), Slice(0, y0))
    ensures var r := Paste(s, arr0, nx, ny, x0, y0, b, 0, -(ops as int), -(ops as int));
      forall v, x, y :: 0 <= v < |s| && 0 <= x < nx && 0 <= y < ny && !(ops <= x < x0 + ops && ops <= y < y0 + ops) ==>
        r[v][x][y] == s[v][x][y]
  {
  }
}
