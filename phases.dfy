/**
 * The CPU phases of the swept rule: each folds the user's `step` over the
 * swept index sets of a block, in a fixed order, with a local time counter
 * `ts` that starts at 0 and grows by one per call. `step` is the stencil the
 * user supplies; here it is any function of (block, index set, ts).
 */
module Phases {
  import opened PyCore
  import opened IndexSets

  /** One call of `step`: the index set it is given and its `ts`. */
  datatype Call = Call(cells: seq<Cell>, ts: int)

  /** The block after `step` has been applied along `calls`, first call first. */
  function Apply<B>(step: (B, seq<Cell>, int) -> B, block: B, calls: seq<Call>): B
    decreases |calls|
  {
    if |calls| == 0 then block
    else step(Apply(step, block, calls[..|calls| - 1]), calls[|calls| - 1].cells, calls[|calls| - 1].ts)
  }

  /** Applying two call lists one after the other is applying their concatenation. */
  lemma {:induction false} ApplyAppend<B>(step: (B, seq<Cell>, int) -> B, block: B, c1: seq<Call>, c2: seq<Call>)
    ensures Apply(step, block, c1 + c2) == Apply(step, Apply(step, block, c1), c2)
    decreases |c2|
  {
    if |c2| > 0 {
      var c2' := c2[..|c2| - 1];
      assert (c1 + c2)[..|c1 + c2| - 1] == c1 + c2';
      ApplyAppend(step, block, c1, c2');
    } else {
      assert c1 + c2 == c1;
    }
  }

  /** One more call extends the fold by one application of `step`. */
  lemma ApplyPrefixStep<B>(step: (B, seq<Cell>, int) -> B, block: B, calls: seq<Call>, k: nat)
    requires k < |calls|
    ensures Apply(step, block, calls[..k + 1]) == step(Apply(step, block, calls[..k]), calls[k].cells, calls[k].ts)
  {
    assert calls[..k + 1][..k] == calls[..k];
  }

  /** The calls of `CPU_UpPyramid`: `idx_sets[1:]` in order, `ts` = 0, 1, .... */
  function UpCalls(sets: seq<seq<Cell>>): seq<Call>
  {
    if |sets| == 0 then [] else seq(|sets| - 1, i requires 0 <= i < |sets| - 1 => Call(sets[i + 1], i))
  }

  /** The calls of `CPU_DownPyramid`: `idx_sets` from the last down to `idx_sets[1]`. */
  function DownCalls(sets: seq<seq<Cell>>): seq<Call>
  {
    if |sets| == 0 then [] else seq(|sets| - 1, i requires 0 <= i < |sets| - 1 => Call(sets[|sets| - 1 - i], i))
  }

  /** The calls of `CPU_Octahedron`: the down calls, then `idx_sets[2:]` with `ts` running on. */
  function OctCalls(sets: seq<seq<Cell>>): seq<Call>
  {
    var down := DownCalls(sets);
    down + if |sets| < 2 then [] else seq(|sets| - 2, i requires 0 <= i < |sets| - 2 => Call(sets[i + 2], |down| + i))
  }

  /** `idx_sets[::-1][:-1]`: every set but the first, last one first. */
  lemma ReversedButFirst(sets: seq<seq<Cell>>)
    ensures var d := PySlice(Reverse(sets), 0, -1);
      |d| == (if |sets| == 0 then 0 else |sets| - 1) && forall i :: 0 <= i < |d| ==> d[i] == sets[|sets| - 1 - i]
  {
    var r := Reverse(sets);
    if |sets| > 0 {
      assert SliceBound(-1, |r|) == |r| - 1;
      assert PySlice(r, 0, -1) == r[0..|r| - 1];
    }
  }

  /** `idx_sets[k:]` for `k` >= 0. */
  lemma DropFirst(sets: seq<seq<Cell>>, k: nat)
    ensures PySlice(sets, k, |sets|) == if k <= |sets| then sets[k..] else []
  {
  }

  /**
   * `CPU_UpPyramid`: `step` on `idx_sets[1:]` in order, `ts` counting from 0.
   * Layer 0 (the whole block) is skipped: it is the layer already known.
   */
  method CpuUpPyramid<B>(step: (B, seq<Cell>, int) -> B, block: B, idxSets: seq<seq<Cell>>) returns (r: B)
    ensures r == Apply(step, block, UpCalls(idxSets))
  {
    var ts := 0;
    r := block;
    var sets := PySlice(idxSets, 1, |idxSets|);
    DropFirst(idxSets, 1);
    ghost var calls := UpCalls(idxSets);
    assert |calls| == |sets|;
    for i := 0 to |sets|
      invariant ts == i
      invariant r == Apply(step, block, calls[..i])
    {
      r := step(r, sets[i], ts);
      assert calls[..i + 1][..i] == calls[..i];
      ts := ts + 1;
    }
    assert calls[..|sets|] == calls;
  }

  /** `CPU_DownPyramid`: `step` on `idx_sets[::-1][:-1]`, `ts` counting from 0. */
  method CpuDownPyramid<B>(step: (B, seq<Cell>, int) -> B, block: B, idxSets: seq<seq<Cell>>) returns (r: B)
    ensures r == Apply(step, block, DownCalls(idxSets))
  {
    var ts := 0;
    r := block;
    var sets := PySlice(Reverse(idxSets), 0, -1);
    ReversedButFirst(idxSets);
    ghost var calls := DownCalls(idxSets);
    assert |calls| == |sets|;
    for i := 0 to |sets|
      invariant ts == i
      invariant r == Apply(step, block, calls[..i])
    {
      r := step(r, sets[i], ts);
      assert calls[..i + 1][..i] == calls[..i];
      ts := ts + 1;
    }
    assert calls[..|sets|] == calls;
  }

  /** The octahedron's calls: the down calls, then one call per set of `idx_sets[2:]`. */
  lemma OctCallsAt(sets: seq<seq<Cell>>, up: seq<seq<Cell>>)
    requires up == PySlice(sets, 2, |sets|)
    ensures var calls := OctCalls(sets);
      var nd := |DownCalls(sets)|;
      && |calls| == nd + |up|
      && calls[..nd] == DownCalls(sets)
      && forall i :: 0 <= i < |up| ==> calls[nd + i] == Call(up[i], nd + i)
  {
    DropFirst(sets, 2);
  }

  /**
   * `CPU_Octahedron`: the down pyramid's calls, then `step` on `idx_sets[2:]`,
   * with one `ts` counter across both loops.
   */
  method CpuOctahedron<B>(step: (B, seq<Cell>, int) -> B, block: B, idxSets: seq<seq<Cell>>) returns (r: B)
    ensures r == Apply(step, block, OctCalls(idxSets))
  {
    var ts := 0;
    r := block;
    var down := PySlice(Reverse(idxSets), 0, -1);
    ReversedButFirst(idxSets);
    ghost var dc := DownCalls(idxSets);
    ghost var nd := |dc|;
    assert nd == |down|;
    ghost var calls := OctCalls(idxSets);
    var up := PySlice(idxSets, 2, |idxSets|);
    OctCallsAt(idxSets, up);
    assert calls[..nd] == dc;
    for i := 0 to |down|
      invariant ts == i
      invariant r == Apply(step, block, calls[..i])
    {
      assert calls[i] == calls[..nd][i] == Call(down[i], ts);
      ApplyPrefixStep(step, block, calls, i);
      r := step(r, down[i], ts);
      ts := ts + 1;
    }
    for i := 0 to |up|
      invariant ts == nd + i
      invariant r == Apply(step, block, calls[..nd + i])
    {
      assert calls[nd + i] == Call(up[i], ts);
      ApplyPrefixStep(step, block, calls, nd + i);
      r := step(r, up[i], ts);
      ts := ts + 1;
    }
    assert calls[..nd + |up|] == calls;
  }

  /**
   * Up and down each make `len(idx_sets) - 1` calls and the octahedron
   * `2*len(idx_sets) - 3` (for at least two sets); in each the `ts` of the
   * calls run 0, 1, 2, ... in order.
   */
  lemma CallCounts(sets: seq<seq<Cell>>)
    ensures |sets| >= 1 ==> |UpCalls(sets)| == |sets| - 1 && |DownCalls(sets)| == |sets| - 1
    ensures |sets| >= 2 ==> |OctCalls(sets)| == 2 * |sets| - 3
    ensures |sets| <= 1 ==> UpCalls(sets) == [] && DownCalls(sets) == [] && OctCalls(sets) == []
    ensures forall i :: 0 <= i < |UpCalls(sets)| ==> UpCalls(sets)[i].ts == i
    ensures forall i :: 0 <= i < |DownCalls(sets)| ==> DownCalls(sets)[i].ts == i
    ensures forall i :: 0 <= i < |OctCalls(sets)| ==> OctCalls(sets)[i].ts == i
  {
  }

  /**
   * The down pyramid visits the up pyramid's sets in reverse order; neither
   * ever hands `step` the first set `idx_sets[0]` (unless it recurs later).
   */
  lemma DownReversesUp(sets: seq<seq<Cell>>)
    ensures |DownCalls(sets)| == |UpCalls(sets)|
    ensures forall i :: 0 <= i < |DownCalls(sets)| ==>
      DownCalls(sets)[i].cells == UpCalls(sets)[|UpCalls(sets)| - 1 - i].cells
    ensures forall i :: 0 <= i < |UpCalls(sets)| ==> UpCalls(sets)[i].cells == sets[i + 1]
  {
  }

  /**
   * The octahedron is the down pyramid followed by the up pyramid without
   * its first call, that one's `ts` moved past the down pyramid's.
   */
  lemma {:induction false} OctahedronDownThenUp<B>(step: (B, seq<Cell>, int) -> B, block: B, sets: seq<seq<Cell>>)
    requires |sets| >= 2
    ensures var down := DownCalls(sets);
      var up := UpCalls(sets);
      var rest := seq(|up| - 1, i requires 0 <= i < |up| - 1 => Call(up[i + 1].cells, |down| + i));
      Apply(step, block, OctCalls(sets)) == Apply(step, Apply(step, block, down), rest)
  {
    var down := DownCalls(sets);
    var up := UpCalls(sets);
    var rest := seq(|up| - 1, i requires 0 <= i < |up| - 1 => Call(up[i + 1].cells, |down| + i));
    assert OctCalls(sets) == down + rest;
    ApplyAppend(step, block, down, rest);
  }

  /**
   * `CPU_Decomp` of the standard decomposition: one call of `step`, with
   * `ts = 0`, on the cells of an `s2` by `s3` block found by dropping
   * `s3*ops` cells from each end of its row-major listing and keeping
   * `ops <= y < s3 - ops`. That listing is the block without its `ops`
   * halo, and it is empty when `ops == 0`.
   */
  function CpuDecomp<B>(step: (B, seq<Cell>, int) -> B, block: B, s2: nat, s3: nat, ops: nat): (r: B)
    ensures r == Apply(step, block, [Call(if ops == 0 then [] else RowMajor(ops, s2 - ops, ops, s3 - ops), 0)])
  {
    DecompCellsInterior(s2, s3, ops);
    assert [Call(DecompCells(s2, s3, ops), 0)][..0] == [];
    step(block, DecompCells(s2, s3, ops), 0)
  }
}
