# pysweep: the swept-rule decomposition, modelled in Dafny

pysweep solves a two-dimensional time-dependent PDE with the swept rule. It
spreads the work over GPU ranks and CPU ranks, which share one 4-D array
indexed (time, variable, x, y). This project models the core of that solver:

- The affinity split of the domain between the two architectures, along whole
  block columns.
- Dealing block rows out to the ranks of each architecture. This produces each
  rank's write, read, output, shifted and bridge regions.
- The swept index sets: the pyramid layers and the bridge strips of a block.
- The numpy slab copies on the shared array: the periodic boundary update, the
  edge communication, and the write-and-shift.
- Cutting a rank's share into halo-padded blocks and writing them back.
- The CPU phases (up pyramid, octahedron, down pyramid, the decomposition
  step) as folds of the user's stencil over the index sets.
- The thread arithmetic of the CUDA kernels: thread numbering, shared and
  global indices, and the per-thread windows and time slots.
- The assignment of GPUs to ranks, and the node and cluster grouping.
- The drivers' step counts, shared-array shape, configuration checks and phase
  order.

How Python and numpy constructs are modelled:

- Python's `round` is rounding half to even and `int()` on a float is
  truncation (module `PyCore`). Negative indices and slice bounds follow
  Python's rules.
- A numpy slab assignment is a function on slabs that reads the right-hand
  side before it stores.
- The shared array's time axis is a Dafny `array` whose elements are slabs.
- Loops in the source are methods with loops. Each is proved against a
  specification function, and the properties are proved about those functions.

Modules, one file each:

| module | file |
|---|---|
| `PyCore` | py_core.dfy |
| `Affinity` | affinity.dfy |
| `WriteRegions` | write_regions.dfy |
| `ShiftRegions` | shift_regions.dfy |
| `IndexSets` | index_sets.dfy |
| `Arena` | arena.dfy |
| `Blocks` | blocks.dfy |
| `DecompCpu` | decomp_cpu.dfy |
| `Phases` | phases.dfy |
| `Kernels` | kernels.dfy |
| `Topology` | topology.dfy |
| `Driver` | driver.dfy |

Where the two decomposition files hold the same function, the row cites both
files. This applies to `get_affinity_slices`, `create_write_region`,
`create_read_region`, `create_blocks_list`, `rebuild_blocks`,
`get_gpu_ranks` and `get_slices_shape`. The swept functions file holds
`get_slices_shape` too, with the same code.

## Model

| member | source | states |
|---|---|---|
| PyCore.RoundHalfEven | src/sweep/pysweep_decomposition.py:34-38 | `round(r)` is within one half of `r`, and a tie goes to the even integer |
| PyCore.Trunc | src/sweep/pysweep_decomposition.py:40 | `int(r)` is the integer next to `r` toward zero |
| PyCore.Ceil | src/sweep/pysweep_functions.py:150 | `ceil(r)` is the least integer not below `r` |
| PyCore.PySlice | src/sweep/pysweep_decomposition.py:194 | a slice with in-range bounds is the Dafny subsequence; no slice is longer than its sequence |
| PyCore.PyIndex | src/sweep/sweep.py:160 | a negative index counts from the end; every accepted index lands inside the sequence |
| PyCore.Slice.Shift | src/sweep/pysweep_decomposition.py:164 | a moved slice keeps its width and holds exactly the moved positions |
| PyCore.TruncOfQuotient | src/sweep/pysweep_decomposition.py:299-300 | `int(a/b)` of naturals is the floor quotient |
| PyCore.CeilOfQuotient | src/sweep/pysweep_functions.py:150 | `ceil(a/b)` of naturals is never negative, and is zero exactly when `a` is |
| Affinity.RoundFraction | src/sweep/pysweep_decomposition.py:36-38 | the column remainder rounds to 1 exactly when it is over half a column |
| Affinity.ColumnRound | src/sweep/pysweep_decomposition.py:36-40 | the rounded share lies within half a column of the block share |
| Affinity.ShareToColumns | src/sweep/pysweep_decomposition.py:33-40 | for an affinity in [0, 1] the GPU gets between none and all of the columns |
| Affinity.BlockShare | src/sweep/pysweep_decomposition.py:33-34 | an affinity in [0, 1] asks for between none and all of the blocks |
| Affinity.GpuColumns | src/sweep/pysweep_decomposition.py:31-40 | the GPU columns are the rounded block share completed or cut back to whole columns, between 0 and the column count |
| Affinity.GetAffinitySlices | src/sweep/pysweep_decomposition.py:23-44 | an error exactly when a block extent or `ny` is zero; otherwise the GPU takes the first whole block columns along x, the CPU takes the rest of x and all of y, and the split point lies in [0, nx]; `src/decomp/decomp_functions.py:64-85` holds the same code |
| Affinity.AffinitySplit | src/sweep/pysweep_functions.py:90-112 | the older split as written: columns counted with the y and x block counts exchanged; an error exactly when a block extent or `nx` is zero |
| Affinity.AffinitySplitOverrun | src/sweep/pysweep_functions.py:98-111 | shape (1, 8, 32), 4x4 blocks and affinity 1 give the GPU x range [0, 32) and the CPU [32, 8) |
| Affinity.AffinitySplitCorrected | src/sweep/pysweep_functions.py:98-111 | with the axes counted correctly, the GPU x range stays within [0, nx] and the CPU slice starts where the GPU's ends |
| Affinity.RoundUpToMultiple | src/sweep/former_sweep.py:34-36 | the GPU share is rounded up to the next multiple of the row length, by less than one row |
| Affinity.RoundUpWithin | src/sweep/former_sweep.py:34-36 | rounding a share within the domain up to whole rows stays within the domain |
| Affinity.RatioShare | src/sweep/former_sweep.py:33 | for a positive GPU:CPU ratio the GPU share is between none and all of the blocks |
| Affinity.GpuCpuSplit | src/sweep/former_sweep.py:31-37 | the GPU share is the ratio share rounded up to whole y rows by less than one row, the two shares add up to the total, and neither is negative for a positive ratio |
| Affinity.ArchWorkBlocks | src/sweep/former_sweep.py:28-38 | a division error exactly on a zero block extent, an affinity of 0 or -1, or no blocks along y; otherwise the GPU blocks are whole y rows, GPU and CPU blocks add up to the total, and neither is negative for a positive ratio |
| WriteRegions.RoundedShareError | src/sweep/pysweep_decomposition.py:55-60 | `round(y/n)` rows per rank miss the row count by at most half the rank count, so the gap `rem` lies in [-n, n] |
| WriteRegions.SpreadTiles | src/sweep/pysweep_decomposition.py:59-73 | after the spread the rank intervals lie end to end from 0 to the row count, and each is within one of `round(y/n)` |
| WriteRegions.SpreadSurplus | src/sweep/pysweep_decomposition.py:61-68 | the surplus loops leave every rank at its spread interval, given the gathered intervals |
| WriteRegions.SpreadDeficit | src/sweep/pysweep_decomposition.py:69-73 | the deficit loop, over negative indices, leaves every rank at its spread interval |
| WriteRegions.RankBlocks | src/sweep/pysweep_decomposition.py:55-74 | an error exactly when there are no ranks; otherwise one interval per rank, and the intervals tile [0, yBlocks) |
| WriteRegions.RankBlocksBalanced | src/sweep/pysweep_decomposition.py:55-74 | every rank's count is within one of `round(yBlocks/n)` and is never negative |
| WriteRegions.CreateWriteRegion | src/sweep/pysweep_decomposition.py:75-77 | the region covers all time slices and the architecture's variables; its x slice is the architecture's x slice and its y slice the rank's block rows, both offset by `ops`; `src/decomp/decomp_functions.py:87-111` holds the same code |
| WriteRegions.WriteRegionsTile | src/sweep/pysweep_decomposition.py:53-77 | the ranks' y slices tile [ops, ops + bs1*yBlocks) |
| WriteRegions.CreateReadRegion | src/sweep/pysweep_decomposition.py:79-89 | the read region is the write region widened by `ops` on each side of x and y; `src/decomp/decomp_functions.py:113-123` holds the same code |
| WriteRegions.ReadRegionIsHalo | src/sweep/pysweep_decomposition.py:86-88 | on each of x and y, a position is in the read region exactly when it is within `ops` of the (non-empty) write region |
| WriteRegions.SlicesShape | src/sweep/pysweep_decomposition.py:91-96 | one extent per slice, each being stop minus start; `src/sweep/pysweep_functions.py:83-88` and `src/decomp/decomp_functions.py:57-62` hold the same code |
| WriteRegions.GetSlicesShape | src/sweep/pysweep_decomposition.py:93-95 | the loop appending `stop - start` per slice yields `SlicesShape` of the slices; the same loop is at `src/sweep/pysweep_functions.py:85-87` and `src/decomp/decomp_functions.py:59-61` |
| WriteRegions.ReadRegionShape | src/sweep/pysweep_functions.py:83-88 | the read region's shape is the write region's plus `2*ops` on x and y |
| WriteRegions.OutputRegion | src/sweep/sweep.py:246 | the output region has the write region's variables and widths, moved back by `ops` |
| WriteRegions.OutputRegionOfWriteRegion | src/sweep/sweep.py:246 | the output region of a write region is the architecture's x slice and the rank's rows scaled to cells: the halo offset is undone |
| WriteRegions.IncludeRanks | src/sweep/sweep.py:175-184 | the kept ranks are exactly those with non-empty x and y slices, in gather order |
| ShiftRegions.WrapSplit | src/sweep/pysweep_decomposition.py:166-180 | the moved slice is one piece, or two pieces when it passes the end; the widths add up, and every moved position is in a piece, wrapped periodically, and nothing else is |
| ShiftRegions.CreateShiftRegions | src/sweep/pysweep_decomposition.py:244-270 | one or two regions with the same time and variable slices; each of the four overflow cases gives the pieces the source builds |
| ShiftRegions.ShiftRegionsWidths | src/sweep/pysweep_decomposition.py:259-267 | on an x overflow the pieces keep the x width; on a y overflow the y widths add up only when SPLITX == SPLITY |
| ShiftRegions.ShiftRegionsLoseCorner | src/sweep/pysweep_decomposition.py:255-258 | when both axes overflow, a shifted cell in the off-diagonal corner is in neither region |
| ShiftRegions.CreateBridgeRegions | src/sweep/pysweep_decomposition.py:161-182 | the x bridges are the region moved by SPLITX along x and wrapped; the y bridges are the region moved along y, also by SPLITX |
| ShiftRegions.BridgeRegionsWrapX | src/sweep/pysweep_decomposition.py:163-171 | every cell of the region, moved by SPLITX and taken modulo the extent, is in an x bridge |
| ShiftRegions.BridgeRegionsWrapY | src/sweep/pysweep_decomposition.py:173-180 | every cell of the region, moved along y by SPLITX (not SPLITY) and taken modulo the extent, is in a y bridge |
| ShiftRegions.SplitRows | src/sweep/pysweep_functions.py:140-143 | chunk `m` is rows [m*per, (m+1)*per), and there are `total / per` chunks |
| ShiftRegions.SplitRowsContiguous | src/sweep/pysweep_functions.py:140-143 | the chunks lie end to end from 0 and end within `total` |
| ShiftRegions.SplitRowsDropsRemainder | src/sweep/pysweep_functions.py:150-163 | 5 rows at 3 rows per rank give the single chunk [0, 3), so row 3 goes to no rank |
| ShiftRegions.SplitRowsCovering | src/sweep/pysweep_functions.py:150-163 | with the final partial chunk kept, the chunks tile [0, total) |
| ShiftRegions.SplitRowsCoveringFits | src/sweep/pysweep_functions.py:150 | with `ceil(total/ranks)` rows per chunk, the covering chunks need no more than `ranks` ranks |
| ShiftRegions.ChunkRegions | src/sweep/pysweep_functions.py:137-143 | region1 holds the unshifted region of each chunk and region2 its shifted copy, in chunk order |
| ShiftRegions.RegionSplitGpu | src/sweep/pysweep_functions.py:127-145 | a zero block extent or GPU count is a division error; otherwise the lists are the chunk regions with `floor(blocks/gpus)` rows per chunk |
| ShiftRegions.RegionSplitCpu | src/sweep/pysweep_functions.py:146-175 | a zero block extent or CPU count is a division error; otherwise chunks of `ceil(blocks/cpus)` rows, empty entries when the variable slice is empty, padded with empty entries up to the CPU count |
| ShiftRegions.EmptyEntries | src/sweep/pysweep_functions.py:169-172 | `k` empty entries in each list |
| ShiftRegions.ChunkRegionsShifted | src/sweep/pysweep_functions.py:141-142 | each shifted region is its partner moved by SPLITX along x and SPLITY along y |
| ShiftRegions.ChunkRegionsContiguous | src/sweep/pysweep_functions.py:140-143 | the unshifted regions' y slices tile [0, (total/per)*per*bs1) |
| IndexSets.RowMajorMembers | src/sweep/pysweep_decomposition.py:191 | the row-major listing of a rectangle holds exactly the cells inside its bounds |
| IndexSets.FilterRows | src/sweep/pysweep_decomposition.py:195 | filtering the y values of a rectangle gives the rectangle with the narrowed y range |
| IndexSets.LayerStep | src/sweep/pysweep_decomposition.py:193-199 | one loop round turns layer `i` into layer `i + 1` |
| IndexSets.LayerNonEmpty | src/sweep/pysweep_decomposition.py:196 | layer `j` is non-empty exactly when `2*j*ops` is below the smaller side |
| IndexSets.LayerCount | src/sweep/pysweep_decomposition.py:190-197 | layer `j` is non-empty exactly when `j <= (min - 1)/(2*ops)` |
| IndexSets.CreateIidxSets | src/sweep/pysweep_decomposition.py:184-200 | `ops == 0` is a division error; otherwise the result is the non-empty pyramid layers 1, 2, … in row-major order, `(min(bsx, bsy) - 1)/(2*ops)` of them |
| IndexSets.PeelLayers | src/sweep/pysweep_decomposition.py:193-199 | the loop yields layers 1 to `min(rounds, count)` |
| IndexSets.PeelRound | src/sweep/pysweep_decomposition.py:194-199 | from the state after `i` rounds (layer `i` current, the bounds of layer `i + 1`, the non-empty layers `1 .. i` kept) one round reaches the state after `i + 1` rounds |
| IndexSets.LayersNested | src/sweep/pysweep_decomposition.py:193-199 | every cell of layer `j + 1` is in layer `j`, and layer `j`'s outer ring is not in layer `j + 1` |
| IndexSets.LayerCountBound | src/sweep/pysweep_decomposition.py:190 | there are at most `floor(min/(2*ops))` layers |
| IndexSets.PeelSquare | src/sweep/pysweep_functions.py:30-39 | one round of the while loop shrinks both extents by `2*ops`, adds the new listing to the sets exactly when it is non-empty, and turns square layer `k` into square layer `k + 1` |
| IndexSets.RowInteriors | src/sweep/pysweep_functions.py:34-35 | the inner loop collects rows `1 .. n` of the listing, each without `ops` cells at either end, and nothing when `n <= 0` |
| IndexSets.InteriorsOfRect | src/sweep/pysweep_functions.py:34-35 | on a rectangle listed row-major with rows `w` wide, those row interiors are its first `n` rows with `ops` columns cut from each side |
| IndexSets.CreateIidxSetsSquare | src/sweep/pysweep_functions.py:22-40 | for a square block: the whole block, then every non-empty square layer, `(b - 1)/(2*ops) + 1` sets |
| IndexSets.SquareLayerCells | src/sweep/pysweep_functions.py:22-40 | square layer `k` holds exactly the cells with both coordinates in [k*ops, b - k*ops) |
| IndexSets.StripMembers | src/sweep/pysweep_decomposition.py:212-217 | a strip with in-range bounds holds exactly the cells between them |
| IndexSets.Reverse | src/sweep/pysweep_decomposition.py:226 | `s[::-1]` has the same length, and element `i` is element `|s| - 1 - i` |
| IndexSets.BlockRows | src/sweep/pysweep_decomposition.py:211-212 | `riidx[x]` is row `x` of the block: the cells `(x, 0) … (x, bsy - 1)` |
| IndexSets.StripCells | src/sweep/pysweep_decomposition.py:215-218 | one round's `temp` is the strip between the clamped bounds |
| IndexSets.Strips | src/sweep/pysweep_decomposition.py:214-222 | the rounds give `n` strips whose row bounds move in, and column bounds move out, by `step` each round |
| IndexSets.CreateBridgeSets | src/sweep/pysweep_decomposition.py:202-242 | `ops == 0` is a division error; otherwise the `MPSS - 1` x-bridges, and as y-bridges their reversal for a square block or the exchanged strips otherwise |
| IndexSets.CreateBridgeSetsTransposed | src/sweep/pysweep_decomposition.py:228-241 | the y-bridges always come from the exchanged bounds |
| IndexSets.XStripCells | src/sweep/pysweep_decomposition.py:206-222 | x-bridge `i` holds exactly the cells in its row and column ranges |
| IndexSets.BridgesTransposed | src/sweep/pysweep_decomposition.py:224-241 | on a square block, with the corrected sets, each y-bridge is its x-bridge transposed |
| IndexSets.ReversedBridgeNotTransposed | src/sweep/pysweep_decomposition.py:225-226 | block 8, `ops` 1 and MPSS 3: the first y-bridge as written holds (6, 2), whose transpose is not in the first x-bridge |
| IndexSets.DecompCellsInterior | src/decomp/decomp_functions.py:239-241 | for `ops > 0` the cells are the block without its halo, row-major; for `ops == 0` there are none |
| IndexSets.DecompInterior | src/decomp/decomp_functions.py:239-241 | a cell is handed to `step` exactly when both of its coordinates lie past the halo |
| Arena.Copy | src/sweep/pysweep_decomposition.py:48 | a one-axis slab copy puts the source items at the destination and keeps the rest |
| Arena.CopyRowsAgree | src/sweep/pysweep_decomposition.py:48 | after a copy between disjoint row ranges, the two ranges hold the same values |
| Arena.BoundaryRows | src/sweep/pysweep_decomposition.py:48-51 | after the update both x-ghost slabs hold their periodic images |
| Arena.BoundaryCols | src/sweep/pysweep_decomposition.py:48-51 | after the update both y-ghost slabs hold their periodic images |
| Arena.BoundaryGhosts | src/sweep/pysweep_decomposition.py:46-51 | with extents of at least `3*ops`, the update leaves the periodic ghost relation on both axes |
| Arena.BoundaryInterior | src/sweep/pysweep_decomposition.py:46-51 | the update writes only ghost cells: the interior keeps its values |
| Arena.BoundaryIdempotent | src/sweep/pysweep_decomposition.py:46-51 | updating twice gives the same slab as updating once |
| Arena.BoundaryUpdate | src/sweep/pysweep_decomposition.py:46-51 | time slice 0 becomes its updated slab and no other slice changes |
| Arena.EdgeSwept | src/sweep/pysweep_functions.py:53-60 | the edge copy keeps the slab's shape |
| Arena.EdgeSweptMirror | src/sweep/pysweep_functions.py:53-60 | after the copy the last SPLITX x-planes equal the first and the last SPLITY y-planes equal the first; the source side keeps its values |
| Arena.EdgeCommSwept | src/sweep/pysweep_functions.py:53-60 | every time slice receives the edge copy |
| Arena.EdgeDecomp | src/decomp/decomp_functions.py:29-32 | the four ghost copies keep the slab's shape |
| Arena.EdgeDecompGhosts | src/decomp/decomp_functions.py:29-32 | both ghost slabs on each axis equal the interior slab [ops, 2*ops): a copy from the low side, not a periodic wrap |
| Arena.EdgeDecompInterior | src/decomp/decomp_functions.py:29-32 | the copy writes only ghost cells |
| Arena.EdgeCommDecomp | src/decomp/decomp_functions.py:24-32 | slice 0 first takes slice 1, then every slice gets its ghost copies |
| Arena.Paste | src/sweep/pysweep_decomposition.py:277-278 | inside the window each cell takes the source cell at the offset, and outside it the slab is unchanged |
| Arena.WriteAndShift | src/sweep/pysweep_functions.py:14-19 | the first MPSS time slices take the last MPSS inside the region's window; everything else is unchanged |
| Arena.WriteAndShiftDecomp | src/sweep/pysweep_decomposition.py:272-278 | the output rows are [MPSS*(GST-1), MPSS*GST) and the output window is the region moved back by `ops`; the first MPSS+1 slices take the last MPSS+1 in the window |
| Arena.PlaceInitial | src/sweep/sweep.py:160 | slice `TSO - 1` (a Python index) receives the initial condition offset by `ops`; every other slice is unchanged |
| Arena.InitialPlaced | src/sweep/sweep.py:160 | the placed slice holds `arr0` at offset `ops` and keeps its cells outside that window |
| Blocks.CreateBlocksList | src/sweep/pysweep_decomposition.py:297-307 | a zero block extent is a division error; otherwise the blocks listed by the nested loops; `src/decomp/decomp_functions.py:184-194` holds the same code |
| Blocks.RangeCountMembers | src/sweep/pysweep_decomposition.py:303-304 | the `k`-th value of the loop range is produced exactly when it is below the stop |
| Blocks.BlocksListIndex | src/sweep/pysweep_decomposition.py:303-306 | the block at position `a*cy + c` starts at (a*b0, c*b1), spans `b + 2*ops` cells each way, and covers every time slice and variable |
| Blocks.RangeCountDivisible | src/sweep/pysweep_decomposition.py:303 | a domain of `n` whole blocks plus the halo yields exactly `n` loop values |
| Blocks.BlocksListDivisible | src/sweep/pysweep_decomposition.py:297-307 | in such a domain the list is the `n` by `m` grid |
| Blocks.BlockInteriorsPartition | src/sweep/pysweep_decomposition.py:297-307 | the trimmed interiors of the blocks partition the domain's interior: each interior cell is in exactly one |
| Blocks.BlocksInside | src/sweep/pysweep_decomposition.py:297-307 | every block lies inside the array's x and y extents |
| Blocks.RebuildBlocksInPlace | src/sweep/pysweep_decomposition.py:310-321 | more than one block: every slice becomes the write-back of all block interiors; one block: that block is returned and the array is left alone; none: an index error; `src/decomp/decomp_functions.py:196-206` holds the same code |
| Blocks.PasteInterior | src/sweep/pysweep_decomposition.py:315-317 | inside the trimmed region each cell takes the block's interior cell at the offset, and outside it the slice is unchanged |
| Blocks.WriteBack | src/sweep/pysweep_decomposition.py:315-317 | one iteration stores the block's trimmed interior at the trimmed region on every time slice |
| Blocks.RebuiltOutside | src/sweep/pysweep_decomposition.py:314-317 | a cell in none of the trimmed regions keeps its value |
| Blocks.RebuiltInside | src/sweep/pysweep_decomposition.py:314-317 | a cell in region `c`, and in no later one, holds block `c`'s value at the same relative place |
| Blocks.CreateBlocks | src/sweep/pysweep_functions.py:240-244 | ValueError exactly when a section count is zero; otherwise `bsx*bsy` blocks, which `CreateRebuildRoundTrip` rebuilds into the array |
| Blocks.Pieces | src/sweep/pysweep_functions.py:242 | `array_split` gives `n` sections |
| Blocks.PieceSizes | src/sweep/pysweep_functions.py:242 | the first `len % n` sections are one longer than `len / n` and the rest are `len / n` |
| Blocks.ConcatPieces | src/sweep/pysweep_functions.py:242-252 | concatenating the sections gives the sequence back |
| Blocks.RebuildBlocksSplit | src/sweep/pysweep_functions.py:246-259 | runs of `bsy` blocks are joined along y and the runs along x; one block is returned as it is; fewer blocks than one run, or `bsy == 0`, is an error |
| Blocks.CreateRebuildRoundTrip | src/sweep/pysweep_functions.py:240-259 | rebuilding the blocks created with positive section counts gives the array back |
| DecompCpu.Window | src/decomp/decomp_functions.py:224-227 | the copy-out `arr[lr]` has one slab per time slice, each holding the window's cells |
| DecompCpu.DecompBlocksFit | src/decomp/decomp_functions.py:228-230 | with a shape-keeping stencil, every block still fits its region |
| DecompCpu.DecompositionCpu | src/decomp/decomp_functions.py:222-230 | the array becomes the blocks' interiors written back after `CPU_Decomp`; the result is the array, or the one block |
| DecompCpu.InnerIsSlice | src/decomp/decomp_functions.py:232 | `Inner` is the length numpy gives `[ops:-ops]` |
| DecompCpu.SharedWrite | src/decomp/decomp_functions.py:232 | the region's time slices take `arr` without its halo in the window; the other slices are unchanged |
| DecompCpu.SharedReceivesInterior | src/decomp/decomp_functions.py:232 | the window is filled from exactly [ops, n - ops) of each axis of `arr`, cell for cell; cells outside the window keep their values |
| Phases.ApplyAppend | src/sweep/pysweep_functions.py:322-359 | applying two call lists in turn is applying their concatenation |
| Phases.CpuUpPyramid | src/sweep/pysweep_functions.py:322-331 | the block after `step` has been applied to `idx_sets[1:]` in order, with `ts` counting from 0 |
| Phases.CpuDownPyramid | src/sweep/pysweep_functions.py:350-359 | the block after `step` has been applied to `idx_sets[::-1][:-1]`, with `ts` counting from 0 |
| Phases.CpuOctahedron | src/sweep/pysweep_functions.py:333-348 | the down pyramid's calls, then `idx_sets[2:]`, with one `ts` counter across both loops |
| Phases.CallCounts | src/sweep/pysweep_functions.py:322-359 | up and down make `len - 1` calls each and the octahedron `2*len - 3`; in each phase `ts` runs 0, 1, 2, … |
| Phases.DownReversesUp | src/sweep/pysweep_functions.py:322-331 | the down pyramid visits the up pyramid's sets in reverse order |
| Phases.OctahedronDownThenUp | src/sweep/pysweep_functions.py:333-348 | the octahedron is the down pyramid followed by the up pyramid without its first call |
| Phases.CpuDecomp | src/decomp/decomp_functions.py:235-244 | one call of `step`, with `ts = 0`, on the block without its halo in row-major order |
| Kernels.GlobalIdxRange | src/sweep/sweep.h:30-35 | every thread of the launch gets a number in [0, threads) |
| Kernels.GlobalIdxInjective | src/sweep/sweep.h:30-35 | distinct threads get distinct numbers |
| Kernels.GlobalIdxBijection | src/sweep/sweep.h:30-35 | the numbering is a bijection from the launch's threads onto [0, threads) |
| Kernels.SgidInjective | src/sweep/sweep.h:38-41 | inside the padded tile, shared indices are distinct and lie within the tile |
| Kernels.GidCell | src/sweep/sweep.h:46-51 | `get_gid` is the row-major index of the thread's cell, which lies past the halo and before the far halo |
| Kernels.GidInjective | src/sweep/sweep.h:46-51 | distinct threads update distinct cells |
| Kernels.ShrinkingLoop | src/sweep/sweep.h:178-201 | the thread writes the slots `UpSlots` lists: slot `k + 1` for each iteration in which it is inside the shrinking window |
| Kernels.GrowingLoop | src/sweep/sweep.h:237-261 | the thread writes the slots `DownSlots` lists for the growing window |
| Kernels.UpPyramidKernel | src/sweep/sweep.h:149-201 | the up pyramid's slots are the shrinking loop's over `k = 0 .. MPSS-1` |
| Kernels.OctahedronKernel | src/sweep/sweep.h:206-300 | the growing loop writes slots 1..MPSS, then the shrinking half writes the slots after them |
| Kernels.DownPyramidKernel | src/sweep/sweep.h:303-358 | the down pyramid's slots are the growing loop's |
| Kernels.UpActiveEarlier | src/sweep/sweep.h:181-200 | a thread active in the shrinking window was active at every earlier iteration |
| Kernels.DownActiveLater | src/sweep/sweep.h:224-261 | a thread active in the growing window stays active at every later iteration |
| Kernels.UpSlotsConsecutive | src/sweep/sweep.h:178-201 | a thread writes consecutive slots from `base + 1`, for exactly as long as it is inside the window |
| Kernels.DownSlotsConsecutive | src/sweep/sweep.h:237-261 | a thread writes consecutive slots ending at `base + n` |
| Kernels.UpFirstWindowIsBlock | src/sweep/sweep.h:164-167 | every thread is inside the first shrinking window |
| Kernels.DownCentredMirrorsUp | src/sweep/sweep.h:224-227 | the centred growing window at iteration `j` is the shrinking window at iteration `MPSS - j` |
| Kernels.DownWindowCentredForSmallOps | src/sweep/sweep.h:224-227 | with OPS 1 or 2 and an even block, the kernels' growing window is the centred one |
| Kernels.DownWindowOffCentre | src/sweep/sweep.h:224-227 | OPS 3 and a block of 12 give the window [5, 10] where the mirror is [6, 11] |
| Topology.Expected | src/sweep/pysweep_functions.py:186-196 | with a positive affinity, the `c`-th rank on a host gets device `c` of the host's list while there is one; other entries are kept |
| Topology.GetGpuRanks | src/sweep/pysweep_functions.py:177-197 | one entry per input, each being its `Expected` entry; the total is the sum of each host's list length; `src/decomp/decomp_functions.py:125-145` holds the same code |
| Topology.Visit | src/sweep/pysweep_functions.py:187-196 | one loop body appends the expected entry and keeps the per-host counters and device lists |
| Topology.FirstGpusSeen | src/sweep/pysweep_functions.py:188 | a host has a registered list exactly when some earlier entry is on it |
| Topology.GivenPerHost | src/sweep/pysweep_functions.py:188-195 | each host gives a GPU to `min(#ranks, #gpus)` ranks for a positive affinity, and to none otherwise |
| Topology.NodeRanks | pysweep/sweep/dse.py:75 | the node's ranks are the ranks on the caller's host, in order |
| Topology.NodeRanksComplete | pysweep/sweep/dse.py:75 | every rank on the host is listed |
| Topology.NodeMasterIsFirst | pysweep/sweep/dse.py:79 | the node master is the first rank on the caller's host |
| Topology.ClusterOnePerHost | pysweep/sweep/dse.py:82 | the cluster holds exactly one node master per distinct host |
| Driver.SweepConstants | src/sweep/sweep.py:138-156 | a division error exactly when MOSS (the down sets plus all up sets but the first) is zero; otherwise MPSS is the number of up sets and the shared shape has four axes. The step counts and the shape are characterised by the lemmas below |
| Driver.SweepGlobalSteps | src/sweep/sweep.py:152 | MGST is TSO times the least number of MOSS-step cycles that covers the step count |
| Driver.SweepStepsCover | src/sweep/sweep.py:152-153 | the reset step count exceeds the requested one |
| Driver.SharedShapeHoldsDomain | src/sweep/sweep.py:156-160 | the shared array holds the initial condition at [OPS, X+OPS) x [OPS, Y+OPS) with room for the halo and split after it |
| Driver.DseConstants | pysweep/sweep/dse.py:56-67 | fails exactly when OPS is 0, the block is not a multiple of `2*OPS` (an assertion error), the block is `2*OPS` wide (MOSS is 0) or TSO is 0; otherwise MOSS = 2*MPSS and is not zero |
| Driver.DseBlockShape | pysweep/sweep/dse.py:56-64 | an accepted block is `2*OPS*(MPSS+1)` wide, with MOSS = 2*MPSS |
| Driver.DseBlockMirrorsKernelWindows | pysweep/sweep/dse.py:56-64 | for an accepted block, the centred growing window mirrors the shrinking window |
| Driver.DseGlobalSteps | pysweep/sweep/dse.py:66 | MGST + 1 cycles fit in `TSO*time_steps` and MGST + 2 do not |
| Driver.DseStepsWithin | pysweep/sweep/dse.py:66-67 | with TSO of 1 or 2 the reset step count never exceeds the requested one |
| Driver.DseSharedShape | pysweep/sweep/dse.py:120 | four axes: the time axis holds slot `TSO-1`, then the variables, and the full y extent |
| Driver.DseSharedHoldsNode | pysweep/sweep/dse.py:120-126 | the node's slab `[lo*BS, hi*BS)` of the initial condition fits the shared array exactly on the variable, x and y axes when the node has `hi - lo` blocks, and `MOSS + 2` slots follow slot `TSO-1` |
| Driver.ConfigCheck | pysweep/sweep/dse.py:104-106 | passes exactly when the three assertions hold, otherwise an assertion error |
| Driver.NodeGpuCheck | pysweep/sweep/dse.py:118 | a GPU-only run passes exactly when there are at least as many GPUs as node ranks |
| Driver.HeterogeneousRunHasBoth | pysweep/sweep/dse.py:104-106 | a heterogeneous run that passes the checks has at least one GPU rank and at least one CPU rank |
| Driver.SweepSchedule | src/sweep/sweep.py:247-328 | the phases are recorded in the order the driver calls them |
| Driver.SweepScheduleCounts | src/sweep/sweep.py:247-328 | one time-0 write, `2*(MGST-1) + 1` swept writes, MGST bridges and MGST - 1 reverse bridges |
| Driver.SweepScheduleGrids | src/sweep/sweep.py:257-322 | pyramids and octahedra alternate between the unshifted and the shifted grid, starting unshifted and ending shifted |
| Driver.DseSchedule | pysweep/sweep/dse.py:152-170 | the phases are recorded in the order the driver calls them |
| Driver.DseScheduleShape | pysweep/sweep/dse.py:152-170 | one first prism, `2*MGST + 1` up-prisms and writes, and MGST + 1 sends each way |

## Left out

- MPI (gather, scatter, broadcast, barriers, communicators), HDF5 output, CUDA
  launches and the shared-memory window are left out. Each rank's part is
  modelled on values the caller passes in. The driver schedules record phase
  calls as events and do not model what a phase does.
- The modules that build the swept index sets for the driver (`create_up_sets`,
  `create_down_sets`), `hdf_swept_write`, the `dcore`, `decomp` and `functions`
  modules of the exploration driver, and `node_info` are not part of this model.
  `Driver.SweepConstants` takes the numbers of up and down sets as inputs, and
  `Driver.DseSharedShape` takes the node's block count.
- Floating point is modelled as exact reals. `int()` and `ceil` of a quotient
  are exact, so rounding error in `np.ceil(time_steps/MOSS)` is not modelled.
  The affinity functions require shapes that are multiples of the block size,
  so numpy's float divisions are exact.
- numpy's shape checks on slab assignment are modelled as preconditions. A
  mismatch raises an error in numpy.
- 32-bit integer overflow of the kernel indices is not modelled. Neither are
  the barriers, the shared-memory fills (`edge_comm`, `shared_state_zero`) or
  the stencil itself. The kernels are modelled per thread.
- Kernels.GrowingLoop: MPSS is a natural number; a negative MPSS runs no
  iterations in the source too.
- Blocks.CreateBlocksList: the list is characterised for `ops > 0`; with
  `b0 < ops` the blocks overhang the array, and only the loop's own listing is
  stated.
- Blocks.RebuildBlocksSplit: a negative `bsy` (a backwards range) is not
  modelled; the section counts are naturals.
- Blocks.RebuildBlocksSplit: `np.concatenate` raises ValueError when the parts
  disagree on the axes not being joined. `ConcatX` and `ConcatY` take those
  extents from the first part instead, so that error path is not modelled.
  Blocks from `create_blocks`, passed through a `step` that keeps their shape,
  always agree.
- DecompCpu.DecompositionCpu: `step` is required to keep the block's shape. A
  stencil that changes it makes numpy raise in `rebuild_blocks`. That path is
  not modelled.
- DecompCpu.Window: a region of `create_blocks_list` takes every time slice
  and variable. Other regions are not modelled.
- Topology.GetGpuRanks: distinct gathered entries are assumed not to share a
  GPU list object, so reversing one list does not affect another.
- Topology.ClusterOnePerHost: `list(set(...))` has no specified order, so the
  cluster is modelled as a set and `cluster_ranks[0]` is not modelled.
- IndexSets.CreateIidxSetsSquare: the loop is modelled for every block, but
  its contract describes the layers only for square blocks. For other blocks
  the loop uses the x extent as the row width.
- Affinity.GetAffinitySlices: the affinity is any real. The bound on the split
  point is stated for affinities in [0, 1].
- The exploration driver's current write time `cwt` is never updated in the
  source. The schedule records the writes without their times.
- Driver.DseStepsWithin: the reset step count of `dse` may fall short of the
  requested count. This is stated as a property, not a defect.

## Findings

| source | as written | input that shows it | evidently intended | confidence | as-written member | corrected member |
|---|---|---|---|---|---|---|
| src/sweep/pysweep_functions.py:150-163 | CPU chunks come from `range(per, total+1, per)`, which drops the final partial chunk | 5 block rows with 3 rows per CPU: the only chunk is [0, 3), so rows 3 and 4 go to no rank | every row goes to some CPU, as the comment on line 150 says | not executed | ShiftRegions.SplitRowsDropsRemainder | ShiftRegions.SplitRowsCoveringFits |
| src/sweep/pysweep_decomposition.py:225-226 | for a square block the y-bridges are the x-bridges in reverse order | block 8, `ops` 1, MPSS 3: the first y-bridge holds (6, 2), but (2, 6) is not in the first x-bridge | each y-bridge is its x-bridge transposed, as the non-square branch builds it | not executed | IndexSets.ReversedBridgeNotTransposed | IndexSets.BridgesTransposed |
| src/sweep/pysweep_functions.py:98-111 | the column count uses `arr_shape[2]/block_size[1]` blocks per column, but the columns are then laid along x | shape (1, 8, 32), 4x4 blocks, affinity 1: GPU x range [0, 32), CPU [32, 8) | columns of `nx/bs0` along x, as `get_affinity_slices` counts them | not executed | Affinity.AffinitySplitOverrun | Affinity.AffinitySplitCorrected |
| src/sweep/sweep.h:224-227 | the growing window starts at `(blockDim+OPS)/2 + 1 - OPS`, which is centred only for OPS of 1 or 2 | block 12, OPS 3: the first growing window is [5, 10], but it should mirror the shrinking window [6, 11] | the growing window retraces the shrinking window in reverse | not executed | Kernels.DownWindowOffCentre | Kernels.DownCentredMirrorsUp |
