# Distributed-array decomposition of the SC21 benchmarks, and the LAPACK type tables

This project models two parts of DaCe in Dafny.

The first part is the integer and index logic around the distributed
benchmark kernels of `samples/distributed/explicit/sc21_bench.py`:

- the process-grid table and the rank ↔ coordinate map;
- the local-to-global index map `l2g` and the block sizes;
- the gemm swap that makes `Px >= Py`;
- the neighbour and boundary-offset set-up of `jacobi_1d`, `jacobi_2d` and `heat_3d`;
- the tagged halo exchange rounds and the offset-shifted stencil sweeps;
- the validation gathers that collect the distributed result on rank 0;
- the distributed initialisers.

The second part is the two type tables of `dace/libraries/lapack/lapack_helpers.py`.

Only the data effect of MPI is modelled. The ranks' buffers form one
sequence, indexed by rank. A halo exchange round is one method that
completes, rank by rank, every receive the ranks posted. Each receive is
served by the matching send of its source, found by MPI's matching rule
(first send with that destination and tag). Simulating the round in this
order is faithful because every send reads interior cells and every
receive writes ghost cells. The tag pairing is proved; it is what makes
each receive find the send the code intends.

Cell values are a type parameter. The stencil arithmetic (`0.33333 * (…)`,
`0.2 * (…)`) is a parameter `f` of the cells it reads. The `np.fromfunction`
formulas are a parameter `f` of the global indices. The main results are:

- `Halo1D.Jacobi1D`: `jacobi_1d_distr` on all ranks, gathered by
  `comm.Gather`, equals `jacobi_1d_shmem` on the gathered input.
- `Jacobi2D.Jacobi2D`: `jacobi_2d_distr` on all processes, reassembled by
  `Gather` / `transpose(0, 2, 1, 3)` / `reshape`, equals `jacobi_2d_shmem`
  on the reassembled input.

Both hold after any number of time steps, with any `f`.

heat_3d has an undistributed third axis. It is modelled as the two-dimensional
exchange whose cells are whole k-lines (`seq<V>` of length N). Its 5-D gather
is the 4-D gather with k-line cells.

Python slice stops written `-eoff` are read as `len - eoff`. This is how
DaCe resolves them for the symbolic offsets. With `eoff == 0`, NumPy would
read `A[2+woff:-0]` as the empty slice `A[2+woff:0]`; that reading is not
modelled.

Files:

- `seqs.dfy` (Option, concatenation of equal pieces)
- `process_grid.dfy`
- `topology.dfy`
- `spans.dfy`
- `messages.dfy` (posting records and MPI matching)
- `halo1d.dfy`
- `halo2d.dfy`
- `jacobi2d.dfy`
- `gather.dfy`
- `init.dfy`
- `lapack_helpers.dfy`

## Model

| member | source | states |
|---|---|---|
| LapackHelpers.ToLapackType | dace/libraries/lapack/lapack_helpers.py:7-23 | Succeeds exactly for the five floating-point types. Otherwise it is TypeError for that type. The letter is the LAPACK prefix of the type's precision. |
| LapackHelpers.LetterTable | dace/libraries/lapack/lapack_helpers.py:11-20 | float16→H, float32→S, float64→D, complex64→C, complex128→Z. |
| LapackHelpers.NonFloatRejected | dace/libraries/lapack/lapack_helpers.py:21-23 | bool and every integer type raise TypeError in both tables. The message is "Type <name> not supported in LAPACK operations". |
| LapackHelpers.LettersInjective | dace/libraries/lapack/lapack_helpers.py:11-20 | Two supported types with the same letter are the same type. |
| LapackHelpers.CudaTypeMetadata | dace/libraries/lapack/lapack_helpers.py:26-44 | Succeeds exactly for the five floating-point types. Otherwise it is TypeError for that type. |
| LapackHelpers.TablesAgree | dace/libraries/lapack/lapack_helpers.py:26-44 | Both tables reject the same types with the same error. The first component of the metadata is the `to_lapacktype` letter. |
| LapackHelpers.MetadataTable | dace/libraries/lapack/lapack_helpers.py:32-41 | The five (letter, CUDA C type, runtime name) triples. |
| LapackHelpers.MetadataDistinct | dace/libraries/lapack/lapack_helpers.py:32-41 | Distinct supported types differ in every component of their triples. |
| ProcessGrid.Grid | samples/distributed/explicit/sc21_bench.py:65-75 | Every entry (Px, Py) of the grid table has Px * Py equal to its key, and Py is Px or 2 * Px. |
| ProcessGrid.GridDomain | samples/distributed/explicit/sc21_bench.py:65-75 | A process count has an entry exactly when it is a power of two up to 256. Any other count is the KeyError case. |
| ProcessGrid.CoordInGrid | samples/distributed/explicit/sc21_bench.py:116-118 | (rank // Py, rank % Py) of a rank below Px * Py lies in the grid. `pi * Py + pj` maps it back to the rank. |
| ProcessGrid.RankOfInGrid | samples/distributed/explicit/sc21_bench.py:116-118 | A grid coordinate's rank `pi * Py + pj` is below Px * Py. Its coordinate is the one it came from, so the map is a bijection. |
| ProcessGrid.L2GRoundTrip | samples/distributed/explicit/sc21_bench.py:62-63 | l2g(idx, p, b) lies in [0, P * b). It inverts to (g / b, g % b), which gives back (p, idx). |
| ProcessGrid.L2GInjective | samples/distributed/explicit/sc21_bench.py:62-63 | l2g is injective on local indices idx < b. |
| ProcessGrid.L2GOnto | samples/distributed/explicit/sc21_bench.py:62-63 | Every global index below P * b is l2g of (g % b, g / b). |
| ProcessGrid.Locate | samples/distributed/explicit/sc21_bench.py:62-63 | Every global index below P * b has a process p < P and a local index i < b with l2g(i, p, b) = g. |
| ProcessGrid.BlockSize | samples/distributed/explicit/sc21_bench.py:127-130 | `M // Px` is the largest block count that fits: lM * Px <= M < (lM + 1) * Px. The blocks cover M exactly iff Px divides M. |
| ProcessGrid.GemmGrid | samples/distributed/explicit/sc21_bench.py:494-495 | The swap keeps the product, yields Px >= Py, and is the identity or the exchange of the two factors. |
| Topology.Setup2D | samples/distributed/explicit/sc21_bench.py:1477-1496 | Fails, as the KeyError, exactly when the grid table has no entry. Otherwise it returns the grid, the coordinate, the four neighbours and the four offsets of the rank, built by the code's formulas and edge resets. |
| Topology.FormulaNeighbors | samples/distributed/explicit/sc21_bench.py:1480-1496 | The code's formulas `(pi-1)*Py + pj`, … give the rank of the grid-adjacent coordinate off an edge. On the edge that side is PROC_NULL. |
| Topology.NeighborValid | samples/distributed/explicit/sc21_bench.py:1480-1496 | A neighbour is PROC_NULL exactly on its grid edge (nn iff pi = 0, ns iff pi = Px - 1, nw iff pj = 0, ne iff pj = Py - 1). Otherwise it is a rank of the grid one step away in that direction. |
| Topology.OffsetsOnEdges | samples/distributed/explicit/sc21_bench.py:1480-1496 | noff, soff, woff, eoff are 1 exactly on the corresponding grid edge and 0 elsewhere. |
| Topology.NeighborSymmetric | samples/distributed/explicit/sc21_bench.py:1480-1496 | The opposite neighbour of a non-null neighbour is the rank itself (the south of my north is me). |
| Topology.SingleProcessTopology | samples/distributed/explicit/sc21_bench.py:1773-1776 | On the 1 x 1 grid all four neighbours are PROC_NULL and all four offsets are 1, the arguments of the single-process reference call. |
| Topology.Setup1D | samples/distributed/explicit/sc21_bench.py:1327-1335 | nw = rank - 1 and ne = rank + 1, each reset to PROC_NULL with offset 1 on rank 0 and rank size - 1 respectively. |
| Topology.OneDimensionalIsOneRow | samples/distributed/explicit/sc21_bench.py:1327-1335 | The 1-D neighbours are the west and east neighbours of the 1 x size grid, whose north and south are PROC_NULL. |
| Spans.SpansInBounds | samples/distributed/explicit/sc21_bench.py:1297-1298 | The write range is `[1+woff, len-1-eoff)`. The three read ranges are that range shifted by -1, 0, +1, of equal length and inside the buffer. On an edge side no read range touches the ghost cell. |
| Messages.FindSend | samples/distributed/explicit/sc21_bench.py:1292-1296 | Returns the first posted send addressed to the receiver with the receive's tag (MPI's non-overtaking match). |
| Messages.DeliveredFirst | samples/distributed/explicit/sc21_bench.py:165-168 | A receive obtains a payload iff some send of its source matches. The payload is that of the first matching send. |
| Messages.BlockingRecv | samples/distributed/explicit/sc21_bench.py:165-168 | A blocking `comm.Recv` returns the payload of the matching send. |
| Halo1D.RecvMatched | samples/distributed/explicit/sc21_bench.py:1292-1295 | Each receive from a real neighbour is matched by exactly one of that neighbour's two sends, the one toward the opposite end (tags 2 and 3). |
| Halo1D.SendMatched | samples/distributed/explicit/sc21_bench.py:1292-1295 | Each send to a real neighbour is taken by exactly one receive posted there, with this rank as source and the same tag. |
| Halo1D.Receive | samples/distributed/explicit/sc21_bench.py:1294-1296 | A receive from a neighbour writes the cell that neighbour's matching send carries into A[0] or A[-1]. A receive from PROC_NULL leaves the buffer unchanged. |
| Halo1D.ExchangeRound | samples/distributed/explicit/sc21_bench.py:1292-1296 | Completing both receives at all ranks yields exactly the buffers of the cell law `Exchanged`. |
| Halo1D.ExchangeCells | samples/distributed/explicit/sc21_bench.py:1292-1296 | After a round A[0] is the west neighbour's A[lR] and A[lR+1] is the east neighbour's A[1]. A ghost facing PROC_NULL is unchanged, and the interior is unchanged. |
| Halo1D.InteriorKept | samples/distributed/explicit/sc21_bench.py:1292-1296 | A round changes no interior cell. |
| Halo1D.Sweep | samples/distributed/explicit/sc21_bench.py:1297-1298 | The slice assignment with offsets writes f of the three neighbouring A cells exactly at the indices of `[1+woff, len-1-eoff)`. Every other cell keeps B's value. |
| Halo1D.SweepIgnoresEdgeGhosts | samples/distributed/explicit/sc21_bench.py:1297-1298 | With woff = 1 (eoff = 1) the sweep's result does not depend on the west (east) ghost cell. |
| Halo1D.GatherInto | samples/distributed/explicit/sc21_bench.py:1371-1378 | `comm.Gather` of the `lR`-cell interiors into rank 0's `np.empty((NR,))` is defined exactly when size * lR == NR, and then holds the interiors in rank order. |
| Halo1D.GatherNeedsExactBlocks | samples/distributed/explicit/sc21_bench.py:1343-1378 | With lR = NR // size, the gather into NR cells is defined exactly when size divides NR. |
| Halo1D.GatheredAt | samples/distributed/explicit/sc21_bench.py:1371-1378 | `comm.Gather` of the interiors puts interior cell i + 1 of rank r at global index l2g(i, r, lR). |
| Halo1D.ExchangeKeepsGathered | samples/distributed/explicit/sc21_bench.py:1292-1296 | A round leaves the gathered array unchanged. |
| Halo1D.WrittenIffGlobal | samples/distributed/explicit/sc21_bench.py:1297-1298 | Local index i + 1 of rank r is in its shifted write range iff its global index is in the shared write range `[1, NR-1)`. |
| Halo1D.CellSweepIsSweep | samples/distributed/explicit/sc21_bench.py:1284-1285 | The shared sweep `B[1:-1] = f(A[:-2], A[1:-1], A[2:])` is the cellwise stencil inside with both end cells kept. |
| Halo1D.DistributedSweep | samples/distributed/explicit/sc21_bench.py:1292-1298 | Exchange then the offset-shifted local sweeps, gathered, equal the shared-memory sweep of the gathered arrays. |
| Halo1D.TimeStep | samples/distributed/explicit/sc21_bench.py:1292-1305 | One loop iteration (exchange A, sweep into B, exchange B, sweep into A). The new B is the swept B with its exchanged ghost cells. The new A is the exchanged A (its ghost cells kept) with the second sweep written into it. Gathered, the pair is one shared-memory time step. |
| Halo1D.Jacobi1D | samples/distributed/explicit/sc21_bench.py:1289-1305 | `jacobi_1d_distr`, gathered, equals `jacobi_1d_shmem` (:1283-1286) run for the same `range(1, TSTEPS)` on the gathered input. |
| Halo2D.PostedToSide | samples/distributed/explicit/sc21_bench.py:1423-1430 | Every posted send and receive is addressed to the neighbour on its own side, in the posting order north, south, west, east. |
| Halo2D.RecvMatched | samples/distributed/explicit/sc21_bench.py:1423-1430 | Each receive from a real neighbour is matched by exactly one of that neighbour's four sends, the one toward the opposite side. |
| Halo2D.SendMatched | samples/distributed/explicit/sc21_bench.py:1423-1430 | Each send to a real neighbour is taken by exactly one receive posted there, with this rank as source and the same tag. The pairs are north 0 ↔ from south 0, south 1 ↔ from north 1, west 2 ↔ from east 2, east 3 ↔ from west 3. |
| Halo2D.BoundaryFacing | samples/distributed/explicit/sc21_bench.py:1423-1430 | The slice the neighbour sends toward the opposite side holds, at a ghost cell's slot, the cell that ghost faces. |
| Halo2D.Receive | samples/distributed/explicit/sc21_bench.py:1427-1431 | A receive writes the matching send's boundary slice into its ghost row or column (`1:-1` only). A receive from PROC_NULL writes nothing. |
| Halo2D.InteriorKept | samples/distributed/explicit/sc21_bench.py:1423-1431 | A round changes no interior cell. |
| Halo2D.ReceivesGiveExchanged | samples/distributed/explicit/sc21_bench.py:1427-1431 | The four receives of a rank, served from blocks whose interiors are the original ones, give that rank's block of the cell law. |
| Halo2D.ExchangeRound | samples/distributed/explicit/sc21_bench.py:1423-1431 | Completing the four receives at all ranks yields exactly the buffers of the cell law `Exchanged`. |
| Halo2D.ExchangeOnGrid | samples/distributed/explicit/sc21_bench.py:1423-1431 | The north ghost row of process (pi, pj) holds row lM of (pi - 1, pj). South holds row 1 of (pi + 1, pj), west column lN of (pi, pj - 1), east column 1 of (pi, pj + 1). Edge ghosts, corner ghosts and interior cells are unchanged. |
| Halo2D.SingleProcessExchange | samples/distributed/explicit/sc21_bench.py:1773-1776 | On the 1 x 1 grid a round changes nothing. |
| Halo2D.HeatExchangeRound | samples/distributed/explicit/sc21_bench.py:1606-1614 | The heat_3d round is the same exchange with k-line cells, and every k-line keeps its length N. |
| Halo2D.SweepCell | samples/distributed/explicit/sc21_bench.py:1433-1438 | A cell in the written rows `1+noff:-1-soff` and columns `1+woff:-1-eoff` gets f of itself and its west, east, south and north cells. Every other cell keeps B's value. |
| Halo2D.SweepReadsOnlyReadable | samples/distributed/explicit/sc21_bench.py:1433-1438 | The sweep reads only the interior and the ghost rows and columns of non-edge sides, never a corner. Inputs that agree there give the same result. |
| Halo2D.SweepKeepsGhosts | samples/distributed/explicit/sc21_bench.py:1433-1438 | A sweep writes no ghost cell of B. |
| Jacobi2D.GlobalAt | samples/distributed/explicit/sc21_bench.py:1535-1545 | Gather, transpose and reshape of the interiors put cell (li + 1, lj + 1) of process (pi, pj) at global (l2g(li, pi, lM), l2g(lj, pj, lN)). |
| Jacobi2D.ExchangeKeepsGlobal | samples/distributed/explicit/sc21_bench.py:1423-1431 | A round leaves the reassembled array unchanged. |
| Jacobi2D.SharedSweepIsSliceSweep | samples/distributed/explicit/sc21_bench.py:1414-1415 | The cellwise shared sweep is the offset-free slice program on the whole array. |
| Jacobi2D.WrittenIffInner | samples/distributed/explicit/sc21_bench.py:1433-1438 | A local interior cell is in its process's shifted write range iff its global index is in `[1, N-1) x [1, N-1)`. |
| Jacobi2D.ExchangedMatches | samples/distributed/explicit/sc21_bench.py:1423-1431 | After a round, around every globally written cell, the five cells a process's stencil reads are the reassembled array's five neighbouring cells. |
| Jacobi2D.DistributedSweep | samples/distributed/explicit/sc21_bench.py:1423-1438 | Exchange then the offset-shifted local sweeps, reassembled, equal `jacobi_2d_shmem`'s sweep of the reassembled arrays. |
| Jacobi2D.DistributedStep | samples/distributed/explicit/sc21_bench.py:1422-1455 | One loop iteration (the exchanged A swept into B, B exchanged, the exchanged B swept into the exchanged A), reassembled, equals one shared-memory time step. |
| Jacobi2D.TimeStep | samples/distributed/explicit/sc21_bench.py:1422-1455 | One loop iteration. The new B is the swept B with its exchanged ghost rows and columns. The new A is the exchanged A (its ghost cells kept) with the second sweep written into it. Reassembled, the pair is one shared-memory time step. |
| Jacobi2D.Jacobi2D | samples/distributed/explicit/sc21_bench.py:1420-1455 | `jacobi_2d_distr`, reassembled, equals `jacobi_2d_shmem` (:1413-1418) run for the same `range(1, TSTEPS)` on the reassembled input. |
| Gather.StagingSlot | samples/distributed/explicit/sc21_bench.py:543-546 | `comm.Gather` into `(Px, Py, lM, lN)` holds at slot [rank // Py][rank % Py] that rank's block. |
| Gather.Transpose0213 | samples/distributed/explicit/sc21_bench.py:547 | `np.transpose(C, (0, 2, 1, 3))` maps index (a, i, b, j) to (a, b, i, j), with shape (Px, lM, Py, lN). |
| Gather.Reshape2 | samples/distributed/explicit/sc21_bench.py:547 | `.reshape(rows, cols)` succeeds exactly when sizes match, giving a rows x cols matrix. |
| Gather.Reshape2At | samples/distributed/explicit/sc21_bench.py:547 | Row r, column c of a C-order reshape is flat cell r * cols + c. |
| Gather.Flat4At | samples/distributed/explicit/sc21_bench.py:547 | Cell (a, i, b, j) of a C-contiguous (d0, d1, d2, d3) array has memory offset ((a * d1 + i) * d2 + b) * d3 + j. |
| Gather.ReassembleDefined | samples/distributed/explicit/sc21_bench.py:543-548 | The reassembly's reshape succeeds exactly when the requested shape has Px * lM * Py * lN cells. |
| Gather.ReassembleAt | samples/distributed/explicit/sc21_bench.py:543-548 | `transpose(0, 2, 1, 3).reshape(Px * lM, Py * lN)` places block(pi, pj)[li][lj] at global (l2g(li, pi, lM), l2g(lj, pj, lN)). |
| Gather.ReassembleNeedsExactBlocks | samples/distributed/explicit/sc21_bench.py:506-548 | With lM = M // Px and lN = N // Py, the final `reshape(M, N)` succeeds exactly when Px divides M and Py divides N. |
| Gather.VectorDelivers | samples/distributed/explicit/sc21_bench.py:165-168 | A rank's `comm.Send(ly, dest=0, tag=pj)` is received by the `comm.Recv` with tag pj and by no other tag. |
| Gather.BicgDelivers | samples/distributed/explicit/sc21_bench.py:290-296 | The tags pj and pj + Py are distinct. The receive with tag pj gets lo1, the one with tag pj + Py gets lo2, and other tags get nothing. |
| Gather.FirstRowRanks | samples/distributed/explicit/sc21_bench.py:166-168 | The first-row process (0, i) is rank i. |
| Gather.PlaceSegment | samples/distributed/explicit/sc21_bench.py:159-166 | `y[at:at+len(buf)] = buf` replaces exactly those cells. |
| Gather.StoreSegment | samples/distributed/explicit/sc21_bench.py:165-166 | Storing segment i on top of segments 0 .. i - 1 extends the written prefix by that segment. |
| Gather.GatherSegments | samples/distributed/explicit/sc21_bench.py:157-166 | Rank 0's receive loop leaves the concatenation of the segments in rank order, followed by the untouched cells. This covers atax, and doitgen at :405-413. |
| Gather.ReceivePair | samples/distributed/explicit/sc21_bench.py:290-293 | The two receives from rank i append lo1 to o1 and lo2 to o2. |
| Gather.StorePair | samples/distributed/explicit/sc21_bench.py:291-293 | `o1[i*lN:(i+1)*lN] = lo1` and `o2[i*lMy:(i+1)*lMy] = lo2` extend both written prefixes. |
| Gather.GatherPairs | samples/distributed/explicit/sc21_bench.py:282-293 | bicg's loop leaves in o1 the lo1 vectors and in o2 the lo2 vectors of the first-row ranks in rank order, followed by the untouched cells. |
| Gather.GatheredSegment | samples/distributed/explicit/sc21_bench.py:157-166 | In the gathered vector, cell i * seg + k is cell k of the segment rank i sent. |
| Gather.OutboxesDeliver | samples/distributed/explicit/sc21_bench.py:294-296 | The sends of the first-row ranks in atax and bicg satisfy the gathers' delivery requirements. |
| Init.InteriorOfPadded | samples/distributed/explicit/sc21_bench.py:1462-1469 | The interior `[1:-1, 1:-1]` of a zero-padded block is the block. |
| Init.Jacobi1DInit | samples/distributed/explicit/sc21_bench.py:1312-1319 | Zero ghost cells, and interior cell i + 1 is f(l2g(i, p, lN)). |
| Init.Jacobi2DInit | samples/distributed/explicit/sc21_bench.py:1462-1469 | Zero ghost rows and columns, and interior cell (i + 1, j + 1) is f(l2g(i, pi, lM), l2g(j, pj, lN)). |
| Init.VectorsConcatenate | samples/distributed/explicit/sc21_bench.py:1307-1319 | The ranks' vector parts, concatenated in rank order, are the global `np.fromfunction` vector. |
| Init.Jacobi1DInitGathers | samples/distributed/explicit/sc21_bench.py:1312-1319 | Gathering the initialised interiors gives `jacobi_1d_shmem_init`'s vector over `size * lN` cells. |
| Init.BlocksReassemble | samples/distributed/explicit/sc21_bench.py:474-485 | Blocks initialised from f(l2g(i, pi, lM), l2g(j, pj, lN)) reassemble, through the gather, to `np.fromfunction(f)` over the whole array. This is the gemm distributed init (:474) against the shared one (:462). |
| Init.Jacobi2DInitReassembles | samples/distributed/explicit/sc21_bench.py:1462-1469 | The initial interiors are those blocks, and they reassemble to `jacobi_2d_shmem_init`'s array. |
| Init.HeatReferenceInit | samples/distributed/explicit/sc21_bench.py:1773 | `heat_3d_distr_init(N, N, N, …, 0, 0)` has as interior the global k-lines f(i, j, k). |
| Init.HeatInitReassembles | samples/distributed/explicit/sc21_bench.py:1661-1668 | heat_3d's distributed k-line blocks reassemble to the global array of k-lines. |

## Left out

- MPI itself is not modelled: real concurrency, `Waitall` as a synchronisation point, `comm.Barrier`, deadlock and buffer reuse. Only the data effect of a completed round or gather is modelled.
- SDFG compilation and reloading (`to_sdfg`, `compile`, `CompiledSDFG`, `ReloadableDLL`) and `distr.MatMult` are not modelled. They are opaque compiler and native calls, so the kernels of atax, bicg, doitgen, gemm, 2mm, 3mm and the others are not modelled.
- Floating point is not modelled: the stencil coefficients, the `np.fromfunction` value formulas, `relerr`, the `< 1e-12` checks, `time_to_ms`, and `timeit` / `np.median` timing. Values are generic and the formulas are parameters.
- heat_3d's seven-point sweep and its time loop are not modelled, only its exchange round, its initialiser and its gather: the sweep's arithmetic over the third axis is floating point inside the kernel.
- The text pasted into gemm at `sc21_bench.py:513-518` is not meaningful code and is not modelled.
- k3mm allocates B with shape `(lNKa, lNJ)` at `sc21_bench.py:1045`, while its program declares `lNKb` (:1020). This is not modelled.
- `lNx = N // Py` (`sc21_bench.py:129`) is computed but never used by the modelled code, so it is left out.
- Printing and result formatting are not modelled.
- NumPy's reading of a `-0` slice stop is not modelled; the model uses DaCe's `len - eoff`.
- `tests/wcr_cudatest.py` and `tests/library/lapack_getri_test.py` are graph-construction and MKL-driving tests with no self-contained logic. They are not part of this model.
- The commented-out `get_gemm_opts` (`lapack_helpers.py:47-164`) is dead code and is not modelled.
- LapackHelpers.CudaTypeMetadata: its argument is a DaCe typeclass. The model uses the same enumeration as `to_lapacktype` and the same message, built from the NumPy type name.
- Gather.GatherSegments: doitgen's segments are `(lR, NQ, NP)` sub-arrays. The model treats each as its flat C-order run of `lR * NQ * NP` cells. The contract fixes the final contents; how often each cell is written is not tracked.
- Halo1D.Jacobi1D: the result is stated on the size * lR gathered cells. When size does not divide NR, the gather into NR cells is undefined (`GatherInto` is None), and Jacobi1D says nothing about that run.
- Halo1D.Jacobi1D and Jacobi2D.Jacobi2D: the ranks' buffers are values passed in and returned, not arrays updated in place by slice assignments. Aliasing between A and B is therefore not modelled.
- The drivers rely on at least one interior cell per rank (`lR >= 1`; `lM, lN >= 1`). The round and sweep models require this too.
- The grid table's KeyError for an unsupported process count is modelled as an error result, not an exception.
