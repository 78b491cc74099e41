# QUDA execution layer: launch indexing, reductions, the HIP error record, clover parameters

This project models, in Dafny, the part of QUDA that sits between a
lattice-QCD kernel and the device it runs on. It also models the parameter
rules of the clover field.

- **Launch indexing (SYCL).** `Kernel1D`, `Kernel2D` and `Kernel3D` turn a
  tuned launch shape into a `sycl::nd_range<3>`. Each lane body
  (`Kernel*Impl`, or `Kernel*ImplB` in a `QUDA_THREADS_BLOCKED` build) hands
  logical indices to the functor. The model describes a lane's work as the
  sequence of indices it passes, in call order. On the x axis it proves that
  every index is visited exactly once with grid stride or blocking and at
  least one lane, and without them exactly when there are at least as many
  lanes as indices. Rows and planes are never strided: a lane at or beyond
  `threads.y` (or `threads.z`) returns at once. So pairs and triples are
  proved visited exactly once when, in addition, the global range has at
  least `threads.y` rows (and `threads.z` planes).
- **Reductions (SYCL).** `Reduction2D` seeds the result slot, on the host or
  on the device for asynchronous reductions. Each lane folds its indices into
  a partial value; `MultiReduction` clips rows beyond `threads.y`. The
  transformer step `value = t(value, idx, j)` is modelled as `op(value, e(idx,
  key))`. Under a commutative monoid, and with enough lanes for the stride
  mode (at least one with grid stride, at least `threads.x` without), the
  combined partials equal the fold of every element of each row, each taken
  exactly once, whatever order the lanes combine in. `Reduction2D`'s reduction object always adds the lane
  partials into the seeded slot, whatever operator the transformer folds
  with.
- **Block swizzle (HIP).** `virtual_block_idx` transposes the part of the
  grid that divides by the swizzle factor. The model proves it is a
  permutation of the block ids, with an explicit inverse. `BlockKernel2D`
  drops rows at or beyond `threads.y`.
- **Target facts (HIP).** `is_device` and `is_host`; the coordinate
  accessors that describe one lane on the host; the block-size ceilings and
  the architecture constants.
- **The HIP runtime shim.** A single-slot last-error record: the checked
  wrappers fill it in, and `qudaGetLastError` and `qudaGetLastErrorString`
  read and clear it. The shim's state is an immutable record. Each wrapper is
  a pure function from the state and the status its backend call returned
  (an oracle parameter) to the next state. `errorQuda` ends the process; the
  model records this in a sticky `aborted` flag. Sequences of calls are
  covered by `Run`.
- **Clover parameters.** Which field order is native for which precision,
  `setPrecision`, the three `CloverFieldParam` constructors and the
  `CloverField` accessors `V` and `isNative`.

Files: `types.dfy` (shared `Dim3`, status, `Option`), `arith.dfy` (division
facts, index sequences, `Flatten`), `target.dfy`, `swizzle.dfy`,
`indexing.dfy`, `reduction.dfy`, `runtime_api.dfy`, `clover.dfy`.

## Model

| member | source | states |
|---|---|---|
| TargetDevice.HostIsNotDevice | include/targets/hip/target_device.h:14-34 | exactly one of `is_device` and `is_host` holds in each compilation pass |
| TargetDevice.BlockDim | include/targets/hip/target_device.h:41-48 | on the host the block dimensions are (1, 1, 1); on the device they are the built-in `blockDim` |
| TargetDevice.BlockIdx | include/targets/hip/target_device.h:55-62 | on the host the block index is (0, 0, 0); on the device it is the built-in `blockIdx` |
| TargetDevice.ThreadIdx | include/targets/hip/target_device.h:69-76 | on the host the thread index is (0, 0, 0); on the device it is the built-in `threadIdx` |
| TargetDevice.HostIsSingleLane | include/targets/hip/target_device.h:41-76 | on the host the accessors describe a one-lane block whose only lane is lane 0, whatever the built-ins hold |
| TargetDevice.MaxBlockSize | include/targets/hip/target_device.h:93-97 | the x ceiling is the larger of the warp width and 256 / (y*z), and is one of the two |
| TargetDevice.MaxBlockSizeAntitone | include/targets/hip/target_device.h:93-97 | a block larger in y*z never gets a larger x ceiling |
| TargetDevice.MaxReduceBlockSize | include/targets/hip/target_device.h:111-120 | the reduction ceiling is the warp width in fast-compile mode and the general ceiling `max_block_size<y, z>()` otherwise, so it lies between the two |
| TargetDevice.MaxReduceBlockSizeAntitone | include/targets/hip/target_device.h:111-120 | in either mode, a block larger in y*z never gets a larger reduction ceiling |
| TargetDevice.MaxMultiReduceBlockSize | include/targets/hip/target_device.h:126-134 | the multi-reduction ceiling is 128, or the warp width in fast-compile mode |
| TargetDevice.ReduceCeilingsCoverWarp | include/targets/hip/target_device.h:111-134 | neither reduction ceiling drops below a warp of at most 128 lanes, in either mode |
| TargetDevice.TargetConstants | include/targets/hip/target_device.h:87-154 | the kernel-argument limit (4096) is below the constant-buffer limit (8192) and a multiple of the bank width (32); the transform-reduce block size (256) is the general ceiling for a 1x1 block with no warp floor; the converged mask enables all 32 lanes |
| Swizzle.Gridp | include/targets/hip/block_reduction_kernel.h:21 | the divisible prefix is a multiple of the factor, no longer than the grid, and shorter than the grid by less than one factor |
| Swizzle.PrefixBounds | include/targets/hip/block_reduction_kernel.h:24-30 | the transposed id of a prefix block stays in the prefix |
| Swizzle.VirtualBlockIdx | include/targets/hip/block_reduction_kernel.h:16-34 | a block of the grid gets an id in the grid; without swizzling, and for a block beyond the divisible prefix, the id is the block's own; with swizzling a block is in the prefix exactly when its id is |
| Swizzle.UntransposeTranspose | include/targets/hip/block_reduction_kernel.h:26-30 | transposing a prefix block and then undoing the transpose gives the block back |
| Swizzle.TransposeUntranspose | include/targets/hip/block_reduction_kernel.h:26-30 | every prefix id is the transpose of a prefix block |
| Swizzle.VirtualBlockIdxIsBijection | include/targets/hip/block_reduction_kernel.h:16-34 | `virtual_block_idx` has a two-sided inverse on the block ids [0, n) |
| Swizzle.VirtualBlockIdxInjective | include/targets/hip/block_reduction_kernel.h:16-34 | two different blocks never work on the same id |
| Swizzle.VirtualOrderExactlyOnce | include/targets/hip/block_reduction_kernel.h:16-34 | across the launch, every block id is worked on by exactly one block |
| Swizzle.TrivialFactorIsIdentity | include/targets/hip/block_reduction_kernel.h:19-31 | a factor of one, or one larger than the grid, leaves every block id unchanged |
| Swizzle.PrefixIsTransposed | include/targets/hip/block_reduction_kernel.h:24-31 | on the prefix, the id is `(b % f) * (n / f) + b / f` |
| Swizzle.BlockKernel2D | include/targets/hip/block_reduction_kernel.h:46-56 | the transformer runs exactly when the lane's row is below `threads.y`; it sees the block id (`virtual_block_idx` of the x block id, the raw y block id, 0) and the thread index with z zeroed |
| Swizzle.BlockKernel2DRows | include/targets/hip/block_reduction_kernel.h:51-52 | each row below `threads.y` is reached by exactly the lane whose block and thread y coordinates are its quotient and remainder by `blockDim.y` |
| Indexing.StrideVisits | include/targets/sycl/kernel.h:14-18 | a grid-stride lane visits, in increasing order, exactly the indices below the width on its stride |
| Indexing.StrideVisitCount | include/targets/sycl/kernel.h:15-17 | a grid-stride lane with id below the width calls the functor ceil((w - i) / r) times |
| Indexing.StrideOwner | include/targets/sycl/kernel.h:14-17 | among lanes 0 .. r-1, index x belongs to lane x % r and to no other |
| Indexing.SingleShotVisits | include/targets/sycl/kernel.h:14-17 | without grid stride a lane visits its own id if that is below the width, and nothing else |
| Indexing.BlockedStartMono | include/targets/sycl/kernel.h:27-28 | a blocked slice never starts after it ends |
| Indexing.BlockedStartEnds | include/targets/sycl/kernel.h:27-28 | lane 0's slice starts at 0 and the last lane's slice ends at n |
| Indexing.BlockedSliceLength | include/targets/sycl/kernel.h:27-28 | a blocked slice holds n / nid or n / nid + 1 indices |
| Indexing.BlockedSlice | include/targets/sycl/kernel.h:27-31 | a blocked lane visits, in increasing order, exactly the indices of `[t*n/nid, (t+1)*n/nid)` |
| Indexing.Kernel1DImpl | include/targets/sycl/kernel.h:10-19 | with grid stride the lane visits the indices below `threads.x` congruent to its id modulo the global range; without it, at most its own id |
| Indexing.Kernel1DImplB | include/targets/sycl/kernel.h:20-32 | a blocked lane visits its own contiguous slice, whose length is n / nid rounded down or up |
| Indexing.Kernel1DLane | include/targets/sycl/kernel.h:56-60 | the lane body the build selects: with `QUDA_THREADS_BLOCKED` the lane visits its blocked slice whatever the stride flag; otherwise its stride residue class below `threads.x`, or at most its own id; in increasing order in every mode |
| Indexing.GridStrideExactlyOnce | include/targets/sycl/kernel.h:14-18 | with grid stride, any positive number of lanes visits every index below the width exactly once |
| Indexing.BlockedSlicesAbut | include/targets/sycl/kernel.h:27-31 | the slices of lanes 0 .. lo-1, concatenated, are exactly 0 .. start(lo)-1 |
| Indexing.BlockedPartition | include/targets/sycl/kernel.h:20-32 | the blocked slices of all lanes, in lane order, are exactly 0, 1, ..., n-1 |
| Indexing.SingleShotCoverage | include/targets/sycl/kernel.h:14-17 | without grid stride, lanes 0 .. lo-1 visit exactly 0 .. min(lo, w)-1 in order |
| Indexing.SingleShotExactlyOnce | include/targets/sycl/kernel.h:14-17 | without grid stride, every index is visited exactly once if and only if there are at least as many lanes as indices |
| Indexing.Lanes1DExactlyOnce | include/targets/sycl/kernel.h:56-60 | the lane body the build selects covers the x axis exactly once when it is blocked, strides, or has enough lanes |
| Indexing.Clip | include/targets/sycl/kernel.h:83 | a lane beyond the height does nothing; any other lane does its x work in its own row |
| Indexing.FlattenClip | include/targets/sycl/kernel.h:81-87 | clipping the lanes of a row one by one is the same as clipping their joint work |
| Indexing.RowsExactlyOnce | include/targets/sycl/kernel.h:82-83 | rows 0 .. ry-1 over repeat-free x work visit every (x, row) with row below the height exactly once |
| Indexing.Kernel2DLane | include/targets/sycl/kernel.h:76-104 | a lane with `j >= threads.y` never calls the functor; otherwise it calls it at (i, j) for exactly its x indices |
| Indexing.Kernel3DLane | include/targets/sycl/kernel.h:202-234 | a lane with `j >= threads.y` or `k >= threads.z` never calls the functor; otherwise it calls it at (i, j, k) for exactly its x indices |
| Indexing.Kernel1D | include/targets/sycl/kernel.h:33-73 | the nd-range is `grid.x*block.x` lanes in blocks of `block.x`; the status is `QUDA_ERROR` exactly when submission throws, and then nothing runs; an accepted launch visits every x index exactly once when it is blocked, strides, or has enough lanes |
| Indexing.Row2D | include/targets/sycl/kernel.h:76-104 | the lanes of row j do the one-dimensional lane work, clipped against `threads.y` |
| Indexing.Rows2D | include/targets/sycl/kernel.h:76-104 | row after row, a two-dimensional range does the joint x work clipped to each row |
| Indexing.Visited2DExactlyOnce | include/targets/sycl/kernel.h:76-104 | a two-dimensional launch with at least `threads.y` rows visits every logical pair exactly once |
| Indexing.Kernel2D | include/targets/sycl/kernel.h:105-148 | the nd-range is grid times block in x and y, with one plane; the status is `QUDA_ERROR` exactly when submission throws; an accepted launch with enough rows covers the logical rectangle exactly once |
| Indexing.Row3D | include/targets/sycl/kernel.h:202-234 | the lanes of row j of plane k do the one-dimensional lane work, clipped first by row and then by plane |
| Indexing.Plane3D | include/targets/sycl/kernel.h:202-234 | the rows of plane k are the row-clipped x work, each clipped to plane k |
| Indexing.Planes3D | include/targets/sycl/kernel.h:202-234 | the planes of a three-dimensional range are the two-dimensional work clipped to each plane |
| Indexing.Visited3DExactlyOnce | include/targets/sycl/kernel.h:202-234 | a launch with at least `threads.y` rows and `threads.z` planes visits every logical triple exactly once |
| Indexing.Kernel3D | include/targets/sycl/kernel.h:236-342 | the nd-range is grid times block in every dimension, with local size `block`; the status is `QUDA_ERROR` exactly when submission throws; an accepted launch with enough rows and planes covers the logical box exactly once |
| Reduction.FoldAppend | include/targets/sycl/reduction_kernel.h:51-55 | folding a concatenation continues from where the first part ended |
| Reduction.FoldShift | include/targets/sycl/reduction_kernel.h:51-55 | under a commutative monoid, folding from v equals v combined with the fold from the identity |
| Reduction.FoldPermutation | include/targets/sycl/reduction_kernel.h:103-111 | under a commutative monoid, a permutation of the elements folds to the same value |
| Reduction.FoldFlatten | include/targets/sycl/reduction_kernel.h:103-111 | under a commutative monoid, folding all parts jointly equals combining the folds of the parts |
| Reduction.CombineOrderIrrelevant | include/targets/sycl/reduction_kernel.h:103-111 | the order in which lane partials are combined does not change the result |
| Reduction.LanePartial | include/targets/sycl/reduction_kernel.h:46-57 | a lane's partial starts at `init` and folds the element of every index it owns: its whole stride with grid stride, else just its own id if below `threads.x` |
| Reduction.RowPartialsAreFolds | include/targets/sycl/reduction_kernel.h:46-55 | the partials of a row's lanes are the folds of the one-dimensional lane work |
| Reduction.RowTotal | include/targets/sycl/reduction_kernel.h:46-57 | with enough lanes for the stride mode, a row's partials combine to the fold of every element of the row, each exactly once |
| Reduction.SeedResult | include/targets/sycl/reduction_kernel.h:88-95 | the host slot receives `init`; the device slot is the target exactly for asynchronous reductions, and then holds a copy of `init`; otherwise it is left alone |
| Reduction.Store | include/targets/sycl/reduction_kernel.h:103-111 | the reduction writes the target slot and leaves the other slot alone |
| Reduction.Reduction2DRow | include/targets/sycl/reduction_kernel.h:48-55 | the lanes of global row g fold their x work under the row's local y id |
| Reduction.Reduction2DRows | include/targets/sycl/reduction_kernel.h:106-112 | the partials of every row of the nd-range, row after row |
| Reduction.Reduction2DTotal | include/targets/sycl/reduction_kernel.h:103-112 | under a commutative monoid, all lane partials of a launch combine to the combination of the row totals |
| Reduction.AdditionIsCommMonoid | include/targets/sycl/reduction_kernel.h:103-104 | the reduction object's `plus` combiner is a commutative monoid with identity 0 |
| Reduction.FoldSameOp | include/targets/sycl/reduction_kernel.h:103-104 | an additive transformer and the `plus` combiner fold alike, as do any two operators that agree everywhere |
| Reduction.Reduction2D | include/targets/sycl/reduction_kernel.h:58-130 | the nd-range is grid times block in x and y; the status is `QUDA_ERROR` exactly when submission throws, and then the slot keeps its seed; on success the target slot holds the seed plus every lane partial (the reduction object adds, whatever the transformer's operator), which for an additive transformer starting from zero, with enough lanes, is the sum of the row totals |
| Reduction.MultiReductionLane | include/targets/sycl/reduction_kernel.h:133-159 | a lane with global y id at or beyond `threads.y` folds nothing; any other lane folds its x indices under the key (global y, local z) |
| Reduction.MultiReductionRow | include/targets/sycl/reduction_kernel.h:141-155 | a clipped row yields nothing; any other row yields a partial per lane, which under a commutative monoid with enough lanes combine to the row's full fold |
| Reduction.MultiReduction | include/targets/sycl/reduction_kernel.h:177-233 | the nd-range is grid times block in all three dimensions; the status is `QUDA_ERROR` exactly when submission throws |
| RuntimeApi.Initial | lib/targets/hip/quda_api.cpp:25-26 | at start-up no error is recorded, the string is `"HIP_SUCCESS"`, and no backend call or tuner launch has happened |
| RuntimeApi.GetLastError | lib/targets/hip/quda_api.cpp:28-33 | returns the recorded status, clears it to success and changes nothing else |
| RuntimeApi.GetLastErrorString | lib/targets/hip/quda_api.cpp:35-40 | returns the recorded string, resets it to "QUDA_SUCCESS" and changes nothing else |
| RuntimeApi.GetLastErrorClears | lib/targets/hip/quda_api.cpp:28-40 | a second read straight after the first reports success, whatever the first returned |
| RuntimeApi.SetRuntimeError | lib/targets/hip/quda_api.cpp:44-51 | success changes nothing; a failure records `QUDA_ERROR` with the backend's description and ends the process unless allowed |
| RuntimeApi.SetDriverError | lib/targets/hip/quda_api.cpp:53-61 | as the runtime variant, but records the backend's name of the code |
| RuntimeApi.FailureIsReported | lib/targets/hip/quda_api.cpp:28-61 | a recorded failure, allowed or not, is what the next reads of the status and the string return |
| RuntimeApi.MemcpyKindToApi | lib/targets/hip/quda_api.cpp:69-82 | each of the five copy kinds maps to its backend kind without touching the state; any other value is fatal and yields the default kind |
| RuntimeApi.MemcpyKindRoundTrip | lib/targets/hip/quda_api.cpp:69-82 | the mapping is one-to-one and onto the backend kinds, and defined exactly on the five enumerators |
| RuntimeApi.LaunchKernel | lib/targets/hip/quda_api.cpp:113-136 | one backend launch; the result is `QUDA_SUCCESS` exactly when it succeeded; a failure is recorded and is fatal unless the tuner is active; the tuner count is left alone |
| RuntimeApi.MemsetObject | lib/targets/hip/quda_api.cpp:190-209 | a fill object is not a copy and carries the default kind |
| RuntimeApi.Bytes | lib/targets/hip/quda_api.cpp:250 | a device-to-device copy accounts for twice its count, anything else for its count |
| RuntimeApi.BytesAccounting | lib/targets/hip/quda_api.cpp:250 | a fill accounts for exactly its count; accounted bytes lie between count and twice count, and double exactly for a non-empty device-to-device copy |
| RuntimeApi.QudaMemApply | lib/targets/hip/quda_api.cpp:211-238 | the tuner runs unless already active; an asynchronous host-to-host copy is fatal before any backend call; otherwise one backend call whose failure is recorded, allowed only while tuning |
| RuntimeApi.Memcpy | lib/targets/hip/quda_api.cpp:253-257 | an empty copy does nothing; an unknown kind is fatal; otherwise a tuned synchronous copy: one backend call, one tuner launch unless tuning, the record unchanged on success, and on failure the error recorded and fatal unless tuning |
| RuntimeApi.MemcpyAsyncAsWritten | lib/targets/hip/quda_api.cpp:259-270 | as written: device-to-device goes through the tuned checked copy; any other known kind makes one backend call whose status is dropped |
| RuntimeApi.MemcpyAsyncAsWrittenDropsFailure | lib/targets/hip/quda_api.cpp:266-269 | a failing one-byte host-to-device copy leaves `qudaGetLastError` reporting success and the process running |
| RuntimeApi.MemcpyAsync | lib/targets/hip/quda_api.cpp:259-270 | corrected: an empty copy does nothing, an unknown kind is fatal, a device-to-device copy is a tuned checked copy, and any other copy is one backend call whose status is checked as `qudaMemcpyP2PAsync_` and `qudaMemcpy2DAsync_` check theirs (lines 277, 295): recorded and fatal on failure, nothing else changed on success |
| RuntimeApi.MemcpyAsyncAgrees | lib/targets/hip/quda_api.cpp:259-270 | the corrected and the as-written wrapper end in the same state unless a direct (not device-to-device) copy fails, and then, in a running process, they differ |
| RuntimeApi.MemcpyAsyncReportsFailure | lib/targets/hip/quda_api.cpp:259-270 | every failing non-empty copy of a known kind is recorded; only device-to-device copies are tuned, and a failing direct copy is fatal |
| RuntimeApi.MemcpyP2PAsync | lib/targets/hip/quda_api.cpp:272-278 | an empty copy does nothing; otherwise one device-to-device copy whose failure is recorded and fatal |
| RuntimeApi.Memcpy2D | lib/targets/hip/quda_api.cpp:280-288 | an unknown kind is fatal; otherwise one backend call, and a failure ends the process without touching the record; the tuner count is left alone |
| RuntimeApi.Memcpy2DAsync | lib/targets/hip/quda_api.cpp:290-296 | an unknown kind is fatal; otherwise one checked backend copy whose failure is recorded and fatal |
| RuntimeApi.Memset | lib/targets/hip/quda_api.cpp:305-316 | an empty fill does nothing; otherwise a tuned fill with one backend call: on success the record and the process are as they were, on failure the error is recorded and fatal unless tuning |
| RuntimeApi.EventQuery | lib/targets/hip/quda_api.cpp:339-348 | true exactly on success; not-ready reads as false and leaves the record alone; any other status is recorded, fatal, and reads as false; the tuner count is left alone |
| RuntimeApi.CheckedCall | lib/targets/hip/quda_api.cpp:298-445 | each remaining wrapper makes one backend call; success changes nothing else, and a failure is recorded and fatal |
| RuntimeApi.Step | lib/targets/hip/quda_api.cpp:25-445 | one call of the shim (the asynchronous copy is the corrected `MemcpyAsync`): at most one backend call; the last-error reads and the prefetch make none and never end the process; any other call that is neither empty, of an unknown kind nor fatal makes exactly one |
| RuntimeApi.EmptyTransferIsNoop | lib/targets/hip/quda_api.cpp:253-316 | an empty copy or fill makes no backend call and leaves the state as it was |
| RuntimeApi.ErrorsComeFromBackend | lib/targets/hip/quda_api.cpp:44-61 | only a failing backend status puts `QUDA_ERROR` into a clear record, and the process ends only on such a failure or an unknown copy kind |
| RuntimeApi.StepMonotone | lib/targets/hip/quda_api.cpp:44-61 | the end of the process is final, and the call and tuner counts never decrease |
| RuntimeApi.CleanRunReportsSuccess | lib/targets/hip/quda_api.cpp:25-61 | after any run of calls with no backend failure, starting from a clear record, `qudaGetLastError` reports success |
| RuntimeApi.AbortIsFinal | lib/targets/hip/quda_api.cpp:44-61 | once the process has ended it stays ended through any run of calls |
| RuntimeApi.CleanRunsAgree | lib/targets/hip/quda_api.cpp:259-270 | on a run with no backend failure, the source's shim (as-written `qudaMemcpyAsync_`) and the corrected one end in the same state, so the run lemmas hold for the source on such runs |
| Clover.IsNative | include/clover_field.h:55-69 | an order is native exactly when it is the precision's native order: FLOAT2 for double, FLOAT4 for single, FLOAT8 (or FLOAT4 without `FLOAT8`) for half and quarter |
| Clover.NativeOrderUnique | include/clover_field.h:55-69 | every valid precision has exactly one native order, and an invalid precision has none |
| Clover.SetPrecision | include/clover_field.h:102-122 | both precisions become the new one; a field native for its old precision, or forced, becomes native for the new one; otherwise, or for an invalid precision, the order stays; nothing else changes |
| Clover.SetPrecisionIdempotent | include/clover_field.h:102-122 | setting the same precision twice is the same as setting it once |
| Clover.SetPrecisionKeepsNative | include/clover_field.h:102-122 | a native parameter set stays native through any change to a valid precision |
| Clover.DefaultParam | include/clover_field.h:124-135 | the default parameters are inverse, untwisted, with no fields, zero mu2 and rho, an invalid location and the build's reconstruct flag |
| Clover.CopyParam | include/clover_field.h:137-148 | the copy takes the lattice part and every listed member from its source, and not csw, coeff, order or create |
| Clover.CopyRoundTrip | include/clover_field.h:137-148 | a copy with the uncopied members taken from the source is the source |
| Clover.InvertCloverParam | include/clover_field.h:150-168 | a full-site field padded by `cl_pad`; the first `nDim` extents come from `x` and the rest of the default extent array is kept; coeff is kappa*csw unless set; twisted exactly for twisted-clover, with mu2 = 4 kappa^2 mu^2 >= 0, else 0 |
| Clover.InvertExtendsDefault | include/clover_field.h:124-168 | the invert constructor leaves every member it does not derive from the invert parameters as the default constructor sets it |
| Clover.V | include/clover_field.h:227-228 | the inverse field when asked for it, else the field |
| Clover.FieldIsNative | include/clover_field.h:259 | a field is native exactly when its order is its precision's native order |

## Left out

- The backend (HIP runtime, SYCL queue) is not modelled. Each backend call's status, and whether `q.submit` throws, is a parameter.
- `errorQuda` is modelled as a sticky `aborted` flag, not as process termination. Calls after it are still modelled, but no wrapper makes a backend call after deciding to abort.
- The backend's error texts are not modelled. `hipGetErrorString` and `hipGetErrorName` are symbolic (`Message`).
- Inside the tuner (`tuneLaunch`, `TuneKey`, `advanceTuneParam`), only the count of tuner launches is kept. The `PROFILE` timers and the `aux`/`name` strings of `QudaMem` are left out.
- Verbosity-gated `printfQuda` output is left out, and so is the `wait_and_throw` it triggers in `Reduction2D`; both are I/O.
- `#if 0` code is left out: the old device `Reduction2D`, `Kernel2DImplBx`/`Kernel2Dx`, the `MultiReductionImpl1` branch and the shared-memory carve-out of `qudaLaunchKernel`.
- Reduction.Reduction2D: the cross-lane `sum.combine` is modelled as adding the lane partials to the seeded slot in lane order. `CombineOrderIrrelevant` shows the order does not matter, addition included. The sum of the row totals is stated only for an additive transformer starting from zero; for any other transformer the contract states what the source computes (the seed plus the lane partials), which is then not the fold of the row. The `sycl::vec<double, nd>` reinterpretation and floating-point rounding are left out; values are integers.
- RuntimeApi.Step: an asynchronous copy runs the corrected `MemcpyAsync`, so `Run` and the lemmas about it describe the corrected shim. `StepAsWritten` and `RunAsWritten` perform the calls as the source does, and `CleanRunsAgree` shows the two agree on every run without a backend failure.
- Reduction.MultiReductionRow: the inter-block `reduce<>` step that writes per-row results is left out, because `reduce_helper.h` is not part of this model. The model stops at the lane partials and their combined value per row.
- Reduction.Reduction2D: `threads.y` is not used to clip rows, because the source does not clip them. Rows beyond `threads.y` contribute, as written.
- Indexing.Kernel3D: the two overloads differ only in how the argument reaches the device (kernel argument or constant buffer). Both run the same lane body, so one function models both. `use_kernel_arg` is left out.
- Swizzle.BlockKernel2D: the second overload (lines 58-68) misspells `auto j` as `autoj` and cannot compile as written. It is modelled as identical to the first; the launch-bounds choice between them is left out.
- Clover: the `CloverField` methods that are only declared in the header (construction from parameters, `copy`, `norm`, `backup`/`restore` and the rest) are left out, because their definitions are not part of this model.
- Clover.DefaultParam / Clover.CopyParam: members the C++ constructors leave uninitialised (`csw`, `coeff`, `order`, `create`) are explicit parameters. The base-class `LatticeFieldParam` defaults are the `lattice` parameter; for `Clover.InvertCloverParam` these defaults include `nDim` and the `QUDA_MAX_DIM`-entry extent array.
- Clover: double-precision coefficients are reals, without rounding.
- RuntimeApi.CheckedCall: `qudaEventElapsedTime_` divides the elapsed milliseconds by 1000. That value, and the event and symbol handles the wrappers return, are left out; only their effect on the error record is modelled.
- Error messages are not modelled. In particular, the fill constructor of `QudaMem` (lib/targets/hip/quda_api.cpp:190-209) leaves its `func`, `file` and `line` members uninitialised. The fatal message of a failing fill is therefore formatted from indeterminate pointers; only the recorded status and the abort are modelled.
- The device stream lookup (`get_cuda_stream`, `get_target_stream`) and `qudaMemPrefetchAsync_` (which does nothing) are no-ops in the model.
- `tests/gauge_alg_ctest.cpp` is a caller and is not modelled.
- Integer widths: lane counts and byte counts are unbounded naturals, so a 32-bit or `size_t` overflow of `grid * block` or of `tid * n` is not modelled.

## Findings

| source | as written | input that shows it | evidently intended | confidence | as-written member | corrected member |
|---|---|---|---|---|---|---|
| lib/targets/hip/quda_api.cpp:266-269 | for every non-device-to-device kind, `qudaMemcpyAsync_` calls `hipMemcpyAsync` directly and discards its status | count = 1, kind = host-to-device, backend returns a failure: the next `qudaGetLastError` reports success and the process carries on | check the status with `set_runtime_error`, as the P2P and 2D asynchronous wrappers of the same file do | not executed; medium | RuntimeApi.MemcpyAsyncAsWritten (RuntimeApi.MemcpyAsyncAsWrittenDropsFailure) | RuntimeApi.MemcpyAsync (RuntimeApi.MemcpyAsyncReportsFailure) |
