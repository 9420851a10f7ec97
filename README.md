# FastImaging imaging stage: gridding placement and W/A-projection kernel layout

This project models, in Dafny, the integer index logic of FastImaging's imaging stage and
proves what that logic promises.

**Convolutional gridding** (`ConvolutionGridding`, `gridding.dfy`) follows the body of
`gridder_convolution_oversampling_benchmark`:

- Every kernel centre is half-shifted in place into the FFT layout.
- One sequential `Worker` per `b` in `0 .. kernel_size-1` then walks over the good
  visibilities.
- For each visibility, the worker computes `conv_col` and `grid_col`.
- It skips off-grid columns and adds the kernel column down the wrapped rows of both
  grids.
- For centres near the left or right border, it retries with the centre moved by one image
  width.
- The grids hold `real` weights and complex visibilities.
- Kernel values are an uninterpreted function of `(cp_y, cp_x, row, column)`.

The proofs cover:

- range and residue of every placement;
- disjointness of the workers' columns;
- the full footprint of the kernel window;
- the row wrap;
- that both grids are incremented at the same cells by `vis * k` and `k`.

They end in one theorem: `GridVisibilities` leaves each cell holding exactly its value under
periodic (wrap-around) convolution of the visibilities with the kernel, whenever the kernel
is no wider than the image.

**W/A-projection kernels** (`AwKernelLayout`, `aw_layout.dfy`, pure index functions and
lemmas; `AwProjection`, `aw_projection.dfy`, the class `WideFieldImaging`) follow
`src/stp/gridder/aw_projection.cpp`. The model covers:

- the constructor's size check;
- the four-fold mirror fill of the image-domain kernel;
- the projected 1-D kernel and its mirror;
- the column sums;
- the A-kernel product band;
- the truncation search;
- the non-Hankel kernel cache with its `size_t` gather indices;
- the packed triangle index of the Hankel branch.

Floating-point values are modelled as `real` and complex values as pairs of reals (`Complex`,
`complex.dfy`). The routines the class calls are supplied as opaque functions in a `Numerics`
value: the w phase term, the FFTs, the Hankel transform and the radial interpolation.

**Configuration records** (`ImagingTypes`, `types.dfy`) are the `ImagerPars`,
`W_ProjectionPars` and `A_ProjectionPars` structs of `src/stp/types.h`, with their
constructors, defaults and `isEnabled`.

`Wrappers` (`wrappers.dfy`) holds the option and outcome types. `IntArith` (`arith.dfy`)
holds C-style remainder and small arithmetic lemmas.

## Model

| member | source | states |
|---|---|---|
| ConvolutionGridding.HalfShift | src/benchmark/gridder_convolution_benchmark.cpp:69-76 | the shift keeps a value of `[0, 2*offset)` in that range and swaps its two halves: the result is in the lower half exactly when the value was in the upper half |
| ConvolutionGridding.HalfShiftStaysOnGrid | src/benchmark/gridder_convolution_benchmark.cpp:69-76 | a kernel centre in `[0, image_size)` is still in `[0, image_size)` after the half shift, for every image size |
| ConvolutionGridding.HalfShiftIsFftShift | src/benchmark/gridder_convolution_benchmark.cpp:69-76 | for an even image size the half shift is the cyclic shift `(v + image_size/2) mod image_size`, and applying it twice gives back the centre |
| ConvolutionGridding.ShiftCentres | src/benchmark/gridder_convolution_benchmark.cpp:69-76 | the `for_each` replaces every entry of the centre matrix by its half shift with offset `image_size/2`, in place |
| ConvolutionGridding.ConvCol | src/benchmark/gridder_convolution_benchmark.cpp:96-98 | for a non-negative dividend, `conv_col` lies in `[-support, support]` and is congruent to the dividend modulo `kernel_size` |
| ConvolutionGridding.WindowResidueUnique | src/benchmark/gridder_convolution_benchmark.cpp:99-103 | two columns of one kernel window with the same residue modulo `kernel_size` are the same column |
| ConvolutionGridding.ConvColResidue | src/benchmark/gridder_convolution_benchmark.cpp:96-103 | the column `centre - conv_col` lies in the window and `grid_col mod kernel_size == b` (the assertion at line 103) |
| ConvolutionGridding.OnlyWorkerColumn | src/benchmark/gridder_convolution_benchmark.cpp:96-103 | the column worker `b` picks is the only column of the window congruent to `b` |
| ConvolutionGridding.DirectPlacement | src/benchmark/gridder_convolution_benchmark.cpp:96-100 | a first placement passes the bounds check only on the grid, at `grid_col = gc_x - conv_col`; for a centre at or right of column 0 and a worker `b < kernel_size`, `abs(conv_col) <= support` |
| ConvolutionGridding.DirectPlacementSound | src/benchmark/gridder_convolution_benchmark.cpp:96-104 | the first placement, when it passes the bounds check, is an on-grid window column congruent to `b` with `abs(conv_col) <= support`; it fails only when no such column is on the grid |
| ConvolutionGridding.RetryPlacement | src/benchmark/gridder_convolution_benchmark.cpp:118-134 | a second placement exists only for a border centre, is on the grid, sits at the wrapped centre minus `conv_col`, and for an on-grid centre and a worker `b < kernel_size` has `abs(conv_col) <= support` |
| ConvolutionGridding.PlacementDividendsNonNegative | src/benchmark/gridder_convolution_benchmark.cpp:96-129 | for an on-grid centre and a worker `b < kernel_size`, the unsigned dividends `gc_x - b + kernel_size`, `gc_x - image_size - b + 2*kernel_size` (right border) and `gc_x + image_size - b + kernel_size` are positive, so no `size_t` wrap reaches the remainder |
| ConvolutionGridding.RetryPlacementSound | src/benchmark/gridder_convolution_benchmark.cpp:118-136 | a second placement exists only for a border centre; it is an on-grid column congruent to `b` in the window around the centre moved by `-image_size` or `+image_size`; a border centre gets none only when that window has no such column on the grid |
| ConvolutionGridding.DirectCoversWindow | src/benchmark/gridder_convolution_benchmark.cpp:86-100 | full footprint: every on-grid column of the window is the first placement of exactly worker `col mod kernel_size`, at offset `gc_x - col` |
| ConvolutionGridding.RetryCoversWindow | src/benchmark/gridder_convolution_benchmark.cpp:118-136 | for a border centre, every on-grid column of the wrapped window is the second placement of worker `col mod kernel_size` |
| ConvolutionGridding.GridRow | src/benchmark/gridder_convolution_benchmark.cpp:108-112 | the once-corrected row lies in `[0, image_size)` and equals `(gc_y - support + i) mod image_size` |
| ConvolutionGridding.PeriodicRow | src/benchmark/gridder_convolution_benchmark.cpp:108-112 | a row less than one image width off the grid is brought back to its periodic row by one correction |
| ConvolutionGridding.ColumnDeltaStep | src/benchmark/gridder_convolution_benchmark.cpp:106-115 | one more kernel row adds its kernel value at the wrapped row of the placement's column and nothing elsewhere |
| ConvolutionGridding.SampleStaysInResidueClass | src/benchmark/gridder_convolution_benchmark.cpp:96-149 | for one visibility, worker `b` adds nothing to a column not congruent to `b` |
| ConvolutionGridding.WorkerStaysInResidueClass | src/benchmark/gridder_convolution_benchmark.cpp:88-151 | over all visibilities, worker `b` adds nothing to either grid in a column not congruent to `b` |
| ConvolutionGridding.OneWorkerPerColumn | src/benchmark/gridder_convolution_benchmark.cpp:86-152 | disjointness of the parallel writes: the sampling-grid increment of workers `0 .. nb-1` at a cell is that of worker `c mod kernel_size` if it is among them, and zero otherwise |
| ConvolutionGridding.OneWorkerPerColumnVis | src/benchmark/gridder_convolution_benchmark.cpp:86-152 | the same disjointness for the visibility grid |
| ConvolutionGridding.DirectWeightAt | src/benchmark/gridder_convolution_benchmark.cpp:100-115 | what the first placement adds in column `c`: the kernel column at offset `c - gc_x` down the wrapped rows if `c` is in the window, nothing otherwise |
| ConvolutionGridding.RetryWeightAt | src/benchmark/gridder_convolution_benchmark.cpp:118-149 | what the second placement adds in column `c`: the kernel column at its offset from the wrapped centre for a border centre whose wrapped window holds `c`, nothing otherwise |
| ConvolutionGridding.PeriodicWeight | src/benchmark/gridder_convolution_benchmark.cpp:96-136 | the periodic-convolution reference the workers are proved against: a column whose wrapped distance `(c - gc_x + support) mod image_size` from the window's left edge is not a kernel column receives no weight |
| ConvolutionGridding.SampleWeightIsPeriodic | src/benchmark/gridder_convolution_benchmark.cpp:96-149 | when `kernel_size <= image_size`, the two placements of worker `c mod kernel_size` put exactly the periodic-convolution weight into column `c` |
| ConvolutionGridding.WorkerIsPeriodic | src/benchmark/gridder_convolution_benchmark.cpp:88-151 | worker `c mod kernel_size` alone produces the periodic gridding of column `c` in both grids |
| ConvolutionGridding.StepIsPeriodic | src/benchmark/gridder_convolution_benchmark.cpp:86-152 | after all `kernel_size` workers, each cell of both grids holds its periodic-convolution value |
| ConvolutionGridding.GridIsPeriodic | src/benchmark/gridder_convolution_benchmark.cpp:86-152 | the same for every cell of the grid at once |
| ConvolutionGridding.AddKernelColumn | src/benchmark/gridder_convolution_benchmark.cpp:106-115 | the inner loop adds `k` to the sampling grid and `vis * k` to the visibility grid at the same cells, the wrapped rows of the placement's column; other cells are unchanged |
| ConvolutionGridding.AddPlacement | src/benchmark/gridder_convolution_benchmark.cpp:100-116 | a placement that passed the bounds check adds its column; an absent one changes nothing |
| ConvolutionGridding.GridSample | src/benchmark/gridder_convolution_benchmark.cpp:90-150 | one visibility as seen by worker `b` adds its first and (for border centres) second placement to both grids in step |
| ConvolutionGridding.SampleAt | src/benchmark/gridder_convolution_benchmark.cpp:89-94 | what a worker reads for visibility `val`: its centre, its oversampled offset and its value |
| ConvolutionGridding.Samples | src/benchmark/gridder_convolution_benchmark.cpp:88-94 | the good visibilities in visiting order, one per good index |
| ConvolutionGridding.SamplesOnGrid | src/benchmark/gridder_convolution_benchmark.cpp:88-91 | every good visibility's centre is on the grid |
| ConvolutionGridding.WorkerVisit | src/benchmark/gridder_convolution_benchmark.cpp:88-151 | one pass of a worker's loop extends the grids by that visibility's increments |
| ConvolutionGridding.Worker | src/benchmark/gridder_convolution_benchmark.cpp:88-151 | worker `b` adds exactly its increments over all good visibilities to both grids |
| ConvolutionGridding.StepVisit | src/benchmark/gridder_convolution_benchmark.cpp:86-152 | one worker of the `parallel_for` moves both grids from the increments of workers `0 .. b-1` to those of `0 .. b` |
| ConvolutionGridding.GridStep | src/benchmark/gridder_convolution_benchmark.cpp:86-152 | the `parallel_for` run sequentially adds the increments of all `kernel_size` workers to both grids |
| ConvolutionGridding.GridFromZero | src/benchmark/gridder_convolution_benchmark.cpp:65-66 | on two zero grids the workers leave exactly their increments |
| ConvolutionGridding.GridVisibilities | src/benchmark/gridder_convolution_benchmark.cpp:62-152 | the centres are half-shifted in place, both grids are fresh `image_size`-square, and every cell holds the workers' increments, which is the periodic-convolution value when `kernel_size <= image_size` |
| AwKernelLayout.CSumSplit | src/stp/gridder/aw_projection.cpp:186-192 | a column sum splits at any midpoint |
| AwKernelLayout.CSumReverse | src/stp/gridder/aw_projection.cpp:166-168 | summing a mirrored sequence is summing over the mirrored range |
| AwKernelLayout.CSumScale | src/stp/gridder/aw_projection.cpp:159-161 | summing doubled values is doubling the sum |
| AwKernelLayout.Combine | src/stp/gridder/aw_projection.cpp:455-474 | `combine_2d_kernel_value` is zero wherever either anti-aliasing factor is, and has an imaginary part only inside the unit circle, where the w phase term applies |
| AwKernelLayout.CombineSymmetric | src/stp/gridder/aw_projection.cpp:455-474 | `combine_2d_kernel_value` is symmetric in its two pixel offsets |
| AwKernelLayout.FoldMirror | src/stp/gridder/aw_projection.cpp:79-108 | mirroring an index stays in the array and carries the same kernel offset, which is below `half` |
| AwKernelLayout.FoldInverse | src/stp/gridder/aw_projection.cpp:79-108 | only index `i` and its mirror `arr - i` carry offset `i`, and only index 0 carries offset 0 |
| AwKernelLayout.ImageDomainEntry | src/stp/gridder/aw_projection.cpp:79-108 | the image-domain kernel in the FFT layout: zero at every index that carries no offset, and `combine_2d_kernel_value` of the two folded offsets at every other cell except the centre `(0,0)` |
| AwKernelLayout.ImageDomainMirror | src/stp/gridder/aw_projection.cpp:79-108 | four-fold mirror symmetry: mirroring the row or the column leaves the image-domain kernel unchanged |
| AwKernelLayout.ImageDomainTranspose | src/stp/gridder/aw_projection.cpp:79-108 | the image-domain kernel is symmetric under transposition |
| AwKernelLayout.ImageDomainWrites | src/stp/gridder/aw_projection.cpp:79-108 | `f(i,j)` is at `(i,j)`, `(arr-i,j)`, `(i,arr-j)` and `(arr-i,arr-j)`; `f(i,0)` is at `(i,0)`, `(arr-i,0)`, `(0,i)` and `(0,arr-i)`; the centre is at `(0,0)`; every one of these indices is below `arr` |
| AwKernelLayout.PartialEntryComplete | src/stp/gridder/aw_projection.cpp:79-108 | once all lines, the point and all square columns are written, the matrix is the image-domain kernel |
| AwKernelLayout.PartialEntryLine | src/stp/gridder/aw_projection.cpp:79-87 | line `i` fills exactly its four line cells |
| AwKernelLayout.PartialEntryPoint | src/stp/gridder/aw_projection.cpp:89-93 | the point fills exactly `(0,0)` |
| AwKernelLayout.PartialEntrySquare | src/stp/gridder/aw_projection.cpp:96-108 | square `(i,j)` fills exactly its four cells |
| AwKernelLayout.PartialEntryNextColumn | src/stp/gridder/aw_projection.cpp:96-108 | a column of squares is complete once its rows below `half` are in |
| AwKernelLayout.ProjectedEntry | src/stp/gridder/aw_projection.cpp:137-168 | the projected kernel entry by entry; zero at every index that carries no offset (its column sums are `ProjectedIsColumnSum`) |
| AwKernelLayout.ProjectedMirror | src/stp/gridder/aw_projection.cpp:166-168 | the projected kernel is mirror-symmetric |
| AwKernelLayout.ColumnDirectRows | src/stp/gridder/aw_projection.cpp:186-192 | rows `1 .. half-1` of a kernel column hold the values of its offset |
| AwKernelLayout.ColumnMiddleRows | src/stp/gridder/aw_projection.cpp:186-192 | rows `half .. arr-half` of every column are zero |
| AwKernelLayout.ColumnMirroredRows | src/stp/gridder/aw_projection.cpp:186-192 | rows `arr-half+1 .. arr-1` repeat rows `half-1 .. 1` |
| AwKernelLayout.ColumnSumParts | src/stp/gridder/aw_projection.cpp:186-192 | a column sums to its centre-row value plus twice its offset's square values |
| AwKernelLayout.ProjectedIsColumnSum | src/stp/gridder/aw_projection.cpp:113-192 | the projected kernel of `generate_projected_image_domain_kernel` equals the image-domain kernel summed down each column |
| AwKernelLayout.LineSum | src/stp/gridder/aw_projection.cpp:150 | `arma::sum` of the vector holding only the line values is the sum of those values |
| AwKernelLayout.LinePrefixSum | src/stp/gridder/aw_projection.cpp:150 | its prefixes sum to the line values below `min(n, half)` |
| AwKernelLayout.Unfold | src/stp/gridder/aw_projection.cpp:316-345 | a band index is paired with an A-kernel index in `[0, 2*half)`, in the lower half exactly when the band index is in the upper band |
| AwKernelLayout.AprojEntry | src/stp/gridder/aw_projection.cpp:316-345 | a cell of the A-projection product is zero outside the band in either direction and wherever the combined kernel is zero |
| AwKernelLayout.UnfoldIsShift | src/stp/gridder/aw_projection.cpp:318-345 | the A-kernel index paired with a band index is the cyclic shift by `half` and lies inside the `kernel_size` A-kernel |
| AwKernelLayout.AprojIsShiftedProduct | src/stp/gridder/aw_projection.cpp:316-345 | on the image-domain kernel, the band product is the pointwise product with the A-kernel shifted cyclically by `half` |
| AwKernelLayout.TruncAt | src/stp/gridder/aw_projection.cpp:177-179 | `trunc_at` is positive exactly when the percentage is, and is then the percentage over 100 |
| AwKernelLayout.TruncationStart | src/stp/gridder/aw_projection.cpp:200 | the search starts at `min(max_wpconv_support*oversampling, array_size/2)` |
| AwKernelLayout.StepCorrected | src/stp/gridder/aw_projection.cpp:206 | the corrected step strictly decreases a positive index and is either zero or one stride lower |
| AwKernelLayout.CorrectedAgreesOnMultiples | src/stp/gridder/aw_projection.cpp:202-207 | from a multiple of the oversampling, the corrected search visits the same indices as the code as written, `start - n*oversampling` |
| AwKernelLayout.VisitCorrectedBounded | src/stp/gridder/aw_projection.cpp:202-207 | the corrected search never leaves `[0, start]` |
| AwKernelLayout.TruncationStop | src/stp/gridder/aw_projection.cpp:202-207 | the search stops at or below its start, at zero or at an index whose magnitude exceeds the threshold |
| AwKernelLayout.TruncationStopPassesOnlySmall | src/stp/gridder/aw_projection.cpp:202-207 | every stride index above the stop is at or below the threshold |
| AwKernelLayout.TruncationStopOnStride | src/stp/gridder/aw_projection.cpp:202-207 | the stop is zero or a whole number of strides below the start |
| AwKernelLayout.StepAsWritten | src/stp/gridder/aw_projection.cpp:202-207 | the `uint` decrement always holds a 32-bit value: the difference when it is not negative, and the difference plus 2^32 when it is |
| AwKernelLayout.VisitAsWritten | src/stp/gridder/aw_projection.cpp:202-207 | after at least one step (or from a 32-bit start) the index the search holds is below 2^32 |
| AwKernelLayout.VisitAsWrittenDescends | src/stp/gridder/aw_projection.cpp:202-207 | as written, the `uint` search steps down exactly while a whole stride remains |
| AwKernelLayout.TruncationWrapsAsWritten | src/stp/gridder/aw_projection.cpp:200-207 | from a start that is not a multiple of the oversampling, the search as written reaches the positive remainder and then wraps to an index past the array |
| AwKernelLayout.TruncationWrapExample | src/stp/gridder/aw_projection.cpp:200-207 | kernel size 7, oversampling 2, maximum support 5: the search visits 7, 5, 3, 1, then 4294967295 |
| AwKernelLayout.Wrap64 | src/stp/gridder/aw_projection.cpp:418-432 | `size_t` results lie below 2^64 and agree with the integer value when it is in range |
| AwKernelLayout.Wrap64Add | src/stp/gridder/aw_projection.cpp:424-432 | wrapping an intermediate result does not change a wrapped sum |
| AwKernelLayout.GatherIndex | src/stp/gridder/aw_projection.cpp:429-432 | every gather index `(start + array_size/2) mod array_size` is below `array_size` |
| AwKernelLayout.GatherIndexIsPeriodic | src/stp/gridder/aw_projection.cpp:418-432 | without unsigned underflow, tap `t` of entry `z` reads `((t - support)*oversampling + oversampling/2 - z) mod array_size`: whole pixels and sub-pixel steps from the kernel centre |
| AwKernelLayout.GatherStartFirst | src/stp/gridder/aw_projection.cpp:418-425 | the first running start `oversamp_conv - x` is the start of tap 0 |
| AwKernelLayout.GatherStartNext | src/stp/gridder/aw_projection.cpp:427-430 | adding `oversampling` to the running start moves to the next tap |
| AwKernelLayout.GatherFromStart | src/stp/gridder/aw_projection.cpp:429-432 | the index read from the running start is the gather index |
| AwKernelLayout.CacheCentreTap | src/stp/gridder/aw_projection.cpp:418-433 | the centre tap of the centre cache entry reads the kernel centre, index 0 |
| AwKernelLayout.CacheSize | src/stp/gridder/aw_projection.cpp:372-373 | the cache has an odd number `2*(oversampling/2)+1` of sub-pixel offsets per direction |
| AwKernelLayout.PackedIndex | src/stp/gridder/aw_projection.cpp:397-403 | `vec_idx` is the start of the row of the smaller distance plus the larger distance |
| AwKernelLayout.PackedIndexSymmetric | src/stp/gridder/aw_projection.cpp:397-403 | swapping `dcx` and `dcy` gives the same `vec_idx` |
| AwKernelLayout.RowStartStep | src/stp/gridder/aw_projection.cpp:400-402 | consecutive rows of the packed triangle start `rowLength - (m+1)` apart |
| AwKernelLayout.RowStartMonotone | src/stp/gridder/aw_projection.cpp:400-402 | every index of a later row lies past the end of an earlier row |
| AwKernelLayout.PackedIndexInjective | src/stp/gridder/aw_projection.cpp:397-403 | distinct unordered pairs of distances below the row length get distinct `vec_idx` |
| AwKernelLayout.ValidateArraySize | src/stp/gridder/aw_projection.cpp:28-30 | the size check passes exactly when `kernel_size * oversampling` is even |
| AwKernelLayout.ArraySizeOddIffBothOdd | src/stp/gridder/aw_projection.cpp:28-30 | the constructor rejects exactly the sizes where kernel size and oversampling are both odd |
| AwProjection.SnapshotIs | src/stp/gridder/aw_projection.cpp:194 | an array holding the entries of a matrix has that matrix as the contents passed to the FFT |
| AwProjection.ImageDomainMatrix | src/stp/gridder/aw_projection.cpp:76-110 | the image-domain kernel is an `array_size`-square matrix |
| AwProjection.ProjectedVector | src/stp/gridder/aw_projection.cpp:137-170 | the projected kernel has `array_size` entries |
| AwProjection.LineStage | src/stp/gridder/aw_projection.cpp:137-145 | the vector after the line loop has `array_size` entries |
| AwProjection.ProjectedVectorSymmetric | src/stp/gridder/aw_projection.cpp:166-168 | the projected kernel satisfies `out[arr-i] == out[i]` for `1 <= i < half` |
| AwProjection.DirectPartAgrees | src/stp/gridder/aw_projection.cpp:147-164 | a vector holding the projected entries below `half` and zero above agrees with the projected kernel up to `arr - half` |
| AwProjection.HankelRadiusPoints | src/stp/gridder/aw_projection.cpp:477-485 | `generate_hankel_radius_points(n)` returns the `n` radii `0, 1, .., n-1` |
| AwProjection.WriteLine | src/stp/gridder/aw_projection.cpp:81-85 | a line value is written to its four line cells and no other cell |
| AwProjection.WriteSquare | src/stp/gridder/aw_projection.cpp:101-105 | a square value is written to its four square cells and no other cell |
| AwProjection.ColumnSums | src/stp/gridder/aw_projection.cpp:186-192 | the column-sum loop over the image-domain kernel returns the projected kernel |
| AwProjection.ProjectedLines | src/stp/gridder/aw_projection.cpp:139-145 | the line loop on a zero vector leaves `f(i,0)` at `1 <= i < half` and zero elsewhere |
| AwProjection.ProjectedPoint | src/stp/gridder/aw_projection.cpp:147-152 | index 0 becomes twice the sum of the vector plus the centre value; the rest is unchanged |
| AwProjection.ProjectedSquares | src/stp/gridder/aw_projection.cpp:154-164 | the square loops leave every index below `half` holding its projected entry; index 0 and the rest are unchanged |
| AwProjection.ProjectedColumn | src/stp/gridder/aw_projection.cpp:159-162 | the inner loop adds column `j`'s doubled squares into index `j` only |
| AwProjection.ProjectedMirrorFill | src/stp/gridder/aw_projection.cpp:166-168 | the final loop completes a vector agreeing with a mirror-symmetric target below `arr-half` into the whole target |
| AwProjection.ProjectedKernel | src/stp/gridder/aw_projection.cpp:137-170 | `generate_projected_image_domain_kernel` returns exactly the projected kernel |
| AwProjection.ProjectedDirect | src/stp/gridder/aw_projection.cpp:147-164 | the point and square stages leave the vector agreeing with the projected kernel up to `arr - half` |
| AwProjection.ImageDomainKernel | src/stp/gridder/aw_projection.cpp:76-108 | a fresh `array_size`-square matrix holding the image-domain kernel at every cell |
| AwProjection.ImageDomainLines | src/stp/gridder/aw_projection.cpp:78-93 | the line loop and the point leave the lines and the centre, and zero elsewhere |
| AwProjection.ImageDomainSquares | src/stp/gridder/aw_projection.cpp:95-108 | the square loops add every square to its four cells |
| AwProjection.TruncationSearch | src/stp/gridder/aw_projection.cpp:200-207 | the loop ends exactly where the corrected search stops |
| AwProjection.WideFieldImaging.ArrayHoldsKernel | src/stp/gridder/aw_projection.cpp:28 | with at least one sample per pixel, `array_size >= kernel_size >= 2*half` |
| AwProjection.WideFieldImaging.constructor | src/stp/gridder/aw_projection.cpp:19-46 | fields copied; `array_size = kernel_size * oversampling`; the Hankel sizes and radius points when `hankel_opt` is set; `FFTW_ESTIMATE_FFT` below 4; both supports equal `max_wpconv_support` |
| AwProjection.WideFieldImaging.GenerateImageDomainConvolutionKernel | src/stp/gridder/aw_projection.cpp:50-111 | sets `w_value` and replaces `comb_kernel` by a fresh matrix holding the image-domain kernel; the other fields are unchanged |
| AwProjection.WideFieldImaging.GenerateProjectedImageDomainKernel | src/stp/gridder/aw_projection.cpp:113-171 | sets `w_value` and returns the projected kernel; the other fields are unchanged |
| AwProjection.WideFieldImaging.TruncateConvKernel | src/stp/gridder/aw_projection.cpp:198-209 | sets `truncated_wpconv_support` to the corrected stop in whole pixels, capped at `max_wpconv_support`, so it never exceeds it |
| AwProjection.WideFieldImaging.TruncatedSupport | src/stp/gridder/aw_projection.cpp:198-209 | the truncated support, from the corrected search, never exceeds `max_wpconv_support`, and that many whole pixels of oversampled steps do not pass the search's start |
| AwProjection.WideFieldImaging.GenerateConvolutionKernelWproj | src/stp/gridder/aw_projection.cpp:173-288 | without Hankel: `conv_kernel` is the FFT of the image-domain kernel, `comb_kernel` is released, and the support is truncated exactly when `trunc_at > 0`, to the corrected search's value (`TruncatedSupport`, see "## Findings"); with Hankel: the half quadrant is the radial interpolation of the projected kernel's 1-D FFT (projection slice) or of the Hankel transform |
| AwProjection.WideFieldImaging.AprojProduct | src/stp/gridder/aw_projection.cpp:316-345 | the A-projection product is an `array_size`-square matrix |
| AwProjection.WideFieldImaging.MultiplyColumn | src/stp/gridder/aw_projection.cpp:323-329 | column `j` of the buffer gets the product in its two row bands; every other cell is unchanged |
| AwProjection.WideFieldImaging.MultiplyRows | src/stp/gridder/aw_projection.cpp:324-329 | one row band of column `j` gets the product; every other cell is unchanged |
| AwProjection.WideFieldImaging.MultiplyByAKernel | src/stp/gridder/aw_projection.cpp:316-345 | the two column loops leave, in a freshly allocated matrix, the combined kernel times the re-centred A-kernel in the band and zero elsewhere |
| AwProjection.WideFieldImaging.GenerateConvolutionKernelAproj | src/stp/gridder/aw_projection.cpp:290-364 | fails with the source's message exactly when `hankel_opt` is set; otherwise `conv_kernel` is the FFT of the A-projection product, truncated exactly when `trunc_at > 0`, to the corrected search's value (`TruncatedSupport`, see "## Findings") |
| AwProjection.WideFieldImaging.Gather | src/stp/gridder/aw_projection.cpp:429-432 | every row and column the cache reads is inside `conv_kernel` |
| AwProjection.WideFieldImaging.FillCacheEntry | src/stp/gridder/aw_projection.cpp:427-438 | the two inner loops leave tap `(tx, ty)` holding `conv_kernel` at row `Gather(x, ty)` and column `Gather(y, tx)` |
| AwProjection.WideFieldImaging.FillCacheTaps | src/stp/gridder/aw_projection.cpp:430-435 | the innermost loop fills column `ty` of the buffer; every other column is unchanged |
| AwProjection.WideFieldImaging.BufferIsCacheEntry | src/stp/gridder/aw_projection.cpp:433-441 | a buffer holding the gathered taps, copied out, is the cache entry |
| AwProjection.WideFieldImaging.GenerateKernelCache | src/stp/gridder/aw_projection.cpp:366-451 | non-Hankel branch: a freshly allocated `(2*(oversampling/2)+1)`-square cache whose entry `(y, x)` gathers the `(2*support+1)`-square taps of `conv_kernel` |
| AwProjection.NewWideFieldImaging | src/stp/gridder/aw_projection.cpp:19-46 | fails with the source's message exactly when `kernel_size * oversampling` is odd; otherwise builds a valid object with both supports equal to `max_wpconv_support` and `FFTW_ESTIMATE_FFT` below size 4 |
| IntArith.CRem | src/benchmark/gridder_convolution_benchmark.cpp:96-98 | the remainder of `conv_col`, which the source takes in `size_t` (`r.begin()` is unsigned); its dividend is non-negative for every on-grid centre (`PlacementDividendsNonNegative`), and there the remainder equals Dafny's `%`; the branch for a negative dividend stands for nothing in this source |
| ImagingTypes.PaddedSize | src/stp/types.h:157 | the `uint` conversion of `image_size * padding_factor` truncates: it is the largest integer not above the product |
| ImagingTypes.DefaultImagerPars | src/stp/types.h:98-113 | the default settings: empty image, no oversampling, PSWF kernel of support 0, exact kernel, padding 1, estimate FFT |
| ImagingTypes.NewImagerPars | src/stp/types.h:132-158 | every field is the argument given, and the padded size is the truncated product |
| ImagingTypes.ImagerParsDefaults | src/stp/types.h:132-143 | omitted arguments default to padding 1.0 (so the padded size is the image size), PSWF, support 3, exact kernel, oversampling 1, no beam, gridding correction, analytic GCF and the estimate FFT |
| ImagingTypes.ImagerDefaultsDiffer | src/stp/types.h:98-143 | the default constructor and the parameterised one with zero size differ in kernel support, oversampling, gridding correction and analytic GCF |
| ImagingTypes.DefaultWProjectionPars | src/stp/types.h:183-193 | default W-projection settings are disabled, with undersampling 1, truncation 0 and no Hankel options |
| ImagingTypes.NewWProjectionPars | src/stp/types.h:209-239 | every field is the argument given, and the settings are enabled exactly when `num_wplanes > 0` |
| ImagingTypes.WProjectionPars.IsEnabled | src/stp/types.h:233-239 | W-projection is on exactly when the number of w-planes is positive (a definition; its relation to the constructors is in the rows around it) |
| ImagingTypes.WProjectionDefaultIsDisabled | src/stp/types.h:183-239 | the default settings are the parameterised ones with zero planes and support; enabled exactly when `num_wplanes != 0` |
| ImagingTypes.DefaultAProjectionPars | src/stp/types.h:259-266 | default A-projection settings are disabled, without the optimisation and with mask percentage 0 |
| ImagingTypes.NewAProjectionPars | src/stp/types.h:279-307 | every field is the argument given, and the settings are enabled exactly when `num_timesteps > 0` |
| ImagingTypes.AProjectionPars.IsEnabled | src/stp/types.h:301-307 | A-projection is on exactly when the number of time steps is positive (a definition; its relation to the constructors is in the rows around it) |
| ImagingTypes.AProjectionDefaultIsDisabled | src/stp/types.h:259-307 | the default settings are the parameterised ones with zero time steps; enabled exactly when `num_timesteps != 0` |

## Left out

- Floating-point arithmetic: doubles and floats are `real`, and complex values are pairs of reals. Rounding, `rint` and the `uv_frac` offsets are not modelled.
- `combine_2d_kernel_value`'s complex exponential is a caller-supplied phase function of `(r^2, w)`. The function's branch on `r^2 >= 1` and its products with the anti-aliasing kernel are modelled.
- `fft_fftw_c2c`, `fft_fftw_dft_c2c_1d` and `RadialInterpolate` are foreign or unseen code. They are opaque functions; the 2-D FFT is only assumed to keep the matrix square.
- `dht`, `besselj1` and the Hankel accumulation loop (src/stp/gridder/aw_projection.cpp:222-260) are numeric. The Hankel-transformed radius vector is an opaque function of the kernel inputs.
- `parangle` is floating-point trigonometry with no index logic.
- Kernel normalisation by `kernel_sum` in `generate_kernel_cache` is numeric. Cache entries are stated before the division.
- The Hankel branch of `generate_kernel_cache` (src/stp/gridder/aw_projection.cpp:378-414) is modelled only through `PackedIndex`. Its offsets come from unsigned wrap-around converted to `int`, which is implementation-defined.
- TBB `parallel_for` is run sequentially, one worker or row range after another. Disjointness of the workers' writes is proved instead (`OneWorkerPerColumn`). The reliance on each `blocked_range` holding one element is not modelled: worker `b` is given as a number.
- `bounds_check_kernel_centre_locations`, `populate_kernel_cache` and `calculate_oversampled_kernel_indices` are not part of this model. The good indices, the centres on the grid, the oversampled offsets and the kernel cache are inputs.
- The benchmark harness (data loading, `state.KeepRunning`, `ClobberMemory`) is not modelled. One iteration of the loop is.
- STPLIB_DEBUG logging is not modelled.
- Armadillo matrices are taken to start zero-filled, as the accumulations rely on.
- The `assert`s on `comb_kernel` being non-empty and on the A-kernel column count (src/stp/gridder/aw_projection.cpp:292, 302) become size preconditions of `GenerateConvolutionKernelAproj`.
- AwProjection.WideFieldImaging.constructor: without `hankel_opt` the model sets `max_hankel_kernel_size` to zero, a field the source constructor leaves unassigned in that case (src/stp/gridder/aw_projection.cpp:19-46); nothing reads it then.
- GenerateImageDomainConvolutionKernel: the `assert(!wp.hankel_opt)` at src/stp/gridder/aw_projection.cpp:69 is a precondition.
- ConvolutionGridding.Worker: takes the visibility sequence as a ghost parameter equal to `Samples(...)`. It reads the same arrays as the source; the parameter only names what it reads.
- ConvolutionGridding.GridVisibilities: requires `support < image_size` and on-grid centres for the good visibilities. The source guarantees these with `bounds_check_kernel_centre_locations`, which is not shown.
- ImagingTypes.PaddedSize: requires a non-negative padding factor and does not model `uint` overflow of the product.
- IntArith.CRem: its negative-dividend branch (the signed remainder) is not the `size_t` remainder of the gridding loop, which would wrap a negative dividend to 2^64 plus it; no dividend there is negative for an on-grid centre, so that wrap is not modelled.
- Machine widths are modelled only where they matter: `uint` wrap in the truncation search (`StepAsWritten`), and `size_t` wrap in the cache gather (`Wrap64`). Elsewhere integers are unbounded.
- Enumerations of src/stp/types.h not read by this core (median methods, Ceres options) are plain datatypes with no operations.
- src/stp/sourcefind is not part of this model. Its header declares functions whose bodies are not available.

## Findings

| source | as written | input that shows it | evidently intended | confidence | as-written member | corrected member |
|---|---|---|---|---|---|---|
| src/stp/gridder/aw_projection.cpp:200-207 (and the same loop at 354-361) | `uint i` starts at `min(max_wpconv_support*oversampling, array_size/2)` and is decremented by `oversampling` while `i > 0`. When the start is not a multiple of `oversampling`, `i` goes below zero, wraps to a huge value, and `conv_kernel.at(i, 0)` reads far outside the kernel | `kernel_size` 7, `oversampling` 2, `max_wpconv_support` 5, a positive `kernel_trunc_perc`, no column value above the threshold: the start is `min(10, 7) = 7`, the search visits 7, 5, 3, 1 and then 4294967295 | the search stops at zero (a saturating step). It then visits the same indices whenever the start is a multiple of the oversampling, and never leaves `[0, start]` | not executed | AwKernelLayout.TruncationWrapsAsWritten, AwKernelLayout.TruncationWrapExample | AwKernelLayout.StepCorrected, AwKernelLayout.CorrectedAgreesOnMultiples, AwProjection.TruncationSearch, AwProjection.WideFieldImaging.TruncateConvKernel |
