# Phase-quality map of a wrapped phase image

This project models the phase-quality routine of the phase-unwrapping
benchmark in `phase_unwrapping/c/main_parallel.c`, together with the four
helpers it is built from. A wrapped phase image is a dense grid of
`numRows x numCols` angles stored row-major in one flat buffer. The
routine's steps are:

1. Compute the wrapped first differences of the image down the rows and
   across the columns, each into its own zero-initialised buffer
   (`wrapped_diff`).
2. For every pixel at least `radius` away from every edge:
   - copy a `(2*radius+1) x (2*radius+1)` window of each difference buffer
     into scratch storage (`extract_subregion`);
   - take the population standard deviation of each window
     (`standard_deviation`);
   - store the sum of the two standard deviations in the quality buffer.

All 2-D addressing goes through `sub2ind`, which computes `row * numCols + col`.
`standard_deviation` reads its flat input buffer directly by position.

The model is imperative, like the C code:
- The buffers are `array<real>`, and every C loop is a `while` loop with
  invariants.
- Each method is proved against a specification function over the
  buffer's contents:
  - `Subregion.Window` for `extract_subregion`;
  - `PhaseDiff.DiffField` for `wrapped_diff`;
  - `Statistics.StdDev` for `standard_deviation`;
  - `PhaseQuality.QualityMap` for `calculate_phase_quality`.
- The lemmas state what those functions mean cell by cell: what each cell
  holds, which cells keep their old value, and how the functions relate to
  one another.
- The C library's `atan2(sin d, cos d)` and `sqrt` are not modelled. They
  are the function-valued parameters `wrap: real -> real` and
  `sqrt: real -> real`.

Modules:
- `Grid`: `sub2ind` (`Sub2Ind`), its inverse (`Ind2Row`, `Ind2Col`) and
  the accessor `At`.
- `Statistics`: `standard_deviation`.
- `Subregion`: `extract_subregion`.
- `PhaseDiff`: `wrapped_diff`.
- `PhaseQuality`: `calculate_phase_quality`.

Where the code and its accompanying description differ, the model follows
the code:
- The code validates nothing: not the radius, not the dimensions, not
  `DIM`, not an empty window. The model leaves `DIM` free (any value other
  than 1 and 2 writes nothing), and it needs the buffers to have the sizes
  the code indexes. It does put these conditions on its inputs, each listed
  again under "Left out":
  - `StandardDeviation` requires `1 <= LENGTH`;
  - `ExtractSubregion` requires the window to lie inside the source and
    DEST to differ from SOURCE;
  - `WrappedDiff` requires OUTPUT to differ from INPUT;
  - `CalculatePhaseQuality` takes the radius and both dimensions as
    naturals.
- Border pixels of the quality buffer are never written, so they keep
  whatever value the caller left there. The model does not zero them.
- The windows of pixels next to the bottom or right border include the
  last row (or column) of the difference buffer. `wrapped_diff` never
  writes that row or column, so it still holds the zero from `calloc`.

## Model

| member | source | states |
|---|---|---|
| Grid.Sub2Ind | phase_unwrapping/c/main_parallel.c:321-344 | for a column in [0, C), the linear index lies in its row's stripe [row*C, row*C+C) |
| Grid.RowMajorOrder | phase_unwrapping/c/main_parallel.c:342 | a cell in an earlier row gets a smaller linear index than any cell in a later row |
| Grid.Sub2IndInRange | phase_unwrapping/c/main_parallel.c:342 | for 0 <= row < R and 0 <= col < C the linear index row*C+col lies in [0, R*C) |
| Grid.Sub2IndInjective | phase_unwrapping/c/main_parallel.c:342 | two cells with columns in [0, C) get the same linear index if and only if they are the same cell |
| Grid.Sub2IndRoundTrip | phase_unwrapping/c/main_parallel.c:342 | dividing the index by C gives back the row, and the remainder gives back the column |
| Grid.Ind2SubRoundTrip | phase_unwrapping/c/main_parallel.c:342 | every index in [0, R*C) is the index of exactly one cell inside the grid: Ind2Row and Ind2Col name a cell in the grid whose index is that index again |
| Statistics.StandardDeviation | phase_unwrapping/c/main_parallel.c:346-371 | the two accumulation loops leave mean = sum/LENGTH and sum_deviation = the sum of squared deviations from that mean; the result is sqrt(sum_deviation / LENGTH) of the first LENGTH samples, for 1 <= LENGTH <= buffer length |
| Statistics.SumSqDevNonNegative | phase_unwrapping/c/main_parallel.c:365-367 | the sum_deviation accumulated by the second loop is >= 0 for any centre |
| Statistics.VarianceNonNegative | phase_unwrapping/c/main_parallel.c:370 | the argument standard_deviation hands to sqrt is >= 0 |
| Statistics.ConstantHasZeroVariance | phase_unwrapping/c/main_parallel.c:354-370 | for a buffer whose samples all equal x, the mean is x, sum_deviation is 0, and the result is sqrt(0) |
| Statistics.SumShift | phase_unwrapping/c/main_parallel.c:357-359 | adding an offset to every sample adds LENGTH*offset to the first loop's sum |
| Statistics.MeanShift | phase_unwrapping/c/main_parallel.c:357-362 | adding an offset to every sample adds the offset to the mean |
| Statistics.SumSqDevShift | phase_unwrapping/c/main_parallel.c:365-367 | moving the samples and the centre by the same offset leaves sum_deviation unchanged |
| Statistics.StdDevShiftInvariant | phase_unwrapping/c/main_parallel.c:354-370 | the standard deviation is unchanged when the same offset is added to every sample |
| Statistics.DeviationsSumToZero | phase_unwrapping/c/main_parallel.c:357-362 | the deviations from the computed mean sum to zero |
| Statistics.SumConstant | phase_unwrapping/c/main_parallel.c:357-359 | for samples all equal to x, the first loop's sum is LENGTH*x |
| Statistics.SumSqDevConstant | phase_unwrapping/c/main_parallel.c:365-367 | for samples all equal to x, sum_deviation from a centre m is LENGTH*(x-m)^2 |
| Statistics.OneOffSum | phase_unwrapping/c/main_parallel.c:357-359 | when n samples equal m except one at any position p, which is m+d, the first loop's sum is (n-1)*m + (m+d) |
| Statistics.OneOffSumSqDev | phase_unwrapping/c/main_parallel.c:365-367 | for the same buffer, sum_deviation from any centre c is (n-1)*(m-c)^2 + (m+d-c)^2 |
| Statistics.OutlierMean | phase_unwrapping/c/main_parallel.c:357-362 | when n samples equal m except one at any position p, which is m+d, the mean is m + d/n |
| Statistics.OutlierAlgebra | phase_unwrapping/c/main_parallel.c:365-367 | with k-1 samples at m and one at m+d, measured from centre m+d/k, the squared deviations add up to d^2*(k-1)/k |
| Statistics.OutlierClosedForm | phase_unwrapping/c/main_parallel.c:365-367 | a buffer whose sum_deviation from the centre m+d/n splits as (n-1)*(m-c)^2 + (m+d-c)^2 has sum_deviation d^2*(n-1)/n |
| Statistics.OutlierSumSqDev | phase_unwrapping/c/main_parallel.c:362-367 | for the buffer with one sample m+d at any position p and the rest m, sum_deviation from the computed mean is d^2*(n-1)/n |
| Statistics.OneOutlier | phase_unwrapping/c/main_parallel.c:354-370 | when n samples equal m except one at any position p, which is m+d, the mean is m + d/n, sum_deviation is d^2*(n-1)/n, and the result is sqrt(d^2*(n-1)/(n*n)) |
| Subregion.WindowAt | phase_unwrapping/c/main_parallel.c:396-407 | for a window inside the source, window cell (r, c) is source cell (r+ORIGIN_ROW, c+ORIGIN_COL), and both indices are in bounds |
| Subregion.ExtractSubregion | phase_unwrapping/c/main_parallel.c:373-412 | after the call, DEST[0 .. DEST_NUM_ROWS*DEST_NUM_COLS) holds the window, cell for cell by WindowAt; the rest of DEST keeps its old contents; SOURCE is not modified |
| PhaseDiff.RowDiffAt | phase_unwrapping/c/main_parallel.c:271-290 | with DIM=1, cell (r,c) for r < R-1 is wrap(INPUT(r+1,c) - INPUT(r,c)), and row R-1 keeps the prior OUTPUT value |
| PhaseDiff.ColDiffAt | phase_unwrapping/c/main_parallel.c:293-311 | with DIM=2, cell (r,c) for c < C-1 is wrap(INPUT(r,c+1) - INPUT(r,c)), and column C-1 keeps the prior OUTPUT value |
| PhaseDiff.OtherDimWritesNothing | phase_unwrapping/c/main_parallel.c:269-312 | for any DIM other than 1 and 2 the switch has no matching case, so OUTPUT is unchanged |
| PhaseDiff.IntegrateDown | phase_unwrapping/c/main_parallel.c:271-290 | when wrap leaves the differences unchanged, image(r,c) = image(0,c) + the sum of the DIM=1 differences of rows 0..r-1, so the row differences determine each column up to its first cell |
| PhaseDiff.IntegrateAcross | phase_unwrapping/c/main_parallel.c:293-311 | the same for DIM=2: image(r,c) = image(r,0) + the sum of the column differences of columns 0..c-1 |
| PhaseDiff.DiffDownRows | phase_unwrapping/c/main_parallel.c:271-290 | the DIM=1 nested loop (outer over columns, inner over rows < R-1) leaves OUTPUT equal to the DIM=1 difference field over its prior contents |
| PhaseDiff.DiffAcrossCols | phase_unwrapping/c/main_parallel.c:293-311 | the DIM=2 nested loop (outer over rows, inner over columns < C-1) leaves OUTPUT equal to the DIM=2 difference field over its prior contents |
| PhaseDiff.WrappedDiff | phase_unwrapping/c/main_parallel.c:248-319 | OUTPUT becomes the difference field for DIM, which is characterised cell by cell by RowDiffAt, ColDiffAt and OtherDimWritesNothing; INPUT is not modified |
| PhaseQuality.KernelDim | phase_unwrapping/c/main_parallel.c:161 | kernel_dim is odd and its centre cell sits at offset KERNEL_RADIUS, so the window reaches KERNEL_RADIUS cells to either side of the pixel |
| PhaseQuality.Interior | phase_unwrapping/c/main_parallel.c:198-210 | the pixels the loops visit are exactly those whose window, KERNEL_RADIUS cells to every side, lies inside the image |
| PhaseQuality.KernelAreaPositive | phase_unwrapping/c/main_parallel.c:161 | kernel_dim*kernel_dim >= 1 for every radius, so standard_deviation never sees an empty window |
| PhaseQuality.InteriorWindowInside | phase_unwrapping/c/main_parallel.c:198-221 | for every pixel the loops visit, the window origin (r-K, c-K) and its far corner (r+K, c+K) are both inside the image, so each extracted window lies inside the difference buffer |
| PhaseQuality.RowWindowAt | phase_unwrapping/c/main_parallel.c:169-221 | cell (i,j) of the row-difference window of pixel (r,c) is wrap(image(r-K+i+1, c-K+j) - image(r-K+i, c-K+j)), or 0 when r-K+i is the last row, left unwritten after calloc |
| PhaseQuality.ColWindowAt | phase_unwrapping/c/main_parallel.c:170-225 | cell (i,j) of the column-difference window is wrap(image(r-K+i, c-K+j+1) - image(r-K+i, c-K+j)), or 0 when c-K+j is the last column |
| PhaseQuality.LowestRowWindowSeesZeros | phase_unwrapping/c/main_parallel.c:169-221 | for pixels in the lowest visited row, the bottom row of the row-difference window is all zeros |
| PhaseQuality.RightmostColWindowSeesZeros | phase_unwrapping/c/main_parallel.c:170-225 | for pixels in the rightmost visited column, the right column of the column-difference window is all zeros |
| PhaseQuality.QualityMapInterior | phase_unwrapping/c/main_parallel.c:209-234 | each pixel with K <= r < R-K and K <= c < C-K gets std(row-difference window) + std(column-difference window) |
| PhaseQuality.QualityMapBorder | phase_unwrapping/c/main_parallel.c:198-236 | every other pixel keeps its prior value |
| PhaseQuality.QualityMapIdempotent | phase_unwrapping/c/main_parallel.c:116-119 | running the routine a second time on the same image leaves the quality buffer unchanged, so main's repeated calls all produce the same buffer |
| PhaseQuality.ConstantImageScoresZero | phase_unwrapping/c/main_parallel.c:209-234 | if wrap(0) = 0 and sqrt(0) = 0, a constant image scores 0 at every interior pixel |
| PhaseQuality.QualityMapNonNegative | phase_unwrapping/c/main_parallel.c:209-234 | if sqrt is non-negative on non-negative arguments and the prior buffer is non-negative, every cell of the quality buffer is >= 0 |
| PhaseQuality.ScorePixel | phase_unwrapping/c/main_parallel.c:213-234 | the loop body extracts both windows and returns the sum of their two standard deviations, i.e. the pixel's quality |
| PhaseQuality.CalculatePhaseQuality | phase_unwrapping/c/main_parallel.c:144-246 | starting from zeroed difference buffers, the quality buffer becomes QualityMap of its prior contents and the input phase: interior cells as in QualityMapInterior, border cells unchanged as in QualityMapBorder |

## Left out

- The OpenMP parallel region in `main` (lines 105-120) is concurrency, so it is not modelled. Only its sequential effect is covered: repeated calls give the same result (`QualityMapIdempotent`).
- The rest of `main`, `devrand`, `print_array` and `get_time_ms` are not modelled. They are argument parsing, entropy from `/dev/urandom`, stdout and wall-clock timing.
- `atan2(sin d, cos d)` and `sqrt` are the parameters `wrap` and `sqrt`. Their numerics are not modelled, so properties that depend on them are not stated. Examples: that `wrap` lands in (-pi, pi] and is 2*pi-periodic.
- Single-precision `float` arithmetic is not modelled: rounding, summation order, and the NaN that `standard_deviation` produces for `LENGTH == 0`. Samples are exact `real`s.
- 32-bit `int` overflow of `row * num_cols + col` and of `NUM_ROWS * NUM_COLS` is not modelled. Indices are unbounded integers.
- The `malloc`/`free` of the one-element scratch pointers (`ind`, `diff`, `row_std_dev`, ...) is not modelled. Those values become local variables and return values. The two difference buffers are modelled as fresh zero-filled arrays, like `calloc`.
- `calculate_branch_cuts_goldstein_data.h` is not part of this model: it only declares generated runtime globals.
- Statistics.StandardDeviation: requires `1 <= LENGTH`. The code divides by `LENGTH` unguarded; every caller passes `kernel_dim * kernel_dim`, which is at least 1 (`KernelAreaPositive`).
- Subregion.ExtractSubregion: requires the window to lie inside the source, and DEST to be a different buffer from SOURCE. The code checks neither. Its only caller passes windows inside the source (`InteriorWindowInside`) and separate scratch buffers.
- PhaseDiff.WrappedDiff: requires OUTPUT to be a different buffer from INPUT. The code does not check this, but its only caller passes a freshly allocated OUTPUT.
- PhaseQuality.CalculatePhaseQuality: the radius and both dimensions are naturals. The code accepts a negative `KERNEL_RADIUS`; its loops (lines 198-234) then start at a negative row and write outside the quality buffer, which has no counterpart in the model.
