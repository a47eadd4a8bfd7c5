/**
 * calculate_phase_quality in main_parallel.c: for every pixel at least
 * `radius` cells from each edge, the standard deviation of the window of
 * row-direction wrapped differences around it plus that of the window of
 * column-direction wrapped differences. Pixels nearer an edge keep whatever
 * the caller's buffer held. Larger values mean noisier phase.
 */
module PhaseQuality {
  import opened Grid
  import opened Statistics
  import opened Subregion
  import opened PhaseDiff

  /** A buffer as calloc returns it. */
  function Zeros(n: nat): (z: seq<real>)
    ensures |z| == n
    ensures forall k :: 0 <= k < n ==> z[k] == 0.0
  {
    seq(n, _ => 0.0)
  }

  /** Side of the square window (kernel_dim): odd, with the centre cell at offset radius. */
  function KernelDim(radius: nat): (k: nat)
    ensures k % 2 == 1 && k / 2 == radius
  {
    2 * radius + 1
  }

  lemma KernelAreaPositive(radius: nat)
    ensures KernelDim(radius) * KernelDim(radius) >= 1
  {
    MulMonotone(1, KernelDim(radius), KernelDim(radius));
  }

  /**
   * The pixels the loops of calculate_phase_quality visit: exactly those whose
   * whole window, radius cells to every side, lies inside the grid.
   */
  predicate Interior(row: int, col: int, numRows: int, numCols: int, radius: nat)
    ensures Interior(row, col, numRows, numCols, radius) <==>
              InGrid(row - radius, col - radius, numRows, numCols) && InGrid(row + radius, col + radius, numRows, numCols)
  {
    radius <= row < numRows - radius && radius <= col < numCols - radius
  }

  /** The row-direction difference buffer: wrapped_diff with dim 1 into a zeroed buffer. */
  function RowDiffs(image: seq<real>, numRows: nat, numCols: nat, wrap: real -> real): (d: seq<real>)
    requires |image| == numRows * numCols
    ensures |d| == numRows * numCols
  {
    DiffField(Zeros(numRows * numCols), image, numRows, numCols, 1, wrap)
  }

  /** The column-direction difference buffer: wrapped_diff with dim 2 into a zeroed buffer. */
  function ColDiffs(image: seq<real>, numRows: nat, numCols: nat, wrap: real -> real): (d: seq<real>)
    requires |image| == numRows * numCols
    ensures |d| == numRows * numCols
  {
    DiffField(Zeros(numRows * numCols), image, numRows, numCols, 2, wrap)
  }

  /** The window of row differences centred on an interior pixel. */
  function RowWindow(image: seq<real>, numRows: nat, numCols: nat, radius: nat, wrap: real -> real,
                     row: int, col: int): (w: seq<real>)
    requires |image| == numRows * numCols
    requires Interior(row, col, numRows, numCols, radius)
    ensures |w| == KernelDim(radius) * KernelDim(radius) >= 1
  {
    KernelAreaPositive(radius);
    Window(RowDiffs(image, numRows, numCols, wrap), row - radius, col - radius, numRows, numCols,
           KernelDim(radius), KernelDim(radius))
  }

  /** The window of column differences centred on an interior pixel. */
  function ColWindow(image: seq<real>, numRows: nat, numCols: nat, radius: nat, wrap: real -> real,
                     row: int, col: int): (w: seq<real>)
    requires |image| == numRows * numCols
    requires Interior(row, col, numRows, numCols, radius)
    ensures |w| == KernelDim(radius) * KernelDim(radius) >= 1
  {
    KernelAreaPositive(radius);
    Window(ColDiffs(image, numRows, numCols, wrap), row - radius, col - radius, numRows, numCols,
           KernelDim(radius), KernelDim(radius))
  }

  /** The score written for one interior pixel. */
  function PixelQuality(image: seq<real>, numRows: nat, numCols: nat, radius: nat,
                        wrap: real -> real, sqrt: real -> real, row: int, col: int): real
    requires |image| == numRows * numCols
    requires Interior(row, col, numRows, numCols, radius)
  {
    StdDev(RowWindow(image, numRows, numCols, radius, wrap, row, col), sqrt)
      + StdDev(ColWindow(image, numRows, numCols, radius, wrap, row, col), sqrt)
  }

  /** The whole quality buffer after calculate_phase_quality, given what it held before. */
  function QualityMap(prior: seq<real>, image: seq<real>, numRows: nat, numCols: nat, radius: nat,
                      wrap: real -> real, sqrt: real -> real): (q: seq<real>)
    requires |prior| == numRows * numCols && |image| == numRows * numCols
    ensures |q| == numRows * numCols
  {
    seq(numRows * numCols, k requires 0 <= k < numRows * numCols =>
      Ind2SubRoundTrip(k, numRows, numCols);
      var row, col := Ind2Row(k, numCols), Ind2Col(k, numCols);
      if Interior(row, col, numRows, numCols, radius) then
        PixelQuality(image, numRows, numCols, radius, wrap, sqrt, row, col)
      else
        prior[k])
  }

  /** Every window taken around an interior pixel lies inside the difference buffers. */
  lemma InteriorWindowInside(numRows: nat, numCols: nat, radius: nat, row: int, col: int)
    requires Interior(row, col, numRows, numCols, radius)
    ensures WindowInside(row - radius, col - radius, numRows, numCols, KernelDim(radius), KernelDim(radius))
    ensures InGrid(row - radius, col - radius, numRows, numCols)
    ensures InGrid(row + radius, col + radius, numRows, numCols)
  {
  }

  /** An interior cell of the quality buffer gets the two windows' standard deviations, summed. */
  lemma QualityMapInterior(prior: seq<real>, image: seq<real>, numRows: nat, numCols: nat, radius: nat,
                           wrap: real -> real, sqrt: real -> real, row: int, col: int)
    requires |prior| == numRows * numCols && |image| == numRows * numCols
    requires Interior(row, col, numRows, numCols, radius)
    ensures 0 <= Sub2Ind(row, col, numCols) < numRows * numCols
    ensures QualityMap(prior, image, numRows, numCols, radius, wrap, sqrt)[Sub2Ind(row, col, numCols)]
         == StdDev(RowWindow(image, numRows, numCols, radius, wrap, row, col), sqrt)
          + StdDev(ColWindow(image, numRows, numCols, radius, wrap, row, col), sqrt)
  {
    Sub2IndInRange(row, col, numRows, numCols);
    Sub2IndRoundTrip(row, col, numCols);
  }

  /** A cell within radius of an edge keeps the value the caller's buffer held. */
  lemma QualityMapBorder(prior: seq<real>, image: seq<real>, numRows: nat, numCols: nat, radius: nat,
                         wrap: real -> real, sqrt: real -> real, row: int, col: int)
    requires |prior| == numRows * numCols && |image| == numRows * numCols
    requires InGrid(row, col, numRows, numCols) && !Interior(row, col, numRows, numCols, radius)
    ensures 0 <= Sub2Ind(row, col, numCols) < numRows * numCols
    ensures QualityMap(prior, image, numRows, numCols, radius, wrap, sqrt)[Sub2Ind(row, col, numCols)]
         == prior[Sub2Ind(row, col, numCols)]
  {
    Sub2IndInRange(row, col, numRows, numCols);
    Sub2IndRoundTrip(row, col, numCols);
  }

  /**
   * Running calculate_phase_quality again on its own output changes nothing,
   * so the repeated calls of the benchmark loop all leave the same buffer.
   */
  lemma QualityMapIdempotent(prior: seq<real>, image: seq<real>, numRows: nat, numCols: nat, radius: nat,
                             wrap: real -> real, sqrt: real -> real)
    requires |prior| == numRows * numCols && |image| == numRows * numCols
    ensures QualityMap(QualityMap(prior, image, numRows, numCols, radius, wrap, sqrt), image,
                       numRows, numCols, radius, wrap, sqrt)
         == QualityMap(prior, image, numRows, numCols, radius, wrap, sqrt)
  {
    var once := QualityMap(prior, image, numRows, numCols, radius, wrap, sqrt);
    var twice := QualityMap(once, image, numRows, numCols, radius, wrap, sqrt);
    forall k | 0 <= k < numRows * numCols
      ensures twice[k] == once[k]
    {
      Ind2SubRoundTrip(k, numRows, numCols);
    }
  }

  /**
   * Cell (i, j) of the row-difference window around (row, col): the wrapped
   * difference to the pixel below, except in the last image row, where the
   * zeroed buffer was never written.
   */
  lemma RowWindowAt(image: seq<real>, numRows: nat, numCols: nat, radius: nat, wrap: real -> real,
                    row: int, col: int, i: int, j: int)
    requires |image| == numRows * numCols
    requires Interior(row, col, numRows, numCols, radius)
    requires InGrid(i, j, KernelDim(radius), KernelDim(radius))
    ensures 0 <= Sub2Ind(i, j, KernelDim(radius)) < KernelDim(radius) * KernelDim(radius)
    ensures RowWindow(image, numRows, numCols, radius, wrap, row, col)[Sub2Ind(i, j, KernelDim(radius))]
         == if row - radius + i < numRows - 1
            then wrap(At(image, numRows, numCols, row - radius + i + 1, col - radius + j)
                      - At(image, numRows, numCols, row - radius + i, col - radius + j))
            else 0.0
  {
    var kd := KernelDim(radius);
    WindowAt(RowDiffs(image, numRows, numCols, wrap), row - radius, col - radius, numRows, numCols, kd, kd, i, j);
    DiffFieldAt(Zeros(numRows * numCols), image, numRows, numCols, 1, wrap, row - radius + i, col - radius + j);
  }

  /**
   * Cell (i, j) of the column-difference window around (row, col): the
   * wrapped difference to the pixel on the right, except in the last image
   * column, where the zeroed buffer was never written.
   */
  lemma ColWindowAt(image: seq<real>, numRows: nat, numCols: nat, radius: nat, wrap: real -> real,
                    row: int, col: int, i: int, j: int)
    requires |image| == numRows * numCols
    requires Interior(row, col, numRows, numCols, radius)
    requires InGrid(i, j, KernelDim(radius), KernelDim(radius))
    ensures 0 <= Sub2Ind(i, j, KernelDim(radius)) < KernelDim(radius) * KernelDim(radius)
    ensures ColWindow(image, numRows, numCols, radius, wrap, row, col)[Sub2Ind(i, j, KernelDim(radius))]
         == if col - radius + j < numCols - 1
            then wrap(At(image, numRows, numCols, row - radius + i, col - radius + j + 1)
                      - At(image, numRows, numCols, row - radius + i, col - radius + j))
            else 0.0
  {
    var kd := KernelDim(radius);
    WindowAt(ColDiffs(image, numRows, numCols, wrap), row - radius, col - radius, numRows, numCols, kd, kd, i, j);
    DiffFieldAt(Zeros(numRows * numCols), image, numRows, numCols, 2, wrap, row - radius + i, col - radius + j);
  }

  /**
   * The window around a pixel of the lowest interior row reaches the last
   * image row, whose row differences were never computed: its whole last
   * row is 0, whatever the image.
   */
  lemma LowestRowWindowSeesZeros(image: seq<real>, numRows: nat, numCols: nat, radius: nat,
                                 wrap: real -> real, col: int, j: int)
    requires |image| == numRows * numCols
    requires Interior(numRows - 1 - radius, col, numRows, numCols, radius)
    requires 0 <= j < KernelDim(radius)
    ensures 0 <= Sub2Ind(KernelDim(radius) - 1, j, KernelDim(radius)) < KernelDim(radius) * KernelDim(radius)
    ensures RowWindow(image, numRows, numCols, radius, wrap, numRows - 1 - radius, col)
              [Sub2Ind(KernelDim(radius) - 1, j, KernelDim(radius))] == 0.0
  {
    RowWindowAt(image, numRows, numCols, radius, wrap, numRows - 1 - radius, col, KernelDim(radius) - 1, j);
  }

  /**
   * The window around a pixel of the rightmost interior column reaches the
   * last image column, whose column differences were never computed: its
   * whole last column is 0, whatever the image.
   */
  lemma RightmostColWindowSeesZeros(image: seq<real>, numRows: nat, numCols: nat, radius: nat,
                                    wrap: real -> real, row: int, i: int)
    requires |image| == numRows * numCols
    requires Interior(row, numCols - 1 - radius, numRows, numCols, radius)
    requires 0 <= i < KernelDim(radius)
    ensures 0 <= Sub2Ind(i, KernelDim(radius) - 1, KernelDim(radius)) < KernelDim(radius) * KernelDim(radius)
    ensures ColWindow(image, numRows, numCols, radius, wrap, row, numCols - 1 - radius)
              [Sub2Ind(i, KernelDim(radius) - 1, KernelDim(radius))] == 0.0
  {
    ColWindowAt(image, numRows, numCols, radius, wrap, row, numCols - 1 - radius, i, KernelDim(radius) - 1);
  }

  /**
   * A constant phase image has zero score at every interior pixel, given
   * that wrapping a zero difference and the square root of zero are zero.
   */
  lemma ConstantImageScoresZero(prior: seq<real>, image: seq<real>, numRows: nat, numCols: nat, radius: nat,
                                wrap: real -> real, sqrt: real -> real, x: real, row: int, col: int)
    requires |prior| == numRows * numCols && |image| == numRows * numCols
    requires forall i, j :: InGrid(i, j, numRows, numCols) ==> At(image, numRows, numCols, i, j) == x
    requires wrap(0.0) == 0.0 && sqrt(0.0) == 0.0
    requires Interior(row, col, numRows, numCols, radius)
    ensures 0 <= Sub2Ind(row, col, numCols) < numRows * numCols
    ensures QualityMap(prior, image, numRows, numCols, radius, wrap, sqrt)[Sub2Ind(row, col, numCols)] == 0.0
  {
    var kd := KernelDim(radius);
    var rw := RowWindow(image, numRows, numCols, radius, wrap, row, col);
    var cw := ColWindow(image, numRows, numCols, radius, wrap, row, col);
    forall k | 0 <= k < kd * kd
      ensures rw[k] == 0.0 && cw[k] == 0.0
    {
      Ind2SubRoundTrip(k, kd, kd);
      RowWindowAt(image, numRows, numCols, radius, wrap, row, col, Ind2Row(k, kd), Ind2Col(k, kd));
      ColWindowAt(image, numRows, numCols, radius, wrap, row, col, Ind2Row(k, kd), Ind2Col(k, kd));
    }
    ConstantHasZeroVariance(rw, 0.0, sqrt);
    ConstantHasZeroVariance(cw, 0.0, sqrt);
    QualityMapInterior(prior, image, numRows, numCols, radius, wrap, sqrt, row, col);
  }

  /**
   * With a square root that is non-negative on non-negative arguments and a
   * non-negative starting buffer (calloc gives zeros), every cell of the
   * result is non-negative.
   */
  lemma QualityMapNonNegative(prior: seq<real>, image: seq<real>, numRows: nat, numCols: nat, radius: nat,
                              wrap: real -> real, sqrt: real -> real)
    requires |prior| == numRows * numCols && |image| == numRows * numCols
    requires forall v: real :: v >= 0.0 ==> sqrt(v) >= 0.0
    requires forall k :: 0 <= k < |prior| ==> prior[k] >= 0.0
    ensures forall k :: 0 <= k < numRows * numCols ==>
      QualityMap(prior, image, numRows, numCols, radius, wrap, sqrt)[k] >= 0.0
  {
    var q := QualityMap(prior, image, numRows, numCols, radius, wrap, sqrt);
    forall k | 0 <= k < numRows * numCols
      ensures q[k] >= 0.0
    {
      Ind2SubRoundTrip(k, numRows, numCols);
      var row, col := Ind2Row(k, numCols), Ind2Col(k, numCols);
      if Interior(row, col, numRows, numCols, radius) {
        VarianceNonNegative(RowWindow(image, numRows, numCols, radius, wrap, row, col));
        VarianceNonNegative(ColWindow(image, numRows, numCols, radius, wrap, row, col));
      }
    }
  }

  /** A buffer that agrees with QualityMap on every cell is the QualityMap. */
  lemma QualityMapFromCells(q: seq<real>, prior: seq<real>, image: seq<real>, numRows: nat, numCols: nat,
                            radius: nat, wrap: real -> real, sqrt: real -> real)
    requires |q| == |prior| == |image| == numRows * numCols
    requires forall i, j :: InGrid(i, j, numRows, numCols) ==>
      At(q, numRows, numCols, i, j) ==
        if Interior(i, j, numRows, numCols, radius) then PixelQuality(image, numRows, numCols, radius, wrap, sqrt, i, j)
        else At(prior, numRows, numCols, i, j)
    ensures q == QualityMap(prior, image, numRows, numCols, radius, wrap, sqrt)
  {
    var m := QualityMap(prior, image, numRows, numCols, radius, wrap, sqrt);
    forall k | 0 <= k < numRows * numCols
      ensures q[k] == m[k]
    {
      Ind2SubRoundTrip(k, numRows, numCols);
      var i, j := Ind2Row(k, numCols), Ind2Col(k, numCols);
      assert At(q, numRows, numCols, i, j) == q[k];
    }
  }

  /**
   * calculate_phase_quality. Builds both difference buffers in zeroed
   * scratch arrays, then visits the interior pixels in row-major order,
   * extracting each window, and writes the sum of the two standard
   * deviations into the pixel's cell.
   */
  method CalculatePhaseQuality(quality: array<real>, phase: array<real>, numRows: nat, numCols: nat,
                               radius: nat, wrap: real -> real, sqrt: real -> real)
    requires quality.Length == numRows * numCols && phase.Length == numRows * numCols
    modifies quality
    ensures quality[..] == QualityMap(old(quality[..]), old(phase[..]), numRows, numCols, radius, wrap, sqrt)
  {
    ghost var prior := quality[..];
    ghost var image := phase[..];
    var numElements := numRows * numCols;
    var kernelDim := 2 * radius + 1;
    var phaseDiffRows := new real[numElements](_ => 0.0);
    var phaseDiffCols := new real[numElements](_ => 0.0);
    KernelAreaPositive(radius);
    var rowDiffsRegion := new real[kernelDim * kernelDim];
    var colDiffsRegion := new real[kernelDim * kernelDim];
    var colMin, colMax := radius, numCols - radius;
    var rowMin, rowMax := radius, numRows - radius;

    assert phaseDiffRows[..] == Zeros(numElements);
    WrappedDiff(phaseDiffRows, phase, numRows, numCols, 1, wrap);
    assert phaseDiffCols[..] == Zeros(numElements);
    WrappedDiff(phaseDiffCols, phase, numRows, numCols, 2, wrap);

    AllCellsInRange(numRows, numCols);
    var r := rowMin;
    while r < rowMax
      invariant rowMin <= r
      invariant phaseDiffRows[..] == RowDiffs(image, numRows, numCols, wrap)
      invariant phaseDiffCols[..] == ColDiffs(image, numRows, numCols, wrap)
      invariant forall i, j :: InGrid(i, j, numRows, numCols) ==>
        quality[Sub2Ind(i, j, numCols)] ==
          if Interior(i, j, numRows, numCols, radius) && i < r
          then PixelQuality(image, numRows, numCols, radius, wrap, sqrt, i, j)
          else At(prior, numRows, numCols, i, j)
      modifies quality, rowDiffsRegion, colDiffsRegion
    {
      var c := colMin;
      while c < colMax
        invariant colMin <= c
        invariant phaseDiffRows[..] == RowDiffs(image, numRows, numCols, wrap)
        invariant phaseDiffCols[..] == ColDiffs(image, numRows, numCols, wrap)
        invariant forall i, j :: InGrid(i, j, numRows, numCols) ==>
          quality[Sub2Ind(i, j, numCols)] ==
            if Interior(i, j, numRows, numCols, radius) && (i < r || (i == r && j < c))
            then PixelQuality(image, numRows, numCols, radius, wrap, sqrt, i, j)
            else At(prior, numRows, numCols, i, j)
        modifies quality, rowDiffsRegion, colDiffsRegion
      {
        var ind := Sub2Ind(r, c, numCols);
        var score := ScorePixel(rowDiffsRegion, colDiffsRegion, phaseDiffRows, phaseDiffCols, image,
                                numRows, numCols, radius, wrap, sqrt, r, c);
        OtherCellsOtherIndex(r, c, numRows, numCols);
        quality[ind] := score;
        c := c + 1;
      }
      r := r + 1;
    }
    QualityMapFromCells(quality[..], prior, image, numRows, numCols, radius, wrap, sqrt);
  }

  /**
   * The body of the pixel loop of calculate_phase_quality: extract the two
   * windows around (row, col) into the scratch buffers and add their
   * standard deviations.
   */
  method ScorePixel(rowDiffsRegion: array<real>, colDiffsRegion: array<real>,
                    phaseDiffRows: array<real>, phaseDiffCols: array<real>, ghost image: seq<real>,
                    numRows: nat, numCols: nat, radius: nat, wrap: real -> real, sqrt: real -> real,
                    row: int, col: int) returns (score: real)
    requires |image| == numRows * numCols
    requires Interior(row, col, numRows, numCols, radius)
    requires phaseDiffRows[..] == RowDiffs(image, numRows, numCols, wrap)
    requires phaseDiffCols[..] == ColDiffs(image, numRows, numCols, wrap)
    requires rowDiffsRegion.Length == KernelDim(radius) * KernelDim(radius)
    requires colDiffsRegion.Length == KernelDim(radius) * KernelDim(radius)
    requires rowDiffsRegion != colDiffsRegion
    requires rowDiffsRegion != phaseDiffRows && rowDiffsRegion != phaseDiffCols
    requires colDiffsRegion != phaseDiffRows && colDiffsRegion != phaseDiffCols
    modifies rowDiffsRegion, colDiffsRegion
    ensures score == PixelQuality(image, numRows, numCols, radius, wrap, sqrt, row, col)
  {
    var kernelDim := 2 * radius + 1;
    KernelAreaPositive(radius);
    var sourceOriginRow, sourceOriginCol := row - radius, col - radius;
    ExtractSubregion(rowDiffsRegion, phaseDiffRows, sourceOriginRow, sourceOriginCol,
                     numRows, numCols, kernelDim, kernelDim);
    ExtractSubregion(colDiffsRegion, phaseDiffCols, sourceOriginRow, sourceOriginCol,
                     numRows, numCols, kernelDim, kernelDim);
    assert rowDiffsRegion[..kernelDim * kernelDim] == RowWindow(image, numRows, numCols, radius, wrap, row, col);
    assert colDiffsRegion[..kernelDim * kernelDim] == ColWindow(image, numRows, numCols, radius, wrap, row, col);
    var rowStdDev := StandardDeviation(rowDiffsRegion, kernelDim * kernelDim, sqrt);
    var colStdDev := StandardDeviation(colDiffsRegion, kernelDim * kernelDim, sqrt);
    score := rowStdDev + colStdDev;
  }
}
