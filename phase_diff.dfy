/**
 * wrapped_diff in main_parallel.c: wrapped first differences of a row-major
 * phase image along one axis. dim == 1 differences down the rows, dim == 2
 * across the columns; any other dim matches no case of the switch and writes
 * nothing. The wrapping atan2(sin d, cos d) is the parameter wrap.
 */
module PhaseDiff {
  import opened Grid

  /** The value wrapped_diff leaves in cell (row, col) of its output, which held prior. */
  function DiffCell(prior: seq<real>, image: seq<real>, numRows: nat, numCols: nat, dim: int,
                    wrap: real -> real, row: int, col: int): real
    requires |prior| == numRows * numCols && |image| == numRows * numCols
    requires InGrid(row, col, numRows, numCols)
  {
    if dim == 1 && row < numRows - 1 then
      wrap(At(image, numRows, numCols, row + 1, col) - At(image, numRows, numCols, row, col))
    else if dim == 2 && col < numCols - 1 then
      wrap(At(image, numRows, numCols, row, col + 1) - At(image, numRows, numCols, row, col))
    else
      At(prior, numRows, numCols, row, col)
  }

  /** The whole output buffer after wrapped_diff, given what it held before. */
  function DiffField(prior: seq<real>, image: seq<real>, numRows: nat, numCols: nat, dim: int,
                     wrap: real -> real): (d: seq<real>)
    requires |prior| == numRows * numCols && |image| == numRows * numCols
    ensures |d| == numRows * numCols
  {
    seq(numRows * numCols, k requires 0 <= k < numRows * numCols =>
      Ind2SubRoundTrip(k, numRows, numCols);
      DiffCell(prior, image, numRows, numCols, dim, wrap, Ind2Row(k, numCols), Ind2Col(k, numCols)))
  }

  lemma DiffFieldAt(prior: seq<real>, image: seq<real>, numRows: nat, numCols: nat, dim: int,
                    wrap: real -> real, row: int, col: int)
    requires |prior| == numRows * numCols && |image| == numRows * numCols
    requires InGrid(row, col, numRows, numCols)
    ensures 0 <= Sub2Ind(row, col, numCols) < numRows * numCols
    ensures DiffField(prior, image, numRows, numCols, dim, wrap)[Sub2Ind(row, col, numCols)]
         == DiffCell(prior, image, numRows, numCols, dim, wrap, row, col)
  {
    Sub2IndInRange(row, col, numRows, numCols);
    Sub2IndRoundTrip(row, col, numCols);
  }

  /**
   * Down the rows: each cell above the last row holds the wrapped difference
   * to the cell below it; the last row keeps what the output held.
   */
  lemma RowDiffAt(prior: seq<real>, image: seq<real>, numRows: nat, numCols: nat,
                  wrap: real -> real, row: int, col: int)
    requires |prior| == numRows * numCols && |image| == numRows * numCols
    requires InGrid(row, col, numRows, numCols)
    ensures 0 <= Sub2Ind(row, col, numCols) < numRows * numCols
    ensures row < numRows - 1 ==>
      0 <= Sub2Ind(row + 1, col, numCols) < numRows * numCols &&
      DiffField(prior, image, numRows, numCols, 1, wrap)[Sub2Ind(row, col, numCols)]
        == wrap(image[Sub2Ind(row + 1, col, numCols)] - image[Sub2Ind(row, col, numCols)])
    ensures row == numRows - 1 ==>
      DiffField(prior, image, numRows, numCols, 1, wrap)[Sub2Ind(row, col, numCols)]
        == prior[Sub2Ind(row, col, numCols)]
  {
    DiffFieldAt(prior, image, numRows, numCols, 1, wrap, row, col);
    if row < numRows - 1 {
      Sub2IndInRange(row + 1, col, numRows, numCols);
    }
  }

  /**
   * Across the columns: each cell left of the last column holds the wrapped
   * difference to its right neighbour; the last column keeps what the output held.
   */
  lemma ColDiffAt(prior: seq<real>, image: seq<real>, numRows: nat, numCols: nat,
                  wrap: real -> real, row: int, col: int)
    requires |prior| == numRows * numCols && |image| == numRows * numCols
    requires InGrid(row, col, numRows, numCols)
    ensures 0 <= Sub2Ind(row, col, numCols) < numRows * numCols
    ensures col < numCols - 1 ==>
      0 <= Sub2Ind(row, col + 1, numCols) < numRows * numCols &&
      DiffField(prior, image, numRows, numCols, 2, wrap)[Sub2Ind(row, col, numCols)]
        == wrap(image[Sub2Ind(row, col + 1, numCols)] - image[Sub2Ind(row, col, numCols)])
    ensures col == numCols - 1 ==>
      DiffField(prior, image, numRows, numCols, 2, wrap)[Sub2Ind(row, col, numCols)]
        == prior[Sub2Ind(row, col, numCols)]
  {
    DiffFieldAt(prior, image, numRows, numCols, 2, wrap, row, col);
    if col < numCols - 1 {
      Sub2IndInRange(row, col + 1, numRows, numCols);
    }
  }

  /** A dim outside {1, 2} falls through the switch: the output is left as it was. */
  lemma OtherDimWritesNothing(prior: seq<real>, image: seq<real>, numRows: nat, numCols: nat,
                              dim: int, wrap: real -> real)
    requires |prior| == numRows * numCols && |image| == numRows * numCols
    requires dim != 1 && dim != 2
    ensures DiffField(prior, image, numRows, numCols, dim, wrap) == prior
  {
    var d := DiffField(prior, image, numRows, numCols, dim, wrap);
    forall k | 0 <= k < numRows * numCols
      ensures d[k] == prior[k]
    {
      Ind2SubRoundTrip(k, numRows, numCols);
    }
  }

  /** Sum of the first count row-direction differences of column col: integration down the column. */
  function SumDown(d: seq<real>, numRows: nat, numCols: nat, col: int, count: int): real
    requires |d| == numRows * numCols
    requires 0 <= col < numCols && 0 <= count <= numRows
    decreases count
  {
    if count == 0 then 0.0 else SumDown(d, numRows, numCols, col, count - 1) + At(d, numRows, numCols, count - 1, col)
  }

  /** Sum of the first count column-direction differences of row row: integration along the row. */
  function SumAcross(d: seq<real>, numRows: nat, numCols: nat, row: int, count: int): real
    requires |d| == numRows * numCols
    requires 0 <= row < numRows && 0 <= count <= numCols
    decreases count
  {
    if count == 0 then 0.0 else SumAcross(d, numRows, numCols, row, count - 1) + At(d, numRows, numCols, row, count - 1)
  }

  /**
   * Integrating the row differences down a column recovers the image,
   * provided wrap left every difference on the way unchanged (no jump
   * reached the wrapping interval).
   */
  lemma {:induction false} IntegrateDown(prior: seq<real>, image: seq<real>, numRows: nat, numCols: nat,
                                         wrap: real -> real, row: int, col: int)
    requires |prior| == numRows * numCols && |image| == numRows * numCols
    requires InGrid(row, col, numRows, numCols)
    requires forall i :: 0 <= i < row ==>
      wrap(At(image, numRows, numCols, i + 1, col) - At(image, numRows, numCols, i, col))
        == At(image, numRows, numCols, i + 1, col) - At(image, numRows, numCols, i, col)
    ensures At(image, numRows, numCols, row, col)
         == At(image, numRows, numCols, 0, col)
          + SumDown(DiffField(prior, image, numRows, numCols, 1, wrap), numRows, numCols, col, row)
  {
    if row > 0 {
      IntegrateDown(prior, image, numRows, numCols, wrap, row - 1, col);
      DiffFieldAt(prior, image, numRows, numCols, 1, wrap, row - 1, col);
    }
  }

  /**
   * Integrating the column differences along a row recovers the image,
   * provided wrap left every difference on the way unchanged.
   */
  lemma {:induction false} IntegrateAcross(prior: seq<real>, image: seq<real>, numRows: nat, numCols: nat,
                                           wrap: real -> real, row: int, col: int)
    requires |prior| == numRows * numCols && |image| == numRows * numCols
    requires InGrid(row, col, numRows, numCols)
    requires forall j :: 0 <= j < col ==>
      wrap(At(image, numRows, numCols, row, j + 1) - At(image, numRows, numCols, row, j))
        == At(image, numRows, numCols, row, j + 1) - At(image, numRows, numCols, row, j)
    ensures At(image, numRows, numCols, row, col)
         == At(image, numRows, numCols, row, 0)
          + SumAcross(DiffField(prior, image, numRows, numCols, 2, wrap), numRows, numCols, row, col)
  {
    if col > 0 {
      IntegrateAcross(prior, image, numRows, numCols, wrap, row, col - 1);
      DiffFieldAt(prior, image, numRows, numCols, 2, wrap, row, col - 1);
    }
  }

  /** A buffer that agrees with DiffCell on every cell is the DiffField. */
  lemma DiffFieldFromCells(s: seq<real>, prior: seq<real>, image: seq<real>, numRows: nat, numCols: nat,
                           dim: int, wrap: real -> real)
    requires |s| == |prior| == |image| == numRows * numCols
    requires forall i, j :: InGrid(i, j, numRows, numCols) ==>
      At(s, numRows, numCols, i, j) == DiffCell(prior, image, numRows, numCols, dim, wrap, i, j)
    ensures s == DiffField(prior, image, numRows, numCols, dim, wrap)
  {
    var d := DiffField(prior, image, numRows, numCols, dim, wrap);
    forall k | 0 <= k < numRows * numCols
      ensures s[k] == d[k]
    {
      Ind2SubRoundTrip(k, numRows, numCols);
      var i, j := Ind2Row(k, numCols), Ind2Col(k, numCols);
      assert At(s, numRows, numCols, i, j) == DiffCell(prior, image, numRows, numCols, dim, wrap, i, j);
    }
  }

  /**
   * wrapped_diff. The output buffer becomes DiffField of what it held; the
   * input is only read.
   */
  method WrappedDiff(output: array<real>, input: array<real>, numRows: nat, numCols: nat, dim: int,
                     wrap: real -> real)
    requires output.Length == numRows * numCols && input.Length == numRows * numCols
    requires output != input
    modifies output
    ensures output[..] == DiffField(old(output[..]), input[..], numRows, numCols, dim, wrap)
  {
    if dim == 1 {
      DiffDownRows(output, input, numRows, numCols, wrap);
    } else if dim == 2 {
      DiffAcrossCols(output, input, numRows, numCols, wrap);
    } else {
      OtherDimWritesNothing(output[..], input[..], numRows, numCols, dim, wrap);
    }
  }

  /** Case 1 of the switch in wrapped_diff: column by column, down each column. */
  method DiffDownRows(output: array<real>, input: array<real>, numRows: nat, numCols: nat,
                      wrap: real -> real)
    requires output.Length == numRows * numCols && input.Length == numRows * numCols
    requires output != input
    modifies output
    ensures output[..] == DiffField(old(output[..]), input[..], numRows, numCols, 1, wrap)
  {
    ghost var prior := output[..];
    ghost var image := input[..];
    AllCellsInRange(numRows, numCols);
    var c := 0;
    while c < numCols
      invariant 0 <= c <= numCols
      invariant forall i, j :: InGrid(i, j, numRows, numCols) ==>
        output[Sub2Ind(i, j, numCols)] ==
          if j < c then DiffCell(prior, image, numRows, numCols, 1, wrap, i, j)
          else At(prior, numRows, numCols, i, j)
    {
      var r := 0;
      while r < numRows - 1
        invariant 0 <= r && (r <= numRows - 1 || r == 0)
        invariant forall i, j :: InGrid(i, j, numRows, numCols) ==>
          output[Sub2Ind(i, j, numCols)] ==
            if j < c || (j == c && i < r) then DiffCell(prior, image, numRows, numCols, 1, wrap, i, j)
            else At(prior, numRows, numCols, i, j)
      {
        Sub2IndInRange(r, c, numRows, numCols);
        Sub2IndInRange(r + 1, c, numRows, numCols);
        OtherCellsOtherIndex(r, c, numRows, numCols);
        output[Sub2Ind(r, c, numCols)] := wrap(input[Sub2Ind(r + 1, c, numCols)] - input[Sub2Ind(r, c, numCols)]);
        r := r + 1;
      }
      c := c + 1;
    }
    DiffFieldFromCells(output[..], prior, image, numRows, numCols, 1, wrap);
  }

  /** Case 2 of the switch in wrapped_diff: row by row, along each row. */
  method DiffAcrossCols(output: array<real>, input: array<real>, numRows: nat, numCols: nat,
                        wrap: real -> real)
    requires output.Length == numRows * numCols && input.Length == numRows * numCols
    requires output != input
    modifies output
    ensures output[..] == DiffField(old(output[..]), input[..], numRows, numCols, 2, wrap)
  {
    ghost var prior := output[..];
    ghost var image := input[..];
    AllCellsInRange(numRows, numCols);
    var r := 0;
    while r < numRows
      invariant 0 <= r <= numRows
      invariant forall i, j :: InGrid(i, j, numRows, numCols) ==>
        output[Sub2Ind(i, j, numCols)] ==
          if i < r then DiffCell(prior, image, numRows, numCols, 2, wrap, i, j)
          else At(prior, numRows, numCols, i, j)
    {
      var c := 0;
      while c < numCols - 1
        invariant 0 <= c && (c <= numCols - 1 || c == 0)
        invariant forall i, j :: InGrid(i, j, numRows, numCols) ==>
          output[Sub2Ind(i, j, numCols)] ==
            if i < r || (i == r && j < c) then DiffCell(prior, image, numRows, numCols, 2, wrap, i, j)
            else At(prior, numRows, numCols, i, j)
      {
        Sub2IndInRange(r, c, numRows, numCols);
        Sub2IndInRange(r, c + 1, numRows, numCols);
        OtherCellsOtherIndex(r, c, numRows, numCols);
        output[Sub2Ind(r, c, numCols)] := wrap(input[Sub2Ind(r, c + 1, numCols)] - input[Sub2Ind(r, c, numCols)]);
        c := c + 1;
      }
      r := r + 1;
    }
    DiffFieldFromCells(output[..], prior, image, numRows, numCols, 2, wrap);
  }
}
