/**
 * Row-major addressing of a dense numRows x numCols grid stored in one flat
 * buffer (sub2ind in main_parallel.c), its inverse, and a bounds-checked
 * accessor used by the specification functions of the other modules.
 */
module Grid {

  /**
   * Linear index of (row, col) in a row-major grid with numCols columns:
   * row `row` occupies the numCols consecutive slots from row * numCols on,
   * and col picks one of them.
   */
  function Sub2Ind(row: int, col: int, numCols: int): (ind: int)
    ensures 0 <= col < numCols ==> row * numCols <= ind < row * numCols + numCols
  {
    row * numCols + col
  }

  /** Row of a linear index: the first half of the inverse of Sub2Ind. */
  function Ind2Row(ind: int, numCols: int): int
    requires numCols > 0
  {
    ind / numCols
  }

  /** Column of a linear index: the second half of the inverse of Sub2Ind. */
  function Ind2Col(ind: int, numCols: int): int
    requires numCols > 0
  {
    ind % numCols
  }

  predicate InGrid(row: int, col: int, numRows: int, numCols: int)
  {
    0 <= row < numRows && 0 <= col < numCols
  }

  /** The cell (row, col) of a row-major grid held in a sequence. */
  function At(cells: seq<real>, numRows: nat, numCols: nat, row: int, col: int): real
    requires |cells| == numRows * numCols
    requires InGrid(row, col, numRows, numCols)
  {
    Sub2IndInRange(row, col, numRows, numCols);
    cells[Sub2Ind(row, col, numCols)]
  }

  /** Hint for the nonlinear steps of RowMajorOrder, Sub2IndInRange and Ind2SubRoundTrip. */
  lemma MulMonotone(a: int, b: int, m: int)
    requires a <= b && 0 <= m
    ensures a * m <= b * m
  {
    assert b * m - a * m == (b - a) * m;
  }

  /** Every cell of the grid has its linear index inside the buffer. */
  lemma Sub2IndInRange(row: int, col: int, numRows: int, numCols: int)
    requires InGrid(row, col, numRows, numCols)
    ensures 0 <= Sub2Ind(row, col, numCols) < numRows * numCols
  {
    MulMonotone(0, row, numCols);
    MulMonotone(row + 1, numRows, numCols);
    assert row * numCols + numCols == (row + 1) * numCols;
  }

  /** A cell in a lower row has a larger linear index, whatever the two columns. */
  lemma RowMajorOrder(r1: int, c1: int, r2: int, c2: int, numCols: int)
    requires r1 < r2 && 0 <= c1 < numCols && 0 <= c2 < numCols
    ensures r1 * numCols + c1 < r2 * numCols + c2
  {
    MulMonotone(r1 + 1, r2, numCols);
    assert r1 * numCols + numCols == (r1 + 1) * numCols;
  }

  /** Two cells share a linear index exactly when they are the same cell. */
  lemma Sub2IndInjective(r1: int, c1: int, r2: int, c2: int, numCols: int)
    requires 0 <= c1 < numCols && 0 <= c2 < numCols
    ensures Sub2Ind(r1, c1, numCols) == Sub2Ind(r2, c2, numCols) <==> r1 == r2 && c1 == c2
  {
    if r1 < r2 {
      RowMajorOrder(r1, c1, r2, c2, numCols);
    } else if r2 < r1 {
      RowMajorOrder(r2, c2, r1, c1, numCols);
    }
  }

  /** Every linear index of the buffer is the index of exactly the cell Ind2Row, Ind2Col name. */
  lemma Ind2SubRoundTrip(ind: int, numRows: nat, numCols: nat)
    requires 0 <= ind < numRows * numCols
    ensures numCols > 0
    ensures InGrid(Ind2Row(ind, numCols), Ind2Col(ind, numCols), numRows, numCols)
    ensures Sub2Ind(Ind2Row(ind, numCols), Ind2Col(ind, numCols), numCols) == ind
  {
    var row, col := ind / numCols, ind % numCols;
    assert ind == row * numCols + col;
    if row < 0 {
      MulMonotone(row, -1, numCols);
    }
    if row >= numRows {
      MulMonotone(numRows, row, numCols);
    }
  }

  /** Integer division by numCols undoes row * numCols + col when 0 <= col < numCols. */
  lemma RowMajorDivMod(row: int, col: int, numCols: int)
    requires 0 <= col < numCols
    ensures (row * numCols + col) / numCols == row
    ensures (row * numCols + col) % numCols == col
  {
    var ind := row * numCols + col;
    var q, r := ind / numCols, ind % numCols;
    assert ind == q * numCols + r;
    if q < row {
      RowMajorOrder(q, r, row, col, numCols);
    } else if q > row {
      RowMajorOrder(row, col, q, r, numCols);
    }
  }

  /** Ind2Row and Ind2Col recover the cell from its linear index. */
  lemma Sub2IndRoundTrip(row: int, col: int, numCols: int)
    requires 0 <= col < numCols
    ensures Ind2Row(Sub2Ind(row, col, numCols), numCols) == row
    ensures Ind2Col(Sub2Ind(row, col, numCols), numCols) == col
  {
    RowMajorDivMod(row, col, numCols);
  }

  /** Writing cell (row, col) of a buffer touches the index of no other cell of the grid. */
  lemma OtherCellsOtherIndex(row: int, col: int, numRows: int, numCols: int)
    requires InGrid(row, col, numRows, numCols)
    ensures forall i, j :: InGrid(i, j, numRows, numCols) && (i != row || j != col) ==>
      Sub2Ind(i, j, numCols) != Sub2Ind(row, col, numCols)
  {
    forall i, j | InGrid(i, j, numRows, numCols) && (i != row || j != col)
      ensures Sub2Ind(i, j, numCols) != Sub2Ind(row, col, numCols)
    {
      Sub2IndInjective(i, j, row, col, numCols);
    }
  }

  /** Sub2IndInRange for every cell at once, for quantified statements over the grid. */
  lemma AllCellsInRange(numRows: int, numCols: int)
    ensures forall i, j :: InGrid(i, j, numRows, numCols) ==> 0 <= Sub2Ind(i, j, numCols) < numRows * numCols
  {
    forall i, j | InGrid(i, j, numRows, numCols)
      ensures 0 <= Sub2Ind(i, j, numCols) < numRows * numCols
    {
      Sub2IndInRange(i, j, numRows, numCols);
    }
  }
}
