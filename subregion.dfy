/**
 * extract_subregion in main_parallel.c: copy a destRows x destCols window,
 * whose top-left cell is (originRow, originCol) of a larger row-major grid,
 * into the front of a caller-supplied scratch buffer.
 */
module Subregion {
  import opened Grid

  /** The window lies entirely inside the source grid; the C code relies on its caller for this. */
  predicate WindowInside(originRow: int, originCol: int, srcRows: int, srcCols: int,
                         destRows: int, destCols: int)
  {
    0 <= originRow && originRow + destRows <= srcRows &&
    0 <= originCol && originCol + destCols <= srcCols &&
    0 <= destRows && 0 <= destCols
  }

  /** The window itself, as a row-major destRows x destCols grid. */
  function Window(source: seq<real>, originRow: int, originCol: int, srcRows: nat, srcCols: nat,
                  destRows: nat, destCols: nat): (w: seq<real>)
    requires |source| == srcRows * srcCols
    requires WindowInside(originRow, originCol, srcRows, srcCols, destRows, destCols)
    ensures |w| == destRows * destCols
  {
    seq(destRows * destCols, k requires 0 <= k < destRows * destCols =>
      Ind2SubRoundTrip(k, destRows, destCols);
      At(source, srcRows, srcCols, Ind2Row(k, destCols) + originRow, Ind2Col(k, destCols) + originCol))
  }

  /** Cell (row, col) of the window is cell (row + originRow, col + originCol) of the source. */
  lemma WindowAt(source: seq<real>, originRow: int, originCol: int, srcRows: nat, srcCols: nat,
                 destRows: nat, destCols: nat, row: int, col: int)
    requires |source| == srcRows * srcCols
    requires WindowInside(originRow, originCol, srcRows, srcCols, destRows, destCols)
    requires InGrid(row, col, destRows, destCols)
    ensures 0 <= Sub2Ind(row, col, destCols) < destRows * destCols
    ensures 0 <= Sub2Ind(row + originRow, col + originCol, srcCols) < |source|
    ensures Window(source, originRow, originCol, srcRows, srcCols, destRows, destCols)[Sub2Ind(row, col, destCols)]
         == source[Sub2Ind(row + originRow, col + originCol, srcCols)]
  {
    Sub2IndInRange(row, col, destRows, destCols);
    Sub2IndInRange(row + originRow, col + originCol, srcRows, srcCols);
    Sub2IndRoundTrip(row, col, destCols);
  }

  /**
   * extract_subregion. Writes dest[0 .. destRows * destCols) with the window
   * in row-major order and leaves the rest of dest and all of source alone.
   */
  method ExtractSubregion(dest: array<real>, source: array<real>, originRow: int, originCol: int,
                          srcRows: nat, srcCols: nat, destRows: nat, destCols: nat)
    requires source.Length == srcRows * srcCols
    requires WindowInside(originRow, originCol, srcRows, srcCols, destRows, destCols)
    requires destRows * destCols <= dest.Length
    requires dest != source
    modifies dest
    ensures dest[..destRows * destCols] == Window(source[..], originRow, originCol, srcRows, srcCols, destRows, destCols)
    ensures dest[destRows * destCols..] == old(dest[destRows * destCols..])
  {
    ghost var w := Window(source[..], originRow, originCol, srcRows, srcCols, destRows, destCols);
    var r := 0;
    while r < destRows
      invariant 0 <= r <= destRows
      invariant forall k :: 0 <= k < r * destCols ==> dest[k] == w[k]
      invariant forall k :: r * destCols <= k < dest.Length ==> dest[k] == old(dest[k])
    {
      MulMonotone(r + 1, destRows, destCols);
      var c := 0;
      while c < destCols
        invariant 0 <= c <= destCols
        invariant forall k :: 0 <= k < r * destCols + c ==> dest[k] == w[k]
        invariant forall k :: r * destCols + c <= k < dest.Length ==> dest[k] == old(dest[k])
      {
        WindowAt(source[..], originRow, originCol, srcRows, srcCols, destRows, destCols, r, c);
        dest[Sub2Ind(r, c, destCols)] := source[Sub2Ind(r + originRow, c + originCol, srcCols)];
        c := c + 1;
      }
      assert r * destCols + destCols == (r + 1) * destCols;
      r := r + 1;
    }
    MulMonotone(0, destRows, destCols);
  }
}
