/** `isValid` and its three scans from src/util/BoardHelper.ts. Each scan walks a cursor
    coordinate over one row, one column or one 3x3 cluster, skips the cell itself with
    `equals`, and fails on the first cell that holds the same value; a scan over the rest of
    the cursor's range becomes a recursive function over the cursor position. */
module Validity {
  import opened Coordinates
  import opened Grid
  import opened Sudoku

  /** The row scan of `checkRow` from column `column` on. */
  function RowScan(g: Board, cell: Coordinate, column: int): (ok: bool)
    requires cell.InBounds() && 0 <= column
    ensures ok <==> forall j :: column <= j < 9 && j != cell.column ==>
      At(g, Coordinate(cell.row, j)) != At(g, cell)
    decreases 9 - column
  {
    if column >= 9 then true
    else
      var i := Coordinate(cell.row, column);
      if i.Equals(cell) then RowScan(g, cell, column + 1)
      else if At(g, i) == At(g, cell) then false
      else RowScan(g, cell, column + 1)
  }

  /** The column scan of `checkColumn` from row `row` on. */
  function ColumnScan(g: Board, cell: Coordinate, row: int): (ok: bool)
    requires cell.InBounds() && 0 <= row
    ensures ok <==> forall j :: row <= j < 9 && j != cell.row ==>
      At(g, Coordinate(j, cell.column)) != At(g, cell)
    decreases 9 - row
  {
    if row >= 9 then true
    else
      var i := Coordinate(row, cell.column);
      if i.Equals(cell) then ColumnScan(g, cell, row + 1)
      else if At(g, i) == At(g, cell) then false
      else ColumnScan(g, cell, row + 1)
  }

  /** Step k of the two nested cursor loops of `checkCluster`: row k / 3 and column k % 3 of
      the cell's box. */
  function BoxCursor(cell: Coordinate, k: int): (i: Coordinate)
    requires cell.InBounds() && 0 <= k < 9
    ensures i.InBounds() && SameBox(i, cell)
  {
    Coordinate((cell.row / 3) * 3 + k / 3, (cell.column / 3) * 3 + k % 3)
  }

  /** Every cell of the box is visited by the cursor, at step `SlotOf`. */
  lemma BoxCursorCovers(cell: Coordinate, d: Coordinate)
    requires cell.InBounds() && d.InBounds() && SameBox(d, cell)
    ensures 0 <= SlotOf(d) < 9 && BoxCursor(cell, SlotOf(d)) == d
  {
    Thirds(d.row % 3, d.column % 3);
  }

  /** The scan of `checkCluster` from cursor step k on. */
  function ClusterScan(g: Board, cell: Coordinate, k: int): (ok: bool)
    requires cell.InBounds() && 0 <= k
    ensures ok <==> forall j :: k <= j < 9 && BoxCursor(cell, j) != cell ==>
      At(g, BoxCursor(cell, j)) != At(g, cell)
    decreases 9 - k
  {
    if k >= 9 then true
    else
      var i := BoxCursor(cell, k);
      if i.Equals(cell) then ClusterScan(g, cell, k + 1)
      else if At(g, i) == At(g, cell) then false
      else ClusterScan(g, cell, k + 1)
  }

  /** `checkRow`: an empty cell passes; otherwise no other cell of its row holds its value. */
  function CheckRow(g: Board, cell: Coordinate): (ok: bool)
    requires cell.InBounds()
    ensures ok <==> (At(g, cell) == 0 ||
      forall d: Coordinate :: d.InBounds() && d.row == cell.row && d != cell ==> At(g, d) != At(g, cell))
  {
    At(g, cell) == 0 || RowScan(g, cell, 0)
  }

  /** `checkColumn`: an empty cell passes; otherwise no other cell of its column holds its value. */
  function CheckColumn(g: Board, cell: Coordinate): (ok: bool)
    requires cell.InBounds()
    ensures ok <==> (At(g, cell) == 0 ||
      forall d: Coordinate :: d.InBounds() && d.column == cell.column && d != cell ==> At(g, d) != At(g, cell))
  {
    At(g, cell) == 0 || ColumnScan(g, cell, 0)
  }

  /** `checkCluster`: an empty cell passes; otherwise no other cell of its 3x3 box holds its value. */
  function CheckCluster(g: Board, cell: Coordinate): (ok: bool)
    requires cell.InBounds()
    ensures ok <==> (At(g, cell) == 0 ||
      forall d: Coordinate :: d.InBounds() && SameBox(d, cell) && d != cell ==> At(g, d) != At(g, cell))
  {
    if At(g, cell) == 0 then true
    else
      var ok := ClusterScan(g, cell, 0);
      assert ok ==> forall d: Coordinate :: d.InBounds() && SameBox(d, cell) && d != cell ==> At(g, d) != At(g, cell) by {
        forall d: Coordinate | ok && d.InBounds() && SameBox(d, cell) && d != cell
          ensures At(g, d) != At(g, cell)
        {
          BoxCursorCovers(cell, d);
        }
      }
      ok
  }

  /** `isValid`: the cell is empty or has no peer holding its value. */
  function IsValid(g: Board, cell: Coordinate): (ok: bool)
    requires cell.InBounds()
    ensures ok <==> PeerFree(g, cell)
  {
    CheckRow(g, cell) && CheckColumn(g, cell) && CheckCluster(g, cell)
  }

  /** On a solved board every cell passes `isValid`. */
  lemma CompleteIsValid(g: Board, cell: Coordinate)
    requires Complete(g) && cell.InBounds()
    ensures IsValid(g, cell) && At(g, cell) != 0
  {
    CompleteIffFilledNoConflicts(g);
  }
}
