/** The mutable 9x9 board of src/model/Matrix.ts. The class keeps its 81 cells in one array,
    row-major; the methods either write cells of that array in place (`setValue`, `setRow`,
    `setColumn`, `setCluster`, `reverse`) or replace the array by a freshly built one (`initialize`,
    `rotate`, `mirrowRows`, `mirrorColumns`), just as the source assigns `this.board`. Each method
    states its new contents as a function of the old ones from module Grid, and the transforms
    also state that a solved board stays solved. */
module Matrices {
  import opened Coordinates
  import opened Grid
  import opened Sudoku

  class Matrix {
    var board: array<int>

    ghost predicate Valid()
      reads this
    {
      board.Length == 81
    }

    /** The contents of the board, row-major. */
    function Cells(): Board
      reads this, board
      requires Valid()
    {
      board[..]
    }

    /** A new board with every cell empty. */
    constructor()
      ensures Valid() && fresh(board)
      ensures Cells() == Blank
    {
      board := new int[81](_ => 0);
    }

    /** `initialize`: the canonical solved board. */
    method Initialize()
      modifies this
      ensures Valid() && fresh(board)
      ensures Cells() == Solved
      ensures Complete(Cells())
    {
      board := new int[81](k requires 0 <= k < 81 => Solved[k]);
      SolvedIsComplete();
    }

    /** `getValue`: the cell at the coordinate's row and column. */
    function GetValue(c: Coordinate): (v: int)
      reads this, board
      requires Valid() && c.InBounds()
      ensures v == At(Cells(), c)
    {
      board[c.row * 9 + c.column]
    }

    /** `getRow`: element i is the cell in row `index`, column i. */
    function GetRow(index: int): (row: seq<int>)
      reads this, board
      requires Valid() && 0 <= index < 9
      ensures |row| == 9 && row == Row(Cells(), index)
      ensures forall i :: 0 <= i < 9 ==> row[i] == GetValue(Coordinate(index, i))
    {
      var cells := board[..];
      seq(9, i requires 0 <= i < 9 => cells[index * 9 + i])
    }

    /** `getColumn`: element i is the cell in row i, column `index`. */
    function GetColumn(index: int): (column: seq<int>)
      reads this, board
      requires Valid() && 0 <= index < 9
      ensures |column| == 9 && column == Column(Cells(), index)
      ensures forall i :: 0 <= i < 9 ==> column[i] == GetValue(Coordinate(i, index))
    {
      var cells := board[..];
      seq(9, i requires 0 <= i < 9 => cells[i * 9 + index])
    }

    /** `getCluster`: the nine cells of 3x3 box `index`, row by row inside the box. */
    function GetCluster(index: int): (cluster: seq<int>)
      reads this, board
      requires Valid() && 0 <= index < 9
      ensures |cluster| == 9 && cluster == Cluster(Cells(), index)
      ensures forall i :: 0 <= i < 9 ==>
        BoxOf(ClusterCell(index, i)) == index && SlotOf(ClusterCell(index, i)) == i
        && cluster[i] == GetValue(ClusterCell(index, i))
    {
      forall i | 0 <= i < 9
        ensures BoxOf(ClusterCell(index, i)) == index && SlotOf(ClusterCell(index, i)) == i
      {
        ClusterCellInverse(index, i);
      }
      var cells := board[..];
      seq(9, i requires 0 <= i < 9 => cells[ClusterOffset(index, i)])
    }

    /** `setValue`: the cell takes the value and no other cell changes. */
    method SetValue(c: Coordinate, value: int)
      requires Valid() && c.InBounds()
      modifies board
      ensures Valid() && Cells() == Put(old(Cells()), c, value)
      ensures GetValue(c) == value
      ensures forall d: Coordinate :: d.InBounds() && d != c ==> GetValue(d) == old(GetValue(d))
    {
      board[c.row * 9 + c.column] := value;
    }

    /** `setRow`: the first |row| cells of row `index` take the given values. */
    method SetRow(index: int, row: seq<int>)
      requires Valid() && 0 <= index < 9 && |row| <= 9
      modifies board
      ensures Valid() && Cells() == WithRow(old(Cells()), index, row)
      ensures forall d: Coordinate :: d.InBounds() ==>
        GetValue(d) == if d.row == index && d.column < |row| then row[d.column] else old(GetValue(d))
      ensures |row| == 9 ==> GetRow(index) == row
    {
      for i := 0 to |row|
        invariant forall k :: 0 <= k < 81 ==>
          board[k] == if k / 9 == index && k % 9 < i then row[k % 9] else old(board[k])
      {
        board[index * 9 + i] := row[i];
      }
      assert Cells() == WithRow(old(Cells()), index, row);
      forall d: Coordinate | d.InBounds()
        ensures GetValue(d) == if d.row == index && d.column < |row| then row[d.column] else old(GetValue(d))
      {
        assert board[Offset(d)] == Cells()[Offset(d)];
      }
    }

    /** `setColumn`: the first |column| cells of column `index` take the given values. */
    method SetColumn(index: int, column: seq<int>)
      requires Valid() && 0 <= index < 9 && |column| <= 9
      modifies board
      ensures Valid() && Cells() == WithColumn(old(Cells()), index, column)
      ensures forall d: Coordinate :: d.InBounds() ==>
        GetValue(d) == if d.column == index && d.row < |column| then column[d.row] else old(GetValue(d))
      ensures |column| == 9 ==> GetColumn(index) == column
    {
      for i := 0 to |column|
        invariant forall k :: 0 <= k < 81 ==>
          board[k] == if k % 9 == index && k / 9 < i then column[k / 9] else old(board[k])
      {
        board[i * 9 + index] := column[i];
      }
      assert Cells() == WithColumn(old(Cells()), index, column);
      forall d: Coordinate | d.InBounds()
        ensures GetValue(d) == if d.column == index && d.row < |column| then column[d.row] else old(GetValue(d))
      {
        assert board[Offset(d)] == Cells()[Offset(d)];
      }
    }

    /** `setCluster`: the first |cluster| cells of box `index` take the given values. */
    method SetCluster(index: int, cluster: seq<int>)
      requires Valid() && 0 <= index < 9 && |cluster| <= 9
      modifies board
      ensures Valid() && Cells() == WithCluster(old(Cells()), index, cluster)
      ensures forall d: Coordinate :: d.InBounds() ==>
        GetValue(d) == if BoxOf(d) == index && SlotOf(d) < |cluster| then cluster[SlotOf(d)] else old(GetValue(d))
      ensures |cluster| == 9 ==> GetCluster(index) == cluster
    {
      for i := 0 to |cluster|
        invariant Valid() && Cells() == WithCluster(old(Cells()), index, cluster[..i])
      {
        ClusterCellInverse(index, i);
        WithClusterStep(old(Cells()), index, cluster, i);
        board[ClusterOffset(index, i)] := cluster[i];
      }
      assert cluster[..|cluster|] == cluster;
      forall d: Coordinate | d.InBounds()
        ensures GetValue(d) == if BoxOf(d) == index && SlotOf(d) < |cluster| then cluster[SlotOf(d)]
                               else old(GetValue(d))
      {
        WithClusterAt(old(Cells()), index, cluster, d);
      }
      if |cluster| == 9 {
        WithClusterRoundTrip(old(Cells()), index, cluster);
      }
    }

    /** `reverse`: `Array.prototype.reverse` on the storage, in place. */
    method Reverse()
      requires Valid()
      modifies board
      ensures Valid() && Cells() == Reversed(old(Cells()))
    {
      var i := 0;
      while i < 40
        invariant 0 <= i <= 40
        invariant forall k :: 0 <= k < 81 ==>
          board[k] == if k < i || 80 - i < k then old(board[80 - k]) else old(board[k])
      {
        board[i], board[80 - i] := board[80 - i], board[i];
        i := i + 1;
      }
    }

    /** Replace the storage by a fresh array holding g. */
    method Store(g: Board)
      modifies this
      ensures Valid() && fresh(board) && Cells() == g
    {
      board := new int[81](k requires 0 <= k < 81 => g[k]);
    }

    /** `rotate`: the new row i is the old column 8 - i. */
    method Rotate()
      requires Valid()
      modifies this
      ensures Valid() && fresh(board) && Cells() == Rotated(old(Cells()))
      ensures forall c: Coordinate :: c.InBounds() ==> GetValue(c) == old(GetValue(Coordinate(c.column, 8 - c.row)))
      ensures Complete(old(Cells())) ==> Complete(Cells())
    {
      ghost var g := Cells();
      Store(Rotated(Cells()));
      forall c: Coordinate | c.InBounds()
        ensures GetValue(c) == At(g, Coordinate(c.column, 8 - c.row))
      {
        RotatedAt(g, c);
      }
      RotatedKeepsValidity(g);
    }

    /** `mirrowRows`: reverse the storage, then take its rows in the opposite order; together
        each row is mirrored left to right. */
    method MirrorRows()
      requires Valid()
      modifies this, board
      ensures Valid() && fresh(board) && Cells() == MirroredRows(old(Cells()))
      ensures forall c: Coordinate :: c.InBounds() ==> GetValue(c) == old(GetValue(Coordinate(c.row, 8 - c.column)))
      ensures Complete(old(Cells())) ==> Complete(Cells())
    {
      ghost var g := Cells();
      Reverse();
      var reversed := Cells();
      Store(FromRows(seq(9, i requires 0 <= i < 9 => Row(reversed, 8 - i))));
      forall c: Coordinate | c.InBounds()
        ensures GetValue(c) == At(g, Coordinate(c.row, 8 - c.column))
      {
        MirroredRowsAt(g, c);
      }
      MirroredRowsKeepsValidity(g);
    }

    /** `mirrorColumns`: the new row i is the old row 8 - i. */
    method MirrorColumns()
      requires Valid()
      modifies this
      ensures Valid() && fresh(board) && Cells() == MirroredColumns(old(Cells()))
      ensures forall c: Coordinate :: c.InBounds() ==> GetValue(c) == old(GetValue(Coordinate(8 - c.row, c.column)))
      ensures Complete(old(Cells())) ==> Complete(Cells())
    {
      ghost var g := Cells();
      Store(MirroredColumns(Cells()));
      forall c: Coordinate | c.InBounds()
        ensures GetValue(c) == At(g, Coordinate(8 - c.row, c.column))
      {
        MirroredColumnsAt(g, c);
      }
      MirroredColumnsKeepsValidity(g);
    }

    /** `swapRowsByIndex`: save row index1, copy row index2 over it, write the saved row to index2. */
    method SwapRowsByIndex(index1: int, index2: int)
      requires Valid() && 0 <= index1 < 9 && 0 <= index2 < 9
      modifies board
      ensures Valid() && Cells() == RowsSwapped(old(Cells()), index1, index2)
      ensures forall c: Coordinate :: c.InBounds() ==>
        GetValue(c) == old(GetValue(Coordinate(Exchange(c.row, index1, index2), c.column)))
    {
      ghost var g := Cells();
      var temp := GetRow(index1);
      SetRow(index1, GetRow(index2));
      SetRow(index2, temp);
      forall c: Coordinate | c.InBounds()
        ensures GetValue(c) == At(g, Coordinate(Exchange(c.row, index1, index2), c.column))
      {
        RowsSwappedAt(g, index1, index2, c);
      }
    }

    /** `swapColumnsByIndex`. */
    method SwapColumnsByIndex(index1: int, index2: int)
      requires Valid() && 0 <= index1 < 9 && 0 <= index2 < 9
      modifies board
      ensures Valid() && Cells() == ColumnsSwapped(old(Cells()), index1, index2)
      ensures forall c: Coordinate :: c.InBounds() ==>
        GetValue(c) == old(GetValue(Coordinate(c.row, Exchange(c.column, index1, index2))))
    {
      ghost var g := Cells();
      var temp := GetColumn(index1);
      SetColumn(index1, GetColumn(index2));
      SetColumn(index2, temp);
      forall c: Coordinate | c.InBounds()
        ensures GetValue(c) == At(g, Coordinate(c.row, Exchange(c.column, index1, index2)))
      {
        ColumnsSwappedAt(g, index1, index2, c);
      }
    }

    /** `swapRows(cluster, pivot)`: exchange the two rows of band `cluster` other than row
        `pivot % 3` of the band. */
    method SwapRows(cluster: int, pivot: int)
      requires Valid() && 0 <= cluster < 3 && 0 <= pivot
      modifies board
      ensures Valid() && Cells() == BandRowsSwapped(old(Cells()), cluster, pivot)
      ensures Complete(old(Cells())) ==> Complete(Cells())
    {
      ghost var g := Cells();
      SwappedLines(cluster, pivot);
      SwapRowsByIndex((pivot + 1) % 3 + cluster * 3, (pivot + 2) % 3 + cluster * 3);
      BandRowsSwappedKeepsValidity(g, cluster, pivot);
    }

    /** `swapColumns(cluster, pivot)`. */
    method SwapColumns(cluster: int, pivot: int)
      requires Valid() && 0 <= cluster < 3 && 0 <= pivot
      modifies board
      ensures Valid() && Cells() == StackColumnsSwapped(old(Cells()), cluster, pivot)
      ensures Complete(old(Cells())) ==> Complete(Cells())
    {
      ghost var g := Cells();
      SwappedLines(cluster, pivot);
      SwapColumnsByIndex((pivot + 1) % 3 + cluster * 3, (pivot + 2) % 3 + cluster * 3);
      StackColumnsSwappedKeepsValidity(g, cluster, pivot);
    }

    /** `swapRowClusters(pivot)`: exchange the two bands other than band `pivot % 3`, one row
        pair at a time. */
    method SwapRowClusters(pivot: int)
      requires Valid() && 0 <= pivot
      modifies board
      ensures Valid() && Cells() == BandsSwapped(old(Cells()), pivot)
      ensures Complete(old(Cells())) ==> Complete(Cells())
    {
      ghost var g := Cells();
      var i1 := ((pivot + 1) % 3) * 3;
      var i2 := ((pivot + 2) % 3) * 3;
      BandStarts(pivot);
      SwapRowsByIndex(i1, i2);
      SwapRowsByIndex(i1 + 1, i2 + 1);
      SwapRowsByIndex(i1 + 2, i2 + 2);
      BandsSwappedKeepsValidity(g, pivot);
    }

    /** `swapColumnClusters(pivot)`. */
    method SwapColumnClusters(pivot: int)
      requires Valid() && 0 <= pivot
      modifies board
      ensures Valid() && Cells() == StacksSwapped(old(Cells()), pivot)
      ensures Complete(old(Cells())) ==> Complete(Cells())
    {
      ghost var g := Cells();
      var i1 := ((pivot + 1) % 3) * 3;
      var i2 := ((pivot + 2) % 3) * 3;
      BandStarts(pivot);
      SwapColumnsByIndex(i1, i2);
      SwapColumnsByIndex(i1 + 1, i2 + 1);
      SwapColumnsByIndex(i1 + 2, i2 + 2);
      StacksSwappedKeepsValidity(g, pivot);
    }
  }
}
