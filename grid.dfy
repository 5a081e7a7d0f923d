/** The value of a Matrix (src/model/Matrix.ts): 81 integers in row-major order, 0 meaning an
    empty cell. Every accessor, writer and transform of the class is specified by a function
    here, written the way the class computes it; the lemmas state what each one means cell by
    cell, and the identity laws of the transforms. */
module Grid {
  import opened Coordinates

  type Board = g: seq<int> | |g| == 81 witness seq(81, _ => 0)

  /** The board the constructor builds: every cell empty. */
  const Blank: Board := seq(81, _ => 0)

  /** The array literal `initialize` writes, nine entries per row: row r is 1..9 rotated left
      by 3 * (r % 3) + r / 3. */
  const SolvedRows: seq<seq<int>> := [
    [1, 2, 3, 4, 5, 6, 7, 8, 9],
    [4, 5, 6, 7, 8, 9, 1, 2, 3],
    [7, 8, 9, 1, 2, 3, 4, 5, 6],
    [2, 3, 4, 5, 6, 7, 8, 9, 1],
    [5, 6, 7, 8, 9, 1, 2, 3, 4],
    [8, 9, 1, 2, 3, 4, 5, 6, 7],
    [3, 4, 5, 6, 7, 8, 9, 1, 2],
    [6, 7, 8, 9, 1, 2, 3, 4, 5],
    [9, 1, 2, 3, 4, 5, 6, 7, 8]
  ]

  /** The board `initialize` writes: storage position k holds entry k % 9 of row k / 9. */
  const Solved: Board := seq(81, k requires 0 <= k < 81 => SolvedRows[k / 9][k % 9])

  /** Storage position of a cell, `index.row * 9 + index.column`. */
  function Offset(c: Coordinate): (k: nat)
    requires c.InBounds()
    ensures k < 81 && k / 9 == c.row && k % 9 == c.column
  {
    c.row * 9 + c.column
  }

  /** The cell stored at position k. */
  function CellAt(k: int): (c: Coordinate)
    requires 0 <= k < 81
    ensures c.InBounds() && Offset(c) == k
  {
    Coordinate(k / 9, k % 9)
  }

  /** `getValue` on a board. */
  function At(g: Board, c: Coordinate): (v: int)
    requires c.InBounds()
  {
    g[Offset(c)]
  }

  /** `setValue` on a board: the cell holds v and no other cell changes. */
  function Put(g: Board, c: Coordinate, v: int): (h: Board)
    requires c.InBounds()
    ensures At(h, c) == v
    ensures forall d: Coordinate :: d.InBounds() && d != c ==> At(h, d) == At(g, d)
  {
    g[Offset(c) := v]
  }

  /** Two boards that agree on every cell are equal. */
  lemma Extensionality(g: Board, h: Board)
    requires forall d: Coordinate :: d.InBounds() ==> At(g, d) == At(h, d)
    ensures g == h
  {
    forall k | 0 <= k < 81
      ensures g[k] == h[k]
    {
      assert At(g, CellAt(k)) == At(h, CellAt(k));
    }
  }

  // ---------------------------------------------------------------------------------------
  // Accessors: `getRow`, `getColumn`, `getCluster` and the matching writers
  // ---------------------------------------------------------------------------------------

  function Row(g: Board, index: int): (s: seq<int>)
    requires 0 <= index < 9
  {
    seq(9, i requires 0 <= i < 9 => g[index * 9 + i])
  }

  function Column(g: Board, index: int): (s: seq<int>)
    requires 0 <= index < 9
  {
    seq(9, i requires 0 <= i < 9 => g[i * 9 + index])
  }

  /** Storage position of element i of cluster `index`, as `getCluster` computes it; it is the
      cell at row 3 * (index / 3) + i / 3 and column 3 * (index % 3) + i % 3. */
  function ClusterOffset(index: int, i: int): (k: nat)
    requires 0 <= index < 9 && 0 <= i < 9
    ensures k == Offset(ClusterCell(index, i))
  {
    i % 3 + (i / 3) * 9 + (index % 3) * 3 + (index / 3) * 27
  }

  function Cluster(g: Board, index: int): (s: seq<int>)
    requires 0 <= index < 9
  {
    seq(9, i requires 0 <= i < 9 => g[ClusterOffset(index, i)])
  }

  /** The cluster (3x3 box) number of a cell, row-major by band and then by stack. */
  function BoxOf(c: Coordinate): (b: int)
    requires c.InBounds()
    ensures 0 <= b < 9
  {
    (c.row / 3) * 3 + c.column / 3
  }

  /** The position of a cell inside its cluster. */
  function SlotOf(c: Coordinate): (s: int)
    requires c.InBounds()
    ensures 0 <= s < 9
  {
    (c.row % 3) * 3 + c.column % 3
  }

  /** Element i of cluster `index`. */
  function ClusterCell(index: int, i: int): (c: Coordinate)
    requires 0 <= index < 9 && 0 <= i < 9
    ensures c.InBounds()
  {
    Coordinate(3 * (index / 3) + i / 3, 3 * (index % 3) + i % 3)
  }

  /** `ClusterCell` and (`BoxOf`, `SlotOf`) are inverse bijections between the 81 cells and
      the pairs (cluster, position in cluster). */
  lemma ClusterCellInverse(index: int, i: int)
    requires 0 <= index < 9 && 0 <= i < 9
    ensures BoxOf(ClusterCell(index, i)) == index && SlotOf(ClusterCell(index, i)) == i
  {
    Thirds(index / 3, i / 3);
    Thirds(index % 3, i % 3);
  }

  lemma CellClusterInverse(c: Coordinate)
    requires c.InBounds()
    ensures ClusterCell(BoxOf(c), SlotOf(c)) == c
  {
    var b, i := BoxOf(c), SlotOf(c);
    Thirds(c.row / 3, c.column / 3);
    Thirds(c.row % 3, c.column % 3);
    assert b / 3 == c.row / 3 && b % 3 == c.column / 3;
    assert i / 3 == c.row % 3 && i % 3 == c.column % 3;
    var d := ClusterCell(b, i);
    assert d.row == 3 * (c.row / 3) + c.row % 3 == c.row;
    assert d.column == 3 * (c.column / 3) + c.column % 3 == c.column;
  }

  lemma Thirds(x: int, y: int)
    requires 0 <= x < 3 && 0 <= y < 3
    ensures (3 * x + y) / 3 == x && (3 * x + y) % 3 == y
  {
  }

  /** `setRow` on a board: the first |row| cells of row `index` take the given values. */
  function WithRow(g: Board, index: int, row: seq<int>): (h: Board)
    requires 0 <= index < 9 && |row| <= 9
  {
    seq(81, k requires 0 <= k < 81 => if k / 9 == index && k % 9 < |row| then row[k % 9] else g[k])
  }

  /** `setColumn` on a board. */
  function WithColumn(g: Board, index: int, column: seq<int>): (h: Board)
    requires 0 <= index < 9 && |column| <= 9
  {
    seq(81, k requires 0 <= k < 81 =>
      if k % 9 == index && k / 9 < |column| then column[k / 9] else g[k])
  }

  /** `setCluster` on a board. */
  function WithCluster(g: Board, index: int, cluster: seq<int>): (h: Board)
    requires 0 <= index < 9 && |cluster| <= 9
  {
    seq(81, k requires 0 <= k < 81 =>
      var c := CellAt(k);
      if BoxOf(c) == index && SlotOf(c) < |cluster| then cluster[SlotOf(c)] else g[k])
  }

  /** Entry j of row r is the cell in row r and column j. */
  lemma RowEntry(g: Board, r: int, j: int)
    requires 0 <= r < 9 && 0 <= j < 9
    ensures Row(g, r)[j] == At(g, Coordinate(r, j))
  {
  }

  /** Entry j of column i is the cell in row j and column i. */
  lemma ColumnEntry(g: Board, i: int, j: int)
    requires 0 <= i < 9 && 0 <= j < 9
    ensures Column(g, i)[j] == At(g, Coordinate(j, i))
  {
  }

  /** What `setRow` leaves in each cell. */
  lemma WithRowAt(g: Board, index: int, row: seq<int>, d: Coordinate)
    requires 0 <= index < 9 && |row| <= 9 && d.InBounds()
    ensures At(WithRow(g, index, row), d)
         == if d.row == index && d.column < |row| then row[d.column] else At(g, d)
  {
  }

  /** What `setColumn` leaves in each cell. */
  lemma WithColumnAt(g: Board, index: int, column: seq<int>, d: Coordinate)
    requires 0 <= index < 9 && |column| <= 9 && d.InBounds()
    ensures At(WithColumn(g, index, column), d)
         == if d.column == index && d.row < |column| then column[d.row] else At(g, d)
  {
  }

  /** What `setCluster` leaves in each cell. */
  lemma WithClusterAt(g: Board, index: int, cluster: seq<int>, d: Coordinate)
    requires 0 <= index < 9 && |cluster| <= 9 && d.InBounds()
    ensures At(WithCluster(g, index, cluster), d)
         == if BoxOf(d) == index && SlotOf(d) < |cluster| then cluster[SlotOf(d)] else At(g, d)
  {
    assert CellAt(Offset(d)) == d;
  }

  /** Writing slot i of the cluster extends the written prefix by one. */
  lemma WithClusterStep(g: Board, index: int, cluster: seq<int>, i: int)
    requires 0 <= index < 9 && |cluster| <= 9 && 0 <= i < |cluster|
    ensures WithCluster(g, index, cluster[..i])[ClusterOffset(index, i) := cluster[i]]
         == WithCluster(g, index, cluster[..i + 1])
  {
    var written := WithCluster(g, index, cluster[..i])[ClusterOffset(index, i) := cluster[i]];
    forall k | 0 <= k < 81
      ensures written[k] == WithCluster(g, index, cluster[..i + 1])[k]
    {
      WithClusterStepAt(g, index, cluster, i, k);
    }
  }

  /** The same, at one storage position k. */
  lemma WithClusterStepAt(g: Board, index: int, cluster: seq<int>, i: int, k: int)
    requires 0 <= index < 9 && |cluster| <= 9 && 0 <= i < |cluster| && 0 <= k < 81
    ensures WithCluster(g, index, cluster[..i])[ClusterOffset(index, i) := cluster[i]][k]
         == WithCluster(g, index, cluster[..i + 1])[k]
  {
    var c := CellAt(k);
    if k == ClusterOffset(index, i) {
      ClusterCellInverse(index, i);
      assert c == ClusterCell(index, i);
      assert cluster[..i + 1][i] == cluster[i];
    } else {
      CellClusterInverse(c);
      assert !(BoxOf(c) == index && SlotOf(c) == i);
      if BoxOf(c) == index && SlotOf(c) < i {
        assert cluster[..i][SlotOf(c)] == cluster[..i + 1][SlotOf(c)];
      }
    }
  }

  /** Reading back a full cluster just written gives it back. */
  lemma WithClusterRoundTrip(g: Board, index: int, cluster: seq<int>)
    requires 0 <= index < 9 && |cluster| == 9
    ensures Cluster(WithCluster(g, index, cluster), index) == cluster
  {
    forall i | 0 <= i < 9
      ensures Cluster(WithCluster(g, index, cluster), index)[i] == cluster[i]
    {
      ClusterCellInverse(index, i);
      WithClusterAt(g, index, cluster, ClusterCell(index, i));
    }
  }

  // ---------------------------------------------------------------------------------------
  // Transforms
  // ---------------------------------------------------------------------------------------

  /** JavaScript's `flat()` on a list of rows. */
  function Flatten(rows: seq<seq<int>>): (flat: seq<int>)
    ensures (forall i :: 0 <= i < |rows| ==> |rows[i]| == 9) ==> |flat| == 9 * |rows|
  {
    if rows == [] then [] else rows[0] + Flatten(rows[1..])
  }

  lemma {:induction false} FlattenAt(rows: seq<seq<int>>, i: int, j: int)
    requires forall k :: 0 <= k < |rows| ==> |rows[k]| == 9
    requires 0 <= i < |rows| && 0 <= j < 9
    ensures |Flatten(rows)| == 9 * |rows| && Flatten(rows)[i * 9 + j] == rows[i][j]
  {
    if i > 0 {
      FlattenAt(rows[1..], i - 1, j);
    }
  }

  /** Nine rows of nine, flattened into a board. */
  function FromRows(rows: seq<seq<int>>): (g: Board)
    requires |rows| == 9 && forall i :: 0 <= i < 9 ==> |rows[i]| == 9
    ensures forall c: Coordinate :: c.InBounds() ==> At(g, c) == rows[c.row][c.column]
  {
    forall c: Coordinate | c.InBounds()
      ensures Flatten(rows)[Offset(c)] == rows[c.row][c.column]
    {
      FlattenAt(rows, c.row, c.column);
    }
    Flatten(rows)
  }

  /** `Array.prototype.reverse` on the storage. */
  function Reversed(g: Board): (h: Board)
  {
    seq(81, k requires 0 <= k < 81 => g[80 - k])
  }

  /** `rotate`: row i of the result is column 8 - i. */
  function Rotated(g: Board): (h: Board)
  {
    FromRows(seq(9, i requires 0 <= i < 9 => Column(g, 8 - i)))
  }

  /** `mirrowRows`: reverse the storage, then take its rows bottom-up. */
  function MirroredRows(g: Board): (h: Board)
  {
    var reversed := Reversed(g);
    FromRows(seq(9, i requires 0 <= i < 9 => Row(reversed, 8 - i)))
  }

  /** `mirrorColumns`: the rows bottom-up. */
  function MirroredColumns(g: Board): (h: Board)
  {
    FromRows(seq(9, i requires 0 <= i < 9 => Row(g, 8 - i)))
  }

  /** `swapRowsByIndex`: save row i1, overwrite it with row i2, write the saved row to i2. */
  function RowsSwapped(g: Board, i1: int, i2: int): (h: Board)
    requires 0 <= i1 < 9 && 0 <= i2 < 9
  {
    var temp := Row(g, i1);
    var h := WithRow(g, i1, Row(g, i2));
    WithRow(h, i2, temp)
  }

  /** `swapColumnsByIndex`. */
  function ColumnsSwapped(g: Board, i1: int, i2: int): (h: Board)
    requires 0 <= i1 < 9 && 0 <= i2 < 9
  {
    var temp := Column(g, i1);
    var h := WithColumn(g, i1, Column(g, i2));
    WithColumn(h, i2, temp)
  }

  /** The two lines of band `cluster` that `swapRows`/`swapColumns` exchange: every line of
      the band except line `pivot % 3`. */
  function FirstSwapped(cluster: int, pivot: int): (v: int)
  {
    (pivot + 1) % 3 + cluster * 3
  }

  function SecondSwapped(cluster: int, pivot: int): (v: int)
  {
    (pivot + 2) % 3 + cluster * 3
  }

  /** `swapRows(cluster, pivot)`. */
  function BandRowsSwapped(g: Board, cluster: int, pivot: int): (h: Board)
    requires 0 <= cluster < 3 && 0 <= pivot
  {
    RowsSwapped(g, FirstSwapped(cluster, pivot), SecondSwapped(cluster, pivot))
  }

  /** `swapColumns(cluster, pivot)`. */
  function StackColumnsSwapped(g: Board, cluster: int, pivot: int): (h: Board)
    requires 0 <= cluster < 3 && 0 <= pivot
  {
    ColumnsSwapped(g, FirstSwapped(cluster, pivot), SecondSwapped(cluster, pivot))
  }

  /** `swapRowClusters(pivot)`: three row swaps between the two bands other than `pivot % 3`. */
  function BandsSwapped(g: Board, pivot: int): (h: Board)
    requires 0 <= pivot
  {
    var i1 := ((pivot + 1) % 3) * 3;
    var i2 := ((pivot + 2) % 3) * 3;
    RowsSwapped(RowsSwapped(RowsSwapped(g, i1, i2), i1 + 1, i2 + 1), i1 + 2, i2 + 2)
  }

  /** `swapColumnClusters(pivot)`. */
  function StacksSwapped(g: Board, pivot: int): (h: Board)
    requires 0 <= pivot
  {
    var i1 := ((pivot + 1) % 3) * 3;
    var i2 := ((pivot + 2) % 3) * 3;
    ColumnsSwapped(ColumnsSwapped(ColumnsSwapped(g, i1, i2), i1 + 1, i2 + 1), i1 + 2, i2 + 2)
  }

  // ---------------------------------------------------------------------------------------
  // What each transform does to a single cell
  // ---------------------------------------------------------------------------------------

  /** Line x after exchanging lines a and b. */
  function Exchange(x: int, a: int, b: int): (v: int)
  {
    if x == a then b else if x == b then a else x
  }

  /** Line x after exchanging the bands of lines i1 and i2 (both multiples of 3). */
  function BandExchange(x: int, i1: int, i2: int): (v: int)
  {
    if x / 3 == i1 / 3 then x - i1 + i2 else if x / 3 == i2 / 3 then x - i2 + i1 else x
  }

  lemma RotatedAt(g: Board, c: Coordinate)
    requires c.InBounds()
    ensures At(Rotated(g), c) == At(g, Coordinate(c.column, 8 - c.row))
  {
    var rows := seq(9, i requires 0 <= i < 9 => Column(g, 8 - i));
    assert At(Rotated(g), c) == rows[c.row][c.column];
    ColumnEntry(g, 8 - c.row, c.column);
  }

  /** Reversing the storage sends each cell to the cell mirrored through the centre. */
  lemma ReversedAt(g: Board, c: Coordinate, d: Coordinate)
    requires c.InBounds() && d.InBounds() && d.row == 8 - c.row && d.column == 8 - c.column
    ensures At(Reversed(g), c) == At(g, d)
  {
    assert Offset(d) == 80 - Offset(c);
  }

  lemma MirroredRowsAt(g: Board, c: Coordinate)
    requires c.InBounds()
    ensures At(MirroredRows(g), c) == At(g, Coordinate(c.row, 8 - c.column))
  {
    var reversed := Reversed(g);
    var rows := seq(9, i requires 0 <= i < 9 => Row(reversed, 8 - i));
    assert At(MirroredRows(g), c) == rows[c.row][c.column];
    RowEntry(reversed, 8 - c.row, c.column);
    ReversedAt(g, Coordinate(8 - c.row, c.column), Coordinate(c.row, 8 - c.column));
  }

  lemma MirroredColumnsAt(g: Board, c: Coordinate)
    requires c.InBounds()
    ensures At(MirroredColumns(g), c) == At(g, Coordinate(8 - c.row, c.column))
  {
    var rows := seq(9, i requires 0 <= i < 9 => Row(g, 8 - i));
    assert At(MirroredColumns(g), c) == rows[c.row][c.column];
    RowEntry(g, 8 - c.row, c.column);
  }

  lemma RowsSwappedAt(g: Board, i1: int, i2: int, c: Coordinate)
    requires 0 <= i1 < 9 && 0 <= i2 < 9 && c.InBounds()
    ensures At(RowsSwapped(g, i1, i2), c) == At(g, Coordinate(Exchange(c.row, i1, i2), c.column))
  {
    var h := WithRow(g, i1, Row(g, i2));
    WithRowAt(h, i2, Row(g, i1), c);
    WithRowAt(g, i1, Row(g, i2), c);
    if c.row == i2 {
      RowEntry(g, i1, c.column);
    } else if c.row == i1 {
      RowEntry(g, i2, c.column);
    }
  }

  lemma ColumnsSwappedAt(g: Board, i1: int, i2: int, c: Coordinate)
    requires 0 <= i1 < 9 && 0 <= i2 < 9 && c.InBounds()
    ensures At(ColumnsSwapped(g, i1, i2), c) == At(g, Coordinate(c.row, Exchange(c.column, i1, i2)))
  {
    var h := WithColumn(g, i1, Column(g, i2));
    WithColumnAt(h, i2, Column(g, i1), c);
    WithColumnAt(g, i1, Column(g, i2), c);
    if c.column == i2 {
      ColumnEntry(g, i1, c.row);
    } else if c.column == i1 {
      ColumnEntry(g, i2, c.row);
    }
  }

  /** The two lines `swapRows`/`swapColumns` exchange are distinct lines of the band. */
  lemma SwappedInBand(cluster: int, pivot: int)
    requires 0 <= cluster < 3 && 0 <= pivot
    ensures FirstSwapped(cluster, pivot) != SecondSwapped(cluster, pivot)
    ensures FirstSwapped(cluster, pivot) / 3 == cluster && SecondSwapped(cluster, pivot) / 3 == cluster
  {
  }

  lemma BandRowsSwappedAt(g: Board, cluster: int, pivot: int, c: Coordinate)
    requires 0 <= cluster < 3 && 0 <= pivot && c.InBounds()
    ensures FirstSwapped(cluster, pivot) != SecondSwapped(cluster, pivot)
    ensures FirstSwapped(cluster, pivot) / 3 == cluster && SecondSwapped(cluster, pivot) / 3 == cluster
    ensures At(BandRowsSwapped(g, cluster, pivot), c)
         == At(g, Coordinate(Exchange(c.row, FirstSwapped(cluster, pivot), SecondSwapped(cluster, pivot)), c.column))
  {
    SwappedInBand(cluster, pivot);
    RowsSwappedAt(g, FirstSwapped(cluster, pivot), SecondSwapped(cluster, pivot), c);
  }

  lemma StackColumnsSwappedAt(g: Board, cluster: int, pivot: int, c: Coordinate)
    requires 0 <= cluster < 3 && 0 <= pivot && c.InBounds()
    ensures FirstSwapped(cluster, pivot) != SecondSwapped(cluster, pivot)
    ensures FirstSwapped(cluster, pivot) / 3 == cluster && SecondSwapped(cluster, pivot) / 3 == cluster
    ensures At(StackColumnsSwapped(g, cluster, pivot), c)
         == At(g, Coordinate(c.row, Exchange(c.column, FirstSwapped(cluster, pivot), SecondSwapped(cluster, pivot))))
  {
    SwappedInBand(cluster, pivot);
    ColumnsSwappedAt(g, FirstSwapped(cluster, pivot), SecondSwapped(cluster, pivot), c);
  }

  /** The two bands `swapRowClusters(pivot)` exchanges start at distinct multiples of 3. */
  lemma BandStarts(pivot: int)
    requires 0 <= pivot
    ensures var i1 := ((pivot + 1) % 3) * 3; var i2 := ((pivot + 2) % 3) * 3;
      i1 != i2 && (i1 == 0 || i1 == 3 || i1 == 6) && (i2 == 0 || i2 == 3 || i2 == 6)
  {
  }

  /** Exchanging lines i1 + 2, then i1 + 1, then i1 with the matching lines of the other band
      exchanges the two bands. */
  lemma ExchangeThree(x: int, i1: int, i2: int)
    requires 0 <= x < 9 && i1 != i2 && (i1 == 0 || i1 == 3 || i1 == 6) && (i2 == 0 || i2 == 3 || i2 == 6)
    ensures Exchange(Exchange(Exchange(x, i1 + 2, i2 + 2), i1 + 1, i2 + 1), i1, i2) == BandExchange(x, i1, i2)
    ensures 0 <= BandExchange(x, i1, i2) < 9 && BandExchange(BandExchange(x, i1, i2), i1, i2) == x
    ensures BandExchange(x, i1, i2) % 3 == x % 3
  {
  }

  /** Three row exchanges, line by line: i1 + 2 with i2 + 2, then i1 + 1 with i2 + 1, then
      i1 with i2. */
  lemma ThreeRowSwapsAt(g: Board, i1: int, i2: int, c: Coordinate)
    requires 0 <= i1 < 7 && 0 <= i2 < 7 && c.InBounds()
    ensures At(RowsSwapped(RowsSwapped(RowsSwapped(g, i1, i2), i1 + 1, i2 + 1), i1 + 2, i2 + 2), c)
         == At(g, Coordinate(Exchange(Exchange(Exchange(c.row, i1 + 2, i2 + 2), i1 + 1, i2 + 1), i1, i2), c.column))
  {
    var g1 := RowsSwapped(g, i1, i2);
    var g2 := RowsSwapped(g1, i1 + 1, i2 + 1);
    RowsSwappedAt(g2, i1 + 2, i2 + 2, c);
    var c2 := Coordinate(Exchange(c.row, i1 + 2, i2 + 2), c.column);
    RowsSwappedAt(g1, i1 + 1, i2 + 1, c2);
    var c1 := Coordinate(Exchange(c2.row, i1 + 1, i2 + 1), c.column);
    RowsSwappedAt(g, i1, i2, c1);
  }

  lemma BandsSwappedAt(g: Board, pivot: int, c: Coordinate)
    requires 0 <= pivot && c.InBounds()
    ensures At(BandsSwapped(g, pivot), c)
         == At(g, Coordinate(BandExchange(c.row, ((pivot + 1) % 3) * 3, ((pivot + 2) % 3) * 3), c.column))
  {
    var i1 := ((pivot + 1) % 3) * 3;
    var i2 := ((pivot + 2) % 3) * 3;
    BandStarts(pivot);
    ExchangeThree(c.row, i1, i2);
    ThreeRowSwapsAt(g, i1, i2, c);
  }

  /** Three column exchanges, line by line. */
  lemma ThreeColumnSwapsAt(g: Board, i1: int, i2: int, c: Coordinate)
    requires 0 <= i1 < 7 && 0 <= i2 < 7 && c.InBounds()
    ensures At(ColumnsSwapped(ColumnsSwapped(ColumnsSwapped(g, i1, i2), i1 + 1, i2 + 1), i1 + 2, i2 + 2), c)
         == At(g, Coordinate(c.row, Exchange(Exchange(Exchange(c.column, i1 + 2, i2 + 2), i1 + 1, i2 + 1), i1, i2)))
  {
    var g1 := ColumnsSwapped(g, i1, i2);
    var g2 := ColumnsSwapped(g1, i1 + 1, i2 + 1);
    ColumnsSwappedAt(g2, i1 + 2, i2 + 2, c);
    var c2 := Coordinate(c.row, Exchange(c.column, i1 + 2, i2 + 2));
    ColumnsSwappedAt(g1, i1 + 1, i2 + 1, c2);
    var c1 := Coordinate(c.row, Exchange(c2.column, i1 + 1, i2 + 1));
    ColumnsSwappedAt(g, i1, i2, c1);
  }

  lemma StacksSwappedAt(g: Board, pivot: int, c: Coordinate)
    requires 0 <= pivot && c.InBounds()
    ensures At(StacksSwapped(g, pivot), c)
         == At(g, Coordinate(c.row, BandExchange(c.column, ((pivot + 1) % 3) * 3, ((pivot + 2) % 3) * 3)))
  {
    var i1 := ((pivot + 1) % 3) * 3;
    var i2 := ((pivot + 2) % 3) * 3;
    BandStarts(pivot);
    ExchangeThree(c.column, i1, i2);
    ThreeColumnSwapsAt(g, i1, i2, c);
  }

  // ---------------------------------------------------------------------------------------
  // Identity laws
  // ---------------------------------------------------------------------------------------

  lemma RotatedFourTimes(g: Board)
    ensures Rotated(Rotated(Rotated(Rotated(g)))) == g
  {
    var g4 := Rotated(Rotated(Rotated(Rotated(g))));
    forall d: Coordinate | d.InBounds()
      ensures At(g4, d) == At(g, d)
    {
      RotatedFourTimesAt(g, d);
    }
    Extensionality(g4, g);
  }

  /** One cell of `RotatedFourTimes`: the four quarter turns carry it round its orbit. */
  lemma RotatedFourTimesAt(g: Board, d: Coordinate)
    requires d.InBounds()
    ensures At(Rotated(Rotated(Rotated(Rotated(g)))), d) == At(g, d)
  {
    var g1 := Rotated(g);
    var g2 := Rotated(g1);
    var g3 := Rotated(g2);
    var d1 := Coordinate(d.column, 8 - d.row);
    var d2 := Coordinate(d1.column, 8 - d1.row);
    var d3 := Coordinate(d2.column, 8 - d2.row);
    RotatedAt(g3, d);
    RotatedAt(g2, d1);
    RotatedAt(g1, d2);
    RotatedAt(g, d3);
    assert Coordinate(d3.column, 8 - d3.row) == d;
  }

  lemma MirroredRowsTwice(g: Board)
    ensures MirroredRows(MirroredRows(g)) == g
  {
    forall d: Coordinate | d.InBounds()
      ensures At(MirroredRows(MirroredRows(g)), d) == At(g, d)
    {
      MirroredRowsAt(MirroredRows(g), d);
      MirroredRowsAt(g, Coordinate(d.row, 8 - d.column));
    }
    Extensionality(MirroredRows(MirroredRows(g)), g);
  }

  lemma MirroredColumnsTwice(g: Board)
    ensures MirroredColumns(MirroredColumns(g)) == g
  {
    forall d: Coordinate | d.InBounds()
      ensures At(MirroredColumns(MirroredColumns(g)), d) == At(g, d)
    {
      MirroredColumnsAt(MirroredColumns(g), d);
      MirroredColumnsAt(g, Coordinate(8 - d.row, d.column));
    }
    Extensionality(MirroredColumns(MirroredColumns(g)), g);
  }

  lemma RowsSwappedTwice(g: Board, i1: int, i2: int)
    requires 0 <= i1 < 9 && 0 <= i2 < 9
    ensures RowsSwapped(RowsSwapped(g, i1, i2), i1, i2) == g
  {
    var h := RowsSwapped(g, i1, i2);
    forall d: Coordinate | d.InBounds()
      ensures At(RowsSwapped(h, i1, i2), d) == At(g, d)
    {
      RowsSwappedAt(h, i1, i2, d);
      RowsSwappedAt(g, i1, i2, Coordinate(Exchange(d.row, i1, i2), d.column));
    }
    Extensionality(RowsSwapped(h, i1, i2), g);
  }

  lemma ColumnsSwappedTwice(g: Board, i1: int, i2: int)
    requires 0 <= i1 < 9 && 0 <= i2 < 9
    ensures ColumnsSwapped(ColumnsSwapped(g, i1, i2), i1, i2) == g
  {
    var h := ColumnsSwapped(g, i1, i2);
    forall d: Coordinate | d.InBounds()
      ensures At(ColumnsSwapped(h, i1, i2), d) == At(g, d)
    {
      ColumnsSwappedAt(h, i1, i2, d);
      ColumnsSwappedAt(g, i1, i2, Coordinate(d.row, Exchange(d.column, i1, i2)));
    }
    Extensionality(ColumnsSwapped(h, i1, i2), g);
  }

  lemma BandRowsSwappedTwice(g: Board, cluster: int, pivot: int)
    requires 0 <= cluster < 3 && 0 <= pivot
    ensures BandRowsSwapped(BandRowsSwapped(g, cluster, pivot), cluster, pivot) == g
  {
    RowsSwappedTwice(g, FirstSwapped(cluster, pivot), SecondSwapped(cluster, pivot));
  }

  lemma StackColumnsSwappedTwice(g: Board, cluster: int, pivot: int)
    requires 0 <= cluster < 3 && 0 <= pivot
    ensures StackColumnsSwapped(StackColumnsSwapped(g, cluster, pivot), cluster, pivot) == g
  {
    ColumnsSwappedTwice(g, FirstSwapped(cluster, pivot), SecondSwapped(cluster, pivot));
  }

  lemma BandsSwappedTwice(g: Board, pivot: int)
    requires 0 <= pivot
    ensures BandsSwapped(BandsSwapped(g, pivot), pivot) == g
  {
    var i1 := ((pivot + 1) % 3) * 3;
    var i2 := ((pivot + 2) % 3) * 3;
    var h := BandsSwapped(g, pivot);
    forall d: Coordinate | d.InBounds()
      ensures At(BandsSwapped(h, pivot), d) == At(g, d)
    {
      BandsSwappedAt(h, pivot, d);
      BandStarts(pivot);
      ExchangeThree(d.row, i1, i2);
      BandsSwappedAt(g, pivot, Coordinate(BandExchange(d.row, i1, i2), d.column));
    }
    Extensionality(BandsSwapped(h, pivot), g);
  }

  lemma StacksSwappedTwice(g: Board, pivot: int)
    requires 0 <= pivot
    ensures StacksSwapped(StacksSwapped(g, pivot), pivot) == g
  {
    var i1 := ((pivot + 1) % 3) * 3;
    var i2 := ((pivot + 2) % 3) * 3;
    var h := StacksSwapped(g, pivot);
    forall d: Coordinate | d.InBounds()
      ensures At(StacksSwapped(h, pivot), d) == At(g, d)
    {
      StacksSwappedAt(h, pivot, d);
      BandStarts(pivot);
      ExchangeThree(d.column, i1, i2);
      StacksSwappedAt(g, pivot, Coordinate(d.row, BandExchange(d.column, i1, i2)));
    }
    Extensionality(StacksSwapped(h, pivot), g);
  }
}
