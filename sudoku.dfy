/** The rules a board is measured against: which cells constrain each other, what a complete
    (solved) board is, and why every structural transform of a Matrix keeps a complete board
    complete. */
module Sudoku {
  import opened Coordinates
  import opened Grid

  /** Both cells lie in the same 3x3 cluster. */
  predicate SameBox(a: Coordinate, b: Coordinate)
  {
    a.row / 3 == b.row / 3 && a.column / 3 == b.column / 3
  }

  /** Two distinct cells that share a row, a column or a cluster. */
  predicate Peers(a: Coordinate, b: Coordinate)
  {
    a != b && (a.row == b.row || a.column == b.column || SameBox(a, b))
  }

  /** The cell is empty, or no peer holds its value. */
  ghost predicate PeerFree(g: Board, c: Coordinate)
    requires c.InBounds()
  {
    At(g, c) == 0 || forall d: Coordinate :: d.InBounds() && Peers(c, d) ==> At(g, d) != At(g, c)
  }

  /** The invariant of a board in progress: no two equal non-zero peers. */
  ghost predicate NoConflicts(g: Board)
  {
    forall c: Coordinate :: c.InBounds() ==> PeerFree(g, c)
  }

  /** Every cell holds a digit 1..9. */
  ghost predicate Filled(g: Board)
  {
    forall c: Coordinate :: c.InBounds() ==> 1 <= At(g, c) <= 9
  }

  /** Nine distinct digits 1..9, so every digit exactly once. */
  ghost predicate IsDigitPermutation(s: seq<int>)
  {
    |s| == 9 && (forall i :: 0 <= i < 9 ==> 1 <= s[i] <= 9)
    && (forall i, j :: 0 <= i < 9 && 0 <= j < 9 && i != j ==> s[i] != s[j])
  }

  /** A solved board: every row, column and cluster is a permutation of 1..9. */
  ghost predicate Complete(g: Board)
  {
    forall k :: 0 <= k < 9 ==>
      IsDigitPermutation(Row(g, k)) && IsDigitPermutation(Column(g, k)) && IsDigitPermutation(Cluster(g, k))
  }

  lemma ClusterElement(g: Board, index: int, i: int)
    requires 0 <= index < 9 && 0 <= i < 9
    ensures Cluster(g, index)[i] == At(g, ClusterCell(index, i))
  {
  }

  /** The elements of one cluster are the cells of one 3x3 box. */
  lemma ClusterCellsSameBox(index: int, i: int, j: int)
    requires 0 <= index < 9 && 0 <= i < 9 && 0 <= j < 9
    ensures SameBox(ClusterCell(index, i), ClusterCell(index, j))
    ensures i != j ==> ClusterCell(index, i) != ClusterCell(index, j)
  {
    ClusterCellInverse(index, i);
    ClusterCellInverse(index, j);
  }

  /** Two cells of one box are two elements of the cluster numbered `BoxOf`. */
  lemma SameBoxCluster(a: Coordinate, b: Coordinate)
    requires a.InBounds() && b.InBounds() && SameBox(a, b)
    ensures BoxOf(a) == BoxOf(b)
    ensures a == ClusterCell(BoxOf(a), SlotOf(a)) && b == ClusterCell(BoxOf(a), SlotOf(b))
  {
    CellClusterInverse(a);
    CellClusterInverse(b);
  }

  lemma CompleteIsFilled(g: Board)
    requires Complete(g)
    ensures Filled(g)
  {
    forall c: Coordinate | c.InBounds()
      ensures 1 <= At(g, c) <= 9
    {
      assert IsDigitPermutation(Row(g, c.row));
      RowEntry(g, c.row, c.column);
    }
  }

  lemma RowPeersDiffer(g: Board, c: Coordinate, d: Coordinate)
    requires c.InBounds() && d.InBounds() && c.row == d.row && c != d
    requires IsDigitPermutation(Row(g, c.row))
    ensures At(g, d) != At(g, c)
  {
    RowEntry(g, c.row, c.column);
    RowEntry(g, c.row, d.column);
  }

  lemma ColumnPeersDiffer(g: Board, c: Coordinate, d: Coordinate)
    requires c.InBounds() && d.InBounds() && c.column == d.column && c != d
    requires IsDigitPermutation(Column(g, c.column))
    ensures At(g, d) != At(g, c)
  {
    ColumnEntry(g, c.column, c.row);
    ColumnEntry(g, c.column, d.row);
  }

  lemma BoxPeersDiffer(g: Board, c: Coordinate, d: Coordinate)
    requires c.InBounds() && d.InBounds() && SameBox(c, d) && c != d
    requires IsDigitPermutation(Cluster(g, BoxOf(c)))
    ensures At(g, d) != At(g, c)
  {
    SameBoxCluster(c, d);
    ClusterElement(g, BoxOf(c), SlotOf(c));
    ClusterElement(g, BoxOf(c), SlotOf(d));
  }

  lemma CompleteIsPeerFree(g: Board, c: Coordinate, d: Coordinate)
    requires Complete(g) && c.InBounds() && d.InBounds() && Peers(c, d)
    ensures At(g, d) != At(g, c)
  {
    if c.row == d.row {
      RowPeersDiffer(g, c, d);
    } else if c.column == d.column {
      ColumnPeersDiffer(g, c, d);
    } else {
      BoxPeersDiffer(g, c, d);
    }
  }

  /** On a board without conflicts two filled peers hold different digits. */
  lemma ValidPeersDiffer(g: Board, c: Coordinate, d: Coordinate)
    requires NoConflicts(g) && c.InBounds() && d.InBounds() && Peers(c, d) && At(g, c) != 0
    ensures At(g, c) != At(g, d)
  {
    assert PeerFree(g, c);
  }

  lemma RowOfValidBoard(g: Board, k: int)
    requires Filled(g) && NoConflicts(g) && 0 <= k < 9
    ensures IsDigitPermutation(Row(g, k))
  {
    forall i | 0 <= i < 9
      ensures 1 <= Row(g, k)[i] <= 9
    {
      RowEntry(g, k, i);
    }
    forall i, j | 0 <= i < 9 && 0 <= j < 9 && i != j
      ensures Row(g, k)[i] != Row(g, k)[j]
    {
      RowEntry(g, k, i);
      RowEntry(g, k, j);
      ValidPeersDiffer(g, Coordinate(k, i), Coordinate(k, j));
    }
  }

  lemma ColumnOfValidBoard(g: Board, k: int)
    requires Filled(g) && NoConflicts(g) && 0 <= k < 9
    ensures IsDigitPermutation(Column(g, k))
  {
    forall i | 0 <= i < 9
      ensures 1 <= Column(g, k)[i] <= 9
    {
      ColumnEntry(g, k, i);
    }
    forall i, j | 0 <= i < 9 && 0 <= j < 9 && i != j
      ensures Column(g, k)[i] != Column(g, k)[j]
    {
      ColumnEntry(g, k, i);
      ColumnEntry(g, k, j);
      ValidPeersDiffer(g, Coordinate(i, k), Coordinate(j, k));
    }
  }

  lemma ClusterOfValidBoard(g: Board, k: int)
    requires Filled(g) && NoConflicts(g) && 0 <= k < 9
    ensures IsDigitPermutation(Cluster(g, k))
  {
    forall i | 0 <= i < 9
      ensures 1 <= Cluster(g, k)[i] <= 9
    {
      ClusterElement(g, k, i);
    }
    forall i, j | 0 <= i < 9 && 0 <= j < 9 && i != j
      ensures Cluster(g, k)[i] != Cluster(g, k)[j]
    {
      ClusterElement(g, k, i);
      ClusterElement(g, k, j);
      ClusterCellsSameBox(k, i, j);
      ValidPeersDiffer(g, ClusterCell(k, i), ClusterCell(k, j));
    }
  }

  /** The line-by-line definition of a solved board and the cell-by-cell one agree. */
  lemma CompleteIffFilledNoConflicts(g: Board)
    ensures Complete(g) <==> Filled(g) && NoConflicts(g)
  {
    if Complete(g) {
      CompleteIsFilled(g);
      forall c: Coordinate | c.InBounds()
        ensures PeerFree(g, c)
      {
        forall d: Coordinate | d.InBounds() && Peers(c, d)
          ensures At(g, d) != At(g, c)
        {
          CompleteIsPeerFree(g, c, d);
        }
      }
    }
    if Filled(g) && NoConflicts(g) {
      forall k | 0 <= k < 9
        ensures IsDigitPermutation(Row(g, k)) && IsDigitPermutation(Column(g, k))
        ensures IsDigitPermutation(Cluster(g, k))
      {
        RowOfValidBoard(g, k);
        ColumnOfValidBoard(g, k);
        ClusterOfValidBoard(g, k);
      }
    }
  }

  // ---------------------------------------------------------------------------------------
  // Relabelling cells keeps a board valid when peers stay peers
  // ---------------------------------------------------------------------------------------

  /** h takes at every cell c the value g holds at sigma(c). */
  ghost predicate Relabels(g: Board, h: Board, sigma: Coordinate -> Coordinate)
  {
    forall c: Coordinate :: c.InBounds() ==> sigma(c).InBounds() && At(h, c) == At(g, sigma(c))
  }

  /** sigma sends peers to peers. */
  ghost predicate KeepsPeers(sigma: Coordinate -> Coordinate)
  {
    forall a: Coordinate, b: Coordinate :: a.InBounds() && b.InBounds() && Peers(a, b) ==>
      sigma(a).InBounds() && sigma(b).InBounds() && Peers(sigma(a), sigma(b))
  }

  lemma RelabelKeepsFilled(g: Board, h: Board, sigma: Coordinate -> Coordinate)
    requires Relabels(g, h, sigma) && Filled(g)
    ensures Filled(h)
  {
    forall c: Coordinate | c.InBounds()
      ensures 1 <= At(h, c) <= 9
    {
      assert At(h, c) == At(g, sigma(c));
    }
  }

  lemma RelabelKeepsNoConflicts(g: Board, h: Board, sigma: Coordinate -> Coordinate)
    requires Relabels(g, h, sigma) && KeepsPeers(sigma) && NoConflicts(g)
    ensures NoConflicts(h)
  {
    forall c: Coordinate | c.InBounds()
      ensures PeerFree(h, c)
    {
      forall d: Coordinate | d.InBounds() && Peers(c, d) && At(h, c) != 0
        ensures At(h, d) != At(h, c)
      {
        RelabelKeepsPeerApart(g, h, sigma, c, d);
      }
    }
  }

  lemma RelabelKeepsPeerApart(g: Board, h: Board, sigma: Coordinate -> Coordinate, c: Coordinate, d: Coordinate)
    requires Relabels(g, h, sigma) && KeepsPeers(sigma) && NoConflicts(g)
    requires c.InBounds() && d.InBounds() && Peers(c, d) && At(h, c) != 0
    ensures At(h, d) != At(h, c)
  {
    assert At(h, c) == At(g, sigma(c)) && At(h, d) == At(g, sigma(d));
    assert PeerFree(g, sigma(c));
    assert Peers(sigma(c), sigma(d));
  }

  lemma RelabelKeepsValidity(g: Board, h: Board, sigma: Coordinate -> Coordinate)
    requires Relabels(g, h, sigma) && KeepsPeers(sigma)
    ensures Filled(g) ==> Filled(h)
    ensures NoConflicts(g) ==> NoConflicts(h)
    ensures Complete(g) ==> Complete(h)
  {
    if Filled(g) {
      RelabelKeepsFilled(g, h, sigma);
    }
    if NoConflicts(g) {
      RelabelKeepsNoConflicts(g, h, sigma);
    }
    CompleteIffFilledNoConflicts(g);
    CompleteIffFilledNoConflicts(h);
  }

  /** Reflecting a line index keeps it inside its band's mirror band. */
  lemma FlipThird(x: int)
    requires 0 <= x < 9
    ensures (8 - x) / 3 == 2 - x / 3
  {
  }

  /** The cell `rotate` reads for cell c. */
  function QuarterTurn(c: Coordinate): (d: Coordinate)
  {
    Coordinate(c.column, 8 - c.row)
  }

  /** The cell `mirrowRows` reads for cell c. */
  function RowFlip(c: Coordinate): (d: Coordinate)
  {
    Coordinate(c.row, 8 - c.column)
  }

  /** The cell `mirrorColumns` reads for cell c. */
  function ColumnFlip(c: Coordinate): (d: Coordinate)
  {
    Coordinate(8 - c.row, c.column)
  }

  lemma QuarterTurnKeepsPeers(a: Coordinate, b: Coordinate)
    requires a.InBounds() && b.InBounds() && Peers(a, b)
    ensures QuarterTurn(a).InBounds() && QuarterTurn(b).InBounds() && Peers(QuarterTurn(a), QuarterTurn(b))
  {
    FlipThird(a.row);
    FlipThird(b.row);
  }

  lemma QuarterTurnIsPeerMap()
    ensures KeepsPeers(QuarterTurn)
  {
    forall a: Coordinate, b: Coordinate | a.InBounds() && b.InBounds() && Peers(a, b)
      ensures QuarterTurn(a).InBounds() && QuarterTurn(b).InBounds() && Peers(QuarterTurn(a), QuarterTurn(b))
    {
      QuarterTurnKeepsPeers(a, b);
    }
  }

  lemma RotatedRelabels(g: Board)
    ensures Relabels(g, Rotated(g), QuarterTurn)
  {
    forall c: Coordinate | c.InBounds()
      ensures QuarterTurn(c).InBounds() && At(Rotated(g), c) == At(g, QuarterTurn(c))
    {
      RotatedAt(g, c);
    }
  }

  lemma RotatedKeepsValidity(g: Board)
    ensures Filled(g) ==> Filled(Rotated(g))
    ensures NoConflicts(g) ==> NoConflicts(Rotated(g))
    ensures Complete(g) ==> Complete(Rotated(g))
  {
    RotatedRelabels(g);
    QuarterTurnIsPeerMap();
    RelabelKeepsValidity(g, Rotated(g), QuarterTurn);
  }

  lemma RowFlipKeepsPeers(a: Coordinate, b: Coordinate)
    requires a.InBounds() && b.InBounds() && Peers(a, b)
    ensures RowFlip(a).InBounds() && RowFlip(b).InBounds() && Peers(RowFlip(a), RowFlip(b))
  {
    FlipThird(a.column);
    FlipThird(b.column);
  }

  lemma RowFlipIsPeerMap()
    ensures KeepsPeers(RowFlip)
  {
    forall a: Coordinate, b: Coordinate | a.InBounds() && b.InBounds() && Peers(a, b)
      ensures RowFlip(a).InBounds() && RowFlip(b).InBounds() && Peers(RowFlip(a), RowFlip(b))
    {
      RowFlipKeepsPeers(a, b);
    }
  }

  lemma MirroredRowsRelabels(g: Board)
    ensures Relabels(g, MirroredRows(g), RowFlip)
  {
    forall c: Coordinate | c.InBounds()
      ensures RowFlip(c).InBounds() && At(MirroredRows(g), c) == At(g, RowFlip(c))
    {
      MirroredRowsAt(g, c);
    }
  }

  lemma MirroredRowsKeepsValidity(g: Board)
    ensures Filled(g) ==> Filled(MirroredRows(g))
    ensures NoConflicts(g) ==> NoConflicts(MirroredRows(g))
    ensures Complete(g) ==> Complete(MirroredRows(g))
  {
    MirroredRowsRelabels(g);
    RowFlipIsPeerMap();
    RelabelKeepsValidity(g, MirroredRows(g), RowFlip);
  }

  lemma ColumnFlipKeepsPeers(a: Coordinate, b: Coordinate)
    requires a.InBounds() && b.InBounds() && Peers(a, b)
    ensures ColumnFlip(a).InBounds() && ColumnFlip(b).InBounds() && Peers(ColumnFlip(a), ColumnFlip(b))
  {
    FlipThird(a.row);
    FlipThird(b.row);
  }

  lemma ColumnFlipIsPeerMap()
    ensures KeepsPeers(ColumnFlip)
  {
    forall a: Coordinate, b: Coordinate | a.InBounds() && b.InBounds() && Peers(a, b)
      ensures ColumnFlip(a).InBounds() && ColumnFlip(b).InBounds() && Peers(ColumnFlip(a), ColumnFlip(b))
    {
      ColumnFlipKeepsPeers(a, b);
    }
  }

  lemma MirroredColumnsRelabels(g: Board)
    ensures Relabels(g, MirroredColumns(g), ColumnFlip)
  {
    forall c: Coordinate | c.InBounds()
      ensures ColumnFlip(c).InBounds() && At(MirroredColumns(g), c) == At(g, ColumnFlip(c))
    {
      MirroredColumnsAt(g, c);
    }
  }

  lemma MirroredColumnsKeepsValidity(g: Board)
    ensures Filled(g) ==> Filled(MirroredColumns(g))
    ensures NoConflicts(g) ==> NoConflicts(MirroredColumns(g))
    ensures Complete(g) ==> Complete(MirroredColumns(g))
  {
    MirroredColumnsRelabels(g);
    ColumnFlipIsPeerMap();
    RelabelKeepsValidity(g, MirroredColumns(g), ColumnFlip);
  }

  /** f permutes the line indices 0..8 and sends lines of one band to lines of one band. */
  ghost predicate LineMap(f: int -> int)
  {
    (forall x :: 0 <= x < 9 ==> 0 <= f(x) < 9)
    && (forall x, y :: 0 <= x < 9 && 0 <= y < 9 && f(x) == f(y) ==> x == y)
    && (forall x, y :: 0 <= x < 9 && 0 <= y < 9 && x / 3 == y / 3 ==> f(x) / 3 == f(y) / 3)
  }

  /** The cell a board whose rows are moved by f reads for cell c. */
  function RowMove(f: int -> int): (sigma: Coordinate -> Coordinate)
  {
    (c: Coordinate) => Coordinate(f(c.row), c.column)
  }

  /** The cell a board whose columns are moved by f reads for cell c. */
  function ColumnMove(f: int -> int): (sigma: Coordinate -> Coordinate)
  {
    (c: Coordinate) => Coordinate(c.row, f(c.column))
  }

  lemma RowMoveKeepsPeers(f: int -> int, a: Coordinate, b: Coordinate)
    requires LineMap(f) && a.InBounds() && b.InBounds() && Peers(a, b)
    ensures RowMove(f)(a).InBounds() && RowMove(f)(b).InBounds() && Peers(RowMove(f)(a), RowMove(f)(b))
  {
    var a', b' := RowMove(f)(a), RowMove(f)(b);
    assert a' == Coordinate(f(a.row), a.column) && b' == Coordinate(f(b.row), b.column);
    assert a' != b' by {
      if a.row != b.row { assert f(a.row) != f(b.row); }
    }
    if SameBox(a, b) {
      assert f(a.row) / 3 == f(b.row) / 3;
    }
  }

  lemma RowMoveIsPeerMap(f: int -> int)
    requires LineMap(f)
    ensures KeepsPeers(RowMove(f))
  {
    forall a: Coordinate, b: Coordinate | a.InBounds() && b.InBounds() && Peers(a, b)
      ensures RowMove(f)(a).InBounds() && RowMove(f)(b).InBounds() && Peers(RowMove(f)(a), RowMove(f)(b))
    {
      RowMoveKeepsPeers(f, a, b);
    }
  }

  lemma RowMoveRelabels(g: Board, h: Board, f: int -> int)
    requires LineMap(f)
    requires forall c: Coordinate :: c.InBounds() ==> At(h, c) == At(g, Coordinate(f(c.row), c.column))
    ensures Relabels(g, h, RowMove(f))
  {
    forall c: Coordinate | c.InBounds()
      ensures RowMove(f)(c).InBounds() && At(h, c) == At(g, RowMove(f)(c))
    {
      assert RowMove(f)(c) == Coordinate(f(c.row), c.column);
    }
  }

  /** A board whose rows are those of g moved by a line map is as valid as g. */
  lemma RowRelabelKeepsValidity(g: Board, h: Board, f: int -> int)
    requires LineMap(f)
    requires forall c: Coordinate :: c.InBounds() ==> At(h, c) == At(g, Coordinate(f(c.row), c.column))
    ensures Filled(g) ==> Filled(h)
    ensures NoConflicts(g) ==> NoConflicts(h)
    ensures Complete(g) ==> Complete(h)
  {
    RowMoveRelabels(g, h, f);
    RowMoveIsPeerMap(f);
    RelabelKeepsValidity(g, h, RowMove(f));
  }

  lemma ColumnMoveKeepsPeers(f: int -> int, a: Coordinate, b: Coordinate)
    requires LineMap(f) && a.InBounds() && b.InBounds() && Peers(a, b)
    ensures ColumnMove(f)(a).InBounds() && ColumnMove(f)(b).InBounds() && Peers(ColumnMove(f)(a), ColumnMove(f)(b))
  {
    var a', b' := ColumnMove(f)(a), ColumnMove(f)(b);
    assert a' == Coordinate(a.row, f(a.column)) && b' == Coordinate(b.row, f(b.column));
    assert a' != b' by {
      if a.column != b.column { assert f(a.column) != f(b.column); }
    }
    if SameBox(a, b) {
      assert f(a.column) / 3 == f(b.column) / 3;
    }
  }

  lemma ColumnMoveIsPeerMap(f: int -> int)
    requires LineMap(f)
    ensures KeepsPeers(ColumnMove(f))
  {
    forall a: Coordinate, b: Coordinate | a.InBounds() && b.InBounds() && Peers(a, b)
      ensures ColumnMove(f)(a).InBounds() && ColumnMove(f)(b).InBounds() && Peers(ColumnMove(f)(a), ColumnMove(f)(b))
    {
      ColumnMoveKeepsPeers(f, a, b);
    }
  }

  lemma ColumnMoveRelabels(g: Board, h: Board, f: int -> int)
    requires LineMap(f)
    requires forall c: Coordinate :: c.InBounds() ==> At(h, c) == At(g, Coordinate(c.row, f(c.column)))
    ensures Relabels(g, h, ColumnMove(f))
  {
    forall c: Coordinate | c.InBounds()
      ensures ColumnMove(f)(c).InBounds() && At(h, c) == At(g, ColumnMove(f)(c))
    {
      assert ColumnMove(f)(c) == Coordinate(c.row, f(c.column));
    }
  }

  /** A board whose columns are those of g moved by a line map is as valid as g. */
  lemma ColumnRelabelKeepsValidity(g: Board, h: Board, f: int -> int)
    requires LineMap(f)
    requires forall c: Coordinate :: c.InBounds() ==> At(h, c) == At(g, Coordinate(c.row, f(c.column)))
    ensures Filled(g) ==> Filled(h)
    ensures NoConflicts(g) ==> NoConflicts(h)
    ensures Complete(g) ==> Complete(h)
  {
    ColumnMoveRelabels(g, h, f);
    ColumnMoveIsPeerMap(f);
    RelabelKeepsValidity(g, h, ColumnMove(f));
  }

  /** Exchanging two lines of one band is a line map. */
  lemma ExchangeIsLineMap(f: int -> int, i1: int, i2: int)
    requires 0 <= i1 < 9 && 0 <= i2 < 9 && i1 / 3 == i2 / 3
    requires forall x :: f(x) == Exchange(x, i1, i2)
    ensures LineMap(f)
  {
  }

  /** Exchanging two bands is a line map. */
  lemma BandExchangeIsLineMap(f: int -> int, i1: int, i2: int)
    requires i1 != i2 && (i1 == 0 || i1 == 3 || i1 == 6) && (i2 == 0 || i2 == 3 || i2 == 6)
    requires forall x :: f(x) == BandExchange(x, i1, i2)
    ensures LineMap(f)
  {
    forall x | 0 <= x < 9
      ensures 0 <= f(x) < 9
    {
      ExchangeThree(x, i1, i2);
    }
    forall x, y | 0 <= x < 9 && 0 <= y < 9 && f(x) == f(y)
      ensures x == y
    {
      ExchangeThree(x, i1, i2);
      ExchangeThree(y, i1, i2);
    }
    forall x, y | 0 <= x < 9 && 0 <= y < 9 && x / 3 == y / 3
      ensures f(x) / 3 == f(y) / 3
    {
      BandOfBandExchange(x, i1, i2);
      BandOfBandExchange(y, i1, i2);
    }
  }

  lemma BandOfBandExchange(x: int, i1: int, i2: int)
    requires 0 <= x < 9 && (i1 == 0 || i1 == 3 || i1 == 6) && (i2 == 0 || i2 == 3 || i2 == 6)
    ensures BandExchange(x, i1, i2) / 3
         == if x / 3 == i1 / 3 then i2 / 3 else if x / 3 == i2 / 3 then i1 / 3 else x / 3
  {
    assert x == 3 * (x / 3) + x % 3;
  }

  /** The two lines `swapRows(cluster, pivot)` exchanges are distinct lines of band `cluster`. */
  lemma SwappedLines(cluster: int, pivot: int)
    requires 0 <= cluster < 3 && 0 <= pivot
    ensures 0 <= FirstSwapped(cluster, pivot) < 9 && 0 <= SecondSwapped(cluster, pivot) < 9
    ensures FirstSwapped(cluster, pivot) / 3 == cluster && SecondSwapped(cluster, pivot) / 3 == cluster
    ensures FirstSwapped(cluster, pivot) != SecondSwapped(cluster, pivot)
  {
  }

  lemma BandRowsSwappedRelabels(g: Board, cluster: int, pivot: int)
    requires 0 <= cluster < 3 && 0 <= pivot
    ensures forall c: Coordinate :: c.InBounds() ==>
      At(BandRowsSwapped(g, cluster, pivot), c) == At(g, Coordinate(Exchange(c.row, FirstSwapped(cluster, pivot), SecondSwapped(cluster, pivot)), c.column))
  {
    forall c: Coordinate | c.InBounds()
      ensures At(BandRowsSwapped(g, cluster, pivot), c)
        == At(g, Coordinate(Exchange(c.row, FirstSwapped(cluster, pivot), SecondSwapped(cluster, pivot)), c.column))
    {
      BandRowsSwappedAt(g, cluster, pivot, c);
    }
  }

  lemma StackColumnsSwappedRelabels(g: Board, cluster: int, pivot: int)
    requires 0 <= cluster < 3 && 0 <= pivot
    ensures forall c: Coordinate :: c.InBounds() ==>
      At(StackColumnsSwapped(g, cluster, pivot), c) == At(g, Coordinate(c.row, Exchange(c.column, FirstSwapped(cluster, pivot), SecondSwapped(cluster, pivot))))
  {
    forall c: Coordinate | c.InBounds()
      ensures At(StackColumnsSwapped(g, cluster, pivot), c)
        == At(g, Coordinate(c.row, Exchange(c.column, FirstSwapped(cluster, pivot), SecondSwapped(cluster, pivot))))
    {
      StackColumnsSwappedAt(g, cluster, pivot, c);
    }
  }

  lemma BandsSwappedRelabels(g: Board, pivot: int)
    requires 0 <= pivot
    ensures forall c: Coordinate :: c.InBounds() ==>
      At(BandsSwapped(g, pivot), c) == At(g, Coordinate(BandExchange(c.row, ((pivot + 1) % 3) * 3, ((pivot + 2) % 3) * 3), c.column))
  {
    forall c: Coordinate | c.InBounds()
      ensures At(BandsSwapped(g, pivot), c) == At(g, Coordinate(BandExchange(c.row, ((pivot + 1) % 3) * 3, ((pivot + 2) % 3) * 3), c.column))
    {
      BandsSwappedAt(g, pivot, c);
    }
  }

  lemma StacksSwappedRelabels(g: Board, pivot: int)
    requires 0 <= pivot
    ensures forall c: Coordinate :: c.InBounds() ==>
      At(StacksSwapped(g, pivot), c) == At(g, Coordinate(c.row, BandExchange(c.column, ((pivot + 1) % 3) * 3, ((pivot + 2) % 3) * 3)))
  {
    forall c: Coordinate | c.InBounds()
      ensures At(StacksSwapped(g, pivot), c) == At(g, Coordinate(c.row, BandExchange(c.column, ((pivot + 1) % 3) * 3, ((pivot + 2) % 3) * 3)))
    {
      StacksSwappedAt(g, pivot, c);
    }
  }

  lemma BandRowsSwappedKeepsValidity(g: Board, cluster: int, pivot: int)
    requires 0 <= cluster < 3 && 0 <= pivot
    ensures Filled(g) ==> Filled(BandRowsSwapped(g, cluster, pivot))
    ensures NoConflicts(g) ==> NoConflicts(BandRowsSwapped(g, cluster, pivot))
    ensures Complete(g) ==> Complete(BandRowsSwapped(g, cluster, pivot))
  {
    var i1, i2 := FirstSwapped(cluster, pivot), SecondSwapped(cluster, pivot);
    var f := x => Exchange(x, i1, i2);
    SwappedLines(cluster, pivot);
    ExchangeIsLineMap(f, i1, i2);
    BandRowsSwappedRelabels(g, cluster, pivot);
    RowRelabelKeepsValidity(g, BandRowsSwapped(g, cluster, pivot), f);
  }

  lemma StackColumnsSwappedKeepsValidity(g: Board, cluster: int, pivot: int)
    requires 0 <= cluster < 3 && 0 <= pivot
    ensures Filled(g) ==> Filled(StackColumnsSwapped(g, cluster, pivot))
    ensures NoConflicts(g) ==> NoConflicts(StackColumnsSwapped(g, cluster, pivot))
    ensures Complete(g) ==> Complete(StackColumnsSwapped(g, cluster, pivot))
  {
    var i1, i2 := FirstSwapped(cluster, pivot), SecondSwapped(cluster, pivot);
    var f := x => Exchange(x, i1, i2);
    SwappedLines(cluster, pivot);
    ExchangeIsLineMap(f, i1, i2);
    StackColumnsSwappedRelabels(g, cluster, pivot);
    ColumnRelabelKeepsValidity(g, StackColumnsSwapped(g, cluster, pivot), f);
  }

  lemma BandsSwappedKeepsValidity(g: Board, pivot: int)
    requires 0 <= pivot
    ensures Filled(g) ==> Filled(BandsSwapped(g, pivot))
    ensures NoConflicts(g) ==> NoConflicts(BandsSwapped(g, pivot))
    ensures Complete(g) ==> Complete(BandsSwapped(g, pivot))
  {
    var i1 := ((pivot + 1) % 3) * 3;
    var i2 := ((pivot + 2) % 3) * 3;
    BandStarts(pivot);
    var f := x => BandExchange(x, i1, i2);
    BandExchangeIsLineMap(f, i1, i2);
    BandsSwappedRelabels(g, pivot);
    RowRelabelKeepsValidity(g, BandsSwapped(g, pivot), f);
  }

  lemma StacksSwappedKeepsValidity(g: Board, pivot: int)
    requires 0 <= pivot
    ensures Filled(g) ==> Filled(StacksSwapped(g, pivot))
    ensures NoConflicts(g) ==> NoConflicts(StacksSwapped(g, pivot))
    ensures Complete(g) ==> Complete(StacksSwapped(g, pivot))
  {
    var i1 := ((pivot + 1) % 3) * 3;
    var i2 := ((pivot + 2) % 3) * 3;
    BandStarts(pivot);
    var f := x => BandExchange(x, i1, i2);
    BandExchangeIsLineMap(f, i1, i2);
    StacksSwappedRelabels(g, pivot);
    ColumnRelabelKeepsValidity(g, StacksSwapped(g, pivot), f);
  }

  // ---------------------------------------------------------------------------------------
  // The board `initialize` writes is solved
  // ---------------------------------------------------------------------------------------

  /** Row r of the solved board is 1..9 rotated left by 3 * (r % 3) + r / 3. */
  ghost function SolvedDigit(c: Coordinate): (v: int)
  {
    ((c.row % 3) * 3 + c.row / 3 + c.column) % 9 + 1
  }

  /** 1..9 rotated left by s. */
  ghost function Shifted(s: int): (row: seq<int>)
  {
    seq(9, j => (s + j) % 9 + 1)
  }

  lemma SolvedBand0(r: int)
    requires 0 <= r < 3
    ensures SolvedRows[r] == Shifted((r % 3) * 3 + r / 3)
  {
    if r == 0 {} else if r == 1 {} else {}
  }

  lemma SolvedBand1(r: int)
    requires 3 <= r < 6
    ensures SolvedRows[r] == Shifted((r % 3) * 3 + r / 3)
  {
    if r == 3 {} else if r == 4 {} else {}
  }

  lemma SolvedBand2(r: int)
    requires 6 <= r < 9
    ensures SolvedRows[r] == Shifted((r % 3) * 3 + r / 3)
  {
    if r == 6 {} else if r == 7 {} else {}
  }

  lemma SolvedRow(r: int)
    requires 0 <= r < 9
    ensures SolvedRows[r] == Shifted((r % 3) * 3 + r / 3)
  {
    if r < 3 { SolvedBand0(r); } else if r < 6 { SolvedBand1(r); } else { SolvedBand2(r); }
  }

  lemma SolvedRowsAt(c: Coordinate)
    requires c.InBounds()
    ensures SolvedRows[c.row][c.column] == SolvedDigit(c)
  {
    SolvedRow(c.row);
  }

  lemma SolvedAt(c: Coordinate)
    requires c.InBounds()
    ensures At(Solved, c) == SolvedDigit(c)
  {
    SolvedRowsAt(c);
  }

  /** Two residues of numbers less than 9 apart differ unless the numbers are equal. */
  lemma ResiduesDiffer(a: int, b: int)
    requires 0 <= a && 0 <= b && a != b && -9 < a - b < 9
    ensures a % 9 != b % 9
  {
  }

  /** The shift of row r, 3 * (r % 3) + r / 3, takes each value 0..8 once. */
  lemma ShiftsDiffer(r1: int, r2: int)
    requires 0 <= r1 < 9 && 0 <= r2 < 9 && r1 != r2
    ensures (r1 % 3) * 3 + r1 / 3 != (r2 % 3) * 3 + r2 / 3
  {
  }

  lemma SolvedDigitPeers(c: Coordinate, d: Coordinate)
    requires c.InBounds() && d.InBounds() && Peers(c, d)
    ensures SolvedDigit(c) != SolvedDigit(d)
  {
    var sc := (c.row % 3) * 3 + c.row / 3;
    var sd := (d.row % 3) * 3 + d.row / 3;
    if c.row == d.row {
      ResiduesDiffer(sc + c.column, sd + d.column);
    } else if c.column == d.column {
      ShiftsDiffer(c.row, d.row);
      ResiduesDiffer(sc + c.column, sd + d.column);
    } else {
      assert c.row / 3 == d.row / 3 && c.column / 3 == d.column / 3;
      assert sc - sd == 3 * (c.row % 3 - d.row % 3);
      ResiduesDiffer(sc + c.column, sd + d.column);
    }
  }

  lemma SolvedIsComplete()
    ensures Complete(Solved)
  {
    forall c: Coordinate | c.InBounds()
      ensures At(Solved, c) == SolvedDigit(c)
    {
      SolvedAt(c);
    }
    forall c: Coordinate | c.InBounds()
      ensures PeerFree(Solved, c)
    {
      forall d: Coordinate | d.InBounds() && Peers(c, d)
        ensures At(Solved, d) != At(Solved, c)
      {
        SolvedDigitPeers(c, d);
      }
    }
    CompleteIffFilledNoConflicts(Solved);
  }

  // ---------------------------------------------------------------------------------------
  // A solved board with one blank cell
  // ---------------------------------------------------------------------------------------

  /** Distinct integers drawn from a set are no more numerous than the set. */
  lemma {:induction false} DistinctBound(s: seq<int>, digits: set<int>)
    requires forall i :: 0 <= i < |s| ==> s[i] in digits
    requires forall i, j :: 0 <= i < j < |s| ==> s[i] != s[j]
    ensures |s| <= |digits|
    decreases |s|
  {
    if s != [] {
      var last := s[|s| - 1];
      var front := s[..|s| - 1];
      forall i | 0 <= i < |front|
        ensures front[i] in digits - {last}
      {
        assert front[i] == s[i];
      }
      DistinctBound(front, digits - {last});
    }
  }

  /** A permutation of 1..9 that holds digit v nowhere but at position i holds it there. */
  lemma DigitAt(s: seq<int>, v: int, i: int)
    requires IsDigitPermutation(s) && 1 <= v <= 9 && 0 <= i < 9
    requires forall j :: 0 <= j < 9 && j != i ==> s[j] != v
    ensures s[i] == v
  {
    if s[i] != v {
      DistinctBound(s, {1, 2, 3, 4, 5, 6, 7, 8, 9} - {v});
    }
  }

  /** On a solved board a single blank cell admits only its own digit: every other digit
      already sits in its row. */
  lemma LoneBlank(g: Board, c: Coordinate, v: int)
    requires Complete(g) && c.InBounds() && 1 <= v <= 9
    requires PeerFree(Put(g, c, v), c)
    ensures v == At(g, c)
  {
    assert IsDigitPermutation(Row(g, c.row));
    RowAvoids(g, c, v);
    LoneBlankInRow(g, c, v);
  }

  /** A cell whose row is a permutation of 1..9 holding v at no other column holds v. */
  lemma LoneBlankInRow(g: Board, c: Coordinate, v: int)
    requires c.InBounds() && 1 <= v <= 9 && IsDigitPermutation(Row(g, c.row))
    requires forall j :: 0 <= j < 9 && j != c.column ==> Row(g, c.row)[j] != v
    ensures v == At(g, c)
  {
    DigitAt(Row(g, c.row), v, c.column);
    RowEntry(g, c.row, c.column);
  }

  /** A digit placed without conflict appears nowhere else in its row. */
  lemma RowAvoids(g: Board, c: Coordinate, v: int)
    requires c.InBounds() && v != 0
    requires PeerFree(Put(g, c, v), c)
    ensures forall j :: 0 <= j < 9 && j != c.column ==> Row(g, c.row)[j] != v
  {
    forall j | 0 <= j < 9 && j != c.column
      ensures At(g, Coordinate(c.row, j)) != v
    {
      PlacedPeerDiffers(g, c, v, Coordinate(c.row, j));
    }
    forall j | 0 <= j < 9
      ensures Row(g, c.row)[j] == At(g, Coordinate(c.row, j))
    {
      RowEntry(g, c.row, j);
    }
  }

  /** A digit placed where it has no conflict differs from what each peer already holds. */
  lemma PlacedPeerDiffers(g: Board, c: Coordinate, v: int, d: Coordinate)
    requires c.InBounds() && d.InBounds() && Peers(c, d) && v != 0
    requires PeerFree(Put(g, c, v), c)
    ensures At(g, d) != v
  {
    var h := Put(g, c, v);
    assert At(h, d) != At(h, c);
  }
}
