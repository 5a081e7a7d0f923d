/** The puzzle generator of src/util/BoardHelper.ts: `shuffle`, `randomCellSequence`,
    `difficultyToSize`, the backtracking `solvable`, `multipleSolutions`, `prune` and
    `canSolve`. Every random draw is an explicit parameter: `shuffle` takes its 100
    moves, `randomCellSequence` and `prune` take the swap positions. */
module BoardHelper {
  import opened Coordinates
  import opened Grid
  import opened Sudoku
  import opened Validity
  import opened Solver
  import opened Matrices

  // ---------------------------------------------------------------------------------------
  // shuffle
  // ---------------------------------------------------------------------------------------

  /** One step of `shuffle`: the transform its switch picks (cases 0 to 6), with the
      arguments it draws from 0..2. */
  datatype Move =
    | Rotate
    | MirrorRows
    | MirrorColumns
    | SwapRows(cluster: int, pivot: int)
    | SwapColumns(cluster: int, pivot: int)
    | SwapRowClusters(pivot: int)
    | SwapColumnClusters(pivot: int)
  {
    /** Every argument is a draw in 0..2. */
    predicate WellFormed()
    {
      match this
      case SwapRows(cluster, pivot) => 0 <= cluster < 3 && 0 <= pivot < 3
      case SwapColumns(cluster, pivot) => 0 <= cluster < 3 && 0 <= pivot < 3
      case SwapRowClusters(pivot) => 0 <= pivot < 3
      case SwapColumnClusters(pivot) => 0 <= pivot < 3
      case _ => true
    }
  }

  /** The board after one move. */
  function Apply(g: Board, m: Move): (h: Board)
    requires m.WellFormed()
  {
    match m
    case Rotate => Rotated(g)
    case MirrorRows => MirroredRows(g)
    case MirrorColumns => MirroredColumns(g)
    case SwapRows(cluster, pivot) => BandRowsSwapped(g, cluster, pivot)
    case SwapColumns(cluster, pivot) => StackColumnsSwapped(g, cluster, pivot)
    case SwapRowClusters(pivot) => BandsSwapped(g, pivot)
    case SwapColumnClusters(pivot) => StacksSwapped(g, pivot)
  }

  /** The board after the moves, first move first. */
  function Shuffled(g: Board, moves: seq<Move>): (h: Board)
    requires forall k :: 0 <= k < |moves| ==> moves[k].WellFormed()
    decreases |moves|
  {
    if moves == [] then g else Apply(Shuffled(g, moves[..|moves| - 1]), moves[|moves| - 1])
  }

  /** The first i + 1 moves are the first i followed by move i. */
  lemma ShuffledPrefix(g: Board, moves: seq<Move>, i: int)
    requires forall k :: 0 <= k < |moves| ==> moves[k].WellFormed()
    requires 0 <= i < |moves|
    ensures Shuffled(g, moves[..i + 1]) == Apply(Shuffled(g, moves[..i]), moves[i])
  {
    assert moves[..i + 1][..i] == moves[..i];
  }

  /** Every move keeps a solved board solved. */
  lemma ApplyKeepsComplete(g: Board, m: Move)
    requires m.WellFormed() && Complete(g)
    ensures Complete(Apply(g, m))
  {
    match m
    case Rotate => RotatedKeepsValidity(g);
    case MirrorRows => MirroredRowsKeepsValidity(g);
    case MirrorColumns => MirroredColumnsKeepsValidity(g);
    case SwapRows(cluster, pivot) => BandRowsSwappedKeepsValidity(g, cluster, pivot);
    case SwapColumns(cluster, pivot) => StackColumnsSwappedKeepsValidity(g, cluster, pivot);
    case SwapRowClusters(pivot) => BandsSwappedKeepsValidity(g, pivot);
    case SwapColumnClusters(pivot) => StacksSwappedKeepsValidity(g, pivot);
  }

  /** Any sequence of moves keeps a solved board solved. */
  lemma {:induction false} ShuffledKeepsComplete(g: Board, moves: seq<Move>)
    requires forall k :: 0 <= k < |moves| ==> moves[k].WellFormed()
    requires Complete(g)
    ensures Complete(Shuffled(g, moves))
    decreases |moves|
  {
    if moves != [] {
      ShuffledKeepsComplete(g, moves[..|moves| - 1]);
      ApplyKeepsComplete(Shuffled(g, moves[..|moves| - 1]), moves[|moves| - 1]);
    }
  }

  /** One pass of the switch in `shuffle`: the drawn transform, applied to the matrix. */
  method ApplyMove(matrix: Matrix, m: Move)
    requires matrix.Valid() && m.WellFormed()
    modifies matrix, matrix.board
    ensures matrix.Valid() && matrix.Cells() == Apply(old(matrix.Cells()), m)
    ensures matrix.board == old(matrix.board) || fresh(matrix.board)
  {
    match m
    case Rotate => matrix.Rotate();
    case MirrorRows => matrix.MirrorRows();
    case MirrorColumns => matrix.MirrorColumns();
    case SwapRows(cluster, pivot) => matrix.SwapRows(cluster, pivot);
    case SwapColumns(cluster, pivot) => matrix.SwapColumns(cluster, pivot);
    case SwapRowClusters(pivot) => matrix.SwapRowClusters(pivot);
    case SwapColumnClusters(pivot) => matrix.SwapColumnClusters(pivot);
  }

  /** The loop of `shuffle`: the moves applied to the matrix one after another. */
  method ApplyMoves(matrix: Matrix, moves: seq<Move>)
    requires matrix.Valid()
    requires forall k :: 0 <= k < |moves| ==> moves[k].WellFormed()
    modifies matrix, matrix.board
    ensures matrix.Valid() && matrix.Cells() == Shuffled(old(matrix.Cells()), moves)
  {
    ghost var g := matrix.Cells();
    for i := 0 to |moves|
      invariant matrix.Valid() && matrix.Cells() == Shuffled(g, moves[..i])
      invariant matrix.board == old(matrix.board) || fresh(matrix.board)
    {
      ShuffledPrefix(g, moves, i);
      ApplyMove(matrix, moves[i]);
    }
    assert moves[..|moves|] == moves;
  }

  /** `shuffle`: 100 moves, each drawn by the switch. */
  method Shuffle(matrix: Matrix, moves: seq<Move>)
    requires matrix.Valid() && |moves| == 100
    requires forall k :: 0 <= k < |moves| ==> moves[k].WellFormed()
    modifies matrix, matrix.board
    ensures matrix.Valid() && matrix.Cells() == Shuffled(old(matrix.Cells()), moves)
    ensures Complete(old(matrix.Cells())) ==> Complete(matrix.Cells())
  {
    ghost var g := matrix.Cells();
    ApplyMoves(matrix, moves);
    if Complete(g) {
      ShuffledKeepsComplete(g, moves);
    }
  }

  // ---------------------------------------------------------------------------------------
  // randomCellSequence, difficultyToSize
  // ---------------------------------------------------------------------------------------

  /** picks[i] is the position in 0..i drawn at step i of the shuffle, for i = 80 down to 1
      (picks[0] is unused). */
  predicate ValidPicks(picks: seq<int>)
  {
    |picks| == 81 && forall i :: 1 <= i < 81 ==> 0 <= picks[i] <= i
  }

  /** The numbers 0..80 in order. */
  function Identity(): (ids: seq<int>)
    ensures |ids| == 81 && forall k :: 0 <= k < 81 ==> ids[k] == k
  {
    seq(81, k => k)
  }

  /** Every element is a cell number 0..80. */
  ghost predicate InRange(s: seq<int>)
  {
    forall k :: 0 <= k < |s| ==> 0 <= s[k] < 81
  }

  /** No element occurs twice. */
  ghost predicate Injective(s: seq<int>)
  {
    forall p, q :: 0 <= p < q < |s| ==> s[p] != s[q]
  }

  /** Exchanging two elements keeps the elements, their range and their distinctness. */
  lemma SwapKeeps(s: seq<int>, i: int, j: int)
    requires 0 <= i < |s| && 0 <= j < |s|
    ensures multiset(s[j := s[i]][i := s[j]]) == multiset(s)
    ensures InRange(s) ==> InRange(s[j := s[i]][i := s[j]])
    ensures Injective(s) ==> Injective(s[j := s[i]][i := s[j]])
  {
    SwapMultiset(s, i, j);
    if InRange(s) {
      SwapInRange(s, i, j);
    }
    if Injective(s) {
      SwapInjective(s, i, j);
    }
  }

  lemma SwapMultiset(s: seq<int>, i: int, j: int)
    requires 0 <= i < |s| && 0 <= j < |s|
    ensures multiset(s[j := s[i]][i := s[j]]) == multiset(s)
  {
  }

  lemma SwapInRange(s: seq<int>, i: int, j: int)
    requires 0 <= i < |s| && 0 <= j < |s| && InRange(s)
    ensures InRange(s[j := s[i]][i := s[j]])
  {
  }

  lemma SwapInjective(s: seq<int>, i: int, j: int)
    requires 0 <= i < |s| && 0 <= j < |s| && Injective(s)
    ensures Injective(s[j := s[i]][i := s[j]])
  {
    var t := s[j := s[i]][i := s[j]];
    forall p, q | 0 <= p < q < |t|
      ensures t[p] != t[q]
    {
      var p0 := if p == i then j else if p == j then i else p;
      var q0 := if q == i then j else if q == j then i else q;
      assert t[p] == s[p0] && t[q] == s[q0];
    }
  }

  /** `randomCellSequence`: a Fisher-Yates shuffle of 0..80 driven by the given draws. */
  method RandomCellSequence(picks: seq<int>) returns (cells: seq<int>)
    requires ValidPicks(picks)
    ensures |cells| == 81 && multiset(cells) == multiset(Identity())
    ensures forall k :: 0 <= k < 81 ==> 0 <= cells[k] < 81
    ensures forall p, q :: 0 <= p < q < 81 ==> cells[p] != cells[q]
  {
    var a := new int[81](k => k);
    assert a[..] == Identity();
    var i := 80;
    while i > 0
      invariant 0 <= i <= 80
      invariant multiset(a[..]) == multiset(Identity())
      invariant InRange(a[..]) && Injective(a[..])
    {
      var j := picks[i];
      ghost var s := a[..];
      var t := a[j];
      a[j] := a[i];
      a[i] := t;
      assert a[..] == s[j := s[i]][i := s[j]];
      SwapKeeps(s, i, j);
      i := i - 1;
    }
    cells := a[..];
  }

  /** The `Difficulty` enumeration the generator is called with. */
  datatype Difficulty = Easy | Medium | Hard

  /** `difficultyToSize`: how many cells `prune` tries to remove. */
  function DifficultyToSize(difficulty: Difficulty): (size: int)
    ensures 0 < size <= 81
    ensures difficulty == Easy ==> size == 41
    ensures difficulty == Medium ==> size == 61
    ensures difficulty == Hard ==> size == 81
  {
    if difficulty == Easy then 41
    else if difficulty == Medium then 61
    else 81
  }

  /** A harder difficulty asks for at least as many removals, and only `Hard` asks for all 81. */
  lemma DifficultyOrder()
    ensures DifficultyToSize(Easy) < DifficultyToSize(Medium) < DifficultyToSize(Hard)
    ensures forall d: Difficulty :: DifficultyToSize(d) == 81 <==> d == Hard
  {
  }

  // ---------------------------------------------------------------------------------------
  // solvable, multipleSolutions
  // ---------------------------------------------------------------------------------------

  /** Two boards that differ at most at c agree after writing c. */
  lemma PutOver(g: Board, h: Board, c: Coordinate, v: int)
    requires c.InBounds() && AgreeExcept(g, h, c)
    ensures Put(g, c, v) == Put(h, c, v)
  {
    Extensionality(Put(g, c, v), Put(h, c, v));
  }

  /** Blanking an empty cell again after a write restores the board. */
  lemma PutBack(g: Board, c: Coordinate, v: int)
    requires c.InBounds() && At(g, c) == 0
    ensures Put(Put(g, c, v), c, 0) == g
  {
    Extensionality(Put(Put(g, c, v), c, 0), g);
  }

  /** h agrees with g everywhere except possibly at c. */
  ghost predicate AgreeExcept(g: Board, h: Board, c: Coordinate)
  {
    forall d: Coordinate :: d.InBounds() && d != c ==> At(h, d) == At(g, d)
  }

  /** Every cell of h other than c is as in g, or is a listed cell that is now blank. */
  ghost predicate KeptOrBlankedExcept(g: Board, h: Board, cells: seq<Coordinate>, c: Coordinate)
  {
    forall d: Coordinate :: d.InBounds() && d != c ==> At(h, d) == At(g, d) || (d in cells && At(h, d) == 0)
  }

  /** Every cell of h is as in g, or is a listed cell that is now blank. */
  ghost predicate KeptOrBlanked(g: Board, h: Board, cells: seq<Coordinate>)
  {
    forall d: Coordinate :: d.InBounds() ==> At(h, d) == At(g, d) || (d in cells && At(h, d) == 0)
  }

  lemma DeeperFrame(g: Board, before: Board, after: Board, c: Coordinate, v: int, cells: seq<Coordinate>)
    requires c.InBounds() && KeptOrBlankedExcept(g, before, cells, c)
    requires KeptOrBlanked(Put(before, c, v), after, cells)
    ensures KeptOrBlankedExcept(g, after, cells, c)
  {
  }

  lemma FinalFrame(g: Board, h: Board, c: Coordinate, cells: seq<Coordinate>)
    requires c.InBounds() && KeptOrBlankedExcept(g, h, cells, c)
    ensures KeptOrBlanked(g, Put(h, c, 0), [c] + cells)
  {
    forall d: Coordinate | d.InBounds()
      ensures At(Put(h, c, 0), d) == At(g, d) || (d in [c] + cells && At(Put(h, c, 0), d) == 0)
    {
      if d != c {
        assert d in cells ==> d in [c] + cells;
      }
    }
  }

  lemma SolvedFrame(h: Board, c: Coordinate, cells: seq<Coordinate>)
    requires c.InBounds() && AllInBounds(cells) && AllEmpty(h, cells)
    ensures AllInBounds([c] + cells) && AllEmpty(Put(h, c, 0), [c] + cells)
  {
    var all := [c] + cells;
    forall k | 0 <= k < |all|
      ensures all[k].InBounds() && At(Put(h, c, 0), all[k]) == 0
    {
      if k > 0 { assert all[k] == cells[k - 1]; }
    }
  }

  /** Writing the first listed cell keeps the other distinct listed cells blank. */
  lemma BlankRest(g: Board, cells: seq<Coordinate>, v: int)
    requires AllInBounds(cells) && Distinct(cells) && cells != [] && AllEmpty(g, cells)
    ensures AllInBounds(cells[1..]) && Distinct(cells[1..]) && cells[0] !in cells[1..]
    ensures AllEmpty(Put(g, cells[0], v), cells[1..])
  {
    forall k | 0 <= k < |cells[1..]|
      ensures At(Put(g, cells[0], v), cells[1..][k]) == 0
    {
      assert cells[1..][k] == cells[k + 1];
    }
  }

  /** No digit below `value` can be tried first with success. */
  ghost predicate NoneBelow(g: Board, cells: seq<Coordinate>, value: int)
    requires AllInBounds(cells) && cells != []
  {
    forall v :: 1 <= v < value ==> !Extends(g, cells, v)
  }

  lemma NoneBelowStep(g: Board, cells: seq<Coordinate>, value: int)
    requires AllInBounds(cells) && cells != [] && NoneBelow(g, cells, value) && !Extends(g, cells, value)
    ensures NoneBelow(g, cells, value + 1)
  {
    forall v | 1 <= v < value + 1
      ensures !Extends(g, cells, v)
    {
      if v == value {
      } else {
        assert v < value;
      }
    }
  }

  lemma NoneBelowSearch(g: Board, cells: seq<Coordinate>)
    requires AllInBounds(cells) && cells != [] && NoneBelow(g, cells, 10)
    ensures !Search(g, cells)
  {
  }

  /** `solvable(matrix, emptyCells, index)`: backtracking over emptyCells[index..], writing each
      tried digit into the matrix and blanking the cell again before returning. */
  method Solvable(matrix: Matrix, emptyCells: seq<Coordinate>, index: int) returns (solved: bool)
    requires matrix.Valid() && AllInBounds(emptyCells) && 0 <= index <= |emptyCells|
    modifies matrix.board
    ensures matrix.Valid()
    // Only the listed cells are written, and each of them ends blank or as it was.
    ensures KeptOrBlanked(old(matrix.Cells()), matrix.Cells(), emptyCells[index..])
    ensures index < |emptyCells| ==> At(matrix.Cells(), emptyCells[index]) == 0
    ensures solved ==> AllEmpty(matrix.Cells(), emptyCells[index..])
    // On distinct blank cells the board is restored and the answer is the search's.
    ensures Distinct(emptyCells[index..]) && AllEmpty(old(matrix.Cells()), emptyCells[index..]) ==>
      matrix.Cells() == old(matrix.Cells()) && (solved <==> Search(old(matrix.Cells()), emptyCells[index..]))
    decreases |emptyCells| - index
  {
    ghost var g := matrix.Cells();
    ghost var tail := emptyCells[index..];
    ghost var blank := Distinct(tail) && AllEmpty(g, tail);
    if index == |emptyCells| {
      return true;
    }
    var cell := emptyCells[index];
    ghost var rest := emptyCells[index + 1..];
    assert tail == [cell] + rest && tail[0] == cell && tail[1..] == rest;
    if blank {
      BlankRest(g, tail, 0);
    }
    for value := 1 to 10
      invariant matrix.Valid()
      invariant KeptOrBlankedExcept(g, matrix.Cells(), rest, cell)
      invariant blank ==> AgreeExcept(g, matrix.Cells(), cell)
      invariant blank ==> NoneBelow(g, tail, value)
    {
      ghost var before := matrix.Cells();
      matrix.SetValue(cell, value);
      ghost var tried := matrix.Cells();
      if blank {
        PutOver(before, g, cell, value);
        BlankRest(g, tail, value);
      }
      if !IsValid(matrix.Cells(), cell) {
        if blank {
          NoneBelowStep(g, tail, value);
        }
        continue;
      }
      var deeper := Solvable(matrix, emptyCells, index + 1);
      DeeperFrame(g, before, matrix.Cells(), cell, value, rest);
      if blank && !deeper {
        NoneBelowStep(g, tail, value);
      }
      if deeper {
        ghost var after := matrix.Cells();
        matrix.SetValue(cell, 0);
        FinalFrame(g, after, cell, rest);
        SolvedFrame(after, cell, rest);
        if blank {
          PutBack(g, cell, value);
          assert Extends(g, tail, value);
        }
        return true;
      }
    }
    ghost var last := matrix.Cells();
    matrix.SetValue(cell, 0);
    FinalFrame(g, last, cell, rest);
    if blank {
      Extensionality(matrix.Cells(), g);
      NoneBelowSearch(g, tail);
    }
    return false;
  }

  /** `multipleSolutions(matrix, cell, value, emptyCells)`: whether a digit other than the
      removed `value` at `cell` still lets the earlier removals be filled in. */
  method MultipleSolutions(matrix: Matrix, cell: Coordinate, value: int, emptyCells: seq<Coordinate>)
    returns (multiple: bool)
    requires matrix.Valid() && cell.InBounds() && AllInBounds(emptyCells)
    modifies matrix.board
    ensures matrix.Valid()
    ensures emptyCells == [] ==> !multiple && matrix.Cells() == old(matrix.Cells())
    // Apart from `cell`, only the listed cells are written, and they end blank or as they were.
    ensures KeptOrBlankedExcept(old(matrix.Cells()), matrix.Cells(), emptyCells, cell)
    // On distinct blank cells that do not include `cell`, only `cell` changes, the answer is
    // whether an alternative digit exists, and a positive answer leaves that digit (never
    // `value`) at `cell`.
    ensures Distinct(emptyCells) && cell !in emptyCells && AllEmpty(old(matrix.Cells()), emptyCells) ==>
      AgreeExcept(old(matrix.Cells()), matrix.Cells(), cell)
      && (multiple <==> HasAlternative(old(matrix.Cells()), cell, value, emptyCells))
      && (multiple ==> At(matrix.Cells(), cell) != value
                       && Extends(old(matrix.Cells()), [cell] + emptyCells, At(matrix.Cells(), cell)))
  {
    ghost var g := matrix.Cells();
    ghost var blank := Distinct(emptyCells) && cell !in emptyCells && AllEmpty(g, emptyCells);
    ghost var all := [cell] + emptyCells;
    if |emptyCells| == 0 {
      return false;
    }
    assert all[0] == cell && all[1..] == emptyCells;
    assert emptyCells[0..] == emptyCells;
    for i := 1 to 10
      invariant matrix.Valid()
      invariant KeptOrBlankedExcept(g, matrix.Cells(), emptyCells, cell)
      invariant blank ==> AgreeExcept(g, matrix.Cells(), cell)
      invariant blank ==> NoAlternativeBelow(g, all, value, i)
    {
      if i == value {
        if blank {
          NoAlternativeSkip(g, all, value, i);
        }
        continue;
      }
      ghost var before := matrix.Cells();
      matrix.SetValue(cell, i);
      ghost var tried := matrix.Cells();
      if blank {
        PutOver(before, g, cell, i);
        PutKeepsEmpty(g, cell, i, emptyCells);
      }
      if !IsValid(matrix.Cells(), cell) {
        if blank {
          NoAlternativeStep(g, all, value, i);
        }
        continue;
      }
      var solved := Solvable(matrix, emptyCells, 0);
      DeeperFrame(g, before, matrix.Cells(), cell, i, emptyCells);
      if blank && !solved {
        assert tried == Put(g, cell, i);
        FailedFirst(g, cell, i, emptyCells);
        NoAlternativeStep(g, all, value, i);
      }
      if solved {
        if blank {
          assert matrix.Cells() == tried;
          assert Extends(g, all, i);
        }
        return true;
      }
    }
    if blank {
      NoAlternativeAtAll(g, cell, value, emptyCells);
    }
    return false;
  }

  /** A digit whose board cannot be searched does not extend the list it heads. */
  lemma FailedFirst(g: Board, c: Coordinate, v: int, cells: seq<Coordinate>)
    requires c.InBounds() && AllInBounds(cells) && !Search(Put(g, c, v), cells)
    ensures !Extends(g, [c] + cells, v)
  {
    assert ([c] + cells)[1..] == cells;
  }

  /** No digit below `i` other than `value` can be tried first with success. */
  ghost predicate NoAlternativeBelow(g: Board, cells: seq<Coordinate>, value: int, i: int)
    requires AllInBounds(cells) && cells != []
  {
    forall v :: 1 <= v < i && v != value ==> !Extends(g, cells, v)
  }

  lemma NoAlternativeSkip(g: Board, cells: seq<Coordinate>, value: int, i: int)
    requires AllInBounds(cells) && cells != [] && NoAlternativeBelow(g, cells, value, i) && i == value
    ensures NoAlternativeBelow(g, cells, value, i + 1)
  {
    forall v | 1 <= v < i + 1 && v != value
      ensures !Extends(g, cells, v)
    {
      assert v < i;
    }
  }

  lemma NoAlternativeStep(g: Board, cells: seq<Coordinate>, value: int, i: int)
    requires AllInBounds(cells) && cells != [] && NoAlternativeBelow(g, cells, value, i)
    requires !Extends(g, cells, i)
    ensures NoAlternativeBelow(g, cells, value, i + 1)
  {
    forall v | 1 <= v < i + 1 && v != value
      ensures !Extends(g, cells, v)
    {
      if v == i {
      } else {
        assert v < i;
      }
    }
  }

  lemma NoAlternativeAtAll(g: Board, cell: Coordinate, value: int, cells: seq<Coordinate>)
    requires cell.InBounds() && AllInBounds(cells) && NoAlternativeBelow(g, [cell] + cells, value, 10)
    ensures !HasAlternative(g, cell, value, cells)
  {
  }

  /** Writing a cell that is not listed keeps the listed cells blank. */
  lemma PutKeepsEmpty(g: Board, c: Coordinate, v: int, cells: seq<Coordinate>)
    requires c.InBounds() && AllInBounds(cells) && c !in cells && AllEmpty(g, cells)
    ensures AllEmpty(Put(g, c, v), cells)
  {
    forall k | 0 <= k < |cells|
      ensures At(Put(g, c, v), cells[k]) == 0
    {
      assert cells[k] != c;
    }
  }

  // ---------------------------------------------------------------------------------------
  // prune
  // ---------------------------------------------------------------------------------------

  /** The cell `prune` visits for permutation entry n: row n % 9 and column n / 9. */
  function PruneCell(n: int): (c: Coordinate)
    requires 0 <= n < 81
    ensures c.InBounds()
  {
    Coordinate(n % 9, n / 9)
  }

  /** Distinct entries of the permutation name distinct cells. */
  lemma PruneCellInjective(m: int, n: int)
    requires 0 <= m < 81 && 0 <= n < 81 && m != n
    ensures PruneCell(m) != PruneCell(n)
  {
    assert m == 9 * (m / 9) + m % 9 && n == 9 * (n / 9) + n % 9;
  }

  /** The cells visited after step i are neither among the removals so far nor the cell of
      step i, so they stay unvisited whichever way step i goes. */
  lemma LaterCellsUnvisited(cells: seq<int>, i: int, removals: seq<Coordinate>)
    requires |cells| == 81 && 0 <= i < 81
    requires forall k :: 0 <= k < 81 ==> 0 <= cells[k] < 81
    requires forall p, q :: 0 <= p < q < 81 ==> cells[p] != cells[q]
    requires forall k :: i <= k < 81 ==> PruneCell(cells[k]) !in removals
    ensures forall k :: i + 1 <= k < 81 ==> PruneCell(cells[k]) !in removals + [PruneCell(cells[i])]
  {
    forall k | i + 1 <= k < 81
      ensures PruneCell(cells[k]) !in removals + [PruneCell(cells[i])]
    {
      PruneCellInjective(cells[k], cells[i]);
    }
  }

  /** Every permutation entry names a cell, and every cell is named by one. */
  lemma PruneCellOnto(c: Coordinate)
    requires c.InBounds()
    ensures 0 <= c.column * 9 + c.row < 81 && PruneCell(c.column * 9 + c.row) == c
  {
  }

  /** Removal k was accepted: on the board with removals 0..k blank, no digit other than the
      original one at removals[k] lets `solvable` fill the earlier removals. */
  ghost predicate Justified(g: Board, removals: seq<Coordinate>, k: int)
    requires AllInBounds(removals) && 0 <= k < |removals|
  {
    !HasAlternative(Zeroed(g, removals[..k + 1]), removals[k], At(g, removals[k]), removals[..k])
  }

  /** A cell `prune` visited and kept: when it was tried, with the removals of some prefix p
      of the final list already blank, some other digit at it still let those removals be
      filled in. */
  ghost predicate Rejected(g: Board, removals: seq<Coordinate>, c: Coordinate)
    requires AllInBounds(removals) && c.InBounds()
  {
    exists p :: p <= removals && TurnedDown(g, p, c)
  }

  /** `multipleSolutions` answers true for cell c with the removals p blank. */
  ghost predicate TurnedDown(g: Board, p: seq<Coordinate>, c: Coordinate)
  {
    AllInBounds(p) && c.InBounds() && HasAlternative(Zeroed(g, p + [c]), c, At(g, c), p)
  }

  /** How a visited cell ended: empty from the start, removed, or rejected. */
  ghost predicate Settled(g: Board, removals: seq<Coordinate>, c: Coordinate)
    requires AllInBounds(removals) && c.InBounds()
  {
    At(g, c) == 0 || c in removals || Rejected(g, removals, c)
  }

  /** A later removal leaves every earlier outcome as it was. */
  lemma SettledKept(g: Board, removals: seq<Coordinate>, x: Coordinate, c: Coordinate)
    requires AllInBounds(removals) && x.InBounds() && c.InBounds()
    requires Settled(g, removals, c)
    ensures AllInBounds(removals + [x]) && Settled(g, removals + [x], c)
  {
    var next := removals + [x];
    AppendInBounds(removals, x);
    if c in removals {
      assert c in next;
    } else if At(g, c) != 0 {
      RejectedKept(g, removals, x, c);
    }
  }

  /** Appending an in-bounds cell keeps every listed cell in bounds. */
  lemma AppendInBounds(cells: seq<Coordinate>, x: Coordinate)
    requires AllInBounds(cells) && x.InBounds()
    ensures AllInBounds(cells + [x])
  {
    forall k | 0 <= k < |cells| + 1
      ensures (cells + [x])[k].InBounds()
    {
      if k < |cells| {
        assert (cells + [x])[k] == cells[k];
      }
    }
  }

  /** A cell turned down against a prefix of the removals stays turned down as the list grows. */
  lemma RejectedKept(g: Board, removals: seq<Coordinate>, x: Coordinate, c: Coordinate)
    requires AllInBounds(removals) && AllInBounds(removals + [x]) && c.InBounds()
    requires Rejected(g, removals, c)
    ensures Rejected(g, removals + [x], c)
  {
    var p :| p <= removals && TurnedDown(g, p, c);
    assert p <= removals + [x];
  }

  /** Appending a removal keeps the outcome of every cell visited so far. */
  lemma SettledAppend(g: Board, cells: seq<int>, i: int, removals: seq<Coordinate>, x: Coordinate)
    requires |cells| == 81 && 0 <= i <= 81 && forall k :: 0 <= k < 81 ==> 0 <= cells[k] < 81
    requires AllInBounds(removals) && x.InBounds()
    requires forall k :: 0 <= k < i ==> Settled(g, removals, PruneCell(cells[k]))
    ensures AllInBounds(removals + [x])
    ensures forall k :: 0 <= k < i ==> Settled(g, removals + [x], PruneCell(cells[k]))
  {
    forall k | 0 <= k < i
      ensures Settled(g, removals + [x], PruneCell(cells[k]))
    {
      SettledKept(g, removals, x, PruneCell(cells[k]));
    }
  }

  /** A cell the uniqueness test turned down is rejected, with every current removal blank. */
  lemma RejectedNow(g: Board, removals: seq<Coordinate>, c: Coordinate)
    requires AllInBounds(removals) && c.InBounds()
    requires HasAlternative(Zeroed(g, removals + [c]), c, At(g, c), removals)
    ensures Rejected(g, removals, c)
  {
    assert removals <= removals && TurnedDown(g, removals, c);
  }

  /** Once the whole permutation has been visited, every cell of the board is settled. */
  lemma AllSettled(g: Board, cells: seq<int>, removals: seq<Coordinate>)
    requires |cells| == 81 && multiset(cells) == multiset(Identity())
    requires forall k :: 0 <= k < 81 ==> 0 <= cells[k] < 81
    requires AllInBounds(removals)
    requires forall k :: 0 <= k < 81 ==> Settled(g, removals, PruneCell(cells[k]))
    ensures forall c: Coordinate :: c.InBounds() ==> Settled(g, removals, c)
  {
    forall c: Coordinate | c.InBounds()
      ensures Settled(g, removals, c)
    {
      var n := c.column * 9 + c.row;
      PruneCellOnto(c);
      assert Identity()[n] == n;
      assert n in multiset(Identity());
      assert n in cells;
      var k :| 0 <= k < 81 && cells[k] == n;
    }
  }

  /** Blanking one more cell, and writing its value back. */
  lemma ZeroedStep(g: Board, cells: seq<Coordinate>, c: Coordinate)
    requires c.InBounds() && c !in cells
    ensures Put(Zeroed(g, cells), c, 0) == Zeroed(g, cells + [c])
    ensures Put(Zeroed(g, cells + [c]), c, At(g, c)) == Zeroed(g, cells)
    ensures Put(Zeroed(g, cells + [c]), c, 0) == Zeroed(g, cells + [c])
  {
    forall d: Coordinate | d.InBounds()
      ensures (d in cells + [c]) <==> (d in cells || d == c)
    {
    }
    Extensionality(Put(Zeroed(g, cells), c, 0), Zeroed(g, cells + [c]));
    Extensionality(Put(Zeroed(g, cells + [c]), c, At(g, c)), Zeroed(g, cells));
    Extensionality(Put(Zeroed(g, cells + [c]), c, 0), Zeroed(g, cells + [c]));
  }

  /** The blanked cells of `Zeroed` are blank. */
  lemma ZeroedEmpty(g: Board, cells: seq<Coordinate>)
    requires AllInBounds(cells)
    ensures AllEmpty(Zeroed(g, cells), cells)
  {
    forall k | 0 <= k < |cells|
      ensures At(Zeroed(g, cells), cells[k]) == 0
    {
      assert cells[k] in cells;
    }
  }

  /** Appending a new cell keeps a list distinct, and keeps its earlier justifications. */
  lemma AppendRemoval(g: Board, cells: seq<Coordinate>, c: Coordinate)
    requires c.InBounds() && c !in cells && AllInBounds(cells) && Distinct(cells)
    requires forall k :: 0 <= k < |cells| ==> Justified(g, cells, k)
    requires !HasAlternative(Zeroed(g, cells + [c]), c, At(g, c), cells)
    ensures AllInBounds(cells + [c]) && Distinct(cells + [c])
    ensures forall k :: 0 <= k < |cells + [c]| ==> Justified(g, cells + [c], k)
  {
    AppendDistinct(cells, c);
    AppendJustified(g, cells, c);
  }

  /** Appending a cell not in a distinct list keeps it distinct. */
  lemma AppendDistinct(cells: seq<Coordinate>, c: Coordinate)
    requires c.InBounds() && c !in cells && AllInBounds(cells) && Distinct(cells)
    ensures AllInBounds(cells + [c]) && Distinct(cells + [c])
  {
    var next := cells + [c];
    forall p, q | 0 <= p < q < |next|
      ensures next[p] != next[q]
    {
      if q == |cells| {
        assert next[p] == cells[p];
      }
    }
  }

  /** Appending a cell whose removal was checked keeps every removal justified. */
  lemma AppendJustified(g: Board, cells: seq<Coordinate>, c: Coordinate)
    requires c.InBounds() && AllInBounds(cells)
    requires forall k :: 0 <= k < |cells| ==> Justified(g, cells, k)
    requires !HasAlternative(Zeroed(g, cells + [c]), c, At(g, c), cells)
    ensures AllInBounds(cells + [c])
    ensures forall k :: 0 <= k < |cells + [c]| ==> Justified(g, cells + [c], k)
  {
    forall k | 0 <= k < |cells| + 1
      ensures Justified(g, cells + [c], k)
    {
      if k < |cells| {
        JustifiedKept(g, cells, c, k);
      } else {
        LastJustified(g, cells, c);
      }
    }
  }

  /** Appending a cell leaves the earlier justifications as they were: each only looks at the
      prefix. */
  lemma JustifiedKept(g: Board, cells: seq<Coordinate>, c: Coordinate, k: int)
    requires c.InBounds() && AllInBounds(cells) && 0 <= k < |cells|
    ensures AllInBounds(cells + [c]) && (Justified(g, cells + [c], k) <==> Justified(g, cells, k))
  {
    var next := cells + [c];
    assert next[..k + 1] == cells[..k + 1];
    assert next[..k] == cells[..k];
    assert next[k] == cells[k];
  }

  /** A solution of a single removal from a solved board puts back the removed digit: every
      other digit already sits in the cell's row. */
  lemma FirstRemovalKept(g: Board, c: Coordinate, vs: seq<int>)
    requires Complete(g) && c.InBounds()
    requires IsSolution(Zeroed(g, [c]), [c], vs)
    ensures vs == [At(g, c)]
  {
    var z := Zeroed(g, [c]);
    assert Fill(z, [c], vs) == Put(g, c, vs[0]) by {
      Extensionality(Put(z, c, vs[0]), Put(g, c, vs[0]));
    }
    LoneBlank(g, c, vs[0]);
  }

  /** A solution of the justified removals keeps the last removal's original digit: any other
      digit is the alternative `multipleSolutions` ruled out. */
  lemma LastRemovalKept(g: Board, front: seq<Coordinate>, c: Coordinate, vs: seq<int>)
    requires AllInBounds(front) && Distinct(front + [c]) && c.InBounds() && c !in front && front != []
    requires !HasAlternative(Zeroed(g, front + [c]), c, At(g, c), front)
    requires IsSolution(Zeroed(g, front + [c]), front + [c], vs)
    ensures vs[|vs| - 1] == At(g, c)
  {
    var z := Zeroed(g, front + [c]);
    FrontEmpty(g, front, c);
    LastFirstSolution(z, front + [c], vs);
    LastFirstAppend(front, c);
    HasAlternativeIffOtherSolution(z, c, At(g, c), front);
    assert IsSolution(z, [c] + front, LastFirst(vs)) && LastFirst(vs)[0] == vs[|vs| - 1];
  }

  /** Blanking a list with one more cell blanks the shorter list and the extra cell. */
  lemma FrontEmpty(g: Board, front: seq<Coordinate>, c: Coordinate)
    requires AllInBounds(front) && c.InBounds()
    ensures AllEmpty(Zeroed(g, front + [c]), front) && At(Zeroed(g, front + [c]), c) == 0
  {
    var removals := front + [c];
    ZeroedEmpty(g, removals);
    forall k | 0 <= k < |front|
      ensures At(Zeroed(g, removals), front[k]) == 0
    {
      assert removals[k] == front[k];
    }
    assert removals[|front|] == c;
  }

  /** Moving the last element of s + [c] to the front gives [c] + s. */
  lemma LastFirstAppend<T>(s: seq<T>, c: T)
    ensures LastFirst(s + [c]) == [c] + s
  {
    assert (s + [c])[..|s|] == s;
  }

  /** The removals before the last are justified on their own. */
  lemma JustifiedPrefix(g: Board, front: seq<Coordinate>, c: Coordinate)
    requires AllInBounds(front) && c.InBounds()
    requires forall k :: 0 <= k < |front + [c]| ==> Justified(g, front + [c], k)
    ensures forall k :: 0 <= k < |front| ==> Justified(g, front, k)
    ensures !HasAlternative(Zeroed(g, front + [c]), c, At(g, c), front)
  {
    forall k | 0 <= k < |front|
      ensures Justified(g, front, k)
    {
      JustifiedKept(g, front, c, k);
    }
    LastJustified(g, front, c);
  }

  /** The justification of the last cell of front + [c] is the check made when c was removed. */
  lemma LastJustified(g: Board, front: seq<Coordinate>, c: Coordinate)
    requires AllInBounds(front) && c.InBounds()
    ensures AllInBounds(front + [c])
    ensures Justified(g, front + [c], |front|) <==> !HasAlternative(Zeroed(g, front + [c]), c, At(g, c), front)
  {
    var removals := front + [c];
    assert removals[..|front| + 1] == removals;
    assert removals[..|front|] == front;
    assert removals[|front|] == c;
  }

  /** Keeping the last removal's digit, a solution of the removals solves the shorter list. */
  lemma ShorterSolution(g: Board, front: seq<Coordinate>, c: Coordinate, vs: seq<int>)
    requires AllInBounds(front) && Distinct(front + [c]) && c.InBounds()
    requires IsSolution(Zeroed(g, front + [c]), front + [c], vs) && vs[|vs| - 1] == At(g, c)
    ensures IsSolution(Zeroed(g, front), front, vs[..|vs| - 1])
  {
    var removals := front + [c];
    var n := |removals|;
    assert removals[n - 1] == c && removals[..n - 1] == front;
    assert c !in front;
    FillLast(Zeroed(g, removals), removals, vs);
    ZeroedStep(g, front, c);
    forall j | 0 <= j < n - 1
      ensures PeerFree(Fill(Zeroed(g, front), front, vs[..n - 1]), front[j]) && 1 <= vs[..n - 1][j] <= 9
    {
      assert front[j] == removals[j];
    }
  }

  /** A solved board with a list of justified removals blanked has exactly one solution on
      those cells: the digits it held. By induction on the removals: the last removal keeps
      its digit, and the rest is then a solution of the shorter list. */
  lemma {:induction false} JustifiedRemovalsUnique(g: Board, removals: seq<Coordinate>, vs: seq<int>)
    requires Complete(g) && AllInBounds(removals) && Distinct(removals)
    requires forall k :: 0 <= k < |removals| ==> Justified(g, removals, k)
    requires IsSolution(Zeroed(g, removals), removals, vs)
    ensures vs == ValuesAt(g, removals)
    decreases |removals|
  {
    if removals != [] {
      var n := |removals|;
      var front := removals[..n - 1];
      var c := removals[n - 1];
      assert removals == front + [c];
      LastRemovalStep(g, front, c, vs);
      JustifiedRemovalsUnique(g, front, vs[..n - 1]);
      ValuesAppended(g, front, c, vs);
    }
  }

  /** One step of that induction: the last removal keeps its digit, and the justified
      removals before it, with the other digits, are again a solved instance. */
  lemma LastRemovalStep(g: Board, front: seq<Coordinate>, c: Coordinate, vs: seq<int>)
    requires Complete(g) && AllInBounds(front) && c.InBounds() && Distinct(front + [c])
    requires forall k :: 0 <= k < |front + [c]| ==> Justified(g, front + [c], k)
    requires IsSolution(Zeroed(g, front + [c]), front + [c], vs)
    ensures Distinct(front) && forall k :: 0 <= k < |front| ==> Justified(g, front, k)
    ensures IsSolution(Zeroed(g, front), front, vs[..|front|]) && vs[|front|] == At(g, c)
  {
    DistinctFront(front, c);
    JustifiedPrefix(g, front, c);
    if front == [] {
      assert front + [c] == [c];
      FirstRemovalKept(g, c, vs);
    } else {
      LastRemovalKept(g, front, c, vs);
    }
    ShorterSolution(g, front, c, vs);
  }

  /** A distinct list with its last element taken off is distinct and lacks that element. */
  lemma DistinctFront(front: seq<Coordinate>, c: Coordinate)
    requires Distinct(front + [c])
    ensures Distinct(front) && c !in front
  {
    var cells := front + [c];
    forall p, q | 0 <= p < q < |front|
      ensures front[p] != front[q]
    {
      assert cells[p] == front[p] && cells[q] == front[q];
    }
    forall p | 0 <= p < |front|
      ensures front[p] != c
    {
      assert cells[p] == front[p] && cells[|front|] == c;
    }
  }

  /** The digits at front + [c] are those at front followed by the digit at c. */
  lemma ValuesAppended(g: Board, front: seq<Coordinate>, c: Coordinate, vs: seq<int>)
    requires AllInBounds(front) && c.InBounds() && |vs| == |front| + 1
    requires vs[..|front|] == ValuesAt(g, front) && vs[|front|] == At(g, c)
    ensures AllInBounds(front + [c]) && vs == ValuesAt(g, front + [c])
  {
    var cells := front + [c];
    forall k | 0 <= k < |vs|
      ensures vs[k] == ValuesAt(g, cells)[k]
    {
      if k < |front| {
        assert vs[k] == vs[..|front|][k];
        assert cells[k] == front[k];
      } else {
        assert cells[k] == c;
      }
    }
  }

  /** The puzzle `prune` leaves is solvable, and its only solution is the board it started
      from. */
  lemma UniqueSolution(g: Board, removals: seq<Coordinate>)
    requires Complete(g) && AllInBounds(removals) && Distinct(removals)
    requires forall k :: 0 <= k < |removals| ==> Justified(g, removals, k)
    ensures forall vs :: IsSolution(Zeroed(g, removals), removals, vs) <==> vs == ValuesAt(g, removals)
  {
    PuzzleKeepsOriginalSolution(g, removals);
    forall vs | IsSolution(Zeroed(g, removals), removals, vs)
      ensures vs == ValuesAt(g, removals)
    {
      JustifiedRemovalsUnique(g, removals, vs);
    }
  }

  // ---------------------------------------------------------------------------------------
  // How far prune can get: a puzzle left with at most one clue is never unique
  // ---------------------------------------------------------------------------------------

  /** The elements of a sequence, as a set. */
  function Elements(s: seq<int>): (ks: set<int>)
    ensures forall k :: k in ks <==> k in s
  {
    set k | k in s
  }

  /** A sequence without repetitions has as many elements as entries. */
  lemma {:induction false} ElementsCard(s: seq<int>)
    requires forall p, q :: 0 <= p < q < |s| ==> s[p] != s[q]
    ensures |Elements(s)| == |s|
  {
    if s != [] {
      var front := s[..|s| - 1];
      forall p, q | 0 <= p < q < |front|
        ensures front[p] != front[q]
      {
        assert front[p] == s[p] && front[q] == s[q];
      }
      ElementsCard(front);
      assert s == front + [s[|s| - 1]];
      assert s[|s| - 1] !in front;
      assert Elements(s) == Elements(front) + {s[|s| - 1]};
    }
  }

  /** Taking one member out of a set leaves one element fewer. */
  lemma RemoveOne(ks: set<int>, x: int)
    requires x in ks
    ensures |ks - {x}| == |ks| - 1
  {
    assert ks == (ks - {x}) + {x};
  }

  /** Distinct cells are stored at distinct positions. */
  lemma OffsetInjective(x: Coordinate, y: Coordinate)
    requires x.InBounds() && y.InBounds() && x != y
    ensures Offset(x) != Offset(y)
  {
  }

  /** The storage positions of a list of cells. */
  function Offsets(cells: seq<Coordinate>): (ks: seq<int>)
    requires AllInBounds(cells)
    ensures |ks| == |cells| && forall k :: 0 <= k < |cells| ==> ks[k] == Offset(cells[k])
  {
    seq(|cells|, k requires 0 <= k < |cells| => Offset(cells[k]))
  }

  /** The positions other than two given ones number 79. */
  lemma FreeCard(x: int, y: int)
    requires 0 <= x < 81 && 0 <= y < 81 && x != y
    ensures |Elements(Identity()) - {x} - {y}| == 79
  {
    var all := Elements(Identity());
    ElementsCard(Identity());
    assert Identity()[x] == x && Identity()[y] == y;
    RemoveOne(all, x);
    RemoveOne(all - {x}, y);
  }

  /** A list of distinct cells that misses two cells holds at most 79 cells. */
  lemma MissingTwo(removals: seq<Coordinate>, d: Coordinate, e: Coordinate)
    requires AllInBounds(removals) && Distinct(removals)
    requires d.InBounds() && e.InBounds() && d != e && d !in removals && e !in removals
    ensures |removals| <= 79
  {
    var offsets := Offsets(removals);
    var free := Elements(Identity()) - {Offset(d)} - {Offset(e)};
    forall k | 0 <= k < |offsets|
      ensures offsets[k] in free
    {
      assert Identity()[offsets[k]] == offsets[k];
      assert removals[k] != d && removals[k] != e;
      OffsetInjective(removals[k], d);
      OffsetInjective(removals[k], e);
    }
    forall p, q | 0 <= p < q < |offsets|
      ensures offsets[p] != offsets[q]
    {
      OffsetInjective(removals[p], removals[q]);
    }
    OffsetInjective(d, e);
    FreeCard(Offset(d), Offset(e));
    DistinctBound(offsets, free);
  }

  /** Digit a becomes b and b becomes a; every other value stays. */
  function SwapDigit(v: int, a: int, b: int): (w: int)
    ensures (v == a ==> w == b) && (v == b ==> w == a) && (v != a && v != b ==> w == v)
  {
    if v == a then b else if v == b then a else v
  }

  /** The board with digits a and b exchanged everywhere. */
  function SwapDigits(g: Board, a: int, b: int): (h: Board)
    ensures forall c: Coordinate :: c.InBounds() ==> At(h, c) == SwapDigit(At(g, c), a, b)
  {
    seq(81, k requires 0 <= k < 81 => SwapDigit(g[k], a, b))
  }

  /** Exchanging two digits keeps one peer of a cell free of its value. */
  lemma SwapDigitsApart(g: Board, a: int, b: int, c: Coordinate, d: Coordinate)
    requires c.InBounds() && d.InBounds() && At(g, d) != At(g, c)
    ensures At(SwapDigits(g, a, b), d) != At(SwapDigits(g, a, b), c)
  {
  }

  /** Exchanging two digits keeps a solved board solved. */
  lemma SwapDigitsComplete(g: Board, a: int, b: int)
    requires Complete(g) && 1 <= a <= 9 && 1 <= b <= 9
    ensures Complete(SwapDigits(g, a, b))
  {
    var h := SwapDigits(g, a, b);
    CompleteIffFilledNoConflicts(g);
    forall c: Coordinate | c.InBounds()
      ensures 1 <= At(h, c) <= 9
    {
    }
    forall c: Coordinate | c.InBounds()
      ensures PeerFree(h, c)
    {
      assert PeerFree(g, c);
      forall d: Coordinate | d.InBounds() && Peers(c, d)
        ensures At(h, d) != At(h, c)
      {
        SwapDigitsApart(g, a, b, c, d);
      }
    }
    CompleteIffFilledNoConflicts(h);
  }

  /** A permutation of 1..9 holds every digit somewhere. */
  lemma DigitPresent(s: seq<int>, v: int)
    requires IsDigitPermutation(s) && 1 <= v <= 9
    ensures exists j :: 0 <= j < 9 && s[j] == v
  {
    if forall j :: 0 <= j < 9 ==> s[j] != v {
      DistinctBound(s, {1, 2, 3, 4, 5, 6, 7, 8, 9} - {v});
    }
  }

  /** With 80 distinct cells listed, every cell but one given cell is listed. */
  lemma AllButKept(removals: seq<Coordinate>, kept: Coordinate)
    requires AllInBounds(removals) && Distinct(removals) && |removals| >= 80 && kept.InBounds()
    requires (exists d: Coordinate :: d.InBounds() && d !in removals) ==> kept !in removals
    ensures forall e: Coordinate :: e.InBounds() && e != kept ==> e in removals
  {
    forall e: Coordinate | e.InBounds() && e != kept
      ensures e in removals
    {
      if e !in removals {
        MissingTwo(removals, kept, e);
      }
    }
  }

  /** Exchanging two digits that a cell does not hold, when every other cell is blanked,
      leaves the same puzzle. */
  lemma SwappedPuzzle(g: Board, removals: seq<Coordinate>, kept: Coordinate, a: int, b: int)
    requires kept.InBounds() && At(g, kept) != a && At(g, kept) != b
    requires forall e: Coordinate :: e.InBounds() && e != kept ==> e in removals
    ensures Zeroed(SwapDigits(g, a, b), removals) == Zeroed(g, removals)
  {
    Extensionality(Zeroed(SwapDigits(g, a, b), removals), Zeroed(g, removals));
  }

  /** Where digit a sits in row 0, a blanked cell, the two boards' values differ. */
  lemma SwappedValuesDiffer(g: Board, removals: seq<Coordinate>, kept: Coordinate, a: int, b: int)
    requires Complete(g) && AllInBounds(removals) && kept.InBounds()
    requires 1 <= a <= 9 && a != b && At(g, kept) != a
    requires forall e: Coordinate :: e.InBounds() && e != kept ==> e in removals
    ensures ValuesAt(SwapDigits(g, a, b), removals) != ValuesAt(g, removals)
  {
    assert IsDigitPermutation(Row(g, 0));
    DigitPresent(Row(g, 0), a);
    var j :| 0 <= j < 9 && Row(g, 0)[j] == a;
    var e := Coordinate(0, j);
    RowEntry(g, 0, j);
    assert e.InBounds() && e != kept;
    var m :| 0 <= m < |removals| && removals[m] == e;
    assert ValuesAt(SwapDigits(g, a, b), removals)[m] == b;
  }

  /** Blanking all but at most one cell of a solved board leaves a puzzle with a second
      solution: exchange two digits that the remaining clue does not hold. */
  lemma FewCluesNotUnique(g: Board, removals: seq<Coordinate>)
    requires Complete(g) && AllInBounds(removals) && Distinct(removals) && |removals| >= 80
    ensures exists vs :: IsSolution(Zeroed(g, removals), removals, vs) && vs != ValuesAt(g, removals)
  {
    var kept := Coordinate(0, 0);
    if exists d: Coordinate :: d.InBounds() && d !in removals {
      kept :| kept.InBounds() && kept !in removals;
    }
    AllButKept(removals, kept);
    var a := if At(g, kept) == 1 then 2 else 1;
    var b := if At(g, kept) == 3 then 2 else 3;
    var h := SwapDigits(g, a, b);
    SwapDigitsComplete(g, a, b);
    SwappedPuzzle(g, removals, kept, a, b);
    PuzzleKeepsOriginalSolution(h, removals);
    SwappedValuesDiffer(g, removals, kept, a, b);
    assert IsSolution(Zeroed(g, removals), removals, ValuesAt(h, removals));
  }

  /** A solved board never admits 80 justified removals: the last clue cannot be unique. */
  lemma JustifiedFewerThanEighty(g: Board, removals: seq<Coordinate>)
    requires Complete(g) && AllInBounds(removals) && Distinct(removals)
    requires forall k :: 0 <= k < |removals| ==> Justified(g, removals, k)
    ensures |removals| < 80
  {
    if |removals| >= 80 {
      FewCluesNotUnique(g, removals);
      var vs :| IsSolution(Zeroed(g, removals), removals, vs) && vs != ValuesAt(g, removals);
      JustifiedRemovalsUnique(g, removals, vs);
    }
  }

  /** `prune(matrix, difficulty)`: visit the cells in the order of `randomCellSequence(picks)`
      and blank each non-empty one unless an alternative digit would then fit, until
      `difficultyToSize(difficulty)` cells are blank or every cell was visited. Returns the
      removed cells in removal order, which the source keeps in its local `emptyCells`, and
      their count. */
  method Prune(matrix: Matrix, difficulty: Difficulty, picks: seq<int>)
    returns (emptyCells: seq<Coordinate>, removed: int)
    requires matrix.Valid() && ValidPicks(picks)
    modifies matrix.board
    ensures matrix.Valid()
    ensures removed == |emptyCells| <= DifficultyToSize(difficulty)
    ensures AllInBounds(emptyCells) && Distinct(emptyCells)
    // Removed cells are blank; every other cell keeps its original value.
    ensures matrix.Cells() == Zeroed(old(matrix.Cells()), emptyCells)
    ensures forall k :: 0 <= k < |emptyCells| ==> At(old(matrix.Cells()), emptyCells[k]) != 0
    ensures forall k :: 0 <= k < |emptyCells| ==> Justified(old(matrix.Cells()), emptyCells, k)
    // From a solved board, the puzzle has exactly one solution: the digits that were removed.
    ensures Complete(old(matrix.Cells())) ==>
      forall vs :: IsSolution(matrix.Cells(), emptyCells, vs) <==> vs == ValuesAt(old(matrix.Cells()), emptyCells)
    // Short of the target, every cell was visited: each one left holding a digit was empty
    // from the start or was turned down by the uniqueness test.
    ensures removed < DifficultyToSize(difficulty) ==>
      forall c: Coordinate :: c.InBounds() ==> Settled(old(matrix.Cells()), emptyCells, c)
    // From a solved board, at least two clues always stay.
    ensures Complete(old(matrix.Cells())) ==> removed < 80
  {
    ghost var g := matrix.Cells();
    var cells := RandomCellSequence(picks);
    var end := DifficultyToSize(difficulty);
    removed := 0;
    emptyCells := [];
    var i := 0;
    assert Zeroed(g, []) == g by {
      Extensionality(Zeroed(g, []), g);
    }
    while i < 81 && removed < end
      invariant 0 <= i <= 81
      invariant matrix.Valid()
      invariant removed == |emptyCells| <= end
      invariant AllInBounds(emptyCells) && Distinct(emptyCells)
      invariant forall k :: i <= k < 81 ==> PruneCell(cells[k]) !in emptyCells
      invariant matrix.Cells() == Zeroed(g, emptyCells)
      invariant forall k :: 0 <= k < |emptyCells| ==> At(g, emptyCells[k]) != 0
      invariant forall k :: 0 <= k < |emptyCells| ==> Justified(g, emptyCells, k)
      invariant forall k :: 0 <= k < i ==> Settled(g, emptyCells, PruneCell(cells[k]))
    {
      var cell := PruneCell(cells[i]);
      var value := matrix.GetValue(cell);
      if value == 0 {
        assert Settled(g, emptyCells, cell);
        i := i + 1;
        continue;
      }
      assert cell !in emptyCells;
      assert value == At(g, cell);
      ZeroedStep(g, emptyCells, cell);
      matrix.SetValue(cell, 0);
      ZeroedEmpty(g, emptyCells + [cell]);
      PutKeepsEmpty(Zeroed(g, emptyCells), cell, 0, emptyCells) by {
        ZeroedEmpty(g, emptyCells);
      }
      var multiple := MultipleSolutions(matrix, cell, value, emptyCells);
      PutOver(matrix.Cells(), Zeroed(g, emptyCells + [cell]), cell, if multiple then value else 0);
      LaterCellsUnvisited(cells, i, emptyCells);
      if multiple {
        matrix.SetValue(cell, value);
        RejectedNow(g, emptyCells, cell);
      } else {
        matrix.SetValue(cell, 0);
        AppendRemoval(g, emptyCells, cell);
        SettledAppend(g, cells, i, emptyCells, cell);
        assert cell in emptyCells + [cell];
        emptyCells := emptyCells + [cell];
        removed := removed + 1;
      }
      i := i + 1;
    }
    if removed < end {
      AllSettled(g, cells, emptyCells);
    }
    if Complete(g) {
      UniqueSolution(g, emptyCells);
      JustifiedFewerThanEighty(g, emptyCells);
    }
  }

  // ---------------------------------------------------------------------------------------
  // prune as written, once the permutation is used up
  // ---------------------------------------------------------------------------------------

  /** The source loop of `prune` has no bound on `i`. From `i == 81` on, `cells[i]` is
      `undefined` and the cell is `(NaN, NaN)`, whose storage index `NaN` names no board cell:
      every read and write of it goes to one extra slot of the array, which starts out
      undefined. The state that still matters is the count and whether that slot holds 0. */
  datatype PastEnd = PastEnd(removed: int, slotZero: bool)

  /** One round of the source loop past the permutation. A slot holding 0 is skipped as an
      empty cell. Otherwise `setValue(cell, 0)` writes the slot, and `multipleSolutions`
      answers false: with no removals at once, and otherwise because every trial digit fails
      `isValid`, the row cursor `(NaN, 0)` never `equals` the cell and reads the same slot. So
      a removal is counted. */
  function PhantomRound(t: PastEnd): (u: PastEnd)
  {
    if t.slotZero then t else PastEnd(t.removed + 1, true)
  }

  /** Up to `rounds` further rounds of `for (...; removed < end; i++)`. */
  function PhantomRun(t: PastEnd, end: int, rounds: nat): (u: PastEnd)
    ensures u.removed <= t.removed + (if t.slotZero then 0 else 1)
    ensures t.slotZero ==> u == t
    decreases rounds
  {
    if rounds == 0 || t.removed >= end then t else PhantomRun(PhantomRound(t), end, rounds - 1)
  }

  /** A source run that leaves the permutation more than one removal short of `end` never
      leaves the loop: after any number of further rounds the count is still below `end`. */
  lemma PhantomNeverEnds(removed: int, end: int, rounds: nat)
    requires removed + 1 < end
    ensures PhantomRun(PastEnd(removed, false), end, rounds).removed < end
  {
  }

  /** On `Hard` the target is 81, and a solved board keeps at least two clues (`Prune`'s
      last postcondition), so the source's `prune` never returns. */
  lemma HardNeverEnds(removed: int, rounds: nat)
    requires removed < 80
    ensures PhantomRun(PastEnd(removed, false), DifficultyToSize(Hard), rounds).removed < DifficultyToSize(Hard)
  {
    PhantomNeverEnds(removed, DifficultyToSize(Hard), rounds);
  }

  // ---------------------------------------------------------------------------------------
  // canSolve
  // ---------------------------------------------------------------------------------------

  /** The empty cells among the first n storage positions, in row-major order. */
  function ZerosBelow(g: Board, n: int): (cells: seq<Coordinate>)
    requires 0 <= n <= 81
    ensures AllInBounds(cells)
    decreases n
  {
    if n == 0 then [] else ZerosBelow(g, n - 1) + if g[n - 1] == 0 then [CellAt(n - 1)] else []
  }

  /** `ZerosBelow` lists exactly the empty cells below position n, in increasing order. */
  lemma ZerosBelowSpec(g: Board, n: int)
    requires 0 <= n <= 81
    ensures forall k :: 0 <= k < |ZerosBelow(g, n)| ==> Offset(ZerosBelow(g, n)[k]) < n && At(g, ZerosBelow(g, n)[k]) == 0
    ensures forall p, q :: 0 <= p < q < |ZerosBelow(g, n)| ==> Offset(ZerosBelow(g, n)[p]) < Offset(ZerosBelow(g, n)[q])
    ensures forall d: Coordinate :: d.InBounds() && Offset(d) < n && At(g, d) == 0 ==> d in ZerosBelow(g, n)
  {
    ZerosBelowOrdered(g, n);
    ZerosBelowCovers(g, n);
    forall d: Coordinate | d.InBounds() && Offset(d) < n && At(g, d) == 0
      ensures d in ZerosBelow(g, n)
    {
      CellAtOffset(d);
    }
  }

  /** Every listed cell is an empty cell below n, and the list increases in storage order. */
  lemma {:induction false} ZerosBelowOrdered(g: Board, n: int)
    requires 0 <= n <= 81
    ensures forall k :: 0 <= k < |ZerosBelow(g, n)| ==> Offset(ZerosBelow(g, n)[k]) < n && At(g, ZerosBelow(g, n)[k]) == 0
    ensures forall p, q :: 0 <= p < q < |ZerosBelow(g, n)| ==> Offset(ZerosBelow(g, n)[p]) < Offset(ZerosBelow(g, n)[q])
    decreases n
  {
    if n > 0 {
      ZerosBelowOrdered(g, n - 1);
      var earlier := ZerosBelow(g, n - 1);
      var cells := ZerosBelow(g, n);
      if g[n - 1] == 0 {
        var last := CellAt(n - 1);
        assert cells == earlier + [last];
        forall k | 0 <= k < |cells|
          ensures Offset(cells[k]) < n && At(g, cells[k]) == 0
        {
          if k < |earlier| {
            assert cells[k] == earlier[k];
          } else {
            assert cells[k] == last;
          }
        }
        forall p, q | 0 <= p < q < |cells|
          ensures Offset(cells[p]) < Offset(cells[q])
        {
          assert cells[p] == earlier[p];
          if q < |earlier| {
            assert cells[q] == earlier[q];
          } else {
            assert cells[q] == last;
          }
        }
      } else {
        assert cells == earlier;
      }
    }
  }

  /** Every empty storage position below n has its cell listed. */
  lemma {:induction false} ZerosBelowCovers(g: Board, n: int)
    requires 0 <= n <= 81
    ensures forall k :: 0 <= k < n && g[k] == 0 ==> CellAt(k) in ZerosBelow(g, n)
    decreases n
  {
    if n > 0 {
      ZerosBelowCovers(g, n - 1);
      forall k | 0 <= k < n && g[k] == 0
        ensures CellAt(k) in ZerosBelow(g, n)
      {
        if k == n - 1 {
          assert ZerosBelow(g, n) == ZerosBelow(g, n - 1) + [CellAt(k)];
        } else {
          assert CellAt(k) in ZerosBelow(g, n - 1);
        }
      }
    }
  }

  /** A cell is the cell stored at its own position. */
  lemma CellAtOffset(d: Coordinate)
    requires d.InBounds()
    ensures CellAt(Offset(d)) == d
  {
  }

  /** The row-major list of empty cells lists each empty cell exactly once. */
  lemma EmptyCellList(g: Board)
    ensures AllInBounds(ZerosBelow(g, 81)) && Distinct(ZerosBelow(g, 81)) && AllEmpty(g, ZerosBelow(g, 81))
    ensures forall d: Coordinate :: d.InBounds() ==> (d in ZerosBelow(g, 81) <==> At(g, d) == 0)
  {
    var cells := ZerosBelow(g, 81);
    ZerosBelowSpec(g, 81);
    forall p, q | 0 <= p < q < |cells|
      ensures cells[p] != cells[q]
    {
      assert Offset(cells[p]) < Offset(cells[q]);
    }
    forall d: Coordinate | d.InBounds() && d in cells
      ensures At(g, d) == 0
    {
      var k :| 0 <= k < |cells| && cells[k] == d;
    }
  }

  /** `canSolve`: collect the empty cells row by row and run `solvable` on them; the source
      only logs the answer, the model returns it. */
  method CanSolve(matrix: Matrix) returns (solvable: bool)
    requires matrix.Valid()
    modifies matrix.board
    ensures matrix.Valid() && matrix.Cells() == old(matrix.Cells())
    ensures solvable <==> exists vs :: IsSolution(old(matrix.Cells()), ZerosBelow(old(matrix.Cells()), 81), vs)
  {
    var emptyCells: seq<Coordinate> := [];
    for row := 0 to 9
      invariant emptyCells == ZerosBelow(matrix.Cells(), row * 9)
    {
      for column := 0 to 9
        invariant emptyCells == ZerosBelow(matrix.Cells(), row * 9 + column)
      {
        var emptyCell := Coordinate(row, column);
        assert CellAt(row * 9 + column) == emptyCell;
        if matrix.GetValue(emptyCell) == 0 {
          emptyCells := emptyCells + [emptyCell];
        }
      }
    }
    EmptyCellList(matrix.Cells());
    assert emptyCells[0..] == emptyCells;
    SearchIffSolution(matrix.Cells(), emptyCells);
    solvable := Solvable(matrix, emptyCells, 0);
  }
}
