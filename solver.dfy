/** What the backtracking solver of src/util/BoardHelper.ts (`solvable`, `multipleSolutions`)
    decides, on values. `Search` follows the recursion of `solvable` step by step: the first
    listed cell is tried with each digit, kept only where `isValid` accepts it, and the rest of
    the list is searched on the board with that digit written. `IsSolution` says the same
    thing declaratively: a digit for every listed cell such that, on the filled board, no
    listed cell has a peer holding its digit. `SearchIffSolution` proves the two agree. */
module Solver {
  import opened Coordinates
  import opened Grid
  import opened Sudoku
  import opened Validity

  /** Every listed cell is empty. */
  ghost predicate AllEmpty(g: Board, cells: seq<Coordinate>)
    requires AllInBounds(cells)
  {
    forall k :: 0 <= k < |cells| ==> At(g, cells[k]) == 0
  }

  /** `solvable(cells, 0)` on board g succeeds. */
  ghost predicate Search(g: Board, cells: seq<Coordinate>)
    requires AllInBounds(cells)
    decreases |cells|, 1
  {
    cells == [] || exists v :: 1 <= v <= 9 && Extends(g, cells, v)
  }

  /** Trying digit v at the first listed cell passes `isValid` and the rest can be searched. */
  ghost predicate Extends(g: Board, cells: seq<Coordinate>, v: int)
    requires AllInBounds(cells) && cells != []
    decreases |cells|, 0
  {
    IsValid(Put(g, cells[0], v), cells[0]) && Search(Put(g, cells[0], v), cells[1..])
  }

  /** The board with vs[k] written at cells[k], in list order. */
  function Fill(g: Board, cells: seq<Coordinate>, vs: seq<int>): (h: Board)
    requires AllInBounds(cells) && |vs| == |cells|
    decreases |cells|
  {
    if cells == [] then g else Fill(Put(g, cells[0], vs[0]), cells[1..], vs[1..])
  }

  /** vs gives every listed cell a digit and, on the filled board, no listed cell has a
      peer holding the same digit. */
  ghost predicate IsSolution(g: Board, cells: seq<Coordinate>, vs: seq<int>)
    requires AllInBounds(cells)
  {
    |vs| == |cells| && (forall j :: 0 <= j < |vs| ==> 1 <= vs[j] <= 9)
    && forall j :: 0 <= j < |cells| ==> PeerFree(Fill(g, cells, vs), cells[j])
  }

  /** Filling never touches an unlisted cell. */
  lemma {:induction false} FillOutside(g: Board, cells: seq<Coordinate>, vs: seq<int>, d: Coordinate)
    requires AllInBounds(cells) && |vs| == |cells| && d.InBounds() && d !in cells
    ensures At(Fill(g, cells, vs), d) == At(g, d)
    decreases |cells|
  {
    if cells != [] {
      assert d != cells[0];
      assert d !in cells[1..];
      FillOutside(Put(g, cells[0], vs[0]), cells[1..], vs[1..], d);
    }
  }

  /** A listed cell ends up holding its own value. */
  lemma {:induction false} FillAt(g: Board, cells: seq<Coordinate>, vs: seq<int>, m: int)
    requires AllInBounds(cells) && Distinct(cells) && |vs| == |cells| && 0 <= m < |cells|
    ensures At(Fill(g, cells, vs), cells[m]) == vs[m]
    decreases |cells|
  {
    if m == 0 {
      assert cells[0] !in cells[1..];
      FillOutside(Put(g, cells[0], vs[0]), cells[1..], vs[1..], cells[0]);
    } else {
      assert cells[1..][m - 1] == cells[m];
      FillAt(Put(g, cells[0], vs[0]), cells[1..], vs[1..], m - 1);
    }
  }

  /** A valid first digit followed by a solution of the rest is a solution of the whole list. */
  lemma ExtendedSolution(g: Board, cells: seq<Coordinate>, v: int, rest: seq<int>)
    requires AllInBounds(cells) && Distinct(cells) && cells != [] && 1 <= v <= 9
    requires IsValid(Put(g, cells[0], v), cells[0])
    requires IsSolution(Put(g, cells[0], v), cells[1..], rest)
    ensures IsSolution(g, cells, [v] + rest)
  {
    var vs := [v] + rest;
    var g1 := Put(g, cells[0], v);
    var f := Fill(g, cells, vs);
    assert vs[1..] == rest;
    assert f == Fill(g1, cells[1..], rest);
    assert cells[0] !in cells[1..];
    FillOutside(g1, cells[1..], rest, cells[0]);
    forall d: Coordinate | d.InBounds() && Peers(cells[0], d)
      ensures At(f, d) != At(f, cells[0])
    {
      ExtendedApart(g, cells, v, rest, d);
    }
    assert PeerFree(f, cells[0]);
    forall j | 0 <= j < |cells|
      ensures PeerFree(f, cells[j])
    {
      if j > 0 {
        assert cells[j] == cells[1..][j - 1];
      }
    }
  }

  /** On the filled board the valid first digit differs from every peer of its cell. */
  lemma ExtendedApart(g: Board, cells: seq<Coordinate>, v: int, rest: seq<int>, d: Coordinate)
    requires AllInBounds(cells) && Distinct(cells) && cells != [] && 1 <= v <= 9
    requires IsValid(Put(g, cells[0], v), cells[0])
    requires IsSolution(Put(g, cells[0], v), cells[1..], rest)
    requires d.InBounds() && Peers(cells[0], d)
    ensures At(Fill(g, cells, [v] + rest), d) != At(Fill(g, cells, [v] + rest), cells[0])
  {
    var g1 := Put(g, cells[0], v);
    var f := Fill(g1, cells[1..], rest);
    assert ([v] + rest)[1..] == rest;
    assert Fill(g, cells, [v] + rest) == f;
    assert cells[0] !in cells[1..];
    FillOutside(g1, cells[1..], rest, cells[0]);
    if d in cells[1..] {
      var m :| 0 <= m < |cells[1..]| && cells[1..][m] == d;
      FillAt(g1, cells[1..], rest, m);
      assert PeerFree(f, cells[1..][m]);
      assert Peers(d, cells[0]);
    } else {
      FillOutside(g1, cells[1..], rest, d);
    }
  }

  /** The first digit of a solution passes `isValid` on the board where the rest is still empty. */
  lemma FirstDigitValid(g: Board, cells: seq<Coordinate>, vs: seq<int>)
    requires AllInBounds(cells) && Distinct(cells) && AllEmpty(g, cells) && cells != []
    requires IsSolution(g, cells, vs)
    ensures IsValid(Put(g, cells[0], vs[0]), cells[0])
    ensures IsSolution(Put(g, cells[0], vs[0]), cells[1..], vs[1..])
  {
    var g1 := Put(g, cells[0], vs[0]);
    forall d: Coordinate | d.InBounds() && Peers(cells[0], d)
      ensures At(g1, d) != At(g1, cells[0])
    {
      FirstDigitApart(g, cells, vs, d);
    }
    RestSolution(g, cells, vs);
  }

  /** Once the first digit of a solution is written, the rest of it solves the rest. */
  lemma RestSolution(g: Board, cells: seq<Coordinate>, vs: seq<int>)
    requires AllInBounds(cells) && cells != []
    requires IsSolution(g, cells, vs)
    ensures IsSolution(Put(g, cells[0], vs[0]), cells[1..], vs[1..])
  {
    var f := Fill(g, cells, vs);
    assert f == Fill(Put(g, cells[0], vs[0]), cells[1..], vs[1..]);
    forall j | 0 <= j < |cells[1..]|
      ensures PeerFree(f, cells[1..][j])
    {
      assert cells[1..][j] == cells[j + 1];
    }
  }

  /** The first digit of a solution differs from every peer on the board where the rest is
      still empty. */
  lemma FirstDigitApart(g: Board, cells: seq<Coordinate>, vs: seq<int>, d: Coordinate)
    requires AllInBounds(cells) && Distinct(cells) && AllEmpty(g, cells) && cells != []
    requires IsSolution(g, cells, vs)
    requires d.InBounds() && Peers(cells[0], d)
    ensures At(Put(g, cells[0], vs[0]), d) != At(Put(g, cells[0], vs[0]), cells[0])
  {
    var g1 := Put(g, cells[0], vs[0]);
    var f := Fill(g, cells, vs);
    assert f == Fill(g1, cells[1..], vs[1..]);
    FillAt(g, cells, vs, 0);
    if d in cells[1..] {
      var m :| 0 <= m < |cells[1..]| && cells[1..][m] == d;
      assert At(g, cells[m + 1]) == 0;
    } else {
      FillOutside(g1, cells[1..], vs[1..], d);
      assert PeerFree(f, cells[0]);
    }
  }

  /** Trying digit v first succeeds exactly when some solution starts with v. */
  lemma {:induction false} ExtendsIffSolution(g: Board, cells: seq<Coordinate>, v: int)
    requires AllInBounds(cells) && Distinct(cells) && AllEmpty(g, cells) && cells != [] && 1 <= v <= 9
    ensures Extends(g, cells, v) <==> exists vs :: IsSolution(g, cells, vs) && vs[0] == v
    decreases |cells|, 0
  {
    var g1 := Put(g, cells[0], v);
    assert AllInBounds(cells[1..]) && Distinct(cells[1..]);
    assert AllEmpty(g1, cells[1..]) by {
      forall k | 0 <= k < |cells[1..]|
        ensures At(g1, cells[1..][k]) == 0
      {
        assert cells[1..][k] == cells[k + 1];
      }
    }
    SearchIffSolution(g1, cells[1..]);
    if Extends(g, cells, v) {
      var rest :| IsSolution(g1, cells[1..], rest);
      ExtendedSolution(g, cells, v, rest);
      assert ([v] + rest)[0] == v;
    }
    if exists vs :: IsSolution(g, cells, vs) && vs[0] == v {
      var vs :| IsSolution(g, cells, vs) && vs[0] == v;
      FirstDigitValid(g, cells, vs);
    }
  }

  /** `solvable` succeeds exactly when the listed empty cells can be given digits that leave
      none of them in conflict with a peer. */
  lemma {:induction false} SearchIffSolution(g: Board, cells: seq<Coordinate>)
    requires AllInBounds(cells) && Distinct(cells) && AllEmpty(g, cells)
    ensures Search(g, cells) <==> exists vs :: IsSolution(g, cells, vs)
    decreases |cells|, 1
  {
    if cells == [] {
      assert IsSolution(g, cells, []);
    } else {
      forall v | 1 <= v <= 9
        ensures Extends(g, cells, v) <==> exists vs :: IsSolution(g, cells, vs) && vs[0] == v
      {
        ExtendsIffSolution(g, cells, v);
      }
      if exists vs :: IsSolution(g, cells, vs) {
        var vs :| IsSolution(g, cells, vs);
        assert Extends(g, cells, vs[0]);
      }
    }
  }

  /** What `multipleSolutions(cell, value, cells)` decides: the list of earlier removals is not
      empty and some digit other than `value` at `cell` passes `isValid` and lets `solvable`
      fill the list. */
  ghost predicate HasAlternative(g: Board, cell: Coordinate, value: int, cells: seq<Coordinate>)
    requires cell.InBounds() && AllInBounds(cells)
  {
    cells != [] && exists i :: 1 <= i <= 9 && i != value && Extends(g, [cell] + cells, i)
  }

  /** With `cell` blank as well, an alternative exists exactly when the puzzle has a solution
      that puts a digit other than `value` at `cell`. */
  lemma HasAlternativeIffOtherSolution(g: Board, cell: Coordinate, value: int, cells: seq<Coordinate>)
    requires cell.InBounds() && AllInBounds(cells) && Distinct(cells) && AllEmpty(g, cells)
    requires cell !in cells && At(g, cell) == 0
    ensures HasAlternative(g, cell, value, cells)
        <==> cells != [] && exists vs :: IsSolution(g, [cell] + cells, vs) && vs[0] != value
  {
    var all := [cell] + cells;
    assert all[1..] == cells;
    assert AllInBounds(all) && Distinct(all);
    assert AllEmpty(g, all) by {
      forall k | 0 <= k < |all|
        ensures At(g, all[k]) == 0
      {
        if k > 0 { assert all[k] == cells[k - 1]; }
      }
    }
    forall i | 1 <= i <= 9
      ensures Extends(g, all, i) <==> exists vs :: IsSolution(g, all, vs) && vs[0] == i
    {
      ExtendsIffSolution(g, all, i);
    }
    if cells != [] && exists vs :: IsSolution(g, all, vs) && vs[0] != value {
      var vs :| IsSolution(g, all, vs) && vs[0] != value;
      assert Extends(g, all, vs[0]);
    }
  }

  /** The board with the listed cells blanked. */
  function Zeroed(g: Board, cells: seq<Coordinate>): (h: Board)
    ensures forall d: Coordinate :: d.InBounds() ==> At(h, d) == if d in cells then 0 else At(g, d)
  {
    var h := seq(81, k requires 0 <= k < 81 => if CellAt(k) in cells then 0 else g[k]);
    assert forall d: Coordinate :: d.InBounds() ==> CellAt(Offset(d)) == d;
    h
  }

  /** The digits a board holds at the listed cells. */
  function ValuesAt(g: Board, cells: seq<Coordinate>): (vs: seq<int>)
    requires AllInBounds(cells)
    ensures |vs| == |cells| && forall k :: 0 <= k < |cells| ==> vs[k] == At(g, cells[k])
  {
    seq(|cells|, k requires 0 <= k < |cells| => At(g, cells[k]))
  }

  /** Blanking distinct cells of a solved board leaves a puzzle the original board solves. */
  lemma PuzzleKeepsOriginalSolution(g: Board, cells: seq<Coordinate>)
    requires Complete(g) && AllInBounds(cells) && Distinct(cells)
    ensures AllEmpty(Zeroed(g, cells), cells)
    ensures IsSolution(Zeroed(g, cells), cells, ValuesAt(g, cells))
  {
    var z := Zeroed(g, cells);
    var vs := ValuesAt(g, cells);
    CompleteIffFilledNoConflicts(g);
    forall k | 0 <= k < |cells|
      ensures At(z, cells[k]) == 0
    {
      assert cells[k] in cells;
    }
    assert Fill(z, cells, vs) == g by {
      forall d: Coordinate | d.InBounds()
        ensures At(Fill(z, cells, vs), d) == At(g, d)
      {
        if d in cells {
          var m :| 0 <= m < |cells| && cells[m] == d;
          FillAt(z, cells, vs, m);
        } else {
          FillOutside(z, cells, vs, d);
        }
      }
      Extensionality(Fill(z, cells, vs), g);
    }
  }

  /** The list with its last cell moved to the front. */
  function LastFirst<T>(s: seq<T>): (t: seq<T>)
    requires s != []
    ensures |t| == |s| && t[0] == s[|s| - 1]
    ensures forall k :: 1 <= k < |s| ==> t[k] == s[k - 1]
  {
    [s[|s| - 1]] + s[..|s| - 1]
  }

  /** Moving the last cell to the front keeps the cells, in range and distinct. */
  lemma LastFirstCells(cells: seq<Coordinate>)
    requires AllInBounds(cells) && Distinct(cells) && cells != []
    ensures AllInBounds(LastFirst(cells)) && Distinct(LastFirst(cells))
    ensures forall d :: d in LastFirst(cells) ==> d in cells
  {
    var moved := LastFirst(cells);
    forall d | d in moved
      ensures d in cells
    {
      var k :| 0 <= k < |moved| && moved[k] == d;
      assert d == cells[if k == 0 then |cells| - 1 else k - 1];
    }
  }

  /** One cell of `FillLastFirst`. */
  lemma FillLastFirstAt(g: Board, cells: seq<Coordinate>, vs: seq<int>, d: Coordinate)
    requires AllInBounds(cells) && Distinct(cells) && |vs| == |cells| && cells != [] && d.InBounds()
    requires AllInBounds(LastFirst(cells)) && Distinct(LastFirst(cells))
    requires forall e :: e in LastFirst(cells) ==> e in cells
    ensures At(Fill(g, LastFirst(cells), LastFirst(vs)), d) == At(Fill(g, cells, vs), d)
  {
    var n := |cells|;
    if d in cells {
      var m :| 0 <= m < n && cells[m] == d;
      FillAt(g, cells, vs, m);
      FillAt(g, LastFirst(cells), LastFirst(vs), if m == n - 1 then 0 else m + 1);
    } else {
      FillOutside(g, cells, vs, d);
      FillOutside(g, LastFirst(cells), LastFirst(vs), d);
    }
  }

  /** Filling distinct cells does not depend on their order: moving the last cell to the
      front fills the same board. */
  lemma FillLastFirst(g: Board, cells: seq<Coordinate>, vs: seq<int>)
    requires AllInBounds(cells) && Distinct(cells) && |vs| == |cells| && cells != []
    ensures AllInBounds(LastFirst(cells)) && Distinct(LastFirst(cells))
    ensures Fill(g, LastFirst(cells), LastFirst(vs)) == Fill(g, cells, vs)
  {
    LastFirstCells(cells);
    forall d: Coordinate | d.InBounds()
      ensures At(Fill(g, LastFirst(cells), LastFirst(vs)), d) == At(Fill(g, cells, vs), d)
    {
      FillLastFirstAt(g, cells, vs, d);
    }
    Extensionality(Fill(g, LastFirst(cells), LastFirst(vs)), Fill(g, cells, vs));
  }

  /** One cell of `FillLast`. */
  lemma FillLastAt(h: Board, cells: seq<Coordinate>, vs: seq<int>, d: Coordinate)
    requires AllInBounds(cells) && Distinct(cells) && |vs| == |cells| && cells != [] && d.InBounds()
    ensures At(Fill(h, cells, vs), d)
         == At(Fill(Put(h, cells[|cells| - 1], vs[|vs| - 1]), cells[..|cells| - 1], vs[..|vs| - 1]), d)
  {
    var n := |cells|;
    var front := cells[..n - 1];
    var h1 := Put(h, cells[n - 1], vs[n - 1]);
    FrontCells(cells);
    if d in front {
      var m :| 0 <= m < n - 1 && front[m] == d;
      FillAt(h, cells, vs, m);
      FillAt(h1, front, vs[..n - 1], m);
      assert vs[..n - 1][m] == vs[m];
    } else if d == cells[n - 1] {
      FillAt(h, cells, vs, n - 1);
      FillOutside(h1, front, vs[..n - 1], d);
    } else {
      assert d !in cells;
      FillOutside(h, cells, vs, d);
      FillOutside(h1, front, vs[..n - 1], d);
    }
  }

  /** All cells but the last: in range, distinct, and without the last one. */
  lemma FrontCells(cells: seq<Coordinate>)
    requires AllInBounds(cells) && Distinct(cells) && cells != []
    ensures AllInBounds(cells[..|cells| - 1]) && Distinct(cells[..|cells| - 1])
    ensures cells[|cells| - 1] !in cells[..|cells| - 1]
    ensures forall k :: 0 <= k < |cells| - 1 ==> cells[..|cells| - 1][k] == cells[k]
  {
  }

  /** Filling distinct cells is writing the last one first and filling the others after. */
  lemma FillLast(h: Board, cells: seq<Coordinate>, vs: seq<int>)
    requires AllInBounds(cells) && Distinct(cells) && |vs| == |cells| && cells != []
    ensures Fill(h, cells, vs) == Fill(Put(h, cells[|cells| - 1], vs[|vs| - 1]), cells[..|cells| - 1], vs[..|vs| - 1])
  {
    var n := |cells|;
    var right := Fill(Put(h, cells[n - 1], vs[n - 1]), cells[..n - 1], vs[..n - 1]);
    forall d: Coordinate | d.InBounds()
      ensures At(Fill(h, cells, vs), d) == At(right, d)
    {
      FillLastAt(h, cells, vs, d);
    }
    Extensionality(Fill(h, cells, vs), right);
  }

  /** A solution of a list of distinct cells is also one of the list with its last cell first. */
  lemma LastFirstSolution(g: Board, cells: seq<Coordinate>, vs: seq<int>)
    requires AllInBounds(cells) && Distinct(cells) && cells != [] && IsSolution(g, cells, vs)
    ensures AllInBounds(LastFirst(cells)) && IsSolution(g, LastFirst(cells), LastFirst(vs))
  {
    var n := |cells|;
    FillLastFirst(g, cells, vs);
    forall j | 0 <= j < n
      ensures PeerFree(Fill(g, LastFirst(cells), LastFirst(vs)), LastFirst(cells)[j]) && 1 <= LastFirst(vs)[j] <= 9
    {
      var m := if j == 0 then n - 1 else j - 1;
      assert LastFirst(cells)[j] == cells[m] && LastFirst(vs)[j] == vs[m];
    }
  }
}
