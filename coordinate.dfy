/** The (row, column) address of one cell of the 9x9 grid (src/model/Coordinate.ts).
    The source's class only assigns its two fields in the constructor and compares them in
    `equals`; the loops that increment its fields as cursors are modelled as recursion over
    an index, so a datatype is enough. */
module Coordinates {

  datatype Coordinate = Coordinate(row: int, column: int)
  {
    /** `equals`: agrees with structural equality of the two records. */
    predicate Equals(other: Coordinate)
      ensures Equals(other) <==> this == other
    {
      row == other.row && column == other.column
    }

    /** The coordinate addresses one of the 81 cells. */
    predicate InBounds()
    {
      0 <= row < 9 && 0 <= column < 9
    }
  }

  /** Every coordinate of a sequence addresses a cell. */
  predicate AllInBounds(cells: seq<Coordinate>)
  {
    forall k :: 0 <= k < |cells| ==> cells[k].InBounds()
  }

  /** No coordinate occurs twice in the sequence. */
  predicate Distinct(cells: seq<Coordinate>)
  {
    forall i, j :: 0 <= i < j < |cells| ==> cells[i] != cells[j]
  }

  lemma EqualsReflexive(a: Coordinate)
    ensures a.Equals(a)
  {
  }

  lemma EqualsSymmetric(a: Coordinate, b: Coordinate)
    ensures a.Equals(b) <==> b.Equals(a)
  {
  }

  lemma EqualsTransitive(a: Coordinate, b: Coordinate, c: Coordinate)
    requires a.Equals(b) && b.Equals(c)
    ensures a.Equals(c)
  {
  }
}
