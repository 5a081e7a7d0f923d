# Sudoku puzzle generator, modelled in Dafny

This project models the puzzle-generation engine of a TypeScript Sudoku game:

- the `Matrix` board class, `src/model/Matrix.ts`;
- the `Coordinate` cell address, `src/model/Coordinate.ts`;
- the generator functions of `src/util/BoardHelper.ts`.

The generator works in three steps:

1. It fills a blank 9x9 board with a fixed solved grid (`initialize`).
2. It scrambles the grid with 100 random structural transforms that keep a solved grid solved (`shuffle`).
3. It visits the cells in a random order and blanks each one, unless a backtracking search shows that some other digit would then fit (`prune`).

Modules follow the program's structure:

- `Coordinates` (coordinate.dfy): the `Coordinate` datatype and `equals`.
- `Grid` (grid.dfy): the 81-cell board as a value (`seq<int>`, row-major as the class stores it). It has accessors, writers and every transform as a function, written the way the source builds it. Every transform also has a per-cell formula and an identity law.
- `Sudoku` (sudoku.dfy): peers, conflicts and what a complete (solved) board is. It proves that the fixed initial grid is complete and that every transform keeps a complete board complete.
- `Validity` (validity.dfy): `checkRow`, `checkColumn`, `checkCluster` and `isValid`. The cursor loops become recursive scans, each with its exact meaning.
- `Solver` (solver.dfy): what the backtracking decides. `Search` follows `solvable` step by step. `IsSolution` states declaratively what a solution is. The module proves the two agree.
- `Matrices` (matrix.dfy): class `Matrix`, whose board is an `array<int>`, as in the source:
  - the setters and `reverse` write in place;
  - the transforms reassign the array, as the source reassigns `this.board`;
  - every method states its new contents as a `Grid` function of the old contents.
- `BoardHelper` (board_helper.dfy): `shuffle`, `randomCellSequence`, `difficultyToSize`, `solvable`, `multipleSolutions`, `prune` and `canSolve` as methods on a `Matrix`. It also proves the generator's main promise. If `prune` starts from a solved board, the puzzle it leaves has exactly one solution, and that solution is the board it started from (`UniqueSolution`, and a postcondition of `Prune`). When `prune` stops short of its target, every cell still holding a digit was turned down by the uniqueness test. A solved board always keeps at least two clues, so the `Hard` target of 81 removals is never reached (`JustifiedFewerThanEighty`).

Randomness becomes parameters:

- `Shuffle` takes its 100 draws as a sequence of `Move`s.
- `RandomCellSequence` and `Prune` take the 80 swap positions of the Fisher-Yates shuffle as `picks`.

Three points where the code is easy to misread:

- `difficultyToSize` (41, 61 or 81) is the number of cells `prune` tries to remove, because its loop runs while `removed < end`. It is not the number of clues kept.
- `canSolve` only logs whether the board can be solved. The model returns that boolean.
- `prune` keeps its list of removed cells and its count in local variables. The model returns both.

The source names the horizontal mirror `mirrowRows`. In the model it is `MirrorRows`.
- `mirrowRows` reverses the storage and then reverses the row order, so it flips each row left to right.
- `mirrorColumns` reverses the row order, so it flips the board top to bottom.

## Model

| member | source | states |
|---|---|---|
| Coordinates.Coordinate.Equals | src/model/Coordinate.ts:10-12 | `equals` holds exactly when both coordinates have the same row and the same column |
| Coordinates.EqualsReflexive | src/model/Coordinate.ts:10-12 | every coordinate equals itself |
| Coordinates.EqualsSymmetric | src/model/Coordinate.ts:10-12 | `a.equals(b)` implies `b.equals(a)` |
| Coordinates.EqualsTransitive | src/model/Coordinate.ts:10-12 | `equals` is transitive |
| Grid.Offset | src/model/Matrix.ts:58-64 | the storage position `row * 9 + column` of an in-bounds cell lies in 0..80, and its quotient and remainder by 9 are the row and the column, so distinct cells never share a slot |
| Grid.CellAt | src/model/Matrix.ts:58-64 | every storage position 0..80 is the position of exactly one cell: the inverse of `Offset` |
| Grid.Put | src/model/Matrix.ts:62-64 | after `setValue` the cell holds the new value and every other cell is unchanged |
| Grid.WithRow | src/model/Matrix.ts:38-40 | `setRow` on a board value; `WithRowAt` states what it leaves in each cell |
| Grid.WithRowAt | src/model/Matrix.ts:38-40 | after `setRow(index, row)`, the first \|row\| cells of row `index` hold the given values and every other cell is unchanged |
| Grid.WithColumn | src/model/Matrix.ts:46-48 | `setColumn` on a board value; `WithColumnAt` states what it leaves in each cell |
| Grid.WithColumnAt | src/model/Matrix.ts:46-48 | after `setColumn(index, column)`, the first \|column\| cells of column `index` hold the given values and every other cell is unchanged |
| Grid.WithCluster | src/model/Matrix.ts:54-56 | `setCluster` on a board value; `WithClusterAt` states what it leaves in each cell |
| Grid.WithClusterAt | src/model/Matrix.ts:54-56 | after `setCluster(index, cluster)`, the first \|cluster\| cells of box `index`, in the slot order of the index formula, hold the given values and every other cell is unchanged |
| Grid.WithClusterRoundTrip | src/model/Matrix.ts:50-56 | `getCluster` of a box just written with nine values by `setCluster` gives those values back |
| Grid.ClusterOffset | src/model/Matrix.ts:50-56 | the cluster index formula addresses element i of cluster `index` at row 3*(index/3)+i/3 and column 3*(index%3)+i%3 |
| Grid.ClusterCellInverse | src/model/Matrix.ts:50-56 | the cell addressed by (cluster, element) lies in that cluster at that element |
| Grid.CellClusterInverse | src/model/Matrix.ts:50-56 | every cell is addressed by its own cluster and element, so the nine clusters partition the board |
| Grid.FromRows | src/model/Matrix.ts:71 | flattening nine rows of nine gives the board whose cell (r, c) is element c of row r |
| Grid.FlattenAt | src/model/Matrix.ts:71 | element 9*i+j of the flattened rows is element j of row i |
| Grid.Reversed | src/model/Matrix.ts:66-68 | `reverse` on the storage; `ReversedAt` gives its meaning cell by cell |
| Grid.ReversedAt | src/model/Matrix.ts:66-68 | after `reverse`, cell (r, c) holds what cell (8-r, 8-c) held: a half turn |
| Grid.Rotated | src/model/Matrix.ts:70-72 | `rotate` as the source builds it, from the columns taken 8 down to 0; `RotatedAt` and `RotatedFourTimes` give its meaning |
| Grid.MirroredRows | src/model/Matrix.ts:74-77 | `mirrowRows` as the source builds it, reverse then rows bottom-up; `MirroredRowsAt` and `MirroredRowsTwice` give its meaning |
| Grid.MirroredColumns | src/model/Matrix.ts:79-81 | `mirrorColumns` as the source builds it, rows bottom-up; `MirroredColumnsAt` and `MirroredColumnsTwice` give its meaning |
| Grid.RowsSwapped | src/model/Matrix.ts:109-113 | `swapRowsByIndex` through `getRow`/`setRow` and a saved row; `RowsSwappedAt` and `RowsSwappedTwice` give its meaning |
| Grid.ColumnsSwapped | src/model/Matrix.ts:115-119 | `swapColumnsByIndex` through `getColumn`/`setColumn`; `ColumnsSwappedAt` and `ColumnsSwappedTwice` give its meaning |
| Grid.BandRowsSwapped | src/model/Matrix.ts:83-85 | `swapRows(cluster, pivot)` with the source's index arithmetic; `BandRowsSwappedAt` gives its meaning |
| Grid.StackColumnsSwapped | src/model/Matrix.ts:87-89 | `swapColumns(cluster, pivot)`; `StackColumnsSwappedAt` gives its meaning |
| Grid.BandsSwapped | src/model/Matrix.ts:91-98 | `swapRowClusters(pivot)` as three row swaps in source order; `BandsSwappedAt` gives its meaning |
| Grid.StacksSwapped | src/model/Matrix.ts:100-107 | `swapColumnClusters(pivot)` as three column swaps; `StacksSwappedAt` gives its meaning |
| Grid.RotatedAt | src/model/Matrix.ts:70-72 | after `rotate`, cell (r, c) holds what cell (c, 8-r) held: a quarter turn |
| Grid.MirroredRowsAt | src/model/Matrix.ts:66-77 | after `mirrowRows`, cell (r, c) holds what cell (r, 8-c) held |
| Grid.MirroredColumnsAt | src/model/Matrix.ts:79-81 | after `mirrorColumns`, cell (r, c) holds what cell (8-r, c) held |
| Grid.RowsSwappedAt | src/model/Matrix.ts:109-113 | after `swapRowsByIndex(i1, i2)`, rows i1 and i2 are exchanged and every other row is kept |
| Grid.ColumnsSwappedAt | src/model/Matrix.ts:115-119 | after `swapColumnsByIndex(i1, i2)`, columns i1 and i2 are exchanged and every other column is kept |
| Grid.BandRowsSwappedAt | src/model/Matrix.ts:83-85 | `swapRows(cluster, pivot)` exchanges two distinct rows, both inside band `cluster`, and keeps every other row |
| Grid.StackColumnsSwappedAt | src/model/Matrix.ts:87-89 | `swapColumns(cluster, pivot)` exchanges two distinct columns, both inside stack `cluster`, and keeps every other column |
| Grid.BandStarts | src/model/Matrix.ts:91-93 | the two first rows computed from `pivot` are distinct starts of bands (0, 3 or 6) |
| Grid.ExchangeThree | src/model/Matrix.ts:91-98 | the three row exchanges together exchange two whole bands and keep each line's place inside its band; doing it twice is the identity |
| Grid.BandsSwappedAt | src/model/Matrix.ts:91-98 | after `swapRowClusters(pivot)`, every cell holds the value from the same place in the other exchanged band |
| Grid.StacksSwappedAt | src/model/Matrix.ts:100-107 | after `swapColumnClusters(pivot)`, every cell holds the value from the same place in the other exchanged stack |
| Grid.RotatedFourTimes | src/model/Matrix.ts:70-72 | four rotations give back the board |
| Grid.MirroredRowsTwice | src/model/Matrix.ts:74-77 | `mirrowRows` is its own inverse |
| Grid.MirroredColumnsTwice | src/model/Matrix.ts:79-81 | `mirrorColumns` is its own inverse |
| Grid.RowsSwappedTwice | src/model/Matrix.ts:109-113 | swapping the same two rows twice gives back the board |
| Grid.ColumnsSwappedTwice | src/model/Matrix.ts:115-119 | swapping the same two columns twice gives back the board |
| Grid.BandRowsSwappedTwice | src/model/Matrix.ts:83-85 | `swapRows` with the same arguments twice gives back the board |
| Grid.StackColumnsSwappedTwice | src/model/Matrix.ts:87-89 | `swapColumns` with the same arguments twice gives back the board |
| Grid.BandsSwappedTwice | src/model/Matrix.ts:91-98 | `swapRowClusters` with the same pivot twice gives back the board |
| Grid.StacksSwappedTwice | src/model/Matrix.ts:100-107 | `swapColumnClusters` with the same pivot twice gives back the board |
| Sudoku.CompleteIffFilledNoConflicts | src/util/BoardHelper.ts:5-7 | a board has every row, column and cluster a permutation of 1..9 exactly when every cell holds a digit and no cell has a peer with the same digit |
| Sudoku.RelabelKeepsValidity | src/model/Matrix.ts:70-119 | a board that takes every cell's value from another cell, through a map that sends peers to peers, stays filled, conflict-free and solved whenever the original was |
| Sudoku.RotatedKeepsValidity | src/model/Matrix.ts:70-72 | `rotate` keeps a solved board solved |
| Sudoku.MirroredRowsKeepsValidity | src/model/Matrix.ts:74-77 | `mirrowRows` keeps a solved board solved |
| Sudoku.MirroredColumnsKeepsValidity | src/model/Matrix.ts:79-81 | `mirrorColumns` keeps a solved board solved |
| Sudoku.BandRowsSwappedKeepsValidity | src/model/Matrix.ts:83-85 | `swapRows` keeps a solved board solved |
| Sudoku.StackColumnsSwappedKeepsValidity | src/model/Matrix.ts:87-89 | `swapColumns` keeps a solved board solved |
| Sudoku.BandsSwappedKeepsValidity | src/model/Matrix.ts:91-98 | `swapRowClusters` keeps a solved board solved |
| Sudoku.StacksSwappedKeepsValidity | src/model/Matrix.ts:100-107 | `swapColumnClusters` keeps a solved board solved |
| Sudoku.QuarterTurnIsPeerMap | src/model/Matrix.ts:70-72 | the quarter turn of `rotate` sends in-bounds cells to in-bounds cells and peers to peers |
| Sudoku.RotatedRelabels | src/model/Matrix.ts:70-72 | `rotate` takes every cell's value from the cell the quarter turn sends it to |
| Sudoku.RowFlipIsPeerMap | src/model/Matrix.ts:74-77 | the left-right flip of `mirrowRows` sends peers to peers |
| Sudoku.ColumnFlipIsPeerMap | src/model/Matrix.ts:79-81 | the top-bottom flip of `mirrorColumns` sends peers to peers |
| Sudoku.RowMoveIsPeerMap | src/model/Matrix.ts:83-98 | moving whole rows by a permutation of rows that keeps bands together sends peers to peers |
| Sudoku.ColumnMoveIsPeerMap | src/model/Matrix.ts:87-107 | moving whole columns by a permutation of columns that keeps stacks together sends peers to peers |
| Sudoku.SolvedIsComplete | src/model/Matrix.ts:20-32 | the grid `initialize` writes is a solved Sudoku |
| Sudoku.LoneBlank | src/util/BoardHelper.ts:140-145 | on a solved board with one cell blanked, the only digit that cell accepts is the one removed |
| Validity.RowScan | src/util/BoardHelper.ts:215-222 | the row cursor loop from a column onward succeeds exactly when no other cell of the row in that range holds the cell's value |
| Validity.ColumnScan | src/util/BoardHelper.ts:230-237 | the column cursor loop from a row onward succeeds exactly when no other cell of the column in that range holds the cell's value |
| Validity.BoxCursor | src/util/BoardHelper.ts:245-248 | step k of the two nested cursor loops of `checkCluster` is an in-bounds cell of the cell's own 3x3 box |
| Validity.BoxCursorCovers | src/util/BoardHelper.ts:245-248 | the two nested cursor loops of `checkCluster` visit every cell of the cell's 3x3 box |
| Validity.ClusterScan | src/util/BoardHelper.ts:245-256 | the box cursor from a step onward succeeds exactly when no other visited cell holds the cell's value |
| Validity.CheckRow | src/util/BoardHelper.ts:211-224 | `checkRow` holds exactly when the cell is empty or no other cell of its row holds its value |
| Validity.CheckColumn | src/util/BoardHelper.ts:226-239 | `checkColumn` holds exactly when the cell is empty or no other cell of its column holds its value |
| Validity.CheckCluster | src/util/BoardHelper.ts:241-258 | `checkCluster` holds exactly when the cell is empty or no other cell of its box holds its value |
| Validity.IsValid | src/util/BoardHelper.ts:5-7 | `isValid` holds exactly when the cell is empty or no peer (row, column or box) holds its value |
| Validity.CompleteIsValid | src/util/BoardHelper.ts:5-7 | on a solved board every cell is non-empty and passes `isValid` |
| Solver.Search | src/util/BoardHelper.ts:168-191 | `solvable(matrix, cells, 0)` step by step: each digit 1..9 in turn at the first cell, kept where `isValid` accepts it; `SearchIffSolution` gives its meaning |
| Solver.ExtendsIffSolution | src/util/BoardHelper.ts:176-187 | trying digit v at the first listed blank cell succeeds exactly when some solution of the listed cells starts with v |
| Solver.SearchIffSolution | src/util/BoardHelper.ts:168-191 | on distinct blank cells, the backtracking succeeds exactly when digits exist for all listed cells with none of them in conflict with a peer |
| Solver.HasAlternative | src/util/BoardHelper.ts:140-166 | what `multipleSolutions` answers: false on an empty list, otherwise whether a digit other than the removed one passes `isValid` and lets `solvable` succeed; `HasAlternativeIffOtherSolution` gives its meaning |
| Solver.HasAlternativeIffOtherSolution | src/util/BoardHelper.ts:140-166 | with the removed cell blank, the alternative `multipleSolutions` looks for exists exactly when the earlier removals are not empty and some solution puts a different digit in the removed cell |
| Solver.Zeroed | src/util/BoardHelper.ts:63-75 | the board with the removed cells blanked: listed cells hold 0 and every other cell keeps its value |
| Solver.PuzzleKeepsOriginalSolution | src/util/BoardHelper.ts:37-80 | blanking distinct cells of a solved board leaves them empty, and the removed digits solve the puzzle |
| Matrices.Matrix.constructor | src/model/Matrix.ts:6-18 | a new matrix holds 81 zeros |
| Matrices.Matrix.Initialize | src/model/Matrix.ts:20-32 | `initialize` stores the fixed grid, which is a solved Sudoku |
| Matrices.Matrix.GetValue | src/model/Matrix.ts:58-60 | the value stored at position `row * 9 + column` |
| Matrices.Matrix.GetRow | src/model/Matrix.ts:34-36 | nine values, element i being the value of cell (index, i) |
| Matrices.Matrix.GetColumn | src/model/Matrix.ts:42-44 | nine values, element i being the value of cell (i, index) |
| Matrices.Matrix.GetCluster | src/model/Matrix.ts:50-52 | nine values, element i being the value of the i-th cell of box `index` |
| Matrices.Matrix.SetValue | src/model/Matrix.ts:62-64 | the cell then holds the value and every other cell keeps its value |
| Matrices.Matrix.SetRow | src/model/Matrix.ts:38-40 | the first elements of row `index` take the given values, every other cell is kept, and `getRow` then returns the given row when it has nine values |
| Matrices.Matrix.SetColumn | src/model/Matrix.ts:46-48 | the same for a column |
| Matrices.Matrix.SetCluster | src/model/Matrix.ts:54-56 | the same for a cluster |
| Matrices.Matrix.Reverse | src/model/Matrix.ts:66-68 | the storage is reversed in place |
| Matrices.Matrix.Rotate | src/model/Matrix.ts:70-72 | quarter turn: cell (r, c) then holds old (c, 8-r); a solved board stays solved |
| Matrices.Matrix.MirrorRows | src/model/Matrix.ts:74-77 | cell (r, c) then holds old (r, 8-c); a solved board stays solved |
| Matrices.Matrix.MirrorColumns | src/model/Matrix.ts:79-81 | cell (r, c) then holds old (8-r, c); a solved board stays solved |
| Matrices.Matrix.SwapRowsByIndex | src/model/Matrix.ts:109-113 | rows index1 and index2 are exchanged and nothing else changes |
| Matrices.Matrix.SwapColumnsByIndex | src/model/Matrix.ts:115-119 | columns index1 and index2 are exchanged and nothing else changes |
| Matrices.Matrix.SwapRows | src/model/Matrix.ts:83-85 | two rows of one band are exchanged; a solved board stays solved |
| Matrices.Matrix.SwapColumns | src/model/Matrix.ts:87-89 | two columns of one stack are exchanged; a solved board stays solved |
| Matrices.Matrix.SwapRowClusters | src/model/Matrix.ts:91-98 | two bands of rows are exchanged; a solved board stays solved |
| Matrices.Matrix.SwapColumnClusters | src/model/Matrix.ts:100-107 | two stacks of columns are exchanged; a solved board stays solved |
| BoardHelper.ApplyKeepsComplete | src/util/BoardHelper.ts:11-33 | each of the seven transforms the switch can pick keeps a solved board solved |
| BoardHelper.ShuffledKeepsComplete | src/util/BoardHelper.ts:9-35 | any sequence of those transforms keeps a solved board solved |
| BoardHelper.Apply | src/util/BoardHelper.ts:11-33 | one pass of the `switch` of `shuffle`, one case per transform; `ApplyKeepsComplete` gives its meaning |
| BoardHelper.ApplyMove | src/util/BoardHelper.ts:11-33 | the board after one pass of the switch is the drawn transform applied to the board before it |
| BoardHelper.ApplyMoves | src/util/BoardHelper.ts:10-34 | the board after the given transforms, applied to the matrix in order |
| BoardHelper.Shuffle | src/util/BoardHelper.ts:9-35 | the board after the 100 drawn transforms, applied in order; a solved board stays solved |
| BoardHelper.SwapKeeps | src/util/BoardHelper.ts:86-89 | exchanging two entries keeps the multiset of entries, their range and their distinctness |
| BoardHelper.RandomCellSequence | src/util/BoardHelper.ts:82-93 | whatever the draws, the result is a permutation of 0..80: 81 distinct cell numbers, each in range |
| BoardHelper.DifficultyToSize | src/util/BoardHelper.ts:95-105 | Easy asks for 41 removals, Medium for 61 and Hard for 81 |
| BoardHelper.DifficultyOrder | src/util/BoardHelper.ts:95-105 | the removal target grows strictly from Easy to Hard, and only Hard asks for every cell |
| BoardHelper.Solvable | src/util/BoardHelper.ts:168-191 | only the listed cells are written, each ends blank or as it was, and the current cell ends blank. On distinct blank cells the board is restored and the answer is whether the listed cells can be solved |
| BoardHelper.MultipleSolutions | src/util/BoardHelper.ts:140-166 | with no earlier removals, false and nothing changes. Otherwise only the cell and the listed cells are written. On distinct blank cells, the answer is whether a digit other than the removed one fits with some filling of the earlier removals, and a true answer leaves that digit in the cell |
| BoardHelper.PruneCell | src/util/BoardHelper.ts:51 | permutation entry n names an in-bounds cell, at row n % 9 and column n / 9 |
| BoardHelper.PruneCellInjective | src/util/BoardHelper.ts:51 | distinct entries name distinct cells |
| BoardHelper.PruneCellOnto | src/util/BoardHelper.ts:51 | every cell is named by some entry, so visiting the whole permutation visits every cell once |
| BoardHelper.AppendRemoval | src/util/BoardHelper.ts:72-75 | recording one more accepted removal keeps the list distinct and every removal justified |
| BoardHelper.FirstRemovalKept | src/util/BoardHelper.ts:142-145 | the first removal never needs a uniqueness check: a single blank on a solved board has only its own digit |
| BoardHelper.LastRemovalKept | src/util/BoardHelper.ts:66-75 | an accepted removal keeps its original digit in every solution of the puzzle |
| BoardHelper.LastRemovalStep | src/util/BoardHelper.ts:66-75 | dropping the last accepted removal leaves a distinct, justified list, and a solution of the longer puzzle restricted to the shorter list solves the shorter puzzle, with the last removed cell getting its original digit |
| BoardHelper.JustifiedRemovalsUnique | src/util/BoardHelper.ts:37-80 | every solution of a solved board with justified removals blanked is the original digits |
| BoardHelper.UniqueSolution | src/util/BoardHelper.ts:37-80 | the pruned puzzle of a solved board has exactly one solution, the board it started from |
| BoardHelper.RejectedNow | src/util/BoardHelper.ts:66-70 | a cell for which `multipleSolutions` answered true, with every removal so far blank, is recorded as turned down |
| BoardHelper.SettledKept | src/util/BoardHelper.ts:72-75 | a later accepted removal leaves the outcome of every earlier visited cell (empty, removed or turned down) as it was |
| BoardHelper.AllSettled | src/util/BoardHelper.ts:50-78 | once every permutation entry has been visited, every cell of the board was empty from the start, was removed, or was turned down by the uniqueness test |
| BoardHelper.FewCluesNotUnique | src/util/BoardHelper.ts:50-78 | blanking all but at most one cell of a solved board always leaves a second solution, which exchanges two digits the remaining clue does not hold |
| BoardHelper.JustifiedFewerThanEighty | src/util/BoardHelper.ts:50-78 | removals that each passed the uniqueness test never number 80 or more: a solved board keeps at least two clues |
| BoardHelper.Prune | src/util/BoardHelper.ts:37-80 | at most the target number of cells is removed, with no cell removed twice. Short of the target, every cell was visited, and each cell still holding a digit was empty from the start or was turned down by `multipleSolutions`. From a solved board fewer than 80 cells are removed. Removed cells are blank, every other cell keeps its value, and only non-empty cells are removed. Each removal passed the `multipleSolutions` test. From a solved board the puzzle has exactly one solution |
| BoardHelper.PhantomRun | src/util/BoardHelper.ts:50-76 | the source loop's rounds once `i` is past the permutation: whatever the number of rounds, at most one more removal is counted, and none once the extra slot holds 0 |
| BoardHelper.PhantomNeverEnds | src/util/BoardHelper.ts:50-76 | a source run that leaves the permutation more than one removal short of the target stays in its loop for any number of further rounds |
| BoardHelper.HardNeverEnds | src/util/BoardHelper.ts:50-76 | with the `Hard` target of 81 and fewer than 80 real removals, the source loop never ends |
| BoardHelper.ZerosBelowSpec | src/util/BoardHelper.ts:196-204 | the list of empty cells below storage position n holds every empty cell below n and only those, in strictly increasing row-major order (so each once) |
| BoardHelper.ZerosBelow | src/util/BoardHelper.ts:196-204 | the list the nested loops of `canSolve` have built after n storage positions; `ZerosBelowSpec` and `EmptyCellList` give its meaning |
| BoardHelper.ZerosBelowOrdered | src/util/BoardHelper.ts:196-204 | the cells the scan has listed so far are empty, lie below the scan position and appear in strictly increasing storage order |
| BoardHelper.ZerosBelowCovers | src/util/BoardHelper.ts:196-204 | every empty cell below the scan position has been listed |
| BoardHelper.EmptyCellList | src/util/BoardHelper.ts:196-204 | the full row-major list names exactly the empty cells, each once |
| BoardHelper.CanSolve | src/util/BoardHelper.ts:193-209 | the board is unchanged, and the answer is whether digits exist for all empty cells with none of them in conflict with a peer |

## Findings

| source | as written | input that shows it | evidently intended | confidence | as-written member | corrected member |
|---|---|---|---|---|---|---|
| src/util/BoardHelper.ts:50-76 | the loop of `prune` runs while `removed < end` with no bound on `i`; past the 81 cells it counts one phantom removal and then skips every round | `prune(matrix, Difficulty.HARD)` after `initialize()`, with any random draws: the target is 81, a solved board admits at most 79 accepted removals (`JustifiedFewerThanEighty`), and the one phantom brings the count to at most 80 | stop once every cell has been tried, returning what was removed | not executed | BoardHelper.HardNeverEnds | BoardHelper.Prune |

## Left out

- Randomness: each `Math.random` draw of `shuffle`, `randomCellSequence` and `prune` is a parameter of the model.
- Console output: the `console.log` calls of `prune`, `solvable` and `canSolve`, and `Matrix.print`, are not modelled.
- `removeObvious` is not modelled because it is commented out in the source.
- The `Difficulty` module: it becomes the three-value `Difficulty` datatype.
- The view and game-state files are not part of this model. They render the board and hold the player's session.
- BoardHelper.Prune: the model stops once every cell of the permutation has been visited (`i < 81`). The source loop has no such bound, and its rounds past the permutation are modelled separately by `PastEnd`, `PhantomRound` and `PhantomRun`. There `cells[i]` is `undefined`, so the cell is `(NaN, NaN)`. Its storage index `NaN` addresses one extra slot of the array, not a board cell. In the first such round the slot reads `undefined`, which is not 0, so the cell is tried. Every trial digit of `multipleSolutions` then fails `isValid`, because the row cursor `(NaN, 0)` reads the same slot and never `equals` the cell (`NaN !== NaN`). So exactly one phantom removal is counted. From then on the slot holds 0 and every round skips it. The source therefore returns only when its real removals reach the target, or fall exactly one short of it; otherwise it never returns (`PhantomNeverEnds`). The model's `Prune` returns in every case, and its count and list hold real cells only.
- BoardHelper.Solvable: the source's final state is stated only as "blank or unchanged" in general. "Every listed cell blank" holds only on a true answer, or when the listed cells start blank. The model states it in those cases, because on a false return the deeper cells that were never reached keep their values.
- Matrices.Matrix.SetRow: requires at most nine values. In the source, a longer list writes past the row into other cells, or grows the array.
- Matrices.Matrix.SetColumn: requires at most nine values. In the source, a longer list writes past the column into other cells, or grows the array.
- Matrices.Matrix.SetCluster: requires at most nine values. In the source, a longer list writes past the cluster into other cells, or grows the array.
- Matrices.Matrix.SwapRows: requires `cluster` in 0..2 and a non-negative `pivot`, the range `shuffle` draws from. For other arguments JavaScript's `%` can be negative, and the source then exchanges other rows: rows that straddle two bands (`swapRows(1, -2)` exchanges rows 2 and 3), rows of another band, or positions outside the board.
- Matrices.Matrix.SwapColumns: requires `cluster` in 0..2 and a non-negative `pivot`, for the same reason, with columns and stacks in place of rows and bands.
- Matrices.Matrix.SwapRowClusters: requires a non-negative `pivot`. Some negative pivots give one of the exchanges a non-negative pivot gives (`-1` acts as `2`, exchanging bands 0 and 1). Others give a negative first row, and the source then reads and writes outside the board.
- Matrices.Matrix.SwapColumnClusters: requires a non-negative `pivot`, for the same reason, with stacks in place of bands.
- Matrices.Matrix.GetValue and the other accessors require in-bounds cells and indices. The source turns any coordinate or index into a storage position by the same arithmetic. A column past 8 then reads a cell of another row (`getValue` of (0, 9) reads cell (1, 0), and `getColumn(9)` returns cells (1, 0) to (8, 0) followed by `undefined`). A position outside 0..80 reads `undefined`. The writers write those positions in the same way.
- JavaScript numbers are modelled as unbounded integers. Every value involved is a small non-negative integer, so no rounding or overflow arises.
