# n-rooks / n-queens: board conflict model and backtracking search

This project models the core of a small JavaScript n-queens solver and
proves its properties in Dafny.

The core has two parts.

- **The board** (`src/Board.js`) is an n×n grid of 0/1 cells. Each row is
  its own mutable array. `togglePiece` flips one cell in place. Everything
  else is a read-only conflict query: it sums the pieces on a row, a
  column, a major diagonal (key `col - row`) or a minor diagonal
  (key `col + row`). A line is in conflict when its sum exceeds 1.
- **The solvers** (`src/solvers.js`) are four near-identical recursive
  backtracking searches. Each places one piece per row, trying the columns
  in ascending order. After each placement it asks the board for a global
  rook or queen conflict, and recurses only when there is none. It always
  takes the piece away afterwards. At a complete placement it either adds
  one to a counter or takes a deep copy of the board.

Files:

- `grid.dfy` (module `Grid`) is the value-level specification. It defines:
  - the board as a matrix;
  - line sums, and the lines themselves (row, column, major and minor
    diagonal);
  - the line-sum conflict predicates the board's queries compute.

  It also defines an independent pairwise reference: two distinct occupied
  cells attack each other (same row, same column, or same diagonal for
  queens). It proves each line-sum predicate equivalent to the pairwise
  one.
- `board.dfy` (module `BoardModel`) holds the `Board` class. Its rows are
  arrays, `TogglePiece` updates a cell in place, and each query is a method
  or function proved to return the `Grid` predicate on the current cells.
  The diagonal walks read the cells the source reads. A cell off the board
  is skipped by an explicit bounds check where the JavaScript reads
  `undefined`. A lemma proves that each walk counts exactly the cells of its
  diagonal.
- `placement.dfy` (module `Placement`) describes what the search explores.
  A placement is a sequence of chosen columns, one per decided row. It
  defines three things:
  - the number of complete placements the pruned depth-first search
    reaches (`DfsCount`);
  - the last one it reaches (`LastLeaf`);
  - a brute-force count of attack-free one-per-row placements
    (`BruteCount`).

  It proves that pruning loses nothing, that rooks give n!, and that
  queens have no solution for n = 2 and 3.
- `solvers.dfy` (module `Solvers`) holds the four solvers. They share one
  recursive `FindSolution` method, parameterised by piece kind and by mode
  (count or find). The closure variables `solutionCount` and `solution`
  become in/out parameters. `Captured` records what `solution` holds:
  - `undefined` at the start, for rooks;
  - the board's own rows, for queens;
  - a deep copy, once a complete placement has been reached.

Two behaviours of the code are easy to miss, and the model follows the
code:

- The find variants do not stop at the first solution. The `// stop`
  comments in `src/solvers.js` (lines 24 and 96) sit where the code only
  returns from the current call. The search then goes on, and every
  complete placement overwrites `solution`. The result is the *last*
  placement reached in depth-first order.
- The matrix constructor adopts the caller's row arrays as the board's
  rows.

## Model

| member | source | states |
|---|---|---|
| Grid.SumOfBits | src/Board.js:84-86 | a 0/1 line sums to more than 1 iff it holds two distinct ones, and to more than 0 iff it holds one |
| Grid.MajorDiagonalKey | src/Board.js:32-34 | the key names the major line through the cell: on every board holding (row, col), that cell is the entry of its row in the major line of the key |
| Grid.MinorDiagonalKey | src/Board.js:36-38 | the key names the minor line through the cell: on every board holding (row, col), that cell is the entry of its row in the minor line of the key |
| Grid.RowConflictIff | src/Board.js:81-88 | a row's sum exceeds 1 iff two distinct occupied cells share that row |
| Grid.ColConflictIff | src/Board.js:112-121 | a column's sum exceeds 1 iff two distinct occupied cells share that column |
| Grid.MajorConflictIff | src/Board.js:154-186 | the major diagonal with key k has sum > 1 iff two distinct occupied cells (r, c) have c - r = k |
| Grid.MinorConflictIff | src/Board.js:207-250 | the minor diagonal with key k has sum > 1 iff two distinct occupied cells (r, c) have c + r = k |
| Grid.MajorWalkCountsLine | src/Board.js:159-184 | from (0, k) or (-k, 0), stepping one row down and one column right and skipping off-board cells, n steps add up exactly the cells of the diagonal c - r = k |
| Grid.MinorWalkCountsLine | src/Board.js:215-245 | from (0, k) or (k-(n-1), n-1), stepping one row down and one column left and skipping off-board cells, n steps add up exactly the cells of the diagonal c + r = k |
| Grid.MinorKeyZeroHasNoConflict | src/Board.js:253-264 | the minor diagonal with key 0 is the single cell (0, 0) and never has a conflict, so the scan that stops above key 0 misses nothing |
| Grid.RookConflictIff | src/Board.js:40-42 | row-or-column line-sum conflict iff two distinct occupied cells share a row or a column |
| Grid.QueenConflictIff | src/Board.js:53-55 | rook conflict or a diagonal conflict at some key in range iff two distinct occupied cells attack as queens |
| Grid.ConflictIff | src/Board.js:40-55 | for either piece kind, the global line-sum test holds iff two occupied cells attack each other |
| Grid.ToggleTwiceRestores | src/Board.js:27-30 | flipping the same cell twice gives back the original board |
| BoardModel.MakeEmptyMatrix | src/Board.js:271-277 | returns n fresh, pairwise distinct rows, each holding n zeros |
| BoardModel.Board.Empty | src/Board.js:14-15 | the `{n: n}` construction gives a valid n×n board whose cells are all 0 |
| BoardModel.Board.FromMatrix | src/Board.js:16-17 | the matrix construction takes the caller's rows as the board's rows, and the dimension is their count |
| BoardModel.Board.TogglePiece | src/Board.js:27-30 | flips cell (r, c) between 0 and 1 in place, leaves every other cell unchanged, and keeps the board valid |
| BoardModel.Board.IsInBounds | src/Board.js:57-62 | an on-board cell has its major key in [-(n-1), n-1] and its minor key in [0, 2n-2] |
| BoardModel.Board.HasRowConflictAt | src/Board.js:81-88 | returns the row-conflict predicate of the current cells for row r |
| BoardModel.Board.HasAnyRowConflicts | src/Board.js:91-104 | returns true iff some row in [0, n) has a conflict |
| BoardModel.Board.HasColConflictAt | src/Board.js:112-121 | the accumulated column count exceeds 1 iff the column-conflict predicate holds |
| BoardModel.Board.HasAnyColConflicts | src/Board.js:132-141 | returns true iff some column in [0, n) has a conflict |
| BoardModel.Board.MajorDiagonalCount | src/Board.js:159-184 | the count accumulated by either branch's walk equals the sum of the major diagonal of the start cell's key |
| BoardModel.Board.HasMajorDiagonalConflictAt | src/Board.js:154-186 | for every key in [-(n-1), n-1], both start branches return exactly the major-diagonal conflict predicate |
| BoardModel.Board.HasAnyMajorDiagonalConflicts | src/Board.js:189-199 | returns true iff some key in [-(n-1), n-1] has a major-diagonal conflict |
| BoardModel.Board.MinorDiagonalCount | src/Board.js:215-245 | the count accumulated by either branch's walk equals the sum of the minor diagonal of the start cell's key |
| BoardModel.Board.HasMinorDiagonalConflictAt | src/Board.js:207-250 | for every key in [0, 2n-2], both start branches return exactly the minor-diagonal conflict predicate |
| BoardModel.Board.HasAnyMinorDiagonalConflicts | src/Board.js:253-264 | scanning keys 2n-2 down to 1 returns true iff some key in [0, 2n-2] has a minor-diagonal conflict |
| BoardModel.Board.HasAnyRooksConflicts | src/Board.js:40-42 | returns the rook conflict predicate (any row or any column conflict) of the current cells |
| BoardModel.Board.HasAnyQueenConflictsOn | src/Board.js:44-51 | returns the disjunction of the four lines through (r, c), and a true answer implies a global queen conflict |
| BoardModel.Board.HasAnyQueensConflicts | src/Board.js:53-55 | returns the queen conflict predicate (rooks, any major or any minor diagonal) of the current cells |
| BoardModel.Board.CopyRows | src/solvers.js:25-27 | the deep copy equals the board's current cells, as a value later toggles cannot change |
| Placement.BoardOfShape | src/solvers.js:19-42 | while the search is in row \|p\|, rows before it hold exactly one piece each, at the chosen column, and the later rows are empty |
| Placement.BoardOfNothing | src/solvers.js:17-19 | the search starts from the board of the empty placement, which is the all-zero board |
| Placement.ToggleNextRow | src/solvers.js:32-41 | toggling (row, i) on the board of p gives the board of p + [i], and toggling it again gives back the board of p |
| Placement.BoardOfConflictIff | src/solvers.js:36 | on the board of a placement the global conflict test holds iff two placed pieces attack each other |
| Placement.AttackedHasNoSolutions | src/solvers.js:36-39 | a placement with an attack has no attack-free completion, so pruning at it discards no solution |
| Placement.DfsCountIsBruteCount | src/solvers.js:122-153 | below an attack-free placement the pruned search reaches exactly as many complete placements as there are attack-free completions |
| Placement.LastLeafIsSolution | src/solvers.js:91-115 | the search reaches a complete placement iff it counts one, and the last one it reaches extends the current placement and has no attack |
| Placement.RookConflictIffTaken | src/solvers.js:68-71 | after rooks on distinct columns, the next rook conflicts iff its column is already taken |
| Placement.FreeColumns | src/solvers.js:66-76 | \|p\| distinct columns of an n×n board leave exactly n - \|p\| columns for the next row |
| Placement.RookDfsCount | src/solvers.js:50-82 | below rooks on distinct columns the search reaches (n - \|p\|)! complete placements |
| Placement.RookSolutionUsesEveryColumn | src/solvers.js:13 | an attack-free complete rook placement uses every column, so it is a permutation |
| Placement.RookSolutionBoard | src/solvers.js:13 | the board of an attack-free complete rook placement has exactly one piece in every row and every column |
| Placement.NoQueenSolutionOfSize2Or3 | src/solvers.js:122-153 | every complete queen placement on a 2×2 or 3×3 board has an attack |
| Placement.NoSolutionsCountZero | src/solvers.js:122-153 | when every complete extension of p has an attack, the brute-force count below p is 0 |
| Placement.NoQueensOn2Or3 | src/solvers.js:122-153 | there are no queen solutions for n = 2 and n = 3 |
| Solvers.HasConflict | src/solvers.js:36 | the conflict test of the search returns the global rook or queen predicate of the current cells |
| Solvers.Complete | src/solvers.js:21-28 | at a complete placement the counters add one and leave `solution` alone; the finders leave the count alone and set `solution` to a copy of the board |
| Solvers.TryColumn | src/solvers.js:32-42 | one loop iteration leaves the board as it found it, and adds the count (or leaf) of the subtree below column i exactly when the placement there has no conflict |
| Solvers.FindSolution | src/solvers.js:19-43 | from a board holding an attack-free placement p: restores the board, adds DfsCount(p) in count mode, and in find mode leaves `solution` as the copy of the last complete placement reached (or unchanged when there is none) |
| Solvers.FindNRooksSolution | src/solvers.js:14-48 | for n >= 0 always returns a matrix: the board of the last rook placement reached, with exactly one rook in every row and every column and no rook conflict; for a negative n it returns `undefined` (None) |
| Solvers.CountNRooksSolutions | src/solvers.js:51-82 | returns n!, which equals the number of attack-free one-per-row rook placements, and 0 for a negative n |
| Solvers.FindNQueensSolution | src/solvers.js:85-120 | returns the board of the last queen solution reached, or the all-zero board when none exists; for n > 0 it is all-zero iff no solution exists; it has no queen conflict; it is all-zero for n = 2 and 3; a negative n gives the empty matrix |
| Solvers.CountNQueensSolutions | src/solvers.js:123-153 | returns the number of attack-free one-per-row queen placements: 0 for n = 2 and 3, 1 for n = 0 and 1, and 0 for a negative n |

## Left out

- The Backbone model machinery is not modelled: attribute storage through
  `get`/`set`, `rows()` built with underscore, and the `trigger('change')`
  view notification in `togglePiece`. The board keeps its row arrays in a
  sequence field instead.
- The no-argument branch of `initialize` is not modelled. It only prints
  help text. The same goes for every `console.log` in the solvers, and for
  the `window.*` global registration.
- BoardModel.Board.FromMatrix requires a square matrix of 0/1 cells whose
  rows are distinct arrays. The source does not check these; ragged input,
  other cell values and a row array that appears twice are out of contract.
- BoardModel.Board.Valid demands that the rows are distinct arrays.
  Aliased rows, where toggling one cell would change two rows, are not
  modelled.
- BoardModel.Board.HasMajorDiagonalConflictAt requires a key in
  [-(n-1), n-1], and BoardModel.Board.HasMinorDiagonalConflictAt a key in
  [0, 2n-2]. Outside these ranges the source behaves as follows, and the
  model does not cover it. On a board with at least one row, a major key
  of n or more, or a negative minor key, reads `undefined` for every cell,
  and the query returns false (`undefined > 1`). On such a board, a major
  key below -(n-1), or a minor key above 2n-2, starts in a row that does
  not exist, and the query throws a TypeError. On the 0x0 board every key
  throws a TypeError, because each branch reads its starting row from an
  empty row list (src/Board.js:160, 174, 216, 235).
  Every caller in the source passes an in-range key.
- BoardModel.Board.TogglePiece requires an on-board cell. In the source,
  `togglePiece(r, c)` with c of n or more writes a 1 past the end of row r
  and makes that row longer. A negative c sets a property of the row array
  that is not a cell. An off-board r throws a TypeError.
- BoardModel.Board.HasRowConflictAt requires an on-board row. In the
  source an off-board row throws a TypeError.
- BoardModel.Board.HasColConflictAt requires an on-board column. In the
  source, on a board with at least one row, a column outside [0, n) sums
  `undefined` to `NaN` and returns false. On the 0x0 board the loop never
  runs, and the query returns false for every column.
- BoardModel.Board.HasAnyQueenConflictsOn requires an on-board cell, for
  the same reasons as the row, column and diagonal queries it calls.
- BoardModel.MakeEmptyMatrix and BoardModel.Board.Empty take a natural
  n. In the source a negative n gives a board with no rows, whose stored
  dimension is that negative n. The four solvers do model a negative n:
  they return before building a board, with the result the source's
  search gives, since it never reaches `row === n` and its column loop
  never runs.
- Every call in `src/` to BoardModel.Board.TogglePiece,
  BoardModel.Board.HasRowConflictAt, BoardModel.Board.HasColConflictAt,
  BoardModel.Board.HasMajorDiagonalConflictAt and
  BoardModel.Board.HasMinorDiagonalConflictAt passes on-board indices and
  in-range keys. BoardModel.Board.HasAnyQueenConflictsOn has no caller in
  `src/`. The `{n: n}` construction is a
  different case. In the source, all four solvers pass it whatever n they
  are given, negative included. The model's solvers return before building
  a board, so a negative n never reaches BoardModel.Board.Empty.
- BoardModel.Board.MajorDiagonalCount and
  BoardModel.Board.MinorDiagonalCount are the bodies of the two branches of
  each diagonal query, factored out. Solvers.TryColumn and Solvers.Complete
  are the loop body and the base case of `findSolution`, factored out in
  the same way. The behaviour is unchanged.
- Solvers.FindNQueensSolution returns the contents of the board's rows
  when no solution was reached, read when the solver returns. The source
  returns the row arrays themselves, aliased to the discarded board.
- The four solver closures share one method, Solvers.FindSolution. Piece
  kind and mode are parameters, and `solutionCount` and `solution` are
  passed in and returned.
- Queen counts for particular n other than 0 to 3 are not stated.
