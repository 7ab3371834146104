/** The four solvers: a backtracking search that places one piece per
    row, toggling a cell on the shared board, asking the board for a
    global conflict, recursing into the next row when there is none, and
    toggling the cell back. The four entry points differ only in the
    piece kind (which conflict query) and in what they do at a complete
    placement (count it, or snapshot the board). */
module Solvers {
  import opened Grid
  import opened Placement
  import opened BoardModel

  /** Whether a complete placement is tallied or snapshotted. */
  datatype Mode = Count | Find

  /** What the solver's `solution` variable holds: nothing yet, the
      board's own row arrays (read when the solver returns), or a deep copy
      taken at a complete placement. */
  datatype Captured = Undefined | BoardRows | Copy(matrix: Matrix)

  /** The value of `solution` after the search below a placement whose
      last reached leaf is `leaf`, when it held `before`: each complete
      placement overwrites it, so the last one stays. */
  function AfterSearch(leaf: Option<seq<int>>, n: nat, before: Captured): (after: Captured)
    ensures leaf.Some? ==> after.Copy? && IsBoard(after.matrix) && |after.matrix| == n
    ensures leaf.None? ==> after == before
  {
    match leaf
    case Some(q) => Copy(BoardOf(n, q))
    case None => before
  }

  /** The board's global conflict query for the given piece kind. */
  method HasConflict(board: Board, kind: Piece) returns (conflict: bool)
    requires board.Valid()
    ensures conflict == Conflict(kind, board.Cells())
  {
    if kind == Rook {
      conflict := board.HasAnyRooksConflicts();
    } else {
      conflict := board.HasAnyQueensConflicts();
    }
  }

  /** The recursive `findSolution(row)` of all four solvers. `p` is the
      placement the board holds in rows 0..row-1; `count` and `solution`
      are the closure variables the search updates. */
  method FindSolution(board: Board, kind: Piece, mode: Mode, row: nat, ghost p: seq<int>,
                      count: nat, solution: Captured)
    returns (count': nat, solution': Captured)
    requires board.Valid() && row == |p| <= board.n && InRange(board.n, p)
    requires board.Cells() == BoardOf(board.n, p)
    requires !PlacementAttack(kind, p)
    modifies board.rows
    decreases board.n - row, 1
    ensures board.Valid() && board.Cells() == old(board.Cells())
    ensures count' == if mode == Count then count + DfsCount(kind, board.n, p) else count
    ensures solution' == if mode == Find then AfterSearch(LastLeaf(kind, board.n, p), board.n, solution)
                         else solution
  {
    var n := board.n;
    count', solution' := count, solution;
    if row == n {
      count', solution' := Complete(board, mode, count, solution);
      return;
    }
    for i := 0 to n
      invariant board.Valid() && board.Cells() == BoardOf(n, p)
      invariant count' == if mode == Count then count + DfsColumns(kind, n, p, i) else count
      invariant solution' == if mode == Find then AfterSearch(LastAmong(kind, n, p, i), n, solution)
                             else solution
    {
      count', solution' := TryColumn(board, kind, mode, row, p, i, count', solution');
    }
  }

  /** What the search does when all rows are filled: the counters add
      one; the finders overwrite `solution` with a deep copy of the board,
      which later toggles cannot change. */
  method Complete(board: Board, mode: Mode, count: nat, solution: Captured)
    returns (count': nat, solution': Captured)
    requires board.Valid()
    ensures mode == Count ==> count' == count + 1 && solution' == solution
    ensures mode == Find ==> count' == count && solution' == Copy(board.Cells())
  {
    count', solution' := count, solution;
    if mode == Count {
      count' := count' + 1;
    } else {
      var snapshot := board.CopyRows();
      solution' := Copy(snapshot);
    }
  }

  /** One iteration of the search loop in row `row`: place a piece at
      column i, recurse when the board has no conflict, take the piece
      away. */
  method TryColumn(board: Board, kind: Piece, mode: Mode, row: nat, ghost p: seq<int>, i: int,
                   count: nat, solution: Captured)
    returns (count': nat, solution': Captured)
    requires board.Valid() && row == |p| < board.n && InRange(board.n, p) && 0 <= i < board.n
    requires board.Cells() == BoardOf(board.n, p)
    requires !PlacementAttack(kind, p)
    modifies board.rows
    decreases board.n - row, 0
    ensures board.Valid() && board.Cells() == old(board.Cells())
    ensures var reached := !Conflict(kind, BoardOf(board.n, p + [i]));
            count' == if mode == Count && reached then count + DfsCount(kind, board.n, p + [i]) else count
    ensures var reached := !Conflict(kind, BoardOf(board.n, p + [i]));
            solution' == if mode == Find && reached
                         then AfterSearch(LastLeaf(kind, board.n, p + [i]), board.n, solution)
                         else solution
  {
    count', solution' := count, solution;
    ToggleNextRow(board.n, p, i);
    board.TogglePiece(row, i);
    var conflict := HasConflict(board, kind);
    if !conflict {
      BoardOfConflictIff(kind, board.n, p + [i]);
      count', solution' := FindSolution(board, kind, mode, row + 1, p + [i], count', solution');
    }
    board.TogglePiece(row, i);
  }

  // A negative n builds a board with no rows; `row === n` never holds and
  // the column loop never runs, so the search returns at once with nothing
  // reached. Each entry point below takes that path first.

  /** The rooks finder: `solution` starts as `undefined` (None) and is
      overwritten at every complete placement, so it ends as the last rook
      solution the search reaches, a fresh matrix with exactly one rook in
      every row and every column. For n >= 0 one always exists. */
  method FindNRooksSolution(n: int) returns (solution: Option<Matrix>)
    ensures n < 0 ==> solution == None
    ensures n >= 0 ==> LastLeaf(Rook, n, []).Some? &&
                       solution == Some(BoardOf(n, LastLeaf(Rook, n, []).value))
    ensures solution.Some? ==> IsBoard(solution.value) && |solution.value| == n
    ensures solution.Some? ==> forall r :: 0 <= r < n ==> Sum(solution.value[r]) == 1
    ensures solution.Some? ==> forall c :: 0 <= c < n ==> Sum(Column(solution.value, c)) == 1
    ensures solution.Some? ==> !Conflict(Rook, solution.value)
  {
    if n < 0 {
      return None;
    }
    var board := new Board.Empty(n);
    BoardOfNothing(n);
    var _, captured := FindSolution(board, Rook, Find, 0, [], 0, Undefined);
    RookDfsCount(n, []);
    LastLeafIsSolution(Rook, n, []);
    var q := LastLeaf(Rook, n, []).value;
    RookSolutionBoard(n, q);
    BoardOfConflictIff(Rook, n, q);
    if captured.Copy? {
      solution := Some(captured.matrix);
    } else {
      solution := None;
    }
  }

  /** The rooks counter: n! solutions, which is the number of attack-free
      complete placements; 0 for a negative n. */
  method CountNRooksSolutions(n: int) returns (count: nat)
    ensures n < 0 ==> count == 0
    ensures n >= 0 ==> count == Fact(n) && count == BruteCount(Rook, n, [])
  {
    if n < 0 {
      return 0;
    }
    var board := new Board.Empty(n);
    BoardOfNothing(n);
    var unused;
    count, unused := FindSolution(board, Rook, Count, 0, [], 0, Undefined);
    RookDfsCount(n, []);
    DfsCountIsBruteCount(Rook, n, []);
  }

  /** The queens finder: `solution` starts as the board's own rows, so
      when no solution exists the caller gets the board as it is at the
      end of the search, all zeros (no rows at all for a negative n).
      Otherwise it is the last queen solution the search reaches. */
  method FindNQueensSolution(n: int) returns (solution: Matrix)
    ensures n < 0 ==> solution == []
    ensures n >= 0 ==> IsBoard(solution) && |solution| == n
    ensures n >= 0 ==> solution == match LastLeaf(Queen, n, [])
                                   case Some(q) => BoardOf(n, q)
                                   case None => EmptyMatrix(n)
    ensures n > 0 ==> (solution == EmptyMatrix(n) <==> BruteCount(Queen, n, []) == 0)
    ensures n >= 0 ==> !Conflict(Queen, solution)
    ensures n == 2 || n == 3 ==> solution == EmptyMatrix(n)
  {
    if n < 0 {
      return [];
    }
    var board := new Board.Empty(n);
    BoardOfNothing(n);
    var _, captured := FindSolution(board, Queen, Find, 0, [], 0, BoardRows);
    if captured.Copy? {
      solution := captured.matrix;
    } else {
      solution := board.CopyRows();
    }
    LastLeafIsSolution(Queen, n, []);
    DfsCountIsBruteCount(Queen, n, []);
    BoardOfConflictIff(Queen, n, []);
    var leaf := LastLeaf(Queen, n, []);
    if leaf.Some? {
      BoardOfConflictIff(Queen, n, leaf.value);
      BoardOfShape(n, leaf.value);
      if n > 0 {
        assert solution[0] != EmptyMatrix(n)[0] by {
          assert solution[0][leaf.value[0]] == 1;
        }
      }
    }
    if n == 2 || n == 3 {
      NoQueensOn2Or3(n);
    }
  }

  /** The queens counter: the number of attack-free complete placements;
      none for n = 2 and n = 3, one for n = 0 and n = 1, none for a
      negative n. */
  method CountNQueensSolutions(n: int) returns (count: nat)
    ensures n < 0 ==> count == 0
    ensures n >= 0 ==> count == BruteCount(Queen, n, [])
    ensures n == 2 || n == 3 ==> count == 0
    ensures 0 <= n <= 1 ==> count == 1
  {
    if n < 0 {
      return 0;
    }
    var board := new Board.Empty(n);
    BoardOfNothing(n);
    var unused;
    count, unused := FindSolution(board, Queen, Count, 0, [], 0, Undefined);
    DfsCountIsBruteCount(Queen, n, []);
    if n == 2 || n == 3 {
      NoQueensOn2Or3(n);
    }
    if n == 1 {
      assert DfsColumns(Queen, 1, [], 1) == DfsCount(Queen, 1, [0]);
    }
  }
}
