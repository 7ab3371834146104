/** The board: an n×n grid whose rows are separate mutable arrays of 0/1
    cells, with one mutator (TogglePiece, which flips a cell in place) and
    read-only conflict queries that sum the cells of a row, a column or a
    diagonal. Every query is proved to compute the line-sum predicate of
    module Grid on the board's current cells. */
module BoardModel {
  import opened Grid

  /** n fresh, distinct rows of n zeros. */
  method MakeEmptyMatrix(n: nat) returns (m: seq<array<int>>)
    ensures |m| == n
    ensures forall r :: 0 <= r < n ==> fresh(m[r]) && m[r][..] == EmptyMatrix(n)[r]
    ensures forall r, s :: 0 <= r < s < n ==> m[r] != m[s]
  {
    m := [];
    while |m| < n
      invariant |m| <= n
      invariant forall r :: 0 <= r < |m| ==> fresh(m[r]) && m[r][..] == EmptyMatrix(n)[r]
      invariant forall r, s :: 0 <= r < s < |m| ==> m[r] != m[s]
    {
      var row := new int[n](c => 0);
      m := m + [row];
    }
  }

  class Board {
    /** The dimension, fixed at construction. */
    const n: nat
    /** Row r of the board; the row arrays are never replaced, only their cells. */
    const rows: seq<array<int>>

    ghost predicate Valid()
      reads rows
    {
      |rows| == n &&
      (forall r :: 0 <= r < n ==> rows[r].Length == n && IsBits(rows[r][..])) &&
      (forall r, s :: 0 <= r < s < n ==> rows[r] != rows[s])
    }

    /** The board's cells as a value. */
    ghost function Cells(): (m: Matrix)
      reads rows
      requires Valid()
      ensures |m| == n && IsBoard(m)
      ensures forall r :: 0 <= r < n ==> m[r] == rows[r][..]
    {
      seq(n, r reads rows requires 0 <= r < |rows| => rows[r][..])
    }

    /** The `{n: n}` construction: an all-zero n×n board. */
    constructor Empty(n: nat)
      ensures Valid() && this.n == n && Cells() == EmptyMatrix(n)
      ensures forall r :: 0 <= r < n ==> fresh(rows[r])
    {
      var m := MakeEmptyMatrix(n);
      this.n := n;
      this.rows := m;
      new;
      assert forall r :: 0 <= r < n ==> Cells()[r] == EmptyMatrix(n)[r];
    }

    /** The matrix construction: the board adopts the caller's rows (it
        does not copy them), and its dimension is their number. */
    constructor FromMatrix(matrix: seq<array<int>>)
      requires forall r :: 0 <= r < |matrix| ==> matrix[r].Length == |matrix|
      requires forall r, s :: 0 <= r < s < |matrix| ==> matrix[r] != matrix[s]
      requires forall r, c :: 0 <= r < |matrix| && 0 <= c < matrix[r].Length ==>
                 matrix[r][c] == 0 || matrix[r][c] == 1
      ensures Valid() && n == |matrix| && rows == matrix
    {
      n := |matrix|;
      rows := matrix;
    }

    /** Flips cell (r, c) between 0 and 1 in place; every other cell keeps
        its value. */
    method TogglePiece(r: int, c: int)
      requires Valid() && 0 <= r < n && 0 <= c < n
      modifies rows[r]
      ensures Valid()
      ensures Cells() == Toggled(old(Cells()), r, c)
    {
      rows[r][c] := if rows[r][c] == 0 then 1 else 0;
      assert forall i :: 0 <= i < n ==> Cells()[i] == Toggled(old(Cells()), r, c)[i];
    }

    /** (r, c) is a cell of the board. An on-board cell has its diagonal
        keys in their ranges. */
    predicate IsInBounds(r: int, c: int): (inBounds: bool)
      ensures inBounds ==> 1 - n <= MajorDiagonalKey(r, c) <= n - 1
      ensures inBounds ==> 0 <= MinorDiagonalKey(r, c) <= 2 * n - 2
    {
      0 <= r < n && 0 <= c < n
    }

    /** Row r holds more than one piece: the sum of the row exceeds 1. */
    function HasRowConflictAt(r: int): (conflict: bool)
      reads rows
      requires Valid() && 0 <= r < n
      ensures conflict == RowConflict(Cells(), r)
    {
      Sum(rows[r][..]) > 1
    }

    method HasAnyRowConflicts() returns (conflict: bool)
      requires Valid()
      ensures conflict == AnyRowConflict(Cells())
    {
      for i := 0 to n
        invariant forall r :: 0 <= r < i ==> !RowConflict(Cells(), r)
      {
        if HasRowConflictAt(i) {
          return true;
        }
      }
      return false;
    }

    /** Sums column c over all rows. */
    method HasColConflictAt(c: int) returns (conflict: bool)
      requires Valid() && 0 <= c < n
      ensures conflict == ColConflict(Cells(), c)
    {
      ghost var col := Column(Cells(), c);
      var count := 0;
      for i := 0 to n
        invariant count == PrefixSum(col, i)
      {
        count := count + rows[i][c];
      }
      PrefixSumIsSum(col, n);
      assert col[..n] == col;
      conflict := count > 1;
    }

    method HasAnyColConflicts() returns (conflict: bool)
      requires Valid()
      ensures conflict == AnyColConflict(Cells())
    {
      for i := 0 to n
        invariant forall c :: 0 <= c < i ==> !ColConflict(Cells(), c)
      {
        var found := HasColConflictAt(i);
        if found {
          return true;
        }
      }
      return false;
    }

    /** The piece count of the major diagonal whose first cell is
        (startRow, startCol): the start, then n - 1 steps of one row down and
        one column right, adding the cells that are on the board and skipping
        the others. */
    method MajorDiagonalCount(startRow: int, startCol: int) returns (count: int)
      requires Valid() && 0 <= startRow < n && 0 <= startCol < n
      requires startRow == 0 || startCol == 0
      ensures count == Sum(MajorLine(Cells(), startCol - startRow))
    {
      count := rows[startRow][startCol];
      for i := 1 to n
        invariant count == MajorWalk(Cells(), startRow, startCol, i)
      {
        if startRow + i < n && startCol + i < n && rows[startRow + i][startCol + i] != 0 {
          count := count + rows[startRow + i][startCol + i];
        }
      }
      MajorWalkCountsLine(Cells(), startRow, startCol);
    }

    /** Key k >= 0: the diagonal starts at (0, k); key k < 0: at (-k, 0). */
    method HasMajorDiagonalConflictAt(k: int) returns (conflict: bool)
      requires Valid() && 1 - n <= k <= n - 1
      ensures conflict == MajorConflict(Cells(), k)
    {
      var count;
      if k >= 0 {
        count := MajorDiagonalCount(0, k);
      } else {
        count := MajorDiagonalCount(-k, 0);
      }
      conflict := count > 1;
    }

    /** Scans the major-diagonal keys from -(n-1) up to n-1. */
    method HasAnyMajorDiagonalConflicts() returns (conflict: bool)
      requires Valid()
      ensures conflict == AnyMajorConflict(Cells())
    {
      var i := 1 - n;
      while i < n
        invariant 1 - n <= i && (i <= n || n == 0)
        invariant forall k :: 1 - n <= k < i ==> !MajorConflict(Cells(), k)
      {
        var found := HasMajorDiagonalConflictAt(i);
        if found {
          return true;
        }
        i := i + 1;
      }
      return false;
    }

    /** The piece count of the minor diagonal whose first cell is
        (startRow, startCol): the start, then n - 1 steps of one row down and
        one column left, adding the cells that are on the board and skipping
        the others. */
    method MinorDiagonalCount(startRow: int, startCol: int) returns (count: int)
      requires Valid() && 0 <= startRow < n && 0 <= startCol < n
      requires startRow == 0 || startCol == n - 1
      ensures count == Sum(MinorLine(Cells(), startCol + startRow))
    {
      count := rows[startRow][startCol];
      for i := 1 to n
        invariant count == MinorWalk(Cells(), startRow, startCol, i)
      {
        if startRow + i < n && 0 <= startCol - i && rows[startRow + i][startCol - i] != 0 {
          count := count + rows[startRow + i][startCol - i];
        }
      }
      MinorWalkCountsLine(Cells(), startRow, startCol);
    }

    /** Key k <= n-1: the diagonal starts at (0, k); a larger key starts
        at (k-(n-1), n-1). */
    method HasMinorDiagonalConflictAt(k: int) returns (conflict: bool)
      requires Valid() && 0 <= k <= 2 * n - 2
      ensures conflict == MinorConflict(Cells(), k)
    {
      var count;
      if k <= n - 1 {
        count := MinorDiagonalCount(0, k);
      } else {
        count := MinorDiagonalCount(k - (n - 1), n - 1);
      }
      conflict := count > 1;
    }

    /** Scans the minor-diagonal keys from 2n-2 down to 1; key 0 is never
        visited, which the result does not notice. */
    method HasAnyMinorDiagonalConflicts() returns (conflict: bool)
      requires Valid()
      ensures conflict == AnyMinorConflict(Cells())
    {
      var i := 2 * n - 2;
      while i > 0
        invariant i <= 2 * n - 2 && (0 <= i || n == 0)
        invariant forall k :: i < k <= 2 * n - 2 ==> !MinorConflict(Cells(), k)
      {
        var found := HasMinorDiagonalConflictAt(i);
        if found {
          return true;
        }
        i := i - 1;
      }
      MinorKeyZeroHasNoConflict(Cells());
      return false;
    }

    method HasAnyRooksConflicts() returns (conflict: bool)
      requires Valid()
      ensures conflict == RookConflict(Cells())
    {
      conflict := HasAnyRowConflicts();
      if !conflict {
        conflict := HasAnyColConflicts();
      }
    }

    /** The local check: the four lines through (r, c). Any of them in
        conflict is a conflict of the whole board. */
    method HasAnyQueenConflictsOn(r: int, c: int) returns (conflict: bool)
      requires Valid() && 0 <= r < n && 0 <= c < n
      ensures conflict == (RowConflict(Cells(), r) || ColConflict(Cells(), c) ||
                           MajorConflict(Cells(), MajorDiagonalKey(r, c)) ||
                           MinorConflict(Cells(), MinorDiagonalKey(r, c)))
      ensures conflict ==> QueenConflict(Cells())
    {
      conflict := HasRowConflictAt(r);
      if !conflict {
        conflict := HasColConflictAt(c);
      }
      if !conflict {
        conflict := HasMajorDiagonalConflictAt(MajorDiagonalKey(r, c));
      }
      if !conflict {
        conflict := HasMinorDiagonalConflictAt(MinorDiagonalKey(r, c));
      }
    }

    method HasAnyQueensConflicts() returns (conflict: bool)
      requires Valid()
      ensures conflict == QueenConflict(Cells())
    {
      conflict := HasAnyRooksConflicts();
      if !conflict {
        conflict := HasAnyMajorDiagonalConflicts();
      }
      if !conflict {
        conflict := HasAnyMinorDiagonalConflicts();
      }
    }

    /** A deep copy of the rows: a value that later toggles cannot change. */
    method CopyRows() returns (m: Matrix)
      requires Valid()
      ensures m == Cells()
    {
      m := seq(n, r reads rows requires 0 <= r < |rows| => rows[r][..]);
    }
  }
}
