/** Boards as values.
    The cells of an n×n board, the four kinds of line the conflict queries
    of the board sum over (row, column, major diagonal keyed by col - row,
    minor diagonal keyed by col + row), the line-sum conflict predicates
    those queries compute, and an independent pairwise definition of two
    pieces attacking each other, proved equivalent to the line sums. */
module Grid {

  /** A board as a value, row by row; a cell holds 0 (empty) or 1 (piece). */
  type Matrix = seq<seq<int>>

  /** The two piece kinds the solvers place. */
  datatype Piece = Rook | Queen

  predicate IsBits(s: seq<int>) {
    forall i :: 0 <= i < |s| ==> s[i] == 0 || s[i] == 1
  }

  /** b is square and every cell holds 0 or 1. */
  predicate IsBoard(b: Matrix) {
    forall r :: 0 <= r < |b| ==> |b[r]| == |b| && IsBits(b[r])
  }

  /** The n×n board with no piece on it. */
  function EmptyMatrix(n: nat): (m: Matrix)
    ensures |m| == n && IsBoard(m)
    ensures forall r, c :: 0 <= r < n && 0 <= c < n ==> m[r][c] == 0
  {
    seq(n, r => seq(n, c => 0))
  }

  /** The piece count of a line: the sum of its cells. */
  function Sum(s: seq<int>): int {
    if s == [] then 0 else Sum(s[..|s| - 1]) + s[|s| - 1]
  }

  /** On a line of 0/1 cells the sum is positive iff some cell is occupied,
      and exceeds 1 iff two distinct cells are occupied. */
  lemma {:induction false} SumOfBits(s: seq<int>)
    requires IsBits(s)
    ensures 0 <= Sum(s) <= |s|
    ensures Sum(s) > 0 <==> exists i :: 0 <= i < |s| && s[i] == 1
    ensures Sum(s) > 1 <==> exists i, j :: 0 <= i < j < |s| && s[i] == 1 && s[j] == 1
  {
    if s != [] {
      var last := |s| - 1;
      var t := s[..last];
      assert forall i :: 0 <= i < |t| ==> t[i] == s[i];
      SumOfBits(t);
      if Sum(s) > 1 {
        if Sum(t) > 1 {
          var i, j :| 0 <= i < j < |t| && t[i] == 1 && t[j] == 1;
          assert s[i] == 1 && s[j] == 1;
        } else {
          var i :| 0 <= i < |t| && t[i] == 1;
          assert s[i] == 1 && s[last] == 1;
        }
      }
      if exists i, j :: 0 <= i < j < |s| && s[i] == 1 && s[j] == 1 {
        var i, j :| 0 <= i < j < |s| && s[i] == 1 && s[j] == 1;
        if j < last {
          assert t[i] == 1 && t[j] == 1;
        } else {
          assert t[i] == 1;
        }
      }
      if Sum(s) > 0 && Sum(t) == 0 {
        assert s[last] == 1;
      }
      if exists i :: 0 <= i < |s| && s[i] == 1 {
        var i :| 0 <= i < |s| && s[i] == 1;
        if i < last {
          assert t[i] == 1;
        }
      }
    }
  }

  /** A 0/1 sequence sums to more than one iff it holds two ones: the
      third clause of SumOfBits on its own, so that the diagonal lemmas
      below carry only the fact they use and stay cheap to prove. */
  lemma TwoOnes(s: seq<int>)
    requires IsBits(s)
    ensures Sum(s) > 1 <==> exists i, j :: 0 <= i < j < |s| && s[i] == 1 && s[j] == 1
  {
    SumOfBits(s);
  }

  /** The sum of the first i cells of a line, as a loop accumulates it. */
  function PrefixSum(s: seq<int>, i: int): int
    requires 0 <= i <= |s|
  {
    if i == 0 then 0 else PrefixSum(s, i - 1) + s[i - 1]
  }

  /** Accumulating every cell of a line gives its sum. */
  lemma {:induction false} PrefixSumIsSum(s: seq<int>, i: int)
    requires 0 <= i <= |s|
    ensures PrefixSum(s, i) == Sum(s[..i])
  {
    if i > 0 {
      PrefixSumIsSum(s, i - 1);
      assert s[..i][..i - 1] == s[..i - 1];
    }
  }

  /** Accumulating only empty cells gives 0. */
  lemma {:induction false} PrefixSumOfZeros(s: seq<int>, i: int)
    requires 0 <= i <= |s|
    requires forall j :: 0 <= j < i ==> s[j] == 0
    ensures PrefixSum(s, i) == 0
  {
    if i > 0 {
      PrefixSumOfZeros(s, i - 1);
    }
  }

  /** The cells of column c, top to bottom. */
  function Column(b: Matrix, c: int): (col: seq<int>)
    requires IsBoard(b) && 0 <= c < |b|
    ensures |col| == |b| && IsBits(col)
    ensures forall r :: 0 <= r < |b| ==> col[r] == b[r][c]
  {
    seq(|b|, r requires 0 <= r < |b| => b[r][c])
  }

  /** The major diagonal with key k (the cells with col - row == k), one
      entry per row; a row the diagonal misses contributes 0. */
  function MajorLine(b: Matrix, k: int): (line: seq<int>)
    requires IsBoard(b)
    ensures |line| == |b| && IsBits(line)
  {
    seq(|b|, r requires 0 <= r < |b| => if 0 <= r + k < |b| then b[r][r + k] else 0)
  }

  /** The minor diagonal with key k (the cells with col + row == k), one
      entry per row; a row the diagonal misses contributes 0. */
  function MinorLine(b: Matrix, k: int): (line: seq<int>)
    requires IsBoard(b)
    ensures |line| == |b| && IsBits(line)
  {
    seq(|b|, r requires 0 <= r < |b| => if 0 <= k - r < |b| then b[r][k - r] else 0)
  }

  /** What a walk down a major diagonal has counted after i steps: it
      starts at (sr, sc) and moves one row down and one column right per
      step, adding the cells that are on the board. */
  function MajorWalk(b: Matrix, sr: int, sc: int, i: nat): int
    requires IsBoard(b)
  {
    if i == 0 then 0
    else MajorWalk(b, sr, sc, i - 1) +
         (if 0 <= sr + i - 1 < |b| && 0 <= sc + i - 1 < |b| then b[sr + i - 1][sc + i - 1] else 0)
  }

  /** The same for a minor diagonal: one row down and one column left per step. */
  function MinorWalk(b: Matrix, sr: int, sc: int, i: nat): int
    requires IsBoard(b)
  {
    if i == 0 then 0
    else MinorWalk(b, sr, sc, i - 1) +
         (if 0 <= sr + i - 1 < |b| && 0 <= sc - (i - 1) < |b| then b[sr + i - 1][sc - (i - 1)] else 0)
  }

  /** A walk of n steps from the first cell of a major diagonal (a cell of
      row 0 or of column 0) counts exactly the cells of that diagonal. */
  lemma MajorWalkCountsLine(b: Matrix, sr: int, sc: int)
    requires IsBoard(b) && 0 <= sr < |b| && 0 <= sc < |b|
    requires sr == 0 || sc == 0
    ensures MajorWalk(b, sr, sc, |b|) == Sum(MajorLine(b, sc - sr))
  {
    var n := |b|;
    var line := MajorLine(b, sc - sr);
    PrefixSumOfZeros(line, sr);
    for i := 0 to n
      invariant MajorWalk(b, sr, sc, i) == PrefixSum(line, if sr + i < n then sr + i else n)
    {
      if sr + i < n {
        assert MajorWalk(b, sr, sc, i + 1) == MajorWalk(b, sr, sc, i) + line[sr + i];
      } else {
        assert MajorWalk(b, sr, sc, i + 1) == MajorWalk(b, sr, sc, i);
      }
    }
    PrefixSumIsSum(line, n);
    assert line[..n] == line;
  }

  /** A walk of n steps from the first cell of a minor diagonal (a cell of
      row 0 or of the last column) counts exactly the cells of that
      diagonal. */
  lemma MinorWalkCountsLine(b: Matrix, sr: int, sc: int)
    requires IsBoard(b) && 0 <= sr < |b| && 0 <= sc < |b|
    requires sr == 0 || sc == |b| - 1
    ensures MinorWalk(b, sr, sc, |b|) == Sum(MinorLine(b, sc + sr))
  {
    var n := |b|;
    var line := MinorLine(b, sc + sr);
    PrefixSumOfZeros(line, sr);
    for i := 0 to n
      invariant MinorWalk(b, sr, sc, i) == PrefixSum(line, if sr + i < n then sr + i else n)
    {
      if sr + i < n {
        assert MinorWalk(b, sr, sc, i + 1) == MinorWalk(b, sr, sc, i) + line[sr + i];
      } else {
        assert MinorWalk(b, sr, sc, i + 1) == MinorWalk(b, sr, sc, i);
      }
    }
    PrefixSumIsSum(line, n);
    assert line[..n] == line;
  }

  /** Key of the major diagonal through (row, col): the column at which
      that diagonal crosses row 0, off the board when negative. On every
      board holding the cell, the cell is the entry of its row in the major
      line of this key. */
  function MajorDiagonalKey(row: int, col: int): (k: int)
    ensures forall b: Matrix :: IsBoard(b) && 0 <= row < |b| && 0 <= col < |b| ==>
              MajorLine(b, k)[row] == b[row][col]
  {
    col - row
  }

  /** Key of the minor diagonal through (row, col): the column at which
      that diagonal crosses row 0, off the board when it exceeds n - 1. On
      every board holding the cell, the cell is the entry of its row in the
      minor line of this key. */
  function MinorDiagonalKey(row: int, col: int): (k: int)
    ensures forall b: Matrix :: IsBoard(b) && 0 <= row < |b| && 0 <= col < |b| ==>
              MinorLine(b, k)[row] == b[row][col]
  {
    col + row
  }

  predicate RowConflict(b: Matrix, r: int)
    requires IsBoard(b) && 0 <= r < |b|
  {
    Sum(b[r]) > 1
  }

  predicate ColConflict(b: Matrix, c: int)
    requires IsBoard(b) && 0 <= c < |b|
  {
    Sum(Column(b, c)) > 1
  }

  predicate MajorConflict(b: Matrix, k: int)
    requires IsBoard(b)
  {
    Sum(MajorLine(b, k)) > 1
  }

  predicate MinorConflict(b: Matrix, k: int)
    requires IsBoard(b)
  {
    Sum(MinorLine(b, k)) > 1
  }

  predicate AnyRowConflict(b: Matrix)
    requires IsBoard(b)
  {
    exists r :: 0 <= r < |b| && RowConflict(b, r)
  }

  predicate AnyColConflict(b: Matrix)
    requires IsBoard(b)
  {
    exists c :: 0 <= c < |b| && ColConflict(b, c)
  }

  /** Major-diagonal keys range over [-(n-1), n-1]. */
  predicate AnyMajorConflict(b: Matrix)
    requires IsBoard(b)
  {
    exists k :: 1 - |b| <= k < |b| && MajorConflict(b, k)
  }

  /** Minor-diagonal keys range over [0, 2n-2]. */
  predicate AnyMinorConflict(b: Matrix)
    requires IsBoard(b)
  {
    exists k :: 0 <= k <= 2 * |b| - 2 && MinorConflict(b, k)
  }

  predicate RookConflict(b: Matrix)
    requires IsBoard(b)
  {
    AnyRowConflict(b) || AnyColConflict(b)
  }

  predicate QueenConflict(b: Matrix)
    requires IsBoard(b)
  {
    RookConflict(b) || AnyMajorConflict(b) || AnyMinorConflict(b)
  }

  /** The global conflict test the search applies for a piece kind. */
  predicate Conflict(kind: Piece, b: Matrix)
    requires IsBoard(b)
  {
    match kind
    case Rook => RookConflict(b)
    case Queen => QueenConflict(b)
  }

  // ---------------------------------------------------------------------
  // The pairwise reference: two distinct pieces that attack each other.

  predicate Occupied(b: Matrix, r: int, c: int) {
    0 <= r < |b| && 0 <= c < |b[r]| && b[r][c] == 1
  }

  /** A piece of this kind at (r1, c1) attacks (r2, c2). */
  predicate Attacks(kind: Piece, r1: int, c1: int, r2: int, c2: int) {
    r1 == r2 || c1 == c2 ||
    (kind == Queen && (c1 - r1 == c2 - r2 || c1 + r1 == c2 + r2))
  }

  /** Some two distinct pieces on b attack each other. */
  ghost predicate PairConflict(kind: Piece, b: Matrix) {
    exists r1, c1, r2, c2 ::
      Occupied(b, r1, c1) && Occupied(b, r2, c2) && (r1 != r2 || c1 != c2) &&
      Attacks(kind, r1, c1, r2, c2)
  }

  /** Row r has a conflict iff two distinct occupied cells share row r. */
  lemma RowConflictIff(b: Matrix, r: int)
    requires IsBoard(b) && 0 <= r < |b|
    ensures RowConflict(b, r) <==>
            exists c1, c2 :: c1 != c2 && Occupied(b, r, c1) && Occupied(b, r, c2)
  {
    SumOfBits(b[r]);
    if exists c1, c2 :: c1 != c2 && Occupied(b, r, c1) && Occupied(b, r, c2) {
      var c1, c2 :| c1 != c2 && Occupied(b, r, c1) && Occupied(b, r, c2);
      if c1 < c2 {
        assert b[r][c1] == 1 && b[r][c2] == 1;
      } else {
        assert b[r][c2] == 1 && b[r][c1] == 1;
      }
    }
    if RowConflict(b, r) {
      var i, j :| 0 <= i < j < |b[r]| && b[r][i] == 1 && b[r][j] == 1;
      assert Occupied(b, r, i) && Occupied(b, r, j);
    }
  }

  /** Column c has a conflict iff two distinct occupied cells share column c. */
  lemma ColConflictIff(b: Matrix, c: int)
    requires IsBoard(b) && 0 <= c < |b|
    ensures ColConflict(b, c) <==>
            exists r1, r2 :: r1 != r2 && Occupied(b, r1, c) && Occupied(b, r2, c)
  {
    var col := Column(b, c);
    SumOfBits(col);
    if exists r1, r2 :: r1 != r2 && Occupied(b, r1, c) && Occupied(b, r2, c) {
      var r1, r2 :| r1 != r2 && Occupied(b, r1, c) && Occupied(b, r2, c);
      if r1 < r2 {
        assert col[r1] == 1 && col[r2] == 1;
      } else {
        assert col[r2] == 1 && col[r1] == 1;
      }
    }
    if ColConflict(b, c) {
      var i, j :| 0 <= i < j < |col| && col[i] == 1 && col[j] == 1;
      assert Occupied(b, i, c) && Occupied(b, j, c);
    }
  }

  /** The major diagonal with key k has a conflict iff more than one
      occupied cell (r, c) satisfies c - r == k. */
  lemma MajorConflictIff(b: Matrix, k: int)
    requires IsBoard(b)
    ensures MajorConflict(b, k) <==>
            exists r1, c1, r2, c2 :: (r1 != r2 || c1 != c2) &&
              Occupied(b, r1, c1) && Occupied(b, r2, c2) && c1 - r1 == k && c2 - r2 == k
  {
    var line := MajorLine(b, k);
    if exists r1, c1, r2, c2 :: (r1 != r2 || c1 != c2) &&
         Occupied(b, r1, c1) && Occupied(b, r2, c2) && c1 - r1 == k && c2 - r2 == k {
      var r1, c1, r2, c2 :| (r1 != r2 || c1 != c2) &&
         Occupied(b, r1, c1) && Occupied(b, r2, c2) && c1 - r1 == k && c2 - r2 == k;
      if r1 < r2 {
        assert line[r1] == 1 && line[r2] == 1;
      } else {
        assert line[r2] == 1 && line[r1] == 1;
      }
      TwoOnes(line);
    }
    if MajorConflict(b, k) {
      TwoOnes(line);
      var i, j :| 0 <= i < j < |line| && line[i] == 1 && line[j] == 1;
      assert Occupied(b, i, i + k) && Occupied(b, j, j + k);
    }
  }

  /** The minor diagonal with key k has a conflict iff more than one
      occupied cell (r, c) satisfies c + r == k. */
  lemma MinorConflictIff(b: Matrix, k: int)
    requires IsBoard(b)
    ensures MinorConflict(b, k) <==>
            exists r1, c1, r2, c2 :: (r1 != r2 || c1 != c2) &&
              Occupied(b, r1, c1) && Occupied(b, r2, c2) && c1 + r1 == k && c2 + r2 == k
  {
    var line := MinorLine(b, k);
    if exists r1, c1, r2, c2 :: (r1 != r2 || c1 != c2) &&
         Occupied(b, r1, c1) && Occupied(b, r2, c2) && c1 + r1 == k && c2 + r2 == k {
      var r1, c1, r2, c2 :| (r1 != r2 || c1 != c2) &&
         Occupied(b, r1, c1) && Occupied(b, r2, c2) && c1 + r1 == k && c2 + r2 == k;
      if r1 < r2 {
        assert line[r1] == 1 && line[r2] == 1;
      } else {
        assert line[r2] == 1 && line[r1] == 1;
      }
      TwoOnes(line);
    }
    if MinorConflict(b, k) {
      TwoOnes(line);
      var i, j :| 0 <= i < j < |line| && line[i] == 1 && line[j] == 1;
      assert Occupied(b, i, k - i) && Occupied(b, j, k - j);
    }
  }

  /** The minor diagonal with key 0 holds only the cell (0, 0), so it never
      has a conflict: a scan of the minor diagonals may skip it. */
  lemma MinorKeyZeroHasNoConflict(b: Matrix)
    requires IsBoard(b)
    ensures !MinorConflict(b, 0)
  {
    MinorConflictIff(b, 0);
  }

  /** The rook test (some row or column sums above 1) holds iff two
      distinct pieces share a row or a column. */
  lemma RookConflictIff(b: Matrix)
    requires IsBoard(b)
    ensures RookConflict(b) <==> PairConflict(Rook, b)
  {
    if AnyRowConflict(b) {
      var r :| 0 <= r < |b| && RowConflict(b, r);
      RowConflictIff(b, r);
      var c1, c2 :| c1 != c2 && Occupied(b, r, c1) && Occupied(b, r, c2);
      assert Attacks(Rook, r, c1, r, c2);
    } else if AnyColConflict(b) {
      var c :| 0 <= c < |b| && ColConflict(b, c);
      ColConflictIff(b, c);
      var r1, r2 :| r1 != r2 && Occupied(b, r1, c) && Occupied(b, r2, c);
      assert Attacks(Rook, r1, c, r2, c);
    }
    if PairConflict(Rook, b) {
      var r1, c1, r2, c2 :| Occupied(b, r1, c1) && Occupied(b, r2, c2) &&
        (r1 != r2 || c1 != c2) && Attacks(Rook, r1, c1, r2, c2);
      if r1 == r2 {
        RowConflictIff(b, r1);
      } else {
        ColConflictIff(b, c1);
      }
    }
  }

  /** A pair of pieces on one diagonal is a queen conflict. */
  lemma DiagonalConflictIsPair(b: Matrix)
    requires IsBoard(b)
    ensures AnyMajorConflict(b) || AnyMinorConflict(b) ==> PairConflict(Queen, b)
  {
    if AnyMajorConflict(b) {
      var k :| 1 - |b| <= k < |b| && MajorConflict(b, k);
      MajorConflictIff(b, k);
      var r1, c1, r2, c2 :| (r1 != r2 || c1 != c2) &&
        Occupied(b, r1, c1) && Occupied(b, r2, c2) && c1 - r1 == k && c2 - r2 == k;
      assert Attacks(Queen, r1, c1, r2, c2);
    } else if AnyMinorConflict(b) {
      var k :| 0 <= k <= 2 * |b| - 2 && MinorConflict(b, k);
      MinorConflictIff(b, k);
      var r1, c1, r2, c2 :| (r1 != r2 || c1 != c2) &&
        Occupied(b, r1, c1) && Occupied(b, r2, c2) && c1 + r1 == k && c2 + r2 == k;
      assert Attacks(Queen, r1, c1, r2, c2);
    }
  }

  /** A queen conflict that is no rook conflict lies on a diagonal whose
      key is in range. */
  lemma PairConflictOnDiagonal(b: Matrix)
    requires IsBoard(b)
    requires PairConflict(Queen, b) && !PairConflict(Rook, b)
    ensures AnyMajorConflict(b) || AnyMinorConflict(b)
  {
    var r1, c1, r2, c2 :| Occupied(b, r1, c1) && Occupied(b, r2, c2) &&
      (r1 != r2 || c1 != c2) && Attacks(Queen, r1, c1, r2, c2);
    assert !Attacks(Rook, r1, c1, r2, c2);
    if c1 - r1 == c2 - r2 {
      MajorConflictIff(b, c1 - r1);
      assert MajorConflict(b, c1 - r1);
    } else {
      MinorConflictIff(b, c1 + r1);
      assert MinorConflict(b, c1 + r1);
    }
  }

  /** The queen test (the rook test, or some diagonal in its key range
      sums above 1) holds iff two distinct pieces share a row, a column
      or a diagonal. */
  lemma QueenConflictIff(b: Matrix)
    requires IsBoard(b)
    ensures QueenConflict(b) <==> PairConflict(Queen, b)
  {
    RookConflictIff(b);
    DiagonalConflictIsPair(b);
    if PairConflict(Rook, b) {
      var r1, c1, r2, c2 :| Occupied(b, r1, c1) && Occupied(b, r2, c2) &&
        (r1 != r2 || c1 != c2) && Attacks(Rook, r1, c1, r2, c2);
      assert Attacks(Queen, r1, c1, r2, c2);
    } else if PairConflict(Queen, b) {
      PairConflictOnDiagonal(b);
    }
  }

  /** The global test of either kind agrees with the pairwise reference. */
  lemma ConflictIff(kind: Piece, b: Matrix)
    requires IsBoard(b)
    ensures Conflict(kind, b) <==> PairConflict(kind, b)
  {
    match kind
    case Rook => RookConflictIff(b);
    case Queen => QueenConflictIff(b);
  }

  /** The board cells of one toggle: (r, c) flips between 0 and 1. */
  function Toggled(b: Matrix, r: int, c: int): (t: Matrix)
    requires IsBoard(b) && 0 <= r < |b| && 0 <= c < |b|
    ensures |t| == |b| && IsBoard(t)
    ensures t[r][c] == 1 - b[r][c]
    ensures forall r', c' :: 0 <= r' < |b| && 0 <= c' < |b| && (r' != r || c' != c) ==>
              t[r'][c'] == b[r'][c']
  {
    b[r := b[r][c := if b[r][c] == 0 then 1 else 0]]
  }

  /** Toggling the same cell twice restores the board. */
  lemma ToggleTwiceRestores(b: Matrix, r: int, c: int)
    requires IsBoard(b) && 0 <= r < |b| && 0 <= c < |b|
    ensures Toggled(Toggled(b, r, c), r, c) == b
  {
    var t := Toggled(Toggled(b, r, c), r, c);
    assert forall i :: 0 <= i < |b| ==> t[i] == b[i];
  }
}
