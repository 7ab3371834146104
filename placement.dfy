/** Placements of one piece per row, as the backtracking search builds
    them: p[i] is the column of the piece in row i, for the rows decided so
    far. This module defines the board a placement makes and three
    reference definitions the search is proved against: the number of
    complete placements its depth-first tree reaches (DfsCount), the last
    one it reaches (LastLeaf), and a brute-force count over all n^n
    one-per-row placements (BruteCount). */
module Placement {
  import opened Grid

  datatype Option<T> = None | Some(value: T)

  /** Every chosen column is a column of an n×n board. */
  predicate InRange(n: nat, p: seq<int>) {
    forall i :: 0 <= i < |p| ==> 0 <= p[i] < n
  }

  /** The board with a piece at (i, p[i]) for each decided row i; the
      remaining rows are empty. */
  function BoardOf(n: nat, p: seq<int>): (b: Matrix)
    ensures |b| == n && IsBoard(b)
  {
    seq(n, r => seq(n, c => if 0 <= r < |p| && p[r] == c then 1 else 0))
  }

  /** Two pieces of p attack each other. */
  ghost predicate PlacementAttack(kind: Piece, p: seq<int>) {
    exists i, j :: 0 <= i < j < |p| && Attacks(kind, i, p[i], j, p[j])
  }

  /** A complete placement with no two pieces attacking each other. */
  ghost predicate IsSolution(kind: Piece, n: nat, q: seq<int>) {
    |q| == n && InRange(n, q) && !PlacementAttack(kind, q)
  }

  predicate Distinct(p: seq<int>) {
    forall i, j :: 0 <= i < j < |p| ==> p[i] != p[j]
  }

  function Fact(n: nat): (f: nat)
    ensures f >= 1
  {
    if n == 0 then 1 else n * Fact(n - 1)
  }

  /** While the search is in row |p|, rows 0..|p|-1 of its board hold
      exactly one piece each, at the chosen column, and the rows after
      them are empty. */
  lemma BoardOfShape(n: nat, p: seq<int>)
    requires |p| <= n && InRange(n, p)
    ensures forall r :: 0 <= r < |p| ==> Sum(BoardOf(n, p)[r]) == 1 && BoardOf(n, p)[r][p[r]] == 1
    ensures forall r, c :: |p| <= r < n && 0 <= c < n ==> BoardOf(n, p)[r][c] == 0
  {
    var b := BoardOf(n, p);
    forall r | 0 <= r < |p|
      ensures Sum(b[r]) == 1
    {
      SumOfBits(b[r]);
      assert b[r][p[r]] == 1;
    }
  }

  /** The board of the empty placement is the empty board. */
  lemma BoardOfNothing(n: nat)
    ensures BoardOf(n, []) == EmptyMatrix(n)
  {
    assert forall r :: 0 <= r < n ==> BoardOf(n, [])[r] == EmptyMatrix(n)[r];
  }

  /** Toggling cell (|p|, c) of the board of p places the next piece; the
      second toggle takes it away again. */
  lemma ToggleNextRow(n: nat, p: seq<int>, c: int)
    requires |p| < n && InRange(n, p) && 0 <= c < n
    ensures Toggled(BoardOf(n, p), |p|, c) == BoardOf(n, p + [c])
    ensures Toggled(BoardOf(n, p + [c]), |p|, c) == BoardOf(n, p)
  {
    var b, b' := BoardOf(n, p), BoardOf(n, p + [c]);
    assert forall r :: 0 <= r < n ==> Toggled(b, |p|, c)[r] == b'[r];
    assert forall r :: 0 <= r < n ==> Toggled(b', |p|, c)[r] == b[r];
  }

  /** On the board of a placement, the line-sum conflict test of either
      kind holds iff two of the placed pieces attack each other. */
  lemma BoardOfConflictIff(kind: Piece, n: nat, p: seq<int>)
    requires |p| <= n && InRange(n, p)
    ensures Conflict(kind, BoardOf(n, p)) <==> PlacementAttack(kind, p)
  {
    var b := BoardOf(n, p);
    ConflictIff(kind, b);
    if PairConflict(kind, b) {
      var r1, c1, r2, c2 :| Occupied(b, r1, c1) && Occupied(b, r2, c2) &&
        (r1 != r2 || c1 != c2) && Attacks(kind, r1, c1, r2, c2);
      assert c1 == p[r1] && c2 == p[r2];
      if r1 < r2 {
        assert Attacks(kind, r1, p[r1], r2, p[r2]);
      } else {
        assert Attacks(kind, r2, p[r2], r1, p[r1]);
      }
    }
    if PlacementAttack(kind, p) {
      var i, j :| 0 <= i < j < |p| && Attacks(kind, i, p[i], j, p[j]);
      assert Occupied(b, i, p[i]) && Occupied(b, j, p[j]);
    }
  }

  lemma AttackPersists(kind: Piece, p: seq<int>, c: int)
    requires PlacementAttack(kind, p)
    ensures PlacementAttack(kind, p + [c])
  {
    var i, j :| 0 <= i < j < |p| && Attacks(kind, i, p[i], j, p[j]);
    var q := p + [c];
    assert q[i] == p[i] && q[j] == p[j];
  }

  // ---------------------------------------------------------------------
  // What the search computes below a placement p.

  /** The number of complete placements the search reaches below p: at
      a complete p one; otherwise, for each column c of row |p| in
      ascending order, the ones below p + [c] when the global conflict test
      on the board of p + [c] fails. */
  function DfsCount(kind: Piece, n: nat, p: seq<int>): nat
    requires |p| <= n && InRange(n, p)
    decreases n - |p|, n + 1
  {
    if |p| == n then 1 else DfsColumns(kind, n, p, n)
  }

  /** The same, counting only the columns 0..c-1 of row |p|. */
  function DfsColumns(kind: Piece, n: nat, p: seq<int>, c: nat): nat
    requires |p| < n && InRange(n, p) && c <= n
    decreases n - |p|, c
  {
    if c == 0 then 0
    else
      DfsColumns(kind, n, p, c - 1) +
      (if Conflict(kind, BoardOf(n, p + [c - 1])) then 0 else DfsCount(kind, n, p + [c - 1]))
  }

  /** The last complete placement the search reaches below p, if any. */
  function LastLeaf(kind: Piece, n: nat, p: seq<int>): Option<seq<int>>
    requires |p| <= n && InRange(n, p)
    decreases n - |p|, n + 1
  {
    if |p| == n then Some(p) else LastAmong(kind, n, p, n)
  }

  /** The same, among the columns 0..c-1 of row |p|: the highest column
      below which the search reaches a complete placement decides. */
  function LastAmong(kind: Piece, n: nat, p: seq<int>, c: nat): Option<seq<int>>
    requires |p| < n && InRange(n, p) && c <= n
    decreases n - |p|, c
  {
    if c == 0 then None
    else
      var below :=
        if Conflict(kind, BoardOf(n, p + [c - 1])) then None else LastLeaf(kind, n, p + [c - 1]);
      if below.Some? then below else LastAmong(kind, n, p, c - 1)
  }

  /** The brute-force reference: how many of the complete one-per-row
      placements extending p have no two pieces attacking each other,
      every column of every remaining row tried without pruning. */
  ghost function BruteCount(kind: Piece, n: nat, p: seq<int>): nat
    requires |p| <= n && InRange(n, p)
    decreases n - |p|, n + 1
  {
    if |p| == n then (if PlacementAttack(kind, p) then 0 else 1)
    else BruteColumns(kind, n, p, n)
  }

  ghost function BruteColumns(kind: Piece, n: nat, p: seq<int>, c: nat): nat
    requires |p| < n && InRange(n, p) && c <= n
    decreases n - |p|, c
  {
    if c == 0 then 0 else BruteColumns(kind, n, p, c - 1) + BruteCount(kind, n, p + [c - 1])
  }

  /** A placement with an attack has no attack-free completion. */
  lemma {:induction false} AttackedHasNoSolutions(kind: Piece, n: nat, p: seq<int>)
    requires |p| <= n && InRange(n, p) && PlacementAttack(kind, p)
    ensures BruteCount(kind, n, p) == 0
    decreases n - |p|
  {
    if |p| < n {
      for c := 0 to n
        invariant BruteColumns(kind, n, p, c) == 0
      {
        AttackPersists(kind, p, c);
        AttackedHasNoSolutions(kind, n, p + [c]);
      }
    }
  }

  /** Pruning is sound: the search below an attack-free placement counts
      exactly the attack-free complete placements extending it. */
  lemma {:induction false} DfsCountIsBruteCount(kind: Piece, n: nat, p: seq<int>)
    requires |p| <= n && InRange(n, p) && !PlacementAttack(kind, p)
    ensures DfsCount(kind, n, p) == BruteCount(kind, n, p)
    decreases n - |p|
  {
    if |p| < n {
      for c := 0 to n
        invariant DfsColumns(kind, n, p, c) == BruteColumns(kind, n, p, c)
      {
        BoardOfConflictIff(kind, n, p + [c]);
        if PlacementAttack(kind, p + [c]) {
          AttackedHasNoSolutions(kind, n, p + [c]);
        } else {
          DfsCountIsBruteCount(kind, n, p + [c]);
        }
      }
    }
  }

  /** The search below an attack-free p reaches a complete placement iff
      it counts one, and the last one it reaches extends p and is a
      solution. */
  lemma {:induction false} LastLeafIsSolution(kind: Piece, n: nat, p: seq<int>)
    requires |p| <= n && InRange(n, p) && !PlacementAttack(kind, p)
    ensures LastLeaf(kind, n, p).Some? <==> DfsCount(kind, n, p) > 0
    ensures LastLeaf(kind, n, p).Some? ==>
              IsSolution(kind, n, LastLeaf(kind, n, p).value) &&
              LastLeaf(kind, n, p).value[..|p|] == p
    decreases n - |p|
  {
    if |p| < n {
      for c := 0 to n
        invariant LastAmong(kind, n, p, c).Some? <==> DfsColumns(kind, n, p, c) > 0
        invariant LastAmong(kind, n, p, c).Some? ==>
                    IsSolution(kind, n, LastAmong(kind, n, p, c).value) &&
                    LastAmong(kind, n, p, c).value[..|p|] == p
      {
        BoardOfConflictIff(kind, n, p + [c]);
        if !Conflict(kind, BoardOf(n, p + [c])) {
          LastLeafIsSolution(kind, n, p + [c]);
          var leaf := LastLeaf(kind, n, p + [c]);
          if leaf.Some? {
            assert leaf.value[..|p|] == leaf.value[..|p| + 1][..|p|];
          }
        }
      }
    }
  }

  // ---------------------------------------------------------------------
  // Rooks: the search counts permutations.

  /** Rooks attack iff two of them share a column. */
  lemma RookAttackIsRepeat(p: seq<int>)
    ensures PlacementAttack(Rook, p) <==> !Distinct(p)
  {
    if !Distinct(p) {
      var i, j :| 0 <= i < j < |p| && p[i] == p[j];
      assert Attacks(Rook, i, p[i], j, p[j]);
    }
  }

  /** After rooks on distinct columns, the next rook makes a conflict iff
      its column is already taken. */
  lemma RookConflictIffTaken(n: nat, p: seq<int>, c: int)
    requires |p| < n && InRange(n, p) && Distinct(p) && 0 <= c < n
    ensures Conflict(Rook, BoardOf(n, p + [c])) <==> c in p
  {
    BoardOfConflictIff(Rook, n, p + [c]);
    RookAttackIsRepeat(p + [c]);
    var q := p + [c];
    if c in p {
      var i :| 0 <= i < |p| && p[i] == c;
      assert q[i] == q[|p|];
    }
    if !Distinct(q) {
      var i, j :| 0 <= i < j < |q| && q[i] == q[j];
      assert j == |p| && q[i] == p[i];
    }
  }

  /** The number of columns among 0..c-1 that p leaves free. */
  function Free(p: seq<int>, c: nat): nat {
    if c == 0 then 0 else Free(p, c - 1) + (if c - 1 in p then 0 else 1)
  }

  lemma {:induction false} FreeOfNothing(c: nat)
    ensures Free([], c) == c
  {
    if c > 0 {
      FreeOfNothing(c - 1);
    }
  }

  /** Taking column x (not yet taken) leaves one free column fewer below
      every bound above x. */
  lemma {:induction false} FreeAfterTaking(p: seq<int>, x: int, c: nat)
    requires x !in p
    ensures Free(p + [x], c) + (if 0 <= x < c then 1 else 0) == Free(p, c)
  {
    if c > 0 {
      FreeAfterTaking(p, x, c - 1);
      assert (c - 1 in p + [x]) <==> (c - 1 in p || c - 1 == x);
    }
  }

  /** |p| distinct columns of an n×n board leave n - |p| of them free. */
  lemma {:induction false} FreeColumns(n: nat, p: seq<int>)
    requires |p| <= n && InRange(n, p) && Distinct(p)
    ensures Free(p, n) == n - |p|
  {
    if p == [] {
      FreeOfNothing(n);
    } else {
      var init, x := p[..|p| - 1], p[|p| - 1];
      assert p == init + [x];
      FreeColumns(n, init);
      assert x !in init;
      FreeAfterTaking(init, x, n);
    }
  }

  /** When no column below c is free, every one of them is taken. */
  lemma {:induction false} NoneFreeAllTaken(p: seq<int>, c: nat)
    requires Free(p, c) == 0
    ensures forall d :: 0 <= d < c ==> d in p
  {
    if c > 0 {
      NoneFreeAllTaken(p, c - 1);
    }
  }

  /** Below rooks on distinct columns the search reaches (n - |p|)!
      complete placements: one for each order of the free columns. */
  lemma {:induction false} RookDfsCount(n: nat, p: seq<int>)
    requires |p| <= n && InRange(n, p) && Distinct(p)
    ensures DfsCount(Rook, n, p) == Fact(n - |p|)
    decreases n - |p|
  {
    if |p| < n {
      var rest := Fact(n - |p| - 1);
      for c := 0 to n
        invariant DfsColumns(Rook, n, p, c) == Free(p, c) * rest
      {
        RookConflictIffTaken(n, p, c);
        if c !in p {
          assert Distinct(p + [c]);
          RookDfsCount(n, p + [c]);
          assert (Free(p, c) + 1) * rest == Free(p, c) * rest + rest;
        }
      }
      FreeColumns(n, p);
      assert Fact(n - |p|) == (n - |p|) * rest;
    }
  }

  /** A complete rook solution is a permutation: every column is used. */
  lemma RookSolutionUsesEveryColumn(n: nat, q: seq<int>)
    requires IsSolution(Rook, n, q)
    ensures forall c :: 0 <= c < n ==> c in q
  {
    RookAttackIsRepeat(q);
    FreeColumns(n, q);
    NoneFreeAllTaken(q, n);
  }

  /** The board of a complete rook solution has exactly one piece in every
      row and in every column. */
  lemma RookSolutionBoard(n: nat, q: seq<int>)
    requires IsSolution(Rook, n, q)
    ensures forall r :: 0 <= r < n ==> Sum(BoardOf(n, q)[r]) == 1
    ensures forall c :: 0 <= c < n ==> Sum(Column(BoardOf(n, q), c)) == 1
  {
    var b := BoardOf(n, q);
    BoardOfShape(n, q);
    RookAttackIsRepeat(q);
    RookSolutionUsesEveryColumn(n, q);
    forall c | 0 <= c < n
      ensures Sum(Column(b, c)) == 1
    {
      var col := Column(b, c);
      SumOfBits(col);
      assert c in q;
      var i :| 0 <= i < |q| && q[i] == c;
      assert col[i] == 1;
    }
  }

  // ---------------------------------------------------------------------
  // Queens: the sizes with no solution.

  /** On 2×2 and 3×3 boards every complete placement of queens has an
      attack. */
  lemma NoQueenSolutionOfSize2Or3(q: seq<int>)
    requires |q| == 2 || |q| == 3
    requires InRange(|q|, q)
    ensures PlacementAttack(Queen, q)
  {
    if -1 <= q[0] - q[1] <= 1 {
      assert Attacks(Queen, 0, q[0], 1, q[1]);
    } else if |q| == 3 && -1 <= q[1] - q[2] <= 1 {
      assert Attacks(Queen, 1, q[1], 2, q[2]);
    } else {
      assert q[0] == q[2];
      assert Attacks(Queen, 0, q[0], 2, q[2]);
    }
  }

  /** When every complete extension of p has an attack, none is counted. */
  lemma {:induction false} NoSolutionsCountZero(kind: Piece, n: nat, p: seq<int>)
    requires |p| <= n && InRange(n, p)
    requires forall q :: |q| == n && InRange(n, q) && q[..|p|] == p ==> PlacementAttack(kind, q)
    ensures BruteCount(kind, n, p) == 0
    decreases n - |p|
  {
    if |p| == n {
      assert p[..|p|] == p;
    } else {
      for c := 0 to n
        invariant BruteColumns(kind, n, p, c) == 0
      {
        forall q | |q| == n && InRange(n, q) && q[..|p| + 1] == p + [c]
          ensures PlacementAttack(kind, q)
        {
          assert q[..|p|] == q[..|p| + 1][..|p|];
        }
        NoSolutionsCountZero(kind, n, p + [c]);
      }
    }
  }

  /** No queen solution exists for n = 2 or n = 3. */
  lemma NoQueensOn2Or3(n: nat)
    requires n == 2 || n == 3
    ensures BruteCount(Queen, n, []) == 0
  {
    forall q | |q| == n && InRange(n, q) && q[..0] == []
      ensures PlacementAttack(Queen, q)
    {
      NoQueenSolutionOfSize2Or3(q);
    }
    NoSolutionsCountZero(Queen, n, []);
  }
}
