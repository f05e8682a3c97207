/**
 * `determinant` (cofactor expansion along row 0) and `get_minor`.
 */
module Determinant {
  import opened Matrices

  /** Index of the source cell that ends up at position `i` once position `k` is dropped. */
  function Skip(i: nat, k: nat): nat { if i < k then i else i + 1 }

  /** `s` without position `k`; unchanged when `k` is out of range. */
  function RemoveAt<T>(s: seq<T>, k: nat): (r: seq<T>)
    ensures |r| == if k < |s| then |s| - 1 else |s|
    ensures forall i :: 0 <= i < |r| ==> Skip(i, k) < |s| && r[i] == s[Skip(i, k)]
  {
    if k < |s| then s[..k] + s[k + 1..] else s
  }

  /**
   * `get_minor`: the table without row `row` and column `col`. An index out
   * of range removes nothing, as the skipping loops of the source do.
   */
  function GetMinor(m: Matrix, row: nat, col: nat): (r: Matrix)
    requires IsMatrix(m)
    ensures |r| == if row < |m| then |m| - 1 else |m|
    ensures IsRect(r, |r|, if col < Width(m) then Width(m) - 1 else Width(m))
    ensures MinorCells(m, row, col, r)
  {
    var kept := RemoveAt(m, row);
    seq(|kept|, i requires 0 <= i < |kept| => RemoveAt(kept[i][..Width(m)], col))
  }

  /** Every cell of `r` is the cell of `m` it came from once `row` and `col` are skipped. */
  predicate MinorCells(m: Matrix, row: nat, col: nat, r: Matrix)
    requires IsMatrix(m)
  {
    forall i, j :: 0 <= i < |r| && 0 <= j < |r[i]| ==>
      Skip(i, row) < |m| && Skip(j, col) < Width(m) && r[i][j] == m[Skip(i, row)][Skip(j, col)]
  }

  /** +1 for even columns, -1 for odd ones. */
  function Sign(j: nat): real { if j % 2 == 0 then 1.0 else -1.0 }

  /**
   * The determinant as the source computes it: the single cell of a 1x1
   * table, a*d - b*c for a 2x2 table, cofactor expansion along row 0 above
   * that, and 0 for the empty table (the expansion loop runs over no column).
   */
  function Det(m: Matrix): real
    requires IsSquare(m)
    decreases |m|, 1
  {
    if |m| == 0 then 0.0
    else if |m| == 1 then m[0][0]
    else if |m| == 2 then m[0][0] * m[1][1] - m[0][1] * m[1][0]
    else Expand(m, |m|)
  }

  /** The first `j` cofactor terms of row 0, accumulated left to right. */
  function Expand(m: Matrix, j: nat): real
    requires IsSquare(m) && |m| >= 2 && j <= |m|
    decreases |m|, 0, j
  {
    if j == 0 then 0.0
    else
      Expand(m, j - 1) + Cofactor(m, j - 1)
  }

  /** The signed term of column `j`: sign * m[0][j] * det(minor without row 0 and column j). */
  function Cofactor(m: Matrix, j: nat): real
    requires IsSquare(m) && |m| >= 2 && j < |m|
    decreases |m|, 0, 0
  {
    Sign(j) * m[0][j] * Det(GetMinor(m, 0, j))
  }

  /** `determinant`: `None` for a non-square table. */
  function Determinant(m: Matrix): (r: Option<real>)
    requires IsMatrix(m)
    ensures r.None? <==> |m| != Width(m)
    ensures r.Some? && |m| == 1 ==> r.value == m[0][0]
    ensures r.Some? && |m| == 2 ==> r.value == m[0][0] * m[1][1] - m[0][1] * m[1][0]
  {
    if |m| != Width(m) then None else Some(Det(m))
  }

  /** The 2x2 base case agrees with cofactor expansion over 1x1 minors. */
  lemma TwoByTwoIsExpansion(m: Matrix)
    requires IsSquare(m) && |m| == 2
    ensures Expand(m, 2) == Det(m)
  {
    var m0, m1 := GetMinor(m, 0, 0), GetMinor(m, 0, 1);
    assert Det(m0) == m[1][1] && Det(m1) == m[1][0];
    assert Expand(m, 1) == m[0][0] * m[1][1];
  }

  /** From order 2 on the determinant is the cofactor expansion along row 0, the 2x2 formula included. */
  lemma DetIsExpansion(m: Matrix)
    requires IsSquare(m) && |m| >= 2
    ensures Det(m) == Expand(m, |m|)
  {
    if |m| == 2 {
      TwoByTwoIsExpansion(m);
    }
  }

  predicate IsLowerTriangular(m: Matrix)
    requires IsSquare(m)
  {
    forall i, j :: 0 <= i < j < |m| ==> m[i][j] == 0.0
  }

  /** Product of the diagonal cells from `k` on. */
  function DiagonalFrom(m: Matrix, k: nat): real
    requires IsSquare(m) && k <= |m|
    decreases |m| - k
  {
    if k == |m| then 1.0 else m[k][k] * DiagonalFrom(m, k + 1)
  }

  /** The minor at (0, 0) is the table shifted up and left by one. */
  lemma MinorAtOrigin(m: Matrix, mi: Matrix)
    requires IsSquare(m) && |m| >= 1 && IsRect(mi, |m| - 1, |m| - 1) && MinorCells(m, 0, 0, mi)
    ensures IsSquare(mi)
    ensures forall i, j :: 0 <= i < |mi| && 0 <= j < |mi| ==> mi[i][j] == m[i + 1][j + 1]
  {
    forall i, j | 0 <= i < |mi| && 0 <= j < |mi| ensures mi[i][j] == m[i + 1][j + 1] {
      assert mi[i][j] == m[Skip(i, 0)][Skip(j, 0)];
    }
  }

  /** A table whose diagonal is that of `m` shifted by one has the same diagonal product from one position earlier. */
  lemma {:induction false} ShiftedDiagonal(m: Matrix, mi: Matrix, k: nat)
    requires IsSquare(m) && IsSquare(mi) && |mi| + 1 == |m| && 1 <= k <= |m|
    requires forall i :: 0 <= i < |mi| ==> mi[i][i] == m[i + 1][i + 1]
    ensures DiagonalFrom(mi, k - 1) == DiagonalFrom(m, k)
    decreases |m| - k
  {
    if k < |m| {
      ShiftedDiagonal(m, mi, k + 1);
    }
  }

  /** The minor at (0, 0) of a lower-triangular table is lower triangular and keeps the rest of the diagonal. */
  lemma LeadingMinorOfLower(m: Matrix, k: nat)
    requires IsSquare(m) && |m| >= 1 && IsLowerTriangular(m) && 1 <= k <= |m|
    ensures IsSquare(GetMinor(m, 0, 0)) && IsLowerTriangular(GetMinor(m, 0, 0))
    ensures DiagonalFrom(GetMinor(m, 0, 0), k - 1) == DiagonalFrom(m, k)
  {
    var mi := GetMinor(m, 0, 0);
    MinorAtOrigin(m, mi);
    ShiftedDiagonal(m, mi, k);
  }

  /** A zero cell in row 0 contributes nothing to the expansion. */
  lemma ZeroCellCofactor(m: Matrix, j: nat)
    requires IsSquare(m) && |m| >= 2 && j < |m| && m[0][j] == 0.0
    ensures Cofactor(m, j) == 0.0
  {
    var d := Det(GetMinor(m, 0, j));
    assert Sign(j) * 0.0 * d == 0.0;
  }

  /** Cofactor terms of zero cells add up to 0. */
  lemma {:induction false} ExpandZeroPrefix(m: Matrix, j: nat)
    requires IsSquare(m) && |m| >= 2 && j <= |m|
    requires forall k :: 0 <= k < j ==> m[0][k] == 0.0
    ensures Expand(m, j) == 0.0
  {
    if j > 0 {
      ExpandZeroPrefix(m, j - 1);
      ZeroCellCofactor(m, j - 1);
    }
  }

  /** A table whose first row is zero has determinant 0. */
  lemma DetZeroFirstRow(m: Matrix)
    requires IsSquare(m) && |m| >= 1
    requires forall j :: 0 <= j < |m| ==> m[0][j] == 0.0
    ensures Det(m) == 0.0
  {
    if |m| >= 3 {
      ExpandZeroPrefix(m, |m|);
    }
  }

  /** Only the first cofactor term survives when row 0 is zero beyond column 0. */
  lemma {:induction false} ExpandFirstTermOnly(m: Matrix, j: nat)
    requires IsSquare(m) && |m| >= 2 && 1 <= j <= |m|
    requires forall c :: 1 <= c < |m| ==> m[0][c] == 0.0
    ensures Expand(m, j) == m[0][0] * Det(GetMinor(m, 0, 0))
  {
    if j > 1 {
      ExpandFirstTermOnly(m, j - 1);
      ZeroCellCofactor(m, j - 1);
    } else {
      assert Expand(m, 1) == Expand(m, 0) + Cofactor(m, 0);
      assert Sign(0) == 1.0;
    }
  }

  /** The determinant of a non-empty lower-triangular table is the product of its diagonal. */
  lemma {:induction false} DetLowerTriangular(m: Matrix)
    requires IsSquare(m) && |m| >= 1 && IsLowerTriangular(m)
    ensures Det(m) == DiagonalFrom(m, 0)
    decreases |m|
  {
    if |m| == 1 {
      assert DiagonalFrom(m, 1) == 1.0;
    } else if |m| == 2 {
      assert DiagonalFrom(m, 2) == 1.0;
    } else {
      var mi := GetMinor(m, 0, 0);
      ExpandFirstTermOnly(m, |m|);
      LeadingMinorOfLower(m, 1);
      DetLowerTriangular(mi);
    }
  }

  /** The identity of every positive order has determinant 1. */
  lemma DetIdentity(n: nat)
    requires n >= 1
    ensures Det(Identity(n)) == 1.0
  {
    var id := Identity(n);
    DetLowerTriangular(id);
    DiagonalOfIdentity(n, 0);
  }

  lemma {:induction false} DiagonalOfIdentity(n: nat, k: nat)
    requires k <= n
    ensures DiagonalFrom(Identity(n), k) == 1.0
    decreases n - k
  {
    if k < n {
      DiagonalOfIdentity(n, k + 1);
    }
  }
}
