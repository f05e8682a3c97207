/**
 * `back_substitution`: solves A x = b from the last row up on the output of
 * plain elimination, detecting inconsistent and redundant zero rows.
 */
module BackSubstitution {
  import opened Matrices

  /** Every cell of the row's first `n` is below `Eps` in magnitude (the source's `all(...)` test). */
  predicate ZeroRow(row: seq<real>, n: nat)
    requires n <= |row|
  {
    forall j :: 0 <= j < n ==> Abs(row[j]) < Eps
  }

  /** A zero row with a right-hand side of at least `Eps`: the system has no solution. */
  predicate Inconsistent(row: seq<real>, rhs: real, n: nat)
    requires n <= |row|
  {
    ZeroRow(row, n) && Abs(rhs) >= Eps
  }

  /** `p` is the row's pivot column: the first cell above `Eps` in magnitude. */
  predicate IsPivotOf(row: seq<real>, p: nat, n: nat)
    requires n <= |row|
  {
    p < n && Abs(row[p]) > Eps && forall j :: 0 <= j < p ==> Abs(row[j]) <= Eps
  }

  /** The first column from `j` on (below `n`) whose cell exceeds `Eps` in magnitude, or -1. */
  function PivotColumnFrom(row: seq<real>, j: nat, n: nat): (p: int)
    requires j <= n <= |row|
    ensures p == -1 || (j <= p < n && Abs(row[p]) > Eps)
    decreases n - j
  {
    if j == n then -1 else if Abs(row[j]) > Eps then j else PivotColumnFrom(row, j + 1, n)
  }

  /** The scan for the pivot column, with -1 when no cell exceeds `Eps`. */
  method FindPivotColumn(row: seq<real>, n: nat) returns (p: int)
    requires n <= |row|
    ensures -1 <= p < n && p == PivotColumnFrom(row, 0, n)
    ensures p == -1 <==> forall j :: 0 <= j < n ==> Abs(row[j]) <= Eps
    ensures p >= 0 ==> IsPivotOf(row, p, n)
  {
    p := -1;
    var j := 0;
    while j < n
      invariant j <= n
      invariant forall k :: 0 <= k < j ==> Abs(row[k]) <= Eps
      invariant PivotColumnFrom(row, 0, n) == PivotColumnFrom(row, j, n)
    {
      if Abs(row[j]) > Eps {
        p := j;
        return;
      }
      j := j + 1;
    }
  }

  /** One term of the substitution sum: cells at or below `Eps` are left out. */
  function Term(a: real, v: real): real { if Abs(a) > Eps then a * v else 0.0 }

  /** The sum of `Term(row[j], x[j])` for `lo <= j < hi`, accumulated upwards. */
  function SumAbove(row: seq<real>, x: seq<real>, lo: nat, hi: nat): real
    requires lo <= hi <= |row| && hi <= |x|
    decreases hi - lo
  {
    if hi == lo then 0.0 else SumAbove(row, x, lo, hi - 1) + Term(row[hi - 1], x[hi - 1])
  }

  /** The loop accumulating `sum_val` over the cells right of the pivot. */
  method SumRightOf(row: seq<real>, x: seq<real>, p: nat, n: nat) returns (s: real)
    requires p < n <= |row| && n <= |x|
    ensures s == SumAbove(row, x, p + 1, n)
  {
    s := 0.0;
    var j := p + 1;
    while j < n
      invariant p + 1 <= j <= n
      invariant s == SumAbove(row, x, p + 1, j)
    {
      if Abs(row[j]) > Eps {
        s := s + row[j] * x[j];
      }
      j := j + 1;
    }
  }

  lemma {:induction false} SumSplit(row: seq<real>, x: seq<real>, lo: nat, mid: nat, hi: nat)
    requires lo <= mid <= hi <= |row| && hi <= |x|
    ensures SumAbove(row, x, lo, hi) == SumAbove(row, x, lo, mid) + SumAbove(row, x, mid, hi)
    decreases hi - mid
  {
    if hi > mid {
      SumSplit(row, x, lo, mid, hi - 1);
    }
  }

  lemma {:induction false} SumCongruent(row: seq<real>, x: seq<real>, x': seq<real>, lo: nat, hi: nat)
    requires lo <= hi <= |row| && hi <= |x| && hi <= |x'|
    requires forall j :: lo <= j < hi ==> Term(row[j], x[j]) == Term(row[j], x'[j])
    ensures SumAbove(row, x, lo, hi) == SumAbove(row, x', lo, hi)
    decreases hi - lo
  {
    if hi > lo {
      SumCongruent(row, x, x', lo, hi - 1);
    }
  }

  /** Every cell of the row is 0 or above `Eps` in magnitude, so leaving out small cells drops nothing. */
  predicate Clean(row: seq<real>, n: nat)
    requires n <= |row|
  {
    forall j :: 0 <= j < n ==> row[j] == 0.0 || Abs(row[j]) > Eps
  }

  /** On a clean row the filtered sum is the full row-times-vector sum. */
  lemma {:induction false} SumIsDot(row: seq<real>, x: seq<real>, n: nat)
    requires n <= |row| && n <= |x| && Clean(row, n)
    ensures SumAbove(row, x, 0, n) == Dot(row, x, n)
  {
    if n > 0 {
      SumIsDot(row, x, n - 1);
      assert Term(row[n - 1], x[n - 1]) == row[n - 1] * x[n - 1];
    }
  }

  /**
   * Upper triangular with every diagonal cell above `Eps` and every cell
   * either 0 or above `Eps`: the shape on which back substitution solves A x = b exactly.
   */
  predicate CleanUpperTriangular(a: Matrix, n: nat)
    requires |a| == n && forall i :: 0 <= i < n ==> n <= |a[i]|
  {
    forall i :: 0 <= i < n ==> Clean(a[i], n) && Abs(a[i][i]) > Eps && forall j :: 0 <= j < i ==> a[i][j] == 0.0
  }

  /** The shape back substitution needs: n rows of at least n cells, and at least n right-hand sides. */
  predicate SolvableShape(a: Matrix, b: seq<real>) {
    |a| <= |b| && forall i :: 0 <= i < |a| ==> |a| <= |a[i]|
  }

  /**
   * The vector `x` once back substitution has handled rows `|a| - 1` down to
   * `i`, or None once it has met an inconsistent zero row. A zero row with a
   * small right-hand side, and a row with no cell above `Eps` (one whose
   * largest cell is exactly `Eps`), leave `x` as it is; any other row
   * assigns its pivot entry from the entries already assigned to its right.
   */
  function Substituted(a: Matrix, b: seq<real>, i: nat): (x: Option<seq<real>>)
    requires SolvableShape(a, b) && i <= |a|
    ensures x.Some? ==> |x.value| == |a|
    decreases |a| - i
  {
    var n := |a|;
    if i == n then Some(seq(n, _ => 0.0))
    else
      var x := Substituted(a, b, i + 1);
      if x.None? then None
      else if ZeroRow(a[i], n) then (if Abs(b[i]) >= Eps then None else x)
      else
        var p := PivotColumnFrom(a[i], 0, n);
        if p == -1 then x
        else Some(x.value[p := (b[i] - SumAbove(a[i], x.value, p + 1, n)) / a[i][p]])
  }

  /** Once an inconsistent row is met, the result stays None for every earlier row. */
  lemma {:induction false} FailureStays(a: Matrix, b: seq<real>, i: nat, j: nat)
    requires SolvableShape(a, b) && j <= i <= |a| && Substituted(a, b, i).None?
    ensures Substituted(a, b, j).None?
    decreases i - j
  {
    if j < i {
      FailureStays(a, b, i, j + 1);
    }
  }

  /**
   * The redundant-row case: for A = [[1, 1], [0, 0]] and b = [1, 0] the zero
   * row is skipped and row 0 assigns x[0] = 1, so the result is [1, 0].
   */
  lemma RedundantRowExample()
    ensures SolvableShape([[1.0, 1.0], [0.0, 0.0]], [1.0, 0.0])
    ensures Substituted([[1.0, 1.0], [0.0, 0.0]], [1.0, 0.0], 0) == Some([1.0, 0.0])
  {
    var a, b := [[1.0, 1.0], [0.0, 0.0]], [1.0, 0.0];
    var zero := seq(2, _ => 0.0);
    assert zero == [0.0, 0.0];
    assert Substituted(a, b, 2) == Some(zero);
    assert ZeroRow(a[1], 2);
    assert Substituted(a, b, 1) == Some(zero);
    assert Abs(a[0][0]) == 1.0 && !ZeroRow(a[0], 2);
    assert PivotColumnFrom(a[0], 0, 2) == 0;
    assert SumAbove(a[0], zero, 1, 2) == 0.0;
    assert zero[0 := 1.0] == [1.0, 0.0];
  }

  /**
   * `back_substitution` on an n-row table (each row at least n cells) and
   * a right-hand side of at least n entries.
   */
  method Solve(a: Matrix, b: seq<real>) returns (res: Option<seq<real>>)
    requires SolvableShape(a, b)
    ensures res == Substituted(a, b, 0)
    ensures res.None? <==> exists i :: 0 <= i < |a| && Inconsistent(a[i], b[i], |a|)
    ensures res.Some? ==> |res.value| == |a|
    ensures res.Some? ==> forall p :: 0 <= p < |a| && (forall i :: 0 <= i < |a| ==> !IsPivotOf(a[i], p, |a|)) ==> res.value[p] == 0.0
    ensures res.Some? && CleanUpperTriangular(a, |a|) ==> forall i :: 0 <= i < |a| ==> Dot(a[i], res.value, |a|) == b[i]
  {
    var n := |a|;
    var x := seq(n, _ => 0.0);
    var i := n;
    while i > 0
      invariant SolvedSoFar(a, b, i, x)
    {
      var r := i - 1;
      if ZeroRow(a[r], n) {
        if Abs(b[r]) >= Eps {
          FailureStays(a, b, r, 0);
          return None;
        }
        RowLeavesX(a, b, r, x);
      } else {
        var p := FindPivotColumn(a[r], n);
        if p != -1 {
          var s := SumRightOf(a[r], x, p, n);
          RowAssignsPivot(a, b, r, x, p);
          x := x[p := (b[r] - s) / a[r][p]];
        } else {
          RowLeavesX(a, b, r, x);
        }
      }
      i := r;
    }
    res := Some(x);
    if CleanUpperTriangular(a, n) {
      forall k | 0 <= k < n ensures Dot(a[k], x, n) == b[k] {
        SumIsDot(a[k], x, n);
      }
    }
  }

  /**
   * What back substitution has established once rows `i` to the last are
   * handled: `x` is `Substituted`, none of those rows is inconsistent, an
   * entry no handled row has as pivot is still 0, and on a clean upper
   * triangular table every handled row's equation holds.
   */
  ghost predicate SolvedSoFar(a: Matrix, b: seq<real>, i: nat, x: seq<real>) {
    SolvableShape(a, b) && i <= |a| && |x| == |a| && Substituted(a, b, i) == Some(x) &&
    (forall k :: i <= k < |a| ==> !Inconsistent(a[k], b[k], |a|)) &&
    UnpivotedZero(a, i, x) && CleanSolved(a, b, i, x)
  }

  /** On a clean upper triangular table, rows `i` to the last have their equations satisfied by `x`. */
  ghost predicate CleanSolved(a: Matrix, b: seq<real>, i: nat, x: seq<real>)
    requires SolvableShape(a, b) && i <= |a| && |x| == |a|
  {
    CleanUpperTriangular(a, |a|) ==> forall k :: i <= k < |a| ==> SumAbove(a[k], x, 0, |a|) == b[k]
  }

  /** A row with no cell above `Eps` cannot occur in a clean upper triangular table. */
  lemma CleanSolvedStays(a: Matrix, b: seq<real>, r: nat, x: seq<real>)
    requires SolvableShape(a, b) && r < |a| && |x| == |a| && CleanSolved(a, b, r + 1, x)
    requires Abs(a[r][r]) <= Eps
    ensures CleanSolved(a, b, r, x)
  {
    CleanDiagonal(a, r);
  }

  /** On a clean upper triangular table the pivot of row `r` is `r`, and assigning `x[r]` solves that row and keeps the later ones solved. */
  lemma CleanSolvedAssign(a: Matrix, b: seq<real>, r: nat, x: seq<real>, p: nat)
    requires SolvableShape(a, b) && r < |a| && |x| == |a| && CleanSolved(a, b, r + 1, x)
    requires IsPivotOf(a[r], p, |a|)
    ensures CleanSolved(a, b, r, x[p := (b[r] - SumAbove(a[r], x, p + 1, |a|)) / a[r][p]])
  {
    var n := |a|;
    CleanPivot(a, r, p);
    if CleanUpperTriangular(a, n) {
      var s := SumAbove(a[r], x, p + 1, n);
      var v := (b[r] - s) / a[r][p];
      forall k | r < k < n ensures SumAbove(a[k], x[p := v], 0, n) == b[k] {
        UnaffectedRow(a[k], x, p, v, n);
      }
      PivotRowSolved(a[r], x, p, n, b[r], s);
    }
  }

  /**
   * On a clean upper triangular table the pivot of row `r` is its diagonal
   * cell, the row is zero left of it, and the rows below are zero in its column.
   */
  lemma CleanPivot(a: Matrix, r: nat, p: nat)
    requires r < |a| && (forall k :: 0 <= k < |a| ==> |a| <= |a[k]|) && IsPivotOf(a[r], p, |a|)
    ensures CleanUpperTriangular(a, |a|) ==>
      p == r && (forall j :: 0 <= j < r ==> a[r][j] == 0.0) && forall k :: r < k < |a| ==> a[k][r] == 0.0
  {
    CleanDiagonal(a, r);
  }

  /** Every entry of `x` that is the pivot of none of rows `i` to the last is 0. */
  ghost predicate UnpivotedZero(a: Matrix, i: nat, x: seq<real>)
    requires i <= |a| && |x| == |a| && forall k :: 0 <= k < |a| ==> |a| <= |a[k]|
  {
    forall p :: 0 <= p < |a| && (forall k :: i <= k < |a| ==> !IsPivotOf(a[k], p, |a|)) ==> x[p] == 0.0
  }

  /** A row that assigns nothing keeps the unpivoted entries 0. */
  lemma UnpivotedStays(a: Matrix, r: nat, x: seq<real>)
    requires r < |a| && |x| == |a| && forall k :: 0 <= k < |a| ==> |a| <= |a[k]|
    requires UnpivotedZero(a, r + 1, x)
    ensures UnpivotedZero(a, r, x)
  {
    forall p | 0 <= p < |a| && (forall k :: r <= k < |a| ==> !IsPivotOf(a[k], p, |a|)) ensures x[p] == 0.0 {
      assert forall k :: r + 1 <= k < |a| ==> !IsPivotOf(a[k], p, |a|);
    }
  }

  /** A row that assigns its own pivot entry keeps the unpivoted entries 0. */
  lemma UnpivotedAssign(a: Matrix, r: nat, x: seq<real>, p: nat, v: real)
    requires r < |a| && |x| == |a| && forall k :: 0 <= k < |a| ==> |a| <= |a[k]|
    requires UnpivotedZero(a, r + 1, x) && IsPivotOf(a[r], p, |a|)
    ensures UnpivotedZero(a, r, x[p := v])
  {
    var x' := x[p := v];
    forall q | 0 <= q < |a| && (forall k :: r <= k < |a| ==> !IsPivotOf(a[k], q, |a|)) ensures x'[q] == 0.0 {
      assert q != p;
      assert forall k :: r + 1 <= k < |a| ==> !IsPivotOf(a[k], q, |a|);
    }
  }

  /** On a clean upper triangular table every row has its diagonal cell as pivot. */
  lemma CleanDiagonal(a: Matrix, r: nat)
    requires r < |a| && forall k :: 0 <= k < |a| ==> |a| <= |a[k]|
    ensures CleanUpperTriangular(a, |a|) ==> Abs(a[r][r]) > Eps
  {
  }

  /** A consistent zero row, or a row with no cell above `Eps`, leaves `x` as it is. */
  lemma RowLeavesX(a: Matrix, b: seq<real>, r: nat, x: seq<real>)
    requires SolvedSoFar(a, b, r + 1, x) && Abs(a[r][r]) <= Eps
    requires ZeroRow(a[r], |a|) ==> Abs(b[r]) < Eps
    requires !ZeroRow(a[r], |a|) ==> PivotColumnFrom(a[r], 0, |a|) == -1
    ensures SolvedSoFar(a, b, r, x)
  {
    SubstitutedSkips(a, b, r, x);
    UnpivotedStays(a, r, x);
    CleanSolvedStays(a, b, r, x);
  }

  /** A row that is zero and consistent, or has no pivot, leaves the back substitution's result alone. */
  lemma SubstitutedSkips(a: Matrix, b: seq<real>, r: nat, x: seq<real>)
    requires SolvableShape(a, b) && r < |a| && Substituted(a, b, r + 1) == Some(x)
    requires ZeroRow(a[r], |a|) ==> Abs(b[r]) < Eps
    requires !ZeroRow(a[r], |a|) ==> PivotColumnFrom(a[r], 0, |a|) == -1
    ensures Substituted(a, b, r) == Some(x) && !Inconsistent(a[r], b[r], |a|)
  { }

  /** A row with pivot column `p` assigns `x[p]` from the entries to its right. */
  lemma RowAssignsPivot(a: Matrix, b: seq<real>, r: nat, x: seq<real>, p: int)
    requires SolvedSoFar(a, b, r + 1, x) && !ZeroRow(a[r], |a|)
    requires p == PivotColumnFrom(a[r], 0, |a|) && p >= 0 && IsPivotOf(a[r], p, |a|)
    ensures SolvedSoFar(a, b, r, x[p := (b[r] - SumAbove(a[r], x, p + 1, |a|)) / a[r][p]])
  {
    var n := |a|;
    var s := SumAbove(a[r], x, p + 1, n);
    var v := (b[r] - s) / a[r][p];
    assert Substituted(a, b, r) == Some(x[p := v]);
    UnpivotedAssign(a, r, x, p, v);
    CleanSolvedAssign(a, b, r, x, p);
  }

  /** A row of zeros contributes nothing to the sum. */
  lemma {:induction false} ZeroSum(row: seq<real>, x: seq<real>, lo: nat, hi: nat)
    requires lo <= hi <= |row| && hi <= |x|
    requires forall j :: lo <= j < hi ==> row[j] == 0.0
    ensures SumAbove(row, x, lo, hi) == 0.0
    decreases hi - lo
  {
    if hi > lo {
      ZeroSum(row, x, lo, hi - 1);
    }
  }

  /** Setting `x[r]` leaves the sum of a row that is zero at column `r` unchanged. */
  lemma UnaffectedRow(row: seq<real>, x: seq<real>, r: nat, v: real, n: nat)
    requires n <= |row| && |x| == n && r < n && row[r] == 0.0
    ensures SumAbove(row, x[r := v], 0, n) == SumAbove(row, x, 0, n)
  {
    SumCongruent(row, x, x[r := v], 0, n);
  }

  /** Setting `x[r]` to (rhs - s) / row[r] solves a row that is zero left of its pivot `r`. */
  lemma PivotRowSolved(row: seq<real>, x: seq<real>, r: nat, n: nat, rhs: real, s: real)
    requires n <= |row| && |x| == n && r < n && Abs(row[r]) > Eps
    requires forall j :: 0 <= j < r ==> row[j] == 0.0
    requires s == SumAbove(row, x, r + 1, n)
    ensures SumAbove(row, x[r := (rhs - s) / row[r]], 0, n) == rhs
  {
    var v := (rhs - s) / row[r];
    var x' := x[r := v];
    SumSplit(row, x', 0, r, n);
    SumSplit(row, x', r, r + 1, n);
    SumCongruent(row, x, x', r + 1, n);
    ZeroSum(row, x', 0, r);
    assert SumAbove(row, x', r, r + 1) == row[r] * v;
  }
}
