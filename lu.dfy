/**
 * `lu_factorization` (Doolittle's method): A = L U with L unit lower
 * triangular and U upper triangular, filled row of U then column of L, one
 * index at a time. It gives up on a non-square table and on a pivot
 * U[i][i] below `Eps` when column i of L still has cells to fill.
 */
module Lu {
  import opened Matrices
  import opened Arithmetic

  /** The n-by-n table of zeros. */
  function Zeros(n: nat): (r: Matrix)
    ensures IsRect(r, n, n) && forall i, j :: 0 <= i < n && 0 <= j < n ==> r[i][j] == 0.0
  {
    seq(n, i => seq(n, j => 0.0))
  }

  /** Cell (r, c) of the product L U. */
  function Prod(l: Matrix, u: Matrix, n: nat, r: nat, c: nat): real
    requires IsRect(l, n, n) && IsRect(u, n, n) && r < n && c < n
  {
    Dot(l[r], Col(u, c), n)
  }

  /** Unit lower triangular: ones on the diagonal, zeros above it. */
  predicate UnitLower(l: Matrix, n: nat) {
    && IsRect(l, n, n)
    && (forall r :: 0 <= r < n ==> l[r][r] == 1.0)
    && (forall r, c :: 0 <= r < c < n ==> l[r][c] == 0.0)
  }

  /** Upper triangular: zeros below the diagonal. */
  predicate Upper(u: Matrix, n: nat) {
    IsRect(u, n, n) && forall r, c :: 0 <= c < r < n ==> u[r][c] == 0.0
  }

  /** L U agrees with `a` on every row before `rows` and every column before `cols`. */
  predicate AgreesOn(a: Matrix, l: Matrix, u: Matrix, n: nat, rows: nat, cols: nat)
    requires IsRect(l, n, n) && IsRect(u, n, n) && IsRect(a, n, n)
  {
    forall r, c :: 0 <= r < n && 0 <= c < n && (r < rows || c < cols) ==> Prod(l, u, n, r, c) == a[r][c]
  }

  /**
   * A Doolittle factorization of `a` as far as pivot `i`: L U agrees with `a`
   * on rows 0..i and on columns before i, which is what the method has
   * computed when it stops at pivot i.
   */
  predicate PartialLu(a: Matrix, l: Matrix, u: Matrix, i: nat) {
    var n := |a|;
    && IsRect(a, n, n) && i < n && UnitLower(l, n) && Upper(u, n)
    && AgreesOn(a, l, u, n, i + 1, i)
  }

  /** A complete Doolittle factorization: L U == a with L unit lower and U upper triangular. */
  predicate Factorizes(a: Matrix, l: Matrix, u: Matrix) {
    var n := |a|;
    && IsRect(a, n, n) && UnitLower(l, n) && Upper(u, n)
    && AgreesOn(a, l, u, n, n, n)
  }

  /** Where `x` is zero the second operand does not matter to `Dot`. */
  lemma {:induction false} DotIgnoresRightWhereLeftZero(x: seq<real>, v: seq<real>, v': seq<real>, n: nat)
    requires n <= |x| && n <= |v| && n <= |v'|
    requires forall k :: 0 <= k < n ==> x[k] == 0.0 || v[k] == v'[k]
    ensures Dot(x, v, n) == Dot(x, v', n)
  {
    if n > 0 {
      DotIgnoresRightWhereLeftZero(x, v, v', n - 1);
    }
  }

  /** Where `v` is zero the first operand does not matter to `Dot`. */
  lemma {:induction false} DotIgnoresLeftWhereRightZero(x: seq<real>, x': seq<real>, v: seq<real>, n: nat)
    requires n <= |x| && n <= |x'| && n <= |v|
    requires forall k :: 0 <= k < n ==> v[k] == 0.0 || x[k] == x'[k]
    ensures Dot(x, v, n) == Dot(x', v, n)
  {
    if n > 0 {
      DotIgnoresLeftWhereRightZero(x, x', v, n - 1);
    }
  }

  /** Zeros of `v` from `m` on add nothing to the sum. */
  lemma {:induction false} DotRightZeroTail(x: seq<real>, v: seq<real>, m: nat, n: nat)
    requires m <= n <= |x| && n <= |v|
    requires forall k :: m <= k < n ==> v[k] == 0.0
    ensures Dot(x, v, n) == Dot(x, v, m)
  {
    if n > m {
      DotRightZeroTail(x, v, m, n - 1);
    }
  }

  /** Choosing `x[c]` as (target - sum before c) / v[c] makes the sum up to c hit the target. */
  lemma SolveForLast(x: seq<real>, y: seq<real>, v: seq<real>, c: nat, target: real, p: real)
    requires c < |x| && c <= |y| && c < |v| && p == v[c] && p != 0.0
    requires forall k :: 0 <= k < c ==> x[k] == y[k]
    requires x[c] * p == target - Dot(y, v, c)
    ensures Dot(x, v, c + 1) == target
  {
    DotPrefix(x, v, y, v, c);
  }

  /** Multiplying the quotient back by the divisor gives the dividend. */
  lemma DivisionUndone(q: real, t: real, p: real)
    requires p != 0.0 && q == t / p
    ensures q * p == t
  {
  }

  /** A vector that is 1 at `r` and 0 after it picks `v[r]` on top of the sum before `r`. */
  lemma DotLastOne(x: seq<real>, v: seq<real>, r: nat, n: nat)
    requires r < n <= |x| && n <= |v| && x[r] == 1.0
    requires forall k :: r < k < n ==> x[k] == 0.0
    ensures Dot(x, v, n) == Dot(x, v, r) + v[r]
  {
    DotZeroTail(x, v, r + 1, n);
  }

  /** With L unit lower triangular, cell (r, c) of L U is the sum over k < r plus U[r][c]. */
  lemma ProdByRow(l: Matrix, u: Matrix, n: nat, r: nat, c: nat)
    requires UnitLower(l, n) && IsRect(u, n, n) && r < n && c < n
    ensures Prod(l, u, n, r, c) == Dot(l[r], Col(u, c), r) + u[r][c]
  {
    DotLastOne(l[r], Col(u, c), r, n);
  }

  /** With U upper triangular, cell (r, c) of L U only involves the terms up to c. */
  lemma ProdByColumn(l: Matrix, u: Matrix, n: nat, r: nat, c: nat)
    requires IsRect(l, n, n) && Upper(u, n) && r < n && c < n
    ensures Prod(l, u, n, r, c) == Dot(l[r], Col(u, c), c + 1)
  {
    var col := Col(u, c);
    assert forall k :: c < k < n ==> col[k] == 0.0;
    DotRightZeroTail(l[r], col, c + 1, n);
  }

  /** The inner `sum_val` loop: the sum of L[r][k] U[k][c] for k < count. */
  method SumProducts(l: Matrix, u: Matrix, n: nat, r: nat, c: nat, count: nat) returns (s: real)
    requires IsRect(l, n, n) && IsRect(u, n, n) && r < n && c < n && count <= n
    ensures s == Dot(l[r], Col(u, c), count)
  {
    s := 0.0;
    var k := 0;
    while k < count
      invariant k <= count && s == Dot(l[r], Col(u, c), k)
    {
      s := s + l[r][k] * u[k][c];
      k := k + 1;
    }
  }

  /** Row i of U: U[i][j] = A[i][j] - sum over k < i of L[i][k] U[k][j], for j from i on. */
  method ComputeURow(a: Matrix, l: Matrix, u: Matrix, n: nat, i: nat) returns (u': Matrix)
    requires IsRect(a, n, n) && IsRect(l, n, n) && IsRect(u, n, n) && i < n
    ensures IsRect(u', n, n)
    ensures forall r :: 0 <= r < n && r != i ==> u'[r] == u[r]
    ensures forall c :: 0 <= c < n ==> u'[i][c] == if c < i then u[i][c] else a[i][c] - Dot(l[i], Col(u, c), i)
  {
    u' := u;
    var j := i;
    while j < n
      invariant i <= j <= n && IsRect(u', n, n)
      invariant forall r :: 0 <= r < n && r != i ==> u'[r] == u[r]
      invariant forall c :: 0 <= c < n ==> u'[i][c] == if i <= c < j then a[i][c] - Dot(l[i], Col(u, c), i) else u[i][c]
    {
      var s := SumProducts(l, u', n, i, j, i);
      DotPrefix(l[i], Col(u', j), l[i], Col(u, j), i);
      u' := u'[i := u'[i][j := a[i][j] - s]];
      j := j + 1;
    }
  }

  /** The new cell L[r][i]: (A[r][i] - sum over k < i of L[r][k] U[k][i]) / U[i][i]. */
  function LEntry(a: Matrix, l: Matrix, u: Matrix, n: nat, i: nat, r: nat): (q: real)
    requires IsRect(a, n, n) && IsRect(l, n, n) && IsRect(u, n, n) && i < r < n && u[i][i] != 0.0
    ensures q * u[i][i] == a[r][i] - Dot(l[r], Col(u, i), i)
  {
    var q := (a[r][i] - Dot(l[r], Col(u, i), i)) / u[i][i];
    DivisionUndone(q, a[r][i] - Dot(l[r], Col(u, i), i), u[i][i]);
    q
  }

  /**
   * Column i of L: `LEntry` for every row below i. The pivot is tested before
   * each division, so the step fails exactly when a row below exists and
   * |U[i][i]| < Eps.
   */
  method ComputeLColumn(a: Matrix, l: Matrix, u: Matrix, n: nat, i: nat) returns (l': Matrix, ok: bool)
    requires IsRect(a, n, n) && IsRect(l, n, n) && IsRect(u, n, n) && i < n
    ensures IsRect(l', n, n)
    ensures ok <==> !(i + 1 < n && Abs(u[i][i]) < Eps)
    ensures !ok ==> l' == l
    ensures forall r :: 0 <= r <= i ==> l'[r] == l[r]
    ensures ok ==> forall r :: i < r < n ==> l'[r] == l[r][i := LEntry(a, l, u, n, i, r)]
  {
    l', ok := l, true;
    var j := i + 1;
    while j < n
      invariant i + 1 <= j <= n && IsRect(l', n, n)
      invariant forall r :: 0 <= r < n && (r <= i || j <= r) ==> l'[r] == l[r]
      invariant j > i + 1 ==> Abs(u[i][i]) >= Eps
      invariant forall r :: i < r < j ==> l'[r] == l[r][i := LEntry(a, l, u, n, i, r)]
    {
      var s := SumProducts(l', u, n, j, i, i);
      if Abs(u[i][i]) < Eps {
        assert l' == l;
        ok := false;
        return;
      }
      assert l'[j] == l[j];
      var v := (a[j][i] - s) / u[i][i];
      assert v == LEntry(a, l, u, n, i, j);
      l' := l'[j := l'[j][i := v]];
      j := j + 1;
    }
  }

  /** Filling row i of U extends the agreement to row i and keeps U upper triangular. */
  lemma RowStep(a: Matrix, l: Matrix, u: Matrix, u': Matrix, n: nat, i: nat)
    requires IsRect(a, n, n) && UnitLower(l, n) && Upper(u, n) && IsRect(u', n, n) && i < n
    requires AgreesOn(a, l, u, n, i, i)
    requires forall r :: 0 <= r < n && r != i ==> u'[r] == u[r]
    requires forall c :: 0 <= c < n ==> u'[i][c] == if c < i then u[i][c] else a[i][c] - Dot(l[i], Col(u, c), i)
    ensures Upper(u', n)
    ensures AgreesOn(a, l, u', n, i + 1, i)
  {
    forall r, c | 0 <= r < n && 0 <= c < n && (r < i + 1 || c < i) ensures Prod(l, u', n, r, c) == a[r][c] {
      RowStepCell(a, l, u, u', n, i, r, c);
    }
  }

  /** One cell of `RowStep`: rows above i and columns left of i keep their products, row i gets the new ones. */
  lemma RowStepCell(a: Matrix, l: Matrix, u: Matrix, u': Matrix, n: nat, i: nat, r: nat, c: nat)
    requires IsRect(a, n, n) && UnitLower(l, n) && IsRect(u, n, n) && IsRect(u', n, n)
    requires i < n && r < n && c < n && (r <= i || c < i)
    requires forall k :: 0 <= k < n && k != i ==> u'[k] == u[k]
    requires c < i ==> u'[i][c] == u[i][c]
    requires i <= c ==> u'[i][c] == a[i][c] - Dot(l[i], Col(u, c), i)
    requires r < i || c < i ==> Prod(l, u, n, r, c) == a[r][c]
    ensures Prod(l, u', n, r, c) == a[r][c]
  {
    if c < i {
      RowStepLeft(l, u, u', n, i, r, c);
    } else if r < i {
      RowStepAbove(l, u, u', n, i, r, c);
    } else {
      RowStepNewRow(a, l, u, u', n, i, c);
    }
  }

  /** Left of column i the new row of U repeats the old one, so the products there stay. */
  lemma RowStepLeft(l: Matrix, u: Matrix, u': Matrix, n: nat, i: nat, r: nat, c: nat)
    requires IsRect(l, n, n) && IsRect(u, n, n) && IsRect(u', n, n) && r < n && c < i < n
    requires forall k :: 0 <= k < n && k != i ==> u'[k] == u[k]
    requires u'[i][c] == u[i][c]
    ensures Prod(l, u', n, r, c) == Prod(l, u, n, r, c)
  {
    var col, col' := Col(u, c), Col(u', c);
    assert col' == col;
  }

  /** A row of L above i is 0 at column i, so changing row i of U leaves its products alone. */
  lemma RowStepAbove(l: Matrix, u: Matrix, u': Matrix, n: nat, i: nat, r: nat, c: nat)
    requires UnitLower(l, n) && IsRect(u, n, n) && IsRect(u', n, n) && r < i < n && c < n
    requires forall k :: 0 <= k < n && k != i ==> u'[k] == u[k]
    ensures Prod(l, u', n, r, c) == Prod(l, u, n, r, c)
  {
    var col, col' := Col(u, c), Col(u', c);
    assert forall k :: 0 <= k < n ==> l[r][k] == 0.0 || col[k] == col'[k] by {
      forall k | 0 <= k < n && k != i ensures col[k] == col'[k] { }
    }
    DotIgnoresRightWhereLeftZero(l[r], col, col', n);
  }

  /** The new row i of U makes row i of L U agree with `a` from column i on. */
  lemma RowStepNewRow(a: Matrix, l: Matrix, u: Matrix, u': Matrix, n: nat, i: nat, c: nat)
    requires IsRect(a, n, n) && UnitLower(l, n) && IsRect(u, n, n) && IsRect(u', n, n) && i <= c < n
    requires forall k :: 0 <= k < n && k != i ==> u'[k] == u[k]
    requires u'[i][c] == a[i][c] - Dot(l[i], Col(u, c), i)
    ensures Prod(l, u', n, i, c) == a[i][c]
  {
    var col, col' := Col(u, c), Col(u', c);
    ProdByRow(l, u', n, i, c);
    DotPrefix(l[i], col', l[i], col, i);
  }

  /** Filling column i of L extends the agreement to column i and keeps L unit lower triangular. */
  lemma ColumnStep(a: Matrix, l: Matrix, l': Matrix, u: Matrix, n: nat, i: nat)
    requires IsRect(a, n, n) && UnitLower(l, n) && Upper(u, n) && IsRect(l', n, n) && i < n
    requires AgreesOn(a, l, u, n, i + 1, i)
    requires i + 1 < n ==> Abs(u[i][i]) >= Eps
    requires forall r :: 0 <= r <= i ==> l'[r] == l[r]
    requires forall r :: i < r < n ==> l'[r] == l[r][i := LEntry(a, l, u, n, i, r)]
    ensures UnitLower(l', n)
    ensures AgreesOn(a, l', u, n, i + 1, i + 1)
  {
    forall r, c | 0 <= r < n && 0 <= c < n && (r < i + 1 || c < i + 1) ensures Prod(l', u, n, r, c) == a[r][c] {
      if r <= i {
        assert l'[r] == l[r];
      } else if c < i {
        ColumnStepLeft(l, l', u, n, i, r, c);
      } else {
        ColumnStepPivot(a, l, l', u, n, i, r);
        ProdByColumn(l', u, n, r, i);
      }
    }
  }

  /** Left of column i a new L cell meets a zero of U, so the product is unchanged. */
  lemma ColumnStepLeft(l: Matrix, l': Matrix, u: Matrix, n: nat, i: nat, r: nat, c: nat)
    requires IsRect(l, n, n) && IsRect(l', n, n) && Upper(u, n) && c < i < r < n
    requires forall k :: 0 <= k < n && k != i ==> l'[r][k] == l[r][k]
    ensures Prod(l', u, n, r, c) == Prod(l, u, n, r, c)
  {
    var col := Col(u, c);
    assert col[i] == 0.0;
    DotIgnoresLeftWhereRightZero(l'[r], l[r], col, n);
  }

  /** The new L cell in column i makes row r of L U agree with `a` there. */
  lemma ColumnStepPivot(a: Matrix, l: Matrix, l': Matrix, u: Matrix, n: nat, i: nat, r: nat)
    requires IsRect(a, n, n) && IsRect(l, n, n) && IsRect(l', n, n) && IsRect(u, n, n) && i < r < n
    requires u[i][i] != 0.0
    requires forall k :: 0 <= k < i ==> l'[r][k] == l[r][k]
    requires l'[r][i] * u[i][i] == a[r][i] - Dot(l[r], Col(u, i), i)
    ensures Dot(l'[r], Col(u, i), i + 1) == a[r][i]
  {
    SolveForLast(l'[r], l[r], Col(u, i), i, a[r][i], u[i][i]);
  }

  /** Complete agreement is exactly `multiply_matrices(L, U) == A`. */
  lemma AgreementIsProduct(a: Matrix, l: Matrix, u: Matrix, n: nat)
    requires IsRect(a, n, n) && IsRect(l, n, n) && IsRect(u, n, n)
    requires AgreesOn(a, l, u, n, n, n)
    ensures IsMatrix(l) && IsMatrix(u) && Multiply(l, u) == Some(a)
  {
    var p := Multiply(l, u).value;
    forall r | 0 <= r < n ensures p[r] == a[r] {
      forall c | 0 <= c < n ensures p[r][c] == a[r][c] {
        assert p[r][c] == Prod(l, u, n, r, c);
      }
    }
    assert p == a;
  }

  /**
   * `lu_factorization`. On success (L, U) is a Doolittle factorization of
   * `a` whose pivots before the last are at least `Eps` in magnitude, and
   * `multiply_matrices(L, U)` gives back `a` exactly. On a square table the
   * failure is justified: the tables reached form a factorization as far as
   * some pivot U[i][i] (i < n - 1) whose magnitude is below `Eps`.
   */
  method LuFactorization(a: Matrix) returns (res: Option<(Matrix, Matrix)>, l: Matrix, u: Matrix)
    requires IsMatrix(a)
    ensures !IsSquare(a) ==> res.None?
    ensures res.Some? ==> res.value == (l, u) && Factorizes(a, l, u)
    ensures res.Some? ==> forall k :: 0 <= k && k + 1 < |a| ==> Abs(u[k][k]) >= Eps
    ensures res.Some? ==> IsMatrix(l) && IsMatrix(u) && Multiply(l, u) == Some(a)
    ensures res.None? && IsSquare(a) ==>
      exists i :: 0 <= i && i + 1 < |a| && PartialLu(a, l, u, i) && Abs(u[i][i]) < Eps
  {
    var n := |a|;
    l, u := Identity(n), Zeros(n);
    if n != Width(a) {
      res := None;
      return;
    }
    var i := 0;
    while i < n
      invariant i <= n
      invariant UnitLower(l, n) && Upper(u, n)
      invariant AgreesOn(a, l, u, n, i, i)
      invariant forall k :: 0 <= k < i && k + 1 < n ==> Abs(u[k][k]) >= Eps
    {
      var u' := ComputeURow(a, l, u, n, i);
      RowStep(a, l, u, u', n, i);
      var l', ok := ComputeLColumn(a, l, u', n, i);
      u := u';
      if !ok {
        res := None;
        assert PartialLu(a, l, u, i);
        return;
      }
      ColumnStep(a, l, l', u, n, i);
      l := l';
      i := i + 1;
    }
    AgreementIsProduct(a, l, u, n);
    res := Some((l, u));
  }
}
