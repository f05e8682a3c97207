/**
 * Element-wise addition and subtraction and the matrix product
 * (`add_matrices`, `subtract_matrices`, `multiply_matrices`). Each builds a
 * fresh table; a shape mismatch yields `None` and no table.
 */
module Arithmetic {
  import opened Matrices

  /** `add_matrices`: defined exactly when both shapes agree. */
  function Add(a: Matrix, b: Matrix): (r: Option<Matrix>)
    requires IsMatrix(a) && IsMatrix(b)
    ensures r.None? <==> Dimensions(a) != Dimensions(b)
    ensures r.Some? ==> IsRect(r.value, |a|, Width(a))
    ensures r.Some? ==> forall i, j :: 0 <= i < |a| && 0 <= j < Width(a) ==> r.value[i][j] == a[i][j] + b[i][j]
  {
    if Dimensions(a) != Dimensions(b) then None
    else Some(seq(|a|, i requires 0 <= i < |a| => seq(Width(a), j requires 0 <= j < Width(a) => a[i][j] + b[i][j])))
  }

  /** `subtract_matrices`: defined exactly when both shapes agree. */
  function Subtract(a: Matrix, b: Matrix): (r: Option<Matrix>)
    requires IsMatrix(a) && IsMatrix(b)
    ensures r.None? <==> Dimensions(a) != Dimensions(b)
    ensures r.Some? ==> IsRect(r.value, |a|, Width(a))
    ensures r.Some? ==> forall i, j :: 0 <= i < |a| && 0 <= j < Width(a) ==> r.value[i][j] == a[i][j] - b[i][j]
  {
    if Dimensions(a) != Dimensions(b) then None
    else Some(seq(|a|, i requires 0 <= i < |a| => seq(Width(a), j requires 0 <= j < Width(a) => a[i][j] - b[i][j])))
  }

  /**
   * `multiply_matrices`: defined exactly when the column count of `a` equals
   * the row count of `b`; cell (i, j) is the sum over k of a[i][k] * b[k][j].
   */
  function Multiply(a: Matrix, b: Matrix): (r: Option<Matrix>)
    requires IsMatrix(a) && IsMatrix(b)
    ensures r.None? <==> Width(a) != |b|
    ensures r.Some? ==> IsRect(r.value, |a|, Width(b))
    ensures r.Some? ==> forall i, j :: 0 <= i < |a| && 0 <= j < Width(b) ==> r.value[i][j] == Dot(a[i], Col(b, j), |b|)
  {
    if Width(a) != |b| then None
    else Some(seq(|a|, i requires 0 <= i < |a| => seq(Width(b), j requires 0 <= j < Width(b) => Dot(a[i], Col(b, j), |b|))))
  }

  /** Subtracting what was added gives back the first operand. */
  lemma SubtractUndoesAdd(a: Matrix, b: Matrix)
    requires IsMatrix(a) && IsMatrix(b) && Dimensions(a) == Dimensions(b)
    ensures Add(a, b).Some? && IsMatrix(Add(a, b).value)
    ensures Subtract(Add(a, b).value, b) == Some(a)
  {
    var s := Add(a, b).value;
    assert Dimensions(s) == Dimensions(a) by {
      if |a| > 0 { assert |s[0]| == Width(a); }
    }
    var d := Subtract(s, b).value;
    assert |d| == |a|;
    forall i | 0 <= i < |a| ensures d[i] == a[i] {
      assert |d[i]| == |a[i]|;
    }
    assert d == a;
  }

  /** Addition commutes, cell by cell. */
  lemma AddCommutes(a: Matrix, b: Matrix)
    requires IsMatrix(a) && IsMatrix(b)
    ensures Add(a, b).Some? <==> Add(b, a).Some?
    ensures Add(a, b).Some? ==> Add(a, b) == Add(b, a)
  {
    if Add(a, b).Some? {
      var s, t := Add(a, b).value, Add(b, a).value;
      forall i | 0 <= i < |a| ensures s[i] == t[i] { }
      assert s == t;
    }
  }

  /** Right identity law: a * I == a for an r-by-k matrix a. */
  lemma MultiplyByIdentity(a: Matrix, k: nat)
    requires IsRect(a, |a|, k) && (|a| > 0 || k == 0)
    ensures Multiply(a, Identity(k)) == Some(a)
  {
    var id := Identity(k);
    assert Width(id) == k;
    var p := Multiply(a, id).value;
    forall i | 0 <= i < |a| ensures p[i] == a[i] {
      forall j | 0 <= j < k ensures p[i][j] == a[i][j] {
        DotUnit(a[i], Col(id, j), j, k);
      }
    }
    assert p == a;
  }

  /** Left identity law: I * b == b for a k-by-c matrix b. */
  lemma IdentityTimes(b: Matrix, c: nat)
    requires IsRect(b, |b|, c) && (|b| > 0 || c == 0)
    ensures Multiply(Identity(|b|), b) == Some(b)
  {
    var k := |b|;
    var id := Identity(k);
    var p := Multiply(id, b).value;
    assert Width(b) == c;
    forall i | 0 <= i < k ensures p[i] == b[i] {
      forall j | 0 <= j < c ensures p[i][j] == b[i][j] {
        var col := Col(b, j);
        DotUnitLeft(id[i], col, i, k);
      }
    }
    assert p == b;
  }

  /** Mirror of `DotUnit` with the unit vector on the left. */
  lemma {:induction false} DotUnitLeft(e: seq<real>, v: seq<real>, j: nat, n: nat)
    requires n <= |e| && n <= |v| && j < n
    requires forall k :: 0 <= k < n ==> e[k] == if k == j then 1.0 else 0.0
    ensures Dot(e, v, n) == v[j]
  {
    if n == j + 1 {
      assert Dot(e, v, j) == 0.0 by {
        forall k | 0 <= k < j ensures e[k] * v[k] == 0.0 { }
        DotZeroTail(e, v, 0, j);
      }
    } else {
      DotUnitLeft(e, v, j, n - 1);
    }
  }
}
