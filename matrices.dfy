/**
 * Shared vocabulary of the matrix calculator's numeric engine: tables of
 * real numbers, their shape, the single tolerance constant and the
 * sums of products that multiplication and the factorizations are built on.
 */
module Matrices {

  datatype Option<+T> = None | Some(value: T)

  /** A matrix is an ordered sequence of rows. */
  type Matrix = seq<seq<real>>

  /** The tolerance used for every near-zero and near-integer decision (1e-10). */
  const Eps: real := 1.0 / 10_000_000_000.0

  function Abs(x: real): real { if x < 0.0 then -x else x }

  /** The column count as the source measures it: the length of the first row, or 0. */
  function Width(m: Matrix): nat { if |m| > 0 then |m[0]| else 0 }

  /** `get_matrix_dimensions`: the pair (rows, cols). */
  function Dimensions(m: Matrix): (d: (nat, nat))
    ensures d.0 == |m|
    ensures IsMatrix(m) ==> forall i :: 0 <= i < |m| ==> |m[i]| == d.1
    ensures |m| == 0 ==> d.1 == 0
  {
    (|m|, Width(m))
  }

  /** Every row has the length of the first one. */
  predicate IsMatrix(m: Matrix) {
    forall i :: 0 <= i < |m| ==> |m[i]| == Width(m)
  }

  /** `m` has exactly `r` rows of `c` cells each. */
  predicate IsRect(m: Matrix, r: nat, c: nat) {
    |m| == r && forall i :: 0 <= i < r ==> |m[i]| == c
  }

  predicate IsSquare(m: Matrix) {
    IsRect(m, |m|, |m|)
  }

  function Identity(n: nat): (r: Matrix)
    ensures IsRect(r, n, n)
    ensures forall i, j :: 0 <= i < n && 0 <= j < n ==> r[i][j] == if i == j then 1.0 else 0.0
  {
    seq(n, i => seq(n, j => if i == j then 1.0 else 0.0))
  }

  /** Column `j` of `m`. */
  function Col(m: Matrix, j: nat): (r: seq<real>)
    requires forall i :: 0 <= i < |m| ==> j < |m[i]|
    ensures |r| == |m| && forall i :: 0 <= i < |m| ==> r[i] == m[i][j]
  {
    seq(|m|, i requires 0 <= i < |m| => m[i][j])
  }

  /** The sum of `u[k] * v[k]` over `k < n`, accumulated from index 0 upwards. */
  function Dot(u: seq<real>, v: seq<real>, n: nat): real
    requires n <= |u| && n <= |v|
  {
    if n == 0 then 0.0 else Dot(u, v, n - 1) + u[n - 1] * v[n - 1]
  }

  /** Only the first `n` cells of each operand matter to `Dot`. */
  lemma {:induction false} DotPrefix(u: seq<real>, v: seq<real>, u': seq<real>, v': seq<real>, n: nat)
    requires n <= |u| && n <= |v| && n <= |u'| && n <= |v'|
    requires forall k :: 0 <= k < n ==> u[k] == u'[k] && v[k] == v'[k]
    ensures Dot(u, v, n) == Dot(u', v', n)
  {
    if n > 0 {
      DotPrefix(u, v, u', v', n - 1);
    }
  }

  /** Products that vanish beyond `m` add nothing to the sum. */
  lemma {:induction false} DotZeroTail(u: seq<real>, v: seq<real>, m: nat, n: nat)
    requires m <= n <= |u| && n <= |v|
    requires forall k :: m <= k < n ==> u[k] * v[k] == 0.0
    ensures Dot(u, v, n) == Dot(u, v, m)
  {
    if n > m {
      DotZeroTail(u, v, m, n - 1);
    }
  }

  /** Against a unit vector, the sum picks out one cell. */
  lemma {:induction false} DotUnit(u: seq<real>, e: seq<real>, j: nat, n: nat)
    requires n <= |u| && n <= |e| && j < n
    requires forall k :: 0 <= k < n ==> e[k] == if k == j then 1.0 else 0.0
    ensures Dot(u, e, n) == u[j]
  {
    if n == j + 1 {
      assert Dot(u, e, j) == 0.0 by {
        forall k | 0 <= k < j ensures u[k] * e[k] == 0.0 { }
        DotZeroTail(u, e, 0, j);
      }
    } else {
      DotUnit(u, e, j, n - 1);
    }
  }
}
