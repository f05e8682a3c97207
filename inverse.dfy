/**
 * `calculate_inverse`: Gauss-Jordan elimination on [A | I] with partial
 * pivoting, the pivot row scaled over all 2n columns and every other row
 * cleared with snapped subtractions. It gives up on a non-square table, on a
 * determinant below `Eps` in magnitude, and on a pivot below `Eps` after the swap.
 */
module Inverse {
  import opened Matrices
  import opened RowOps
  import opened Determinant
  import opened Elimination
  import opened Arithmetic

  /** [A | I]: row i of `a` followed by row i of the identity. */
  function AugmentIdentity(a: Matrix): (r: Matrix)
    requires IsSquare(a)
    ensures IsRect(r, |a|, 2 * |a|)
    ensures forall i, j :: 0 <= i < |a| && 0 <= j < 2 * |a| ==>
      r[i][j] == if j < |a| then a[i][j] else if j - |a| == i then 1.0 else 0.0
  {
    var id := Identity(|a|);
    seq(|a|, i requires 0 <= i < |a| => a[i] + id[i])
  }

  /** The right half of an n-by-2n table: columns n to 2n - 1. */
  function RightHalf(m: Matrix, n: nat): (r: Matrix)
    requires IsRect(m, |m|, 2 * n)
    ensures IsRect(r, |m|, n)
    ensures forall i, j :: 0 <= i < |m| && 0 <= j < n ==> r[i][j] == m[i][n + j]
  {
    seq(|m|, i requires 0 <= i < |m| => m[i][n..2 * n])
  }

  /** The left half of an n-by-2n table: columns 0 to n - 1. */
  function LeftHalf(m: Matrix, n: nat): (r: Matrix)
    requires IsRect(m, |m|, 2 * n)
    ensures IsRect(r, |m|, n)
    ensures forall i, j :: 0 <= i < |m| && 0 <= j < n ==> r[i][j] == m[i][j]
  {
    seq(|m|, i requires 0 <= i < |m| => m[i][..n])
  }

  /** A step the inverse performs: a swap with a lower row, a scaling of the whole row by a usable pivot, or a snapped subtraction with a factor of at least `Eps`. */
  predicate InverseStep(s: Step, n: nat) {
    match s
    case Swap(i, k) => i < k < n
    case Scale(i, p, from) => i < n && from == 0 && Abs(p) >= Eps
    case SnapSubtract(t, src, f) => t < n && src < n && t != src && Abs(f) >= Eps
    case SubtractRow(_, _, _, _) => false
  }

  /** Column `i` has no cell of magnitude `Eps` or more at or below row `i`: no pivot exists there. */
  predicate SingularColumn(m: Matrix, i: nat)
    requires i < |m| && Elimination.Wide(m, i + 1)
  {
    forall k :: i <= k < |m| ==> Abs(m[k][i]) < Eps
  }

  /**
   * The snapped subtractions that clear column `i` of table `t` in rows
   * before `j`: one for each row other than `i` whose factor (its cell in
   * column `i`) is at least `Eps` in magnitude, in row order.
   */
  function ClearSteps(t: Matrix, i: nat, j: nat): seq<Step>
    requires j <= |t| && Wide(t, i + 1)
  {
    if j == 0 then []
    else ClearSteps(t, i, j - 1) + (if j - 1 != i && Abs(t[j - 1][i]) >= Eps then [SnapSubtract(j - 1, i, t[j - 1][i])] else [])
  }

  /** Each clearing step subtracts row `i` from an earlier row other than `i`, with a factor of at least `Eps`. */
  lemma {:induction false} ClearStepsShape(t: Matrix, i: nat, j: nat)
    requires j <= |t| && Wide(t, i + 1)
    ensures forall s :: s in ClearSteps(t, i, j) ==> s.SnapSubtract? && s.source == i && s.target < j && s.target != i && Abs(s.factor) >= Eps
  {
    if j > 0 {
      ClearStepsShape(t, i, j - 1);
    }
  }

  /**
   * The steps the pivot step at column `i` takes on table `t`, and whether
   * the computation goes on: the swap with the pivot row (when it is not
   * row `i`); then, if the pivot is usable, the scaling of row `i` by it
   * and the clearing of column `i`.
   */
  function PivotSteps(t: Matrix, n: nat, i: nat): (seq<Step>, bool)
    requires IsRect(t, n, 2 * n) && i < n
  {
    var k := PivotRow(t, i, n - 1);
    var swap := if k == i then [] else [Swap(i, k)];
    var t1 := t[i := t[k]][k := t[i]];
    if Abs(t1[i][i]) < Eps then (swap, false)
    else (swap + [Scale(i, t1[i][i], 0)] + ClearSteps(t1, i, n), true)
  }

  /** A pivot step goes on exactly when column `i` has a usable pivot, and takes only steps of the inverse. */
  lemma PivotStepsShape(t: Matrix, n: nat, i: nat)
    requires IsRect(t, n, 2 * n) && i < n
    ensures PivotSteps(t, n, i).1 <==> !SingularColumn(t, i)
    ensures forall s :: s in PivotSteps(t, n, i).0 ==> InverseStep(s, n)
  {
    var k := PivotRow(t, i, n - 1);
    var t1 := t[i := t[k]][k := t[i]];
    assert t1[i][i] == t[k][i];
    ClearStepsShape(t1, i, n);
  }

  /**
   * The run of `calculate_inverse` on the working table `m0` over columns
   * before `i`: the steps of each pivot step in column order, up to and
   * including the first that fails, and whether none failed.
   */
  function InverseTrace(m0: Matrix, n: nat, i: nat): (seq<Step>, bool)
    requires IsRect(m0, n, 2 * n) && i <= n
  {
    if i == 0 then ([], true)
    else
      var (p, ok) := InverseTrace(m0, n, i - 1);
      if !ok then (p, false)
      else
        var b := PivotSteps(Replay(m0, p), n, i - 1);
        (p + b.0, b.1)
  }

  /** A run that has failed takes no further step. */
  lemma {:induction false} FailedRunStops(m0: Matrix, n: nat, i: nat, j: nat)
    requires IsRect(m0, n, 2 * n) && i <= j <= n && !InverseTrace(m0, n, i).1
    ensures InverseTrace(m0, n, j) == InverseTrace(m0, n, i)
    decreases j - i
  {
    if i < j {
      FailedRunStops(m0, n, i, j - 1);
    }
  }

  /** The cell loop of one snapped subtraction: `row[k] := snap(row[k] - factor * pivot[k])` for every k. */
  method SnapSubtractRow(row: seq<real>, pivot: seq<real>, factor: real) returns (r: seq<real>)
    requires |pivot| == |row|
    ensures r == RowSnapMinus(row, pivot, factor)
  {
    r := row;
    var k := 0;
    while k < |row|
      invariant k <= |row| && |r| == |row|
      invariant r[k..] == row[k..]
      invariant forall c :: 0 <= c < k ==> r[c] == RowSnapMinus(row, pivot, factor)[c]
    {
      assert r[k] == row[k];
      var product := factor * pivot[k];
      var result := r[k] - product;
      var nearest := NearestInt(result) as real;
      if Abs(result - nearest) < Eps {
        result := nearest;
      }
      if Abs(result) < Eps {
        result := 0.0;
      }
      assert result == RowSnapMinus(row, pivot, factor)[k] by {
        assert RowMinus(row, pivot, factor, 0)[k] == row[k] - product;
      }
      r := r[k := result];
      k := k + 1;
    }
  }

  /**
   * Table `m` after the clearing steps of the rows before `j`: each such row
   * other than `i` whose factor is at least `Eps` has row `i` times its
   * factor subtracted, snapped.
   */
  function ClearedTable(m: Matrix, n: nat, i: nat, j: nat): (t: Matrix)
    requires IsRect(m, n, 2 * n) && i < n && j <= n
    ensures IsRect(t, n, 2 * n)
  {
    seq(n, row requires 0 <= row < n =>
      if row < j && row != i && Abs(m[row][i]) >= Eps then RowSnapMinus(m[row], m[i], m[row][i]) else m[row])
  }

  /** One more row of `ClearedTable`: row `j` is cleared exactly when its factor is at least `Eps`. */
  lemma ClearedTableNext(m: Matrix, n: nat, i: nat, j: nat)
    requires IsRect(m, n, 2 * n) && i < n && j < n
    ensures j != i && Abs(m[j][i]) >= Eps ==>
      ClearedTable(m, n, i, j + 1) == ClearedTable(m, n, i, j)[j := RowSnapMinus(m[j], m[i], m[j][i])]
    ensures j != i && Abs(m[j][i]) >= Eps ==>
      ClearedTable(m, n, i, j + 1) == ApplyStep(ClearedTable(m, n, i, j), SnapSubtract(j, i, m[j][i]))
    ensures j == i || Abs(m[j][i]) < Eps ==> ClearedTable(m, n, i, j + 1) == ClearedTable(m, n, i, j)
  {
    var t, u := ClearedTable(m, n, i, j), ClearedTable(m, n, i, j + 1);
    if j != i && Abs(m[j][i]) >= Eps {
      var v := t[j := RowSnapMinus(m[j], m[i], m[j][i])];
      assert forall row :: 0 <= row < n ==> u[row] == v[row];
      assert t[j] == m[j] && t[i] == m[i];
    } else {
      assert forall row :: 0 <= row < n ==> u[row] == t[row];
    }
  }

  /** One more row of `ClearSteps`: a step for row `j` exactly when its factor is at least `Eps`. */
  lemma ClearStepsNext(m: Matrix, i: nat, j: nat)
    requires j < |m| && Wide(m, i + 1)
    ensures j != i && Abs(m[j][i]) >= Eps ==> ClearSteps(m, i, j + 1) == ClearSteps(m, i, j) + [SnapSubtract(j, i, m[j][i])]
    ensures j == i || Abs(m[j][i]) < Eps ==> ClearSteps(m, i, j + 1) == ClearSteps(m, i, j)
  {
    assert ClearSteps(m, i, j) + [] == ClearSteps(m, i, j);
  }

  /** Performing the clearing steps of the rows before `j` yields `ClearedTable`. */
  lemma {:induction false} ReplayClearSteps(m: Matrix, n: nat, i: nat, j: nat)
    requires IsRect(m, n, 2 * n) && i < n && j <= n
    ensures Replay(m, ClearSteps(m, i, j)) == ClearedTable(m, n, i, j)
  {
    if j == 0 {
      ClearedTableStart(m, n, i);
    } else {
      ReplayClearSteps(m, n, i, j - 1);
      ReplayClearStepsNext(m, n, i, j - 1);
    }
  }

  /** The inductive step of `ReplayClearSteps`: one more row. */
  lemma ReplayClearStepsNext(m: Matrix, n: nat, i: nat, j: nat)
    requires IsRect(m, n, 2 * n) && i < n && j < n
    requires Replay(m, ClearSteps(m, i, j)) == ClearedTable(m, n, i, j)
    ensures Replay(m, ClearSteps(m, i, j + 1)) == ClearedTable(m, n, i, j + 1)
  {
    ClearStepsNext(m, i, j);
    ClearedTableNext(m, n, i, j);
    if j != i && Abs(m[j][i]) >= Eps {
      ReplayAppend(m, ClearSteps(m, i, j), SnapSubtract(j, i, m[j][i]));
    }
  }

  /** Before any row, `ClearedTable` is the table itself. */
  lemma ClearedTableStart(m: Matrix, n: nat, i: nat)
    requires IsRect(m, n, 2 * n) && i < n
    ensures ClearedTable(m, n, i, 0) == m
  {
    assert forall row :: 0 <= row < n ==> ClearedTable(m, n, i, 0)[row] == m[row];
  }

  /** Subtracting a row with 1 in column `i`, times the row's own entry there, leaves 0 there. */
  lemma SnapSubtractClears(row: seq<real>, pivot: seq<real>, i: nat)
    requires |row| == |pivot| && i < |row| && pivot[i] == 1.0
    ensures RowSnapMinus(row, pivot, row[i])[i] == 0.0
  {
    assert RowMinus(row, pivot, row[i], 0)[i] == row[i] - row[i] * 1.0;
    SnapNearInteger(0.0, 0);
  }

  /**
   * Clears column `i` of every other row whose factor is at least `Eps`
   * against a pivot row already scaled to 1 there; other rows stay as they are.
   */
  method ClearColumnSnapped(m: Matrix, n: nat, i: nat) returns (r: Matrix, steps: seq<Step>)
    requires IsRect(m, n, 2 * n) && i < n && m[i][i] == 1.0
    ensures IsRect(r, n, 2 * n) && r == Replay(m, steps)
    ensures forall s :: s in steps ==> InverseStep(s, n)
    ensures r[i] == m[i]
    ensures forall j :: 0 <= j < n && j != i ==> if Abs(m[j][i]) >= Eps then r[j][i] == 0.0 else r[j] == m[j]
    ensures steps == ClearSteps(m, i, n)
  {
    r, steps := m, [];
    var j := 0;
    while j < n
      invariant j <= n && r == ClearedTable(m, n, i, j) && steps == ClearSteps(m, i, j)
    {
      ClearStepsNext(m, i, j);
      ClearedTableNext(m, n, i, j);
      assert r[j] == m[j] && r[i] == m[i];
      if j != i && Abs(r[j][i]) >= Eps {
        var factor := r[j][i];
        var row := SnapSubtractRow(r[j], r[i], factor);
        r, steps := r[j := row], steps + [SnapSubtract(j, i, factor)];
      }
      j := j + 1;
    }
    ClearedColumn(m, n, i);
  }

  /** What the whole clearing loop achieves, stated of `ClearedTable` and `ClearSteps`. */
  lemma ClearedColumn(m: Matrix, n: nat, i: nat)
    requires IsRect(m, n, 2 * n) && i < n && m[i][i] == 1.0
    ensures ClearedTable(m, n, i, n) == Replay(m, ClearSteps(m, i, n))
    ensures forall s :: s in ClearSteps(m, i, n) ==> InverseStep(s, n)
    ensures ClearedTable(m, n, i, n)[i] == m[i]
    ensures forall j :: 0 <= j < n && j != i ==>
      if Abs(m[j][i]) >= Eps then ClearedTable(m, n, i, n)[j][i] == 0.0 else ClearedTable(m, n, i, n)[j] == m[j]
  {
    ReplayClearSteps(m, n, i, n);
    ClearStepsShape(m, i, n);
    forall j | 0 <= j < n && j != i && Abs(m[j][i]) >= Eps
      ensures ClearedTable(m, n, i, n)[j][i] == 0.0
    {
      SnapSubtractClears(m[j], m[i], i);
    }
  }

  /** [I | I], the working table of the identity. */
  function IdentityPair(n: nat): (r: Matrix)
    ensures IsRect(r, n, 2 * n)
  {
    AugmentIdentity(Identity(n))
  }

  /** Column `i` is already the unit column: 1 on the diagonal, 0 elsewhere. */
  predicate UnitColumn(m: Matrix, i: nat)
    requires i < |m| && Elimination.Wide(m, i + 1)
  {
    m[i][i] == 1.0 && forall j :: 0 <= j < |m| && j != i ==> m[j][i] == 0.0
  }

  /**
   * At a usable pivot: divide the whole pivot row by the pivot, then clear
   * column `i` in the other rows. A column that is already the unit column
   * leaves the table as it is.
   */
  method NormalizeAndClear(m: Matrix, n: nat, i: nat) returns (r: Matrix, steps: seq<Step>)
    requires IsRect(m, n, 2 * n) && i < n && Abs(m[i][i]) >= Eps
    ensures IsRect(r, n, 2 * n) && r == Replay(m, steps)
    ensures forall s :: s in steps ==> InverseStep(s, n)
    ensures r[i][i] == 1.0 && forall j :: 0 <= j < n && j != i ==> Abs(r[j][i]) < Eps
    ensures UnitColumn(m, i) ==> r == m
    ensures steps == [Scale(i, m[i][i], 0)] + ClearSteps(m, i, n)
  {
    var pivot := m[i][i];
    var scaled := DivideRow(m[i], pivot, 0);
    PivotDividedIsOne(m[i], i, 0);
    var r1 := m[i := scaled];
    assert r1 == ApplyStep(m, Scale(i, pivot, 0));
    assert r1 == Replay(m, [Scale(i, pivot, 0)]) by {
      ReplayAppend(m, [], Scale(i, pivot, 0));
    }
    var r2, more := ClearColumnSnapped(r1, n, i);
    ClearStepsOtherRows(m, r1, i, n);
    ReplayConcat(m, [Scale(i, pivot, 0)], more);
    r, steps := r2, [Scale(i, pivot, 0)] + more;
    if UnitColumn(m, i) {
      DivideByOne(m[i]);
      UnitColumnUntouched(m, r1, r2, n, i);
    }
  }

  /** Dividing by 1 changes nothing. */
  lemma DivideByOne(row: seq<real>)
    ensures RowDiv(row, 1.0, 0) == row
  {
    forall c | 0 <= c < |row| ensures RowDiv(row, 1.0, 0)[c] == row[c] {
      assert row[c] / 1.0 == row[c];
    }
  }

  lemma UnitColumnUntouched(m: Matrix, r1: Matrix, r2: Matrix, n: nat, i: nat)
    requires IsRect(m, n, 2 * n) && i < n && UnitColumn(m, i)
    requires r1 == m[i := RowDiv(m[i], 1.0, 0)] && RowDiv(m[i], 1.0, 0) == m[i]
    requires IsRect(r2, n, 2 * n) && r2[i] == r1[i]
    requires forall j :: 0 <= j < n && j != i ==> if Abs(r1[j][i]) >= Eps then r2[j][i] == 0.0 else r2[j] == r1[j]
    ensures r2 == m
  {
    forall j | 0 <= j < n ensures r2[j] == m[j] {
      if j != i {
        assert r1[j][i] == 0.0;
      }
    }
  }

  /**
   * One pivot step of the inverse at row `i`: pick and swap up the pivot
   * row; fail (`ok` false) when the pivot is below `Eps`; otherwise
   * normalise the row and clear the column.
   */
  method InvertPivot(m: Matrix, n: nat, i: nat) returns (r: Matrix, steps: seq<Step>, ok: bool)
    requires IsRect(m, n, 2 * n) && i < n
    ensures IsRect(r, n, 2 * n) && r == Replay(m, steps)
    ensures forall s :: s in steps ==> InverseStep(s, n)
    ensures !ok ==> SingularColumn(r, i)
    ensures ok ==> r[i][i] == 1.0 && forall j :: 0 <= j < n && j != i ==> Abs(r[j][i]) < Eps
    ensures UnitColumn(m, i) ==> ok && r == m
    ensures ok <==> !SingularColumn(m, i)
    ensures (steps, ok) == PivotSteps(m, n, i)
  {
    var maxRow;
    r, steps, maxRow := SwapPivotUp(m, n, i);
    PivotStepsAt(m, n, i, maxRow, r);
    PivotStepsShape(m, n, i);
    if Abs(r[i][i]) < Eps {
      SwapKeepsSingular(m, r, n, i, maxRow);
      ok := false;
      return;
    }
    ok := true;
    var r', more := NormalizeAndClear(r, n, i);
    ReplayConcat(m, steps, more);
    ConcatAssociates(steps, [Scale(i, r[i][i], 0)], ClearSteps(r, i, n));
    r, steps := r', steps + more;
  }

  /** The pivot search and the swap that brings the pivot row up to row `i`. */
  method SwapPivotUp(m: Matrix, n: nat, i: nat) returns (r: Matrix, steps: seq<Step>, k: nat)
    requires IsRect(m, n, 2 * n) && i < n
    ensures k == PivotRow(m, i, n - 1)
    ensures r == m[i := m[k]][k := m[i]] && IsRect(r, n, 2 * n) && r == Replay(m, steps)
    ensures steps == if k == i then [] else [Swap(i, k)]
    ensures UnitColumn(m, i) ==> k == i
  {
    r, steps := m, [];
    k := FindPivotRow(m, i);
    PivotRowUnique(m, i, n - 1, k);
    if UnitColumn(m, i) {
      UnitColumnPivot(m, n, i);
    }
    if k != i {
      ReplayAppend(m, [], Swap(i, k));
      r, steps := SwapRows(m, i, k), [Swap(i, k)];
    }
  }

  /** The pivot row of a unit column is the diagonal row. */
  lemma UnitColumnPivot(m: Matrix, n: nat, i: nat)
    requires IsRect(m, n, 2 * n) && i < n && UnitColumn(m, i)
    ensures PivotRow(m, i, n - 1) == i
  {
    assert Abs(m[i][i]) == 1.0;
    PivotRowUnique(m, i, n - 1, i);
  }

  /** Swapping row `i` with a row below it keeps column `i` singular or not, from row `i` down. */
  lemma SwapKeepsSingular(m: Matrix, r: Matrix, n: nat, i: nat, k: nat)
    requires IsRect(m, n, 2 * n) && i <= k < n && r == m[i := m[k]][k := m[i]]
    ensures IsRect(r, n, 2 * n)
    ensures SingularColumn(r, i) <==> SingularColumn(m, i)
  {
    if SingularColumn(m, i) {
      forall row | i <= row < n ensures Abs(r[row][i]) < Eps {
        assert r[row] == m[row] || r[row] == m[i] || r[row] == m[k];
      }
    }
    if SingularColumn(r, i) {
      forall row | i <= row < n ensures Abs(m[row][i]) < Eps {
        assert m[row] == r[row] || m[row] == r[i] || m[row] == r[k];
      }
    }
  }

  lemma ConcatAssociates(a: seq<Step>, b: seq<Step>, c: seq<Step>)
    ensures a + (b + c) == a + b + c
  {
  }

  /** `PivotSteps` once the pivot row `k` and the table `t1` after the swap are known. */
  lemma PivotStepsAt(t: Matrix, n: nat, i: nat, k: nat, t1: Matrix)
    requires IsRect(t, n, 2 * n) && i < n && k == PivotRow(t, i, n - 1)
    requires t1 == t[i := t[k]][k := t[i]]
    ensures IsRect(t1, n, 2 * n)
    ensures Abs(t1[i][i]) < Eps ==> PivotSteps(t, n, i) == (if k == i then [] else [Swap(i, k)], false)
    ensures Abs(t1[i][i]) >= Eps ==>
      PivotSteps(t, n, i) == ((if k == i then [] else [Swap(i, k)]) + [Scale(i, t1[i][i], 0)] + ClearSteps(t1, i, n), true)
  {
  }

  /** `ClearSteps` reads column `i` of the rows other than `i` only. */
  lemma {:induction false} ClearStepsOtherRows(t: Matrix, t': Matrix, i: nat, j: nat)
    requires j <= |t| && |t'| == |t| && Wide(t, i + 1) && Wide(t', i + 1)
    requires forall r :: 0 <= r < |t| && r != i ==> t'[r][i] == t[r][i]
    ensures ClearSteps(t', i, j) == ClearSteps(t, i, j)
  {
    if j > 0 {
      ClearStepsOtherRows(t, t', i, j - 1);
    }
  }

  /** Every column of [I | I] in the left half is a unit column. */
  lemma IdentityPairColumn(n: nat, i: nat)
    requires i < n
    ensures UnitColumn(IdentityPair(n), i)
  {
  }

  /** The right half of [I | I] is the identity. */
  lemma RightHalfOfIdentityPair(n: nat)
    ensures RightHalf(IdentityPair(n), n) == Identity(n)
  {
    var r := RightHalf(IdentityPair(n), n);
    forall i | 0 <= i < n ensures r[i] == Identity(n)[i] {
      assert forall j :: 0 <= j < n ==> r[i][j] == Identity(n)[i][j];
    }
  }

  /**
   * `calculate_inverse`. On success the table is square with a determinant
   * of magnitude at least `Eps`, and the inverse is the right half of [A | I]
   * after the recorded steps. A failure after the determinant test is
   * justified by a column with no usable pivot in the table reached.
   */
  method CalculateInverse(a: Matrix) returns (res: Option<Matrix>, trace: seq<Step>)
    requires IsMatrix(a)
    ensures res.Some? ==> IsSquare(a) && Abs(Det(a)) >= Eps
    ensures !IsSquare(a) ==> res.None? && trace == []
    ensures IsSquare(a) && Abs(Det(a)) < Eps ==> res.None? && trace == []
    ensures IsSquare(a) ==> forall s :: s in trace ==> InverseStep(s, |a|)
    ensures res.Some? ==> IsSquare(a) && res.value == RightHalf(Replay(AugmentIdentity(a), trace), |a|)
    ensures res.None? && IsSquare(a) && Abs(Det(a)) >= Eps ==>
      exists i :: 0 <= i < |a| && SingularColumn(Replay(AugmentIdentity(a), trace), i)
    ensures a == Identity(|a|) && |a| > 0 ==> res == Some(a)
    ensures IsSquare(a) && Abs(Det(a)) >= Eps ==>
      trace == InverseTrace(AugmentIdentity(a), |a|, |a|).0 && (res.Some? <==> InverseTrace(AugmentIdentity(a), |a|, |a|).1)
    ensures res.Some? && ExactRun(AugmentIdentity(a), trace) ==>
      Multiply(res.value, a) == Some(LeftHalf(Replay(AugmentIdentity(a), trace), |a|))
  {
    var n := |a|;
    res, trace := None, [];
    if n != Width(a) {
      return;
    }
    if a == Identity(n) && n > 0 {
      DetIdentity(n);
    }
    if Abs(Det(a)) < Eps {
      return;
    }
    var m0 := AugmentIdentity(a);
    var m, ok;
    m, trace, ok := PivotLoop(m0, n);
    if ok {
      res := Some(RightHalf(m, n));
    }
    if a == Identity(n) {
      IdentityPairLeft(n);
      RightHalfOfIdentityPair(n);
    }
    if res.Some? && ExactRun(m0, trace) {
      ExactInverseProduct(a, trace);
    }
  }

  /** A worked run: on [[2]] the only step divides row 0 by 2, and the inverse is [[0.5]]. */
  lemma InverseOfTwo()
    ensures IsSquare([[2.0]]) && Det([[2.0]]) == 2.0
    ensures InverseTrace(AugmentIdentity([[2.0]]), 1, 1) == ([Scale(0, 2.0, 0)], true)
    ensures RightHalf(Replay(AugmentIdentity([[2.0]]), [Scale(0, 2.0, 0)]), 1) == [[0.5]]
  {
    var t := AugmentIdentity([[2.0]]);
    assert t[0] == [2.0, 1.0];
    assert t == [[2.0, 1.0]];
    assert PivotRow(t, 0, 0) == 0;
    assert t[0 := t[0]][0 := t[0]] == t;
    assert ClearSteps(t, 0, 1) == [] + [];
    var steps := [Scale(0, 2.0, 0)];
    assert [] + steps + [] == steps && [] + steps == steps;
    assert PivotSteps(t, 1, 0) == (steps, true);
    assert Replay(t, []) == t && InverseTrace(t, 1, 0) == ([], true);
    assert InverseTrace(t, 1, 1) == ([] + steps, true);
    ReplayAppend(t, [], Scale(0, 2.0, 0));
    assert RowDiv(t[0], 2.0, 0) == [1.0, 0.5];
    assert Replay(t, [Scale(0, 2.0, 0)]) == [[1.0, 0.5]];
    assert RightHalf([[1.0, 0.5]], 1)[0] == [0.5];
  }

  /** Every column of the left half is a unit column: the table is [I | X]. */
  predicate LeftIdentity(m: Matrix, n: nat)
    requires IsRect(m, n, 2 * n)
  {
    forall i :: 0 <= i < n ==> UnitColumn(m, i)
  }

  lemma IdentityPairLeft(n: nat)
    ensures LeftIdentity(IdentityPair(n), n)
  {
    forall i | 0 <= i < n ensures UnitColumn(IdentityPair(n), i) {
      IdentityPairColumn(n, i);
    }
  }

  /**
   * The state of `calculate_inverse` after the pivot columns before `i`:
   * table `m` is `m0` after `trace`, the run `InverseTrace` names, with no
   * failure so far.
   */
  ghost predicate RunSoFar(m0: Matrix, n: nat, i: nat, m: Matrix, trace: seq<Step>)
  {
    i <= n && IsRect(m0, n, 2 * n) && IsRect(m, n, 2 * n) && m == Replay(m0, trace) &&
    (forall s :: s in trace ==> InverseStep(s, n)) &&
    (LeftIdentity(m0, n) ==> m == m0) &&
    InverseTrace(m0, n, i) == (trace, true)
  }

  /** One pivot step of the loop, given what `InvertPivot` promises about it. */
  lemma RunAdvances(m0: Matrix, n: nat, i: nat, m: Matrix, trace: seq<Step>,
                    r: Matrix, steps: seq<Step>, ok: bool)
    requires RunSoFar(m0, n, i, m, trace) && i < n
    requires IsRect(r, n, 2 * n) && r == Replay(m, steps)
    requires (steps, ok) == PivotSteps(m, n, i)
    requires forall s :: s in steps ==> InverseStep(s, n)
    requires UnitColumn(m, i) ==> ok && r == m
    ensures ok ==> RunSoFar(m0, n, i + 1, r, trace + steps)
    ensures !ok ==> r == Replay(m0, trace + steps) && (trace + steps, false) == InverseTrace(m0, n, n)
    ensures !ok ==> !LeftIdentity(m0, n) && forall s :: s in trace + steps ==> InverseStep(s, n)
  {
    ReplayConcat(m0, trace, steps);
    TraceNext(m0, n, i);
    if LeftIdentity(m0, n) {
      assert UnitColumn(m0, i);
    }
    if !ok {
      FailedRunStops(m0, n, i + 1, n);
    }
  }

  /** A run without failure before column `i` goes on with the pivot step at `i`. */
  lemma TraceNext(m0: Matrix, n: nat, i: nat)
    requires IsRect(m0, n, 2 * n) && i < n
    ensures var (trace, ok) := InverseTrace(m0, n, i);
      var b := PivotSteps(Replay(m0, trace), n, i);
      ok ==> InverseTrace(m0, n, i + 1) == (trace + b.0, b.1)
  {
  }

  /**
   * The loop of `calculate_inverse` over the pivot columns, on the working
   * table [A | I]: it performs the run `InverseTrace` names and stops at the
   * first column without a usable pivot.
   */
  method PivotLoop(m0: Matrix, n: nat) returns (m: Matrix, trace: seq<Step>, ok: bool)
    requires IsRect(m0, n, 2 * n)
    ensures IsRect(m, n, 2 * n) && m == Replay(m0, trace)
    ensures (trace, ok) == InverseTrace(m0, n, n)
    ensures forall s :: s in trace ==> InverseStep(s, n)
    ensures !ok ==> exists i :: 0 <= i < n && SingularColumn(m, i)
    ensures LeftIdentity(m0, n) ==> ok && m == m0
  {
    m, trace, ok := m0, [], true;
    var i := 0;
    while i < n
      invariant RunSoFar(m0, n, i, m, trace) && ok
    {
      var r, steps;
      r, steps, ok := InvertPivot(m, n, i);
      RunAdvances(m0, n, i, m, trace, r, steps, ok);
      m, trace := r, trace + steps;
      if !ok {
        return;
      }
      i := i + 1;
    }
  }

  /** After a run of exact steps from [A | I], the right half times A is the left half. */
  lemma ExactInverseProduct(a: Matrix, trace: seq<Step>)
    requires IsSquare(a) && ExactRun(AugmentIdentity(a), trace)
    ensures IsMatrix(RightHalf(Replay(AugmentIdentity(a), trace), |a|))
    ensures Multiply(RightHalf(Replay(AugmentIdentity(a), trace), |a|), a) == Some(LeftHalf(Replay(AugmentIdentity(a), trace), |a|))
  {
    AugmentIdentityProduct(a);
    ExactRunKeepsProduct(AugmentIdentity(a), a, |a|, trace);
    ProductIsMultiply(Replay(AugmentIdentity(a), trace), a, |a|);
  }

  /**
   * A step whose arithmetic is exact: a swap, a scaling or subtraction over
   * the whole row, or a snapped subtraction whose snapping changes no cell.
   */
  predicate ExactStep(t: Matrix, s: Step) {
    match s
    case Swap(_, _) => true
    case Scale(_, _, from) => from == 0
    case SubtractRow(_, _, _, from) => from == 0
    case SnapSubtract(tg, src, f) =>
      tg < |t| && src < |t| && |t[tg]| == |t[src]| ==> RowSnapMinus(t[tg], t[src], f) == RowMinus(t[tg], t[src], f, 0)
  }

  /** Every step of the trace is exact on the table it is applied to. */
  predicate ExactRun(m: Matrix, steps: seq<Step>)
    decreases |steps|
  {
    steps == [] || (ExactRun(m, steps[..|steps| - 1]) && ExactStep(Replay(m, steps[..|steps| - 1]), steps[|steps| - 1]))
  }

  /** The left half of the row is its right half times `a`. */
  predicate RowProduct(row: seq<real>, a: Matrix, n: nat)
    requires |row| == 2 * n && IsRect(a, n, n)
  {
    forall c :: 0 <= c < n ==> row[c] == Dot(row[n..], Col(a, c), n)
  }

  /** Every row of the n-by-2n table is a `RowProduct`: the left half is the right half times `a`. */
  predicate TableProduct(t: Matrix, a: Matrix, n: nat)
    requires IsRect(a, n, n)
  {
    IsRect(t, n, 2 * n) && forall r :: 0 <= r < n ==> RowProduct(t[r], a, n)
  }

  /** Dividing one operand cell by cell divides the sum of products. */
  lemma {:induction false} DotScaled(u: seq<real>, u': seq<real>, v: seq<real>, p: real, k: nat)
    requires k <= |u| && k <= |u'| && k <= |v| && p != 0.0
    requires forall j :: 0 <= j < k ==> u'[j] == u[j] / p
    ensures Dot(u', v, k) == Dot(u, v, k) / p
  {
    if k > 0 {
      DotScaled(u, u', v, p, k - 1);
      var x, y := Dot(u, v, k - 1), u[k - 1] * v[k - 1];
      assert u'[k - 1] * v[k - 1] == y / p;
      assert x / p + y / p == (x + y) / p;
    }
  }

  /** The sum of products is linear in its first operand. */
  lemma {:induction false} DotCombination(u: seq<real>, w: seq<real>, u': seq<real>, v: seq<real>, f: real, k: nat)
    requires k <= |u| && k <= |w| && k <= |u'| && k <= |v|
    requires forall j :: 0 <= j < k ==> u'[j] == u[j] - f * w[j]
    ensures Dot(u', v, k) == Dot(u, v, k) - f * Dot(w, v, k)
  {
    if k > 0 {
      DotCombination(u, w, u', v, f, k - 1);
      assert u'[k - 1] * v[k - 1] == u[k - 1] * v[k - 1] - f * (w[k - 1] * v[k - 1]);
    }
  }

  /** Dividing a whole row keeps it a `RowProduct`. */
  lemma ScaledRowProduct(row: seq<real>, a: Matrix, n: nat, p: real)
    requires |row| == 2 * n && IsRect(a, n, n) && p != 0.0 && RowProduct(row, a, n)
    ensures RowProduct(RowDiv(row, p, 0), a, n)
  {
    var row' := RowDiv(row, p, 0);
    forall c | 0 <= c < n ensures row'[c] == Dot(row'[n..], Col(a, c), n) {
      DotScaled(row[n..], row'[n..], Col(a, c), p, n);
    }
  }

  /** Subtracting a multiple of one `RowProduct` from another over the whole row gives a `RowProduct`. */
  lemma CombinedRowProduct(x: seq<real>, y: seq<real>, a: Matrix, n: nat, f: real)
    requires |x| == 2 * n && |y| == 2 * n && IsRect(a, n, n) && RowProduct(x, a, n) && RowProduct(y, a, n)
    ensures RowProduct(RowMinus(x, y, f, 0), a, n)
  {
    var x' := RowMinus(x, y, f, 0);
    forall c | 0 <= c < n ensures x'[c] == Dot(x'[n..], Col(a, c), n) {
      DotCombination(x[n..], y[n..], x'[n..], Col(a, c), f, n);
    }
  }

  /** An exact step keeps the left half equal to the right half times `a`. */
  lemma StepKeepsProduct(t: Matrix, a: Matrix, n: nat, s: Step)
    requires IsRect(a, n, n) && TableProduct(t, a, n) && ExactStep(t, s)
    ensures TableProduct(ApplyStep(t, s), a, n)
  {
    var t' := ApplyStep(t, s);
    match s
    case Swap(i, k) => {
      forall r | 0 <= r < n ensures RowProduct(t'[r], a, n) {
        assert t'[r] == t[r] || t'[r] == t[i] || t'[r] == t[k];
      }
    }
    case Scale(i, p, _) => {
      if i < n && p != 0.0 {
        ScaledRowProduct(t[i], a, n, p);
      }
    }
    case SubtractRow(tg, src, f, _) => {
      if tg < n && src < n {
        CombinedRowProduct(t[tg], t[src], a, n, f);
      }
    }
    case SnapSubtract(tg, src, f) => {
      if tg < n && src < n {
        CombinedRowProduct(t[tg], t[src], a, n, f);
      }
    }
  }

  /** A trace of exact steps keeps the left half equal to the right half times `a`. */
  lemma {:induction false} ExactRunKeepsProduct(t: Matrix, a: Matrix, n: nat, steps: seq<Step>)
    requires IsRect(a, n, n) && TableProduct(t, a, n) && ExactRun(t, steps)
    ensures TableProduct(Replay(t, steps), a, n)
    decreases |steps|
  {
    if steps != [] {
      var init := steps[..|steps| - 1];
      ExactRunKeepsProduct(t, a, n, init);
      StepKeepsProduct(Replay(t, init), a, n, steps[|steps| - 1]);
    }
  }

  /** [A | I] starts with left half A = I times A. */
  lemma AugmentIdentityProduct(a: Matrix)
    requires IsSquare(a)
    ensures TableProduct(AugmentIdentity(a), a, |a|)
  {
    var n, t := |a|, AugmentIdentity(a);
    forall r, c | 0 <= r < n && 0 <= c < n ensures t[r][c] == Dot(t[r][n..], Col(a, c), n) {
      DotUnitLeft(t[r][n..], Col(a, c), r, n);
    }
  }

  /** When the left half is the right half times `a`, multiplying the right half by `a` gives the left half. */
  lemma ProductIsMultiply(t: Matrix, a: Matrix, n: nat)
    requires IsRect(a, n, n) && TableProduct(t, a, n)
    ensures IsMatrix(RightHalf(t, n))
    ensures Multiply(RightHalf(t, n), a) == Some(LeftHalf(t, n))
  {
    var right, left := RightHalf(t, n), LeftHalf(t, n);
    var p := Multiply(right, a);
    assert p.Some?;
    forall i | 0 <= i < n ensures p.value[i] == left[i] {
      assert right[i] == t[i][n..];
      forall j | 0 <= j < n ensures p.value[i][j] == left[i][j] {
        assert p.value[i][j] == Dot(right[i], Col(a, j), n);
      }
    }
    assert p.value == left;
  }
}
