/**
 * Forward elimination with partial pivoting (`gaussian_elimination`) and
 * its reduced variant (`gauss_jordan_elimination`). Both work on a private
 * copy of the table (optionally augmented with a right-hand side), record
 * each elementary row operation they perform, and never fail: a pivot below
 * `Eps` only skips its column.
 */
module Elimination {
  import opened Matrices
  import opened RowOps

  /** Every row of `m` has at least `p` cells. */
  predicate Wide(m: Matrix, p: nat) {
    forall r :: 0 <= r < |m| ==> p <= |m[r]|
  }

  /**
   * The pivot search shared by the eliminations and the inverse: the first
   * row at or below `i` whose cell in column `i` has the largest magnitude
   * (a later row replaces the candidate only when strictly larger).
   */
  method FindPivotRow(m: Matrix, i: nat) returns (maxRow: nat)
    requires i < |m| && Wide(m, i + 1)
    ensures i <= maxRow < |m|
    ensures forall r :: i <= r < |m| ==> Abs(m[r][i]) <= Abs(m[maxRow][i])
    ensures forall r :: i <= r < maxRow ==> Abs(m[r][i]) < Abs(m[maxRow][i])
  {
    maxRow := i;
    var k := i + 1;
    while k < |m|
      invariant i < k <= |m| && i <= maxRow < k
      invariant forall r :: i <= r < k ==> Abs(m[r][i]) <= Abs(m[maxRow][i])
      invariant forall r :: i <= r < maxRow ==> Abs(m[r][i]) < Abs(m[maxRow][i])
    {
      if Abs(m[k][i]) > Abs(m[maxRow][i]) {
        maxRow := k;
      }
      k := k + 1;
    }
  }

  /**
   * The pivot row among rows `i` to `k` of column `i`: the first one of
   * largest magnitude there.
   */
  function PivotRow(m: Matrix, i: nat, k: nat): (p: nat)
    requires i <= k < |m| && Wide(m, i + 1)
    ensures i <= p <= k
    ensures forall r :: i <= r <= k ==> Abs(m[r][i]) <= Abs(m[p][i])
    ensures forall r :: i <= r < p ==> Abs(m[r][i]) < Abs(m[p][i])
    decreases k
  {
    if k == i then i
    else
      var best := PivotRow(m, i, k - 1);
      if Abs(m[k][i]) > Abs(m[best][i]) then k else best
  }

  /** The two properties of `PivotRow` determine it: no other row has both. */
  lemma PivotRowUnique(m: Matrix, i: nat, k: nat, q: nat)
    requires i <= k < |m| && Wide(m, i + 1) && i <= q <= k
    requires forall r :: i <= r <= k ==> Abs(m[r][i]) <= Abs(m[q][i])
    requires forall r :: i <= r < q ==> Abs(m[r][i]) < Abs(m[q][i])
    ensures q == PivotRow(m, i, k)
  {
  }

  /** The cell loop `row[k] -= factor * pivot[k]` for k from `from` on. */
  method SubtractScaled(row: seq<real>, pivot: seq<real>, factor: real, from: nat) returns (r: seq<real>)
    requires |pivot| == |row|
    ensures r == RowMinus(row, pivot, factor, from)
  {
    r := row;
    var k := from;
    while k < |row|
      invariant |r| == |row|
      invariant forall c :: 0 <= c < |row| ==> r[c] == if from <= c < k then row[c] - factor * pivot[c] else row[c]
    {
      r := r[k := r[k] - factor * pivot[k]];
      k := k + 1;
    }
    assert forall c :: 0 <= c < |row| ==> r[c] == RowMinus(row, pivot, factor, from)[c];
  }

  /** The cell loop `row[k] /= p` for k from `from` on. */
  method DivideRow(row: seq<real>, p: real, from: nat) returns (r: seq<real>)
    requires p != 0.0
    ensures r == RowDiv(row, p, from)
  {
    r := row;
    var k := from;
    while k < |row|
      invariant |r| == |row|
      invariant forall c :: 0 <= c < |row| ==> r[c] == if from <= c < k then row[c] / p else row[c]
    {
      r := r[k := r[k] / p];
      k := k + 1;
    }
  }

  /** Column `c` after its pivot step of plain elimination: zero below a usable pivot, no larger than the pivot below a skipped one. */
  predicate PivotSettled(m: Matrix, c: nat)
    requires c < |m| && Wide(m, c + 1)
  {
    if Abs(m[c][c]) >= Eps then forall j :: c < j < |m| ==> m[j][c] == 0.0
    else forall j :: c < j < |m| ==> Abs(m[j][c]) <= Abs(m[c][c])
  }

  /** Columns before `p` are settled: echelon form in exact arithmetic, up to skipped pivots. */
  predicate EchelonUpTo(m: Matrix, p: nat)
    requires p <= |m| && Wide(m, p)
  {
    forall c :: 0 <= c < p ==> PivotSettled(m, c)
  }

  /** Column `c` after its pivot step of reduced elimination. */
  predicate PivotReduced(m: Matrix, c: nat)
    requires c < |m| && Wide(m, c + 1)
  {
    || (m[c][c] == 1.0 && forall j :: 0 <= j < |m| && j != c ==> Abs(m[j][c]) < Eps)
    || (Abs(m[c][c]) < Eps && forall j :: c < j < |m| ==> Abs(m[j][c]) <= Abs(m[c][c]))
  }

  predicate ReducedUpTo(m: Matrix, p: nat)
    requires p <= |m| && Wide(m, p)
  {
    forall c :: 0 <= c < p ==> PivotReduced(m, c)
  }

  /** A step plain elimination performs: a swap with a lower row, or a lower row minus a multiple of the pivot row. */
  predicate ForwardStep(s: Step, n: nat) {
    match s
    case Swap(i, k) => i < k < n
    case SubtractRow(t, src, _, from) => src < t < n && from == src
    case _ => false
  }

  /** A step reduced elimination performs: a swap with a lower row, a scaling by a usable pivot, or a subtraction with a factor of at least `Eps`. */
  predicate ReducingStep(s: Step, n: nat) {
    match s
    case Swap(i, k) => i < k < n
    case Scale(i, p, from) => i < n && from == i && Abs(p) >= Eps
    case SubtractRow(t, src, f, from) => t < n && src < n && t != src && from == src && Abs(f) >= Eps
    case _ => false
  }

  /** Row swap of the working table. */
  function SwapRows(m: Matrix, i: nat, k: nat): (r: Matrix)
    requires i < |m| && k < |m|
    ensures r == ApplyStep(m, Swap(i, k))
  {
    m[i := m[k]][k := m[i]]
  }

  /** Swapping two rows at or after `p` keeps the settled columns before `p` settled. */
  lemma SwapKeepsEchelon(m: Matrix, i: nat, k: nat, p: nat)
    requires p <= i < |m| && p <= k < |m| && Wide(m, p)
    requires EchelonUpTo(m, p)
    ensures EchelonUpTo(SwapRows(m, i, k), p)
  {
    var m' := SwapRows(m, i, k);
    forall c | 0 <= c < p ensures PivotSettled(m', c) {
      assert PivotSettled(m, c);
      assert m'[c] == m[c];
      assert forall j :: c < j < |m| ==> m'[j][c] == m[if j == i then k else if j == k then i else j][c];
    }
  }

  lemma SwapKeepsReduced(m: Matrix, i: nat, k: nat, p: nat)
    requires p <= i < |m| && p <= k < |m| && Wide(m, p)
    requires ReducedUpTo(m, p)
    ensures ReducedUpTo(SwapRows(m, i, k), p)
  {
    var m' := SwapRows(m, i, k);
    forall c | 0 <= c < p ensures PivotReduced(m', c) {
      assert PivotReduced(m, c);
      assert m'[c] == m[c];
      assert forall j :: 0 <= j < |m| ==> m'[j][c] == m[if j == i then k else if j == k then i else j][c];
    }
  }

  /** Settledness of the columns before `p` depends only on those columns. */
  lemma LeftColumnsKeepEchelon(m: Matrix, m': Matrix, p: nat)
    requires p <= |m| && |m'| == |m| && Wide(m, p) && Wide(m', p)
    requires forall r, c :: 0 <= r < |m| && 0 <= c < p ==> m'[r][c] == m[r][c]
    requires EchelonUpTo(m, p)
    ensures EchelonUpTo(m', p)
  {
    forall c | 0 <= c < p ensures PivotSettled(m', c) {
      assert PivotSettled(m, c);
    }
  }

  lemma LeftColumnsKeepReduced(m: Matrix, m': Matrix, p: nat)
    requires p <= |m| && |m'| == |m| && Wide(m, p) && Wide(m', p)
    requires forall r, c :: 0 <= r < |m| && 0 <= c < p ==> m'[r][c] == m[r][c]
    requires ReducedUpTo(m, p)
    ensures ReducedUpTo(m', p)
  {
    forall c | 0 <= c < p ensures PivotReduced(m', c) {
      assert PivotReduced(m, c);
    }
  }

  /**
   * The subtractions plain elimination performs below the pivot `i` of table
   * `t`, for rows `i + 1` to `j - 1` in order: row k loses `t[k][i] / t[i][i]`
   * times the pivot row from column `i` on.
   */
  function BelowSteps(t: Matrix, i: nat, j: nat): seq<Step>
    requires i < |t| && j <= |t| && Wide(t, i + 1) && t[i][i] != 0.0
    decreases j
  {
    if j <= i + 1 then []
    else BelowSteps(t, i, j - 1) + [SubtractRow(j - 1, i, t[j - 1][i] / t[i][i], i)]
  }

  /** The swap bringing the pivot row `k` up to row `i`, if it is another row. */
  function PivotSwap(i: nat, k: nat): seq<Step> {
    if k == i then [] else [Swap(i, k)]
  }

  /** Performing the pivot swap is swapping the rows (nothing, when `k` is `i`). */
  lemma ReplayPivotSwap(m: Matrix, i: nat, k: nat)
    requires i < |m| && k < |m|
    ensures Replay(m, PivotSwap(i, k)) == SwapRows(m, i, k)
  {
    if k == i {
      assert SwapRows(m, i, k) == m;
    } else {
      ReplayAppend(m, [], Swap(i, k));
    }
  }

  /**
   * The steps of one pivot step of plain elimination at column `i` of `t`:
   * the swap with `PivotRow` (when it is not row `i`), then, if the pivot is
   * usable, the subtractions below it.
   */
  function ForwardPivotSteps(t: Matrix, i: nat): seq<Step>
    requires i < |t| && Wide(t, i + 1)
  {
    var k := PivotRow(t, i, |t| - 1);
    var t1 := t[i := t[k]][k := t[i]];
    if Abs(t1[i][i]) < Eps then PivotSwap(i, k) else PivotSwap(i, k) + BelowSteps(t1, i, |t|)
  }

  /** The steps of plain elimination over the pivot columns before `i`, each taken on the table the earlier ones produced. */
  function ForwardTrace(m0: Matrix, w: nat, i: nat): seq<Step>
    requires IsRect(m0, |m0|, w) && i <= |m0| <= w
  {
    if i == 0 then []
    else
      var p := ForwardTrace(m0, w, i - 1);
      p + ForwardPivotSteps(Replay(m0, p), i - 1)
  }

  /** The steps of the pivot step at `i`, given its pivot row `k` and the swapped table `t1`. */
  lemma ForwardPivotStepsAt(t: Matrix, i: nat, k: nat, t1: Matrix, steps: seq<Step>)
    requires i < |t| && Wide(t, i + 1) && k == PivotRow(t, i, |t| - 1) && t1 == t[i := t[k]][k := t[i]]
    requires Abs(t1[i][i]) < Eps ==> steps == PivotSwap(i, k)
    requires Abs(t1[i][i]) >= Eps ==> steps == PivotSwap(i, k) + BelowSteps(t1, i, |t|)
    ensures steps == ForwardPivotSteps(t, i)
  {
  }

  /** Plain elimination up to column `i + 1` is the run up to `i` followed by the pivot step at `i`. */
  lemma ForwardTraceNext(m0: Matrix, w: nat, i: nat, trace: seq<Step>, steps: seq<Step>)
    requires IsRect(m0, |m0|, w) && i < |m0| <= w && trace == ForwardTrace(m0, w, i)
    requires steps == ForwardPivotSteps(Replay(m0, trace), i)
    ensures trace + steps == ForwardTrace(m0, w, i + 1)
  {
  }

  /**
   * The subtractions reduced elimination performs in rows before `j` at the
   * pivot `i` of `t`: one for each row other than `i` whose cell in column `i`
   * is at least `Eps`, with that cell as factor (the pivot row, divided by
   * its pivot beforehand, then has 1 there).
   */
  function OtherRowsSteps(t: Matrix, i: nat, j: nat): seq<Step>
    requires j <= |t| && Wide(t, i + 1)
  {
    if j == 0 then []
    else OtherRowsSteps(t, i, j - 1) + (if j - 1 != i && Abs(t[j - 1][i]) >= Eps then [SubtractRow(j - 1, i, t[j - 1][i], i)] else [])
  }

  /** One more row of `OtherRowsSteps`: a subtraction when its cell is at least `Eps`, else nothing. */
  lemma OtherRowsStepsNext(t: Matrix, i: nat, j: nat)
    requires j < |t| && Wide(t, i + 1)
    ensures j != i && Abs(t[j][i]) >= Eps ==> OtherRowsSteps(t, i, j + 1) == OtherRowsSteps(t, i, j) + [SubtractRow(j, i, t[j][i], i)]
    ensures !(j != i && Abs(t[j][i]) >= Eps) ==> OtherRowsSteps(t, i, j + 1) == OtherRowsSteps(t, i, j)
  {
    assert OtherRowsSteps(t, i, j) + [] == OtherRowsSteps(t, i, j);
  }

  /**
   * The steps of one pivot step of reduced elimination at column `i` of `t`:
   * the swap with `PivotRow`, then, if the pivot is usable, the division of
   * row `i` by it and the subtractions in the other rows.
   */
  function ReducePivotSteps(t: Matrix, i: nat): seq<Step>
    requires i < |t| && Wide(t, i + 1)
  {
    var k := PivotRow(t, i, |t| - 1);
    var t1 := t[i := t[k]][k := t[i]];
    if Abs(t1[i][i]) < Eps then PivotSwap(i, k)
    else PivotSwap(i, k) + [Scale(i, t1[i][i], i)] + OtherRowsSteps(t1, i, |t|)
  }

  /** The steps of the pivot step at `i`, given its pivot row `k` and the swapped table `t1`. */
  lemma ReducePivotStepsAt(t: Matrix, i: nat, k: nat, t1: Matrix, steps: seq<Step>)
    requires i < |t| && Wide(t, i + 1) && k == PivotRow(t, i, |t| - 1) && t1 == t[i := t[k]][k := t[i]]
    requires Abs(t1[i][i]) < Eps ==> steps == PivotSwap(i, k)
    requires Abs(t1[i][i]) >= Eps ==> steps == PivotSwap(i, k) + ([Scale(i, t1[i][i], i)] + OtherRowsSteps(t1, i, |t|))
    ensures steps == ReducePivotSteps(t, i)
  {
  }

  /** The steps of reduced elimination over the pivot columns before `i`. */
  function ReduceTrace(m0: Matrix, w: nat, i: nat): seq<Step>
    requires IsRect(m0, |m0|, w) && i <= |m0| <= w
  {
    if i == 0 then []
    else
      var p := ReduceTrace(m0, w, i - 1);
      p + ReducePivotSteps(Replay(m0, p), i - 1)
  }

  /** Reduced elimination up to column `i + 1` is the run up to `i` followed by the pivot step at `i`. */
  lemma ReduceTraceNext(m0: Matrix, w: nat, i: nat, trace: seq<Step>, steps: seq<Step>)
    requires IsRect(m0, |m0|, w) && i < |m0| <= w && trace == ReduceTrace(m0, w, i)
    requires steps == ReducePivotSteps(Replay(m0, trace), i)
    ensures trace + steps == ReduceTrace(m0, w, i + 1)
  {
  }

  /**
   * Inner loop of plain elimination at pivot `i` (the pivot is usable): every
   * lower row j loses `m[j][i] / m[i][i]` times the pivot row from column i on.
   */
  method EliminateBelow(m: Matrix, w: nat, i: nat) returns (r: Matrix, steps: seq<Step>)
    requires IsRect(m, |m|, w) && i < |m| && i < w && Abs(m[i][i]) >= Eps
    ensures IsRect(r, |m|, w) && r == Replay(m, steps) && steps == BelowSteps(m, i, |m|)
    ensures forall s :: s in steps ==> ForwardStep(s, |m|) && s.SubtractRow? && s.source == i
    ensures forall row :: 0 <= row <= i ==> r[row] == m[row]
    ensures forall row, c :: 0 <= row < |m| && 0 <= c < i ==> r[row][c] == m[row][c]
    ensures forall j :: i < j < |m| ==> r[j][i] == 0.0
  {
    r, steps := m, [];
    var j := i + 1;
    while j < |m|
      invariant BelowSoFar(m, w, i, j, r, steps)
    {
      var factor := r[j][i] / r[i][i];
      var row := SubtractScaled(r[j], r[i], factor, i);
      BelowAdvances(m, w, i, j, r, steps);
      r, steps := r[j := row], steps + [SubtractRow(j, i, factor, i)];
      j := j + 1;
    }
  }

  /** What `EliminateBelow` has done once the rows before `j` are handled. */
  ghost predicate BelowSoFar(m: Matrix, w: nat, i: nat, j: nat, r: Matrix, steps: seq<Step>) {
    IsRect(m, |m|, w) && i < |m| && i < w && Abs(m[i][i]) >= Eps && i < j <= |m| &&
    BelowRows(m, w, i, j, r) && BelowRun(m, i, j, r, steps)
  }

  /** The rows of the table: those from `j` on and up to `i` untouched, columns before `i` untouched, column `i` zero in rows `i + 1` to `j - 1`. */
  ghost predicate BelowRows(m: Matrix, w: nat, i: nat, j: nat, r: Matrix)
    requires IsRect(m, |m|, w) && i < |m| && i < w && j <= |m|
  {
    IsRect(r, |m|, w) &&
    (forall row :: 0 <= row <= i || j <= row < |m| ==> r[row] == m[row]) &&
    (forall row, c :: 0 <= row < |m| && 0 <= c < i ==> r[row][c] == m[row][c]) &&
    (forall row :: i < row < j ==> r[row][i] == 0.0)
  }

  /** The steps taken so far and their effect. */
  ghost predicate BelowRun(m: Matrix, i: nat, j: nat, r: Matrix, steps: seq<Step>)
    requires i < |m| && j <= |m| && Wide(m, i + 1) && m[i][i] != 0.0
  {
    r == Replay(m, steps) && steps == BelowSteps(m, i, j) &&
    (forall s :: s in steps ==> ForwardStep(s, |m|) && s.SubtractRow? && s.source == i)
  }

  /** Row `j` loses `r[j][i] / r[i][i]` times the pivot row, which clears its cell in column `i`. */
  lemma BelowAdvances(m: Matrix, w: nat, i: nat, j: nat, r: Matrix, steps: seq<Step>)
    requires BelowSoFar(m, w, i, j, r, steps) && j < |m|
    ensures var f := r[j][i] / r[i][i];
      BelowSoFar(m, w, i, j + 1, r[j := RowMinus(r[j], r[i], f, i)], steps + [SubtractRow(j, i, f, i)])
  {
    assert r[i] == m[i] && r[j] == m[j];
    BelowRowsNext(m, w, i, j, r);
    BelowRunNext(m, w, i, j, r, steps);
  }

  lemma BelowRowsNext(m: Matrix, w: nat, i: nat, j: nat, r: Matrix)
    requires IsRect(m, |m|, w) && i < |m| && i < w && m[i][i] != 0.0 && i < j < |m|
    requires BelowRows(m, w, i, j, r)
    ensures BelowRows(m, w, i, j + 1, r[j := RowMinus(r[j], r[i], r[j][i] / r[i][i], i)])
  {
    assert r[i] == m[i] && r[j] == m[j];
    EliminatedCell(r[j], r[i], i, w);
  }

  lemma BelowRunNext(m: Matrix, w: nat, i: nat, j: nat, r: Matrix, steps: seq<Step>)
    requires IsRect(m, |m|, w) && i < |m| && i < w && m[i][i] != 0.0 && i < j < |m|
    requires IsRect(r, |m|, w) && r[i] == m[i] && r[j] == m[j]
    requires BelowRun(m, i, j, r, steps)
    ensures var f := r[j][i] / r[i][i];
      BelowRun(m, i, j + 1, r[j := RowMinus(r[j], r[i], f, i)], steps + [SubtractRow(j, i, f, i)])
  {
    ReplayAppend(m, steps, SubtractRow(j, i, r[j][i] / r[i][i], i));
  }

  /** Dividing a row by its own cell i (from a column at or before i) puts 1 in column i. */
  lemma PivotDividedIsOne(row: seq<real>, i: nat, from: nat)
    requires i < |row| && from <= i && row[i] != 0.0
    ensures RowDiv(row, row[i], from)[i] == 1.0
  {
  }

  /** Subtracting (row[i] / pivot[i]) times the pivot row leaves 0 in column i. */
  lemma EliminatedCell(row: seq<real>, pivot: seq<real>, i: nat, w: nat)
    requires |row| == w && |pivot| == w && i < w && pivot[i] != 0.0
    ensures RowMinus(row, pivot, row[i] / pivot[i], i)[i] == 0.0
  {
    assert row[i] - (row[i] / pivot[i]) * pivot[i] == 0.0;
  }

  /** After the swap with the pivot row, no cell of column `i` at or below row `i` is larger than the pivot. */
  lemma SwapBringsPivotUp(m: Matrix, i: nat, k: nat)
    requires i <= k < |m| && Wide(m, i + 1)
    requires forall r :: i <= r < |m| ==> Abs(m[r][i]) <= Abs(m[k][i])
    ensures var t := SwapRows(m, i, k);
      forall row :: i <= row < |m| ==> Abs(t[row][i]) <= Abs(t[i][i])
  {
  }

  /** A skipped column (its largest cell below `Eps`) is settled. */
  lemma SkippedColumnSettled(t: Matrix, i: nat)
    requires i < |t| && Wide(t, i + 1) && EchelonUpTo(t, i) && Abs(t[i][i]) < Eps
    requires forall row :: i <= row < |t| ==> Abs(t[row][i]) <= Abs(t[i][i])
    ensures EchelonUpTo(t, i + 1)
  {
    assert PivotSettled(t, i);
  }

  /** Clearing below a usable pivot settles its column and keeps the columns before it. */
  lemma EliminatedColumnSettled(t: Matrix, r: Matrix, w: nat, i: nat)
    requires IsRect(t, |t|, w) && IsRect(r, |t|, w) && i < |t| <= w && EchelonUpTo(t, i)
    requires Abs(t[i][i]) >= Eps && r[i] == t[i]
    requires forall row, c :: 0 <= row < |t| && 0 <= c < i ==> r[row][c] == t[row][c]
    requires forall j :: i < j < |t| ==> r[j][i] == 0.0
    ensures EchelonUpTo(r, i + 1)
  {
    LeftColumnsKeepEchelon(t, r, i);
    assert PivotSettled(r, i);
  }

  /** A skipped column is reduced. */
  lemma SkippedColumnReduced(t: Matrix, i: nat)
    requires i < |t| && Wide(t, i + 1) && ReducedUpTo(t, i) && Abs(t[i][i]) < Eps
    requires forall row :: i <= row < |t| ==> Abs(t[row][i]) <= Abs(t[i][i])
    ensures ReducedUpTo(t, i + 1)
  {
    assert PivotReduced(t, i);
  }

  /** Normalising a usable pivot and clearing its column elsewhere reduces that column and keeps the columns before it. */
  lemma ClearedColumnReduced(t: Matrix, r: Matrix, w: nat, i: nat)
    requires IsRect(t, |t|, w) && IsRect(r, |t|, w) && i < |t| <= w && ReducedUpTo(t, i)
    requires r[i][i] == 1.0
    requires forall row, c :: 0 <= row < |t| && 0 <= c < i ==> r[row][c] == t[row][c]
    requires forall j :: 0 <= j < |t| && j != i ==> if Abs(t[j][i]) >= Eps then r[j][i] == 0.0 else r[j] == t[j]
    ensures ReducedUpTo(r, i + 1)
  {
    LeftColumnsKeepReduced(t, r, i);
    assert forall j :: 0 <= j < |t| && j != i ==> Abs(r[j][i]) < Eps;
    assert PivotReduced(r, i);
  }

  /**
   * One pivot step of `gaussian_elimination` at row `i`: pick the pivot row,
   * swap it up, skip the column when the pivot is below `Eps`, else clear
   * the cells below it.
   */
  method ForwardPivot(m: Matrix, w: nat, i: nat) returns (r: Matrix, steps: seq<Step>)
    requires IsRect(m, |m|, w) && i < |m| <= w && EchelonUpTo(m, i)
    ensures IsRect(r, |m|, w) && r == Replay(m, steps) && steps == ForwardPivotSteps(m, i)
    ensures forall s :: s in steps ==> ForwardStep(s, |m|)
    ensures EchelonUpTo(r, i + 1)
  {
    var maxRow := FindPivotRow(m, i);
    PivotRowUnique(m, i, |m| - 1, maxRow);
    ReplayPivotSwap(m, i, maxRow);
    SwapKeepsEchelon(m, i, maxRow, i);
    var t1 := SwapRows(m, i, maxRow);
    SwapBringsPivotUp(m, i, maxRow);
    r, steps := t1, PivotSwap(i, maxRow);
    if Abs(t1[i][i]) < Eps {
      SkippedColumnSettled(t1, i);
    } else {
      var r', more := EliminateBelow(t1, w, i);
      EliminatedColumnSettled(t1, r', w, i);
      ReplayConcat(m, steps, more);
      r, steps := r', steps + more;
    }
    ForwardPivotStepsAt(m, i, maxRow, t1, steps);
  }

  /** The pivot loop of `gaussian_elimination` on the (possibly augmented) working table. */
  method ForwardEliminate(m: Matrix, w: nat) returns (r: Matrix, trace: seq<Step>)
    requires IsRect(m, |m|, w) && |m| <= w
    ensures IsRect(r, |m|, w) && r == Replay(m, trace)
    ensures forall s :: s in trace ==> ForwardStep(s, |m|)
    ensures EchelonUpTo(r, |m|) && trace == ForwardTrace(m, w, |m|)
  {
    r, trace := m, [];
    var i := 0;
    while i < |m|
      invariant ForwardSoFar(m, w, i, r, trace)
    {
      var r', steps := ForwardPivot(r, w, i);
      ForwardAdvances(m, w, i, r, trace, r', steps);
      r, trace := r', trace + steps;
      i := i + 1;
    }
  }

  /** What the pivot loop of plain elimination has done once the columns before `i` are handled. */
  ghost predicate ForwardSoFar(m0: Matrix, w: nat, i: nat, r: Matrix, trace: seq<Step>) {
    IsRect(m0, |m0|, w) && i <= |m0| <= w && IsRect(r, |m0|, w) && r == Replay(m0, trace) &&
    (forall s :: s in trace ==> ForwardStep(s, |m0|)) && EchelonUpTo(r, i) && trace == ForwardTrace(m0, w, i)
  }

  /** One pivot step of the loop, given what `ForwardPivot` promises about it. */
  lemma ForwardAdvances(m0: Matrix, w: nat, i: nat, r: Matrix, trace: seq<Step>, r': Matrix, steps: seq<Step>)
    requires ForwardSoFar(m0, w, i, r, trace) && i < |m0|
    requires IsRect(r', |m0|, w) && r' == Replay(r, steps) && steps == ForwardPivotSteps(r, i)
    requires (forall s :: s in steps ==> ForwardStep(s, |m0|)) && EchelonUpTo(r', i + 1)
    ensures ForwardSoFar(m0, w, i + 1, r', trace + steps)
  {
    ReplayConcat(m0, trace, steps);
    ForwardTraceNext(m0, w, i, trace, steps);
  }

  /**
   * Inner part of reduced elimination at a usable pivot `i`: divide the pivot
   * row by the pivot from column i on, then clear column i in every other
   * row whose factor is at least `Eps`, leaving the others unchanged.
   */
  method ClearColumn(m: Matrix, w: nat, i: nat) returns (r: Matrix, steps: seq<Step>)
    requires IsRect(m, |m|, w) && i < |m| && i < w && Abs(m[i][i]) >= Eps
    ensures IsRect(r, |m|, w) && r == Replay(m, steps)
    ensures steps == [Scale(i, m[i][i], i)] + OtherRowsSteps(m, i, |m|)
    ensures forall s :: s in steps ==> ReducingStep(s, |m|)
    ensures forall row, c :: 0 <= row < |m| && 0 <= c < i ==> r[row][c] == m[row][c]
    ensures r[i][i] == 1.0
    ensures forall j :: 0 <= j < |m| && j != i ==> if Abs(m[j][i]) >= Eps then r[j][i] == 0.0 else r[j] == m[j]
  {
    var pivot := m[i][i];
    var scaled := DivideRow(m[i], pivot, i);
    ClearStart(m, w, i);
    r, steps := m[i := scaled], [Scale(i, pivot, i)];
    var j := 0;
    while j < |m|
      invariant ClearSoFar(m, w, i, j, r, steps)
    {
      ClearAdvances(m, w, i, j, r, steps);
      if j != i && Abs(r[j][i]) >= Eps {
        var factor := r[j][i];
        var row := SubtractScaled(r[j], r[i], factor, i);
        r, steps := r[j := row], steps + [SubtractRow(j, i, factor, i)];
      }
      j := j + 1;
    }
  }

  /** What `ClearColumn` has done once the rows before `j` are handled. */
  ghost predicate ClearSoFar(m: Matrix, w: nat, i: nat, j: nat, r: Matrix, steps: seq<Step>) {
    IsRect(m, |m|, w) && i < |m| && i < w && Abs(m[i][i]) >= Eps && j <= |m| &&
    ClearRows(m, w, i, j, r) && ClearRun(m, i, j, r, steps)
  }

  /**
   * The rows of the table: the pivot row divided by the pivot, columns
   * before `i` untouched, rows from `j` on untouched, and each earlier row
   * cleared in column `i` or, when its cell there is below `Eps`, untouched.
   */
  ghost predicate ClearRows(m: Matrix, w: nat, i: nat, j: nat, r: Matrix)
    requires IsRect(m, |m|, w) && i < |m| && i < w && m[i][i] != 0.0 && j <= |m|
  {
    IsRect(r, |m|, w) && r[i] == RowDiv(m[i], m[i][i], i) && r[i][i] == 1.0 &&
    (forall row, c :: 0 <= row < |m| && 0 <= c < i ==> r[row][c] == m[row][c]) &&
    (forall row :: j <= row < |m| && row != i ==> r[row] == m[row]) &&
    (forall row :: 0 <= row < j && row != i ==> if Abs(m[row][i]) >= Eps then r[row][i] == 0.0 else r[row] == m[row])
  }

  /** The steps taken so far and their effect. */
  ghost predicate ClearRun(m: Matrix, i: nat, j: nat, r: Matrix, steps: seq<Step>)
    requires i < |m| && j <= |m| && Wide(m, i + 1)
  {
    r == Replay(m, steps) && steps == [Scale(i, m[i][i], i)] + OtherRowsSteps(m, i, j) &&
    (forall s :: s in steps ==> ReducingStep(s, |m|))
  }

  /** Dividing the pivot row by its pivot starts the clearing. */
  lemma ClearStart(m: Matrix, w: nat, i: nat)
    requires IsRect(m, |m|, w) && i < |m| && i < w && Abs(m[i][i]) >= Eps
    ensures ClearSoFar(m, w, i, 0, m[i := RowDiv(m[i], m[i][i], i)], [Scale(i, m[i][i], i)])
  {
    PivotDividedIsOne(m[i], i, i);
    ReplayAppend(m, [], Scale(i, m[i][i], i));
    assert [Scale(i, m[i][i], i)] + OtherRowsSteps(m, i, 0) == [Scale(i, m[i][i], i)];
  }

  /** Row `j` is cleared when it is another row with a cell of at least `Eps` in column `i`, and left alone otherwise. */
  lemma ClearAdvances(m: Matrix, w: nat, i: nat, j: nat, r: Matrix, steps: seq<Step>)
    requires ClearSoFar(m, w, i, j, r, steps) && j < |m|
    ensures var f := r[j][i];
      j != i && Abs(f) >= Eps ==> ClearSoFar(m, w, i, j + 1, r[j := RowMinus(r[j], r[i], f, i)], steps + [SubtractRow(j, i, f, i)])
    ensures !(j != i && Abs(r[j][i]) >= Eps) ==> ClearSoFar(m, w, i, j + 1, r, steps)
  {
    assert j != i ==> r[j] == m[j];
    ClearRowsNext(m, w, i, j, r);
    ClearRunNext(m, w, i, j, r, steps);
  }

  lemma ClearRowsNext(m: Matrix, w: nat, i: nat, j: nat, r: Matrix)
    requires IsRect(m, |m|, w) && i < |m| && i < w && m[i][i] != 0.0 && j < |m|
    requires ClearRows(m, w, i, j, r)
    ensures var f := r[j][i];
      j != i && Abs(f) >= Eps ==> ClearRows(m, w, i, j + 1, r[j := RowMinus(r[j], r[i], f, i)])
    ensures !(j != i && Abs(r[j][i]) >= Eps) ==> ClearRows(m, w, i, j + 1, r)
  {
    var f := r[j][i];
    if j != i && Abs(f) >= Eps {
      assert RowMinus(r[j], r[i], f, i)[i] == f - f * 1.0 == 0.0;
    }
  }

  lemma ClearRunNext(m: Matrix, w: nat, i: nat, j: nat, r: Matrix, steps: seq<Step>)
    requires IsRect(m, |m|, w) && i < |m| && i < w && j < |m|
    requires IsRect(r, |m|, w) && (j != i ==> r[j] == m[j])
    requires ClearRun(m, i, j, r, steps)
    ensures var f := r[j][i];
      j != i && Abs(f) >= Eps ==> ClearRun(m, i, j + 1, r[j := RowMinus(r[j], r[i], f, i)], steps + [SubtractRow(j, i, f, i)])
    ensures !(j != i && Abs(r[j][i]) >= Eps) ==> ClearRun(m, i, j + 1, r, steps)
  {
    OtherRowsStepsNext(m, i, j);
    var f := r[j][i];
    if j != i && Abs(f) >= Eps {
      assert steps + [SubtractRow(j, i, f, i)] == [Scale(i, m[i][i], i)] + (OtherRowsSteps(m, i, j) + [SubtractRow(j, i, f, i)]);
      ReplayAppend(m, steps, SubtractRow(j, i, f, i));
    }
  }

  /**
   * One pivot step of `gauss_jordan_elimination` at row `i`: pick and swap
   * up the pivot row, skip the column when the pivot is below `Eps`, else
   * normalise the pivot row and clear the column elsewhere.
   */
  method ReducePivot(m: Matrix, w: nat, i: nat) returns (r: Matrix, steps: seq<Step>)
    requires IsRect(m, |m|, w) && i < |m| <= w && ReducedUpTo(m, i)
    ensures IsRect(r, |m|, w) && r == Replay(m, steps) && steps == ReducePivotSteps(m, i)
    ensures forall s :: s in steps ==> ReducingStep(s, |m|)
    ensures ReducedUpTo(r, i + 1)
  {
    var maxRow := FindPivotRow(m, i);
    PivotRowUnique(m, i, |m| - 1, maxRow);
    ReplayPivotSwap(m, i, maxRow);
    SwapKeepsReduced(m, i, maxRow, i);
    var t1 := SwapRows(m, i, maxRow);
    SwapBringsPivotUp(m, i, maxRow);
    r, steps := t1, PivotSwap(i, maxRow);
    if Abs(t1[i][i]) < Eps {
      SkippedColumnReduced(t1, i);
    } else {
      var r', more := ClearColumn(t1, w, i);
      ClearedColumnReduced(t1, r', w, i);
      ReplayConcat(m, steps, more);
      r, steps := r', steps + more;
    }
    ReducePivotStepsAt(m, i, maxRow, t1, steps);
  }

  /** The pivot loop of `gauss_jordan_elimination` on the (possibly augmented) working table. */
  method ReduceEliminate(m: Matrix, w: nat) returns (r: Matrix, trace: seq<Step>)
    requires IsRect(m, |m|, w) && |m| <= w
    ensures IsRect(r, |m|, w) && r == Replay(m, trace)
    ensures forall s :: s in trace ==> ReducingStep(s, |m|)
    ensures ReducedUpTo(r, |m|) && trace == ReduceTrace(m, w, |m|)
  {
    r, trace := m, [];
    var i := 0;
    while i < |m|
      invariant ReduceSoFar(m, w, i, r, trace)
    {
      var r', steps := ReducePivot(r, w, i);
      ReduceAdvances(m, w, i, r, trace, r', steps);
      r, trace := r', trace + steps;
      i := i + 1;
    }
  }

  /** What the pivot loop of reduced elimination has done once the columns before `i` are handled. */
  ghost predicate ReduceSoFar(m0: Matrix, w: nat, i: nat, r: Matrix, trace: seq<Step>) {
    IsRect(m0, |m0|, w) && i <= |m0| <= w && IsRect(r, |m0|, w) && r == Replay(m0, trace) &&
    (forall s :: s in trace ==> ReducingStep(s, |m0|)) && ReducedUpTo(r, i) && trace == ReduceTrace(m0, w, i)
  }

  /** One pivot step of the loop, given what `ReducePivot` promises about it. */
  lemma ReduceAdvances(m0: Matrix, w: nat, i: nat, r: Matrix, trace: seq<Step>, r': Matrix, steps: seq<Step>)
    requires ReduceSoFar(m0, w, i, r, trace) && i < |m0|
    requires IsRect(r', |m0|, w) && r' == Replay(r, steps) && steps == ReducePivotSteps(r, i)
    requires (forall s :: s in steps ==> ReducingStep(s, |m0|)) && ReducedUpTo(r', i + 1)
    ensures ReduceSoFar(m0, w, i + 1, r', trace + steps)
  {
    ReplayConcat(m0, trace, steps);
    ReduceTraceNext(m0, w, i, trace, steps);
  }

  /** The working copy: `a`, with `b[i]` appended to row i when a right-hand side is given. */
  function WorkingTable(a: Matrix, b: Option<seq<real>>): (m: Matrix)
    requires IsMatrix(a) && (b.Some? ==> |b.value| >= |a|)
    ensures IsRect(m, |a|, Width(a) + if b.Some? then 1 else 0)
  {
    if b.Some? then Augment(a, b.value) else a
  }

  /** A result table joined again with its transformed right-hand side, if any. */
  function Rejoin(r: Matrix, b: Option<seq<real>>): (m: Matrix)
    requires b.Some? ==> |b.value| >= |r|
    ensures forall w: nat :: IsRect(r, |r|, w) ==> IsRect(m, |r|, w + if b.Some? then 1 else 0)
  {
    if b.Some? then Augment(r, b.value) else r
  }

  /** Splits the working table back into (table, transformed right-hand side) when one was appended. */
  method SplitResult(m: Matrix, w: nat, augmented: bool) returns (r: Matrix, bOut: Option<seq<real>>)
    requires IsRect(m, |m|, w) && (augmented ==> w >= 1)
    ensures bOut.Some? == augmented && (augmented ==> |bOut.value| == |m|)
    ensures IsRect(r, |m|, if augmented then w - 1 else w)
    ensures Rejoin(r, bOut) == m
  {
    if augmented {
      r, bOut := DropLastColumn(m), Some(LastColumn(m));
      AugmentSplit(m);
    } else {
      r, bOut := m, None;
    }
  }

  /**
   * `gaussian_elimination`: echelon form of `a` (with `b` carried along as
   * an augmented column when given). The table needs a diagonal cell in
   * every row, so it may not have more rows than columns, counting `b`.
   */
  method GaussianElimination(a: Matrix, b: Option<seq<real>>) returns (r: Matrix, bOut: Option<seq<real>>, trace: seq<Step>)
    requires IsMatrix(a) && (b.Some? ==> |b.value| >= |a|)
    requires |a| <= Width(a) + if b.Some? then 1 else 0
    ensures IsRect(r, |a|, Width(a))
    ensures bOut.Some? == b.Some? && (bOut.Some? ==> |bOut.value| == |a|)
    ensures Rejoin(r, bOut) == Replay(WorkingTable(a, b), trace)
    ensures trace == ForwardTrace(WorkingTable(a, b), Width(a) + (if b.Some? then 1 else 0), |a|)
    ensures forall s :: s in trace ==> ForwardStep(s, |a|)
    ensures EchelonUpTo(Rejoin(r, bOut), |a|)
  {
    var w := Width(a) + if b.Some? then 1 else 0;
    var m, t := ForwardEliminate(WorkingTable(a, b), w);
    r, bOut := SplitResult(m, w, b.Some?);
    trace := t;
  }

  /**
   * `gauss_jordan_elimination`: reduced form of `a` (with `b` carried along
   * as an augmented column when given), under the same shape condition.
   */
  method GaussJordanElimination(a: Matrix, b: Option<seq<real>>) returns (r: Matrix, bOut: Option<seq<real>>, trace: seq<Step>)
    requires IsMatrix(a) && (b.Some? ==> |b.value| >= |a|)
    requires |a| <= Width(a) + if b.Some? then 1 else 0
    ensures IsRect(r, |a|, Width(a))
    ensures bOut.Some? == b.Some? && (bOut.Some? ==> |bOut.value| == |a|)
    ensures Rejoin(r, bOut) == Replay(WorkingTable(a, b), trace)
    ensures trace == ReduceTrace(WorkingTable(a, b), Width(a) + (if b.Some? then 1 else 0), |a|)
    ensures forall s :: s in trace ==> ReducingStep(s, |a|)
    ensures ReducedUpTo(Rejoin(r, bOut), |a|)
  {
    var w := Width(a) + if b.Some? then 1 else 0;
    var m, t := ReduceEliminate(WorkingTable(a, b), w);
    r, bOut := SplitResult(m, w, b.Some?);
    trace := t;
  }

  /**
   * Plain elimination on [[1, 0], [2, 0]]: the larger cell 2 is swapped up,
   * half of it is subtracted from the other row, and the second column has
   * no usable pivot. The result is [[2, 0], [0, 0]].
   */
  lemma PlainEliminationExample()
    ensures IsMatrix([[1.0, 0.0], [2.0, 0.0]]) && Width([[1.0, 0.0], [2.0, 0.0]]) == 2
    ensures WorkingTable([[1.0, 0.0], [2.0, 0.0]], None) == [[1.0, 0.0], [2.0, 0.0]]
    ensures ForwardTrace([[1.0, 0.0], [2.0, 0.0]], 2, 2) == [Swap(0, 1), SubtractRow(1, 0, 0.5, 0)]
    ensures Replay([[1.0, 0.0], [2.0, 0.0]], [Swap(0, 1), SubtractRow(1, 0, 0.5, 0)]) == [[2.0, 0.0], [0.0, 0.0]]
  {
    var m := [[1.0, 0.0], [2.0, 0.0]];
    var first := [Swap(0, 1), SubtractRow(1, 0, 0.5, 0)];
    assert Width(m) == 2;
    PlainFirstPivot();
    PlainFirstReplay();
    PlainSecondPivot();
    assert Replay(m, []) == m;
    assert ForwardTrace(m, 2, 1) == [] + first;
    assert ForwardTrace(m, 2, 2) == first + [];
  }

  /** The first pivot step on [[1, 0], [2, 0]]: row 1 has the larger cell. */
  lemma PlainFirstPivot()
    ensures ForwardPivotSteps([[1.0, 0.0], [2.0, 0.0]], 0) == [Swap(0, 1), SubtractRow(1, 0, 0.5, 0)]
  {
    var m := [[1.0, 0.0], [2.0, 0.0]];
    assert PivotRow(m, 0, 0) == 0 && PivotRow(m, 0, 1) == 1;
    var t1 := m[0 := m[1]][1 := m[0]];
    assert t1 == [[2.0, 0.0], [1.0, 0.0]];
    assert BelowSteps(t1, 0, 1) == [];
    assert BelowSteps(t1, 0, 2) == [] + [SubtractRow(1, 0, 0.5, 0)];
  }

  /** Performing those steps: the swap, then row 1 loses half of row 0. */
  lemma PlainFirstReplay()
    ensures Replay([[1.0, 0.0], [2.0, 0.0]], [Swap(0, 1), SubtractRow(1, 0, 0.5, 0)]) == [[2.0, 0.0], [0.0, 0.0]]
  {
    var m := [[1.0, 0.0], [2.0, 0.0]];
    var t1 := [[2.0, 0.0], [1.0, 0.0]];
    ReplayAppend(m, [], Swap(0, 1));
    assert Replay(m, [Swap(0, 1)]) == t1;
    assert [Swap(0, 1)] + [SubtractRow(1, 0, 0.5, 0)] == [Swap(0, 1), SubtractRow(1, 0, 0.5, 0)];
    ReplayAppend(m, [Swap(0, 1)], SubtractRow(1, 0, 0.5, 0));
    assert RowMinus(t1[1], t1[0], 0.5, 0) == [0.0, 0.0];
  }

  /** The second pivot step on [[2, 0], [0, 0]]: nothing, the pivot is 0. */
  lemma PlainSecondPivot()
    ensures ForwardPivotSteps([[2.0, 0.0], [0.0, 0.0]], 1) == []
  {
    var e := [[2.0, 0.0], [0.0, 0.0]];
    assert PivotRow(e, 1, 1) == 1;
    assert e[1 := e[1]][1 := e[1]] == e;
  }

  /**
   * Reduced elimination on [[0, 1], [0, 1]]: column 0 has no usable pivot
   * and is skipped, so the pivot of column 1 stays in row 1, which then
   * clears row 0. The result is [[0, 0], [0, 1]].
   */
  lemma ReducedEliminationExample()
    ensures IsMatrix([[0.0, 1.0], [0.0, 1.0]]) && Width([[0.0, 1.0], [0.0, 1.0]]) == 2
    ensures WorkingTable([[0.0, 1.0], [0.0, 1.0]], None) == [[0.0, 1.0], [0.0, 1.0]]
    ensures ReduceTrace([[0.0, 1.0], [0.0, 1.0]], 2, 2) == [Scale(1, 1.0, 1), SubtractRow(0, 1, 1.0, 1)]
    ensures Replay([[0.0, 1.0], [0.0, 1.0]], [Scale(1, 1.0, 1), SubtractRow(0, 1, 1.0, 1)]) == [[0.0, 0.0], [0.0, 1.0]]
  {
    var m := [[0.0, 1.0], [0.0, 1.0]];
    var steps := [Scale(1, 1.0, 1), SubtractRow(0, 1, 1.0, 1)];
    assert Width(m) == 2;
    ReducedFirstPivot();
    ReducedSecondPivot();
    ReducedReplay();
    assert Replay(m, []) == m;
    assert ReduceTrace(m, 2, 1) == [] + [];
    assert ReduceTrace(m, 2, 2) == [] + steps;
  }

  /** The first pivot step on [[0, 1], [0, 1]]: nothing, column 0 is zero. */
  lemma ReducedFirstPivot()
    ensures ReducePivotSteps([[0.0, 1.0], [0.0, 1.0]], 0) == []
  {
    var m := [[0.0, 1.0], [0.0, 1.0]];
    assert PivotRow(m, 0, 0) == 0 && PivotRow(m, 0, 1) == 0;
    assert m[0 := m[0]][0 := m[0]] == m;
  }

  /** The second pivot step on [[0, 1], [0, 1]]: row 1 is divided by 1 and subtracted from row 0. */
  lemma ReducedSecondPivot()
    ensures ReducePivotSteps([[0.0, 1.0], [0.0, 1.0]], 1) == [Scale(1, 1.0, 1), SubtractRow(0, 1, 1.0, 1)]
  {
    var m := [[0.0, 1.0], [0.0, 1.0]];
    assert PivotRow(m, 1, 1) == 1;
    assert m[1 := m[1]][1 := m[1]] == m;
    assert OtherRowsSteps(m, 1, 0) == [];
    assert OtherRowsSteps(m, 1, 1) == [] + [SubtractRow(0, 1, 1.0, 1)];
    assert OtherRowsSteps(m, 1, 2) == [SubtractRow(0, 1, 1.0, 1)] + [];
    assert [] + [Scale(1, 1.0, 1)] + [SubtractRow(0, 1, 1.0, 1)] == [Scale(1, 1.0, 1), SubtractRow(0, 1, 1.0, 1)];
  }

  /** Performing those steps: dividing by 1 changes nothing, then row 0 loses row 1. */
  lemma ReducedReplay()
    ensures Replay([[0.0, 1.0], [0.0, 1.0]], [Scale(1, 1.0, 1), SubtractRow(0, 1, 1.0, 1)]) == [[0.0, 0.0], [0.0, 1.0]]
  {
    var m := [[0.0, 1.0], [0.0, 1.0]];
    ReplayAppend(m, [], Scale(1, 1.0, 1));
    assert RowDiv(m[1], 1.0, 1) == m[1];
    assert Replay(m, [Scale(1, 1.0, 1)]) == m;
    assert [Scale(1, 1.0, 1)] + [SubtractRow(0, 1, 1.0, 1)] == [Scale(1, 1.0, 1), SubtractRow(0, 1, 1.0, 1)];
    ReplayAppend(m, [Scale(1, 1.0, 1)], SubtractRow(0, 1, 1.0, 1));
    assert RowMinus(m[0], m[1], 1.0, 1) == [0.0, 0.0];
  }

  /**
   * Row equivalence of either elimination: replaying the inverse steps of
   * its trace on its result gives back the working table.
   */
  lemma EliminationIsReversible(m: Matrix, trace: seq<Step>, n: nat)
    requires forall s :: s in trace ==> ForwardStep(s, n) || ReducingStep(s, n)
    ensures forall s :: s in trace ==> Reversible(s)
    ensures Replay(Replay(m, trace), UndoAll(trace)) == m
  {
    UndoTrace(m, trace);
  }
}
