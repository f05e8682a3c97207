/**
 * Elementary row operations, the record of the operations an elimination
 * performed (its step trace), augmented tables, and the snapping rule of
 * the inverse computation.
 */
module RowOps {
  import opened Matrices

  /**
   * One step of an elimination, as the source narrates it:
   * swap rows i and k; divide the cells of a row from column `from` on by a
   * pivot; subtract `factor` times row `source` from row `target` (cells from
   * `from` on); or the inverse's variant of that subtraction over every cell
   * with each written cell snapped.
   */
  datatype Step =
    | Swap(i: nat, k: nat)
    | Scale(row: nat, pivot: real, from: nat)
    | SubtractRow(target: nat, source: nat, factor: real, from: nat)
    | SnapSubtract(target: nat, source: nat, factor: real)

  /** Python's `round`: nearest integer, halves to the even neighbour. */
  function NearestInt(v: real): (z: int)
    ensures Abs(v - z as real) <= 0.5
    ensures Abs(v - z as real) == 0.5 ==> z % 2 == 0
  {
    var f := v.Floor;
    var d := v - f as real;
    if d < 0.5 then f else if d > 0.5 then f + 1 else if f % 2 == 0 then f else f + 1
  }

  /** An integer within `Eps` of `v` is the one `round` picks. */
  lemma NearestIntOfClose(v: real, z: int)
    requires Abs(v - z as real) < Eps
    ensures NearestInt(v) == z
  {
    var f := v.Floor;
    if v >= z as real {
      assert f == z;
    } else {
      assert f == z - 1;
    }
  }

  /**
   * The inverse's cell rule: a value within `Eps` of an integer becomes that
   * integer, then a value below `Eps` in magnitude becomes 0.
   */
  function Snap(v: real): (r: real)
    ensures r == 0.0 || Abs(r) >= Eps
    ensures r == v || Abs(r - v) < Eps
  {
    var n := NearestInt(v) as real;
    var s := if Abs(v - n) < Eps then n else v;
    if Abs(s) < Eps then 0.0 else s
  }

  /** A value within `Eps` of an integer snaps to exactly that integer. */
  lemma SnapNearInteger(v: real, z: int)
    requires Abs(v - z as real) < Eps
    ensures Snap(v) == z as real
  {
    NearestIntOfClose(v, z);
  }

  /** Snapping a snapped value changes nothing. */
  lemma SnapIdempotent(v: real)
    ensures Snap(Snap(v)) == Snap(v)
  {
    var r := Snap(v);
    var n := NearestInt(v);
    if r == 0.0 {
      SnapNearInteger(0.0, 0);
    } else if Abs(v - n as real) < Eps {
      assert r == n as real;
      SnapNearInteger(r, n);
    } else {
      assert r == v && Abs(v) >= Eps;
    }
  }

  /** Row `row` minus `factor` times row `pivot`, from column `from` on. */
  function RowMinus(row: seq<real>, pivot: seq<real>, factor: real, from: nat): (r: seq<real>)
    requires |pivot| == |row|
  {
    seq(|row|, c requires 0 <= c < |row| => if c < from then row[c] else row[c] - factor * pivot[c])
  }

  /** Row `row` divided by `p` from column `from` on. */
  function RowDiv(row: seq<real>, p: real, from: nat): seq<real>
    requires p != 0.0
  {
    seq(|row|, c requires 0 <= c < |row| => if c < from then row[c] else row[c] / p)
  }

  /** Row `row` minus `factor` times row `pivot` in every column, each cell snapped. */
  function RowSnapMinus(row: seq<real>, pivot: seq<real>, factor: real): (r: seq<real>)
    requires |pivot| == |row|
    ensures |r| == |row|
  {
    var d := RowMinus(row, pivot, factor, 0);
    seq(|row|, c requires 0 <= c < |row| => Snap(d[c]))
  }

  /** The effect of one step; a step whose rows are out of range (or whose pivot is 0) changes nothing. */
  function ApplyStep(m: Matrix, s: Step): (r: Matrix)
    ensures |r| == |m|
    ensures forall w: nat :: IsRect(m, |m|, w) ==> IsRect(r, |m|, w)
  {
    match s
    case Swap(i, k) =>
      if i < |m| && k < |m| then m[i := m[k]][k := m[i]] else m
    case Scale(i, p, from) =>
      if i < |m| && p != 0.0 then m[i := RowDiv(m[i], p, from)] else m
    case SubtractRow(t, src, f, from) =>
      if t < |m| && src < |m| && |m[t]| == |m[src]| then m[t := RowMinus(m[t], m[src], f, from)] else m
    case SnapSubtract(t, src, f) =>
      if t < |m| && src < |m| && |m[t]| == |m[src]| then m[t := RowSnapMinus(m[t], m[src], f)] else m
  }

  /** The table obtained by performing `steps` in order on `m`. */
  function Replay(m: Matrix, steps: seq<Step>): (r: Matrix)
    ensures |r| == |m|
    ensures forall w: nat :: IsRect(m, |m|, w) ==> IsRect(r, |m|, w)
    decreases |steps|
  {
    if steps == [] then m else ApplyStep(Replay(m, steps[..|steps| - 1]), steps[|steps| - 1])
  }

  lemma ReplayAppend(m: Matrix, steps: seq<Step>, s: Step)
    ensures Replay(m, steps + [s]) == ApplyStep(Replay(m, steps), s)
  {
    assert (steps + [s])[..|steps|] == steps;
  }

  /** Performing two traces one after the other is performing their concatenation. */
  lemma {:induction false} ReplayConcat(m: Matrix, first: seq<Step>, second: seq<Step>)
    ensures Replay(m, first + second) == Replay(Replay(m, first), second)
    decreases |second|
  {
    if second == [] {
      assert first + second == first;
    } else {
      var init, last := second[..|second| - 1], second[|second| - 1];
      assert first + second == (first + init) + [last];
      assert second == init + [last];
      ReplayAppend(m, first + init, last);
      ReplayConcat(m, first, init);
      ReplayAppend(Replay(m, first), init, last);
    }
  }

  lemma {:induction false} ReplayPrepend(m: Matrix, s: Step, steps: seq<Step>)
    ensures Replay(m, [s] + steps) == Replay(ApplyStep(m, s), steps)
    decreases |steps|
  {
    if steps == [] {
      assert [s] + steps == [] + [s];
      ReplayAppend(m, [], s);
    } else {
      var init, last := steps[..|steps| - 1], steps[|steps| - 1];
      assert [s] + steps == ([s] + init) + [last];
      assert steps == init + [last];
      ReplayAppend(m, [s] + init, last);
      ReplayPrepend(m, s, init);
      ReplayAppend(ApplyStep(m, s), init, last);
    }
  }

  /** A step an inverse step can undo: every step except a snapped subtraction and a row subtracted from itself. */
  predicate Reversible(s: Step) {
    match s
    case Swap(_, _) => true
    case Scale(_, p, _) => p != 0.0
    case SubtractRow(t, src, _, _) => t != src
    case SnapSubtract(_, _, _) => false
  }

  function Undo(s: Step): Step
    requires Reversible(s)
  {
    match s
    case Swap(i, k) => Swap(i, k)
    case Scale(i, p, from) => Scale(i, 1.0 / p, from)
    case SubtractRow(t, src, f, from) => SubtractRow(t, src, -f, from)
  }

  /** Each reversible step is undone by its inverse step. */
  lemma UndoStep(m: Matrix, s: Step)
    requires Reversible(s)
    ensures ApplyStep(ApplyStep(m, s), Undo(s)) == m
  {
    var m' := ApplyStep(m, s);
    match s
    case Swap(i, k) => {
      if i < |m| && k < |m| {
        assert ApplyStep(m', s) == m;
      }
    }
    case Scale(i, p, from) => {
      if i < |m| {
        var back := RowDiv(m'[i], 1.0 / p, from);
        forall c | 0 <= c < |m[i]| ensures back[c] == m[i][c] {
          if c >= from {
            assert back[c] == (m[i][c] / p) / (1.0 / p);
          }
        }
        assert back == m[i];
        assert ApplyStep(m', Undo(s)) == m[i := back];
      }
    }
    case SubtractRow(t, src, f, from) => {
      if t < |m| && src < |m| && |m[t]| == |m[src]| {
        var back := RowMinus(m'[t], m'[src], -f, from);
        assert m'[src] == m[src];
        forall c | 0 <= c < |m[t]| ensures back[c] == m[t][c] {
          if c >= from {
            assert back[c] == (m[t][c] - f * m[src][c]) - (-f) * m[src][c];
          }
        }
        assert back == m[t];
      }
    }
  }

  /** The inverse steps of a trace, last step first. */
  function UndoAll(steps: seq<Step>): seq<Step>
    requires forall s :: s in steps ==> Reversible(s)
    decreases |steps|
  {
    if steps == [] then [] else [Undo(steps[|steps| - 1])] + UndoAll(steps[..|steps| - 1])
  }

  /**
   * Row equivalence: replaying the inverse steps on the result of a trace
   * of reversible steps gives back the table the trace started from.
   */
  lemma {:induction false} UndoTrace(m: Matrix, steps: seq<Step>)
    requires forall s :: s in steps ==> Reversible(s)
    ensures Replay(Replay(m, steps), UndoAll(steps)) == m
    decreases |steps|
  {
    if steps != [] {
      var init, last := steps[..|steps| - 1], steps[|steps| - 1];
      var mid := Replay(m, init);
      assert last in steps;
      assert forall s :: s in init ==> s in steps;
      ReplayPrepend(ApplyStep(mid, last), Undo(last), UndoAll(init));
      UndoStep(mid, last);
      UndoTrace(m, init);
    }
  }

  /** The augmented table [A | b]: `b[i]` appended to row i. */
  function Augment(a: Matrix, b: seq<real>): (r: Matrix)
    requires |b| >= |a|
    ensures |r| == |a| && forall i :: 0 <= i < |a| ==> r[i] == a[i] + [b[i]]
  {
    seq(|a|, i requires 0 <= i < |a| => a[i] + [b[i]])
  }

  /** The table without its last column. */
  function DropLastColumn(m: Matrix): (r: Matrix)
    requires forall i :: 0 <= i < |m| ==> |m[i]| > 0
    ensures |r| == |m| && forall i :: 0 <= i < |m| ==> r[i] == m[i][..|m[i]| - 1]
  {
    seq(|m|, i requires 0 <= i < |m| => m[i][..|m[i]| - 1])
  }

  /** The last column of the table, top to bottom. */
  function LastColumn(m: Matrix): (r: seq<real>)
    requires forall i :: 0 <= i < |m| ==> |m[i]| > 0
    ensures |r| == |m| && forall i :: 0 <= i < |m| ==> r[i] == m[i][|m[i]| - 1]
  {
    seq(|m|, i requires 0 <= i < |m| => m[i][|m[i]| - 1])
  }

  /** Splitting an augmented table gives back the table and the used part of the vector. */
  lemma SplitAugment(a: Matrix, b: seq<real>)
    requires |b| >= |a|
    ensures DropLastColumn(Augment(a, b)) == a
    ensures LastColumn(Augment(a, b)) == b[..|a|]
  {
    var m := Augment(a, b);
    forall i | 0 <= i < |a| ensures m[i][..|m[i]| - 1] == a[i] {
      assert m[i] == a[i] + [b[i]];
    }
  }

  /** Rejoining a table with its last column gives back the table. */
  lemma AugmentSplit(m: Matrix)
    requires forall i :: 0 <= i < |m| ==> |m[i]| > 0
    ensures Augment(DropLastColumn(m), LastColumn(m)) == m
  {
    var r := Augment(DropLastColumn(m), LastColumn(m));
    forall i | 0 <= i < |m| ensures r[i] == m[i] {
      assert m[i] == m[i][..|m[i]| - 1] + [m[i][|m[i]| - 1]];
    }
  }
}
