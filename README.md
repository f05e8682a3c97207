# Matrix calculator: a verified model of its numeric engine

The calculator (`calculadora-de-matrices`) does linear algebra on small tables of numbers. It has these operations:

- element-wise addition and subtraction;
- matrix product;
- the determinant, by cofactor expansion;
- Gaussian elimination with partial pivoting, with or without a right-hand side, followed by back substitution;
- Gauss–Jordan reduction;
- the inverse, by Gauss–Jordan on `[A | I]`, with every written cell snapped to the nearest integer or to 0 when within `1e-10` of it;
- the Doolittle LU factorization.

Its web front end keeps matrices in a store under letter IDs (`A` … `Z`, `AA` … `ZZ`). A counter hands the IDs out, and the IDs of deleted matrices are reused first.

This project models that engine and the store in Dafny and proves what they promise.

| file | module | what it holds |
|---|---|---|
| `matrices.dfy` | `Matrices` | tables as `seq<seq<real>>`, shapes, `Eps` = 1/10^10, the identity, columns, dot products |
| `arithmetic.dfy` | `Arithmetic` | `add_matrices`, `subtract_matrices`, `multiply_matrices` |
| `determinant.dfy` | `Determinant` | `get_minor`, `determinant` |
| `rowops.dfy` | `RowOps` | elementary row operations as `Step` records, their effect (`Replay`) and inverses, the snapping rule, augmented tables |
| `elimination.dfy` | `Elimination` | the pivot search, `gaussian_elimination`, `gauss_jordan_elimination` |
| `backsub.dfy` | `BackSubstitution` | `back_substitution` |
| `inverse.dfy` | `Inverse` | `calculate_inverse` |
| `lu.dfy` | `Lu` | `lu_factorization` |
| `registry.dfy` | `Registry` | `get_next_matrix_id`, plus the store and free-list bookkeeping of `create_matrix` and `delete_matrix` |

Numbers are exact reals. The source's `1e-10` is the constant `Eps`, and every tolerance test keeps the source's strict or non-strict comparison.

The imperative procedures follow the source's shape: they work on a private copy of the table, updated row by row and cell by cell in `while` loops.

The two eliminations and the inverse also return the list of row operations they performed, in place of the printed narration. For them the table returned is `Replay(input, steps)`, and the steps are the kind the source performs.

The steps themselves are fixed, so the table returned is a function of the input. Each procedure's steps are exactly a recursive definition of its pivot loop, each pivot step taken on the table the earlier ones produced:
- `ForwardTrace` for Gaussian elimination: the swap with the pivot row `PivotRow`, then the subtractions below a usable pivot (`BelowSteps`);
- `ReduceTrace` for Gauss–Jordan: the swap, the division by the pivot, and one subtraction per other row whose cell is at least `1e-10` (`OtherRowsSteps`);
- `InverseTrace` of [A | I] for the inverse: the swap, the scaling by the pivot, and one snapped subtraction per other row whose factor is at least `1e-10`.

Row equivalence is proved for the two eliminations only: each of their steps has an inverse step, and undoing the whole trace gives back the starting table. The inverse's snapped subtractions round their cells and are not reversible, so no such claim is made for it.

LU factorization and back substitution return no steps. LU is proved against its own specification, LU = A. Back substitution's result is exactly `Substituted`, a recursive definition of its loop from the last row up; on a clean upper-triangular system it is also proved to solve A·x = b.

The web store is a class with:
- the counter `next`;
- the sorted free list `freed`;
- the map `stored` from IDs to matrices.

Its methods update these fields.

Behaviour that follows the code rather than its comments:
- The determinant of the empty 0×0 table is 0: the expansion loop runs over no column.
- In back substitution, a row whose largest cell is exactly `1e-10` is not a zero row (that test uses `<`) and has no pivot (that test uses `>`). Such a row is skipped.
- The free list is sorted in string order. So `AA` is reused before `B`, although the comment next to the sort talks about using the lowest IDs first.
- LU never tests the last pivot `U[n-1][n-1]`. The test on `U[0][0]` only happens when n > 1.

## Model

| member | source | states |
|---|---|---|
| Matrices.Dimensions | Calculadora.py:109-121 | Gives (rows, cols): the row count, and the length of every row of a rectangular table; cols is 0 for the empty table. |
| Matrices.DotPrefix | Calculadora.py:220-222 | The sum of products over the first n positions depends only on those positions. |
| Arithmetic.Add | Calculadora.py:123-156 | `None` exactly when the dimensions differ; otherwise a table of the same shape with R[i][j] = A[i][j] + B[i][j]. |
| Arithmetic.Subtract | Calculadora.py:158-191 | `None` exactly when the dimensions differ; otherwise R[i][j] = A[i][j] − B[i][j]. |
| Arithmetic.Multiply | Calculadora.py:193-230 | `None` exactly when cols(A) ≠ rows(B); otherwise a rows(A)×cols(B) table with R[i][j] = Σₖ A[i][k]·B[k][j]. |
| Arithmetic.SubtractUndoesAdd | Calculadora.py:137-191 | For tables of equal shape, (A + B) − B = A. |
| Arithmetic.AddCommutes | Calculadora.py:137-156 | A + B is defined iff B + A is, and then they are equal. |
| Arithmetic.MultiplyByIdentity | Calculadora.py:207-230 | A·I = A. |
| Arithmetic.IdentityTimes | Calculadora.py:207-230 | I·B = B. |
| Determinant.GetMinor | Calculadora.py:283-303 | Drops the given row and column (one fewer row and column when in range). Every cell is the source cell it came from. |
| Determinant.RemoveAt | Calculadora.py:296-302 | Skipping one position shortens the sequence by one, and the other positions keep their order. |
| Determinant.Determinant | Calculadora.py:232-281 | `None` exactly for a non-square table. A 1×1 table gives its cell; a 2×2 table gives a·d − b·c. |
| Determinant.DetIsExpansion | Calculadora.py:254-281 | The 2×2 base case agrees with the cofactor expansion along row 0, so from order 2 on the determinant is that expansion (from order 3 on, the expansion is how it is defined). |
| Determinant.TwoByTwoIsExpansion | Calculadora.py:254-257 | The 2×2 formula equals the cofactor expansion over its 1×1 minors. |
| Determinant.ZeroCellCofactor | Calculadora.py:273-276 | A zero cell in row 0 contributes nothing to the expansion. |
| Determinant.ExpandZeroPrefix | Calculadora.py:263-276 | The expansion terms of a run of zero cells in row 0 add up to 0. |
| Determinant.DetZeroFirstRow | Calculadora.py:249-281 | A table whose first row is zero has determinant 0, for the 1×1 and 2×2 formulas and the expansion alike. |
| Determinant.ExpandFirstTermOnly | Calculadora.py:263-276 | When row 0 is zero beyond its first cell, the expansion is A[0][0] times the determinant of the leading minor. |
| Determinant.LeadingMinorOfLower | Calculadora.py:264-271 | The minor at (0, 0) of a lower-triangular table is lower triangular and keeps the rest of the diagonal. |
| Determinant.DetLowerTriangular | Calculadora.py:244-281 | The determinant of a non-empty lower-triangular table is the product of its diagonal. |
| Determinant.DetIdentity | Calculadora.py:244-281 | det(I) = 1 for every order n ≥ 1. The inverse relies on this to accept the identity. |
| RowOps.NearestInt | Calculadora.py:603 | Python's `round`: the result is within 1/2 of the value, and at exactly 1/2 it is the even neighbour. |
| RowOps.NearestIntOfClose | Calculadora.py:603 | `round` picks the integer that lies within 1e-10 of the value. |
| RowOps.Snap | Calculadora.py:601-611 | A snapped value is 0 or at least 1e-10 in magnitude, and it lies within 1e-10 of the value computed. |
| RowOps.SnapNearInteger | Calculadora.py:603-605 | A value within 1e-10 of an integer is written as exactly that integer. |
| RowOps.SnapIdempotent | Calculadora.py:601-611 | Snapping a snapped value changes nothing. |
| RowOps.ApplyStep | Calculadora.py:343 | A step keeps the row count and a rectangular table's width. |
| RowOps.Replay | Calculadora.py:334-369 | Performing the steps in order on a table keeps its row count and, for a rectangular table, its width. |
| RowOps.ReplayConcat | Calculadora.py:334-369 | Performing two lists of steps one after the other is performing their concatenation. |
| RowOps.UndoStep | Calculadora.py:343-365 | Each swap, division by a nonzero pivot, and subtraction of a multiple of another row is undone by its inverse step. |
| RowOps.UndoTrace | Calculadora.py:334-369 | Row equivalence: undoing a trace of reversible steps gives back the starting table. |
| RowOps.Augment | Calculadora.py:322-324 | Row i of [A \| b] is row i of A followed by b[i]. |
| RowOps.SplitAugment | Calculadora.py:371-375 | Splitting [A \| b] gives back A and the first rows(A) entries of b. |
| RowOps.AugmentSplit | Calculadora.py:371-375 | Rejoining a table with its split-off last column gives back the table. |
| Elimination.FindPivotRow | Calculadora.py:336-339 | The chosen row has the largest \|A[k][i]\| for k ≥ i, and no earlier such row attains it (the strict `>` tie-break). |
| Elimination.PivotRow | Calculadora.py:561-564 | The pivot row as a function: at or below row i, its \|cell\| in column i is the largest, and every earlier candidate is strictly smaller. |
| Elimination.PivotRowUnique | Calculadora.py:336-339 | Those two conditions determine the row, so the search loop's row is `PivotRow`. |
| Elimination.SubtractScaled | Calculadora.py:364-365 | The cell loop computes row − factor·pivot row from column i on, and leaves the cells before i as they were. |
| Elimination.DivideRow | Calculadora.py:479-481 | The cell loop divides the row by the pivot from column i on. |
| Elimination.SwapKeepsEchelon | Calculadora.py:342-343 | Swapping two rows at or below the current pivot keeps the columns already settled. |
| Elimination.SwapKeepsReduced | Calculadora.py:468-469 | The same for reduced columns. |
| Elimination.LeftColumnsKeepEchelon | Calculadora.py:364-365 | Settledness of earlier columns depends only on those columns, which the later steps do not touch. |
| Elimination.LeftColumnsKeepReduced | Calculadora.py:497-498 | The same for reduced columns. |
| Elimination.ReplayPivotSwap | Calculadora.py:342-343 | The recorded swap (none when the pivot row is row i itself) exchanges rows i and k. |
| Elimination.EliminateBelow | Calculadora.py:353-365 | At a usable pivot: every lower row gets 0 in the pivot column; rows up to the pivot row and columns before it are unchanged. The steps are exactly `BelowSteps`: one subtraction per lower row, in order, with factor A[j][i]/A[i][i]. |
| Elimination.ForwardPivot | Calculadora.py:334-369 | One pivot step. Its steps are exactly `ForwardPivotSteps`: the swap with `PivotRow` when that is another row, then nothing if the pivot is below 1e-10, else `BelowSteps`. The table is the input after them, and columns up to i end settled. |
| Elimination.ForwardEliminate | Calculadora.py:334-369 | The trace is exactly `ForwardTrace`: pivot steps 0 to rows−1, each taken on the table the earlier ones produced. The result is the input after it. Every column is settled: 0 below each usable pivot, and no cell larger than a skipped pivot below it. |
| Elimination.ClearColumn | Calculadora.py:478-501 | The pivot becomes 1. Other rows with \|factor\| ≥ 1e-10 get 0 in the column; rows with a smaller factor stay unchanged. The steps are exactly the division by the pivot followed by `OtherRowsSteps`. |
| Elimination.OtherRowsStepsNext | Calculadora.py:488-498 | Each further row adds one subtraction, with its cell as factor, when it is not the pivot row and its cell is at least 1e-10, and nothing otherwise. |
| Elimination.ReducePivot | Calculadora.py:460-501 | One Gauss–Jordan pivot step. Its steps are exactly `ReducePivotSteps`: the swap with `PivotRow`, then nothing if the pivot is below 1e-10, else the division and `OtherRowsSteps`. It keeps the earlier columns reduced and reduces column i. |
| Elimination.ReduceEliminate | Calculadora.py:460-502 | The trace is exactly `ReduceTrace`, and the result is the input after it. Every column is reduced: either its pivot is 1 with every other cell below 1e-10, or it was skipped. |
| Elimination.WorkingTable | Calculadora.py:319-324 | The working copy is A with b[i] appended to row i when b is given. |
| Elimination.SplitResult | Calculadora.py:371-377 | The table and the transformed b (when one was appended) rejoin to the working table. |
| Elimination.GaussianElimination | Calculadora.py:305-377 | Same shape as A. b is returned iff it was given. The trace is exactly `ForwardTrace` of the working table. Table and b together are the working table after it, in echelon form. |
| Elimination.GaussJordanElimination | Calculadora.py:431-510 | Same shape as A. b is returned iff it was given. The trace is exactly `ReduceTrace` of the working table. Table and b together are the working table after it, in reduced form. |
| Elimination.PlainEliminationExample | Calculadora.py:334-369 | On [[1, 0], [2, 0]] the trace is the swap of rows 0 and 1, then row 1 minus 0.5·row 0. The result is [[2, 0], [0, 0]]. |
| Elimination.ReducedEliminationExample | Calculadora.py:460-501 | On [[0, 1], [0, 1]] column 0 is skipped, row 1 is divided by 1 and subtracted from row 0. The result is [[0, 0], [0, 1]]. |
| Elimination.EliminationIsReversible | Calculadora.py:334-369 | Every step of either elimination has an inverse step, and undoing the trace gives back the working table. |
| BackSubstitution.PivotColumnFrom | Calculadora.py:406-413 | −1, or a column from j on whose cell exceeds 1e-10, so the division by it is safe. `FindPivotColumn` shows it is the first such column. |
| BackSubstitution.FindPivotColumn | Calculadora.py:406-413 | −1 iff no cell exceeds 1e-10; otherwise the first column that does, which is `PivotColumnFrom`. |
| BackSubstitution.SumRightOf | Calculadora.py:416-423 | `sum_val` is the sum of A[i][j]·x[j] over the columns right of the pivot whose cell exceeds 1e-10. |
| BackSubstitution.SumIsDot | Calculadora.py:420-422 | On a row whose cells are 0 or above 1e-10, the filtered sum is the full sum. |
| BackSubstitution.Substituted | Calculadora.py:395-429 | The loop as a recursive definition from the last row up: failure at an inconsistent zero row; a consistent zero row or one with no pivot leaves x alone; otherwise x[p] = (b[i] − sum) / A[i][p]. A result has one entry per row. |
| BackSubstitution.FailureStays | Calculadora.py:398-403 | Once a row fails, the whole result is `None`: the source returns at once. |
| BackSubstitution.RedundantRowExample | Calculadora.py:395-429 | For A = [[1, 1], [0, 0]] and b = [1, 0] the result is [1, 0]: the zero row is skipped and x[1] keeps its initial 0. |
| BackSubstitution.Solve | Calculadora.py:379-429 | The result is exactly `Substituted` for every input. `None` iff some row is all below 1e-10 with \|b[i]\| ≥ 1e-10. x[p] stays 0 for every column that is nobody's pivot. On a clean upper-triangular A, A·x = b. |
| BackSubstitution.PivotRowSolved | Calculadora.py:425 | Setting x[p] to (b[i] − sum) / A[i][p] solves row i. |
| BackSubstitution.UnaffectedRow | Calculadora.py:425 | Setting x[p] does not disturb a row that is 0 at column p. |
| Inverse.AugmentIdentity | Calculadora.py:535-553 | [A \| I] is n×2n, with A on the left and the identity on the right. |
| Inverse.RightHalf | Calculadora.py:616-620 | The extracted table is columns n to 2n−1 of the final table. |
| Inverse.ClearStepsShape | Calculadora.py:586-592 | Each clearing step subtracts row i from another row before the bound, with a factor of magnitude at least 1e-10. |
| Inverse.PivotStepsShape | Calculadora.py:559-611 | A pivot step goes on iff column i has a cell of magnitude at least 1e-10 at or below the diagonal; all its steps are swaps with a lower row, scalings by such a pivot, or snapped subtractions. |
| Inverse.FailedRunStops | Calculadora.py:573-575 | Once a pivot step has failed, the run takes no further step: the source returns at once. |
| Inverse.SnapSubtractRow | Calculadora.py:595-611 | The cell loop writes snap(row[k] − factor·pivot[k]) into every one of the 2n cells. |
| Inverse.ReplayClearSteps | Calculadora.py:586-611 | Performing the clearing steps yields `ClearedTable`: each other row with \|factor\| ≥ 1e-10 minus factor times the pivot row, snapped, and the other rows as they were. |
| Inverse.SnapSubtractClears | Calculadora.py:595-611 | Against a pivot row with 1 in the column, the snapped subtraction leaves exactly 0 in that column. |
| Inverse.ClearedColumn | Calculadora.py:586-611 | After all rows: `ClearedTable` is the clearing steps replayed, the pivot row is unchanged, and column i is 0 in every cleared row. |
| Inverse.ClearColumnSnapped | Calculadora.py:586-611 | The pivot row is unchanged. Other rows with \|factor\| ≥ 1e-10 get exactly 0 in the column; the others stay unchanged. The steps are exactly `ClearSteps`. |
| Inverse.NormalizeAndClear | Calculadora.py:577-611 | The pivot becomes 1 and every other cell of the column falls below 1e-10. A column that is already a unit column leaves the table unchanged. The steps are the scaling by the pivot followed by `ClearSteps`. |
| Inverse.SwapPivotUp | Calculadora.py:561-570 | The row chosen is `PivotRow`; the table has rows i and k exchanged, by one recorded swap when k ≠ i and none otherwise. |
| Inverse.SwapKeepsSingular | Calculadora.py:566-575 | The swap keeps column i singular or not from row i down, so the test after the swap decides the column as given. |
| Inverse.InvertPivot | Calculadora.py:559-611 | Fails iff no cell of magnitude 1e-10 or more is at or below the diagonal in the column. Otherwise the column is normalised. Steps and outcome are exactly `PivotSteps`, and the table is the input after those steps. On a unit column nothing changes. |
| Inverse.PivotLoop | Calculadora.py:559-613 | The loop over the columns performs exactly the run `InverseTrace` of its table and stops at the first failing column, which has no usable pivot. On [I \| X] nothing changes. |
| Inverse.RightHalfOfIdentityPair | Calculadora.py:616-620 | The right half of [I \| I] is I. |
| Inverse.CalculateInverse | Calculadora.py:512-623 | `None` for non-square input or \|det\| < 1e-10, with no steps taken. Otherwise the trace is exactly `InverseTrace` of [A \| I], the result exists iff that run succeeds, and it is the right half of [A \| I] after the trace. A later failure is justified by a column with no usable pivot. When no snapping changes a cell, result·A is the left half of the final table. The identity's inverse is itself. |
| Inverse.InverseOfTwo | Calculadora.py:559-623 | On [[2]] the run is the single scaling of row 0 by 2, and the inverse is [[0.5]]. |
| Inverse.StepKeepsProduct | Calculadora.py:577-611 | A step whose arithmetic is exact keeps the left half of the table equal to its right half times A. |
| Inverse.ExactRunKeepsProduct | Calculadora.py:559-613 | A whole run of exact steps keeps that relation. |
| Inverse.AugmentIdentityProduct | Calculadora.py:535-553 | [A \| I] satisfies it at the start: A = I·A. |
| Inverse.ProductIsMultiply | Calculadora.py:615-620 | When the relation holds, `multiply_matrices(right half, A)` gives the left half. |
| Inverse.ExactInverseProduct | Calculadora.py:559-623 | After an exact run from [A \| I], the extracted right half times A is the left half of the final table. |
| Lu.ProdByRow | Calculadora.py:671-677 | With L unit lower triangular, (LU)[r][c] = Σ_{k<r} L[r][k]·U[k][c] + U[r][c]. |
| Lu.ProdByColumn | Calculadora.py:683-694 | With U upper triangular, (LU)[r][c] only involves k ≤ c. |
| Lu.SumProducts | Calculadora.py:673-676 | The inner `sum_val` loop is Σ_{k<count} L[r][k]·U[k][c]. |
| Lu.ComputeURow | Calculadora.py:672-678 | U[i][j] = A[i][j] − Σ_{k<i} L[i][k]·U[k][j] for j ≥ i; nothing else changes. |
| Lu.LEntry | Calculadora.py:694 | The new cell L[r][i] times the pivot U[i][i] gives back A[r][i] − Σ_{k<i} L[r][k]·U[k][i]. |
| Lu.ComputeLColumn | Calculadora.py:683-694 | Fails iff a row below i exists and \|U[i][i]\| < 1e-10, changing nothing. Otherwise each row j > i gets L[j][i] = (A[j][i] − Σ_{k<i} L[j][k]·U[k][i]) / U[i][i], and its other cells are unchanged. |
| Lu.RowStep | Calculadora.py:670-678 | Filling row i of U keeps U upper triangular and makes LU agree with A on row i. |
| Lu.ColumnStep | Calculadora.py:681-694 | Filling column i of L keeps L unit lower triangular and makes LU agree with A on column i. |
| Lu.AgreementIsProduct | Calculadora.py:703-705 | Full agreement is `multiply_matrices(L, U) == A`. |
| Lu.LuFactorization | Calculadora.py:625-712 | `None` for non-square input. On success L is unit lower and U upper triangular, LU = A exactly, and every pivot before the last is ≥ 1e-10. A failure on square input comes with a partial factorization stopped at a pivot i < n−1 with \|U[i][i]\| < 1e-10. |
| Registry.Mint | gui.py:58-65 | Gives one upper-case letter for a counter below 26 and two letters from 26 to 701. |
| Registry.Index | gui.py:58-65 | Reads the counter back from an ID: below 702, and below 26 iff the ID has one letter. |
| Registry.IndexOfMint | gui.py:58-65 | Reading back the counter of a minted ID gives the counter. |
| Registry.MintOfIndex | gui.py:58-65 | Every one- or two-letter ID is minted from exactly one counter. |
| Registry.MintInjective | gui.py:43-50 | Distinct counters below 702 give distinct IDs: the "unique ID" of the doc comment. |
| Registry.CommonPrefix | gui.py:493 | The length of the common prefix: the two strings agree before it and differ at it when both go on. |
| Registry.LexLessIsFirstDifference | gui.py:493 | Python's string `<`: a sorts first iff b goes on past the common prefix and either a ends there or has the smaller character there. |
| Registry.LexLessIrreflexive | gui.py:493 | The string order never puts an ID before itself. |
| Registry.LexLessTransitive | gui.py:493 | The string order is transitive. |
| Registry.LexLessTotal | gui.py:493 | Of two distinct strings, one sorts before the other. |
| Registry.TwoLettersBeforeLaterSingle | gui.py:492-493 | "AA" (counter 26) sorts before "B" (counter 1). |
| Registry.Insert | gui.py:490-493 | Adding a new ID to the sorted free list keeps it sorted, with the old members plus the new one. |
| Registry.SortedUnique | gui.py:493 | Two sorted lists with the same members are equal. |
| Registry.InsertIsSort | gui.py:490-493 | Any sorted arrangement of the old list plus the new ID is `Insert`'s result: appending then sorting gives exactly that. |
| Registry.HeadIsLeast | gui.py:54-55 | The head of the sorted free list sorts before every other free ID. |
| Registry.Store.InUseOrFree | gui.py:43-68 | Under the two invariants, the IDs stored or free are exactly the IDs minted so far. |
| Registry.Store.constructor | gui.py:22-25 | Empty store, empty free list, counter 0; both invariants hold. |
| Registry.Store.NextId | gui.py:43-68 | Returns the head of the free list (the smallest free ID) and leaves the counter alone. With an empty free list it mints from the counter and increments it. The ID is never a stored key. |
| Registry.Store.Create | gui.py:99-101 | Stores the matrix under that ID, which was not a key before; both invariants are kept. |
| Registry.Store.Delete | gui.py:471-498 | An unknown ID fails and changes nothing. A known ID leaves the store, joins the free list at its sorted place, and both invariants are kept. |

## Left out

- Console I/O and the menu: `print_matrix`, the input helpers and `main_menu`.
- The printed step narration and its number formatting. The eliminations and the inverse return abstract `Step` records instead.
- The web layer: routes, form parsing, JSON replies, stdout capture, and the browser script under `static/`.
- Floating point: values are exact reals, so rounding error and IEEE special values are not modelled.
- The `except ZeroDivisionError` handlers of elimination and LU. Every division is behind a test against 1e-10, so they are unreachable.
- LuFactorization: the `multiply_matrices(L, U)` call after the loops only prints. It is stated instead as the proved `Multiply(l, u) == Some(a)`.
- LuFactorization: the source fills U's first row and L's first column in a separate loop. The model runs them as step 0 of the general loop, whose sums over k < 0 are empty. The values and the pivot test are the same: a failure exactly when n > 1 and |U[0][0]| < 1e-10.
- LuFactorization: on failure the source returns only `None`. The model also returns the L and U reached, as evidence for the failure.
- CalculateInverse: because of snapping, the right half is not claimed to be an exact inverse in general. When no snapping changes a cell (`ExactRun`), R·A is proved equal to the left half of the final table.
- CalculateInverse: that left half is not proved to be the identity. Right after its own pivot step, a column has 1 on the diagonal and its other cells below `1e-10`, not necessarily 0. What later pivot steps do to it is not tracked.
- Solve: requires each row to have at least as many cells as there are rows, and b to have at least that many entries. This is the source's square-system assumption, weakened to what the indexing needs.
- GaussianElimination: requires rows ≤ columns, counting the appended b, because the source indexes A[i][i] for every row. The same holds for GaussJordanElimination.
- Mint: the two-letter formula only gives letters for counters below 702; beyond that the source produces other characters. Store.NextId therefore requires a non-empty free list or a counter below 702.
- Store.Delete: Python's `append` followed by `sort()` is modelled as insertion at the sorted position. `InsertIsSort` proves that this is the only sorted result.
