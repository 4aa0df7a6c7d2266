# Direct and iterative linear solvers, modelled in Dafny

This project models the two linear-system solvers of a numerical-methods
course repository and proves properties of them in exact real arithmetic.

- GEPP is Gaussian elimination with optional partial pivoting. It works in
  place on the caller's matrix A and vector b, then back-substitutes.
- det runs GEPP with pivoting on A against a vector of ones and returns the
  product of the diagonal that GEPP leaves in A.
- gauss_seidel sweeps from x = 0. Each row update uses the new entries left
  of the diagonal and the previous iterate right of it. It stops when the
  relative infinity-norm change drops below the tolerance, and raises
  StopIteration when the loop index reaches max_iterations - 1.
- isDDM is the script's diagonal-dominance test.

The project has five modules:

- `Matrices` holds vectors, matrices, partial dot products over row slices
  (numpy's `np.dot(A[k, lo:hi], x[lo:hi])`) and the view of an `array2` as
  a matrix of rows.
- `EliminationSpec` defines GEPP and det as pure functions over a system
  (A, b). It proves their properties:
  - a returned x solves the original system;
  - with pivoting, GEPP returns a solution exactly when A is non-singular
    (A x = 0 only for x = 0);
  - the reduced A is upper triangular;
  - each raised error has its exact condition;
  - pivoting permutes the equations;
  - det of the identity is 1;
  - det on every 2 x 2 matrix, plus the script's own test systems.
- `GaussElimination` holds the imperative GEPP and det. They work on
  `array2<real>` and `array<real>` with `modifies` clauses. Each method is
  proved to leave the arrays as the reference functions say, and to return
  what they return. Its loops follow the source's loops: pivot search, row
  swap, row reduction, back-substitution.
- `SeidelSpec` defines the Gauss-Seidel sweep, the stopping test, the
  iteration and isDDM as pure functions. It proves:
  - the Gauss-Seidel row equation of a sweep;
  - a sweep fixes exactly the solutions;
  - the stopping test is numpy's `norm(x - x_old, inf) / norm(x, inf) < tol`;
  - which outcome the iteration reaches;
  - how the signed dominance test relates to true diagonal dominance.
- `GaussSeidel` holds the imperative gauss_seidel and isDDM. The iterate is
  an `array<real>` that each sweep overwrites row by row. Each method is
  proved to return what the reference functions of `SeidelSpec` return.

Numbers are exact `real`s. numpy divides by zero to inf or nan without
raising. In GEPP's back-substitution this is modelled as an outcome
`NonFinite(row)`, which names the zero diagonal entry and stops there. In
gauss_seidel every later relative error is then nan, and nan is never
below the tolerance, so the model goes straight to the StopIteration the
loop ends in. Raised exceptions are the error outcomes:

- `SizeMismatch`, `SingularMatrix` and `ZeroPivot` for GEPP;
- `MaxIterationsExceeded(k)` for StopIteration;
- `EmptyNorm` for the ValueError numpy raises on the norm of an empty vector;
- `UnboundIterationIndex` for the NameError when `max_iterations <= 0`
  leaves `k` unbound.

Where the code and its written description disagree, the model follows the
code:

- isDDM sums the signed entries of a row, where dominance takes magnitudes.
  This is logged below as a finding.
- The relative error of gauss_seidel has no fallback when norm(x) is 0. In
  numpy the quotient is nan or inf, and neither is below the tolerance, so
  the model's stopping test is false there.
- A zero diagonal entry is not rejected before the Gauss-Seidel loop. The
  model ends, as the code does, in StopIteration at index
  max_iterations - 1.
- det does not correct the sign for row swaps. This is logged below as a
  finding.
- GEPP's docstring says x comes back with its entries permuted by the
  pivoting. The code swaps rows only, not unknowns, so x is the solution of
  the original system with its entries in their original order. See
  `EliminationSpec.GeppSolvesSystem` and `EliminationSpec.SwapExampleSolves`.

## Model

| member | source | states |
|---|---|---|
| EliminationSpec.PivotIndex | 03-Computational_Linear_Algebra/gauss_method_ex.py:35 | the pivot row is in k..n-1, has the largest magnitude in column k, and is the first row that does (numpy argmax ties) |
| EliminationSpec.PivotStep | 03-Computational_Linear_Algebra/gauss_method_ex.py:33-44 | step k before the reduction: with pivoting, SingularMatrix when the largest magnitude in column k from row k down is 0, else rows k and argmax exchanged in A and b; without pivoting, ZeroPivot when A[k][k] is 0, else the system unchanged |
| EliminationSpec.PivotStepValid | 03-Computational_Linear_Algebra/gauss_method_ex.py:33-44 | the step raises exactly when column k is zero from row k down (SingularMatrix, with pivoting) or A[k][k] is zero (ZeroPivot, without); otherwise the pivot is non-zero, rows above k are untouched, and the equations (row of A, entry of b) are a permutation of the old ones |
| EliminationSpec.SwappedPermutes | 03-Computational_Linear_Algebra/gauss_method_ex.py:39-41 | exchanging two rows is a permutation of the rows |
| EliminationSpec.PivotStepKeepsReduced | 03-Computational_Linear_Algebra/gauss_method_ex.py:39-41 | a swap among rows k..n-1 keeps the zeros already made below the diagonal in columns < k, and keeps the earlier pivots |
| EliminationSpec.ReducedColumn | 03-Computational_Linear_Algebra/gauss_method_ex.py:46-49 | after reducing with the multiplier A[row,k]/A[k,k], column k is zero below the diagonal; columns < k and rows 0..k are unchanged |
| EliminationSpec.ReducedColumnKeepsSolutions | 03-Computational_Linear_Algebra/gauss_method_ex.py:46-49 | x solves the reduced system exactly when it solves the system before the reduction |
| EliminationSpec.ReducedRowEquation | 03-Computational_Linear_Algebra/gauss_method_ex.py:47-49 | given the pivot equation, a reduced row's equation holds exactly when the row's original equation does |
| EliminationSpec.ReducedRowDot | 03-Computational_Linear_Algebra/gauss_method_ex.py:48 | the reduced row against x is the old row against x less the multiplier times the pivot row against x |
| EliminationSpec.SwapKeepsSolutions | 03-Computational_Linear_Algebra/gauss_method_ex.py:39-41 | x solves the swapped system exactly when it solves the unswapped one |
| EliminationSpec.StepKeepsSolutions | 03-Computational_Linear_Algebra/gauss_method_ex.py:33-49 | x solves the system after a whole elimination step (pivot, swap, reduce) exactly when it solves the system before it: the step neither loses nor adds a solution |
| EliminationSpec.EliminateFrom | 03-Computational_Linear_Algebra/gauss_method_ex.py:32-49 | the elimination loop `for k in range(n-1)` from step k: a PivotStep then a ReducedColumn per step, stopping at the first raised error with A and b as that step found them; the final system stays square with n rows |
| EliminationSpec.EliminateFromReduces | 03-Computational_Linear_Algebra/gauss_method_ex.py:32-49 | if no error is raised, A ends upper triangular with all diagonal entries non-zero except possibly the last, which no step checks |
| EliminationSpec.EliminateFromTriangular | 03-Computational_Linear_Algebra/gauss_method_ex.py:32-49 | if no error is raised, A ends upper triangular |
| EliminationSpec.EliminateFromPivots | 03-Computational_Linear_Algebra/gauss_method_ex.py:32-49 | if no error is raised, diagonal entries 0..n-2 end non-zero |
| EliminationSpec.EliminationStepFacts | 03-Computational_Linear_Algebra/gauss_method_ex.py:32-49 | one step that does not raise hands on a square system with one more reduced column and one more non-zero pivot |
| EliminationSpec.EliminateFromKeepsSolutions | 03-Computational_Linear_Algebra/gauss_method_ex.py:32-49 | x solves the final reduced system exactly when it solves the system the elimination started from |
| EliminationSpec.EliminateFromFailure | 03-Computational_Linear_Algebra/gauss_method_ex.py:36-44 | with pivoting the only error raised is SingularMatrix, without it only ZeroPivot |
| EliminationSpec.LastZeroPivot | 03-Computational_Linear_Algebra/gauss_method_ex.py:52-53 | the highest zero diagonal entry, the first one back-substitution divides by, or -1 when there is none |
| EliminationSpec.BackSubstFrom | 03-Computational_Linear_Algebra/gauss_method_ex.py:51-53 | x after the back-substitution loop has filled rows n-1 down to k, x[k] = (b[k] - A[k, k+1:] . x[k+1:]) / A[k, k], from np.zeros(n); the rows below k are still 0 |
| EliminationSpec.BackSubstFromSolves | 03-Computational_Linear_Algebra/gauss_method_ex.py:51-53 | every row the loop has filled satisfies its triangular equation sum_{j >= i} A[i][j] x[j] == b[i] |
| EliminationSpec.BackSubstitution | 03-Computational_Linear_Algebra/gauss_method_ex.py:51-54 | a division by zero happens exactly when some diagonal entry is zero, at the highest one; otherwise x satisfies every triangular row equation |
| EliminationSpec.GeppSpec | 03-Computational_Linear_Algebra/gauss_method_ex.py:23-26 | a b whose size is not n raises the size error and leaves A and b unchanged |
| EliminationSpec.GeppSolvesSystem | 03-Computational_Linear_Algebra/gauss_method_ex.py:11-54 | a returned x solves the original system A x = b |
| EliminationSpec.GeppSolvesExactlyNonSingular | 03-Computational_Linear_Algebra/gauss_method_ex.py:32-54 | with pivoting, GEPP returns a solution if and only if A has no non-zero x with A x = 0; so "Matrix is singular." and a zero last pivot both happen exactly for singular A |
| EliminationSpec.EliminateFromIgnoresRhs | 03-Computational_Linear_Algebra/gauss_method_ex.py:32-49 | elimination does the same to A, and raises the same error, whatever b is; from b = 0 it ends with b = 0 |
| EliminationSpec.EliminateFromStuck | 03-Computational_Linear_Algebra/gauss_method_ex.py:33-37 | when "Matrix is singular." is raised at step j, the columns before j are reduced below non-zero pivots and column j is zero from row j down |
| EliminationSpec.StuckNullVector | 03-Computational_Linear_Algebra/gauss_method_ex.py:36-37 | a matrix left in that state has a non-zero x with A x = 0, so it is singular |
| EliminationSpec.TriangularKernelZero | 03-Computational_Linear_Algebra/gauss_method_ex.py:51-53 | an upper triangular A with a non-zero diagonal has only x = 0 as a solution of A x = 0 |
| EliminationSpec.SolvedHasNoNullVector | 03-Computational_Linear_Algebra/gauss_method_ex.py:32-54 | when GEPP with pivoting returns a solution, no non-zero x has A x = 0 |
| EliminationSpec.FailureNullVector | 03-Computational_Linear_Algebra/gauss_method_ex.py:32-54 | when GEPP with pivoting raises or divides by a zero last pivot, some non-zero x has A x = 0 |
| EliminationSpec.GeppReducedForm | 03-Computational_Linear_Algebra/gauss_method_ex.py:11-54 | unless an error is raised, A is left upper triangular with every pivot but the last non-zero; only a zero last pivot gives a non-finite x; x solves the reduced system row by row |
| EliminationSpec.FirstSystemWithoutPivoting | 03-Computational_Linear_Algebra/gauss_method_ex.py:63-71 | the script's first system is solved without pivoting |
| EliminationSpec.SecondSystemNeedsPivoting | 03-Computational_Linear_Algebra/gauss_method_ex.py:77-87 | the script's second system raises ZeroPivot without pivoting, and is solved with it |
| EliminationSpec.SwapExampleSolves | 03-Computational_Linear_Algebra/gauss_method_ex.py:11-54 | [[0, 1], [1, 0]] x = [1, 2] raises ZeroPivot without pivoting; with pivoting it returns x = [2, 1], not permuted |
| EliminationSpec.Determinant | 03-Computational_Linear_Algebra/gauss_method_ex.py:57-59 | det(A): GEPP with pivoting against np.ones(n); a raised error propagates, otherwise the product of the diagonal of the reduced A, with no sign for the swaps |
| EliminationSpec.DeterminantZeroExactlySingular | 03-Computational_Linear_Algebra/gauss_method_ex.py:57-59 | det raises or returns 0 exactly when A is singular, that is when some non-zero x has A x = 0; so a non-singular A gives a non-zero det |
| EliminationSpec.DiagonalProductZero | 03-Computational_Linear_Algebra/gauss_method_ex.py:59 | the product of the first hi diagonal entries is 0 exactly when one of them is 0 |
| EliminationSpec.DeterminantFacts | 03-Computational_Linear_Algebra/gauss_method_ex.py:57-59 | det raises only SingularMatrix, exactly when its GEPP call raises; otherwise it leaves A upper triangular |
| EliminationSpec.EliminateIdentity | 03-Computational_Linear_Algebra/gauss_method_ex.py:57-59 | elimination with pivoting leaves the identity matrix and any b unchanged |
| EliminationSpec.DeterminantOfIdentity | 03-Computational_Linear_Algebra/gauss_method_ex.py:57-59 | det of the identity matrix of every size is 1 |
| EliminationSpec.DeterminantOfTwoByTwo | 03-Computational_Linear_Algebra/gauss_method_ex.py:57-59 | det of every [[a, b], [c, d]] is a d - b c without a swap, b c - a d when abs(c) > abs(a) swaps the rows, and SingularMatrix when a = c = 0 |
| EliminationSpec.DeterminantIgnoresSwapSign | 03-Computational_Linear_Algebra/gauss_method_ex.py:57-59 | det of [[0, 1], [1, 0]] returns 1, while the determinant is -1 |
| EliminationSpec.SwapSign | 03-Computational_Linear_Algebra/gauss_method_ex.py:39-41 | the sign of the row permutation the pivoting applies is 1 or -1 |
| EliminationSpec.SignedDeterminantOfTwoByTwo | 03-Computational_Linear_Algebra/gauss_method_ex.py:57-59 | with the swap sign restored, det of every [[a, b], [c, d]] is a d - b c, or SingularMatrix when a = c = 0 |
| GaussElimination.PivotRow | 03-Computational_Linear_Algebra/gauss_method_ex.py:35 | returns the first row from k down whose abs(A[r, k]) is largest, that is PivotIndex |
| GaussElimination.SwapRows | 03-Computational_Linear_Algebra/gauss_method_ex.py:39-41 | exchanges rows k and p of A and entries k and p of b, and changes nothing else |
| GaussElimination.SubtractPivotRow | 03-Computational_Linear_Algebra/gauss_method_ex.py:48-49 | row `row` of A loses m times row k in columns k..n-1, b[row] loses m b[k], and nothing else changes |
| GaussElimination.EliminateBelow | 03-Computational_Linear_Algebra/gauss_method_ex.py:46-49 | leaves A and b as ReducedColumn of their old contents |
| GaussElimination.BackSubstitute | 03-Computational_Linear_Algebra/gauss_method_ex.py:51-54 | returns BackSubstitution of the reduced system |
| GaussElimination.EliminationStep | 03-Computational_Linear_Algebra/gauss_method_ex.py:33-49 | a raised error is the one PivotStep names, with A and b left as found; otherwise A and b become ReducedColumn of the pivoted system |
| GaussElimination.Eliminate | 03-Computational_Linear_Algebra/gauss_method_ex.py:32-49 | leaves A and b as the elimination loop of the reference leaves them, and returns the error it raises, if any |
| GaussElimination.Gepp | 03-Computational_Linear_Algebra/gauss_method_ex.py:11-54 | returns GeppSpec's outcome and leaves A and b in GeppSpec's final state |
| GaussElimination.Det | 03-Computational_Linear_Algebra/gauss_method_ex.py:57-59 | returns Determinant of the old A and leaves A reduced as GEPP leaves it |
| SeidelSpec.FirstZeroDiagonal | 03-Computational_Linear-Algebra/gauss_seidel_ex.py:33-35 | the first row whose diagonal entry is zero, the first division by zero of a sweep, or n when there is none |
| SeidelSpec.RowUpdate | 03-Computational_Linear-Algebra/gauss_seidel_ex.py:34-35 | the new x[i] of a sweep: (b[i] - A[i, :i] . x[:i] - A[i, i+1:] . x_old[i+1:]) / A[i, i] |
| SeidelSpec.Sweep | 03-Computational_Linear-Algebra/gauss_seidel_ex.py:33-35 | one sweep `for i in range(A.shape[0])` from x_old, row by row, each row using the rows updated before it; x keeps length n |
| SeidelSpec.Sweeps | 03-Computational_Linear-Algebra/gauss_seidel_ex.py:24-35 | the iterate after j sweeps from x = np.zeros_like(b); x keeps length n |
| SeidelSpec.SweepTo | 03-Computational_Linear-Algebra/gauss_seidel_ex.py:33-35 | after the rows before i are updated, rows from i on still hold x_old |
| SeidelSpec.SweepKeepsEarlierRows | 03-Computational_Linear-Algebra/gauss_seidel_ex.py:33-35 | a row keeps the value its update set while later rows are updated |
| SeidelSpec.SweepToEquation | 03-Computational_Linear-Algebra/gauss_seidel_ex.py:33-35 | every updated row i satisfies A[i][i] x[i] + sum_{j<i} A[i][j] x[j] + sum_{j>i} A[i][j] x_old[j] == b[i] |
| SeidelSpec.SweepEquation | 03-Computational_Linear-Algebra/gauss_seidel_ex.py:33-35 | after a full sweep, every row satisfies that Gauss-Seidel equation |
| SeidelSpec.SweepFixedPoint | 03-Computational_Linear-Algebra/gauss_seidel_ex.py:33-35 | a sweep from an exact solution of A x = b leaves it unchanged |
| SeidelSpec.SweepFixedPointSolves | 03-Computational_Linear-Algebra/gauss_seidel_ex.py:33-35 | an iterate a sweep leaves unchanged is an exact solution of A x = b |
| SeidelSpec.MaxAbsPrefix | 03-Computational_Linear-Algebra/gauss_seidel_ex.py:37-38 | the largest magnitude among the first hi entries is non-negative and bounds each of them |
| SeidelSpec.MaxAbsPrefixAttained | 03-Computational_Linear-Algebra/gauss_seidel_ex.py:37-38 | that maximum is the magnitude of one of the entries |
| SeidelSpec.InfNorm | 03-Computational_Linear-Algebra/gauss_seidel_ex.py:37-38 | numpy's infinity norm is non-negative and bounds the magnitude of every entry |
| SeidelSpec.InfNormZero | 03-Computational_Linear-Algebra/gauss_seidel_ex.py:37-38 | the infinity norm is zero exactly for the zero vector |
| SeidelSpec.RelativeErrorBelowMeans | 03-Computational_Linear-Algebra/gauss_seidel_ex.py:37-44 | the division-free stopping test holds exactly when norm(x) is non-zero and norm(x - x_old) / norm(x) < tolerance |
| SeidelSpec.GaussSeidelSpec | 03-Computational_Linear-Algebra/gauss_seidel_ex.py:11-48 | gauss_seidel as written: UnboundIterationIndex (the NameError) when max_iterations <= 0; EmptyNorm for an empty A; StopIteration at max_iterations - 1 with a zero diagonal entry; otherwise StopIteration when the loop leaves at the last index, else the iterate that met the tolerance |
| SeidelSpec.ExitIndexIsFirst | 03-Computational_Linear-Algebra/gauss_seidel_ex.py:29-44 | the loop leaves at the first index whose sweep meets the tolerance, or at the last index when none before it does |
| SeidelSpec.GaussSeidelOutcomes | 03-Computational_Linear-Algebra/gauss_seidel_ex.py:11-48 | the result is either converged or StopIteration carrying max_iterations - 1; a converged x is the first iterate before the last iteration to meet the tolerance; StopIteration is raised exactly when no iterate before the last iteration meets it |
| SeidelSpec.AsWrittenDiffersOnlyAtLastIteration | 03-Computational_Linear-Algebra/gauss_seidel_ex.py:45-46 | the code as written and the intended version differ only when the first sweep to meet the tolerance is the last one allowed |
| SeidelSpec.LastIterationConvergenceRaises | 03-Computational_Linear-Algebra/gauss_seidel_ex.py:45-46 | for A = [[1]], b = [1], tolerance 2 and max_iterations 1, the only sweep meets the tolerance, yet StopIteration is raised |
| SeidelSpec.GaussSeidelIntendedOutcomes | 03-Computational_Linear-Algebra/gauss_seidel_ex.py:29-46 | the intended version returns the first iterate within max_iterations sweeps that meets the tolerance, and raises exactly when none does |
| SeidelSpec.RowPassesSigned | 03-Computational_Linear-Algebra/gauss_seidel_ex.py:59-60 | row i passes isDDM's test unless abs(m[i, i]) < np.sum(m[i]) - abs(m[i, i]), with the signed sum of the whole row |
| SeidelSpec.SignedDominance | 03-Computational_Linear-Algebra/gauss_seidel_ex.py:51-63 | isDDM(m, n) as written: every row i < n passes the signed test; true when n <= 0 |
| SeidelSpec.DiagonallyDominantMeans | 03-Computational_Linear-Algebra/gauss_seidel_ex.py:51-63 | in the corrected test, every row i < n has abs(a_ii) >= the sum of abs(a_ij) over j != i |
| SeidelSpec.AbsRowSumLessDiagonal | 03-Computational_Linear-Algebra/gauss_seidel_ex.py:59 | the sum of magnitudes less the diagonal magnitude is the off-diagonal sum of magnitudes |
| SeidelSpec.RowSumAtMostAbsRowSum | 03-Computational_Linear-Algebra/gauss_seidel_ex.py:59 | the signed row sum is at most the sum of magnitudes |
| SeidelSpec.DominanceImpliesSignedTest | 03-Computational_Linear-Algebra/gauss_seidel_ex.py:51-63 | every diagonally dominant matrix passes isDDM's signed test |
| SeidelSpec.SignedTestAdmitsNonDominant | 03-Computational_Linear-Algebra/gauss_seidel_ex.py:59-60 | the converse fails: [[1, -5], [0, 1]] passes the signed test but is not diagonally dominant |
| SeidelSpec.ScriptDominanceVectors | 03-Computational_Linear-Algebra/gauss_seidel_ex.py:74-94 | the script's first matrix fails isDDM at row 1; its second matrix passes and is truly dominant |
| GaussSeidel.StopTest | 03-Computational_Linear-Algebra/gauss_seidel_ex.py:37-44 | computes `error < tolerance` from the two norms, false when norm(x) is 0, and equals RelativeErrorBelow |
| GaussSeidel.SweepRows | 03-Computational_Linear-Algebra/gauss_seidel_ex.py:33-35 | without a zero diagonal entry, x becomes Sweep(A, b, x_old) over the frozen value x_old; otherwise it reports the first zero diagonal entry; only x is written |
| GaussSeidel.GaussSeidelSolve | 03-Computational_Linear-Algebra/gauss_seidel_ex.py:11-48 | returns GaussSeidelSpec of A, b, tolerance and max_iterations, including StopIteration at max_iterations - 1 when A has a zero diagonal entry; the iterate starts as zeros of length n, and A and b are only read (no modifies clause) |
| GaussSeidel.IsDdm | 03-Computational_Linear-Algebra/gauss_seidel_ex.py:51-63 | returns true exactly when no row i < n has abs(m[i, i]) < np.sum(m[i]) - abs(m[i, i]) (SignedDominance), reading only rows 0..n-1 and writing nothing |

## Left out

- Floating point: entries are exact reals. Rounding, overflow, the 1e-10
  default tolerance's numerical meaning and error growth are not modelled.
  The residual-percentage prints of the scripts depend on them.
- inf and nan: numpy continues after a division by zero. GEPP's model
  stops there with `NonFinite(row)` and does not follow the non-finite
  values further.
- GaussSeidel.GaussSeidelSolve: after a zero diagonal entry it does not run
  the sweeps over inf and nan; it returns StopIteration at
  max_iterations - 1 at once, the outcome those sweeps end in.
- gauss_seidel's `verbose` printing and every `print` of the scripts:
  output only.
- Convergence of Gauss-Seidel for dominant matrices, and non-convergence of
  the script's last system within 100000 iterations: no convergence theory
  is modelled.
- GaussSeidel.GaussSeidelSolve: requires A square with b of matching size,
  where numpy would broadcast or raise on a mismatch.
- GaussElimination.Gepp: requires A square (`A.Length0 == A.Length1`) and
  does not model numpy's behaviour on a non-square A. The size check on b
  is modelled.
- GaussSeidel.IsDdm: requires n within both dimensions of m, where numpy can
  raise IndexError.
- GaussSeidel.StopTest: computes the infinity norms with the functions of
  SeidelSpec rather than with a loop, as numpy computes them out of view.
- GaussElimination.Gepp: models GEPP, and GaussElimination.Det models det,
  for float arrays only. An integer A or b keeps its dtype, so each store
  into A and b at gauss_method_ex.py:48-49 truncates the reduced entry. For
  example A = [[2, 1], [1, 1]] and b = [3, 2] become [[2, 1], [0, 0]] and
  [3, 0]: the code divides 0 by 0 and det returns 0, where the model gives
  x = [1, 1] and det 1. The script's GEPP and det calls use float arrays.
- gauss_seidel on integer arrays is modelled in reals: it only reads A and
  b, and its x is a float array, so numpy converts in every expression.
- lu_decomp_ex.py, the root-finding and the interpolation scripts are not
  part of this model.

## Findings

| source | as written | input that shows it | evidently intended | confidence | as-written member | corrected member |
|---|---|---|---|---|---|---|
| 03-Computational_Linear-Algebra/gauss_seidel_ex.py:59 | the row sum is np.sum(m[i]), signed | [[1, -5], [0, 1]]: row 0 sum is -4, so the test passes although abs(-5) > abs(1) | sum of abs(m[i, j]) over the row, less abs(m[i, i]) | high, not executed | SeidelSpec.SignedTestAdmitsNonDominant | SeidelSpec.DiagonallyDominantMeans |
| 03-Computational_Linear_Algebra/gauss_method_ex.py:59 | det is the product of the reduced diagonal, with no sign for row swaps | [[0, 1], [1, 0]]: pivoting swaps the rows and det returns 1, the determinant is -1 | multiply by -1 for each swap | high, not executed | EliminationSpec.DeterminantIgnoresSwapSign | EliminationSpec.SignedDeterminantOfTwoByTwo |
| 03-Computational_Linear-Algebra/gauss_seidel_ex.py:45-46 | StopIteration whenever the loop ended at k == max_iterations - 1, even after a break there | A = [[1]], b = [1], tolerance 2, max_iterations 1: the only sweep meets the tolerance and StopIteration is raised | raise only when no sweep met the tolerance | medium, not executed | SeidelSpec.LastIterationConvergenceRaises | SeidelSpec.GaussSeidelIntendedOutcomes |

`SeidelSpec.SignedDominance`, `EliminationSpec.Determinant` and
`SeidelSpec.GaussSeidelSpec` define the code as written. The imperative
methods compute these, because they model the code.
`SeidelSpec.DiagonallyDominant`, `EliminationSpec.SignedDeterminant` and
`SeidelSpec.GaussSeidelIntended` are the corrected definitions. Each is
related to its as-written counterpart:

- `DominanceImpliesSignedTest`: true dominance implies the signed test;
- `SignedDeterminant` is defined as the as-written det times `SwapSign`,
  the sign of the row swaps. `DeterminantOfTwoByTwo` and
  `SignedDeterminantOfTwoByTwo` show on every 2 x 2 matrix that the first
  is a d - b c up to that sign and the second is a d - b c exactly;
- `AsWrittenDiffersOnlyAtLastIteration`: the two versions of gauss_seidel
  part only when the first sweep to meet the tolerance is the last one
  allowed.
