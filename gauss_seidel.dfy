/** gauss_seidel and isDDM as the script runs them. The iterate lives in an
    array that each sweep overwrites row by row; A and b are only read. Each
    method is proved to return what the reference functions of SeidelSpec
    compute. */
module GaussSeidel {
  import opened Matrices
  import opened SeidelSpec

  /** The stopping test `norm(x - x_old, inf) / norm(x, inf) < tolerance` for a
      nonempty iterate (numpy raises on the norm of an empty vector). */
  method StopTest(x: Vector, xOld: Vector, tolerance: real) returns (stop: bool)
    requires |x| == |xOld| && |x| > 0
    ensures stop == RelativeErrorBelow(x, xOld, tolerance)
  {
    var diffNorm := InfNorm(Difference(x, xOld));
    var norm := InfNorm(x);
    RelativeErrorBelowMeans(x, xOld, tolerance);
    if norm == 0.0 {
      // numpy: 0/0 is nan and d/0 is inf for d > 0; neither is below the tolerance.
      return false;
    }
    var error := diffNorm / norm;
    stop := error < tolerance;
  }

  /** One sweep `for i in range(A.shape[0])` over x, from the previous iterate
      xOld. The first zero diagonal entry is reported instead of dividing by it. */
  method SweepRows(A: array2<real>, b: array<real>, x: array<real>, xOld: Vector) returns (zero: Option<nat>)
    requires A.Length0 == A.Length1 == b.Length == x.Length == |xOld|
    requires x != b && x[..] == xOld
    modifies x
    ensures zero.None? ==> DiagonalNonZero(Rows(A)) && x[..] == Sweep(Rows(A), b[..], xOld)
    ensures zero.Some? ==> !DiagonalNonZero(Rows(A)) && zero.value == FirstZeroDiagonal(Rows(A), 0)
  {
    ghost var M, v := Rows(A), b[..];
    var n := A.Length0;
    var i := 0;
    while i < n
      invariant 0 <= i <= n
      invariant forall r :: 0 <= r < i ==> M[r][r] != 0.0
      invariant x[..] == SweepTo(M, v, xOld, i)
    {
      if A[i, i] == 0.0 {
        return Some(i);
      }
      x[i] := (b[i] - DotRange(RowOf(A, i), x[..], 0, i) - DotRange(RowOf(A, i), xOld, i + 1, n)) / A[i, i];
      i := i + 1;
    }
    zero := None;
  }

  /** gauss_seidel(A, b, tolerance, max_iterations): sweeps from x = 0 until the
      relative change is below the tolerance, failing when the last iteration
      is reached. */
  method GaussSeidelSolve(A: array2<real>, b: array<real>, tolerance: real, maxIterations: int) returns (r: SeidelOutcome)
    requires A.Length0 == A.Length1 == b.Length
    ensures r == GaussSeidelSpec(Rows(A), b[..], tolerance, maxIterations)
  {
    ghost var M, v := Rows(A), b[..];
    var n := b.Length;
    var x := new real[n](_ => 0.0);
    if maxIterations <= 0 {
      // The loop body never runs and `k` is unbound at the final test.
      return Failed(UnboundIterationIndex);
    }
    var k: nat := 0;
    while true
      invariant k < maxIterations
      invariant Reached(M, v, tolerance, maxIterations, k, x[..])
      decreases maxIterations - k
    {
      var xOld := x[..];
      var zero := SweepRows(A, b, x, xOld);
      if zero.Some? {
        // numpy divides by the zero to inf or nan; every relative error from
        // here on is nan, so no iteration breaks and the range runs out.
        SpecAtZeroDiagonal(M, v, tolerance, maxIterations);
        return Failed(MaxIterationsExceeded(maxIterations - 1));
      }
      if n == 0 {
        return Failed(EmptyNorm);
      }
      var stop := StopTest(x[..], xOld, tolerance);
      if stop || k == maxIterations - 1 {
        // break, or the range is exhausted
        ReachedExit(M, v, tolerance, maxIterations, k, xOld, x[..]);
        if k == maxIterations - 1 {
          return Failed(MaxIterationsExceeded(k));
        }
        return Converged(x[..]);
      }
      ReachedNext(M, v, tolerance, maxIterations, k, xOld, x[..]);
      k := k + 1;
    }
  }

  /** The loop state at the start of iteration k: x is k sweeps from zero, and
      no earlier iteration left the loop. */
  ghost predicate Reached(M: Matrix, v: Vector, tolerance: real, maxIterations: int, k: nat, x: Vector)
    requires IsSystem(M, v) && k < maxIterations
  {
    if k == 0 then x == Zeros(|M|)
    else DiagonalNonZero(M) && x == Sweeps(M, v, k) &&
         ExitIndex(M, v, tolerance, maxIterations, 0) == ExitIndex(M, v, tolerance, maxIterations, k)
  }

  /** With a zero on the diagonal StopIteration is raised at the last loop index. */
  lemma SpecAtZeroDiagonal(M: Matrix, v: Vector, tolerance: real, maxIterations: int)
    requires IsSystem(M, v) && maxIterations > 0 && !DiagonalNonZero(M)
    ensures GaussSeidelSpec(M, v, tolerance, maxIterations) == Failed(MaxIterationsExceeded(maxIterations - 1))
  {
  }

  /** An iteration that does not stop leads to the state of iteration k + 1. */
  lemma ReachedNext(M: Matrix, v: Vector, tolerance: real, maxIterations: int, k: nat, xOld: Vector, x: Vector)
    requires IsSystem(M, v) && k < maxIterations - 1 && |xOld| == |M| && DiagonalNonZero(M)
    requires Reached(M, v, tolerance, maxIterations, k, xOld)
    requires x == Sweep(M, v, xOld) && !RelativeErrorBelow(x, xOld, tolerance)
    ensures Reached(M, v, tolerance, maxIterations, k + 1, x)
  {
    assert xOld == Sweeps(M, v, k);
    assert !MeetsTolerance(M, v, tolerance, k + 1);
  }

  /** An iteration that stops gives the outcome of the reference. */
  lemma ReachedExit(M: Matrix, v: Vector, tolerance: real, maxIterations: int, k: nat, xOld: Vector, x: Vector)
    requires IsSystem(M, v) && k < maxIterations && |xOld| == |M| && |M| > 0 && DiagonalNonZero(M)
    requires Reached(M, v, tolerance, maxIterations, k, xOld)
    requires x == Sweep(M, v, xOld) && (RelativeErrorBelow(x, xOld, tolerance) || k == maxIterations - 1)
    ensures GaussSeidelSpec(M, v, tolerance, maxIterations) ==
              if k == maxIterations - 1 then Failed(MaxIterationsExceeded(k)) else Converged(x)
  {
    assert xOld == Sweeps(M, v, k);
    assert x == Sweeps(M, v, k + 1);
    assert ExitIndex(M, v, tolerance, maxIterations, k) == k;
  }

  /** isDDM(m, n): false at the first row i < n whose |m[i, i]| is below the
      signed row sum less |m[i, i]|, true when there is none. */
  method IsDdm(m: array2<real>, n: int) returns (r: bool)
    requires n <= m.Length0 && n <= m.Length1
    ensures r == SignedDominance(Rows(m), n)
  {
    ghost var M := Rows(m);
    var i := 0;
    while i < n
      invariant 0 <= i <= if n < 0 then 0 else n  // a negative n runs no row
      invariant forall j :: 0 <= j < i ==> RowPassesSigned(M, j)
    {
      var sum := RowSum(RowOf(m, i), m.Length1) - Abs(m[i, i]);
      if Abs(m[i, i]) < sum {
        assert !RowPassesSigned(M, i);
        return false;
      }
      i := i + 1;
    }
    return true;
  }
}
