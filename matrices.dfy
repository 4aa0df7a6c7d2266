/** Shared vocabulary of both solvers: exact real vectors and square matrices,
    the partial dot products the solvers take over row slices, and the view of
    a two-dimensional array as a matrix of rows. */
module Matrices {

  type Vector = seq<real>
  type Matrix = seq<seq<real>>

  datatype Option<T> = None | Some(value: T)

  datatype Result<T, E> = Ok(value: T) | Err(error: E)

  function Abs(x: real): real {
    if x < 0.0 then -x else x
  }

  /** Multiplying a quotient back by its nonzero divisor. */
  lemma DivideBack(a: real, q: real)
    requires a != 0.0
    ensures a * (q / a) == q
  {
  }

  /** Every row has as many entries as there are rows. */
  predicate IsSquare(M: Matrix) {
    forall i :: 0 <= i < |M| ==> |M[i]| == |M|
  }

  /** A square matrix with a right-hand side of matching size. */
  predicate IsSystem(M: Matrix, v: Vector) {
    IsSquare(M) && |v| == |M|
  }

  function Zeros(n: nat): (z: Vector)
    ensures |z| == n && forall i :: 0 <= i < n ==> z[i] == 0.0
  {
    seq(n, _ => 0.0)
  }

  /** The sum of r[j] * x[j] for lo <= j < hi: numpy's dot of the slices r[lo:hi] and x[lo:hi]. */
  function DotRange(r: Vector, x: Vector, lo: nat, hi: nat): real
    requires lo <= hi <= |r| && hi <= |x|
    decreases hi
  {
    if lo == hi then 0.0 else DotRange(r, x, lo, hi - 1) + r[hi - 1] * x[hi - 1]
  }

  /** The full dot product of a row with a vector. */
  function Dot(r: Vector, x: Vector): real
    requires |r| <= |x|
  {
    DotRange(r, x, 0, |r|)
  }

  /** A dot product over [lo, hi) splits at any point in between. */
  lemma {:induction false} DotRangeSplit(r: Vector, x: Vector, lo: nat, mid: nat, hi: nat)
    requires lo <= mid <= hi <= |r| && hi <= |x|
    ensures DotRange(r, x, lo, hi) == DotRange(r, x, lo, mid) + DotRange(r, x, mid, hi)
    decreases hi
  {
    if hi > mid {
      DotRangeSplit(r, x, lo, mid, hi - 1);
    }
  }

  /** A dot product only depends on the entries inside its range. */
  lemma {:induction false} DotRangeAgree(r: Vector, x: Vector, r': Vector, y: Vector, lo: nat, hi: nat)
    requires lo <= hi <= |r| && hi <= |x| && hi <= |r'| && hi <= |y|
    requires forall j :: lo <= j < hi ==> r[j] == r'[j] && x[j] == y[j]
    ensures DotRange(r, x, lo, hi) == DotRange(r', y, lo, hi)
    decreases hi
  {
    if lo < hi {
      DotRangeAgree(r, x, r', y, lo, hi - 1);
    }
  }

  /** The dot product is linear in the row: (a - m c) . x == a . x - m (c . x). */
  lemma {:induction false} DotRangeLinear(d: Vector, a: Vector, c: Vector, m: real, x: Vector, lo: nat, hi: nat)
    requires lo <= hi <= |d| && hi <= |a| && hi <= |c| && hi <= |x|
    requires forall j :: lo <= j < hi ==> d[j] == a[j] - m * c[j]
    ensures DotRange(d, x, lo, hi) == DotRange(a, x, lo, hi) - m * DotRange(c, x, lo, hi)
    decreases hi
  {
    if lo < hi {
      DotRangeLinear(d, a, c, m, x, lo, hi - 1);
    }
  }

  /** Entries of the row that are zero contribute nothing. */
  lemma {:induction false} DotRangeZeroRow(r: Vector, x: Vector, lo: nat, hi: nat)
    requires lo <= hi <= |r| && hi <= |x|
    requires forall j :: lo <= j < hi ==> r[j] == 0.0
    ensures DotRange(r, x, lo, hi) == 0.0
    decreases hi
  {
    if lo < hi {
      DotRangeZeroRow(r, x, lo, hi - 1);
    }
  }

  /** Entries of the vector that are zero contribute nothing. */
  lemma {:induction false} DotRangeZeroVector(r: Vector, x: Vector, lo: nat, hi: nat)
    requires lo <= hi <= |r| && hi <= |x|
    requires forall j :: lo <= j < hi ==> x[j] == 0.0
    ensures DotRange(r, x, lo, hi) == 0.0
    decreases hi
  {
    if lo < hi {
      DotRangeZeroVector(r, x, lo, hi - 1);
    }
  }

  /** Row i of a two-dimensional array, as a sequence. */
  function RowOf(A: array2<real>, i: nat): (r: Vector)
    reads A
    requires i < A.Length0
    ensures |r| == A.Length1 && forall j :: 0 <= j < A.Length1 ==> r[j] == A[i, j]
  {
    seq(A.Length1, j requires 0 <= j < A.Length1 reads A => A[i, j])
  }

  /** The contents of a two-dimensional array as a matrix of rows. */
  function Rows(A: array2<real>): (M: Matrix)
    reads A
    ensures |M| == A.Length0
    ensures forall i :: 0 <= i < A.Length0 ==> M[i] == RowOf(A, i)
    ensures forall i, j :: 0 <= i < A.Length0 && 0 <= j < A.Length1 ==> |M[i]| == A.Length1 && M[i][j] == A[i, j]
  {
    seq(A.Length0, i requires 0 <= i < A.Length0 reads A => RowOf(A, i))
  }
}
