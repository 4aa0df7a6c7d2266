/** GEPP and det as the script runs them: in place on the caller's A (an
    array2) and b (an array). Each method is proved to leave the arrays in, and
    to return, what the reference functions of EliminationSpec compute. */
module GaussElimination {
  import opened Matrices
  import opened EliminationSpec

  /** The pivot search of step k: the first row r >= k with the largest |A[r, k]|. */
  method PivotRow(A: array2<real>, k: nat) returns (p: nat)
    requires A.Length0 == A.Length1 && k < A.Length0
    ensures k <= p < A.Length0
    ensures forall r :: k <= r < A.Length0 ==> Abs(A[r, k]) <= Abs(A[p, k])
    ensures forall r :: k <= r < p ==> Abs(A[r, k]) < Abs(A[p, k])
    ensures p == PivotIndex(Rows(A), k, A.Length0)
  {
    ghost var M := Rows(A);
    p := k;
    var r := k + 1;
    while r < A.Length0
      invariant k < r <= A.Length0
      invariant p == PivotIndex(M, k, r)
    {
      assert A[r, k] == M[r][k] && A[p, k] == M[p][k];
      assert PivotIndex(M, k, r + 1) == if Abs(M[r][k]) > Abs(M[p][k]) then r else p;
      if Abs(A[r, k]) > Abs(A[p, k]) {
        p := r;
      }
      r := r + 1;
    }
  }

  /** Exchanges rows k and p of A and entries k and p of b. */
  method SwapRows(A: array2<real>, b: array<real>, k: nat, p: nat)
    requires A.Length0 == A.Length1 == b.Length && k < b.Length && p < b.Length
    modifies A, b
    ensures Rows(A) == Swapped(old(Rows(A)), k, p)
    ensures b[..] == Swapped(old(b[..]), k, p)
  {
    var n := A.Length1;
    var j := 0;
    while j < n
      invariant 0 <= j <= n
      invariant b[..] == old(b[..])
      invariant forall i, c :: 0 <= i < A.Length0 && 0 <= c < n ==>
                  A[i, c] == if c < j && i == k then old(A[p, c])
                             else if c < j && i == p then old(A[k, c])
                             else old(A[i, c])
    {
      A[k, j], A[p, j] := A[p, j], A[k, j];
      j := j + 1;
    }
    b[k], b[p] := b[p], b[k];
    ghost var S := Swapped(old(Rows(A)), k, p);
    forall i | 0 <= i < A.Length0 ensures Rows(A)[i] == S[i] {
      var src := if i == k then p else if i == p then k else i;
      assert S[i] == old(Rows(A))[src];
      assert forall c :: 0 <= c < n ==> Rows(A)[i][c] == old(A[src, c]);
    }
  }

  /** A[row, k:] -= m * A[k, k:] and b[row] -= m * b[k] for one row other than k. */
  method SubtractPivotRow(A: array2<real>, b: array<real>, k: nat, row: nat, m: real)
    requires A.Length0 == A.Length1 == b.Length && k < row < b.Length
    modifies A, b
    ensures Rows(A) == old(Rows(A))[row := ReducedRow(old(Rows(A))[k], old(Rows(A))[row], k, m)]
    ensures b[..] == old(b[..])[row := Subtract(old(b[row]), m, old(b[k]))]
  {
    var j := k;
    while j < A.Length1
      invariant k <= j <= A.Length1
      invariant b[..] == old(b[..])
      invariant forall i, c :: 0 <= i < A.Length0 && 0 <= c < A.Length1 ==>
                  A[i, c] == if i == row && k <= c < j then Subtract(old(A[row, c]), m, old(A[k, c])) else old(A[i, c])
    {
      A[row, j] := Subtract(A[row, j], m, A[k, j]);
      j := j + 1;
    }
    assert b[k] == old(b[k]) && b[row] == old(b[row]);
    b[row] := Subtract(b[row], m, b[k]);
    assert b[..] == old(b[..])[row := b[row]];
    forall i | 0 <= i < A.Length0 && i != row ensures RowOf(A, i) == old(RowOf(A, i)) {
      assert forall c :: 0 <= c < A.Length1 ==> RowOf(A, i)[c] == old(A[i, c]);
    }
    ghost var want := ReducedRow(old(Rows(A))[k], old(Rows(A))[row], k, m);
    assert forall c :: 0 <= c < A.Length1 ==> RowOf(A, row)[c] == want[c];
    forall i | 0 <= i < A.Length0 ensures Rows(A)[i] == old(Rows(A))[row := want][i] {
      if i != row {
        assert RowOf(A, i) == old(RowOf(A, i));
      }
    }
    assert Rows(A) == old(Rows(A))[row := want];
  }

  /** The system with rows k+1..row-1 reduced by step k and the others as in s. */
  ghost function PartlyReduced(s: System, k: nat, row: nat): (t: System)
    requires s.Valid() && k < |s.M| && s.M[k][k] != 0.0
  {
    var r := ReducedColumn(s, k);
    System(seq(|s.M|, i requires 0 <= i < |s.M| => if k < i < row then r.M[i] else s.M[i]),
           seq(|s.M|, i requires 0 <= i < |s.M| => if k < i < row then r.v[i] else s.v[i]))
  }

  /** Reducing one more row extends the partly reduced system by that row. */
  lemma PartlyReducedStep(s: System, k: nat, row: nat, m: real, M0: Matrix, v0: Vector, bRow: real, bK: real,
                           M': Matrix, v': Vector)
    requires s.Valid() && k < row < |s.M| && s.M[k][k] != 0.0
    requires System(M0, v0) == PartlyReduced(s, k, row)
    requires m == M0[row][k] / M0[k][k]
    requires M' == M0[row := ReducedRow(M0[k], M0[row], k, m)]
    requires bRow == v0[row] && bK == v0[k]
    requires v' == v0[row := Subtract(bRow, m, bK)]
    ensures System(M', v') == PartlyReduced(s, k, row + 1)
  {
    var after := PartlyReduced(s, k, row + 1);
    assert M0[k] == s.M[k] && M0[row] == s.M[row] && v0[k] == s.v[k] && v0[row] == s.v[row];
    assert m == Multiplier(s.M, k, row);
    assert M' == after.M;
    assert v'[row] == after.v[row];
    assert forall i :: 0 <= i < |s.M| && i != row ==> v'[i] == after.v[i];
    assert v' == after.v;
  }

  /** The row reduction of step k: for row in range(k+1, n), with multiplier A[row, k] / A[k, k]. */
  method EliminateBelow(A: array2<real>, b: array<real>, k: nat)
    requires A.Length0 == A.Length1 == b.Length && k < b.Length && A[k, k] != 0.0
    modifies A, b
    ensures System(Rows(A), b[..]) == ReducedColumn(System(old(Rows(A)), old(b[..])), k)
  {
    ghost var s := System(Rows(A), b[..]);
    ghost var r := ReducedColumn(s, k);
    var n := b.Length;
    var row := k + 1;
    assert PartlyReduced(s, k, row) == s;
    while row < n
      invariant k < row <= n
      invariant System(Rows(A), b[..]) == PartlyReduced(s, k, row)
    {
      ghost var M0, v0 := Rows(A), b[..];
      var m := A[row, k] / A[k, k];
      assert m == M0[row][k] / M0[k][k];
      ghost var bRow, bK := b[row], b[k];
      SubtractPivotRow(A, b, k, row, m);
      PartlyReducedStep(s, k, row, m, M0, v0, bRow, bK, Rows(A), b[..]);
      row := row + 1;
    }
    assert PartlyReduced(s, k, row) == r;
  }

  /** The back-substitution loop: k from n-1 down to 0 over x = np.zeros(n). */
  method BackSubstitute(A: array2<real>, b: array<real>) returns (r: Outcome)
    requires A.Length0 == A.Length1 == b.Length
    ensures r == BackSubstitution(System(Rows(A), b[..]))
  {
    ghost var s := System(Rows(A), b[..]);
    var n := b.Length;
    var x := new real[n](_ => 0.0);
    var k := n;
    while k > 0
      invariant 0 <= k <= n
      invariant forall i :: k <= i < n ==> A[i, i] != 0.0
      invariant x[..] == BackSubstFrom(s, k)
    {
      k := k - 1;
      if A[k, k] == 0.0 {
        assert LastZeroPivot(s.M, n) == k by {
          LastZeroPivotUnique(s.M, n, k);
        }
        return NonFinite(k);
      }
      x[k] := (b[k] - DotRange(RowOf(A, k), x[..], k + 1, n)) / A[k, k];
    }
    assert LastZeroPivot(s.M, n) == -1 by {
      LastZeroPivotUnique(s.M, n, -1);
    }
    return Solved(x[..]);
  }

  /** The last zero pivot below hi is determined by its defining property. */
  lemma LastZeroPivotUnique(M: Matrix, hi: nat, z: int)
    requires IsSquare(M) && hi <= |M| && -1 <= z < hi
    requires z >= 0 ==> M[z][z] == 0.0
    requires forall i :: z < i < hi ==> M[i][i] != 0.0
    ensures LastZeroPivot(M, hi) == z
  {
  }

  /** Step k of the elimination loop: pivot (or check the pivot), then reduce
      the rows below k. A raised error leaves A and b as the step found them. */
  method EliminationStep(A: array2<real>, b: array<real>, k: nat, doPP: bool) returns (failure: Option<GeppError>)
    requires A.Length0 == A.Length1 == b.Length && k < b.Length
    modifies A, b
    ensures var step := PivotStep(System(old(Rows(A)), old(b[..])), k, doPP);
      match step
      case Err(e) => failure == Some(e) && Rows(A) == old(Rows(A)) && b[..] == old(b[..])
      case Ok(s') => failure == None && s'.M[k][k] != 0.0 &&
                     System(Rows(A), b[..]) == ReducedColumn(s', k)
  {
    ghost var s := System(Rows(A), b[..]);
    PivotStepShape(s, k, doPP);
    if doPP {
      var p := PivotRow(A, k);
      if A[p, k] == 0.0 {
        return Some(SingularMatrix);
      }
      if p != k {
        SwapRows(A, b, k, p);
      }
    } else if A[k, k] == 0.0 {
      return Some(ZeroPivot);
    }
    assert PivotStep(s, k, doPP) == Ok(System(Rows(A), b[..]));
    EliminateBelow(A, b, k);
    failure := None;
  }

  /** GEPP(A, b, doPP): Gaussian elimination with optional partial pivoting,
      in place on A and b, then back-substitution. */
  method Gepp(A: array2<real>, b: array<real>, doPP: bool) returns (r: Outcome)
    requires A.Length0 == A.Length1
    modifies A, b
    ensures var run := GeppSpec(System(old(Rows(A)), old(b[..])), doPP);
      r == run.outcome && Rows(A) == run.final.M && b[..] == run.final.v
  {
    if b.Length != A.Length0 {
      return Failed(SizeMismatch);
    }
    var failure := Eliminate(A, b, doPP);
    if failure.Some? {
      return Failed(failure.value);
    }
    r := BackSubstitute(A, b);
  }

  /** The elimination loop `for k in range(n-1)`, stopped by the first step
      that raises. */
  method Eliminate(A: array2<real>, b: array<real>, doPP: bool) returns (failure: Option<GeppError>)
    requires A.Length0 == A.Length1 == b.Length
    modifies A, b
    ensures EliminateFrom(System(old(Rows(A)), old(b[..])), 0, doPP) == Reduction(System(Rows(A), b[..]), failure)
  {
    var n := A.Length0;
    ghost var s0 := System(Rows(A), b[..]);
    ghost var cur := s0;
    var k := 0;
    while k + 1 < n
      invariant k <= n
      invariant cur == System(Rows(A), b[..]) && cur.Valid() && |cur.M| == n
      invariant EliminateFrom(cur, k, doPP) == EliminateFrom(s0, 0, doPP)
    {
      ghost var before := cur;
      failure := EliminationStep(A, b, k, doPP);
      cur := System(Rows(A), b[..]);
      LoopStep(before, k, doPP, failure, cur);
      if failure.Some? {
        return;
      }
      k := k + 1;
    }
    EliminateFromDone(cur, k, doPP);
    failure := None;
  }

  /** What one pass of the elimination loop leaves of the elimination still to
      run: all of it when the step raised, the rest from step k + 1 otherwise. */
  lemma LoopStep(s: System, k: nat, doPP: bool, failure: Option<GeppError>, s1: System)
    requires s.Valid() && k + 1 < |s.M|
    requires match PivotStep(s, k, doPP)
      case Err(e) => failure == Some(e) && s1 == s
      case Ok(s') => failure == None && s'.M[k][k] != 0.0 && s1 == ReducedColumn(s', k)
    ensures failure.Some? ==> EliminateFrom(s, k, doPP) == Reduction(s1, failure)
    ensures failure.None? ==> s1.Valid() && EliminateFrom(s1, k + 1, doPP) == EliminateFrom(s, k, doPP)
  {
    PivotStepShape(s, k, doPP);
  }


  /** det(A): GEPP with pivoting on A against a scratch right-hand side of ones,
      then the product of the diagonal of the reduced A. */
  method Det(A: array2<real>) returns (r: Result<real, GeppError>)
    requires A.Length0 == A.Length1
    modifies A
    ensures r == Determinant(old(Rows(A)))
    ensures Rows(A) == GeppSpec(System(old(Rows(A)), Ones(A.Length0)), true).final.M
  {
    var ones := new real[A.Length0](_ => 1.0);
    assert ones[..] == Ones(A.Length0);
    var outcome := Gepp(A, ones, true);
    if outcome.Failed? {
      return Err(outcome.error);
    }
    r := Ok(DiagonalProduct(Rows(A), A.Length0));
  }
}
