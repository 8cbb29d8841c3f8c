/** Square matrices of exact reals and the two row operations that
    Gauss-Jordan elimination is built from.

    The original program works on numpy arrays of double-precision complex
    numbers and rounds after every phase; here entries are exact reals and
    no rounding takes place, so a value that the original compares against
    the tolerance 1e-10 is compared against zero. */
module Matrices {

  type Row = seq<real>

  /** A matrix as the sequence of its rows. */
  type Matrix = seq<Row>

  /** An n×n matrix, n being the number of rows. */
  predicate IsSquare(m: Matrix)
  {
    forall r :: 0 <= r < |m| ==> |m[r]| == |m|
  }

  /** Entry (r, c) of the identity matrix. */
  function IdentityEntry(r: nat, c: nat): real
  {
    if r == c then 1.0 else 0.0
  }

  /** The n×n identity matrix (numpy's `eye(n)`). */
  function Identity(n: nat): (id: Matrix)
    ensures |id| == n && IsSquare(id)
    ensures forall r, c :: 0 <= r < n && 0 <= c < n ==> id[r][c] == IdentityEntry(r, c)
  {
    seq(n, r requires 0 <= r < n => seq(n, c requires 0 <= c < n => IdentityEntry(r, c)))
  }

  /** A square matrix equals the identity as soon as it agrees with it entry by entry. */
  lemma IdentityByEntries(m: Matrix)
    requires IsSquare(m)
    requires forall r, c :: 0 <= r < |m| && 0 <= c < |m| ==> m[r][c] == IdentityEntry(r, c)
    ensures m == Identity(|m|)
  {
    var id := Identity(|m|);
    forall r | 0 <= r < |m|
      ensures m[r] == id[r]
    {
      assert |m[r]| == |id[r]|;
    }
  }

  /** The row divided entry by entry by a nonzero pivot. */
  function ScaleRow(row: Row, p: real): (r: Row)
    requires p != 0.0
    ensures |r| == |row|
  {
    seq(|row|, k requires 0 <= k < |row| => row[k] / p)
  }

  /** `row − f·pivotRow`, entry by entry. */
  function SubMultiple(row: Row, f: real, pivotRow: Row): (r: Row)
    requires |row| == |pivotRow|
    ensures |r| == |row|
  {
    seq(|row|, k requires 0 <= k < |row| => row[k] - f * pivotRow[k])
  }

  /** Normalisation of row i by its diagonal pivot, `A[i] = A[i] / A[i, i]`. */
  function NormalizeRow(m: Matrix, i: nat): (m': Matrix)
    requires IsSquare(m) && i < |m| && m[i][i] != 0.0
    ensures |m'| == |m| && IsSquare(m')
  {
    m[i := ScaleRow(m[i], m[i][i])]
  }

  /** Normalisation puts 1 on the diagonal of row i, keeps the zeros of
      row i and leaves every other row alone. */
  lemma NormalizeRowFacts(m: Matrix, i: nat)
    requires IsSquare(m) && i < |m| && m[i][i] != 0.0
    ensures NormalizeRow(m, i)[i][i] == 1.0
    ensures forall r :: 0 <= r < |m| && r != i ==> NormalizeRow(m, i)[r] == m[r]
    ensures forall c :: 0 <= c < |m| && m[i][c] == 0.0 ==> NormalizeRow(m, i)[i][c] == 0.0
  {
  }

  /** One elimination, `A[j] = A[j] − A[j, i]·A[i]`, for a row j other than i. */
  function EliminateRow(m: Matrix, j: nat, i: nat): (m': Matrix)
    requires IsSquare(m) && i < |m| && j < |m| && j != i
    ensures |m'| == |m| && IsSquare(m')
  {
    m[j := SubMultiple(m[j], m[j][i], m[i])]
  }

  /** An elimination against a unit pivot clears entry (j, i), keeps the
      entries of row j in the columns where row i is zero, and leaves every
      other row alone. */
  lemma EliminateRowFacts(m: Matrix, j: nat, i: nat)
    requires IsSquare(m) && i < |m| && j < |m| && j != i
    ensures forall r :: 0 <= r < |m| && r != j ==> EliminateRow(m, j, i)[r] == m[r]
    ensures m[i][i] == 1.0 ==> EliminateRow(m, j, i)[j][i] == 0.0
    ensures forall c :: 0 <= c < |m| && m[i][c] == 0.0 ==> EliminateRow(m, j, i)[j][c] == m[j][c]
  {
  }
}
