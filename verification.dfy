/** The final check of the run: the largest absolute difference between
    the returned matrix and the identity, and whether it is below the
    tolerance 1e-10. */
module Verification {
  import opened Matrices
  import opened Elimination
  import Correctness

  /** The tolerance of the final check, 1e-10. */
  const Tolerance: real := 0.0000000001

  function Abs(x: real): (y: real)
    ensures y >= 0.0 && (y == x || y == -x)
  {
    if x < 0.0 then -x else x
  }

  /** The largest element of a nonempty sequence (numpy's `max`, which
      raises on an empty array). */
  function MaxOf(s: seq<real>): (mx: real)
    requires |s| > 0
    ensures forall k :: 0 <= k < |s| ==> s[k] <= mx
    ensures exists k :: 0 <= k < |s| && s[k] == mx
  {
    if |s| == 1 then s[0]
    else
      var rest := MaxOf(s[1..]);
      assert forall k :: 1 <= k < |s| ==> s[k] == s[1..][k - 1];
      if s[0] >= rest then s[0] else rest
  }

  /** |x[r][c] − I[r][c]| for every column c of row r. */
  function RowDeviations(row: Row, r: nat): (d: seq<real>)
    ensures |d| == |row|
  {
    seq(|row|, c requires 0 <= c < |row| => Abs(row[c] - IdentityEntry(r, c)))
  }

  /** The largest |x[r][c] − I[r][c]| of each row r. */
  function RowMaxima(x: Matrix): (mx: seq<real>)
    requires IsSquare(x)
    ensures |mx| == |x|
  {
    seq(|x|, r requires 0 <= r < |x| => MaxOf(RowDeviations(x[r], r)))
  }

  /** The largest |x[r][c] − I[r][c]| over the whole matrix, as the maximum
      of the row maxima; never negative. */
  function Deviation(x: Matrix): (d: real)
    requires IsSquare(x) && |x| > 0
    ensures d >= 0.0
  {
    var maxima := RowMaxima(x);
    assert maxima[0] == MaxOf(RowDeviations(x[0], 0)) >= RowDeviations(x[0], 0)[0] >= 0.0;
    MaxOf(maxima)
  }

  /** Entry (r, c) lies within Deviation(x) of the identity's entry. */
  lemma EntryWithinDeviation(x: Matrix, r: nat, c: nat)
    requires IsSquare(x) && r < |x| && c < |x|
    ensures Abs(x[r][c] - IdentityEntry(r, c)) <= Deviation(x)
  {
    var row := RowDeviations(x[r], r);
    assert row[c] == Abs(x[r][c] - IdentityEntry(r, c));
    assert row[c] <= MaxOf(row) == RowMaxima(x)[r];
  }

  /** Every entry lies within Deviation(x) of the identity's entry. */
  lemma DeviationBounds(x: Matrix)
    requires IsSquare(x) && |x| > 0
    ensures forall r, c :: 0 <= r < |x| && 0 <= c < |x| ==> Abs(x[r][c] - IdentityEntry(r, c)) <= Deviation(x)
  {
    forall r, c | 0 <= r < |x| && 0 <= c < |x|
      ensures Abs(x[r][c] - IdentityEntry(r, c)) <= Deviation(x)
    {
      EntryWithinDeviation(x, r, c);
    }
  }

  /** Some entry is exactly Deviation(x) away from the identity's entry. */
  lemma DeviationAttained(x: Matrix)
    requires IsSquare(x) && |x| > 0
    ensures exists r, c :: 0 <= r < |x| && 0 <= c < |x| && Abs(x[r][c] - IdentityEntry(r, c)) == Deviation(x)
  {
    var maxima := RowMaxima(x);
    var r :| 0 <= r < |x| && maxima[r] == Deviation(x);
    var row := RowDeviations(x[r], r);
    assert maxima[r] == MaxOf(row);
    var c :| 0 <= c < |x| && row[c] == maxima[r];
    assert Abs(x[r][c] - IdentityEntry(r, c)) == Deviation(x);
  }

  /** The deviation is zero exactly for the identity matrix. */
  lemma DeviationZeroIff(x: Matrix)
    requires IsSquare(x) && |x| > 0
    ensures Deviation(x) == 0.0 <==> x == Identity(|x|)
  {
    DeviationBounds(x);
    DeviationAttained(x);
    if Deviation(x) == 0.0 {
      forall r, c | 0 <= r < |x| && 0 <= c < |x|
        ensures x[r][c] == IdentityEntry(r, c)
      {
        assert Abs(x[r][c] - IdentityEntry(r, c)) <= 0.0;
      }
      IdentityByEntries(x);
    }
  }

  /** The message the run ends with: reduced correctly, or possibly off by
      numerical deviations. The identity passes, and a matrix that passes
      has every entry within the tolerance of the identity's. */
  predicate ReducedCorrectly(x: Matrix): (ok: bool)
    requires IsSquare(x) && |x| > 0
    ensures x == Identity(|x|) ==> ok
    ensures ok ==> forall r, c :: 0 <= r < |x| && 0 <= c < |x| ==> Abs(x[r][c] - IdentityEntry(r, c)) < Tolerance
  {
    DeviationBounds(x);
    DeviationZeroIff(x);
    Deviation(x) < Tolerance
  }

  /** A run that meets no zero pivot always passes the final check. */
  lemma ReducedPassesCheck(m: Matrix)
    requires IsSquare(m) && |m| > 0 && GaussJordan(m).status.Reduced?
    ensures var r := GaussJordan(m).status.result;
      |r| == |m| && IsSquare(r) && Deviation(r) == 0.0 && ReducedCorrectly(r)
  {
    Correctness.GaussJordanResult(m);
    DeviationZeroIff(GaussJordan(m).status.result);
  }
}
