/** What the elimination achieves: a run that meets no zero pivot ends with
    the identity matrix after exactly 2n steps; a run that stops does so at
    the first zero pivot, every earlier column having 1 on the diagonal and
    0 below it (the entries above the diagonal are not yet cleared). */
module Correctness {
  import opened Matrices
  import opened Elimination

  /** Columns 0 .. k-1 agree with the identity on and below the diagonal:
      the shape the forward phase builds, one column per step. */
  predicate LowerIdentity(m: Matrix, k: nat)
    requires IsSquare(m)
  {
    forall r, c :: 0 <= c < k && c <= r < |m| ==> m[r][c] == IdentityEntry(r, c)
  }

  /** Columns k .. n-1 agree with the identity in every row: the shape the
      backward phase builds, one column per step from the right. */
  predicate IdentityFrom(m: Matrix, k: nat)
    requires IsSquare(m)
  {
    forall r, c :: 0 <= r < |m| && k <= c < |m| ==> m[r][c] == IdentityEntry(r, c)
  }

  /** Entry by entry, what clearing column i does: rows outside the sweep and
      the pivot row are kept; a column in which the pivot row is zero is kept;
      with a unit pivot, column i becomes zero in every swept row. */
  lemma ClearedEntries(m: Matrix, i: nat, lo: nat, hi: nat, r: nat, c: nat)
    requires IsSquare(m) && i < |m| && r < |m| && c < |m|
    ensures !(lo <= r < hi) || r == i ==> Cleared(m, i, lo, hi)[r] == m[r]
    ensures m[i][c] == 0.0 ==> Cleared(m, i, lo, hi)[r][c] == m[r][c]
    ensures lo <= r < hi && r != i && m[i][i] == 1.0 ==> Cleared(m, i, lo, hi)[r][i] == 0.0
  {
  }

  /** A row whose factor in column i is already zero is skipped: clearing
      leaves it as it was. */
  lemma ZeroFactorKept(m: Matrix, i: nat, lo: nat, hi: nat, r: nat)
    requires IsSquare(m) && i < |m| && r < |m| && m[r][i] == 0.0
    ensures Cleared(m, i, lo, hi)[r] == m[r]
  {
  }

  /** Normalising row i and clearing below it extends the lower part that
      agrees with the identity (1 on the diagonal, 0 below it) by column i. */
  lemma ClearedEchelon(a: Matrix, i: nat)
    requires IsSquare(a) && i < |a| && LowerIdentity(a, i) && a[i][i] != 0.0
    ensures LowerIdentity(Cleared(NormalizeRow(a, i), i, i + 1, |a|), i + 1)
  {
    var n := |a|;
    var a1 := NormalizeRow(a, i);
    var a2 := Cleared(a1, i, i + 1, n);
    NormalizeRowFacts(a, i);
    forall r, c | 0 <= c < i + 1 && c <= r < n
      ensures a2[r][c] == IdentityEntry(r, c)
    {
      ClearedEntries(a1, i, i + 1, n, r, c);
      if c < i {
        assert a[i][c] == IdentityEntry(i, c) == 0.0;
        assert a1[i][c] == 0.0;
        if r != i {
          assert a1[r] == a[r];
        }
      }
    }
  }

  /** A forward step on row i extends the lower part that agrees with the
      identity by column i. */
  lemma ForwardStepEchelon(a: Matrix, i: nat, trace: seq<Report>)
    requires IsSquare(a) && i < |a| && LowerIdentity(a, i)
    ensures ForwardStep(a, i, trace).Running? ==> LowerIdentity(ForwardStep(a, i, trace).m, i + 1)
  {
    if a[i][i] != 0.0 {
      ClearedEchelon(a, i);
    }
  }

  /** While the forward phase runs, its first k columns have 1 on the
      diagonal and 0 below it. */
  lemma {:induction false} ForwardEchelon(m: Matrix, k: nat)
    requires IsSquare(m) && k <= |m|
    ensures Forward(m, k).Running? ==> LowerIdentity(Forward(m, k).m, k)
  {
    if k > 0 {
      ForwardEchelon(m, k - 1);
      var prev := Forward(m, k - 1);
      if prev.Running? {
        ForwardStepEchelon(prev.m, k - 1, prev.trace);
      }
    }
  }

  /** A forward phase that stopped did so at a row i whose pivot is zero,
      in a matrix whose columns before i have 1 on the diagonal and 0 below
      it. */
  lemma {:induction false} ForwardStuck(m: Matrix, k: nat)
    requires IsSquare(m) && k <= |m|
    ensures var p := Forward(m, k);
      p.Stuck? ==>
        p.row < k && |p.at| == |m| && IsSquare(p.at) && p.at[p.row][p.row] == 0.0 && LowerIdentity(p.at, p.row)
  {
    if k > 0 {
      var prev := Forward(m, k - 1);
      if prev.Stuck? {
        ForwardStuck(m, k - 1);
        assert Forward(m, k) == prev;
      } else if Forward(m, k).Stuck? {
        ForwardStopsAt(m, k);
        ForwardEchelon(m, k - 1);
      }
    }
  }

  /** A backward step on column k of a matrix that agrees with the identity
      on and below the diagonal and from column k+1 on makes column k an identity column too,
      and spoils nothing below the diagonal. */
  lemma BackwardStepReduces(a: Matrix, k: nat, trace: seq<Report>)
    requires IsSquare(a) && k < |a| && LowerIdentity(a, |a|) && IdentityFrom(a, k + 1)
    ensures LowerIdentity(BackwardStep(a, k, trace).0, |a|)
    ensures IdentityFrom(BackwardStep(a, k, trace).0, k)
  {
    var n := |a|;
    var a2 := Cleared(a, k, 0, k);
    forall r, c | 0 <= r < n && 0 <= c < n && (c <= r || k <= c)
      ensures a2[r][c] == IdentityEntry(r, c)
    {
      ClearedEntries(a, k, 0, k, r, c);
      assert a[k][k] == 1.0;
      if c < k {
        assert a[k][c] == IdentityEntry(k, c);
      } else if c > k {
        assert a[k][c] == IdentityEntry(k, c);
      } else if r >= k {
        assert a[r][k] == IdentityEntry(r, k);
      }
    }
  }

  /** The backward phase, from a matrix that agrees with the identity on
      and below the diagonal, turns
      every column from k on into an identity column. */
  lemma {:induction false} BackwardReduces(m: Matrix, k: nat)
    requires IsSquare(m) && k <= |m| && LowerIdentity(m, |m|)
    ensures LowerIdentity(Backward(m, k).0, |m|) && IdentityFrom(Backward(m, k).0, k)
    decreases |m| - k
  {
    if k < |m| {
      BackwardReduces(m, k + 1);
      var prev := Backward(m, k + 1);
      BackwardStepReduces(prev.0, k, prev.1);
    }
  }

  /** The elimination, either way it ends. Reduced: the result is the
      identity and the step counter reached 2n. Stopped: at row i, i < n,
      after i+1 counted steps, in a matrix whose pivot (i, i) is zero and
      whose columns before i have 1 on the diagonal and 0 below it. */
  lemma GaussJordanResult(m: Matrix)
    requires IsSquare(m)
    ensures var o := GaussJordan(m);
      match o.status
      case Reduced(result) => result == Identity(|m|) && o.steps == 2 * |m|
      case SingularPivot(i, at) =>
        i < |m| && o.steps == i + 1 && |at| == |m| && IsSquare(at) &&
        at[i][i] == 0.0 && LowerIdentity(at, i)
  {
    var n := |m|;
    var p := Forward(m, n);
    ForwardStuck(m, n);
    if p.Running? {
      ForwardEchelon(m, n);
      BackwardReduces(p.m, 0);
      var r := Backward(p.m, 0).0;
      forall i, j | 0 <= i < n && 0 <= j < n
        ensures r[i][j] == IdentityEntry(i, j)
      {
      }
      IdentityByEntries(r);
    }
  }
}
