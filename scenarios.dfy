/** Runs of the elimination on particular inputs. */
module Scenarios {
  import opened Matrices
  import opened Elimination

  /** The reports of a run on the n×n identity: rows 0 .. k-1 each
      normalised by the pivot 1, with nothing to eliminate. */
  function IdentityReports(n: nat, k: nat): seq<Report>
    requires k <= n
  {
    if k == 0 then []
    else IdentityReports(n, k - 1) + [Report(k, 2 * n, Normalization, Identity(n), [Op(Normalization, k - 1, k - 1, 1.0)])]
  }

  /** Clearing a column in which only the pivot row is nonzero logs nothing. */
  lemma {:induction false} NothingToLog(m: Matrix, i: nat, ts: seq<nat>, phase: Phase)
    requires IsSquare(m) && i < |m|
    requires forall k :: 0 <= k < |ts| ==> ts[k] < |m| && m[ts[k]][i] == 0.0
    ensures LoggedOps(m, i, ts, phase) == []
  {
    if ts != [] {
      NothingToLog(m, i, ts[..|ts| - 1], phase);
      assert m[ts[|ts| - 1]][i] == 0.0;
    }
  }

  /** On the identity every other row is zero in the pivot column, so
      clearing changes nothing. */
  lemma IdentityCleared(n: nat, i: nat, lo: nat, hi: nat)
    requires i < n
    ensures Cleared(Identity(n), i, lo, hi) == Identity(n)
  {
    var id := Identity(n);
    var c := Cleared(id, i, lo, hi);
    forall r | 0 <= r < n
      ensures c[r] == id[r]
    {
      if r != i {
        assert id[r][i] == 0.0;
      }
    }
  }

  /** On the identity, one forward step divides row i by 1 and clears
      nothing. */
  lemma IdentityForwardStep(n: nat, i: nat, trace: seq<Report>)
    requires i < n
    ensures ForwardStep(Identity(n), i, trace) ==
              Running(Identity(n), trace + [Report(i + 1, 2 * n, Normalization, Identity(n), [Op(Normalization, i, i, 1.0)])])
  {
    var id := Identity(n);
    assert ScaleRow(id[i], 1.0) == id[i];
    assert NormalizeRow(id, i) == id;
    IdentityCleared(n, i, i + 1, n);
    NothingToLog(id, i, Ascending(i + 1, n), EliminationDown);
  }

  /** On the identity, step k of the forward phase adds the k-th
      normalisation report and leaves the matrix as it was. */
  lemma IdentityForwardNext(n: nat, k: nat)
    requires 0 < k <= n && Forward(Identity(n), k - 1) == Running(Identity(n), IdentityReports(n, k - 1))
    ensures Forward(Identity(n), k) == Running(Identity(n), IdentityReports(n, k))
  {
    var id, prev := Identity(n), IdentityReports(n, k - 1);
    ForwardRunningStep(id, k);
    IdentityForwardStep(n, k - 1, prev);
  }

  lemma {:induction false} IdentityForward(n: nat, k: nat)
    requires k <= n
    ensures Forward(Identity(n), k) == Running(Identity(n), IdentityReports(n, k))
  {
    if k > 0 {
      IdentityForward(n, k - 1);
      IdentityForwardNext(n, k);
    }
  }

  lemma {:induction false} IdentityBackward(n: nat, k: nat)
    requires k <= n
    ensures Backward(Identity(n), k) == (Identity(n), [])
    decreases n - k
  {
    if k < n {
      IdentityBackward(n, k + 1);
      var id := Identity(n);
      IdentityCleared(n, k, 0, k);
      NothingToLog(id, k, Descending(k, 0), EliminationUp);
      assert LoggedOps(id, k, Descending(k, 0), EliminationUp) == [];
      assert Cleared(id, k, 0, k) == id;
      assert BackwardStep(id, k, []).1 == [];
      assert BackwardStep(id, k, []) == (id, []);
    }
  }

  /** The identity is returned unchanged after 2n steps, and the only
      reports are the n normalisations, each by the pivot 1. */
  lemma IdentityInput(n: nat)
    ensures GaussJordan(Identity(n)) == Outcome(IdentityReports(n, n), 2 * n, Reduced(Identity(n)))
  {
    IdentityForward(n, n);
    IdentityBackward(n, 0);
    assert IdentityReports(n, n) + [] == IdentityReports(n, n);
  }

  /** A two-entry row given by its entries. */
  lemma Row2(row: Row, x: real, y: real)
    requires |row| == 2 && row[0] == x && row[1] == y
    ensures row == [x, y]
  {
  }

  /** The row swap [[0, 1], [1, 0]] is invertible, yet the run stops at
      once: its first pivot is zero and rows are never exchanged. */
  lemma SwapStops()
    ensures GaussJordan([[0.0, 1.0], [1.0, 0.0]]) ==
              Outcome([], 1, SingularPivot(0, [[0.0, 1.0], [1.0, 0.0]]))
  {
    var m := [[0.0, 1.0], [1.0, 0.0]];
    assert Forward(m, 0) == Running(m, []);
    ForwardRunningStep(m, 1);
    ForwardStepStops(m, 0, []);
    StuckPersists(m, 1, 2);
  }

  /** [[1, 2], [2, 4]] is singular: the first step normalises by 1 and
      subtracts twice row 1 from row 2, which leaves a zero pivot in
      row 2, so the run stops at step 2. */
  lemma SingularStops()
    ensures var m := [[1.0, 2.0], [2.0, 4.0]];
      var after := [[1.0, 2.0], [0.0, 0.0]];
      GaussJordan(m) ==
        Outcome([Report(1, 4, Normalization, m, [Op(Normalization, 0, 0, 1.0)]),
                 Report(1, 4, EliminationDown, after, [Op(EliminationDown, 1, 0, 2.0)])],
                2, SingularPivot(1, after))
  {
    var m := [[1.0, 2.0], [2.0, 4.0]];
    var after := [[1.0, 2.0], [0.0, 0.0]];
    Row2(ScaleRow(m[0], 1.0), 1.0, 2.0);
    assert NormalizeRow(m, 0) == m;
    assert Ascending(1, 2) == [1];
    Row2(SubMultiple(m[1], 2.0, m[0]), 0.0, 0.0);
    assert Cleared(m, 0, 1, 2) == after;
    assert [1][..0] == [];
    assert LoggedOps(m, 0, [1], EliminationDown) == [Op(EliminationDown, 1, 0, 2.0)];
    var trace := [Report(1, 4, Normalization, m, [Op(Normalization, 0, 0, 1.0)]),
                  Report(1, 4, EliminationDown, after, [Op(EliminationDown, 1, 0, 2.0)])];
    assert Forward(m, 1) == ForwardStep(m, 0, []) == Running(after, trace);
    assert Forward(m, 2) == ForwardStep(after, 1, trace) == Stuck(1, after, trace);
  }

  /** [[2, 1], [1, 1]] is reduced to the identity in four steps, each of
      them reported. */
  lemma InvertibleReduces()
    ensures var m := [[2.0, 1.0], [1.0, 1.0]];
      GaussJordan(m) ==
        Outcome([Report(1, 4, Normalization, [[1.0, 0.5], [1.0, 1.0]], [Op(Normalization, 0, 0, 2.0)]),
                 Report(1, 4, EliminationDown, [[1.0, 0.5], [0.0, 0.5]], [Op(EliminationDown, 1, 0, 1.0)]),
                 Report(2, 4, Normalization, [[1.0, 0.5], [0.0, 1.0]], [Op(Normalization, 1, 1, 0.5)]),
                 Report(3, 4, EliminationUp, [[1.0, 0.0], [0.0, 1.0]], [Op(EliminationUp, 0, 1, 0.5)])],
                4, Reduced([[1.0, 0.0], [0.0, 1.0]]))
  {
    var m := [[2.0, 1.0], [1.0, 1.0]];
    var a1 := [[1.0, 0.5], [1.0, 1.0]];
    var a2 := [[1.0, 0.5], [0.0, 0.5]];
    var a3 := [[1.0, 0.5], [0.0, 1.0]];
    var id := [[1.0, 0.0], [0.0, 1.0]];
    Row2(ScaleRow(m[0], 2.0), 1.0, 0.5);
    assert NormalizeRow(m, 0) == a1;
    assert Ascending(1, 2) == [1] && Ascending(2, 2) == [];
    assert Descending(1, 0) == [0] && Descending(0, 0) == [];
    Row2(SubMultiple(a1[1], 1.0, a1[0]), 0.0, 0.5);
    assert Cleared(a1, 0, 1, 2) == a2;
    Row2(ScaleRow(a2[1], 0.5), 0.0, 1.0);
    assert NormalizeRow(a2, 1) == a3;
    assert Cleared(a3, 1, 2, 2) == a3;
    Row2(SubMultiple(a3[0], 0.5, a3[1]), 1.0, 0.0);
    assert Cleared(a3, 1, 0, 1) == id;
    assert Cleared(id, 0, 0, 0) == id;
    assert [1][..0] == [] && [0][..0] == [];
    assert LoggedOps(a1, 0, [1], EliminationDown) == [Op(EliminationDown, 1, 0, 1.0)];
    assert LoggedOps(a3, 1, [], EliminationDown) == [];
    assert LoggedOps(a3, 1, [0], EliminationUp) == [Op(EliminationUp, 0, 1, 0.5)];
    assert LoggedOps(id, 0, [], EliminationUp) == [];
    var r1 := Report(1, 4, Normalization, a1, [Op(Normalization, 0, 0, 2.0)]);
    var r2 := Report(1, 4, EliminationDown, a2, [Op(EliminationDown, 1, 0, 1.0)]);
    var r3 := Report(2, 4, Normalization, a3, [Op(Normalization, 1, 1, 0.5)]);
    var r4 := Report(3, 4, EliminationUp, id, [Op(EliminationUp, 0, 1, 0.5)]);
    assert Forward(m, 1) == ForwardStep(m, 0, []) == Running(a2, [r1, r2]);
    assert Forward(m, 2) == ForwardStep(a2, 1, [r1, r2]) == Running(a3, [r1, r2, r3]);
    assert BackwardStep(a3, 1, []).0 == id;
    assert BackwardStep(a3, 1, []).1 == [r4];
    assert Backward(a3, 1) == BackwardStep(a3, 1, []) == (id, [r4]);
    assert Descending(0, 0) == [] && LoggedOps(id, 0, Descending(0, 0), EliminationUp) == [];
    assert [r4] + [] == [r4];
    assert BackwardStep(id, 0, [r4]) == (id, [r4]);
    assert Backward(a3, 0) == BackwardStep(id, 0, [r4]);
  }
}
