/** The shape of the progress reports: every report carries the total 2n,
    a step number in 1 .. 2n that never decreases along the run, an n×n
    snapshot and the operations of its step, which name the rows and
    factors in the order the loops visit them. */
module Reports {
  import opened Matrices
  import opened Elimination
  import opened OperationLog

  /** The operations of an elimination report, against pivot row `pivot`:
      at least one, each of the report's phase, with a nonzero factor, on
      rows visited in strictly ascending order below the pivot (downward
      elimination) or strictly descending order above it (upward). */
  predicate SweepOps(n: nat, phase: Phase, pivot: nat, ops: seq<Op>)
  {
    |ops| >= 1 &&
    (forall op <- ops :: op.phase == phase && op.pivotRow == pivot && op.target < n && op.factor != 0.0) &&
    if phase == EliminationDown then
      (forall op <- ops :: pivot < op.target) &&
      (forall p, q :: 0 <= p < q < |ops| ==> ops[p].target < ops[q].target)
    else
      (forall op <- ops :: op.target < pivot) &&
      (forall p, q :: 0 <= p < q < |ops| ==> ops[p].target > ops[q].target)
  }

  /** A report as the run makes it, for an n×n input. Normalisation and
      downward elimination of row i are step i+1; upward elimination of
      column i is step 2n - i. */
  predicate WellFormed(n: nat, rep: Report)
  {
    rep.total == 2 * n && 1 <= rep.step <= 2 * n &&
    |rep.snapshot| == n && IsSquare(rep.snapshot) &&
    match rep.phase
    case Normalization =>
      rep.step <= n && |rep.ops| == 1 &&
      rep.ops[0] == Op(Normalization, rep.step - 1, rep.step - 1, rep.ops[0].factor) &&
      rep.ops[0].factor != 0.0
    case EliminationDown =>
      rep.step <= n && SweepOps(n, EliminationDown, rep.step - 1, rep.ops)
    case EliminationUp =>
      n < rep.step && SweepOps(n, EliminationUp, 2 * n - rep.step, rep.ops)
  }

  /** Targets that rise strictly from above the pivot: the k-th is at
      least pivot + 1 + k. */
  lemma {:induction false} RisingTargets(ops: seq<Op>, pivot: nat, k: nat)
    requires forall op <- ops :: pivot < op.target
    requires forall p, q :: 0 <= p < q < |ops| ==> ops[p].target < ops[q].target
    requires k < |ops|
    ensures ops[k].target >= pivot + 1 + k
  {
    if k > 0 {
      RisingTargets(ops, pivot, k - 1);
      assert ops[k - 1].target < ops[k].target;
    }
  }

  /** Targets that fall strictly from below the pivot: the k-th is at most
      pivot - 1 - k. */
  lemma {:induction false} FallingTargets(ops: seq<Op>, pivot: nat, k: nat)
    requires forall op <- ops :: op.target < pivot
    requires forall p, q :: 0 <= p < q < |ops| ==> ops[p].target > ops[q].target
    requires k < |ops|
    ensures ops[k].target + 1 + k <= pivot
  {
    if k > 0 {
      FallingTargets(ops, pivot, k - 1);
      assert ops[k - 1].target > ops[k].target;
    }
  }

  /** A report names at most n-1 eliminations (one per row other than the
      pivot row): at most n-1-i below pivot row i, at most i above it. A
      normalisation report names exactly one operation. */
  lemma ReportOpsBound(n: nat, rep: Report)
    requires WellFormed(n, rep)
    ensures rep.phase == Normalization ==> |rep.ops| == 1
    ensures rep.phase == EliminationDown ==> |rep.ops| <= n - rep.step
    ensures rep.phase == EliminationUp ==> |rep.ops| <= 2 * n - rep.step
    ensures |rep.ops| <= n - 1 || (rep.phase == Normalization && n == 1)
  {
    var ops := rep.ops;
    if rep.phase == EliminationDown {
      RisingTargets(ops, rep.step - 1, |ops| - 1);
    } else if rep.phase == EliminationUp {
      FallingTargets(ops, 2 * n - rep.step, |ops| - 1);
    }
  }

  /** Step numbers never decrease along the trace. */
  predicate Sorted(trace: seq<Report>)
  {
    forall p, q :: 0 <= p < q < |trace| ==> trace[p].step <= trace[q].step
  }

  /** Every report is well formed and numbered at most the number of the
      report after it, the last one at most `last`. */
  predicate ReportsUpTo(n: nat, trace: seq<Report>, last: nat)
    decreases |trace|
  {
    if trace == [] then true
    else
      var rep := trace[|trace| - 1];
      WellFormed(n, rep) && rep.step <= last && ReportsUpTo(n, trace[..|trace| - 1], rep.step)
  }

  /** Reports up to `last` are well formed, numbered at most `last`, and
      their numbers never decrease. */
  lemma {:induction false} ReportsUpToSorted(n: nat, trace: seq<Report>, last: nat)
    requires ReportsUpTo(n, trace, last)
    ensures Sorted(trace) && forall rep <- trace :: WellFormed(n, rep) && rep.step <= last
    decreases |trace|
  {
    if trace != [] {
      var init := trace[..|trace| - 1];
      var rep := trace[|trace| - 1];
      ReportsUpToSorted(n, init, rep.step);
      forall p, q | 0 <= p < q < |trace|
        ensures trace[p].step <= trace[q].step
      {
        assert trace[p] == init[p];
        if q < |init| {
          assert trace[q] == init[q];
        }
      }
      forall r | r in trace
        ensures WellFormed(n, r) && r.step <= last
      {
        var p :| 0 <= p < |trace| && trace[p] == r;
        if p < |init| {
          assert init[p] == r;
        }
      }
    }
  }

  /** Conversely, well-formed reports numbered at most `last`, with numbers
      that never decrease, are reports up to `last`. */
  lemma {:induction false} SortedReportsUpTo(n: nat, trace: seq<Report>, last: nat)
    requires Sorted(trace) && forall rep <- trace :: WellFormed(n, rep) && rep.step <= last
    ensures ReportsUpTo(n, trace, last)
    decreases |trace|
  {
    if trace != [] {
      var init := trace[..|trace| - 1];
      var rep := trace[|trace| - 1];
      assert rep in trace;
      forall r | r in init
        ensures WellFormed(n, r) && r.step <= rep.step
      {
        var p :| 0 <= p < |init| && init[p] == r;
        assert trace[p] == r;
      }
      forall p, q | 0 <= p < q < |init|
        ensures init[p].step <= init[q].step
      {
        assert init[p] == trace[p] && init[q] == trace[q];
      }
      SortedReportsUpTo(n, init, rep.step);
    }
  }

  /** Reports numbered at most s are numbered at most any later s'. */
  lemma UpToLater(n: nat, trace: seq<Report>, s: nat, s': nat)
    requires ReportsUpTo(n, trace, s) && s <= s'
    ensures ReportsUpTo(n, trace, s')
  {
  }

  /** Appending a well-formed report numbered after all earlier ones, and
      at most s, gives reports up to s. */
  lemma ReportsSnoc(n: nat, trace: seq<Report>, rep: Report, s: nat)
    requires ReportsUpTo(n, trace, rep.step) && WellFormed(n, rep) && rep.step <= s
    ensures ReportsUpTo(n, trace + [rep], s)
  {
    assert (trace + [rep])[..|trace|] == trace;
  }

  /** Below the pivot the rows are eliminated from the top down, each at
      most once. */
  lemma {:induction false} BelowOrder(m: Matrix, i: nat, j: nat)
    requires IsSquare(m) && i < j <= |m|
    ensures var ops := LoggedOps(m, i, Ascending(i + 1, j), EliminationDown);
      forall p, q :: 0 <= p < q < |ops| ==> ops[p].target < ops[q].target
    decreases j
  {
    if j > i + 1 {
      var t := j - 1;
      BelowOrder(m, i, t);
      assert Ascending(i + 1, j) == Ascending(i + 1, t) + [t];
      LoggedOpsGrows(m, i, Ascending(i + 1, t), t, EliminationDown);
      var prev := LoggedOps(m, i, Ascending(i + 1, t), EliminationDown);
      LoggedOpsFacts(m, i, Ascending(i + 1, t), EliminationDown, i + 1, t);
      if m[t][i] != 0.0 {
        LastAbove(prev, Op(EliminationDown, t, i, m[t][i]));
      }
    }
  }

  /** Above the pivot the rows are eliminated from the bottom up, each at
      most once. */
  lemma {:induction false} AboveOrder(m: Matrix, i: nat, j: nat)
    requires IsSquare(m) && j <= i < |m|
    ensures var ops := LoggedOps(m, i, Descending(i, j), EliminationUp);
      forall p, q :: 0 <= p < q < |ops| ==> ops[p].target > ops[q].target
    decreases i - j
  {
    if j < i {
      AboveOrder(m, i, j + 1);
      assert Descending(i, j) == Descending(i, j + 1) + [j];
      LoggedOpsGrows(m, i, Descending(i, j + 1), j, EliminationUp);
      var prev := LoggedOps(m, i, Descending(i, j + 1), EliminationUp);
      LoggedOpsFacts(m, i, Descending(i, j + 1), EliminationUp, j + 1, i);
      if m[j][i] != 0.0 {
        LastBelow(prev, Op(EliminationUp, j, i, m[j][i]));
      }
    }
  }

  /** Appending an operation on a row beyond all earlier ones keeps the
      targets strictly ascending. */
  lemma LastAbove(ops: seq<Op>, op: Op)
    requires forall p, q :: 0 <= p < q < |ops| ==> ops[p].target < ops[q].target
    requires forall o <- ops :: o.target < op.target
    ensures var all := ops + [op];
      forall p, q :: 0 <= p < q < |all| ==> all[p].target < all[q].target
  {
    var all := ops + [op];
    forall p, q | 0 <= p < q < |all|
      ensures all[p].target < all[q].target
    {
      assert all[p] == ops[p];
      if q < |ops| {
        assert all[q] == ops[q];
      } else {
        assert ops[p] in ops;
      }
    }
  }

  /** Appending an operation on a row before all earlier ones keeps the
      targets strictly descending. */
  lemma LastBelow(ops: seq<Op>, op: Op)
    requires forall p, q :: 0 <= p < q < |ops| ==> ops[p].target > ops[q].target
    requires forall o <- ops :: o.target > op.target
    ensures var all := ops + [op];
      forall p, q :: 0 <= p < q < |all| ==> all[p].target > all[q].target
  {
    var all := ops + [op];
    forall p, q | 0 <= p < q < |all|
      ensures all[p].target > all[q].target
    {
      assert all[p] == ops[p];
      if q < |ops| {
        assert all[q] == ops[q];
      } else {
        assert ops[p] in ops;
      }
    }
  }

  /** The log of a sweep below pivot row i, when not empty, is as a
      downward elimination report requires. */
  lemma DownSweepOps(a: Matrix, i: nat)
    requires IsSquare(a) && i < |a|
    ensures var ops := LoggedOps(a, i, Ascending(i + 1, |a|), EliminationDown);
      ops != [] ==> SweepOps(|a|, EliminationDown, i, ops)
  {
    LoggedOpsFacts(a, i, Ascending(i + 1, |a|), EliminationDown, i + 1, |a|);
    BelowOrder(a, i, |a|);
  }

  /** The log of a sweep above pivot row k, when not empty, is as an upward
      elimination report requires. */
  lemma UpSweepOps(a: Matrix, k: nat)
    requires IsSquare(a) && k < |a|
    ensures var ops := LoggedOps(a, k, Descending(k, 0), EliminationUp);
      ops != [] ==> SweepOps(|a|, EliminationUp, k, ops)
  {
    LoggedOpsFacts(a, k, Descending(k, 0), EliminationUp, 0, k);
    AboveOrder(a, k, 0);
  }

  /** A forward step runs exactly when its pivot is nonzero. When it runs it
      keeps the earlier reports and always adds the normalisation report
      first (step i+1, row i divided by the old pivot, a snapshot with 1 in
      the pivot's place), then at most one more; when it stops it adds
      nothing and leaves the matrix as it was. */
  lemma ForwardStepLogsNormalization(a: Matrix, i: nat, trace: seq<Report>)
    requires IsSquare(a) && i < |a|
    ensures var p := ForwardStep(a, i, trace);
      (p.Running? <==> a[i][i] != 0.0) &&
      (p.Stuck? ==> p == Stuck(i, a, trace))
    ensures var p := ForwardStep(a, i, trace);
      p.Running? ==>
        |trace| < |p.trace| <= |trace| + 2 && p.trace[..|trace|] == trace &&
        p.trace[|trace|].phase == Normalization && p.trace[|trace|].step == i + 1 &&
        p.trace[|trace|].ops == [Op(Normalization, i, i, a[i][i])] &&
        p.trace[|trace|].snapshot[i][i] == 1.0
  {
    if a[i][i] != 0.0 {
      NormalizeRowFacts(a, i);
    }
  }

  /** A forward step on row i adds well-formed reports numbered i+1. */
  lemma ForwardStepReports(a: Matrix, i: nat, trace: seq<Report>)
    requires IsSquare(a) && i < |a| && ReportsUpTo(|a|, trace, i)
    ensures var p := ForwardStep(a, i, trace);
      p.Running? ==> ReportsUpTo(|a|, p.trace, i + 1)
  {
    var n := |a|;
    var pivot := a[i][i];
    if pivot != 0.0 {
      var a1 := NormalizeRow(a, i);
      var normalized := Report(i + 1, 2 * n, Normalization, a1, [Op(Normalization, i, i, pivot)]);
      ReportsSnoc(n, trace, normalized, i + 1);
      DownReportsUpTo(a1, i, trace + [normalized]);
    }
  }

  /** The report of the elimination below pivot i, when there is one, is
      well formed and numbered i + 1. */
  lemma DownReportsUpTo(a: Matrix, i: nat, trace: seq<Report>)
    requires IsSquare(a) && i < |a| && ReportsUpTo(|a|, trace, i + 1)
    ensures ReportsUpTo(|a|, trace + DownReports(a, i), i + 1)
  {
    var reps := DownReports(a, i);
    if reps == [] {
      assert trace + reps == trace;
    } else {
      DownSweepOps(a, i);
      assert reps == [reps[0]];
      ReportsSnoc(|a|, trace, reps[0], i + 1);
    }
  }


  /** The forward phase's reports, after k steps, are well formed, in order
      and numbered at most k. */
  lemma {:induction false} ForwardReports(m: Matrix, k: nat)
    requires IsSquare(m) && k <= |m|
    ensures ReportsUpTo(|m|, Forward(m, k).trace, k)
  {
    if k > 0 {
      ForwardReports(m, k - 1);
      var prev := Forward(m, k - 1);
      if prev.Running? {
        ForwardStepReports(prev.m, k - 1, prev.trace);
        assert Forward(m, k) == ForwardStep(prev.m, k - 1, prev.trace);
      } else {
        assert Forward(m, k) == prev;
        UpToLater(|m|, prev.trace, k - 1, k);
      }
    }
  }


  /** A backward step on column k adds at most one well-formed report,
      numbered 2n - k. */
  lemma BackwardStepReports(a: Matrix, k: nat, trace: seq<Report>)
    requires IsSquare(a) && k < |a| && ReportsUpTo(|a|, trace, 2 * |a| - k - 1)
    ensures ReportsUpTo(|a|, BackwardStep(a, k, trace).1, 2 * |a| - k)
  {
    var n := |a|;
    var a2 := Cleared(a, k, 0, k);
    var ops := LoggedOps(a, k, Descending(k, 0), EliminationUp);
    var ext := if ops == [] then [] else [Report(2 * n - k, 2 * n, EliminationUp, a2, ops)];
    assert BackwardStep(a, k, trace) == (a2, trace + ext);
    UpToLater(n, trace, 2 * n - k - 1, 2 * n - k);
    if ops != [] {
      UpSweepOps(a, k);
      ReportsSnoc(n, trace, ext[0], 2 * n - k);
    } else {
      assert trace + ext == trace;
    }
  }

  /** The backward phase's reports, for the columns n-1 down to k, are well
      formed, in order, numbered after the forward phase and at most 2n - k. */
  lemma {:induction false} BackwardReports(m: Matrix, k: nat, trace: seq<Report>)
    requires IsSquare(m) && k <= |m| && ReportsUpTo(|m|, trace, |m|)
    ensures ReportsUpTo(|m|, trace + Backward(m, k).1, 2 * |m| - k)
    decreases |m| - k
  {
    if k == |m| {
      assert trace + Backward(m, k).1 == trace;
    } else {
      BackwardReports(m, k + 1, trace);
      var prev := Backward(m, k + 1);
      assert |prev.0| == |m| && ReportsUpTo(|prev.0|, trace + prev.1, 2 * |prev.0| - k - 1);
      BackwardStepReports(prev.0, k, trace + prev.1);
      BackwardStepAppends(prev.0, k, trace, prev.1);
    }
  }

  /** A backward step only appends to the trace it is given. */
  lemma BackwardStepAppends(a: Matrix, k: nat, t1: seq<Report>, t2: seq<Report>)
    requires IsSquare(a) && k < |a|
    ensures BackwardStep(a, k, t1 + t2).1 == t1 + BackwardStep(a, k, t2).1
    ensures BackwardStep(a, k, t1 + t2).0 == BackwardStep(a, k, t2).0
  {
  }

  /** Every report of a run is well formed, the step numbers never decrease,
      and none exceeds the final value of the step counter. */
  lemma GaussJordanReports(m: Matrix)
    requires IsSquare(m)
    ensures var o := GaussJordan(m);
      Sorted(o.trace) && forall rep <- o.trace :: WellFormed(|m|, rep) && rep.step <= o.steps
  {
    var n := |m|;
    var o := GaussJordan(m);
    var p := Forward(m, n);
    ForwardReports(m, n);
    if p.Stuck? {
      StuckSince(m, n);
      ForwardReports(m, p.row);
      UpToLater(n, p.trace, p.row, p.row + 1);
    } else {
      BackwardReports(p.m, 0, p.trace);
    }
    ReportsUpToSorted(n, o.trace, o.steps);
  }
}
