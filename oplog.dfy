/** The operation log is faithful: carrying out the operations of each
    report, in order, on the matrix shown by the report before it (the input
    matrix for the first) gives exactly the matrix the report shows. */
module OperationLog {
  import opened Matrices
  import opened Elimination

  /** An operation that names rows of an n×n matrix and can be carried out:
      a normalisation divides a row by a nonzero factor, an elimination
      subtracts a multiple of another row. */
  predicate Applicable(n: nat, op: Op)
  {
    op.target < n && op.pivotRow < n &&
    if op.phase == Normalization then op.target == op.pivotRow && op.factor != 0.0
    else op.target != op.pivotRow
  }

  predicate AllApplicable(n: nat, ops: seq<Op>)
  {
    forall k :: 0 <= k < |ops| ==> Applicable(n, ops[k])
  }

  /** Carrying out one logged operation. */
  function ApplyOp(m: Matrix, op: Op): (m': Matrix)
    requires IsSquare(m) && Applicable(|m|, op)
    ensures |m'| == |m| && IsSquare(m')
  {
    if op.phase == Normalization then m[op.target := ScaleRow(m[op.target], op.factor)]
    else m[op.target := SubMultiple(m[op.target], op.factor, m[op.pivotRow])]
  }

  /** Carrying out logged operations in their order. */
  function ApplyOps(m: Matrix, ops: seq<Op>): (m': Matrix)
    requires IsSquare(m) && AllApplicable(|m|, ops)
    ensures |m'| == |m| && IsSquare(m')
  {
    if ops == [] then m
    else ApplyOp(ApplyOps(m, ops[..|ops| - 1]), ops[|ops| - 1])
  }

  datatype Option<T> = None | Some(value: T)

  /** Replaying the reports from m: each report's operations are carried
      out on the matrix before it (m for the first report) and must give the
      matrix the report shows. The result is the matrix shown last (m when
      nothing was reported), or None from the first report that does not
      replay on. */
  function Replay(m: Matrix, trace: seq<Report>): (r: Option<Matrix>)
    requires IsSquare(m)
    ensures r.Some? ==> |r.value| == |m| && IsSquare(r.value)
    ensures r.Some? && trace != [] ==> r.value == trace[|trace| - 1].snapshot
    decreases |trace|
  {
    if trace == [] then Some(m)
    else
      match Replay(m, trace[..|trace| - 1])
      case None => None
      case Some(before) =>
        var rep := trace[|trace| - 1];
        if AllApplicable(|m|, rep.ops) && ApplyOps(before, rep.ops) == rep.snapshot then Some(rep.snapshot)
        else None
  }

  /** A report whose operations carry the matrix replayed so far to its
      snapshot extends the replay. */
  lemma ReplaySnoc(m: Matrix, trace: seq<Report>, a: Matrix, rep: Report)
    requires IsSquare(m) && Replay(m, trace) == Some(a)
    requires AllApplicable(|m|, rep.ops) && ApplyOps(a, rep.ops) == rep.snapshot
    ensures Replay(m, trace + [rep]) == Some(rep.snapshot)
  {
    assert (trace + [rep])[..|trace|] == trace;
  }

  /** Splitting off the last element of a nonempty second part. */
  lemma AppendLast(t1: seq<Report>, t2: seq<Report>)
    requires |t2| > 0
    ensures t1 + t2 == (t1 + t2[..|t2| - 1]) + [t2[|t2| - 1]]
  {
    assert t2 == t2[..|t2| - 1] + [t2[|t2| - 1]];
  }

  /** Two replays chain: the second starting where the first ends. */
  lemma {:induction false} ReplayAppend(m: Matrix, t1: seq<Report>, a: Matrix, t2: seq<Report>, b: Matrix)
    requires IsSquare(m) && Replay(m, t1) == Some(a) && Replay(a, t2) == Some(b)
    ensures Replay(m, t1 + t2) == Some(b)
    decreases |t2|
  {
    if t2 == [] {
      assert t1 + t2 == t1;
    } else {
      var before := t2[..|t2| - 1];
      var rep := t2[|t2| - 1];
      var c := Replay(a, before).value;
      ReplayAppend(m, t1, a, before, c);
      ReplaySnoc(m, t1 + before, c, rep);
      AppendLast(t1, t2);
    }
  }

  /** An elimination of the given phase against pivot row i, on a row in
      [lo, hi), with the nonzero factor that row had in column i of m. */
  predicate SweepOp(m: Matrix, i: nat, phase: Phase, lo: nat, hi: nat, op: Op)
    requires IsSquare(m) && i < |m| && hi <= |m|
  {
    op.phase == phase && op.pivotRow == i && lo <= op.target < hi &&
    op.factor == m[op.target][i] && op.factor != 0.0
  }

  /** The operations logged while clearing a column are all of that phase,
      against the pivot row, on rows of the sweep, and with the nonzero
      factor the row had before the sweep. */
  lemma {:induction false} LoggedOpsFacts(m: Matrix, i: nat, ts: seq<nat>, phase: Phase, lo: nat, hi: nat)
    requires IsSquare(m) && i < |m| && hi <= |m|
    requires forall k :: 0 <= k < |ts| ==> lo <= ts[k] < hi
    ensures forall op <- LoggedOps(m, i, ts, phase) :: SweepOp(m, i, phase, lo, hi, op)
  {
    if ts != [] {
      var prefix := LoggedOps(m, i, ts[..|ts| - 1], phase);
      LoggedOpsFacts(m, i, ts[..|ts| - 1], phase, lo, hi);
      var t := ts[|ts| - 1];
      assert lo <= t < hi;
    }
  }

  /** A row is named by the log of a sweep exactly when the sweep visits it
      and its factor is nonzero: a row whose factor is already zero is
      skipped without a record. */
  lemma {:induction false} LoggedRows(m: Matrix, i: nat, ts: seq<nat>, phase: Phase, r: nat)
    requires IsSquare(m) && i < |m|
    requires forall k :: 0 <= k < |ts| ==> ts[k] < |m|
    ensures (exists op <- LoggedOps(m, i, ts, phase) :: op.target == r) <==> r in ts && m[r][i] != 0.0
  {
    if ts != [] {
      var init := ts[..|ts| - 1];
      var t := ts[|ts| - 1];
      var prefix := LoggedOps(m, i, init, phase);
      var ops := LoggedOps(m, i, ts, phase);
      LoggedRows(m, i, init, phase, r);
      assert ts == init + [t];
      if m[t][i] != 0.0 {
        assert ops == prefix + [Op(phase, t, i, m[t][i])];
        if t == r {
          assert ops[|prefix|].target == r;
        }
      } else {
        assert ops == prefix;
      }
    }
  }

  /** Carrying out one more operation. */
  lemma ApplyOpsSnoc(m: Matrix, ops: seq<Op>, op: Op)
    requires IsSquare(m) && AllApplicable(|m|, ops) && Applicable(|m|, op)
    ensures AllApplicable(|m|, ops + [op])
    ensures ApplyOps(m, ops + [op]) == ApplyOp(ApplyOps(m, ops), op)
  {
    assert (ops + [op])[..|ops|] == ops;
  }

  /** The logged elimination of row t, carried out part-way through a sweep
      that has not reached row t yet, is the sweep's own elimination. */
  lemma ApplyLoggedElimination(m: Matrix, c: Matrix, i: nat, t: nat, phase: Phase)
    requires IsSquare(m) && IsSquare(c) && |c| == |m| && i < |m| && t < |m| && t != i
    requires phase != Normalization && c[t] == m[t] && c[i] == m[i]
    ensures Applicable(|m|, Op(phase, t, i, m[t][i]))
    ensures ApplyOp(c, Op(phase, t, i, m[t][i])) == EliminateRow(c, t, i)
  {
  }

  /** The log of a sweep below the pivot, up to row j, carried out on m. */
  predicate ReplaysBelow(m: Matrix, i: nat, j: nat)
    requires IsSquare(m) && i < j <= |m|
  {
    var ops := LoggedOps(m, i, Ascending(i + 1, j), EliminationDown);
    AllApplicable(|m|, ops) && ApplyOps(m, ops) == Cleared(m, i, i + 1, j)
  }

  /** The log of a sweep above the pivot, from row j, carried out on m. */
  predicate ReplaysAbove(m: Matrix, i: nat, j: nat)
    requires IsSquare(m) && j <= i < |m|
  {
    var ops := LoggedOps(m, i, Descending(i, j), EliminationUp);
    AllApplicable(|m|, ops) && ApplyOps(m, ops) == Cleared(m, i, j, i)
  }

  /** One more row of the sweep below the pivot keeps the log faithful. */
  lemma ReplayBelowStep(m: Matrix, i: nat, t: nat)
    requires IsSquare(m) && i < t < |m| && ReplaysBelow(m, i, t)
    ensures ReplaysBelow(m, i, t + 1)
  {
    var ops := LoggedOps(m, i, Ascending(i + 1, t), EliminationDown);
    BelowStep(m, i, t);
    if m[t][i] != 0.0 {
      var op := Op(EliminationDown, t, i, m[t][i]);
      ApplyLoggedElimination(m, Cleared(m, i, i + 1, t), i, t, EliminationDown);
      ApplyOpsSnoc(m, ops, op);
      assert LoggedOps(m, i, Ascending(i + 1, t + 1), EliminationDown) == ops + [op];
    } else {
      assert LoggedOps(m, i, Ascending(i + 1, t + 1), EliminationDown) == ops;
    }
  }

  /** One more row of the sweep above the pivot keeps the log faithful. */
  lemma ReplayAboveStep(m: Matrix, i: nat, j: nat)
    requires IsSquare(m) && j < i < |m| && ReplaysAbove(m, i, j + 1)
    ensures ReplaysAbove(m, i, j)
  {
    var ops := LoggedOps(m, i, Descending(i, j + 1), EliminationUp);
    AboveStep(m, i, j);
    if m[j][i] != 0.0 {
      var op := Op(EliminationUp, j, i, m[j][i]);
      ApplyLoggedElimination(m, Cleared(m, i, j + 1, i), i, j, EliminationUp);
      ApplyOpsSnoc(m, ops, op);
      assert LoggedOps(m, i, Descending(i, j), EliminationUp) == ops + [op];
    } else {
      assert LoggedOps(m, i, Descending(i, j), EliminationUp) == ops;
    }
  }

  /** Carrying out the log of a sweep below the pivot reproduces the sweep. */
  lemma {:induction false} ReplayBelow(m: Matrix, i: nat, j: nat)
    requires IsSquare(m) && i < j <= |m|
    ensures ReplaysBelow(m, i, j)
    decreases j
  {
    if j == i + 1 {
      assert Ascending(i + 1, j) == [];
      assert Cleared(m, i, i + 1, j) == m;
    } else {
      ReplayBelow(m, i, j - 1);
      ReplayBelowStep(m, i, j - 1);
    }
  }

  /** Carrying out the log of a sweep above the pivot reproduces the sweep. */
  lemma {:induction false} ReplayAbove(m: Matrix, i: nat, j: nat)
    requires IsSquare(m) && j <= i < |m|
    ensures ReplaysAbove(m, i, j)
    decreases i - j
  {
    if j == i {
      assert Descending(i, j) == [];
      assert Cleared(m, i, j, i) == m;
    } else {
      ReplayAbove(m, i, j + 1);
      ReplayAboveStep(m, i, j);
    }
  }

  /** The reports of one forward step replay: the normalisation report from
      the matrix before the step, the elimination report (when there is one)
      from the normalised matrix. */
  lemma ForwardStepReplays(m: Matrix, a: Matrix, i: nat, trace: seq<Report>)
    requires IsSquare(m) && IsSquare(a) && i < |a| && |a| == |m|
    requires Replay(m, trace) == Some(a)
    ensures Replay(m, ForwardStep(a, i, trace).trace) == Some(ForwardStep(a, i, trace).Current())
  {
    var n := |a|;
    var pivot := a[i][i];
    if pivot != 0.0 {
      var a1 := NormalizeRow(a, i);
      var a2 := Cleared(a1, i, i + 1, n);
      var ops := LoggedOps(a1, i, Ascending(i + 1, n), EliminationDown);
      var norm := Op(Normalization, i, i, pivot);
      var normalized := Report(i + 1, 2 * n, Normalization, a1, [norm]);
      assert ApplyOps(a, [norm]) == a1 by {
        assert [norm][..0] == [];
      }
      ReplaySnoc(m, trace, a, normalized);
      ReplayBelow(a1, i, n);
      if ops != [] {
        ReplaySnoc(m, trace + [normalized], a1, Report(i + 1, 2 * n, EliminationDown, a2, ops));
      } else {
        assert a2 == a1;
        assert trace + [normalized] + [] == trace + [normalized];
      }
    }
  }

  /** Replaying the reports of a forward phase part-way. */
  ghost function ReplayOf(m: Matrix, p: Progress): Option<Matrix>
    requires IsSquare(m)
  {
    Replay(m, p.trace)
  }

  /** One turn of the forward loop, running or stopped, keeps the reports
      replaying. */
  lemma ProgressReplays(m: Matrix, p: Progress, i: nat, q: Progress)
    requires IsSquare(m) && (p.Running? ==> IsSquare(p.m) && |p.m| == |m| && i < |m|)
    requires ReplayOf(m, p) == Some(p.Current())
    requires q == if p.Stuck? then p else ForwardStep(p.m, i, p.trace)
    ensures ReplayOf(m, q) == Some(q.Current())
  {
    if p.Running? {
      ForwardStepReplays(m, p.m, i, p.trace);
    }
  }

  /** Replaying the reports of the forward phase after its first k steps. */
  ghost function ForwardReplay(m: Matrix, k: nat): Option<Matrix>
    requires IsSquare(m) && k <= |m|
  {
    ReplayOf(m, Forward(m, k))
  }

  /** The matrix the forward phase reached, or stopped at, after k steps. */
  ghost function ForwardMatrix(m: Matrix, k: nat): Matrix
    requires IsSquare(m) && k <= |m|
  {
    Forward(m, k).Current()
  }

  /** Step k of the forward phase keeps its reports replaying. */
  lemma ForwardReplayStep(m: Matrix, k: nat)
    requires IsSquare(m) && 0 < k <= |m|
    requires ForwardReplay(m, k - 1) == Some(ForwardMatrix(m, k - 1))
    ensures ForwardReplay(m, k) == Some(ForwardMatrix(m, k))
  {
    var p := Forward(m, k - 1);
    var q := Forward(m, k);
    assert ReplayOf(m, p) == Some(p.Current());
    if p.Running? {
      ForwardRunningStep(m, k);
    } else {
      StuckPersists(m, k - 1, k);
    }
    ProgressReplays(m, p, k - 1, q);
  }

  /** The forward phase's reports replay from the input, ending in the
      matrix it reached or stopped at. */
  lemma {:induction false} ForwardReplays(m: Matrix, k: nat)
    requires IsSquare(m) && k <= |m|
    ensures ForwardReplay(m, k) == Some(ForwardMatrix(m, k))
  {
    if k == 0 {
      assert Forward(m, 0) == Running(m, []);
    } else {
      ForwardReplays(m, k - 1);
      ForwardReplayStep(m, k);
    }
  }

  /** The report of one backward step, when there is one, replays from the
      matrix before the step to the matrix after it. */
  lemma UpReportsReplay(a: Matrix, k: nat)
    requires IsSquare(a) && k < |a|
    ensures Replay(a, UpReports(a, k)) == Some(Cleared(a, k, 0, k))
  {
    var reps := UpReports(a, k);
    ReplayAbove(a, k, 0);
    if reps != [] {
      ReplaySnoc(a, [], a, reps[0]);
      assert [] + [reps[0]] == reps;
    } else {
      assert Cleared(a, k, 0, k) == a;
    }
  }

  /** A backward step extends a replaying trace. */
  lemma BackwardStepReplays(m: Matrix, a: Matrix, k: nat, trace: seq<Report>)
    requires IsSquare(m) && IsSquare(a) && k < |a| && |a| == |m|
    requires Replay(m, trace) == Some(a)
    ensures Replay(m, BackwardStep(a, k, trace).1) == Some(BackwardStep(a, k, trace).0)
  {
    UpReportsReplay(a, k);
    ReplayAppend(m, trace, a, UpReports(a, k), Cleared(a, k, 0, k));
  }

  /** The backward phase's reports replay from the matrix it starts with. */
  lemma {:induction false} BackwardReplays(m: Matrix, k: nat)
    requires IsSquare(m) && k <= |m|
    ensures Replay(m, Backward(m, k).1) == Some(Backward(m, k).0)
    decreases |m| - k
  {
    if k < |m| {
      BackwardReplays(m, k + 1);
      var prev := Backward(m, k + 1);
      BackwardStepReplays(m, prev.0, k, prev.1);
      assert Backward(m, k) == BackwardStep(prev.0, k, prev.1);
    }
  }

  /** The whole log replays: starting from the input and carrying out each
      report's operations in turn reproduces every snapshot, and the last
      one is the matrix the run returned or stopped at. */
  lemma GaussJordanReplays(m: Matrix)
    requires IsSquare(m)
    ensures var o := GaussJordan(m);
      Replay(m, o.trace) == Some(match o.status case Reduced(r) => r case SingularPivot(_, at) => at)
  {
    var p := Forward(m, |m|);
    ForwardReplays(m, |m|);
    assert Replay(m, p.trace) == Some(p.Current());
    if p.Running? {
      var b := Backward(p.m, 0);
      BackwardReplays(p.m, 0);
      ReplayAppend(m, p.trace, p.m, b.1, b.0);
    }
  }
}
