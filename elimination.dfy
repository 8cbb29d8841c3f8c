/** Gauss-Jordan elimination without row exchanges, as a function of the
    input matrix: the specification that the imperative routine in module
    Resolver is proved to compute.

    Forward phase, for i = 0 .. n-1: divide row i by its pivot A[i][i], then
    for j = i+1 .. n-1 replace row j by row j − A[j][i]·row i unless A[j][i]
    is already zero. Backward phase, for i = n-1 down to 0: for j = i-1 down
    to 0, the same elimination above the pivot. A zero pivot stops the run
    with SingularPivot before anything is divided by it. */
module Elimination {
  import opened Matrices

  /** The three kinds of step that are reported. */
  datatype Phase = Normalization | EliminationDown | EliminationUp

  /** One logged row operation. For Normalization, row `target` (equal to
      `pivotRow`) was divided by `factor`, the pivot; for the two elimination
      phases, row `target` became row target − factor·row pivotRow. */
  datatype Op = Op(phase: Phase, target: nat, pivotRow: nat, factor: real)

  /** One reported step: the step counter, the total number of steps, what
      was done, the matrix afterwards and the operations that were applied. */
  datatype Report = Report(step: nat, total: nat, phase: Phase, snapshot: Matrix, ops: seq<Op>)

  datatype Status = Reduced(result: Matrix) | SingularPivot(row: nat, at: Matrix)

  /** The reports in order, the final value of the step counter, and how the
      run ended. */
  datatype Outcome = Outcome(trace: seq<Report>, steps: nat, status: Status)

  /** The forward phase part-way: either still running, or stopped at a
      zero pivot in row `row` of the matrix `at`. */
  datatype Progress = Running(m: Matrix, trace: seq<Report>) | Stuck(row: nat, at: Matrix, trace: seq<Report>)
  {
    /** The matrix as the phase left it, running or stopped. */
    function Current(): Matrix
    {
      if Running? then m else at
    }
  }

  /** The rows lo, lo+1, …, hi-1, in the order of `range(lo, hi)`. */
  function Ascending(lo: nat, hi: nat): seq<nat>
    requires lo <= hi
  {
    seq(hi - lo, k requires 0 <= k < hi - lo => lo + k)
  }

  /** The rows hi-1, hi-2, …, lo, in the order of `range(hi - 1, lo - 1, -1)`. */
  function Descending(hi: nat, lo: nat): seq<nat>
    requires lo <= hi
  {
    seq(hi - lo, k requires 0 <= k < hi - lo => hi - 1 - k)
  }

  /** The matrix after the rows lo .. hi-1 have been cleared in column i
      against row i: each such row other than i whose entry in column i is
      nonzero has that multiple of row i subtracted from it; every other row
      is kept. Row i itself never changes, which is why the order in which
      the rows are processed does not matter for the matrix. */
  function Cleared(m: Matrix, i: nat, lo: nat, hi: nat): (m': Matrix)
    requires IsSquare(m) && i < |m|
    ensures |m'| == |m| && IsSquare(m')
  {
    seq(|m|, r requires 0 <= r < |m| =>
      if lo <= r < hi && r != i && m[r][i] != 0.0 then SubMultiple(m[r], m[r][i], m[i]) else m[r])
  }

  /** The operations logged while the rows `ts` are cleared in column i, in
      the order of `ts`: one per row whose factor m[t][i] is nonzero, none
      for a row whose factor is already zero. */
  function LoggedOps(m: Matrix, i: nat, ts: seq<nat>, phase: Phase): (ops: seq<Op>)
    requires IsSquare(m) && i < |m|
    requires forall k :: 0 <= k < |ts| ==> ts[k] < |m|
    ensures |ops| <= |ts|
  {
    if ts == [] then []
    else
      var t := ts[|ts| - 1];
      LoggedOps(m, i, ts[..|ts| - 1], phase) + (if m[t][i] != 0.0 then [Op(phase, t, i, m[t][i])] else [])
  }

  /** Forward step i (counted as step i+1 of 2n): normalise row i, then
      clear column i below the pivot. Stops at a zero pivot. */
  function ForwardStep(a: Matrix, i: nat, trace: seq<Report>): (p: Progress)
    requires IsSquare(a) && i < |a|
    ensures p.Running? ==> |p.m| == |a| && IsSquare(p.m)
  {
    var n := |a|;
    var pivot := a[i][i];
    if pivot == 0.0 then Stuck(i, a, trace)
    else
      var a1 := NormalizeRow(a, i);
      var normalized := Report(i + 1, 2 * n, Normalization, a1, [Op(Normalization, i, i, pivot)]);
      Running(Cleared(a1, i, i + 1, n), trace + [normalized] + DownReports(a1, i))
  }

  /** The report of clearing column i below the pivot in forward step i:
      none when the sweep logged nothing. */
  function DownReports(a: Matrix, i: nat): (reps: seq<Report>)
    requires IsSquare(a) && i < |a|
    ensures |reps| <= 1
  {
    var ops := LoggedOps(a, i, Ascending(i + 1, |a|), EliminationDown);
    if ops == [] then [] else [Report(i + 1, 2 * |a|, EliminationDown, Cleared(a, i, i + 1, |a|), ops)]
  }

  /** The forward loop run for rows 0 .. k-1, one step per row. */
  function ForwardSteps(m: Matrix, k: nat): (p: Progress)
    requires IsSquare(m) && k <= |m|
    ensures p.Running? ==> |p.m| == |m| && IsSquare(p.m)
  {
    if k == 0 then Running(m, [])
    else
      var prev := ForwardSteps(m, k - 1);
      if prev.Stuck? then prev else ForwardStep(prev.m, k - 1, prev.trace)
  }

  /** The forward phase after its first k steps. It names the state of the
      loop ForwardSteps without being recursive itself, so that facts stated
      about it expose one step of the loop at a time. */
  function Forward(m: Matrix, k: nat): (p: Progress)
    requires IsSquare(m) && k <= |m|
    ensures p.Running? ==> |p.m| == |m| && IsSquare(p.m)
  {
    ForwardSteps(m, k)
  }

  /** The report of backward step k (counted as step 2n - k of 2n): none
      when clearing column k above the pivot logged nothing. */
  function UpReports(a: Matrix, k: nat): (reps: seq<Report>)
    requires IsSquare(a) && k < |a|
    ensures |reps| <= 1
  {
    var ops := LoggedOps(a, k, Descending(k, 0), EliminationUp);
    if ops == [] then [] else [Report(2 * |a| - k, 2 * |a|, EliminationUp, Cleared(a, k, 0, k), ops)]
  }

  /** Backward step on column k: clear the column above the pivot; the step
      is reported only when it did something. */
  function BackwardStep(a: Matrix, k: nat, trace: seq<Report>): (b: (Matrix, seq<Report>))
    requires IsSquare(a) && k < |a|
    ensures |b.0| == |a| && IsSquare(b.0)
  {
    (Cleared(a, k, 0, k), trace + UpReports(a, k))
  }

  /** The backward phase after the columns n-1 down to k have been cleared
      above their pivots: the matrix and the reports of those steps. */
  function Backward(m: Matrix, k: nat): (b: (Matrix, seq<Report>))
    requires IsSquare(m) && k <= |m|
    ensures |b.0| == |m| && IsSquare(b.0)
    decreases |m| - k
  {
    if k == |m| then (m, [])
    else
      var prev := Backward(m, k + 1);
      BackwardStep(prev.0, k, prev.1)
  }

  /** The whole elimination of a square matrix. A completed run counts all
      2n steps and returns an n×n matrix; a stopped run stops at one of the
      n rows, having counted the steps up to and including that row. */
  function GaussJordan(m: Matrix): (o: Outcome)
    requires IsSquare(m)
    ensures o.status.Reduced? ==> o.steps == 2 * |m| && |o.status.result| == |m| && IsSquare(o.status.result)
    ensures o.status.SingularPivot? ==> o.status.row < |m| && o.steps == o.status.row + 1
  {
    var n := |m|;
    StuckSince(m, n);
    match Forward(m, n)
    case Stuck(i, at, trace) => Outcome(trace, i + 1, SingularPivot(i, at))
    case Running(a, trace) =>
      var (r, back) := Backward(a, 0);
      Outcome(trace + back, 2 * n, Reduced(r))
  }

  /** While the forward phase runs, its next state is one more step. */
  lemma ForwardRunningStep(m: Matrix, k: nat)
    requires IsSquare(m) && 0 < k <= |m| && Forward(m, k - 1).Running?
    ensures Forward(m, k) == ForwardStep(Forward(m, k - 1).m, k - 1, Forward(m, k - 1).trace)
  {
  }

  /** A forward step stops exactly when its pivot is zero, and then it
      leaves the matrix and the reports as they were. */
  lemma ForwardStepStops(a: Matrix, i: nat, trace: seq<Report>)
    requires IsSquare(a) && i < |a|
    ensures ForwardStep(a, i, trace).Stuck? <==> a[i][i] == 0.0
    ensures ForwardStep(a, i, trace).Stuck? ==> ForwardStep(a, i, trace) == Stuck(i, a, trace)
  {
  }

  /** The forward phase stops at step k when row k-1 of the running matrix
      has a zero pivot; it then keeps that matrix and its reports. */
  lemma ForwardStopsAt(m: Matrix, k: nat)
    requires IsSquare(m) && 0 < k <= |m| && Forward(m, k - 1).Running? && Forward(m, k).Stuck?
    ensures var prev := Forward(m, k - 1);
      Forward(m, k) == Stuck(k - 1, prev.m, prev.trace) && prev.m[k - 1][k - 1] == 0.0
  {
    var prev := Forward(m, k - 1);
    ForwardRunningStep(m, k);
    ForwardStepStops(prev.m, k - 1, prev.trace);
  }

  /** A forward phase that has stopped at row i holds the matrix and the
      reports it had after its first i steps, when it was still running. */
  lemma {:induction false} StuckSince(m: Matrix, k: nat)
    requires IsSquare(m) && k <= |m|
    ensures var p := Forward(m, k);
      p.Stuck? ==> p.row < k && Forward(m, p.row) == Running(p.at, p.trace)
  {
    if k > 0 {
      var prev := Forward(m, k - 1);
      if prev.Stuck? {
        StuckSince(m, k - 1);
        StuckPersists(m, k - 1, k);
      } else if Forward(m, k).Stuck? {
        ForwardStopsAt(m, k);
      }
    }
  }

  /** Once the forward phase has stopped at a zero pivot, later steps
      change nothing. */
  lemma {:induction false} StuckPersists(m: Matrix, k: nat, k': nat)
    requires IsSquare(m) && k <= k' <= |m|
    requires Forward(m, k).Stuck?
    ensures Forward(m, k') == Forward(m, k)
    decreases k' - k
  {
    if k' > k {
      StuckPersists(m, k, k' - 1);
    }
  }

  /** Clearing one more row t extends a sweep: the matrix after it is the
      previous matrix with the single elimination of row t applied, or
      unchanged when row t's factor is zero. This is why the sequential loop
      computes Cleared. */
  lemma ClearedGrows(m: Matrix, i: nat, lo: nat, hi: nat, lo': nat, hi': nat, t: nat)
    requires IsSquare(m) && i < |m| && t < |m| && t != i
    requires lo <= hi
    requires (lo' == lo && hi' == hi + 1 && t == hi) || (lo' + 1 == lo && hi' == hi && t == lo')
    ensures Cleared(m, i, lo', hi') ==
              if m[t][i] != 0.0 then EliminateRow(Cleared(m, i, lo, hi), t, i) else Cleared(m, i, lo, hi)
  {
    var before := Cleared(m, i, lo, hi);
    var after := Cleared(m, i, lo', hi');
    assert before[t] == m[t] && before[i] == m[i];
    if m[t][i] != 0.0 {
      var e := EliminateRow(before, t, i);
      forall r | 0 <= r < |m|
        ensures after[r] == e[r]
      {
        if r == t {
          assert after[t] == EliminateRow(m, t, i)[t];
          assert e[t] == SubMultiple(m[t], m[t][i], m[i]);
        } else {
          assert e[r] == before[r];
        }
      }
      assert after == e;
    } else {
      forall r | 0 <= r < |m|
        ensures after[r] == before[r]
      {
      }
      assert after == before;
    }
  }

  /** One iteration of the loop below the pivot, on row j. */
  lemma BelowStep(m: Matrix, i: nat, j: nat)
    requires IsSquare(m) && i < j < |m|
    ensures Cleared(m, i, i + 1, j)[j] == m[j] && Cleared(m, i, i + 1, j)[i] == m[i]
    ensures Cleared(m, i, i + 1, j + 1) ==
              if m[j][i] != 0.0 then EliminateRow(Cleared(m, i, i + 1, j), j, i) else Cleared(m, i, i + 1, j)
    ensures LoggedOps(m, i, Ascending(i + 1, j + 1), EliminationDown) ==
              LoggedOps(m, i, Ascending(i + 1, j), EliminationDown) +
              (if m[j][i] != 0.0 then [Op(EliminationDown, j, i, m[j][i])] else [])
  {
    ClearedGrows(m, i, i + 1, j, i + 1, j + 1, j);
    assert Ascending(i + 1, j + 1) == Ascending(i + 1, j) + [j];
    LoggedOpsGrows(m, i, Ascending(i + 1, j), j, EliminationDown);
  }

  /** One iteration of the loop above the pivot, on row j. */
  lemma AboveStep(m: Matrix, i: nat, j: nat)
    requires IsSquare(m) && j < i < |m|
    ensures Cleared(m, i, j + 1, i)[j] == m[j] && Cleared(m, i, j + 1, i)[i] == m[i]
    ensures Cleared(m, i, j, i) ==
              if m[j][i] != 0.0 then EliminateRow(Cleared(m, i, j + 1, i), j, i) else Cleared(m, i, j + 1, i)
    ensures LoggedOps(m, i, Descending(i, j), EliminationUp) ==
              LoggedOps(m, i, Descending(i, j + 1), EliminationUp) +
              (if m[j][i] != 0.0 then [Op(EliminationUp, j, i, m[j][i])] else [])
  {
    ClearedGrows(m, i, j + 1, i, j, i, j);
    assert Descending(i, j) == Descending(i, j + 1) + [j];
    LoggedOpsGrows(m, i, Descending(i, j + 1), j, EliminationUp);
  }

  /** Logging one more row t appends at most its own operation. */
  lemma LoggedOpsGrows(m: Matrix, i: nat, ts: seq<nat>, t: nat, phase: Phase)
    requires IsSquare(m) && i < |m| && t < |m|
    requires forall k :: 0 <= k < |ts| ==> ts[k] < |m|
    ensures LoggedOps(m, i, ts + [t], phase) ==
              LoggedOps(m, i, ts, phase) + (if m[t][i] != 0.0 then [Op(phase, t, i, m[t][i])] else [])
  {
    assert (ts + [t])[..|ts|] == ts;
  }
}
