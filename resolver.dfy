/** The elimination routine as the original runs it: on a copy of the input
    array, overwriting rows in place inside nested loops, counting steps and
    collecting the operation log. */
module Resolver {
  import opened Matrices
  import opened Elimination

  /** The elimination of `input`, which is left untouched (the method has no
      `modifies` clause: all work happens on a fresh copy). The outcome is
      exactly the one GaussJordan specifies. */
  method GaussJordanElimination(input: array<Row>) returns (outcome: Outcome)
    requires IsSquare(input[..])
    ensures outcome == GaussJordan(input[..])
  {
    var n := input.Length;
    var a := new Row[n];
    forall k | 0 <= k < n {
      a[k] := input[k];
    }
    assert a[..] == input[..];
    var stuck, step, trace := ForwardPhase(a);
    if stuck {
      outcome := Outcome(trace, step, SingularPivot(step - 1, a[..]));
    } else {
      var backStep, backTrace := BackwardPhase(a, step);
      outcome := Outcome(trace + backTrace, backStep, Reduced(a[..]));
    }
  }

  /** The forward phase (Gauss) on the working array: rows 0 .. n-1 in
      turn, until a zero pivot stops it. */
  method ForwardPhase(a: array<Row>) returns (stuck: bool, step: nat, trace: seq<Report>)
    requires IsSquare(a[..])
    modifies a
    ensures stuck ==> 1 <= step <= a.Length && Forward(old(a[..]), a.Length) == Stuck(step - 1, a[..], trace)
    ensures !stuck ==> step == a.Length && Forward(old(a[..]), a.Length) == Running(a[..], trace)
  {
    ghost var m0 := a[..];
    var n := a.Length;
    step := 0;
    trace := [];
    stuck := false;
    while step < n
      invariant 0 <= step <= n
      invariant Forward(m0, step) == Running(a[..], trace)
    {
      var i := step;
      stuck, trace := ForwardIteration(a, i, trace);
      step := i + 1;
      ForwardRunningStep(m0, step);
      if stuck {
        StuckPersists(m0, step, n);
        return;
      }
    }
  }

  /** One pass of the forward loop, for row i, counted as step i+1: divide
      row i by its pivot, then clear the column below it; a zero pivot stops
      before the division, leaving the array as it was. */
  method ForwardIteration(a: array<Row>, i: nat, trace: seq<Report>) returns (stuck: bool, trace': seq<Report>)
    requires IsSquare(a[..]) && i < a.Length
    modifies a
    ensures stuck ==> ForwardStep(old(a[..]), i, trace) == Stuck(i, a[..], trace')
    ensures !stuck ==> ForwardStep(old(a[..]), i, trace) == Running(a[..], trace')
  {
    var n := a.Length;
    var step, total := i + 1, 2 * n;
    trace' := trace;
    var pivot := a[i][i];
    if pivot == 0.0 {
      return true, trace';
    }
    ghost var before := a[..];
    a[i] := ScaleRow(a[i], pivot);
    assert a[..] == NormalizeRow(before, i);
    trace' := trace' + [Report(step, total, Normalization, a[..], [Op(Normalization, i, i, pivot)])];
    var ops := ClearBelow(a, i);
    if ops != [] {
      trace' := trace' + [Report(step, total, EliminationDown, a[..], ops)];
    }
    stuck := false;
  }

  /** The backward phase (Jordan) on the working array: columns n-1 down
      to 0. The step counter continues from the forward phase. */
  method BackwardPhase(a: array<Row>, step0: nat) returns (step: nat, trace: seq<Report>)
    requires IsSquare(a[..]) && step0 == a.Length
    modifies a
    ensures step == 2 * a.Length
    ensures (a[..], trace) == Backward(old(a[..]), 0)
  {
    ghost var mf := a[..];
    var n := a.Length;
    step := step0;
    trace := [];
    var i := n;
    while i > 0
      invariant 0 <= i <= n && step == 2 * n - i
      invariant (a[..], trace) == Backward(mf, i)
    {
      ghost var before, traceBefore := a[..], trace;
      i := i - 1;
      step := step + 1;
      trace := BackwardIteration(a, i, step, trace);
      assert Backward(mf, i) == BackwardStep(before, i, traceBefore);
    }
  }

  /** One pass of the backward loop, for column i, counted as `step`:
      clear the column above the pivot and report it if anything was done. */
  method BackwardIteration(a: array<Row>, i: nat, step: nat, trace: seq<Report>) returns (trace': seq<Report>)
    requires IsSquare(a[..]) && i < a.Length && step == 2 * a.Length - i
    modifies a
    ensures (a[..], trace') == BackwardStep(old(a[..]), i, trace)
  {
    var total := 2 * a.Length;
    trace' := trace;
    ghost var before := a[..];
    var ops := ClearAbove(a, i);
    if ops != [] {
      trace' := trace' + [Report(step, total, EliminationUp, a[..], ops)];
    }
    assert a[..] == BackwardStep(before, i, trace).0;
    assert trace' == BackwardStep(before, i, trace).1;
  }

  /** Clearing column i below the pivot: for each row j = i+1 .. n-1 in
      turn, subtract A[j][i] times row i unless A[j][i] is already zero, and
      log each elimination performed. */
  method ClearBelow(a: array<Row>, i: nat) returns (ops: seq<Op>)
    requires IsSquare(a[..]) && i < a.Length
    modifies a
    ensures a[..] == Cleared(old(a[..]), i, i + 1, a.Length)
    ensures ops == LoggedOps(old(a[..]), i, Ascending(i + 1, a.Length), EliminationDown)
  {
    ghost var m := a[..];
    var n := a.Length;
    ops := [];
    var j := i + 1;
    while j < n
      invariant i + 1 <= j <= n
      invariant a[..] == Cleared(m, i, i + 1, j)
      invariant ops == LoggedOps(m, i, Ascending(i + 1, j), EliminationDown)
    {
      BelowStep(m, i, j);
      var factor := a[j][i];
      if factor != 0.0 {
        EliminateInPlace(a, j, i);
        ops := ops + [Op(EliminationDown, j, i, factor)];
      }
      j := j + 1;
    }
  }

  /** Clearing column i above the pivot: for each row j = i-1 down to 0,
      the same elimination as below the pivot. */
  method ClearAbove(a: array<Row>, i: nat) returns (ops: seq<Op>)
    requires IsSquare(a[..]) && i < a.Length
    modifies a
    ensures a[..] == Cleared(old(a[..]), i, 0, i)
    ensures ops == LoggedOps(old(a[..]), i, Descending(i, 0), EliminationUp)
  {
    ghost var m := a[..];
    ops := [];
    var j := i;
    while j > 0
      invariant 0 <= j <= i
      invariant a[..] == Cleared(m, i, j, i)
      invariant ops == LoggedOps(m, i, Descending(i, j), EliminationUp)
    {
      j := j - 1;
      AboveStep(m, i, j);
      var factor := a[j][i];
      if factor != 0.0 {
        EliminateInPlace(a, j, i);
        ops := ops + [Op(EliminationUp, j, i, factor)];
      }
    }
  }

  /** `A[j] = A[j] - A[j, i] * A[i]` on the array. */
  method EliminateInPlace(a: array<Row>, j: nat, i: nat)
    requires IsSquare(a[..]) && i < a.Length && j < a.Length && j != i
    modifies a
    ensures a[..] == EliminateRow(old(a[..]), j, i)
  {
    a[j] := SubMultiple(a[j], a[j][i], a[i]);
  }
}
