# Gauss-Jordan elimination with an operation log

The original program is a small script, `resolver_matriz.py`. It reduces a
square matrix to reduced row-echelon form by Gauss-Jordan elimination
without row exchanges, prints every step with a step counter and a list of
the row operations performed, and finally measures how far the result is
from the identity matrix.

The model has two parts.

- The routine `gauss_jordan_elimination` (lines 74-130) works on a copy of
  its input.
  - The forward phase runs over rows `i = 0 .. n-1`. Each row is divided
    by its pivot `A[i, i]`. Then every row `j` below it with a nonzero
    factor `A[j, i]` becomes `A[j] − A[j, i]·A[i]`.
  - The backward phase runs over columns `i = n-1 .. 0` and does the same
    elimination above the pivot, rows `i-1` down to `0`.
  - A step counter runs from 1 to `2n`. Every normalisation is reported.
    An elimination sweep is reported only when it logged at least one
    operation.
- The final check (lines 141-146) computes `max |result − I|` and
  compares it with the tolerance `1e-10`.

The modules:

- `Matrices`: rows and matrices of exact reals, the identity, and the two
  row operations (division by the pivot, subtraction of a multiple of the
  pivot row).
- `Elimination`: the elimination as functions of the input. `ForwardStep`,
  `Forward`, `BackwardStep`, `Backward` and `GaussJordan` produce the
  trace of reports, the final step count and the status. The status is
  either the reduced matrix or the zero pivot the run stopped at.
- `Resolver`: the routine itself as imperative code. It copies the input
  into an array of rows and overwrites rows in place inside the same
  nested loops as the original. It is proved to compute exactly
  `GaussJordan`.
- `Correctness`: what the elimination achieves. Either the result is the
  identity after `2n` steps, or the run stopped at the first zero pivot.
  In that case every earlier column has 1 on the diagonal and 0 below it;
  the entries above the diagonal are not yet cleared.
- `OperationLog`: the log is faithful. Carrying out each report's
  operations, from the input onward, reproduces every snapshot and ends in
  the returned matrix.
- `Reports`: the reports are well formed.
  - The total is always `2n`.
  - Step numbers never decrease and never exceed the final counter.
  - Each elimination report lists its rows in loop order, each row once,
    with the factor it had.
- `Verification`: the deviation from the identity. It is zero exactly for
  the identity, so every completed run passes the check.
- `Scenarios`: runs on particular inputs.
  - The identity reduces to itself.
  - The swap `[[0,1],[1,0]]` stops at once.
  - A singular matrix stops at step 2.
  - A 2×2 invertible matrix is reduced in four steps.

## Model

| member | source | states |
|---|---|---|
| Matrices.Identity | resolver_matriz.py:141 | `eye(n)` is n×n with 1 on the diagonal and 0 elsewhere |
| Matrices.NormalizeRow | resolver_matriz.py:87-89 | `A[i] = A[i] / A[i, i]` for a nonzero pivot; its `ensures` only gives the shape (square, same size), and NormalizeRowFacts states what it does |
| Matrices.EliminateRow | resolver_matriz.py:103-105 | `A[j] = A[j] − A[j, i]·A[i]` for j ≠ i; its `ensures` only gives the shape, and EliminateRowFacts states what it does |
| Matrices.NormalizeRowFacts | resolver_matriz.py:87-89 | after `A[i] = A[i] / pivot` the pivot is 1, the zeros of row i stay zero and every other row is unchanged |
| Matrices.EliminateRowFacts | resolver_matriz.py:103-105 | `A[j] = A[j] − A[j, i]·A[i]` against a unit pivot zeroes `A[j, i]`, keeps row j where row i is zero, and changes no other row |
| Elimination.Cleared | resolver_matriz.py:102-105 | the matrix after a sweep over rows lo..hi-1 in column i; its `ensures` only gives the shape, and ClearedEntries, ZeroFactorKept and ClearedGrows state what it does and that the row-by-row loop computes it |
| Elimination.LoggedOps | resolver_matriz.py:102-106 | a sweep logs at most one operation per visited row |
| Elimination.ForwardStep | resolver_matriz.py:84-111 | one pass of the forward loop; its `ensures` only gives the shape, and ForwardStepStops (stops exactly at a zero pivot) and ForwardStepLogsNormalization state what it does |
| Elimination.DownReports | resolver_matriz.py:109-111 | the elimination report of a forward step: at most one; DownReportsUpTo states that it is well formed and numbered i+1 |
| Elimination.ForwardSteps | resolver_matriz.py:83-111 | the forward loop over rows 0..k-1, stopping at a zero pivot; its `ensures` only gives the shape, and the Forward lemmas below state what it does |
| Elimination.Forward | resolver_matriz.py:83-111 | a second name for ForwardSteps, kept so that proofs unfold one step at a time (a proof helper); its `ensures` only gives the shape |
| Elimination.UpReports | resolver_matriz.py:126-128 | the report of a backward step: at most one; UpReportsReplay states that it replays |
| Elimination.BackwardStep | resolver_matriz.py:115-128 | one pass of the backward loop; its `ensures` only gives the shape, and BackwardStepReduces and BackwardStepReports state what it does |
| Elimination.Backward | resolver_matriz.py:114-128 | the backward loop over columns n-1..k; its `ensures` only gives the shape, and BackwardReduces, BackwardReplays and BackwardReports state what it does |
| Elimination.GaussJordan | resolver_matriz.py:74-130 | a completed run counts 2n steps and returns an n×n matrix; a stopped run stops at a row i < n after i+1 counted steps |
| Elimination.ForwardRunningStep | resolver_matriz.py:83-111 | proof helper that unfolds Forward: while no zero pivot was met, forward phase k is phase k-1 followed by one pass of the loop body |
| Elimination.ForwardStepStops | resolver_matriz.py:87-89 | a forward step stops exactly when its pivot is zero, leaving the matrix and the reports untouched |
| Elimination.ForwardStopsAt | resolver_matriz.py:83-89 | the phase stops at the step whose pivot is zero and keeps the matrix it had before that step |
| Elimination.StuckSince | resolver_matriz.py:83-89 | a stopped forward phase holds the matrix and reports of its last running state, at row `row` |
| Elimination.StuckPersists | resolver_matriz.py:83-89 | once stopped, later steps change nothing |
| Elimination.ClearedGrows | resolver_matriz.py:102-105 | extending a sweep by one row applies that row's elimination, or nothing when its factor is zero |
| Elimination.BelowStep | resolver_matriz.py:102-106 | one pass of the inner loop below the pivot: the matrix and the log each grow by row j's elimination |
| Elimination.AboveStep | resolver_matriz.py:119-123 | one pass of the inner loop above the pivot, likewise |
| Elimination.LoggedOpsGrows | resolver_matriz.py:104-106 | proof helper that unfolds LoggedOps: visiting one more row appends its operation exactly when its factor is nonzero |
| Resolver.GaussJordanElimination | resolver_matriz.py:74-130 | the routine leaves its input untouched and returns exactly the trace, step count and status `GaussJordan` specifies |
| Resolver.ForwardPhase | resolver_matriz.py:83-111 | the forward loop leaves the array and trace that `Forward` specifies; it stops at the first zero pivot |
| Resolver.ForwardIteration | resolver_matriz.py:84-111 | one pass of the forward loop on the array equals `ForwardStep` |
| Resolver.BackwardPhase | resolver_matriz.py:114-128 | the backward loop ends with the counter at 2n and the array and trace that `Backward` specifies |
| Resolver.BackwardIteration | resolver_matriz.py:115-128 | one pass of the backward loop on the array equals `BackwardStep` |
| Resolver.ClearBelow | resolver_matriz.py:101-106 | the in-place sweep below the pivot yields `Cleared` and logs `LoggedOps` in ascending row order |
| Resolver.ClearAbove | resolver_matriz.py:116-123 | the in-place sweep above the pivot yields `Cleared` and logs `LoggedOps` in descending row order |
| Resolver.EliminateInPlace | resolver_matriz.py:105 | the array afterwards is the old one with row j eliminated against row i |
| Correctness.ClearedEntries | resolver_matriz.py:102-105 | entry by entry: unswept rows are kept, columns where the pivot row is zero are kept, and with a unit pivot column i becomes zero in every swept row |
| Correctness.ZeroFactorKept | resolver_matriz.py:103-104 | a row whose factor is already zero is skipped and left unchanged |
| Correctness.ClearedEchelon | resolver_matriz.py:86-106 | normalising row i and clearing below it extends by column i the lower part that has 1 on the diagonal and 0 below it |
| Correctness.ForwardStepEchelon | resolver_matriz.py:83-106 | a running forward step extends that lower part by one column |
| Correctness.ForwardEchelon | resolver_matriz.py:83-111 | while running, the first k columns equal the identity's on and below the diagonal |
| Correctness.ForwardStuck | resolver_matriz.py:83-89 | a stopped phase stopped at a row i < k whose pivot is zero, with 1 on the diagonal and 0 below it in every column before i |
| Correctness.BackwardStepReduces | resolver_matriz.py:114-123 | a backward step on column k turns it into an identity column and keeps the identity's entries on and below the diagonal and in the columns after k |
| Correctness.BackwardReduces | resolver_matriz.py:114-128 | the backward phase turns every column from k on into an identity column |
| Correctness.GaussJordanResult | resolver_matriz.py:74-130 | a completed run returns the identity after 2n steps; a stopped one stopped at row i < n after i+1 steps, at a zero pivot, with 1 on the diagonal and 0 below it in every earlier column |
| OperationLog.Replay | resolver_matriz.py:92-128 | a trace that replays ends in the snapshot of its last report |
| OperationLog.ReplayAppend | resolver_matriz.py:92-128 | two replaying traces chain when the second starts where the first ends |
| OperationLog.LoggedOpsFacts | resolver_matriz.py:102-106 | every logged elimination names a swept row other than the pivot, the pivot row and the nonzero factor the row had |
| OperationLog.LoggedRows | resolver_matriz.py:102-106 | a row is named in a sweep's log exactly when the sweep visits it and its factor is nonzero |
| OperationLog.ApplyLoggedElimination | resolver_matriz.py:105-106 | carrying out a logged elimination is the sweep's own elimination |
| OperationLog.ReplayBelow | resolver_matriz.py:101-106 | carrying out the log of the sweep below the pivot reproduces the sweep |
| OperationLog.ReplayAbove | resolver_matriz.py:116-123 | carrying out the log of the sweep above the pivot reproduces the sweep |
| OperationLog.ForwardStepReplays | resolver_matriz.py:86-111 | the reports of one forward step replay from the matrix before it to the matrix after it |
| OperationLog.ForwardReplays | resolver_matriz.py:83-111 | the forward phase's reports replay from the input to the matrix it reached or stopped at |
| OperationLog.UpReportsReplay | resolver_matriz.py:116-128 | the report of a backward step replays to the cleared matrix |
| OperationLog.BackwardReplays | resolver_matriz.py:114-128 | the backward phase's reports replay from its starting matrix to its result |
| OperationLog.GaussJordanReplays | resolver_matriz.py:92-128 | the whole log replays from the input to the returned or stopped-at matrix |
| Reports.RisingTargets | resolver_matriz.py:102 | strictly rising targets after the pivot: the k-th is at least pivot+1+k |
| Reports.FallingTargets | resolver_matriz.py:119 | strictly falling targets before the pivot: the k-th is at most pivot−1−k |
| Reports.ReportOpsBound | resolver_matriz.py:92-123 | a normalisation report names one operation; an elimination report at most n−1, bounded by the rows left to sweep |
| Reports.ReportsUpToSorted | resolver_matriz.py:77-128 | reports up to s are well formed, numbered at most s and in non-decreasing order |
| Reports.SortedReportsUpTo | resolver_matriz.py:77-128 | the converse of ReportsUpToSorted |
| Reports.BelowOrder | resolver_matriz.py:102-106 | below the pivot, rows are eliminated from the top down, each at most once |
| Reports.AboveOrder | resolver_matriz.py:119-123 | above the pivot, rows are eliminated from the bottom up, each at most once |
| Reports.DownSweepOps | resolver_matriz.py:101-106 | the log of a sweep below the pivot has the shape of a downward elimination report |
| Reports.UpSweepOps | resolver_matriz.py:116-123 | the log of a sweep above the pivot has the shape of an upward elimination report |
| Reports.ForwardStepLogsNormalization | resolver_matriz.py:84-98 | a forward step runs exactly when its pivot is nonzero; it keeps earlier reports, then adds the normalisation report (step i+1, divided by the old pivot, 1 on the diagonal) and at most one more |
| Reports.ForwardStepReports | resolver_matriz.py:83-111 | a forward step on row i adds only well-formed reports numbered i+1 |
| Reports.DownReportsUpTo | resolver_matriz.py:109-111 | the downward elimination report, when there is one, is well formed and numbered i+1 |
| Reports.ForwardReports | resolver_matriz.py:83-111 | after k forward steps the reports are well formed, in order and numbered at most k |
| Reports.BackwardStepReports | resolver_matriz.py:114-128 | a backward step on column k adds at most one well-formed report, numbered 2n−k |
| Reports.BackwardReports | resolver_matriz.py:114-128 | the backward phase's reports follow the forward ones in order, numbered at most 2n−k |
| Reports.BackwardStepAppends | resolver_matriz.py:116-128 | proof helper that unfolds BackwardStep: a backward step only appends to the trace it is given |
| Reports.GaussJordanReports | resolver_matriz.py:77-128 | every report of a run is well formed with total 2n, the numbers never decrease and none exceeds the final counter |
| Verification.Abs | resolver_matriz.py:142 | the absolute value is non-negative and is x or −x |
| Verification.MaxOf | resolver_matriz.py:142 | the maximum bounds every element and is one of them |
| Verification.EntryWithinDeviation | resolver_matriz.py:142 | each `abs(result − I)` entry is at most the reported error |
| Verification.Deviation | resolver_matriz.py:142 | `np.abs(resultado − identidad).max()` is never negative; DeviationBounds, DeviationAttained and DeviationZeroIff state what it measures |
| Verification.ReducedCorrectly | resolver_matriz.py:146 | `error < 1e-10`: the identity passes, and a passing matrix has every entry within 1e-10 of the identity's |
| Verification.DeviationBounds | resolver_matriz.py:141-142 | every entry lies within the error of the identity's entry |
| Verification.DeviationAttained | resolver_matriz.py:141-142 | some entry is exactly the error away from the identity's entry |
| Verification.DeviationZeroIff | resolver_matriz.py:141-142 | the error is zero if and only if the matrix is the identity |
| Verification.ReducedPassesCheck | resolver_matriz.py:141-147 | a completed run has error 0 and takes the "reduced correctly" branch |
| Scenarios.NothingToLog | resolver_matriz.py:102-106 | a sweep over rows whose factors are all zero logs nothing |
| Scenarios.IdentityCleared | resolver_matriz.py:100-106 | on the identity, clearing any column changes nothing |
| Scenarios.IdentityForwardStep | resolver_matriz.py:83-111 | on the identity, a forward step divides by 1 and reports only the normalisation |
| Scenarios.IdentityForwardNext | resolver_matriz.py:83-111 | on the identity, forward step k adds the k-th normalisation report and keeps the matrix |
| Scenarios.IdentityForward | resolver_matriz.py:83-111 | on the identity, the forward phase keeps the matrix and reports the n normalisations |
| Scenarios.IdentityBackward | resolver_matriz.py:114-128 | on the identity, the backward phase changes and reports nothing |
| Scenarios.IdentityInput | resolver_matriz.py:74-130 | the identity is returned unchanged after 2n steps, with only the n normalisation reports |
| Scenarios.SwapStops | resolver_matriz.py:86-89 | the invertible swap `[[0,1],[1,0]]` stops at step 1, because rows are never exchanged |
| Scenarios.SingularStops | resolver_matriz.py:74-111 | `[[1,2],[2,4]]` is normalised, eliminated to `[[1,2],[0,0]]` and stops at step 2 |
| Scenarios.InvertibleReduces | resolver_matriz.py:74-130 | `[[2,1],[1,1]]` is reduced to the identity in 4 steps with exactly four reports |

## Left out

- Entries are exact reals. The original uses double-precision complex numbers (`complex128`). Every step above only adds, subtracts, multiplies and divides, so the algebra is the same over any field; complex arithmetic, rounding error and overflow are not modelled.
- `round_matrix` (lines 15-16, called at 90, 108 and 125) rounds to 5 decimals. The model does not round, because exact arithmetic has no drift to remove.
- The tolerance test `abs(factor) > 1e-10` at lines 104 and 121 becomes `factor != 0`. In exact arithmetic a factor is either zero or it is not. Below 1e-10 the original skips a row whose factor is tiny but nonzero; the model does not.
- Elimination.ForwardStep: on a zero pivot the original divides anyway at line 89, producing infinities and NaNs, and carries on. The model stops there with `SingularPivot` and keeps the matrix as it was. NaN propagation is not modelled.
- Resolver.GaussJordanElimination: requires a square input. The original also runs on an n×m array with m ≥ n, such as an augmented matrix, and raises an index error when m < n. Neither case is modelled.
- Verification.Deviation: requires n > 0, because numpy's `max` of an empty array raises.
- Printing and colouring (`get_color_for_value`, `format_complex_number`, `print_matrix_colored`, `print_step_info`, lines 18-72, and the prints at 80, 97-98, 110-111, 127-128, 133-134, 138, 143-149) are presentation only. The reports carry their content as data: step, total, phase, snapshot and operations.
- The percentage shown by `print_step_info` (line 70) is floating-point presentation of `step/total`, and is not modelled.
- The hard-coded 4×4 input at lines 8-13 and the top-level script at 132-149 are not modelled. They are one run on one input, and the model covers every input; the comparison at 146 is `Verification.ReducedCorrectly`.
