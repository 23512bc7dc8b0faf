/** Every task ends at most once, and a result is stored exactly for the projected completions that won. */
module TerminalOutcomes {
  import opened Tables
  import opened Protocol
  import opened Runs
  import opened FenceSafety

  predicate Targets(step: Step, id: int) {
    (IsMutation(step) || step.Cancel?) && step.id == id
  }

  /** Step `i` is the completion, the final failure or the cancellation that won the race for the task. */
  ghost predicate Ends(run: Run, i: nat, id: int)
    requires Valid(run) && i < |run.steps|
  {
    var step, row := run.steps[i], RowAt(run, i, id);
    && Targets(step, id) && run.answers[i] == Applied
    && (step.Complete? || step.CompleteWithResult? || step.Cancel?
        || (step.Fail? && row.task.Some? && row.task.value.retryCount + 1 == Attempts(row.task.value)))
  }

  function EndStatus(step: Step): Status {
    if step.Cancel? then Cancelled else if step.Fail? then Failed else Completed
  }

  /** A row turns terminal at exactly these steps, and to the status of the winner. */
  lemma EndsAreTheTerminalTransitions(run: Run, i: nat, id: int)
    requires Valid(run) && i < |run.steps|
    ensures Ends(run, i, id) <==> !RowAt(run, i, id).Done() && RowAt(run, i + 1, id).Done()
    ensures Ends(run, i, id) ==> RowAt(run, i + 1, id).Has(EndStatus(run.steps[i]))
  {
    RowsAreOk(run, i, id);
    RunStep(run, i, id);
  }

  /** Of racing completions, final failures and cancellations of one task, at most one is applied in a whole run. */
  lemma OnlyOneEnds(run: Run, i: nat, j: nat, id: int)
    requires Valid(run) && i < |run.steps| && j < |run.steps| && Ends(run, i, id) && Ends(run, j, id)
    ensures i == j
  {
    EndsAreTheTerminalTransitions(run, i, id);
    EndsAreTheTerminalTransitions(run, j, id);
    var first, last := if i < j then i else j, if i < j then j else i;
    if first < last {
      TerminalRowsAreFrozen(run, first + 1, last, id);
      RunStep(run, last, id);
    }
  }

  /** A terminal row was ended by one earlier step, and is still exactly what that step left. */
  lemma {:induction false} TerminalRowHasItsEnd(run: Run, j: nat, id: int) returns (i: nat)
    requires Valid(run) && j <= |run.steps| && RowAt(run, j, id).Done()
    ensures i < j && Ends(run, i, id) && RowAt(run, j, id) == RowAt(run, i + 1, id)
  {
    i := j - 1;
    RowsAreOk(run, i, id);
    RunStep(run, i, id);
    EndsAreTheTerminalTransitions(run, i, id);
    if RowAt(run, i, id).Done() {
      TerminalRowsAreFrozen(run, i, j, id);
      i := TerminalRowHasItsEnd(run, i, id);
    }
  }

  ghost predicate Projects(run: Run, i: nat, id: int)
    requires Valid(run) && i < |run.steps|
  {
    run.steps[i].CompleteWithResult? && run.steps[i].id == id && run.answers[i] == Applied
  }

  function ProjectedRow(step: Step): ResultRow
    requires step.CompleteWithResult?
  {
    ResultRow(step.json, Bytes(step.json), step.generation, step.now)
  }

  /**
   * A result row exists if and only if a projected completion of the task won and the task has not been
   * pruned; it holds what that completion sent, under the generation the fence still has, and the row
   * is COMPLETED, so the join in the read never hides it.
   */
  lemma {:induction false} ResultIffProjected(run: Run, j: nat, id: int)
    requires Valid(run) && j <= |run.steps|
    ensures RowAt(run, j, id).result.Some?
       <==> RowAt(run, j, id).task.Some? && exists i | 0 <= i < j :: Projects(run, i, id)
    ensures forall i | 0 <= i < j && RowAt(run, j, id).result.Some? && Projects(run, i, id) ::
              && RowAt(run, j, id).result == Some(ProjectedRow(run.steps[i]))
              && RowAt(run, j, id).fence == Some(run.steps[i].generation)
              && RowAt(run, j, id).Has(Completed)
  {
    RowsAreOk(run, j, id);
    if RowAt(run, j, id).result.Some? {
      var i := TerminalRowHasItsEnd(run, j, id);
      EndLeavesResult(run, i, id);
      forall i' | 0 <= i' < j && Projects(run, i', id) ensures i' == i {
        OnlyOneEnds(run, i, i', id);
      }
    } else if RowAt(run, j, id).task.Some? {
      forall i | 0 <= i < j ensures !Projects(run, i, id) {
        if Projects(run, i, id) {
          EndsAreTheTerminalTransitions(run, i, id);
          EndLeavesResult(run, i, id);
          TerminalRowsAreFrozen(run, i + 1, j, id);
        }
      }
    }
  }

  lemma EndLeavesResult(run: Run, i: nat, id: int)
    requires Valid(run) && i < |run.steps| && Ends(run, i, id)
    ensures RowAt(run, i + 1, id).result
         == if Projects(run, i, id) then Some(ProjectedRow(run.steps[i])) else None
  {
    RowsAreOk(run, i, id);
    RunStep(run, i, id);
  }

  /** The INSERT of a result never meets an existing row: a projected completion is never rolled back. */
  lemma ResultInsertNeverCollides(run: Run, i: nat)
    requires Valid(run) && i < |run.steps| && run.steps[i].CompleteWithResult?
    ensures run.answers[i] != Aborted
  {
    RowsAreOk(run, i, run.steps[i].id);
    RunStep(run, i, run.steps[i].id);
  }
}
