/** Rows along a run, and what holds of a row in every reachable state. */
module Runs {
  import opened Tables
  import opened Protocol
  import opened RowView

  ghost function RowAt(run: Run, i: nat, id: int): Row
    requires Valid(run) && i <= |run.steps|
  {
    RowOf(run.states[i], id)
  }

  ghost function NextIdAt(run: Run, i: nat): int
    requires Valid(run) && i <= |run.steps|
  {
    run.states[i].nextId
  }

  /** Step `i` of the run, seen from the row. */
  ghost predicate Stepped(run: Run, i: nat, id: int)
    requires Valid(run) && i < |run.steps|
  {
    var before, out, after := RowAt(run, i, id), run.answers[i], RowAt(run, i + 1, id);
    && Enabled(before, run.steps[i], out, id)
    && after == RowNext(before, run.steps[i], out, id)
    && (out.Created? ==> out.id == NextIdAt(run, i))
    && NextIdAt(run, i + 1) == NextIdAt(run, i) + if out.Created? then 1 else 0
  }

  lemma RunStep(run: Run, i: nat, id: int)
    requires Valid(run) && i < |run.steps|
    ensures Stepped(run, i, id)
  {
    assert Follows(run, i);
    StepOnRow(run.states[i], run.steps[i], id);
  }

  /** The number of attempts a task gets: `max_retries`, but at least one. */
  function Attempts(t: Task): int {
    if t.order.maxRetries < 1 then 1 else t.order.maxRetries
  }

  predicate TaskOk(t: Task, generation: int) {
    && (Leased(t.status) <==> t.lockedBy.Some?)
    && (Leased(t.status) <==> t.lockedUntil.Some?)
    && 0 <= t.retryCount <= Attempts(t)
    && (t.status == Failed <==> t.retryCount == Attempts(t))
    && t.retryCount <= generation <= I64_MAX
    && (t.status == Running ==> t.retryCount < generation)
  }

  predicate RowOk(row: Row) {
    && (row.fence.Some? ==> 1 <= row.fence.value)
    && if row.task.None? then row == NoRow
       else
         && TaskOk(row.task.value, row.Gen())
         && (row.result.Some? ==> row.Has(Completed) && row.fence == Some(row.result.value.generation))
  }

  lemma RowNextOk(row: Row, step: Step, out: Outcome, id: int)
    requires RowOk(row) && Enabled(row, step, out, id)
    requires out == Created(id) ==> row == NoRow
    ensures RowOk(RowNext(row, step, out, id))
  {
  }

  /** Ids are handed out in order, and nothing is known about an id before it is handed out. */
  lemma {:induction false} RowsAreOk(run: Run, i: nat, id: int)
    requires Valid(run) && i <= |run.steps|
    ensures RowOk(RowAt(run, i, id))
    ensures 1 <= NextIdAt(run, i)
    ensures id < 1 || NextIdAt(run, i) <= id ==> RowAt(run, i, id) == NoRow
  {
    if i > 0 {
      RowsAreOk(run, i - 1, id);
      RunStep(run, i - 1, id);
      RowNextOk(RowAt(run, i - 1, id), run.steps[i - 1], run.answers[i - 1], id);
    }
  }

  lemma {:induction false} IdsGrow(run: Run, i: nat, j: nat)
    requires Valid(run) && i <= j <= |run.steps|
    ensures NextIdAt(run, i) <= NextIdAt(run, j)
  {
    if i < j {
      IdsGrow(run, i, j - 1);
      RunStep(run, j - 1, 0);
    }
  }

  /** A row id that has been handed out is never created again. */
  lemma NotRecreated(run: Run, i: nat, j: nat, id: int)
    requires Valid(run) && i <= j < |run.steps| && id < NextIdAt(run, i)
    ensures run.answers[j] != Created(id)
  {
    IdsGrow(run, i, j);
    RunStep(run, j, id);
  }
}
