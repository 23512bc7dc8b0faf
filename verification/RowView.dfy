/**
 * One task seen across three tables, and what a step does to it. Everything proved about runs is
 * proved about a single row; `StepOnRow` is the bridge from the database to the row.
 */
module RowView {
  import opened Tables
  import opened Protocol

  datatype Row = Row(task: Option<Task>, fence: Option<int>, result: Option<ResultRow>) {
    function Gen(): int {
      if fence.Some? then fence.value else 0
    }

    predicate Has(status: Status) {
      task.Some? && task.value.status == status
    }

    predicate Done() {
      task.Some? && Terminal(task.value.status)
    }

    predicate Held(worker: string, generation: int) {
      Has(Running) && task.value.lockedBy == Some(worker) && fence == Some(generation)
    }

    predicate HeldAt(worker: string, generation: int, now: real) {
      Held(worker, generation) && task.value.lockedUntil.Some? && task.value.lockedUntil.value >= now
    }
  }

  const NoRow := Row(None, None, None)

  function Lookup<V>(m: map<int, V>, id: int): Option<V> {
    if id in m then Some(m[id]) else None
  }

  function RowOf(db: Db, id: int): Row {
    Row(Lookup(db.tasks, id), Lookup(db.fences, id), Lookup(db.results, id))
  }

  predicate Inserts(step: Step) {
    step.Enqueue? || step.EnqueuePlain?
  }

  /** The row after a step that was answered with `out`. */
  function RowNext(row: Row, step: Step, out: Outcome, id: int): Row {
    if out == Created(id) && Inserts(step) then row.(task := Some(FreshTask(step.order, step.now))) else
    if row.task.None? then row else
    var t := row.task.value;
    match step
    case Enqueue(_, _, _, _, _) => row
    case EnqueuePlain(_, _) => row
    case Dispatch(plan, until, now) =>
      if id in plan && Dispatchable(t, now) then
        row.(task := Some(t.(status := Assigned, lockedBy := Some(plan[id]), lockedUntil := Some(until),
                             heartbeatAt := Some(now), updatedAt := now)))
      else row
    case Claim(worker, now) =>
      if out.Claimed? && out.id == id then
        row.(task := Some(t.(status := Running, heartbeatAt := Some(now), updatedAt := now)),
             fence := Some(out.generation))
      else row
    case Heartbeat(i, _, _, extend, now) =>
      if i == id && out.Applied? then
        var until := now + ExtendSeconds(extend);
        row.(task := Some(t.(lockedUntil := Some(until), heartbeatAt := Some(now), updatedAt := now)))
      else row
    case Complete(i, _, _, now) =>
      if i == id && out.Applied? then row.(task := Some(Released(t, Completed, now))) else row
    case CompleteWithResult(i, _, generation, json, now) =>
      if i == id && out.Applied? then
        row.(task := Some(Released(t, Completed, now)), result := Some(ResultRow(json, Bytes(json), generation, now)))
      else row
    case Fail(i, _, _, error, now) =>
      if i == id && out.Applied? then row.(task := Some(AfterFailure(t, error, now))) else row
    case Cancel(i, now) =>
      if i == id && out.Applied? then
        row.(task := Some(Released(t, Cancelled, now)), fence := Some(row.Gen() + 1))
      else row
    case Recover(now) => if Expired(t, now) then row.(task := Some(Released(t, Pending, now))) else row
    case Prune(_) => if out.Pruned? && id in out.tasks then NoRow else row
  }

  /** What an answer about the row presupposes. */
  predicate Enabled(row: Row, step: Step, out: Outcome, id: int) {
    && (out.Claimed? ==> step.Claim?)
    && (out.Created? ==> Inserts(step))
    && (out.Pruned? ==> step.Prune?)
    && match step
    case Enqueue(_, _, _, _, _) => true
    case EnqueuePlain(_, _) => true
    case Dispatch(_, _, _) => out == Dispatched
    case Claim(worker, now) =>
      out.Claimed? && out.id == id ==>
        row.task.Some? && Claimable(row.task.value, worker, now) && out.generation == row.Gen() + 1 <= I64_MAX
    case Heartbeat(i, worker, generation, _, now) =>
      i == id ==> out == if row.HeldAt(worker, generation, now) then Applied else Stale
    case Complete(i, worker, generation, now) =>
      i == id ==> out == if row.HeldAt(worker, generation, now) then Applied else Stale
    case CompleteWithResult(i, worker, generation, json, now) =>
      i == id ==>
        out == if json == "" || Bytes(json) > MAX_RESULT_BYTES then Invalid
               else if !row.HeldAt(worker, generation, now) then Stale
               else if row.result.Some? then Aborted else Applied
    case Fail(i, worker, generation, _, now) =>
      i == id ==> out == if row.HeldAt(worker, generation, now) then Applied else Stale
    case Cancel(i, _) => i == id && out.Applied? ==> row.task.Some? && !row.Done() && row.Gen() + 1 <= I64_MAX
    case Recover(_) => out.Recovered?
    case Prune(_) => out.Pruned? && id in out.tasks ==> row.Done()
  }

  lemma StepOnRow(db: Db, step: Step, id: int)
    ensures IdsAdvance(db, step)
    ensures Enabled(RowOf(db, id), step, Next(db, step).1, id)
    ensures RowOf(Next(db, step).0, id) == RowNext(RowOf(db, id), step, Next(db, step).1, id)
  {
    IdsAdvanceByCreation(db, step);
    StepEnabled(db, step, id);
    if step.Heartbeat? || step.Complete? || step.CompleteWithResult? || step.Fail? {
      FencedStepOnRow(db, step, id);
    } else if step.Dispatch? || step.Recover? || step.Prune? {
      WideStepOnRow(db, step, id);
    } else {
      SingleStepOnRow(db, step, id);
    }
  }

  ghost predicate IdsAdvance(db: Db, step: Step) {
    var (after, out) := Next(db, step);
    if out.Created? then out.id == db.nextId && after.nextId == db.nextId + 1
    else after.nextId == db.nextId
  }

  lemma IdsAdvanceByCreation(db: Db, step: Step)
    ensures IdsAdvance(db, step)
  {
  }

  lemma StepEnabled(db: Db, step: Step, id: int)
    ensures Enabled(RowOf(db, id), step, Next(db, step).1, id)
  {
  }

  lemma FencedStepOnRow(db: Db, step: Step, id: int)
    requires step.Heartbeat? || step.Complete? || step.CompleteWithResult? || step.Fail?
    ensures RowOf(Next(db, step).0, id) == RowNext(RowOf(db, id), step, Next(db, step).1, id)
  {
  }

  /** Steps that go through the whole table. */
  lemma WideStepOnRow(db: Db, step: Step, id: int)
    requires step.Dispatch? || step.Recover? || step.Prune?
    ensures RowOf(Next(db, step).0, id) == RowNext(RowOf(db, id), step, Next(db, step).1, id)
  {
  }

  lemma SingleStepOnRow(db: Db, step: Step, id: int)
    requires Inserts(step) || step.Claim? || step.Cancel?
    ensures RowOf(Next(db, step).0, id) == RowNext(RowOf(db, id), step, Next(db, step).1, id)
  {
  }
}
