/** The abstract life of a task, and the proof that every step of the queue is one of its moves. */
module Refinement {
  import opened Tables
  import opened Protocol
  import opened RowView
  import opened Runs

  datatype Phase = Unborn | Waiting | Held(owner: string, generation: int) | Ended(status: Status) | Gone

  function PhaseOf(row: Row, born: bool): Phase {
    if row.task.None? then if born then Gone else Unborn
    else if row.Done() then Ended(row.task.value.status)
    else if row.task.value.status == Running && row.task.value.lockedBy.Some? then
      Held(row.task.value.lockedBy.value, row.Gen())
    else Waiting
  }

  ghost function PhaseAt(run: Run, i: nat, id: int): Phase
    requires Valid(run) && i <= |run.steps|
  {
    PhaseOf(RowAt(run, i, id), 1 <= id < NextIdAt(run, i))
  }

  /** The moves of the abstract life; `who` is the step that makes the move. */
  predicate Move(p: Phase, who: Step, q: Phase) {
    match (p, q)
    case (Unborn, Waiting) => Inserts(who)
    case (Waiting, Held(w, g)) => who.Claim? && who.worker == w
    case (Waiting, Ended(s)) => who.Cancel? && s == Cancelled
    case (Held(w, g), Waiting) => who.Recover? || (who.Fail? && who.worker == w && who.generation == g)
    case (Held(w, g), Ended(Completed)) =>
      (who.Complete? || who.CompleteWithResult?) && who.worker == w && who.generation == g
    case (Held(w, g), Ended(Failed)) => who.Fail? && who.worker == w && who.generation == g
    case (Held(_, _), Ended(s)) => who.Cancel? && s == Cancelled
    case (Ended(_), Gone) => who.Prune?
    case _ => false
  }

  lemma RowMoves(row: Row, step: Step, out: Outcome, id: int, born: bool)
    requires RowOk(row) && Enabled(row, step, out, id)
    requires row.task.Some? ==> born
    requires out == Created(id) ==> !born
    ensures var p, q := PhaseOf(row, born), PhaseOf(RowNext(row, step, out, id), born || out == Created(id));
      p == q || Move(p, step, q)
  {
  }

  /** Each step of a run moves each task along one edge of its abstract life or leaves its phase as it is. */
  lemma StepsRefineLife(run: Run, i: nat, id: int)
    requires Valid(run) && i < |run.steps|
    ensures PhaseAt(run, i + 1, id) == PhaseAt(run, i, id)
         || Move(PhaseAt(run, i, id), run.steps[i], PhaseAt(run, i + 1, id))
  {
    RowsAreOk(run, i, id);
    RunStep(run, i, id);
    RowMoves(RowAt(run, i, id), run.steps[i], run.answers[i], id, 1 <= id < NextIdAt(run, i));
  }
}
