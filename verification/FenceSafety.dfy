/**
 * Safety of leases over whole runs. Workers are adversarial: a run may contain any mutation with any
 * (task, worker, generation) triple at any moment, and clock readings in any order.
 */
module FenceSafety {
  import opened Tables
  import opened Protocol
  import opened RowView
  import opened Runs

  ghost predicate ClaimedAt(run: Run, j: nat, id: int, worker: string, generation: int)
    requires Valid(run) && j < |run.steps|
  {
    run.steps[j].Claim? && run.steps[j].worker == worker && run.answers[j] == Claimed(id, generation)
  }

  predicate IsMutation(step: Step) {
    step.Heartbeat? || step.Complete? || step.CompleteWithResult? || step.Fail?
  }

  /** Step `k` takes the task away from its holder, or gives it to a new one. */
  ghost predicate Interferes(run: Run, k: nat, id: int)
    requires Valid(run) && k < |run.steps|
  {
    var row, step, out := RowAt(run, k, id), run.steps[k], run.answers[k];
    match step
    case Enqueue(_, _, _, _, _) => out == Created(id)
    case EnqueuePlain(_, _) => out == Created(id)
    case Dispatch(plan, _, now) => id in plan && row.task.Some? && Dispatchable(row.task.value, now)
    case Claim(_, _) => out.Claimed? && out.id == id
    case Heartbeat(_, _, _, _, _) => false
    case Complete(i, _, _, _) => i == id && out.Applied?
    case CompleteWithResult(i, _, _, _, _) => i == id && out.Applied?
    case Fail(i, _, _, _, _) => i == id && out.Applied?
    case Cancel(i, _) => i == id && out.Applied?
    case Recover(now) => row.task.Some? && Expired(row.task.value, now)
    case Prune(_) => out.Pruned? && id in out.tasks
  }

  /** From just after step `j` up to step `i` the task stays RUNNING, locked by this worker, under this generation. */
  ghost predicate HeldThroughout(run: Run, j: nat, i: nat, id: int, worker: string, generation: int)
    requires Valid(run) && j < i <= |run.steps|
  {
    && (forall k | j < k <= i :: RowAt(run, k, id).Held(worker, generation))
    && (forall k | j < k < i :: !Interferes(run, k, id))
  }

  /** A task that is RUNNING was claimed by its holder, and nothing has touched the lease since that claim. */
  lemma {:induction false} HolderClaimed(run: Run, i: nat, id: int, worker: string, generation: int) returns (j: nat)
    requires Valid(run) && i <= |run.steps| && RowAt(run, i, id).Held(worker, generation)
    ensures j < i && ClaimedAt(run, j, id, worker, generation)
    ensures HeldThroughout(run, j, i, id, worker, generation)
  {
    var k := i - 1;
    RowsAreOk(run, k, id);
    RunStep(run, k, id);
    if RowAt(run, k, id).Held(worker, generation) {
      j := HolderClaimed(run, k, id, worker, generation);
      assert !Interferes(run, k, id);
    } else {
      j := k;
      assert run.steps[k].Claim?;
    }
  }

  /**
   * Fence safety: an applied heartbeat, completion or failure carries the worker and the generation of
   * a claim of that task, and since that claim the lease has been held without a break: no recovery,
   * cancellation, completion, failure, re-dispatch, pruning or other claim came in between.
   */
  lemma AppliedMutationHoldsTheLease(run: Run, i: nat)
    requires Valid(run) && i < |run.steps| && IsMutation(run.steps[i]) && run.answers[i] == Applied
    ensures exists j: nat | j < i ::
              && ClaimedAt(run, j, run.steps[i].id, run.steps[i].worker, run.steps[i].generation)
              && HeldThroughout(run, j, i, run.steps[i].id, run.steps[i].worker, run.steps[i].generation)
  {
    RunStep(run, i, run.steps[i].id);
    var j := HolderClaimed(run, i, run.steps[i].id, run.steps[i].worker, run.steps[i].generation);
  }

  /** While a row exists its generation only grows, and a row that has gone never comes back. */
  lemma {:induction false} GenerationsGrow(run: Run, i: nat, j: nat, id: int)
    requires Valid(run) && i <= j <= |run.steps| && id < NextIdAt(run, i) && RowAt(run, j, id).task.Some?
    ensures RowAt(run, i, id).task.Some? && RowAt(run, i, id).Gen() <= RowAt(run, j, id).Gen()
  {
    if i < j {
      IdsGrow(run, i, j - 1);
      RunStep(run, j - 1, id);
      GenerationsGrow(run, i, j - 1, id);
    }
  }

  /** A claim moves the fence to the generation it returns. */
  lemma ClaimSetsFence(run: Run, i: nat, id: int, generation: int)
    requires Valid(run) && i < |run.steps| && run.answers[i] == Claimed(id, generation)
    ensures run.steps[i].Claim?
    ensures RowAt(run, i, id).task.Some? && RowAt(run, i, id).Gen() + 1 == generation
    ensures RowAt(run, i + 1, id).task.Some? && RowAt(run, i + 1, id).Gen() == generation
    ensures 1 <= id < NextIdAt(run, i)
  {
    RunStep(run, i, id);
    RowsAreOk(run, i, id);
    assert run.steps[i].Claim?;
  }

  /** No generation of a task is issued twice, not even to the same worker: later claims get larger ones. */
  lemma GenerationsAreNeverReused(run: Run, i: nat, j: nat, id: int, g: int, h: int)
    requires Valid(run) && i < j < |run.steps| && run.answers[i] == Claimed(id, g) && run.answers[j] == Claimed(id, h)
    ensures g < h
  {
    ClaimSetsFence(run, i, id, g);
    ClaimSetsFence(run, j, id, h);
    IdsGrow(run, i, i + 1);
    GenerationsGrow(run, i + 1, j, id);
  }

  /** After a cancellation the fence is above every generation ever issued, and no claim or mutation succeeds again. */
  lemma CancellationOutranksEveryClaim(run: Run, i: nat, j: nat, id: int)
    requires Valid(run) && i < |run.steps| && j < |run.steps| && run.steps[i].Cancel? && run.steps[i].id == id
    requires run.answers[i] == Applied
    ensures run.answers[j].Claimed? && run.answers[j].id == id ==>
              j < i && run.answers[j].generation < RowAt(run, i + 1, id).Gen()
    ensures i < j && IsMutation(run.steps[j]) && run.steps[j].id == id ==> run.answers[j] != Applied
  {
    RunStep(run, i, id);
    RowsAreOk(run, i, id);
    IdsGrow(run, i, i + 1);
    if i < j {
      TerminalRowsAreFrozen(run, i + 1, j, id);
      RunStep(run, j, id);
      if run.answers[j].Claimed? && run.answers[j].id == id {
        ClaimSetsFence(run, j, id, run.answers[j].generation);
      }
    } else if run.answers[j].Claimed? && run.answers[j].id == id {
      ClaimSetsFence(run, j, id, run.answers[j].generation);
      IdsGrow(run, j, j + 1);
      if j < i {
        GenerationsGrow(run, j + 1, i, id);
      }
    }
  }

  /** A terminal row, with its fence and its result, never changes again; it can only be pruned. */
  lemma {:induction false} TerminalRowsAreFrozen(run: Run, i: nat, j: nat, id: int)
    requires Valid(run) && i <= j <= |run.steps| && RowAt(run, i, id).Done()
    ensures RowAt(run, j, id) == RowAt(run, i, id) || RowAt(run, j, id) == NoRow
  {
    if i < j {
      TerminalRowsAreFrozen(run, i, j - 1, id);
      RowsAreOk(run, i, id);
      IdsGrow(run, i, j - 1);
      NotRecreated(run, i, j - 1, id);
      RunStep(run, j - 1, id);
    }
  }
}
