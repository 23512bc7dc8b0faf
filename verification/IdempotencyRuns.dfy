/** Idempotent enqueueing over whole runs: replays, conflicts, re-creation after pruning, and the active-task bound. */
module IdempotencyRuns {
  import opened Tables
  import opened Ordering
  import opened Protocol
  import opened Runs

  ghost function KeyAt(run: Run, i: nat, key: string): Option<KeyRow>
    requires Valid(run) && i <= |run.steps|
  {
    KeyRowOf(run.states[i], key)
  }

  function KeyRowOf(db: Db, key: string): Option<KeyRow> {
    if key in db.keys then Some(db.keys[key]) else None
  }

  /** What a step does to the row of one idempotency key, and what an enqueue with that key is told. */
  ghost predicate KeyMoves(before: Db, step: Step, out: Outcome, after: Db, key: string) {
    var row := KeyRowOf(before, key);
    && KeyRowOf(after, key) ==
       (if step.Enqueue? && step.key == key && out.Created? then Some(KeyRow(step.fingerprint, out.id, step.now))
        else if out.Pruned? && row.Some? && row.value.taskId in out.tasks then None
        else row)
    && (step.Enqueue? && step.key == key && step.bound > 0 && row.Some? ==>
          out == if row.value.fingerprint == step.fingerprint then Replayed(row.value.taskId) else Conflict)
    && (step.Enqueue? && step.key == key && row.Some? ==> !out.Created?)
    && (step.Enqueue? && !out.Created? ==> after == before)
  }

  ghost predicate KeyStepped(run: Run, i: nat, key: string)
    requires Valid(run) && i < |run.steps|
  {
    KeyMoves(run.states[i], run.steps[i], run.answers[i], run.states[i + 1], key)
  }

  lemma EnqueueMovesKey(db: Db, step: Step, key: string)
    requires step.Enqueue?
    ensures KeyMoves(db, step, Next(db, step).1, Next(db, step).0, key)
  {
  }

  lemma PruneMovesKey(db: Db, step: Step, key: string)
    requires step.Prune?
    ensures KeyMoves(db, step, Next(db, step).1, Next(db, step).0, key)
  {
  }

  lemma OthersKeepKey(db: Db, step: Step, key: string)
    requires !step.Enqueue? && !step.Prune?
    ensures KeyMoves(db, step, Next(db, step).1, Next(db, step).0, key)
  {
  }

  lemma KeyStep(run: Run, i: nat, key: string)
    requires Valid(run) && i < |run.steps|
    ensures KeyStepped(run, i, key)
  {
    assert Follows(run, i);
    var db, step := run.states[i], run.steps[i];
    if step.Enqueue? {
      EnqueueMovesKey(db, step, key);
    } else if step.Prune? {
      PruneMovesKey(db, step, key);
    } else {
      OthersKeepKey(db, step, key);
    }
  }

  /** `task_idempotency` never dangles. */
  lemma {:induction false} KeysReferToRows(run: Run, i: nat, key: string)
    requires Valid(run) && i <= |run.steps|
    ensures KeyAt(run, i, key).Some? ==> RowAt(run, i, KeyAt(run, i, key).value.taskId).task.Some?
  {
    if i > 0 && KeyAt(run, i, key).Some? {
      KeysReferToRows(run, i - 1, key);
      KeyStep(run, i - 1, key);
      RunStep(run, i - 1, KeyAt(run, i, key).value.taskId);
    }
  }

  /** The unique index on the task id is never violated: two keys never name the same task. */
  lemma {:induction false} KeysNameDistinctTasks(run: Run, i: nat, key1: string, key2: string)
    requires Valid(run) && i <= |run.steps| && KeyAt(run, i, key1).Some? && KeyAt(run, i, key2).Some?
    requires KeyAt(run, i, key1).value.taskId == KeyAt(run, i, key2).value.taskId
    ensures key1 == key2
  {
    if i > 0 {
      KeyStep(run, i - 1, key1);
      KeyStep(run, i - 1, key2);
      KeysReferToRows(run, i - 1, key1);
      KeysReferToRows(run, i - 1, key2);
      var id := KeyAt(run, i, key1).value.taskId;
      RowsAreOk(run, i - 1, id);
      RunStep(run, i - 1, id);
      if KeyAt(run, i - 1, key1) == KeyAt(run, i, key1) && KeyAt(run, i - 1, key2) == KeyAt(run, i, key2) {
        KeysNameDistinctTasks(run, i - 1, key1, key2);
      }
    }
  }

  /** So an idempotent enqueue is never rolled back. */
  lemma EnqueueNeverAborts(run: Run, i: nat)
    requires Valid(run) && i < |run.steps| && run.steps[i].Enqueue?
    ensures run.answers[i] != Aborted
  {
    assert Follows(run, i);
    var db := run.states[i];
    forall k | k in db.keys ensures db.keys[k].taskId != db.nextId {
      KeysReferToRows(run, i, k);
      RowsAreOk(run, i, db.nextId);
      assert KeyAt(run, i, k).value == db.keys[k];
    }
  }

  /** Step `i` created task `id` for this key and fingerprint. */
  ghost predicate CreatedFor(run: Run, i: nat, key: string, fingerprint: string, id: int)
    requires Valid(run) && i < |run.steps|
  {
    && run.steps[i].Enqueue? && run.steps[i].key == key && run.steps[i].fingerprint == fingerprint
    && run.answers[i] == Created(id)
  }

  lemma {:induction false} KeyLivesWithItsTask(run: Run, i: nat, j: nat, key: string, fingerprint: string, id: int)
    requires Valid(run) && i < j <= |run.steps| && CreatedFor(run, i, key, fingerprint, id)
    ensures RowAt(run, j, id).task.Some? ==> KeyAt(run, j, key) == Some(KeyRow(fingerprint, id, run.steps[i].now))
  {
    RunStep(run, i, id);
    if i + 1 == j {
      KeyStep(run, i, key);
    } else {
      KeyLivesWithItsTask(run, i, j - 1, key, fingerprint, id);
      KeyStep(run, j - 1, key);
      RunStep(run, j - 1, id);
      IdsGrow(run, i + 1, j - 1);
    }
  }

  /**
   * As long as the first task of a key exists, in whatever status, every enqueue with that key changes
   * nothing: it replays the task's id when the fingerprint is the same and is a conflict when it is not.
   */
  lemma EnqueueIsIdempotent(run: Run, i: nat, j: nat, key: string, fingerprint: string, id: int)
    requires Valid(run) && i < j < |run.steps| && CreatedFor(run, i, key, fingerprint, id)
    requires RowAt(run, j, id).task.Some?
    requires run.steps[j].Enqueue? && run.steps[j].key == key && run.steps[j].bound > 0
    ensures run.answers[j] == if run.steps[j].fingerprint == fingerprint then Replayed(id) else Conflict
    ensures run.states[j + 1] == run.states[j]
  {
    KeyLivesWithItsTask(run, i, j, key, fingerprint, id);
    KeyStep(run, j, key);
  }

  /** The step that removes an existing row is a pruning, and what it removes was terminal. */
  lemma {:induction false} RowsVanishByPruning(run: Run, i: nat, j: nat, id: int) returns (k: nat)
    requires Valid(run) && i <= j <= |run.steps| && RowAt(run, i, id).task.Some? && RowAt(run, j, id).task.None?
    ensures i <= k < j && run.steps[k].Prune? && run.answers[k].Pruned? && id in run.answers[k].tasks
    ensures RowAt(run, k, id).Done()
  {
    k := j - 1;
    RunStep(run, k, id);
    if RowAt(run, k, id).task.None? {
      k := RowsVanishByPruning(run, i, k, id);
    }
  }

  /** A key yields a second task only after its first one became terminal and was pruned. */
  lemma SecondCreationNeedsPruning(run: Run, i: nat, j: nat, key: string, f1: string, f2: string, id1: int, id2: int)
    requires Valid(run) && i < j < |run.steps|
    requires CreatedFor(run, i, key, f1, id1) && CreatedFor(run, j, key, f2, id2)
    ensures id1 < id2
    ensures exists k | i < k < j ::
              run.steps[k].Prune? && run.answers[k].Pruned? && id1 in run.answers[k].tasks && RowAt(run, k, id1).Done()
  {
    RunStep(run, i, id1);
    RunStep(run, j, id1);
    IdsGrow(run, i + 1, j);
    KeyLivesWithItsTask(run, i, j, key, f1, id1);
    KeyStep(run, j, key);
    var k := RowsVanishByPruning(run, i + 1, j, id1);
  }

  /** Every task of the run was admitted under the same bound. */
  ghost predicate UniformBound(run: Run, bound: int) {
    forall step | step in run.steps :: !step.EnqueuePlain? && (step.Enqueue? ==> step.bound == bound)
  }

  ghost function ActiveAt(run: Run, i: nat): set<int>
    requires Valid(run) && i <= |run.steps|
  {
    ActiveIds(run.states[i].tasks)
  }

  /** Only a creation adds an active task. */
  lemma ActiveGrowsByCreation(run: Run, i: nat)
    requires Valid(run) && i < |run.steps|
    ensures ActiveAt(run, i + 1) <= ActiveAt(run, i) + if run.answers[i].Created? then {run.answers[i].id} else {}
  {
    var more := if run.answers[i].Created? then {run.answers[i].id} else {};
    forall id | id in ActiveAt(run, i + 1) ensures id in ActiveAt(run, i) + more {
      RunStep(run, i, id);
      assert RowAt(run, i + 1, id).task.Some? && !RowAt(run, i + 1, id).Done();
      RowsAreOk(run, i, id);
    }
  }

  lemma CreationNeedsRoom(run: Run, i: nat)
    requires Valid(run) && i < |run.steps| && run.steps[i].Enqueue? && run.answers[i].Created?
    ensures |ActiveAt(run, i)| < run.steps[i].bound
  {
    assert Follows(run, i);
  }

  /** If every creation uses the bound N, there are never more than N active tasks. */
  lemma {:induction false} ActiveTasksStayBounded(run: Run, i: nat, bound: int)
    requires Valid(run) && i <= |run.steps| && UniformBound(run, bound) && bound > 0
    ensures |ActiveAt(run, i)| <= bound
  {
    if i == 0 {
      assert ActiveAt(run, 0) == {};
    } else {
      ActiveTasksStayBounded(run, i - 1, bound);
      ActiveGrowsByCreation(run, i - 1);
      assert run.steps[i - 1] in run.steps;
      RunStep(run, i - 1, 0);
      var before, after, out := ActiveAt(run, i - 1), ActiveAt(run, i), run.answers[i - 1];
      if out.Created? {
        CreationNeedsRoom(run, i - 1);
        SubsetSize(after, before + {out.id});
      } else {
        SubsetSize(after, before);
      }
    }
  }
}
