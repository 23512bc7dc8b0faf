/** The store methods, each one transaction on the four tables. */
module TaskStore {
  import opened Tables
  import opened Ordering
  import opened Protocol
  import opened Runs
  import opened TerminalOutcomes

  lemma RemoveCommonKeys<V>(m: map<int, V>, ids: set<int>)
    ensures m - (m.Keys * ids) == m - ids
  {
  }

  /** The report of `prune_to_max`: row counts. */
  datatype Retention = Retention(before: int, retained: int, tasks: int, keys: int, fences: int, results: int)

  lemma PrunedState(db: Db, keep: int, ids: set<int>)
    requires 0 < keep < |TerminalByAge(db.tasks)|
    requires ids == Doomed(db.tasks, |TerminalByAge(db.tasks)| - keep)
    ensures Next(db, Prune(keep)) ==
      (Db(db.tasks - ids, db.fences - ids, db.keys - KeysOf(db.keys, ids), db.results - ids, db.nextId),
       Pruned(ids, KeysOf(db.keys, ids), db.fences.Keys * ids, db.results.Keys * ids))
  {
  }

  lemma ActiveMeans(tasks: map<int, Task>)
    ensures ActiveIds(tasks)
         == set x | x in tasks && (tasks[x].status == Pending || tasks[x].status == Assigned
                                   || tasks[x].status == Running)
  {
    var active := set x | x in tasks && (tasks[x].status == Pending || tasks[x].status == Assigned
                                         || tasks[x].status == Running);
    assert forall x :: x in ActiveIds(tasks) <==> x in active;
  }

  lemma TerminalMeans(tasks: map<int, Task>)
    ensures TerminalByAge(tasks).Keys
         == set x | x in tasks && (tasks[x].status == Completed || tasks[x].status == Failed
                                   || tasks[x].status == Cancelled)
  {
    var terminal := set x | x in tasks && (tasks[x].status == Completed || tasks[x].status == Failed
                                           || tasks[x].status == Cancelled);
    assert forall x :: x in TerminalByAge(tasks).Keys <==> x in terminal;
  }

  /** `gone` are the oldest rows of `terminal`, and `keep` of them stay. */
  ghost predicate AreOldest(tasks: map<int, Task>, terminal: set<int>, keep: nat, gone: set<int>) {
    && |gone| == (if |terminal| > keep then |terminal| - keep else 0)
    && (forall x | x in gone :: x in terminal)
    && (forall x | x in terminal :: x in tasks)
    && (forall x, y | x in gone && y in terminal && y !in gone ::
          tasks[x].updatedAt < tasks[y].updatedAt || (tasks[x].updatedAt == tasks[y].updatedAt && x < y))
  }

  lemma SurplusIsOldest(tasks: map<int, Task>, keep: nat)
    ensures AreOldest(tasks, TerminalByAge(tasks).Keys, keep,
                      if |TerminalByAge(tasks)| <= keep then {} else Doomed(tasks, |TerminalByAge(tasks)| - keep))
  {
    var keys := TerminalByAge(tasks);
    assert |keys| == |keys.Keys|;
    if |keys| > keep {
      DoomedAreOldest(tasks, |keys| - keep);
    }
  }

  /** The surplus of terminal rows has gone, the oldest ones; every other row is as it was. */
  ghost predicate YoungestKept(before: map<int, Task>, after: map<int, Task>, keep: int) {
    var terminal := set x | x in before
      && (before[x].status == Completed || before[x].status == Failed || before[x].status == Cancelled);
    && (forall x | x in before && x !in after :: x in terminal)
    && |before.Keys - after.Keys| == (if |terminal| > keep then |terminal| - keep else 0)
    && (forall x | x in after :: x in before && after[x] == before[x])
    && forall x, y | x in terminal && x !in after && y in terminal && y in after ::
         || before[x].updatedAt < before[y].updatedAt
         || (before[x].updatedAt == before[y].updatedAt && x < y)
  }

  /** The rows that refer to a task have gone with it, and no others. */
  ghost predicate ReferencesFollow(b: Db, a: Db) {
    && a.fences == (map x | x in b.fences && (x in b.tasks ==> x in a.tasks) :: b.fences[x])
    && a.results == (map x | x in b.results && (x in b.tasks ==> x in a.tasks) :: b.results[x])
    && a.keys == (map k | k in b.keys && (b.keys[k].taskId in b.tasks ==> b.keys[k].taskId in a.tasks) :: b.keys[k])
    && a.nextId == b.nextId
  }

  lemma OldestGone(before: map<int, Task>, after: map<int, Task>, keep: nat, gone: set<int>)
    requires AreOldest(before, TerminalByAge(before).Keys, keep, gone) && after == before - gone
    ensures YoungestKept(before, after, keep)
  {
    TerminalMeans(before);
    GoneIsDifference(before, after, gone);
  }

  lemma RowsGone<V>(before: map<int, Task>, after: map<int, Task>, gone: set<int>, rows: map<int, V>)
    requires gone <= before.Keys && after == before - gone
    ensures rows - gone == map x | x in rows && (x in before ==> x in after) :: rows[x]
  {
  }

  lemma ReferencesGone(b: Db, a: Db, gone: set<int>)
    requires (forall x | x in gone :: x in b.tasks) && a.tasks == b.tasks - gone && a.nextId == b.nextId
    requires a.fences == b.fences - gone && a.results == b.results - gone && a.keys == b.keys - KeysOf(b.keys, gone)
    ensures ReferencesFollow(b, a)
  {
    assert forall x | x in gone :: x in b.tasks.Keys;
    RowsGone(b.tasks, a.tasks, gone, b.fences);
    RowsGone(b.tasks, a.tasks, gone, b.results);
  }

  lemma SurplusGone(b: Db, a: Db, keep: nat, gone: set<int>)
    requires AreOldest(b.tasks, TerminalByAge(b.tasks).Keys, keep, gone)
    requires a.tasks == b.tasks - gone && a.nextId == b.nextId
    requires a.fences == b.fences - gone && a.results == b.results - gone && a.keys == b.keys - KeysOf(b.keys, gone)
    ensures YoungestKept(b.tasks, a.tasks, keep) && ReferencesFollow(b, a)
  {
    OldestGone(b.tasks, a.tasks, keep, gone);
    ReferencesGone(b, a, gone);
  }

  lemma NothingGone(db: Db, keep: int)
    requires |TerminalByAge(db.tasks)| <= keep
    ensures YoungestKept(db.tasks, db.tasks, keep) && ReferencesFollow(db, db)
  {
    TerminalMeans(db.tasks);
  }

  lemma GoneIsDifference(before: map<int, Task>, after: map<int, Task>, gone: set<int>)
    requires (forall x | x in gone :: x in before) && after == before - gone
    ensures before.Keys - after.Keys == gone
  {
    assert forall x :: x in before.Keys - after.Keys <==> x in gone;
  }

  class Database {
    var tasks: map<int, Task>
    var fences: map<int, int>
    var keys: map<string, KeyRow>
    var results: map<int, ResultRow>
    var nextId: int
    /** The steps taken so far: the state is the last one of a run. */
    ghost var history: Run

    ghost predicate Recorded()
      reads this
    {
      Valid(history) && Last(history) == State()
    }

    ghost method Record(step: Step)
      requires Valid(history)
      modifies this`history
      ensures Valid(history) && history == Extended(old(history), step)
      ensures Last(history) == Next(Last(old(history)), step).0
    {
      ExtendedIsValid(history, step);
      history := Extended(history, step);
    }

    ghost function State(): Db
      reads this
    {
      Db(tasks, fences, keys, results, nextId)
    }

    constructor ()
      ensures State() == EmptyDb && Recorded() && history.steps == []
    {
      tasks, fences, keys, results, nextId := map[], map[], map[], map[], 1;
      history := Run([], [], [EmptyDb]);
    }

    method InsertTask(order: Order, now: real) returns (id: int)
      modifies this`tasks, this`nextId
      ensures tasks == old(tasks)[id := FreshTask(order, now)]
      ensures id == old(nextId) && nextId == id + 1
    {
      id := nextId;
      tasks := tasks[id := FreshTask(order, now)];
      nextId := nextId + 1;
    }

    method Enqueue(order: Order, now: real) returns (r: Outcome)
      requires Recorded()
      modifies this
      ensures (State(), r) == Next(old(State()), EnqueuePlain(order, now))
      ensures Recorded() && history == Extended(old(history), EnqueuePlain(order, now))
      ensures r == Created(old(nextId)) && nextId == old(nextId) + 1
      ensures tasks == old(tasks)[r.id := Task(order, Pending, 0, None, None, None, None, now, now, now)]
      ensures fences == old(fences) && keys == old(keys) && results == old(results)
    {
      Record(EnqueuePlain(order, now));
      var id := InsertTask(order, now);
      r := Created(id);
    }

    method EnqueueBounded(key: string, fingerprint: string, order: Order, bound: int, now: real) returns (r: Outcome)
      requires Recorded()
      modifies this
      ensures (State(), r) == Next(old(State()), Step.Enqueue(key, fingerprint, order, bound, now))
      ensures Recorded() && history == Extended(old(history), Step.Enqueue(key, fingerprint, order, bound, now))
      ensures r == Invalid <==> bound <= 0
      ensures bound > 0 && key in old(keys) ==>
                r == if old(keys)[key].fingerprint == fingerprint then Replayed(old(keys)[key].taskId) else Conflict
      ensures bound > 0 && key !in old(keys) ==>
                var active := |set x | x in old(tasks) && (old(tasks)[x].status == Pending
                  || old(tasks)[x].status == Assigned || old(tasks)[x].status == Running)|;
                if active >= bound then r == Full(active, bound) else r == Created(old(nextId)) || r == Aborted
      ensures r == Aborted ==> exists k | k in old(keys) :: old(keys)[k].taskId == old(nextId)
      ensures r.Created? ==>
                && tasks == old(tasks)[r.id := Task(order, Pending, 0, None, None, None, None, now, now, now)]
                && keys == old(keys)[key := KeyRow(fingerprint, r.id, now)]
                && nextId == r.id + 1 && fences == old(fences) && results == old(results)
      ensures !r.Created? ==> State() == old(State())
    {
      Record(Step.Enqueue(key, fingerprint, order, bound, now));
      if bound <= 0 {
        return Invalid;
      }
      if key in keys {
        return if keys[key].fingerprint == fingerprint then Replayed(keys[key].taskId) else Conflict;
      }
      var active := |ActiveIds(tasks)|;
      ActiveMeans(tasks);
      if active >= bound {
        return Full(active, bound);
      }
      var before, beforeId := tasks, nextId;
      var id := InsertTask(order, now);
      if exists k | k in keys :: keys[k].taskId == id {
        tasks, nextId := before, beforeId;  // UNIQUE(task_id) fails: roll back
        return Aborted;
      }
      keys := keys[key := KeyRow(fingerprint, id, now)];
      r := Created(id);
    }

    /** The most urgent row that the worker may claim, if there is one. */
    method SelectClaimable(worker: string, now: real) returns (best: seq<int>)
      ensures best == Take(ByPriority(tasks, ClaimableIds(tasks, worker, now)), 1)
      ensures |best| <= 1 && (best != [] ==> best[0] in tasks && Claimable(tasks[best[0]], worker, now))
      ensures best == [] ==> forall x | x in tasks :: !Claimable(tasks[x], worker, now)
      ensures best != [] ==> forall x | x in tasks && x != best[0] && Claimable(tasks[x], worker, now) ::
                || tasks[x].order.priority < tasks[best[0]].order.priority
                || (tasks[x].order.priority == tasks[best[0]].order.priority && best[0] < x)
    {
      var ids := ClaimableIds(tasks, worker, now);
      TakenIsMoreUrgent(tasks, ids, 1);
      best := Query(ByPriority(tasks, ids), 1);
      assert best != [] ==> best[0] in best;
      assert forall x | x in tasks && Claimable(tasks[x], worker, now) :: x in ids;
    }

    method ClaimTask(worker: string, now: real) returns (r: Outcome)
      requires Recorded()
      modifies this
      ensures (State(), r) == Next(old(State()), Claim(worker, now))
      ensures Recorded() && history == Extended(old(history), Claim(worker, now))
      ensures r.Claimed? || r == NothingToClaim || r == Aborted
      ensures r == NothingToClaim <==> forall x | x in old(tasks) ::
                !(old(tasks)[x].status == Assigned && old(tasks)[x].lockedBy == Some(worker)
                  && old(tasks)[x].lockedUntil.Some? && old(tasks)[x].lockedUntil.value >= now)
      ensures r.Claimed? ==>
                && r.id in old(tasks)
                && var t := old(tasks)[r.id];
                   && t.status == Assigned && t.lockedBy == Some(worker)
                   && t.lockedUntil.Some? && t.lockedUntil.value >= now
                   && tasks == old(tasks)[r.id := t.(status := Running, heartbeatAt := Some(now), updatedAt := now)]
      ensures r.Claimed? ==>
                && r.generation == (if r.id in old(fences) then old(fences)[r.id] else 0) + 1
                && fences == old(fences)[r.id := r.generation]
                && keys == old(keys) && results == old(results) && nextId == old(nextId)
      ensures r.Claimed? ==> forall x | x in old(tasks) && x != r.id ::
                old(tasks)[x].status == Assigned && old(tasks)[x].lockedBy == Some(worker)
                && old(tasks)[x].lockedUntil.Some? && old(tasks)[x].lockedUntil.value >= now ==>
                || old(tasks)[x].order.priority < old(tasks)[r.id].order.priority
                || (old(tasks)[x].order.priority == old(tasks)[r.id].order.priority && r.id < x)
      ensures r == Aborted ==> exists x | x in old(fences) :: old(fences)[x] >= 0x7FFF_FFFF_FFFF_FFFF
      ensures !r.Claimed? ==> State() == old(State())
    {
      Record(Claim(worker, now));
      var best := SelectClaimable(worker, now);
      if best == [] {
        return NothingToClaim;
      }
      var id := best[0];
      var before := tasks;
      tasks := tasks[id := tasks[id].(status := Running, heartbeatAt := Some(now), updatedAt := now)];
      var generation := Generation(fences, id);
      if generation + 1 > I64_MAX {
        tasks := before;
        return Aborted;
      }
      fences := fences[id := generation + 1];
      r := Claimed(id, generation + 1);
    }

    method Heartbeat(id: int, worker: string, generation: int, extend: Float, now: real) returns (r: Outcome)
      requires Recorded()
      modifies this
      ensures (State(), r) == Next(old(State()), Step.Heartbeat(id, worker, generation, extend, now))
      ensures Recorded() && history == Extended(old(history), Step.Heartbeat(id, worker, generation, extend, now))
      ensures r == Applied <==>
                id in old(tasks) && old(tasks)[id].status == Running && old(tasks)[id].lockedBy == Some(worker)
                && old(tasks)[id].lockedUntil.Some? && old(tasks)[id].lockedUntil.value >= now
                && id in old(fences) && old(fences)[id] == generation
      ensures r == Applied ==>
                var until := now + if extend.Finite? && extend.value > 0.0 then extend.value else 10.0;
                tasks == old(tasks)[id := old(tasks)[id].(
                  lockedUntil := Some(until), heartbeatAt := Some(now), updatedAt := now)]
      ensures r != Applied ==> r == Stale && tasks == old(tasks)
      ensures fences == old(fences) && keys == old(keys) && results == old(results) && nextId == old(nextId)
    {
      Record(Step.Heartbeat(id, worker, generation, extend, now));
      var seconds := ExtendSeconds(extend);
      if !HoldsLease(tasks, fences, id, worker, generation, now) {
        return Stale;
      }
      tasks := tasks[id := tasks[id].(lockedUntil := Some(now + seconds), heartbeatAt := Some(now), updatedAt := now)];
      r := Applied;
    }

    method CompleteTask(id: int, worker: string, generation: int, now: real) returns (r: Outcome)
      requires Recorded()
      modifies this
      ensures (State(), r) == Next(old(State()), Complete(id, worker, generation, now))
      ensures Recorded() && history == Extended(old(history), Complete(id, worker, generation, now))
      ensures r == Applied <==>
                id in old(tasks) && old(tasks)[id].status == Running && old(tasks)[id].lockedBy == Some(worker)
                && old(tasks)[id].lockedUntil.Some? && old(tasks)[id].lockedUntil.value >= now
                && id in old(fences) && old(fences)[id] == generation
      ensures r == Applied ==>
                tasks == old(tasks)[id := old(tasks)[id].(
                  status := Completed, lockedBy := None, lockedUntil := None, heartbeatAt := None, updatedAt := now)]
      ensures r != Applied ==> r == Stale && tasks == old(tasks)
      ensures fences == old(fences) && keys == old(keys) && results == old(results) && nextId == old(nextId)
    {
      Record(Complete(id, worker, generation, now));
      if !HoldsLease(tasks, fences, id, worker, generation, now) {
        return Stale;
      }
      tasks := tasks[id := Released(tasks[id], Completed, now)];
      r := Applied;
    }

    method CompleteWithProjection(id: int, worker: string, generation: int, json: string, now: real)
      returns (r: Outcome)
      requires Recorded()
      modifies this
      ensures (State(), r) == Next(old(State()), CompleteWithResult(id, worker, generation, json, now))
      ensures Recorded() && history == Extended(old(history), CompleteWithResult(id, worker, generation, json, now))
      ensures r == Invalid <==> json == "" || Bytes(json) > 262144
      ensures r == Applied || r == Aborted <==>
                json != "" && Bytes(json) <= 262144 &&
                id in old(tasks) && old(tasks)[id].status == Running && old(tasks)[id].lockedBy == Some(worker)
                && old(tasks)[id].lockedUntil.Some? && old(tasks)[id].lockedUntil.value >= now
                && id in old(fences) && old(fences)[id] == generation
      ensures r == Aborted ==> id in old(results)
      ensures r == Applied ==>
                && tasks == old(tasks)[id := old(tasks)[id].(
                     status := Completed, lockedBy := None, lockedUntil := None, heartbeatAt := None, updatedAt := now)]
                && results == old(results)[id := ResultRow(json, Bytes(json), generation, now)]
                && fences == old(fences) && keys == old(keys) && nextId == old(nextId)
      ensures r != Applied ==> (r == Invalid || r == Aborted || r == Stale) && State() == old(State())
    {
      Record(CompleteWithResult(id, worker, generation, json, now));
      if json == "" || Bytes(json) > MAX_RESULT_BYTES {
        return Invalid;
      }
      if !HoldsLease(tasks, fences, id, worker, generation, now) {
        return Stale;
      }
      var before := tasks;
      tasks := tasks[id := Released(tasks[id], Completed, now)];
      if id in results {
        tasks := before;  // PRIMARY KEY(task_id) fails: roll back
        return Aborted;
      }
      results := results[id := ResultRow(json, Bytes(json), generation, now)];
      r := Applied;
    }

    /** `get`: what the projected completion that won has sent, for as long as the task is kept. */
    method GetResult(id: int) returns (row: Option<ResultRow>)
      requires Recorded()
      ensures row.Some? <==> id in tasks && exists i | 0 <= i < |history.steps| :: Projects(history, i, id)
      ensures forall i | 0 <= i < |history.steps| && row.Some? && Projects(history, i, id) ::
                row.value == ProjectedRow(history.steps[i])
    {
      ResultIffProjected(history, |history.steps|, id);
      RowsAreOk(history, |history.steps|, id);
      row := if id in results && id in tasks && tasks[id].status == Completed then Some(results[id]) else None;
    }

    method FailTask(id: int, worker: string, generation: int, error: string, now: real) returns (r: Outcome)
      requires Recorded()
      modifies this
      ensures (State(), r) == Next(old(State()), Fail(id, worker, generation, error, now))
      ensures Recorded() && history == Extended(old(history), Fail(id, worker, generation, error, now))
      ensures r == Applied <==>
                id in old(tasks) && old(tasks)[id].status == Running && old(tasks)[id].lockedBy == Some(worker)
                && old(tasks)[id].lockedUntil.Some? && old(tasks)[id].lockedUntil.value >= now
                && id in old(fences) && old(fences)[id] == generation
      ensures r == Applied ==>
                var t := old(tasks)[id].(retryCount := old(tasks)[id].retryCount + 1, lockedBy := None,
                  lockedUntil := None, heartbeatAt := None, errorLog := Some(error), updatedAt := now);
                if t.retryCount >= t.order.maxRetries then tasks == old(tasks)[id := t.(status := Failed)]
                else tasks == old(tasks)[id := t.(
                  status := Pending, scheduledAt := now + Backoff(old(tasks)[id].retryCount) as real)]
      ensures r != Applied ==> r == Stale && tasks == old(tasks)
      ensures fences == old(fences) && keys == old(keys) && results == old(results) && nextId == old(nextId)
    {
      Record(Fail(id, worker, generation, error, now));
      if !HoldsLease(tasks, fences, id, worker, generation, now) {
        return Stale;
      }
      var retries := tasks[id].retryCount;
      if retries + 1 >= tasks[id].order.maxRetries {
        tasks := tasks[id := Released(tasks[id], Failed, now).(retryCount := retries + 1, errorLog := Some(error))];
      } else {
        var due := now + Backoff(retries) as real;
        tasks := tasks[id := Released(tasks[id], Pending, now)
          .(retryCount := retries + 1, scheduledAt := due, errorLog := Some(error))];
      }
      r := Applied;
    }

    method CancelTask(id: int, now: real) returns (r: Outcome)
      requires Recorded()
      modifies this
      ensures (State(), r) == Next(old(State()), Cancel(id, now))
      ensures Recorded() && history == Extended(old(history), Cancel(id, now))
      ensures r == Invalid <==> id <= 0
      ensures r == NotFound <==> id > 0 && id !in old(tasks)
      ensures id > 0 && id in old(tasks) ==>
                var status := old(tasks)[id].status;
                var generation := if id in old(fences) then old(fences)[id] else 0;
                r == if status == Cancelled then AlreadyCancelled
                     else if status == Completed || status == Failed then AlreadyTerminal(status)
                     else if generation >= 0x7FFF_FFFF_FFFF_FFFF then Aborted
                     else Applied
      ensures r == Applied ==>
                && tasks == old(tasks)[id := old(tasks)[id].(
                     status := Cancelled, lockedBy := None, lockedUntil := None, heartbeatAt := None, updatedAt := now)]
                && fences == old(fences)[id := (if id in old(fences) then old(fences)[id] else 0) + 1]
                && keys == old(keys) && results == old(results) && nextId == old(nextId)
      ensures r != Applied ==> State() == old(State())
    {
      Record(Cancel(id, now));
      if id <= 0 {
        return Invalid;
      }
      if id !in tasks {
        return NotFound;
      }
      match tasks[id].status {
        case Cancelled => return AlreadyCancelled;
        case Completed => return AlreadyTerminal(Completed);
        case Failed => return AlreadyTerminal(Failed);
        case _ =>
      }
      var generation := Generation(fences, id);
      if generation + 1 > I64_MAX {
        return Aborted;
      }
      fences := fences[id := generation + 1];
      tasks := tasks[id := Released(tasks[id], Cancelled, now)];
      r := Applied;
    }

    method RecoverExpiredLeases(now: real) returns (r: Outcome)
      requires Recorded()
      modifies this
      ensures (State(), r) == Next(old(State()), Recover(now))
      ensures Recorded() && history == Extended(old(history), Recover(now))
      ensures tasks.Keys == old(tasks).Keys
      ensures forall x | x in tasks ::
                var t := old(tasks)[x];
                tasks[x] ==
                if (t.status == Assigned || t.status == Running) && t.lockedUntil.Some? && t.lockedUntil.value < now
                then t.(status := Pending, lockedBy := None, lockedUntil := None, heartbeatAt := None, updatedAt := now)
                else t
      ensures r == Recovered(|set x | x in old(tasks)
                               && (old(tasks)[x].status == Assigned || old(tasks)[x].status == Running)
                               && old(tasks)[x].lockedUntil.Some? && old(tasks)[x].lockedUntil.value < now|)
      ensures fences == old(fences) && keys == old(keys) && results == old(results) && nextId == old(nextId)
    {
      Record(Recover(now));
      var expired := set id | id in tasks && Expired(tasks[id], now);
      ghost var after := Next(State(), Recover(now)).0;
      tasks := map id | id in tasks :: if id in expired then Released(tasks[id], Pending, now) else tasks[id];
      assert tasks == after.tasks;
      assert expired == set x | x in old(tasks) && (old(tasks)[x].status == Assigned || old(tasks)[x].status == Running)
                                && old(tasks)[x].lockedUntil.Some? && old(tasks)[x].lockedUntil.value < now;
      r := Recovered(|expired|);
    }

    /** The subquery shared by the four DELETE statements. */
    method SelectDoomed(count: nat) returns (ids: set<int>)
      ensures ids == Doomed(tasks, count)
      ensures forall id | id in ids :: id in tasks && Terminal(tasks[id].status)
      ensures count <= |TerminalByAge(tasks)| ==> |ids| == count
    {
      TakenCount(TerminalByAge(tasks), count);
      var selected := Query(TerminalByAge(tasks), count);
      ids := set id | id in selected;
    }

    /** Four DELETE statements; each evaluates the subquery again, the last one on the table it deletes from. */
    method DeleteOldest(keep: int, count: nat) returns (r: Outcome)
      requires keep > 0 && count > 0 && |TerminalByAge(tasks)| == keep + count
      modifies this`tasks, this`keys, this`fences, this`results
      ensures (State(), r) == Next(old(State()), Prune(keep)) && r.Pruned? && |r.tasks| == count
      ensures r.tasks == Doomed(old(tasks), count) && tasks == old(tasks) - r.tasks
      ensures fences == old(fences) - r.tasks && results == old(results) - r.tasks
      ensures keys == old(keys) - KeysOf(old(keys), r.tasks)
    {
      var ids := SelectDoomed(count);
      var goneKeys := DeleteKeys(ids);
      ids := SelectDoomed(count);
      var goneFences := DeleteFences(ids);
      ids := SelectDoomed(count);
      var goneResults := DeleteResults(ids);
      ids := SelectDoomed(count);
      PrunedState(old(State()), keep, ids);
      DeleteTerminalTasks(ids);
      r := Pruned(ids, goneKeys, goneFences, goneResults);
    }

    /** Deletes what exceeds `keep`, if anything does. */
    method DeleteSurplus(keep: nat) returns (r: Outcome, report: Retention)
      requires keep > 0
      modifies this`tasks, this`keys, this`fences, this`results
      ensures (State(), r) == Next(old(State()), Prune(keep)) && r.Pruned?
      ensures YoungestKept(old(tasks), tasks, keep) && ReferencesFollow(old(State()), State())
      ensures report == Retention(|TerminalByAge(old(tasks))|, |TerminalByAge(old(tasks))| - |r.tasks|,
                                  |r.tasks|, |r.keys|, |r.fences|, |r.results|)
    {
      var before := |TerminalByAge(tasks)|;
      if before <= keep {
        NothingGone(State(), keep);
        return Pruned({}, {}, {}, {}), Retention(before, before, 0, 0, 0, 0);
      }
      r := DeleteOldest(keep, before - keep);
      SurplusIsOldest(old(tasks), keep);
      SurplusGone(old(State()), State(), keep, r.tasks);
      if |r.tasks| != before - keep {
        assert false;  // the "selected n tasks but deleted m" error cannot occur
      }
      report := Retention(before, before - |r.tasks|, |r.tasks|, |r.keys|, |r.fences|, |r.results|);
    }

    method PruneToMax(keep: int) returns (r: Outcome, report: Retention)
      requires Recorded()
      modifies this
      ensures (State(), r) == Next(old(State()), Prune(keep))
      ensures Recorded() && history == Extended(old(history), Prune(keep))
      ensures keep <= 0 ==> r == Invalid && State() == old(State())
      ensures keep > 0 ==> YoungestKept(old(tasks), tasks, keep) && ReferencesFollow(old(State()), State())
      ensures keep > 0 ==>
                && r.Pruned? && |r.tasks| == report.tasks && report.retained == report.before - report.tasks
                && report.keys == |r.keys| && report.fences == |r.fences| && report.results == |r.results|
                && report.before == |TerminalByAge(old(tasks))|
    {
      if keep <= 0 {
        r, report := Invalid, Retention(|TerminalByAge(tasks)|, |TerminalByAge(tasks)|, 0, 0, 0, 0);
      } else {
        r, report := DeleteSurplus(keep);
      }
      Record(Prune(keep));
    }

    method DeleteKeys(ids: set<int>) returns (gone: set<string>)
      modifies this`keys
      ensures gone == KeysOf(old(keys), ids) && keys == old(keys) - gone
    {
      gone := KeysOf(keys, ids);
      keys := keys - gone;
    }

    method DeleteFences(ids: set<int>) returns (gone: set<int>)
      modifies this`fences
      ensures gone == old(fences).Keys * ids && fences == old(fences) - ids
    {
      gone := fences.Keys * ids;
      fences := fences - gone;
      RemoveCommonKeys(old(fences), ids);
    }

    method DeleteResults(ids: set<int>) returns (gone: set<int>)
      modifies this`results
      ensures gone == old(results).Keys * ids && results == old(results) - ids
    {
      gone := results.Keys * ids;
      results := results - gone;
      RemoveCommonKeys(old(results), ids);
    }

    /** The last DELETE repeats the status condition on the rows it removes. */
    method DeleteTerminalTasks(ids: set<int>)
      requires forall id | id in ids :: id in tasks && Terminal(tasks[id].status)
      modifies this`tasks
      ensures tasks == old(tasks) - ids
    {
      var gone := set id | id in ids && id in tasks && Terminal(tasks[id].status);
      assert forall id | id in ids :: id in gone;
      tasks := tasks - gone;
    }
  }
}
