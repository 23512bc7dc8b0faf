/**
 * The queue as a state machine. Every store method runs in one IMMEDIATE transaction, so each is one
 * atomic step; `Next` says what the step does to the database and what the caller is told. The clock
 * reading is part of the step and is not constrained: time may run backwards.
 */
module Protocol {
  import opened Tables
  import opened Ordering

  const MAX_RESULT_BYTES := 256 * 1024

  datatype Step =
    | Enqueue(key: string, fingerprint: string, order: Order, bound: int, now: real)
    | EnqueuePlain(order: Order, now: real)
    | Dispatch(plan: map<int, string>, until: real, now: real)
    | Claim(worker: string, now: real)
    | Heartbeat(id: int, worker: string, generation: int, extend: Float, now: real)
    | Complete(id: int, worker: string, generation: int, now: real)
    | CompleteWithResult(id: int, worker: string, generation: int, json: string, now: real)
    | Fail(id: int, worker: string, generation: int, error: string, now: real)
    | Cancel(id: int, now: real)
    | Recover(now: real)
    | Prune(keep: int)

  datatype Outcome =
    | Created(id: int) | Replayed(id: int) | Conflict | Full(active: int, bound: int)
    | Dispatched
    | Claimed(id: int, generation: int) | NothingToClaim
    | Applied | Stale
    | AlreadyCancelled | NotFound | AlreadyTerminal(status: Status)
    | Recovered(count: int)
    | Pruned(tasks: set<int>, keys: set<string>, fences: set<int>, results: set<int>)
    | Invalid  // the argument check fails before the transaction starts
    | Aborted  // the transaction is rolled back with an error

  function ExtendSeconds(extend: Float): real {
    if extend.Finite? && extend.value > 0.0 then extend.value else 10.0
  }

  ghost function Next(db: Db, step: Step): (Db, Outcome) {
    match step
    case Enqueue(key, fingerprint, order, bound, now) => EnqueueBounded(db, key, fingerprint, order, bound, now)
    case EnqueuePlain(order, now) =>
      (db.(tasks := db.tasks[db.nextId := FreshTask(order, now)], nextId := db.nextId + 1), Created(db.nextId))
    case Dispatch(plan, until, now) => (db.(tasks := Assign(db.tasks, plan, until, now)), Dispatched)
    case Claim(worker, now) => ClaimBest(db, worker, now)
    case Heartbeat(id, worker, generation, extend, now) =>
      if HoldsLease(db.tasks, db.fences, id, worker, generation, now) then
        var until := now + ExtendSeconds(extend);
        var t := db.tasks[id].(lockedUntil := Some(until), heartbeatAt := Some(now), updatedAt := now);
        (db.(tasks := db.tasks[id := t]), Applied)
      else (db, Stale)
    case Complete(id, worker, generation, now) =>
      if HoldsLease(db.tasks, db.fences, id, worker, generation, now) then
        (db.(tasks := db.tasks[id := Released(db.tasks[id], Completed, now)]), Applied)
      else (db, Stale)
    case CompleteWithResult(id, worker, generation, json, now) =>
      if json == "" || Bytes(json) > MAX_RESULT_BYTES then (db, Invalid)
      else if !HoldsLease(db.tasks, db.fences, id, worker, generation, now) then (db, Stale)
      else if id in db.results then (db, Aborted)
      else
        (db.(tasks := db.tasks[id := Released(db.tasks[id], Completed, now)],
             results := db.results[id := ResultRow(json, Bytes(json), generation, now)]), Applied)
    case Fail(id, worker, generation, error, now) =>
      if HoldsLease(db.tasks, db.fences, id, worker, generation, now) then
        (db.(tasks := db.tasks[id := AfterFailure(db.tasks[id], error, now)]), Applied)
      else (db, Stale)
    case Cancel(id, now) => CancelTask(db, id, now)
    case Recover(now) =>
      (db.(tasks := map id | id in db.tasks ::
             if Expired(db.tasks[id], now) then Released(db.tasks[id], Pending, now) else db.tasks[id]),
       Recovered(|set id | id in db.tasks && Expired(db.tasks[id], now)|))
    case Prune(keep) => PruneToMax(db, keep)
  }

  function EnqueueBounded(db: Db, key: string, fingerprint: string, order: Order, bound: int,
                          now: real): (Db, Outcome) {
    var active := |ActiveIds(db.tasks)|;
    if bound <= 0 then (db, Invalid)
    else if key in db.keys then
      (db, if db.keys[key].fingerprint == fingerprint then Replayed(db.keys[key].taskId) else Conflict)
    else if active >= bound then (db, Full(active, bound))
    else if exists k | k in db.keys :: db.keys[k].taskId == db.nextId then (db, Aborted)
    else
      (db.(tasks := db.tasks[db.nextId := FreshTask(order, now)],
           keys := db.keys[key := KeyRow(fingerprint, db.nextId, now)],
           nextId := db.nextId + 1),
       Created(db.nextId))
  }

  /** The rows a dispatch really moves: planned for a worker, PENDING and due. */
  predicate Moves(tasks: map<int, Task>, plan: map<int, string>, now: real, id: int) {
    id in plan && id in tasks && Dispatchable(tasks[id], now)
  }

  function Assign(tasks: map<int, Task>, plan: map<int, string>, until: real, now: real): map<int, Task> {
    map id | id in tasks ::
      if Moves(tasks, plan, now, id)
      then tasks[id].(status := Assigned, lockedBy := Some(plan[id]), lockedUntil := Some(until),
                      heartbeatAt := Some(now), updatedAt := now)
      else tasks[id]
  }

  function ClaimableIds(tasks: map<int, Task>, worker: string, now: real): set<int> {
    set id | id in tasks && Claimable(tasks[id], worker, now)
  }

  ghost function ClaimBest(db: Db, worker: string, now: real): (Db, Outcome) {
    var best := Take(ByPriority(db.tasks, ClaimableIds(db.tasks, worker, now)), 1);
    if best == [] then (db, NothingToClaim)
    else
      var id := best[0];
      var generation := Generation(db.fences, id) + 1;
      if generation > I64_MAX then (db, Aborted)
      else
        (db.(tasks := db.tasks[id := db.tasks[id].(status := Running, heartbeatAt := Some(now), updatedAt := now)],
             fences := db.fences[id := generation]),
         Claimed(id, generation))
  }

  function AfterFailure(t: Task, error: string, now: real): Task {
    var failed := Released(t, if t.retryCount + 1 >= t.order.maxRetries then Failed else Pending, now)
      .(retryCount := t.retryCount + 1, errorLog := Some(error));
    if failed.status == Failed then failed else failed.(scheduledAt := now + Backoff(t.retryCount) as real)
  }

  function CancelTask(db: Db, id: int, now: real): (Db, Outcome) {
    if id <= 0 then (db, Invalid)
    else if id !in db.tasks then (db, NotFound)
    else if db.tasks[id].status == Cancelled then (db, AlreadyCancelled)
    else if Terminal(db.tasks[id].status) then (db, AlreadyTerminal(db.tasks[id].status))
    else
      var generation := Generation(db.fences, id) + 1;
      if generation > I64_MAX then (db, Aborted)
      else
        (db.(fences := db.fences[id := generation], tasks := db.tasks[id := Released(db.tasks[id], Cancelled, now)]),
         Applied)
  }

  /** The ids selected by the subquery that all four DELETE statements of a pruning share. */
  ghost function Doomed(tasks: map<int, Task>, count: nat): set<int> {
    set id | id in Take(TerminalByAge(tasks), count)
  }

  function KeysOf(keys: map<string, KeyRow>, ids: set<int>): set<string> {
    set k | k in keys && keys[k].taskId in ids
  }

  ghost function PruneToMax(db: Db, keep: int): (Db, Outcome) {
    var before := |TerminalByAge(db.tasks)|;
    if keep <= 0 then (db, Invalid)
    else if before <= keep then (db, Pruned({}, {}, {}, {}))
    else
      var gone := Doomed(db.tasks, before - keep);
      (db.(tasks := db.tasks - gone, fences := db.fences - gone, results := db.results - gone,
           keys := db.keys - KeysOf(db.keys, gone)),
       Pruned(gone, KeysOf(db.keys, gone), db.fences.Keys * gone, db.results.Keys * gone))
  }

  /** In the order of the queries a larger priority comes first, and then a smaller id. */
  lemma UrgencyOrder(tasks: map<int, Task>, ids: set<int>, a: int, b: int)
    requires a in ids && b in ids && a in tasks && b in tasks
    ensures Precedes(ByPriority(tasks, ids), a, b) <==>
              || tasks[a].order.priority > tasks[b].order.priority
              || (tasks[a].order.priority == tasks[b].order.priority && a < b)
  {
  }

  /** What a query by urgency takes is more urgent than what it leaves. */
  lemma TakenIsMoreUrgent(tasks: map<int, Task>, ids: set<int>, limit: nat)
    requires forall x | x in ids :: x in tasks
    ensures forall x | x in Take(ByPriority(tasks, ids), limit) :: x in ids
    ensures |Take(ByPriority(tasks, ids), limit)| == Min(limit, |ids|)
    ensures forall x, y | x in Take(ByPriority(tasks, ids), limit)
                          && y in ids && y !in Take(ByPriority(tasks, ids), limit) ::
              || tasks[y].order.priority < tasks[x].order.priority
              || (tasks[y].order.priority == tasks[x].order.priority && x < y)
  {
    var keys := ByPriority(tasks, ids);
    assert forall x :: x in keys.Keys <==> x in ids;
    assert keys.Keys == ids;
    var taken := Take(keys, limit);
    forall x, y | x in taken && y in ids && y !in taken
      ensures || tasks[y].order.priority < tasks[x].order.priority
              || (tasks[y].order.priority == tasks[x].order.priority && x < y)
    {
      var i :| 0 <= i < |taken| && taken[i] == x;
      UrgencyOrder(tasks, ids, x, y);
    }
  }

  /**
   * The selection of the DELETE statements takes the oldest terminal rows: as many as asked for, all of them older
   * than the rest.
   */
  lemma DoomedAreOldest(tasks: map<int, Task>, count: nat)
    requires count <= |TerminalByAge(tasks)|
    ensures |Doomed(tasks, count)| == count && Doomed(tasks, count) <= TerminalByAge(tasks).Keys
    ensures forall elder, young | elder in Doomed(tasks, count)
                                  && young in TerminalByAge(tasks) && young !in Doomed(tasks, count) ::
              || tasks[elder].updatedAt < tasks[young].updatedAt
              || (tasks[elder].updatedAt == tasks[young].updatedAt && elder < young)
  {
    var keys, taken := TerminalByAge(tasks), Take(TerminalByAge(tasks), count);
    TakenCount(keys, count);
    assert forall x | x in Doomed(tasks, count) :: x in keys.Keys;
    forall x, y | x in taken && y in keys && y !in taken
      ensures tasks[x].updatedAt < tasks[y].updatedAt || (tasks[x].updatedAt == tasks[y].updatedAt && x < y)
    {
      var i :| 0 <= i < |taken| && taken[i] == x;
    }
  }

  /** A run: the steps taken from the empty database, the answers given and the states passed through. */
  datatype Run = Run(steps: seq<Step>, answers: seq<Outcome>, states: seq<Db>)

  ghost predicate Follows(run: Run, i: nat)
    requires i < |run.steps| == |run.answers| == |run.states| - 1
  {
    Next(run.states[i], run.steps[i]) == (run.states[i + 1], run.answers[i])
  }

  ghost predicate Valid(run: Run) {
    && |run.steps| == |run.answers| == |run.states| - 1
    && run.states[0] == EmptyDb
    && forall i | 0 <= i < |run.steps| :: Follows(run, i)
  }

  ghost function Last(run: Run): Db
    requires run.states != []
  {
    run.states[|run.states| - 1]
  }

  ghost function Extended(run: Run, step: Step): Run
    requires run.states != []
  {
    var after := Next(Last(run), step);
    Run(run.steps + [step], run.answers + [after.1], run.states + [after.0])
  }

  lemma StillFollows(run: Run, longer: Run, i: nat)
    requires |run.steps| == |run.answers| == |run.states| - 1 && i < |run.steps| && Follows(run, i)
    requires |longer.steps| == |longer.answers| == |longer.states| - 1
    requires run.steps <= longer.steps && run.answers <= longer.answers && run.states <= longer.states
    ensures Follows(longer, i)
  {
    assert longer.states[i] == run.states[i] && longer.steps[i] == run.steps[i];
    assert longer.states[i + 1] == run.states[i + 1] && longer.answers[i] == run.answers[i];
  }

  /** Whatever step comes next, the run goes on. */
  lemma ExtendedIsValid(run: Run, step: Step)
    requires Valid(run)
    ensures Valid(Extended(run, step))
  {
    var longer, n := Extended(run, step), |run.steps|;
    forall i | 0 <= i < |longer.steps| ensures Follows(longer, i) {
      if i < n {
        StillFollows(run, longer, i);
      } else {
        assert longer.states[n] == Last(run) && longer.steps[n] == step;
        assert (longer.states[n + 1], longer.answers[n]) == Next(Last(run), step);
      }
    }
  }
}
