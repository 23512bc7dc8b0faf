/** The queue as workers meet it: one database, one registry, and dispatching only through the registry. */
module Coordinator {
  import opened Tables
  import opened Protocol
  import opened TaskStore
  import opened WorkerRegistry
  import opened Dispatch
  import opened RegisteredDispatch
  import opened CapacityRuns

  /** A step keeps a run one of registered dispatches only, if it is one when it is a dispatch. */
  lemma StepKeepsRegistered(run: Run, step: Step, roster: map<string, Session>)
    requires Valid(run) && RegisteredOnly(run, roster)
    requires step.Dispatch? ==> RegisteredPlan(Last(run).tasks, step.plan, step.now, roster)
    ensures Valid(Extended(run, step)) && RegisteredOnly(Extended(run, step), roster)
  {
    ExtendedIsValid(run, step);
    var longer, n := Extended(run, step), |run.steps|;
    forall i | 0 <= i < |longer.steps| && longer.steps[i].Dispatch?
      ensures RegisteredPlan(longer.states[i].tasks, longer.steps[i].plan, longer.steps[i].now, roster)
    {
      if i < n {
        assert longer.states[i] == run.states[i] && longer.steps[i] == run.steps[i];
      } else {
        assert longer.states[n] == Last(run) && longer.steps[n] == step;
      }
    }
  }

  lemma RegisteringKeepsRegistered(run: Run, roster: map<string, Session>, more: map<string, Session>)
    requires Valid(run) && RegisteredOnly(run, roster)
    requires forall s | s in roster :: s in more && more[s] == roster[s]
    requires forall s | s in more :: more[s].capacity > 0
    ensures RegisteredOnly(run, more)
  {
    forall i | 0 <= i < |run.steps| && run.steps[i].Dispatch?
      ensures RegisteredPlan(run.states[i].tasks, run.steps[i].plan, run.steps[i].now, more)
    {
      RosterGrows(run.states[i].tasks, run.steps[i].plan, run.steps[i].now, roster, more);
    }
  }

  class Coordinator {
    const db: Database
    const registry: Registry

    /** Every dispatch so far was one that the sessions registered so far allow. */
    ghost predicate Valid()
      reads db, registry
    {
      registry.Valid() && db.Recorded() && RegisteredOnly(db.history, registry.issued)
    }

    constructor (ttl: int)
      requires ttl > 0
      ensures Valid() && fresh(db) && fresh(registry)
    {
      db := new Database();
      registry := new Registry(ttl);
    }

    method Register(worker: string, kind: string, capacity: int, names: seq<string>, now: int, freshId: string,
                    token: seq<bv8>)
      returns (r: Registration)
      requires Valid() && freshId !in registry.issued
      modifies registry
      ensures Valid()
    {
      ghost var roster := registry.issued;
      r := registry.Register(worker, kind, capacity, names, now, freshId, token);
      RegisteringKeepsRegistered(db.history, roster, registry.issued);
    }

    method AuthenticateAndTouch(id: string, token: seq<bv8>, now: int) returns (r: Option<Session>)
      requires Valid()
      modifies registry
      ensures Valid() && registry.issued == old(registry.issued)
    {
      r := registry.AuthenticateAndTouch(id, token, now);
    }

    method DispatchAvailable(lease: Float, score: (string, int, int) -> Float, clock: int, now: real)
      returns (plan: map<int, string>)
      requires Valid()
      modifies db, registry
      ensures Valid() && registry.issued == old(registry.issued)
      ensures db.history == Extended(old(db.history), Step.Dispatch(plan, now + LeaseSeconds(lease, 30.0), now))
      ensures RowsLeased(old(db.tasks), db.tasks, plan, now + LeaseSeconds(lease, 30.0), now)
    {
      ghost var run := db.history;
      ghost var live;
      plan, live := RegisteredDispatch.DispatchAvailable(registry, db, lease, score, clock, now);
      StepKeepsRegistered(run, Step.Dispatch(plan, now + LeaseSeconds(lease, 30.0), now), registry.issued);
    }

    method Enqueue(order: Order, now: real) returns (r: Outcome)
      requires Valid()
      modifies db
      ensures Valid() && (db.State(), r) == Next(old(db.State()), EnqueuePlain(order, now))
    {
      StepKeepsRegistered(db.history, EnqueuePlain(order, now), registry.issued);
      r := db.Enqueue(order, now);
    }

    method EnqueueBounded(key: string, fingerprint: string, order: Order, bound: int, now: real) returns (r: Outcome)
      requires Valid()
      modifies db
      ensures Valid() && (db.State(), r) == Next(old(db.State()), Step.Enqueue(key, fingerprint, order, bound, now))
    {
      StepKeepsRegistered(db.history, Step.Enqueue(key, fingerprint, order, bound, now), registry.issued);
      r := db.EnqueueBounded(key, fingerprint, order, bound, now);
    }

    method ClaimTask(worker: string, now: real) returns (r: Outcome)
      requires Valid()
      modifies db
      ensures Valid() && (db.State(), r) == Next(old(db.State()), Claim(worker, now))
    {
      StepKeepsRegistered(db.history, Claim(worker, now), registry.issued);
      r := db.ClaimTask(worker, now);
    }

    method Heartbeat(id: int, worker: string, generation: int, extend: Float, now: real) returns (r: Outcome)
      requires Valid()
      modifies db
      ensures Valid() && (db.State(), r) == Next(old(db.State()), Step.Heartbeat(id, worker, generation, extend, now))
    {
      StepKeepsRegistered(db.history, Step.Heartbeat(id, worker, generation, extend, now), registry.issued);
      r := db.Heartbeat(id, worker, generation, extend, now);
    }

    method CompleteTask(id: int, worker: string, generation: int, now: real) returns (r: Outcome)
      requires Valid()
      modifies db
      ensures Valid() && (db.State(), r) == Next(old(db.State()), Complete(id, worker, generation, now))
    {
      StepKeepsRegistered(db.history, Complete(id, worker, generation, now), registry.issued);
      r := db.CompleteTask(id, worker, generation, now);
    }

    method CompleteWithProjection(id: int, worker: string, generation: int, json: string, now: real)
      returns (r: Outcome)
      requires Valid()
      modifies db
      ensures Valid() && (db.State(), r) == Next(old(db.State()), CompleteWithResult(id, worker, generation, json, now))
    {
      StepKeepsRegistered(db.history, CompleteWithResult(id, worker, generation, json, now), registry.issued);
      r := db.CompleteWithProjection(id, worker, generation, json, now);
    }

    method FailTask(id: int, worker: string, generation: int, error: string, now: real) returns (r: Outcome)
      requires Valid()
      modifies db
      ensures Valid() && (db.State(), r) == Next(old(db.State()), Fail(id, worker, generation, error, now))
    {
      StepKeepsRegistered(db.history, Fail(id, worker, generation, error, now), registry.issued);
      r := db.FailTask(id, worker, generation, error, now);
    }

    method CancelTask(id: int, now: real) returns (r: Outcome)
      requires Valid()
      modifies db
      ensures Valid() && (db.State(), r) == Next(old(db.State()), Cancel(id, now))
    {
      StepKeepsRegistered(db.history, Cancel(id, now), registry.issued);
      r := db.CancelTask(id, now);
    }

    method RecoverExpiredLeases(now: real) returns (r: Outcome)
      requires Valid()
      modifies db
      ensures Valid() && (db.State(), r) == Next(old(db.State()), Recover(now))
    {
      StepKeepsRegistered(db.history, Recover(now), registry.issued);
      r := db.RecoverExpiredLeases(now);
    }

    method PruneToMax(keep: int) returns (r: Outcome, report: Retention)
      requires Valid()
      modifies db
      ensures Valid() && (db.State(), r) == Next(old(db.State()), Prune(keep))
    {
      StepKeepsRegistered(db.history, Prune(keep), registry.issued);
      r, report := db.PruneToMax(keep);
    }
  }

  /** Whatever has been called, no session holds more than its capacity, nor a task that it did not advertise. */
  lemma CapacityAtAllTimes(c: Coordinator, session: string)
    requires c.Valid() && session in c.registry.issued
    ensures |set x | x in c.db.tasks && (c.db.tasks[x].status == Assigned || c.db.tasks[x].status == Running)
                     && c.db.tasks[x].lockedBy == Some(session)| <= c.registry.issued[session].capacity
    ensures forall x | x in c.db.tasks && (c.db.tasks[x].status == Assigned || c.db.tasks[x].status == Running)
                       && c.db.tasks[x].lockedBy == Some(session) ::
              && c.db.tasks[x].order.kind == c.registry.issued[session].kind
              && c.db.tasks[x].order.name in c.registry.issued[session].taskNames
  {
    var run, n := c.db.history, |c.db.history.steps|;
    assert run.states[n] == c.db.State();
    CapacityIsNeverExceeded(run, n, c.registry.issued, session);
    forall id | id in c.db.tasks && (c.db.tasks[id].status == Assigned || c.db.tasks[id].status == Running)
                && c.db.tasks[id].lockedBy == Some(session)
      ensures Capable(c.db.tasks, c.registry.issued, id, session)
    {
      assert HoldsRow(run, n, session, id);
      HoldersAreCapable(run, n, c.registry.issued, session, id);
    }
  }
}
