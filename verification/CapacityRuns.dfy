/** Capacity and capability over whole runs in which every dispatch is a registered one. */
module CapacityRuns {
  import opened Tables
  import opened Ordering
  import opened Protocol
  import opened Runs
  import opened WorkerRegistry
  import opened Dispatch
  import opened RegisteredDispatch

  /** Each dispatch of the run is one that `DispatchRegistered` can carry out; session ids name one session for ever. */
  ghost predicate RegisteredOnly(run: Run, roster: map<string, Session>)
    requires Valid(run)
  {
    && (forall s | s in roster :: roster[s].capacity > 0)
    && forall i | 0 <= i < |run.steps| && run.steps[i].Dispatch? ::
         RegisteredPlan(run.states[i].tasks, run.steps[i].plan, run.steps[i].now, roster)
  }

  /** Registering more sessions does not invalidate earlier plans, so the final roster serves for the whole run. */
  lemma RosterGrows(tasks: map<int, Task>, plan: map<int, string>, now: real, roster: map<string, Session>,
                    more: map<string, Session>)
    requires RegisteredPlan(tasks, plan, now, roster)
    requires forall s | s in roster :: s in more && more[s] == roster[s]
    ensures RegisteredPlan(tasks, plan, now, more)
  {
    forall s | s in more && s !in roster ensures Planned(plan, s) == {} {
      forall id | id in plan ensures plan[id] != s {
        assert Capable(tasks, roster, id, plan[id]);
      }
    }
  }

  ghost predicate HoldsRow(run: Run, i: nat, session: string, id: int)
    requires Valid(run) && i <= |run.steps|
  {
    RowAt(run, i, id).task.Some? && Leased(RowAt(run, i, id).task.value.status)
    && RowAt(run, i, id).task.value.lockedBy == Some(session)
  }

  /** A session comes to hold a row only through a dispatch that plans the row for it. */
  lemma HeldGrowsByDispatch(run: Run, i: nat, session: string, id: int)
    requires Valid(run) && i < |run.steps| && HoldsRow(run, i + 1, session, id)
    ensures HoldsRow(run, i, session, id) || (run.steps[i].Dispatch? && id in Planned(run.steps[i].plan, session))
  {
    RowsAreOk(run, i, id);
    RunStep(run, i, id);
  }

  /** The order of a task never changes. */
  lemma OrdersAreFixed(run: Run, i: nat, id: int)
    requires Valid(run) && i < |run.steps| && RowAt(run, i, id).task.Some? && RowAt(run, i + 1, id).task.Some?
    ensures RowAt(run, i + 1, id).task.value.order == RowAt(run, i, id).task.value.order
  {
    RowsAreOk(run, i, id);
    RunStep(run, i, id);
  }

  /** No session ever holds more tasks, ASSIGNED and RUNNING together, than the capacity it registered with. */
  lemma {:induction false} CapacityIsNeverExceeded(run: Run, i: nat, roster: map<string, Session>, session: string)
    requires Valid(run) && i <= |run.steps| && RegisteredOnly(run, roster) && session in roster
    ensures var tasks := run.states[i].tasks;
            |set x | x in tasks && (tasks[x].status == Assigned || tasks[x].status == Running)
                     && tasks[x].lockedBy == Some(session)| <= roster[session].capacity
  {
    HeldMeans(run.states[i].tasks, session);
    if i == 0 {
      assert HeldBy(run.states[0].tasks, session) == {};
    } else {
      CapacityIsNeverExceeded(run, i - 1, roster, session);
      HeldMeans(run.states[i - 1].tasks, session);
      var before, after := HeldBy(run.states[i - 1].tasks, session), HeldBy(run.states[i].tasks, session);
      var step := run.steps[i - 1];
      var more := if step.Dispatch? then Planned(step.plan, session) else {};
      forall id | id in after ensures id in before + more {
        assert HoldsRow(run, i, session, id);
        HeldGrowsByDispatch(run, i - 1, session, id);
      }
      SubsetSize(after, before + more);
    }
  }

  /** Every leased task is held by a registered session of its type that advertises its name. */
  lemma {:induction false} HoldersAreCapable(run: Run, i: nat, roster: map<string, Session>, session: string, id: int)
    requires Valid(run) && i <= |run.steps| && RegisteredOnly(run, roster) && HoldsRow(run, i, session, id)
    ensures Capable(run.states[i].tasks, roster, id, session)
  {
    HeldGrowsByDispatch(run, i - 1, session, id);
    OrdersAreFixed(run, i - 1, id);
    if HoldsRow(run, i - 1, session, id) {
      HoldersAreCapable(run, i - 1, roster, session, id);
    }
  }
}
