/** What pruning keeps, for any database, and what it leaves behind in the child tables. */
module Retention {
  import opened Tables
  import opened Ordering
  import opened Protocol
  import opened RowView
  import opened Runs
  import opened IdempotencyRuns

  /** The terminal rows that come after `id` in age order. */
  ghost function Younger(tasks: map<int, Task>, id: int): set<int>
    requires id in tasks
  {
    set j | j in tasks
            && (tasks[j].status == Completed || tasks[j].status == Failed || tasks[j].status == Cancelled)
            && (tasks[j].updatedAt > tasks[id].updatedAt || (tasks[j].updatedAt == tasks[id].updatedAt && j > id))
  }

  /**
   * Once the oldest rows are gone and `keep` are left, a row is left if and only if fewer than `keep` come after it.
   */
  lemma RankDecides(keys: map<int, real>, gone: set<int>, keep: nat, id: int)
    requires gone <= keys.Keys && |gone| + keep == |keys| && id in keys
    requires forall elder, young | elder in gone && young in keys && young !in gone :: Precedes(keys, elder, young)
    ensures id !in gone <==> |set j | j in keys && Precedes(keys, id, j)| < keep
  {
    var after := set j | j in keys && Precedes(keys, id, j);
    var kept := keys.Keys - gone;
    assert keys.Keys == kept + gone;
    if id in gone {
      assert forall j | j in kept :: j in after;
      SubsetSize(kept, after);
    } else {
      assert forall j | j in after :: j in kept - {id};
      assert kept == kept - {id} + {id};
      SubsetSize(after, kept - {id});
    }
  }

  lemma YoungerFollow(tasks: map<int, Task>, id: int)
    requires id in TerminalByAge(tasks)
    ensures Younger(tasks, id) == set j | j in TerminalByAge(tasks) && Precedes(TerminalByAge(tasks), id, j)
  {
    var after := set j | j in TerminalByAge(tasks) && Precedes(TerminalByAge(tasks), id, j);
    assert forall j :: j in Younger(tasks, id) <==> j in after;
  }

  lemma DoomedComeFirst(tasks: map<int, Task>, count: nat)
    requires count <= |TerminalByAge(tasks)|
    ensures |Doomed(tasks, count)| == count && Doomed(tasks, count) <= TerminalByAge(tasks).Keys
    ensures forall elder, young | elder in Doomed(tasks, count)
                                  && young in TerminalByAge(tasks) && young !in Doomed(tasks, count) ::
              Precedes(TerminalByAge(tasks), elder, young)
  {
    DoomedAreOldest(tasks, count);
  }

  /** A terminal row survives if and only if fewer than `keep` terminal rows are younger than it. */
  lemma SurvivorsAreTheYoungest(db: Db, keep: int, id: int)
    requires keep > 0 && id in db.tasks && Terminal(db.tasks[id].status)
    ensures id in Next(db, Prune(keep)).0.tasks <==> |Younger(db.tasks, id)| < keep
  {
    var all, younger := TerminalByAge(db.tasks), Younger(db.tasks, id);
    YoungerFollow(db.tasks, id);
    if |all| <= keep {
      assert all.Keys == all.Keys - {id} + {id};
      assert forall j | j in younger :: j in all.Keys - {id};
      SubsetSize(younger, all.Keys - {id});
    } else {
      DoomedComeFirst(db.tasks, |all| - keep);
      RankDecides(all, Doomed(db.tasks, |all| - keep), keep, id);
    }
  }

  /** Pruning does nothing but remove: rows that stay are untouched, and active rows stay. */
  lemma PruningOnlyRemovesTerminalRows(db: Db, keep: int)
    requires keep > 0
    ensures var after := Next(db, Prune(keep)).0;
            && (forall id | id in db.tasks && !Terminal(db.tasks[id].status) :: id in after.tasks)
            && (forall id | id in after.tasks :: id in db.tasks && after.tasks[id] == db.tasks[id])
  {
    if |TerminalByAge(db.tasks)| > keep {
      DoomedAreOldest(db.tasks, |TerminalByAge(db.tasks)| - keep);
    }
  }

  lemma DoomedCount(tasks: map<int, Task>, count: nat)
    requires count <= |TerminalByAge(tasks)|
    ensures |Doomed(tasks, count)| == count && Doomed(tasks, count) <= TerminalByAge(tasks).Keys
  {
    DoomedAreOldest(tasks, count);
  }

  /** min(keep, n) of the n terminal rows are left. */
  lemma PruningLeavesKeep(db: Db, keep: int)
    requires keep > 0
    ensures |TerminalByAge(Next(db, Prune(keep)).0.tasks)| == Min(keep, |TerminalByAge(db.tasks)|)
  {
    var all := TerminalByAge(db.tasks);
    if |all| > keep {
      DoomedCount(db.tasks, |all| - keep);
      RemovedCount(db.tasks, Doomed(db.tasks, |all| - keep));
    }
  }

  lemma RemovedCount(tasks: map<int, Task>, gone: set<int>)
    requires gone <= TerminalByAge(tasks).Keys
    ensures |TerminalByAge(tasks - gone)| == |TerminalByAge(tasks)| - |gone|
  {
    var all := TerminalByAge(tasks);
    assert TerminalByAge(tasks - gone).Keys == all.Keys - gone;
    assert all.Keys == all.Keys - gone + gone;
  }

  /** The rows of the three child tables go with their task, and only those. */
  lemma ChildRowsFollowTheirTask(run: Run, i: nat, id: int, key: string)
    requires Valid(run) && i < |run.steps| && run.steps[i].Prune? && run.steps[i].keep > 0
    requires RowAt(run, i, id).task.Some?
    ensures var before, after := RowAt(run, i, id), RowAt(run, i + 1, id);
            if id in run.states[i + 1].tasks then after == before else after == NoRow
    ensures KeyAt(run, i, key).Some? ==>
              KeyAt(run, i + 1, key) ==
              if KeyAt(run, i, key).value.taskId in run.states[i + 1].tasks then KeyAt(run, i, key) else None
  {
    RunStep(run, i, id);
    KeyStep(run, i, key);
    if KeyAt(run, i, key).Some? {
      KeysReferToRows(run, i, key);
      RunStep(run, i, KeyAt(run, i, key).value.taskId);
    }
  }

  /** Pruning twice to the same bound is pruning once. */
  lemma PruningIsIdempotent(db: Db, keep: int)
    ensures var once := Next(db, Prune(keep)).0;
            && Next(once, Prune(keep)).0 == once
            && (keep > 0 ==> Next(once, Prune(keep)).1 == Pruned({}, {}, {}, {}))
  {
    if keep > 0 {
      PruningLeavesKeep(db, keep);
    }
  }
}
