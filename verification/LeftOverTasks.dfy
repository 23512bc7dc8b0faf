/** Which due tasks a registered dispatch leaves waiting, although a session that could take them has a free slot. */
module LeftOverTasks {
  import opened Tables
  import opened Ordering
  import opened WorkerRegistry
  import opened Dispatch
  import opened Matching
  import opened Sorting
  import opened RegisteredDispatch

  /** The wanted rows that are more urgent than this one: a larger priority, or the same and a smaller id. */
  ghost function MoreUrgent(tasks: map<int, Task>, kind: string, team: seq<DispatchWorker>, now: real,
                            id: int): set<int>
    requires id in tasks
  {
    set x | x in Wanted(tasks, kind, team, now)
            && (|| tasks[x].order.priority > tasks[id].order.priority
                || (tasks[x].order.priority == tasks[id].order.priority && x < id))
  }

  lemma ByRank(wanted: set<int>, window: seq<int>, before: set<int>, slots: nat, id: int)
    requires Distinct(window) && |window| == Min(slots, |wanted|) && id in wanted
    requires forall i | 0 <= i < |window| :: window[i] in wanted
    requires if id in window then forall x | x in before :: x in window && x != id
             else forall i | 0 <= i < |window| :: window[i] in before
    ensures id in window <==> |before| < slots
  {
    var taken := set x | x in window;
    DistinctCount(window);
    if id in window {
      SubsetSize(before, taken - {id});
      assert taken == taken - {id} + {id};
    } else {
      SubsetSize(taken, before);
      assert forall x | x in taken + {id} :: x in wanted;
      SubsetSize(taken + {id}, wanted);
    }
  }

  /** A window takes a row if and only if fewer rows are more urgent than the window has places. */
  lemma TakenByRank(tasks: map<int, Task>, kind: string, team: seq<DispatchWorker>, now: real, id: int)
    requires id in Wanted(tasks, kind, team, now)
    ensures id in Window(tasks, kind, team, now)
       <==> |MoreUrgent(tasks, kind, team, now, id)| < Min(Sum(SlotsIn(team)), I64_MAX)
  {
    var window, before := Window(tasks, kind, team, now), MoreUrgent(tasks, kind, team, now, id);
    WindowIsWindow(tasks, kind, team, now);
    if i :| 0 <= i < |window| && window[i] == id {
      forall x | x in before ensures x in window && x != id {
        assert x !in window ==> UrgentBefore(tasks, window[i], x);
      }
    } else {
      forall i | 0 <= i < |window| ensures window[i] in before {
        assert UrgentBefore(tasks, window[i], id);
      }
    }
    ByRank(Wanted(tasks, kind, team, now), window, before, Min(Sum(SlotsIn(team)), I64_MAX), id);
  }

  /** A due task, and a session of its type that advertises its name and has a slot free after the dispatch. */
  ghost predicate CouldTake(tasks: map<int, Task>, plan: map<int, string>, now: real, id: int, s: Session) {
    && id in tasks && Dispatchable(tasks[id], now)
    && tasks[id].order.kind == s.kind && tasks[id].order.name in s.taskNames
    && |HeldBy(tasks, s.id)| + |Planned(plan, s.id)| < s.capacity
  }

  /**
   * A due task that a session with a slot left could take is left over if and only if at least as many wanted tasks
   * of its type are more urgent as the sessions of the type have slots.
   */
  lemma LeftOverIffCrowdedOut(tasks: map<int, Task>, plan: map<int, string>, sessions: seq<Session>, now: real,
                                 roster: map<string, Session>, id: int, i: nat)
    requires WellDispatched(tasks, plan, sessions, now) && RegisteredPlan(tasks, plan, now, roster)
    requires i < |sessions| && sessions[i].id in roster && roster[sessions[i].id] == sessions[i]
    requires CouldTake(tasks, plan, now, id, sessions[i])
    ensures var kind := sessions[i].kind;
            var team := TeamFor(sessions, tasks, kind);
            id !in plan <==> |MoreUrgent(tasks, kind, team, now, id)| >= Min(Sum(SlotsIn(team)), I64_MAX)
  {
    var s := sessions[i];
    var team := TeamFor(sessions, tasks, s.kind);
    var j := InTeam(sessions, tasks, s.kind, i);
    assert team[j] in team && Advertised(team, tasks[id].order.name);
    assert ServesKind(tasks, plan, sessions, s.kind, now);
    PlannedOfKind(tasks, plan, now, roster, s);
    assert id in plan <==> id in Window(tasks, s.kind, team, now);
    TakenByRank(tasks, s.kind, team, now, id);
  }

  /** A session is only planned tasks of its type. */
  lemma PlannedOfKind(tasks: map<int, Task>, plan: map<int, string>, now: real, roster: map<string, Session>,
                      s: Session)
    requires RegisteredPlan(tasks, plan, now, roster) && s.id in roster && roster[s.id] == s
    ensures Planned(OfKind(tasks, plan, s.kind), s.id) == Planned(plan, s.id)
  {
    assert forall x :: x in Planned(OfKind(tasks, plan, s.kind), s.id) <==> x in Planned(plan, s.id);
  }

  // ----- a window that leaves a session idle -----

  function ExampleTask(name: string): Task {
    FreshTask(Order(name, "cpu", "", 0, 1), 0.0)
  }

  /** Two tasks x before a task y. */
  const EXAMPLE_TASKS: map<int, Task> := map[1 := ExampleTask("x"), 2 := ExampleTask("x"), 3 := ExampleTask("y")]

  /** One session for x and one for y, each with one slot. */
  const EXAMPLE_SESSIONS: seq<Session> :=
    [Session("A", "a", "cpu", 1, ["x"]), Session("B", "b", "cpu", 1, ["y"])]

  lemma ExampleTeam()
    ensures TeamFor(EXAMPLE_SESSIONS, EXAMPLE_TASKS, "cpu")
         == [DispatchWorker("A", 1, ["x"]), DispatchWorker("B", 1, ["y"])]
  {
    assert HeldBy(EXAMPLE_TASKS, "A") == {} && HeldBy(EXAMPLE_TASKS, "B") == {};
    assert EXAMPLE_SESSIONS[..1][..0] == [];
    assert TeamFor(EXAMPLE_SESSIONS[..1], EXAMPLE_TASKS, "cpu") == [DispatchWorker("A", 1, ["x"])];
  }

  /** The window has two places, and both go to the tasks x. */
  lemma ExampleWindow()
    ensures 3 !in Window(EXAMPLE_TASKS, "cpu", TeamFor(EXAMPLE_SESSIONS, EXAMPLE_TASKS, "cpu"), 0.0)
  {
    var team := TeamFor(EXAMPLE_SESSIONS, EXAMPLE_TASKS, "cpu");
    ExampleTeam();
    assert SlotsIn(team)[..1] == [1] && SlotsIn(team)[..1][..0] == [] && SaturatingSum([1]) == 1;
    assert FreeSlots(team) == 2;
    assert team[0] in team && team[1] in team;
    assert Advertised(team, "x") && Advertised(team, "y");
    var keys := ByPriority(EXAMPLE_TASKS, EligibleIds(EXAMPLE_TASKS, "cpu", team, 0.0));
    assert 1 in keys && 2 in keys && 3 in keys && keys[1] == keys[2] == keys[3];
    var window := Take(keys, 2);
    DistinctCount(window);
    assert |{1, 2, 3}| == 3;
    if i :| 0 <= i < |window| && window[i] == 3 {
      assert 1 in window && 2 in window;
      SubsetSize({1, 2, 3}, set x | x in window);
    }
  }

  lemma ExampleWaits(plan: map<int, string>)
    requires WellDispatched(EXAMPLE_TASKS, plan, EXAMPLE_SESSIONS, 0.0)
    ensures 3 !in plan
  {
    ExampleWindow();
    assert ServesKind(EXAMPLE_TASKS, plan, EXAMPLE_SESSIONS, "cpu", 0.0);
    assert 3 !in OfKind(EXAMPLE_TASKS, plan, "cpu");
  }

  lemma ExampleIdle(plan: map<int, string>, roster: map<string, Session>)
    requires RegisteredPlan(EXAMPLE_TASKS, plan, 0.0, roster) && 3 !in plan
    requires "B" in roster && roster["B"] == EXAMPLE_SESSIONS[1]
    ensures Planned(plan, "B") == {}
  {
    forall id | id in plan ensures plan[id] != "B" {
      assert Capable(EXAMPLE_TASKS, roster, id, plan[id]);
    }
    assert forall id :: id !in Planned(plan, "B");
  }

  /** Task 3 waits although session B, which is there for it, stays idle. */
  lemma FullWindowLeavesSessionIdle(plan: map<int, string>, roster: map<string, Session>)
    requires WellDispatched(EXAMPLE_TASKS, plan, EXAMPLE_SESSIONS, 0.0)
    requires RegisteredPlan(EXAMPLE_TASKS, plan, 0.0, roster)
    requires "B" in roster && roster["B"] == EXAMPLE_SESSIONS[1]
    ensures 3 !in plan && Planned(plan, "B") == {} && CouldTake(EXAMPLE_TASKS, plan, 0.0, 3, EXAMPLE_SESSIONS[1])
  {
    ExampleWaits(plan);
    ExampleIdle(plan, roster);
    assert HeldBy(EXAMPLE_TASKS, "B") == {};
  }
}
