/** The two dispatchers: choose due tasks, round a transport plan over them and lease the tasks to workers. */
module Dispatch {
  import opened Tables
  import opened Ordering
  import opened Protocol
  import opened TaskStore
  import opened Matching
  import opened Rounding
  import opened Sorting

  // ----- from an assignment of indices to a plan on row ids -----

  function PlanOf(ids: seq<int>, workers: seq<string>, a: seq<int>): map<int, string>
    requires |ids| == |a| && IsAssignment(a, |workers|)
  {
    if a == [] then map[]
    else
      var n := |a| - 1;
      var plan := PlanOf(ids[..n], workers, a[..n]);
      if a[n] >= 0 then plan[ids[n] := workers[a[n]]] else plan
  }

  lemma {:induction false} PlanOfEntry(ids: seq<int>, workers: seq<string>, a: seq<int>, id: int)
    requires |ids| == |a| && IsAssignment(a, |workers|) && id in PlanOf(ids, workers, a)
    ensures exists k :: 0 <= k < |a| && ids[k] == id && a[k] >= 0 && PlanOf(ids, workers, a)[id] == workers[a[k]]
  {
    var n := |a| - 1;
    if a[n] >= 0 && ids[n] == id {
    } else {
      PlanOfEntry(ids[..n], workers, a[..n], id);
      var before := PlanOf(ids[..n], workers, a[..n]);
      var k :| 0 <= k < n && ids[..n][k] == id && a[..n][k] >= 0 && before[id] == workers[a[..n][k]];
      assert ids[k] == id && a[k] >= 0;
    }
  }

  /** The rows a plan gives to a worker. */
  ghost function Planned(plan: map<int, string>, worker: string): set<int> {
    set id | id in plan && plan[id] == worker
  }

  lemma {:induction false} PlanOfHas(ids: seq<int>, workers: seq<string>, a: seq<int>, k: nat)
    requires |ids| == |a| && IsAssignment(a, |workers|) && Distinct(ids) && k < |a| && a[k] >= 0
    ensures ids[k] in PlanOf(ids, workers, a) && PlanOf(ids, workers, a)[ids[k]] == workers[a[k]]
  {
    var n := |a| - 1;
    if k < n {
      PlanOfHas(ids[..n], workers, a[..n], k);
    }
  }

  /** The last id of a window is new to the plan of the others. */
  lemma LastIsNew(ids: seq<int>, workers: seq<string>, a: seq<int>)
    requires |ids| == |a| && IsAssignment(a, |workers|) && Distinct(ids) && a != []
    ensures ids[|a| - 1] !in PlanOf(ids[..|a| - 1], workers, a[..|a| - 1])
  {
    var n := |a| - 1;
    if ids[n] in PlanOf(ids[..n], workers, a[..n]) {
      PlanOfEntry(ids[..n], workers, a[..n], ids[n]);
    }
  }

  lemma {:induction false} PlanOfCount(ids: seq<int>, workers: seq<string>, a: seq<int>, j: nat)
    requires |ids| == |a| && IsAssignment(a, |workers|) && Distinct(ids) && j < |workers|
    requires forall k, l | 0 <= k < l < |workers| :: workers[k] != workers[l]
    ensures |Planned(PlanOf(ids, workers, a), workers[j])| == Count(a, j)
  {
    if a != [] {
      var n := |a| - 1;
      PlanOfCount(ids[..n], workers, a[..n], j);
      LastIsNew(ids, workers, a);
      PlannedMore(PlanOf(ids[..n], workers, a[..n]), ids[n], workers[j]);
      if a[n] >= 0 && a[n] != j {
        assert workers[a[n]] != workers[j];
        PlannedElse(PlanOf(ids[..n], workers, a[..n]), ids[n], workers[a[n]], workers[j]);
      }
    }
  }

  lemma PlannedMore(plan: map<int, string>, id: int, w: string)
    requires id !in plan
    ensures |Planned(plan[id := w], w)| == |Planned(plan, w)| + 1
  {
    assert forall x :: x in Planned(plan[id := w], w) <==> x in Planned(plan, w) || x == id;
    assert Planned(plan[id := w], w) == Planned(plan, w) + {id};
  }

  lemma PlannedElse(plan: map<int, string>, id: int, v: string, w: string)
    requires id !in plan && v != w
    ensures Planned(plan[id := v], w) == Planned(plan, w)
  {
    assert forall x :: x in Planned(plan[id := v], w) <==> x in Planned(plan, w);
  }

  function IndexOf(workers: seq<string>, w: string): (j: int)
    ensures -1 <= j < |workers|
    ensures if w in workers then j >= 0 && workers[j] == w else j == -1
  {
    if workers == [] then -1
    else if workers[|workers| - 1] == w then |workers| - 1
    else
      assert workers == workers[..|workers| - 1] + [workers[|workers| - 1]];
      IndexOf(workers[..|workers| - 1], w)
  }

  /** Every plan on the window comes from an assignment of its indices. */
  lemma AssignmentOf(ids: seq<int>, workers: seq<string>, plan: map<int, string>) returns (a: seq<int>)
    requires Distinct(ids) && forall id | id in plan :: id in ids && plan[id] in workers
    ensures |a| == |ids| && IsAssignment(a, |workers|) && PlanOf(ids, workers, a) == plan
    ensures forall k | 0 <= k < |a| && a[k] >= 0 :: ids[k] in plan && plan[ids[k]] == workers[a[k]]
  {
    a := seq(|ids|, k requires 0 <= k < |ids| => if ids[k] in plan then IndexOf(workers, plan[ids[k]]) else -1);
    var made := PlanOf(ids, workers, a);
    forall id | id in plan ensures id in made && made[id] == plan[id] {
      var k :| 0 <= k < |ids| && ids[k] == id;
      PlanOfHas(ids, workers, a, k);
    }
    forall id | id in made ensures id in plan {
      PlanOfEntry(ids, workers, a, id);
    }
  }

  lemma {:induction false} PlanOfSize(ids: seq<int>, workers: seq<string>, a: seq<int>)
    requires |ids| == |a| && IsAssignment(a, |workers|) && Distinct(ids)
    ensures |PlanOf(ids, workers, a)| == Served(a)
  {
    if a != [] {
      var n := |a| - 1;
      PlanOfSize(ids[..n], workers, a[..n]);
      var before := PlanOf(ids[..n], workers, a[..n]);
      LastIsNew(ids, workers, a);
      assert a[n] >= 0 ==> PlanOf(ids, workers, a).Keys == before.Keys + {ids[n]};
    }
  }

  /** The UPDATE loop shared by both dispatchers: the selected rows are PENDING, and each is written once. */
  method Lease(db: Database, ids: seq<int>, workers: seq<string>, a: array<int>, until: real, now: real)
    requires a.Length == |ids| && IsAssignment(a[..], |workers|) && Distinct(ids)
    requires forall k | 0 <= k < |ids| :: ids[k] in db.tasks && Dispatchable(db.tasks[ids[k]], now)
    modifies db`tasks
    ensures db.tasks == Assign(old(db.tasks), PlanOf(ids, workers, a[..]), until, now)
  {
    ghost var start := db.tasks;
    assert db.tasks == Assign(db.tasks, PlanOf(ids[..0], workers, a[..0]), until, now);
    for i := 0 to |ids|
      invariant db.tasks == Assign(start, PlanOf(ids[..i], workers, a[..i]), until, now)
    {
      ghost var plan := PlanOf(ids[..i], workers, a[..i]);
      assert ids[..i + 1][..i] == ids[..i] && a[..i + 1][..i] == a[..i];
      if ids[i] in plan {
        PlanOfEntry(ids[..i], workers, a[..i], ids[i]);
      }
      assert ids[i] in ids && ids[i] !in plan;
      assert ids[i] in start && Dispatchable(start[ids[i]], now);
      if a[i] >= 0 {
        var t := db.tasks[ids[i]];
        db.tasks := db.tasks[ids[i] := t.(status := Assigned, lockedBy := Some(workers[a[i]]),
                                          lockedUntil := Some(until), heartbeatAt := Some(now), updatedAt := now)];
        assert db.tasks == Assign(start, plan[ids[i] := workers[a[i]]], until, now);
      }
    }
    assert ids[..|ids|] == ids && a[..|ids|] == a[..];
  }

  // ----- dispatch to caller-supplied slots -----

  datatype WorkerDescriptor = WorkerDescriptor(worker: string, kind: string, slots: int)

  /** A sum of slots, saturating like i64. */
  function SaturatingSum(slots: seq<nat>): nat {
    if slots == [] then 0 else Min(SaturatingSum(slots[..|slots| - 1]) + slots[|slots| - 1], I64_MAX)
  }

  lemma {:induction false} SaturatingSumIsMin(slots: seq<nat>)
    ensures SaturatingSum(slots) == Min(Sum(slots), I64_MAX)
  {
    if slots != [] {
      SaturatingSumIsMin(slots[..|slots| - 1]);
    }
  }

  /** A lease lasts as long as asked for, if that is a positive number, and otherwise as long as the default. */
  function LeaseSeconds(lease: Float, default: real): (seconds: real)
    ensures lease == Finite(seconds) || seconds == default
    ensures lease.Finite? && lease.value > 0.0 ==> seconds == lease.value
    ensures default > 0.0 ==> seconds > 0.0
  {
    if lease.Finite? && lease.value > 0.0 then lease.value else default
  }

  function DueIds(tasks: map<int, Task>, now: real): set<int> {
    set id | id in tasks && Dispatchable(tasks[id], now)
  }

  /** The planned rows were PENDING and due and are leased to their workers; every other row is as it was. */
  ghost predicate RowsLeased(before: map<int, Task>, after: map<int, Task>, plan: map<int, string>, until: real,
                             now: real) {
    && after.Keys == before.Keys
    && (forall id | id in plan ::
          && id in before && before[id].status == Pending && before[id].scheduledAt <= now
          && after[id] == before[id].(status := Assigned, lockedBy := Some(plan[id]), lockedUntil := Some(until),
                                      heartbeatAt := Some(now), updatedAt := now))
    && (forall id | id in before && id !in plan :: after[id] == before[id])
  }

  lemma PlanIsLeased(tasks: map<int, Task>, plan: map<int, string>, until: real, now: real)
    requires forall id | id in plan :: id in tasks && Dispatchable(tasks[id], now)
    ensures RowsLeased(tasks, Assign(tasks, plan, until, now), plan, until, now)
  {
  }

  /** The PENDING rows that are due. */
  ghost function Waiting(tasks: map<int, Task>, now: real): set<int> {
    set x | x in tasks && tasks[x].status == Pending && tasks[x].scheduledAt <= now
  }

  /** The plan takes as many of the waiting rows as it can, larger priorities first and then smaller ids. */
  ghost predicate MostUrgentWaiting(tasks: map<int, Task>, plan: map<int, string>, limit: nat, now: real) {
    var waiting := Waiting(tasks, now);
    && |plan| == Min(|waiting|, limit)
    && (forall x | x in plan :: x in waiting)
    && forall x, y | x in plan && y in waiting && y !in plan ::
         || tasks[x].order.priority > tasks[y].order.priority
         || (tasks[x].order.priority == tasks[y].order.priority && x < y)
  }

  method SelectDue(db: Database, ids: set<int>, limit: nat, now: real) returns (window: seq<int>)
    requires forall id | id in ids :: id in db.tasks && Dispatchable(db.tasks[id], now)
    ensures forall id | id in window :: id in ids
    ensures Distinct(window) && |window| == Min(limit, |ids|)
    ensures window == Take(ByPriority(db.tasks, ids), limit)
  {
    assert forall id | id in ids :: id in db.tasks.Keys;
    var keys := ByPriority(db.tasks, ids);
    assert keys.Keys == ids;
    window := Query(keys, limit);
  }

  /** The descriptors with slots to offer. */
  function Active(workers: seq<WorkerDescriptor>): (active: seq<WorkerDescriptor>)
    ensures forall i | 0 <= i < |active| :: active[i].slots > 0
  {
    if workers == [] then []
    else Active(workers[..|workers| - 1]) + if workers[|workers| - 1].slots > 0 then [workers[|workers| - 1]] else []
  }

  /** The slots on offer; a descriptor with none, or a negative number, offers nothing. */
  function Offered(workers: seq<WorkerDescriptor>): nat {
    var n := |workers| - 1;
    if workers == [] then 0 else Offered(workers[..n]) + if workers[n].slots > 0 then workers[n].slots else 0
  }

  function SlotsOf(active: seq<WorkerDescriptor>): (slots: seq<nat>)
    requires forall i | 0 <= i < |active| :: active[i].slots > 0
    ensures Slots(slots) == slots
  {
    seq(|active|, i requires 0 <= i < |active| => active[i].slots)
  }

  lemma {:induction false} ActiveOfferAll(workers: seq<WorkerDescriptor>)
    ensures Sum(SlotsOf(Active(workers))) == Offered(workers)
  {
    if workers != [] {
      var n := |workers| - 1;
      ActiveOfferAll(workers[..n]);
      if workers[n].slots > 0 {
        assert SlotsOf(Active(workers))[..|Active(workers)| - 1] == SlotsOf(Active(workers[..n]));
      } else {
        assert Active(workers) == Active(workers[..n]);
      }
    }
  }

  // ----- who gets how many -----

  /** How many tasks the assignment gives to workers of this name; a name may occur more than once. */
  function CountNamed(a: seq<int>, names: seq<string>, w: string): nat
    requires IsAssignment(a, |names|)
  {
    var n := |a| - 1;
    if a == [] then 0 else CountNamed(a[..n], names, w) + if a[n] >= 0 && names[a[n]] == w then 1 else 0
  }

  /** The same, counted by the first `m` workers. */
  function CountByWorker(a: seq<int>, names: seq<string>, w: string, m: nat): nat
    requires m <= |names|
  {
    if m == 0 then 0 else CountByWorker(a, names, w, m - 1) + if names[m - 1] == w then Count(a, m - 1) else 0
  }

  lemma {:induction false} CountByWorkerStep(a: seq<int>, names: seq<string>, w: string, m: nat)
    requires a != [] && IsAssignment(a, |names|) && m <= |names|
    ensures CountByWorker(a, names, w, m) == CountByWorker(a[..|a| - 1], names, w, m)
            + if 0 <= a[|a| - 1] < m && names[a[|a| - 1]] == w then 1 else 0
  {
    if m > 0 {
      CountByWorkerStep(a, names, w, m - 1);
    }
  }

  lemma {:induction false} CountedByWorker(a: seq<int>, names: seq<string>, w: string)
    requires IsAssignment(a, |names|)
    ensures CountNamed(a, names, w) == CountByWorker(a, names, w, |names|)
  {
    if a == [] {
      NothingByWorker(names, w, |names|);
    } else {
      CountedByWorker(a[..|a| - 1], names, w);
      CountByWorkerStep(a, names, w, |names|);
    }
  }

  lemma {:induction false} NothingByWorker(names: seq<string>, w: string, m: nat)
    requires m <= |names|
    ensures CountByWorker([], names, w, m) == 0
  {
    if m > 0 {
      NothingByWorker(names, w, m - 1);
    }
  }

  lemma {:induction false} PlannedAtMost(ids: seq<int>, names: seq<string>, a: seq<int>, w: string)
    requires |ids| == |a| && IsAssignment(a, |names|)
    ensures |Planned(PlanOf(ids, names, a), w)| <= CountNamed(a, names, w)
  {
    if a != [] {
      var n := |a| - 1;
      PlannedAtMost(ids[..n], names, a[..n], w);
      var before, after := Planned(PlanOf(ids[..n], names, a[..n]), w), Planned(PlanOf(ids, names, a), w);
      SubsetSize(after, before + if a[n] >= 0 && names[a[n]] == w then {ids[n]} else {});
    }
  }

  /** The slots on offer under a name. */
  function OfferedBy(workers: seq<WorkerDescriptor>, w: string): nat {
    var n := |workers| - 1;
    if workers == [] then 0
    else OfferedBy(workers[..n], w) + if workers[n].slots > 0 && workers[n].worker == w then workers[n].slots else 0
  }

  function NamesOf(active: seq<WorkerDescriptor>): seq<string> {
    seq(|active|, i requires 0 <= i < |active| => active[i].worker)
  }

  lemma {:induction false} SlotsByName(active: seq<WorkerDescriptor>, a: seq<int>, w: string, m: nat)
    requires m <= |active| && forall j | 0 <= j < |active| :: active[j].slots > 0 && Count(a, j) <= active[j].slots
    ensures CountByWorker(a, NamesOf(active), w, m) <= OfferedBy(active[..m], w)
  {
    if m > 0 {
      SlotsByName(active, a, w, m - 1);
      assert active[..m][..m - 1] == active[..m - 1];
    }
  }

  lemma {:induction false} ActiveOfferTheSame(workers: seq<WorkerDescriptor>, w: string)
    ensures OfferedBy(Active(workers), w) == OfferedBy(workers, w)
  {
    if workers != [] {
      var n := |workers| - 1;
      ActiveOfferTheSame(workers[..n], w);
      if workers[n].slots > 0 {
        assert Active(workers)[..|Active(workers)| - 1] == Active(workers[..n]);
      } else {
        assert Active(workers) == Active(workers[..n]);
      }
    }
  }

  /** No name gets more tasks than the slots offered under it. */
  lemma NamesWithinOffer(workers: seq<WorkerDescriptor>, ids: seq<int>, a: seq<int>, w: string)
    requires |ids| == |a| && IsAssignment(a, |Active(workers)|)
    requires forall j | 0 <= j < |Active(workers)| :: Count(a, j) <= Active(workers)[j].slots
    ensures |Planned(PlanOf(ids, NamesOf(Active(workers)), a), w)| <= OfferedBy(workers, w)
  {
    var active := Active(workers);
    PlannedAtMost(ids, NamesOf(active), a, w);
    CountedByWorker(a, NamesOf(active), w);
    SlotsByName(active, a, w, |active|);
    assert active[..|active|] == active;
    ActiveOfferTheSame(workers, w);
  }

  /** The window of the most urgent due tasks and a row of slots for each; `score` stands for the Sinkhorn plan. */
  method PlanBatch(db: Database, workers: seq<WorkerDescriptor>, score: (int, int) -> Float, now: real)
    returns (window: seq<int>, names: seq<string>, a: array<int>)
    ensures fresh(a) && a.Length == |window| && IsAssignment(a[..], |names|) && Distinct(window)
    ensures names == NamesOf(Active(workers))
    ensures forall j | 0 <= j < |names| :: Count(a[..], j) <= Active(workers)[j].slots
    ensures forall k | 0 <= k < |window| :: window[k] in db.tasks && Dispatchable(db.tasks[window[k]], now)
    ensures MostUrgentWaiting(db.tasks, PlanOf(window, names, a[..]), Min(Offered(workers), I64_MAX), now)
  {
    var active := Active(workers);
    var slots := SlotsOf(active);
    ActiveOfferAll(workers);
    SaturatingSumIsMin(slots);
    window := SelectDue(db, DueIds(db.tasks, now), SaturatingSum(slots), now);
    assert forall k | 0 <= k < |window| :: window[k] in window;
    a := RoundUnrestricted(Matrix(|window|, |slots|, score), slots);
    names := NamesOf(active);
    PlanOfSize(window, names, a[..]);
    PlanOfWindow(window, names, a[..]);
    WholeWindow(db.tasks, Min(Offered(workers), I64_MAX), PlanOf(window, names, a[..]), now);
  }

  method LeaseBatch(db: Database, workers: seq<WorkerDescriptor>, until: real, score: (int, int) -> Float, now: real)
    returns (plan: map<int, string>)
    requires db.Recorded()
    modifies db`tasks, db`history
    ensures (db.State(), Dispatched) == Next(old(db.State()), Step.Dispatch(plan, until, now))
    ensures db.Recorded() && db.history == Extended(old(db.history), Step.Dispatch(plan, until, now))
    ensures RowsLeased(old(db.tasks), db.tasks, plan, until, now)
    ensures MostUrgentWaiting(old(db.tasks), plan, Min(Offered(workers), I64_MAX), now)
    ensures forall w :: |Planned(plan, w)| <= OfferedBy(workers, w)
  {
    var window, names, a := PlanBatch(db, workers, score, now);
    plan := PlanOf(window, names, a[..]);
    forall w ensures |Planned(plan, w)| <= OfferedBy(workers, w) {
      NamesWithinOffer(workers, window, a[..], w);
    }
    PlanIsLeased(db.tasks, plan, until, now);
    Lease(db, window, names, a, until, now);
    DispatchStep(old(db.State()), db.State(), plan, until, now);
    db.Record(Step.Dispatch(plan, until, now));
  }

  /**
   * `dispatch_batch`: exactly min(due tasks, offered slots) tasks are leased, and they are the most urgent due
   * ones, however the plan scores them; no worker gets more than the slots offered under its name.
   */
  method DispatchBatch(db: Database, workers: seq<WorkerDescriptor>, lease: Float, score: (int, int) -> Float,
                       now: real)
    returns (plan: map<int, string>)
    requires db.Recorded()
    modifies db`tasks, db`history
    ensures db.Recorded()
    ensures db.history == Extended(old(db.history), Step.Dispatch(plan, now + LeaseSeconds(lease, 10.0), now))
    ensures RowsLeased(old(db.tasks), db.tasks, plan, now + LeaseSeconds(lease, 10.0), now)
    ensures MostUrgentWaiting(old(db.tasks), plan, Min(Offered(workers), I64_MAX), now)
    ensures forall w :: |Planned(plan, w)| <= OfferedBy(workers, w)
  {
    var until := now + LeaseSeconds(lease, 10.0);
    plan := LeaseBatch(db, workers, until, score, now);
  }

  /** A plan with as many tasks as its window takes the most urgent tasks. */
  lemma WholeWindow(tasks: map<int, Task>, limit: nat, plan: map<int, string>, now: real)
    requires var window := Take(ByPriority(tasks, DueIds(tasks, now)), limit);
             |plan| == |window| && forall id | id in plan :: id in window
    ensures MostUrgentWaiting(tasks, plan, limit, now)
  {
    var due := DueIds(tasks, now);
    assert forall x :: x in due <==> x in Waiting(tasks, now);
    assert due == Waiting(tasks, now);
    TakenIsMoreUrgent(tasks, due, limit);
    AllPlanned(Take(ByPriority(tasks, due), limit), plan);
  }

  lemma AllPlanned(window: seq<int>, plan: map<int, string>)
    requires Distinct(window) && (forall id | id in plan :: id in window) && |plan| == |window|
    ensures forall id | id in window :: id in plan
  {
    DistinctCount(window);
    var ids := set id | id in window;
    var rest := ids - plan.Keys;
    assert forall id :: id in ids <==> id in plan.Keys + rest;
    assert ids == plan.Keys + rest;
    assert |plan.Keys| == |plan| && rest == {};
    forall id | id in window ensures id in plan {
      assert id in ids && id !in rest;
    }
  }

  lemma DispatchStep(before: Db, after: Db, plan: map<int, string>, until: real, now: real)
    requires after == before.(tasks := Assign(before.tasks, plan, until, now))
    ensures (after, Dispatched) == Next(before, Step.Dispatch(plan, until, now))
  {
  }

  lemma PlanOfWindow(ids: seq<int>, workers: seq<string>, a: seq<int>)
    requires |ids| == |a| && IsAssignment(a, |workers|)
    ensures forall id | id in PlanOf(ids, workers, a) :: id in ids
  {
    forall id | id in PlanOf(ids, workers, a) ensures id in ids {
      PlanOfEntry(ids, workers, a, id);
    }
  }
}
