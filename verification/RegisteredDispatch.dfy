/** `dispatch_registered`: lease due tasks to live sessions of their type that advertise their name. */
module RegisteredDispatch {
  import opened Tables
  import opened Ordering
  import opened Protocol
  import opened TaskStore
  import opened Matching
  import opened Rounding
  import opened Sorting
  import opened Lexicographic
  import opened WorkerRegistry
  import opened Dispatch

  datatype DispatchWorker = DispatchWorker(session: string, slots: nat, names: seq<string>)

  /** The rows a session holds. */
  function HeldBy(tasks: map<int, Task>, session: string): set<int> {
    set id | id in tasks && Leased(tasks[id].status) && tasks[id].lockedBy == Some(session)
  }

  lemma HeldMeans(tasks: map<int, Task>, session: string)
    ensures HeldBy(tasks, session)
         == set x | x in tasks && (tasks[x].status == Assigned || tasks[x].status == Running)
                    && tasks[x].lockedBy == Some(session)
  {
    var held := set x | x in tasks && (tasks[x].status == Assigned || tasks[x].status == Running)
                        && tasks[x].lockedBy == Some(session);
    assert forall x :: x in HeldBy(tasks, session) <==> x in held;
  }

  predicate Offers(tasks: map<int, Task>, id: int, kind: string, w: DispatchWorker) {
    id in tasks && tasks[id].order.kind == kind && tasks[id].order.name in w.names
  }

  /** A plan row goes to a session of the task's type that advertises the task's name. */
  ghost predicate Capable(tasks: map<int, Task>, roster: map<string, Session>, id: int, session: string) {
    && id in tasks && session in roster
    && tasks[id].order.kind == roster[session].kind && tasks[id].order.name in roster[session].taskNames
  }

  /** What registered dispatch promises about the plan it carries out. */
  ghost predicate RegisteredPlan(tasks: map<int, Task>, plan: map<int, string>, now: real,
                                 roster: map<string, Session>) {
    && (forall id | id in plan :: Capable(tasks, roster, id, plan[id]) && Dispatchable(tasks[id], now))
    && (forall s | s in roster ::
          Planned(plan, s) == {} || |Planned(plan, s)| + |HeldBy(tasks, s)| <= roster[s].capacity)
  }

  // ----- one task type -----

  ghost predicate IsTeam(workers: seq<DispatchWorker>) {
    && (forall j | 0 <= j < |workers| :: Ascending(ByteOrder(), workers[j].names))
    && (forall j, k | 0 <= j < k < |workers| :: workers[j].session != workers[k].session)
  }

  /** Which worker supports which task of the window, by binary search in its sorted names. */
  method Compatibility(tasks: map<int, Task>, window: seq<int>, workers: seq<DispatchWorker>)
    returns (table: seq<seq<bool>>)
    requires IsTeam(workers) && forall i | 0 <= i < |window| :: window[i] in tasks
    ensures |table| == |window| && forall i | 0 <= i < |table| :: |table[i]| == |workers|
    ensures forall i, j | 0 <= i < |window| && 0 <= j < |workers| ::
              table[i][j] <==> tasks[window[i]].order.name in workers[j].names
  {
    table := [];
    for i := 0 to |window|
      invariant |table| == i && forall k | 0 <= k < i :: |table[k]| == |workers|
      invariant forall k, j | 0 <= k < i && 0 <= j < |workers| ::
                  table[k][j] <==> tasks[window[k]].order.name in workers[j].names
    {
      var row := [];
      for j := 0 to |workers|
        invariant |row| == j
        invariant forall k | 0 <= k < j :: row[k] <==> tasks[window[i]].order.name in workers[k].names
      {
        var supports := BinarySearch(ByteOrder(), workers[j].names, tasks[window[i]].order.name);
        row := row + [supports];
      }
      table := table + [row];
    }
  }

  /** The worker advertises the name of some task of the window. */
  ghost predicate IsNeeded(tasks: map<int, Task>, window: seq<int>, w: DispatchWorker)
    requires forall i | 0 <= i < |window| :: window[i] in tasks
  {
    exists i :: 0 <= i < |window| && tasks[window[i]].order.name in w.names
  }

  /** Only workers that support some task of the window take part. */
  method Useful(tasks: map<int, Task>, window: seq<int>, workers: seq<DispatchWorker>)
    returns (useful: seq<DispatchWorker>)
    requires IsTeam(workers) && forall i | 0 <= i < |window| :: window[i] in tasks
    ensures IsTeam(useful)
    ensures forall w :: w in useful <==> w in workers && IsNeeded(tasks, window, w)
  {
    var table := Compatibility(tasks, window, workers);
    useful := [];
    for j := 0 to |workers|
      invariant IsTeam(useful)
      invariant forall w :: w in useful <==> w in workers[..j] && IsNeeded(tasks, window, w)
    {
      assert forall w :: w in workers[..j + 1] <==> w in workers[..j] || w == workers[j];
      var needed := exists i | 0 <= i < |window| :: table[i][j];
      assert needed <==> IsNeeded(tasks, window, workers[j]);
      ghost var before := useful;
      forall k | 0 <= k < |before| ensures before[k].session != workers[j].session {
        assert before[k] in before && before[k] in workers[..j];
      }
      if needed {
        useful := useful + [workers[j]];
      }
      assert forall w :: w in useful <==> w in before || (needed && w == workers[j]);
    }
    assert workers[..|workers|] == workers;
  }

  ghost predicate KindPlan(tasks: map<int, Task>, plan: map<int, string>, kind: string, workers: seq<DispatchWorker>,
                           now: real) {
    && (forall id | id in plan ::
          && id in tasks && Dispatchable(tasks[id], now)
          && exists j :: 0 <= j < |workers| && workers[j].session == plan[id] && Offers(tasks, id, kind, workers[j]))
    && (forall j | 0 <= j < |workers| :: |Planned(plan, workers[j].session)| <= workers[j].slots)
  }

  // ----- the window of a type -----

  predicate Advertised(workers: seq<DispatchWorker>, name: string) {
    exists w | w in workers :: name in w.names
  }

  /** The due tasks of the type whose name some worker advertises. */
  function EligibleIds(tasks: map<int, Task>, kind: string, workers: seq<DispatchWorker>, now: real): set<int> {
    set id | id in tasks && Dispatchable(tasks[id], now) && tasks[id].order.kind == kind
             && Advertised(workers, tasks[id].order.name)
  }

  function SlotsIn(workers: seq<DispatchWorker>): seq<nat> {
    seq(|workers|, i requires 0 <= i < |workers| => workers[i].slots)
  }

  function FreeSlots(workers: seq<DispatchWorker>): nat {
    SaturatingSum(SlotsIn(workers))
  }

  /** The most urgent eligible tasks, as many as there are slots. */
  ghost function Window(tasks: map<int, Task>, kind: string, workers: seq<DispatchWorker>, now: real): seq<int> {
    Take(ByPriority(tasks, EligibleIds(tasks, kind, workers, now)), FreeSlots(workers))
  }

  /** The PENDING and due rows of the type whose name some worker lists. */
  ghost function Wanted(tasks: map<int, Task>, kind: string, workers: seq<DispatchWorker>, now: real): set<int> {
    set x | x in tasks && tasks[x].status == Pending && tasks[x].scheduledAt <= now && tasks[x].order.kind == kind
            && exists j :: 0 <= j < |workers| && tasks[x].order.name in workers[j].names
  }

  /** As many wanted rows as there are slots, in order; what is left out is less urgent. */
  ghost predicate IsWindow(tasks: map<int, Task>, kind: string, workers: seq<DispatchWorker>, now: real,
                           window: seq<int>) {
    var wanted := Wanted(tasks, kind, workers, now);
    && |window| == Min(Min(Sum(SlotsIn(workers)), I64_MAX), |wanted|)
    && (forall i | 0 <= i < |window| :: window[i] in wanted)
    && (forall i, j | 0 <= i < j < |window| :: UrgentBefore(tasks, window[i], window[j]))
    && (forall i, x | 0 <= i < |window| && x in wanted && x !in window :: UrgentBefore(tasks, window[i], x))
  }

  /** A larger priority, or the same and a smaller id. */
  predicate UrgentBefore(tasks: map<int, Task>, x: int, y: int) {
    && x in tasks && y in tasks
    && (|| tasks[x].order.priority > tasks[y].order.priority
        || (tasks[x].order.priority == tasks[y].order.priority && x < y))
  }

  lemma EligibleIsWanted(tasks: map<int, Task>, kind: string, workers: seq<DispatchWorker>, now: real)
    ensures EligibleIds(tasks, kind, workers, now) == Wanted(tasks, kind, workers, now)
  {
    var eligible, wanted := EligibleIds(tasks, kind, workers, now), Wanted(tasks, kind, workers, now);
    forall x | x in eligible ensures x in wanted {
      var w :| w in workers && tasks[x].order.name in w.names;
      var j :| 0 <= j < |workers| && workers[j] == w;
    }
    forall x | x in wanted ensures x in eligible {
      var j :| 0 <= j < |workers| && tasks[x].order.name in workers[j].names;
      assert workers[j] in workers;
    }
    assert forall x :: x in eligible <==> x in wanted;
  }

  lemma WindowIsWindow(tasks: map<int, Task>, kind: string, workers: seq<DispatchWorker>, now: real)
    ensures IsWindow(tasks, kind, workers, now, Window(tasks, kind, workers, now))
  {
    var ids, window := EligibleIds(tasks, kind, workers, now), Window(tasks, kind, workers, now);
    EligibleIsWanted(tasks, kind, workers, now);
    SaturatingSumIsMin(SlotsIn(workers));
    TakenIsMoreUrgent(tasks, ids, FreeSlots(workers));
    forall i | 0 <= i < |window| ensures window[i] in ids {
      assert window[i] in window;
    }
    forall i, j | 0 <= i < j < |window| ensures UrgentBefore(tasks, window[i], window[j]) {
      UrgencyOrder(tasks, ids, window[i], window[j]);
    }
    forall i, x | 0 <= i < |window| && x in ids && x !in window ensures UrgentBefore(tasks, window[i], x) {
      UrgencyOrder(tasks, ids, window[i], x);
    }
  }

  method SelectWindow(db: Database, kind: string, workers: seq<DispatchWorker>, now: real) returns (window: seq<int>)
    ensures window == Window(db.tasks, kind, workers, now)
    ensures Distinct(window) && |window| == Min(FreeSlots(workers), |EligibleIds(db.tasks, kind, workers, now)|)
    ensures forall i | 0 <= i < |window| :: window[i] in EligibleIds(db.tasks, kind, workers, now)
    ensures IsWindow(db.tasks, kind, workers, now, window)
  {
    WindowIsWindow(db.tasks, kind, workers, now);
    var names := set w, name | w in workers && name in w.names :: name;
    var eligible := set id | id in db.tasks && Dispatchable(db.tasks[id], now) && db.tasks[id].order.kind == kind
                             && db.tasks[id].order.name in names;
    assert forall name :: name in names <==> Advertised(workers, name);
    assert forall id :: id in eligible <==> id in EligibleIds(db.tasks, kind, workers, now);
    assert eligible == EligibleIds(db.tasks, kind, workers, now);
    window := SelectDue(db, eligible, FreeSlots(workers), now);
    assert forall i | 0 <= i < |window| :: window[i] in window;
  }

  // ----- the best plan for a window -----

  /** Window tasks go to workers that advertise their names, within the slots. */
  ghost predicate FeasiblePlan(tasks: map<int, Task>, plan: map<int, string>, window: seq<int>,
                               workers: seq<DispatchWorker>) {
    && (forall id | id in plan :: id in window && exists j :: Takes(tasks, plan, id, workers, j))
    && (forall j | 0 <= j < |workers| :: |Planned(plan, workers[j].session)| <= workers[j].slots)
  }

  ghost predicate Takes(tasks: map<int, Task>, plan: map<int, string>, id: int, workers: seq<DispatchWorker>, j: int) {
    && id in tasks && id in plan && 0 <= j < |workers|
    && workers[j].session == plan[id] && tasks[id].order.name in workers[j].names
  }

  /** A window task is left over only if every worker that advertises its name is full. */
  ghost predicate MaximalPlan(tasks: map<int, Task>, plan: map<int, string>, window: seq<int>,
                              workers: seq<DispatchWorker>) {
    forall id, j | id in window && id in tasks && id !in plan
                   && 0 <= j < |workers| && tasks[id].order.name in workers[j].names ::
      |Planned(plan, workers[j].session)| == workers[j].slots
  }

  /** No feasible plan for the window leases more than twice as many tasks. */
  ghost predicate HalfOptimalPlan(tasks: map<int, Task>, plan: map<int, string>, window: seq<int>,
                                  workers: seq<DispatchWorker>) {
    forall other: map<int, string> | FeasiblePlan(tasks, other, window, workers) :: |other| <= 2 * |plan|
  }

  ghost predicate GoodPlan(tasks: map<int, Task>, plan: map<int, string>, window: seq<int>,
                           workers: seq<DispatchWorker>) {
    && FeasiblePlan(tasks, plan, window, workers)
    && MaximalPlan(tasks, plan, window, workers)
    && HalfOptimalPlan(tasks, plan, window, workers)
  }

  /** What the rounding of one type is given and what it answers, by index. */
  ghost predicate IsRounding(tasks: map<int, Task>, window: seq<int>, team: seq<DispatchWorker>,
                             compatible: Matrix<bool>, a: seq<int>) {
    && |a| == |window| && (forall i | 0 <= i < |window| :: window[i] in tasks)
    && (forall i, j | 0 <= i < |window| && 0 <= j < |team| ::
          compatible.at(i, j) <==> tasks[window[i]].order.name in team[j].names)
    && Feasible(compatible, SlotsIn(team), a) && Maximal(compatible, SlotsIn(team), a)
    && HalfOptimal(compatible, SlotsIn(team), a)
  }

  /** An assignment of the window that respects slots and names, is maximal, and serves at least half as many as any. */
  method RoundTeam(tasks: map<int, Task>, window: seq<int>, team: seq<DispatchWorker>, score: (int, int) -> Float)
    returns (a: array<int>, ghost compatible: Matrix<bool>)
    requires IsTeam(team) && forall i | 0 <= i < |window| :: window[i] in tasks
    ensures fresh(a) && IsRounding(tasks, window, team, compatible, a[..])
  {
    var table := Compatibility(tasks, window, team);
    var cells := Matrix(|window|, |team|, (i: int, j: int) => 0 <= i < |table| && 0 <= j < |table[i]| && table[i][j]);
    var slots := SlotsIn(team);
    a := RoundCompatible(Matrix(|window|, |team|, score), slots, cells);
    assert Slots(slots) == slots;
    compatible := cells;
  }

  function SessionsIn(team: seq<DispatchWorker>): seq<string> {
    seq(|team|, i requires 0 <= i < |team| => team[i].session)
  }

  ghost predicate IsUseful(tasks: map<int, Task>, window: seq<int>, workers: seq<DispatchWorker>,
                           useful: seq<DispatchWorker>) {
    && (forall i | 0 <= i < |window| :: window[i] in tasks)
    && IsTeam(workers) && IsTeam(useful)
    && forall w :: w in useful <==> w in workers && IsNeeded(tasks, window, w)
  }

  /** A worker that advertises the name of a window task takes part, and sessions tell workers apart. */
  lemma TakesPart(tasks: map<int, Task>, window: seq<int>, workers: seq<DispatchWorker>, useful: seq<DispatchWorker>,
                  i: nat, j: nat)
    returns (u: nat)
    requires IsUseful(tasks, window, workers, useful) && i < |window| && j < |workers|
    requires tasks[window[i]].order.name in workers[j].names
    ensures u < |useful| && useful[u] == workers[j]
  {
    assert workers[j] in workers && workers[j] in useful;
    u :| 0 <= u < |useful| && useful[u] == workers[j];
  }

  lemma UsefulIndex(tasks: map<int, Task>, window: seq<int>, workers: seq<DispatchWorker>,
                    useful: seq<DispatchWorker>, u: nat)
    returns (j: nat)
    requires IsUseful(tasks, window, workers, useful) && u < |useful|
    ensures j < |workers| && workers[j] == useful[u]
    ensures forall k | 0 <= k < |workers| && workers[k].session == useful[u].session :: k == j
  {
    assert useful[u] in useful && useful[u] in workers;
    j :| 0 <= j < |workers| && workers[j] == useful[u];
  }

  lemma PlannedByIndex(window: seq<int>, useful: seq<DispatchWorker>, a: seq<int>, u: nat)
    requires IsTeam(useful) && Distinct(window) && |a| == |window| && IsAssignment(a, |useful|) && u < |useful|
    ensures |Planned(PlanOf(window, SessionsIn(useful), a), useful[u].session)| == Count(a, u)
  {
    PlanOfCount(window, SessionsIn(useful), a, u);
  }

  lemma FeasibleHolds(tasks: map<int, Task>, workers: seq<DispatchWorker>, useful: seq<DispatchWorker>,
                      window: seq<int>,
                      compatible: Matrix<bool>, a: seq<int>)
    requires IsUseful(tasks, window, workers, useful) && Distinct(window)
    requires IsRounding(tasks, window, useful, compatible, a)
    ensures FeasiblePlan(tasks, PlanOf(window, SessionsIn(useful), a), window, workers)
  {
    var sessions := SessionsIn(useful);
    var plan := PlanOf(window, sessions, a);
    forall id | id in plan ensures id in window && exists j :: Takes(tasks, plan, id, workers, j) {
      PlanOfEntry(window, sessions, a, id);
      var k :| 0 <= k < |a| && window[k] == id && a[k] >= 0 && plan[id] == sessions[a[k]];
      var j := UsefulIndex(tasks, window, workers, useful, a[k]);
      assert Takes(tasks, plan, id, workers, j);
    }
    forall j | 0 <= j < |workers| ensures |Planned(plan, workers[j].session)| <= workers[j].slots {
      if u :| 0 <= u < |useful| && useful[u].session == workers[j].session {
        var v := UsefulIndex(tasks, window, workers, useful, u);
        PlannedByIndex(window, useful, a, u);
      } else {
        forall id | id in plan ensures plan[id] != workers[j].session {
          PlanOfEntry(window, sessions, a, id);
        }
        assert Planned(plan, workers[j].session) == {};
      }
    }
  }

  lemma MaximalHolds(tasks: map<int, Task>, workers: seq<DispatchWorker>, useful: seq<DispatchWorker>, window: seq<int>,
                     compatible: Matrix<bool>, a: seq<int>)
    requires IsUseful(tasks, window, workers, useful) && Distinct(window)
    requires IsRounding(tasks, window, useful, compatible, a)
    ensures MaximalPlan(tasks, PlanOf(window, SessionsIn(useful), a), window, workers)
  {
    var plan := PlanOf(window, SessionsIn(useful), a);
    forall id, j | id in window && id in tasks && id !in plan
                   && 0 <= j < |workers| && tasks[id].order.name in workers[j].names
      ensures |Planned(plan, workers[j].session)| == workers[j].slots
    {
      var i :| 0 <= i < |window| && window[i] == id;
      if a[i] >= 0 {
        PlanOfHas(window, SessionsIn(useful), a, i);
      }
      var u := TakesPart(tasks, window, workers, useful, i, j);
      assert compatible.at(i, u) && Count(a, u) >= SlotsIn(useful)[u];
      PlannedByIndex(window, useful, a, u);
    }
  }

  /** Any feasible plan is an assignment of the useful workers, and those serve at most twice as many. */
  lemma HalfOptimalHolds(tasks: map<int, Task>, workers: seq<DispatchWorker>, useful: seq<DispatchWorker>,
                         window: seq<int>,
                         compatible: Matrix<bool>, a: seq<int>, other: map<int, string>)
    requires IsUseful(tasks, window, workers, useful) && Distinct(window)
    requires IsRounding(tasks, window, useful, compatible, a) && FeasiblePlan(tasks, other, window, workers)
    ensures |other| <= 2 * |PlanOf(window, SessionsIn(useful), a)|
  {
    var sessions := SessionsIn(useful);
    forall id | id in other ensures id in window && other[id] in sessions {
      var i :| 0 <= i < |window| && window[i] == id;
      var j :| Takes(tasks, other, id, workers, j);
      var u := TakesPart(tasks, window, workers, useful, i, j);
      assert sessions[u] == other[id];
    }
    var f := AssignmentOf(window, sessions, other);
    forall i | 0 <= i < |f| && f[i] >= 0 ensures compatible.at(i, f[i]) {
      var j :| Takes(tasks, other, window[i], workers, j);
      var v := UsefulIndex(tasks, window, workers, useful, f[i]);
    }
    forall u | 0 <= u < |useful| ensures Count(f, u) <= SlotsIn(useful)[u] {
      PlannedByIndex(window, useful, f, u);
      var j := UsefulIndex(tasks, window, workers, useful, u);
    }
    assert Feasible(compatible, SlotsIn(useful), f);
    PlanOfSize(window, sessions, f);
    PlanOfSize(window, sessions, a);
  }

  lemma GoodPlanHolds(tasks: map<int, Task>, workers: seq<DispatchWorker>, useful: seq<DispatchWorker>,
                      window: seq<int>,
                      compatible: Matrix<bool>, a: seq<int>)
    requires IsUseful(tasks, window, workers, useful) && Distinct(window)
    requires IsRounding(tasks, window, useful, compatible, a)
    ensures GoodPlan(tasks, PlanOf(window, SessionsIn(useful), a), window, workers)
  {
    FeasibleHolds(tasks, workers, useful, window, compatible, a);
    MaximalHolds(tasks, workers, useful, window, compatible, a);
    forall other: map<int, string> | FeasiblePlan(tasks, other, window, workers)
      ensures |other| <= 2 * |PlanOf(window, SessionsIn(useful), a)|
    {
      HalfOptimalHolds(tasks, workers, useful, window, compatible, a, other);
    }
  }

  /** A good plan for the window of the type. */
  ghost predicate BestPlan(tasks: map<int, Task>, plan: map<int, string>, kind: string, workers: seq<DispatchWorker>,
                           now: real) {
    GoodPlan(tasks, plan, Window(tasks, kind, workers, now), workers)
  }

  lemma BestIsKindPlan(tasks: map<int, Task>, plan: map<int, string>, kind: string, workers: seq<DispatchWorker>,
                       now: real)
    requires BestPlan(tasks, plan, kind, workers, now)
    ensures KindPlan(tasks, plan, kind, workers, now)
  {
    var window := Window(tasks, kind, workers, now);
    forall id | id in plan
      ensures id in tasks && Dispatchable(tasks[id], now)
      ensures exists j :: 0 <= j < |workers| && workers[j].session == plan[id] && Offers(tasks, id, kind, workers[j])
    {
      var i :| 0 <= i < |window| && window[i] == id;
      assert id in EligibleIds(tasks, kind, workers, now);
      var j :| Takes(tasks, plan, id, workers, j);
      assert Offers(tasks, id, kind, workers[j]);
    }
  }

  method DispatchKind(db: Database, kind: string, workers: seq<DispatchWorker>, until: real, now: real,
                      score: (int, int) -> Float)
    returns (plan: map<int, string>)
    requires IsTeam(workers)
    modifies db`tasks
    ensures db.tasks == Assign(old(db.tasks), plan, until, now)
    ensures BestPlan(old(db.tasks), plan, kind, workers, now)
  {
    var window := SelectWindow(db, kind, workers, now);
    assert forall i | 0 <= i < |window| :: window[i] in db.tasks && Dispatchable(db.tasks[window[i]], now);
    var useful := Useful(db.tasks, window, workers);
    ghost var compatible;
    var a;
    a, compatible := RoundTeam(db.tasks, window, useful, score);
    var sessions := SessionsIn(useful);
    plan := PlanOf(window, sessions, a[..]);
    GoodPlanHolds(db.tasks, workers, useful, window, compatible, a[..]);
    Lease(db, window, sessions, a, until, now);
  }

  // ----- all task types -----

  /** A worker with free slots stands for its session. */
  ghost predicate Represents(w: DispatchWorker, kind: string, tasks: map<int, Task>, roster: map<string, Session>) {
    && w.session in roster && roster[w.session].kind == kind && w.names == roster[w.session].taskNames
    && w.slots == roster[w.session].capacity - |HeldBy(tasks, w.session)|
  }

  /** The sessions of a type with free slots. */
  function TeamFor(sessions: seq<Session>, tasks: map<int, Task>, kind: string): seq<DispatchWorker> {
    var n := |sessions| - 1;
    if sessions == [] then []
    else
      var s := sessions[n];
      var available := s.capacity - |HeldBy(tasks, s.id)|;
      TeamFor(sessions[..n], tasks, kind)
      + if s.kind == kind && available > 0 then [DispatchWorker(s.id, available, s.taskNames)] else []
  }

  predicate StandsFor(w: DispatchWorker, s: Session, tasks: map<int, Task>) {
    w.session == s.id && w.names == s.taskNames && w.slots > 0 && w.slots == s.capacity - |HeldBy(tasks, s.id)|
  }

  lemma {:induction false} TeamMember(sessions: seq<Session>, tasks: map<int, Task>, kind: string, j: nat)
    returns (i: nat)
    requires j < |TeamFor(sessions, tasks, kind)|
    ensures i < |sessions| && sessions[i].kind == kind
    ensures StandsFor(TeamFor(sessions, tasks, kind)[j], sessions[i], tasks)
  {
    var n := |sessions| - 1;
    if j < |TeamFor(sessions[..n], tasks, kind)| {
      i := TeamMember(sessions[..n], tasks, kind, j);
    } else {
      i := n;
    }
  }

  lemma {:induction false} InTeam(sessions: seq<Session>, tasks: map<int, Task>, kind: string, i: nat) returns (j: nat)
    requires i < |sessions| && sessions[i].kind == kind && |HeldBy(tasks, sessions[i].id)| < sessions[i].capacity
    ensures j < |TeamFor(sessions, tasks, kind)| && StandsFor(TeamFor(sessions, tasks, kind)[j], sessions[i], tasks)
  {
    var n := |sessions| - 1;
    if i < n {
      j := InTeam(sessions[..n], tasks, kind, i);
    } else {
      j := |TeamFor(sessions[..n], tasks, kind)|;
    }
  }

  lemma {:induction false} TeamIsTeam(sessions: seq<Session>, tasks: map<int, Task>, kind: string)
    requires DistinctSessions(sessions)
    requires forall i | 0 <= i < |sessions| :: Ascending(ByteOrder(), sessions[i].taskNames)
    ensures IsTeam(TeamFor(sessions, tasks, kind))
  {
    if sessions != [] {
      var n := |sessions| - 1;
      TeamIsTeam(sessions[..n], tasks, kind);
      var before := TeamFor(sessions[..n], tasks, kind);
      forall j | 0 <= j < |before| ensures before[j].session != sessions[n].id {
        var i := TeamMember(sessions[..n], tasks, kind, j);
      }
    }
  }

  lemma TeamRepresents(sessions: seq<Session>, tasks: map<int, Task>, kind: string, roster: map<string, Session>)
    requires forall i | 0 <= i < |sessions| :: sessions[i].id in roster && roster[sessions[i].id] == sessions[i]
    ensures forall j | 0 <= j < |TeamFor(sessions, tasks, kind)| ::
              Represents(TeamFor(sessions, tasks, kind)[j], kind, tasks, roster)
  {
    var team := TeamFor(sessions, tasks, kind);
    forall j | 0 <= j < |team| ensures Represents(team[j], kind, tasks, roster) {
      var i := TeamMember(sessions, tasks, kind, j);
    }
  }

  method TeamOf(sessions: seq<Session>, loads: map<string, int>, kind: string, ghost tasks: map<int, Task>)
    returns (team: seq<DispatchWorker>)
    requires forall i | 0 <= i < |sessions| ::
               sessions[i].id in loads && loads[sessions[i].id] == |HeldBy(tasks, sessions[i].id)|
    ensures team == TeamFor(sessions, tasks, kind)
  {
    team := [];
    for i := 0 to |sessions|
      invariant team == TeamFor(sessions[..i], tasks, kind)
    {
      assert sessions[..i + 1][..i] == sessions[..i];
      var available := sessions[i].capacity - loads[sessions[i].id];
      if sessions[i].kind == kind && available > 0 {
        team := team + [DispatchWorker(sessions[i].id, available, sessions[i].taskNames)];
      }
    }
    assert sessions[..|sessions|] == sessions;
  }

  // ----- the best plan type by type -----

  /** The part of a plan that serves one type. */
  ghost function OfKind(tasks: map<int, Task>, plan: map<int, string>, kind: string): map<int, string> {
    map id | id in plan && id in tasks && tasks[id].order.kind == kind :: plan[id]
  }

  ghost predicate ServesKind(tasks: map<int, Task>, plan: map<int, string>, sessions: seq<Session>, kind: string,
                             now: real) {
    BestPlan(tasks, OfKind(tasks, plan, kind), kind, TeamFor(sessions, tasks, kind), now)
  }

  /** For each type the plan is a good one for the window of the type and the sessions that have free slots. */
  ghost predicate WellDispatched(tasks: map<int, Task>, plan: map<int, string>, sessions: seq<Session>, now: real) {
    forall kind: string :: ServesKind(tasks, plan, sessions, kind, now)
  }

  lemma {:induction false} NoTeam(sessions: seq<Session>, tasks: map<int, Task>, kind: string)
    requires forall i | 0 <= i < |sessions| :: sessions[i].kind != kind
    ensures TeamFor(sessions, tasks, kind) == []
  {
    if sessions != [] {
      NoTeam(sessions[..|sessions| - 1], tasks, kind);
    }
  }

  /** Without sessions of a type there is nothing to do for it. */
  lemma NothingToServe(tasks: map<int, Task>, plan: map<int, string>, sessions: seq<Session>, kind: string, now: real)
    requires TeamFor(sessions, tasks, kind) == [] && OfKind(tasks, plan, kind) == map[]
    ensures ServesKind(tasks, plan, sessions, kind, now)
  {
    var team := TeamFor(sessions, tasks, kind);
    assert FreeSlots(team) == 0 by {
      assert SlotsIn(team) == [];
    }
    var window := Window(tasks, kind, team, now);
    assert window == [];
    forall other: map<int, string> | FeasiblePlan(tasks, other, window, team) ensures |other| <= 2 * 0 {
      assert forall id :: id !in other;
      assert other == map[];
    }
  }

  /** Leasing tasks of other types does not change the window of a type, nor what a good plan for it is. */
  lemma BestBefore(tasks: map<int, Task>, plan: map<int, string>, more: map<int, string>, until: real, now: real,
                   kind: string, team: seq<DispatchWorker>)
    requires forall id | id in plan && id in tasks :: tasks[id].order.kind != kind
    requires BestPlan(Assign(tasks, plan, until, now), more, kind, team, now)
    ensures BestPlan(tasks, more, kind, team, now)
  {
    var current := Assign(tasks, plan, until, now);
    SameWindow(tasks, plan, until, now, kind, team);
    var window := Window(tasks, kind, team, now);
    SameFeasible(tasks, current, more, window, team);
    forall other: map<int, string> | FeasiblePlan(tasks, other, window, team) ensures |other| <= 2 * |more| {
      SameFeasible(tasks, current, other, window, team);
    }
  }

  lemma SameWindow(tasks: map<int, Task>, plan: map<int, string>, until: real, now: real, kind: string,
                   team: seq<DispatchWorker>)
    requires forall id | id in plan && id in tasks :: tasks[id].order.kind != kind
    ensures Window(Assign(tasks, plan, until, now), kind, team, now) == Window(tasks, kind, team, now)
  {
    var current := Assign(tasks, plan, until, now);
    var before, after := EligibleIds(tasks, kind, team, now), EligibleIds(current, kind, team, now);
    assert forall id :: id in before <==> id in after;
    assert before == after;
    assert ByPriority(tasks, before) == ByPriority(current, after);
  }

  ghost predicate SameOrders(tasks: map<int, Task>, other: map<int, Task>) {
    tasks.Keys == other.Keys && forall id | id in tasks :: tasks[id].order == other[id].order
  }

  lemma SameFeasible(tasks: map<int, Task>, current: map<int, Task>, plan: map<int, string>, window: seq<int>,
                     team: seq<DispatchWorker>)
    requires SameOrders(tasks, current)
    ensures FeasiblePlan(tasks, plan, window, team) <==> FeasiblePlan(current, plan, window, team)
  {
    assert forall id, j :: Takes(tasks, plan, id, team, j) <==> Takes(current, plan, id, team, j);
  }

  /** Adding the plan of one type serves that type and leaves the other types as they were. */
  lemma MergeServes(tasks: map<int, Task>, plan: map<int, string>, more: map<int, string>, sessions: seq<Session>,
                    kind: string, other: string, now: real)
    requires forall id | id in plan :: id in tasks && tasks[id].order.kind != kind
    requires forall id | id in more :: id in tasks && tasks[id].order.kind == kind
    requires BestPlan(tasks, more, kind, TeamFor(sessions, tasks, kind), now)
    requires other != kind ==> ServesKind(tasks, plan, sessions, other, now)
    ensures ServesKind(tasks, plan + more, sessions, other, now)
  {
    if other == kind {
      OfOwnKind(tasks, plan, more, kind);
    } else {
      OfOtherKind(tasks, plan, more, kind, other);
    }
  }

  lemma OfOwnKind(tasks: map<int, Task>, plan: map<int, string>, more: map<int, string>, kind: string)
    requires forall id | id in plan :: id in tasks && tasks[id].order.kind != kind
    requires forall id | id in more :: id in tasks && tasks[id].order.kind == kind
    ensures OfKind(tasks, plan + more, kind) == more
  {
    assert forall id :: id in OfKind(tasks, plan + more, kind) <==> id in more;
  }

  lemma OfOtherKind(tasks: map<int, Task>, plan: map<int, string>, more: map<int, string>, kind: string, other: string)
    requires forall id | id in more :: id in tasks && tasks[id].order.kind == kind
    requires other != kind
    ensures OfKind(tasks, plan + more, other) == OfKind(tasks, plan, other)
  {
    assert forall id | id in tasks && tasks[id].order.kind == other :: id !in more;
    assert forall id :: id in OfKind(tasks, plan + more, other) <==> id in OfKind(tasks, plan, other);
  }

  /** The plan after some of the types; none of its tasks has a type still to come. */
  ghost predicate PlanSoFar(tasks: map<int, Task>, plan: map<int, string>, now: real, roster: map<string, Session>,
                            rest: set<string>) {
    && RegisteredPlan(tasks, plan, now, roster)
    && forall id | id in plan :: tasks[id].order.kind !in rest
  }

  /** Assigning two plans with different rows one after the other is assigning both. */
  lemma AssignTwice(tasks: map<int, Task>, plan: map<int, string>, more: map<int, string>, until: real, now: real)
    requires forall id | id in more :: id !in plan
    ensures Assign(Assign(tasks, plan, until, now), more, until, now) == Assign(tasks, plan + more, until, now)
  {
  }

  ghost predicate NewRow(tasks: map<int, Task>, plan: map<int, string>, more: map<int, string>, now: real,
                         roster: map<string, Session>, kind: string, id: int)
    requires id in more
  {
    && id !in plan && Capable(tasks, roster, id, more[id])
    && Dispatchable(tasks[id], now) && tasks[id].order.kind == kind
    && |Planned(more, more[id])| + |HeldBy(tasks, more[id])| <= roster[more[id]].capacity
  }

  /** The rows of the next type are untouched so far, and go to capable sessions of that type. */
  lemma NewRows(tasks: map<int, Task>, plan: map<int, string>, until: real, now: real, roster: map<string, Session>,
                rest: set<string>,
                kind: string, team: seq<DispatchWorker>, more: map<int, string>)
    requires PlanSoFar(tasks, plan, now, roster, rest) && kind in rest
    requires forall j | 0 <= j < |team| :: Represents(team[j], kind, tasks, roster)
    requires KindPlan(Assign(tasks, plan, until, now), more, kind, team, now)
    ensures forall id | id in more :: NewRow(tasks, plan, more, now, roster, kind, id)
  {
    forall id | id in more ensures NewRow(tasks, plan, more, now, roster, kind, id) {
      var current := Assign(tasks, plan, until, now);
      var j :| 0 <= j < |team| && team[j].session == more[id] && Offers(current, id, kind, team[j]);
      assert Represents(team[j], kind, tasks, roster);
    }
  }

  lemma MergePlans(tasks: map<int, Task>, plan: map<int, string>, more: map<int, string>, now: real,
                   roster: map<string, Session>,
                   rest: set<string>, kind: string)
    requires PlanSoFar(tasks, plan, now, roster, rest) && kind in rest
    requires forall id | id in more :: NewRow(tasks, plan, more, now, roster, kind, id)
    ensures PlanSoFar(tasks, plan + more, now, roster, rest - {kind})
  {
    forall s | s in roster
      ensures Planned(plan + more, s) == {} || |Planned(plan + more, s)| + |HeldBy(tasks, s)| <= roster[s].capacity
    {
      if roster[s].kind != kind {
        assert forall id | id in more :: NewRow(tasks, plan, more, now, roster, kind, id) && more[id] != s;
        assert forall id :: id in Planned(plan + more, s) <==> id in Planned(plan, s);
        assert Planned(plan + more, s) == Planned(plan, s);
      } else {
        assert forall id | id in plan :: plan[id] != s;
        assert forall id :: id in Planned(plan + more, s) <==> id in Planned(more, s);
        assert Planned(plan + more, s) == Planned(more, s);
        if Planned(more, s) != {} {
          Inhabited(Planned(more, s));
          var id :| id in Planned(more, s);
          assert NewRow(tasks, plan, more, now, roster, kind, id);
        }
      }
    }
  }

  /** Loads are counted once, then each type is served by its own sessions. */
  method DispatchTypes(db: Database, sessions: seq<Session>, until: real, score: (string, int, int) -> Float, now: real,
                       ghost roster: map<string, Session>)
    returns (plan: map<int, string>)
    requires DistinctSessions(sessions)
    requires forall i | 0 <= i < |sessions| :: sessions[i].id in roster && roster[sessions[i].id] == sessions[i]
    requires forall i | 0 <= i < |sessions| :: Ascending(ByteOrder(), sessions[i].taskNames)
    modifies db`tasks
    ensures db.tasks == Assign(old(db.tasks), plan, until, now) && RegisteredPlan(old(db.tasks), plan, now, roster)
    ensures WellDispatched(old(db.tasks), plan, sessions, now)
  {
    ghost var tasks := db.tasks;
    plan := map[];
    var loads := map i | 0 <= i < |sessions| :: sessions[i].id := |HeldBy(db.tasks, sessions[i].id)|;
    var rest := set s | s in sessions :: s.kind;
    assert db.tasks == Assign(tasks, plan, until, now);
    NothingYet(tasks, sessions, rest, now);
    while rest != {}
      invariant db.tasks == Assign(tasks, plan, until, now)
      invariant PlanSoFar(tasks, plan, now, roster, rest)
      invariant forall k: string :: k !in rest ==> ServesKind(tasks, plan, sessions, k, now)
      decreases |rest|
    {
      var kind :| kind in rest;
      var team := TeamOf(sessions, loads, kind, tasks);
      TeamIsTeam(sessions, tasks, kind);
      TeamRepresents(sessions, tasks, kind, roster);
      var more := DispatchKind(db, kind, team, until, now, (i, j) => score(kind, i, j));
      KindServed(tasks, plan, more, sessions, roster, kind, rest, until, now);
      AssignTwice(tasks, plan, more, until, now);
      plan := plan + more;
      rest := rest - {kind};
    }
  }

  lemma NothingYet(tasks: map<int, Task>, sessions: seq<Session>, kinds: set<string>, now: real)
    requires forall s | s in sessions :: s.kind in kinds
    ensures forall k: string :: k !in kinds ==> ServesKind(tasks, map[], sessions, k, now)
  {
    forall k: string | k !in kinds ensures ServesKind(tasks, map[], sessions, k, now) {
      forall i | 0 <= i < |sessions| ensures sessions[i].kind != k {
        assert sessions[i] in sessions;
      }
      NoTeam(sessions, tasks, k);
      NothingToServe(tasks, map[], sessions, k, now);
    }
  }

  /** One pass of the loop over the types. */
  lemma KindServed(tasks: map<int, Task>, plan: map<int, string>, more: map<int, string>, sessions: seq<Session>,
                   roster: map<string, Session>, kind: string, rest: set<string>, until: real, now: real)
    requires PlanSoFar(tasks, plan, now, roster, rest) && kind in rest
    requires forall j | 0 <= j < |TeamFor(sessions, tasks, kind)| ::
               Represents(TeamFor(sessions, tasks, kind)[j], kind, tasks, roster)
    requires BestPlan(Assign(tasks, plan, until, now), more, kind, TeamFor(sessions, tasks, kind), now)
    requires forall k: string :: k !in rest ==> ServesKind(tasks, plan, sessions, k, now)
    ensures PlanSoFar(tasks, plan + more, now, roster, rest - {kind})
    ensures forall id | id in more :: id !in plan
    ensures forall k: string :: k !in rest - {kind} ==> ServesKind(tasks, plan + more, sessions, k, now)
  {
    var team := TeamFor(sessions, tasks, kind);
    BestIsKindPlan(Assign(tasks, plan, until, now), more, kind, team, now);
    NewRows(tasks, plan, until, now, roster, rest, kind, team, more);
    MergePlans(tasks, plan, more, now, roster, rest, kind);
    forall id | id in more ensures id !in plan && id in tasks && tasks[id].order.kind == kind {
      assert NewRow(tasks, plan, more, now, roster, kind, id);
    }
    BestBefore(tasks, plan, more, until, now, kind, team);
    StillServed(tasks, plan, more, sessions, kind, rest, now);
  }

  lemma StillServed(tasks: map<int, Task>, plan: map<int, string>, more: map<int, string>, sessions: seq<Session>,
                    kind: string, rest: set<string>, now: real)
    requires kind in rest
    requires forall id | id in plan :: id in tasks && tasks[id].order.kind != kind
    requires forall id | id in more :: id in tasks && tasks[id].order.kind == kind
    requires BestPlan(tasks, more, kind, TeamFor(sessions, tasks, kind), now)
    requires forall k: string :: k !in rest ==> ServesKind(tasks, plan, sessions, k, now)
    ensures forall k: string :: k !in rest - {kind} ==> ServesKind(tasks, plan + more, sessions, k, now)
  {
    forall k: string | k !in rest - {kind} ensures ServesKind(tasks, plan + more, sessions, k, now) {
      MergeServes(tasks, plan, more, sessions, kind, k, now);
    }
  }

  /**
   * `dispatch_registered` as one step of a run. `score` stands for the Sinkhorn plan of a type; `roster` is
   * every session ever registered.
   */
  method DispatchRegistered(db: Database, sessions: seq<Session>, lease: Float, score: (string, int, int) -> Float,
                            now: real,
                            ghost roster: map<string, Session>)
    returns (plan: map<int, string>)
    requires DistinctSessions(sessions)
    requires forall i | 0 <= i < |sessions| :: sessions[i].id in roster && roster[sessions[i].id] == sessions[i]
    requires forall i | 0 <= i < |sessions| :: Ascending(ByteOrder(), sessions[i].taskNames)
    requires db.Recorded()
    modifies db`tasks, db`history
    ensures db.Recorded()
    ensures db.history == Extended(old(db.history), Step.Dispatch(plan, now + LeaseSeconds(lease, 30.0), now))
    ensures RowsLeased(old(db.tasks), db.tasks, plan, now + LeaseSeconds(lease, 30.0), now)
    ensures RegisteredPlan(old(db.tasks), plan, now, roster) && WellDispatched(old(db.tasks), plan, sessions, now)
  {
    var until := now + LeaseSeconds(lease, 30.0);
    plan := DispatchTypes(db, sessions, until, score, now, roster);
    PlanIsLeased(old(db.tasks), plan, until, now);
    DispatchStep(old(db.State()), db.State(), plan, until, now);
    db.Record(Step.Dispatch(plan, until, now));
  }

  /** `dispatch_available`: what the registry hands over always meets what dispatching needs. */
  method DispatchAvailable(registry: Registry, db: Database, lease: Float, score: (string, int, int) -> Float,
                           clock: int, now: real)
    returns (plan: map<int, string>, ghost live: seq<Session>)
    requires registry.Valid() && db.Recorded()
    modifies registry`sessions, db`tasks, db`history
    ensures registry.Valid() && db.Recorded()
    ensures registry.sessions == Unexpired(old(registry.sessions), clock)
    ensures DistinctSessions(live) && forall s :: s in live <==> s.id in registry.sessions && registry.issued[s.id] == s
    ensures db.history == Extended(old(db.history), Step.Dispatch(plan, now + LeaseSeconds(lease, 30.0), now))
    ensures RowsLeased(old(db.tasks), db.tasks, plan, now + LeaseSeconds(lease, 30.0), now)
    ensures RegisteredPlan(old(db.tasks), plan, now, registry.issued) && WellDispatched(old(db.tasks), plan, live, now)
  {
    var sessions := registry.ActiveSessions(clock);
    assert forall i | 0 <= i < |sessions| :: sessions[i] in sessions;
    plan := DispatchRegistered(db, sessions, lease, score, now, registry.issued);
    live := sessions;
  }
}
