/** The engine's loop: poll the children, submit what is ready, finish when every step is COMPLETED. */
module WorkflowEngine {
  import opened Tables
  import opened Json
  import opened ResultReferences
  import opened ResultResolution
  import opened DependencyGraph
  import opened Workflow
  import opened WorkflowRuntime

  /** Everything the engine is told from outside, by round: any answers at all. */
  datatype Environment = Environment(
    startedAt: real,
    clock: nat -> real,
    snapshot: (nat, Text, int) -> Option<Status>,
    projection: (nat, int) -> Option<seq<Field>>,
    enqueue: (nat, Text, Json) -> Option<int>)
  {
    function Results(round: nat): Endpoint {
      id => projection(round, id)
    }
  }

  datatype Failure = TimedOut | BadSnapshot | ChildFailed | ReadFailed | EnqueueFailed

  datatype Entry = Entry(id: Text, kind: Text, taskId: int)

  datatype Outcome = Rejected(reason: Parse) | Threw(failure: Failure) | Finished(entries: seq<Entry>) | StillRunning

  // ----- the trace of a run -----

  /** What happened, in order: the clock was read, a child was asked about, sources were read, a child was submitted. */
  datatype Event =
    | Checked(round: nat, elapsed: real)
    | Asked(round: nat, id: Text, task: int, answer: Option<Status>)
    | Read(round: nat, step: StepDef, sources: map<Text, int>, result: ResultResolution.Outcome)
    | Enqueued(round: nat, step: StepDef, payload: Json, reply: Option<int>)

  predicate IsCreation(e: Event, id: Text, task: int) {
    e.Enqueued? && e.step.id == id && e.reply == Some(task) && task > 0
  }

  predicate IsCompletion(e: Event, id: Text, task: int) {
    e.Asked? && e.id == id && e.task == task && e.answer == Some(Completed)
  }

  /** The step was submitted, and this is its child. */
  ghost predicate Created(trace: seq<Event>, id: Text, task: int) {
    exists e | e in trace :: IsCreation(e, id, task)
  }

  /** The child was reported COMPLETED. */
  ghost predicate Confirmed(trace: seq<Event>, id: Text, task: int) {
    exists e | e in trace :: IsCompletion(e, id, task)
  }

  /** The answer to give for this event and no other: what the failure is, if it is one. */
  function FailureOf(e: Event, maxRunMs: int): Option<Failure> {
    match e
    case Checked(_, elapsed) => if elapsed > maxRunMs as real then Some(TimedOut) else None
    case Asked(_, _, _, answer) =>
      if answer.None? || answer.value == Cancelled then Some(BadSnapshot)
      else if answer.value == Failed then Some(ChildFailed)
      else None
    case Read(_, _, _, result) => if result.Resolved? then None else Some(ReadFailed)
    case Enqueued(_, _, _, reply) => if reply.None? || reply.value <= 0 then Some(EnqueueFailed) else None
  }

  ghost predicate AllWell(trace: seq<Event>, maxRunMs: int) {
    forall e | e in trace :: FailureOf(e, maxRunMs) == None
  }

  /**
   * The event is what the outside really answered, and it was time for it: a child is asked about after its
   * creation and until it is COMPLETED; the sources of a step are its strict ancestors, each with its own child,
   * which has been COMPLETED; what is submitted is the resolution just read, of a step not submitted before.
   */
  ghost predicate WellPlaced(env: Environment, steps: seq<StepDef>, past: seq<Event>, e: Event) {
    && InRound(past, e)
    && match e
       case Checked(n, elapsed) => elapsed == env.clock(n) - env.startedAt
       case Asked(n, id, task, answer) =>
         answer == env.snapshot(n, id, task) && Created(past, id, task) && !Confirmed(past, id, task)
       case Read(n, step, sources, result) =>
         && step in steps && sources.Keys == Ancestors(GraphOf(steps), step.id)
         && (forall task :: !Created(past, step.id, task))
         && (forall x | x in sources :: Created(past, x, sources[x]) && Confirmed(past, x, sources[x]))
         && result == ReadResult(env, n, step.payload, sources)
       case Enqueued(n, step, payload, reply) =>
         && past != [] && reply == env.enqueue(n, step.id, payload)
         && var before := past[|past| - 1];
            before.Read? && before.round == n && before.step == step && before.result == Resolved(payload)
  }

  /** The rounds begun so far. */
  ghost function Rounds(trace: seq<Event>): nat {
    if trace == [] then 0 else trace[|trace| - 1].round + 1
  }

  /** Reading the clock begins the next round; everything else happens in the round that was begun last. */
  ghost predicate InRound(past: seq<Event>, e: Event) {
    if e.Checked? then e.round == Rounds(past) else e.round + 1 == Rounds(past)
  }

  /** Each event was well placed after those before it, and nothing happened after a failure. */
  ghost predicate Orderly(env: Environment, steps: seq<StepDef>, maxRunMs: int, trace: seq<Event>) {
    forall p | 0 <= p < |trace| :: Placed(env, steps, maxRunMs, trace, p)
  }

  ghost predicate Placed(env: Environment, steps: seq<StepDef>, maxRunMs: int, trace: seq<Event>, p: nat)
    requires p < |trace|
  {
    WellPlaced(env, steps, trace[..p], trace[p]) && AllWell(trace[..p], maxRunMs)
  }

  lemma NotCreatedBefore(env: Environment, steps: seq<StepDef>, maxRunMs: int, trace: seq<Event>, p: nat, q: nat,
                         id: Text, t: int)
    requires Orderly(env, steps, maxRunMs, trace) && p < q < |trace| && trace[q].Enqueued? && trace[q].step.id == id
    ensures !IsCreation(trace[p], id, t)
  {
    assert Placed(env, steps, maxRunMs, trace, q) && Placed(env, steps, maxRunMs, trace, q - 1);
    assert trace[..q][q - 1] == trace[q - 1];
    assert !Created(trace[..q - 1], id, t);
    assert p < q - 1 ==> trace[p] in trace[..q - 1];
  }

  /** No step is submitted twice. */
  lemma SubmittedOnce(env: Environment, steps: seq<StepDef>, maxRunMs: int, trace: seq<Event>, p: nat, q: nat,
                      id: Text, t: int, u: int)
    requires Orderly(env, steps, maxRunMs, trace) && p < |trace| && q < |trace|
    requires IsCreation(trace[p], id, t) && IsCreation(trace[q], id, u)
    ensures p == q
  {
    if p < q {
      NotCreatedBefore(env, steps, maxRunMs, trace, p, q, id, t);
    } else if q < p {
      NotCreatedBefore(env, steps, maxRunMs, trace, q, p, id, u);
    }
  }

  /** When a step is submitted, each strict ancestor's child had been created and had been reported COMPLETED. */
  lemma AncestorsCompletedFirst(env: Environment, steps: seq<StepDef>, maxRunMs: int, trace: seq<Event>, p: nat,
                                x: Text) returns (l: nat, k: nat, task: int)
    requires Orderly(env, steps, maxRunMs, trace) && p < |trace| && trace[p].Enqueued?
    requires x in Ancestors(GraphOf(steps), trace[p].step.id)
    ensures l < k < p && IsCreation(trace[l], x, task) && IsCompletion(trace[k], x, task)
    ensures trace[k].answer == env.snapshot(trace[k].round, x, task) && trace[k].round <= trace[p].round
  {
    assert Placed(env, steps, maxRunMs, trace, p) && Placed(env, steps, maxRunMs, trace, p - 1);
    assert trace[..p][p - 1] == trace[p - 1];
    task := trace[p - 1].sources[x];
    var e :| e in trace[..p - 1] && IsCompletion(e, x, task);
    k :| 0 <= k < p - 1 && trace[k] == e;
    assert Placed(env, steps, maxRunMs, trace, k);
    var c :| c in trace[..k] && IsCreation(c, x, task);
    l :| 0 <= l < k && trace[l] == c;
    RoundsGrow(env, steps, maxRunMs, trace, k, p);
  }

  lemma {:induction false} RoundsGrow(env: Environment, steps: seq<StepDef>, maxRunMs: int, trace: seq<Event>, k: nat,
                                      p: nat)
    requires Orderly(env, steps, maxRunMs, trace) && k <= p < |trace|
    ensures trace[k].round <= trace[p].round
  {
    if k < p {
      RoundsGrow(env, steps, maxRunMs, trace, k, p - 1);
      assert Placed(env, steps, maxRunMs, trace, p);
      assert trace[..p][p - 1] == trace[p - 1];
    }
  }

  /** The outside gave an answer the run can go on with: in time, not failed or cancelled, readable, accepted. */
  ghost predicate WentWell(env: Environment, maxRunMs: int, e: Event) {
    match e
    case Checked(n, _) => env.clock(n) - env.startedAt <= maxRunMs as real
    case Asked(n, id, task, _) =>
      env.snapshot(n, id, task) in {Some(Pending), Some(Assigned), Some(Running), Some(Completed)}
    case Read(n, step, sources, _) => Resolves(env, n, step.payload, sources)
    case Enqueued(n, step, payload, _) =>
      env.enqueue(n, step.id, payload).Some? && env.enqueue(n, step.id, payload).value > 0
  }

  /** The round of the event began with a reading of the clock. */
  ghost predicate BeganWithCheck(env: Environment, trace: seq<Event>, p: nat)
    requires p < |trace|
  {
    exists q :: 0 <= q <= p && trace[q] == Checked(trace[p].round, env.clock(trace[p].round) - env.startedAt)
  }

  lemma WellMeans(env: Environment, steps: seq<StepDef>, maxRunMs: int, past: seq<Event>, e: Event)
    requires WellPlaced(env, steps, past, e)
    ensures FailureOf(e, maxRunMs) == None <==> WentWell(env, maxRunMs, e)
  {
  }

  lemma EverythingBeforeWentWell(env: Environment, steps: seq<StepDef>, maxRunMs: int, trace: seq<Event>, p: nat)
    requires Orderly(env, steps, maxRunMs, trace) && p < |trace|
    requires p < |trace| - 1 || AllWell(trace, maxRunMs)
    ensures WentWell(env, maxRunMs, trace[p])
  {
    assert Placed(env, steps, maxRunMs, trace, p) && Placed(env, steps, maxRunMs, trace, |trace| - 1);
    WellMeans(env, steps, maxRunMs, trace[..p], trace[p]);
    if p < |trace| - 1 {
      assert trace[..|trace| - 1][p] == trace[p];
    }
  }

  /** Every round begun, up to that of the event, began with a reading of the clock. */
  lemma {:induction false} RoundsBegin(env: Environment, steps: seq<StepDef>, maxRunMs: int, trace: seq<Event>, p: nat,
                                       n: nat) returns (q: nat)
    requires Orderly(env, steps, maxRunMs, trace) && p < |trace| && n <= trace[p].round
    ensures q <= p && trace[q] == Checked(n, env.clock(n) - env.startedAt)
  {
    assert Placed(env, steps, maxRunMs, trace, p);
    if trace[p].Checked? && trace[p].round == n {
      q := p;
    } else {
      assert trace[..p] != [] ==> trace[..p][p - 1] == trace[p - 1];
      q := RoundsBegin(env, steps, maxRunMs, trace, p - 1, n);
    }
  }

  // ----- the trace and the runtime -----

  /** The runtime knows exactly the children created and exactly which of them were COMPLETED. */
  ghost predicate Agrees(rt: Runtime, trace: seq<Event>) {
    && (forall id | Submitted(rt, id) :: Created(trace, id, TaskOf(rt, id)))
    && (forall id, t | Created(trace, id, t) :: Submitted(rt, id) && TaskOf(rt, id) == t)
    && (forall id | Done(rt, id) :: Submitted(rt, id) && Confirmed(trace, id, TaskOf(rt, id)))
    && (forall id, t | Confirmed(trace, id, t) :: Done(rt, id) && TaskOf(rt, id) == t)
  }

  function TaskOf(rt: Runtime, id: Text): int {
    if Submitted(rt, id) then rt[id].taskId.value else 0
  }

  /** What holds between any two events as long as nothing failed, with this many rounds begun. */
  ghost predicate TrackedTo(env: Environment, steps: seq<StepDef>, maxRunMs: int, rt: Runtime, trace: seq<Event>,
                            rounds: nat) {
    && Orderly(env, steps, maxRunMs, trace) && AllWell(trace, maxRunMs)
    && Agrees(rt, trace)
    && Rounds(trace) == rounds
  }

  /** The same within a round. */
  ghost predicate Tracked(env: Environment, steps: seq<StepDef>, maxRunMs: int, rt: Runtime, trace: seq<Event>,
                          round: nat) {
    TrackedTo(env, steps, maxRunMs, rt, trace, round + 1)
  }

  /** The last event is the cause of the failure. */
  ghost predicate Stopped(env: Environment, steps: seq<StepDef>, maxRunMs: int, trace: seq<Event>, failure: Failure) {
    Orderly(env, steps, maxRunMs, trace) && trace != [] && FailureOf(trace[|trace| - 1], maxRunMs) == Some(failure)
  }

  lemma Appended(env: Environment, steps: seq<StepDef>, maxRunMs: int, trace: seq<Event>, e: Event)
    requires Orderly(env, steps, maxRunMs, trace) && AllWell(trace, maxRunMs) && WellPlaced(env, steps, trace, e)
    ensures Orderly(env, steps, maxRunMs, trace + [e])
    ensures FailureOf(e, maxRunMs) == None ==> AllWell(trace + [e], maxRunMs)
  {
    var more := trace + [e];
    forall p | 0 <= p < |more| ensures Placed(env, steps, maxRunMs, more, p) {
      if p < |trace| {
        assert Placed(env, steps, maxRunMs, trace, p) && more[..p] == trace[..p];
      } else {
        assert more[..p] == trace;
      }
    }
  }

  lemma AppendedFacts(trace: seq<Event>, e: Event)
    ensures forall id, t :: Created(trace + [e], id, t) <==> Created(trace, id, t) || IsCreation(e, id, t)
    ensures forall id, t :: Confirmed(trace + [e], id, t) <==> Confirmed(trace, id, t) || IsCompletion(e, id, t)
  {
    var more := trace + [e];
    assert forall x :: x in more <==> x in trace || x == e;
    forall id, t ensures Created(more, id, t) <==> Created(trace, id, t) || IsCreation(e, id, t) {
      if Created(more, id, t) {
        var x :| x in more && IsCreation(x, id, t);
        assert x in trace || x == e;
      }
    }
    forall id, t ensures Confirmed(more, id, t) <==> Confirmed(trace, id, t) || IsCompletion(e, id, t) {
      if Confirmed(more, id, t) {
        var x :| x in more && IsCompletion(x, id, t);
        assert x in trace || x == e;
      }
    }
  }

  /** Clock readings and reads of sources leave the runtime alone. */
  lemma NeutralEvent(env: Environment, steps: seq<StepDef>, maxRunMs: int, rt: Runtime, trace: seq<Event>, e: Event)
    requires TrackedTo(env, steps, maxRunMs, rt, trace, Rounds(trace)) && WellPlaced(env, steps, trace, e)
    requires e.Checked? || e.Read?
    ensures Orderly(env, steps, maxRunMs, trace + [e])
    ensures FailureOf(e, maxRunMs) == None ==> Tracked(env, steps, maxRunMs, rt, trace + [e], e.round)
  {
    Appended(env, steps, maxRunMs, trace, e);
    AppendedFacts(trace, e);
  }

  lemma AskedAgrees(rt: Runtime, trace: seq<Event>, e: Event)
    requires Agrees(rt, trace) && e.Asked? && IsPolled(rt, e.id) && e.task == TaskOf(rt, e.id) && e.answer.Some?
    ensures Agrees(rt[e.id := rt[e.id].(status := Reported(e.answer.value))], trace + [e])
  {
    var after := rt[e.id := rt[e.id].(status := Reported(e.answer.value))];
    AppendedFacts(trace, e);
    assert forall x :: (Submitted(after, x) <==> Submitted(rt, x)) && TaskOf(after, x) == TaskOf(rt, x);
    assert forall x :: Done(after, x) <==> if x == e.id then e.answer.value == Completed else Done(rt, x);
    forall x, t | Confirmed(trace + [e], x, t) ensures Done(after, x) && TaskOf(after, x) == t {
      assert Confirmed(trace, x, t) || IsCompletion(e, x, t);
    }
  }

  lemma EnqueuedAgrees(rt: Runtime, trace: seq<Event>, e: Event)
    requires Agrees(rt, trace) && e.Enqueued? && e.reply.Some? && e.reply.value > 0
    requires e.step.id in rt && rt[e.step.id] == Slot(None, Waiting)
    ensures Agrees(rt[e.step.id := Slot(e.reply, Reported(Pending))], trace + [e])
  {
    var after := rt[e.step.id := Slot(e.reply, Reported(Pending))];
    AppendedFacts(trace, e);
    assert IsCreation(e, e.step.id, TaskOf(after, e.step.id));
    assert forall x | x != e.step.id ::
          (Submitted(after, x) <==> Submitted(rt, x)) && TaskOf(after, x) == TaskOf(rt, x);
    assert forall x :: Done(after, x) <==> Done(rt, x);
    forall x, t | Created(trace + [e], x, t) ensures Submitted(after, x) && TaskOf(after, x) == t {
      assert Created(trace, x, t) || IsCreation(e, x, t);
    }
    forall x, t | Confirmed(trace + [e], x, t) ensures Done(after, x) && TaskOf(after, x) == t {
      assert Confirmed(trace, x, t);
    }
  }

  /** A good answer about an unfinished child sets its status. */
  lemma AskedEvent(env: Environment, steps: seq<StepDef>, maxRunMs: int, rt: Runtime, trace: seq<Event>, round: nat,
                   id: Text)
    requires Tracked(env, steps, maxRunMs, rt, trace, round) && IsPolled(rt, id)
    ensures var e := Asked(round, id, TaskOf(rt, id), env.snapshot(round, id, TaskOf(rt, id)));
      && Orderly(env, steps, maxRunMs, trace + [e])
      && (FailureOf(e, maxRunMs) == None ==>
            Tracked(env, steps, maxRunMs, rt[id := rt[id].(status := Reported(e.answer.value))], trace + [e], round))
  {
    var e := Asked(round, id, TaskOf(rt, id), env.snapshot(round, id, TaskOf(rt, id)));
    assert WellPlaced(env, steps, trace, e);
    Appended(env, steps, maxRunMs, trace, e);
    if FailureOf(e, maxRunMs) == None {
      AskedAgrees(rt, trace, e);
    }
  }

  /** A good reply gives the step its child. */
  lemma EnqueuedEvent(env: Environment, steps: seq<StepDef>, maxRunMs: int, rt: Runtime, trace: seq<Event>, e: Event)
    requires Tracked(env, steps, maxRunMs, rt, trace, e.round) && WellPlaced(env, steps, trace, e) && e.Enqueued?
    requires e.step.id in rt && rt[e.step.id] == Slot(None, Waiting)
    ensures Orderly(env, steps, maxRunMs, trace + [e])
    ensures FailureOf(e, maxRunMs) == None ==>
              Tracked(env, steps, maxRunMs, rt[e.step.id := Slot(e.reply, Reported(Pending))], trace + [e], e.round)
  {
    Appended(env, steps, maxRunMs, trace, e);
    if FailureOf(e, maxRunMs) == None {
      EnqueuedAgrees(rt, trace, e);
    }
  }

  // ----- polling -----

  predicate IsPolled(rt: Runtime, id: Text) {
    Submitted(rt, id) && !Done(rt, id)
  }

  function Answer(rt: Runtime, env: Environment, round: nat, id: Text): Option<Status>
    requires Submitted(rt, id)
  {
    env.snapshot(round, id, rt[id].taskId.value)
  }

  predicate IsGoodAnswer(answer: Option<Status>) {
    answer.Some? && answer.value != Failed && answer.value != Cancelled
  }

  ghost predicate PollOk(rt: Runtime, env: Environment, round: nat, id: Text) {
    IsPolled(rt, id) ==> IsGoodAnswer(Answer(rt, env, round, id))
  }

  ghost function Polled(rt: Runtime, env: Environment, round: nat, id: Text): Slot
    requires id in rt && PollOk(rt, env, round, id)
  {
    if IsPolled(rt, id) then rt[id].(status := Reported(Answer(rt, env, round, id).value)) else rt[id]
  }

  // ----- submitting -----

  /** Resolution of a step's payload against these sources succeeds. */
  ghost predicate Resolves(env: Environment, round: nat, payload: Json, sources: map<Text, int>) {
    && AllSelected(References(payload), sources, env.Results(round))
    && Fits(Substitute(payload, Chosen(sources, env.Results(round))))
  }

  ghost function ReadResult(env: Environment, round: nat, payload: Json,
                            sources: map<Text, int>): ResultResolution.Outcome {
    if Resolves(env, round, payload, sources) then Resolved(Substitute(payload, Chosen(sources, env.Results(round))))
    else ReadError
  }

  ghost predicate IsDue(g: Graph, rt: Runtime, id: Text) {
    id in rt && !Submitted(rt, id) && Ready(g, rt, id)
  }

  ghost predicate SubmittedIfDue(g: Graph, before: Runtime, after: Runtime, id: Text) {
    && id in before && id in after
    && if IsDue(g, before, id) then after[id].taskId.Some? && after[id].status == Reported(Pending)
       else after[id] == before[id]
  }

  /** Finds all sources exactly when every strict ancestor is COMPLETED and has its child task. */
  method AvailableAncestors(id: Text, g: Graph, rt: Runtime) returns (sources: Option<map<Text, int>>)
    ensures sources.Some? <==> forall x | x in Ancestors(g, id) :: Done(rt, x) && Submitted(rt, x)
    ensures sources.Some? ==>
              && sources.value.Keys == Ancestors(g, id)
              && forall x | x in sources.value :: x in rt && rt[x].taskId == Some(sources.value[x])
  {
    var ancestors := AncestorsOf(g, id);
    assert ancestors == Ancestors(g, id);
    sources := TaskIdsOf(ancestors, rt);
  }

  method TaskIdsOf(ancestors: set<Text>, rt: Runtime) returns (sources: Option<map<Text, int>>)
    ensures sources.Some? <==> forall x | x in ancestors :: Done(rt, x) && Submitted(rt, x)
    ensures sources.Some? ==>
              && sources.value.Keys == ancestors
              && forall x | x in sources.value :: x in rt && rt[x].taskId == Some(sources.value[x])
  {
    var found: map<Text, int> := map[];
    var left := ancestors;
    while left != {}
      invariant left <= ancestors
      invariant forall x :: x in found <==> x in ancestors && x !in left
      invariant forall x | x in found :: Done(rt, x) && rt[x].taskId == Some(found[x])
      decreases |left|
    {
      var x :| x in left;
      if !Done(rt, x) || !Submitted(rt, x) {
        return None;
      }
      found := found[x := rt[x].taskId.value];
      left := left - {x};
    }
    sources := Some(found);
  }

  // ----- the loop -----

  /** Asks about one child; a step that has none, or whose child is COMPLETED, is passed over. */
  method PollStep(id: Text, steps: seq<StepDef>, rt: Runtime, env: Environment, maxRunMs: int, round: nat,
                  ghost past: seq<Event>)
    returns (failure: Option<Failure>, after: Runtime, ghost trace: seq<Event>)
    requires Tracked(env, steps, maxRunMs, rt, past, round) && id in rt
    ensures past <= trace && Orderly(env, steps, maxRunMs, trace)
    ensures failure.None? <==> PollOk(rt, env, round, id)
    ensures failure.None? ==>
              && Tracked(env, steps, maxRunMs, after, trace, round)
              && after == rt[id := Polled(rt, env, round, id)]
              && (IsPolled(rt, id) ==> Asked(round, id, TaskOf(rt, id), Answer(rt, env, round, id)) in trace)
    ensures failure.Some? ==> Stopped(env, steps, maxRunMs, trace, failure.value)
  {
    failure, after, trace := None, rt, past;
    if !IsPolled(rt, id) {
      assert after == rt[id := rt[id]];
      return;
    }
    var answer := env.snapshot(round, id, rt[id].taskId.value);
    AskedEvent(env, steps, maxRunMs, rt, past, round, id);
    trace := past + [Asked(round, id, TaskOf(rt, id), answer)];
    assert trace[|past|] in trace;
    if answer.None? || answer.value == Cancelled {
      return Some(BadSnapshot), rt, trace;
    }
    if answer.value == Failed {
      return Some(ChildFailed), rt, trace;
    }
    after := rt[id := rt[id].(status := Reported(answer.value))];
  }

  method PollChildren(steps: seq<StepDef>, rt: Runtime, env: Environment, maxRunMs: int, round: nat,
                      ghost past: seq<Event>)
    returns (failure: Option<Failure>, after: Runtime, ghost trace: seq<Event>)
    requires DistinctIds(steps) && forall k | 0 <= k < |steps| :: steps[k].id in rt
    requires Tracked(env, steps, maxRunMs, rt, past, round)
    ensures failure.None? <==> forall k | 0 <= k < |steps| :: PollOk(rt, env, round, steps[k].id)
    ensures failure.None? ==> after.Keys == rt.Keys && PolledUpTo(steps, rt, after, env, round, |steps|)
    ensures past <= trace && Orderly(env, steps, maxRunMs, trace)
    ensures failure.None? ==>
              && Tracked(env, steps, maxRunMs, after, trace, round)
              && AskedUpTo(steps, rt, env, round, trace, |steps|)
    ensures failure.Some? ==> Stopped(env, steps, maxRunMs, trace, failure.value)
  {
    failure, after, trace := None, rt, past;
    for i := 0 to |steps|
      invariant failure.None? && past <= trace && Tracked(env, steps, maxRunMs, after, trace, round)
      invariant after.Keys == rt.Keys && PolledUpTo(steps, rt, after, env, round, i)
      invariant AskedUpTo(steps, rt, env, round, trace, i)
    {
      var id := steps[i].id;
      ghost var before, earlier := after, trace;
      failure, after, trace := PollStep(id, steps, after, env, maxRunMs, round, trace);
      if failure.Some? {
        return;
      }
      PolledOneMore(steps, rt, before, env, round, i);
      AskedOneMore(steps, rt, env, round, earlier, trace, i);
    }
  }

  method IsReady(step: StepDef, rt: Runtime) returns (ready: bool)
    ensures ready <==> forall d | d in step.dependsOn :: Done(rt, d)
  {
    for i := 0 to |step.dependsOn|
      invariant forall l | 0 <= l < i :: Done(rt, step.dependsOn[l])
    {
      if !Done(rt, step.dependsOn[i]) {
        return false;
      }
    }
    ready := true;
  }

  /** Resolves the payload of a ready step and enqueues it: neither reference error is possible here. */
  method Submit(step: StepDef, steps: seq<StepDef>, g: Graph, rt: Runtime, env: Environment, maxRunMs: int, round: nat,
                ghost past: seq<Event>)
    returns (failure: Option<Failure>, after: Runtime, ghost trace: seq<Event>)
    requires g == GraphOf(steps) && step in steps && Consistent(g, rt) && Tracked(env, steps, maxRunMs, rt, past, round)
    requires IsDue(g, rt, step.id) && Acceptable(step.payload, 0, 0, Ancestors(g, step.id))
    ensures past <= trace && Orderly(env, steps, maxRunMs, trace)
    ensures failure.None? ==>
              && step.id in after && after == rt[step.id := after[step.id]]
              && after[step.id].taskId.Some? && after[step.id].status == Reported(Pending)
    ensures failure.None? ==> Tracked(env, steps, maxRunMs, after, trace, round)
    ensures failure.Some? ==> Stopped(env, steps, maxRunMs, trace, failure.value)
  {
    AncestorsDone(g, rt, step.id);
    after := rt;
    var sources := AvailableAncestors(step.id, g, rt);
    if sources.None? {
      assert false;
    }
    var resolved := ResolveResultReferences(step.payload, sources.value, env.Results(round));
    if resolved == ReferenceError {
      assert false;
    }
    ghost var read := Read(round, step, sources.value, resolved);
    ReadPlaced(steps, rt, env, maxRunMs, past, read);
    NeutralEvent(env, steps, maxRunMs, rt, past, read);
    trace := past + [read];
    if resolved == ReadError {
      return Some(ReadFailed), rt, trace;
    }
    var reply := env.enqueue(round, step.id, resolved.value);
    ghost var enqueued := Enqueued(round, step, resolved.value, reply);
    assert WellPlaced(env, steps, trace, enqueued);
    EnqueuedEvent(env, steps, maxRunMs, rt, trace, enqueued);
    trace := trace + [enqueued];
    if reply.None? || reply.value <= 0 {
      return Some(EnqueueFailed), rt, trace;
    }
    failure, after := None, rt[step.id := Slot(reply, Reported(Pending))];
  }

  lemma ReadPlaced(steps: seq<StepDef>, rt: Runtime, env: Environment, maxRunMs: int, past: seq<Event>, read: Event)
    requires read.Read? && read.step in steps && Tracked(env, steps, maxRunMs, rt, past, read.round)
    requires !Submitted(rt, read.step.id) && read.sources.Keys == Ancestors(GraphOf(steps), read.step.id)
    requires forall x | x in read.sources :: Done(rt, x) && rt[x].taskId == Some(read.sources[x])
    requires read.result == ReadResult(env, read.round, read.step.payload, read.sources)
    ensures WellPlaced(env, steps, past, read)
  {
    forall x | x in read.sources ensures Created(past, x, read.sources[x]) && Confirmed(past, x, read.sources[x]) {
      assert Submitted(rt, x) && TaskOf(rt, x) == read.sources[x];
    }
  }

  method SubmitIfDue(step: StepDef, steps: seq<StepDef>, g: Graph, rt: Runtime, env: Environment, maxRunMs: int,
                     round: nat,
                     ghost past: seq<Event>)
    returns (failure: Option<Failure>, after: Runtime, ghost trace: seq<Event>)
    requires g == GraphOf(steps) && step in steps && Consistent(g, rt) && Tracked(env, steps, maxRunMs, rt, past, round)
    requires step.id in g && g[step.id] == step.dependsOn && Acceptable(step.payload, 0, 0, Ancestors(g, step.id))
    ensures past <= trace && Orderly(env, steps, maxRunMs, trace)
    ensures failure.None? ==>
              && Tracked(env, steps, maxRunMs, after, trace, round) && Consistent(g, after)
              && SubmittedIfDue(g, rt, after, step.id) && after == rt[step.id := after[step.id]]
              && forall id :: Done(after, id) <==> Done(rt, id)
    ensures failure.Some? ==> Stopped(env, steps, maxRunMs, trace, failure.value)
  {
    failure, after, trace := None, rt, past;
    if rt[step.id].taskId.Some? {
      assert after == rt[step.id := after[step.id]];
      return;
    }
    var ready := IsReady(step, rt);
    assert ready <==> Ready(g, rt, step.id);
    if ready {
      failure, after, trace := Submit(step, steps, g, rt, env, maxRunMs, round, past);
      if failure.None? {
        SubmittingKeepsConsistency(g, rt, after, step.id);
      }
      return;
    }
    assert after == rt[step.id := after[step.id]];
  }

  method SubmitReady(steps: seq<StepDef>, g: Graph, rt: Runtime, env: Environment, maxRunMs: int, round: nat,
                     ghost past: seq<Event>)
    returns (failure: Option<Failure>, after: Runtime, ghost trace: seq<Event>)
    requires IsAccepted(steps) && g == GraphOf(steps)
    requires Consistent(g, rt) && Tracked(env, steps, maxRunMs, rt, past, round)
    ensures past <= trace && Orderly(env, steps, maxRunMs, trace)
    ensures failure.None? ==>
              && Consistent(g, after) && SubmittedUpTo(steps, g, rt, after, |steps|)
              && forall id :: Done(after, id) <==> Done(rt, id)
    ensures failure.None? ==> Tracked(env, steps, maxRunMs, after, trace, round)
    ensures failure.Some? ==> Stopped(env, steps, maxRunMs, trace, failure.value)
  {
    StepsAreDeclared(steps);
    failure, after, trace := None, rt, past;
    for i := 0 to |steps|
      invariant failure.None? && past <= trace
      invariant Consistent(g, after) && Tracked(env, steps, maxRunMs, after, trace, round)
      invariant SubmittedUpTo(steps, g, rt, after, i)
      invariant forall id :: Done(after, id) <==> Done(rt, id)
    {
      GraphAt(steps, i);
      ghost var before := after;
      failure, after, trace := SubmitIfDue(steps[i], steps, g, after, env, maxRunMs, round, trace);
      if failure.Some? {
        return;
      }
      SubmittedOneMore(steps, g, rt, before, after, i);
    }
  }

  method AllDone(steps: seq<StepDef>, rt: Runtime) returns (all: bool)
    ensures all <==> forall k | 0 <= k < |steps| :: Done(rt, steps[k].id)
  {
    for i := 0 to |steps|
      invariant forall k | 0 <= k < i :: Done(rt, steps[k].id)
    {
      if !Done(rt, steps[i].id) {
        return false;
      }
    }
    all := true;
  }

  /** One entry per declared step, in order, each with the child its submission created and which was COMPLETED. */
  ghost predicate Reports(steps: seq<StepDef>, trace: seq<Event>, entries: seq<Entry>) {
    && |entries| == |steps|
    && forall i | 0 <= i < |steps| ::
         && entries[i].id == steps[i].id && entries[i].kind == steps[i].kind
         && Created(trace, entries[i].id, entries[i].taskId)
         && Confirmed(trace, entries[i].id, entries[i].taskId)
  }

  method Report(steps: seq<StepDef>, rt: Runtime, ghost trace: seq<Event>) returns (entries: seq<Entry>)
    requires Agrees(rt, trace) && forall k | 0 <= k < |steps| :: Done(rt, steps[k].id)
    ensures Reports(steps, trace, entries)
  {
    entries := [];
    for i := 0 to |steps|
      invariant Reports(steps[..i], trace, entries)
    {
      var id := steps[i].id;
      assert Done(rt, id) && Submitted(rt, id);
      entries := entries + [Entry(id, steps[i].kind, rt[id].taskId.value)];
    }
    assert steps[..|steps|] == steps;
  }

  function InitialRuntime(g: Graph): Runtime {
    map id | id in g :: Slot(None, Waiting)
  }

  lemma InitiallyHolds(g: Graph)
    ensures Consistent(g, InitialRuntime(g)) && Agrees(InitialRuntime(g), []) && Queued(g, InitialRuntime(g), 1)
  {
    forall id | id in g ensures Behind(g, id, 1) {
      assert [id] != [] && IsPath(g, [id]) && [id][0] == id && |[id]| == 1;
    }
  }

  /** Every child that was asked about was COMPLETED. */
  ghost predicate AllPrompt(trace: seq<Event>) {
    forall e | e in trace && e.Asked? :: e.answer == Some(Completed)
  }

  /** Reading the clock, then polling. */
  method PollRound(steps: seq<StepDef>, g: Graph, rt: Runtime, env: Environment, maxRunMs: int, n: nat,
                   ghost past: seq<Event>)
    returns (failure: Option<Failure>, after: Runtime, ghost trace: seq<Event>)
    requires IsAccepted(steps) && g == GraphOf(steps) && Consistent(g, rt)
    requires TrackedTo(env, steps, maxRunMs, rt, past, n)
    ensures past <= trace && Orderly(env, steps, maxRunMs, trace)
    ensures failure.None? ==>
              && Tracked(env, steps, maxRunMs, after, trace, n) && Consistent(g, after)
              && PolledUpTo(steps, rt, after, env, n, |steps|) && AskedUpTo(steps, rt, env, n, trace, |steps|)
    ensures failure.Some? ==> Stopped(env, steps, maxRunMs, trace, failure.value)
  {
    StepsAreDeclared(steps);
    var elapsed := env.clock(n) - env.startedAt;
    NeutralEvent(env, steps, maxRunMs, rt, past, Checked(n, elapsed));
    trace := past + [Checked(n, elapsed)];
    if elapsed > maxRunMs as real {
      return Some(TimedOut), rt, trace;
    }
    failure, after, trace := PollChildren(steps, rt, env, maxRunMs, n, trace);
    if failure.None? {
      forall id | id in g ensures PollOk(rt, env, n, id) && after[id] == Polled(rt, env, n, id) {
        PolledSlot(steps, rt, after, env, n, id);
      }
      PollingKeepsConsistency(g, rt, after, env, n);
    }
  }

  /** One round: reading the clock, polling, submitting. */
  method Round(steps: seq<StepDef>, g: Graph, rt: Runtime, env: Environment, maxRunMs: int, n: nat,
               ghost past: seq<Event>, ghost longest: nat)
    returns (failure: Option<Failure>, after: Runtime, ghost trace: seq<Event>, all: bool)
    requires IsAccepted(steps) && g == GraphOf(steps) && Consistent(g, rt)
    requires TrackedTo(env, steps, maxRunMs, rt, past, n)
    ensures past <= trace && Orderly(env, steps, maxRunMs, trace)
    ensures failure.None? ==>
              Consistent(g, after) && (all <==> forall k | 0 <= k < |steps| :: Done(after, steps[k].id))
    ensures failure.None? ==> Tracked(env, steps, maxRunMs, after, trace, n)
    ensures failure.Some? ==> Stopped(env, steps, maxRunMs, trace, failure.value)
    ensures failure.None? && !all && AllPrompt(trace) && ChainsAtMost(g, longest) && Queued(g, rt, n + 1) ==>
              n + 1 <= longest && Queued(g, after, n + 2)
  {
    all := false;
    var polled;
    failure, polled, trace := PollRound(steps, g, rt, env, maxRunMs, n, past);
    after := polled;
    if failure.Some? {
      return;
    }
    ghost var asked := trace;
    failure, after, trace := SubmitReady(steps, g, polled, env, maxRunMs, n, trace);
    if failure.Some? {
      return;
    }
    all := AllDone(steps, after);
    if !all && AllPrompt(trace) && ChainsAtMost(g, longest) && Queued(g, rt, n + 1) {
      ghost var late :| 0 <= late < |steps| && !Done(after, steps[late].id);
      assert forall e | e in asked :: e in trace;
      PromptRound(steps, rt, polled, after, env, asked, n, longest, late);
    }
  }

  /** What the last event of a run that throws must be, failure by failure, in terms of what the outside answered. */
  ghost predicate EndsWith(env: Environment, maxRunMs: int, trace: seq<Event>, failure: Failure) {
    trace != [] &&
    var e := trace[|trace| - 1];
    match failure
    case TimedOut => e.Checked? && env.clock(e.round) - env.startedAt > maxRunMs as real
    case BadSnapshot => e.Asked? && env.snapshot(e.round, e.id, e.task) in {None, Some(Cancelled)}
    case ChildFailed => e.Asked? && env.snapshot(e.round, e.id, e.task) == Some(Failed)
    case ReadFailed => e.Read? && !Resolves(env, e.round, e.step.payload, e.sources)
    case EnqueueFailed =>
      e.Enqueued? && var reply := env.enqueue(e.round, e.step.id, e.payload); reply.None? || reply.value <= 0
  }

  lemma FailureMeans(env: Environment, steps: seq<StepDef>, maxRunMs: int, trace: seq<Event>, failure: Failure)
    requires Orderly(env, steps, maxRunMs, trace) && trace != []
    ensures EndsWith(env, maxRunMs, trace, failure) <==> FailureOf(trace[|trace| - 1], maxRunMs) == Some(failure)
  {
    assert Placed(env, steps, maxRunMs, trace, |trace| - 1);
  }

  /** The first `rounds` rounds; the run stops at the first failure, or when every step is COMPLETED. */
  method RunRounds(steps: seq<StepDef>, env: Environment, maxRunMs: int, rounds: nat, ghost longest: nat)
    returns (r: Outcome, ghost trace: seq<Event>)
    ensures r.Rejected? <==> !IsAccepted(steps)
    ensures Orderly(env, steps, maxRunMs, trace)
    ensures r.Threw? <==> !AllWell(trace, maxRunMs)
    ensures r.Threw? ==> Stopped(env, steps, maxRunMs, trace, r.failure)
    ensures r == StillRunning ==> Rounds(trace) == rounds
    ensures r.Finished? ==> Reports(steps, trace, r.entries)
    ensures IsAccepted(steps) && ChainsAtMost(GraphOf(steps), longest) && rounds > longest ==>
              r.Threw? || !AllPrompt(trace) || r.Finished?
  {
    var parsed, g := ParseDefinition(steps);
    trace := [];
    if parsed != Parse.Accepted {
      return Rejected(parsed), trace;
    }
    var rt := InitialRuntime(g);
    InitiallyHolds(g);
    for n := 0 to rounds
      invariant Consistent(g, rt) && TrackedTo(env, steps, maxRunMs, rt, trace, n)
      invariant ChainsAtMost(g, longest) && AllPrompt(trace) ==> n <= longest && Queued(g, rt, n + 1)
    {
      var failure, all;
      ghost var past := trace;
      failure, rt, trace, all := Round(steps, g, rt, env, maxRunMs, n, trace, longest);
      assert forall e | e in past :: e in trace;
      if failure.Some? {
        assert trace[|trace| - 1] in trace;
        return Threw(failure.value), trace;
      }
      if all {
        var entries := Report(steps, rt, trace);
        return Finished(entries), trace;
      }
    }
    r := StillRunning;
  }

  /**
   * The first `rounds` rounds of a run, with the trace of what the outside answered. The run throws exactly when the
   * last event is a failure, and for that failure. If it does not throw and every child it asked about was COMPLETED,
   * it finishes within one round more than the longest chain of dependencies.
   */
  method ExecuteWorkflow(steps: seq<StepDef>, env: Environment, maxRunMs: int, rounds: nat, ghost longest: nat)
    returns (r: Outcome, ghost trace: seq<Event>)
    ensures r.Rejected? <==> !IsAccepted(steps)
    ensures Orderly(env, steps, maxRunMs, trace)
    ensures forall failure :: r == Threw(failure) <==> EndsWith(env, maxRunMs, trace, failure)
    ensures forall p | 0 <= p < |trace| && (r.Threw? ==> p < |trace| - 1) :: WentWell(env, maxRunMs, trace[p])
    ensures forall p | 0 <= p < |trace| :: BeganWithCheck(env, trace, p)
    ensures r == StillRunning ==> forall n: nat | n < rounds :: Checked(n, env.clock(n) - env.startedAt) in trace
    ensures r.Finished? ==> Reports(steps, trace, r.entries)
    ensures IsAccepted(steps) && ChainsAtMost(GraphOf(steps), longest) && rounds > longest ==>
              r.Threw? || !AllPrompt(trace) || r.Finished?
  {
    r, trace := RunRounds(steps, env, maxRunMs, rounds, longest);
    assert r.Threw? ==> trace[|trace| - 1] in trace;
    forall failure ensures r == Threw(failure) <==> EndsWith(env, maxRunMs, trace, failure) {
      if trace != [] {
        FailureMeans(env, steps, maxRunMs, trace, failure);
        assert trace[|trace| - 1] in trace;
      }
    }
    forall p | 0 <= p < |trace| && (r.Threw? ==> p < |trace| - 1) ensures WentWell(env, maxRunMs, trace[p]) {
      EverythingBeforeWentWell(env, steps, maxRunMs, trace, p);
    }
    forall p | 0 <= p < |trace| ensures BeganWithCheck(env, trace, p) {
      var q := RoundsBegin(env, steps, maxRunMs, trace, p, trace[p].round);
    }
    if r == StillRunning {
      forall n: nat | n < rounds ensures Checked(n, env.clock(n) - env.startedAt) in trace {
        var q := RoundsBegin(env, steps, maxRunMs, trace, |trace| - 1, n);
      }
    }
  }

  /** Every step not yet submitted is at the head of a chain of this many steps. */
  ghost predicate Queued(g: Graph, rt: Runtime, length: nat) {
    forall id | id in g && !Submitted(rt, id) :: Behind(g, id, length)
  }

  /** After a prompt poll, a step that is not COMPLETED has not been submitted. */
  lemma PromptPoll(steps: seq<StepDef>, start: Runtime, polled: Runtime, env: Environment, asked: seq<Event>, n: nat,
                   id: Text)
    requires id in GraphOf(steps) && PolledUpTo(steps, start, polled, env, n, |steps|)
    requires AskedUpTo(steps, start, env, n, asked, |steps|) && AllPrompt(asked)
    ensures id in start && (Done(polled, id) || !Submitted(start, id))
  {
    PolledSlot(steps, start, polled, env, n, id);
    StepsAreDeclared(steps);
    var k :| 0 <= k < |steps| && steps[k].id == id;
    assert IsPolled(start, id) ==> Asked(n, id, TaskOf(start, id), Answer(start, env, n, id)) in asked;
  }

  /** A prompt round that does not finish moves every waiting step one place back in its chain. */
  lemma PromptRound(steps: seq<StepDef>, start: Runtime, polled: Runtime, after: Runtime, env: Environment,
                    asked: seq<Event>, n: nat, longest: nat, late: nat)
    requires Closed(GraphOf(steps)) && Queued(GraphOf(steps), start, n + 1)
    requires PolledUpTo(steps, start, polled, env, n, |steps|)
    requires AskedUpTo(steps, start, env, n, asked, |steps|) && AllPrompt(asked)
    requires SubmittedUpTo(steps, GraphOf(steps), polled, after, |steps|)
    requires late < |steps| && !Done(after, steps[late].id) && forall id :: Done(after, id) <==> Done(polled, id)
    requires ChainsAtMost(GraphOf(steps), longest)
    ensures n + 1 <= longest && Queued(GraphOf(steps), after, n + 2)
  {
    var g := GraphOf(steps);
    StepsAreDeclared(steps);
    PromptPoll(steps, start, polled, env, asked, n, steps[late].id);
    BehindAtMost(g, steps[late].id, n + 1, longest);
    forall id | id in g && !Submitted(after, id) ensures Behind(g, id, n + 2) {
      NotSubmittedNotReady(steps, polled, after, id);
      var d :| Edge(g, id, d) && !Done(polled, d);
      PromptPoll(steps, start, polled, env, asked, n, d);
      BehindMore(g, id, d, n + 1);
    }
  }

  lemma NotSubmittedNotReady(steps: seq<StepDef>, polled: Runtime, after: Runtime, id: Text)
    requires SubmittedUpTo(steps, GraphOf(steps), polled, after, |steps|) && id in GraphOf(steps)
    requires !Submitted(after, id)
    ensures !Ready(GraphOf(steps), polled, id)
  {
    StepsAreDeclared(steps);
    var k :| 0 <= k < |steps| && steps[k].id == id;
    assert SubmittedIfDue(GraphOf(steps), polled, after, id);
  }

  // ----- what one round does -----

  /** The loop has polled the first `i` steps and left the others alone. */
  ghost predicate PolledUpTo(
    steps: seq<StepDef>, before: Runtime, rt: Runtime, env: Environment, round: nat, i: nat)
  {
    forall k | 0 <= k < |steps| ::
      var id := steps[k].id;
      && id in before && id in rt
      && if k < i then PollOk(before, env, round, id) && rt[id] == Polled(before, env, round, id)
         else rt[id] == before[id]
  }

  lemma PolledOneMore(steps: seq<StepDef>, before: Runtime, rt: Runtime, env: Environment, round: nat, i: nat)
    requires DistinctIds(steps) && i < |steps| && PolledUpTo(steps, before, rt, env, round, i)
    requires steps[i].id in before && PollOk(before, env, round, steps[i].id)
    ensures PolledUpTo(
      steps, before, rt[steps[i].id := Polled(before, env, round, steps[i].id)], env, round, i + 1)
  {
  }

  /** The trace has the answers about the unfinished children of the first `i` steps. */
  ghost predicate AskedUpTo(steps: seq<StepDef>, rt: Runtime, env: Environment, round: nat, trace: seq<Event>, i: nat) {
    forall k | 0 <= k < |steps| && k < i && IsPolled(rt, steps[k].id) ::
      Asked(round, steps[k].id, TaskOf(rt, steps[k].id), Answer(rt, env, round, steps[k].id)) in trace
  }

  lemma AskedOneMore(
      steps: seq<StepDef>, rt: Runtime, env: Environment, round: nat, trace: seq<Event>, more: seq<Event>, i: nat)
    requires i < |steps| && trace <= more && AskedUpTo(steps, rt, env, round, trace, i)
    requires IsPolled(rt, steps[i].id) ==>
               Asked(round, steps[i].id, TaskOf(rt, steps[i].id), Answer(rt, env, round, steps[i].id)) in more
    ensures AskedUpTo(steps, rt, env, round, more, i + 1)
  {
    assert forall e | e in trace :: e in more;
  }

  /** The loop has dealt with the first `i` steps and left the others alone. */
  ghost predicate SubmittedUpTo(steps: seq<StepDef>, g: Graph, before: Runtime, rt: Runtime, i: nat) {
    forall k | 0 <= k < |steps| ::
      var id := steps[k].id;
      && id in before && id in rt
      && if k < i then SubmittedIfDue(g, before, rt, id) else rt[id] == before[id]
  }

  lemma SubmittedOneMore(steps: seq<StepDef>, g: Graph, start: Runtime, before: Runtime, after: Runtime, i: nat)
    requires DistinctIds(steps) && i < |steps| && SubmittedUpTo(steps, g, start, before, i)
    requires forall id :: Done(before, id) <==> Done(start, id)
    requires SubmittedIfDue(g, before, after, steps[i].id) && after == before[steps[i].id := after[steps[i].id]]
    ensures SubmittedUpTo(steps, g, start, after, i + 1)
  {
    assert Ready(g, before, steps[i].id) <==> Ready(g, start, steps[i].id);
  }

  lemma StepsAreDeclared(steps: seq<StepDef>)
    ensures forall k | 0 <= k < |steps| :: steps[k].id in GraphOf(steps)
    ensures forall id | id in GraphOf(steps) :: exists k :: 0 <= k < |steps| && steps[k].id == id
  {
    GraphKeys(steps);
    forall k | 0 <= k < |steps| ensures steps[k].id in GraphOf(steps) {
      assert Ids(steps)[k] in Ids(steps);
    }
    forall id | id in GraphOf(steps) ensures exists k :: 0 <= k < |steps| && steps[k].id == id {
      var k :| 0 <= k < |steps| && Ids(steps)[k] == id;
      assert steps[k].id == id;
    }
  }

  lemma PolledSlot(
      steps: seq<StepDef>, before: Runtime, after: Runtime, env: Environment, round: nat, id: Text)
    requires PolledUpTo(steps, before, after, env, round, |steps|) && id in GraphOf(steps)
    ensures id in before && id in after && PollOk(before, env, round, id) && after[id] == Polled(before, env, round, id)
  {
    StepsAreDeclared(steps);
    var k :| 0 <= k < |steps| && steps[k].id == id;
  }

  lemma PollingKeepsConsistency(g: Graph, before: Runtime, after: Runtime, env: Environment, round: nat)
    requires Consistent(g, before) && after.Keys == g.Keys
    requires forall id | id in g :: PollOk(before, env, round, id) && after[id] == Polled(before, env, round, id)
    ensures Consistent(g, after)
  {
    forall id | Done(before, id) ensures Done(after, id) {
      assert after[id] == Polled(before, env, round, id);
    }
    forall id | id in g ensures after[id].taskId == before[id].taskId {
      assert after[id] == Polled(before, env, round, id);
    }
    forall id | Submitted(after, id) ensures Ready(g, after, id) {
      assert Submitted(before, id);
    }
  }

  lemma SubmittingKeepsConsistency(g: Graph, before: Runtime, after: Runtime, id: Text)
    requires Consistent(g, before) && IsDue(g, before, id) && id in after && after == before[id := after[id]]
    requires after[id].taskId.Some? && after[id].status == Reported(Pending)
    ensures Consistent(g, after) && forall x :: Done(after, x) <==> Done(before, x)
  {
    assert forall x :: Done(after, x) <==> Done(before, x);
    forall x | Submitted(after, x) ensures Ready(g, after, x) {
      assert x == id || Submitted(before, x);
    }
  }
}
