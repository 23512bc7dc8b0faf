/**
 * A workflow that is started again resolves and submits what it did the first time, and so finds its children again.
 */
module RestartedWorkflows {
  import opened Tables
  import opened Json
  import opened CanonicalJson
  import opened ResultReferences
  import opened ResultResolution
  import opened Protocol
  import opened Runs
  import opened FenceSafety
  import opened IdempotencyRuns
  import opened ChildKeys

  // ----- the same children -----

  lemma {:induction false} KeyPersists(run: Run, i: nat, j: nat, key: string)
    requires Valid(run) && i <= j <= |run.steps| && KeyAt(run, i, key).Some?
    requires RowAt(run, j, KeyAt(run, i, key).value.taskId).task.Some?
    ensures KeyAt(run, j, key) == KeyAt(run, i, key)
  {
    if i < j {
      var id := KeyAt(run, i, key).value.taskId;
      KeyKnown(run, i, key);
      IdsGrow(run, i, j - 1);
      RunStep(run, j - 1, id);
      KeyPersists(run, i, j - 1, key);
      KeyStep(run, j - 1, key);
    }
  }

  lemma KeyKnown(run: Run, i: nat, key: string)
    requires Valid(run) && i <= |run.steps| && KeyAt(run, i, key).Some?
    ensures KeyAt(run, i, key).value.taskId < NextIdAt(run, i)
  {
    KeysReferToRows(run, i, key);
    RowsAreOk(run, i, KeyAt(run, i, key).value.taskId);
  }

  /** The task is the child of a step of the workflow. */
  ghost predicate IsChild(run: Run, i: nat, workflow: nat, step: Text, task: int)
    requires Valid(run) && i <= |run.steps|
  {
    && IsSafeStepId(step)
    && KeyAt(run, i, ChildKey(workflow, step)).Some? && KeyAt(run, i, ChildKey(workflow, step)).value.taskId == task
  }

  /** As long as the first child of a step exists, a later execution has no other one. */
  lemma SameChild(run: Run, i: nat, j: nat, workflow: nat, step: Text, task: int, later: int)
    requires Valid(run) && i <= j <= |run.steps| && RowAt(run, j, task).task.Some?
    requires IsChild(run, i, workflow, step, task) && IsChild(run, j, workflow, step, later)
    ensures later == task
  {
    KeyPersists(run, i, j, ChildKey(workflow, step));
  }

  // ----- the same results -----

  /** What the result endpoint answers for a task after `i` steps; `parse` stands for the parsing of stored texts. */
  ghost function Projection(run: Run, i: nat, parse: string -> Option<seq<Field>>, task: int): Option<seq<Field>>
    requires Valid(run) && i <= |run.steps|
  {
    var row := RowAt(run, i, task);
    if row.Has(Completed) && row.result.Some? then parse(row.result.value.json) else None
  }

  /** The endpoint was asked about the task at some time up to `i` when the task was COMPLETED. */
  ghost predicate AskedAbout(run: Run, i: nat, parse: string -> Option<seq<Field>>, fetch: Endpoint, task: int)
    requires Valid(run) && i <= |run.steps|
  {
    exists t | 0 <= t <= i :: RowAt(run, t, task).Has(Completed) && fetch(task) == Projection(run, t, parse, task)
  }

  lemma ProjectionIsFixed(run: Run, i: nat, j: nat, parse: string -> Option<seq<Field>>, task: int)
    requires Valid(run) && i <= j <= |run.steps|
    requires RowAt(run, i, task).Has(Completed) && RowAt(run, j, task).Has(Completed)
    ensures Projection(run, i, parse, task) == Projection(run, j, parse, task)
  {
    TerminalRowsAreFrozen(run, i, j, task);
  }

  /** Whoever asks about a COMPLETED task, at whatever times, is told the same. */
  lemma SameAnswer(run: Run, i: nat, j: nat, parse: string -> Option<seq<Field>>, fetch: Endpoint, again: Endpoint,
                   task: int)
    requires Valid(run) && i <= |run.steps| && j <= |run.steps|
    requires AskedAbout(run, i, parse, fetch, task) && AskedAbout(run, j, parse, again, task)
    ensures fetch(task) == again(task)
  {
    var t :| 0 <= t <= i && RowAt(run, t, task).Has(Completed) && fetch(task) == Projection(run, t, parse, task);
    var u :| 0 <= u <= j && RowAt(run, u, task).Has(Completed) && again(task) == Projection(run, u, parse, task);
    if t <= u {
      ProjectionIsFixed(run, t, u, parse, task);
    } else {
      ProjectionIsFixed(run, u, t, parse, task);
    }
  }

  // ----- the same payload -----

  lemma {:induction false} SameSubstitution(v: Json, chosen: Reference -> Json, other: Reference -> Json)
    requires forall r :: chosen(r) == other(r)
    ensures Substitute(v, chosen) == Substitute(v, other)
    decreases v, 1
  {
    if v.Arr? {
      SameItems(v, |v.items|, chosen, other);
      assert v.items[..|v.items|] == v.items;
    } else if v.Obj? {
      SameFields(v, |v.fields|, chosen, other);
      assert v.fields[..|v.fields|] == v.fields;
    }
  }

  lemma {:induction false} SameItems(v: Json, n: nat, chosen: Reference -> Json, other: Reference -> Json)
    requires v.Arr? && n <= |v.items| && forall r :: chosen(r) == other(r)
    ensures SubstituteItems(v.items[..n], chosen) == SubstituteItems(v.items[..n], other)
    decreases v, 0, n
  {
    if n > 0 {
      assert v.items[..n][..n - 1] == v.items[..n - 1];
      SameItems(v, n - 1, chosen, other);
      SameSubstitution(v.items[n - 1], chosen, other);
    }
  }

  lemma {:induction false} SameFields(v: Json, n: nat, chosen: Reference -> Json, other: Reference -> Json)
    requires v.Obj? && n <= |v.fields| && forall r :: chosen(r) == other(r)
    ensures SubstituteFields(v.fields[..n], chosen) == SubstituteFields(v.fields[..n], other)
    decreases v, 0, n
  {
    if n > 0 {
      assert v.fields[..n][..n - 1] == v.fields[..n - 1];
      SameFields(v, n - 1, chosen, other);
      SameSubstitution(v.fields[n - 1].value, chosen, other);
    }
  }

  /** Endpoints that agree on the sources resolve a payload to the same value. */
  lemma SameResolution(payload: Json, sources: map<Text, int>, fetch: Endpoint, again: Endpoint)
    requires forall x | x in sources :: fetch(sources[x]) == again(sources[x])
    ensures Resolution(payload, sources, fetch) == Resolution(payload, sources, again)
  {
    forall r: Reference ensures Selected(r, sources, fetch) == Selected(r, sources, again) {
    }
    forall r ensures Chosen(sources, fetch)(r) == Chosen(sources, again)(r) {
    }
    SameSubstitution(payload, Chosen(sources, fetch), Chosen(sources, again));
  }

  // ----- the same child task -----

  /** The sources of an execution: children of the workflow's steps, asked about when they were COMPLETED. */
  ghost predicate AreSources(run: Run, i: nat, parse: string -> Option<seq<Field>>, workflow: nat,
                             sources: map<Text, int>, fetch: Endpoint)
    requires Valid(run) && i <= |run.steps|
  {
    forall x | x in sources :: IsChild(run, i, workflow, x, sources[x]) && AskedAbout(run, i, parse, fetch, sources[x])
  }

  lemma SameSources(run: Run, i: nat, j: nat, parse: string -> Option<seq<Field>>, workflow: nat,
                    sources: map<Text, int>, fetch: Endpoint, later: map<Text, int>, again: Endpoint)
    requires Valid(run) && i <= j <= |run.steps| && later.Keys == sources.Keys
    requires AreSources(run, i, parse, workflow, sources, fetch) && AreSources(run, j, parse, workflow, later, again)
    requires forall x | x in sources :: RowAt(run, j, sources[x]).task.Some?
    ensures later == sources && forall x | x in sources :: fetch(sources[x]) == again(sources[x])
  {
    forall x | x in sources ensures later[x] == sources[x] && fetch(sources[x]) == again(sources[x]) {
      SameChild(run, i, j, workflow, x, sources[x], later[x]);
      SameAnswer(run, i, j, parse, fetch, again, sources[x]);
    }
  }

  /**
   * A restarted execution whose sources have not been pruned resolves the payload of a step to the same value. So
   * its submission carries the same fingerprint: while the first child exists it is given that child, and never a
   * conflict.
   */
  lemma RestartNeverConflicts(run: Run, i: nat, j: nat, parse: string -> Option<seq<Field>>, hash: Text -> string,
                              workflow: nat, step: Text, request: Request,
                              sources: map<Text, int>, fetch: Endpoint, later: map<Text, int>, again: Endpoint, id: int)
    requires Valid(run) && i < j < |run.steps| && IsSafeStepId(step) && later.Keys == sources.Keys
    requires AreSources(run, i, parse, workflow, sources, fetch) && AreSources(run, j, parse, workflow, later, again)
    requires forall x | x in sources :: RowAt(run, j, sources[x]).task.Some?
    requires Resolution(request.payload, sources, fetch).Resolved?
    requires CreatedFor(run, i, ChildKey(workflow, step), Fingerprint(hash, request, sources, fetch), id)
    requires run.steps[j].Enqueue? && run.steps[j].bound > 0 && run.steps[j].key == ChildKey(workflow, step)
    requires Resolution(request.payload, later, again).Resolved? ==>
               run.steps[j].fingerprint == Fingerprint(hash, request, later, again)
    requires RowAt(run, j, id).task.Some?
    ensures Resolution(request.payload, later, again) == Resolution(request.payload, sources, fetch)
    ensures run.answers[j] == Replayed(id) && run.states[j + 1] == run.states[j]
  {
    SameSources(run, i, j, parse, workflow, sources, fetch, later, again);
    SameResolution(request.payload, sources, fetch, again);
    EnqueueIsIdempotent(run, i, j, ChildKey(workflow, step), Fingerprint(hash, request, sources, fetch), id);
  }

  /** The fingerprint of a step's contract with its payload resolved. */
  ghost function Fingerprint(hash: Text -> string, request: Request, sources: map<Text, int>, fetch: Endpoint): string
    requires Resolution(request.payload, sources, fetch).Resolved?
  {
    hash(Canonical(Contract(request.(payload := Resolution(request.payload, sources, fetch).value))))
  }
}
