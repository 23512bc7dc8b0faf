# Task queue, gateway and workflow engine: a verified model

The project models the parts of the queue that decide who may do what to a task, and proves properties of
whole runs of it. Integers are unbounded except where the source checks a bound; clock readings are reals
and every step carries its own, so time may also run backwards unless a theorem says otherwise.

**The task store** (`Tables`, `Protocol`, `TaskStore`). Four tables, one transaction per method. `Next` gives
each transaction as an atomic step on the tables; each method of class `Database` is proved against its step,
and a ghost history records the steps, so that the fields of a `Database` are always the last state of a valid
run. `Runs`, `FenceSafety`, `TerminalOutcomes`, `Refinement`, `IdempotencyRuns`, `RetryBackoff`, `Retention`
and `CapacityRuns` are theorems about arbitrary runs: workers may send any (task, worker, generation) triple
at any moment. Their proofs go through one row at a time (`RowView`).

**Dispatch** (`Matching`, `Rounding`, `Dispatch`, `WorkerRegistry`, `RegisteredDispatch`, `LeftOverTasks`,
`Coordinator`). The rounding loops work in place on arrays; `Matching` holds the counting arguments about
assignments under capacities. The transport plan is an arbitrary matrix of finite or non-finite scores.

**The workflow engine** (`DependencyGraph`, `Workflow`, `WorkflowRuntime`, `WorkflowEngine`, `ResultReferences`,
`ResultResolution`, `Substitution`, `ChildKeys`, `RestartedWorkflows`). The searches and the loop are methods;
answers from outside are functions of the round, so the theorems hold for whatever is answered. An execution
leaves a ghost trace of the answers it received, and what is said of it is said of that trace. `ChildKeys` and
`RestartedWorkflows` join the engine to the task store.

**The gateway** (`Json`, `JsonStrings`, `CanonicalJson`, `CanonicalForm`, `TokenBucket`). Strings are sequences
of UTF-16 code units, a number is the text that is printed for it, and an object is its fields in order.
SHA-256 together with the UTF-8 encoding before it is an injective function on well-formed UTF-16.

`Ordering` (ordered queries), `Sorting`, `Lexicographic` and `Utf8` are used by several of these.

Two of the source's promises are false without a condition, and the project says exactly which:

- the span bound of the token bucket holds for a sequence of clock readings if and only if no reading is
  smaller than the one before it (`TokenBucket.SpanBoundIff`); for any clock the bound holds with the sum of
  the forward advances in place of the span (`TokenBucket.WindowBound`);
- resolving a payload without references leaves it as it is if and only if no object in it has a key
  `__proto__` (`Substitution.IdentityWithoutReferences`); such a key is lost because it is assigned to a
  plain object.

## Model

| member | source | states |
|---|---|---|
| TaskStore.Database.constructor | src/sync_queue.rs:29-92 | A new database is empty and is the start of a run |
| TaskStore.Database.Enqueue | src/sync_queue.rs:178-228 | Inserts a PENDING row, due at once, under a new id, changes nothing else, and is recorded as the next step of the run |
| TaskStore.Database.EnqueueBounded | src/idempotency.rs:74-176 | Invalid, replay, conflict, full (exactly when as many rows as the bound are PENDING, ASSIGNED or RUNNING), created or rolled back, in the source's order of checks, with the whole new state |
| TaskStore.Database.ClaimTask | src/lease_fence.rs:54-136 | Claims an ASSIGNED row of the worker with locked_until >= now, if there is one; every other such row has a smaller priority, or the same and a larger id; the generation grows by one, and overflow rolls back |
| TaskStore.Database.Heartbeat | src/lease_fence.rs:138-185 | Extends the lease exactly when worker, generation and time match; a bad extension counts as ten seconds |
| TaskStore.Database.CompleteTask | src/lease_fence.rs:187-222 | Completes and releases exactly the leased row; otherwise Stale and nothing changes |
| TaskStore.Database.FailTask | src/lease_fence.rs:224-322 | Fails for good at the last attempt, else reschedules with backoff; stale calls change nothing |
| TaskStore.Database.CompleteWithProjection | src/result_projection.rs:48-113 | Completion and result row together or not at all; an empty text or one over 256 KiB in UTF-8, or a colliding insert, leaves every table as it was |
| TaskStore.Database.GetResult | src/result_projection.rs:115-135 | Returns a result exactly for a task that is kept and that a projected completion of the history won, and it is what that completion sent |
| Utf8.BytesAreEncoded | src/result_projection.rs:54-63 | The size that limits a result is the length of its UTF-8 encoding |
| TaskStore.Database.CancelTask | src/cancellation.rs:29-91 | The answer is determined by id, status and generation alone: every PENDING, ASSIGNED or RUNNING row is cancelled, unless its generation is the largest integer; an applied cancellation bumps the generation and releases the row in one step |
| TaskStore.Database.RecoverExpiredLeases | src/sync_queue.rs:230-251 | Exactly the ASSIGNED and RUNNING rows with locked_until < now become PENDING without a lock, every other row is as it was, and the answer is the number of the former |
| TaskStore.Database.SelectDoomed | src/retention.rs:61-70 | The subquery yields as many terminal rows as asked for, the first by (updated_at, id) |
| TaskStore.Database.PruneToMax | src/retention.rs:29-138 | Four deletes that each evaluate the subquery again: what exceeds the bound goes, terminal rows only and older by (updated_at, id) than every terminal row that stays; child rows go with their task and only those; the counts agree and the mismatch error cannot occur |
| Ordering.Query | src/lease_fence.rs:61-82 | ORDER BY with LIMIT, as repeated selection, returns the answer that the ordering determines |
| Ordering.AnswerIsUnique | src/sync_queue.rs:300-324 | ORDER BY a key, id with LIMIT has exactly one possible answer, whatever the query plan |
| Protocol.TakenIsMoreUrgent | src/worker_protocol.rs:386-391 | Of the rows of a query by urgency those left out have a smaller priority than each one taken, or the same and a larger id |
| RowView.StepOnRow | src/lease_fence.rs:138-222 | What any step does to one row across three tables is determined by that row, the step and its answer |
| Runs.RowsAreOk | src/lease_fence.rs:9-15 | In every reachable state: lock columns go with leased statuses, retry_count never exceeds attempts or generation, results belong to completed rows under the fence's generation, and no fence or result exists without its task |
| Runs.NotRecreated | src/sync_queue.rs:29-45 | A row id that was handed out is never created again, even after pruning |
| FenceSafety.HolderClaimed | src/lease_fence.rs:54-136 | A RUNNING row was claimed by its holder under the current generation, and since that claim nothing has interfered with it |
| FenceSafety.AppliedMutationHoldsTheLease | src/lease_fence.rs:138-322 | Every applied heartbeat, completion or failure carries worker and generation of the task's latest claim, with no dispatch, recovery, cancellation, failure, completion or pruning in between |
| FenceSafety.GenerationsGrow | src/lease_fence.rs:104-122 | The generation of an unpruned task never decreases |
| FenceSafety.GenerationsAreNeverReused | src/lease_fence.rs:113-122 | Later claims of a task get strictly larger generations, also when the same worker gets the task again |
| FenceSafety.CancellationOutranksEveryClaim | src/cancellation.rs:66-80 | After a cancellation the generation exceeds every one issued, and no later mutation or claim of the task is applied |
| FenceSafety.TerminalRowsAreFrozen | src/cancellation.rs:53-64 | A terminal row stays exactly as it is until it is pruned |
| TerminalOutcomes.EndsAreTheTerminalTransitions | src/lease_fence.rs:187-322 | A row turns terminal at exactly the applied completions, final failures and cancellations, with that status |
| TerminalOutcomes.OnlyOneEnds | src/cancellation.rs:53-89 | In a whole run at most one of the racing completions, final failures and cancellations of a task is applied |
| TerminalOutcomes.TerminalRowHasItsEnd | src/lease_fence.rs:187-322 | Every terminal row has an earlier winner and is still what the winner left |
| TerminalOutcomes.ResultIffProjected | src/result_projection.rs:71-112 | A task has a result row if and only if a projected completion won, and the row is that completion's, with its generation |
| TerminalOutcomes.ResultInsertNeverCollides | src/result_projection.rs:95-108 | The insert into task_results never violates its primary key |
| Refinement.StepsRefineLife | src/lease_fence.rs:54-322 | Every step moves every task along an edge of the abstract life (unborn, waiting, held by owner and generation, ended, gone) made by a step entitled to it, or leaves its phase alone |
| IdempotencyRuns.KeysReferToRows | src/idempotency.rs:8-34 | An idempotency key never refers to a missing task |
| IdempotencyRuns.KeysNameDistinctTasks | src/idempotency.rs:8-34 | Two keys never refer to the same task |
| IdempotencyRuns.EnqueueNeverAborts | src/idempotency.rs:136-176 | An idempotent enqueue is never rolled back by the unique index |
| IdempotencyRuns.EnqueueIsIdempotent | src/idempotency.rs:98-118 | While the first task of a key exists, equal fingerprints replay its id, other ones conflict, and nothing changes |
| IdempotencyRuns.RowsVanishByPruning | src/retention.rs:109-120 | A row that disappears was terminal and was removed by a pruning |
| IdempotencyRuns.SecondCreationNeedsPruning | src/idempotency.rs:98-174 | A key creates a second task only after its first one became terminal and was pruned in between |
| IdempotencyRuns.ActiveTasksStayBounded | src/idempotency.rs:120-134 | If every creation uses the bound N, at most N tasks are ever active |
| RetryBackoff.RetryCountIsFailureCount | src/lease_fence.rs:238-317 | retry_count is the number of applied failures, at most the generation, and a task is FAILED exactly when it equals max(1, max_retries) |
| RetryBackoff.LeaseWaitsForBackoff | src/sync_queue.rs:300-308 | If no applied failure of the task reads an earlier time than a dispatch of it before, a leased task was dispatched after its latest backoff was over, recoveries in between included |
| RetryBackoff.BackoffDoubles | src/lease_fence.rs:284-286 | Two seconds after the first failure, doubled from failure to failure, and 2097152 from the 21st one on |
| RetryBackoff.FailuresArePaced | src/lease_fence.rs:283-317 | Under the same hypothesis consecutive failures are at least the backoff of the first of them apart |
| RetryBackoff.DelayClosedForm | src/lease_fence.rs:284-286 | The first k backoffs add up to 2^(k+1) - 2 seconds while the exponent is not clamped, and to 2^21 more for each one after |
| RetryBackoff.FailuresBackOffExponentially | src/lease_fence.rs:224-322 | Under the same hypothesis the k-th applied failure comes at least 2^k - 2 seconds after the first for k up to 22, and 2^21 more for each later one |
| Protocol.DoomedAreOldest | src/retention.rs:61-70 | The deleted rows are terminal, as many as asked for, and each has a smaller updated_at than every terminal row that is kept, or the same and a smaller id |
| Retention.SurvivorsAreTheYoungest | src/retention.rs:36-127 | A terminal row survives if and only if fewer than max_terminal_tasks terminal rows have a larger updated_at, or the same and a larger id |
| Retention.PruningOnlyRemovesTerminalRows | src/retention.rs:109-120 | Active rows stay and no remaining row is changed |
| Retention.PruningLeavesKeep | src/retention.rs:44-56 | min(max_terminal_tasks, n) of n terminal rows are left |
| Retention.ChildRowsFollowTheirTask | src/retention.rs:57-107 | In every run fence, result and key of a task disappear exactly when the task does |
| Retention.PruningIsIdempotent | src/retention.rs:29-138 | Pruning again to the same bound changes and reports nothing |
| Matching.SettledIsHalfOptimal | src/worker_protocol.rs:687-720 | If no pair is left that both sides would prefer, the score is at least half of any feasible assignment's |
| Matching.MaximalIsHalfOptimal | src/worker_protocol.rs:697-720 | A maximal feasible assignment serves at least half as many tasks as any feasible one |
| Matching.MaximalIsExactWhenAllCompatible | src/sync_queue.rs:806-834 | If everything is compatible, a maximal assignment serves exactly min(tasks, slots) |
| Rounding.Candidates | src/worker_protocol.rs:679-686 | Exactly the compatible finite cells with a slot, once each, row by row |
| Rounding.GreedyPass | src/worker_protocol.rs:679-695 | After the greedy loop over arrays no compatible pair with a finite score is blocking: it is chosen, or the task has a worker with a larger score or the same and a smaller index, or the worker is full of tasks with larger scores or the same and smaller indices |
| Rounding.GreedyChoiceIsUnique | src/worker_protocol.rs:679-695 | Only one choice of compatible finite cells within the capacities leaves no blocking pair, so plan and capacities determine the result of the greedy pass with all its ties |
| Rounding.Unresolved | src/worker_protocol.rs:697-703 | The unassigned tasks, all of them once, in ascending order of the number of workers compatible with them and then of index |
| Rounding.Roomiest | src/worker_protocol.rs:705-714 | The compatible worker with most free slots, the last one on ties; none exactly when no compatible slot is free |
| Rounding.RepairScarceFirst | src/worker_protocol.rs:697-720 | The repair keeps every greedy choice, adds compatible ones and ends maximal; a maximal input is left alone; no task is left out while a less scarce one gets a worker it could have had; each task gets the worker with most free slots |
| Rounding.GreedyIsMaximalOnFinitePlans | src/worker_protocol.rs:679-695 | With finite scores the greedy pass is maximal already, so the repair assigns nothing |
| Rounding.RoundCompatible | src/worker_protocol.rs:662-723 | The in-place algorithm computes one assignment determined by its input; it is feasible, maximal, without blocking pair when equal scores are decided by index, leaves no task out for a less scarce one on a cell without a finite score, and has at least half of any feasible assignment's tasks and, for finite non-negative plans, of its score; mismatched dimensions assign nothing |
| Rounding.HighestScoring | src/sync_queue.rs:811-827 | The first of the best-scoring workers with a free slot; none exactly when no slot is free |
| Rounding.RepairInOrder | src/sync_queue.rs:806-834 | The repair keeps greedy choices and ends maximal; tasks are served in order, each with the worker it scores highest among those with a free slot, so none prefers what a later one gets |
| Rounding.RoundUnrestricted | src/sync_queue.rs:777-837 | One assignment determined by plan and capacities, within capacities, without blocking pair when equal scores are decided by index, with exactly min(tasks, slots) tasks assigned; cells without a finite score are given out in task order, each task preferring its own to what later ones get |
| Sorting.SortSorts | src/worker_protocol.rs:203-203 | Sorting by any total order of the elements puts them in order; the result is a permutation by the contract of Sort |
| Lexicographic.BinarySearch | src/worker_protocol.rs:279-285 | On an ascending list the binary search finds a name if and only if it is in the list |
| WorkerRegistry.NormalizeTaskNames | src/worker_protocol.rs:190-210 | Accepts exactly 1 to 32 distinct names of 1 to 128 safe characters and returns them strictly ascending, character by character |
| WorkerRegistry.ConstantTimeEqual | src/worker_protocol.rs:515-525 | The comparison without early exit is equality |
| WorkerRegistry.Registry.Register | src/worker_protocol.rs:78-133 | Exact acceptance; a registration replaces all sessions of its worker and no others that are alive |
| WorkerRegistry.Registry.AuthenticateAndTouch | src/worker_protocol.rs:143-166 | A session is returned and prolonged exactly for its token before its expiry; an expired one is dropped |
| WorkerRegistry.Registry.ActiveSessions | src/worker_protocol.rs:172-179 | Exactly the unexpired sessions, each once |
| Dispatch.Lease | src/sync_queue.rs:389-411 | The update loop assigns exactly the planned rows, each to its worker |
| Dispatch.DispatchBatch | src/sync_queue.rs:260-435 | Exactly min(due tasks, offered slots) PENDING due rows are leased for the seconds asked for or 10; each one left out has a smaller priority than every one taken, or the same and a larger id; no name gets more than the slots offered under it, whatever the plan scores; other rows are as they were |
| RegisteredDispatch.Compatibility | src/worker_protocol.rs:430-444 | The table is true exactly where the worker advertises the task's name |
| RegisteredDispatch.SelectWindow | src/worker_protocol.rs:361-413 | As many PENDING due rows of the type with an advertised name as there are free slots, in order; each one left out has a smaller priority than every one in the window, or the same and a larger id |
| RegisteredDispatch.GoodPlanHolds | src/worker_protocol.rs:419-492 | As a plan for all sessions of the type, the rounded assignment of the useful ones is feasible, maximal on the window and at least half of any feasible plan |
| RegisteredDispatch.DispatchKind | src/worker_protocol.rs:360-508 | Leases such a plan: window tasks only, to workers that advertise their names, within their slots; a window task is left over only if all those workers are full; no feasible plan leases more than twice as many |
| RegisteredDispatch.DispatchRegistered | src/worker_protocol.rs:296-513 | One step whose plan respects every session's type, names and capacity less its load, and whose part for each type is a good plan for the window of that type as it was before the step; the planned rows are leased for the seconds asked for or 30, and the others are as they were |
| RegisteredDispatch.DispatchAvailable | src/worker_protocol.rs:255-270 | The same for exactly the sessions that the registry considers alive |
| LeftOverTasks.LeftOverIffCrowdedOut | src/worker_protocol.rs:361-413 | A due task that a session with a slot left could take is left over if and only if at least as many due tasks of its type with advertised names have a larger priority, or the same and a smaller id, as the sessions of the type have free slots |
| LeftOverTasks.FullWindowLeavesSessionIdle | src/worker_protocol.rs:361-413 | An input where that happens: two tasks x fill the window, and a task y waits although a session for y stays idle |
| CapacityRuns.RosterGrows | src/worker_protocol.rs:120-127 | Plans stay valid when more sessions register, so one roster serves for a whole run |
| CapacityRuns.CapacityIsNeverExceeded | src/worker_protocol.rs:317-512 | In every run with registered dispatch only, a session's ASSIGNED and RUNNING tasks never exceed its capacity |
| CapacityRuns.HoldersAreCapable | src/worker_protocol.rs:419-492 | In such a run every leased task is held by a registered session of its type that advertises its name |
| Coordinator.Coordinator.DispatchAvailable | src/worker_protocol.rs:255-270 | Keeps the history of the database one of registered dispatches by the sessions issued so far |
| Coordinator.Coordinator.Register | src/worker_protocol.rs:62-133 | Registering keeps it so for the larger roster |
| Coordinator.CapacityAtAllTimes | src/worker_protocol.rs:317-512 | Whatever store methods, registrations and dispatches were called, no session holds more than its capacity or a task it did not advertise |
| DependencyGraph.AncestorsOf | workers/workflow-bun/src/workflow-handler.ts:141-154 | Terminates on every graph, cyclic or not, with exactly the transitive closure of depends_on |
| DependencyGraph.PathsRunBackwards | workers/workflow-bun/src/workflow-handler.ts:272-286 | In a topological order every path runs strictly backwards |
| DependencyGraph.CheckAcyclic | workers/workflow-bun/src/workflow-handler.ts:272-286 | Rejects if and only if depends_on has a cycle; otherwise the order of insertion into visited is topological |
| Workflow.CheckSteps | workers/workflow-bun/src/workflow-handler.ts:199-247 | Accepts exactly definitions with 1 to 32 steps, distinct safe ids, safe types, valid dependency lists, an integer priority and a non-negative integer number of retries where given |
| Workflow.ParseDefinition | workers/workflow-bun/src/workflow-handler.ts:261-300 | Which definitions are accepted and which complaint each other one gets; in an accepted one no step is its own ancestor |
| WorkflowRuntime.AncestorsDone | workers/workflow-bun/src/workflow-handler.ts:428-444 | COMPLETED steps are closed under depends_on, so all strict ancestors of a ready step are COMPLETED |
| WorkflowRuntime.SomeStepIsReady | workers/workflow-bun/src/workflow-handler.ts:506-511 | While the workflow is unfinished and every submitted child is COMPLETED, some waiting step is ready |
| WorkflowRuntime.ChainsFit | workers/workflow-bun/src/workflow-handler.ts:272-286 | In an accepted graph no chain of dependencies is longer than the number of steps |
| WorkflowEngine.AvailableAncestors | workers/workflow-bun/src/workflow-handler.ts:428-444 | Finds the task ids of exactly the strict ancestors, or fails exactly when one is not COMPLETED |
| WorkflowEngine.PollChildren | workers/workflow-bun/src/workflow-handler.ts:497-504 | Asks about every submitted unfinished child once and takes over its status; it fails on the first bad or FAILED answer, which is then the last event of the trace |
| WorkflowEngine.Submit | workers/workflow-bun/src/workflow-handler.ts:446-471 | For a ready step neither the missing-source error nor a reference error can be raised |
| WorkflowEngine.SubmitReady | workers/workflow-bun/src/workflow-handler.ts:506-520 | Submits exactly the waiting steps whose dependencies are COMPLETED and leaves the others alone; a failure is that of the last event |
| WorkflowEngine.Round | workers/workflow-bun/src/workflow-handler.ts:492-546 | Keeps runtime and trace in agreement; if every child asked about was COMPLETED, it finishes or moves every waiting step one place along its chain |
| WorkflowEngine.SubmittedOnce | workers/workflow-bun/src/workflow-handler.ts:506-516 | In the trace of any execution no step is submitted twice |
| WorkflowEngine.AncestorsCompletedFirst | workers/workflow-bun/src/workflow-handler.ts:428-444 | Before a step is submitted, each strict ancestor had been submitted and, after that, its own child reported COMPLETED |
| WorkflowEngine.ExecuteWorkflow | workers/workflow-bun/src/workflow-handler.ts:473-547 | The trace holds what was really answered, each event in its place and each round begun by reading the clock; the run throws for a failure exactly when the last event is of its kind: a round begun more than maxRunMs after the start, an invalid or FAILED snapshot, a read that cannot resolve, a refused submission; everything before was well; a result has one entry per declared step in order, each with its submitted child that was reported COMPLETED; if it does not throw and every child asked about was COMPLETED, it finishes within longest chain + 1 rounds |
| ResultReferences.ValidatePayload | workers/workflow-bun/src/result-reference.ts:95-137 | Accepts exactly payloads of bounded depth without malformed references, with at most 64 references, all to allowed steps |
| ResultReferences.ReferenceSyntax | workers/workflow-bun/src/result-reference.ts:77-93 | An object is a reference if and only if it has exactly the fields `$from` and `path`, a safe step id and a path |
| ResultReferences.PathIsItsSegments | workers/workflow-bun/src/result-reference.ts:56-75 | A text is a path with these segments if and only if it is the one to eight safe segments joined by points and has at most 256 bytes in UTF-8 |
| ResultResolution.IndexIsDecimal | workers/workflow-bun/src/result-reference.ts:10-10 | An index segment is the decimal text of its number, so different segments select different elements |
| ResultResolution.DecimalIsIndex | workers/workflow-bun/src/result-reference.ts:10-10 | Every number below a million is written by an index segment |
| ResultResolution.SelectPath | workers/workflow-bun/src/result-reference.ts:238-259 | Answers with the value that the segments lead to, element by decimal position and field by key, and with a read error if and only if they lead to no value |
| ResultResolution.ElementIsSelected | workers/workflow-bun/src/result-reference.ts:242-251 | The path of a field name and the decimal text of i leads to the element i of the array stored there, for every i below a million, and nowhere past its end |
| ResultResolution.FieldIsSelected | workers/workflow-bun/src/result-reference.ts:253-256 | The path of one field name leads to the value stored under it, whichever position the field has |
| ResultResolution.ResolutionDelivers | workers/workflow-bun/src/result-reference.ts:281-317 | Resolution replaces each reference by the value that its path leads to in the result of its source, and fails exactly when one of them leads nowhere |
| Utf8.Utf8LengthIsEncoded | workers/workflow-bun/src/result-reference.ts:320-328 | The size that limits a resolved payload is the length of its UTF-8 encoding |
| ResultResolution.Resolver.Resolve | workers/workflow-bun/src/result-reference.ts:281-317 | An acceptable payload meets no reference error; it resolves to the substitution exactly when every selection succeeds |
| ResultResolution.ResolveResultReferences | workers/workflow-bun/src/result-reference.ts:261-330 | A reference error is raised exactly for payloads that validation rejects with the sources as allowed steps; each reference is replaced by the value its path leads to; read errors are raised exactly for references that lead nowhere or results over 256 KiB |
| Substitution.OnlyReferencesAreReplaced | workers/workflow-bun/src/result-reference.ts:284-317 | At every position outside references the node stays the same; a reference becomes the selected value, which is not scanned again |
| Substitution.IdentityWithoutReferences | workers/workflow-bun/src/result-reference.ts:312-316 | A payload without references is left as it is if and only if it has no key `__proto__` |
| Substitution.ProtoIsLost | workers/workflow-bun/src/result-reference.ts:312-316 | An accepted payload that loses its only field |
| ChildKeys.ChildKeysInjective | workers/workflow-bun/src/workflow-handler.ts:350-352 | Different (workflow, step) pairs have different keys |
| ChildKeys.OneChildPerStep | workers/workflow-bun/src/workflow-handler.ts:506-516 | Of the child rows that exist at one time, two are the same row if and only if they were created for the same step of the same workflow |
| ChildKeys.RestartReattaches | src/idempotency.rs:101-118 | A restarted execution that submits the same contract gets the child it had, unless that child was pruned |
| RestartedWorkflows.SameSources | workers/workflow-bun/src/workflow-handler.ts:428-444 | While the sources are kept, a restarted execution has the same source tasks and is told the same results |
| RestartedWorkflows.SameResolution | workers/workflow-bun/src/result-reference.ts:261-330 | Endpoints that agree on the sources resolve a payload to the same value |
| RestartedWorkflows.RestartNeverConflicts | workers/workflow-bun/src/workflow-handler.ts:446-516 | A restarted execution whose sources and child are kept resolves the same payload, so its submission has the same fingerprint and is answered with the child it had, never with a conflict |
| JsonStrings.ReadQuoted | gateway/src/app.ts:173-180 | Reading back a quoted string gives the string and whatever follows it, for every sequence of code units |
| JsonStrings.QuoteSelfDelimiting | gateway/src/app.ts:187-190 | A quoted string and what follows it can be told apart in only one way |
| CanonicalJson.ValuesApart | gateway/src/app.ts:172-194 | The canonical text of a value ends where it must: no text is a proper beginning of another in a place where a value may end |
| CanonicalJson.EqualTextsMeanSame | gateway/src/app.ts:172-194 | Equal canonical texts come from values equal up to the order of keys |
| CanonicalJson.SameHaveEqualTexts | gateway/src/app.ts:186-191 | Values equal up to the order of keys have the same canonical text |
| CanonicalJson.CanonicalDecidesSame | gateway/src/app.ts:172-194 | Both directions |
| CanonicalJson.CanonicalIsPaired | gateway/src/app.ts:172-199 | Canonical texts are well-formed UTF-16, so encoding them loses nothing |
| CanonicalForm.CanonicalIsPrinted | gateway/src/app.ts:172-194 | The canonical text has items in order, fields in ascending order of their keys compared by code unit, and no white space |
| CanonicalForm.UnitsAreEscaped | gateway/src/app.ts:173-180 | Which code units of a string are escaped, and how |
| CanonicalForm.PartsAreEscaped | gateway/src/app.ts:173-180 | A string is escaped unit by unit, except that surrogate pairs are copied |
| CanonicalJson.FingerprintIsContractEquality | gateway/src/app.ts:201-218 | For a hash that is injective on well-formed UTF-16, fingerprints are equal if and only if type, kind, priority, retries and payload are, the payload up to key order |
| TokenBucket.Create | gateway/src/admission.ts:14-28 | Throws exactly for a bad rate or burst; otherwise the bucket starts full |
| TokenBucket.Admission.TryAcquire | gateway/src/admission.ts:30-50 | The bucket earns rate tokens a second of forward clock advance, up to the burst; a call is allowed exactly when a whole token is there and takes it; otherwise the advice is the least positive number of seconds that earns what is missing |
| TokenBucket.TokensPayForCalls | gateway/src/admission.ts:30-43 | Admitted calls never exceed the tokens at the start plus what the clock's forward advances are worth |
| TokenBucket.WindowBound | gateway/src/admission.ts:30-43 | Any stretch of calls admits at most the burst plus the worth of the forward advances after its first call |
| TokenBucket.SpanBound | gateway/src/admission.ts:30-43 | With a non-decreasing clock a stretch spanning T ms admits at most burst + rate * T / 1000 |
| TokenBucket.BackwardStepExceeds | gateway/src/admission.ts:32-33 | Whenever the clock steps back in a stretch, a new bucket of some configuration that the constructor accepts admits more than that |
| TokenBucket.SpanBoundIff | gateway/src/admission.ts:14-43 | The bound by the span holds of new buckets in every accepted configuration if and only if the clock never steps back |
| TokenBucket.RetryAfterIsExact | gateway/src/admission.ts:45-49 | A refused caller that returns after k whole seconds, with no call between, is admitted if and only if k is at least retryAfterSeconds |

## Left out

- SQLite itself: journal modes, the busy-retry loop, schema creation and migration. A transaction is one step; AUTOINCREMENT ids are never reused; the UNIQUE and PRIMARY KEY constraints are modelled, and shown never to fire.
- Threads, async scheduling and cancellation of futures; the parallel `Promise.all` of resolution is done in order, with a result endpoint that answers deterministically.
- The Sinkhorn iteration and the cost matrix: the plan is any matrix of scores, `epsilon` has no effect on what is proved.
- Floating point: clock readings, lease ends and tokens are exact reals; NaN and infinities are kept where the source tests for them.
- TaskStore.Database.EnqueueBounded: argument validation of the HTTP layer in front of them (names, sizes, priorities) is not part of this model.
- TaskStore.Database.PruneToMax: the branches for a database without one of the three child tables.
- TaskStore.Database.CancelTask: the error for a lost update inside the transaction, which one atomic step cannot produce.
- IdempotencyRuns.ActiveTasksStayBounded: assumes that every task was created by the bounded enqueue with one bound, since the plain enqueue checks none.
- CapacityRuns.CapacityIsNeverExceeded: is about runs in which all dispatching goes through registered dispatch, as class `Coordinator` keeps it, and session ids are fresh; `dispatch_batch` trusts the slots its caller states.
- WorkerRegistry.Registry.Register: random ids and tokens are parameters, the id not issued before; clock readings are integers.
- RegisteredDispatch.DispatchRegistered: task types are served in any order, not in the order of their names; the list of assignments is given as the map from task to session.
- Dispatch.DispatchBatch: the rounded transport scores it reports.
- Rounding.RoundCompatible: the worker index is not narrowed to 32 bits.
- Workflow.ParseDefinition: reading the JSON text, unknown fields, and the types of fields; a definition is a list of steps whose fields have their types.
- WorkflowEngine.ExecuteWorkflow: the loop is followed for any given number of rounds, since the source bounds it only by the clock; sleeping and logging.
- WorkflowEngine.PollChildren: a query error, a wrong id or name and a status outside the five known ones (CANCELLED among them) are one answer, the invalid snapshot.
- ResultResolution.ResolveResultReferences: the HTTP exchange and the checks on its wrapper are one answer, a stored projection or none; configuration checks. Key order is the order of the fields, not JavaScript's order with integer keys first.
- RestartedWorkflows.RestartNeverConflicts: the parsing of a stored result is any function of its text.
- CanonicalJson.CanonicalDecidesSame: numbers are given by their printed text, so -0 and non-finite numbers, which the printer merges with others, are excluded.
- SHA-256 and the UTF-8 encoder: an injective function, which is why well-formedness of the text is proved.
- The unfenced methods of `RobustSinkhornQueue` and the older gateways, which write task state without the fence.
- HTTP routing, configuration, transports, process execution, connectors, the capability catalogue, consent stores and metrics: plumbing and simple comparisons.
