/** Retry accounting, and how far apart the failures of one task are in real time. */
module RetryBackoff {
  import opened Tables
  import opened Protocol
  import opened Runs

  ghost predicate FailsAt(run: Run, i: nat, id: int)
    requires Valid(run) && i < |run.steps|
  {
    run.steps[i].Fail? && run.steps[i].id == id && run.answers[i] == Applied
  }

  /** The clock readings of the failures applied to a task in the first `i` steps. */
  ghost function Failures(run: Run, i: nat, id: int): seq<real>
    requires Valid(run) && i <= |run.steps|
  {
    if i == 0 then []
    else Failures(run, i - 1, id) + if FailsAt(run, i - 1, id) then [run.steps[i - 1].now] else []
  }

  lemma {:induction false} NoFailureBeforeBirth(run: Run, i: nat, id: int)
    requires Valid(run) && i <= |run.steps| && NextIdAt(run, i) <= id
    ensures Failures(run, i, id) == []
  {
    if i > 0 {
      IdsGrow(run, i - 1, i);
      NoFailureBeforeBirth(run, i - 1, id);
      RowsAreOk(run, i - 1, id);
      RunStep(run, i - 1, id);
    }
  }

  /** How one step changes the retry counter, the due time and the leasing of a row that exists before and after. */
  lemma StepPacing(run: Run, i: nat, id: int)
    requires Valid(run) && i < |run.steps| && RowAt(run, i, id).task.Some? && RowAt(run, i + 1, id).task.Some?
    ensures var before, after := RowAt(run, i, id).task.value, RowAt(run, i + 1, id).task.value;
            if FailsAt(run, i, id) then
              && Leased(before.status) && !Leased(after.status)
              && after.retryCount == before.retryCount + 1
              && (Terminal(after.status) || after.scheduledAt == run.steps[i].now + Backoff(before.retryCount) as real)
            else
              && after.retryCount == before.retryCount && after.scheduledAt == before.scheduledAt
              && (Terminal(before.status) ==> Terminal(after.status))
              && (Leased(after.status) && !Leased(before.status) ==>
                    run.steps[i].Dispatch? && id in run.steps[i].plan && before.scheduledAt <= run.steps[i].now)
  {
    RowsAreOk(run, i, id);
    RunStep(run, i, id);
  }

  /**
   * Retry accounting: the retry counter is the number of failures applied to the task; it never exceeds
   * the attempts a task has nor the generation, and a task is FAILED exactly when its attempts are used up.
   */
  lemma {:induction false} RetryCountIsFailureCount(run: Run, i: nat, id: int)
    requires Valid(run) && i <= |run.steps| && RowAt(run, i, id).task.Some?
    ensures var t := RowAt(run, i, id).task.value;
            && t.retryCount == |Failures(run, i, id)| <= Attempts(t)
            && t.retryCount <= RowAt(run, i, id).Gen()
            && (t.status == Failed <==> t.retryCount == Attempts(t))
  {
    RowsAreOk(run, i, id);
    if RowAt(run, i - 1, id).task.Some? {
      RetryCountIsFailureCount(run, i - 1, id);
      StepPacing(run, i - 1, id);
    } else {
      RunStep(run, i - 1, id);
      NoFailureBeforeBirth(run, i - 1, id);
    }
  }

  /**
   * The clock hypothesis: an applied failure of the task does not read an earlier time than a dispatch of it before.
   * Nothing is asked of the other steps, which may read the clock long before they get the write lock.
   */
  ghost predicate FailsAfterDispatch(run: Run, id: int)
    requires Valid(run)
  {
    forall i, j | 0 <= i < j < |run.steps|
                  && run.steps[i].Dispatch? && id in run.steps[i].plan && FailsAt(run, j, id) ::
      run.steps[i].now <= run.steps[j].now
  }

  /** A dispatch of the task that has already happened saw it due. */
  ghost predicate WasDue(run: Run, i: nat, id: int, due: real)
    requires Valid(run) && i <= |run.steps|
  {
    exists d | 0 <= d < i :: run.steps[d].Dispatch? && id in run.steps[d].plan && due <= run.steps[d].now
  }

  predicate Paced(failures: seq<real>) {
    forall k | 0 <= k < |failures| - 1 :: failures[k] + Backoff(k) as real <= failures[k + 1]
  }

  /** The backoff after the last of these failures is over by then. */
  predicate BackedOff(failures: seq<real>, due: real) {
    failures != [] ==> failures[|failures| - 1] + Backoff(|failures| - 1) as real <= due
  }

  lemma PacedAppend(failures: seq<real>, next: real)
    requires Paced(failures) && BackedOff(failures, next)
    ensures Paced(failures + [next])
  {
  }

  predicate Pacing(t: Task, failures: seq<real>) {
    Paced(failures) && (!Terminal(t.status) ==> BackedOff(failures, t.scheduledAt))
  }

  /** A failure that comes when its task was due is paced, and schedules the task after its own backoff. */
  lemma FailurePaces(before: Task, after: Task, failures: seq<real>, now: real)
    requires Pacing(before, failures) && before.retryCount == |failures|
    requires !Terminal(before.status) && before.scheduledAt <= now
    requires Terminal(after.status) || after.scheduledAt == now + Backoff(before.retryCount) as real
    ensures Pacing(after, failures + [now])
  {
    PacedAppend(failures, now);
  }

  lemma PacingStep(run: Run, i: nat, id: int)
    requires Valid(run) && i < |run.steps| && FailsAfterDispatch(run, id)
    requires RowAt(run, i, id).task.Some? && RowAt(run, i + 1, id).task.Some?
    requires Pacing(RowAt(run, i, id).task.value, Failures(run, i, id))
    requires Leased(RowAt(run, i, id).task.value.status) ==>
               WasDue(run, i, id, RowAt(run, i, id).task.value.scheduledAt)
    ensures Pacing(RowAt(run, i + 1, id).task.value, Failures(run, i + 1, id))
  {
    StepPacing(run, i, id);
    var before, after, f := RowAt(run, i, id).task.value, RowAt(run, i + 1, id).task.value, Failures(run, i, id);
    if FailsAt(run, i, id) {
      RetryCountIsFailureCount(run, i, id);
      DueIsPast(run, i, id, before.scheduledAt);
      FailurePaces(before, after, f, run.steps[i].now);
    } else {
      assert Failures(run, i + 1, id) == f;
    }
  }

  lemma DueStep(run: Run, i: nat, id: int)
    requires Valid(run) && i < |run.steps| && FailsAfterDispatch(run, id)
    requires RowAt(run, i, id).task.Some? && RowAt(run, i + 1, id).task.Some?
    requires Leased(RowAt(run, i, id).task.value.status) ==>
               WasDue(run, i, id, RowAt(run, i, id).task.value.scheduledAt)
    ensures Leased(RowAt(run, i + 1, id).task.value.status) ==>
              WasDue(run, i + 1, id, RowAt(run, i + 1, id).task.value.scheduledAt)
  {
    StepPacing(run, i, id);
    var before, after := RowAt(run, i, id).task.value, RowAt(run, i + 1, id).task.value;
    if Leased(after.status) {
      if Leased(before.status) {
        DueIsPast(run, i, id, before.scheduledAt);
      } else {
        assert run.steps[i].Dispatch?;
      }
    }
  }

  /** Whatever recoveries come in between, a failed task is not leased before its backoff has passed. */
  lemma {:induction false} LeaseWaitsForBackoff(run: Run, i: nat, id: int)
    requires Valid(run) && i <= |run.steps| && FailsAfterDispatch(run, id) && RowAt(run, i, id).task.Some?
    ensures var t := RowAt(run, i, id).task.value;
            && Pacing(t, Failures(run, i, id))
            && (Leased(t.status) ==> WasDue(run, i, id, t.scheduledAt))
  {
    if RowAt(run, i - 1, id).task.Some? {
      LeaseWaitsForBackoff(run, i - 1, id);
      PacingStep(run, i - 1, id);
      DueStep(run, i - 1, id);
    } else {
      RunStep(run, i - 1, id);
      NoFailureBeforeBirth(run, i - 1, id);
    }
  }

  lemma DueIsPast(run: Run, i: nat, id: int, due: real)
    requires Valid(run) && i < |run.steps| && FailsAfterDispatch(run, id) && WasDue(run, i, id, due)
    ensures FailsAt(run, i, id) ==> due <= run.steps[i].now
    ensures WasDue(run, i + 1, id, due)
  {
    var d :| 0 <= d < i && run.steps[d].Dispatch? && id in run.steps[d].plan && due <= run.steps[d].now;
  }

  /** Failures of a task that has meanwhile been pruned were paced as well. */
  lemma {:induction false} FailuresArePaced(run: Run, i: nat, id: int)
    requires Valid(run) && i <= |run.steps| && FailsAfterDispatch(run, id)
    ensures Paced(Failures(run, i, id))
  {
    if RowAt(run, i, id).task.Some? {
      LeaseWaitsForBackoff(run, i, id);
    } else if i > 0 {
      RunStep(run, i - 1, id);
      FailuresArePaced(run, i - 1, id);
    }
  }

  /** The sum of the first `k` backoffs. */
  function Delay(k: nat): int {
    if k == 0 then 0 else Delay(k - 1) + Backoff(k - 1)
  }

  lemma {:induction false} PacedSum(failures: seq<real>, k: nat)
    requires Paced(failures) && k < |failures|
    ensures failures[0] + Delay(k) as real <= failures[k]
  {
    if k > 0 {
      PacedSum(failures, k - 1);
    }
  }

  /** At least this many seconds lie between the first failure and the k-th. */
  function MinGap(k: nat): int {
    if k <= 22 then Pow2(k) - 2 else Pow2(22) - 2 + (k - 22) * Pow2(21)
  }

  lemma {:induction false} DelayClosedForm(k: nat)
    ensures Delay(k) == MinGap(k + 1)
  {
    if k == 0 {
      assert MinGap(1) == Pow2(1) - 2 && Pow2(1) == 2 * Pow2(0);
    } else {
      DelayClosedForm(k - 1);
      var step := if k <= 21 then Pow2(k) else Pow2(21);
      assert Pow2(21) == 2 * Pow2(20);
      assert Backoff(k - 1) == step;
      assert k <= 21 ==> Pow2(k + 1) == 2 * Pow2(k);
      assert MinGap(k + 1) == MinGap(k) + step;
    }
  }

  /**
   * If the task's failures do not read earlier times than its dispatches before them, the k-th failure of a task
   * (counting from one) comes at least 2^k - 2 seconds after the first for k up to 22, and 2^21 seconds later for
   * each one after that.
   */
  lemma FailuresBackOffExponentially(run: Run, i: nat, id: int, k: nat)
    requires Valid(run) && i <= |run.steps| && FailsAfterDispatch(run, id)
    requires 1 <= k <= |Failures(run, i, id)|
    ensures Failures(run, i, id)[k - 1] - Failures(run, i, id)[0] >= MinGap(k) as real
  {
    FailuresArePaced(run, i, id);
    PacedSum(Failures(run, i, id), k - 1);
    DelayClosedForm(k - 1);
  }

  // ----- the delays themselves -----

  /** Two seconds after the first failure, doubled from failure to failure, and 2097152 from the 21st one on. */
  lemma BackoffDoubles(retryCount: int)
    ensures retryCount <= 0 ==> Backoff(retryCount) == 2
    ensures 0 <= retryCount < 20 ==> Backoff(retryCount + 1) == 2 * Backoff(retryCount)
    ensures retryCount >= 20 ==> Backoff(retryCount) == 2097152
  {
    assert Pow2(4) == 16 && Pow2(8) == 256;
    assert Pow2(12) == 4096 && Pow2(16) == 65536;
    assert Pow2(20) == 1048576;
  }
}
