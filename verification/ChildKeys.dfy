/** Idempotency keys of workflow children, and how they tie a step to at most one child task. */
module ChildKeys {
  import opened Json
  import opened ResultReferences
  import opened Protocol
  import opened Runs
  import opened IdempotencyRuns

  const PREFIX: Text := [119, 102, 45]  // wf-

  /** `wf-<workflow id>-<step id>`; a step id may itself contain dashes and digits. */
  function ChildKeyText(workflow: nat, step: Text): Text {
    PREFIX + (Digits(workflow) + ([MINUS] + step))
  }

  /** The text as a header value. */
  function Ascii(t: Text): string
    requires forall u | u in t :: u < 128
  {
    seq(|t|, i requires 0 <= i < |t| => assert t[i] in t; t[i] as char)
  }

  lemma ChildKeyIsAscii(workflow: nat, step: Text)
    requires IsSafeStepId(step)
    ensures forall u | u in ChildKeyText(workflow, step) :: u < 128
  {
    DigitsAreDigits(workflow);
  }

  function ChildKey(workflow: nat, step: Text): string
    requires IsSafeStepId(step)
  {
    ChildKeyIsAscii(workflow, step);
    Ascii(ChildKeyText(workflow, step))
  }

  function FirstDash(t: Text): nat {
    if t == [] || t[0] == MINUS then 0 else 1 + FirstDash(t[1..])
  }

  lemma {:induction false} DashAfterDigits(d: Text, rest: Text)
    requires forall u | u in d :: IsDigit(u)
    ensures FirstDash(d + ([MINUS] + rest)) == |d|
  {
    if d != [] {
      assert d[0] in d && forall u | u in d[1..] :: u in d;
      DashAfterDigits(d[1..], rest);
      assert (d + ([MINUS] + rest))[1..] == d[1..] + ([MINUS] + rest);
    }
  }

  /** The first dash after the digits is where the workflow id ends. */
  lemma DigitsDelimited(m: nat, n: nat, s: Text, t: Text)
    requires Digits(m) + ([MINUS] + s) == Digits(n) + ([MINUS] + t)
    ensures m == n && s == t
  {
    var a, b, whole := Digits(m), Digits(n), Digits(m) + ([MINUS] + s);
    DigitsAreDigits(m);
    DigitsAreDigits(n);
    DashAfterDigits(a, s);
    DashAfterDigits(b, t);
    assert a == whole[..|a|] == b;
    DigitsInjective(m, n);
    assert s == whole[|a| + 1..] == t;
  }

  lemma AsciiInjective(s: Text, t: Text)
    requires (forall u | u in s :: u < 128) && (forall u | u in t :: u < 128)
    requires Ascii(s) == Ascii(t)
    ensures s == t
  {
    forall i | 0 <= i < |s| ensures s[i] == t[i] {
      assert s[i] in s && t[i] in t && Ascii(s)[i] == Ascii(t)[i];
    }
  }

  /** Different steps, of one workflow or of two, never share a key. */
  lemma ChildKeysInjective(m: nat, s: Text, n: nat, t: Text)
    requires IsSafeStepId(s) && IsSafeStepId(t) && ChildKey(m, s) == ChildKey(n, t)
    ensures m == n && s == t
  {
    ChildKeyIsAscii(m, s);
    ChildKeyIsAscii(n, t);
    AsciiInjective(ChildKeyText(m, s), ChildKeyText(n, t));
    assert ChildKeyText(m, s)[3..] == Digits(m) + ([MINUS] + s);
    assert ChildKeyText(n, t)[3..] == Digits(n) + ([MINUS] + t);
    DigitsDelimited(m, n, s, t);
  }

  /**
   * However often executions of workflows crash and start again: of the child rows that exist at one time, two
   * are the same row if and only if they were created for the same step of the same workflow.
   */
  lemma OneChildPerStep(run: Run, i: nat, j: nat, k: nat, m: nat, s: Text, n: nat, t: Text,
                        f: string, h: string, id1: int, id2: int)
    requires Valid(run) && i < k <= |run.steps| && j < k && IsSafeStepId(s) && IsSafeStepId(t)
    requires CreatedFor(run, i, ChildKey(m, s), f, id1) && CreatedFor(run, j, ChildKey(n, t), h, id2)
    requires RowAt(run, k, id1).task.Some? && RowAt(run, k, id2).task.Some?
    ensures id1 == id2 <==> m == n && s == t
  {
    KeyLivesWithItsTask(run, i, k, ChildKey(m, s), f, id1);
    KeyLivesWithItsTask(run, j, k, ChildKey(n, t), h, id2);
    if id1 == id2 {
      KeysNameDistinctTasks(run, k, ChildKey(m, s), ChildKey(n, t));
      ChildKeysInjective(m, s, n, t);
    }
  }

  /** A restarted execution that submits the same contract for a step gets the child it had, and changes nothing. */
  lemma RestartReattaches(run: Run, i: nat, j: nat, m: nat, s: Text, f: string, id: int)
    requires Valid(run) && i < j < |run.steps| && IsSafeStepId(s) && CreatedFor(run, i, ChildKey(m, s), f, id)
    requires run.steps[j].Enqueue? && run.steps[j].key == ChildKey(m, s) && run.steps[j].bound > 0
    requires run.steps[j].fingerprint == f
    ensures RowAt(run, j, id).task.Some? ==> run.answers[j] == Replayed(id) && run.states[j + 1] == run.states[j]
    ensures RowAt(run, j, id).task.None? ==> exists p | i < p < j ::
              run.answers[p].Pruned? && id in run.answers[p].tasks
  {
    if RowAt(run, j, id).task.Some? {
      EnqueueIsIdempotent(run, i, j, ChildKey(m, s), f, id);
    } else {
      RunStep(run, i, id);
      var p := RowsVanishByPruning(run, i + 1, j, id);
    }
  }
}
