/** The workflow definition: what a list of steps must satisfy to be accepted. */
module Workflow {
  import opened Json
  import opened ResultReferences
  import opened DependencyGraph
  import opened Sorting
  import opened Tables

  const MAX_STEPS := 32

  const WORKFLOW_RUN: Text := [119, 111, 114, 107, 102, 108, 111, 119, 46, 114, 117, 110]  // workflow.run

  datatype StepDef = StepDef(
    id: Text, kind: Text, payload: Json, dependsOn: seq<Text>, priority: Option<Float>, maxRetries: Option<Float>)

  const MAX_SAFE_INTEGER := 0x1F_FFFF_FFFF_FFFF

  predicate IsSafeInteger(x: Float) {
    && x.Finite? && x.value == x.value.Floor as real
    && -(MAX_SAFE_INTEGER as real) <= x.value <= MAX_SAFE_INTEGER as real
  }

  predicate IsSafeKind(t: Text) {
    1 <= |t| <= 128 && forall u | u in t :: IsWordUnit(u) || u == DOT || u == COLON
  }

  /** A whole number from -(2^53 - 1) to 2^53 - 1. */
  ghost predicate IsWhole(x: Float) {
    x.Finite? && -9007199254740991.0 <= x.value <= 9007199254740991.0 && x.value.Floor as real == x.value
  }

  ghost predicate DependenciesOk(step: StepDef) {
    && |step.dependsOn| <= 32
    && Distinct(step.dependsOn)
    && forall d | d in step.dependsOn :: IsName(d, 64) && d != step.id
  }

  ghost predicate StepOk(step: StepDef) {
    && IsName(step.id, 64) && IsName(step.kind, 128) && DependenciesOk(step)
    && step.kind != [119, 111, 114, 107, 102, 108, 111, 119, 46, 114, 117, 110]
    && (step.priority.Some? ==> IsWhole(step.priority.value))
    && (step.maxRetries.Some? ==> IsWhole(step.maxRetries.value) && step.maxRetries.value.value >= 0.0)
  }

  lemma NamesAreSafe()
    ensures forall t :: IsSafeStepId(t) <==> IsName(t, 64)
    ensures forall t :: IsSafeKind(t) <==> IsName(t, 128)
  {
    forall t ensures (IsSafeStepId(t) <==> IsName(t, 64)) && (IsSafeKind(t) <==> IsName(t, 128)) {
      SafeStepIdIsName(t);
      assert forall i | 0 <= i < |t| :: t[i] in t;
    }
  }

  ghost predicate DistinctIds(steps: seq<StepDef>) {
    forall i, j | 0 <= i < j < |steps| :: steps[i].id != steps[j].id
  }

  ghost predicate StepsOk(steps: seq<StepDef>) {
    1 <= |steps| <= 32 && DistinctIds(steps) && forall i | 0 <= i < |steps| :: StepOk(steps[i])
  }

  /** The steps by id; a later step with the same id would win. */
  function GraphOf(steps: seq<StepDef>): Graph {
    var n := |steps|;
    if n == 0 then map[] else GraphOf(steps[..n - 1])[steps[n - 1].id := steps[n - 1].dependsOn]
  }

  function Ids(steps: seq<StepDef>): seq<Text> {
    seq(|steps|, i requires 0 <= i < |steps| => steps[i].id)
  }

  lemma {:induction false} GraphKeys(steps: seq<StepDef>)
    ensures forall id :: id in GraphOf(steps) <==> id in Ids(steps)
  {
    var n := |steps|;
    if n > 0 {
      GraphKeys(steps[..n - 1]);
      assert Ids(steps) == Ids(steps[..n - 1]) + [steps[n - 1].id];
    }
  }

  lemma {:induction false} GraphAt(steps: seq<StepDef>, i: nat)
    requires DistinctIds(steps) && i < |steps|
    ensures steps[i].id in GraphOf(steps) && GraphOf(steps)[steps[i].id] == steps[i].dependsOn
  {
    var n := |steps|;
    if i < n - 1 {
      GraphAt(steps[..n - 1], i);
    }
  }

  lemma {:induction false} GraphSize(steps: seq<StepDef>)
    requires DistinctIds(steps)
    ensures |GraphOf(steps)| == |steps|
  {
    var n := |steps|;
    if n > 0 {
      GraphSize(steps[..n - 1]);
      GraphKeys(steps[..n - 1]);
      var before, last := GraphOf(steps[..n - 1]), steps[n - 1].id;
      assert last !in Ids(steps[..n - 1]);
      assert GraphOf(steps).Keys == before.Keys + {last};
    }
  }

  /** The strict ancestors of a step. */
  ghost function Ancestors(g: Graph, id: Text): (r: set<Text>)
    ensures forall x :: x in r <==> Reaches(g, id, x)
  {
    var r := set x | x in Mentioned(g) && Reaches(g, id, x);
    assert forall x :: x in r <==> Reaches(g, id, x) by {
      forall x | Reaches(g, id, x) ensures x in Mentioned(g) {
        var p :| PathFromTo(g, p, id, x);
        assert Edge(g, p[|p| - 2], p[|p| - 1]);
      }
    }
    r
  }

  /** Every payload refers only to strict ancestors of its step, within the limits. */
  ghost predicate ReferencesOk(steps: seq<StepDef>) {
    forall i | 0 <= i < |steps| :: Acceptable(steps[i].payload, 0, 0, Ancestors(GraphOf(steps), steps[i].id))
  }

  ghost predicate IsAccepted(steps: seq<StepDef>) {
    StepsOk(steps) && Closed(GraphOf(steps)) && !Cyclic(GraphOf(steps)) && ReferencesOk(steps)
  }

  datatype Parse = Accepted | BadStep | UnknownDependency | CyclicDependencies | BadReference

  method CheckDependencies(step: StepDef) returns (ok: bool)
    ensures ok <==> DependenciesOk(step)
  {
    NamesAreSafe();
    if |step.dependsOn| > MAX_STEPS {
      return false;
    }
    var seen: set<Text> := {};
    for i := 0 to |step.dependsOn|
      invariant forall x :: x in seen <==> x in step.dependsOn[..i]
      invariant Distinct(step.dependsOn[..i])
      invariant forall d | d in seen :: IsName(d, 64) && d != step.id
    {
      var dependency := step.dependsOn[i];
      assert dependency in step.dependsOn;
      if !IsSafeStepId(dependency) || dependency == step.id {
        return false;
      }
      if dependency in seen {
        return false;
      }
      seen := seen + {dependency};
    }
    assert step.dependsOn[..|step.dependsOn|] == step.dependsOn;
    ok := true;
  }

  method CheckSteps(steps: seq<StepDef>) returns (ok: bool)
    ensures ok <==> StepsOk(steps)
  {
    NamesAreSafe();
    if |steps| == 0 || |steps| > MAX_STEPS {
      return false;
    }
    var ids: set<Text> := {};
    for i := 0 to |steps|
      invariant forall x :: x in ids <==> exists k :: 0 <= k < i && steps[k].id == x
      invariant DistinctIds(steps[..i]) && forall k | 0 <= k < i :: StepOk(steps[k])
    {
      if !IsSafeStepId(steps[i].id) || steps[i].id in ids {
        return false;
      }
      ids := ids + {steps[i].id};
      if !IsSafeKind(steps[i].kind) || steps[i].kind == WORKFLOW_RUN {
        return false;
      }
      ok := CheckDependencies(steps[i]);
      if !ok {
        return;
      }
      if steps[i].priority.Some? && !IsSafeInteger(steps[i].priority.value) {
        return false;
      }
      var retries := steps[i].maxRetries;
      if retries.Some? && (!IsSafeInteger(retries.value) || retries.value.value < 0.0) {
        return false;
      }
    }
    assert steps[..|steps|] == steps;
    ok := true;
  }

  method CheckKnown(steps: seq<StepDef>, g: Graph) returns (ok: bool)
    requires DistinctIds(steps) && g == GraphOf(steps)
    ensures ok <==> Closed(g)
  {
    GraphKeys(steps);
    for i := 0 to |steps|
      invariant forall k, d | 0 <= k < i && d in steps[k].dependsOn :: d in g
    {
      for j := 0 to |steps[i].dependsOn|
        invariant forall l | 0 <= l < j :: steps[i].dependsOn[l] in g
      {
        if steps[i].dependsOn[j] !in g {
          GraphAt(steps, i);
          assert Edge(g, steps[i].id, steps[i].dependsOn[j]);
          return false;
        }
      }
    }
    ok := true;
    forall a, b | Edge(g, a, b) ensures b in g {
      var k :| 0 <= k < |steps| && Ids(steps)[k] == a;
      GraphAt(steps, k);
    }
  }

  method CheckReferences(steps: seq<StepDef>, g: Graph) returns (ok: bool)
    requires g == GraphOf(steps)
    ensures ok <==> ReferencesOk(steps)
  {
    for i := 0 to |steps|
      invariant forall k | 0 <= k < i :: Acceptable(steps[k].payload, 0, 0, Ancestors(g, steps[k].id))
    {
      var ancestors := AncestorsOf(g, steps[i].id);
      assert ancestors == Ancestors(g, steps[i].id);
      var count := ValidatePayload(steps[i].payload, ancestors);
      if count.None? {
        return false;
      }
    }
    ok := true;
  }

  /** Which definitions are accepted, and which complaint the others get. */
  method ParseDefinition(steps: seq<StepDef>) returns (r: Parse, g: Graph)
    ensures r == BadStep <==> !StepsOk(steps)
    ensures r != BadStep ==> g == GraphOf(steps)
    ensures r == UnknownDependency <==> StepsOk(steps) && !Closed(g)
    ensures r == CyclicDependencies <==> StepsOk(steps) && Closed(g) && Cyclic(g)
    ensures r == BadReference <==> StepsOk(steps) && Closed(g) && !Cyclic(g) && !ReferencesOk(steps)
    ensures r == Parse.Accepted <==> IsAccepted(steps)
    ensures r == Parse.Accepted ==> forall id :: id !in Ancestors(g, id)
  {
    var ok := CheckSteps(steps);
    if !ok {
      return BadStep, map[];
    }
    g := map[];
    for i := 0 to |steps|
      invariant g == GraphOf(steps[..i])
    {
      assert steps[..i + 1][..i] == steps[..i];
      g := g[steps[i].id := steps[i].dependsOn];
    }
    assert steps[..|steps|] == steps;
    ok := CheckKnown(steps, g);
    if !ok {
      return UnknownDependency, g;
    }
    GraphKeys(steps);
    var verdict, _ := CheckAcyclic(g, Ids(steps));
    if verdict != DependencyGraph.Accepted {
      return CyclicDependencies, g;
    }
    ok := CheckReferences(steps, g);
    r := if ok then Parse.Accepted else BadReference;
  }
}
