/** What the engine knows of a workflow's steps while it runs, and why it can always go on. */
module WorkflowRuntime {
  import opened Tables
  import opened Json
  import opened DependencyGraph
  import opened Sorting
  import opened Workflow

  datatype StepStatus = Waiting | Reported(status: Status)

  datatype Slot = Slot(taskId: Option<int>, status: StepStatus)

  type Runtime = map<Text, Slot>

  predicate Submitted(rt: Runtime, id: Text) {
    id in rt && rt[id].taskId.Some?
  }

  predicate Done(rt: Runtime, id: Text) {
    id in rt && rt[id].status == Reported(Status.Completed)
  }

  ghost predicate Ready(g: Graph, rt: Runtime, id: Text) {
    forall d | Edge(g, id, d) :: Done(rt, d)
  }

  /** Holds in every state of the loop: a step is submitted only when all its dependencies are COMPLETED. */
  ghost predicate Consistent(g: Graph, rt: Runtime) {
    && rt.Keys == g.Keys
    && (forall id | id in rt :: rt[id].status == Waiting <==> rt[id].taskId.None?)
    && (forall id | Submitted(rt, id) :: Ready(g, rt, id))
  }

  /** COMPLETED steps are closed under `depends_on`, so a ready step has all its ancestors COMPLETED. */
  lemma {:induction false} ReadyMeansAncestorsDone(g: Graph, rt: Runtime, id: Text, p: seq<Text>)
    requires Consistent(g, rt) && Ready(g, rt, id)
    requires |p| >= 2 && IsPath(g, p) && p[0] == id
    ensures Done(rt, p[|p| - 1])
    decreases |p|
  {
    assert Edge(g, p[0], p[1]);
    if |p| > 2 {
      TailIsPath(g, p);
      assert Submitted(rt, p[1]);
      ReadyMeansAncestorsDone(g, rt, p[1], p[1..]);
    }
  }

  lemma AncestorsDone(g: Graph, rt: Runtime, id: Text)
    requires Consistent(g, rt) && Ready(g, rt, id)
    ensures forall x | x in Ancestors(g, id) :: Done(rt, x)
  {
    forall x | x in Ancestors(g, id) ensures Done(rt, x) {
      var p :| PathFromTo(g, p, id, x);
      ReadyMeansAncestorsDone(g, rt, id, p);
    }
  }

  // ----- progress -----

  lemma TailIsPath(g: Graph, p: seq<Text>)
    requires IsPath(g, p) && p != []
    ensures IsPath(g, p[1..])
  {
    forall k | 0 <= k < |p[1..]| - 1 ensures Edge(g, p[1..][k], p[1..][k + 1]) {
      assert Edge(g, p[k + 1], p[k + 2]);
    }
  }

  /** A path that comes back to a step it has visited shows a cycle. */
  lemma ReturningPathIsCycle(g: Graph, p: seq<Text>, i: nat, j: nat)
    requires IsPath(g, p) && i < j < |p| && p[i] == p[j]
    ensures Cyclic(g)
  {
    var c := p[i..j + 1];
    forall k | 0 <= k < |c| - 1 ensures Edge(g, c[k], c[k + 1]) {
      assert Edge(g, p[i + k], p[i + k + 1]);
    }
    assert PathFromTo(g, c, p[i], p[i]);
    assert Reaches(g, p[i], p[i]);
  }

  ghost predicate WaitsFor(g: Graph, stuck: set<Text>, id: Text) {
    exists d :: d in stuck && Edge(g, id, d)
  }

  /** If every step of a set waits for another step of the set, there is a cycle. */
  lemma {:induction false} StuckMeansCyclic(g: Graph, stuck: set<Text>, p: seq<Text>)
    requires forall x {:trigger WaitsFor(g, stuck, x)} | x in stuck :: WaitsFor(g, stuck, x)
    requires p != [] && IsPath(g, p) && forall k | 0 <= k < |p| :: p[k] in stuck
    ensures Cyclic(g)
    decreases stuck - set x | x in p
  {
    var n := |p|;
    assert WaitsFor(g, stuck, p[n - 1]);
    var d :| d in stuck && Edge(g, p[n - 1], d);
    var q := p + [d];
    forall k | 0 <= k < n ensures Edge(g, q[k], q[k + 1]) {
      assert k < n - 1 ==> Edge(g, p[k], p[k + 1]);
    }
    if d in p {
      var i :| 0 <= i < n && p[i] == d;
      ReturningPathIsCycle(g, q, i, n);
    } else {
      Remaining(stuck, p, d);
      StuckMeansCyclic(g, stuck, q);
    }
  }

  lemma Remaining(stuck: set<Text>, p: seq<Text>, d: Text)
    requires d in stuck && d !in p
    ensures (stuck - set x | x in p + [d]) < (stuck - set x | x in p)
  {
    assert d in stuck - (set x | x in p);
    assert d in p + [d];
  }

  /** While the workflow is unfinished and every submitted child is COMPLETED, some waiting step is ready. */
  lemma SomeStepIsReady(g: Graph, rt: Runtime, unfinished: Text) returns (ready: Text)
    requires Consistent(g, rt) && Closed(g) && !Cyclic(g)
    requires forall id | Submitted(rt, id) :: Done(rt, id)
    requires unfinished in rt && !Done(rt, unfinished)
    ensures ready in rt && !Submitted(rt, ready) && Ready(g, rt, ready)
  {
    var waiting := set id | id in rt && !Submitted(rt, id);
    if w :| w in waiting && Ready(g, rt, w) {
      ready := w;
    } else {
      forall w | w in waiting ensures WaitsFor(g, waiting, w) {
        assert !Ready(g, rt, w);
        var d :| Edge(g, w, d) && !Done(rt, d);
        assert d in waiting;
      }
      StuckMeansCyclic(g, waiting, [unfinished]);
      assert false;
    }
  }

  // ----- chains -----

  /** Every chain of dependencies from a declared step has at most `most` steps. */
  ghost predicate ChainsAtMost(g: Graph, most: nat) {
    forall p | p != [] && IsPath(g, p) && p[0] in g :: |p| <= most
  }

  /** In an accepted graph no chain is longer than the number of steps. */
  lemma ChainsFit(g: Graph)
    requires Closed(g) && !Cyclic(g)
    ensures ChainsAtMost(g, |g|)
  {
    forall p | p != [] && IsPath(g, p) && p[0] in g ensures |p| <= |g| {
      ChainIsShort(g, p);
    }
  }

  lemma {:induction false} PathStaysInside(g: Graph, p: seq<Text>, k: nat)
    requires Closed(g) && IsPath(g, p) && k < |p| && p[0] in g
    ensures p[k] in g
  {
    if k > 0 {
      assert Edge(g, p[k - 1], p[k]);
    }
  }

  lemma ChainIsShort(g: Graph, p: seq<Text>)
    requires Closed(g) && !Cyclic(g) && p != [] && IsPath(g, p) && p[0] in g
    ensures |p| <= |g|
  {
    forall i, j | 0 <= i < j < |p| ensures p[i] != p[j] {
      if p[i] == p[j] {
        ReturningPathIsCycle(g, p, i, j);
      }
    }
    forall k | 0 <= k < |p| ensures p[k] in g.Keys {
      PathStaysInside(g, p, k);
    }
    DistinctFit(p, g.Keys);
  }

  lemma {:induction false} DistinctFit(p: seq<Text>, s: set<Text>)
    requires Distinct(p) && forall k | 0 <= k < |p| :: p[k] in s
    ensures |p| <= |s|
  {
    if p != [] {
      var n := |p| - 1;
      DistinctFit(p[..n], s - {p[n]});
    }
  }

  /** The step waits at the head of a chain of `length` steps. */
  ghost predicate Behind(g: Graph, id: Text, length: nat) {
    exists p :: p != [] && IsPath(g, p) && p[0] == id && |p| == length
  }

  lemma BehindMore(g: Graph, id: Text, d: Text, length: nat)
    requires Edge(g, id, d) && Behind(g, d, length)
    ensures Behind(g, id, length + 1)
  {
    var p :| p != [] && IsPath(g, p) && p[0] == d && |p| == length;
    var q := [id] + p;
    forall k | 0 <= k < |q| - 1 ensures Edge(g, q[k], q[k + 1]) {
      assert k > 0 ==> Edge(g, p[k - 1], p[k]);
    }
    assert q != [] && IsPath(g, q) && q[0] == id && |q| == length + 1;
  }

  lemma BehindAtMost(g: Graph, id: Text, length: nat, most: nat)
    requires ChainsAtMost(g, most) && id in g && Behind(g, id, length)
    ensures length <= most
  {
    var p :| p != [] && IsPath(g, p) && p[0] == id && |p| == length;
  }
}
