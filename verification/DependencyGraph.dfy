/** The dependency graph of a workflow: ancestors, cycle detection, topological order. */
module DependencyGraph {
  import opened Json

  /** `depends_on` of every declared step, by id. */
  type Graph = map<Text, seq<Text>>

  predicate Edge(g: Graph, a: Text, b: Text) {
    a in g && b in g[a]
  }

  ghost predicate IsPath(g: Graph, p: seq<Text>) {
    forall k | 0 <= k < |p| - 1 :: Edge(g, p[k], p[k + 1])
  }

  /** There is a path of at least one edge from `a` to `b`: the transitive closure of `depends_on`. */
  ghost predicate Reaches(g: Graph, a: Text, b: Text) {
    exists p :: PathFromTo(g, p, a, b)
  }

  ghost predicate PathFromTo(g: Graph, p: seq<Text>, a: Text, b: Text) {
    |p| >= 2 && IsPath(g, p) && p[0] == a && p[|p| - 1] == b
  }

  ghost predicate Cyclic(g: Graph) {
    exists a :: Reaches(g, a, a)
  }

  lemma EdgeReaches(g: Graph, a: Text, b: Text)
    requires Edge(g, a, b)
    ensures Reaches(g, a, b)
  {
    assert PathFromTo(g, [a, b], a, b);
  }

  lemma ReachesThenEdge(g: Graph, a: Text, b: Text, c: Text)
    requires Reaches(g, a, b) && Edge(g, b, c)
    ensures Reaches(g, a, c)
  {
    var p :| PathFromTo(g, p, a, b);
    assert PathFromTo(g, p + [c], a, c);
  }

  // ----- ancestorsOf -----

  /** All ids that occur as a dependency; some of them may not be declared. */
  function Mentioned(g: Graph): set<Text> {
    set a, b | a in g && b in g[a] :: b
  }

  ghost predicate HasDependencies(g: Graph, found: set<Text>, id: Text) {
    forall d | Edge(g, id, d) :: d in found
  }

  /** What has been found are ancestors of the root. */
  ghost predicate Sound(g: Graph, root: Text, found: set<Text>) {
    found <= Mentioned(g) && forall x | x in found :: Reaches(g, root, x)
  }

  /** Whatever was found on the way has had its own dependencies found. */
  ghost predicate Grew(g: Graph, before: set<Text>, found: set<Text>) {
    before <= found && forall x | x in found && x !in before :: HasDependencies(g, found, x)
  }

  lemma GrewMore(g: Graph, before: set<Text>, middle: set<Text>, next: Text, after: set<Text>)
    requires Grew(g, before, middle) && Grew(g, middle + {next}, after) && HasDependencies(g, after, next)
    ensures Grew(g, before, after)
  {
  }

  lemma Discovered(g: Graph, root: Text, found: set<Text>, id: Text, next: Text)
    requires Sound(g, root, found) && (id == root || Reaches(g, root, id)) && Edge(g, id, next)
    ensures Reaches(g, root, next) && Sound(g, root, found + {next})
  {
    if id == root {
      EdgeReaches(g, root, next);
    } else {
      ReachesThenEdge(g, root, id, next);
    }
  }

  class AncestorSearch {
    const g: Graph
    var ancestors: set<Text>

    constructor (g: Graph)
      ensures this.g == g && ancestors == {}
    {
      this.g := g;
      ancestors := {};
    }

    /** Terminates on every graph: each recursive visit follows the discovery of a new id. */
    method Visit(id: Text, ghost root: Text)
      requires Sound(g, root, ancestors) && (id == root || Reaches(g, root, id))
      modifies this`ancestors
      ensures Sound(g, root, ancestors) && Grew(g, old(ancestors), ancestors) && HasDependencies(g, ancestors, id)
      decreases |Mentioned(g) - ancestors|
    {
      if id !in g {
        return;
      }
      for i := 0 to |g[id]|
        invariant Sound(g, root, ancestors) && Grew(g, old(ancestors), ancestors)
        invariant forall k | 0 <= k < i :: g[id][k] in ancestors
      {
        var dependency := g[id][i];
        if dependency !in ancestors {
          Discovered(g, root, ancestors, id, dependency);
          ghost var middle := ancestors;
          ancestors := ancestors + {dependency};
          Shrinks(Mentioned(g) - old(ancestors), Mentioned(g) - ancestors, dependency);
          Visit(dependency, root);
          GrewMore(g, old(ancestors), middle, dependency, ancestors);
        }
      }
    }
  }

  lemma Shrinks(big: set<Text>, small: set<Text>, x: Text)
    requires small <= big && x in big && x !in small
    ensures |small| < |big|
  {
    assert big == small + (big - small);
  }

  lemma {:induction false} ClosedContainsReachable(g: Graph, root: Text, found: set<Text>, p: seq<Text>)
    requires HasDependencies(g, found, root) && forall x | x in found :: HasDependencies(g, found, x)
    requires |p| >= 2 && IsPath(g, p) && p[0] == root
    ensures p[|p| - 1] in found
  {
    var n := |p| - 1;
    assert Edge(g, p[n - 1], p[n]);
    if n > 1 {
      ClosedContainsReachable(g, root, found, p[..n]);
    }
  }

  /** The ancestors of a step are exactly the ids in the transitive closure of `depends_on`. */
  method AncestorsOf(g: Graph, id: Text) returns (ancestors: set<Text>)
    ensures forall x :: x in ancestors <==> Reaches(g, id, x)
  {
    var search := new AncestorSearch(g);
    search.Visit(id, id);
    ancestors := search.ancestors;
    forall x | Reaches(g, id, x) ensures x in ancestors {
      var p :| PathFromTo(g, p, id, x);
      ClosedContainsReachable(g, id, ancestors, p);
    }
  }

  // ----- cycle detection -----

  /** `depends_on` names declared steps only. */
  ghost predicate Closed(g: Graph) {
    forall a, b | Edge(g, a, b) :: b in g
  }

  datatype Verdict = Accepted | CycleFound | UnknownStep

  /** Every step comes after all steps it depends on. */
  ghost predicate Topological(g: Graph, order: seq<Text>) {
    && (forall k, l | 0 <= k < l < |order| :: order[k] != order[l])
    && (forall k, d | 0 <= k < |order| && Edge(g, order[k], d) :: d in order[..k])
  }

  class CycleSearch {
    const g: Graph
    var visiting: set<Text>
    /** In order of insertion. */
    var visited: seq<Text>

    constructor (g: Graph)
      ensures this.g == g && visiting == {} && visited == []
    {
      this.g := g;
      visiting, visited := {}, [];
    }

    method Visit(id: Text) returns (r: Verdict)
      requires Marks(g, visiting, visited) && forall v | v in visiting :: Reaches(g, v, id)
      modifies this`visiting, this`visited
      ensures r == CycleFound ==> Cyclic(g)
      ensures r == UnknownStep ==> id !in g || !Closed(g)
      ensures r == Accepted ==>
                Marks(g, visiting, visited) && visiting == old(visiting) && old(visited) <= visited && id in visited
      decreases |g.Keys - visiting|
    {
      if id in visiting {
        return CycleFound;
      }
      if id in visited {
        return Accepted;
      }
      visiting := visiting + {id};
      if id !in g {
        return UnknownStep;
      }
      Shrinks(g.Keys - old(visiting), g.Keys - visiting, id);
      for i := 0 to |g[id]|
        invariant visiting == old(visiting) + {id} && old(visited) <= visited
        invariant Marks(g, visiting, visited)
        invariant VisitedFirst(g[id], i, visited)
      {
        assert Edge(g, id, g[id][i]);
        StackReaches(g, old(visiting), id, g[id][i]);
        ghost var before := visited;
        r := Visit(g[id][i]);
        if r != Accepted {
          return;
        }
        VisitedOneMore(g[id], i, before, visited);
      }
      visiting := visiting - {id};
      assert visiting == old(visiting);
      ExtendsOrder(g, visited, id);
      visited := visited + [id];
      r := Accepted;
    }
  }

  /** `visiting` is the stack of open calls; `visited` is a topological order of finished steps. */
  ghost predicate Marks(g: Graph, visiting: set<Text>, visited: seq<Text>) {
    visiting <= g.Keys && Topological(g, visited) && forall x | x in visited :: x in g && x !in visiting
  }

  predicate VisitedFirst(dependencies: seq<Text>, i: nat, visited: seq<Text>)
    requires i <= |dependencies|
  {
    forall k | 0 <= k < i :: dependencies[k] in visited
  }

  lemma VisitedOneMore(dependencies: seq<Text>, i: nat, before: seq<Text>, visited: seq<Text>)
    requires i < |dependencies| && VisitedFirst(dependencies, i, before) && before <= visited
    requires dependencies[i] in visited
    ensures VisitedFirst(dependencies, i + 1, visited)
  {
    forall x | x in before ensures x in visited {
    }
  }

  /** Everything on the stack reaches what is visited next. */
  lemma StackReaches(g: Graph, stack: set<Text>, id: Text, next: Text)
    requires (forall v | v in stack :: Reaches(g, v, id)) && Edge(g, id, next)
    ensures forall v | v in stack + {id} :: Reaches(g, v, next)
  {
    forall v | v in stack + {id} ensures Reaches(g, v, next) {
      if v == id {
        EdgeReaches(g, id, next);
      } else {
        ReachesThenEdge(g, v, id, next);
      }
    }
  }

  lemma ExtendsOrder(g: Graph, order: seq<Text>, id: Text)
    requires Topological(g, order) && id !in order && forall d | Edge(g, id, d) :: d in order
    ensures Topological(g, order + [id])
  {
    var more := order + [id];
    forall k, d | 0 <= k < |more| && Edge(g, more[k], d) ensures d in more[..k] {
      assert more[..k] == order[..k];
    }
  }

  /** In a topological order of all steps every path runs backwards, so there is no cycle. */
  lemma {:induction false} PathsRunBackwards(g: Graph, order: seq<Text>, p: seq<Text>, k: nat) returns (l: nat)
    requires Topological(g, order) && IsPath(g, p) && |p| >= 1 && k < |order| && p[0] == order[k]
    ensures l < |order| && p[|p| - 1] == order[l] && (|p| >= 2 ==> l < k)
  {
    if |p| == 1 {
      l := k;
    } else {
      assert Edge(g, p[0], p[1]);
      var m :| 0 <= m < k && order[m] == p[1];
      assert IsPath(g, p[1..]) by {
        forall j | 0 <= j < |p[1..]| - 1 ensures Edge(g, p[1..][j], p[1..][j + 1]) {
          assert Edge(g, p[j + 1], p[j + 2]);
        }
      }
      l := PathsRunBackwards(g, order, p[1..], m);
    }
  }

  lemma TopologicalMeansAcyclic(g: Graph, order: seq<Text>)
    requires Topological(g, order) && forall a | a in g :: a in order
    ensures !Cyclic(g)
  {
    if a :| Reaches(g, a, a) {
      var p :| PathFromTo(g, p, a, a);
      assert Edge(g, p[0], p[1]);
      var k :| 0 <= k < |order| && order[k] == a;
      var l := PathsRunBackwards(g, order, p, k);
    }
  }

  /**
   * The search over all declared steps rejects a graph if and only if it has a cycle, and the order in which
   * an accepted graph's steps were marked visited is a topological order of all of them.
   */
  method CheckAcyclic(g: Graph, ids: seq<Text>) returns (r: Verdict, order: seq<Text>)
    requires Closed(g) && forall a :: a in g <==> a in ids
    ensures r == CycleFound <==> Cyclic(g)
    ensures r == Accepted <==> !Cyclic(g)
    ensures r == Accepted ==> Topological(g, order) && forall a :: a in g <==> a in order
  {
    var search := new CycleSearch(g);
    order := [];
    for i := 0 to |ids|
      invariant search.g == g && search.visiting == {} && Topological(g, search.visited)
      invariant fresh(search)
      invariant forall x | x in search.visited :: x in g
      invariant forall k | 0 <= k < i :: ids[k] in search.visited
    {
      r := search.Visit(ids[i]);
      assert ids[i] in ids;
      if r != Accepted {
        return;
      }
    }
    order := search.visited;
    r := Accepted;
    TopologicalMeansAcyclic(g, order);
  }
}
