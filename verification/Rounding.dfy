/**
 * `round_transport_plan_bounded`, in its two versions: turn a fractional plan into an assignment. A greedy
 * pass takes the finite cells by decreasing score; a repair pass places tasks that are left over.
 */
module Rounding {
  import opened Matching
  import opened Ordering
  import opened Sorting
  import opened Tables

  datatype Candidate = Candidate(score: real, task: int, worker: int)

  /** The scores of a plan; cells that are not finite never become candidates. */
  function Scores(plan: Matrix<Float>): (int, int) -> real {
    (i, j) => if plan.at(i, j).Finite? then plan.at(i, j).value else 0.0
  }

  // ----- sorting the candidates -----

  /**
   * Decreasing score. The list is generated by task and then by worker, and the sort is stable, so ties keep that
   * order.
   */
  predicate Better(a: Candidate, b: Candidate) {
    || a.score > b.score
    || (a.score == b.score && (a.task < b.task || (a.task == b.task && a.worker < b.worker)))
  }

  predicate NotWorse(a: Candidate, b: Candidate) {
    a == b || Better(a, b)
  }

  function BestFirst(): (Candidate, Candidate) -> bool {
    (a: Candidate, b: Candidate) => Better(a, b)
  }

  function SortByScore(cs: seq<Candidate>): (r: seq<Candidate>)
    ensures forall k, l | 0 <= k < l < |r| :: NotWorse(r[k], r[l])
    ensures forall x :: x in r <==> x in cs
  {
    assert Orders(BestFirst(), cs);
    SortSorts(BestFirst(), cs, cs);
    SameMembers(BestFirst(), cs);
    Sort(BestFirst(), cs)
  }

  /** The cells the greedy pass looks at. */
  predicate Eligible(plan: Matrix<Float>, caps: seq<nat>, compatible: Matrix<bool>, i: int, j: int) {
    0 <= i < plan.rows && 0 <= j < |caps| && compatible.at(i, j) && plan.at(i, j).Finite? && caps[j] > 0
  }

  /** The eligible cells of row `i` in the first `j` columns. */
  function RowCells(plan: Matrix<Float>, caps: seq<nat>, compatible: Matrix<bool>, i: nat, j: nat): seq<Candidate>
    requires i < plan.rows && j <= |caps|
  {
    if j == 0 then []
    else
      RowCells(plan, caps, compatible, i, j - 1)
      + if Eligible(plan, caps, compatible, i, j - 1) then [Candidate(plan.at(i, j - 1).value, i, j - 1)] else []
  }

  /** The eligible cells of the first `i` rows, row by row. */
  function Cells(plan: Matrix<Float>, caps: seq<nat>, compatible: Matrix<bool>, i: nat): seq<Candidate>
    requires i <= plan.rows
  {
    if i == 0 then [] else Cells(plan, caps, compatible, i - 1) + RowCells(plan, caps, compatible, i - 1, |caps|)
  }

  predicate IsCell(plan: Matrix<Float>, caps: seq<nat>, compatible: Matrix<bool>, c: Candidate) {
    Eligible(plan, caps, compatible, c.task, c.worker) && c.score == Scores(plan)(c.task, c.worker)
  }

  /** Each entry is a cell of its row. */
  lemma {:induction false} RowCellsSound(plan: Matrix<Float>, caps: seq<nat>, compatible: Matrix<bool>, i: nat,
                                         j: nat, k: nat)
    requires i < plan.rows && j <= |caps| && k < |RowCells(plan, caps, compatible, i, j)|
    ensures var c := RowCells(plan, caps, compatible, i, j)[k]; IsCell(plan, caps, compatible, c) && c.task == i
  {
    if k < |RowCells(plan, caps, compatible, i, j - 1)| {
      RowCellsSound(plan, caps, compatible, i, j - 1, k);
    }
  }

  /** Each cell of the row has its entry. */
  lemma {:induction false} RowCellsComplete(plan: Matrix<Float>, caps: seq<nat>, compatible: Matrix<bool>, i: nat,
                                            j: nat, c: Candidate)
    returns (k: nat)
    requires i < plan.rows && j <= |caps| && IsCell(plan, caps, compatible, c) && c.task == i && c.worker < j
    ensures k < |RowCells(plan, caps, compatible, i, j)| && RowCells(plan, caps, compatible, i, j)[k] == c
  {
    if c.worker < j - 1 {
      k := RowCellsComplete(plan, caps, compatible, i, j - 1, c);
    } else {
      k := |RowCells(plan, caps, compatible, i, j - 1)|;
    }
  }

  lemma {:induction false} CellsSound(plan: Matrix<Float>, caps: seq<nat>, compatible: Matrix<bool>, i: nat, k: nat)
    requires i <= plan.rows && k < |Cells(plan, caps, compatible, i)|
    ensures IsCell(plan, caps, compatible, Cells(plan, caps, compatible, i)[k])
  {
    var before := |Cells(plan, caps, compatible, i - 1)|;
    if k < before {
      CellsSound(plan, caps, compatible, i - 1, k);
    } else {
      RowCellsSound(plan, caps, compatible, i - 1, |caps|, k - before);
    }
  }

  lemma {:induction false} CellsComplete(plan: Matrix<Float>, caps: seq<nat>, compatible: Matrix<bool>, i: nat,
                                         c: Candidate)
    returns (k: nat)
    requires i <= plan.rows && IsCell(plan, caps, compatible, c) && c.task < i
    ensures k < |Cells(plan, caps, compatible, i)| && Cells(plan, caps, compatible, i)[k] == c
  {
    if c.task < i - 1 {
      k := CellsComplete(plan, caps, compatible, i - 1, c);
    } else {
      k := RowCellsComplete(plan, caps, compatible, i - 1, |caps|, c);
      k := |Cells(plan, caps, compatible, i - 1)| + k;
    }
  }

  lemma CellsAreCells(plan: Matrix<Float>, caps: seq<nat>, compatible: Matrix<bool>, c: Candidate)
    ensures c in Cells(plan, caps, compatible, plan.rows) <==> IsCell(plan, caps, compatible, c)
  {
    var cs := Cells(plan, caps, compatible, plan.rows);
    if c in cs {
      var k :| 0 <= k < |cs| && cs[k] == c;
      CellsSound(plan, caps, compatible, plan.rows, k);
    }
    if IsCell(plan, caps, compatible, c) {
      var k := CellsComplete(plan, caps, compatible, plan.rows, c);
    }
  }

  method Candidates(plan: Matrix<Float>, caps: seq<nat>, compatible: Matrix<bool>) returns (cs: seq<Candidate>)
    ensures cs == Cells(plan, caps, compatible, plan.rows)
    ensures forall c :: c in cs <==> IsCell(plan, caps, compatible, c)
  {
    cs := [];
    for i := 0 to plan.rows
      invariant cs == Cells(plan, caps, compatible, i)
    {
      ghost var before := cs;
      for j := 0 to |caps|
        invariant cs == before + RowCells(plan, caps, compatible, i, j)
      {
        if compatible.at(i, j) && plan.at(i, j).Finite? && caps[j] > 0 {
          cs := cs + [Candidate(plan.at(i, j).value, i, j)];
        }
      }
    }
    forall c ensures c in cs <==> IsCell(plan, caps, compatible, c) {
      CellsAreCells(plan, caps, compatible, c);
    }
  }

  // ----- the working vectors -----

  /** `remaining` is what the assignment leaves of the capacities, and `placed` marks the tasks that have a worker. */
  ghost predicate Consistent(caps: seq<nat>, remaining: seq<int>, a: seq<int>, placed: seq<bool>) {
    && |remaining| == |caps| && |placed| == |a| && IsAssignment(a, |caps|)
    && (forall i | 0 <= i < |a| :: placed[i] <==> a[i] >= 0)
    && (forall j | 0 <= j < |caps| :: remaining[j] >= 0 && remaining[j] + Count(a, j) == caps[j])
  }

  ghost function Free(caps: seq<nat>, a: seq<int>): seq<int> {
    seq(|caps|, j requires 0 <= j < |caps| => caps[j] - Count(a, j))
  }

  lemma RemainingIsFree(caps: seq<nat>, remaining: seq<int>, a: seq<int>, placed: seq<bool>)
    requires Consistent(caps, remaining, a, placed)
    ensures remaining == Free(caps, a)
  {
  }

  /** The score of the first cell is larger, or they are equal and it comes earlier: in a row above, or further left. */
  ghost predicate Beats(plan: Matrix<Float>, i1: int, j1: int, i2: int, j2: int) {
    && plan.at(i1, j1).Finite? && plan.at(i2, j2).Finite?
    && var x, y := plan.at(i1, j1).value, plan.at(i2, j2).value;
       x > y || (x == y && (i1 < i2 || (i1 == i2 && j1 < j2)))
  }

  /** The pair is chosen, the task has a worker that beats this one, or the worker is full of tasks that do. */
  ghost predicate Unblocked(plan: Matrix<Float>, caps: seq<nat>, a: seq<int>, i: int, j: int)
    requires 0 <= i < |a| && 0 <= j < |caps|
  {
    || a[i] == j
    || (a[i] >= 0 && Beats(plan, i, a[i], i, j))
    || (Count(a, j) == caps[j] && forall k | 0 <= k < |a| && a[k] == j :: Beats(plan, k, j, i, j))
  }

  lemma UnblockedIsSettled(plan: Matrix<Float>, caps: seq<nat>, a: seq<int>, i: int, j: int)
    requires 0 <= i < |a| && 0 <= j < |caps| && Unblocked(plan, caps, a, i, j)
    ensures Settled(Scores(plan), caps, a, i, j)
  {
  }

  /** Giving a free task to a worker with a free slot makes no pair blocking. */
  lemma UnblockedPersists(plan: Matrix<Float>, caps: seq<nat>, a: seq<int>, i: int, j: int)
    requires 0 <= i < |a| && a[i] == -1 && 0 <= j < |caps| && Count(a, j) < caps[j]
    ensures forall i2, j2 | 0 <= i2 < |a| && 0 <= j2 < |caps| && Unblocked(plan, caps, a, i2, j2) ::
              Unblocked(plan, caps, a[i := j], i2, j2)
  {
    forall i2, j2 | 0 <= i2 < |a| && 0 <= j2 < |caps| && Unblocked(plan, caps, a, i2, j2)
      ensures Unblocked(plan, caps, a[i := j], i2, j2)
    {
      CountUpdate(a, i, j, j2);
    }
  }

  method Give(i: int, j: int, remaining: array<int>, assignment: array<int>, placed: array<bool>, ghost caps: seq<nat>)
    requires remaining != assignment
    requires Consistent(caps, remaining[..], assignment[..], placed[..])
    requires 0 <= i < assignment.Length && !placed[i] && 0 <= j < remaining.Length && remaining[j] > 0
    modifies remaining, assignment, placed
    ensures assignment[..] == old(assignment[..])[i := j]
    ensures remaining[..] == old(remaining[..])[j := old(remaining[j]) - 1]
    ensures Consistent(caps, remaining[..], assignment[..], placed[..])
  {
    forall k | 0 <= k < |caps| {
      CountUpdate(assignment[..], i, j, k);
    }
    assignment[i] := j;
    placed[i] := true;
    remaining[j] := remaining[j] - 1;
    assert assignment[..] == old(assignment[..])[i := j];
  }

  /** Every pair of the assignment is an eligible cell. */
  ghost predicate FromCells(plan: Matrix<Float>, caps: seq<nat>, compatible: Matrix<bool>, a: seq<int>) {
    forall i | 0 <= i < |a| && a[i] >= 0 :: Eligible(plan, caps, compatible, i, a[i])
  }

  /** No compatible pair with a finite score and a worker with slots is blocking, ties counted by position. */
  ghost predicate NoBlockingPair(plan: Matrix<Float>, caps: seq<nat>, compatible: Matrix<bool>, a: seq<int>) {
    forall i, j | 0 <= i < |a| && 0 <= j < |caps| && compatible.at(i, j) && plan.at(i, j).Finite? && caps[j] > 0 ::
      Unblocked(plan, caps, a, i, j)
  }

  /** After `k` of the sorted candidates: none of them is blocking, and what is assigned comes before the others. */
  ghost predicate GreedyUpTo(plan: Matrix<Float>, caps: seq<nat>, compatible: Matrix<bool>, cs: seq<Candidate>,
                             k: nat, a: seq<int>)
    requires forall c | c in cs :: 0 <= c.task < |a| && 0 <= c.worker < |caps|
    requires k <= |cs|
  {
    && FromCells(plan, caps, compatible, a)
    && (forall i, l | 0 <= i < |a| && a[i] >= 0 && k <= l < |cs| ::
          NotWorse(Candidate(Scores(plan)(i, a[i]), i, a[i]), cs[l]))
    && (forall l | 0 <= l < k :: Unblocked(plan, caps, a, cs[l].task, cs[l].worker))
  }

  ghost predicate IsQueue(plan: Matrix<Float>, caps: seq<nat>, compatible: Matrix<bool>, cs: seq<Candidate>) {
    && (forall k, l | 0 <= k < l < |cs| :: NotWorse(cs[k], cs[l]))
    && (forall c | c in cs ::
          Eligible(plan, caps, compatible, c.task, c.worker) && c.score == Scores(plan)(c.task, c.worker))
  }

  lemma GreedyTakes(plan: Matrix<Float>, caps: seq<nat>, compatible: Matrix<bool>, cs: seq<Candidate>, k: nat,
                    a: seq<int>)
    requires |a| == plan.rows && IsQueue(plan, caps, compatible, cs) && k < |cs|
    requires GreedyUpTo(plan, caps, compatible, cs, k, a)
    requires a[cs[k].task] == -1 && Count(a, cs[k].worker) < caps[cs[k].worker]
    ensures GreedyUpTo(plan, caps, compatible, cs, k + 1, a[cs[k].task := cs[k].worker])
  {
    UnblockedPersists(plan, caps, a, cs[k].task, cs[k].worker);
  }

  lemma GreedySkips(plan: Matrix<Float>, caps: seq<nat>, compatible: Matrix<bool>, cs: seq<Candidate>, k: nat,
                    a: seq<int>)
    requires |a| == plan.rows && IsQueue(plan, caps, compatible, cs) && k < |cs|
    requires GreedyUpTo(plan, caps, compatible, cs, k, a)
    requires a[cs[k].task] >= 0 || Count(a, cs[k].worker) == caps[cs[k].worker]
    ensures GreedyUpTo(plan, caps, compatible, cs, k + 1, a)
  {
  }

  /** Each candidate in turn is taken if its task is free and its worker has a slot. */
  ghost function TakeInOrder(cs: seq<Candidate>, caps: seq<nat>, a: seq<int>): (r: seq<int>)
    ensures |r| == |a|
  {
    var n := |cs|;
    if n == 0 then a else TakeIfFree(cs[n - 1], caps, TakeInOrder(cs[..n - 1], caps, a))
  }

  ghost function TakeIfFree(c: Candidate, caps: seq<nat>, a: seq<int>): (r: seq<int>)
    ensures |r| == |a|
  {
    if 0 <= c.task < |a| && a[c.task] < 0 && 0 <= c.worker < |caps| && Free(caps, a)[c.worker] > 0
    then a[c.task := c.worker] else a
  }

  /** What the greedy pass computes, with its ties: cells of equal score by task and then by worker. */
  ghost function Greedy(plan: Matrix<Float>, caps: seq<nat>, compatible: Matrix<bool>): (r: seq<int>)
    ensures |r| == plan.rows
  {
    TakeInOrder(SortByScore(Cells(plan, caps, compatible, plan.rows)), caps, seq(plan.rows, _ => -1))
  }

  lemma TakeNext(cs: seq<Candidate>, k: nat, caps: seq<nat>, a: seq<int>)
    requires k < |cs|
    ensures TakeInOrder(cs[..k + 1], caps, a) == TakeIfFree(cs[k], caps, TakeInOrder(cs[..k], caps, a))
  {
    assert cs[..k + 1][..k] == cs[..k];
  }

  method TakeCandidates(plan: Matrix<Float>, caps: seq<nat>, compatible: Matrix<bool>, cs: seq<Candidate>,
                        remaining: array<int>, assignment: array<int>, placed: array<bool>)
    requires remaining != assignment && assignment.Length == plan.rows && IsQueue(plan, caps, compatible, cs)
    requires Consistent(caps, remaining[..], assignment[..], placed[..])
    requires forall i | 0 <= i < assignment.Length :: assignment[i] == -1
    modifies remaining, assignment, placed
    ensures Consistent(caps, remaining[..], assignment[..], placed[..])
    ensures GreedyUpTo(plan, caps, compatible, cs, |cs|, assignment[..])
    ensures assignment[..] == TakeInOrder(cs, caps, old(assignment[..]))
  {
    ghost var before := assignment[..];
    for k := 0 to |cs|
      invariant Consistent(caps, remaining[..], assignment[..], placed[..])
      invariant GreedyUpTo(plan, caps, compatible, cs, k, assignment[..])
      invariant assignment[..] == TakeInOrder(cs[..k], caps, before)
    {
      var i, j := cs[k].task, cs[k].worker;
      assert cs[k] in cs;
      TakeNext(cs, k, caps, before);
      RemainingIsFree(caps, remaining[..], assignment[..], placed[..]);
      if !placed[i] && remaining[j] > 0 {
        GreedyTakes(plan, caps, compatible, cs, k, assignment[..]);
        Give(i, j, remaining, assignment, placed, caps);
      } else {
        GreedySkips(plan, caps, compatible, cs, k, assignment[..]);
      }
    }
    assert cs[..|cs|] == cs;
  }

  method GreedyPass(plan: Matrix<Float>, caps: seq<nat>, compatible: Matrix<bool>,
                    remaining: array<int>, assignment: array<int>, placed: array<bool>)
    requires remaining != assignment && assignment.Length == plan.rows
    requires Consistent(caps, remaining[..], assignment[..], placed[..])
    requires forall i | 0 <= i < assignment.Length :: assignment[i] == -1
    modifies remaining, assignment, placed
    ensures Consistent(caps, remaining[..], assignment[..], placed[..])
    ensures FromCells(plan, caps, compatible, assignment[..])
    ensures NoBlockingPair(plan, caps, compatible, assignment[..])
    ensures assignment[..] == Greedy(plan, caps, compatible)
  {
    assert assignment[..] == seq(plan.rows, _ => -1);
    var unsorted := Candidates(plan, caps, compatible);
    var cs := SortByScore(unsorted);
    TakeCandidates(plan, caps, compatible, cs, remaining, assignment, placed);
    AllCellsSettled(plan, caps, compatible, cs, assignment[..]);
  }

  lemma AllCellsSettled(plan: Matrix<Float>, caps: seq<nat>, compatible: Matrix<bool>, cs: seq<Candidate>, a: seq<int>)
    requires |a| == plan.rows && IsQueue(plan, caps, compatible, cs)
    requires forall c :: IsCell(plan, caps, compatible, c) ==> c in cs
    requires GreedyUpTo(plan, caps, compatible, cs, |cs|, a)
    ensures NoBlockingPair(plan, caps, compatible, a)
  {
    forall i, j | 0 <= i < |a| && 0 <= j < |caps| && compatible.at(i, j) && plan.at(i, j).Finite? && caps[j] > 0
      ensures Unblocked(plan, caps, a, i, j)
    {
      assert IsCell(plan, caps, compatible, Candidate(Scores(plan)(i, j), i, j));
    }
  }

  lemma {:induction false} CountLess(a: seq<int>, b: seq<int>, i: int, j: int)
    requires |a| == |b| && 0 <= i < |a| && a[i] == j && b[i] != j
    requires forall k | 0 <= k < |b| && b[k] == j :: a[k] == j
    ensures Count(b, j) < Count(a, j)
  {
    var n := |a| - 1;
    if i < n {
      CountLess(a[..n], b[..n], i, j);
    } else {
      CountNoMore(a[..n], b[..n], j);
    }
  }

  lemma {:induction false} CountNoMore(a: seq<int>, b: seq<int>, j: int)
    requires |a| == |b| && forall k | 0 <= k < |b| && b[k] == j :: a[k] == j
    ensures Count(b, j) <= Count(a, j)
  {
    if a != [] {
      CountNoMore(a[..|a| - 1], b[..|b| - 1], j);
    }
  }

  /** If the two agree on all cells before one, the first cannot choose it without the second. */
  lemma ChosenInBoth(plan: Matrix<Float>, caps: seq<nat>, compatible: Matrix<bool>, a: seq<int>, b: seq<int>, i: int)
    requires |a| == |b| == plan.rows && WithinCapacity(a, caps) && IsAssignment(b, |caps|)
    requires 0 <= i < |a| && a[i] >= 0 && Eligible(plan, caps, compatible, i, a[i])
    requires FromCells(plan, caps, compatible, b) && NoBlockingPair(plan, caps, compatible, b)
    requires forall k | 0 <= k < |b| && b[k] >= 0 && Beats(plan, k, b[k], i, a[i]) :: a[k] == b[k]
    ensures b[i] == a[i]
  {
    var j := a[i];
    assert Unblocked(plan, caps, b, i, j);
    if b[i] != j && Count(b, j) == caps[j] && forall k | 0 <= k < |b| && b[k] == j :: Beats(plan, k, j, i, j) {
      CountLess(a, b, i, j);
    }
  }

  lemma {:induction false} AgreeUpTo(plan: Matrix<Float>, caps: seq<nat>, compatible: Matrix<bool>,
                                     cs: seq<Candidate>, k: nat, a: seq<int>, b: seq<int>)
    requires |a| == |b| == plan.rows && WithinCapacity(a, caps) && WithinCapacity(b, caps)
    requires FromCells(plan, caps, compatible, a) && NoBlockingPair(plan, caps, compatible, a)
    requires FromCells(plan, caps, compatible, b) && NoBlockingPair(plan, caps, compatible, b)
    requires IsQueue(plan, caps, compatible, cs) && k <= |cs|
    requires forall c :: IsCell(plan, caps, compatible, c) ==> c in cs
    ensures forall l | 0 <= l < k :: a[cs[l].task] == cs[l].worker <==> b[cs[l].task] == cs[l].worker
  {
    if k > 0 {
      AgreeUpTo(plan, caps, compatible, cs, k - 1, a, b);
      var c := cs[k - 1];
      assert c in cs;
      if a[c.task] == c.worker {
        EarlierCellsAgree(plan, caps, compatible, cs, k - 1, a, b);
        ChosenInBoth(plan, caps, compatible, a, b, c.task);
      } else if b[c.task] == c.worker {
        EarlierCellsAgree(plan, caps, compatible, cs, k - 1, b, a);
        ChosenInBoth(plan, caps, compatible, b, a, c.task);
      }
    }
  }

  lemma EarlierCellsAgree(plan: Matrix<Float>, caps: seq<nat>, compatible: Matrix<bool>, cs: seq<Candidate>, n: nat,
                          a: seq<int>, b: seq<int>)
    requires |a| == |b| == plan.rows && IsAssignment(b, |caps|) && FromCells(plan, caps, compatible, b)
    requires IsQueue(plan, caps, compatible, cs) && n < |cs|
    requires forall c :: IsCell(plan, caps, compatible, c) ==> c in cs
    requires forall l | 0 <= l < n :: a[cs[l].task] == cs[l].worker <==> b[cs[l].task] == cs[l].worker
    ensures forall k | 0 <= k < |b| && b[k] >= 0 && Beats(plan, k, b[k], cs[n].task, cs[n].worker) :: a[k] == b[k]
  {
    forall k | 0 <= k < |b| && b[k] >= 0 && Beats(plan, k, b[k], cs[n].task, cs[n].worker) ensures a[k] == b[k] {
      var cell := Candidate(Scores(plan)(k, b[k]), k, b[k]);
      assert IsCell(plan, caps, compatible, cell);
      var l :| 0 <= l < |cs| && cs[l] == cell;
      assert cs[n] in cs;
      assert l < n;
    }
  }

  /** Only one choice of cells keeps the capacities and has no blocking pair: the one of the greedy pass. */
  lemma GreedyChoiceIsUnique(plan: Matrix<Float>, caps: seq<nat>, compatible: Matrix<bool>, a: seq<int>, b: seq<int>)
    requires |a| == |b| == plan.rows && WithinCapacity(a, caps) && WithinCapacity(b, caps)
    requires FromCells(plan, caps, compatible, a) && NoBlockingPair(plan, caps, compatible, a)
    requires FromCells(plan, caps, compatible, b) && NoBlockingPair(plan, caps, compatible, b)
    ensures a == b
  {
    var cs := SortByScore(Cells(plan, caps, compatible, plan.rows));
    forall c ensures c in cs <==> IsCell(plan, caps, compatible, c) {
      CellsAreCells(plan, caps, compatible, c);
    }
    AgreeUpTo(plan, caps, compatible, cs, |cs|, a, b);
    forall i | 0 <= i < |a| ensures a[i] == b[i] {
      EveryChoiceIsShared(plan, caps, compatible, cs, a, b, i);
      EveryChoiceIsShared(plan, caps, compatible, cs, b, a, i);
    }
  }

  lemma EveryChoiceIsShared(plan: Matrix<Float>, caps: seq<nat>, compatible: Matrix<bool>, cs: seq<Candidate>,
                            a: seq<int>, b: seq<int>, i: int)
    requires |a| == |b| == plan.rows && 0 <= i < |a| && FromCells(plan, caps, compatible, a)
    requires IsQueue(plan, caps, compatible, cs) && forall c :: IsCell(plan, caps, compatible, c) ==> c in cs
    requires forall l | 0 <= l < |cs| :: a[cs[l].task] == cs[l].worker <==> b[cs[l].task] == cs[l].worker
    ensures a[i] >= 0 ==> b[i] == a[i]
  {
    if a[i] >= 0 {
      var cell := Candidate(Scores(plan)(i, a[i]), i, a[i]);
      assert IsCell(plan, caps, compatible, cell);
      var l :| 0 <= l < |cs| && cs[l] == cell;
    }
  }

  // ----- repair -----

  function Degree(compatible: Matrix<bool>, i: int, workers: nat): nat {
    if workers == 0 then 0 else Degree(compatible, i, workers - 1) + if compatible.at(i, workers - 1) then 1 else 0
  }

  lemma {:induction false} DegreeCounts(compatible: Matrix<bool>, i: int, workers: nat)
    ensures Degree(compatible, i, workers) == |set j | 0 <= j < workers && compatible.at(i, j)|
  {
    if workers > 0 {
      DegreeCounts(compatible, i, workers - 1);
      var rest := set j | 0 <= j < workers - 1 && compatible.at(i, j);
      var last := if compatible.at(i, workers - 1) then {workers - 1} else {};
      var all := set j | 0 <= j < workers && compatible.at(i, j);
      assert forall j :: j in all <==> j in rest + last;
      assert all == rest + last;
    }
  }

  /** Of the first `m` workers the compatible one with most free slots, the last one on ties. */
  function RoomiestOf(compatible: Matrix<bool>, free: seq<int>, i: int, m: nat): (best: int)
    requires m <= |free|
    ensures -1 <= best < m
  {
    if m == 0 then -1
    else
      var best := RoomiestOf(compatible, free, i, m - 1);
      if compatible.at(i, m - 1) && free[m - 1] > 0 && (best == -1 || free[m - 1] >= free[best]) then m - 1 else best
  }

  /** The compatible worker with most slots left, the last one on ties. */
  method Roomiest(compatible: Matrix<bool>, i: int, remaining: array<int>) returns (best: int)
    ensures -1 <= best < remaining.Length && best == RoomiestOf(compatible, remaining[..], i, remaining.Length)
    ensures best == -1 ==> forall j | 0 <= j < remaining.Length && compatible.at(i, j) :: remaining[j] <= 0
    ensures best >= 0 ==> compatible.at(i, best) && remaining[best] > 0
    ensures best >= 0 ==> forall j | 0 <= j < remaining.Length && compatible.at(i, j) ::
              remaining[j] < remaining[best] || (remaining[j] == remaining[best] && j <= best)
  {
    best := -1;
    for j := 0 to remaining.Length
      invariant -1 <= best < j && best == RoomiestOf(compatible, remaining[..], i, j)
      invariant best == -1 ==> forall k | 0 <= k < j && compatible.at(i, k) :: remaining[k] <= 0
      invariant best >= 0 ==> compatible.at(i, best) && remaining[best] > 0
      invariant best >= 0 ==> forall k | 0 <= k < j && compatible.at(i, k) ::
                  remaining[k] < remaining[best] || (remaining[k] == remaining[best] && k <= best)
    {
      if compatible.at(i, j) && remaining[j] > 0 && (best == -1 || remaining[j] >= remaining[best]) {
        best := j;
      }
    }
  }

  /** The tasks of the queue in turn get the chosen worker, if they have none and there is one. */
  ghost function PlaceAll(choose: (seq<int>, int) -> int, caps: seq<nat>, queue: seq<int>, a: seq<int>): (r: seq<int>)
    ensures |r| == |a|
  {
    var n := |queue|;
    if n == 0 then a else Place(choose, caps, queue[n - 1], PlaceAll(choose, caps, queue[..n - 1], a))
  }

  ghost function Place(choose: (seq<int>, int) -> int, caps: seq<nat>, i: int, a: seq<int>): (r: seq<int>)
    ensures |r| == |a|
  {
    if 0 <= i < |a| && a[i] < 0 && choose(Free(caps, a), i) >= 0 then a[i := choose(Free(caps, a), i)] else a
  }

  lemma PlaceNext(choose: (seq<int>, int) -> int, caps: seq<nat>, queue: seq<int>, k: nat, a: seq<int>)
    requires k < |queue|
    ensures PlaceAll(choose, caps, queue[..k + 1], a)
         == Place(choose, caps, queue[k], PlaceAll(choose, caps, queue[..k], a))
  {
    assert queue[..k + 1][..k] == queue[..k];
  }

  ghost function RoomiestChoice(compatible: Matrix<bool>): (seq<int>, int) -> int {
    (free: seq<int>, i: int) => RoomiestOf(compatible, free, i, |free|)
  }

  /** The tasks without a worker by number of compatible workers, then by index. */
  ghost function ScarceOrder(compatible: Matrix<bool>, workers: nat, a: seq<int>): seq<int> {
    var keys := map i | 0 <= i < |a| && a[i] < 0 :: Degree(compatible, i, workers) as real;
    Take(keys, |keys|)
  }

  ghost function RepairedScarceFirst(compatible: Matrix<bool>, caps: seq<nat>, a: seq<int>): seq<int> {
    PlaceAll(RoomiestChoice(compatible), caps, ScarceOrder(compatible, |caps|, a), a)
  }

  /** What the compatible rounding computes. */
  ghost function Rounded(plan: Matrix<Float>, caps: seq<nat>, compatible: Matrix<bool>): seq<int> {
    RepairedScarceFirst(compatible, caps, Greedy(plan, caps, compatible))
  }

  /** What both repair passes guarantee about the assignment they were given. */
  ghost predicate Repaired(plan: Matrix<Float>, compatible: Matrix<bool>, caps: seq<nat>, before: seq<int>,
                           after: seq<int>) {
    && |after| == |before|
    && (forall i | 0 <= i < |before| && before[i] >= 0 :: after[i] == before[i])
    && (forall i | 0 <= i < |after| && after[i] >= 0 && before[i] < 0 :: compatible.at(i, after[i]))
    && (Maximal(compatible, caps, before) ==> after == before)
    && (forall i, j | 0 <= i < |before| && 0 <= j < |caps| && Unblocked(plan, caps, before, i, j) ::
          Unblocked(plan, caps, after, i, j))
  }

  /** Fewer workers are compatible with the first task, or as many and it comes earlier. */
  ghost predicate Scarcer(compatible: Matrix<bool>, workers: nat, i: int, k: int) {
    var x := |set j | 0 <= j < workers && compatible.at(i, j)|;
    var y := |set j | 0 <= j < workers && compatible.at(k, j)|;
    x < y || (x == y && i < k)
  }

  /** Of the tasks without a worker before, none is left out while a less scarce one gets a worker it could have. */
  ghost predicate ScarceFirst(compatible: Matrix<bool>, workers: nat, before: seq<int>, after: seq<int>)
    requires |before| == |after|
  {
    forall i, k | 0 <= i < |before| && 0 <= k < |before| && before[i] < 0 && before[k] < 0
                  && Scarcer(compatible, workers, i, k) && after[i] < 0 && after[k] >= 0 ::
      !compatible.at(i, after[k])
  }

  /** After the tasks before `k`: each has a worker, or no compatible worker has a slot left or was given one later. */
  ghost predicate RepairUpTo(compatible: Matrix<bool>, caps: seq<nat>, queue: seq<int>, k: nat, a: seq<int>)
    requires forall l | 0 <= l < |queue| :: 0 <= queue[l] < |a|
    requires k <= |queue|
  {
    && (forall l | k <= l < |queue| :: a[queue[l]] == -1)
    && (forall l, j | 0 <= l < k && 0 <= j < |caps| && a[queue[l]] == -1 && compatible.at(queue[l], j) ::
          Count(a, j) >= caps[j])
    && (forall l, m | 0 <= l < m < k && a[queue[l]] == -1 && a[queue[m]] >= 0 ::
          !compatible.at(queue[l], a[queue[m]]))
  }

  lemma RepairGives(plan: Matrix<Float>, compatible: Matrix<bool>, caps: seq<nat>, before: seq<int>,
                    queue: seq<int>, k: nat, a: seq<int>, j: nat)
    requires forall l | 0 <= l < |queue| :: 0 <= queue[l] < |a|
    requires k < |queue| && Distinct(queue) && RepairUpTo(compatible, caps, queue, k, a)
    requires Repaired(plan, compatible, caps, before, a)
    requires j < |caps| && compatible.at(queue[k], j) && Count(a, j) < caps[j]
    ensures RepairUpTo(compatible, caps, queue, k + 1, a[queue[k] := j])
    ensures Repaired(plan, compatible, caps, before, a[queue[k] := j])
  {
    assert !Maximal(compatible, caps, a);
    UnblockedPersists(plan, caps, a, queue[k], j);
    forall j2 | 0 <= j2 < |caps| ensures Count(a[queue[k] := j], j2) >= Count(a, j2) {
      CountUpdate(a, queue[k], j, j2);
    }
  }

  lemma RepairedMeansMaximal(compatible: Matrix<bool>, caps: seq<nat>, queue: seq<int>, a: seq<int>)
    requires forall l | 0 <= l < |queue| :: 0 <= queue[l] < |a|
    requires RepairUpTo(compatible, caps, queue, |queue|, a)
    requires forall i | 0 <= i < |a| && a[i] == -1 :: i in queue
    ensures Maximal(compatible, caps, a)
  {
    forall i, j | 0 <= i < |a| && 0 <= j < |caps| && a[i] == -1 && compatible.at(i, j) ensures Count(a, j) >= caps[j] {
      var l :| 0 <= l < |queue| && queue[l] == i;
    }
  }

  lemma QueueIsScarceFirst(compatible: Matrix<bool>, caps: seq<nat>, queue: seq<int>, before: seq<int>, a: seq<int>)
    requires |before| == |a| && IsAssignment(a, |caps|)
    requires forall l | 0 <= l < |queue| :: 0 <= queue[l] < |a|
    requires RepairUpTo(compatible, caps, queue, |queue|, a)
    requires forall i | 0 <= i < |a| && before[i] < 0 :: i in queue
    requires forall k, l | 0 <= k < l < |queue| :: Scarcer(compatible, |caps|, queue[k], queue[l])
    ensures ScarceFirst(compatible, |caps|, before, a)
  {
    forall i, k | 0 <= i < |a| && 0 <= k < |a| && before[i] < 0 && before[k] < 0
                  && Scarcer(compatible, |caps|, i, k) && a[i] < 0 && a[k] >= 0
      ensures !compatible.at(i, a[k])
    {
      var l :| 0 <= l < |queue| && queue[l] == i;
      var m :| 0 <= m < |queue| && queue[m] == k;
      assert m < l ==> Scarcer(compatible, |caps|, k, i);
    }
  }

  /** The tasks without a worker, those with the fewest compatible workers first, then by index. */
  method Unresolved(compatible: Matrix<bool>, workers: nat, placed: seq<bool>, ghost a: seq<int>)
    returns (queue: seq<int>)
    requires |a| == |placed| && forall i | 0 <= i < |a| :: placed[i] <==> a[i] >= 0
    ensures queue == ScarceOrder(compatible, workers, a)
    ensures forall l | 0 <= l < |queue| :: 0 <= queue[l] < |placed| && !placed[queue[l]]
    ensures forall i | 0 <= i < |placed| && !placed[i] :: i in queue
    ensures Distinct(queue)
    ensures forall k, l | 0 <= k < l < |queue| :: Scarcer(compatible, workers, queue[k], queue[l])
  {
    forall i ensures Degree(compatible, i, workers) == |set j | 0 <= j < workers && compatible.at(i, j)| {
      DegreeCounts(compatible, i, workers);
    }
    var keys := map i | 0 <= i < |placed| && !placed[i] :: Degree(compatible, i, workers) as real;
    assert keys == map i | 0 <= i < |a| && a[i] < 0 :: Degree(compatible, i, workers) as real;
    queue := Query(keys, |keys|);
    AllTaken(keys);
  }

  /** A free task got a compatible worker with a free slot, or there is none. */
  ghost predicate GotWorker(compatible: Matrix<bool>, caps: seq<nat>, a: seq<int>, i: int, b: seq<int>)
    requires 0 <= i < |a|
  {
    || (b == a && forall j | 0 <= j < |caps| && compatible.at(i, j) :: Count(a, j) >= caps[j])
    || (exists j :: 0 <= j < |caps| && compatible.at(i, j) && Count(a, j) < caps[j] && b == a[i := j])
  }

  method PlaceRoomiest(i: int, caps: seq<nat>, compatible: Matrix<bool>,
                       remaining: array<int>, assignment: array<int>, placed: array<bool>)
    requires remaining != assignment && 0 <= i < assignment.Length
    requires Consistent(caps, remaining[..], assignment[..], placed[..]) && assignment[i] == -1
    modifies remaining, assignment, placed
    ensures Consistent(caps, remaining[..], assignment[..], placed[..])
    ensures assignment[..] == Place(RoomiestChoice(compatible), caps, i, old(assignment[..]))
    ensures GotWorker(compatible, caps, old(assignment[..]), i, assignment[..])
  {
    RemainingIsFree(caps, remaining[..], assignment[..], placed[..]);
    var best := Roomiest(compatible, i, remaining);
    if best >= 0 {
      Give(i, best, remaining, assignment, placed, caps);
    }
  }

  lemma RepairStep(plan: Matrix<Float>, compatible: Matrix<bool>, caps: seq<nat>, before: seq<int>,
                   queue: seq<int>, k: nat, a: seq<int>, b: seq<int>)
    requires |b| == |a| && forall l | 0 <= l < |queue| :: 0 <= queue[l] < |a|
    requires k < |queue| && Distinct(queue) && RepairUpTo(compatible, caps, queue, k, a)
    requires Repaired(plan, compatible, caps, before, a) && GotWorker(compatible, caps, a, queue[k], b)
    ensures RepairUpTo(compatible, caps, queue, k + 1, b) && Repaired(plan, compatible, caps, before, b)
  {
    if j :| 0 <= j < |caps| && compatible.at(queue[k], j) && Count(a, j) < caps[j] && b == a[queue[k] := j] {
      RepairGives(plan, compatible, caps, before, queue, k, a, j);
    }
  }

  method RepairQueue(queue: seq<int>, caps: seq<nat>, compatible: Matrix<bool>,
                     remaining: array<int>, assignment: array<int>, placed: array<bool>, ghost plan: Matrix<Float>)
    requires remaining != assignment && Distinct(queue)
    requires forall l | 0 <= l < |queue| :: 0 <= queue[l] < assignment.Length
    requires Consistent(caps, remaining[..], assignment[..], placed[..])
    requires RepairUpTo(compatible, caps, queue, 0, assignment[..])
    modifies remaining, assignment, placed
    ensures Consistent(caps, remaining[..], assignment[..], placed[..])
    ensures Repaired(plan, compatible, caps, old(assignment[..]), assignment[..])
    ensures RepairUpTo(compatible, caps, queue, |queue|, assignment[..])
    ensures assignment[..] == PlaceAll(RoomiestChoice(compatible), caps, queue, old(assignment[..]))
  {
    ghost var before := assignment[..];
    for k := 0 to |queue|
      invariant Consistent(caps, remaining[..], assignment[..], placed[..])
      invariant Repaired(plan, compatible, caps, before, assignment[..])
      invariant RepairUpTo(compatible, caps, queue, k, assignment[..])
      invariant assignment[..] == PlaceAll(RoomiestChoice(compatible), caps, queue[..k], before)
    {
      ghost var a := assignment[..];
      assert a[queue[k]] == -1;
      PlaceNext(RoomiestChoice(compatible), caps, queue, k, before);
      PlaceRoomiest(queue[k], caps, compatible, remaining, assignment, placed);
      RepairStep(plan, compatible, caps, before, queue, k, a, assignment[..]);
    }
    assert queue[..|queue|] == queue;
  }

  method RepairScarceFirst(caps: seq<nat>, compatible: Matrix<bool>,
                           remaining: array<int>, assignment: array<int>, placed: array<bool>,
                           ghost plan: Matrix<Float>)
    requires remaining != assignment
    requires Consistent(caps, remaining[..], assignment[..], placed[..])
    modifies remaining, assignment, placed
    ensures Consistent(caps, remaining[..], assignment[..], placed[..])
    ensures Repaired(plan, compatible, caps, old(assignment[..]), assignment[..])
    ensures Maximal(compatible, caps, assignment[..])
    ensures ScarceFirst(compatible, |caps|, old(assignment[..]), assignment[..])
    ensures assignment[..] == RepairedScarceFirst(compatible, caps, old(assignment[..]))
  {
    ghost var before := assignment[..];
    var unresolved := Unresolved(compatible, |caps|, placed[..], assignment[..]);
    RepairQueue(unresolved, caps, compatible, remaining, assignment, placed, plan);
    RepairedMeansMaximal(compatible, caps, unresolved, assignment[..]);
    QueueIsScarceFirst(compatible, caps, unresolved, before, assignment[..]);
  }

  /** A query whose limit is the number of rows answers with all of them. */
  lemma AllTaken(keys: map<int, real>)
    ensures forall id | id in keys :: id in Take(keys, |keys|)
  {
    TakenCount(keys, |keys|);
    var taken := set id | id in Take(keys, |keys|);
    assert forall id | id in taken :: id in keys.Keys;
    var missing := keys.Keys - taken;
    assert keys.Keys == taken + missing;
    assert |missing| == 0;
    forall id | id in keys ensures id in taken {
      assert id in taken || id in missing;
    }
  }

  // ----- the whole algorithm -----

  function Slots(capacities: seq<int>): (caps: seq<nat>)
    ensures |caps| == |capacities|
    ensures forall i | 0 <= i < |caps| :: caps[i] >= capacities[i] && (caps[i] == 0 || caps[i] == capacities[i])
  {
    seq(|capacities|, i requires 0 <= i < |capacities| => if capacities[i] > 0 then capacities[i] else 0)
  }

  /** No feasible assignment of the same tasks serves more than twice as many. */
  ghost predicate HalfOptimal(compatible: Matrix<bool>, caps: seq<nat>, a: seq<int>) {
    forall f: seq<int> | |f| == |a| && Feasible(compatible, caps, f) :: Served(f) <= 2 * Served(a)
  }

  /** No feasible assignment of the same tasks has more than twice the score. */
  ghost predicate HalfOptimalScore(plan: Matrix<Float>, compatible: Matrix<bool>, caps: seq<nat>, a: seq<int>) {
    forall f: seq<int> | |f| == |a| && Feasible(compatible, caps, f) ::
      Total(Scores(plan), f) <= 2.0 * Total(Scores(plan), a)
  }

  ghost predicate AllFinite(plan: Matrix<Float>, compatible: Matrix<bool>) {
    forall i, j | 0 <= i < plan.rows && 0 <= j < plan.cols && compatible.at(i, j) :: plan.at(i, j).Finite?
  }

  ghost predicate NoNegative(plan: Matrix<Float>) {
    forall i, j | 0 <= i < plan.rows && 0 <= j < plan.cols :: Scores(plan)(i, j) >= 0.0
  }

  /** With finite scores the greedy pass leaves nothing to repair. */
  lemma GreedyIsMaximalOnFinitePlans(plan: Matrix<Float>, caps: seq<nat>, compatible: Matrix<bool>, a: seq<int>)
    requires |a| == plan.rows && |caps| == plan.cols && IsAssignment(a, |caps|) && AllFinite(plan, compatible)
    requires NoBlockingPair(plan, caps, compatible, a)
    ensures Maximal(compatible, caps, a)
  {
    forall i, j | 0 <= i < |a| && 0 <= j < |caps| && a[i] == -1 && compatible.at(i, j) ensures Count(a, j) >= caps[j] {
      if caps[j] > 0 {
        assert plan.at(i, j).Finite?;
      }
    }
  }

  lemma NoPositiveCountOnFullWorker(caps: seq<nat>, f: seq<int>, i: int)
    requires WithinCapacity(f, caps) && 0 <= i < |f| && f[i] >= 0
    ensures caps[f[i]] > 0
  {
    PositiveCount(f, i);
  }

  lemma {:induction false} PositiveCount(f: seq<int>, i: int)
    requires 0 <= i < |f|
    ensures Count(f, f[i]) > 0
  {
    if i < |f| - 1 {
      PositiveCount(f[..|f| - 1], i);
    }
  }

  lemma RoundingIsHalfOptimal(plan: Matrix<Float>, caps: seq<nat>, compatible: Matrix<bool>, a: seq<int>)
    requires |a| == plan.rows && |caps| == plan.cols
    requires Feasible(compatible, caps, a) && Maximal(compatible, caps, a) && NoBlockingPair(plan, caps, compatible, a)
    ensures HalfOptimal(compatible, caps, a)
    ensures AllFinite(plan, compatible) && NoNegative(plan) ==> HalfOptimalScore(plan, compatible, caps, a)
  {
    forall f: seq<int> | |f| == |a| && Feasible(compatible, caps, f) ensures Served(f) <= 2 * Served(a) {
      MaximalIsHalfOptimal(compatible, caps, a, f);
    }
    if AllFinite(plan, compatible) && NoNegative(plan) {
      forall f: seq<int> | |f| == |a| && Feasible(compatible, caps, f)
        ensures Total(Scores(plan), f) <= 2.0 * Total(Scores(plan), a)
      {
        forall i | 0 <= i < |f| && f[i] >= 0 ensures Settled(Scores(plan), caps, a, i, f[i]) {
          NoPositiveCountOnFullWorker(caps, f, i);
          assert compatible.at(i, f[i]) && plan.at(i, f[i]).Finite?;
          UnblockedIsSettled(plan, caps, a, i, f[i]);
        }
        SettledIsHalfOptimal(Scores(plan), caps, a, f);
      }
    }
  }

  method FreshVectors(n: nat, caps: seq<nat>)
    returns (remaining: array<int>, assignment: array<int>, placed: array<bool>)
    ensures fresh(remaining) && fresh(assignment) && fresh(placed) && remaining != assignment && assignment.Length == n
    ensures forall i | 0 <= i < n :: assignment[i] == -1
    ensures Consistent(caps, remaining[..], assignment[..], placed[..])
  {
    remaining := new int[|caps|](j requires 0 <= j < |caps| => caps[j]);
    assignment := new int[n](_ => -1);
    placed := new bool[n](_ => false);
    forall j | 0 <= j < |caps| {
      CountNone(assignment[..], j);
    }
  }

  /** The same of a whole rounding: it is the cells without a finite score that the repair gives out. */
  ghost predicate ScarceBeforeOthers(plan: Matrix<Float>, compatible: Matrix<bool>, workers: nat, a: seq<int>) {
    forall i, k | 0 <= i < |a| && 0 <= k < |a| && a[i] < 0 && a[k] >= 0 && !plan.at(k, a[k]).Finite?
                  && Scarcer(compatible, workers, i, k) ::
      !compatible.at(i, a[k])
  }

  /** Everything that holds of a rounding with compatibility. */
  ghost predicate WellRounded(plan: Matrix<Float>, caps: seq<nat>, compatible: Matrix<bool>, a: seq<int>) {
    && Feasible(compatible, caps, a) && Maximal(compatible, caps, a)
    && NoBlockingPair(plan, caps, compatible, a)
    && ScarceBeforeOthers(plan, compatible, |caps|, a)
    && (AllFinite(plan, compatible) ==> FromCells(plan, caps, compatible, a))
    && HalfOptimal(compatible, caps, a)
    && (AllFinite(plan, compatible) && NoNegative(plan) ==> HalfOptimalScore(plan, compatible, caps, a))
  }

  lemma IsWellRounded(plan: Matrix<Float>, caps: seq<nat>, compatible: Matrix<bool>, before: seq<int>, a: seq<int>)
    requires |before| == |a| == plan.rows && |caps| == plan.cols && IsAssignment(before, |caps|)
    requires WithinCapacity(a, caps) && Maximal(compatible, caps, a)
    requires FromCells(plan, caps, compatible, before) && NoBlockingPair(plan, caps, compatible, before)
    requires Repaired(plan, compatible, caps, before, a) && ScarceFirst(compatible, |caps|, before, a)
    ensures WellRounded(plan, caps, compatible, a)
  {
    if AllFinite(plan, compatible) {
      GreedyIsMaximalOnFinitePlans(plan, caps, compatible, before);
    }
    RoundingIsHalfOptimal(plan, caps, compatible, a);
  }

  /** The rounding of registered dispatch (`worker_protocol.rs`). */
  method RoundCompatible(plan: Matrix<Float>, capacities: seq<int>, compatible: Matrix<bool>)
    returns (assignment: array<int>)
    ensures fresh(assignment) && assignment.Length == plan.rows
    ensures var caps, a := Slots(capacities), assignment[..];
            if compatible.rows != plan.rows || compatible.cols != plan.cols || |capacities| != plan.cols then
              forall i | 0 <= i < |a| :: a[i] == -1
            else
              a == Rounded(plan, caps, compatible) && WellRounded(plan, caps, compatible, a)
  {
    var caps := Slots(capacities);
    var remaining, vector, placed := FreshVectors(plan.rows, caps);
    assignment := vector;
    if compatible.rows != plan.rows || compatible.cols != plan.cols || |capacities| != plan.cols {
      return;
    }
    GreedyPass(plan, caps, compatible, remaining, assignment, placed);
    ghost var before := assignment[..];
    RepairScarceFirst(caps, compatible, remaining, assignment, placed, plan);
    IsWellRounded(plan, caps, compatible, before, assignment[..]);
  }

  // ----- the version without compatibility (`sync_queue.rs`) -----

  function Everything(plan: Matrix<Float>): Matrix<bool> {
    Matrix(plan.rows, plan.cols, (i, j) => true)
  }

  /** Of the first `m` workers the one with a free slot and the highest score, the first one on ties. */
  function HighestOf(plan: Matrix<Float>, free: seq<int>, i: int, m: nat): (best: int)
    requires m <= |free|
    ensures -1 <= best < m
  {
    if m == 0 then -1
    else
      var best := HighestOf(plan, free, i, m - 1);
      if free[m - 1] > 0 && (best == -1 || Scores(plan)(i, m - 1) > Scores(plan)(i, best)) then m - 1 else best
  }

  ghost function HighestChoice(plan: Matrix<Float>): (seq<int>, int) -> int {
    (free: seq<int>, i: int) => HighestOf(plan, free, i, |free|)
  }

  function Indices(n: nat): seq<int> {
    seq(n, i => i)
  }

  /** What the rounding without compatibility computes. */
  ghost function RoundedInOrder(plan: Matrix<Float>, caps: seq<nat>): seq<int> {
    PlaceAll(HighestChoice(plan), caps, Indices(plan.rows), Greedy(plan, caps, Everything(plan)))
  }

  /** The first worker with a free slot whose score, taken as 0 if not finite, is the largest. */
  method HighestScoring(plan: Matrix<Float>, i: int, remaining: array<int>) returns (best: int)
    ensures -1 <= best < remaining.Length && best == HighestOf(plan, remaining[..], i, remaining.Length)
    ensures best == -1 ==> forall j | 0 <= j < remaining.Length :: remaining[j] <= 0
    ensures best >= 0 ==> remaining[best] > 0
    ensures best >= 0 ==> forall j | 0 <= j < remaining.Length && remaining[j] > 0 ::
              var x := if plan.at(i, j).Finite? then plan.at(i, j).value else 0.0;
              var top := if plan.at(i, best).Finite? then plan.at(i, best).value else 0.0;
              x < top || (x == top && best <= j)
  {
    best := -1;
    for j := 0 to remaining.Length
      invariant -1 <= best < j && best == HighestOf(plan, remaining[..], i, j)
      invariant best == -1 ==> forall k | 0 <= k < j :: remaining[k] <= 0
      invariant best >= 0 ==> remaining[best] > 0
      invariant best >= 0 ==> forall k | 0 <= k < j && remaining[k] > 0 ::
                  || Scores(plan)(i, k) < Scores(plan)(i, best)
                  || (Scores(plan)(i, k) == Scores(plan)(i, best) && best <= k)
    {
      if remaining[j] > 0 && (best == -1 || Scores(plan)(i, j) > Scores(plan)(i, best)) {
        best := j;
      }
    }
  }

  /** The first tasks each have a worker, or no worker has a slot left. */
  ghost predicate InOrderUpTo(caps: seq<nat>, i: nat, a: seq<int>)
    requires i <= |a|
  {
    forall k, j | 0 <= k < i && 0 <= j < |caps| && a[k] == -1 :: Count(a, j) >= caps[j]
  }

  /** The first worker has a larger score (0 if it is not finite) for the task, or the same and is not later. */
  ghost predicate Prefers(plan: Matrix<Float>, i: int, first: int, second: int) {
    var x := if plan.at(i, first).Finite? then plan.at(i, first).value else 0.0;
    var y := if plan.at(i, second).Finite? then plan.at(i, second).value else 0.0;
    x > y || (x == y && first <= second)
  }

  /**
   * Of the first `i` tasks those without a worker before were served in turn: each prefers its worker to the free
   * ones and to what the later ones got.
   */
  ghost predicate InTurn(plan: Matrix<Float>, caps: seq<nat>, before: seq<int>, i: nat, a: seq<int>)
    requires |before| == |a| && i <= |a|
  {
    && (forall k | i <= k < |a| :: a[k] == before[k])
    && (forall k, j | 0 <= k < i && before[k] < 0 && 0 <= j < |caps| && Count(a, j) < caps[j] ::
          a[k] >= 0 && Prefers(plan, k, a[k], j))
    && (forall k, l | 0 <= k < l < i && before[k] < 0 && before[l] < 0 && a[l] >= 0 ::
          a[k] >= 0 && Prefers(plan, k, a[k], a[l]))
  }

  /** A task without a worker got the one it prefers to all others with a free slot, if there was one. */
  ghost predicate GotPreferred(plan: Matrix<Float>, caps: seq<nat>, a: seq<int>, i: nat, b: seq<int>)
    requires i < |a| == |b|
  {
    && (b == a || (a[i] < 0 && 0 <= b[i] < |caps| && Count(a, b[i]) < caps[b[i]] && b == a[i := b[i]]))
    && (a[i] < 0 ==> forall j | 0 <= j < |caps| && Count(a, j) < caps[j] :: b[i] >= 0 && Prefers(plan, i, b[i], j))
  }

  lemma InTurnStep(plan: Matrix<Float>, caps: seq<nat>, before: seq<int>, a: seq<int>, i: nat, b: seq<int>)
    requires |before| == |a| == |b| && i < |a| && InTurn(plan, caps, before, i, a)
    requires IsAssignment(a, |caps|) && GotPreferred(plan, caps, a, i, b)
    ensures InTurn(plan, caps, before, i + 1, b)
  {
    if b != a {
      forall j | 0 <= j < |caps| ensures Count(b, j) >= Count(a, j) {
        CountUpdate(a, i, b[i], j);
      }
    }
  }

  lemma InOrderGives(plan: Matrix<Float>, caps: seq<nat>, before: seq<int>, a: seq<int>, i: nat, best: nat)
    requires i < |a| && a[i] == -1 && best < |caps| && Count(a, best) < caps[best] && InOrderUpTo(caps, i, a)
    requires Repaired(plan, Everything(plan), caps, before, a)
    ensures InOrderUpTo(caps, i + 1, a[i := best])
    ensures Repaired(plan, Everything(plan), caps, before, a[i := best])
  {
    assert Everything(plan).at(i, best);
    assert !Maximal(Everything(plan), caps, a);
    UnblockedPersists(plan, caps, a, i, best);
    forall j | 0 <= j < |caps| ensures Count(a[i := best], j) >= Count(a, j) {
      CountUpdate(a, i, best, j);
    }
  }

  method PlaceHighest(i: int, plan: Matrix<Float>, caps: seq<nat>,
                      remaining: array<int>, assignment: array<int>, placed: array<bool>)
    requires remaining != assignment && 0 <= i < assignment.Length
    requires Consistent(caps, remaining[..], assignment[..], placed[..])
    modifies remaining, assignment, placed
    ensures Consistent(caps, remaining[..], assignment[..], placed[..])
    ensures assignment[..] == Place(HighestChoice(plan), caps, i, old(assignment[..]))
    ensures if old(assignment[i]) >= 0 then assignment[..] == old(assignment[..])
            else GotWorker(Everything(plan), caps, old(assignment[..]), i, assignment[..])
    ensures GotPreferred(plan, caps, old(assignment[..]), i, assignment[..])
  {
    if !placed[i] {
      RemainingIsFree(caps, remaining[..], assignment[..], placed[..]);
      var best := HighestScoring(plan, i, remaining);
      if best >= 0 {
        assert Everything(plan).at(i, best);
        Give(i, best, remaining, assignment, placed, caps);
      }
    }
  }

  lemma InOrderStep(plan: Matrix<Float>, caps: seq<nat>, before: seq<int>, a: seq<int>, i: nat, b: seq<int>)
    requires i < |a| == |b| && IsAssignment(a, |caps|) && InOrderUpTo(caps, i, a)
    requires Repaired(plan, Everything(plan), caps, before, a)
    requires if a[i] >= 0 then b == a else GotWorker(Everything(plan), caps, a, i, b)
    ensures InOrderUpTo(caps, i + 1, b) && Repaired(plan, Everything(plan), caps, before, b)
  {
    if a[i] < 0 {
      assert forall j :: Everything(plan).at(i, j);
      if j :| 0 <= j < |caps| && Everything(plan).at(i, j) && Count(a, j) < caps[j] && b == a[i := j] {
        InOrderGives(plan, caps, before, a, i, j);
      }
    }
  }

  /** After the first `i` tasks. */
  ghost predicate RepairedTo(plan: Matrix<Float>, caps: seq<nat>, before: seq<int>, i: nat, a: seq<int>) {
    && |before| == |a| && i <= |a|
    && Repaired(plan, Everything(plan), caps, before, a) && InOrderUpTo(caps, i, a) && InTurn(plan, caps, before, i, a)
  }

  lemma RepairedOneMore(plan: Matrix<Float>, caps: seq<nat>, before: seq<int>, a: seq<int>, i: nat, b: seq<int>)
    requires RepairedTo(plan, caps, before, i, a) && i < |a| == |b| && IsAssignment(a, |caps|)
    requires if a[i] >= 0 then b == a else GotWorker(Everything(plan), caps, a, i, b)
    requires GotPreferred(plan, caps, a, i, b)
    ensures RepairedTo(plan, caps, before, i + 1, b)
  {
    InOrderStep(plan, caps, before, a, i, b);
    InTurnStep(plan, caps, before, a, i, b);
  }

  method RepairInOrder(plan: Matrix<Float>, caps: seq<nat>,
                       remaining: array<int>, assignment: array<int>, placed: array<bool>)
    requires remaining != assignment
    requires Consistent(caps, remaining[..], assignment[..], placed[..])
    modifies remaining, assignment, placed
    ensures Consistent(caps, remaining[..], assignment[..], placed[..])
    ensures Repaired(plan, Everything(plan), caps, old(assignment[..]), assignment[..])
    ensures Maximal(Everything(plan), caps, assignment[..])
    ensures InTurn(plan, caps, old(assignment[..]), assignment.Length, assignment[..])
    ensures assignment[..] == PlaceAll(HighestChoice(plan), caps, Indices(assignment.Length), old(assignment[..]))
  {
    ghost var queue, before := Indices(assignment.Length), assignment[..];
    for i := 0 to assignment.Length
      invariant Consistent(caps, remaining[..], assignment[..], placed[..])
      invariant RepairedTo(plan, caps, before, i, assignment[..])
      invariant assignment[..] == PlaceAll(HighestChoice(plan), caps, queue[..i], before)
    {
      ghost var a := assignment[..];
      PlaceNext(HighestChoice(plan), caps, queue, i, before);
      PlaceHighest(i, plan, caps, remaining, assignment, placed);
      RepairedOneMore(plan, caps, before, a, i, assignment[..]);
    }
    assert queue[..|queue|] == queue;
  }

  /**
   * In a whole rounding it is the cells without a finite score that the repair gives out: no task is left out while a
   * later one gets such a cell, and of two that do the earlier one prefers its own.
   */
  ghost predicate RepairedInTurn(plan: Matrix<Float>, a: seq<int>) {
    forall k, l | 0 <= k < l < |a| && a[l] >= 0 && !plan.at(l, a[l]).Finite?
                  && (a[k] < 0 || !plan.at(k, a[k]).Finite?) ::
      a[k] >= 0 && Prefers(plan, k, a[k], a[l])
  }

  lemma InTurnMeans(plan: Matrix<Float>, caps: seq<nat>, before: seq<int>, a: seq<int>)
    requires |before| == |a| == plan.rows && InTurn(plan, caps, before, |a|, a)
    requires FromCells(plan, caps, Everything(plan), before) && IsAssignment(before, |caps|)
    requires forall i | 0 <= i < |before| && before[i] >= 0 :: a[i] == before[i]
    ensures RepairedInTurn(plan, a)
  {
  }

  method RoundUnrestricted(plan: Matrix<Float>, capacities: seq<int>) returns (assignment: array<int>)
    requires |capacities| == plan.cols
    ensures fresh(assignment) && assignment.Length == plan.rows
    ensures assignment[..] == RoundedInOrder(plan, Slots(capacities))
    ensures WithinCapacity(assignment[..], Slots(capacities))
    ensures NoBlockingPair(plan, Slots(capacities), Everything(plan), assignment[..])
    ensures RepairedInTurn(plan, assignment[..])
    ensures Served(assignment[..]) == if plan.rows <= Sum(Slots(capacities)) then plan.rows else Sum(Slots(capacities))
  {
    var caps := Slots(capacities);
    var remaining, vector, placed := FreshVectors(plan.rows, caps);
    assignment := vector;
    GreedyPass(plan, caps, Everything(plan), remaining, assignment, placed);
    ghost var before := assignment[..];
    RepairInOrder(plan, caps, remaining, assignment, placed);
    InTurnMeans(plan, caps, before, assignment[..]);
    MaximalIsExactWhenAllCompatible(Everything(plan), caps, assignment[..]);
  }
}
