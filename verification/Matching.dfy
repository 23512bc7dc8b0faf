/** Assignments of tasks to workers with capacities: how good one without blocking pairs has to be. */
module Matching {

  /** A matrix the code only reads. Cells outside `rows` x `cols` have no meaning. */
  datatype Matrix<T> = Matrix(rows: nat, cols: nat, at: (int, int) -> T)

  /** `a[i]` is the worker of task `i`, or -1. */
  predicate IsAssignment(a: seq<int>, workers: nat) {
    forall i | 0 <= i < |a| :: -1 <= a[i] < workers
  }

  function Count(a: seq<int>, j: int): nat {
    if a == [] then 0 else Count(a[..|a| - 1], j) + if a[|a| - 1] == j then 1 else 0
  }

  ghost predicate WithinCapacity(a: seq<int>, caps: seq<nat>) {
    IsAssignment(a, |caps|) && forall j | 0 <= j < |caps| :: Count(a, j) <= caps[j]
  }

  ghost predicate Feasible(compatible: Matrix<bool>, caps: seq<nat>, a: seq<int>) {
    WithinCapacity(a, caps) && forall i | 0 <= i < |a| && a[i] >= 0 :: compatible.at(i, a[i])
  }

  /** No task is left out while a worker that could take it has a free slot. */
  ghost predicate Maximal(compatible: Matrix<bool>, caps: seq<nat>, a: seq<int>) {
    forall i, j | 0 <= i < |a| && 0 <= j < |caps| && a[i] == -1 && compatible.at(i, j) :: Count(a, j) >= caps[j]
  }

  /**
   * The pair is not blocking: the task has a worker at least as good, or the worker is full of tasks at least as good.
   */
  ghost predicate Settled(w: (int, int) -> real, caps: seq<nat>, a: seq<int>, i: int, j: int)
    requires 0 <= i < |a| && 0 <= j < |caps|
  {
    || (a[i] >= 0 && w(i, a[i]) >= w(i, j))
    || (Count(a, j) == caps[j] && forall k | 0 <= k < |a| && a[k] == j :: w(k, j) >= w(i, j))
  }

  lemma {:induction false} CountUpdate(a: seq<int>, i: int, j: int, k: int)
    requires 0 <= i < |a| && a[i] == -1 && j >= 0
    ensures Count(a[i := j], k) == Count(a, k) + (if k == j then 1 else 0) - (if k == -1 then 1 else 0)
  {
    var n := |a| - 1;
    if i == n {
      assert a[i := j][..n] == a[..n];
    } else {
      CountUpdate(a[..n], i, j, k);
      assert a[i := j][..n] == a[..n][i := j];
    }
  }

  lemma {:induction false} CountNone(a: seq<int>, j: int)
    requires forall i | 0 <= i < |a| :: a[i] != j
    ensures Count(a, j) == 0
  {
    if a != [] {
      CountNone(a[..|a| - 1], j);
    }
  }

  // ----- totals -----

  /** The weight of the tasks given to worker `j`. */
  ghost function WorkerTotal(w: (int, int) -> real, a: seq<int>, j: int): real {
    if a == [] then 0.0
    else WorkerTotal(w, a[..|a| - 1], j) + if a[|a| - 1] == j then w(|a| - 1, j) else 0.0
  }

  /** The weight of the whole assignment. */
  ghost function Total(w: (int, int) -> real, a: seq<int>): real {
    if a == [] then 0.0
    else Total(w, a[..|a| - 1]) + if a[|a| - 1] >= 0 then w(|a| - 1, a[|a| - 1]) else 0.0
  }

  ghost function SumWorkers(w: (int, int) -> real, a: seq<int>, workers: nat): real {
    if workers == 0 then 0.0 else SumWorkers(w, a, workers - 1) + WorkerTotal(w, a, workers - 1)
  }

  lemma {:induction false} SumWorkersSplit(w: (int, int) -> real, a: seq<int>, workers: nat)
    requires a != []
    ensures SumWorkers(w, a, workers) == SumWorkers(w, a[..|a| - 1], workers)
              + if 0 <= a[|a| - 1] < workers then w(|a| - 1, a[|a| - 1]) else 0.0
  {
    if workers > 0 {
      SumWorkersSplit(w, a, workers - 1);
    }
  }

  /** Adding up by worker is adding up by task. */
  lemma {:induction false} TotalByWorker(w: (int, int) -> real, a: seq<int>, workers: nat)
    requires IsAssignment(a, workers)
    ensures Total(w, a) == SumWorkers(w, a, workers)
  {
    if a == [] {
      SumOfNothing(w, workers);
    } else {
      SumWorkersSplit(w, a, workers);
      TotalByWorker(w, a[..|a| - 1], workers);
    }
  }

  lemma {:induction false} SumOfNothing(w: (int, int) -> real, workers: nat)
    ensures SumWorkers(w, [], workers) == 0.0
  {
    if workers > 0 {
      SumOfNothing(w, workers - 1);
    }
  }

  function Times(n: nat, x: real): real {
    if n == 0 then 0.0 else Times(n - 1, x) + x
  }

  lemma {:induction false} TimesMonotone(n: nat, m: nat, x: real)
    requires n <= m && x >= 0.0
    ensures Times(n, x) <= Times(m, x)
  {
    if n < m {
      TimesMonotone(n, m - 1, x);
    }
  }

  lemma {:induction false} WorkerTotalAtMost(w: (int, int) -> real, a: seq<int>, j: int, x: real)
    requires forall i | 0 <= i < |a| && a[i] == j :: w(i, j) <= x
    ensures WorkerTotal(w, a, j) <= Times(Count(a, j), x)
  {
    if a != [] {
      WorkerTotalAtMost(w, a[..|a| - 1], j, x);
    }
  }

  lemma {:induction false} WorkerTotalAtLeast(w: (int, int) -> real, a: seq<int>, j: int, x: real)
    requires forall i | 0 <= i < |a| && a[i] == j :: w(i, j) >= x
    ensures WorkerTotal(w, a, j) >= Times(Count(a, j), x)
  {
    if a != [] {
      WorkerTotalAtLeast(w, a[..|a| - 1], j, x);
    }
  }

  lemma {:induction false} Heaviest(w: (int, int) -> real, a: seq<int>, j: int) returns (top: int)
    requires exists i :: 0 <= i < |a| && a[i] == j
    ensures 0 <= top < |a| && a[top] == j
    ensures forall i | 0 <= i < |a| && a[i] == j :: w(i, j) <= w(top, j)
  {
    var n := |a| - 1;
    if exists i :: 0 <= i < n && a[i] == j {
      var i :| 0 <= i < n && a[i] == j;
      assert a[..n][i] == j;
      top := Heaviest(w, a[..n], j);
      assert forall i | 0 <= i < n && a[i] == j :: a[..n][i] == j;
      if a[n] == j && w(n, j) > w(top, j) {
        top := n;
      }
    } else {
      top := n;
    }
  }

  // ----- the half-optimality argument -----

  /** `g` is the part of `f` whose tasks do better in `f` than in `a`. */
  ghost predicate IsRest(w: (int, int) -> real, a: seq<int>, f: seq<int>, g: seq<int>)
    requires |a| == |f| == |g|
  {
    forall i | 0 <= i < |f| ::
      g[i] == if f[i] >= 0 && !(a[i] >= 0 && w(i, a[i]) >= w(i, f[i])) then f[i] else -1
  }

  lemma {:induction false} RestCountsLess(f: seq<int>, g: seq<int>, j: nat)
    requires |f| == |g| && forall i | 0 <= i < |f| :: g[i] == f[i] || g[i] == -1
    ensures Count(g, j) <= Count(f, j)
  {
    if f != [] {
      RestCountsLess(f[..|f| - 1], g[..|g| - 1], j);
    }
  }

  lemma {:induction false} SplitTotal(w: (int, int) -> real, a: seq<int>, f: seq<int>, g: seq<int>)
    requires |a| == |f| == |g| && IsRest(w, a, f, g)
    requires forall i | 0 <= i < |a| && a[i] >= 0 :: w(i, a[i]) >= 0.0
    ensures Total(w, f) <= Total(w, a) + Total(w, g)
  {
    if a != [] {
      SplitTotal(w, a[..|a| - 1], f[..|a| - 1], g[..|a| - 1]);
    }
  }

  /** On one worker, the rest cannot outweigh what the worker has. */
  lemma RestFitsWorker(w: (int, int) -> real, caps: seq<nat>, a: seq<int>, f: seq<int>, g: seq<int>, j: nat)
    requires |a| == |f| == |g| && IsRest(w, a, f, g) && j < |caps|
    requires Count(f, j) <= caps[j]
    requires forall i | 0 <= i < |a| && a[i] == j :: w(i, j) >= 0.0
    requires forall i | 0 <= i < |f| && f[i] == j :: w(i, j) >= 0.0 && Settled(w, caps, a, i, j)
    ensures WorkerTotal(w, g, j) <= WorkerTotal(w, a, j)
  {
    if exists i :: 0 <= i < |g| && g[i] == j {
      var top := Heaviest(w, g, j);
      var x := w(top, j);
      RestCountsLess(f, g, j);
      WorkerTotalAtMost(w, g, j, x);
      WorkerTotalAtLeast(w, a, j, x);
      TimesMonotone(Count(g, j), Count(a, j), x);
    } else {
      CountNone(g, j);
      WorkerTotalAtMost(w, g, j, 0.0);
      WorkerTotalAtLeast(w, a, j, 0.0);
      TimesMonotone(0, Count(a, j), 0.0);
    }
  }

  lemma {:induction false} RestFits(w: (int, int) -> real, caps: seq<nat>, a: seq<int>, f: seq<int>, g: seq<int>,
                                    m: nat)
    requires |a| == |f| == |g| && IsRest(w, a, f, g) && m <= |caps|
    requires WithinCapacity(f, caps)
    requires forall i | 0 <= i < |a| && a[i] >= 0 :: w(i, a[i]) >= 0.0
    requires forall i | 0 <= i < |f| && f[i] >= 0 :: w(i, f[i]) >= 0.0 && Settled(w, caps, a, i, f[i])
    ensures SumWorkers(w, g, m) <= SumWorkers(w, a, m)
  {
    if m > 0 {
      RestFits(w, caps, a, f, g, m - 1);
      RestFitsWorker(w, caps, a, f, g, m - 1);
    }
  }

  /** An assignment with no blocking pair among the pairs of `f` weighs at least half as much as `f`. */
  lemma SettledIsHalfOptimal(w: (int, int) -> real, caps: seq<nat>, a: seq<int>, f: seq<int>)
    requires |a| == |f| && IsAssignment(a, |caps|) && WithinCapacity(f, caps)
    requires forall i | 0 <= i < |a| && a[i] >= 0 :: w(i, a[i]) >= 0.0
    requires forall i | 0 <= i < |f| && f[i] >= 0 :: w(i, f[i]) >= 0.0 && Settled(w, caps, a, i, f[i])
    ensures Total(w, f) <= 2.0 * Total(w, a)
  {
    var g := seq(|f|, i requires 0 <= i < |f| && |a| == |f| =>
      if f[i] >= 0 && !(a[i] >= 0 && w(i, a[i]) >= w(i, f[i])) then f[i] else -1);
    SplitTotal(w, a, f, g);
    RestFits(w, caps, a, f, g, |caps|);
    TotalByWorker(w, a, |caps|);
    TotalByWorker(w, g, |caps|);
  }

  // ----- counting -----

  function Served(a: seq<int>): nat {
    if a == [] then 0 else Served(a[..|a| - 1]) + if a[|a| - 1] >= 0 then 1 else 0
  }

  const UNIT: (int, int) -> real := (i, j) => 1.0

  lemma {:induction false} ServedIsUnitTotal(a: seq<int>)
    ensures Total(UNIT, a) == Served(a) as real
  {
    if a != [] {
      ServedIsUnitTotal(a[..|a| - 1]);
    }
  }

  /** Half-optimality: a maximal assignment serves at least half as many tasks as any feasible one. */
  lemma MaximalIsHalfOptimal(compatible: Matrix<bool>, caps: seq<nat>, a: seq<int>, f: seq<int>)
    requires |a| == |f| && Feasible(compatible, caps, a) && Maximal(compatible, caps, a)
    requires Feasible(compatible, caps, f)
    ensures Served(f) <= 2 * Served(a)
  {
    SettledIsHalfOptimal(UNIT, caps, a, f);
    ServedIsUnitTotal(a);
    ServedIsUnitTotal(f);
  }

  function Sum(caps: seq<nat>): nat {
    if caps == [] then 0 else Sum(caps[..|caps| - 1]) + caps[|caps| - 1]
  }

  lemma {:induction false} CountIsUnitTotal(a: seq<int>, j: int)
    ensures WorkerTotal(UNIT, a, j) == Count(a, j) as real
  {
    if a != [] {
      CountIsUnitTotal(a[..|a| - 1], j);
    }
  }

  lemma {:induction false} SlotsBound(a: seq<int>, caps: seq<nat>)
    requires forall j | 0 <= j < |caps| :: Count(a, j) <= caps[j]
    ensures SumWorkers(UNIT, a, |caps|) <= Sum(caps) as real
    ensures (forall j | 0 <= j < |caps| :: Count(a, j) == caps[j]) ==>
              SumWorkers(UNIT, a, |caps|) == Sum(caps) as real
  {
    if caps != [] {
      var m := |caps| - 1;
      SlotsBound(a, caps[..m]);
      CountIsUnitTotal(a, m);
      assert forall j | 0 <= j < m :: caps[..m][j] == caps[j];
    }
  }

  lemma {:induction false} ServedAtMost(a: seq<int>)
    ensures Served(a) <= |a|
    ensures (forall i | 0 <= i < |a| :: a[i] >= 0) <==> Served(a) == |a|
  {
    if a != [] {
      var n := |a| - 1;
      ServedAtMost(a[..n]);
      assert forall i | 0 <= i < n :: a[..n][i] == a[i];
      assert (forall i | 0 <= i < |a| :: a[i] >= 0) <==> (forall i | 0 <= i < n :: a[i] >= 0) && a[n] >= 0;
    }
  }

  /** When every worker can take every task, a maximal assignment serves exactly min(tasks, slots) tasks. */
  lemma MaximalIsExactWhenAllCompatible(compatible: Matrix<bool>, caps: seq<nat>, a: seq<int>)
    requires Feasible(compatible, caps, a) && Maximal(compatible, caps, a)
    requires forall i, j | 0 <= i < |a| && 0 <= j < |caps| :: compatible.at(i, j)
    ensures Served(a) == if |a| <= Sum(caps) then |a| else Sum(caps)
  {
    ServedAtMost(a);
    ServedIsUnitTotal(a);
    TotalByWorker(UNIT, a, |caps|);
    SlotsBound(a, caps);
    if i :| 0 <= i < |a| && a[i] < 0 {
      assert forall j | 0 <= j < |caps| :: compatible.at(i, j) && Count(a, j) == caps[j];
    }
  }
}
