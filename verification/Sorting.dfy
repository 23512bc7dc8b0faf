/** Sequences without duplicates, and stable insertion sort by any order. */
module Sorting {

  ghost predicate Distinct<T>(s: seq<T>) {
    forall i, j | 0 <= i < j < |s| :: s[i] != s[j]
  }

  function Insert<T(==)>(before: (T, T) -> bool, x: T, sorted: seq<T>): (r: seq<T>)
    ensures multiset(r) == multiset(sorted) + multiset{x}
  {
    if sorted == [] || before(x, sorted[0]) then [x] + sorted
    else
      assert sorted == [sorted[0]] + sorted[1..];
      [sorted[0]] + Insert(before, x, sorted[1..])
  }

  function Sort<T(==)>(before: (T, T) -> bool, s: seq<T>): (r: seq<T>)
    ensures multiset(r) == multiset(s)
  {
    if s == [] then []
    else
      assert s == [s[0]] + s[1..];
      Insert(before, s[0], Sort(before, s[1..]))
  }

  ghost predicate InOrder<T>(before: (T, T) -> bool, s: seq<T>) {
    forall k, l | 0 <= k < l < |s| :: before(s[k], s[l]) || s[k] == s[l]
  }

  /** `before` is a strict order of the elements of `s`, total on them. */
  ghost predicate Orders<T(!new)>(before: (T, T) -> bool, s: seq<T>) {
    && (forall x, y | x in s && y in s :: before(x, y) || x == y || before(y, x))
    && (forall x, y, z | x in s && y in s && z in s && before(x, y) && before(y, z) :: before(x, z))
  }

  lemma {:induction false} InsertKeepsOrder<T(!new)>(before: (T, T) -> bool, x: T, sorted: seq<T>, all: seq<T>)
    requires Orders(before, all) && x in all && (forall y | y in sorted :: y in all) && InOrder(before, sorted)
    ensures InOrder(before, Insert(before, x, sorted))
  {
    if sorted != [] {
      if before(x, sorted[0]) {
        forall l | 0 <= l < |sorted| ensures before(x, sorted[l]) {
          assert sorted[l] in sorted && sorted[0] in sorted;
        }
      } else {
        var r := Insert(before, x, sorted[1..]);
        InsertKeepsOrder(before, x, sorted[1..], all);
        forall l | 0 <= l < |r| ensures before(sorted[0], r[l]) || sorted[0] == r[l] {
          assert sorted[0] in sorted && r[l] in multiset(r);
          assert r[l] == x || r[l] in sorted[1..];
        }
      }
    }
  }

  lemma {:induction false} SortSorts<T(!new)>(before: (T, T) -> bool, s: seq<T>, all: seq<T>)
    requires Orders(before, all) && forall y | y in s :: y in all
    ensures InOrder(before, Sort(before, s))
  {
    if s != [] {
      var rest := Sort(before, s[1..]);
      SortSorts(before, s[1..], all);
      SameMembers(before, s[1..]);
      InsertKeepsOrder(before, s[0], rest, all);
    }
  }

  lemma SameMembers<T>(before: (T, T) -> bool, s: seq<T>)
    ensures |Sort(before, s)| == |s| && forall x :: x in Sort(before, s) <==> x in s
  {
    var r := Sort(before, s);
    assert |r| == |multiset(r)| == |multiset(s)| == |s|;
    forall x ensures x in r <==> x in s {
      assert (x in r <==> x in multiset(r)) && (x in s <==> x in multiset(s));
    }
  }

  /** Distinctness is a matter of the multiset. */
  lemma {:induction false} DistinctByMultiset<T>(s: seq<T>)
    ensures Distinct(s) <==> forall x :: multiset(s)[x] <= 1
  {
    if s != [] {
      var n := |s| - 1;
      assert s == s[..n] + [s[n]];
      DistinctByMultiset(s[..n]);
      if !Distinct(s[..n]) {
        var x :| multiset(s[..n])[x] > 1;
        assert multiset(s)[x] > 1;
      }
      if i :| 0 <= i < n && s[i] == s[n] {
        assert s[..n][i] in multiset(s[..n]);
        assert multiset(s)[s[n]] > 1;
      }
      if x :| multiset(s)[x] > 1 && Distinct(s[..n]) {
        assert multiset(s[..n])[x] <= 1;
        assert x == s[n] && x in s[..n];
      }
    }
  }

  lemma SortKeepsDistinct<T>(before: (T, T) -> bool, s: seq<T>)
    ensures Distinct(Sort(before, s)) <==> Distinct(s)
  {
    DistinctByMultiset(s);
    DistinctByMultiset(Sort(before, s));
  }
}
