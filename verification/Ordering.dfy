/** `SELECT id ... ORDER BY <key> ASC, id ASC LIMIT n` over a finite set of rows. */
module Ordering {
  import opened Sorting

  /** The sort order of the query: by key, ties by row id. */
  predicate Precedes(keys: map<int, real>, a: int, b: int)
    requires a in keys && b in keys
  {
    keys[a] < keys[b] || (keys[a] == keys[b] && a < b)
  }

  predicate IsFirst(keys: map<int, real>, m: int) {
    m in keys && forall k | k in keys :: k == m || Precedes(keys, m, k)
  }

  lemma Inhabited(ids: set<int>)
    ensures ids == {} || exists id :: id in ids
  {
    if forall id :: id !in ids {
      assert ids == {};
    }
  }

  lemma SubsetSize(a: set<int>, b: set<int>)
    requires forall id | id in a :: id in b
    ensures |a| <= |b|
  {
    var rest := b - a;
    assert forall id :: id in b <==> id in a + rest;
    assert b == a + rest;
  }

  lemma {:induction false} FirstExists(keys: map<int, real>)
    requires keys.Keys != {}
    ensures exists m :: IsFirst(keys, m)
    decreases |keys|
  {
    Inhabited(keys.Keys);
    var k :| k in keys;
    var rest := keys - {k};
    assert keys.Keys == rest.Keys + {k};
    if rest.Keys == {} {
      assert IsFirst(keys, k);
    } else {
      assert |rest.Keys| < |keys.Keys|;
      FirstExists(rest);
      var m :| IsFirst(rest, m);
      assert IsFirst(keys, if Precedes(keys, k, m) then k else m);
    }
  }

  function First(keys: map<int, real>): (m: int)
    requires keys.Keys != {}
    ensures IsFirst(keys, m)
  {
    FirstExists(keys);
    var m :| IsFirst(keys, m);
    m
  }

  function Min(a: int, b: int): int {
    if a <= b then a else b
  }

  /** `ids` answers the query: as many rows as asked for, in order, and no other row comes before one of them. */
  ghost predicate Answers(keys: map<int, real>, limit: nat, ids: seq<int>) {
    && |ids| == Min(limit, |keys|)
    && (forall i | 0 <= i < |ids| :: ids[i] in keys)
    && (forall i, j | 0 <= i < j < |ids| :: Precedes(keys, ids[i], ids[j]))
    && (forall i, k | 0 <= i < |ids| && k in keys && k !in ids :: Precedes(keys, ids[i], k))
  }

  function Smallest(keys: map<int, real>, limit: nat): (ids: seq<int>)
    ensures Answers(keys, limit, ids)
    decreases limit
  {
    if limit == 0 || keys.Keys == {} then
      assert keys.Keys == {} ==> |keys| == 0;
      []
    else
      var m := First(keys);
      var rest := keys - {m};
      assert keys.Keys == rest.Keys + {m};
      assert |keys| == |rest| + 1 by { assert |keys.Keys| == |rest.Keys| + 1; }
      [m] + Smallest(rest, limit - 1)
  }

  /** The query has one answer. */
  lemma {:induction false} AnswerIsUnique(keys: map<int, real>, limit: nat, a: seq<int>, b: seq<int>)
    requires Answers(keys, limit, a) && Answers(keys, limit, b)
    ensures a == b
  {
    AnswersAgree(keys, limit, a, b, |a|);
  }

  lemma {:induction false} AnswersAgree(keys: map<int, real>, limit: nat, a: seq<int>, b: seq<int>, n: nat)
    requires Answers(keys, limit, a) && Answers(keys, limit, b) && n <= |a|
    ensures forall i | 0 <= i < n :: a[i] == b[i]
  {
    if n > 0 {
      AnswersAgree(keys, limit, a, b, n - 1);
      var x, y := a[n - 1], b[n - 1];
      // Neither row can come before the other: the earlier one would have to occur earlier in both answers.
      assert x != y ==> Precedes(keys, x, y) || Precedes(keys, y, x);
      if Precedes(keys, y, x) {
        NotSkipped(keys, limit, a, y, n - 1);
      } else if x != y {
        NotSkipped(keys, limit, b, x, n - 1);
      }
    }
  }

  lemma NotSkipped(keys: map<int, real>, limit: nat, a: seq<int>, y: int, n: nat)
    requires Answers(keys, limit, a) && n < |a| && y in keys && Precedes(keys, y, a[n])
    ensures exists i :: 0 <= i < n && a[i] == y
  {
    assert y in a;
    var i :| 0 <= i < |a| && a[i] == y;
    assert i < n;
  }

  /** The answer, known only by what it has to satisfy. */
  ghost function Take(keys: map<int, real>, limit: nat): (ids: seq<int>)
    ensures Answers(keys, limit, ids)
  {
    assert Answers(keys, limit, Smallest(keys, limit));
    var ids :| Answers(keys, limit, ids);
    ids
  }

  /** What the database engine does for the query. */
  method Query(keys: map<int, real>, limit: nat) returns (ids: seq<int>)
    ensures ids == Take(keys, limit)
  {
    ids := Smallest(keys, limit);
    AnswerIsUnique(keys, limit, ids, Take(keys, limit));
  }

  /** The ids of an ordered query are distinct, so there are as many of them as the query has rows. */
  lemma {:induction false} TakenCount(keys: map<int, real>, limit: nat)
    ensures |set id | id in Take(keys, limit)| == Min(limit, |keys|)
  {
    DistinctCount(Take(keys, limit));
  }

  lemma {:induction false} DistinctCount(ids: seq<int>)
    requires Distinct(ids)
    ensures |set id | id in ids| == |ids|
  {
    if ids == [] {
    } else {
      var rest := ids[..|ids| - 1];
      DistinctCount(rest);
      assert (set id | id in ids) == (set id | id in rest) + {ids[|ids| - 1]};
    }
  }
}
