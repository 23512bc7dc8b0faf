/** Lexicographic order on sequences, and binary search in what has been sorted by it. */
module Lexicographic {
  import opened Sorting

  /** `rank` orders the elements. */
  predicate Less<T>(rank: T -> int, a: seq<T>, b: seq<T>) {
    if b == [] then false
    else if a == [] then true
    else rank(a[0]) < rank(b[0]) || (rank(a[0]) == rank(b[0]) && Less(rank, a[1..], b[1..]))
  }

  ghost predicate Injective<T(!new)>(rank: T -> int) {
    forall x, y :: rank(x) == rank(y) ==> x == y
  }

  lemma {:induction false} LessIsTotal<T(!new)>(rank: T -> int, a: seq<T>, b: seq<T>)
    requires Injective(rank)
    ensures Less(rank, a, b) || a == b || Less(rank, b, a)
    ensures !(Less(rank, a, b) && Less(rank, b, a)) && !Less(rank, a, a)
  {
    if a != [] && b != [] {
      LessIsTotal(rank, a[1..], b[1..]);
      assert a == [a[0]] + a[1..] && b == [b[0]] + b[1..];
    }
    if a != [] {
      LessIsTotal(rank, a[1..], a[1..]);
    }
  }

  lemma {:induction false} LessIsTransitive<T>(rank: T -> int, a: seq<T>, b: seq<T>, c: seq<T>)
    requires Less(rank, a, b) && Less(rank, b, c)
    ensures Less(rank, a, c)
  {
    if a != [] && rank(a[0]) == rank(b[0]) && rank(b[0]) == rank(c[0]) {
      LessIsTransitive(rank, a[1..], b[1..], c[1..]);
    }
  }

  /** The first difference decides, and a proper prefix comes before the longer sequence. */
  lemma {:induction false} FirstDifference<T>(rank: T -> int, a: seq<T>, b: seq<T>) returns (p: nat)
    requires Less(rank, a, b)
    ensures p <= |a| && p < |b| && (p == |a| || rank(a[p]) < rank(b[p]))
    ensures forall i | 0 <= i < p :: rank(a[i]) == rank(b[i])
  {
    if a == [] || rank(a[0]) < rank(b[0]) {
      p := 0;
    } else {
      p := FirstDifference(rank, a[1..], b[1..]);
      assert forall i | 1 <= i < p + 1 :: a[i] == a[1..][i - 1] && b[i] == b[1..][i - 1];
      p := p + 1;
    }
  }

  predicate Ascending<T(==)>(rank: T -> int, names: seq<seq<T>>) {
    forall k, l | 0 <= k < l < |names| :: Less(rank, names[k], names[l])
  }

  function Before<T(==)>(rank: T -> int): (seq<T>, seq<T>) -> bool {
    (a, b) => Less(rank, a, b)
  }

  lemma LessOrders<T(!new)>(rank: T -> int, names: seq<seq<T>>)
    requires Injective(rank)
    ensures Orders(Before(rank), names)
  {
    forall x, y | x in names && y in names ensures Less(rank, x, y) || x == y || Less(rank, y, x) {
      LessIsTotal(rank, x, y);
    }
    forall x, y, z | x in names && y in names && z in names && Less(rank, x, y) && Less(rank, y, z)
      ensures Less(rank, x, z)
    {
      LessIsTransitive(rank, x, y, z);
    }
  }

  /** Halving search; any search that looks only at order behaves like it on a strictly ascending list. */
  method BinarySearch<T(==, !new)>(rank: T -> int, names: seq<seq<T>>, x: seq<T>) returns (found: bool)
    requires Injective(rank) && Ascending(rank, names)
    ensures found <==> x in names
  {
    var low, high := 0, |names|;
    while low < high
      invariant 0 <= low <= high <= |names|
      invariant forall k | 0 <= k < |names| && !(low <= k < high) :: names[k] != x
    {
      var middle := (low + high) / 2;
      if names[middle] == x {
        return true;
      }
      LessIsTotal(rank, names[middle], x);
      if Less(rank, names[middle], x) {
        forall k | 0 <= k < middle ensures names[k] != x {
          LessIsTotal(rank, names[k], names[middle]);
        }
        low := middle + 1;
      } else {
        forall k | middle < k < |names| ensures names[k] != x {
          LessIsTotal(rank, names[middle], names[k]);
        }
        high := middle;
      }
    }
    found := false;
  }
}
