/**
 * The descending, stable `Array.prototype.sort((a, b) => key(b) - key(a))`
 * used twice by the chat pipeline: stopwords longest first, and scored
 * candidates best first. Elements with equal keys keep their input order.
 */
module Sorting {
  import opened Strings

  predicate SortedDesc<T>(s: seq<T>, key: T -> real) {
    forall i, j :: 0 <= i < j < |s| ==> key(s[i]) >= key(s[j])
  }

  /** Places `x` in front of the first element whose key is not greater than its own. */
  function Insert<T(==)>(x: T, s: seq<T>, key: T -> real): (r: seq<T>)
    requires SortedDesc(s, key)
    ensures SortedDesc(r, key)
    ensures multiset(r) == multiset(s) + multiset{x}
    ensures forall k :: 0 <= k < |r| ==> r[k] == x || r[k] in s
  {
    if |s| == 0 then [x]
    else if key(x) >= key(s[0]) then [x] + s
    else
      var rest := Insert(x, s[1..], key);
      assert s == [s[0]] + s[1..];
      [s[0]] + rest
  }

  /** Stable insertion sort, highest key first. */
  function SortDesc<T(==)>(s: seq<T>, key: T -> real): (r: seq<T>)
    ensures SortedDesc(r, key)
    ensures multiset(r) == multiset(s)
    ensures |r| == |s|
  {
    if |s| == 0 then []
    else
      assert s == [s[0]] + s[1..];
      Insert(s[0], SortDesc(s[1..], key), key)
  }

  /** A sorted list's first element carries the largest key. */
  lemma HeadIsMax<T>(s: seq<T>, key: T -> real, x: T)
    requires SortedDesc(s, key) && x in s
    ensures key(s[0]) >= key(x)
  {
  }

  /** Sorting a list that is already sorted leaves it exactly as it was: the
      sort is stable, so no two equal keys trade places. */
  lemma {:induction false} SortSorted<T>(s: seq<T>, key: T -> real)
    requires SortedDesc(s, key)
    ensures SortDesc(s, key) == s
    decreases |s|
  {
    if |s| > 0 {
      SortSorted(s[1..], key);
      assert s == [s[0]] + s[1..];
    }
  }

  /** Dropping elements keeps the order of the rest. */
  lemma {:induction false} FilterSorted<T>(s: seq<T>, p: T -> bool, key: T -> real)
    requires SortedDesc(s, key)
    ensures SortedDesc(Filter(s, p), key)
    decreases |s|
  {
    if |s| > 0 {
      FilterSorted(s[1..], p, key);
      var rest := Filter(s[1..], p);
      assert Filter(s, p) == if p(s[0]) then [s[0]] + rest else rest;
      if p(s[0]) {
        forall k | 0 <= k < |rest|
          ensures key(s[0]) >= key(rest[k])
        {
          var j :| 0 <= j < |s[1..]| && s[1..][j] == rest[k];
          assert s[j + 1] == rest[k];
        }
        ConsSorted(s[0], rest, key);
      }
    }
  }

  /** A list sorted best first stays so behind an element no worse than any of it. */
  lemma ConsSorted<T>(x: T, rest: seq<T>, key: T -> real)
    requires SortedDesc(rest, key)
    requires forall k :: 0 <= k < |rest| ==> key(x) >= key(rest[k])
    ensures SortedDesc([x] + rest, key)
  {
    var r := [x] + rest;
    forall i, j | 0 <= i < j < |r|
      ensures key(r[i]) >= key(r[j])
    {
      assert r[j] == rest[j - 1];
      if i > 0 {
        assert r[i] == rest[i - 1];
      }
    }
  }
}
