/**
 * Python's `list.sort(key=...)` on an integer key: a stable ascending sort.
 * `sort(key=k, reverse=True)` is also stable (equal keys keep their order),
 * so it is the ascending sort on the negated key.
 *
 * The sort is written as an insertion sort that inserts each element after
 * every element whose key is not larger, which keeps equal keys in their
 * original order.
 */
module Sorting {

  predicate SortedBy<T>(s: seq<T>, key: T -> int) {
    forall i, j :: 0 <= i < j < |s| ==> key(s[i]) <= key(s[j])
  }

  function Insert<T(==)>(x: T, s: seq<T>, key: T -> int): (r: seq<T>)
    ensures |r| == |s| + 1
    ensures multiset(r) == multiset(s) + multiset{x}
  {
    if s == [] then [x]
    else if key(x) < key(s[0]) then [x] + s
    else
      assert s == [s[0]] + s[1..];
      [s[0]] + Insert(x, s[1..], key)
  }

  function SortBy<T(==)>(s: seq<T>, key: T -> int): (r: seq<T>)
    ensures |r| == |s|
    ensures multiset(r) == multiset(s)
  {
    if s == [] then []
    else
      assert s == s[..|s| - 1] + [s[|s| - 1]];
      Insert(s[|s| - 1], SortBy(s[..|s| - 1], key), key)
  }

  lemma {:induction false} InsertSorted<T>(x: T, s: seq<T>, key: T -> int)
    requires SortedBy(s, key)
    ensures SortedBy(Insert(x, s, key), key)
  {
    if s != [] && key(x) >= key(s[0]) {
      InsertSorted(x, s[1..], key);
      var r := Insert(x, s, key);
      var tail := Insert(x, s[1..], key);
      assert r == [s[0]] + tail;
      forall k | 0 <= k < |tail| ensures key(s[0]) <= key(tail[k]) {
        assert tail[k] in multiset(tail);
        assert tail[k] == x || tail[k] in multiset(s[1..]);
        if tail[k] != x {
          assert tail[k] in s[1..];
          var m :| 0 <= m < |s[1..]| && s[1..][m] == tail[k];
          assert s[m + 1] == tail[k];
        }
      }
    }
  }

  /** The result of the sort is ordered by the key. */
  lemma {:induction false} SortBySorted<T>(s: seq<T>, key: T -> int)
    ensures SortedBy(SortBy(s, key), key)
  {
    if s != [] {
      SortBySorted(s[..|s| - 1], key);
      InsertSorted(s[|s| - 1], SortBy(s[..|s| - 1], key), key);
    }
  }

  /** The key of `sort(key=lambda x: x[0], reverse=True)` on `(score, item)` pairs: the negated score. */
  function ScoreDescending(c: (nat, nat)): int { -(c.0 as int) }

  /** Index of the first element with the smallest key. */
  function FirstMinIndex<T>(s: seq<T>, key: T -> int): (i: nat)
    requires s != []
    ensures i < |s|
    ensures forall j :: 0 <= j < |s| ==> key(s[i]) <= key(s[j])
    ensures forall j :: 0 <= j < i ==> key(s[j]) > key(s[i])
  {
    if |s| == 1 then 0
    else
      var j := FirstMinIndex(s[..|s| - 1], key);
      assert s[j] == s[..|s| - 1][j];
      if key(s[|s| - 1]) < key(s[j]) then |s| - 1 else j
  }

  /**
   * The head of the sorted list is the first element with the smallest key:
   * `sorted(...)[0]` picks the minimum and, among equal keys, the earliest.
   */
  lemma {:induction false} SortByHead<T>(s: seq<T>, key: T -> int)
    requires s != []
    ensures SortBy(s, key)[0] == s[FirstMinIndex(s, key)]
  {
    if |s| > 1 {
      var init := s[..|s| - 1];
      SortByHead(init, key);
      var r := SortBy(init, key);
      var j := FirstMinIndex(init, key);
      assert s[j] == init[j];
      assert r[0] == init[j];
    }
  }
}
