/** std::sort, which the library calls to order the split projections and
    the k-NN candidates, modelled as a pure insertion sort by an integer key. */
module Sorting {

  /** s is in non-decreasing order of the key. */
  predicate SortedBy<T>(s: seq<T>, key: T -> int) {
    forall i, j :: 0 <= i < j < |s| ==> key(s[i]) <= key(s[j])
  }

  function Identity(x: int): int {
    x
  }

  function InsertBy<T>(x: T, s: seq<T>, key: T -> int): (r: seq<T>)
    requires SortedBy(s, key)
    ensures SortedBy(r, key)
    ensures multiset(r) == multiset(s) + multiset{x}
  {
    if s == [] then [x]
    else if key(x) <= key(s[0]) then [x] + s
    else
      var tail := InsertBy(x, s[1..], key);
      assert s == [s[0]] + s[1..];
      forall j | 0 <= j < |tail|
        ensures key(s[0]) <= key(tail[j])
      {
        assert tail[j] in multiset(tail);
        if tail[j] != x {
          assert tail[j] in multiset(s[1..]);
          var k :| 0 <= k < |s[1..]| && s[1..][k] == tail[j];
          assert s[k + 1] == tail[j];
        }
      }
      [s[0]] + tail
  }

  /** The sorted permutation of s. */
  function SortBy<T>(s: seq<T>, key: T -> int): (r: seq<T>)
    ensures SortedBy(r, key)
    ensures multiset(r) == multiset(s)
    ensures |r| == |s|
  {
    if s == [] then []
    else
      assert s == [s[0]] + s[1..];
      InsertBy(s[0], SortBy(s[1..], key), key)
  }
}
