/**
 * Numeric ordering of integer sequences, and the sorted copy that
 * `Array.prototype.toSorted` with the numeric comparator `Number.Order`
 * produces.
 */
module Ordering {

  /** Every element is at most every later element. */
  predicate Ascending(s: seq<int>) {
    forall i, j :: 0 <= i < j < |s| ==> s[i] <= s[j]
  }

  /** Inserts `x` into the ascending sequence `s` before its first element
      that is not smaller than `x`. */
  function Insert(x: int, s: seq<int>): (r: seq<int>)
    requires Ascending(s)
    ensures Ascending(r)
    ensures multiset(r) == multiset(s) + multiset{x}
  {
    if s == [] || x <= s[0] then
      [x] + s
    else
      var rest := Insert(x, s[1..]);
      assert s == [s[0]] + s[1..];
      LowerBoundedByHead(s[0], x, s[1..], rest);
      [s[0]] + rest
  }

  /** Prepending a lower bound of every element keeps a sequence ascending. */
  lemma LowerBoundedByHead(h: int, x: int, tail: seq<int>, rest: seq<int>)
    requires Ascending([h] + tail) && h < x
    requires Ascending(rest) && multiset(rest) == multiset(tail) + multiset{x}
    ensures Ascending([h] + rest)
  {
    forall k | 0 <= k < |rest| ensures h <= rest[k] {
      assert rest[k] in multiset(rest);
      if rest[k] != x {
        assert rest[k] in tail;
        var n :| 0 <= n < |tail| && tail[n] == rest[k];
        assert ([h] + tail)[0] == h && ([h] + tail)[n + 1] == rest[k];
      }
    }
    var r := [h] + rest;
    forall i, j | 0 <= i < j < |r| ensures r[i] <= r[j] {
      if i > 0 {
        assert r[i] == rest[i - 1] && r[j] == rest[j - 1];
      }
    }
  }

  /** A sorted copy of `s`: ascending, and a permutation of `s`. */
  function ToSorted(s: seq<int>): (r: seq<int>)
    ensures Ascending(r)
    ensures multiset(r) == multiset(s)
  {
    if s == [] then
      []
    else
      assert s == [s[0]] + s[1..];
      Insert(s[0], ToSorted(s[1..]))
  }
}
