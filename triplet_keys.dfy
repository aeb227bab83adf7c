/**
 * What a triplet-sum strategy must return: the zero-sum triplets of a
 * sequence, each one keyed by the multiset of its three values, so that
 * `[1, 2, -3]` and `[-3, 2, 1]` are one triplet. A result is a set of such
 * keys, hence free of duplicates by construction.
 */
module TripletKeys {

  /** Positions `i < j < k` of `s` hold values summing to zero, and `m` is
      the multiset of those three values. */
  ghost predicate ZeroAt(s: seq<int>, m: multiset<int>, i: int, j: int, k: int) {
    0 <= i < j < k < |s| && s[i] + s[j] + s[k] == 0 && m == multiset{s[i], s[j], s[k]}
  }

  /** `m` is the key of a zero-sum triplet whose first position is below `n`. */
  ghost predicate FoundBefore(s: seq<int>, m: multiset<int>, n: int) {
    exists i, j, k :: i < n && ZeroAt(s, m, i, j, k)
  }

  /** The keys of all zero-sum triplets at three distinct positions of `s`. */
  function ZeroTriplets(s: seq<int>): set<multiset<int>> {
    set i, j, k | 0 <= i < j < k < |s| && s[i] + s[j] + s[k] == 0 :: multiset{s[i], s[j], s[k]}
  }

  /** A zero-sum triplet at positions `i < j < k` is a key of ZeroTriplets. */
  lemma ZeroAtIsMember(s: seq<int>, m: multiset<int>, i: int, j: int, k: int)
    requires ZeroAt(s, m, i, j, k)
    ensures m in ZeroTriplets(s)
  {
  }

  /** Every key of ZeroTriplets is a zero-sum triplet at some positions. */
  lemma MemberIsZeroAt(s: seq<int>, m: multiset<int>) returns (i: int, j: int, k: int)
    requires m in ZeroTriplets(s)
    ensures ZeroAt(s, m, i, j, k)
  {
    i, j, k :| 0 <= i < j < k < |s| && s[i] + s[j] + s[k] == 0 && m == multiset{s[i], s[j], s[k]};
  }

  /** Membership in ZeroTriplets is being a zero-sum triplet at some positions. */
  lemma ZeroTripletsMembers(s: seq<int>)
    ensures forall m :: m in ZeroTriplets(s) <==> FoundBefore(s, m, |s|)
  {
    forall m | m in ZeroTriplets(s) ensures FoundBefore(s, m, |s|) {
      var i, j, k := MemberIsZeroAt(s, m);
    }
    forall m | FoundBefore(s, m, |s|) ensures m in ZeroTriplets(s) {
      var i, j, k :| i < |s| && ZeroAt(s, m, i, j, k);
      ZeroAtIsMember(s, m, i, j, k);
    }
  }

  /** The three values at positions `i < j < k` form a sub-multiset of `s`. */
  lemma TripleIsSubMultiset(s: seq<int>, i: int, j: int, k: int)
    requires 0 <= i < j < k < |s|
    ensures multiset{s[i], s[j], s[k]} <= multiset(s)
  {
    assert s == s[..i] + [s[i]] + s[i + 1..j] + [s[j]] + s[j + 1..k] + [s[k]] + s[k + 1..];
  }

  /** The values of `s` at the positions `idx`, in that order. */
  function Values(s: seq<int>, idx: seq<int>): seq<int>
    requires forall n :: 0 <= n < |idx| ==> 0 <= idx[n] < |s|
  {
    seq(|idx|, n requires 0 <= n < |idx| => s[idx[n]])
  }

  /** Splitting the last value `x` off `init + [x]` splits a sub-multiset `m`
      into a sub-multiset of `init` and at most one copy of `x`. */
  lemma SubMultisetOfSnoc(init: seq<int>, x: int, m: multiset<int>)
    requires m <= multiset(init + [x])
    ensures x in m ==> m - multiset{x} <= multiset(init) && (m - multiset{x}) + multiset{x} == m
    ensures x !in m ==> m <= multiset(init)
  {
    assert multiset(init + [x]) == multiset(init) + multiset{x};
    if x !in m {
      forall y ensures m[y] <= multiset(init)[y] {
        if y == x {
          assert m[y] == 0;
        }
      }
    }
  }

  /** Increasing positions, all inside `s`. */
  predicate IncreasingPositions(s: seq<int>, idx: seq<int>) {
    && (forall n :: 0 <= n < |idx| ==> 0 <= idx[n] < |s|)
    && (forall n, n' :: 0 <= n < n' < |idx| ==> idx[n] < idx[n'])
  }

  /** Positions picked in `init` and then the last position of `init + [x]`. */
  lemma PickLast(init: seq<int>, x: int, rest: seq<int>)
    requires IncreasingPositions(init, rest)
    ensures IncreasingPositions(init + [x], rest + [|init|])
    ensures multiset(Values(init + [x], rest + [|init|])) == multiset(Values(init, rest)) + multiset{x}
  {
    assert Values(init + [x], rest + [|init|]) == Values(init, rest) + [x];
  }

  /** Positions picked in `init` are positions of `init + [x]` with the same values. */
  lemma SkipLast(init: seq<int>, x: int, idx: seq<int>)
    requires IncreasingPositions(init, idx)
    ensures IncreasingPositions(init + [x], idx)
    ensures Values(init + [x], idx) == Values(init, idx)
  {
  }

  /** Every sub-multiset of `s` is the multiset of the values at some
      strictly increasing list of positions of `s`. */
  lemma {:induction false} SubMultisetPositions(s: seq<int>, m: multiset<int>) returns (idx: seq<int>)
    requires m <= multiset(s)
    ensures |idx| == |m| && IncreasingPositions(s, idx)
    ensures multiset(Values(s, idx)) == m
    decreases |s|
  {
    if |s| == 0 {
      idx := [];
    } else {
      var init, x := s[..|s| - 1], s[|s| - 1];
      assert s == init + [x];
      SubMultisetOfSnoc(init, x, m);
      if x in m {
        var rest := SubMultisetPositions(init, m - multiset{x});
        PickLast(init, x, rest);
        idx := rest + [|init|];
      } else {
        idx := SubMultisetPositions(init, m);
        SkipLast(init, x, idx);
      }
    }
  }

  /** Two orderings of the same two values have the same sum. */
  lemma SamePairSameSum(b: int, c: int, y: int, z: int)
    requires multiset{b, c} == multiset{y, z}
    ensures b + c == y + z
  {
    assert y in multiset{b, c};
    if y == b {
      assert multiset{c} == multiset{b, c} - multiset{b} == multiset{z};
      assert z in multiset{c};
    } else {
      assert multiset{b} == multiset{b, c} - multiset{c} == multiset{z};
      assert z in multiset{b};
    }
  }

  /** Taking the first value out of a three-value multiset leaves the other two. */
  lemma RemoveFirstOfThree(a: int, b: int, c: int)
    ensures multiset{a, b, c} - multiset{a} == multiset{b, c}
  {
  }

  /** A member of a three-value multiset is one of the three values. */
  lemma MemberOfThree(x: int, a: int, b: int, c: int)
    requires x in multiset{a, b, c}
    ensures x == a || x == b || x == c
  {
  }

  /** Two orderings of the same three values have the same sum. */
  lemma SameTripleSameSum(a: int, b: int, c: int, x: int, y: int, z: int)
    requires multiset{a, b, c} == multiset{x, y, z}
    ensures a + b + c == x + y + z
  {
    MemberOfThree(x, a, b, c);
    RemoveFirstOfThree(x, y, z);
    if x == a {
      RemoveFirstOfThree(a, b, c);
      SamePairSameSum(b, c, y, z);
    } else if x == b {
      assert multiset{a, b, c} == multiset{b, a, c};
      RemoveFirstOfThree(b, a, c);
      SamePairSameSum(a, c, y, z);
    } else {
      assert multiset{a, b, c} == multiset{c, a, b};
      RemoveFirstOfThree(c, a, b);
      SamePairSameSum(a, b, y, z);
    }
  }

  /** Positions of a three-element sub-multiset of `s`: three increasing
      positions whose values make up exactly that multiset. */
  lemma TriplePositions(s: seq<int>, a: int, b: int, c: int) returns (i: int, j: int, k: int)
    requires multiset{a, b, c} <= multiset(s)
    ensures 0 <= i < j < k < |s|
    ensures multiset{s[i], s[j], s[k]} == multiset{a, b, c}
  {
    var idx := SubMultisetPositions(s, multiset{a, b, c});
    i, j, k := idx[0], idx[1], idx[2];
    var v := Values(s, idx);
    assert v == [s[i], s[j], s[k]];
    assert multiset(v) == multiset{s[i], s[j], s[k]};
  }

  /** Every zero-sum triplet key of `s` is one of `t` when `t` holds the
      same values as `s`. */
  lemma ZeroTripletsOfPermutationIncluded(s: seq<int>, t: seq<int>)
    requires multiset(s) == multiset(t)
    ensures ZeroTriplets(s) <= ZeroTriplets(t)
  {
    forall m | m in ZeroTriplets(s) ensures m in ZeroTriplets(t) {
      var i, j, k := MemberIsZeroAt(s, m);
      ZeroTripletsComplete(t, s[i], s[j], s[k]) by {
        TripleIsSubMultiset(s, i, j, k);
      }
    }
  }

  /** The zero-sum triplets depend only on the values, not on their order:
      the sorted copy has the same ones as the input. */
  lemma ZeroTripletsOfPermutation(s: seq<int>, t: seq<int>)
    requires multiset(s) == multiset(t)
    ensures ZeroTriplets(s) == ZeroTriplets(t)
  {
    ZeroTripletsOfPermutationIncluded(s, t);
    ZeroTripletsOfPermutationIncluded(t, s);
  }

  /** Soundness: every key is three values drawn from distinct positions of
      `s` (a sub-multiset of `s` of size three) that sum to zero. */
  lemma ZeroTripletsSound(s: seq<int>, m: multiset<int>)
    requires m in ZeroTriplets(s)
    ensures |m| == 3 && m <= multiset(s)
    ensures exists a, b, c :: m == multiset{a, b, c} && a + b + c == 0
  {
    var i, j, k := MemberIsZeroAt(s, m);
    TripleIsSubMultiset(s, i, j, k);
  }

  /** Completeness in the other direction: any three values that sum to zero
      and occur in `s` (as a sub-multiset) form a key of ZeroTriplets. */
  lemma ZeroTripletsComplete(s: seq<int>, a: int, b: int, c: int)
    requires a + b + c == 0 && multiset{a, b, c} <= multiset(s)
    ensures multiset{a, b, c} in ZeroTriplets(s)
  {
    var i, j, k := TriplePositions(s, a, b, c);
    SameTripleSameSum(a, b, c, s[i], s[j], s[k]);
    ZeroAtIsMember(s, multiset{a, b, c}, i, j, k);
  }

  /** Inputs with fewer than three elements have no triplet. */
  lemma FewerThanThreeHaveNone(s: seq<int>)
    requires |s| < 3
    ensures ZeroTriplets(s) == {}
  {
  }
}
