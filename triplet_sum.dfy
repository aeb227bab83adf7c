/**
 * Triplet sum: all triplets of an integer array that sum to zero, without
 * duplicates. Two interchangeable strategies:
 *
 *  - BruteForce: three nested loops over positions `i < j < k`;
 *  - TwoPointers: sorts a copy, fixes each anchor value `a` in turn and
 *    searches the rest of the copy for value pairs summing to `-a`.
 *
 * The hash set of sorted tuples the source accumulates is a set of
 * multisets here (see module TripletKeys); both strategies return exactly
 * ZeroTriplets(nums).
 */
module TripletSum {
  import opened Ordering
  import opened TripletKeys

  /** `m` is the key of a zero-sum triplet whose first position is `i` and
      whose second position is below `j`. */
  ghost predicate FoundInRow(s: seq<int>, m: multiset<int>, i: int, j: int) {
    exists j', k :: j' < j && ZeroAt(s, m, i, j', k)
  }

  /** `m` is the key of a zero-sum triplet at `i`, `j` and a third position below `k`. */
  ghost predicate FoundInCell(s: seq<int>, m: multiset<int>, i: int, j: int, k: int) {
    exists k' :: k' < k && ZeroAt(s, m, i, j, k')
  }

  /** Closing row `i` of the brute force: all triplets starting at `i` are found. */
  lemma RowDone(s: seq<int>, i: int)
    requires 0 <= i
    ensures forall m :: FoundBefore(s, m, i + 1) <==> FoundBefore(s, m, i) || FoundInRow(s, m, i, |s|)
  {
  }

  /** Closing cell `(i, j)` of the brute force. */
  lemma CellDone(s: seq<int>, i: int, j: int)
    ensures forall m :: FoundInRow(s, m, i, j + 1) <==> FoundInRow(s, m, i, j) || FoundInCell(s, m, i, j, |s|)
  {
  }

  /** Checking cell `(i, j, k)` of the brute force adds the triplet at those
      positions, if it sums to zero, and nothing else. */
  lemma CellStep(s: seq<int>, i: int, j: int, k: int)
    requires 0 <= i < j < k < |s|
    ensures forall m :: FoundInCell(s, m, i, j, k + 1) <==>
              FoundInCell(s, m, i, j, k) || (s[i] + s[j] + s[k] == 0 && m == multiset{s[i], s[j], s[k]})
  {
    forall m ensures FoundInCell(s, m, i, j, k + 1) <==>
                       FoundInCell(s, m, i, j, k) || (s[i] + s[j] + s[k] == 0 && m == multiset{s[i], s[j], s[k]}) {
      if FoundInCell(s, m, i, j, k + 1) {
        var k' :| k' < k + 1 && ZeroAt(s, m, i, j, k');
      }
      if ZeroAt(s, m, i, j, k) {
        assert FoundInCell(s, m, i, j, k + 1);
      }
      assert ZeroAt(s, m, i, j, k) <==> s[i] + s[j] + s[k] == 0 && m == multiset{s[i], s[j], s[k]};
    }
  }

  /** `bruteForce`: every position triple `i < j < k` is checked, and the key of
      each zero-sum one is added to the set. It returns every zero-sum
      triplet, once. */
  method BruteForce(nums: seq<int>) returns (triplets: set<multiset<int>>)
    ensures triplets == ZeroTriplets(nums)
  {
    triplets := {};
    for i := 0 to |nums|
      invariant forall m :: m in triplets <==> FoundBefore(nums, m, i)
    {
      for j := i + 1 to |nums|
        invariant forall m :: m in triplets <==> FoundBefore(nums, m, i) || FoundInRow(nums, m, i, j)
      {
        for k := j + 1 to |nums|
          invariant forall m :: m in triplets <==>
                      FoundBefore(nums, m, i) || FoundInRow(nums, m, i, j) || FoundInCell(nums, m, i, j, k)
        {
          if nums[i] + nums[j] + nums[k] == 0 {
            triplets := triplets + {multiset{nums[i], nums[j], nums[k]}};
          }
          CellStep(nums, i, j, k);
        }
        CellDone(nums, i, j);
      }
      RowDone(nums, i);
    }
    ZeroTripletsMembers(nums);
  }

  // ---------------------------------------------------------------------------
  // Two pointers

  /** Positions `start <= p < q` of `s` hold the values `x` and `y`, which sum
      to `target`. */
  ghost predicate ValuePairFrom(s: seq<int>, start: int, target: int, x: int, y: int) {
    exists p, q :: 0 <= start <= p < q < |s| && s[p] == x && s[q] == y && x + y == target
  }

  /** Every recorded value pair comes from positions at or after `start` and
      sums to `target`. */
  ghost predicate PairsSound(s: seq<int>, start: int, target: int, pairs: set<(int, int)>) {
    forall x, y :: (x, y) in pairs ==> ValuePairFrom(s, start, target, x, y)
  }

  /** Every target pair of positions at or after `start` is recorded, or still
      lies inside the pointer window `[l, r]`. */
  ghost predicate PairsCovered(s: seq<int>, start: int, target: int, pairs: set<(int, int)>, l: int, r: int) {
    forall p, q :: 0 <= start <= p < q < |s| && s[p] + s[q] == target ==> (s[p], s[q]) in pairs || (l <= p && q <= r)
  }

  /** Moving the left pointer loses no pair when the window's ends sum to at
      most the target and, on a match, the matched value pair is recorded:
      any partner of `s[l]` inside the window is at most `s[r]`. */
  lemma MoveLeftKeepsCovered(s: seq<int>, start: int, target: int, pairs: set<(int, int)>, l: int, r: int)
    requires Ascending(s) && 0 <= start <= l < r < |s|
    requires PairsCovered(s, start, target, pairs, l, r)
    requires s[l] + s[r] <= target
    requires s[l] + s[r] == target ==> (s[l], s[r]) in pairs
    ensures PairsCovered(s, start, target, pairs, l + 1, r)
  {
    forall p, q | 0 <= start <= p < q < |s| && s[p] + s[q] == target && l == p && q <= r
      ensures (s[p], s[q]) in pairs
    {
      assert s[q] <= s[r];
    }
  }

  /** Moving the right pointer loses no pair when the window's ends sum to
      more than the target: any partner of `s[r]` inside the window is at
      least `s[l]`. */
  lemma MoveRightKeepsCovered(s: seq<int>, start: int, target: int, pairs: set<(int, int)>, l: int, r: int)
    requires Ascending(s) && 0 <= start <= l < r < |s|
    requires PairsCovered(s, start, target, pairs, l, r)
    requires s[l] + s[r] > target
    ensures PairsCovered(s, start, target, pairs, l, r - 1)
  {
    forall p | l <= p < r ensures s[p] + s[r] > target {
      assert s[l] <= s[p];
    }
  }

  /** A closed window leaves no pair unrecorded. */
  lemma ClosedWindowFindsAll(s: seq<int>, start: int, target: int, pairs: set<(int, int)>, l: int, r: int)
    requires 0 <= start && l >= r
    requires PairsSound(s, start, target, pairs) && PairsCovered(s, start, target, pairs, l, r)
    ensures forall x, y :: (x, y) in pairs <==> ValuePairFrom(s, start, target, x, y)
  {
    forall x, y | ValuePairFrom(s, start, target, x, y) ensures (x, y) in pairs {
      var p, q :| start <= p < q < |s| && s[p] == x && s[q] == y && x + y == target;
    }
  }

  /** The inner `pairSumSorted(start, target)` over the sorted copy: converging
      pointers from `start` and from the last position; on a match the value
      pair is recorded and the left pointer skips past every further copy of
      the matched left value. It returns exactly the value pairs `(x, y)`,
      `x <= y`, taken from positions `start <= p < q` and summing to `target`:
      the skipping loses none of them. */
  method PairSumSorted(sorted: seq<int>, start: int, target: int) returns (pairs: set<(int, int)>)
    requires Ascending(sorted)
    requires 0 <= start
    ensures forall x, y :: (x, y) in pairs <==> ValuePairFrom(sorted, start, target, x, y)
    ensures forall pair :: pair in pairs ==> pair.0 <= pair.1
  {
    pairs := {};
    var lastIndex := |sorted| - 1;
    var leftPointer, rightPointer := start, lastIndex;
    while leftPointer < rightPointer
      invariant start <= leftPointer && rightPointer <= lastIndex
      invariant PairsSound(sorted, start, target, pairs)
      invariant PairsCovered(sorted, start, target, pairs, leftPointer, rightPointer)
      decreases rightPointer - leftPointer
    {
      var left, right := sorted[leftPointer], sorted[rightPointer];
      var sum := left + right;
      if sum < target {
        MoveLeftKeepsCovered(sorted, start, target, pairs, leftPointer, rightPointer);
        leftPointer := leftPointer + 1;
      } else if sum > target {
        MoveRightKeepsCovered(sorted, start, target, pairs, leftPointer, rightPointer);
        rightPointer := rightPointer - 1;
      } else {
        assert ValuePairFrom(sorted, start, target, left, right);
        pairs := pairs + {(left, right)};
        MoveLeftKeepsCovered(sorted, start, target, pairs, leftPointer, rightPointer);
        leftPointer := leftPointer + 1;
        // every further copy of `left` pairs with `right`, which is recorded
        while leftPointer < rightPointer && sorted[leftPointer] == sorted[leftPointer - 1]
          invariant start < leftPointer <= rightPointer <= lastIndex
          invariant sorted[leftPointer - 1] == left && sorted[rightPointer] == right
          invariant (left, right) in pairs
          invariant PairsSound(sorted, start, target, pairs)
          invariant PairsCovered(sorted, start, target, pairs, leftPointer, rightPointer)
          decreases rightPointer - leftPointer
        {
          MoveLeftKeepsCovered(sorted, start, target, pairs, leftPointer, rightPointer);
          leftPointer := leftPointer + 1;
        }
      }
    }
    ClosedWindowFindsAll(sorted, start, target, pairs, leftPointer, rightPointer);
  }

  /** `m` is the key of a zero-sum triplet whose smallest position is `i`. */
  ghost predicate AnchoredAt(s: seq<int>, m: multiset<int>, i: int) {
    exists j, k :: ZeroAt(s, m, i, j, k)
  }

  /** `keys` holds exactly the triplets whose first position is below `i`. */
  ghost predicate KeysBefore(s: seq<int>, keys: set<multiset<int>>, i: int) {
    forall m :: m in keys <==> FoundBefore(s, m, i)
  }

  /** Pruning: on ascending input no zero-sum triplet has its first position
      at or after a positive value, so the search may stop there. */
  lemma PositiveAnchorEndsSearch(s: seq<int>, i: int)
    requires Ascending(s) && 0 <= i < |s| && s[i] > 0
    ensures forall m :: FoundBefore(s, m, i) <==> FoundBefore(s, m, |s|)
  {
    forall m, i', j, k | i <= i' && 0 <= i' < j < k < |s| ensures !ZeroAt(s, m, i', j, k) {
      assert 0 < s[i] <= s[i'] <= s[j] <= s[k];
    }
  }

  /** Skipping a repeated anchor: a zero-sum triplet anchored at `i` is also
      anchored at `i - 1` when both positions hold the same value. */
  lemma RepeatedAnchorAddsNothing(s: seq<int>, i: int)
    requires 0 < i < |s| && s[i] == s[i - 1]
    ensures forall m :: FoundBefore(s, m, i + 1) <==> FoundBefore(s, m, i)
  {
    forall m, j, k | ZeroAt(s, m, i, j, k) ensures ZeroAt(s, m, i - 1, j, k) {
    }
  }

  /** The value pairs found after anchor `i` for target `-s[i]`, each completed
      with the anchor value, are exactly the triplets anchored at `i`. */
  lemma AnchorPairsAreAnchoredTriplets(s: seq<int>, i: int, pairs: set<(int, int)>, m: multiset<int>)
    requires 0 <= i < |s|
    requires forall x, y :: (x, y) in pairs <==> ValuePairFrom(s, i + 1, -s[i], x, y)
    ensures (exists x, y :: (x, y) in pairs && m == multiset{s[i], x, y}) <==> AnchoredAt(s, m, i)
  {
    if exists x, y :: (x, y) in pairs && m == multiset{s[i], x, y} {
      var x, y :| (x, y) in pairs && m == multiset{s[i], x, y};
      PairIsAnchored(s, i, x, y);
    }
    if AnchoredAt(s, m, i) {
      var x, y := AnchoredIsPair(s, i, m);
      assert (x, y) in pairs;
    }
  }

  /** A triplet anchored at `i` consists of `s[i]` and a value pair found
      after `i` that completes it to zero. */
  lemma AnchoredIsPair(s: seq<int>, i: int, m: multiset<int>) returns (x: int, y: int)
    requires AnchoredAt(s, m, i)
    ensures ValuePairFrom(s, i + 1, -s[i], x, y) && m == multiset{s[i], x, y}
  {
    var j, k :| ZeroAt(s, m, i, j, k);
    x, y := s[j], s[k];
  }

  /** A value pair found after position `i` that completes `s[i]` to zero
      is a triplet anchored at `i`. */
  lemma PairIsAnchored(s: seq<int>, i: int, x: int, y: int)
    requires 0 <= i < |s| && ValuePairFrom(s, i + 1, -s[i], x, y)
    ensures AnchoredAt(s, multiset{s[i], x, y}, i)
  {
    var p, q :| i + 1 <= p < q < |s| && s[p] == x && s[q] == y && x + y == -s[i];
    assert ZeroAt(s, multiset{s[i], x, y}, i, p, q);
  }

  /** The triplets whose first position is below `i + 1` are those below `i`
      and those anchored at `i`. */
  lemma FoundBeforeNext(s: seq<int>, i: int)
    ensures forall m :: FoundBefore(s, m, i + 1) <==> FoundBefore(s, m, i) || AnchoredAt(s, m, i)
  {
    forall m ensures FoundBefore(s, m, i + 1) <==> FoundBefore(s, m, i) || AnchoredAt(s, m, i) {
      if FoundBefore(s, m, i + 1) {
        var i', j, k :| i' < i + 1 && ZeroAt(s, m, i', j, k);
        if i' == i {
          assert AnchoredAt(s, m, i);
        }
      }
    }
  }

  /** The keys of the triplets completed from anchor value `a` and each
      value pair of `done`. */
  ghost function Completed(a: int, done: set<(int, int)>): set<multiset<int>> {
    set pair | pair in done :: multiset{a, pair.0, pair.1}
  }

  /** Adding the triplets completed from the value pairs found after anchor
      `i` takes the keys found before `i` to those found before `i + 1`. */
  lemma AnchorStep(s: seq<int>, i: int, pairs: set<(int, int)>, before: set<multiset<int>>)
    requires 0 <= i < |s|
    requires forall x, y :: (x, y) in pairs <==> ValuePairFrom(s, i + 1, -s[i], x, y)
    requires KeysBefore(s, before, i)
    ensures KeysBefore(s, before + Completed(s[i], pairs), i + 1)
  {
    FoundBeforeNext(s, i);
    forall m ensures m in Completed(s[i], pairs) <==> AnchoredAt(s, m, i) {
      AnchorPairsAreAnchoredTriplets(s, i, pairs, m);
      if m in Completed(s[i], pairs) {
        var pair :| pair in pairs && m == multiset{s[i], pair.0, pair.1};
        assert (pair.0, pair.1) in pairs;
      }
    }
  }

  /** Completing one more value pair adds exactly its key. */
  lemma CompletedAddOne(a: int, done: set<(int, int)>, pair: (int, int))
    ensures Completed(a, done + {pair}) == Completed(a, done) + {multiset{a, pair.0, pair.1}}
  {
  }

  /** One iteration of the loop over the found pairs: adding the key of
      `pair` moves it from the pairs still to do to the pairs done. */
  lemma AddPairStep(before: set<multiset<int>>, a: int, pairs: set<(int, int)>, rest: set<(int, int)>, pair: (int, int))
    requires pair in rest && rest <= pairs
    ensures before + Completed(a, pairs - rest) + {multiset{a, pair.0, pair.1}}
         == before + Completed(a, pairs - (rest - {pair}))
  {
    var done := pairs - rest;
    assert pairs - (rest - {pair}) == done + {pair};
    CompletedAddOne(a, done, pair);
    UnionOne(before, Completed(a, done), multiset{a, pair.0, pair.1}, Completed(a, done + {pair}));
  }

  /** Adding one element after a union is adding it to the second part. */
  lemma UnionOne<T>(before: set<T>, c: set<T>, key: T, c': set<T>)
    requires c' == c + {key}
    ensures before + c + {key} == before + c'
  {
  }

  /** When the anchor loop ends, whether by running out of anchors or at a
      positive one, the keys found are all of ZeroTriplets. */
  lemma SearchComplete(s: seq<int>, i: int, triplets: set<multiset<int>>)
    requires KeysBefore(s, triplets, i)
    requires i >= |s| - 1 || forall m :: FoundBefore(s, m, i) <==> FoundBefore(s, m, |s|)
    ensures triplets == ZeroTriplets(s)
  {
    ZeroTripletsMembers(s);
    if i >= |s| - 1 {
      NoAnchorsLeft(s, i);
    }
  }

  /** No triplet has its first position among the last two positions. */
  lemma NoAnchorsLeft(s: seq<int>, i: int)
    requires i >= |s| - 1
    ensures forall m :: FoundBefore(s, m, i) <==> FoundBefore(s, m, |s|)
  {
    forall m | FoundBefore(s, m, |s|) ensures FoundBefore(s, m, i) {
      var i', j, k :| i' < |s| && ZeroAt(s, m, i', j, k);
      assert i' < i;
    }
  }

  /** `twoPointers`: works on a sorted copy of the input; each anchor value
      `a` is completed by the value pairs summing to `-a` found after it. It
      stops at the first positive anchor and skips an anchor equal to its
      predecessor, and still returns every zero-sum triplet, once. */
  method TwoPointers(nums: seq<int>) returns (triplets: set<multiset<int>>)
    ensures triplets == ZeroTriplets(nums)
  {
    var sorted := ToSorted(nums);
    var lastIndex := |sorted| - 1;
    triplets := {};
    var i := 0;
    while i < lastIndex
      invariant 0 <= i
      invariant KeysBefore(sorted, triplets, i)
    {
      var a := sorted[i];
      if a > 0 {
        PositiveAnchorEndsSearch(sorted, i);
        break;
      }
      if i > 0 && a == sorted[i - 1] {
        RepeatedAnchorAddsNothing(sorted, i);
        i := i + 1;
        continue;
      }
      var pairs := PairSumSorted(sorted, i + 1, -a);
      ghost var before := triplets;
      var rest := pairs;
      assert Completed(a, pairs - rest) == {};
      while rest != {}
        invariant rest <= pairs
        invariant triplets == before + Completed(a, pairs - rest)
      {
        var pair :| pair in rest;
        AddPairStep(before, a, pairs, rest, pair);
        triplets := triplets + {multiset{a, pair.0, pair.1}};
        rest := rest - {pair};
      }
      assert pairs - rest == pairs;
      AnchorStep(sorted, i, pairs, before);
      i := i + 1;
    }
    SearchComplete(sorted, i, triplets);
    ZeroTripletsOfPermutation(sorted, nums);
  }

  // ---------------------------------------------------------------------------
  // Fixtures: both strategies return ZeroTriplets(nums), which is, for the
  // inputs of the test file:

  /** Inputs shorter than three values, and `[1, 0, 1]`, have no triplet. */
  lemma FixturesWithoutTriplets()
    ensures ZeroTriplets([]) == {}
    ensures ZeroTriplets([0]) == {}
    ensures ZeroTriplets([1, -1]) == {}
    ensures ZeroTriplets([1, 0, 1]) == {}
  {
    FewerThanThreeHaveNone([]);
    FewerThanThreeHaveNone([0]);
    FewerThanThreeHaveNone([1, -1]);
    var s := [1, 0, 1];
    forall m | m in ZeroTriplets(s) ensures false {
      var i, j, k := MemberIsZeroAt(s, m);
    }
  }

  /** Three zeros make one triplet. */
  lemma FixtureAllZeros()
    ensures ZeroTriplets([0, 0, 0]) == {multiset{0, 0, 0}}
  {
    var s := [0, 0, 0];
    ZeroAtIsMember(s, multiset{0, 0, 0}, 0, 1, 2);
    forall m | m in ZeroTriplets(s) ensures m == multiset{0, 0, 0} {
      AllZerosMember(m);
    }
  }

  /** The only positions of a triplet in `[0, 0, 0]` are 0, 1 and 2. */
  lemma AllZerosMember(m: multiset<int>)
    requires m in ZeroTriplets([0, 0, 0])
    ensures m == multiset{0, 0, 0}
  {
    var i, j, k := MemberIsZeroAt([0, 0, 0], m);
    assert i == 0 && j == 1 && k == 2;
  }

  /** A set of keys that holds every key of `s` and only keys of `s` is
      ZeroTriplets(s). */
  lemma ExactKeys(s: seq<int>, keys: set<multiset<int>>)
    requires forall m :: m in ZeroTriplets(s) ==> m in keys
    requires keys <= ZeroTriplets(s)
    ensures ZeroTriplets(s) == keys
  {
  }

  /** The three values `a`, `b`, `c` in ascending order `x <= y <= z`: the
      same multiset, with `x` the least and `z` the greatest of them. */
  lemma Ascending3(a: int, b: int, c: int) returns (x: int, y: int, z: int)
    ensures x <= y <= z && multiset{a, b, c} == multiset{x, y, z}
    ensures x + y + z == a + b + c
    ensures x <= a <= z && x <= b <= z && x <= c <= z
  {
    if a <= b {
      if b <= c {
        x, y, z := a, b, c;
      } else if a <= c {
        x, y, z := a, c, b;
      } else {
        x, y, z := c, a, b;
      }
    } else {
      if a <= c {
        x, y, z := b, a, c;
      } else if b <= c {
        x, y, z := b, c, a;
      } else {
        x, y, z := c, b, a;
      }
    }
  }

  /** The only zero-sum triple of values drawn from `{0, 0, 1, -1, 1, -1}` is
      `{-1, 0, 1}`. */
  lemma ZeroSumDrawnFromSix(a: int, b: int, c: int)
    requires multiset{a, b, c} <= multiset{0, 0, 1, -1, 1, -1} && a + b + c == 0
    ensures multiset{a, b, c} == multiset{-1, 0, 1}
  {
    var m := multiset{a, b, c};
    var x, y, z := Ascending3(a, b, c);
    assert x in m && z in m;
    assert -1 <= x && z <= 1;
    assert x == 0 && z == 0 ==> m[0] == 3;
    assert m[0] <= 2;
    assert x == -1 && y == 0 && z == 1;
  }

  /** Repeated values give the triplet `{-1, 0, 1}` once. */
  lemma FixtureDuplicateTriplets()
    ensures ZeroTriplets([0, 0, 1, -1, 1, -1]) == {multiset{-1, 0, 1}}
  {
    var s := [0, 0, 1, -1, 1, -1];
    ZeroAtIsMember(s, multiset{-1, 0, 1}, 0, 2, 3);
    forall m | m in ZeroTriplets(s) ensures m == multiset{-1, 0, 1} {
      DuplicateTripletsMember(m);
    }
  }

  /** Every key of `[0, 0, 1, -1, 1, -1]` is `{-1, 0, 1}`. */
  lemma DuplicateTripletsMember(m: multiset<int>)
    requires m in ZeroTriplets([0, 0, 1, -1, 1, -1])
    ensures m == multiset{-1, 0, 1}
  {
    var s := [0, 0, 1, -1, 1, -1];
    assert multiset(s) == multiset{0, 0, 1, -1, 1, -1};
    ZeroTripletsSound(s, m);
    var a, b, c :| m == multiset{a, b, c} && a + b + c == 0;
    ZeroSumDrawnFromSix(a, b, c);
  }

  /** Values drawn at most once each from `{0, -1, 2, -3, 1}` are distinct
      members of it. */
  lemma DrawnFromFive(a: int, b: int, c: int)
    requires multiset{a, b, c} <= multiset{0, -1, 2, -3, 1}
    ensures a in {-3, -1, 0, 1, 2} && b in {-3, -1, 0, 1, 2} && c in {-3, -1, 0, 1, 2}
    ensures a != b && b != c && a != c
  {
    var m := multiset{a, b, c};
    assert a in m && b in m && c in m;
    assert a == b ==> m[a] >= 2;
    assert b == c ==> m[b] >= 2;
    assert a == c ==> m[a] >= 2;
  }

  /** The only zero-sum triples of values drawn from `{0, -1, 2, -3, 1}`
      (each at most once) are `{-3, 1, 2}` and `{-1, 0, 1}`. */
  lemma ZeroSumDrawnFromFive(a: int, b: int, c: int)
    requires multiset{a, b, c} <= multiset{0, -1, 2, -3, 1} && a + b + c == 0
    ensures multiset{a, b, c} == multiset{-3, 1, 2} || multiset{a, b, c} == multiset{-1, 0, 1}
  {
    DrawnFromFive(a, b, c);
    var x, y, z := Ascending3(a, b, c);
    assert x < y < z;
    assert (x, y, z) == (-3, 1, 2) || (x, y, z) == (-1, 0, 1);
  }

  /** Two different triplets, `{-3, 1, 2}` and `{-1, 0, 1}`. */
  lemma FixtureTwoTriplets()
    ensures ZeroTriplets([0, -1, 2, -3, 1]) == {multiset{-3, 1, 2}, multiset{-1, 0, 1}}
  {
    var s := [0, -1, 2, -3, 1];
    var keys := {multiset{-3, 1, 2}, multiset{-1, 0, 1}};
    TwoTripletsFound();
    forall m | m in ZeroTriplets(s) ensures m in keys {
      TwoTripletsMember(m);
    }
    ExactKeys(s, keys);
  }

  /** Both expected triplets of `[0, -1, 2, -3, 1]` are found. */
  lemma TwoTripletsFound()
    ensures multiset{-3, 1, 2} in ZeroTriplets([0, -1, 2, -3, 1])
    ensures multiset{-1, 0, 1} in ZeroTriplets([0, -1, 2, -3, 1])
  {
    var s := [0, -1, 2, -3, 1];
    ZeroAtIsMember(s, multiset{-3, 1, 2}, 2, 3, 4);
    ZeroAtIsMember(s, multiset{-1, 0, 1}, 0, 1, 4);
  }

  /** Every key of `[0, -1, 2, -3, 1]` is `{-3, 1, 2}` or `{-1, 0, 1}`. */
  lemma TwoTripletsMember(m: multiset<int>)
    requires m in ZeroTriplets([0, -1, 2, -3, 1])
    ensures m == multiset{-3, 1, 2} || m == multiset{-1, 0, 1}
  {
    var s := [0, -1, 2, -3, 1];
    assert multiset(s) == multiset{0, -1, 2, -3, 1};
    ZeroTripletsSound(s, m);
    var a, b, c :| m == multiset{a, b, c} && a + b + c == 0;
    ZeroSumDrawnFromFive(a, b, c);
  }
}
