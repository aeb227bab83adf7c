/**
 * Pair sum on a sorted array: three interchangeable strategies that return
 * index pairs `(left, right)` of `nums` whose values add up to `target`.
 *
 *  - BruteForce: two nested loops over every `left < right`;
 *  - TwoPointers: a left and a right pointer converging on each other;
 *  - RecursiveTwoPointers: the same convergence written as tail recursion
 *    with an accumulator of found pairs.
 *
 * JavaScript numbers are modelled as unbounded integers, so every index the
 * strategies read is in range and the `undefined` guards of the source never
 * fire; they are not modelled.
 */
module PairSumSorted {
  import opened Ordering

  /** The `[leftPointer, rightPointer]` tuple the strategies return. */
  datatype IndexPair = IndexPair(left: int, right: int)

  /** `p` names two distinct positions, left before right, whose values sum to `target`. */
  predicate IsTargetPair(nums: seq<int>, target: int, p: IndexPair) {
    0 <= p.left < p.right < |nums| && nums[p.left] + nums[p.right] == target
  }

  /** Some pair of positions of `nums` sums to `target`. */
  predicate HasTargetPair(nums: seq<int>, target: int) {
    exists i, j :: 0 <= i < j < |nums| && nums[i] + nums[j] == target
  }

  /** Lexicographic order on index pairs. */
  predicate Before(p: IndexPair, q: IndexPair) {
    p.left < q.left || (p.left == q.left && p.right < q.right)
  }

  /** Strictly increasing in lexicographic order (so also free of repeats). */
  predicate StrictlyOrdered(ps: seq<IndexPair>) {
    forall i, j :: 0 <= i < j < |ps| ==> Before(ps[i], ps[j])
  }

  // ---------------------------------------------------------------------------
  // Brute force

  /** The pairs `(i, k)` with `i < k < j` that sum to `target`, by increasing `k`:
      what the inner loop of the brute force has pushed when it reaches `j`. */
  function RowPairs(nums: seq<int>, target: int, i: int, j: int): seq<IndexPair>
    requires 0 <= i && j <= |nums|
    decreases j
  {
    if j <= i + 1 then
      []
    else
      var prefix := RowPairs(nums, target, i, j - 1);
      if nums[i] + nums[j - 1] == target then prefix + [IndexPair(i, j - 1)] else prefix
  }

  /** The pairs whose left position is below `i`, row after row:
      what the brute force has pushed when its outer loop reaches `i`. */
  function PairsBefore(nums: seq<int>, target: int, i: int): seq<IndexPair>
    requires 0 <= i <= |nums|
  {
    if i == 0 then [] else PairsBefore(nums, target, i - 1) + RowPairs(nums, target, i - 1, |nums|)
  }

  /** Row `i` up to `j` holds exactly the target pairs starting at `i` and
      ending before `j`, in increasing order. */
  lemma {:induction false} RowPairsExact(nums: seq<int>, target: int, i: int, j: int)
    requires 0 <= i && j <= |nums|
    ensures forall p :: p in RowPairs(nums, target, i, j) <==>
              IsTargetPair(nums, target, p) && p.left == i && p.right < j
    ensures StrictlyOrdered(RowPairs(nums, target, i, j))
    decreases j
  {
    if j > i + 1 {
      RowPairsExact(nums, target, i, j - 1);
    }
  }

  /** The rows before `i` hold exactly the target pairs starting before `i`,
      in lexicographic order. */
  lemma {:induction false} PairsBeforeExact(nums: seq<int>, target: int, i: int)
    requires 0 <= i <= |nums|
    ensures forall p :: p in PairsBefore(nums, target, i) <==> IsTargetPair(nums, target, p) && p.left < i
    ensures StrictlyOrdered(PairsBefore(nums, target, i))
  {
    if i > 0 {
      PairsBeforeExact(nums, target, i - 1);
      RowPairsExact(nums, target, i - 1, |nums|);
      var done := PairsBefore(nums, target, i - 1);
      var row := RowPairs(nums, target, i - 1, |nums|);
      assert forall a, b :: a in done && b in row ==> Before(a, b);
    }
  }

  /** Every pair of positions that sums to `target`, in lexicographic order:
      the list the brute force returns. */
  function AllPairs(nums: seq<int>, target: int): (ps: seq<IndexPair>)
    ensures forall p :: p in ps <==> IsTargetPair(nums, target, p)
    ensures StrictlyOrdered(ps)
  {
    PairsBeforeExact(nums, target, |nums|);
    PairsBefore(nums, target, |nums|)
  }

  /** `bruteForce`: checks every pair `i < j` and pushes the matching ones. */
  method BruteForce(nums: seq<int>, target: int) returns (result: seq<IndexPair>)
    ensures result == AllPairs(nums, target)
  {
    result := [];
    for i := 0 to |nums|
      invariant result == PairsBefore(nums, target, i)
    {
      for j := i + 1 to |nums|
        invariant result == PairsBefore(nums, target, i) + RowPairs(nums, target, i, j)
      {
        if nums[i] + nums[j] == target {
          result := result + [IndexPair(i, j)];
        }
      }
    }
  }

  // ---------------------------------------------------------------------------
  // Two pointers

  /** `findPairsWithTargetSum(leftPointer, rightPointer, pairs)`: moves the left
      pointer up while the sum is too small, the right pointer down while it is
      too large, and on a match records the pair and moves the left pointer up.
      The pairs it appends to `pairs` are target pairs inside the window
      `[l, r]`, with left positions strictly increasing and right positions
      never increasing. */
  function FindPairsWithTargetSum(nums: seq<int>, target: int, l: int, r: int, pairs: seq<IndexPair>)
    : (res: seq<IndexPair>)
    requires 0 <= l && r < |nums|
    ensures |pairs| <= |res| && res[..|pairs|] == pairs
    ensures forall k :: |pairs| <= k < |res| ==>
              IsTargetPair(nums, target, res[k]) && l <= res[k].left && res[k].right <= r
    ensures forall k, k' :: |pairs| <= k < k' < |res| ==>
              res[k].left < res[k'].left && res[k'].right <= res[k].right
    decreases r - l
  {
    if l >= r then
      pairs
    else
      var sum := nums[l] + nums[r];
      if sum < target then
        FindPairsWithTargetSum(nums, target, l + 1, r, pairs)
      else if sum > target then
        FindPairsWithTargetSum(nums, target, l, r - 1, pairs)
      else
        FindPairsWithTargetSum(nums, target, l + 1, r, pairs + [IndexPair(l, r)])
  }

  /** `recursiveTwoPointers`: every pair it returns sums to `target`, left
      positions strictly increase and right positions never increase. */
  function RecursiveTwoPointers(nums: seq<int>, target: int): (res: seq<IndexPair>)
    ensures forall p :: p in res ==> IsTargetPair(nums, target, p)
    ensures forall k, k' :: 0 <= k < k' < |res| ==> res[k].left < res[k'].left && res[k'].right <= res[k].right
  {
    var res := FindPairsWithTargetSum(nums, target, 0, |nums| - 1, []);
    assert forall p :: p in res ==> exists k :: 0 <= k < |res| && res[k] == p;
    res
  }

  /** `twoPointers`: the loop form of the same convergence; it returns exactly
      the list the recursive strategy returns. */
  method TwoPointers(nums: seq<int>, target: int) returns (result: seq<IndexPair>)
    ensures result == RecursiveTwoPointers(nums, target)
  {
    var leftPointer, rightPointer := 0, |nums| - 1;
    result := [];
    while leftPointer < rightPointer
      invariant 0 <= leftPointer && rightPointer < |nums|
      invariant FindPairsWithTargetSum(nums, target, leftPointer, rightPointer, result)
                == RecursiveTwoPointers(nums, target)
      decreases rightPointer - leftPointer
    {
      var sum := nums[leftPointer] + nums[rightPointer];
      if sum < target {
        leftPointer := leftPointer + 1;
      } else if sum > target {
        rightPointer := rightPointer - 1;
      } else {
        result := result + [IndexPair(leftPointer, rightPointer)];
        leftPointer := leftPointer + 1;
      }
    }
  }

  // ---------------------------------------------------------------------------
  // Properties

  /** On ascending input, if some pair inside the window `[l, r]` sums to
      `target`, the convergence records at least one pair. */
  lemma {:induction false} WindowPairIsFound(nums: seq<int>, target: int, l: int, r: int,
                                             pairs: seq<IndexPair>, i: int, j: int)
    requires Ascending(nums)
    requires 0 <= l <= i < j <= r < |nums| && nums[i] + nums[j] == target
    ensures |FindPairsWithTargetSum(nums, target, l, r, pairs)| > |pairs|
    decreases r - l
  {
    var sum := nums[l] + nums[r];
    if sum < target {
      // nums[l] + nums[j] <= sum < target, so the pair does not start at l
      assert nums[j] <= nums[r];
      WindowPairIsFound(nums, target, l + 1, r, pairs, i, j);
    } else if sum > target {
      // nums[i] + nums[r] >= sum > target, so the pair does not end at r
      assert nums[l] <= nums[i];
      WindowPairIsFound(nums, target, l, r - 1, pairs, i, j);
    } else {
      var _ := FindPairsWithTargetSum(nums, target, l + 1, r, pairs + [IndexPair(l, r)]);
    }
  }

  /** On ascending input the two-pointer strategies return an empty list
      exactly when no pair of positions sums to `target`. */
  lemma EmptyIffNoPair(nums: seq<int>, target: int)
    requires Ascending(nums)
    ensures RecursiveTwoPointers(nums, target) == [] <==> !HasTargetPair(nums, target)
  {
    var res := RecursiveTwoPointers(nums, target);
    if HasTargetPair(nums, target) {
      var i, j :| 0 <= i < j < |nums| && nums[i] + nums[j] == target;
      WindowPairIsFound(nums, target, 0, |nums| - 1, [], i, j);
    }
    if res != [] {
      assert IsTargetPair(nums, target, res[0]);
    }
  }

  /** `a` is `b` with some elements left out, the rest kept in order. */
  predicate IsSubsequence(a: seq<IndexPair>, b: seq<IndexPair>)
    decreases |b|
  {
    if a == [] then true
    else if b == [] then false
    else if a[0] == b[0] then IsSubsequence(a[1..], b[1..])
    else IsSubsequence(a, b[1..])
  }

  /** A strictly ordered list whose elements all occur in another strictly
      ordered list is a subsequence of it. */
  lemma {:induction false} OrderedSubsequence(a: seq<IndexPair>, b: seq<IndexPair>)
    requires StrictlyOrdered(a) && StrictlyOrdered(b)
    requires forall x :: x in a ==> x in b
    ensures IsSubsequence(a, b)
    decreases |b|
  {
    if a != [] {
      assert a[0] in b;
      if a[0] == b[0] {
        forall x | x in a[1..] ensures x in b[1..] {
          var n :| 0 <= n < |a[1..]| && a[1..][n] == x;
          assert Before(a[0], a[n + 1]) && a[n + 1] in a;
          var m :| 0 <= m < |b| && b[m] == x;
          assert m != 0;
          assert b[m] == b[1..][m - 1];
        }
        OrderedSubsequence(a[1..], b[1..]);
      } else {
        var m0 :| 0 <= m0 < |b| && b[m0] == a[0];
        assert m0 != 0 && Before(b[0], a[0]);
        forall x | x in a ensures x in b[1..] {
          var n :| 0 <= n < |a| && a[n] == x;
          assert n == 0 || Before(a[0], a[n]);
          var m :| 0 <= m < |b| && b[m] == x;
          assert m != 0;
          assert b[m] == b[1..][m - 1];
        }
        OrderedSubsequence(a, b[1..]);
      }
    }
  }

  /** The two-pointer output is a subsequence of the brute-force output. */
  lemma TwoPointersSubsequenceOfBruteForce(nums: seq<int>, target: int)
    ensures IsSubsequence(RecursiveTwoPointers(nums, target), AllPairs(nums, target))
  {
    OrderedSubsequence(RecursiveTwoPointers(nums, target), AllPairs(nums, target));
  }

  /** The fixtures shared by all three strategies: inputs too short for a pair,
      and a two-element input whose only pair misses the target. */
  lemma FixturesWithoutPairs()
    ensures AllPairs([], 0) == [] && RecursiveTwoPointers([], 0) == []
    ensures AllPairs([1], 1) == [] && RecursiveTwoPointers([1], 1) == []
    ensures AllPairs([2, 4], 5) == [] && RecursiveTwoPointers([2, 4], 5) == []
  {
    assert RowPairs([2, 4], 5, 0, 2) == [];
    assert PairsBefore([2, 4], 5, 1) == [];
    assert PairsBefore([2, 4], 5, 2) == [];
  }

  /** The fixture with a repeated value: both pairs ending at the last position. */
  lemma FixtureRepeatedValue()
    ensures AllPairs([2, 2, 3], 5) == [IndexPair(0, 2), IndexPair(1, 2)]
    ensures RecursiveTwoPointers([2, 2, 3], 5) == [IndexPair(0, 2), IndexPair(1, 2)]
  {
    var nums := [2, 2, 3];
    assert RowPairs(nums, 5, 0, 2) == [];
    assert RowPairs(nums, 5, 0, 3) == [IndexPair(0, 2)];
    assert RowPairs(nums, 5, 1, 3) == [IndexPair(1, 2)];
    assert RowPairs(nums, 5, 2, 3) == [];
    assert PairsBefore(nums, 5, 1) == [IndexPair(0, 2)];
    assert PairsBefore(nums, 5, 2) == [IndexPair(0, 2), IndexPair(1, 2)];
    assert PairsBefore(nums, 5, 3) == [IndexPair(0, 2), IndexPair(1, 2)];
    assert FindPairsWithTargetSum(nums, 5, 2, 2, [IndexPair(0, 2), IndexPair(1, 2)])
        == [IndexPair(0, 2), IndexPair(1, 2)];
    assert FindPairsWithTargetSum(nums, 5, 1, 2, [IndexPair(0, 2)])
        == [IndexPair(0, 2), IndexPair(1, 2)];
  }

  /** The fixture whose matching pair holds one negative value. */
  lemma FixtureOneNegative()
    ensures AllPairs([-1, 2, 3], 2) == [IndexPair(0, 2)]
    ensures RecursiveTwoPointers([-1, 2, 3], 2) == [IndexPair(0, 2)]
  {
    var nums := [-1, 2, 3];
    assert RowPairs(nums, 2, 0, 2) == [];
    assert RowPairs(nums, 2, 0, 3) == [IndexPair(0, 2)];
    assert RowPairs(nums, 2, 1, 3) == [];
    assert RowPairs(nums, 2, 2, 3) == [];
    assert PairsBefore(nums, 2, 1) == [IndexPair(0, 2)];
    assert PairsBefore(nums, 2, 2) == [IndexPair(0, 2)];
    assert PairsBefore(nums, 2, 3) == [IndexPair(0, 2)];
    assert FindPairsWithTargetSum(nums, 2, 1, 2, [IndexPair(0, 2)]) == [IndexPair(0, 2)];
  }

  /** The fixture whose matching pair holds two negative values. */
  lemma FixtureBothNegative()
    ensures AllPairs([-3, -2, -1], -5) == [IndexPair(0, 1)]
    ensures RecursiveTwoPointers([-3, -2, -1], -5) == [IndexPair(0, 1)]
  {
    var nums := [-3, -2, -1];
    assert RowPairs(nums, -5, 0, 2) == [IndexPair(0, 1)];
    assert RowPairs(nums, -5, 0, 3) == [IndexPair(0, 1)];
    assert RowPairs(nums, -5, 1, 3) == [];
    assert RowPairs(nums, -5, 2, 3) == [];
    assert PairsBefore(nums, -5, 1) == [IndexPair(0, 1)];
    assert PairsBefore(nums, -5, 2) == [IndexPair(0, 1)];
    assert PairsBefore(nums, -5, 3) == [IndexPair(0, 1)];
    assert FindPairsWithTargetSum(nums, -5, 0, 1, []) == [IndexPair(0, 1)];
  }
}
