/**
 * The second copy of pair sum on a sorted array. Its brute force and loop
 * strategies are those of module PairSumSorted without the `undefined`
 * guards; its recursive helper ends after three `if` statements with no
 * trailing `return`, so a call that matched none of the three comparisons
 * would yield `undefined`. Here that result is `Undefined`, and the lemmas
 * show that on integers it is never produced.
 */
module PairSumSortedNoFallback {
  import PairSumSorted

  type IndexPair = PairSumSorted.IndexPair

  /** A JavaScript result that may be `undefined`. */
  datatype Returned<T> = Undefined | Value(value: T)

  /** `findPairsWithTargetSum` as written without its trailing return: the
      three comparisons are made one after the other, and falling past all
      of them is `Undefined`. It always returns a value, the list the
      guarded helper returns. */
  function FindPairsWithTargetSum(nums: seq<int>, target: int, l: int, r: int, pairs: seq<IndexPair>)
    : (res: Returned<seq<IndexPair>>)
    requires 0 <= l && r < |nums|
    ensures res == Value(PairSumSorted.FindPairsWithTargetSum(nums, target, l, r, pairs))
    decreases r - l
  {
    if l >= r then
      Value(pairs)
    else
      var sum := nums[l] + nums[r];
      if sum < target then
        FindPairsWithTargetSum(nums, target, l + 1, r, pairs)
      else if sum > target then
        FindPairsWithTargetSum(nums, target, l, r - 1, pairs)
      else if sum == target then
        FindPairsWithTargetSum(nums, target, l + 1, r, pairs + [PairSumSorted.IndexPair(l, r)])
      else
        Undefined
  }

  /** `recursiveTwoPointers` of this copy: the same list as the other copy's
      recursive and loop strategies, never `undefined`. */
  function RecursiveTwoPointers(nums: seq<int>, target: int): (res: Returned<seq<IndexPair>>)
    ensures res.Value?
    ensures res.value == PairSumSorted.RecursiveTwoPointers(nums, target)
  {
    FindPairsWithTargetSum(nums, target, 0, |nums| - 1, [])
  }

  /** The fixtures of this copy without a matching pair: the recursive
      strategy returns a list, and it is empty. */
  lemma FixturesWithoutPairs()
    ensures RecursiveTwoPointers([], 0) == Value([])
    ensures RecursiveTwoPointers([1], 1) == Value([])
    ensures RecursiveTwoPointers([2, 4], 5) == Value([])
  {
    PairSumSorted.FixturesWithoutPairs();
  }

  /** The fixtures of this copy with matching pairs: the recursive strategy
      returns a list, and it holds the listed pairs. */
  lemma FixturesWithPairs()
    ensures RecursiveTwoPointers([2, 2, 3], 5)
         == Value([PairSumSorted.IndexPair(0, 2), PairSumSorted.IndexPair(1, 2)])
    ensures RecursiveTwoPointers([-1, 2, 3], 2) == Value([PairSumSorted.IndexPair(0, 2)])
    ensures RecursiveTwoPointers([-3, -2, -1], -5) == Value([PairSumSorted.IndexPair(0, 1)])
  {
    PairSumSorted.FixtureRepeatedValue();
    PairSumSorted.FixtureOneNegative();
    PairSumSorted.FixtureBothNegative();
  }
}
