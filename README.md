# Two-pointer algorithms

This project is a Dafny model of the two-pointer exercises of a TypeScript
collection of coding-interview patterns. Each exercise defines several
interchangeable *strategies* for one problem:

- **Pair sum on a sorted array.** Return the index pairs `[left, right]`
  (`left < right`) whose values add up to a target. The strategies are a
  brute force over all pairs, a loop with a left and a right pointer, and the
  same pointer walk written as tail recursion. The repository holds two
  copies of this file. The second copy has no `undefined` guards, and its
  recursive helper has no trailing `return`.
- **Triplet sum.** Return every triplet of values at three distinct positions
  that sums to zero, each triplet once, in any order. The strategies are a
  brute force over all position triples, and a two-pointer search. The
  two-pointer search sorts a copy, fixes an anchor value `a`, and looks for
  value pairs summing to `-a` in the rest of the copy. It stops at the first
  positive anchor and skips a repeated anchor. The second copy of this file
  holds only the brute force.
- **Valid palindrome.** Decide whether a string reads the same backward as
  forward after every character outside `[a-zA-Z0-9]` is removed. There are
  two strategies:
  - an iterative pointer walk that compares characters exactly;
  - a recursive walk that compares them after lower-casing.

Modules:

| file | module | contents |
|---|---|---|
| `ordering.dfy` | `Ordering` | ascending order and the numerically sorted copy (`toSorted(Number.Order)`) |
| `pair_sum_sorted.dfy` | `PairSumSorted` | the three pair-sum strategies, and the reference list of all target pairs |
| `pair_sum_sorted_no_fallback.dfy` | `PairSumSortedNoFallback` | the second copy's recursive helper, where "no return" is an explicit `Undefined` |
| `triplet_keys.dfy` | `TripletKeys` | the specification of triplet sum: the set of multisets of three values summing to zero |
| `triplet_sum.dfy` | `TripletSum` | both triplet strategies and the inner `pairSumSorted` |
| `is_valid_palindrome.dfy` | `IsValidPalindrome` | both palindrome strategies, and what they decide |

Modelling choices:

- JavaScript numbers are unbounded integers.
- Array reads are in range, so the `undefined` guards and `!` assertions of
  the source never fire.
- The triplet strategies accumulate sorted tuples in a hash set, and equal
  tuples are equal keys. Sorting the same three values always yields the
  same tuple, so a key is exactly the *multiset* of the three values. A
  result is therefore a `set<multiset<int>>`.
- Strings are `seq<char>`.

Methods carry the loops of the source. Recursive helpers are functions.

## Model

| member | source | states |
|---|---|---|
| `Ordering.ToSorted` | coding-interview-patterns/src/two-pointers/triplet-sum.test.ts:60 | the numerically sorted copy is ascending and a permutation of the input |
| `Ordering.Insert` | coding-interview-patterns/src/two-pointers/triplet-sum.test.ts:60 | inserting into an ascending sequence keeps it ascending and adds exactly that element |
| `PairSumSorted.AllPairs` | coding-interview-patterns/src/two-pointers/pair-sum-sorted.test.ts:9-16 | the reference list of pairs: a pair is in it iff it names two positions `left < right` whose values sum to the target, and it lists them in row order |
| `PairSumSorted.BruteForce` | coding-interview-patterns/src/two-pointers/pair-sum-sorted.test.ts:17-34 | the nested loops return exactly every target pair, in loop order (the second copy, src/two-pointers/pair-sum-sorted.test.ts lines 14-24, is the same loop) |
| `PairSumSorted.FindPairsWithTargetSum` | coding-interview-patterns/src/two-pointers/pair-sum-sorted.test.ts:76-98 | the recursive helper keeps the pairs already found as a prefix; every pair it adds is a target pair inside the window `[l, r]`; the added pairs have strictly increasing left and non-increasing right positions |
| `PairSumSorted.RecursiveTwoPointers` | coding-interview-patterns/src/two-pointers/pair-sum-sorted.test.ts:73-102 | every pair returned is a target pair, and the pairs come out with increasing left and non-increasing right positions |
| `PairSumSorted.TwoPointers` | coding-interview-patterns/src/two-pointers/pair-sum-sorted.test.ts:45-70 | the pointer loop returns the same list as the recursive strategy (the second copy, src/two-pointers/pair-sum-sorted.test.ts lines 35-56, is the same loop) |
| `PairSumSorted.WindowPairIsFound` | coding-interview-patterns/src/two-pointers/pair-sum-sorted.test.ts:36-44 | on ascending input, if the window `[l, r]` holds a target pair, the pointer walk from `l` and `r` adds at least one pair |
| `PairSumSorted.EmptyIffNoPair` | coding-interview-patterns/src/two-pointers/pair-sum-sorted.test.ts:104-117 | on ascending input the pointer strategies return an empty list iff no two positions sum to the target |
| `PairSumSorted.TwoPointersSubsequenceOfBruteForce` | coding-interview-patterns/src/two-pointers/pair-sum-sorted.test.ts:104-117 | the pointer strategies return a subsequence of the brute force list, so they never report a pair the brute force would not |
| `PairSumSorted.FixturesWithoutPairs` | coding-interview-patterns/src/two-pointers/pair-sum-sorted.test.ts:123-156 | the empty array, a single element and `[2, 4]` with target 5 give no pair, for brute force and pointers alike |
| `PairSumSorted.FixtureRepeatedValue` | coding-interview-patterns/src/two-pointers/pair-sum-sorted.test.ts:157-169 | `[2, 2, 3]` with target 5 gives `[0, 2], [1, 2]` for every strategy |
| `PairSumSorted.FixtureOneNegative` | coding-interview-patterns/src/two-pointers/pair-sum-sorted.test.ts:170-181 | `[-1, 2, 3]` with target 2 gives `[0, 2]` for every strategy |
| `PairSumSorted.FixtureBothNegative` | coding-interview-patterns/src/two-pointers/pair-sum-sorted.test.ts:182-192 | `[-3, -2, -1]` with target -5 gives `[0, 1]` for every strategy |
| `PairSumSortedNoFallback.FindPairsWithTargetSum` | src/two-pointers/pair-sum-sorted.test.ts:61-80 | the helper without a trailing `return` never falls off its end: it always returns a value, the list of the guarded helper |
| `PairSumSortedNoFallback.RecursiveTwoPointers` | src/two-pointers/pair-sum-sorted.test.ts:58-84 | the recursive strategy of the second copy is never `undefined`, and returns the same list as the first copy |
| `PairSumSortedNoFallback.FixturesWithoutPairs` | src/two-pointers/pair-sum-sorted.test.ts:103-164 | the second copy's fixtures without a pair: a list is returned, and it is empty |
| `PairSumSortedNoFallback.FixturesWithPairs` | src/two-pointers/pair-sum-sorted.test.ts:165-238 | the second copy's fixtures with pairs: a list is returned, and it holds the expected pairs |
| `TripletKeys.ZeroTripletsSound` | coding-interview-patterns/src/two-pointers/triplet-sum.test.ts:6-9 | every key in the specification is three values drawn from the input (a sub-multiset) that sum to zero |
| `TripletKeys.ZeroTripletsComplete` | coding-interview-patterns/src/two-pointers/triplet-sum.test.ts:6-9 | any three values drawn from the input that sum to zero are a key of the specification |
| `TripletKeys.ZeroTripletsOfPermutation` | coding-interview-patterns/src/two-pointers/triplet-sum.test.ts:11 | the set of triplets depends only on the multiset of the input, not its order; this is what lets the two-pointer strategy sort first |
| `TripletKeys.FewerThanThreeHaveNone` | coding-interview-patterns/src/two-pointers/triplet-sum.test.ts:9 | fewer than three numbers have no triplet |
| `TripletSum.BruteForce` | coding-interview-patterns/src/two-pointers/triplet-sum.test.ts:26-50 | the triple loop returns exactly the zero-sum triplets, each once (the second copy, src/two-pointers/triplet-sum.test.ts lines 26-50, is the same loop) |
| `TripletSum.PairSumSorted` | coding-interview-patterns/src/two-pointers/triplet-sum.test.ts:65-98 | on an ascending copy, a value pair `(x, y)` is returned iff `x <= y` are the values at two positions `start <= p < q` summing to the target |
| `TripletSum.PositiveAnchorEndsSearch` | coding-interview-patterns/src/two-pointers/triplet-sum.test.ts:104-112 | in ascending order, no triplet has its first position at or after a positive anchor, so breaking there loses nothing |
| `TripletSum.RepeatedAnchorAddsNothing` | coding-interview-patterns/src/two-pointers/triplet-sum.test.ts:114-119 | an anchor equal to the previous one anchors no triplet that was not already found, so skipping it loses nothing |
| `TripletSum.AnchorPairsAreAnchoredTriplets` | coding-interview-patterns/src/two-pointers/triplet-sum.test.ts:121-129 | the anchor joined with each pair found for `-anchor` gives exactly the triplets whose first position is the anchor |
| `TripletSum.TwoPointers` | coding-interview-patterns/src/two-pointers/triplet-sum.test.ts:52-133 | the sort-and-search strategy returns exactly the zero-sum triplets, the same set as the brute force |
| `TripletSum.FixturesWithoutTriplets` | coding-interview-patterns/src/two-pointers/triplet-sum.test.ts:138-190 | `[]`, `[0]`, `[1, -1]` and `[1, 0, 1]` have no triplet (also src/two-pointers/triplet-sum.test.ts lines 55-108) |
| `TripletSum.FixtureAllZeros` | coding-interview-patterns/src/two-pointers/triplet-sum.test.ts:168-178 | `[0, 0, 0]` has exactly the triplet `[0, 0, 0]` |
| `TripletSum.FixtureDuplicateTriplets` | coding-interview-patterns/src/two-pointers/triplet-sum.test.ts:192-202 | `[0, 0, 1, -1, 1, -1]` has exactly one triplet, `[-1, 0, 1]` |
| `TripletSum.FixtureTwoTriplets` | coding-interview-patterns/src/two-pointers/triplet-sum.test.ts:204-217 | `[0, -1, 2, -3, 1]` has exactly the triplets `[-3, 1, 2]` and `[-1, 0, 1]` |
| `IsValidPalindrome.FilterMembers` | src/two-pointers/is-valid-palindrome.test.ts:50 | the kept characters are exactly the input's characters that match `[a-zA-Z0-9]`, and there are no more of them than input characters |
| `IsValidPalindrome.PalindromeReadsSameBackward` | src/two-pointers/is-valid-palindrome.test.ts:1-3 | the first-equals-last definition of a palindrome holds iff the sequence equals its reverse |
| `IsValidPalindrome.EndsStep` | src/two-pointers/is-valid-palindrome.test.ts:69-76 | once both pointers rest on alphanumeric characters, equal characters leave the verdict to the inside window, and different characters make it false |
| `IsValidPalindrome.TwoPointers` | src/two-pointers/is-valid-palindrome.test.ts:45-80 | the iterative walk returns true iff the input's alphanumeric characters read the same backward, letter case included |
| `IsValidPalindrome.CheckPalindrome` | src/two-pointers/is-valid-palindrome.test.ts:90-116 | the recursive helper returns true iff the lower-cased alphanumeric characters of the window `[left, right]` read the same backward |
| `IsValidPalindrome.Recursive` | src/two-pointers/is-valid-palindrome.test.ts:82-120 | the recursive strategy returns true iff the input's lower-cased alphanumeric characters read the same backward |
| `IsValidPalindrome.StrategiesAgreeWithoutUpperCase` | src/two-pointers/is-valid-palindrome.test.ts:16-17 | on inputs without upper-case letters, which is what the problem admits, the two strategies agree |
| `IsValidPalindrome.StrategiesDifferOnCase` | src/two-pointers/is-valid-palindrome.test.ts:109-112 | outside that constraint they differ: `"Aa"` fails the iterative check and passes the recursive one |
| `IsValidPalindrome.ShortFixtures` | src/two-pointers/is-valid-palindrome.test.ts:125-172 | `""`, `"a"`, `"aa"` and `"!, (?)"` are valid and `"ab"` is not, for both strategies |
| `IsValidPalindrome.DateFixture` | src/two-pointers/is-valid-palindrome.test.ts:174-182 | `"12.02.2021"` is valid for both strategies |
| `IsValidPalindrome.SwappedDateFixture` | src/two-pointers/is-valid-palindrome.test.ts:184-192 | `"21.02.2021"` is not valid for either strategy |
| `IsValidPalindrome.GreetingFixture` | src/two-pointers/is-valid-palindrome.test.ts:194-195 | `"hello, world!"` is not valid for either strategy |
| `IsValidPalindrome.PagodaFixture` | src/two-pointers/is-valid-palindrome.test.ts:196-202 | `"a dog! a panic in a pagoda"` is valid for both strategies |

## Left out

- `PairSumSorted.TwoPointers`: the pointer strategies do not return every
  target pair. On `[2, 2, 3, 3]` with target 5 they miss `[0, 2]` and `[1, 2]`,
  because a match moves only the left pointer. The model claims what the
  source promises ("any pair", and an empty list iff there is none), and
  that the result is a subsequence of the brute force list. It does not
  claim equality with the brute force.
- JavaScript number semantics (floating point, `NaN`, `-0`, precision loss
  beyond 2^53) are not modelled; numbers are unbounded integers.
- The `undefined` guards and `break`s on missing array elements are not
  modelled. They cannot fire for in-range integer reads.
- `MutableHashSet`, `Data.tuple` and `Array.from` are modelled by their
  outcome, a set of keys. The order in which `Array.from` lists the
  triplets is not modelled; the tests compare them ignoring order.
- The comparator-less `toSorted()` of each found triplet orders values as
  strings. Only its role as a key is modelled: equal multisets give equal
  tuples.
- The palindrome regular expression and `toLowerCase` are modelled on ASCII.
  Only characters that match `[a-zA-Z0-9]` are ever lower-cased, so this is
  exact there. JavaScript strings are UTF-16 code units; lone surrogates
  have no counterpart among Dafny characters.
- The palindrome strategies disagree on upper-case input. The iterative one
  compares exactly and the recursive one lower-cases. The model follows
  each strategy's code rather than the problem text's "letters and numbers"
  wording. The two are proved to agree on the inputs the stated constraint
  allows.
- src/two-pointers/is-valid-palindrome.ts holds only skipped test stubs with
  no strategy; it has nothing to model.
- The vitest scaffolding (`describe`, `it.for`, `expect`) and the `make*`
  wrappers, which only apply a strategy, are not modelled; the fixtures
  are lemmas.
- Time complexity claims in the comments are not modelled.
