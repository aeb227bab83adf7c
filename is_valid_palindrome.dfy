/**
 * Valid palindrome: after removing every character that is not an ASCII
 * letter or digit, does the string read the same backward as forward?
 *
 *  - TwoPointers: converging pointers that skip non-alphanumeric characters
 *    and compare the characters they stop at exactly (case-sensitively);
 *  - Recursive: the same walk written as recursion, comparing the two
 *    characters after lower-casing them.
 *
 * Strings are sequences of characters; a character is alphanumeric when the
 * pattern `[a-zA-Z0-9]` matches it.
 */
module IsValidPalindrome {

  /** The character class `[a-zA-Z0-9]`. */
  predicate IsAlphanumeric(c: char) {
    ('a' <= c <= 'z') || ('A' <= c <= 'Z') || ('0' <= c <= '9')
  }

  /** `toLowerCase` on one ASCII character: `A`–`Z` become `a`–`z`, every
      other character of the class is unchanged. */
  function ToLower(c: char): char {
    if 'A' <= c <= 'Z' then (c as int + 32) as char else c
  }

  /** The alphanumeric characters at positions `l` to `r`, both included, in
      order; empty once the two positions have crossed. */
  function Alnums(s: seq<char>, l: int, r: int): seq<char>
    requires 0 <= l && r < |s|
    decreases r
  {
    if r < l then [] else Alnums(s, l, r - 1) + (if IsAlphanumeric(s[r]) then [s[r]] else [])
  }

  /** The alphanumeric characters of `s`, in order. */
  function Filter(s: seq<char>): seq<char> {
    Alnums(s, 0, |s| - 1)
  }

  /** Every character lower-cased. */
  function Lowered(s: seq<char>): seq<char> {
    seq(|s|, k requires 0 <= k < |s| => ToLower(s[k]))
  }

  /** `s` read backward. */
  function Reversed(s: seq<char>): seq<char> {
    seq(|s|, k requires 0 <= k < |s| => s[|s| - 1 - k])
  }

  /** The first and last characters agree, and so on inwards. */
  predicate IsPalindrome(s: seq<char>)
    decreases |s|
  {
    |s| <= 1 || (s[0] == s[|s| - 1] && IsPalindrome(s[1..|s| - 1]))
  }

  // ---------------------------------------------------------------------------
  // Facts about the specification functions

  /** The characters kept between `l` and `r` are exactly the alphanumeric
      characters found at those positions, and there are no more of them
      than positions. */
  lemma {:induction false} AlnumsMembers(s: seq<char>, l: int, r: int)
    requires 0 <= l && r < |s|
    ensures |Alnums(s, l, r)| <= if r < l then 0 else r - l + 1
    ensures forall c :: c in Alnums(s, l, r) <==> exists k :: l <= k <= r && s[k] == c && IsAlphanumeric(c)
    decreases r
  {
    if l <= r {
      AlnumsMembers(s, l, r - 1);
      forall c | c in Alnums(s, l, r)
        ensures exists k :: l <= k <= r && s[k] == c && IsAlphanumeric(c)
      {
        if c !in Alnums(s, l, r - 1) {
          assert s[r] == c && IsAlphanumeric(c);
        }
      }
    }
  }

  /** The filtered characters are exactly the alphanumeric characters of
      `s`. */
  lemma FilterMembers(s: seq<char>)
    ensures |Filter(s)| <= |s|
    ensures forall c :: c in Filter(s) <==> c in s && IsAlphanumeric(c)
  {
    AlnumsMembers(s, 0, |s| - 1);
  }

  /** Lower-casing distributes over concatenation. */
  lemma LoweredConcat(a: seq<char>, b: seq<char>)
    ensures Lowered(a + b) == Lowered(a) + Lowered(b)
  {
  }

  /** Lower-casing a sequence with two ends lower-cases each end. */
  lemma LoweredEnds(x: char, m: seq<char>, y: char)
    ensures Lowered([x] + m + [y]) == [ToLower(x)] + Lowered(m) + [ToLower(y)]
  {
    LoweredConcat([x] + m, [y]);
    LoweredConcat([x], m);
    assert Lowered([x]) == [ToLower(x)] && Lowered([y]) == [ToLower(y)];
  }

  /** A sequence of at most one character is a palindrome. */
  lemma ShortIsPalindrome(s: seq<char>)
    requires |s| <= 1
    ensures IsPalindrome(s)
  {
  }

  /** A sequence of two or more characters is a palindrome exactly when its
      ends agree and its inside is a palindrome. */
  lemma PalindromeEnds(x: char, m: seq<char>, y: char)
    ensures IsPalindrome([x] + m + [y]) <==> x == y && IsPalindrome(m)
  {
    var s := [x] + m + [y];
    assert s[0] == x && s[|s| - 1] == y && s[1..|s| - 1] == m;
  }

  /** Being a palindrome is reading the same backward as forward. */
  lemma {:induction false} PalindromeReadsSameBackward(s: seq<char>)
    ensures IsPalindrome(s) <==> Reversed(s) == s
    decreases |s|
  {
    if |s| >= 2 {
      var m := s[1..|s| - 1];
      var n := |m|;
      PalindromeReadsSameBackward(m);
      if IsPalindrome(s) {
        forall k | 0 <= k < |s| ensures Reversed(s)[k] == s[k] {
          if 0 < k < |s| - 1 {
            assert s[k] == m[k - 1] && s[|s| - 1 - k] == m[n - k];
            assert Reversed(m)[k - 1] == m[n - k];
          }
        }
      }
      if Reversed(s) == s {
        assert Reversed(s)[0] == s[0];
        forall k | 0 <= k < n ensures Reversed(m)[k] == m[k] {
          assert Reversed(s)[k + 1] == s[k + 1];
        }
      }
    } else {
      assert Reversed(s) == s;
    }
  }

  /** Seen from the front: the characters kept between `l` and `r` are the
      first one, if it is alphanumeric, followed by those kept after it. */
  lemma {:induction false} AlnumsFromFront(s: seq<char>, l: int, r: int)
    requires 0 <= l <= r < |s|
    ensures Alnums(s, l, r) == (if IsAlphanumeric(s[l]) then [s[l]] else []) + Alnums(s, l + 1, r)
    decreases r
  {
    if l < r {
      AlnumsFromFront(s, l, r - 1);
    }
  }

  /** A first character that is not alphanumeric is skipped. */
  lemma DropFirst(s: seq<char>, l: int, r: int)
    requires 0 <= l <= r < |s| && !IsAlphanumeric(s[l])
    ensures Alnums(s, l, r) == Alnums(s, l + 1, r)
  {
    AlnumsFromFront(s, l, r);
  }

  /** A last character that is not alphanumeric is skipped. */
  lemma DropLast(s: seq<char>, l: int, r: int)
    requires 0 <= l <= r < |s| && !IsAlphanumeric(s[r])
    ensures Alnums(s, l, r) == Alnums(s, l, r - 1)
  {
  }

  /** With alphanumeric characters at both ends, the characters kept are
      those two around the characters kept strictly between them. */
  lemma PeelEnds(s: seq<char>, l: int, r: int)
    requires 0 <= l < r < |s| && IsAlphanumeric(s[l]) && IsAlphanumeric(s[r])
    ensures Alnums(s, l, r) == [s[l]] + Alnums(s, l + 1, r - 1) + [s[r]]
  {
    AlnumsFromFront(s, l, r - 1);
  }

  /** Once the pointers have met or crossed, at most one character is left,
      so what is left is a palindrome, lower-cased or not. */
  lemma ShortWindow(s: seq<char>, l: int, r: int)
    requires 0 <= l && r < |s| && r <= l
    ensures IsPalindrome(Alnums(s, l, r))
    ensures IsPalindrome(Lowered(Alnums(s, l, r)))
  {
    if l <= r {
      assert Alnums(s, l, r - 1) == [];
    }
    ShortIsPalindrome(Alnums(s, l, r));
    ShortIsPalindrome(Lowered(Alnums(s, l, r)));
  }

  /** Comparing the characters at the two pointers, once both have skipped
      non-alphanumeric characters (or met), decides the window exactly as
      comparing the ends of its alphanumeric characters does. */
  lemma EndsStep(s: seq<char>, l: int, r: int)
    requires 0 <= l <= r < |s|
    requires l < r ==> IsAlphanumeric(s[l]) && IsAlphanumeric(s[r])
    ensures s[l] == s[r] ==> IsPalindrome(Alnums(s, l, r)) == IsPalindrome(Alnums(s, l + 1, r - 1))
    ensures s[l] != s[r] ==> !IsPalindrome(Alnums(s, l, r))
  {
    if l < r {
      PeelEnds(s, l, r);
      PalindromeEnds(s[l], Alnums(s, l + 1, r - 1), s[r]);
    } else {
      ShortWindow(s, l, r);
      ShortWindow(s, l + 1, r - 1);
    }
  }

  // ---------------------------------------------------------------------------
  // Strategies

  /** `twoPointers`: the left pointer skips non-alphanumeric characters, then
      the right one does; the characters they stop at must be equal, and both
      pointers walk inwards. The result is whether the alphanumeric
      characters of `s` read the same backward as forward, letter case
      included. */
  method TwoPointers(s: seq<char>) returns (b: bool)
    ensures b == IsPalindrome(Filter(s))
  {
    var lastIndex := |s| - 1;
    var leftPointer, rightPointer := 0, lastIndex;
    while leftPointer < rightPointer
      invariant 0 <= leftPointer && -1 <= rightPointer < |s|
      invariant IsPalindrome(Filter(s)) == IsPalindrome(Alnums(s, leftPointer, rightPointer))
      decreases rightPointer - leftPointer
    {
      while leftPointer < rightPointer && !IsAlphanumeric(s[leftPointer])
        invariant 0 <= leftPointer <= rightPointer < |s|
        invariant IsPalindrome(Filter(s)) == IsPalindrome(Alnums(s, leftPointer, rightPointer))
      {
        DropFirst(s, leftPointer, rightPointer);
        leftPointer := leftPointer + 1;
      }
      while leftPointer < rightPointer && !IsAlphanumeric(s[rightPointer])
        invariant 0 <= leftPointer <= rightPointer < |s|
        invariant IsPalindrome(Filter(s)) == IsPalindrome(Alnums(s, leftPointer, rightPointer))
      {
        DropLast(s, leftPointer, rightPointer);
        rightPointer := rightPointer - 1;
      }
      EndsStep(s, leftPointer, rightPointer);
      if s[leftPointer] != s[rightPointer] {
        return false;
      }
      leftPointer := leftPointer + 1;
      rightPointer := rightPointer - 1;
    }
    ShortWindow(s, leftPointer, rightPointer);
    return true;
  }

  /** `checkPalindrome(leftPointer, rightPointer)`: skips a non-alphanumeric
      character at either end, compares the two end characters lower-cased,
      and recurses on the inside. The result is whether the lower-cased
      alphanumeric characters of the window read the same backward as
      forward. */
  function CheckPalindrome(s: seq<char>, leftPointer: int, rightPointer: int): (b: bool)
    requires 0 <= leftPointer && rightPointer < |s|
    ensures b == IsPalindrome(Lowered(Alnums(s, leftPointer, rightPointer)))
    decreases rightPointer - leftPointer
  {
    if leftPointer >= rightPointer then
      ShortWindow(s, leftPointer, rightPointer);
      true
    else if !IsAlphanumeric(s[leftPointer]) then
      DropFirst(s, leftPointer, rightPointer);
      CheckPalindrome(s, leftPointer + 1, rightPointer)
    else if !IsAlphanumeric(s[rightPointer]) then
      DropLast(s, leftPointer, rightPointer);
      CheckPalindrome(s, leftPointer, rightPointer - 1)
    else
      var inner := Alnums(s, leftPointer + 1, rightPointer - 1);
      PeelEnds(s, leftPointer, rightPointer);
      LoweredEnds(s[leftPointer], inner, s[rightPointer]);
      PalindromeEnds(ToLower(s[leftPointer]), Lowered(inner), ToLower(s[rightPointer]));
      if ToLower(s[leftPointer]) != ToLower(s[rightPointer]) then
        false
      else
        CheckPalindrome(s, leftPointer + 1, rightPointer - 1)
  }

  /** `recursive`: checkPalindrome over the whole string. The result is
      whether the lower-cased alphanumeric characters of `s` read the same
      backward as forward. */
  function Recursive(s: seq<char>): (b: bool)
    ensures b == IsPalindrome(Lowered(Filter(s)))
  {
    CheckPalindrome(s, 0, |s| - 1)
  }

  // ---------------------------------------------------------------------------
  // The two strategies compared

  /** Without upper-case letters, lower-casing changes nothing. */
  lemma LoweredWithoutUpperCase(u: seq<char>)
    requires forall k :: 0 <= k < |u| ==> !('A' <= u[k] <= 'Z')
    ensures Lowered(u) == u
  {
  }

  /** On the inputs the problem admits (lower-case letters, digits, spaces
      and punctuation) the two strategies agree. */
  lemma StrategiesAgreeWithoutUpperCase(s: seq<char>)
    requires forall k :: 0 <= k < |s| ==> !('A' <= s[k] <= 'Z')
    ensures Recursive(s) == IsPalindrome(Filter(s))
  {
    var u := Filter(s);
    FilterMembers(s);
    forall k | 0 <= k < |u| ensures !('A' <= u[k] <= 'Z') {
      assert u[k] in s;
    }
    LoweredWithoutUpperCase(u);
  }

  /** Outside those inputs they differ: `"Aa"` passes the recursive check but
      not the two-pointer one. */
  lemma StrategiesDifferOnCase()
    ensures !IsPalindrome(Filter("Aa"))
    ensures Recursive("Aa")
  {
    assert Filter("Aa") == "Aa";
    assert Lowered("Aa") == "aa";
  }

  // ---------------------------------------------------------------------------
  // The examples the repository checks both strategies against

  /** The empty string, one or two equal characters, and punctuation alone
      are valid palindromes; `"ab"` is not. */
  lemma ShortFixtures()
    ensures IsPalindrome(Filter("")) && Recursive("")
    ensures IsPalindrome(Filter("a")) && Recursive("a")
    ensures IsPalindrome(Filter("aa")) && Recursive("aa")
    ensures !IsPalindrome(Filter("ab")) && !Recursive("ab")
    ensures IsPalindrome(Filter("!, (?)")) && Recursive("!, (?)")
  {
    assert Alnums("!, (?)", 0, 5) == [];
  }

  /** `twoPointers` on "12.02.2021", replayed one pointer move at a time. */
  lemma DateWalk(x: seq<char>)
    requires x == "12.02.2021"
    ensures IsPalindrome(Filter(x))
  {
    EndsStep(x, 0, 9);
    EndsStep(x, 1, 8);
    DropFirst(x, 2, 7);
    EndsStep(x, 3, 7);
    EndsStep(x, 4, 6);
    ShortWindow(x, 5, 5);
  }

  /** `"12.02.2021"` is a valid palindrome for both strategies. */
  lemma DateFixture(x: seq<char>)
    requires x == "12.02.2021"
    ensures IsPalindrome(Filter(x)) && Recursive(x)
  {
    DateWalk(x);
    assert forall k :: 0 <= k < |x| ==> !('A' <= x[k] <= 'Z');
    StrategiesAgreeWithoutUpperCase(x);
  }

  /** `twoPointers` on "21.02.2021", replayed one pointer move at a time. */
  lemma SwappedDateWalk(x: seq<char>)
    requires x == "21.02.2021"
    ensures !IsPalindrome(Filter(x))
  {
    EndsStep(x, 0, 9);
  }

  /** `"21.02.2021"` is not, for either strategy. */
  lemma SwappedDateFixture(x: seq<char>)
    requires x == "21.02.2021"
    ensures !IsPalindrome(Filter(x)) && !Recursive(x)
  {
    SwappedDateWalk(x);
    assert forall k :: 0 <= k < |x| ==> !('A' <= x[k] <= 'Z');
    StrategiesAgreeWithoutUpperCase(x);
  }

  /** `twoPointers` on "hello, world!", replayed one pointer move at a time. */
  lemma GreetingWalk(x: seq<char>)
    requires x == "hello, world!"
    ensures !IsPalindrome(Filter(x))
  {
    DropLast(x, 0, 12);
    EndsStep(x, 0, 11);
  }

  /** `"hello, world!"` is not, for either strategy. */
  lemma GreetingFixture(x: seq<char>)
    requires x == "hello, world!"
    ensures !IsPalindrome(Filter(x)) && !Recursive(x)
  {
    GreetingWalk(x);
    assert forall k :: 0 <= k < |x| ==> !('A' <= x[k] <= 'Z');
    StrategiesAgreeWithoutUpperCase(x);
  }

  /** The characters of "a dog! a panic in a pagoda", word by word. */
  lemma PagodaCharacters(x: seq<char>)
    requires x == "a dog! a panic in a pagoda"
    ensures |x| == 26
    ensures x[0] == 'a' && x[1] == ' '
    ensures x[2] == 'd' && x[3] == 'o' && x[4] == 'g' && x[5] == '!' && x[6] == ' '
    ensures x[7] == 'a' && x[8] == ' '
    ensures x[9] == 'p' && x[10] == 'a' && x[11] == 'n' && x[12] == 'i' && x[13] == 'c' && x[14] == ' '
    ensures x[15] == 'i' && x[16] == 'n' && x[17] == ' '
    ensures x[18] == 'a' && x[19] == ' '
    ensures x[20] == 'p' && x[21] == 'a' && x[22] == 'g' && x[23] == 'o' && x[24] == 'd' && x[25] == 'a'
  {
    assert x[0] == 'a';
    assert x[1] == ' ';
    assert x[2] == 'd';
    assert x[3] == 'o';
    assert x[4] == 'g';
    assert x[5] == '!';
    assert x[6] == ' ';
    assert x[7] == 'a';
    assert x[8] == ' ';
    assert x[9] == 'p';
    assert x[10] == 'a';
    assert x[11] == 'n';
    assert x[12] == 'i';
    assert x[13] == 'c';
    assert x[14] == ' ';
    assert x[15] == 'i';
    assert x[16] == 'n';
    assert x[17] == ' ';
    assert x[18] == 'a';
    assert x[19] == ' ';
    assert x[20] == 'p';
    assert x[21] == 'a';
    assert x[22] == 'g';
    assert x[23] == 'o';
    assert x[24] == 'd';
    assert x[25] == 'a';
  }

  /** `twoPointers` on "a dog! a panic in a pagoda", moves 1 to 2 of 17: from positions 0 and 25 to 2 and 24. */
  lemma PagodaStage0(x: seq<char>)
    requires |x| == 26 && x[0] == 'a' && x[1] == ' ' && x[25] == 'a'
    ensures IsPalindrome(Alnums(x, 0, 25)) == IsPalindrome(Alnums(x, 2, 24))
  {
    EndsStep(x, 0, 25);
    DropFirst(x, 1, 24);
  }

  /** `twoPointers` on "a dog! a panic in a pagoda", moves 3 to 4 of 17: from positions 2 and 24 to 4 and 22. */
  lemma PagodaStage1(x: seq<char>)
    requires |x| == 26 && x[2] == 'd' && x[3] == 'o' && x[23] == 'o' && x[24] == 'd'
    ensures IsPalindrome(Alnums(x, 2, 24)) == IsPalindrome(Alnums(x, 4, 22))
  {
    EndsStep(x, 2, 24);
    EndsStep(x, 3, 23);
  }

  /** `twoPointers` on "a dog! a panic in a pagoda", moves 5 to 6 of 17: from positions 4 and 22 to 6 and 21. */
  lemma PagodaStage2(x: seq<char>)
    requires |x| == 26 && x[4] == 'g' && x[5] == '!' && x[22] == 'g'
    ensures IsPalindrome(Alnums(x, 4, 22)) == IsPalindrome(Alnums(x, 6, 21))
  {
    EndsStep(x, 4, 22);
    DropFirst(x, 5, 21);
  }

  /** `twoPointers` on "a dog! a panic in a pagoda", moves 7 to 8 of 17: from positions 6 and 21 to 8 and 20. */
  lemma PagodaStage3(x: seq<char>)
    requires |x| == 26 && x[6] == ' ' && x[7] == 'a' && x[21] == 'a'
    ensures IsPalindrome(Alnums(x, 6, 21)) == IsPalindrome(Alnums(x, 8, 20))
  {
    DropFirst(x, 6, 21);
    EndsStep(x, 7, 21);
  }

  /** `twoPointers` on "a dog! a panic in a pagoda", moves 9 to 10 of 17: from positions 8 and 20 to 10 and 19. */
  lemma PagodaStage4(x: seq<char>)
    requires |x| == 26 && x[8] == ' ' && x[9] == 'p' && x[20] == 'p'
    ensures IsPalindrome(Alnums(x, 8, 20)) == IsPalindrome(Alnums(x, 10, 19))
  {
    DropFirst(x, 8, 20);
    EndsStep(x, 9, 20);
  }

  /** `twoPointers` on "a dog! a panic in a pagoda", moves 11 to 12 of 17: from positions 10 and 19 to 11 and 17. */
  lemma PagodaStage5(x: seq<char>)
    requires |x| == 26 && x[10] == 'a' && x[18] == 'a' && x[19] == ' '
    ensures IsPalindrome(Alnums(x, 10, 19)) == IsPalindrome(Alnums(x, 11, 17))
  {
    DropLast(x, 10, 19);
    EndsStep(x, 10, 18);
  }

  /** `twoPointers` on "a dog! a panic in a pagoda", moves 13 to 14 of 17: from positions 11 and 17 to 12 and 15. */
  lemma PagodaStage6(x: seq<char>)
    requires |x| == 26 && x[11] == 'n' && x[16] == 'n' && x[17] == ' '
    ensures IsPalindrome(Alnums(x, 11, 17)) == IsPalindrome(Alnums(x, 12, 15))
  {
    DropLast(x, 11, 17);
    EndsStep(x, 11, 16);
  }

  /** `twoPointers` on "a dog! a panic in a pagoda", moves 15 to 17 of 17: from positions 12 and 15 to 14 and 12. */
  lemma PagodaStage7(x: seq<char>)
    requires |x| == 26 && x[12] == 'i' && x[13] == 'c' && x[14] == ' ' && x[15] == 'i'
    ensures IsPalindrome(Alnums(x, 12, 15)) == IsPalindrome(Alnums(x, 14, 12))
  {
    EndsStep(x, 12, 15);
    DropLast(x, 13, 14);
    EndsStep(x, 13, 13);
  }

  /** `twoPointers` on "a dog! a panic in a pagoda", replayed stage by stage. */
  lemma PagodaWalk(x: seq<char>)
    requires x == "a dog! a panic in a pagoda"
    ensures IsPalindrome(Filter(x))
  {
    PagodaCharacters(x);
    PagodaStage0(x);
    PagodaStage1(x);
    PagodaStage2(x);
    PagodaStage3(x);
    PagodaStage4(x);
    PagodaStage5(x);
    PagodaStage6(x);
    PagodaStage7(x);
    ShortWindow(x, 14, 12);
  }

  /** `"a dog! a panic in a pagoda"` is a valid palindrome for both strategies. */
  lemma PagodaFixture(x: seq<char>)
    requires x == "a dog! a panic in a pagoda"
    ensures IsPalindrome(Filter(x)) && Recursive(x)
  {
    PagodaWalk(x);
    assert forall k :: 0 <= k < |x| ==> !('A' <= x[k] <= 'Z');
    StrategiesAgreeWithoutUpperCase(x);
  }
}
