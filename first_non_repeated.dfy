/**
 * Question 5: the index of the first character that occurs exactly once in
 * a string, or -1. A null string is `None`; characters are Dafny `char`s
 * (Unicode scalar values), compared exactly (case-sensitive).
 */
module NonRepeated {
  import opened Results

  /** How often `c` occurs in `s`. */
  function Occurrences(s: string, c: char): nat {
    multiset(s)[c]
  }

  /** The reference definition: scanning from `from`, the first unique position, or -1. */
  function FirstUniqueFrom(s: string, from: nat): (r: int)
    decreases |s| - from
  {
    if from >= |s| then -1
    else if Occurrences(s, s[from]) == 1 then from
    else FirstUniqueFrom(s, from + 1)
  }

  /** The first position of `s` whose character is unique, or -1 when there is none. */
  function FirstUnique(s: string): int {
    FirstUniqueFrom(s, 0)
  }

  /**
   * Scanning from `from` finds the first unique position at or after `from`,
   * or -1 exactly when there is none there.
   */
  lemma {:induction false} FirstUniqueFromCharacterised(s: string, from: nat)
    requires from <= |s|
    ensures var r := FirstUniqueFrom(s, from);
      && -1 <= r < |s|
      && (r == -1 <==> forall j :: from <= j < |s| ==> Occurrences(s, s[j]) != 1)
      && (r != -1 ==> from <= r && Occurrences(s, s[r]) == 1)
      && (r != -1 ==> forall j :: from <= j < r ==> Occurrences(s, s[j]) != 1)
    decreases |s| - from
  {
    if from < |s| && Occurrences(s, s[from]) != 1 {
      FirstUniqueFromCharacterised(s, from + 1);
    }
  }

  /**
   * The result lies in [-1, |s|); it is -1 exactly when no character of `s`
   * is unique, and otherwise the smallest index whose character is unique.
   */
  lemma FirstUniqueCharacterised(s: string)
    ensures -1 <= FirstUnique(s) < |s|
    ensures FirstUnique(s) == -1 <==> forall j :: 0 <= j < |s| ==> Occurrences(s, s[j]) != 1
    ensures FirstUnique(s) != -1 ==> Occurrences(s, s[FirstUnique(s)]) == 1
    ensures FirstUnique(s) != -1 ==> forall j :: 0 <= j < FirstUnique(s) ==> Occurrences(s, s[j]) != 1
  {
    FirstUniqueFromCharacterised(s, 0);
  }

  /**
   * Counts every character into a dictionary, then returns the first index
   * whose character has count 1. Null or empty input gives -1.
   */
  method FirstNonRepeatedCharIndex(input: Option<string>) returns (index: int)
    ensures input.None? ==> index == -1
    ensures input.Some? ==> index == FirstUnique(input.value)
  {
    if input.None? || input.value == "" {
      return -1;
    }
    var s := input.value;

    // First pass: count character frequencies.
    var charCounts: map<char, int> := map[];
    for i := 0 to |s|
      invariant forall c :: c in charCounts <==> c in multiset(s[..i])
      invariant forall c :: c in charCounts ==> charCounts[c] == multiset(s[..i])[c]
    {
      var c := s[i];
      assert s[..i + 1] == s[..i] + [c];
      if c in charCounts {
        charCounts := charCounts[c := charCounts[c] + 1];
      } else {
        charCounts := charCounts[c := 1];
      }
    }
    assert s[..|s|] == s;

    // Second pass: the first character whose count is 1.
    for i := 0 to |s|
      invariant FirstUniqueFrom(s, i) == FirstUnique(s)
    {
      assert s[i] in multiset(s);
      if charCounts[s[i]] == 1 {
        return i;
      }
    }
    return -1;
  }

  /** An empty string has no unique character. */
  lemma EmptyHasNone()
    ensures FirstUnique("") == -1
  {
  }

  /** In "aabb" every character occurs twice. */
  lemma AabbHasNone()
    ensures FirstUnique("aabb") == -1
  {
  }

  /** In "swiss" the first unique character is the 'w' at index 1. */
  lemma SwissGivesOne()
    ensures FirstUnique("swiss") == 1
  {
  }
}
