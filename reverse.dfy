/**
 * Question 2: reversing a list in place. The source's `ArrayList` holds
 * `object`s only by accident and its length does not change while it is
 * reversed, so it is an `array<T>` here; a null list is `null`.
 */
module ListReversal {

  /** The reference reversal: the last element first, then the rest reversed. */
  function Reversed<T>(s: seq<T>): (r: seq<T>)
    ensures |r| == |s|
  {
    if s == [] then [] else [s[|s| - 1]] + Reversed(s[..|s| - 1])
  }

  /** Position `i` of the reversal holds position `|s| - 1 - i` of the original. */
  lemma {:induction false} ReversedAt<T>(s: seq<T>, i: int)
    requires 0 <= i < |s|
    ensures Reversed(s)[i] == s[|s| - 1 - i]
  {
    if i > 0 {
      ReversedAt(s[..|s| - 1], i - 1);
    }
  }

  /** Reversing twice gives back the original. */
  lemma ReversedTwice<T>(s: seq<T>)
    ensures Reversed(Reversed(s)) == s
  {
    forall i | 0 <= i < |s|
      ensures Reversed(Reversed(s))[i] == s[i]
    {
      ReversedAt(Reversed(s), i);
      ReversedAt(s, |s| - 1 - i);
    }
  }

  /** Reversal only reorders: every element keeps its multiplicity. */
  lemma {:induction false} ReversedPermutes<T>(s: seq<T>)
    ensures multiset(Reversed(s)) == multiset(s)
  {
    if s != [] {
      var init := s[..|s| - 1];
      ReversedPermutes(init);
      assert s == init + [s[|s| - 1]];
    }
  }

  /** Lists of length 0 or 1 are their own reversal. */
  lemma ShortListsFixed<T>(s: seq<T>)
    requires |s| <= 1
    ensures Reversed(s) == s
  {
  }

  /**
   * Swaps slots symmetrically about the midpoint. A null list is left
   * alone; otherwise the list ends up as the reversal of what it held.
   */
  method ReverseArrayListInPlace<T>(list: array?<T>)
    modifies list
    ensures list != null ==> list[..] == Reversed(old(list[..]))
  {
    if list == null {
      return;
    }
    var n := list.Length;
    for i := 0 to n / 2
      invariant forall k :: 0 <= k < i ==> list[k] == old(list[n - 1 - k]) && list[n - 1 - k] == old(list[k])
      invariant forall k :: i <= k < n - i ==> list[k] == old(list[k])
    {
      var temp := list[i];
      list[i] := list[n - 1 - i];
      list[n - 1 - i] := temp;
    }
    ghost var before := old(list[..]);
    forall k | 0 <= k < n
      ensures list[..][k] == Reversed(before)[k]
    {
      ReversedAt(before, k);
    }
  }

  /** Reversing [1, 2, 3, 4] gives [4, 3, 2, 1]. */
  method ReverseFour()
  {
    var list := new int[4] [1, 2, 3, 4];
    assert list[..] == [1, 2, 3, 4];
    ReverseArrayListInPlace(list);
    ReversedAt([1, 2, 3, 4], 0);
    ReversedAt([1, 2, 3, 4], 1);
    ReversedAt([1, 2, 3, 4], 2);
    ReversedAt([1, 2, 3, 4], 3);
    assert list[..] == [4, 3, 2, 1];
  }
}
