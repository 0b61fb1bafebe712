/**
 * Question 3: keeping the even numbers of a list, in their original order.
 * A null input list is `None`.
 */
module EvenNumbers {
  import opened Results

  /** C#'s `/` on `int`: the quotient truncated toward zero. */
  function TruncatedQuotient(a: int, b: int): int
    requires b > 0
  {
    if a >= 0 then a / b else -((-a) / b)
  }

  /**
   * C#'s `%` on `int`: the quotient is truncated toward zero, so the
   * remainder has the sign of the dividend (Dafny's `%` is never negative).
   */
  function TruncatedRemainder(a: int, b: int): (r: int)
    requires b > 0
    ensures a == b * TruncatedQuotient(a, b) + r
    ensures a >= 0 ==> 0 <= r < b
    ensures a < 0 ==> -b < r <= 0
  {
    if a >= 0 then a % b else -((-a) % b)
  }

  /** The source's test `number % 2 == 0`. */
  predicate IsEven(n: int) {
    TruncatedRemainder(n, 2) == 0
  }

  /** The truncating and the Euclidean remainder agree on whether 2 divides `n`. */
  lemma IsEvenEuclidean(n: int)
    ensures IsEven(n) <==> n % 2 == 0
  {
  }

  /** The reference filter: the even elements of `s`, in order, built from the back. */
  function Evens(s: seq<int>): seq<int> {
    if s == [] then []
    else Evens(s[..|s| - 1]) + (if IsEven(s[|s| - 1]) then [s[|s| - 1]] else [])
  }

  /** Filtering distributes over concatenation. */
  lemma {:induction false} EvensAppend(s: seq<int>, t: seq<int>)
    ensures Evens(s + t) == Evens(s) + Evens(t)
  {
    if t == [] {
      assert s + t == s;
    } else {
      var init := t[..|t| - 1];
      EvensAppend(s, init);
      assert (s + t)[..|s + t| - 1] == s + init;
    }
  }

  /** Exactly the even elements survive: membership in both directions. */
  lemma {:induction false} EvensMembership(s: seq<int>, x: int)
    ensures x in Evens(s) <==> x in s && IsEven(x)
  {
    if s != [] {
      var init := s[..|s| - 1];
      EvensMembership(init, x);
      assert s == init + [s[|s| - 1]];
    }
  }

  /** Each even value occurs as often as in the input; odd values not at all. */
  lemma {:induction false} EvensMultiplicity(s: seq<int>, x: int)
    ensures multiset(Evens(s))[x] == if IsEven(x) then multiset(s)[x] else 0
  {
    if s != [] {
      var init := s[..|s| - 1];
      EvensMultiplicity(init, x);
      assert s == init + [s[|s| - 1]];
    }
  }

  /**
   * `sub` can be obtained from `s` by deleting elements: matching greedily
   * from the back, each element of `sub` is found at a strictly earlier
   * position of `s` than the one after it.
   */
  predicate IsSubsequence(sub: seq<int>, s: seq<int>)
    decreases |s|
  {
    if sub == [] then true
    else if s == [] then false
    else if sub[|sub| - 1] == s[|s| - 1] then IsSubsequence(sub[..|sub| - 1], s[..|s| - 1])
    else IsSubsequence(sub, s[..|s| - 1])
  }

  /** The filter keeps the relative order of the elements it keeps. */
  lemma {:induction false} EvensInOrder(s: seq<int>)
    ensures IsSubsequence(Evens(s), s)
  {
    if s != [] {
      var init := s[..|s| - 1];
      EvensInOrder(init);
      var last := s[|s| - 1];
      if IsEven(last) {
        assert Evens(s)[..|Evens(s)| - 1] == Evens(init);
      } else if Evens(init) != [] {
        var e := Evens(init);
        EvensMembership(init, e[|e| - 1]);
        assert e[|e| - 1] != last;
        assert Evens(s) == e;
      }
    }
  }

  /** Filtering an already filtered list changes nothing. */
  lemma {:induction false} EvensIdempotent(s: seq<int>)
    ensures Evens(Evens(s)) == Evens(s)
  {
    if s != [] {
      var init := s[..|s| - 1];
      var last := s[|s| - 1];
      EvensIdempotent(init);
      EvensAppend(Evens(init), if IsEven(last) then [last] else []);
      assert Evens([last]) == if IsEven(last) then [last] else [] by {
        assert [last][..0] == [];
      }
    }
  }

  /**
   * Builds a new list by appending every element whose remainder by 2 is
   * zero; a null input gives an empty list.
   */
  method GetEvenNumbers(numbers: Option<seq<int>>) returns (evenNumbers: seq<int>)
    ensures numbers.None? ==> evenNumbers == []
    ensures numbers.Some? ==> evenNumbers == Evens(numbers.value)
  {
    evenNumbers := [];
    if numbers.None? {
      return;
    }
    var s := numbers.value;
    for i := 0 to |s|
      invariant evenNumbers == Evens(s[..i])
    {
      var number := s[i];
      assert s[..i + 1][..i] == s[..i];
      if TruncatedRemainder(number, 2) == 0 {
        evenNumbers := evenNumbers + [number];
      }
    }
    assert s[..|s|] == s;
  }

  /** Filtering [1, 2, 3, 4, 5, 6] gives [2, 4, 6]. */
  lemma EvensOfOneToSix()
    ensures Evens([1, 2, 3, 4, 5, 6]) == [2, 4, 6]
  {
    assert [1, 2, 3, 4, 5, 6][..5] == [1, 2, 3, 4, 5];
    assert [1, 2, 3, 4, 5][..4] == [1, 2, 3, 4];
    assert [1, 2, 3, 4][..3] == [1, 2, 3];
    assert [1, 2, 3][..2] == [1, 2];
    assert [1, 2][..1] == [1];
    assert [1][..0] == [];
    assert Evens([1]) == [];
    assert Evens([1, 2]) == [2];
    assert Evens([1, 2, 3]) == [2];
    assert Evens([1, 2, 3, 4]) == [2, 4];
    assert Evens([1, 2, 3, 4, 5]) == [2, 4];
  }
}
