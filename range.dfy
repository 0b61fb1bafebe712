/**
 * Question 1: an immutable closed interval [Minimum, Maximum].
 * The generic C# class is modelled over `int`; its comparisons go through
 * `CompareTo`, which has the sign semantics of .NET's `int.CompareTo`.
 */
module Ranges {
  import opened Results

  /** .NET's `int.CompareTo`: negative, zero or positive as `a` is below, equal to or above `b`. */
  function CompareTo(a: int, b: int): (c: int)
    ensures c < 0 <==> a < b
    ensures c == 0 <==> a == b
    ensures c > 0 <==> a > b
  {
    if a < b then -1 else if a > b then 1 else 0
  }

  /** The two get-only properties of a range; a datatype value is never updated. */
  datatype Range = Range(Minimum: int, Maximum: int)

  /** The invariant the constructor establishes. */
  predicate Valid(r: Range) {
    r.Minimum <= r.Maximum
  }

  /** Every range the constructor can hand out. */
  type ValidRange = r: Range | Valid(r) witness Range(0, 0)

  /**
   * The constructor: rejects inverted bounds with an invalid-argument error,
   * otherwise keeps both bounds as given.
   */
  function NewRange(min: int, max: int): (r: Result<ValidRange>)
    ensures r.Err? <==> min > max
    ensures r.Err? ==> r.error == InvalidArgument
    ensures r.Ok? ==> r.value.Minimum == min && r.value.Maximum == max
  {
    if CompareTo(min, max) > 0 then Err(InvalidArgument) else Ok(Range(min, max))
  }

  /** Membership with both ends included. */
  function IsInRange(r: ValidRange, value: int): (b: bool)
    ensures b <==> r.Minimum <= value <= r.Maximum
  {
    CompareTo(value, r.Minimum) >= 0 && CompareTo(value, r.Maximum) <= 0
  }

  /** Both bounds of a range that was built successfully lie in it. */
  lemma EndpointsInRange(min: int, max: int)
    requires NewRange(min, max).Ok?
    ensures IsInRange(NewRange(min, max).value, min)
    ensures IsInRange(NewRange(min, max).value, max)
  {
  }

  /** Values just outside either bound are not in the range. */
  lemma NeighboursOutsideRange(r: ValidRange)
    ensures !IsInRange(r, r.Minimum - 1)
    ensures !IsInRange(r, r.Maximum + 1)
  {
  }

  /** Every valid range is what the constructor builds from its own bounds. */
  lemma NewRangeOfBounds(r: ValidRange)
    ensures NewRange(r.Minimum, r.Maximum) == Ok(r)
  {
  }
}
