/**
 * Question 4: an append-only list whose capacity is fixed when it is built.
 * The backing array is `readonly` in the source, so it is a `const` field
 * here: its identity, and with it the capacity, can never change.
 */
module FixedSizeLists {
  import opened Results

  class FixedSizeList<T(0)> {
    const items: array<T>
    var count: int

    /** Object invariant: a positive capacity and a count within it. */
    ghost predicate Valid()
      reads this
    {
      0 < items.Length && 0 <= count <= items.Length
    }

    /** The elements added so far, in the order they were added. */
    ghost function Contents(): seq<T>
      reads this, items
      requires Valid()
    {
      items[..count]
    }

    /**
     * The constructor once the capacity has been checked: an empty list
     * over a fresh, default-filled array of that length.
     */
    constructor (capacity: int)
      requires capacity > 0
      ensures Valid() && fresh(items)
      ensures Capacity() == capacity && Contents() == []
    {
      items := new T[capacity];
      count := 0;
    }

    /**
     * The C# constructor: a non-positive capacity is an invalid argument;
     * otherwise a fresh empty list of that capacity.
     */
    static method New(capacity: int) returns (r: Result<FixedSizeList<T>>)
      ensures r.Err? <==> capacity <= 0
      ensures r.Err? ==> r.error == InvalidArgument
      ensures r.Ok? ==> fresh(r.value) && fresh(r.value.items) && r.value.Valid()
      ensures r.Ok? ==> r.value.Capacity() == capacity && r.value.Count() == 0
    {
      if capacity <= 0 {
        return Err(InvalidArgument);
      }
      var list := new FixedSizeList(capacity);
      return Ok(list);
    }

    /** How many elements the list can ever hold; always positive and never below Count. */
    function Capacity(): (c: int)
      reads this
      requires Valid()
      ensures 0 < c && Count() <= c
    {
      items.Length
    }

    /** The number of elements added so far. */
    function Count(): (n: int)
      reads this, items
      requires Valid()
      ensures n == |Contents()|
    {
      count
    }

    /**
     * Appends `item`. A full list reports ListFull and is left exactly as it
     * was; otherwise `item` goes to slot `Count` and nothing else changes.
     */
    method Add(item: T) returns (outcome: Outcome)
      requires Valid()
      modifies this, items
      ensures Valid()
      ensures outcome.Fail? <==> old(Count()) == Capacity()
      ensures outcome.Fail? ==> outcome.error == ListFull
      ensures outcome.Fail? ==> count == old(count) && items[..] == old(items[..])
      ensures outcome.Pass? ==> count == old(count) + 1 && items[..] == old(items[..])[old(count) := item]
      ensures Contents() == if outcome.Pass? then old(Contents()) + [item] else old(Contents())
    {
      if count >= items.Length {
        return Fail(ListFull);
      }
      items[count] := item;
      count := count + 1;
      return Pass;
    }

    /**
     * The element at `index`, which is the item passed to the (index+1)-th
     * successful Add; an index outside [0, Count) reports IndexOutOfRange.
     */
    method Get(index: int) returns (r: Result<T>)
      requires Valid()
      ensures r.Err? <==> index < 0 || index >= Count()
      ensures r.Err? ==> r.error == IndexOutOfRange
      ensures r.Ok? ==> r.value == Contents()[index]
    {
      if index < 0 || index >= count {
        return Err(IndexOutOfRange);
      }
      return Ok(items[index]);
    }
  }

  /**
   * A list of capacity 3 takes three items, refuses a fourth, and hands the
   * three back in the order they were added.
   */
  method FillToCapacity(a: int, b: int, c: int, d: int)
  {
    var made := FixedSizeList<int>.New(3);
    var list := made.value;
    var o1 := list.Add(a);
    var o2 := list.Add(b);
    var o3 := list.Add(c);
    var o4 := list.Add(d);
    assert o1 == o2 == o3 == Pass && o4 == Fail(ListFull);
    var g0 := list.Get(0);
    var g2 := list.Get(2);
    var g3 := list.Get(3);
    assert g0 == Ok(a) && g2 == Ok(c) && g3 == Err(IndexOutOfRange);
    var zero := FixedSizeList<int>.New(0);
    assert zero == Err(InvalidArgument);
  }
}
