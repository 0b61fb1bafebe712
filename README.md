# C44-G02-ADV01 exercises in Dafny

A model of the five exercises in `C44-G02-ADV01/Program.cs`, with proofs of
what each one promises:

- **Range** (`range.dfy`, module `Ranges`): an immutable closed interval. The
  constructor rejects inverted bounds. `IsInRange` tests membership with both
  ends included.
- **FixedSizeList** (`fixed_size_list.dfy`, module `FixedSizeLists`): an
  append-only list over a `readonly` array. `Add` fails on a full list. `Get`
  is bounds-checked. The class keeps the array and the counter of the source.
  A ghost `Contents()` gives the elements added so far.
- **ReverseArrayListInPlace** (`reverse.dfy`, module `ListReversal`): swaps
  array slots about the midpoint in a `for` loop. It is proved to produce the
  reference reversal `Reversed`.
- **GetEvenNumbers** (`even_numbers.dfy`, module `EvenNumbers`): a loop that
  appends every element whose C# remainder by 2 is zero. It is proved equal
  to the reference filter `Evens`. Lemmas about `Evens` show it keeps exactly
  the even elements, with their multiplicities and in their order.
- **FirstNonRepeatedCharIndex** (`first_non_repeated.dfy`, module
  `NonRepeated`): a counting pass into a `map<char, int>`, then a scan for the
  first count of 1. It is proved equal to the reference `FirstUnique`, which
  is characterised by occurrence counts (`multiset`).

`results.dfy` (module `Results`) holds the error kinds. Each .NET exception
the source throws is a variant of `Error`: `InvalidArgument`, `ListFull` or
`IndexOutOfRange`. An operation that can throw returns a `Result` or an
`Outcome`. A C# reference that may be null is an `Option` (`array?` for the
list that is reversed).

For `"swiss"` the function returns `1`, the index of the `'w'`;
`NonRepeated.SwissGivesOne` proves it.

Two client methods without contracts of their own show the contracts in
use: `FixedSizeLists.FillToCapacity` builds a list of capacity 3, adds three
items, sees a fourth refused and reads the three back in order, and
`ListReversal.ReverseFour` reverses `[1, 2, 3, 4]` into `[4, 3, 2, 1]`.

## Model

| member | source | states |
|---|---|---|
| `Ranges.CompareTo` | C44-G02-ADV01/Program.cs:23 | the sign of the .NET comparison is negative, zero or positive exactly when the first value is below, equal to or above the second |
| `Ranges.NewRange` | C44-G02-ADV01/Program.cs:17-29 | construction fails with InvalidArgument exactly when min > max; otherwise the range holds min and max unchanged, and it satisfies Minimum <= Maximum by its type |
| `Ranges.IsInRange` | C44-G02-ADV01/Program.cs:32-37 | true exactly when Minimum <= value <= Maximum, both ends included |
| `Ranges.EndpointsInRange` | C44-G02-ADV01/Program.cs:17-37 | both bounds of every successfully built range are in it |
| `Ranges.NeighboursOutsideRange` | C44-G02-ADV01/Program.cs:32-37 | Minimum - 1 and Maximum + 1 are not in a valid range |
| `Ranges.NewRangeOfBounds` | C44-G02-ADV01/Program.cs:17-29 | every valid range is exactly what the constructor builds from its own bounds |
| `FixedSizeLists.FixedSizeList.constructor` | C44-G02-ADV01/Program.cs:67-68 | for a positive capacity: a fresh array of that length, Count 0, empty contents, invariant established |
| `FixedSizeLists.FixedSizeList.New` | C44-G02-ADV01/Program.cs:61-69 | fails with InvalidArgument exactly when capacity <= 0; otherwise a fresh valid list with Capacity == capacity and Count == 0 |
| `FixedSizeLists.FixedSizeList.Capacity` | C44-G02-ADV01/Program.cs:57 | the capacity is positive and never below Count |
| `FixedSizeLists.FixedSizeList.Count` | C44-G02-ADV01/Program.cs:58 | Count is the number of elements added so far |
| `FixedSizeLists.FixedSizeList.Add` | C44-G02-ADV01/Program.cs:72-80 | fails with ListFull exactly when Count == Capacity, and then leaves count and array unchanged; otherwise writes the item at the old Count, touches no other slot, and increases Count by one; contents grow by exactly the item; 0 <= Count <= Capacity is kept |
| `FixedSizeLists.FixedSizeList.Get` | C44-G02-ADV01/Program.cs:83-90 | fails with IndexOutOfRange exactly when index < 0 or index >= Count; otherwise returns the element added (index+1)-th; changes nothing |
| `ListReversal.Reversed` | C44-G02-ADV01/Program.cs:98-110 | reversal keeps the length |
| `ListReversal.ReversedAt` | C44-G02-ADV01/Program.cs:106-108 | slot i of the reversal holds slot n-1-i of the original |
| `ListReversal.ReversedTwice` | C44-G02-ADV01/Program.cs:98-110 | reversing twice gives back the original |
| `ListReversal.ReversedPermutes` | C44-G02-ADV01/Program.cs:98-110 | reversal is a permutation: every element keeps its multiplicity |
| `ListReversal.ShortListsFixed` | C44-G02-ADV01/Program.cs:102-103 | lists of length 0 or 1 are their own reversal |
| `ListReversal.ReverseArrayListInPlace` | C44-G02-ADV01/Program.cs:98-110 | a null list is left alone; otherwise the list afterwards is the reversal of the list before, so list[i] == old(list[n-1-i]) |
| `EvenNumbers.TruncatedRemainder` | C44-G02-ADV01/Program.cs:122 | the C# remainder: a == b * q + r for the quotient q truncated toward zero, with r in [0, b) for a non-negative dividend and in (-b, 0] for a negative one |
| `EvenNumbers.IsEvenEuclidean` | C44-G02-ADV01/Program.cs:122 | the C# test `number % 2 == 0` agrees with Dafny's Euclidean remainder for every int |
| `EvenNumbers.EvensAppend` | C44-G02-ADV01/Program.cs:120-126 | filtering distributes over concatenation |
| `EvenNumbers.EvensMembership` | C44-G02-ADV01/Program.cs:120-126 | a value is in the result exactly when it is in the input and even |
| `EvenNumbers.EvensMultiplicity` | C44-G02-ADV01/Program.cs:120-126 | each even value occurs in the result as often as in the input; odd values not at all |
| `EvenNumbers.EvensInOrder` | C44-G02-ADV01/Program.cs:120-126 | the result is a subsequence of the input: relative order is kept |
| `EvenNumbers.EvensIdempotent` | C44-G02-ADV01/Program.cs:115-128 | filtering the result again changes nothing |
| `EvenNumbers.GetEvenNumbers` | C44-G02-ADV01/Program.cs:115-128 | a null input gives the empty list; otherwise the list the loop builds is the reference filter of the input |
| `EvenNumbers.EvensOfOneToSix` | C44-G02-ADV01/Program.cs:115-128 | filtering [1, 2, 3, 4, 5, 6] gives [2, 4, 6] |
| `NonRepeated.FirstUniqueFromCharacterised` | C44-G02-ADV01/Program.cs:156-164 | a scan from a start position returns the first position at or after it whose character occurs once, or -1 exactly when there is none |
| `NonRepeated.FirstUniqueCharacterised` | C44-G02-ADV01/Program.cs:133-165 | the answer lies in [-1, length); it is -1 exactly when no character occurs once, otherwise the smallest index whose character occurs exactly once |
| `NonRepeated.FirstNonRepeatedCharIndex` | C44-G02-ADV01/Program.cs:133-165 | null input gives -1; otherwise the dictionary count and scan return exactly the reference first-unique index (so -1 for the empty string) |
| `NonRepeated.EmptyHasNone` | C44-G02-ADV01/Program.cs:135-138 | the empty string gives -1 |
| `NonRepeated.AabbHasNone` | C44-G02-ADV01/Program.cs:156-164 | "aabb" gives -1 |
| `NonRepeated.SwissGivesOne` | C44-G02-ADV01/Program.cs:156-164 | "swiss" gives 1, the index of the 'w' |

## Left out

- `Range<T>.Length` (Program.cs:41-46): it subtracts two values converted to `double`. Floating point and the .NET conversion are not modelled.
- `Ranges.NewRange`: `Range<T>` is generic over any `IComparable<T>`. The model fixes T to `int` and uses the sign semantics of `int.CompareTo`. Other element types and their comparers are not modelled.
- The null checks on the bounds and on the value in `Range<T>` (Program.cs:19-20, 34): an `int` is never null, so these branches cannot fire in the model.
- `FixedSizeLists.FixedSizeList.New`: a C# constructor that throws becomes a static factory returning a `Result`. The Dafny constructor requires a positive capacity and is reached only through `New`.
- `ListReversal.ReverseArrayListInPlace`: the `ArrayList` of `object`s becomes a generic `array<T>`. The list does not grow or shrink during reversal, so only the element type is lost.
- `EvenNumbers.GetEvenNumbers`: the input `List<int>` is read-only here and is given as a value (`seq<int>`); a null list is `None`. The result is a fresh value, as the fresh `List<int>` is in the source.
- `NonRepeated.FirstNonRepeatedCharIndex`: a C# `char` is a UTF-16 code unit; Dafny's `char` is a Unicode scalar value. Strings with surrogate pairs are not modelled.
- 32-bit integer limits are not modelled. `_count` never exceeds the array length and dictionary counts never exceed the string length, so no `int` in these operations can overflow.
- `Main` and the `RunQuestion1`–`RunQuestion5` drivers (Program.cs:168-355): console I/O and input parsing.
