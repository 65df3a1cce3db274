# N-th minimal number: a verified model of the selection engine

The number service answers one question: given an array of integers and a
1-based rank `n`, which value is the `n`-th smallest? It validates the input
(the array must be non-empty and `1 <= n <= length`), then dispatches to one
of two strategies:

- **randomized QuickSelect** on a clone of the array: a random pivot is
  swapped to the right end of the range, a Lomuto partition places it at its
  sorted position `i`, and the search recurses into the side that holds the
  target index `k = n - 1`;
- **bounded max-heap selection**: one pass over the numbers keeps the `n`
  smallest values seen so far in a max-ordered priority queue of capacity `n`;
  its head at the end is the answer.

The model has three modules:

- `OrderStatistic` (`order_statistic.dfy`) defines what the answer is:
  `SortedOf(s)`, an insertion sort proved sorted and a permutation of `s`,
  and `NthSmallest(s, n) = SortedOf(s)[n - 1]`. Its central lemma,
  `SplitDeterminesKth`, says that any value `v` whose multiset of companions
  splits into `k` values at most `v` and the rest at least `v` is
  `SortedOf(s)[k]`. Both strategies are proved correct through it.
- `MaxBags` (`max_bag.dfy`) is the priority queue, kept abstract: a class
  holding a bag of integers, with `Size`, `Peek` (the maximum), `Offer` and
  `Poll` (remove the maximum).
- `NumberService` (`number_service.dfy`) is the engine itself, in the
  source's imperative form: `Swap`, `Partition` and `RandomizedPartition`
  mutate an `array<int>` in place, `QuickSelect` recurses over the shared
  array, `FindNthMinimalWithMaxHeap` loops while mutating the queue, and
  `FindNthMinimalNumber` is the validating entry point.

Exceptions become values of `Result = Ok(value) | Err(error)`:
`EmptyArray` and `RankOutOfRange(length)` are the entry's
`IllegalArgumentException`s, `IllegalIndices` is QuickSelect's
`IllegalStateException`, `CapacityBelowOne` is the
`IllegalArgumentException` a priority queue raises when built with capacity
`n < 1`, and `NullHead` is the `NullPointerException` of unboxing the head of
an empty queue. The static `USE_QUICK_SELECT` flag is the `useQuickSelect`
parameter of the entry, and both of its branches are proved. The random draw
of each QuickSelect call is `random(left, right)`, a function the caller
supplies. The pivot index is `left + random(left, right) % (right - left + 1)`.
Along one descent the ranges shrink strictly, so no two calls see the same
`(left, right)`. Every sequence of pivot choices is therefore some such
function, and the proofs hold for all of them.

The caller's array is never changed by either strategy or by the entry: none
of those methods has a `modifies` clause, so Dafny checks that they write
only to arrays and objects they allocate (QuickSelect's clone, the queue).

## Model

| member | source | states |
|---|---|---|
| NumberService.Swap | src/main/java/org/example/NumberService.java:186-190 | the new array is the old one with the values at `i` and `j` exchanged, every other position unchanged |
| NumberService.Partition | src/main/java/org/example/NumberService.java:166-181 | returns `i` in `[left, right]`; the old `arr[right]` (the pivot) ends at `i`; everything in `[left, i)` is `<=` it and everything in `(i, right]` is `>` it; only `[left, right]` is rearranged (its multiset is kept) and every other position is unchanged |
| NumberService.RandomizedPartition | src/main/java/org/example/NumberService.java:153-161 | for every pivot choice `randomIndex` in `[left, right]`: the partition property of Partition around the old `arr[randomIndex]`, and only `[left, right]` rearranged |
| NumberService.QuickSelect | src/main/java/org/example/NumberService.java:125-148 | fails with `IllegalIndices`, array untouched, when `left < 0`, `right >= arr.Length` or `left > right`; with a valid range only `[left, right]` is rearranged; when moreover `left <= k <= right` it succeeds (no recursive call ever fails the guard) and returns `arr[k]` with everything in `[left, k)` `<=` it and everything in `(k, right]` `>=` it |
| NumberService.Descended | src/main/java/org/example/NumberService.java:139-147 | recursing into the side of the pivot that holds `k` keeps the whole range a rearrangement of the original and the split at `k` valid over the whole range |
| NumberService.BracketedSelect | src/main/java/org/example/NumberService.java:125-148 | when every value before `left` is `<=`, and every value after `right` `>=`, the values of `[left, right]`, the value QuickSelect leaves at `k` is `SortedOf(original array)[k]` |
| NumberService.FindNthMinimalWithQuickSelect | src/main/java/org/example/NumberService.java:113-120 | for `1 <= n <= length` returns `Ok(SortedOf(numbers)[n - 1])`; on an empty array fails with `IllegalIndices`; the caller's array is not modified (it works on a clone) |
| NumberService.OfferKeepsSmallest | src/main/java/org/example/NumberService.java:96-97 | offering to a queue below capacity keeps it holding the `min(p, n)` smallest values of the prefix seen |
| NumberService.ReplaceKeepsSmallest | src/main/java/org/example/NumberService.java:98-101 | polling the head of a full queue and offering a smaller value keeps it holding the `n` smallest values seen |
| NumberService.SkipKeepsSmallest | src/main/java/org/example/NumberService.java:95-103 | skipping a value no smaller than the head of a full queue keeps it holding the `n` smallest values seen |
| NumberService.HeadOfSmallest | src/main/java/org/example/NumberService.java:105-106 | a queue of `n` values from the numbers, none larger than a value left out, has the `n`-th smallest as its head |
| NumberService.FinalHead | src/main/java/org/example/NumberService.java:105-106 | after the pass the head is the `n`-th smallest, or the largest number when there are fewer than `n`, and a non-empty queue means the numbers are non-empty |
| NumberService.FindNthMinimalWithMaxHeap | src/main/java/org/example/NumberService.java:91-107 | `n < 1` fails with `CapacityBelowOne`; an empty array fails with `NullHead`; `1 <= n <= length` returns `SortedOf(numbers)[n - 1]`; `n > length >= 1` returns the maximum `SortedOf(numbers)[length - 1]`; the caller's array is only read |
| NumberService.FindNthMinimalNumber | src/main/java/org/example/NumberService.java:24-35 | an empty array fails with `EmptyArray`; otherwise `n <= 0` or `n > length` fails with `RankOutOfRange(length)`; otherwise returns `SortedOf(numbers)[n - 1]` whichever strategy the flag selects |
| NumberService.BothStrategiesAgree | src/main/java/org/example/NumberService.java:31-35 | on every valid input, for every pivot choice, the QuickSelect and the max-heap strategies return the same successful result |
| MaxBags.MaxBag.constructor | src/main/java/org/example/NumberService.java:93 | a new queue is empty |
| MaxBags.MaxBag.Size | src/main/java/org/example/NumberService.java:96 | the number of held values, duplicates counted |
| MaxBags.MaxBag.Peek | src/main/java/org/example/NumberService.java:98 | the head is a held value no smaller than any held value |
| MaxBags.MaxBag.Offer | src/main/java/org/example/NumberService.java:97 | adds one copy of the value to the held bag |
| MaxBags.MaxBag.Poll | src/main/java/org/example/NumberService.java:100 | returns the head and removes exactly one copy of it |
| MaxBags.ArgMax | src/main/java/org/example/NumberService.java:106 | a position holding a value no smaller than any other in the sequence |
| OrderStatistic.SortedOf | src/main/java/org/example/NumberService.java:85-90 | the reference ascending order: the result is sorted and a permutation of the input |
| OrderStatistic.SplitDeterminesKth | src/main/java/org/example/NumberService.java:85-90 | a value with `k` companions at most it and all others at least it is the value at position `k` of the ascending sort |
| OrderStatistic.SplitAtIndex | src/main/java/org/example/NumberService.java:139-140 | a position `k` with smaller-or-equal values on its left and greater-or-equal values on its right holds the `k`-th smallest of any permutation of the sequence |
| OrderStatistic.SortedUnique | src/main/java/org/example/NumberService.java:85-90 | two sorted sequences with the same multiset are equal, so the answer does not depend on which permutation is sorted |
| OrderStatistic.FirstIsMinimum | src/main/java/org/example/NumberService.java:113-120 | rank 1 is the minimum of the numbers |
| OrderStatistic.LastIsMaximum | src/main/java/org/example/NumberService.java:113-120 | rank `length` is the maximum of the numbers |
| OrderStatistic.ScenarioDuplicates | src/main/java/org/example/NumberService.java:113-120 | `[5, 1, 1, 3]` at rank 2 gives 1 |
| OrderStatistic.ScenarioMiddle | src/main/java/org/example/NumberService.java:113-120 | `[7, 2, 9, 4, 1]` at rank 3 gives 4 |
| OrderStatistic.ScenarioAllEqual | src/main/java/org/example/NumberService.java:113-120 | `[3, 3, 3]` at rank 2 gives 3 |

## Left out

- `readNumbersFromExcel` (NumberService.java:41-83) is not modelled. It checks the file system, parses the workbook through Apache POI and casts `double` cells to `int`. The entry takes the `int` array directly.
- NumberController.java is not part of this model. It is HTTP glue that maps exceptions to responses.
- The exception messages are not modelled. `RankOutOfRange` carries the array length that its message embeds.
- `Math.random()` is replaced by the caller's `random` function. Every pivot index in the range is reachable, but the uniform distribution is not modelled, and so neither is expected running time.
- The binary-heap layout of `java.util.PriorityQueue` and `Collections.reverseOrder()` are not modelled. `MaxBag` keeps its values in a sequence whose order carries no meaning.
- NumberService.QuickSelect: when `k` lies outside `[left, right]` of a valid range, the result is left unspecified. The source then returns some value or throws, depending on the draws, and its only caller never does this.
- NumberService.FindNthMinimalWithQuickSelect: for a non-empty array and `n` outside `1..length` the result is left unspecified, for the same reason. The wrap-around of `n - 1` at the smallest 32-bit integer is not modelled either.
- NumberService.Swap, NumberService.Partition, NumberService.RandomizedPartition: require in-bounds indices (and `left <= right`). The source would throw `ArrayIndexOutOfBoundsException` otherwise, but its callers always pass indices that the range guard has checked.
- 32-bit integer arithmetic is not modelled. The values are only compared, never added. Index arithmetic stays within array bounds once the range guard holds.
