/** The selection engine of the number service: given integers and a 1-based
    rank n, find the n-th smallest of them, either by randomized QuickSelect
    over a private copy of the array or by a single pass that keeps the n
    smallest values in a max-ordered priority queue. */
module NumberService {
  import opened OrderStatistic
  import opened MaxBags

  /** The exceptions the engine raises. */
  datatype Error =
    | EmptyArray                // IllegalArgumentException: no numbers at all
    | RankOutOfRange(length: int) // IllegalArgumentException: n outside 1..length
    | IllegalIndices            // IllegalStateException: quickSelect range guard
    | CapacityBelowOne          // IllegalArgumentException: priority queue built with capacity n < 1
    | NullHead                  // NullPointerException: unboxing the head of an empty queue

  datatype Result = Ok(value: int) | Err(error: Error)

  /** `b` is `a` with the slice [left, right] rearranged and every other
      position untouched. */
  ghost predicate PermutedWithin(a: seq<int>, b: seq<int>, left: int, right: int)
    requires 0 <= left <= right < |a|
  {
    |b| == |a| &&
    multiset(b[left..right + 1]) == multiset(a[left..right + 1]) &&
    forall m :: 0 <= m < |a| && !(left <= m <= right) ==> b[m] == a[m]
  }

  /** Position k of the slice [left, right] separates smaller-or-equal values
      on its left from greater-or-equal values on its right. */
  ghost predicate SplitAt(a: seq<int>, left: int, k: int, right: int)
    requires 0 <= left <= k <= right < |a|
  {
    (forall m :: left <= m < k ==> a[m] <= a[k]) &&
    (forall m :: k < m <= right ==> a[k] <= a[m])
  }

  /** Everything before `left` is at most, and everything after `right` at
      least, every value of the slice [left, right]. */
  ghost predicate Bracketed(a: seq<int>, left: int, right: int)
    requires 0 <= left <= right < |a|
  {
    (forall m :: 0 <= m < left ==> AtLeast(multiset(a[left..right + 1]), a[m])) &&
    (forall m :: right < m < |a| ==> AtMost(multiset(a[left..right + 1]), a[m]))
  }

  /** Exchanging two positions of a slice keeps the slice's multiset. */
  lemma SwapKeepsSlice(a: seq<int>, i: int, j: int, left: int, right: int)
    requires 0 <= left <= i <= right < |a| && left <= j <= right
    ensures multiset(a[i := a[j]][j := a[i]][left..right + 1]) == multiset(a[left..right + 1])
  {
  }

  /** If a rearrangement keeps a slice's multiset, bounds on the slice's
      values carry over. */
  lemma PermutedKeepsBounds(a: seq<int>, b: seq<int>, left: int, right: int, v: int)
    requires 0 <= left <= right < |a|
    requires PermutedWithin(a, b, left, right)
    ensures AtMost(multiset(a[left..right + 1]), v) ==> AtMost(multiset(b[left..right + 1]), v)
    ensures AtLeast(multiset(a[left..right + 1]), v) ==> AtLeast(multiset(b[left..right + 1]), v)
  {
  }

  /** Exchanging two positions inside [left, right] keeps a rearrangement
      of [left, right] one. */
  lemma SwapStep(a0: seq<int>, a: seq<int>, i: int, j: int, left: int, right: int)
    requires 0 <= left <= right < |a0|
    requires PermutedWithin(a0, a, left, right)
    requires left <= i <= right && left <= j <= right
    ensures PermutedWithin(a0, a[i := a[j]][j := a[i]], left, right)
  {
  }

  /** Rearranging a sub-range of an already rearranged range keeps the whole
      a rearrangement of the outer range. */
  lemma NestedPermutation(a: seq<int>, b: seq<int>, c: seq<int>, left: int, right: int, lo: int, hi: int)
    requires 0 <= left <= lo <= hi <= right < |a|
    requires PermutedWithin(a, b, left, right)
    requires PermutedWithin(b, c, lo, hi)
    ensures PermutedWithin(a, c, left, right)
  {
    assert b[left..right + 1] == b[left..lo] + b[lo..hi + 1] + b[hi + 1..right + 1];
    assert c[left..right + 1] == c[left..lo] + c[lo..hi + 1] + c[hi + 1..right + 1];
    assert c[left..lo] == b[left..lo];
    assert c[hi + 1..right + 1] == b[hi + 1..right + 1];
  }

  /** A rearrangement within a range keeps the multiset of the whole. */
  lemma PermutedWhole(a: seq<int>, b: seq<int>, left: int, right: int)
    requires 0 <= left <= right < |a|
    requires PermutedWithin(a, b, left, right)
    ensures multiset(a) == multiset(b)
  {
    assert a == a[..left] + a[left..right + 1] + a[right + 1..];
    assert b == b[..left] + b[left..right + 1] + b[right + 1..];
    assert b[..left] == a[..left];
    assert b[right + 1..] == a[right + 1..];
  }

  /** Exchanges `arr[i]` and `arr[j]`. */
  method Swap(arr: array<int>, i: int, j: int)
    requires 0 <= i < arr.Length && 0 <= j < arr.Length
    modifies arr
    ensures arr[..] == old(arr[..])[i := old(arr[j])][j := old(arr[i])]
  {
    var temp := arr[i];
    arr[i] := arr[j];
    arr[j] := temp;
  }

  /** Lomuto partition of [left, right] around the pivot `arr[right]`:
      returns the pivot's final position. */
  method Partition(arr: array<int>, left: int, right: int) returns (i: int)
    requires 0 <= left <= right < arr.Length
    modifies arr
    ensures left <= i <= right
    ensures arr[i] == old(arr[right])
    ensures forall m :: left <= m < i ==> arr[m] <= arr[i]
    ensures forall m :: i < m <= right ==> arr[m] > arr[i]
    ensures PermutedWithin(old(arr[..]), arr[..], left, right)
  {
    var pivot := arr[right];
    i := left;
    for j := left to right
      invariant left <= i <= j
      invariant arr[right] == pivot
      invariant forall m :: left <= m < i ==> arr[m] <= pivot
      invariant forall m :: i <= m < j ==> arr[m] > pivot
      invariant PermutedWithin(old(arr[..]), arr[..], left, right)
    {
      if arr[j] <= pivot {
        SwapStep(old(arr[..]), arr[..], i, j, left, right);
        Swap(arr, i, j);
        i := i + 1;
      }
    }
    SwapStep(old(arr[..]), arr[..], i, right, left, right);
    Swap(arr, i, right);
  }

  /** Moves the element at `randomIndex` to `right`, then partitions around
      it; the partition property holds whichever index in [left, right] the
      caller's random draw produced. */
  method RandomizedPartition(arr: array<int>, left: int, right: int, randomIndex: int) returns (i: int)
    requires 0 <= left <= randomIndex <= right < arr.Length
    modifies arr
    ensures left <= i <= right
    ensures arr[i] == old(arr[randomIndex])
    ensures forall m :: left <= m < i ==> arr[m] <= arr[i]
    ensures forall m :: i < m <= right ==> arr[m] > arr[i]
    ensures PermutedWithin(old(arr[..]), arr[..], left, right)
  {
    ghost var before := arr[..];
    SwapKeepsSlice(arr[..], randomIndex, right, left, right);
    Swap(arr, randomIndex, right);
    ghost var swapped := arr[..];
    i := Partition(arr, left, right);
    NestedPermutation(before, swapped, arr[..], left, right, left, right);
  }

  /** Recursive QuickSelect on [left, right] for the 0-based target `k`.
      `random(left, right)` stands for the random draw of each call; the pivot
      index is `left` plus that draw reduced to the width of the range. */
  method QuickSelect(arr: array<int>, left: int, right: int, k: int, random: (int, int) -> nat) returns (r: Result)
    modifies arr
    decreases right - left
    ensures !(0 <= left <= right < arr.Length) ==> r == Err(IllegalIndices) && arr[..] == old(arr[..])
    ensures 0 <= left <= right < arr.Length ==> PermutedWithin(old(arr[..]), arr[..], left, right)
    ensures 0 <= left <= k <= right < arr.Length ==> r == Ok(arr[k]) && SplitAt(arr[..], left, k, right)
  {
    if left < 0 || right >= arr.Length || left > right {
      return Err(IllegalIndices);
    }
    ghost var before := arr[..];
    if left == right {
      r := Ok(arr[left]);
    } else {
      var draw := random(left, right) % (right - left + 1);
      var pivotIndex := RandomizedPartition(arr, left, right, left + draw);
      ghost var parted := arr[..];
      if k == pivotIndex {
        r := Ok(arr[k]);
      } else if k < pivotIndex {
        r := QuickSelect(arr, left, pivotIndex - 1, k, random);
        Descended(before, parted, arr[..], left, pivotIndex, right, left, pivotIndex - 1, k);
      } else {
        r := QuickSelect(arr, pivotIndex + 1, right, k, random);
        Descended(before, parted, arr[..], left, pivotIndex, right, pivotIndex + 1, right, k);
      }
    }
  }

  /** What one recursive descent of QuickSelect into [lo, hi], the side of
      the pivot position `p` that the partition left, keeps true of the whole
      range [left, right]. */
  lemma Descended(before: seq<int>, parted: seq<int>, after: seq<int>, left: int, p: int, right: int, lo: int, hi: int, k: int)
    requires 0 <= left <= p <= right < |before|
    requires (lo == left && hi == p - 1) || (lo == p + 1 && hi == right)
    requires PermutedWithin(before, parted, left, right)
    requires forall m :: left <= m < p ==> parted[m] <= parted[p]
    requires forall m :: p < m <= right ==> parted[m] > parted[p]
    requires lo <= hi ==> PermutedWithin(parted, after, lo, hi)
    requires lo > hi ==> after == parted
    requires lo <= k <= hi ==> SplitAt(after, lo, k, hi)
    ensures PermutedWithin(before, after, left, right)
    ensures lo <= k <= hi ==> SplitAt(after, left, k, right)
  {
    if lo <= hi {
      NestedPermutation(before, parted, after, left, right, lo, hi);
    }
    if lo <= k <= hi {
      if lo == left {
        LeftDescent(parted, after, left, p, right, k);
      } else {
        RightDescent(parted, after, left, p, right, k);
      }
    }
  }

  /** After partitioning at `p` and selecting in [left, p - 1], the result
      also splits the whole range [left, right]. */
  lemma LeftDescent(parted: seq<int>, after: seq<int>, left: int, p: int, right: int, k: int)
    requires 0 <= left <= k < p <= right < |parted|
    requires forall m :: left <= m < p ==> parted[m] <= parted[p]
    requires PermutedWithin(parted, after, left, p - 1)
    requires SplitAt(after, left, k, p - 1)
    requires forall m :: p < m <= right ==> parted[m] > parted[p]
    ensures SplitAt(after, left, k, right)
  {
    var low := parted[left..p];
    assert AtMost(multiset(low), parted[p]) by {
      forall x | x in multiset(low) ensures x <= parted[p] {
        assert x in low;
      }
    }
    PermutedKeepsBounds(parted, after, left, p - 1, parted[p]);
    assert after[k] in multiset(after[left..p]) by {
      assert after[left..p][k - left] == after[k];
    }
    forall m | p <= m <= right ensures after[k] <= after[m] {
      assert after[m] == parted[m];
    }
  }

  /** After partitioning at `p` and selecting in [p + 1, right], the result
      also splits the whole range [left, right]. */
  lemma RightDescent(parted: seq<int>, after: seq<int>, left: int, p: int, right: int, k: int)
    requires 0 <= left <= p < k <= right < |parted|
    requires forall m :: left <= m < p ==> parted[m] <= parted[p]
    requires forall m :: p < m <= right ==> parted[m] > parted[p]
    requires PermutedWithin(parted, after, p + 1, right)
    requires SplitAt(after, p + 1, k, right)
    ensures SplitAt(after, left, k, right)
  {
    var high := parted[p + 1..right + 1];
    assert AtLeast(multiset(high), parted[p]) by {
      forall x | x in multiset(high) ensures parted[p] <= x {
        assert x in high;
      }
    }
    PermutedKeepsBounds(parted, after, p + 1, right, parted[p]);
    assert after[k] in multiset(after[p + 1..right + 1]) by {
      assert after[p + 1..right + 1][k - p - 1] == after[k];
    }
    forall m | left <= m <= p ensures after[m] <= after[k] {
      assert after[m] == parted[m];
    }
  }

  /** What QuickSelect's postcondition means for the whole array: when every
      value before `left` is at most, and every value after `right` at least,
      the values of [left, right], the value it leaves at `k` (and returns) is
      the k-th smallest of the array it was given. */
  lemma BracketedSelect(before: seq<int>, after: seq<int>, left: int, k: int, right: int)
    requires 0 <= left <= k <= right < |before|
    requires PermutedWithin(before, after, left, right)
    requires Bracketed(before, left, right)
    requires SplitAt(after, left, k, right)
    ensures SortedOf(before)[k] == after[k]
  {
    assert after[k] in multiset(before[left..right + 1]) by {
      assert after[left..right + 1][k - left] == after[k];
      assert after[k] in multiset(after[left..right + 1]);
    }
    forall m | 0 <= m < left ensures after[m] <= after[k] {
      assert after[m] == before[m];
    }
    forall m | right < m < |after| ensures after[k] <= after[m] {
      assert after[m] == before[m];
    }
    PermutedWhole(before, after, left, right);
    SplitAtIndex(after, before, k);
  }

  /** QuickSelect over a clone of the caller's array, for the 1-based rank
      `n`. The caller's array is only read (no modifies clause). */
  method FindNthMinimalWithQuickSelect(numbers: array<int>, n: int, random: (int, int) -> nat) returns (r: Result)
    ensures numbers.Length == 0 ==> r == Err(IllegalIndices)
    ensures 1 <= n <= numbers.Length ==> r == Ok(NthSmallest(numbers[..], n))
  {
    var arr := new int[numbers.Length](i reads numbers requires 0 <= i < numbers.Length => numbers[i]);
    assert arr[..] == numbers[..];
    var k := n - 1;
    r := QuickSelect(arr, 0, arr.Length - 1, k, random);
    if 1 <= n <= numbers.Length {
      BracketedSelect(numbers[..], arr[..], 0, k, arr.Length - 1);
    }
  }

  /** Taking one copy of `head` out of a sub-bag `heap` of `whole` splits
      `whole` into three parts. */
  lemma SplitOffHead(whole: multiset<int>, heap: multiset<int>, head: int)
    requires heap <= whole && head in heap
    ensures whole == (heap - multiset{head}) + multiset{head} + (whole - heap)
  {
  }

  /** Once the queue holds `n` values, none larger than anything outside it,
      its head is the n-th smallest of all the numbers. */
  lemma HeadOfSmallest(s: seq<int>, heap: multiset<int>, head: int, n: int)
    requires 1 <= n <= |s|
    requires |heap| == n && heap <= multiset(s)
    requires head in heap && AtMost(heap, head)
    requires forall y :: y in multiset(s) - heap ==> AtMost(heap, y)
    ensures NthSmallest(s, n) == head
  {
    var lo := heap - multiset{head};
    var hi := multiset(s) - heap;
    SplitOffHead(multiset(s), heap, head);
    assert AtMost(lo, head) by {
      forall x | x in lo ensures x <= head {
        assert x in heap;
      }
    }
    assert AtLeast(hi, head) by {
      forall y | y in hi ensures head <= y {
        assert AtMost(heap, y);
      }
    }
    SplitDeterminesKth(s, n - 1, lo, head, hi);
  }

  /** The loop invariant of the heap strategy: `heap` is a sub-bag of the
      values seen so far, `seen`, of size min(|seen|, n), and none of its values
      is larger than a seen value left out of it; so it holds the min(|seen|, n)
      smallest values seen. */
  ghost predicate HoldsSmallest(seen: multiset<int>, heap: multiset<int>, n: int)
  {
    |heap| == (if |seen| < n then |seen| else n) &&
    heap <= seen &&
    (|seen| <= n ==> heap == seen) &&
    forall y :: y in seen - heap ==> AtMost(heap, y)
  }

  /** Offering a value to a queue that is not yet full keeps the invariant. */
  lemma OfferKeepsSmallest(seen: multiset<int>, heap: multiset<int>, n: int, x: int)
    requires HoldsSmallest(seen, heap, n) && |heap| < n
    ensures HoldsSmallest(seen + multiset{x}, heap + multiset{x}, n)
  {
  }

  /** Polling the head `top` and offering a smaller `x` keeps the invariant. */
  lemma ReplaceKeepsSmallest(seen: multiset<int>, heap: multiset<int>, n: int, top: int, x: int)
    requires HoldsSmallest(seen, heap, n) && |heap| == n
    requires top in heap && AtMost(heap, top) && x < top
    ensures HoldsSmallest(seen + multiset{x}, heap - multiset{top} + multiset{x}, n)
  {
    var heap' := heap - multiset{top} + multiset{x};
    var rest := seen - heap;
    assert (seen + multiset{x}) - heap' == rest + multiset{top};
    forall y | y in rest + multiset{top} ensures AtMost(heap', y) {
      if y in rest {
        assert AtMost(heap, y);
        forall z | z in heap' ensures z <= y {
          if z != x {
            assert z in heap;
          }
        }
      } else {
        forall z | z in heap' ensures z <= y {
          if z != x {
            assert z in heap;
          }
        }
      }
    }
  }

  /** Skipping a value no smaller than the head of a full queue keeps the
      invariant. */
  lemma SkipKeepsSmallest(seen: multiset<int>, heap: multiset<int>, n: int, top: int, x: int)
    requires HoldsSmallest(seen, heap, n) && |heap| == n && 1 <= n
    requires top in heap && AtMost(heap, top) && top <= x
    ensures HoldsSmallest(seen + multiset{x}, heap, n)
  {
  }

  /** After the whole pass, the head of a non-empty queue is the n-th
      smallest value, or the largest when there are fewer than `n` values. */
  lemma FinalHead(s: seq<int>, heap: multiset<int>, head: int, n: int)
    requires 1 <= n && HoldsSmallest(multiset(s), heap, n)
    requires head in heap && AtMost(heap, head)
    ensures |s| > 0
    ensures n <= |s| ==> NthSmallest(s, n) == head
    ensures |s| < n ==> NthSmallest(s, |s|) == head
  {
    assert |multiset(s)| == |s|;
    if n <= |s| {
      HeadOfSmallest(s, heap, head, n);
    } else {
      HeadOfSmallest(s, heap, head, |s|);
    }
  }

  /** A single pass keeping the `n` smallest values seen so far in a
      max-ordered queue of capacity `n`; the head at the end is the answer. */
  method FindNthMinimalWithMaxHeap(numbers: array<int>, n: int) returns (r: Result)
    ensures n < 1 ==> r == Err(CapacityBelowOne)
    ensures n >= 1 && numbers.Length == 0 ==> r == Err(NullHead)
    ensures 1 <= n <= numbers.Length ==> r == Ok(NthSmallest(numbers[..], n))
    ensures 1 <= numbers.Length < n ==> r == Ok(NthSmallest(numbers[..], numbers.Length))
  {
    if n < 1 {
      return Err(CapacityBelowOne);
    }
    var maxHeap := new MaxBag();
    ghost var all := numbers[..];
    for p := 0 to numbers.Length
      invariant HoldsSmallest(multiset(all[..p]), maxHeap.Contents(), n)
    {
      var number := numbers[p];
      assert all[..p + 1] == all[..p] + [number];
      ghost var seen := multiset(all[..p]);
      ghost var held := maxHeap.Contents();
      if maxHeap.Size() < n {
        maxHeap.Offer(number);
        OfferKeepsSmallest(seen, held, n, number);
      } else if number < maxHeap.Peek() {
        var top := maxHeap.Poll();
        maxHeap.Offer(number);
        ReplaceKeepsSmallest(seen, held, n, top, number);
      } else {
        SkipKeepsSmallest(seen, held, n, maxHeap.Peek(), number);
      }
    }
    assert all[..numbers.Length] == all;
    if maxHeap.Size() == 0 {
      r := Err(NullHead);
    } else {
      var head := maxHeap.Peek();
      r := Ok(head);
      FinalHead(all, maxHeap.Contents(), head, n);
    }
  }

  /** The public entry: validates the numbers and the rank, then dispatches
      to the strategy `useQuickSelect` selects. */
  method FindNthMinimalNumber(numbers: array<int>, n: int, useQuickSelect: bool, random: (int, int) -> nat) returns (r: Result)
    ensures numbers.Length == 0 ==> r == Err(EmptyArray)
    ensures numbers.Length > 0 && (n <= 0 || n > numbers.Length) ==> r == Err(RankOutOfRange(numbers.Length))
    ensures 1 <= n <= numbers.Length ==> r == Ok(NthSmallest(numbers[..], n))
  {
    if numbers.Length == 0 {
      return Err(EmptyArray);
    }
    if n <= 0 || n > numbers.Length {
      return Err(RankOutOfRange(numbers.Length));
    }
    if useQuickSelect {
      r := FindNthMinimalWithQuickSelect(numbers, n, random);
    } else {
      r := FindNthMinimalWithMaxHeap(numbers, n);
    }
  }

  /** Both strategies give the same answer on every valid input, whatever
      the pivot draws. */
  method BothStrategiesAgree(numbers: array<int>, n: int, random: (int, int) -> nat) returns (viaQuickSelect: Result, viaMaxHeap: Result)
    requires 1 <= n <= numbers.Length
    ensures viaQuickSelect == viaMaxHeap
    ensures viaQuickSelect.Ok?
  {
    viaQuickSelect := FindNthMinimalNumber(numbers, n, true, random);
    viaMaxHeap := FindNthMinimalNumber(numbers, n, false, random);
  }
}
