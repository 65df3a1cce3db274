/** The meaning of "the n-th smallest number": the element at position n - 1
    of the ascending sort of the numbers. Both selection strategies of the
    number service are proved to return exactly this value. */
module OrderStatistic {

  /** Ascending order, duplicates allowed. */
  ghost predicate Sorted(s: seq<int>)
  {
    forall i, j :: 0 <= i <= j < |s| ==> s[i] <= s[j]
  }

  /** Every element of `m` is at most `v`. */
  ghost predicate AtMost(m: multiset<int>, v: int)
  {
    forall x :: x in m ==> x <= v
  }

  /** Every element of `m` is at least `v`. */
  ghost predicate AtLeast(m: multiset<int>, v: int)
  {
    forall x :: x in m ==> v <= x
  }

  /** Putting `h` in front of sorted `t` keeps it sorted when `h` is at most
      every element of `t`. */
  lemma ConsSorted(h: int, t: seq<int>)
    requires Sorted(t) && AtLeast(multiset(t), h)
    ensures Sorted([h] + t)
  {
    forall i | 0 <= i < |t| ensures h <= t[i] {
      assert t[i] in multiset(t);
    }
  }

  /** Inserts `x` into the sorted sequence `s`, keeping it sorted. */
  function Insert(x: int, s: seq<int>): (r: seq<int>)
    requires Sorted(s)
    ensures Sorted(r)
    ensures multiset(r) == multiset(s) + multiset{x}
  {
    if s == [] then [x]
    else if x <= s[0] then
      ConsSorted(x, s);
      [x] + s
    else
      assert s == [s[0]] + s[1..];
      var t := Insert(x, s[1..]);
      assert AtLeast(multiset(t), s[0]) by {
        forall y | y in multiset(t) ensures s[0] <= y {
          if y != x {
            assert y in s[1..];
          }
        }
      }
      ConsSorted(s[0], t);
      [s[0]] + t
  }

  /** The ascending sort of `s` (insertion sort, as a reference definition). */
  function SortedOf(s: seq<int>): (r: seq<int>)
    ensures Sorted(r)
    ensures multiset(r) == multiset(s)
    ensures |r| == |s|
  {
    if s == [] then []
    else
      assert s == [s[0]] + s[1..];
      Insert(s[0], SortedOf(s[1..]))
  }

  /** The n-th smallest value of `s`, counting from 1. */
  ghost function NthSmallest(s: seq<int>, n: int): int
    requires 1 <= n <= |s|
  {
    SortedOf(s)[n - 1]
  }

  /** The head of a sorted sequence is its minimum, and its tail is sorted. */
  lemma SortedHead(a: seq<int>)
    requires Sorted(a) && a != []
    ensures AtLeast(multiset(a), a[0])
    ensures Sorted(a[1..])
  {
  }

  /** Two sorted sequences holding the same multiset are equal. */
  lemma {:induction false} SortedUnique(a: seq<int>, b: seq<int>)
    requires Sorted(a) && Sorted(b)
    requires multiset(a) == multiset(b)
    ensures a == b
  {
    assert |a| == |multiset(a)| == |multiset(b)| == |b|;
    if a != [] {
      SortedHead(a);
      SortedHead(b);
      assert a[0] in multiset(b) && b[0] in multiset(a);
      assert a[0] == b[0];
      assert a == [a[0]] + a[1..];
      assert b == [b[0]] + b[1..];
      assert multiset(a) == multiset{a[0]} + multiset(a[1..]);
      assert multiset(b) == multiset{b[0]} + multiset(b[1..]);
      assert multiset(a[1..]) == multiset(a) - multiset{a[0]};
      assert multiset(b[1..]) == multiset(b) - multiset{b[0]};
      SortedUnique(a[1..], b[1..]);
    }
  }

  /** Some sequence enumerates any finite multiset. */
  ghost function SeqOf(m: multiset<int>): (r: seq<int>)
    ensures multiset(r) == m
    ensures |r| == |m|
    decreases |m|
  {
    if m == multiset{} then []
    else
      assert exists x :: x in m by {
        if forall x :: x !in m {
          assert false;
        }
      }
      var x :| x in m;
      [x] + SeqOf(m - multiset{x})
  }

  /** Joining sorted `a`, `v` and sorted `b` is sorted when `a` holds nothing
      above `v` and `b` nothing below it. */
  lemma JoinSorted(a: seq<int>, v: int, b: seq<int>)
    requires Sorted(a) && Sorted(b)
    requires AtMost(multiset(a), v) && AtLeast(multiset(b), v)
    ensures Sorted(a + [v] + b)
  {
    ConsSorted(v, b);
    var t := [v] + b;
    forall i, j | 0 <= i < |a| && 0 <= j < |t| ensures a[i] <= t[j] {
      assert a[i] in multiset(a);
      assert t[0] <= t[j];
    }
    assert a + [v] + b == a + t;
  }

  /** The selection theorem: if the multiset of `s` splits into `lo`, one copy
      of `v` and `hi`, with `k` elements in `lo`, everything in `lo` at most `v`
      and everything in `hi` at least `v`, then `v` is the value at position
      `k` of the ascending sort of `s`. */
  lemma {:induction false} SplitDeterminesKth(s: seq<int>, k: int, lo: multiset<int>, v: int, hi: multiset<int>)
    requires multiset(s) == lo + multiset{v} + hi
    requires |lo| == k
    requires AtMost(lo, v) && AtLeast(hi, v)
    ensures 0 <= k < |s|
    ensures SortedOf(s)[k] == v
  {
    var a := SortedOf(SeqOf(lo));
    var b := SortedOf(SeqOf(hi));
    JoinSorted(a, v, b);
    var t := a + [v] + b;
    assert multiset(t) == multiset(a) + multiset{v} + multiset(b);
    assert |s| == |multiset(s)| == |t|;
    SortedUnique(t, SortedOf(s));
    assert t[k] == v;
  }

  /** A sequence whose position `k` separates smaller-or-equal values on the
      left from greater-or-equal values on the right holds the k-th smallest
      value of any permutation of it at `k`. */
  lemma {:induction false} SplitAtIndex(a: seq<int>, s: seq<int>, k: int)
    requires 0 <= k < |a|
    requires multiset(a) == multiset(s)
    requires forall m :: 0 <= m < k ==> a[m] <= a[k]
    requires forall m :: k < m < |a| ==> a[k] <= a[m]
    ensures k < |s| && SortedOf(s)[k] == a[k]
  {
    assert a == a[..k] + [a[k]] + a[k + 1..];
    var lo, hi := multiset(a[..k]), multiset(a[k + 1..]);
    assert multiset(s) == lo + multiset{a[k]} + hi;
    forall x | x in lo ensures x <= a[k] {
      assert x in a[..k];
    }
    forall y | y in hi ensures a[k] <= y {
      assert y in a[k + 1..];
    }
    SplitDeterminesKth(s, k, lo, a[k], hi);
  }

  /** The first order statistic is the minimum. */
  lemma FirstIsMinimum(s: seq<int>)
    requires |s| >= 1
    ensures NthSmallest(s, 1) in s
    ensures forall x :: x in s ==> NthSmallest(s, 1) <= x
  {
    var t := SortedOf(s);
    assert t[0] in multiset(s) by { assert t[0] in multiset(t); }
    forall x | x in s ensures t[0] <= x {
      assert x in multiset(t);
    }
  }

  /** The last order statistic is the maximum. */
  lemma LastIsMaximum(s: seq<int>)
    requires |s| >= 1
    ensures NthSmallest(s, |s|) in s
    ensures forall x :: x in s ==> x <= NthSmallest(s, |s|)
  {
    var t := SortedOf(s);
    assert t[|s| - 1] in multiset(s) by { assert t[|s| - 1] in multiset(t); }
    forall x | x in s ensures x <= t[|s| - 1] {
      assert x in multiset(t);
    }
  }

  /** Scenario: [5, 1, 1, 3] with n = 2 gives 1 (a duplicate spans rank 2). */
  lemma ScenarioDuplicates()
    ensures NthSmallest([5, 1, 1, 3], 2) == 1
  {
  }

  /** Scenario: [7, 2, 9, 4, 1] with n = 3 gives 4. */
  lemma ScenarioMiddle()
    ensures NthSmallest([7, 2, 9, 4, 1], 3) == 4
  {
  }

  /** Scenario: [3, 3, 3] with n = 2 gives 3. */
  lemma ScenarioAllEqual()
    ensures NthSmallest([3, 3, 3], 2) == 3
  {
  }
}
