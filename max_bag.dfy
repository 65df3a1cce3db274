/** The max-ordered priority queue the heap strategy relies on, kept abstract:
    a bag of integers that exposes its maximum and supports insertion and
    removal of the maximum. Only the behaviour the selection needs is modelled,
    not the binary-heap layout behind it. */
module MaxBags {
  import opened OrderStatistic

  /** A position holding the largest element of a non-empty sequence. */
  function ArgMax(s: seq<int>): (i: nat)
    requires s != []
    ensures i < |s|
    ensures forall j :: 0 <= j < |s| ==> s[j] <= s[i]
  {
    if |s| == 1 then 0
    else
      var t := ArgMax(s[1..]);
      if s[0] >= s[1 + t] then 0 else 1 + t
  }

  /** A priority queue ordered so that its head is the largest element. */
  class MaxBag {
    /** The held values; their order carries no meaning. */
    var elems: seq<int>

    /** The held values as a bag. */
    ghost function Contents(): multiset<int>
      reads this
    {
      multiset(elems)
    }

    constructor ()
      ensures Contents() == multiset{}
    {
      elems := [];
    }

    /** Number of held values, duplicates counted. */
    function Size(): (n: nat)
      reads this
      ensures n == |Contents()|
    {
      |elems|
    }

    /** The head of the queue: a held value no smaller than any other. */
    function Peek(): (m: int)
      reads this
      requires Size() > 0
      ensures m in Contents()
      ensures AtMost(Contents(), m)
    {
      var i := ArgMax(elems);
      assert forall x :: x in Contents() ==> x <= elems[i] by {
        forall x | x in Contents() ensures x <= elems[i] {
          assert x in elems;
        }
      }
      elems[i]
    }

    /** Adds one copy of `x`. */
    method Offer(x: int)
      modifies this
      ensures Contents() == old(Contents()) + multiset{x}
    {
      elems := elems + [x];
    }

    /** Removes one copy of the head and returns it. */
    method Poll() returns (m: int)
      requires Size() > 0
      modifies this
      ensures m == old(Peek())
      ensures Contents() == old(Contents()) - multiset{m}
    {
      var i := ArgMax(elems);
      m := elems[i];
      assert elems == elems[..i] + [m] + elems[i + 1..];
      elems := elems[..i] + elems[i + 1..];
    }
  }
}
