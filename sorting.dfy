/** Ordering rows by their creation time, ascending or descending: what
    `ORDER BY created_at ASC` does in the store and what sort.Slice does with
    a Before or After comparison in the message service. */
module Sorting {

  /** x may stand before y in the requested direction. */
  predicate InOrder(x: int, y: int, descending: bool)
  {
    if descending then x >= y else x <= y
  }

  /** Non-decreasing keys (ascending) or non-increasing keys (descending). */
  ghost predicate SortedBy<T>(s: seq<T>, key: T -> int, descending: bool)
  {
    forall i, j :: 0 <= i < j < |s| ==> InOrder(key(s[i]), key(s[j]), descending)
  }

  /** Sorts a in place by key, by insertion with adjacent swaps. The result is
      a permutation of the input; the order of equal keys is not promised,
      just as sort.Slice is not stable. */
  method SortBy<T>(a: array<T>, key: T -> int, descending: bool)
    modifies a
    ensures SortedBy(a[..], key, descending)
    ensures multiset(a[..]) == old(multiset(a[..]))
  {
    var i := 0;
    while i < a.Length
      invariant 0 <= i <= a.Length
      invariant forall p, q :: 0 <= p < q < i ==> InOrder(key(a[p]), key(a[q]), descending)
      invariant multiset(a[..]) == old(multiset(a[..]))
    {
      var j := i;
      while j > 0 && !InOrder(key(a[j - 1]), key(a[j]), descending)
        invariant 0 <= j <= i
        invariant forall p, q :: 0 <= p < q <= i && p != j && q != j ==> InOrder(key(a[p]), key(a[q]), descending)
        invariant forall q :: j < q <= i ==> InOrder(key(a[j]), key(a[q]), descending)
        invariant multiset(a[..]) == old(multiset(a[..]))
      {
        a[j - 1], a[j] := a[j], a[j - 1];
        j := j - 1;
      }
      i := i + 1;
    }
  }
}
