/**
  The two searches of class SearchingAlgorithms. The searched array is only
  read, so it is passed as a sequence value; -1 is the not-found sentinel.
*/
module Searching {
  import opened SortSpec
  import JavaInt

  /** Not-found result of both searches. */
  const NotFound := -1

  /**
    Linear search: scan indices in increasing order and stop at the first
    slot equal to x.
  */
  method LinearSearch(a: seq<int>, x: int) returns (r: int)
    ensures r == NotFound <==> x !in a
    ensures r != NotFound ==> 0 <= r < |a| && a[r] == x
    ensures r != NotFound ==> forall k :: 0 <= k < r ==> a[k] != x
  {
    var i := 0;
    while i < |a|
      invariant 0 <= i <= |a|
      invariant forall k :: 0 <= k < i ==> a[k] != x
    {
      if a[i] == x {
        return i;
      }
      i := i + 1;
    }
    return NotFound;
  }

  /**
    The probe of binary search, `lo + (hi - lo) / 2`, which avoids the
    overflow of `(lo + hi) / 2`: the lower middle of the closed interval.
  */
  function Midpoint(lo: int, hi: int): (mid: int)
    requires lo <= hi
    ensures lo <= mid <= hi
    ensures mid - lo <= hi - mid <= mid - lo + 1
  {
    lo + JavaInt.Div(hi - lo, 2)
  }

  /**
    Binary search over the closed interval [lo, hi], which starts as the
    whole array: probe the midpoint, return it on a hit, otherwise discard
    the half that cannot hold x. Stops with -1 once the interval is empty.
  */
  method BinarySearch(a: seq<int>, x: int) returns (r: int)
    requires Sorted(a)
    ensures r == NotFound <==> x !in a
    ensures r != NotFound ==> 0 <= r < |a| && a[r] == x
  {
    var lo, hi := 0, |a| - 1;
    while lo <= hi
      invariant 0 <= lo <= hi + 1 <= |a|
      // x occurs nowhere outside the interval [lo, hi]
      invariant forall k :: 0 <= k < |a| && (k < lo || hi < k) ==> a[k] != x
      decreases hi - lo
    {
      var mid := Midpoint(lo, hi);
      if a[mid] == x {
        return mid;
      }
      if a[mid] < x {
        lo := mid + 1;
      } else {
        hi := mid - 1;
      }
    }
    return NotFound;
  }

  /**
    The worked examples: 4 is found at index 3 of [1, 2, 3, 4, 5] by linear
    search, and binary search reports 6 as absent.
  */
  method SearchExamples() returns (linear: int, binary: int)
    ensures linear == 3 && binary == NotFound
  {
    var a := [1, 2, 3, 4, 5];
    linear := LinearSearch(a, 4);
    binary := BinarySearch(a, 6);
  }

  /**
    The search benchmark's target: after sorting, it looks for the element
    at index length / 2, so on any non-empty sorted array both searches
    find a slot holding that value, and linear search finds its first one.
  */
  method SearchMiddle(a: seq<int>) returns (target: int, linear: int, binary: int)
    requires Sorted(a) && |a| > 0
    ensures target == a[|a| / 2]
    ensures 0 <= linear <= |a| / 2 && a[linear] == target
    ensures 0 <= binary < |a| && a[binary] == target
  {
    var mid := JavaInt.Div(|a|, 2);
    target := a[mid];
    linear := LinearSearch(a, target);
    binary := BinarySearch(a, target);
  }
}
