/**
  The four sorts of class SortingAlgorithms. Each Java method sorts an
  `int[]` in place; here the array's contents are a value: a method receives
  the contents before the call and returns the contents after it, and every
  loop performs the same reads, comparisons and element writes as the Java
  loop it models. Elements are unbounded integers; the Java code only
  compares them, so no 32-bit arithmetic is involved.
*/
module Sorting {
  import opened SortSpec
  import JavaInt

  /**
    Bubble sort without early exit: pass i lets the inner loop carry the
    largest element of [0, n-i) up to slot n-i-1.
  */
  method BubbleSort(a0: seq<int>) returns (a: seq<int>)
    ensures |a| == |a0|
    ensures Sorted(a)
    ensures multiset(a) == multiset(a0)
    ensures Sorted(a0) ==> a == a0
  {
    a := a0;
    var n := |a|;
    var i := 0;
    while i < n - 1
      invariant 0 <= i <= n
      invariant |a| == n
      invariant multiset(a) == multiset(a0)
      // after pass i - 1 the last i slots hold the i largest elements, in order
      invariant SortedRange(a, n - i, n)
      invariant Partitioned(a, n - i, n)
    {
      ghost var before := a;
      a := BubblePass(a, n - i - 1);
      BubblePassExtendsSuffix(before, a, n - i - 1);
      i := i + 1;
    }
    if Sorted(a0) {
      SortedPermutationUnique(a, a0);
    }
  }

  /**
    One pass of the inner loop: j runs over [0, m) and adjacent slots j and
    j + 1 are swapped when out of order, so the pass ends with the largest
    element of [0, m] in slot m. Slots past m are never touched.
  */
  method BubblePass(a0: seq<int>, m: int) returns (a: seq<int>)
    requires 0 <= m < |a0|
    ensures |a| == |a0|
    ensures multiset(a) == multiset(a0)
    ensures forall k :: m < k < |a| ==> a[k] == a0[k]
    ensures forall k :: 0 <= k <= m ==> a[k] <= a[m]
  {
    a := a0;
    var j := 0;
    while j < m
      invariant 0 <= j <= m
      invariant |a| == |a0|
      invariant multiset(a) == multiset(a0)
      invariant forall k :: m < k < |a| ==> a[k] == a0[k]
      // the largest element of [0, j] has been carried up to slot j
      invariant forall k :: 0 <= k <= j ==> a[k] <= a[j]
    {
      if a[j] > a[j + 1] {
        a := Swap(a, j, j + 1);
      }
      j := j + 1;
    }
  }

  /**
    What one pass adds to the outer invariant: if the suffix [m+1, n) was
    sorted and no smaller than the prefix, then after the pass the suffix
    [m, n) is.
  */
  lemma BubblePassExtendsSuffix(before: seq<int>, after: seq<int>, m: int)
    requires 0 <= m < |before| == |after|
    requires SortedRange(before, m + 1, |before|) && Partitioned(before, m + 1, |before|)
    requires multiset(after) == multiset(before)
    requires forall k :: m < k < |after| ==> after[k] == before[k]
    requires forall k :: 0 <= k <= m ==> after[k] <= after[m]
    ensures SortedRange(after, m, |after|) && Partitioned(after, m, |after|)
  {
    SamePrefixMultiset(after, before, m + 1);
    assert after[m] in multiset(after[..m + 1]);
    var r :| 0 <= r <= m && before[r] == after[m];
    forall q | m < q < |after|
      ensures after[m] <= after[q]
    {
      assert after[q] == before[q];
    }
  }

  /**
    Insertion sort: for each i in [1, n), insert a[i] into the sorted
    prefix [0, i).
  */
  method InsertionSort(a0: seq<int>) returns (a: seq<int>)
    ensures |a| == |a0|
    ensures Sorted(a)
    ensures multiset(a) == multiset(a0)
    ensures Sorted(a0) ==> a == a0
  {
    a := a0;
    var n := |a|;
    var i := 1;
    while i < n
      invariant (n == 0 && i == 1) || 1 <= i <= n
      invariant |a| == n
      invariant multiset(a) == multiset(a0)
      // the prefix [0, i) is sorted at the top of every outer iteration
      invariant n > 0 ==> SortedRange(a, 0, i)
    {
      a := InsertKey(a, i);
      i := i + 1;
    }
    if Sorted(a0) {
      SortedPermutationUnique(a, a0);
    }
  }

  /**
    The body of the outer loop for one i: save key = a[i], shift every
    element of the sorted prefix that exceeds the key one slot right, and
    write the key into the gap at j + 1. Slots past i are not touched.
  */
  method InsertKey(a0: seq<int>, i: int) returns (a: seq<int>)
    requires 1 <= i < |a0|
    requires SortedRange(a0, 0, i)
    ensures |a| == |a0|
    ensures multiset(a) == multiset(a0)
    ensures SortedRange(a, 0, i + 1)
    ensures forall k :: i < k < |a| ==> a[k] == a0[k]
  {
    a := a0;
    var key := a[i];
    var j := i - 1;
    while j >= 0 && a[j] > key
      // j + 1, the gap the key will fill, stays within [0, i]
      invariant -1 <= j < i
      invariant |a| == |a0|
      // slots [0, j] and (i, n) are untouched, [j+1, i) moved one slot right
      invariant forall k :: 0 <= k <= j ==> a[k] == a0[k]
      invariant forall k :: j + 2 <= k <= i ==> a[k] == a0[k - 1]
      invariant forall k :: i < k < |a| ==> a[k] == a0[k]
      // everything shifted is larger than the key
      invariant forall k :: j + 1 <= k < i ==> key < a0[k]
    {
      a := a[j + 1 := a[j]];
      j := j - 1;
    }
    a := a[j + 1 := key];
    InsertionPlacesKey(a0, i, j, a);
  }

  /**
    Dropping a0[i] into the sorted prefix right after the last element not
    larger than it, with the larger ones moved one slot right, gives a
    sorted prefix [0, i] holding the same elements.
  */
  lemma InsertionPlacesKey(a0: seq<int>, i: int, j: int, r: seq<int>)
    requires 1 <= i < |a0| == |r| && -1 <= j < i
    requires SortedRange(a0, 0, i)
    requires j >= 0 ==> a0[j] <= a0[i]
    requires forall k :: j + 1 <= k < i ==> a0[i] < a0[k]
    requires forall k :: 0 <= k <= j ==> r[k] == a0[k]
    requires r[j + 1] == a0[i]
    requires forall k :: j + 2 <= k <= i ==> r[k] == a0[k - 1]
    requires forall k :: i < k < |r| ==> r[k] == a0[k]
    ensures multiset(r) == multiset(a0)
    ensures SortedRange(r, 0, i + 1)
  {
    RotationPermutes(a0, i, j, r);
    forall p, q | 0 <= p < q < i + 1
      ensures r[p] <= r[q]
    {
      if q <= j {
        assert r[p] == a0[p] && r[q] == a0[q];
      } else if q == j + 1 {
        assert r[p] == a0[p];
      } else if p == j + 1 {
        assert r[q] == a0[q - 1];
      } else if p <= j {
        assert r[p] == a0[p] && r[q] == a0[q - 1];
      } else {
        assert r[p] == a0[p - 1] && r[q] == a0[q - 1];
      }
    }
  }

  /** Moving slot i down to j + 1 and shifting [j+1, i) up by one keeps the multiset. */
  lemma RotationPermutes(a0: seq<int>, i: int, j: int, r: seq<int>)
    requires 0 <= i < |a0| == |r| && -1 <= j < i
    requires forall k :: 0 <= k <= j ==> r[k] == a0[k]
    requires r[j + 1] == a0[i]
    requires forall k :: j + 2 <= k <= i ==> r[k] == a0[k - 1]
    requires forall k :: i < k < |r| ==> r[k] == a0[k]
    ensures multiset(r) == multiset(a0)
  {
    var front, moved, back := a0[..j + 1], a0[j + 1..i], a0[i + 1..];
    RotationShape(a0, i, j, r);
    assert r == front + ([a0[i]] + moved) + back;
    assert a0 == front + a0[j + 1..i + 1] + back;
    assert a0[j + 1..i + 1] == moved + [a0[i]];
    assert multiset([a0[i]] + moved) == multiset(moved + [a0[i]]);
  }

  /** The rotated sequence, written as its four pieces. */
  lemma RotationShape(a0: seq<int>, i: int, j: int, r: seq<int>)
    requires 0 <= i < |a0| == |r| && -1 <= j < i
    requires forall k :: 0 <= k <= j ==> r[k] == a0[k]
    requires r[j + 1] == a0[i]
    requires forall k :: j + 2 <= k <= i ==> r[k] == a0[k - 1]
    requires forall k :: i < k < |r| ==> r[k] == a0[k]
    ensures r == a0[..j + 1] + [a0[i]] + a0[j + 1..i] + a0[i + 1..]
  {
  }

  /**
    Selection sort: for each i in [0, n-1), swap the minimum of the suffix
    [i, n) into slot i.
  */
  method SelectionSort(a0: seq<int>) returns (a: seq<int>)
    ensures |a| == |a0|
    ensures Sorted(a)
    ensures multiset(a) == multiset(a0)
    ensures Sorted(a0) ==> a == a0
  {
    a := a0;
    var n := |a|;
    var i := 0;
    while i < n - 1
      invariant 0 <= i <= n
      invariant |a| == n
      invariant multiset(a) == multiset(a0)
      // the prefix [0, i) is sorted and no larger than anything in [i, n)
      invariant SortedRange(a, 0, i)
      invariant Partitioned(a, i, n)
    {
      var minIdx := MinIndexFrom(a, i);
      SelectionStep(a, i, minIdx);
      a := Swap(a, minIdx, i);
      i := i + 1;
    }
    if Sorted(a0) {
      SortedPermutationUnique(a, a0);
    }
  }

  /**
    The inner scan of selection sort: the position of the first minimum of
    the suffix [i, n). A later element replaces the candidate only when it
    is strictly smaller.
  */
  method MinIndexFrom(a: seq<int>, i: int) returns (minIdx: int)
    requires 0 <= i < |a|
    ensures i <= minIdx < |a|
    ensures forall k :: i <= k < |a| ==> a[minIdx] <= a[k]
    ensures forall k :: i <= k < minIdx ==> a[minIdx] < a[k]
  {
    minIdx := i;
    var j := i + 1;
    while j < |a|
      invariant i + 1 <= j <= |a|
      invariant i <= minIdx < j
      invariant forall k :: i <= k < j ==> a[minIdx] <= a[k]
      invariant forall k :: i <= k < minIdx ==> a[minIdx] < a[k]
    {
      if a[j] < a[minIdx] {
        minIdx := j;
      }
      j := j + 1;
    }
  }

  /**
    Swapping the suffix minimum into slot i extends the sorted, partitioned
    prefix by one slot.
  */
  lemma SelectionStep(a: seq<int>, i: int, m: int)
    requires 0 <= i <= m < |a|
    requires SortedRange(a, 0, i) && Partitioned(a, i, |a|)
    requires forall k :: i <= k < |a| ==> a[m] <= a[k]
    ensures SortedRange(Swap(a, m, i), 0, i + 1)
    ensures Partitioned(Swap(a, m, i), i + 1, |a|)
  {
  }

  /**
    Top-down merge sort: split at n / 2 into fresh halves, sort each
    recursively, and merge them back over the whole array.
  */
  method MergeSort(a0: seq<int>) returns (a: seq<int>)
    ensures |a| == |a0|
    ensures Sorted(a)
    ensures multiset(a) == multiset(a0)
    ensures |a0| < 2 ==> a == a0
    ensures Sorted(a0) ==> a == a0
    decreases |a0|
  {
    if |a0| < 2 {
      return a0;
    }
    var mid := JavaInt.Div(|a0|, 2);
    var lo := a0[..mid];
    var hi := a0[mid..];
    assert a0 == lo + hi;

    lo := MergeSort(lo);
    hi := MergeSort(hi);

    a := Merge(a0, lo, hi);
    MergedSorted(lo, hi);
    MergedPermutation(lo, hi);
    if Sorted(a0) {
      SortedPermutationUnique(a, a0);
    }
  }

  /**
    The merge helper: overwrites `dst`, the contents of the Java `array`
    (as long as `lo` and `hi` together), with the merge of `lo` and `hi`:
    the first loop copies the smaller head while both inputs have elements,
    then two draining loops copy whatever is left. The inputs are values
    and never written.
  */
  method Merge(dst: seq<int>, lo: seq<int>, hi: seq<int>) returns (a: seq<int>)
    requires |dst| == |lo| + |hi|
    ensures a == Merged(lo, hi)
  {
    var i, j, k;
    a, i, j, k := MergeHeads(dst, lo, hi);
    // one input is exhausted, so at most one of the two draining loops copies anything
    ghost var done, restLo, restHi := a[..k], lo[i..], hi[j..];
    a, k, i := Drain(a, k, lo, i);
    a, k, j := Drain(a, k, hi, j);
    assert a[..k] == done + restLo + restHi;
    assert a[..k] == a;
  }

  /**
    The first loop of the merge: while both inputs have elements, copy the
    smaller head into slot k, taking from `lo` on ties. It stops with one
    input exhausted and the slots [0, k) holding the start of the merge.
  */
  method MergeHeads(dst: seq<int>, lo: seq<int>, hi: seq<int>) returns (a: seq<int>, i: int, j: int, k: int)
    requires |dst| == |lo| + |hi|
    ensures 0 <= i <= |lo| && 0 <= j <= |hi| && k == i + j
    ensures i == |lo| || j == |hi|
    ensures |a| == |dst|
    ensures a[..k] + lo[i..] + hi[j..] == Merged(lo, hi)
  {
    a := dst;
    i, j, k := 0, 0, 0;
    MergeStart(a, lo, hi);
    while i < |lo| && j < |hi|
      invariant 0 <= i <= |lo| && 0 <= j <= |hi| && k == i + j
      invariant |a| == |lo| + |hi|
      invariant MergeProgress(a, lo, hi, i, j)
    {
      if lo[i] <= hi[j] {
        MergeStepLeft(a, k, lo, hi, i, j);
        a, k, i := a[k := lo[i]], k + 1, i + 1;
      } else {
        MergeStepRight(a, k, lo, hi, i, j);
        a, k, j := a[k := hi[j]], k + 1, j + 1;
      }
    }
    MergedRest(a, k, lo, hi, i, j);
  }

  /**
    A draining loop of the merge: copy src[i..] into slots k, k+1, ... of
    `a`, advancing k and i together; slots past the copied run keep their
    contents.
  */
  method Drain(a0: seq<int>, k0: int, src: seq<int>, i0: int) returns (a: seq<int>, k: int, i: int)
    requires 0 <= i0 <= |src| && 0 <= k0 && k0 + (|src| - i0) <= |a0|
    ensures |a| == |a0| && i == |src| && k == k0 + (|src| - i0)
    ensures a[..k] == a0[..k0] + src[i0..]
    ensures a[k..] == a0[k..]
  {
    a, k, i := a0, k0, i0;
    while i < |src|
      invariant i0 <= i <= |src| && k == k0 + (i - i0)
      invariant |a| == |a0|
      invariant a[..k] + src[i..] == a0[..k0] + src[i0..]
      invariant a[k..] == a0[k..]
    {
      assert src[i..] == [src[i]] + src[i + 1..];
      WritePrefix(a, k, src[i], src[i + 1..]);
      a, k, i := a[k := src[i]], k + 1, i + 1;
    }
  }

  /**
    The invariant of the merge loops: the slots [0, i + j) written so far,
    followed by the merge of what is left of both inputs, are the whole merge.
  */
  predicate MergeProgress(a: seq<int>, lo: seq<int>, hi: seq<int>, i: int, j: int)
    requires 0 <= i <= |lo| && 0 <= j <= |hi| && i + j <= |a|
  {
    a[..i + j] + Merged(lo[i..], hi[j..]) == Merged(lo, hi)
  }

  /** Before anything is written, MergeProgress holds trivially. */
  lemma MergeStart(a: seq<int>, lo: seq<int>, hi: seq<int>)
    ensures MergeProgress(a, lo, hi, 0, 0)
  {
  }

  /** Copying the left head, when it is not larger, keeps MergeProgress (ties go left). */
  lemma MergeStepLeft(a: seq<int>, k: int, lo: seq<int>, hi: seq<int>, i: int, j: int)
    requires 0 <= i < |lo| && 0 <= j < |hi| && k == i + j && |a| == |lo| + |hi|
    requires lo[i] <= hi[j]
    requires MergeProgress(a, lo, hi, i, j)
    ensures MergeProgress(a[k := lo[i]], lo, hi, i + 1, j)
  {
  }

  /** Copying the right head, when it is strictly smaller, keeps MergeProgress. */
  lemma MergeStepRight(a: seq<int>, k: int, lo: seq<int>, hi: seq<int>, i: int, j: int)
    requires 0 <= i < |lo| && 0 <= j < |hi| && k == i + j && |a| == |lo| + |hi|
    requires hi[j] < lo[i]
    requires MergeProgress(a, lo, hi, i, j)
    ensures MergeProgress(a[k := hi[j]], lo, hi, i, j + 1)
  {
  }

  /** Writing v at slot k extends the written prefix [0, k) by v. */
  lemma WritePrefix(a: seq<int>, k: int, v: int, rest: seq<int>)
    requires 0 <= k < |a|
    ensures a[k := v][..k + 1] + rest == a[..k] + ([v] + rest)
  {
  }

  /**
    Once one input is exhausted, the rest of the merge is the other input's
    remainder, so the written prefix and the two remainders make the merge.
  */
  lemma MergedRest(a: seq<int>, k: int, lo: seq<int>, hi: seq<int>, i: int, j: int)
    requires 0 <= i <= |lo| && 0 <= j <= |hi| && k == i + j <= |a|
    requires i == |lo| || j == |hi|
    requires MergeProgress(a, lo, hi, i, j)
    ensures a[..k] + lo[i..] + hi[j..] == Merged(lo, hi)
  {
  }

  /**
    The worked example: whichever of the four sorts is applied to
    [5, 3, 1, 4, 2], a sorted permutation of it can only be [1, 2, 3, 4, 5].
  */
  lemma SortsExample(a: seq<int>)
    requires Sorted(a) && multiset(a) == multiset([5, 3, 1, 4, 2])
    ensures a == [1, 2, 3, 4, 5]
  {
  }

  /** Each of the four sorts, run on [5, 3, 1, 4, 2], produces [1, 2, 3, 4, 5]. */
  method SortExamples() returns (bubble: seq<int>, insertion: seq<int>, selection: seq<int>, merge: seq<int>)
    ensures bubble == [1, 2, 3, 4, 5] && insertion == [1, 2, 3, 4, 5]
    ensures selection == [1, 2, 3, 4, 5] && merge == [1, 2, 3, 4, 5]
  {
    var input := [5, 3, 1, 4, 2];
    bubble := BubbleSort(input);
    SortsExample(bubble);
    insertion := InsertionSort(input);
    SortsExample(insertion);
    selection := SelectionSort(input);
    SortsExample(selection);
    merge := MergeSort(input);
    SortsExample(merge);
  }
}
