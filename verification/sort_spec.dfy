/**
  What it means for an integer sequence to be sorted ascending, and the
  reference definition of the two-way merge that merge sort performs.
  The sorting methods in module Sorting are proved against these.
*/
module SortSpec {

  /** Every element is at most every element after it (non-decreasing order). */
  predicate Sorted(s: seq<int>) {
    forall i, j :: 0 <= i < j < |s| ==> s[i] <= s[j]
  }

  /** The slice [lo, hi) of `s` is non-decreasing. */
  predicate SortedRange(s: seq<int>, lo: int, hi: int)
    requires 0 <= lo <= hi <= |s|
  {
    forall i, j :: lo <= i < j < hi ==> s[i] <= s[j]
  }

  /** Every element of [0, mid) is at most every element of [mid, hi). */
  predicate Partitioned(s: seq<int>, mid: int, hi: int)
    requires 0 <= mid <= hi <= |s|
  {
    forall i, j :: 0 <= i < mid <= j < hi ==> s[i] <= s[j]
  }

  /**
    The stable two-way merge: compare the two heads and take the left one
    on a tie, then append whatever remains of the other input.
  */
  function Merged(lo: seq<int>, hi: seq<int>): (m: seq<int>)
    decreases |lo| + |hi|
  {
    if |lo| == 0 then hi
    else if |hi| == 0 then lo
    else if lo[0] <= hi[0] then [lo[0]] + Merged(lo[1..], hi)
    else [hi[0]] + Merged(lo, hi[1..])
  }

  /** The merge keeps every element of both inputs, with its multiplicity. */
  lemma {:induction false} MergedPermutation(lo: seq<int>, hi: seq<int>)
    ensures multiset(Merged(lo, hi)) == multiset(lo) + multiset(hi)
    decreases |lo| + |hi|
  {
    if |lo| == 0 || |hi| == 0 {
    } else if lo[0] <= hi[0] {
      MergedPermutation(lo[1..], hi);
      ConsMultiset(lo[0], Merged(lo[1..], hi), lo[1..], hi);
      assert lo == [lo[0]] + lo[1..];
    } else {
      MergedPermutation(lo, hi[1..]);
      ConsMultiset(hi[0], Merged(lo, hi[1..]), hi[1..], lo);
      assert hi == [hi[0]] + hi[1..];
    }
  }

  /** Putting x in front of both sides of a multiset equation keeps it. */
  lemma ConsMultiset(x: int, rest: seq<int>, xs: seq<int>, other: seq<int>)
    requires multiset(rest) == multiset(xs) + multiset(other)
    ensures multiset([x] + rest) == multiset([x] + xs) + multiset(other)
  {
  }

  /** The merge of two sorted sequences is sorted. */
  lemma {:induction false} MergedSorted(lo: seq<int>, hi: seq<int>)
    requires Sorted(lo) && Sorted(hi)
    ensures Sorted(Merged(lo, hi))
    ensures |Merged(lo, hi)| == |lo| + |hi|
    decreases |lo| + |hi|
  {
    if |lo| == 0 || |hi| == 0 {
    } else if lo[0] <= hi[0] {
      MergedSorted(lo[1..], hi);
      MergedHead(lo[1..], hi, lo[0]);
    } else {
      MergedSorted(lo, hi[1..]);
      MergedHead(lo, hi[1..], hi[0]);
    }
  }

  /** A value no larger than either input's head is no larger than any element of the merge. */
  lemma {:induction false} MergedHead(lo: seq<int>, hi: seq<int>, x: int)
    requires Sorted(lo) && Sorted(hi)
    requires |lo| > 0 ==> x <= lo[0]
    requires |hi| > 0 ==> x <= hi[0]
    ensures forall k :: 0 <= k < |Merged(lo, hi)| ==> x <= Merged(lo, hi)[k]
  {
    MergedPermutation(lo, hi);
    forall k | 0 <= k < |Merged(lo, hi)|
      ensures x <= Merged(lo, hi)[k]
    {
      var m := Merged(lo, hi);
      assert m[k] in multiset(m);
      assert m[k] in multiset(lo) || m[k] in multiset(hi);
      if m[k] in multiset(lo) {
        var p :| 0 <= p < |lo| && lo[p] == m[k];
        assert lo[0] <= lo[p];
      } else {
        var p :| 0 <= p < |hi| && hi[p] == m[k];
        assert hi[0] <= hi[p];
      }
    }
  }

  /**
    Exchange of slots i and j through a temporary, written in the order the
    Java code writes it: slot i takes s[j], then slot j takes the saved s[i].
  */
  function Swap(s: seq<int>, i: int, j: int): (r: seq<int>)
    requires 0 <= i < |s| && 0 <= j < |s|
    ensures |r| == |s| && r[i] == s[j] && r[j] == s[i]
    ensures forall k :: 0 <= k < |s| && k != i && k != j ==> r[k] == s[k]
    ensures multiset(r) == multiset(s)
  {
    s[i := s[j]][j := s[i]]
  }

  /** Two permutations of each other that agree past slot n permute their prefixes [0, n). */
  lemma SamePrefixMultiset(a: seq<int>, b: seq<int>, n: int)
    requires 0 <= n <= |a| == |b|
    requires multiset(a) == multiset(b)
    requires forall k :: n <= k < |a| ==> a[k] == b[k]
    ensures multiset(a[..n]) == multiset(b[..n])
  {
    assert a[n..] == b[n..];
    assert a == a[..n] + a[n..];
    assert b == b[..n] + b[n..];
    assert multiset(a) == multiset(a[..n]) + multiset(a[n..]);
    assert multiset(b) == multiset(b[..n]) + multiset(b[n..]);
    assert multiset(a[..n]) == multiset(a) - multiset(a[n..]);
    assert multiset(b[..n]) == multiset(b) - multiset(b[n..]);
  }

  /** The head of a sorted sequence is at most every element it holds. */
  lemma SortedHeadIsLeast(s: seq<int>, x: int)
    requires Sorted(s) && x in multiset(s)
    ensures |s| > 0 && s[0] <= x
  {
  }

  /** Removing the head of two sequences that share it keeps their multisets equal. */
  lemma TailsSameMultiset(a: seq<int>, b: seq<int>)
    requires |a| > 0 && |b| > 0 && a[0] == b[0]
    requires multiset(a) == multiset(b)
    ensures multiset(a[1..]) == multiset(b[1..])
  {
    assert a == [a[0]] + a[1..];
    assert b == [b[0]] + b[1..];
    assert multiset(a) == multiset{a[0]} + multiset(a[1..]);
    assert multiset(b) == multiset{a[0]} + multiset(b[1..]);
    assert multiset(a[1..]) == multiset(a) - multiset{a[0]};
    assert multiset(b[1..]) == multiset(b) - multiset{a[0]};
  }

  /**
    Sorting has a single answer: two sorted sequences holding the same
    multiset of elements are equal.
  */
  lemma {:induction false} SortedPermutationUnique(a: seq<int>, b: seq<int>)
    requires Sorted(a) && Sorted(b)
    requires multiset(a) == multiset(b)
    ensures a == b
    decreases |a|
  {
    if |a| == 0 {
      assert |multiset(b)| == 0;
    } else {
      assert a[0] in multiset(a);
      SortedHeadIsLeast(b, a[0]);
      assert b[0] in multiset(b);
      SortedHeadIsLeast(a, b[0]);
      TailsSameMultiset(a, b);
      SortedPermutationUnique(a[1..], b[1..]);
      assert a == [a[0]] + a[1..];
      assert b == [b[0]] + b[1..];
    }
  }
}
