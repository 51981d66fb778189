/**
  The summary statistics that AlgorithmAnalysis.printResults reports for
  one algorithm at one array size: fastest, slowest and average of RUNS
  timing samples. The Java method sorts the samples with the library sort
  first; here the samples arrive already sorted. The 64-bit sum is an
  unbounded integer.
*/
module Analysis {
  import opened SortSpec
  import JavaInt

  /** Number of timed trials per algorithm and size. */
  const RUNS := 10

  /** Fastest, slowest and truncated mean of one sample set, in nanoseconds. */
  datatype Summary = Summary(fastest: int, slowest: int, average: int)

  /** No sample is negative, as holds for measured durations. */
  predicate NonNegative(s: seq<int>) {
    forall k :: 0 <= k < |s| ==> s[k] >= 0
  }

  /** Sum of all samples; a sum of non-negative durations is non-negative. */
  function Sum(s: seq<int>): (total: int)
    ensures NonNegative(s) ==> total >= 0
  {
    if |s| == 0 then 0 else s[0] + Sum(s[1..])
  }

  /**
    Reading the statistics off the sorted samples: the first is the
    fastest, the last the slowest, and the average is the sum divided by
    RUNS with Java's truncating division.
  */
  function Summarize(times: seq<int>): (r: Summary)
    requires |times| == RUNS && Sorted(times)
    ensures r.fastest == times[0] && r.slowest == times[RUNS - 1]
    ensures r.fastest in times && r.slowest in times
    ensures forall k :: 0 <= k < |times| ==> r.fastest <= times[k] <= r.slowest
    // the average is the mean rounded toward zero: the remainder of the sum
    // after RUNS * average has the sign of the sum and is less than RUNS
    ensures Sum(times) >= 0 ==> 0 <= Sum(times) - RUNS * r.average < RUNS
    ensures Sum(times) < 0 ==> -RUNS < Sum(times) - RUNS * r.average <= 0
    ensures r.fastest <= r.average <= r.slowest
  {
    var fastest := times[0];
    var slowest := times[RUNS - 1];
    SumBounds(times, fastest, slowest);
    Summary(fastest, slowest, JavaInt.Div(Sum(times), RUNS))
  }

  /** A sum of |s| terms, each within [lo, hi], lies within [|s| * lo, |s| * hi]. */
  lemma {:induction false} SumBounds(s: seq<int>, lo: int, hi: int)
    requires forall k :: 0 <= k < |s| ==> lo <= s[k] <= hi
    ensures |s| * lo <= Sum(s) <= |s| * hi
  {
    if |s| > 0 {
      SumBounds(s[1..], lo, hi);
      assert |s| * lo == lo + (|s| - 1) * lo;
      assert |s| * hi == hi + (|s| - 1) * hi;
    }
  }

  /** The sum of a concatenation is the sum of its parts. */
  lemma {:induction false} SumAppend(s: seq<int>, t: seq<int>)
    ensures Sum(s + t) == Sum(s) + Sum(t)
    decreases |s|
  {
    if |s| == 0 {
      assert s + t == t;
    } else {
      SumAppend(s[1..], t);
      assert (s + t)[1..] == s[1..] + t;
    }
  }

  /** Taking slot p out of a sequence takes its value out of the sum. */
  lemma SumRemove(b: seq<int>, p: int)
    requires 0 <= p < |b|
    ensures Sum(b) == b[p] + Sum(b[..p] + b[p + 1..])
  {
    var front, back := b[..p], b[p + 1..];
    SplitAt(b, p);
    SumAppend(front, [b[p]] + back);
    SumCons(b[p], back);
    SumAppend(front, back);
  }

  /** Slot p splits a sequence into the part before it, its value, and the part after it. */
  lemma SplitAt(b: seq<int>, p: int)
    requires 0 <= p < |b|
    ensures b == b[..p] + ([b[p]] + b[p + 1..])
  {
  }

  /** The sum of a sequence with x in front is x plus the sum of the rest. */
  lemma SumCons(x: int, t: seq<int>)
    ensures Sum([x] + t) == x + Sum(t)
  {
    assert ([x] + t)[1..] == t;
  }

  /**
    The sum depends only on the multiset of samples, so sorting them before
    summing, as printResults does, leaves the average unchanged.
  */
  lemma {:induction false} SumOfPermutation(a: seq<int>, b: seq<int>)
    requires multiset(a) == multiset(b)
    ensures Sum(a) == Sum(b)
    decreases |a|
  {
    if |a| == 0 {
      assert |multiset(b)| == 0;
    } else {
      assert a[0] in multiset(b);
      var p :| 0 <= p < |b| && b[p] == a[0];
      var rest := b[..p] + b[p + 1..];
      SumRemove(b, p);
      RemoveMatching(a, b, p);
      SumOfPermutation(a[1..], rest);
    }
  }

  /** Dropping the head of a and a slot of b holding the same value keeps the multisets equal. */
  lemma RemoveMatching(a: seq<int>, b: seq<int>, p: int)
    requires multiset(a) == multiset(b)
    requires |a| > 0 && 0 <= p < |b| && b[p] == a[0]
    ensures multiset(a[1..]) == multiset(b[..p] + b[p + 1..])
  {
    SplitAt(b, p);
    assert multiset(b) == multiset(b[..p]) + multiset{b[p]} + multiset(b[p + 1..]);
    assert a == [a[0]] + a[1..];
    assert multiset(a[1..]) == multiset(a) - multiset{a[0]};
  }
}
