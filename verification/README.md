# Sorting and searching benchmark — verified model of the algorithms

The program times four sorts (bubble, insertion, selection, merge) and two
searches (linear, binary) on random integer arrays of several sizes, and
prints the fastest, slowest and average time of ten trials per algorithm.
This project models the algorithms of `SortingAlgorithms` and
`SearchingAlgorithms`, and the min/max/mean arithmetic of
`AlgorithmAnalysis.printResults`. It proves what each one computes.

Modules:

- `SortSpec` (`sort_spec.dfy`) defines sortedness and the temp-variable swap.
  It also defines `Merged`, a reference definition of the two-way merge that
  takes the left element on ties. Its lemmas prove that a merge is a sorted
  permutation, and that a sorted permutation of a sequence is unique.
- `Sorting` (`sorting.dfy`) holds the four sorts and the merge helper.
- `Searching` (`searching.dfy`) holds linear search, binary search and the
  overflow-safe midpoint.
- `JavaInt` (`java_int.dfy`) holds Java's truncating integer division.
- `Analysis` (`analysis.dfy`) holds the `RUNS` constant and the summary
  statistics.

The Java sorts work in place on an `int[]`. In the model an array's contents
are a `seq<int>`: each method takes the contents before the call and returns
the contents after it. Every loop reads, compares and writes the same slots
in the same order as the Java loop it models. A Java inner loop or loop body
is a separate helper method or lemma here (`BubblePass`, `InsertKey`,
`MinIndexFrom`, `MergeHeads`, `Drain`), so each proof stays small. Because the inputs are
values, "the search does not modify the array" and "merge does not modify
`lo` or `hi`" hold by construction. The elements are unbounded integers. The
Java code only compares them, so no 32-bit arithmetic is involved. The two
divisions on indices, `array.length / 2` in `mergeSort` and
`lo + (hi - lo) / 2` in `binarySearch`, both go through Java's truncating
division (`JavaInt.Div`). Their dividends are never negative, so Dafny's own
`/` would give the same quotients.

Sortedness means non-decreasing order. "Permutation" means equal multisets.
Each sort also ensures `Sorted(a0) ==> a == a0`, the idempotence promise:
this follows from `SortedPermutationUnique`.

## Model

| member | source | states |
|---|---|---|
| `SortSpec.Swap` | src/AlgorithmAnalysis.java:83-85 | The three-step exchange through `temp` puts each slot's value in the other, leaves every other slot alone and keeps the multiset |
| `SortSpec.MergedPermutation` | src/AlgorithmAnalysis.java:136-151 | The merge of `lo` and `hi` holds exactly multiset(lo) + multiset(hi) |
| `SortSpec.MergedSorted` | src/AlgorithmAnalysis.java:136-151 | Merging two sorted inputs gives a sorted sequence as long as both inputs together |
| `SortSpec.SortedPermutationUnique` | src/AlgorithmAnalysis.java:77-152 | Two sorted sequences with the same multiset are equal, so every correct sort yields the same output and returns already-sorted input unchanged |
| `Sorting.BubbleSort` | src/AlgorithmAnalysis.java:78-89 | The result is sorted and a permutation of the input, and is the input itself when that was sorted. Outer invariant: after pass i the last i+1 slots are sorted and no smaller than anything before them |
| `Sorting.BubblePass` | src/AlgorithmAnalysis.java:81-87 | One inner pass over j in [0, m) permutes [0, m], leaves the slots past m untouched and leaves the largest element of [0, m] in slot m |
| `Sorting.BubblePassExtendsSuffix` | src/AlgorithmAnalysis.java:80-88 | Given a pass that keeps the multiset and leaves the largest element of [0, m] in slot m, the sorted, partitioned suffix grows by one slot |
| `Sorting.InsertionSort` | src/AlgorithmAnalysis.java:91-102 | The result is sorted and a permutation of the input, and is the input when that was sorted. At the top of outer iteration i the prefix [0, i) is sorted |
| `Sorting.InsertKey` | src/AlgorithmAnalysis.java:94-100 | The shift loop keeps j+1 within [0, i]. Inserting a[i] into the sorted prefix [0, i) gives a sorted prefix [0, i], keeps the multiset and leaves the slots past i alone |
| `Sorting.RotationPermutes` | src/AlgorithmAnalysis.java:96-100 | Moving slot i down to the gap and the shifted run up one slot keeps the multiset of the whole array |
| `Sorting.InsertionPlacesKey` | src/AlgorithmAnalysis.java:96-100 | Writing the key just after the last prefix element not larger than it, after the larger ones moved right, gives a sorted permutation of [0, i] |
| `Sorting.SelectionSort` | src/AlgorithmAnalysis.java:104-117 | The result is sorted and a permutation of the input, and is the input when that was sorted. After iteration i the prefix [0, i] is sorted and no larger than any element of the suffix |
| `Sorting.MinIndexFrom` | src/AlgorithmAnalysis.java:107-112 | The scan returns an index in [i, n) holding the minimum of the suffix. It is the first such index, because only a strictly smaller element replaces the candidate |
| `Sorting.SelectionStep` | src/AlgorithmAnalysis.java:113-115 | Swapping the suffix minimum into slot i extends the sorted prefix, and the partition, to slot i |
| `Sorting.MergeSort` | src/AlgorithmAnalysis.java:119-134 | Arrays of length 0 or 1 come back unchanged. Every result is sorted and a permutation of the input, and equals the input when that was sorted. Recursion is on the strictly shorter halves [0, n/2) and [n/2, n) |
| `Sorting.Merge` | src/AlgorithmAnalysis.java:136-151 | Given a destination as long as `lo` and `hi` together, the three loops write exactly the reference merge `Merged(lo, hi)`, taking from `lo` on ties, with every index in bounds |
| `Sorting.Drain` | src/AlgorithmAnalysis.java:145-150 | A draining loop appends the rest of one input after the written prefix and leaves later slots alone |
| `Sorting.MergeHeads` | src/AlgorithmAnalysis.java:137-144 | The first loop stops with one input exhausted. The slots it wrote, followed by the merge of what is left, are the whole reference merge |
| `Sorting.MergeStepLeft` | src/AlgorithmAnalysis.java:139-140 | When lo[i] <= hi[j], copying lo[i] to slot k keeps the loop invariant: ties go left |
| `Sorting.MergeStepRight` | src/AlgorithmAnalysis.java:141-142 | When hi[j] < lo[i], copying hi[j] to slot k keeps the loop invariant |
| `Sorting.MergedRest` | src/AlgorithmAnalysis.java:138-150 | Once the first loop ends, one input is exhausted, so the rest of the merge is the other input's remainder |
| `Sorting.SortsExample` | src/AlgorithmAnalysis.java:77-152 | Any sorted permutation of [5, 3, 1, 4, 2] is [1, 2, 3, 4, 5] |
| `Sorting.SortExamples` | src/AlgorithmAnalysis.java:77-152 | Bubble, insertion, selection and merge sort each turn [5, 3, 1, 4, 2] into [1, 2, 3, 4, 5] |
| `Searching.LinearSearch` | src/AlgorithmAnalysis.java:155-162 | Returns -1 exactly when x does not occur. Otherwise it returns the smallest index holding x |
| `Searching.Midpoint` | src/AlgorithmAnalysis.java:167 | `lo + (hi - lo) / 2` lies in [lo, hi] and is the lower middle of the interval |
| `Searching.BinarySearch` | src/AlgorithmAnalysis.java:164-178 | On sorted input it returns -1 exactly when x is absent, and otherwise an index in [0, n) holding x. The loop ends because hi - lo strictly decreases |
| `Searching.SearchExamples` | src/AlgorithmAnalysis.java:155-178 | Linear search for 4 in [1, 2, 3, 4, 5] gives 3. Binary search for 6 gives -1 |
| `Searching.SearchMiddle` | src/AlgorithmAnalysis.java:38-43 | The benchmark's target is the element at index length / 2 of the sorted array. So on any non-empty sorted array, linear search finds it at an index no later than that slot, and binary search finds a slot holding it: neither returns -1 |
| `JavaInt.Div` | src/AlgorithmAnalysis.java:53 | Java's `/` by a positive divisor rounds toward zero, on both sides of zero |
| `Analysis.Summarize` | src/AlgorithmAnalysis.java:49-53 | For RUNS sorted samples, fastest is times[0] and slowest is times[RUNS - 1], and they bound every sample. The average is the mean rounded toward zero: the sum minus RUNS times the average has the sum's sign and magnitude below RUNS. Also fastest <= average <= slowest |
| `Analysis.Sum` | src/AlgorithmAnalysis.java:53 | The sum of the samples as an unbounded integer. A sum of non-negative durations is non-negative |
| `Analysis.SumOfPermutation` | src/AlgorithmAnalysis.java:50-53 | The sum depends only on the multiset of samples. So sorting the times before summing leaves the average equal to that of the samples in timing order |
| `Analysis.SumBounds` | src/AlgorithmAnalysis.java:53 | A sum of n samples, each within [lo, hi], lies within [n·lo, n·hi] |

## Left out

- `ArrayGenerator.generateArray` (src/AlgorithmAnalysis.java:60-67) draws from `java.util.Random`. It is nondeterministic, so no behaviour is modelled beyond what the sorts accept: any integer sequence.
- `ArrayGenerator.timeAlgorithm` (src/AlgorithmAnalysis.java:69-74) reads the wall clock around a callback. It has no verifiable behaviour, so it is left out.
- `main`, `runSortAnalysis` and `runSearchingAnalysis` (src/AlgorithmAnalysis.java:8-47) are drivers. For each array size they generate arrays (lines 20 and 38), copy them with `Arrays.copyOf` (lines 21-23) and time each sort or search with `timeAlgorithm` (lines 25-28, 42-43). They then pass the ten times per algorithm to `printResults` (lines 30-33, 45-46), and print headings. The loops, timing and printing are left out. The operations they call are modelled one by one. The library sorts at lines 39 and 50 appear as `Sorted` preconditions of `BinarySearch`, `Searching.SearchMiddle` and `Analysis.Summarize`. Line 40's choice of search target, the middle element of the sorted array, is modelled by `Searching.SearchMiddle`.
- The sort driver draws a fresh base array on every trial: the generate call at line 20 is inside the trial loop at line 19.
- `Analysis.Summarize`: does not model the 64-bit wrap-around of the `long` sum at line 53. The sum of the ten samples would have to pass 2^63 ns, about 292 years in total, or about 29 years per trial.
- The console output format of `printResults` (line 54) is I/O and is not modelled.
- Comparison counts and complexity bounds are left out: the code neither instruments nor promises them. This includes the logarithmic bound on binary-search probes.
- Allocation of the fresh halves in `mergeSort` (lines 124-128) appears only as the slices `a0[..mid]` and `a0[mid..]`. Memory behaviour is not modelled.
