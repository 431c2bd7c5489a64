# BinaryRangeSearch: a verified model of the prefix-autocomplete index

`BinaryRangeSearch` answers autocomplete queries over an array of weighted
terms. At construction it checks the array for `null`, keeps the array
itself, and sorts it in place with a hand-written top-down merge sort
(`sort`, `merge`) in `Term.compareTo` order, that is, by query string.
`allMatches(prefix)` runs two binary searches. `binarySearchLeft` finds the
first index whose query prefix of length `|prefix|` equals `prefix`, and
`binarySearchRight` finds the last one. The query then copies that index
range and sorts the copy by descending weight.

The model is imperative where the Java code is:

- class `Autocomplete.BinaryRangeSearch` holds the `terms` array;
- `merge` is split into one method per loop (`CopyRun`, `MergeHeads`,
  `CopyRest`, `MergeTails`);
- `sort`, the two binary searches and the copy loop of `allMatches` are
  methods with loop or recursion invariants.

Each method is proved against a functional specification:

- `MergeSortSpec.MergeFrom` and `Merged` merge two runs with the source's
  tie rule: the right head wins unless the left one is strictly smaller;
- `MergeSortSpec.MergeSort` splits at `m = (l + r) / 2`, as `sort` does;
- `Autocomplete.AllMatching` is the filter "every stored term whose query
  starts with the prefix", in order;
- `ReverseWeightOrder.SortByReverseWeight` is the effect of the library
  sort by descending weight.

Lemmas prove what these specifications promise: sortedness, permutation,
first and last match, and that the matching terms form one contiguous run.

Files:

- `wrappers.dfy`: `Option`, and `Result` with the two Java exceptions the
  code can raise.
- `java_string.dfy`: `String.compareTo` and prefixes, with their order
  properties.
- `term.dfy`: `Term`, `compareTo`, `queryPrefix`, the match test and
  `Sorted`.
- `merge_sort.dfy`: the functional merge and merge sort, and their
  properties.
- `reverse_weight.dfy`: the descending-weight sort used by `allMatches`.
- `binary_range_search.dfy`: the index class and the lemmas that connect
  it to the specifications.

`Term` and `TermComparators` are not part of this model. The model takes a
term to be a query string plus an integer weight. It takes `compareTo` to be
Java's `String.compareTo` on the queries, and `queryPrefix(n)` to be the
first `min(n, length)` characters of the query. A Java string is modelled
as it is stored: a sequence of UTF-16 code units (`JavaString.CodeUnit`,
0 to 0xFFFF). So lengths such as `prefix.length()` count code units, a
character above U+FFFF is a surrogate pair, and a lone surrogate is an
ordinary code unit, all as in Java.

## Model

| member | source | states |
|---|---|---|
| JavaString.CompareTo | autocomplete/BinaryRangeSearch.java:133-137 | `String.compareTo`: the difference of the first pair of differing code units, or else the difference of the lengths; it is 0 exactly on equal strings, so the `compareTo(...) == 0` branch of each search is the same match test as the `equals` at its start |
| JavaString.CompareToAntisymmetric | autocomplete/BinaryRangeSearch.java:133-137 | swapping the operands of `compareTo` negates the result |
| JavaString.CompareToTransitive | autocomplete/BinaryRangeSearch.java:49 | the `compareTo` order used by `merge` is transitive |
| JavaString.CompareToStrictTransitive | autocomplete/BinaryRangeSearch.java:133-136 | a strict and a non-strict `compareTo` comparison chain into a strict one, which is what lets a search discard half the range |
| JavaString.Prefix | autocomplete/BinaryRangeSearch.java:127 | `queryPrefix(n)` is a prefix of the query whose length is `n`, or the whole query when that is shorter |
| JavaString.PrefixMonotone | autocomplete/BinaryRangeSearch.java:131-141 | cutting two ordered strings to the same length keeps them ordered |
| Terms.CompareTerms | autocomplete/BinaryRangeSearch.java:49 | `Term.compareTo`: `compareTo` on the queries, weights ignored; 0 exactly when the queries are equal |
| Terms.Matches | autocomplete/BinaryRangeSearch.java:127 | the match test `queryPrefix(prefixL).equals(prefix)`: a matching prefix starts the query and is at most `prefixL` long, and with `prefixL == prefix.length()` (line 99) the test holds exactly when the query starts with `prefix`, as the doc comment at line 91 says |
| Terms.SortedPrefixes | autocomplete/BinaryRangeSearch.java:131-141 | in an array sorted by query, the query prefixes of any fixed length are sorted too |
| MergeSortSpec.MergeFrom | autocomplete/BinaryRangeSearch.java:45-71 | the rest of the merge once `i` left and `j` right heads are taken is as long as what is left of both runs |
| MergeSortSpec.MergeFromPermutation | autocomplete/BinaryRangeSearch.java:45-71 | the rest of the merge holds exactly the terms of `L[i..]` and `R[j..]` |
| MergeSortSpec.MergeFromSorted | autocomplete/BinaryRangeSearch.java:45-71 | the rest of the merge of two sorted runs is sorted |
| MergeSortSpec.Merged | autocomplete/BinaryRangeSearch.java:26-72 | what `merge` writes into `[l..r]`: the merge of the two runs from their first terms, as long as both runs together |
| MergeSortSpec.MergedPermutation | autocomplete/BinaryRangeSearch.java:26-72 | the merge holds exactly the terms of both runs |
| MergeSortSpec.MergedSorted | autocomplete/BinaryRangeSearch.java:26-72 | the merge of two sorted runs is sorted |
| MergeSortSpec.LeftHalf | autocomplete/BinaryRangeSearch.java:77-83 | for a range of at least two terms, `m = (l + r) / 2` leaves both halves non-empty and strictly smaller, so `sort` terminates |
| MergeSortSpec.MergeSort | autocomplete/BinaryRangeSearch.java:76-88 | what `sort` leaves in `[l..r]`: a range of at most one term as it is, else the merge of the sorted halves split after `(n - 1) / 2 + 1` terms, which is `m = (l + r) / 2` |
| MergeSortSpec.MergeSortStep | autocomplete/BinaryRangeSearch.java:79-86 | a range of two or more terms sorts as the merge of its two sorted halves |
| MergeSortSpec.MergeSortSorted | autocomplete/BinaryRangeSearch.java:76-88 | merge sort returns a sorted sequence |
| MergeSortSpec.MergeSortPermutation | autocomplete/BinaryRangeSearch.java:76-88 | merge sort returns a permutation of its input |
| MergeSortSpec.MergeSortNotStable | autocomplete/BinaryRangeSearch.java:49 | ties take the right head, so two terms with equal queries come out swapped: the sort is not stable |
| ReverseWeightOrder.DescendingWeightAllPairs | autocomplete/BinaryRangeSearch.java:120 | in descending weight order, every term weighs at least as much as every later one |
| ReverseWeightOrder.InsertByWeight | autocomplete/BinaryRangeSearch.java:120 | inserting a term into a sequence in descending weight order keeps that order and adds exactly that term |
| ReverseWeightOrder.SortByReverseWeight | autocomplete/BinaryRangeSearch.java:120 | sorting by `byReverseWeightOrder` returns a permutation in non-increasing weight order |
| Autocomplete.AllMatching | autocomplete/BinaryRangeSearch.java:90-95 | every term of the filtered result matches the prefix, and it takes no term more often than the input holds it |
| Autocomplete.AllMatchingComplete | autocomplete/BinaryRangeSearch.java:90-95 | every matching term of the input is in the filtered result |
| Autocomplete.AllMatchingCount | autocomplete/BinaryRangeSearch.java:90-95 | the filter keeps every occurrence of a matching term, duplicates included, and no occurrence of any other term |
| Autocomplete.AllMatchingNone | autocomplete/BinaryRangeSearch.java:116-117 | when no term matches, the filtered result is empty |
| Autocomplete.AllMatchingRange | autocomplete/BinaryRangeSearch.java:115-118 | when exactly the indices `lo..hi` match, the filtered result is the slice `terms[lo..hi]` that the copy loop collects |
| Autocomplete.MatchesContiguous | autocomplete/BinaryRangeSearch.java:116-117 | in a sorted array, every index between two matching indices matches too |
| Autocomplete.AboveNoMatch | autocomplete/BinaryRangeSearch.java:135-136 | when `mid`'s prefix compares above `prefix`, no index from `mid` on matches |
| Autocomplete.BelowNoMatch | autocomplete/BinaryRangeSearch.java:153-154 | when `mid`'s prefix compares below `prefix`, no index up to `mid` matches |
| Autocomplete.MatchingBetween | autocomplete/BinaryRangeSearch.java:101-118 | given the first and the last matching index, the filtered result is exactly the terms between them |
| Autocomplete.PresentTerms | autocomplete/BinaryRangeSearch.java:18 | the terms of an array with no null element, one per slot, in order |
| Autocomplete.MergeStepLeft | autocomplete/BinaryRangeSearch.java:49-51 | when `L[i]` is strictly smaller than `R[j]`, the next merged term is `L[i]` and the merge goes on from `(i + 1, j)` |
| Autocomplete.MergeStepRight | autocomplete/BinaryRangeSearch.java:52-54 | otherwise, ties included, the next merged term is `R[j]` and the merge goes on from `(i, j + 1)` |
| Autocomplete.MergeSortUnfold | autocomplete/BinaryRangeSearch.java:79-86 | sorting `[l..r]` is merging the sorted `[l..m]` and `[m+1..r]`, with `m = (l + r) / 2` |
| Autocomplete.MergedRangeSorted | autocomplete/BinaryRangeSearch.java:26-72 | after `merge` on two sorted runs, `[l..r]` is sorted and holds the same terms as before |
| Autocomplete.SortedRangeSorted | autocomplete/BinaryRangeSearch.java:76-88 | after `sort`, `[l..r]` is sorted, and both the range and the whole array hold the same terms as before |
| Autocomplete.SortedHalves | autocomplete/BinaryRangeSearch.java:82-83 | sorting `[m+1..r]` leaves the sorted `[l..m]` intact, so `merge` finds both halves sorted |
| Autocomplete.SortFrames | autocomplete/BinaryRangeSearch.java:76-88 | one level of `sort` leaves the array outside `[l..r]` unchanged |
| Autocomplete.SortLevel | autocomplete/BinaryRangeSearch.java:76-88 | sorting both halves and merging them sorts `[l..r]` as merge sort does and changes nothing outside it |
| Autocomplete.BinaryRangeSearch.constructor | autocomplete/BinaryRangeSearch.java:21-23 | stores the given array itself and sorts it in place: afterwards it is sorted and holds the same terms |
| Autocomplete.BinaryRangeSearch.Build | autocomplete/BinaryRangeSearch.java:17-24 | raises IllegalArgumentException exactly when the array is null or holds a null; otherwise the index holds the input's terms, sorted |
| Autocomplete.BinaryRangeSearch.CopyRun | autocomplete/BinaryRangeSearch.java:31-41 | the temporary array is new and holds the run starting at `from` |
| Autocomplete.BinaryRangeSearch.MergeHeads | autocomplete/BinaryRangeSearch.java:43-57 | the main loop stops when one run is used up, with `k == l + i + j` and `sortedTerms[l..k)` equal to the first `i + j` terms of the merge; nothing else changes |
| Autocomplete.BinaryRangeSearch.CopyRest | autocomplete/BinaryRangeSearch.java:59-71 | a tail loop writes what is left of one run from `k` on and changes nothing else |
| Autocomplete.BinaryRangeSearch.MergeTails | autocomplete/BinaryRangeSearch.java:59-71 | the two tail loops complete the merge up to `r` and change nothing below `k` or beyond `r` |
| Autocomplete.BinaryRangeSearch.Merge | autocomplete/BinaryRangeSearch.java:26-72 | `[l..r]` becomes the merge of the old runs `[l..m]` and `[m+1..r]`; the rest of the array is unchanged |
| Autocomplete.BinaryRangeSearch.Sort | autocomplete/BinaryRangeSearch.java:74-88 | `[l..r]` becomes the merge sort of its old contents; the rest of the array is unchanged |
| Autocomplete.BinaryRangeSearch.AllMatches | autocomplete/BinaryRangeSearch.java:95-123 | a null prefix raises IllegalArgumentException; if no term matches, the query raises ArrayIndexOutOfBoundsException (at `terms[-1]`, or at `terms[0]` on an empty index); otherwise it returns exactly the matching terms in non-increasing weight order |
| Autocomplete.BinaryRangeSearch.AllMatchesOrEmpty | autocomplete/BinaryRangeSearch.java:90-123 | the corrected query: for every non-null prefix it returns exactly the matching terms, none at all when nothing matches, in non-increasing weight order |
| Autocomplete.BinaryRangeSearch.CopyMatches | autocomplete/BinaryRangeSearch.java:115-118 | the copy loop yields `terms[left..right]`, nothing when `right < left`, and raises at the first negative index |
| Autocomplete.BinaryRangeSearch.BinarySearchLeft | autocomplete/BinaryRangeSearch.java:126-143 | on a sorted non-empty array, returns the smallest matching index, or -1 exactly when no index matches |
| Autocomplete.BinaryRangeSearch.BinarySearchRight | autocomplete/BinaryRangeSearch.java:146-163 | on a sorted non-empty array, returns the largest matching index, or -1 exactly when no index matches |
| Autocomplete.NoMatchRaises | autocomplete/BinaryRangeSearch.java:116-117 | on the index holding only ("a", 1), `allMatches("b")` raises ArrayIndexOutOfBoundsException instead of returning no terms |

## Left out

- `Term` and `TermComparators` are not part of this model. Terms are
  modelled as a query plus a weight, under the assumptions stated above.
- `ReverseWeightOrder.SortByReverseWeight` gives the library
  `List.sort(byReverseWeightOrder())` by its effect only: a permutation in
  non-increasing weight order. The relative order of equal weights is not
  fixed, and TimSort is not modelled.
- The `ArrayList` and `toArray` plumbing of `allMatches` is left out. The
  result is modelled as a sequence.
- The commented-out `binarySearch` variants and scan loop are dead code and
  are not modelled.
- Merge-sort stability is not claimed. `MergeSortSpec.MergeSortNotStable`
  shows the source's merge is not stable.
- Autocomplete.BinaryRangeSearch.BinarySearchLeft: `l` and `r` are fixed to
  `0` and `length - 1`, the values at the only call site. The early test
  reads `prefixTerm[0]` where the source reads the field `terms[0]`; the two
  are the same array at that call site.
- Autocomplete.BinaryRangeSearch.BinarySearchRight: likewise fixed to
  `l = 0`, `r = length - 1`. It reads `prefixTerm[r]` where the source reads
  `terms[r]`.
- Java's 32-bit `int` arithmetic is not modelled. `(l + r) / 2` in `sort`
  cannot overflow for array indices below 2^30. The searches use
  `l + (r - l) / 2`, which never overflows.
- Autocomplete.BinaryRangeSearch.Build: a Dafny `array<Term>` cannot hold
  `null`, so the null checks run on an `array?<Option<Term>>`, and the
  checked terms are copied into a new array before construction. Storing
  the caller's array without a copy is modelled by the constructor. The
  combination of the null check with that aliasing is not captured.
- Autocomplete.BinaryRangeSearch.Merge: its contract states the new range as
  the functional merge. Sortedness and permutation are stated separately,
  in `Autocomplete.MergedRangeSorted`.
- The repository's kd-tree point set is a separate component and is not
  modelled.

## Findings

| source | as written | input that shows it | evidently intended | confidence | as-written member | corrected member |
|---|---|---|---|---|---|---|
| autocomplete/BinaryRangeSearch.java:101-118 | when no term matches, both searches return -1 and the copy loop reads `terms[-1]`; on an empty index `binarySearchLeft` reads `terms[0]`; both raise ArrayIndexOutOfBoundsException | an index holding only ("a", 1), queried with prefix "b" | return no terms, as the doc comment "returns all terms that start with the given prefix" implies | high; not executed | Autocomplete.NoMatchRaises | Autocomplete.BinaryRangeSearch.AllMatchesOrEmpty |
