/**
 * `BinaryRangeSearch`, the autocomplete index: it sorts the terms it is
 * given in place, then answers a prefix query by locating the range of
 * matching terms with two binary searches and ordering that range by weight.
 */
module Autocomplete {
  import opened Wrappers
  import opened JavaString
  import opened Terms
  import opened MergeSortSpec
  import opened ReverseWeightOrder

  /** The terms of `s` whose length-`prefixL` query prefix equals `prefix`, in their order in `s`. */
  function AllMatching(s: seq<Term>, prefixL: nat, prefix: JString): (r: seq<Term>)
    ensures forall i :: 0 <= i < |r| ==> Matches(r[i], prefixL, prefix)
    ensures multiset(r) <= multiset(s)
  {
    if |s| == 0 then []
    else
      assert s == [s[0]] + s[1..];
      if Matches(s[0], prefixL, prefix) then [s[0]] + AllMatching(s[1..], prefixL, prefix)
      else AllMatching(s[1..], prefixL, prefix)
  }

  /**
   * The filter keeps every occurrence of a matching term and no occurrence
   * of any other: each term appears in the result as often as in `s` if it
   * matches, and not at all otherwise.
   */
  lemma {:induction false} AllMatchingCount(s: seq<Term>, prefixL: nat, prefix: JString, t: Term)
    ensures multiset(AllMatching(s, prefixL, prefix))[t] == if Matches(t, prefixL, prefix) then multiset(s)[t] else 0
  {
    if |s| > 0 {
      var rest := AllMatching(s[1..], prefixL, prefix);
      AllMatchingCount(s[1..], prefixL, prefix, t);
      if Matches(s[0], prefixL, prefix) {
        assert AllMatching(s, prefixL, prefix) == [s[0]] + rest;
        assert multiset([s[0]] + rest) == multiset{s[0]} + multiset(rest);
      } else {
        assert AllMatching(s, prefixL, prefix) == rest;
      }
      SuffixMultiset(s, 0);
      assert s[0..] == s;
    }
  }

  /** No matching term of `s` is dropped. */
  lemma {:induction false} AllMatchingComplete(s: seq<Term>, prefixL: nat, prefix: JString, k: int)
    requires 0 <= k < |s| && Matches(s[k], prefixL, prefix)
    ensures s[k] in AllMatching(s, prefixL, prefix)
  {
    if k > 0 {
      AllMatchingComplete(s[1..], prefixL, prefix, k - 1);
    }
  }

  /** A sequence with no matching term filters to nothing. */
  lemma {:induction false} AllMatchingNone(s: seq<Term>, prefixL: nat, prefix: JString)
    requires forall i :: 0 <= i < |s| ==> !Matches(s[i], prefixL, prefix)
    ensures AllMatching(s, prefixL, prefix) == []
  {
    if |s| > 0 {
      AllMatchingNone(s[1..], prefixL, prefix);
    }
  }

  /** Filtering distributes over concatenation. */
  lemma {:induction false} AllMatchingAppend(a: seq<Term>, b: seq<Term>, prefixL: nat, prefix: JString)
    ensures AllMatching(a + b, prefixL, prefix) == AllMatching(a, prefixL, prefix) + AllMatching(b, prefixL, prefix)
  {
    if |a| > 0 {
      assert (a + b)[0] == a[0] && (a + b)[1..] == a[1..] + b;
      AllMatchingAppend(a[1..], b, prefixL, prefix);
    } else {
      assert a + b == b;
    }
  }

  /** Filtering a sequence whose every term matches gives it back whole. */
  lemma {:induction false} AllMatchingAll(s: seq<Term>, prefixL: nat, prefix: JString)
    requires forall i :: 0 <= i < |s| ==> Matches(s[i], prefixL, prefix)
    ensures AllMatching(s, prefixL, prefix) == s
  {
    if |s| > 0 {
      AllMatchingAll(s[1..], prefixL, prefix);
    }
  }

  /** When exactly the indices `lo..hi` match, the matching terms are the slice `s[lo..hi]`. */
  lemma AllMatchingRange(s: seq<Term>, prefixL: nat, prefix: JString, lo: int, hi: int)
    requires 0 <= lo <= hi < |s|
    requires forall i :: 0 <= i < |s| ==> (Matches(s[i], prefixL, prefix) <==> lo <= i <= hi)
    ensures AllMatching(s, prefixL, prefix) == s[lo..hi + 1]
  {
    var a, b, c := s[..lo], s[lo..hi + 1], s[hi + 1..];
    assert s == a + b + c;
    forall i | 0 <= i < |a| ensures !Matches(a[i], prefixL, prefix) {
      assert a[i] == s[i];
    }
    forall i | 0 <= i < |b| ensures Matches(b[i], prefixL, prefix) {
      assert b[i] == s[lo + i];
    }
    forall i | 0 <= i < |c| ensures !Matches(c[i], prefixL, prefix) {
      assert c[i] == s[hi + 1 + i];
    }
    AllMatchingNone(a, prefixL, prefix);
    AllMatchingAll(b, prefixL, prefix);
    AllMatchingNone(c, prefixL, prefix);
    AllMatchingAppend(a, b, prefixL, prefix);
    AllMatchingAppend(a + b, c, prefixL, prefix);
  }

  /** In a sorted sequence the matching terms sit next to each other. */
  lemma MatchesContiguous(s: seq<Term>, prefixL: nat, prefix: JString, i: int, k: int, j: int)
    requires Sorted(s)
    requires 0 <= i <= k <= j < |s|
    requires Matches(s[i], prefixL, prefix) && Matches(s[j], prefixL, prefix)
    ensures Matches(s[k], prefixL, prefix)
  {
    var key := QueryPrefix(s[k], prefixL);
    SortedPrefixes(s, prefixL, i, k);
    SortedPrefixes(s, prefixL, k, j);
    CompareToAntisymmetric(prefix, key);
  }

  /** Every term at or after an index whose query prefix lies above `prefix` fails to match. */
  lemma AboveNoMatch(s: seq<Term>, prefixL: nat, prefix: JString, mid: int, t: int)
    requires Sorted(s) && 0 <= mid <= t < |s|
    requires CompareTo(QueryPrefix(s[mid], prefixL), prefix) > 0
    ensures !Matches(s[t], prefixL, prefix)
  {
    SortedPrefixes(s, prefixL, mid, t);
    CompareToAntisymmetric(QueryPrefix(s[mid], prefixL), prefix);
    CompareToStrictTransitive(prefix, QueryPrefix(s[mid], prefixL), QueryPrefix(s[t], prefixL));
  }

  /** Every term at or before an index whose query prefix lies below `prefix` fails to match. */
  lemma BelowNoMatch(s: seq<Term>, prefixL: nat, prefix: JString, t: int, mid: int)
    requires Sorted(s) && 0 <= t <= mid < |s|
    requires CompareTo(QueryPrefix(s[mid], prefixL), prefix) < 0
    ensures !Matches(s[t], prefixL, prefix)
  {
    SortedPrefixes(s, prefixL, t, mid);
    CompareToStrictTransitive(QueryPrefix(s[t], prefixL), QueryPrefix(s[mid], prefixL), prefix);
  }

  /**
   * In a sorted sequence, the first and the last matching index bound the
   * matching terms exactly.
   */
  lemma MatchingBetween(s: seq<Term>, prefixL: nat, prefix: JString, left: int, right: int)
    requires Sorted(s)
    requires 0 <= left <= right < |s|
    requires Matches(s[left], prefixL, prefix) && Matches(s[right], prefixL, prefix)
    requires forall t :: 0 <= t < left ==> !Matches(s[t], prefixL, prefix)
    requires forall t :: right < t < |s| ==> !Matches(s[t], prefixL, prefix)
    ensures AllMatching(s, prefixL, prefix) == s[left..right + 1]
  {
    forall t | 0 <= t < |s|
      ensures Matches(s[t], prefixL, prefix) <==> left <= t <= right
    {
      if left <= t <= right {
        MatchesContiguous(s, prefixL, prefix, left, t, right);
      }
    }
    AllMatchingRange(s, prefixL, prefix, left, right);
  }

  /** The terms of a Java array that may hold `null`, once it is known to hold none. */
  function PresentTerms(s: seq<Option<Term>>): (r: seq<Term>)
    requires forall i :: 0 <= i < |s| ==> s[i].Some?
    ensures |r| == |s| && forall i :: 0 <= i < |s| ==> s[i] == Some(r[i])
  {
    if |s| == 0 then [] else [s[0].value] + PresentTerms(s[1..])
  }

  /** Splitting the head off a suffix of `w`. */
  lemma SuffixHead(w: seq<Term>, n: int, x: Term, rest: seq<Term>)
    requires 0 <= n <= |w| && w[n..] == [x] + rest
    ensures n < |w| && w[n] == x && w[n + 1..] == rest
  {
    assert w[n..][0] == w[n];
    assert w[n..][1..] == w[n + 1..];
  }

  /**
   * `whole` is the merge of `xs` and `ys`, and its part from `i + j` on is
   * what is left of that merge after `i` and `j` heads have been taken.
   */
  ghost predicate OnMergePath(whole: seq<Term>, xs: seq<Term>, ys: seq<Term>, i: nat, j: nat)
  {
    i <= |xs| && j <= |ys| && i + j <= |whole| && whole[i + j..] == MergeFrom(xs, ys, i, j)
  }

  /** One step of the merge loop that takes the head of the left run. */
  lemma MergeStepLeft(whole: seq<Term>, xs: seq<Term>, ys: seq<Term>, i: nat, j: nat)
    requires i < |xs| && j < |ys|
    requires OnMergePath(whole, xs, ys, i, j)
    requires CompareTerms(xs[i], ys[j]) < 0
    ensures i + j < |whole| && whole[i + j] == xs[i]
    ensures OnMergePath(whole, xs, ys, i + 1, j)
  {
    SuffixHead(whole, i + j, xs[i], MergeFrom(xs, ys, i + 1, j));
  }

  /** One step of the merge loop that takes the head of the right run (also on ties). */
  lemma MergeStepRight(whole: seq<Term>, xs: seq<Term>, ys: seq<Term>, i: nat, j: nat)
    requires i < |xs| && j < |ys|
    requires OnMergePath(whole, xs, ys, i, j)
    requires CompareTerms(xs[i], ys[j]) >= 0
    ensures i + j < |whole| && whole[i + j] == ys[j]
    ensures OnMergePath(whole, xs, ys, i, j + 1)
  {
    SuffixHead(whole, i + j, ys[j], MergeFrom(xs, ys, i, j + 1));
  }

  /** Pointwise agreement inside and outside `[l..r]`, restated on slices. */
  lemma PointwiseSlices(cur: seq<Term>, before: seq<Term>, whole: seq<Term>, l: int, r: int)
    requires |cur| == |before| && 0 <= l <= r + 1 <= |cur| && |whole| == r + 1 - l
    requires forall t :: l <= t <= r ==> cur[t] == whole[t - l]
    requires forall t :: 0 <= t < l || r < t < |cur| ==> cur[t] == before[t]
    ensures cur[..l] == before[..l] && cur[r + 1..] == before[r + 1..] && cur[l..r + 1] == whole
  {
  }

  /** Two sequences that agree up to `n` agree on every slice below `n`. */
  lemma SliceWithin(s: seq<Term>, t: seq<Term>, n: int, i: int, j: int)
    requires 0 <= i <= j <= n <= |s| == |t|
    requires s[..n] == t[..n]
    ensures s[i..j] == t[i..j]
  {
    assert s[i..j] == s[..n][i..j];
    assert t[i..j] == t[..n][i..j];
  }

  /** Two sequences that agree from `n` on agree on every slice from `n` on. */
  lemma SliceBeyond(s: seq<Term>, t: seq<Term>, n: int, i: int, j: int)
    requires 0 <= n <= i <= j <= |s| == |t|
    requires s[n..] == t[n..]
    ensures s[i..j] == t[i..j]
  {
    forall k | i <= k < j ensures s[k] == t[k] {
      assert s[k] == s[n..][k - n] && t[k] == t[n..][k - n];
    }
  }

  /** The two parts of a slice, split at `h`, are slices of the whole. */
  lemma SliceOfSlice(s: seq<Term>, lo: int, hi: int, h: int)
    requires 0 <= lo <= hi <= |s| && 0 <= h <= hi - lo
    ensures s[lo..hi][..h] == s[lo..lo + h] && s[lo..hi][h..] == s[lo + h..hi]
  {
  }

  /** One step of `MergeSort` on the range `[l..r]` split at `m = (l + r) / 2`. */
  lemma MergeSortUnfold(s: seq<Term>, l: int, m: int, r: int)
    requires 0 <= l < r < |s| && m == (l + r) / 2
    ensures MergeSort(s[l..r + 1]) == Merged(MergeSort(s[l..m + 1]), MergeSort(s[m + 1..r + 1]))
  {
    var t := s[l..r + 1];
    var h := m + 1 - l;
    assert LeftHalf(|t|) == h by {
      assert l + r == (r - l) + 2 * l;
    }
    SliceOfSlice(s, l, r + 1, h);
    MergeSortStep(t);
  }

  /**
   * `cur` is `before` with `[l..r]` replaced by its merge sort: what
   * `sort(sortedTerms, l, r)` does to the array.
   */
  ghost predicate SortedRange(cur: seq<Term>, before: seq<Term>, l: int, r: int)
  {
    |cur| == |before| && 0 <= l <= r + 1 <= |cur| &&
    cur[..l] == before[..l] && cur[r + 1..] == before[r + 1..] &&
    cur[l..r + 1] == MergeSort(before[l..r + 1])
  }

  /**
   * `cur` is `before` with `[l..r]` replaced by the merge of the runs
   * `[l..m]` and `[m+1..r]`: what `merge(sortedTerms, l, m, r)` does to the
   * array.
   */
  ghost predicate MergedRange(cur: seq<Term>, before: seq<Term>, l: int, m: int, r: int)
  {
    |cur| == |before| && 0 <= l <= m < r < |cur| &&
    cur[..l] == before[..l] && cur[r + 1..] == before[r + 1..] &&
    cur[l..r + 1] == Merged(before[l..m + 1], before[m + 1..r + 1])
  }

  /**
   * What `merge` promises its caller: when both runs were sorted, the merged
   * range is sorted and holds the same terms as before.
   */
  lemma MergedRangeSorted(cur: seq<Term>, before: seq<Term>, l: int, m: int, r: int)
    requires MergedRange(cur, before, l, m, r)
    requires Sorted(before[l..m + 1]) && Sorted(before[m + 1..r + 1])
    ensures Sorted(cur[l..r + 1])
    ensures multiset(cur[l..r + 1]) == multiset(before[l..r + 1])
  {
    MergedSorted(before[l..m + 1], before[m + 1..r + 1]);
    MergedPermutation(before[l..m + 1], before[m + 1..r + 1]);
    assert before[l..r + 1] == before[l..m + 1] + before[m + 1..r + 1];
  }

  /** What `sort` promises: the range is sorted and holds the same terms as before. */
  lemma SortedRangeSorted(cur: seq<Term>, before: seq<Term>, l: int, r: int)
    requires SortedRange(cur, before, l, r)
    ensures Sorted(cur[l..r + 1])
    ensures multiset(cur[l..r + 1]) == multiset(before[l..r + 1])
    ensures multiset(cur) == multiset(before)
  {
    MergeSortSorted(before[l..r + 1]);
    MergeSortPermutation(before[l..r + 1]);
    ThreeParts(cur, l, r + 1);
    ThreeParts(before, l, r + 1);
  }

  /** The terms of a sequence are those before `lo`, from `lo` to `hi`, and from `hi` on. */
  lemma ThreeParts(s: seq<Term>, lo: int, hi: int)
    requires 0 <= lo <= hi <= |s|
    ensures multiset(s) == multiset(s[..lo]) + multiset(s[lo..hi]) + multiset(s[hi..])
  {
    assert s == s[..lo] + s[lo..hi] + s[hi..];
  }

  /** The sorted halves of one level of `sort`, as the merge finds them in `s2`. */
  lemma SortedHalves(s0: seq<Term>, s1: seq<Term>, s2: seq<Term>, l: int, m: int, r: int)
    requires 0 <= l <= m < r < |s0|
    requires |s1| == |s0| && |s2| == |s0|
    requires s1[m + 1..] == s0[m + 1..] && s1[l..m + 1] == MergeSort(s0[l..m + 1])
    requires s2[..m + 1] == s1[..m + 1] && s2[m + 1..r + 1] == MergeSort(s1[m + 1..r + 1])
    ensures s2[l..m + 1] == MergeSort(s0[l..m + 1])
    ensures s2[m + 1..r + 1] == MergeSort(s0[m + 1..r + 1])
  {
    SliceWithin(s2, s1, m + 1, l, m + 1);
    SliceBeyond(s1, s0, m + 1, m + 1, r + 1);
  }

  /** The parts of the array outside `[l..r]` survive one level of `sort`. */
  lemma SortFrames(s0: seq<Term>, s1: seq<Term>, s2: seq<Term>, s3: seq<Term>, l: int, m: int, r: int)
    requires 0 <= l <= m < r < |s0| && |s1| == |s0| && |s2| == |s0| && |s3| == |s0|
    requires s1[..l] == s0[..l] && s1[m + 1..] == s0[m + 1..]
    requires s2[..m + 1] == s1[..m + 1] && s2[r + 1..] == s1[r + 1..]
    requires s3[..l] == s2[..l] && s3[r + 1..] == s2[r + 1..]
    ensures s3[..l] == s0[..l] && s3[r + 1..] == s0[r + 1..]
  {
    SliceWithin(s2, s1, m + 1, 0, l);
    SliceBeyond(s1, s0, m + 1, r + 1, |s0|);
  }

  /**
   * One level of `sort` on `[l..r]`: sorting `[l..m]`, then `[m+1..r]`, then
   * merging them, taken from the states `s0` to `s3` in between.
   */
  lemma SortLevel(s0: seq<Term>, s1: seq<Term>, s2: seq<Term>, s3: seq<Term>, l: int, m: int, r: int)
    requires l < r && m == (l + r) / 2
    requires SortedRange(s1, s0, l, m) && SortedRange(s2, s1, m + 1, r) && MergedRange(s3, s2, l, m, r)
    ensures SortedRange(s3, s0, l, r)
  {
    SortedHalves(s0, s1, s2, l, m, r);
    var left, right := MergeSort(s0[l..m + 1]), MergeSort(s0[m + 1..r + 1]);
    assert s3[l..r + 1] == Merged(left, right);
    MergeSortUnfold(s0, l, m, r);
    SortFrames(s0, s1, s2, s3, l, m, r);
  }

  class BinaryRangeSearch {
    var terms: array<Term>

    /** The stored terms are kept in `compareTo` order. */
    ghost predicate Valid()
      reads this, terms
    {
      Sorted(terms[..])
    }

    /**
     * Stores the given array itself (no copy) and sorts it in place. Its
     * elements are `Term` values, which cannot be null; the null checks are
     * in `Build`.
     */
    constructor (a: array<Term>)
      modifies a
      ensures terms == a
      ensures a[..] == MergeSort(old(a[..]))
      ensures Valid()
      ensures multiset(a[..]) == multiset(old(a[..]))
    {
      terms := a;
      var length := a.Length;
      Sort(a, 0, length - 1);
      assert a[0..length] == a[..];
      assert old(a[0..length]) == old(a[..]);
      MergeSortSorted(old(a[..]));
      MergeSortPermutation(old(a[..]));
    }

    /**
     * The constructor as seen by a Java caller: a null array, or one holding
     * a null element, raises IllegalArgumentException; otherwise the terms
     * are stored and sorted.
     */
    static method Build(input: array?<Option<Term>>) returns (r: Result<BinaryRangeSearch>)
      ensures r.Err? <==> input == null || exists i :: 0 <= i < input.Length && input[i].None?
      ensures r.Err? ==> r.error == IllegalArgument
      ensures r.Ok? ==> input != null && fresh(r.value) && fresh(r.value.terms) && r.value.Valid()
      ensures r.Ok? ==> r.value.terms[..] == MergeSort(PresentTerms(input[..]))
      ensures r.Ok? ==> multiset(r.value.terms[..]) == multiset(PresentTerms(input[..]))
    {
      if input == null || exists i :: 0 <= i < input.Length && input[i].None? {
        return Err(IllegalArgument);
      }
      ghost var given := PresentTerms(input[..]);
      var a := new Term[input.Length];
      for i := 0 to input.Length
        invariant forall k :: 0 <= k < i ==> a[k] == given[k]
      {
        a[i] := input[i].value;
      }
      assert a[..] == given;
      var index := new BinaryRangeSearch(a);
      return Ok(index);
    }

    /**
     * The temporary-array copy of `merge`: a new array holding the `n` terms
     * of `sortedTerms` from index `from` on.
     */
    static method CopyRun(sortedTerms: array<Term>, from: int, n: int) returns (run: array<Term>)
      requires 0 <= from && 0 <= n && from + n <= sortedTerms.Length
      ensures fresh(run)
      ensures run[..] == sortedTerms[from..from + n]
    {
      run := new Term[n];
      for i := 0 to n
        modifies run
        invariant forall t :: 0 <= t < i ==> run[t] == sortedTerms[from + t]
      {
        run[i] := sortedTerms[from + i];
      }
    }

    /**
     * The main loop of `merge`: while both temporary arrays have terms left,
     * writes the smaller head (the right one on ties) into `sortedTerms` from
     * index `l` on. Returns the positions `i`, `j` and `k` it stops at.
     */
    static method MergeHeads(sortedTerms: array<Term>, l: int, L: array<Term>, R: array<Term>, ghost whole: seq<Term>)
      returns (i: int, j: int, k: int)
      requires L != sortedTerms && R != sortedTerms
      requires 0 <= l && l + L.Length + R.Length <= sortedTerms.Length
      requires OnMergePath(whole, L[..], R[..], 0, 0)
      modifies sortedTerms
      ensures 0 <= i <= L.Length && 0 <= j <= R.Length && (i == L.Length || j == R.Length) && k == l + i + j
      ensures OnMergePath(whole, L[..], R[..], i, j)
      ensures forall t :: l <= t < k ==> sortedTerms[t] == whole[t - l]
      ensures forall t :: 0 <= t < l || k <= t < sortedTerms.Length ==> sortedTerms[t] == old(sortedTerms[t])
    {
      ghost var xs, ys := L[..], R[..];
      i, j, k := 0, 0, l;
      while i < L.Length && j < R.Length
        invariant 0 <= i <= L.Length && 0 <= j <= R.Length && k == l + i + j
        invariant OnMergePath(whole, xs, ys, i, j)
        invariant forall t :: l <= t < k ==> sortedTerms[t] == whole[t - l]
        invariant forall t :: 0 <= t < l || k <= t < sortedTerms.Length ==> sortedTerms[t] == old(sortedTerms[t])
      {
        if CompareTerms(L[i], R[j]) < 0 {
          MergeStepLeft(whole, xs, ys, i, j);
          sortedTerms[k] := L[i];
          i := i + 1;
        } else {
          MergeStepRight(whole, xs, ys, i, j);
          sortedTerms[k] := R[j];
          j := j + 1;
        }
        k := k + 1;
      }
    }

    /**
     * A tail loop of `merge`: writes what is left of a temporary array,
     * `run[i..]`, into `sortedTerms` from index `k` on.
     */
    static method CopyRest(sortedTerms: array<Term>, k: int, run: array<Term>, i: int)
      requires run != sortedTerms
      requires 0 <= i <= run.Length && 0 <= k && k + run.Length - i <= sortedTerms.Length
      modifies sortedTerms
      ensures forall t :: 0 <= t < k || k + run.Length - i <= t < sortedTerms.Length ==> sortedTerms[t] == old(sortedTerms[t])
      ensures forall t :: k <= t < k + run.Length - i ==> sortedTerms[t] == run[i + t - k]
    {
      var i, k := i, k;
      ghost var k0, i0 := k, i;
      while i < run.Length
        invariant i0 <= i <= run.Length && k == k0 + i - i0
        invariant forall t :: 0 <= t < k0 || k0 + run.Length - i0 <= t < sortedTerms.Length ==> sortedTerms[t] == old(sortedTerms[t])
        invariant forall t :: k0 <= t < k ==> sortedTerms[t] == run[i0 + t - k0]
      {
        sortedTerms[k] := run[i];
        i := i + 1;
        k := k + 1;
      }
    }

    /**
     * The two tail loops of `merge`: once one temporary array is used up,
     * writes what is left of `L`, then what is left of `R`, from index `k`
     * on; one of the two is empty.
     */
    static method MergeTails(sortedTerms: array<Term>, l: int, L: array<Term>, R: array<Term>, ghost whole: seq<Term>,
                             i: int, j: int, k: int)
      requires L != sortedTerms && R != sortedTerms
      requires 0 <= l && l + L.Length + R.Length <= sortedTerms.Length
      requires 0 <= i <= L.Length && 0 <= j <= R.Length && (i == L.Length || j == R.Length) && k == l + i + j
      requires OnMergePath(whole, L[..], R[..], i, j)
      modifies sortedTerms
      ensures forall t :: k <= t < l + L.Length + R.Length ==> sortedTerms[t] == whole[t - l]
      ensures forall t :: 0 <= t < k || l + L.Length + R.Length <= t < sortedTerms.Length ==> sortedTerms[t] == old(sortedTerms[t])
    {
      ghost var xs, ys := L[..], R[..];
      ghost var tail := if i == L.Length then ys[j..] else xs[i..];
      assert whole[i + j..] == tail;
      ghost var s0 := sortedTerms[..];
      CopyRest(sortedTerms, k, L, i);
      ghost var s1 := sortedTerms[..];
      CopyRest(sortedTerms, k + L.Length - i, R, j);
      forall t | k <= t < l + L.Length + R.Length ensures sortedTerms[t] == whole[t - l] {
        assert whole[t - l] == whole[i + j..][t - k];
        if t < k + L.Length - i {
          assert sortedTerms[t] == s1[t] == L[i + t - k];
        } else {
          assert sortedTerms[t] == R[j + t - (k + L.Length - i)];
        }
      }
      forall t | 0 <= t < k || l + L.Length + R.Length <= t < sortedTerms.Length
        ensures sortedTerms[t] == old(sortedTerms[t])
      {
        assert sortedTerms[t] == s1[t] == s0[t];
      }
    }

    /**
     * `merge(sortedTerms, l, m, r)`: copies the runs `[l..m]` and `[m+1..r]`
     * into temporary arrays and merges them back into `[l..r]`.
     */
    static method Merge(sortedTerms: array<Term>, l: int, m: int, r: int)
      requires 0 <= l <= m < r < sortedTerms.Length
      modifies sortedTerms
      ensures MergedRange(sortedTerms[..], old(sortedTerms[..]), l, m, r)
    {
      var n1 := m - l + 1;
      var n2 := r - m;
      var L := CopyRun(sortedTerms, l, n1);
      var R := CopyRun(sortedTerms, m + 1, n2);
      ghost var xs, ys := L[..], R[..];
      assert xs == old(sortedTerms[l..m + 1]) && ys == old(sortedTerms[m + 1..r + 1]);
      ghost var whole := Merged(xs, ys);
      ghost var before := sortedTerms[..];
      assert whole[0..] == whole;
      var i, j, k := MergeHeads(sortedTerms, l, L, R, whole);
      ghost var s0 := sortedTerms[..];
      MergeTails(sortedTerms, l, L, R, whole, i, j, k);
      ghost var s2 := sortedTerms[..];
      forall t | l <= t <= r ensures s2[t] == whole[t - l] {
        if t < k {
          assert s2[t] == s0[t];
        }
      }
      forall t | 0 <= t < l || r < t < sortedTerms.Length ensures s2[t] == before[t] {
        assert s2[t] == s0[t];
      }
      PointwiseSlices(s2, before, whole, l, r);
      assert sortedTerms[l..r + 1] == whole;
    }

    /** `sort(sortedTerms, l, r)`: top-down merge sort of `[l..r]`, split at `m = (l + r) / 2`. */
    static method Sort(sortedTerms: array<Term>, l: int, r: int)
      requires 0 <= l <= r + 1 <= sortedTerms.Length
      modifies sortedTerms
      ensures SortedRange(sortedTerms[..], old(sortedTerms[..]), l, r)
      decreases r - l
    {
      if l < r {
        var m := (l + r) / 2;
        ghost var s0 := sortedTerms[..];
        Sort(sortedTerms, l, m);
        ghost var s1 := sortedTerms[..];
        Sort(sortedTerms, m + 1, r);
        ghost var s2 := sortedTerms[..];
        Merge(sortedTerms, l, m, r);
        ghost var s3 := sortedTerms[..];
        SortLevel(s0, s1, s2, s3, l, m, r);
      }
    }

    /**
     * `allMatches(prefix)`: all stored terms whose query starts with
     * `prefix`, in descending order of weight. A null prefix raises
     * IllegalArgumentException. The Java code also fails, with
     * ArrayIndexOutOfBoundsException, when no term matches: both searches
     * then return -1 and the copy loop reads `terms[-1]`; on an empty index
     * the first search already reads `terms[0]`.
     */
    method AllMatches(prefix: Option<JString>) returns (result: Result<seq<Term>>)
      requires Valid()
      ensures prefix.None? ==> result == Err(IllegalArgument)
      ensures prefix.Some? && AllMatching(terms[..], |prefix.value|, prefix.value) == [] ==>
        result == Err(IndexOutOfBounds)
      ensures prefix.Some? && AllMatching(terms[..], |prefix.value|, prefix.value) != [] ==>
        result.Ok? &&
        multiset(result.value) == multiset(AllMatching(terms[..], |prefix.value|, prefix.value)) &&
        DescendingWeight(result.value)
    {
      if prefix.None? {
        return Err(IllegalArgument);
      }
      var p := prefix.value;
      var prefixL := |p|;
      var length := terms.Length;
      if length == 0 {
        // binarySearchLeft reads terms[0]
        AllMatchingNone(terms[..], prefixL, p);
        return Err(IndexOutOfBounds);
      }
      var left := BinarySearchLeft(terms, prefixL, p);
      var right := BinarySearchRight(terms, prefixL, p);
      var copied := CopyMatches(terms, left, right);
      if copied.Err? {
        // terms[-1]: nothing matched
        AllMatchingNone(terms[..], prefixL, p);
        return copied;
      }
      var finalPrefixTerm := copied.value;
      // Both searches found a match, and exactly the terms between them match.
      MatchingBetween(terms[..], prefixL, p, left, right);
      var finalTerms := SortByReverseWeight(finalPrefixTerm);
      return Ok(finalTerms);
    }

    /**
     * `allMatches` as its doc comment describes it: a query that no term
     * matches, or any query on an empty index, yields no terms instead of
     * reading `terms[-1]` or `terms[0]`.
     */
    method AllMatchesOrEmpty(prefix: Option<JString>) returns (result: Result<seq<Term>>)
      requires Valid()
      ensures prefix.None? ==> result == Err(IllegalArgument)
      ensures prefix.Some? ==>
        result.Ok? &&
        multiset(result.value) == multiset(AllMatching(terms[..], |prefix.value|, prefix.value)) &&
        DescendingWeight(result.value)
    {
      if prefix.None? {
        return Err(IllegalArgument);
      }
      var p := prefix.value;
      var prefixL := |p|;
      if terms.Length == 0 {
        AllMatchingNone(terms[..], prefixL, p);
        return Ok([]);
      }
      var left := BinarySearchLeft(terms, prefixL, p);
      if left < 0 {
        AllMatchingNone(terms[..], prefixL, p);
        return Ok([]);
      }
      var right := BinarySearchRight(terms, prefixL, p);
      var copied := CopyMatches(terms, left, right);
      MatchingBetween(terms[..], prefixL, p, left, right);
      var finalTerms := SortByReverseWeight(copied.value);
      return Ok(finalTerms);
    }

    /**
     * The copy loop of `allMatches`: the terms from `left` to `right`,
     * inclusive. Java raises ArrayIndexOutOfBoundsException at the first
     * negative index the loop reads.
     */
    static method CopyMatches(prefixTerm: array<Term>, left: int, right: int) returns (r: Result<seq<Term>>)
      requires right < prefixTerm.Length
      ensures left < 0 && left <= right ==> r == Err(IndexOutOfBounds)
      ensures right < left ==> r == Ok([])
      ensures 0 <= left <= right ==> r == Ok(prefixTerm[left..right + 1])
    {
      var finalPrefixTerm: seq<Term> := [];
      var i := left;
      while i < right + 1
        invariant left <= i
        invariant left <= right + 1 ==> i <= right + 1
        invariant 0 <= left <= right + 1 ==> finalPrefixTerm == prefixTerm[left..i]
        invariant left < 0 || right + 1 <= left ==> i == left && finalPrefixTerm == []
      {
        if i < 0 {
          return Err(IndexOutOfBounds);
        }
        finalPrefixTerm := finalPrefixTerm + [prefixTerm[i]];
        i := i + 1;
      }
      return Ok(finalPrefixTerm);
    }

    /**
     * `binarySearchLeft`: the first index whose query prefix of length
     * `prefixL` equals `prefix`, or -1 when there is none. It first tests
     * index 0, then narrows `[l..r]`, starting from the whole array, moving
     * left after every match.
     */
    static method BinarySearchLeft(prefixTerm: array<Term>, prefixL: nat, prefix: JString) returns (left: int)
      requires prefixTerm.Length > 0
      requires Sorted(prefixTerm[..])
      ensures -1 <= left < prefixTerm.Length
      ensures left == -1 ==> forall t :: 0 <= t < prefixTerm.Length ==> !Matches(prefixTerm[t], prefixL, prefix)
      ensures 0 <= left ==> Matches(prefixTerm[left], prefixL, prefix)
      ensures 0 <= left ==> forall t :: 0 <= t < left ==> !Matches(prefixTerm[t], prefixL, prefix)
    {
      if Matches(prefixTerm[0], prefixL, prefix) {
        return 0;
      }
      left := -1;
      var l, r := 0, prefixTerm.Length - 1;
      while l <= r
        invariant 0 <= l <= r + 1 <= prefixTerm.Length
        invariant -1 <= left < prefixTerm.Length
        invariant forall t :: 0 <= t < l ==> CompareTo(QueryPrefix(prefixTerm[t], prefixL), prefix) < 0
        invariant forall t :: r < t < prefixTerm.Length && Matches(prefixTerm[t], prefixL, prefix) ==> 0 <= left <= t
        invariant 0 <= left ==> r < left && Matches(prefixTerm[left], prefixL, prefix)
      {
        var mid := l + (r - l) / 2;
        var c := CompareTo(QueryPrefix(prefixTerm[mid], prefixL), prefix);
        if c < 0 {
          forall t | l <= t <= mid ensures CompareTo(QueryPrefix(prefixTerm[t], prefixL), prefix) < 0 {
            SortedPrefixes(prefixTerm[..], prefixL, t, mid);
            CompareToStrictTransitive(QueryPrefix(prefixTerm[t], prefixL), QueryPrefix(prefixTerm[mid], prefixL), prefix);
          }
          l := mid + 1;
        } else if c > 0 {
          forall t | mid <= t <= r ensures !Matches(prefixTerm[t], prefixL, prefix) {
            AboveNoMatch(prefixTerm[..], prefixL, prefix, mid, t);
          }
          r := mid - 1;
        } else {
          r := mid - 1;
          left := mid;
        }
      }
      forall t | 0 <= t < l ensures !Matches(prefixTerm[t], prefixL, prefix) {
      }
    }

    /**
     * `binarySearchRight`: the last index whose query prefix of length
     * `prefixL` equals `prefix`, or -1 when there is none. It first tests the
     * last index, then narrows `[l..r]`, moving right after every match.
     */
    static method BinarySearchRight(prefixTerm: array<Term>, prefixL: nat, prefix: JString) returns (right: int)
      requires prefixTerm.Length > 0
      requires Sorted(prefixTerm[..])
      ensures -1 <= right < prefixTerm.Length
      ensures right == -1 ==> forall t :: 0 <= t < prefixTerm.Length ==> !Matches(prefixTerm[t], prefixL, prefix)
      ensures 0 <= right ==> Matches(prefixTerm[right], prefixL, prefix)
      ensures 0 <= right ==> forall t :: right < t < prefixTerm.Length ==> !Matches(prefixTerm[t], prefixL, prefix)
    {
      var l, r := 0, prefixTerm.Length - 1;
      if Matches(prefixTerm[r], prefixL, prefix) {
        return r;
      }
      right := -1;
      while l <= r
        invariant 0 <= l <= r + 1 <= prefixTerm.Length
        invariant -1 <= right < prefixTerm.Length
        invariant forall t :: r < t < prefixTerm.Length ==> CompareTo(prefix, QueryPrefix(prefixTerm[t], prefixL)) < 0
        invariant forall t :: 0 <= t < l && Matches(prefixTerm[t], prefixL, prefix) ==> t <= right
        invariant 0 <= right ==> right < l && Matches(prefixTerm[right], prefixL, prefix)
      {
        var mid := l + (r - l) / 2;
        var c := CompareTo(QueryPrefix(prefixTerm[mid], prefixL), prefix);
        if c < 0 {
          forall t | l <= t <= mid ensures !Matches(prefixTerm[t], prefixL, prefix) {
            BelowNoMatch(prefixTerm[..], prefixL, prefix, t, mid);
          }
          l := mid + 1;
        } else if c > 0 {
          CompareToAntisymmetric(QueryPrefix(prefixTerm[mid], prefixL), prefix);
          forall t | mid <= t <= r ensures CompareTo(prefix, QueryPrefix(prefixTerm[t], prefixL)) < 0 {
            SortedPrefixes(prefixTerm[..], prefixL, mid, t);
            CompareToStrictTransitive(prefix, QueryPrefix(prefixTerm[mid], prefixL), QueryPrefix(prefixTerm[t], prefixL));
          }
          r := mid - 1;
        } else {
          l := mid + 1;
          right := mid;
        }
      }
      forall t | r < t < prefixTerm.Length ensures !Matches(prefixTerm[t], prefixL, prefix) {
      }
    }
  }

  /**
   * An index holding the single term ("a", 1), asked for the prefix "b"
   * ("a" and "b" are the code units 97 and 98): `allMatches` as written
   * raises instead of returning no terms.
   */
  method NoMatchRaises() returns (result: Result<seq<Term>>)
    ensures result == Err(IndexOutOfBounds)
  {
    var a := new Term[1];
    a[0] := Term([97], 1);
    assert a[..] == [Term([97], 1)];
    var index := new BinaryRangeSearch(a);
    assert index.terms[..] == [Term([97], 1)];
    assert QueryPrefix(Term([97], 1), 1) == [97];
    AllMatchingNone(index.terms[..], 1, [98]);
    result := index.AllMatches(Some([98]));
  }
}
