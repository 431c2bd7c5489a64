/**
 * The functions that specify the index's hand-written top-down merge sort:
 * `Merged` is what one call of `merge` writes back, `MergeSort` what `sort`
 * leaves in the range it is given.
 */
module MergeSortSpec {
  import opened JavaString
  import opened Terms

  /**
   * Merging what is left of two runs, `xs[i..]` and `ys[j..]`. The left head
   * is taken only when it compares strictly below the right head, so on ties
   * the right run goes first.
   */
  function MergeFrom(xs: seq<Term>, ys: seq<Term>, i: nat, j: nat): (r: seq<Term>)
    requires i <= |xs| && j <= |ys|
    ensures |r| == |xs| - i + |ys| - j
    decreases |xs| - i + |ys| - j
  {
    if i == |xs| then ys[j..]
    else if j == |ys| then xs[i..]
    else if CompareTerms(xs[i], ys[j]) < 0 then [xs[i]] + MergeFrom(xs, ys, i + 1, j)
    else [ys[j]] + MergeFrom(xs, ys, i, j + 1)
  }

  /** Merging two whole runs. */
  function Merged(xs: seq<Term>, ys: seq<Term>): (r: seq<Term>)
    ensures |r| == |xs| + |ys|
  {
    MergeFrom(xs, ys, 0, 0)
  }

  /** Merging keeps every remaining term of both runs, and nothing else. */
  lemma {:induction false} MergeFromPermutation(xs: seq<Term>, ys: seq<Term>, i: nat, j: nat)
    requires i <= |xs| && j <= |ys|
    ensures multiset(MergeFrom(xs, ys, i, j)) == multiset(xs[i..]) + multiset(ys[j..])
    decreases |xs| - i + |ys| - j
  {
    if i == |xs| || j == |ys| {
    } else if CompareTerms(xs[i], ys[j]) < 0 {
      MergeFromPermutation(xs, ys, i + 1, j);
      SuffixMultiset(xs, i);
    } else {
      MergeFromPermutation(xs, ys, i, j + 1);
      SuffixMultiset(ys, j);
    }
  }

  /** The terms of a suffix are its first term and the terms after it. */
  lemma SuffixMultiset(s: seq<Term>, i: int)
    requires 0 <= i < |s|
    ensures multiset(s[i..]) == multiset{s[i]} + multiset(s[i + 1..])
  {
    assert s[i..] == [s[i]] + s[i + 1..];
  }

  /** Merging two runs keeps exactly their terms. */
  lemma MergedPermutation(xs: seq<Term>, ys: seq<Term>)
    ensures multiset(Merged(xs, ys)) == multiset(xs) + multiset(ys)
  {
    MergeFromPermutation(xs, ys, 0, 0);
    assert xs[0..] == xs && ys[0..] == ys;
  }

  /** A term not above any remaining term of either run is not above any term of their merge. */
  lemma LowerBoundMergeFrom(x: Term, xs: seq<Term>, ys: seq<Term>, i: nat, j: nat)
    requires i <= |xs| && j <= |ys|
    requires forall k :: i <= k < |xs| ==> CompareTerms(x, xs[k]) <= 0
    requires forall k :: j <= k < |ys| ==> CompareTerms(x, ys[k]) <= 0
    ensures forall k :: 0 <= k < |MergeFrom(xs, ys, i, j)| ==> CompareTerms(x, MergeFrom(xs, ys, i, j)[k]) <= 0
  {
    var m := MergeFrom(xs, ys, i, j);
    MergeFromPermutation(xs, ys, i, j);
    forall k | 0 <= k < |m| ensures CompareTerms(x, m[k]) <= 0 {
      assert m[k] in multiset(m);
      if m[k] in multiset(xs[i..]) {
        var t :| 0 <= t < |xs[i..]| && xs[i..][t] == m[k];
        assert xs[i + t] == m[k];
      } else {
        assert m[k] in multiset(ys[j..]);
        var t :| 0 <= t < |ys[j..]| && ys[j..][t] == m[k];
        assert ys[j + t] == m[k];
      }
    }
  }

  /** Merging what is left of two sorted runs gives a sorted run. */
  lemma {:induction false} MergeFromSorted(xs: seq<Term>, ys: seq<Term>, i: nat, j: nat)
    requires i <= |xs| && j <= |ys|
    requires Sorted(xs) && Sorted(ys)
    ensures Sorted(MergeFrom(xs, ys, i, j))
    decreases |xs| - i + |ys| - j
  {
    if i == |xs| || j == |ys| {
    } else if CompareTerms(xs[i], ys[j]) < 0 {
      var x := xs[i];
      MergeFromSorted(xs, ys, i + 1, j);
      forall k | j <= k < |ys| ensures CompareTerms(x, ys[k]) <= 0 {
        if k > j {
          CompareToTransitive(x.query, ys[j].query, ys[k].query);
        }
      }
      LowerBoundMergeFrom(x, xs, ys, i + 1, j);
      SortedCons(x, MergeFrom(xs, ys, i + 1, j));
    } else {
      var y := ys[j];
      MergeFromSorted(xs, ys, i, j + 1);
      CompareToAntisymmetric(xs[i].query, y.query);
      forall k | i <= k < |xs| ensures CompareTerms(y, xs[k]) <= 0 {
        if k > i {
          CompareToTransitive(y.query, xs[i].query, xs[k].query);
        }
      }
      LowerBoundMergeFrom(y, xs, ys, i, j + 1);
      SortedCons(y, MergeFrom(xs, ys, i, j + 1));
    }
  }

  /** Merging two sorted runs gives a sorted run. */
  lemma MergedSorted(xs: seq<Term>, ys: seq<Term>)
    requires Sorted(xs) && Sorted(ys)
    ensures Sorted(Merged(xs, ys))
  {
    MergeFromSorted(xs, ys, 0, 0);
  }

  /** Length of the left half `[l..m]` when `sort` splits a range of `n > 1` terms at `m = (l + r) / 2`. */
  function LeftHalf(n: nat): (h: nat)
    requires n > 1
    ensures 0 < h < n
  {
    (n - 1) / 2 + 1
  }

  /** What `sort` makes of a range of terms. */
  function MergeSort(s: seq<Term>): seq<Term>
    decreases |s|
  {
    if |s| <= 1 then s
    else
      var h := LeftHalf(|s|);
      MergeFrom(MergeSort(s[..h]), MergeSort(s[h..]), 0, 0)
  }

  /** One step of `MergeSort`: sort both halves, then merge them. */
  lemma MergeSortStep(s: seq<Term>)
    requires |s| > 1
    ensures MergeSort(s) == Merged(MergeSort(s[..LeftHalf(|s|)]), MergeSort(s[LeftHalf(|s|)..]))
  {
  }

  /** `MergeSort` returns its input in `compareTo` order. */
  lemma {:induction false} MergeSortSorted(s: seq<Term>)
    ensures Sorted(MergeSort(s))
    decreases |s|
  {
    if |s| > 1 {
      var h := LeftHalf(|s|);
      MergeSortSorted(s[..h]);
      MergeSortSorted(s[h..]);
      MergedSorted(MergeSort(s[..h]), MergeSort(s[h..]));
    }
  }

  /** `MergeSort` returns a permutation of its input. */
  lemma {:induction false} MergeSortPermutation(s: seq<Term>)
    ensures multiset(MergeSort(s)) == multiset(s)
    decreases |s|
  {
    if |s| > 1 {
      var h := LeftHalf(|s|);
      var left, right := s[..h], s[h..];
      MergeSortPermutation(left);
      MergeSortPermutation(right);
      var sl, sr := MergeSort(left), MergeSort(right);
      MergedPermutation(sl, sr);
      MergeSortStep(s);
      SplitMultiset(s, h);
    }
  }

  /** Splitting a sequence splits its multiset. */
  lemma SplitMultiset(s: seq<Term>, h: int)
    requires 0 <= h <= |s|
    ensures multiset(s) == multiset(s[..h]) + multiset(s[h..])
  {
    assert s == s[..h] + s[h..];
  }

  /**
   * Merge sort is not stable: two terms with the same query "a" (code unit
   * 97), given left then right, come out swapped.
   */
  lemma MergeSortNotStable()
    ensures MergeSort([Term([97], 1), Term([97], 2)]) == [Term([97], 2), Term([97], 1)]
  {
    var a1, a2 := Term([97], 1), Term([97], 2);
    var s := [a1, a2];
    assert LeftHalf(2) == 1;
    assert s[..1] == [a1] && s[1..] == [a2];
    assert CompareTerms(a1, a2) == 0;
    assert Merged([a1], [a2]) == [a2] + MergeFrom([a1], [a2], 0, 1);
  }
}
