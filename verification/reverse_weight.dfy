/**
 * The effect of `finalPrefixTerm.sort(TermComparators.byReverseWeightOrder())`:
 * a library sort the index calls but does not implement. It is specified here
 * by an insertion sort whose contract states only what the call guarantees,
 * a permutation in non-increasing weight order.
 */
module ReverseWeightOrder {
  import opened Terms

  /** Weights never increase from one term to the next. */
  ghost predicate DescendingWeight(s: seq<Term>)
  {
    forall i :: 0 <= i < |s| - 1 ==> s[i].weight >= s[i + 1].weight
  }

  /** In a sequence in descending weight order, every term weighs at least as much as every later one. */
  lemma {:induction false} DescendingWeightAllPairs(s: seq<Term>, i: int, j: int)
    requires DescendingWeight(s)
    requires 0 <= i <= j < |s|
    ensures s[i].weight >= s[j].weight
    decreases j - i
  {
    if i < j {
      DescendingWeightAllPairs(s, i + 1, j);
    }
  }

  /** Places `t` in a sequence already in descending weight order. */
  function InsertByWeight(t: Term, s: seq<Term>): (r: seq<Term>)
    requires DescendingWeight(s)
    ensures multiset(r) == multiset{t} + multiset(s)
    ensures DescendingWeight(r)
    ensures r[0] == t || r[0] == s[0]
  {
    if |s| == 0 || t.weight >= s[0].weight then [t] + s
    else
      assert s == [s[0]] + s[1..];
      [s[0]] + InsertByWeight(t, s[1..])
  }

  /** A permutation of `s` in descending weight order. */
  function SortByReverseWeight(s: seq<Term>): (r: seq<Term>)
    ensures multiset(r) == multiset(s)
    ensures DescendingWeight(r)
  {
    if |s| == 0 then []
    else
      assert s == [s[0]] + s[1..];
      InsertByWeight(s[0], SortByReverseWeight(s[1..]))
  }
}
