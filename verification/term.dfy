/**
 * An autocomplete term: a query JString and its weight. `Term.compareTo`
 * orders terms by query alone, and `queryPrefix(n)` cuts the query to at
 * most `n` characters.
 */
module Terms {
  import opened JavaString

  datatype Term = Term(query: JString, weight: int)

  /** `a.compareTo(b)`: `compareTo` on the queries; weights are ignored. */
  function CompareTerms(a: Term, b: Term): (r: int)
    ensures r == 0 <==> a.query == b.query
  {
    CompareTo(a.query, b.query)
  }

  /** `t.queryPrefix(n)`. */
  function QueryPrefix(t: Term, n: nat): JString
  {
    Prefix(t.query, n)
  }

  /**
   * `t.queryPrefix(prefixL).equals(prefix)`, the match test of the index.
   * A matching `prefix` starts the query and is at most `prefixL` long; with
   * `prefixL == prefix.length()`, as in `allMatches`, the test holds exactly
   * when the query starts with `prefix`.
   */
  function Matches(t: Term, prefixL: nat, prefix: JString): (m: bool)
    ensures m ==> prefix <= t.query && |prefix| <= prefixL
    ensures prefixL == |prefix| ==> (m <==> prefix <= t.query)
  {
    QueryPrefix(t, prefixL) == prefix
  }

  /** Non-decreasing `compareTo` order. */
  ghost predicate Sorted(s: seq<Term>)
  {
    forall i, j :: 0 <= i < j < |s| ==> CompareTerms(s[i], s[j]) <= 0
  }

  /** In a sorted sequence the query prefixes of every length are sorted too. */
  lemma SortedPrefixes(s: seq<Term>, n: nat, i: int, j: int)
    requires Sorted(s)
    requires 0 <= i <= j < |s|
    ensures CompareTo(QueryPrefix(s[i], n), QueryPrefix(s[j], n)) <= 0
  {
    if i < j {
      PrefixMonotone(s[i].query, s[j].query, n);
    }
  }

  /** `Sorted` of a sequence extended at the front. */
  lemma SortedCons(x: Term, s: seq<Term>)
    requires Sorted(s)
    requires forall k :: 0 <= k < |s| ==> CompareTerms(x, s[k]) <= 0
    ensures Sorted([x] + s)
  {
    var t := [x] + s;
    forall i, j | 0 <= i < j < |t| ensures CompareTerms(t[i], t[j]) <= 0 {
      if i == 0 {
        assert t[j] == s[j - 1];
      } else {
        assert t[i] == s[i - 1] && t[j] == s[j - 1];
      }
    }
  }
}
