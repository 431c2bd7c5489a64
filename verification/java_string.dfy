/**
 * Java's `String.compareTo` and the prefix operation used on term queries,
 * over Java strings: sequences of UTF-16 code units. Lengths and indices
 * count code units, and a lone surrogate is a code unit like any other.
 */
module JavaString {
  /** A Java `char`: one UTF-16 code unit. */
  newtype CodeUnit = x: int | 0 <= x < 0x1_0000

  /** A Java `String`. */
  type JString = seq<CodeUnit>


  /**
   * `a.compareTo(b)`: the difference of the first pair of differing code
   * units, or else the difference of the lengths. It is zero exactly on
   * equal strings, so it agrees with `equals`.
   */
  function CompareTo(a: JString, b: JString): (r: int)
    ensures r == 0 <==> a == b
  {
    CompareFromZero(a, b, 0);
    assert a[0..] == a && b[0..] == b;
    CompareFrom(a, b, 0)
  }

  /** The loop of `compareTo` from index `k` on, while `k` is below both lengths. */
  function CompareFrom(a: JString, b: JString, k: nat): int
    requires k <= |a| && k <= |b|
    decreases |a| - k
  {
    if k == |a| || k == |b| then |a| - |b|
    else if a[k] != b[k] then a[k] as int - b[k] as int
    else CompareFrom(a, b, k + 1)
  }

  /** From index `k` on, `compareTo` finds no difference exactly when the suffixes are equal. */
  lemma {:induction false} CompareFromZero(a: JString, b: JString, k: nat)
    requires k <= |a| && k <= |b|
    ensures CompareFrom(a, b, k) == 0 <==> a[k..] == b[k..]
    decreases |a| - k
  {
    if k == |a| || k == |b| {
    } else if a[k] != b[k] {
      assert a[k..][0] != b[k..][0];
    } else {
      CompareFromZero(a, b, k + 1);
      assert a[k..] == [a[k]] + a[k + 1..] && b[k..] == [b[k]] + b[k + 1..];
    }
  }

  lemma {:induction false} CompareFromAntisymmetric(a: JString, b: JString, k: nat)
    requires k <= |a| && k <= |b|
    ensures CompareFrom(b, a, k) == -CompareFrom(a, b, k)
    decreases |a| - k
  {
    if k < |a| && k < |b| && a[k] == b[k] {
      CompareFromAntisymmetric(a, b, k + 1);
    }
  }

  /** Swapping the operands negates the result. */
  lemma CompareToAntisymmetric(a: JString, b: JString)
    ensures CompareTo(b, a) == -CompareTo(a, b)
  {
    CompareFromAntisymmetric(a, b, 0);
  }

  lemma {:induction false} CompareFromTransitive(a: JString, b: JString, c: JString, k: nat)
    requires k <= |a| && k <= |b| && k <= |c|
    requires CompareFrom(a, b, k) <= 0 && CompareFrom(b, c, k) <= 0
    ensures CompareFrom(a, c, k) <= 0
    decreases |a| - k
  {
    if k == |a| || k == |b| || k == |c| {
    } else if a[k] != b[k] || b[k] != c[k] {
    } else {
      CompareFromTransitive(a, b, c, k + 1);
    }
  }

  /** The order `CompareTo(a, b) <= 0` is transitive. */
  lemma CompareToTransitive(a: JString, b: JString, c: JString)
    requires CompareTo(a, b) <= 0 && CompareTo(b, c) <= 0
    ensures CompareTo(a, c) <= 0
  {
    CompareFromTransitive(a, b, c, 0);
  }

  /** Strict and non-strict comparisons chain into a strict one. */
  lemma CompareToStrictTransitive(a: JString, b: JString, c: JString)
    requires CompareTo(a, b) <= 0 && CompareTo(b, c) <= 0
    requires CompareTo(a, b) < 0 || CompareTo(b, c) < 0
    ensures CompareTo(a, c) < 0
  {
    CompareToTransitive(a, b, c);
    CompareToAntisymmetric(a, b);
    CompareToAntisymmetric(b, c);
    if a == c {
      CompareToTransitive(b, c, a);
    }
  }

  /** `n` leading characters of `s`, or all of `s` when it is shorter. */
  function Prefix(s: JString, n: nat): (p: JString)
    ensures p <= s
    ensures |p| == if n < |s| then n else |s|
  {
    s[..if n < |s| then n else |s|]
  }

  lemma {:induction false} PrefixMonotoneFrom(a: JString, b: JString, n: nat, k: nat)
    requires k <= |Prefix(a, n)| && k <= |Prefix(b, n)|
    requires CompareFrom(a, b, k) <= 0
    ensures CompareFrom(Prefix(a, n), Prefix(b, n), k) <= 0
    decreases |a| - k
  {
    var pa, pb := Prefix(a, n), Prefix(b, n);
    if k == |pa| || k == |pb| {
    } else if a[k] != b[k] {
      assert pa[k] == a[k] && pb[k] == b[k];
    } else {
      assert pa[k] == a[k] && pb[k] == b[k];
      PrefixMonotoneFrom(a, b, n, k + 1);
    }
  }

  /** Cutting both strings to the same length keeps their order. */
  lemma PrefixMonotone(a: JString, b: JString, n: nat)
    requires CompareTo(a, b) <= 0
    ensures CompareTo(Prefix(a, n), Prefix(b, n)) <= 0
  {
    PrefixMonotoneFrom(a, b, n, 0);
  }
}
