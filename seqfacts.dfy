/** Facts about sequences and multisets used by several modules. */
module SeqFacts {

  /**
   * If `a` and `b` are permutations of each other, they remain so after the
   * last element of `a` is removed from `a` and an equal element from `b`.
   */
  lemma RemoveMatching<T>(a: seq<T>, b: seq<T>, j: nat)
    requires multiset(a) == multiset(b) && |a| > 0 && j < |b| && b[j] == a[|a| - 1]
    ensures multiset(a[..|a| - 1]) == multiset(b[..j] + b[j + 1..])
  {
    var n, last := |a| - 1, a[|a| - 1];
    assert a == a[..n] + [last];
    assert b == b[..j] + [last] + b[j + 1..];
    var rest := b[..j] + b[j + 1..];
    assert multiset(b) == multiset(rest) + multiset{last};
    forall e ensures multiset(a[..n])[e] == multiset(rest)[e] {
      assert (multiset(a[..n]) + multiset{last})[e] == (multiset(rest) + multiset{last})[e];
    }
  }

  /** A sequence is its part before j, its element j and its part after j. */
  lemma SplitAt<T>(b: seq<T>, j: nat)
    requires j < |b|
    ensures b == (b[..j] + [b[j]]) + b[j + 1..]
  {
  }
}
