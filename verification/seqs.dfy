/** Sequence vocabulary shared by the summary-extension and fallback models. */
module Seqs {

  function Min(a: int, b: int): int {
    if a <= b then a else b
  }

  /** The elements of `s` as a set: Python's `set(s)`. */
  function Elems<T>(s: seq<T>): set<T> {
    set x | x in s
  }

  /** No element of `s` occurs twice. */
  predicate NoDups<T(==)>(s: seq<T>) {
    forall i, j :: 0 <= i < j < |s| ==> s[i] != s[j]
  }

  /** `sub` occurs inside `s` at the strictly increasing positions `idx`. */
  ghost predicate SubsequenceAt<T>(sub: seq<T>, s: seq<T>, idx: seq<nat>) {
    && |idx| == |sub|
    && (forall k :: 0 <= k < |idx| ==> idx[k] < |s| && sub[k] == s[idx[k]])
    && (forall k, l :: 0 <= k < l < |idx| ==> idx[k] < idx[l])
  }

  /** Each position in `idx` is the first occurrence in `s` of the element found there. */
  ghost predicate FirstOccurrences<T>(s: seq<T>, idx: seq<nat>) {
    forall k :: 0 <= k < |idx| && idx[k] < |s| ==> s[idx[k]] !in s[..idx[k]]
  }

  /** A sequence without repetitions has as many distinct elements as it has entries. */
  lemma {:induction false} NoDupsCard<T>(s: seq<T>)
    requires NoDups(s)
    ensures |Elems(s)| == |s|
  {
    if s != [] {
      assert Elems(s) == {s[0]} + Elems(s[1..]);
      assert s[0] !in Elems(s[1..]);
      NoDupsCard(s[1..]);
    }
  }

  /** Taking `k + 1` from `[x] + f` is `x` followed by `k` taken from `f`. */
  lemma TakeCons<T>(a: seq<T>, x: T, f: seq<T>, k: nat)
    requires k <= |f|
    ensures a + [x] + f[..k] == a + ([x] + f)[..k + 1]
  {
    assert ([x] + f)[..k + 1] == [x] + f[..k];
  }
}
