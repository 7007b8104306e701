/** The algorithms of stlalgs.h built on `count_if_index`: `count_if`,
    `count`, `all_of`, `any_of`, `none_of` and both forms of `equal`. Each
    lifts a predicate on elements to an index predicate; the lifted predicate
    is false outside the sequence, where `count_if_index` never looks. */
module Counting {
  import opened IndexSearch

  /** The index predicate `[&] (size_t i) {return p(S[i]);}`. */
  function OnElements<T>(s: seq<T>, pred: T -> bool): nat -> bool
  {
    (i: nat) => i < |s| && pred(s[i])
  }

  /** The index predicate comparing s1[i] with s2[i] under eq. */
  function OnPairs<T>(s1: seq<T>, s2: seq<T>, eq: (T, T) -> bool): nat -> bool
  {
    (i: nat) => i < |s1| && i < |s2| && eq(s1[i], s2[i])
  }

  /** `count_if(S, p)`: the number of positions whose element satisfies p. */
  function CountIf<T>(s: seq<T>, pred: T -> bool): (c: nat)
    ensures c == |set i | 0 <= i < |s| && pred(s[i])|
  {
    CountIfIndexIsCardinality(|s|, OnElements(s, pred));
    assert MatchSet(|s|, OnElements(s, pred)) == set i | 0 <= i < |s| && pred(s[i]);
    CountIfIndex(|s|, OnElements(s, pred))
  }

  /** `count(S, value)`: the number of occurrences of value. */
  function Count<T(==)>(s: seq<T>, value: T): (c: nat)
    ensures c == |set i | 0 <= i < |s| && s[i] == value|
  {
    assert (set i | 0 <= i < |s| && (x => x == value)(s[i])) == set i | 0 <= i < |s| && s[i] == value;
    CountIf(s, x => x == value)
  }

  /** The number of occurrences `count` returns is the multiplicity of value
      in the multiset of the sequence's elements. */
  lemma {:induction false} CountIsMultiplicity<T>(s: seq<T>, value: T)
    ensures Count(s, value) == multiset(s)[value]
  {
    var p := OnElements(s, x => x == value);
    CountIfIndexIsCardinality(|s|, p);
    CountPrefixIsMultiplicity(s, value, |s|);
    assert s[..|s|] == s;
  }

  /** Over a prefix of length k, the count of `value` reached by the fold is
      its multiplicity in that prefix. */
  lemma {:induction false} CountPrefixIsMultiplicity<T>(s: seq<T>, value: T, k: nat)
    requires k <= |s|
    ensures CountIfIndex(k, OnElements(s, x => x == value)) == multiset(s[..k])[value]
  {
    if k > 0 {
      CountPrefixIsMultiplicity(s, value, k - 1);
      CountIfIndexStep(k - 1, OnElements(s, x => x == value));
      assert s[..k] == s[..k - 1] + [s[k - 1]];
    }
  }

  /** `all_of(S, p)`: the count equals the length. */
  function AllOf<T>(s: seq<T>, pred: T -> bool): (b: bool)
    ensures b <==> forall i :: 0 <= i < |s| ==> pred(s[i])
  {
    CountIfIndexBounds(|s|, OnElements(s, pred));
    assert forall i :: 0 <= i < |s| ==> (OnElements(s, pred)(i) <==> pred(s[i]));
    CountIfIndex(|s|, OnElements(s, pred)) == |s|
  }

  /** `any_of(S, p)`: the count is positive (stlalgs.h:78 compares with 1). */
  function AnyOf<T>(s: seq<T>, pred: T -> bool): (b: bool)
    ensures b <==> exists i :: 0 <= i < |s| && pred(s[i])
  {
    CountIfIndexBounds(|s|, OnElements(s, pred));
    assert forall i :: 0 <= i < |s| ==> (OnElements(s, pred)(i) <==> pred(s[i]));
    CountIfIndex(|s|, OnElements(s, pred)) > 0
  }

  /** `none_of(S, p)`: the count is zero. */
  function NoneOf<T>(s: seq<T>, pred: T -> bool): (b: bool)
    ensures b <==> forall i :: 0 <= i < |s| ==> !pred(s[i])
  {
    CountIfIndexBounds(|s|, OnElements(s, pred));
    assert forall i :: 0 <= i < |s| ==> (OnElements(s, pred)(i) <==> pred(s[i]));
    CountIfIndex(|s|, OnElements(s, pred)) == 0
  }

  /** any_of and none_of are complementary, and on a non-empty sequence
      all_of implies any_of. */
  lemma QuantifiersAgree<T>(s: seq<T>, pred: T -> bool)
    ensures AnyOf(s, pred) == !NoneOf(s, pred)
    ensures |s| > 0 && AllOf(s, pred) ==> AnyOf(s, pred)
  {
    if |s| > 0 && AllOf(s, pred) {
      assert pred(s[0]);
    }
  }

  /** `equal(s1, s2, p)` (with the count compared against the length, as
      intended): every position of s1 is related by eq to the same position of
      s2. The source reads s2 at every index of s1, so s2 must be at least as
      long. */
  function EqualBy<T>(s1: seq<T>, s2: seq<T>, eq: (T, T) -> bool): (b: bool)
    requires |s1| <= |s2|
    ensures b <==> forall i :: 0 <= i < |s1| ==> eq(s1[i], s2[i])
  {
    CountIfIndexBounds(|s1|, OnPairs(s1, s2, eq));
    assert forall i :: 0 <= i < |s1| ==> (OnPairs(s1, s2, eq)(i) <==> eq(s1[i], s2[i]));
    CountIfIndex(|s1|, OnPairs(s1, s2, eq)) == |s1|
  }

  /** `equal(s1, s2)` with the element type's own equality: s1 is a prefix of
      s2, so for sequences of the same length, the two are equal. */
  function Equal<T(==)>(s1: seq<T>, s2: seq<T>): (b: bool)
    requires |s1| <= |s2|
    ensures b <==> s1 == s2[..|s1|]
    ensures |s1| == |s2| ==> (b <==> s1 == s2)
  {
    var r := EqualBy(s1, s2, (x, y) => x == y);
    assert r ==> s1 == s2[..|s1|];
    r
  }
}
