/** The algorithms of stlalgs.h built on `find_if_index`: `find_if`, `find`,
    `adjacent_find`, `mismatch` and `search`. Each passes `find_if_index` an
    index range and an index predicate and returns its result unchanged, so a
    result equal to the range length means "not found". They are methods
    because `find_if_index` is one. */
module Searching {
  import opened IndexSearch
  import opened Counting

  /** `find_if(S, p)`: the first position whose element satisfies pred, or
      |s| when there is none. */
  method FindIf<T>(s: seq<T>, pred: T -> bool) returns (r: nat)
    ensures r <= |s|
    ensures r < |s| ==> pred(s[r])
    ensures forall j :: 0 <= j < r ==> !pred(s[j])
  {
    ghost var windows;
    r, windows := FindIfIndex(|s|, OnElements(s, pred), DefaultGranularity);
    forall j | 0 <= j < r
      ensures !pred(s[j])
    {
      assert !OnElements(s, pred)(j);
    }
  }

  /** `find(S, value)`: the first position holding value, or |s| when value
      does not occur. */
  method Find<T(==)>(s: seq<T>, value: T) returns (r: nat)
    ensures r <= |s|
    ensures r < |s| ==> s[r] == value
    ensures forall j :: 0 <= j < r ==> s[j] != value
    ensures r == |s| <==> value !in s
  {
    r := FindIf(s, x => x == value);
  }

  /** The range `adjacent_find` searches, with the unsigned wrap-around of
      `S.size()-1` on an empty sequence (stlalgs.h:93) taken out: exactly the
      indices i for which s[i + 1] exists. */
  function AdjacentRange(len: nat): (m: nat)
    ensures len == 0 ==> m == 0
    ensures len > 0 ==> m + 1 == len
  {
    if len == 0 then 0 else len - 1
  }

  /** The index predicate of `adjacent_find`: s[i] and s[i + 1] are related
      by the caller's pred. */
  function AdjacentPairs<T>(s: seq<T>, eq: (T, T) -> bool): nat -> bool
  {
    (i: nat) => i + 1 < |s| && eq(s[i], s[i + 1])
  }

  /** `adjacent_find(S, pred)`: the first i with pred(s[i], s[i + 1]), or the
      range length AdjacentRange(|s|) when there is none. */
  method AdjacentFind<T>(s: seq<T>, eq: (T, T) -> bool) returns (r: nat)
    ensures r <= AdjacentRange(|s|)
    ensures r < AdjacentRange(|s|) ==> eq(s[r], s[r + 1])
    ensures forall j :: 0 <= j < r ==> !eq(s[j], s[j + 1])
  {
    ghost var windows;
    r, windows := FindIfIndex(AdjacentRange(|s|), AdjacentPairs(s, eq), DefaultGranularity);
    forall j | 0 <= j < r
      ensures !eq(s[j], s[j + 1])
    {
      assert !AdjacentPairs(s, eq)(j);
    }
  }

  /** The index predicate of `mismatch`: position i of the two sequences is
      not related by pred. */
  function Differs<T>(s1: seq<T>, s2: seq<T>, eq: (T, T) -> bool): nat -> bool
  {
    (i: nat) => i < |s1| && i < |s2| && !eq(s1[i], s2[i])
  }

  /** `mismatch(S1, S2, pred)`: the first position at which the sequences
      disagree under pred, or their common length when they agree throughout. */
  method Mismatch<T>(s1: seq<T>, s2: seq<T>, eq: (T, T) -> bool) returns (r: nat)
    ensures r <= Min(|s1|, |s2|)
    ensures r < Min(|s1|, |s2|) ==> !eq(s1[r], s2[r])
    ensures forall j :: 0 <= j < r ==> eq(s1[j], s2[j])
  {
    ghost var windows;
    r, windows := FindIfIndex(Min(|s1|, |s2|), Differs(s1, s2, eq), DefaultGranularity);
    forall j | 0 <= j < r
      ensures eq(s1[j], s2[j])
    {
      assert !Differs(s1, s2, eq)(j);
    }
  }

  /** The range `search` ranges over: the starting positions at which the
      whole of s2 fits inside s1 (stlalgs.h:103 ranges over all of s1). */
  function SearchRange(len1: nat, len2: nat): (m: nat)
    ensures len2 <= len1 ==> (m - 1) + len2 == len1
    ensures len1 < len2 ==> m == 0
  {
    if len2 <= len1 then len1 - len2 + 1 else 0
  }

  /** s2 occurs in s1 starting at position i, element by element under pred. */
  predicate MatchesAt<T>(s1: seq<T>, s2: seq<T>, eq: (T, T) -> bool, i: nat)
  {
    i + |s2| <= |s1| && forall j :: 0 <= j < |s2| ==> eq(s1[i + j], s2[j])
  }

  /** The inner loop of `search`'s predicate (stlalgs.h:104-107): advance j
      while s1[i + j] and s2[j] agree and report whether all of s2 agreed. */
  method ScanMatchAt<T>(s1: seq<T>, s2: seq<T>, eq: (T, T) -> bool, i: nat) returns (b: bool)
    requires i + |s2| <= |s1|
    ensures b <==> forall j :: 0 <= j < |s2| ==> eq(s1[i + j], s2[j])
    ensures b == MatchesAt(s1, s2, eq, i)
  {
    var j := 0;
    while j < |s2|
      invariant j <= |s2|
      invariant forall k :: 0 <= k < j ==> eq(s1[i + k], s2[k])
    {
      if !eq(s1[i + j], s2[j]) {
        break;
      }
      j := j + 1;
    }
    b := j == |s2|;
  }

  /** The index predicate of `search`. */
  function OccursAt<T>(s1: seq<T>, s2: seq<T>, eq: (T, T) -> bool): nat -> bool
  {
    (i: nat) => MatchesAt(s1, s2, eq, i)
  }

  /** `search(S1, S2, pred)`: the first position at which s2 occurs in s1,
      every element read lying inside s1; when s2 occurs nowhere, the result
      is the range length SearchRange(|s1|, |s2|). */
  method Search<T>(s1: seq<T>, s2: seq<T>, eq: (T, T) -> bool) returns (r: nat)
    ensures r <= SearchRange(|s1|, |s2|)
    ensures r < SearchRange(|s1|, |s2|) ==> r + |s2| <= |s1| && MatchesAt(s1, s2, eq, r)
    ensures forall j :: 0 <= j < r ==> !MatchesAt(s1, s2, eq, j)
    ensures r == SearchRange(|s1|, |s2|) ==> forall j :: !MatchesAt(s1, s2, eq, j)
  {
    ghost var windows;
    r, windows := FindIfIndex(SearchRange(|s1|, |s2|), OccursAt(s1, s2, eq), DefaultGranularity);
    forall j | 0 <= j < r
      ensures !MatchesAt(s1, s2, eq, j)
    {
      assert !OccursAt(s1, s2, eq)(j);
    }
  }
}
