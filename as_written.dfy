/** The parts of stlalgs.h whose code, read as written, does something other
    than its evident intent. Each definition here follows the code literally
    and is paired with a lemma exhibiting an input on which it departs from
    the corrected definition the rest of the model uses. */
module AsWritten {
  import opened Sequences
  import opened IndexSearch
  import opened Counting
  import opened Searching
  import opened Ordering
  import opened Rearranging

  /** The outcome of a computation that may read outside a sequence: None
      stands for the out-of-bounds read. */
  datatype Option<T> = None | Some(value: T)

  // ----- count_if_index, count_if, all_of: the count returned as bool -----

  /** `count_if_index` as declared (return type bool): the count converted to
      bool, which is true exactly when some index below n satisfies p. */
  function CountIfIndexAsWritten(n: nat, p: nat -> bool): (b: bool)
    ensures b <==> exists i :: 0 <= i < n && p(i)
  {
    CountIfIndexBounds(n, p);
    CountIfIndex(n, p) != 0
  }

  /** `count_if` as declared (return type bool) computes `any_of`. */
  function CountIfAsWritten<T>(s: seq<T>, pred: T -> bool): (b: bool)
    ensures b == AnyOf(s, pred)
  {
    assert forall i :: 0 <= i < |s| ==> (OnElements(s, pred)(i) <==> pred(s[i]));
    CountIfIndexAsWritten(|s|, OnElements(s, pred))
  }

  /** `all_of` over the bool-returning `count_if`: the bool (as 0 or 1) is
      compared with the length, so only sequences of length 0, or of length 1
      whose element satisfies pred, pass. */
  function AllOfAsWritten<T>(s: seq<T>, pred: T -> bool): (b: bool)
    ensures b <==> |s| == 0 || (|s| == 1 && pred(s[0]))
  {
    (if CountIfAsWritten(s, pred) then 1 else 0) == |s|
  }

  /** On [0, 0] with an always-true predicate, `all_of` as written answers
      false where the corrected AllOf answers true. */
  lemma AllOfAsWrittenCounterexample()
    ensures !AllOfAsWritten([0, 0], (x: int) => true)
    ensures AllOf([0, 0], (x: int) => true)
  {
  }

  // ----- find_if_index: the untested return after the prefix -----

  /** `find_if_index` as written: after a prefix scan that finds nothing,
      line 51 returns i whenever i < n, without testing p(i). The window loop
      after it is only reached when granularity >= n, where it runs zero
      times, so it is left out here. The result is the first match in the
      prefix [0, min(granularity, n)), or the prefix's end. */
  method FindIfIndexAsWritten(n: nat, p: nat -> bool, granularity: nat) returns (r: nat)
    ensures r == FirstMatchIn(0, Min(granularity, n), p)
  {
    var i := 0;
    while i < Min(granularity, n)
      invariant i <= Min(granularity, n)
      invariant forall j :: 0 <= j < i ==> !p(j)
    {
      if p(i) {
        FirstMatchInUnique(0, Min(granularity, n), p, i);
        return i;
      }
      i := i + 1;
    }
    FirstMatchInUnique(0, Min(granularity, n), p, i);
    if i < n {
      return i;
    }
    return n;
  }

  /** The as-written result agrees with the intended first match exactly
      when n <= granularity or the first match lies at or below granularity. */
  lemma {:induction false} FindIfIndexAsWrittenAgreesIff(n: nat, p: nat -> bool, g: nat)
    ensures FirstMatchIn(0, Min(g, n), p) == FirstMatchIn(0, n, p)
            <==> n <= g || FirstMatchIn(0, n, p) <= g
  {
    var f := FirstMatchIn(0, n, p);
    if g < n {
      if f < g {
        FirstMatchInUnique(0, g, p, f);
      } else {
        FirstMatchInUnique(0, g, p, g);
      }
    }
  }

  /** With n = 3, granularity 1 and only index 2 matching, the as-written
      search returns 1 (an index that does not match) instead of 2. */
  lemma FindIfIndexAsWrittenCounterexample()
    ensures var p := (i: nat) => i == 2;
            FirstMatchIn(0, Min(1, 3), p) == 1 && FirstMatchIn(0, 3, p) == 2
  {
    var p := (i: nat) => i == 2;
    FirstMatchInUnique(0, 1, p, 1);
    FirstMatchInUnique(0, 3, p, 2);
  }

  // ----- find_if_index: a granularity of 0 -----

  /** The (start, granularity) pair of the window loop of lines 52-61 after
      k rounds that found nothing: each round moves start by the
      granularity and then doubles it. */
  function WindowLoopAsWritten(g: nat, k: nat): (nat, nat)
  {
    if k == 0 then (g, g)
    else
      var state := WindowLoopAsWritten(g, k - 1);
      (state.0 + state.1, 2 * state.1)
  }

  /** After k rounds both start and the granularity are g * 2^k. */
  lemma {:induction false} WindowLoopIsDoubled(g: nat, k: nat)
    ensures WindowLoopAsWritten(g, k) == (Doubled(g, k), Doubled(g, k))
  {
    if k > 0 {
      WindowLoopIsDoubled(g, k - 1);
    }
  }

  /** Nothing rejects a granularity of 0: then start stays 0 in every round,
      so for n > 0 the loop condition start < n never fails. */
  lemma ZeroGranularityNeverAdvances(n: nat, k: nat)
    requires n > 0
    ensures WindowLoopAsWritten(0, k).0 == 0 < n
  {
    WindowLoopIsDoubled(0, k);
  }

  // ----- find_if_index: the inverted window mapping -----

  /** The window element of line 56 as written: the sentinel n for a
      matching index and the index itself otherwise. */
  function WindowCandidateAsWritten(start: nat, n: nat, p: nat -> bool): nat -> nat
  {
    j => if p(start + j) then n else start + j
  }

  /** The min-reduction of a window with the as-written mapping. */
  function WindowMinAsWritten(start: nat, end: nat, n: nat, p: nat -> bool): nat
    requires start <= end
  {
    Reduce(DelayedSeq(end - start, WindowCandidateAsWritten(start, n, p)), MinMonoid(n))
  }

  /** The complement of an index predicate. */
  function Not(p: nat -> bool): nat -> bool
  {
    (i: nat) => !p(i)
  }

  /** As written, a window's reduction finds the first index that does NOT
      satisfy p. */
  lemma WindowMinAsWrittenFindsFirstNonMatch(start: nat, end: nat, n: nat, p: nat -> bool)
    requires start <= end <= n
    ensures var f := FirstMatchIn(start, end, Not(p));
            WindowMinAsWritten(start, end, n, p) == if f < end then f else n
  {
    assert DelayedSeq(end - start, WindowCandidateAsWritten(start, n, p))
        == DelayedSeq(end - start, WindowCandidate(start, n, Not(p)));
    WindowMinIsFirstMatch(start, end, n, Not(p));
  }

  /** On the window [0, 2) with n = 2 and only index 0 matching, the
      as-written reduction yields 1 where the corrected one yields 0. */
  lemma WindowMinAsWrittenCounterexample()
    ensures var p := (i: nat) => i == 0;
            WindowMinAsWritten(0, 2, 2, p) == 1 && WindowMin(0, 2, 2, p) == 0
  {
    var p := (i: nat) => i == 0;
    WindowMinAsWrittenFindsFirstNonMatch(0, 2, 2, p);
    FirstMatchInUnique(0, 2, Not(p), 1);
    WindowMinIsFirstMatch(0, 2, 2, p);
    FirstMatchInUnique(0, 2, p, 0);
  }

  // ----- any_of: compared with 1 -----

  /** Line 78 over the bool-returning `count_if`: the bool, as 0 or 1, is
      never greater than 1, so `any_of` as declared answers false on every
      input. */
  lemma AnyOfOverBoolCountAsWritten<T>(s: seq<T>, pred: T -> bool)
    ensures !((if CountIfAsWritten(s, pred) then 1 else 0) > 1)
  {
  }

  /** Two different matching indices below n make the count exceed 1. */
  lemma {:induction false} CountIfIndexAboveOneFromPair(n: nat, p: nat -> bool, i: nat, j: nat)
    requires i < j < n && p(i) && p(j)
    ensures CountIfIndex(n, p) > 1
  {
    CountIfIndexStep(n - 1, p);
    if j < n - 1 {
      CountIfIndexAboveOneFromPair(n - 1, p, i, j);
    } else {
      CountIfIndexBounds(n - 1, p);
    }
  }

  /** A count above 1 has two different matching indices behind it. */
  lemma {:induction false} CountIfIndexAboveOneHasPair(n: nat, p: nat -> bool)
    requires CountIfIndex(n, p) > 1
    ensures exists i, j :: 0 <= i < j < n && p(i) && p(j)
  {
    CountIfIndexStep(n - 1, p);
    if CountIfIndex(n - 1, p) > 1 {
      CountIfIndexAboveOneHasPair(n - 1, p);
      var i, j :| 0 <= i < j < n - 1 && p(i) && p(j);
      assert 0 <= i < j < n && p(i) && p(j);
    } else {
      CountIfIndexBounds(n - 1, p);
      var i :| 0 <= i < n - 1 && p(i);
      assert 0 <= i < n - 1 < n && p(i) && p(n - 1);
    }
  }

  /** The count exceeds 1 exactly when two different indices below n
      satisfy p. */
  lemma CountIfIndexAboveOne(n: nat, p: nat -> bool)
    ensures CountIfIndex(n, p) > 1 <==> exists i, j :: 0 <= i < j < n && p(i) && p(j)
  {
    if exists i, j :: 0 <= i < j < n && p(i) && p(j) {
      var i, j :| 0 <= i < j < n && p(i) && p(j);
      CountIfIndexAboveOneFromPair(n, p, i, j);
    }
    if CountIfIndex(n, p) > 1 {
      CountIfIndexAboveOneHasPair(n, p);
    }
  }

  /** `any_of` as written, with the count taken as a count: `count > 1`
      holds exactly when at least two positions satisfy pred. */
  function AnyOfAsWritten<T>(s: seq<T>, pred: T -> bool): (b: bool)
    ensures b <==> exists i, j :: 0 <= i < j < |s| && pred(s[i]) && pred(s[j])
  {
    CountIfIndexAboveOne(|s|, OnElements(s, pred));
    assert forall i :: 0 <= i < |s| ==> (OnElements(s, pred)(i) <==> pred(s[i]));
    CountIf(s, pred) > 1
  }

  /** On [5] with the predicate x == 5, `any_of` as written answers false
      where the corrected AnyOf answers true. */
  lemma AnyOfAsWrittenCounterexample()
    ensures !AnyOfAsWritten([5], (x: int) => x == 5)
    ensures AnyOf([5], (x: int) => x == 5)
  {
    var s := [5];
    assert s[0] == 5;
  }

  // ----- adjacent_find: size()-1 and the ignored predicate -----

  /** 2^64, the modulus of size_t arithmetic. */
  const SizeModulus: nat := 0x1_0000_0000_0000_0000

  /** The range `S.size()-1` of line 93 computed in size_t: it wraps to
      2^64 - 1 for an empty sequence and is AdjacentRange otherwise. */
  function AdjacentRangeAsWritten(len: nat): (m: nat)
    requires len < SizeModulus
    ensures len > 0 ==> m == AdjacentRange(len)
    ensures len == 0 ==> m == SizeModulus - 1
  {
    (len - 1) % SizeModulus
  }

  /** The index predicate of line 94 as written: s[i] == s[i + 1] with the
      caller's pred ignored; None when s[i + 1] lies outside s. */
  function AdjacentPairAsWritten<T(==)>(s: seq<T>, i: nat): Option<bool>
  {
    if i + 1 < |s| then Some(s[i] == s[i + 1]) else None
  }

  /** Inside the sequence the as-written predicate is AdjacentPairs under
      equality, whatever pred the caller passed. */
  lemma AdjacentPairAsWrittenIsEquality<T>(s: seq<T>, i: nat)
    requires i + 1 < |s|
    ensures AdjacentPairAsWritten(s, i) == Some(AdjacentPairs(s, Equality())(i))
  {
  }

  /** The two consequences: on an empty sequence the range is not empty, so
      index 0 is tested and reads outside s; and on [1, 3] with the
      same-parity relation, the pair at 0 is reported unrelated although pred
      relates it. */
  lemma AdjacentFindAsWrittenCounterexample()
    ensures 0 < AdjacentRangeAsWritten(0) && AdjacentPairAsWritten<int>([], 0) == None
    ensures AdjacentPairAsWritten([1, 3], 0) == Some(false)
    ensures AdjacentPairs([1, 3], SameParity())(0)
  {
  }

  /** The relation "has the same parity", an equivalence that is not
      equality. */
  function SameParity(): (int, int) -> bool
  {
    (a, b) => a % 2 == b % 2
  }

  // ----- search: the range is all of s1 -----

  /** The inner loop of lines 104-107 as written, from position j of s2 on,
      with != in place of pred: None when it reads s1 beyond its end,
      otherwise whether every remaining element of s2 agreed. */
  function ScanAsWritten<T(==)>(s1: seq<T>, s2: seq<T>, i: nat, j: nat): (r: Option<bool>)
    requires j <= |s2|
    ensures r == None ==> |s1| < i + |s2|
    ensures r == Some(true) && j < |s2| ==>
              i + |s2| <= |s1| && forall k :: j <= k < |s2| ==> s1[i + k] == s2[k]
    ensures r == Some(false) ==> exists k :: j <= k < |s2| && i + k < |s1| && s1[i + k] != s2[k]
    decreases |s2| - j
  {
    if j == |s2| then Some(true)
    else if i + j >= |s1| then None
    else if s1[i + j] != s2[j] then Some(false)
    else ScanAsWritten(s1, s2, i, j + 1)
  }

  /** For a start position where s2 fits inside s1, the as-written scan
      reads nothing out of bounds and decides MatchesAt under equality. */
  lemma {:induction false} ScanAsWrittenInRange<T>(s1: seq<T>, s2: seq<T>, i: nat, j: nat)
    requires i + |s2| <= |s1| && j <= |s2|
    requires forall k :: 0 <= k < j ==> s1[i + k] == s2[k]
    ensures ScanAsWritten(s1, s2, i, j) == Some(MatchesAt(s1, s2, Equality(), i))
    decreases |s2| - j
  {
    if j < |s2| && s1[i + j] == s2[j] {
      ScanAsWrittenInRange(s1, s2, i, j + 1);
    }
  }

  /** With s1 = [1, 2] and s2 = [2, 3], start 0 does not match, so the
      search goes on to start 1, which lies in the as-written range [0, 2)
      but outside the corrected one [0, 1): there the scan reads s1[2]. */
  lemma SearchAsWrittenCounterexample()
    ensures ScanAsWritten([1, 2], [2, 3], 0, 0) == Some(false)
    ensures ScanAsWritten([1, 2], [2, 3], 1, 0) == None
    ensures SearchRange(2, 2) == 1
  {
  }

  // ----- equal: the count returned as bool -----

  /** `equal(s1, s2, p)` as written: `count_if_index` converted to bool, true
      as soon as ONE position is related. */
  function EqualByAsWritten<T>(s1: seq<T>, s2: seq<T>, eq: (T, T) -> bool): (b: bool)
    requires |s1| <= |s2|
    ensures b <==> exists i :: 0 <= i < |s1| && eq(s1[i], s2[i])
  {
    assert forall i :: 0 <= i < |s1| ==> (OnPairs(s1, s2, eq)(i) <==> eq(s1[i], s2[i]));
    CountIfIndexAsWritten(|s1|, OnPairs(s1, s2, eq))
  }

  /** [1, 2] and [1, 3] are `equal` as written, though they differ. */
  lemma EqualAsWrittenCounterexample()
    ensures EqualByAsWritten([1, 2], [1, 3], Equality())
    ensures !Equal([1, 2], [1, 3])
  {
    var s1, s2 := [1, 2], [1, 3];
    assert Equality<int>()(s1[0], s2[0]);
    assert s1 != s2[..2] by {
      assert s1[1] != s2[1];
    }
  }

  // ----- unique: the ignored eq -----

  /** The keep mask of line 132 as written, comparing with == whatever eq
      the caller passed. */
  function KeepMaskAsWritten<T(==)>(s: seq<T>): (keep: seq<bool>)
    ensures |keep| == |s|
    ensures |s| > 0 ==> keep[0]
    ensures forall i :: 0 < i < |s| ==> (keep[i] <==> s[i] != s[i - 1])
    ensures keep == KeepMask(s, Equality())
  {
    seq(|s|, i requires 0 <= i < |s| => i == 0 || !(s[i] == s[i - 1]))
  }

  /** `unique(s, eq)` as written. */
  function UniqueAsWritten<T(==)>(s: seq<T>, eq: (T, T) -> bool): (r: seq<T>)
    ensures |r| <= |s|
    ensures forall x :: x in r ==> x in s
  {
    Pack(s, KeepMaskAsWritten(s))
  }

  /** As written, `unique` is `unique` under equality, for every eq. */
  lemma UniqueAsWrittenIgnoresEq<T>(s: seq<T>, eq: (T, T) -> bool)
    ensures UniqueAsWritten(s, eq) == Unique(s, Equality())
  {
  }

  /** On [1, 3] with the same-parity relation, `unique` as written keeps
      both elements where the corrected Unique keeps only the first. */
  lemma UniqueAsWrittenCounterexample()
    ensures UniqueAsWritten([1, 3], SameParity()) == [1, 3]
    ensures Unique([1, 3], SameParity()) == [1]
  {
    var s := [1, 3];
    UniqueAsWrittenIgnoresEq(s, SameParity());
    UniqueOfDistinctNeighbours(s, Equality());
    assert s == [1] + [3];
    UniqueCons(1, [3], SameParity());
    UniqueSingleton(3, SameParity());
  }

  // ----- min_element: the identity read as an index -----

  /** The combine of line 142 as written: it reads S[l] and S[r] for both
      arguments, so given the identity |S| it reads outside S (None). */
  function MinIndexCombineAsWritten<T>(s: seq<T>, comp: (T, T) -> bool): (nat, nat) -> Option<nat>
  {
    (l: nat, r: nat) =>
      if l < |s| && r < |s| then Some(if !comp(s[r], s[l]) then l else r) else None
  }

  /** On two indices inside S the as-written combine is MinIndexCombine. */
  lemma MinIndexCombineAsWrittenInside<T>(s: seq<T>, comp: (T, T) -> bool, l: nat, r: nat)
    requires l < |s| && r < |s|
    ensures MinIndexCombineAsWritten(s, comp)(l, r) == Some(MinIndexCombine(s, comp)(l, r))
  {
  }

  // ----- minmax_element: the identity read as an index -----

  /** The pair combine of lines 159-161 as written: it reads S at both
      components of both pairs, so given the identity (|S|, |S|) it reads
      outside S (None). */
  function MinMaxCombineAsWritten<T>(s: seq<T>, comp: (T, T) -> bool): ((nat, nat), (nat, nat)) -> Option<(nat, nat)>
  {
    (l: (nat, nat), r: (nat, nat)) =>
      if l.0 < |s| && r.0 < |s| && l.1 < |s| && r.1 < |s| then
        var lo: nat := if !comp(s[r.0], s[l.0]) then l.0 else r.0;
        var hi: nat := if !comp(s[l.1], s[r.1]) then l.1 else r.1;
        Some((lo, hi))
      else None
  }

  /** On two pairs of positions inside S the as-written pair combine is
      MinMaxCombine. */
  lemma MinMaxCombineAsWrittenInside<T>(s: seq<T>, comp: (T, T) -> bool, l: (nat, nat), r: (nat, nat))
    requires l.0 < |s| && r.0 < |s| && l.1 < |s| && r.1 < |s|
    ensures MinMaxCombineAsWritten(s, comp)(l, r) == Some(MinMaxCombine(s, comp)(l, r))
  {
    MinMaxCombineIsPair(s, comp, l, r);
  }

  /** Combining the identity (1, 1) of S = [7] with the pair (0, 0) reads
      S[1] as written, where the corrected combine returns (0, 0). */
  lemma MinMaxCombineAsWrittenCounterexample()
    ensures MinMaxCombineAsWritten([7], IntLess())((1, 1), (0, 0)) == None
    ensures MinMaxCombine([7], IntLess())((1, 1), (0, 0)) == (0, 0)
  {
    MinMaxCombineIsPair([7], IntLess(), (1, 1), (0, 0));
  }

  /** The reduction of line 143 as written, for an arithmetic element type:
      it reduces the VALUES of S, not the index sequence SS, and each combine
      reads S at the two values as positions. Folded the way a serial reduce
      does, from the first value on: the fold over s[..k], or None once a
      combine reads outside S. Whatever it yields is a value of S. */
  function ReduceValuesAsWritten(s: seq<nat>, comp: (nat, nat) -> bool, k: nat): (r: Option<nat>)
    requires 0 < k <= |s|
    ensures r.Some? ==> r.value in s[..k]
  {
    if k == 1 then Some(s[0])
    else
      match ReduceValuesAsWritten(s, comp, k - 1)
      case None => None
      case Some(acc) =>
        assert acc in s[..k];
        MinIndexCombineAsWritten(s, comp)(acc, s[k - 1])
  }

  /** `min_element(S, comp)` as written on a sequence of naturals: the
      identity |S| for an empty S, else the value fold above. */
  function MinElementAsWritten(s: seq<nat>, comp: (nat, nat) -> bool): (r: Option<nat>)
    ensures |s| == 0 ==> r == Some(0)
    ensures r.Some? && |s| > 0 ==> r.value in s
  {
    if |s| == 0 then Some(|s|) else ReduceValuesAsWritten(s, comp, |s|)
  }

  /** The comparator < on naturals. */
  function NatLess(): (nat, nat) -> bool
  {
    (a, b) => a < b
  }

  /** On [3, 1, 4, 1, 5] the as-written fold carries the value 3 through the
      first four elements (never the position 1 of the minimum) and its last
      combine, of 3 with 5, reads S[5] outside S; the corrected MinElement
      returns 1 on the same sequence (MinElementExample). */
  lemma MinElementAsWrittenCounterexample(s: seq<nat>)
    requires s == [3, 1, 4, 1, 5]
    ensures ReduceValuesAsWritten(s, NatLess(), 4) == Some(3)
    ensures MinElementAsWritten(s, NatLess()) == None
  {
    var f := MinIndexCombineAsWritten(s, NatLess());
    assert ReduceValuesAsWritten(s, NatLess(), 2) == f(3, 1) == Some(3);
    assert ReduceValuesAsWritten(s, NatLess(), 3) == f(3, 4) == Some(3);
    assert ReduceValuesAsWritten(s, NatLess(), 4) == f(3, 1) == Some(3);
    assert ReduceValuesAsWritten(s, NatLess(), 5) == f(3, 5) == None;
  }

  /** Combining the identity 1 of S = [7] with index 0 reads S[1] as
      written, where the corrected combine returns 0. */
  lemma MinIndexCombineAsWrittenCounterexample()
    ensures MinIndexCombineAsWritten([7], IntLess())(1, 0) == None
    ensures MinIndexCombine([7], IntLess())(1, 0) == 0
  {
  }
}
