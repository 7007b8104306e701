/** The comparison-based reductions of stlalgs.h: `lexicographical_compare`,
    whose "first nonzero sign wins" combine is associative but not
    commutative, and `min_element`, `max_element` and `minmax_element`, which
    reduce over indices and break ties towards the left operand. */
module Ordering {
  import opened Sequences
  import opened IndexSearch

  /** The comparators these algorithms are meant for: irreflexive,
      transitive, and with transitive incomparability (stated in its
      contrapositive form: if a < c then every b is above a or below c). */
  ghost predicate StrictWeakOrder<T(!new)>(comp: (T, T) -> bool)
  {
    && (forall a :: !comp(a, a))
    && (forall a, b, c :: comp(a, b) && comp(b, c) ==> comp(a, c))
    && (forall a, b, c :: comp(a, c) ==> comp(a, b) || comp(b, c))
  }

  /** The comparator with its arguments swapped, as `max_element` passes it
      to `min_element`. */
  function Flip<T>(comp: (T, T) -> bool): (T, T) -> bool
  {
    (a, b) => comp(b, a)
  }

  /** Swapping the arguments of a strict weak order gives a strict weak order. */
  lemma FlipStrictWeakOrder<T(!new)>(comp: (T, T) -> bool)
    requires StrictWeakOrder(comp)
    ensures StrictWeakOrder(Flip(comp))
  {
    var f := Flip(comp);
    forall a, b, c | f(a, c)
      ensures f(a, b) || f(b, c)
    {
      assert comp(c, a);
    }
  }

  /** The three laws of a strict weak order, instantiated at a, b and c. */
  lemma StrictWeakOrderAt<T(!new)>(comp: (T, T) -> bool, a: T, b: T, c: T)
    requires StrictWeakOrder(comp)
    ensures !comp(a, a)
    ensures comp(a, b) && comp(b, c) ==> comp(a, c)
    ensures comp(a, c) ==> comp(a, b) || comp(b, c)
  {
  }

  /** The usual order on integers. */
  function IntLess(): (int, int) -> bool
  {
    (a, b) => a < b
  }

  lemma IntLessStrictWeakOrder()
    ensures StrictWeakOrder(IntLess())
  {
  }

  // ----- lexicographical_compare -----

  /** The sign `lexicographical_compare` puts at index i: -1 when s1[i] is
      less than s2[i], 1 when s2[i] is less than s1[i], 0 when neither. */
  function SignAt<T>(s1: seq<T>, s2: seq<T>, less: (T, T) -> bool): nat -> int
  {
    (i: nat) =>
      if i < |s1| && i < |s2| then
        (if less(s1[i], s2[i]) then -1 else if less(s2[i], s1[i]) then 1 else 0)
      else 0
  }

  /** The monoid of stlalgs.h:124-125: keep the left sign unless it is 0, with
      identity 0. */
  function FirstNonzero(): Monoid<int>
  {
    var f: (int, int) -> int := (a, b) => if a == 0 then b else a;
    Monoid(f, 0)
  }

  /** The combine is associative with identity 0, so a reduction that
      respects the order of the range may group it as it likes. */
  lemma FirstNonzeroIsMonoid()
    ensures IsMonoid(FirstNonzero())
  {
  }

  /** The combine is not commutative, so the reduction must keep the order. */
  lemma FirstNonzeroNotCommutative()
    ensures FirstNonzero().combine(-1, 1) != FirstNonzero().combine(1, -1)
  {
  }

  /** Index i decides the comparison: its sign is not 0. */
  function Decides<T>(s1: seq<T>, s2: seq<T>, less: (T, T) -> bool): nat -> bool
  {
    (i: nat) => SignAt(s1, s2, less)(i) != 0
  }

  /** The reduced sign of the signs at [0, k). */
  function ReducedSign<T>(s1: seq<T>, s2: seq<T>, less: (T, T) -> bool, k: nat): int
  {
    Reduce(DelayedSeq(k, SignAt(s1, s2, less)), FirstNonzero())
  }

  /** The reduced sign is the sign at the first index of [0, k) that decides
      the comparison, or 0 when none does. */
  lemma {:induction false} ReducedSignIsFirstDecidingSign<T>(s1: seq<T>, s2: seq<T>, less: (T, T) -> bool, k: nat)
    ensures var f := FirstMatchIn(0, k, Decides(s1, s2, less));
            ReducedSign(s1, s2, less, k) == if f < k then SignAt(s1, s2, less)(f) else 0
  {
    if k > 0 {
      ReducedSignIsFirstDecidingSign(s1, s2, less, k - 1);
      DelayedSeqPrefix(k - 1, SignAt(s1, s2, less));
      var p := Decides(s1, s2, less);
      var f := FirstMatchIn(0, k - 1, p);
      if f < k - 1 {
        FirstMatchInUnique(0, k, p, f);
      } else if p(k - 1) {
        FirstMatchInUnique(0, k, p, k - 1);
      } else {
        FirstMatchInUnique(0, k, p, k);
      }
    }
  }

  /** `lexicographical_compare(s1, s2, less)`: the signs of all positions of
      s1 reduced under FirstNonzero, compared with -1. The source reads s2 at
      every index of s1, so s2 must be at least as long. */
  function LexicographicalCompare<T>(s1: seq<T>, s2: seq<T>, less: (T, T) -> bool): bool
    requires |s1| <= |s2|
  {
    Reduce(DelayedSeq(|s1|, SignAt(s1, s2, less)), FirstNonzero()) == -1
  }

  /** The comparison is true exactly when, at the first position where the
      elements are comparable, s1's element is the smaller one. */
  lemma LexicographicalCompareIsFirstDifference<T>(s1: seq<T>, s2: seq<T>, less: (T, T) -> bool)
    requires |s1| <= |s2|
    ensures LexicographicalCompare(s1, s2, less) <==>
            exists k :: 0 <= k < |s1| && less(s1[k], s2[k]) &&
              forall j :: 0 <= j < k ==> !less(s1[j], s2[j]) && !less(s2[j], s1[j])
  {
    var p := Decides(s1, s2, less);
    var f := FirstMatchIn(0, |s1|, p);
    ReducedSignIsFirstDecidingSign(s1, s2, less, |s1|);
    forall j | 0 <= j < f
      ensures !less(s1[j], s2[j]) && !less(s2[j], s1[j])
    {
      assert !p(j);
    }
    if LexicographicalCompare(s1, s2, less) {
      assert f < |s1| && less(s1[f], s2[f]);
    }
    forall k | 0 <= k < |s1| && less(s1[k], s2[k]) &&
               forall j :: 0 <= j < k ==> !less(s1[j], s2[j]) && !less(s2[j], s1[j])
      ensures LexicographicalCompare(s1, s2, less)
    {
      forall j | 0 <= j < k
        ensures !p(j)
      {
      }
      FirstMatchInUnique(0, |s1|, p, k);
    }
  }

  /** On integers under <, the comparison is true exactly when the sequences
      agree up to some position where s1's element is smaller; it is false
      for equal sequences. */
  lemma LexicographicalCompareInts(s1: seq<int>, s2: seq<int>)
    requires |s1| <= |s2|
    ensures LexicographicalCompare(s1, s2, IntLess()) <==>
            exists k :: 0 <= k < |s1| && s1[..k] == s2[..k] && s1[k] < s2[k]
    ensures !LexicographicalCompare(s1, s1, IntLess())
  {
    LexicographicalCompareIsFirstDifference(s1, s2, IntLess());
    LexicographicalCompareIsFirstDifference(s1, s1, IntLess());
    if LexicographicalCompare(s1, s2, IntLess()) {
      var k :| 0 <= k < |s1| && s1[k] < s2[k] &&
        forall j :: 0 <= j < k ==> !(s1[j] < s2[j]) && !(s2[j] < s1[j]);
      assert s1[..k] == s2[..k];
    }
    forall k | 0 <= k < |s1| && s1[..k] == s2[..k] && s1[k] < s2[k]
      ensures LexicographicalCompare(s1, s2, IntLess())
    {
      forall j | 0 <= j < k
        ensures s1[j] == s2[j]
      {
        assert s1[..k][j] == s2[..k][j];
      }
    }
  }

  /** [1,2,3] < [1,2,4]; [1,2,3] is not below itself; [1,2,4] is not below [1,2,3]. */
  lemma LexicographicalCompareExamples()
    ensures LexicographicalCompare([1, 2, 3], [1, 2, 4], IntLess())
    ensures !LexicographicalCompare([1, 2, 3], [1, 2, 3], IntLess())
    ensures !LexicographicalCompare([1, 2, 4], [1, 2, 3], IntLess())
  {
    LexicographicalCompareInts([1, 2, 3], [1, 2, 4]);
    assert [1, 2, 3][..2] == [1, 2, 4][..2];
    LexicographicalCompareInts([1, 2, 3], [1, 2, 3]);
    LexicographicalCompareInts([1, 2, 4], [1, 2, 3]);
    var a, b := [1, 2, 4], [1, 2, 3];
    forall k | 0 <= k < 3 && a[..k] == b[..k]
      ensures !(a[k] < b[k])
    {
      if k < 2 {
        assert a[..k + 1] == b[..k + 1] by {
          assert a[..k + 1] == a[..k] + [a[k]] && b[..k + 1] == b[..k] + [b[k]];
        }
      }
    }
  }

  // ----- min_element / max_element -----

  /** The combine of stlalgs.h:141-142 with the identity |s| handled: the left
      index unless the element at the right index is strictly less. */
  function MinIndexCombine<T>(s: seq<T>, comp: (T, T) -> bool): (f: (nat, nat) -> nat)
    ensures forall l: nat, r: nat :: f(l, r) == l || f(l, r) == r
    ensures forall l: nat, r: nat :: l < |s| && r < |s| && comp(s[r], s[l]) ==> f(l, r) == r
    ensures forall l: nat, r: nat :: l < |s| && r < |s| && !comp(s[r], s[l]) ==> f(l, r) == l
    ensures forall l: nat, r: nat :: l >= |s| ==> f(l, r) == r
    ensures forall l: nat, r: nat :: l < |s| <= r ==> f(l, r) == l
  {
    (l: nat, r: nat) =>
      if l >= |s| then r
      else if r >= |s| then l
      else if !comp(s[r], s[l]) then l else r
  }

  /** The index monoid of `min_element`, with identity |s|. */
  function MinIndexMonoid<T>(s: seq<T>, comp: (T, T) -> bool): Monoid<nat>
  {
    var f: (nat, nat) -> nat := MinIndexCombine(s, comp);
    var identity: nat := |s|;
    Monoid(f, identity)
  }

  /** The delayed sequence of indices `[&] (size_t i) {return i;}`. */
  function Indices(n: nat): seq<nat>
  {
    DelayedSeq(n, (i: nat) => i)
  }

  /** On the indices 0..|s| the combine is a monoid when comp is a strict weak
      order: |s| is its identity and it is associative. (On all of nat it is
      not: an index above |s| is absorbed by the identity.) */
  lemma MinIndexCombineLaws<T(!new)>(s: seq<T>, comp: (T, T) -> bool, a: nat, b: nat, c: nat)
    requires StrictWeakOrder(comp)
    requires a <= |s| && b <= |s| && c <= |s|
    ensures MinIndexCombine(s, comp)(|s|, a) == a == MinIndexCombine(s, comp)(a, |s|)
    ensures var f := MinIndexCombine(s, comp);
            f(f(a, b), c) == f(a, f(b, c))
  {
  }

  /** MinIndexMonoid is a monoid on the carrier of indices up to |s|, so
      ReduceConcatOn applies to reductions of index sequences. */
  lemma MinIndexMonoidIsMonoidOn<T(!new)>(s: seq<T>, comp: (T, T) -> bool)
    requires StrictWeakOrder(comp)
    ensures IsMonoidOn(MinIndexMonoid(s, comp), (x: nat) => x <= |s|)
  {
    forall a: nat, b: nat, c: nat | a <= |s| && b <= |s| && c <= |s|
      ensures var f := MinIndexCombine(s, comp);
              f(f(a, b), c) == f(a, f(b, c))
    {
      MinIndexCombineLaws(s, comp, a, b, c);
    }
    forall a: nat | a <= |s|
      ensures MinIndexCombine(s, comp)(|s|, a) == a == MinIndexCombine(s, comp)(a, |s|)
    {
      MinIndexCombineLaws(s, comp, a, a, a);
    }
  }

  /** `min_element(S, comp)` (reducing the index sequence, as intended): the
      index reduction under MinIndexMonoid. */
  function MinElement<T>(s: seq<T>, comp: (T, T) -> bool): nat
  {
    Reduce(Indices(|s|), MinIndexMonoid(s, comp))
  }

  /** k is the first minimal position of s under comp: no element is less
      than s[k], and every element before it is greater. */
  ghost predicate IsFirstMinimum<T>(s: seq<T>, comp: (T, T) -> bool, k: nat)
  {
    && k < |s|
    && (forall j :: 0 <= j < |s| ==> !comp(s[j], s[k]))
    && (forall j :: 0 <= j < k ==> comp(s[k], s[j]))
  }

  /** A sequence has at most one first minimal position. */
  lemma FirstMinimumUnique<T>(s: seq<T>, comp: (T, T) -> bool, k1: nat, k2: nat)
    requires IsFirstMinimum(s, comp, k1) && IsFirstMinimum(s, comp, k2)
    ensures k1 == k2
  {
    assert !comp(s[k2], s[k1]) && !comp(s[k1], s[k2]);
  }

  /** Combining the first minimal position k of s[..m-1] with the next index
      m-1 gives the first minimal position of s[..m]. */
  lemma MinElementPrefixStep<T(!new)>(s: seq<T>, comp: (T, T) -> bool, m: nat, k: nat)
    requires StrictWeakOrder(comp)
    requires 1 < m <= |s|
    requires IsFirstMinimum(s[..m - 1], comp, k)
    ensures IsFirstMinimum(s[..m], comp, MinIndexCombine(s, comp)(k, m - 1))
  {
    assert forall j :: 0 <= j < m - 1 ==> s[..m - 1][j] == s[j];
    if comp(s[m - 1], s[k]) {
      forall j | 0 <= j < m
        ensures !comp(s[j], s[m - 1])
      {
        StrictWeakOrderAt(comp, s[j], s[m - 1], s[k]);
      }
      forall j | 0 <= j < m - 1
        ensures comp(s[m - 1], s[j])
      {
        StrictWeakOrderAt(comp, s[m - 1], s[j], s[k]);
      }
    }
  }

  /** The reduction over the first m indices yields the first minimal
      position among s[..m], or the identity |s| when m is 0. */
  lemma {:induction false} MinElementPrefix<T(!new)>(s: seq<T>, comp: (T, T) -> bool, m: nat)
    requires StrictWeakOrder(comp)
    requires m <= |s|
    ensures var k := Reduce(Indices(m), MinIndexMonoid(s, comp));
            && (m == 0 ==> k == |s|)
            && (m > 0 ==> IsFirstMinimum(s[..m], comp, k))
  {
    if m > 0 {
      MinElementPrefix(s, comp, m - 1);
      DelayedSeqPrefix(m - 1, (i: nat) => i);
      var k := Reduce(Indices(m - 1), MinIndexMonoid(s, comp));
      assert Reduce(Indices(m), MinIndexMonoid(s, comp)) == MinIndexCombine(s, comp)(k, m - 1);
      if m > 1 {
        MinElementPrefixStep(s, comp, m, k);
      }
    }
  }

  /** `min_element` returns the first position holding a minimal element, or
      0 (= |s|, the identity) for an empty sequence. */
  lemma MinElementIsFirstMinimum<T(!new)>(s: seq<T>, comp: (T, T) -> bool)
    requires StrictWeakOrder(comp)
    ensures |s| == 0 ==> MinElement(s, comp) == 0
    ensures |s| > 0 ==> IsFirstMinimum(s, comp, MinElement(s, comp))
  {
    MinElementPrefix(s, comp, |s|);
    assert s[..|s|] == s;
  }

  /** `min_element([3,1,4,1,5], <)` is 1, the first of the two minima. */
  lemma MinElementExample()
    ensures MinElement([3, 1, 4, 1, 5], IntLess()) == 1
  {
    var s := [3, 1, 4, 1, 5];
    IntLessStrictWeakOrder();
    MinElementIsFirstMinimum(s, IntLess());
    var k := MinElement(s, IntLess());
    assert IsFirstMinimum(s, IntLess(), 1);
    FirstMinimumUnique(s, IntLess(), k, 1);
  }

  /** Splitting the index range at any m and combining the two halves'
      reductions gives `min_element`: the order in which a parallel reduce
      splits the indices does not change the result. */
  lemma MinElementSplit<T(!new)>(s: seq<T>, comp: (T, T) -> bool, m: nat)
    requires StrictWeakOrder(comp)
    requires m <= |s|
    ensures MinElement(s, comp) ==
            MinIndexCombine(s, comp)(Reduce(Indices(m), MinIndexMonoid(s, comp)),
                                     Reduce(DelayedSeq(|s| - m, (i: nat) => m + i), MinIndexMonoid(s, comp)))
  {
    var a := Indices(m);
    var b := DelayedSeq(|s| - m, (i: nat) => m + i);
    assert Indices(|s|) == a + b;
    MinIndexMonoidIsMonoidOn(s, comp);
    ReduceConcatOn(a, b, MinIndexMonoid(s, comp), (x: nat) => x <= |s|);
  }

  /** `max_element(S, comp)` (passing the flipped comp, as intended): the
      minimum under the swapped comparator. */
  function MaxElement<T>(s: seq<T>, comp: (T, T) -> bool): nat
  {
    MinElement(s, Flip(comp))
  }

  /** `max_element` returns the first position holding a maximal element: no
      element is greater than it and every earlier element is less. */
  lemma MaxElementIsFirstMaximum<T(!new)>(s: seq<T>, comp: (T, T) -> bool)
    requires StrictWeakOrder(comp)
    ensures var k := MaxElement(s, comp);
            && (|s| == 0 ==> k == 0)
            && (|s| > 0 ==>
                  && k < |s|
                  && (forall j :: 0 <= j < |s| ==> !comp(s[k], s[j]))
                  && (forall j :: 0 <= j < k ==> comp(s[j], s[k])))
  {
    FlipStrictWeakOrder(comp);
    MinElementIsFirstMinimum(s, Flip(comp));
    var k := MaxElement(s, comp);
    if |s| > 0 {
      forall j | 0 <= j < |s|
        ensures !comp(s[k], s[j])
      {
        assert !Flip(comp)(s[j], s[k]);
      }
      forall j | 0 <= j < k
        ensures comp(s[j], s[k])
      {
        assert Flip(comp)(s[k], s[j]);
      }
    }
  }

  // ----- minmax_element -----

  /** The pair combine of stlalgs.h:159-161 (with the comparator passed in
      and the identity handled): the first component reduces like
      `min_element`, the second keeps the left index unless its element is
      less than the right one's. */
  function MinMaxCombine<T>(s: seq<T>, comp: (T, T) -> bool): ((nat, nat), (nat, nat)) -> (nat, nat)
  {
    (l: (nat, nat), r: (nat, nat)) =>
      var lo: nat := MinIndexCombine(s, comp)(l.0, r.0);
      var hi: nat :=
        if l.1 >= |s| then r.1
        else if r.1 >= |s| then l.1
        else if !comp(s[l.1], s[r.1]) then l.1 else r.1;
      (lo, hi)
  }

  /** The delayed sequence of pairs `make_pair(i, i)`. */
  function IndexPairs(n: nat): seq<(nat, nat)>
  {
    DelayedSeq(n, (i: nat) => (i, i))
  }

  /** `minmax_element(S, comp)`: one reduction over index pairs with identity
      (|s|, |s|). */
  function MinMaxElement<T>(s: seq<T>, comp: (T, T) -> bool): (nat, nat)
  {
    Reduce(IndexPairs(|s|), Monoid(MinMaxCombine(s, comp), (|s|, |s|)))
  }

  /** The pair combine is the min-index combine under comp on the first
      component and under the flipped comp on the second. */
  lemma MinMaxCombineIsPair<T>(s: seq<T>, comp: (T, T) -> bool, l: (nat, nat), r: (nat, nat))
    ensures MinMaxCombine(s, comp)(l, r) ==
            (MinIndexCombine(s, comp)(l.0, r.0), MinIndexCombine(s, Flip(comp))(l.1, r.1))
  {
  }

  /** On pairs of indices up to |s| the pair combine is a monoid with
      identity (|s|, |s|), so ReduceConcatOn applies to `minmax_element`. */
  lemma MinMaxMonoidIsMonoidOn<T(!new)>(s: seq<T>, comp: (T, T) -> bool)
    requires StrictWeakOrder(comp)
    ensures IsMonoidOn(Monoid(MinMaxCombine(s, comp), (|s|, |s|)),
                       (x: (nat, nat)) => x.0 <= |s| && x.1 <= |s|)
  {
    FlipStrictWeakOrder(comp);
    var f := MinMaxCombine(s, comp);
    forall a: (nat, nat), b: (nat, nat) | a.0 <= |s| && a.1 <= |s| && b.0 <= |s| && b.1 <= |s|
      ensures f(a, b).0 <= |s| && f(a, b).1 <= |s|
    {
      MinMaxCombineIsPair(s, comp, a, b);
    }
    forall a: (nat, nat), b: (nat, nat), c: (nat, nat)
      | a.0 <= |s| && a.1 <= |s| && b.0 <= |s| && b.1 <= |s| && c.0 <= |s| && c.1 <= |s|
      ensures f(f(a, b), c) == f(a, f(b, c))
    {
      MinMaxCombineIsPair(s, comp, a, b);
      MinMaxCombineIsPair(s, comp, b, c);
      MinMaxCombineIsPair(s, comp, f(a, b), c);
      MinMaxCombineIsPair(s, comp, a, f(b, c));
      MinIndexCombineLaws(s, comp, a.0, b.0, c.0);
      MinIndexCombineLaws(s, Flip(comp), a.1, b.1, c.1);
    }
    forall a: (nat, nat) | a.0 <= |s| && a.1 <= |s|
      ensures f((|s|, |s|), a) == a && f(a, (|s|, |s|)) == a
    {
      MinMaxCombineIsPair(s, comp, (|s|, |s|), a);
      MinMaxCombineIsPair(s, comp, a, (|s|, |s|));
      MinIndexCombineLaws(s, comp, a.0, a.0, a.0);
      MinIndexCombineLaws(s, Flip(comp), a.1, a.1, a.1);
    }
  }

  /** Over every prefix, the pair reduction tracks the two index reductions
      independently. */
  lemma {:induction false} MinMaxPrefix<T>(s: seq<T>, comp: (T, T) -> bool, m: nat)
    ensures Reduce(IndexPairs(m), Monoid(MinMaxCombine(s, comp), (|s|, |s|)))
            == (Reduce(Indices(m), MinIndexMonoid(s, comp)),
                Reduce(Indices(m), MinIndexMonoid(s, Flip(comp))))
  {
    if m > 0 {
      MinMaxPrefix(s, comp, m - 1);
      DelayedSeqPrefix(m - 1, (i: nat) => (i, i));
      DelayedSeqPrefix(m - 1, (i: nat) => i);
    }
  }

  /** The single pair reduction computes exactly `min_element` and
      `max_element`: the first minimal and the first maximal position. */
  lemma MinMaxElementIsMinAndMax<T>(s: seq<T>, comp: (T, T) -> bool)
    ensures MinMaxElement(s, comp) == (MinElement(s, comp), MaxElement(s, comp))
  {
    MinMaxPrefix(s, comp, |s|);
  }
}
