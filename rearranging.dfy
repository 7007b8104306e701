/** The algorithms of stlalgs.h that build a new sequence from an old one by
    index mapping: `unique`, which computes a keep mask and hands it to
    `pack`, and `reverse`, which maps index i to n-1-i. */
module Rearranging {
  import opened Sequences

  /** The relations `unique` is meant for: reflexive, symmetric, transitive. */
  ghost predicate Equivalence<T(!new)>(eq: (T, T) -> bool)
  {
    && (forall a :: eq(a, a))
    && (forall a, b :: eq(a, b) ==> eq(b, a))
    && (forall a, b, c :: eq(a, b) && eq(b, c) ==> eq(a, c))
  }

  /** The element type's own equality, as a relation. */
  function Equality<T(==)>(): (T, T) -> bool
  {
    (a, b) => a == b
  }

  // ----- unique -----

  /** The keep mask of stlalgs.h:131-132, built with the caller's eq: index 0
      is kept, and index i > 0 is kept when s[i] is not eq to s[i - 1]. */
  function KeepMask<T>(s: seq<T>, eq: (T, T) -> bool): (keep: seq<bool>)
    ensures |keep| == |s|
    ensures |s| > 0 ==> keep[0]
    ensures forall i :: 0 < i < |s| ==> (keep[i] <==> !eq(s[i], s[i - 1]))
  {
    seq(|s|, i requires 0 <= i < |s| => i == 0 || !eq(s[i], s[i - 1]))
  }

  /** `unique(s, eq)`: s packed with its keep mask, so that the first element
      of every run of eq-related neighbours survives. */
  function Unique<T>(s: seq<T>, eq: (T, T) -> bool): (r: seq<T>)
    ensures |r| <= |s|
    ensures forall x :: x in r ==> x in s
    ensures |s| > 0 ==> |r| > 0 && r[0] == s[0]
  {
    Pack(s, KeepMask(s, eq))
  }

  /** How `unique` unfolds on a sequence x followed by a non-empty t: x is
      kept, and the head of t survives exactly when it is not eq to x. */
  lemma UniqueCons<T>(x: T, t: seq<T>, eq: (T, T) -> bool)
    requires |t| > 0
    ensures Unique(t, eq) == [t[0]] + Pack(t[1..], KeepMask(t, eq)[1..])
    ensures Unique([x] + t, eq) ==
            if eq(t[0], x) then [x] + Unique(t, eq)[1..] else [x] + Unique(t, eq)
  {
    var s := [x] + t;
    var keep := KeepMask(s, eq);
    assert s[1..] == t;
    var kt := KeepMask(t, eq);
    assert Unique(t, eq) == [t[0]] + Pack(t[1..], kt[1..]) by {
      assert kt[0];
    }
    if eq(t[0], x) {
      assert keep[1..] == [false] + kt[1..];
      assert ([false] + kt[1..])[1..] == kt[1..];
      assert Pack(t, keep[1..]) == Pack(t[1..], kt[1..]);
    } else {
      assert keep[1..] == KeepMask(t, eq);
    }
  }

  /** UniqueCons with the result of `unique` on the tail already known. */
  lemma UniqueConsStep<T>(x: T, t: seq<T>, u: seq<T>, eq: (T, T) -> bool)
    requires |t| > 0 && Unique(t, eq) == u
    ensures Unique([x] + t, eq) == if eq(t[0], x) then [x] + u[1..] else [x] + u
  {
    UniqueCons(x, t, eq);
  }

  /** A one-element sequence is its own `unique`. */
  lemma UniqueSingleton<T>(x: T, eq: (T, T) -> bool)
    ensures Unique([x], eq) == [x]
  {
    assert [x][1..] == [];
  }

  /** The result of `unique` starts with the first element of s, is empty
      only when s is, and, when eq is an equivalence, holds no two
      neighbouring elements that are eq-related. */
  lemma {:induction false} UniqueHasNoAdjacentEquivalents<T(!new)>(s: seq<T>, eq: (T, T) -> bool)
    requires Equivalence(eq)
    ensures var r := Unique(s, eq);
            && (|r| == 0 <==> |s| == 0)
            && (|s| > 0 ==> r[0] == s[0])
            && forall i :: 0 <= i < |r| - 1 ==> !eq(r[i], r[i + 1])
  {
    if |s| == 1 {
      UniqueSingleton(s[0], eq);
    } else if |s| > 1 {
      var x, t := s[0], s[1..];
      assert s == [x] + t;
      UniqueHasNoAdjacentEquivalents(t, eq);
      UniqueCons(x, t, eq);
      var u := Unique(t, eq);
      var r := Unique(s, eq);
      if eq(t[0], x) {
        assert r == [x] + u[1..];
        forall i | 0 <= i < |r| - 1
          ensures !eq(r[i], r[i + 1])
        {
          if i == 0 {
            assert r[1] == u[1] && !eq(u[0], u[1]) && u[0] == t[0];
            assert eq(x, t[0]);
          } else {
            assert r[i] == u[i] && r[i + 1] == u[i + 1];
          }
        }
      } else {
        assert r == [x] + u;
        forall i | 0 <= i < |r| - 1
          ensures !eq(r[i], r[i + 1])
        {
          if i == 0 {
            assert r[1] == t[0];
          } else {
            assert r[i] == u[i - 1] && r[i + 1] == u[i];
          }
        }
      }
    }
  }

  /** When no two neighbours of s are eq-related, `unique` changes nothing. */
  lemma UniqueOfDistinctNeighbours<T>(s: seq<T>, eq: (T, T) -> bool)
    requires forall i :: 0 <= i < |s| - 1 ==> !eq(s[i + 1], s[i])
    ensures Unique(s, eq) == s
  {
    var keep := KeepMask(s, eq);
    forall i | 0 <= i < |keep|
      ensures keep[i]
    {
      if i > 0 {
        assert !eq(s[(i - 1) + 1], s[i - 1]);
      }
    }
    PackAllKept(s, keep);
  }

  /** For an equivalence eq, `unique` is idempotent. */
  lemma UniqueIdempotent<T(!new)>(s: seq<T>, eq: (T, T) -> bool)
    requires Equivalence(eq)
    ensures Unique(Unique(s, eq), eq) == Unique(s, eq)
  {
    var r := Unique(s, eq);
    UniqueHasNoAdjacentEquivalents(s, eq);
    forall i | 0 <= i < |r| - 1
      ensures !eq(r[i + 1], r[i])
    {
      assert !eq(r[i], r[i + 1]);
    }
    UniqueOfDistinctNeighbours(r, eq);
  }

  /** Position i of s holds a value that survives `unique` under equality:
      either i is kept, or s[i] equals its kept predecessor's value. */
  lemma {:induction false} UniqueKeepsValueAt<T>(s: seq<T>, i: nat)
    requires i < |s|
    ensures s[i] in Unique(s, Equality())
  {
    var keep := KeepMask(s, Equality());
    PackKeepsFlagged(s, keep);
    if i > 0 && s[i] == s[i - 1] {
      UniqueKeepsValueAt(s, i - 1);
    } else {
      assert keep[i];
    }
  }

  /** Under equality, `unique` loses no value and invents none: the result
      holds exactly the values of s. */
  lemma UniqueKeepsValues<T>(s: seq<T>)
    ensures forall x :: x in Unique(s, Equality()) <==> x in s
  {
    forall x | x in s
      ensures x in Unique(s, Equality())
    {
      var i :| 0 <= i < |s| && s[i] == x;
      UniqueKeepsValueAt(s, i);
    }
  }

  /** `unique([2,2,3,1])` under equality is [2,3,1]. */
  lemma UniqueExampleTail(s: seq<int>)
    requires s == [2, 2, 3, 1]
    ensures Unique(s, Equality()) == [2, 3, 1]
  {
    var eq := Equality<int>();
    var t1, t2, t3 := s[3..], s[2..], s[1..];
    assert t1 == [1] && t2 == [3] + t1 && t3 == [2] + t2 && s == [2] + t3;
    UniqueSingleton(1, eq);
    UniqueConsStep(3, t1, [1], eq);
    UniqueConsStep(2, t2, [3, 1], eq);
    UniqueConsStep(2, t3, [2, 3, 1], eq);
  }

  /** The middle step of UniqueExample: `unique([2,2,2,3,1])` is [2,3,1]. */
  lemma UniqueExampleMiddle(s: seq<int>)
    requires s == [2, 2, 2, 3, 1]
    ensures Unique(s, Equality()) == [2, 3, 1]
  {
    var t4 := s[1..];
    assert t4 == [2, 2, 3, 1] && s == [2] + t4;
    UniqueExampleTail(t4);
    UniqueConsStep(2, t4, [2, 3, 1], Equality());
  }

  /** `unique([1,1,2,2,2,3,1])` under equality is [1,2,3,1]. */
  lemma UniqueExample(s: seq<int>)
    requires s == [1, 1, 2, 2, 2, 3, 1]
    ensures Unique(s, Equality()) == [1, 2, 3, 1]
  {
    var eq := Equality<int>();
    var t5, t6 := s[2..], s[1..];
    assert t5 == [2, 2, 2, 3, 1] && t6 == [1] + t5 && s == [1] + t6;
    UniqueExampleMiddle(t5);
    UniqueConsStep(1, t5, [2, 3, 1], eq);
    UniqueConsStep(1, t6, [1, 2, 3, 1], eq);
  }

  // ----- reverse -----

  /** `reverse(S)`: the sequence of the same length whose element i is
      S[n-1-i]. */
  function Reverse<T>(s: seq<T>): (r: seq<T>)
    ensures |r| == |s|
    ensures forall i :: 0 <= i < |s| ==> r[i] == s[|s| - 1 - i]
  {
    DelayedSeq(|s|, (i: nat) requires i < |s| => s[|s| - i - 1])
  }

  /** Reversing twice gives back the original sequence. */
  lemma ReverseInvolution<T>(s: seq<T>)
    ensures Reverse(Reverse(s)) == s
  {
  }

  /** Reversing a concatenation reverses the order of the parts. */
  lemma ReverseConcat<T>(a: seq<T>, b: seq<T>)
    ensures Reverse(a + b) == Reverse(b) + Reverse(a)
  {
  }

  /** Reversal is a permutation: the same elements, each as often. */
  lemma {:induction false} ReversePermutes<T>(s: seq<T>)
    ensures multiset(Reverse(s)) == multiset(s)
  {
    if |s| > 0 {
      var t := s[..|s| - 1];
      ReversePermutes(t);
      assert s == t + [s[|s| - 1]];
      ReverseConcat(t, [s[|s| - 1]]);
      assert Reverse([s[|s| - 1]]) == [s[|s| - 1]];
    }
  }
}
