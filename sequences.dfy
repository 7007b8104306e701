/** The two primitives every algorithm of stlalgs.h is built from: a delayed
    sequence (a length plus an index function, nothing stored) and a reduction
    of a sequence under a monoid. The parallel runtime behind `pbbs::reduce` is
    not modelled: a reduction is a sequential left fold seeded at the identity,
    and ReduceConcat and ReduceConcatOn show that any split of the range into
    two halves, reduced separately and combined, gives the same value when the
    monoid laws hold on all of the type or on a carrier that contains every
    element.
    `pack`, the external compaction routine, is modelled as an order-preserving
    filter. */
module Sequences {

  /** `delayed_seq(n, f)`: the sequence of length n whose element i is f(i). */
  function DelayedSeq<T>(n: nat, f: nat --> T): (s: seq<T>)
    requires forall i :: 0 <= i < n ==> f.requires(i)
    ensures |s| == n
    ensures forall i :: 0 <= i < n ==> s[i] == f(i)
  {
    seq(n, i requires 0 <= i < n && f.requires(i) => f(i))
  }

  /** Dropping the last element of a delayed sequence gives the delayed
      sequence one shorter: the step every fold over a delayed sequence takes. */
  lemma DelayedSeqPrefix<T>(n: nat, f: nat --> T)
    requires forall i :: 0 <= i < n + 1 ==> f.requires(i)
    ensures DelayedSeq(n + 1, f)[..n] == DelayedSeq(n, f)
  {
  }

  /** A combine function with its identity, as `pbbs::make_monoid` packages them. */
  datatype Monoid<!T> = Monoid(combine: (T, T) -> T, identity: T)

  /** The monoid laws: combine is associative and identity is neutral on both sides. */
  ghost predicate IsMonoid<T(!new)>(m: Monoid<T>)
  {
    && (forall a, b, c :: m.combine(m.combine(a, b), c) == m.combine(a, m.combine(b, c)))
    && (forall a :: m.combine(m.identity, a) == a && m.combine(a, m.identity) == a)
  }

  /** `pbbs::reduce(s, m)`, as the sequential left fold it must agree with:
      the identity for an empty sequence, else the reduction of all but the
      last element combined with the last element. */
  function Reduce<T>(s: seq<T>, m: Monoid<T>): T
  {
    if |s| == 0 then m.identity else m.combine(Reduce(s[..|s| - 1], m), s[|s| - 1])
  }

  /** Reducing a one-element sequence under a lawful monoid yields that element. */
  lemma ReduceSingleton<T(!new)>(x: T, m: Monoid<T>)
    requires IsMonoid(m)
    ensures Reduce([x], m) == x
  {
    assert [x][..0] == [];
  }

  /** Under the monoid laws, the reduction of a concatenation is the
      combination of the reductions of the two parts; so a reduction that
      splits the range anywhere and combines the halves in order (as a
      parallel reduce does) computes the same value as the left fold. Two
      monoids of stlalgs.h are lawful on all of their type (the sum `addm`
      and the first-nonzero sign); the other three are lawful only on part of
      it (indices up to the length, values up to a bound), and
      ReduceConcatOn below covers those. */
  lemma {:induction false} ReduceConcat<T(!new)>(a: seq<T>, b: seq<T>, m: Monoid<T>)
    requires IsMonoid(m)
    ensures Reduce(a + b, m) == m.combine(Reduce(a, m), Reduce(b, m))
  {
    if |b| == 0 {
      assert a + b == a;
    } else {
      var b' := b[..|b| - 1];
      assert (a + b)[..|a + b| - 1] == a + b';
      ReduceConcat(a, b', m);
    }
  }

  /** The monoid laws restricted to a carrier: the identity is in it, it is
      closed under combine, and associativity and neutrality hold on it. */
  ghost predicate IsMonoidOn<T(!new)>(m: Monoid<T>, inC: T -> bool)
  {
    && inC(m.identity)
    && (forall a, b :: inC(a) && inC(b) ==> inC(m.combine(a, b)))
    && (forall a, b, c :: inC(a) && inC(b) && inC(c) ==>
          m.combine(m.combine(a, b), c) == m.combine(a, m.combine(b, c)))
    && (forall a :: inC(a) ==> m.combine(m.identity, a) == a && m.combine(a, m.identity) == a)
  }

  /** A reduction of carrier elements stays in the carrier. */
  lemma {:induction false} ReduceInCarrier<T(!new)>(s: seq<T>, m: Monoid<T>, inC: T -> bool)
    requires IsMonoidOn(m, inC)
    requires forall i :: 0 <= i < |s| ==> inC(s[i])
    ensures inC(Reduce(s, m))
  {
    if |s| > 0 {
      ReduceInCarrier(s[..|s| - 1], m, inC);
    }
  }

  /** ReduceConcat for a monoid that is lawful only on a carrier, when every
      element of both parts lies in it. */
  lemma {:induction false} ReduceConcatOn<T(!new)>(a: seq<T>, b: seq<T>, m: Monoid<T>, inC: T -> bool)
    requires IsMonoidOn(m, inC)
    requires forall i :: 0 <= i < |a| ==> inC(a[i])
    requires forall i :: 0 <= i < |b| ==> inC(b[i])
    ensures Reduce(a + b, m) == m.combine(Reduce(a, m), Reduce(b, m))
  {
    ReduceInCarrier(a, m, inC);
    if |b| == 0 {
      assert a + b == a;
    } else {
      var b' := b[..|b| - 1];
      assert (a + b)[..|a + b| - 1] == a + b';
      ReduceConcatOn(a, b', m, inC);
      ReduceInCarrier(b', m, inC);
    }
  }

  /** `pack(s, keep)`: the elements of s whose flag in keep is set, in their
      original relative order. */
  function Pack<T>(s: seq<T>, keep: seq<bool>): (r: seq<T>)
    requires |keep| == |s|
    ensures |r| <= |s|
    ensures forall x :: x in r ==> x in s
  {
    if |s| == 0 then []
    else (if keep[0] then [s[0]] else []) + Pack(s[1..], keep[1..])
  }

  /** Pack read from the back: appending an element and its flag appends the
      element to the packed sequence exactly when the flag is set. Together
      with `Pack([], []) == []` this determines Pack completely, so the order
      of the kept elements is the order in s. */
  lemma {:induction false} PackAppend<T>(s: seq<T>, keep: seq<bool>, x: T, b: bool)
    requires |keep| == |s|
    ensures Pack(s + [x], keep + [b]) == Pack(s, keep) + (if b then [x] else [])
  {
    if |s| == 0 {
      assert s + [x] == [x] && keep + [b] == [b];
    } else {
      assert (s + [x])[1..] == s[1..] + [x];
      assert (keep + [b])[1..] == keep[1..] + [b];
      PackAppend(s[1..], keep[1..], x, b);
    }
  }

  /** The flagged positions of a mask. */
  ghost function Flagged(keep: seq<bool>): set<nat>
  {
    set i: nat | i < |keep| && keep[i]
  }

  /** The packed sequence has exactly one element per flagged position. */
  lemma {:induction false} PackLength<T>(s: seq<T>, keep: seq<bool>)
    requires |keep| == |s|
    ensures |Pack(s, keep)| == |Flagged(keep)|
  {
    if |s| > 0 {
      var n := |s| - 1;
      assert s == s[..n] + [s[n]];
      assert keep == keep[..n] + [keep[n]];
      PackAppend(s[..n], keep[..n], s[n], keep[n]);
      PackLength(s[..n], keep[..n]);
      if keep[n] {
        assert n !in Flagged(keep[..n]);
        assert Flagged(keep) == Flagged(keep[..n]) + {n};
      } else {
        assert Flagged(keep) == Flagged(keep[..n]);
      }
    }
  }

  /** A mask that keeps everything packs to the whole sequence. */
  lemma {:induction false} PackAllKept<T>(s: seq<T>, keep: seq<bool>)
    requires |keep| == |s|
    requires forall i :: 0 <= i < |keep| ==> keep[i]
    ensures Pack(s, keep) == s
  {
    if |s| > 0 {
      PackAllKept(s[1..], keep[1..]);
    }
  }

  /** Every flagged element of s appears in the packed sequence. */
  lemma {:induction false} PackKeepsFlagged<T>(s: seq<T>, keep: seq<bool>)
    requires |keep| == |s|
    ensures forall i :: 0 <= i < |s| && keep[i] ==> s[i] in Pack(s, keep)
  {
    if |s| > 0 {
      PackKeepsFlagged(s[1..], keep[1..]);
      forall i | 1 <= i < |s| && keep[i]
        ensures s[i] in Pack(s, keep)
      {
        assert s[1..][i - 1] == s[i] && keep[1..][i - 1];
      }
    }
  }
}
