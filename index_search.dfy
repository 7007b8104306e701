/** The two index-predicate primitives of stlalgs.h: `count_if_index`, a sum
    of 0/1 indicators under the additive monoid, and `find_if_index`, the
    granularity-doubling search for the smallest index satisfying a
    predicate. An index predicate is a total function on naturals; the search
    only ever applies it to indices below n. */
module IndexSearch {
  import opened Sequences

  /** The granularity `find_if_index` uses when the caller gives none. */
  const DefaultGranularity: nat := 1000

  function Min(a: nat, b: nat): nat
  {
    if a <= b then a else b
  }

  /** The granularity after k doublings: g * 2^k. */
  function Doubled(g: nat, k: nat): (r: nat)
    ensures g > 0 ==> r >= g
    ensures g == 0 ==> r == 0
  {
    if k == 0 then g else 2 * Doubled(g, k - 1)
  }

  // ----- count_if_index -----

  /** `pbbs::addm`: addition with identity 0. */
  function AddMonoid(): Monoid<nat>
  {
    var add: (nat, nat) -> nat := (a, b) => a + b;
    Monoid(add, 0)
  }

  /** The element `count_if_index` puts at index i of its delayed sequence. */
  function Indicator(p: nat -> bool): nat -> nat
  {
    i => if p(i) then 1 else 0
  }

  /** `count_if_index(n, p)`, with the count returned as a count: the
      indicators of p over [0, n) summed under the additive monoid. */
  function CountIfIndex(n: nat, p: nat -> bool): nat
  {
    Reduce(DelayedSeq(n, Indicator(p)), AddMonoid())
  }

  /** `pbbs::addm` is a monoid on all of nat: addition is associative and 0
      is neutral on both sides. */
  lemma AddMonoidIsMonoid()
    ensures IsMonoid(AddMonoid())
  {
  }

  /** Splitting [0, n) at any m and adding the counts of the two halves gives
      the count of the whole range, so the order in which a parallel reduce
      splits the indicators does not change the count. */
  lemma CountIfIndexSplit(m: nat, n: nat, p: nat -> bool)
    requires m <= n
    ensures CountIfIndex(n, p) == CountIfIndex(m, p) + CountIfIndex(n - m, (i: nat) => p(m + i))
  {
    var q := (i: nat) => p(m + i);
    var a := DelayedSeq(m, Indicator(p));
    var b := DelayedSeq(n - m, Indicator(q));
    assert DelayedSeq(n, Indicator(p)) == a + b;
    AddMonoidIsMonoid();
    ReduceConcat(a, b, AddMonoid());
  }

  /** The indices below n that satisfy p: what the count counts. */
  ghost function MatchSet(n: nat, p: nat -> bool): set<nat>
  {
    set i: nat | i < n && p(i)
  }

  /** One more index adds its indicator to the count. */
  lemma CountIfIndexStep(n: nat, p: nat -> bool)
    ensures CountIfIndex(n + 1, p) == CountIfIndex(n, p) + (if p(n) then 1 else 0)
  {
    DelayedSeqPrefix(n, Indicator(p));
  }

  /** The reduction counts exactly the indices below n that satisfy p; in
      particular it is 0 for n == 0. */
  lemma {:induction false} CountIfIndexIsCardinality(n: nat, p: nat -> bool)
    ensures CountIfIndex(n, p) == |MatchSet(n, p)|
  {
    if n == 0 {
      assert MatchSet(n, p) == {};
    } else {
      CountIfIndexIsCardinality(n - 1, p);
      CountIfIndexStep(n - 1, p);
      if p(n - 1) {
        assert n - 1 !in MatchSet(n - 1, p);
        assert MatchSet(n, p) == MatchSet(n - 1, p) + {n - 1};
      } else {
        assert MatchSet(n, p) == MatchSet(n - 1, p);
      }
    }
  }

  /** The count is at most n; it is n exactly when every index satisfies p,
      and 0 exactly when none does. */
  lemma {:induction false} CountIfIndexBounds(n: nat, p: nat -> bool)
    ensures CountIfIndex(n, p) <= n
    ensures CountIfIndex(n, p) == n <==> forall i :: 0 <= i < n ==> p(i)
    ensures CountIfIndex(n, p) == 0 <==> forall i :: 0 <= i < n ==> !p(i)
  {
    if n > 0 {
      CountIfIndexBounds(n - 1, p);
      CountIfIndexStep(n - 1, p);
    }
  }

  // ----- the sequential reference for find_if_index -----

  /** The smallest i in [lo, hi) with p(i), or hi when there is none: the
      plain left-to-right scan every search must agree with. */
  function FirstMatchIn(lo: nat, hi: nat, p: nat -> bool): (r: nat)
    requires lo <= hi
    ensures lo <= r <= hi
    ensures r < hi ==> p(r)
    ensures forall j :: lo <= j < r ==> !p(j)
    decreases hi - lo
  {
    if lo == hi then hi
    else if p(lo) then lo
    else FirstMatchIn(lo + 1, hi, p)
  }

  /** The three properties of FirstMatchIn determine it. */
  lemma FirstMatchInUnique(lo: nat, hi: nat, p: nat -> bool, r: nat)
    requires lo <= r <= hi
    requires r < hi ==> p(r)
    requires forall j :: lo <= j < r ==> !p(j)
    ensures r == FirstMatchIn(lo, hi, p)
  {
  }

  // ----- one window of find_if_index -----

  /** `minm`, for one window: the minimum, with the not-found sentinel n as identity. */
  function MinMonoid(n: nat): Monoid<nat>
  {
    var min: (nat, nat) -> nat := (a, b) => if a <= b then a else b;
    Monoid(min, n)
  }

  /** `minm` is a monoid on the values up to its identity n, which are the
      only values a window's delayed sequence holds. */
  lemma MinMonoidIsMonoidOn(n: nat)
    ensures IsMonoidOn(MinMonoid(n), (x: nat) => x <= n)
  {
  }

  /** The element a window's delayed sequence holds at local index j, with
      the mapping of stlalgs.h:55-56 the right way round: the global index
      start + j when it satisfies p, else the sentinel n. */
  function WindowCandidate(start: nat, n: nat, p: nat -> bool): nat -> nat
  {
    j => if p(start + j) then start + j else n
  }

  /** The min-reduction of the window [start, end). */
  function WindowMin(start: nat, end: nat, n: nat, p: nat -> bool): nat
    requires start <= end
  {
    Reduce(DelayedSeq(end - start, WindowCandidate(start, n, p)), MinMonoid(n))
  }

  /** Extending a window by its next index combines that index's element
      into the reduction. */
  lemma WindowMinStep(start: nat, end: nat, n: nat, p: nat -> bool)
    requires start < end
    ensures WindowMin(start, end, n, p) ==
            Min(WindowMin(start, end - 1, n, p), if p(end - 1) then end - 1 else n)
  {
    var w := WindowCandidate(start, n, p);
    var ds := DelayedSeq(end - start, w);
    DelayedSeqPrefix(end - 1 - start, w);
    assert ds[..|ds| - 1] == DelayedSeq(end - 1 - start, w);
  }

  /** Splitting a window anywhere and combining the min-reductions of the
      two halves gives the min-reduction of the whole window, so the order
      in which a parallel reduce splits the window does not matter. */
  lemma WindowMinSplit(start: nat, mid: nat, end: nat, n: nat, p: nat -> bool)
    requires start <= mid <= end <= n
    ensures WindowMin(start, end, n, p) == Min(WindowMin(start, mid, n, p), WindowMin(mid, end, n, p))
  {
    var a := DelayedSeq(mid - start, WindowCandidate(start, n, p));
    var b := DelayedSeq(end - mid, WindowCandidate(mid, n, p));
    var ab := DelayedSeq(end - start, WindowCandidate(start, n, p));
    assert ab == a + b by {
      forall j | mid - start <= j < end - start
        ensures ab[j] == b[j - (mid - start)]
      {
        assert mid + (j - (mid - start)) == start + j;
      }
    }
    MinMonoidIsMonoidOn(n);
    ReduceConcatOn(a, b, MinMonoid(n), (x: nat) => x <= n);
  }

  /** A window's min-reduction is the smallest matching global index in
      [start, end), or n when no index of the window matches. */
  lemma {:induction false} WindowMinIsFirstMatch(start: nat, end: nat, n: nat, p: nat -> bool)
    requires start <= end <= n
    ensures var f := FirstMatchIn(start, end, p);
            WindowMin(start, end, n, p) == if f < end then f else n
  {
    if start < end {
      WindowMinIsFirstMatch(start, end - 1, n, p);
      WindowMinStep(start, end, n, p);
      var f := FirstMatchIn(start, end - 1, p);
      if f < end - 1 {
        FirstMatchInUnique(start, end, p, f);
      } else if p(end - 1) {
        FirstMatchInUnique(start, end, p, end - 1);
      } else {
        FirstMatchInUnique(start, end, p, end);
      }
    }
  }

  /** A window whose reduction is below n holds the first match overall,
      given that nothing before the window matches. */
  lemma WindowFound(start: nat, end: nat, n: nat, p: nat -> bool)
    requires start <= end <= n
    requires forall j :: 0 <= j < start ==> !p(j)
    requires WindowMin(start, end, n, p) < n
    ensures start <= WindowMin(start, end, n, p) < end
    ensures WindowMin(start, end, n, p) == FirstMatchIn(0, n, p)
  {
    WindowMinIsFirstMatch(start, end, n, p);
    FirstMatchInUnique(0, n, p, WindowMin(start, end, n, p));
  }

  /** A window whose reduction is n extends the match-free prefix to its end. */
  lemma WindowEmpty(start: nat, end: nat, n: nat, p: nat -> bool)
    requires start <= end <= n
    requires forall j :: 0 <= j < start ==> !p(j)
    requires WindowMin(start, end, n, p) == n
    ensures forall j :: 0 <= j < end ==> !p(j)
  {
    WindowMinIsFirstMatch(start, end, n, p);
  }

  // ----- find_if_index -----

  /** A window [lo, hi) of indices examined by one step of the search. */
  datatype Window = Window(lo: nat, hi: nat)

  /** The order in which `find_if_index` examines indices: first the
      sequential prefix [0, min(g, n)), then windows each starting where the
      previous one ended, window k (k >= 1) being Doubled(g, k - 1) = g * 2^(k-1) wide and cut off
      at n. The windows are contiguous, so together they cover [0, hi) of the
      last one, in increasing order and without gaps. */
  ghost predicate Schedule(ws: seq<Window>, n: nat, g: nat)
  {
    && |ws| > 0
    && ws[0] == Window(0, Min(g, n))
    && forall k :: 1 <= k < |ws| ==>
         && ws[k].lo == ws[k - 1].hi
         && ws[k].lo < ws[k].hi == Min(n, ws[k].lo + Doubled(g, k - 1))
  }

  /** Appending the next window, starting where the last one ended and
      g * 2^(k-1) wide, keeps a schedule a schedule. */
  lemma ScheduleExtend(ws: seq<Window>, n: nat, g: nat, start: nat, grain: nat)
    requires Schedule(ws, n, g)
    requires ws[|ws| - 1].hi == start < n
    requires grain == Doubled(g, |ws| - 1) > 0
    ensures Schedule(ws + [Window(start, Min(n, start + grain))], n, g)
    ensures 2 * grain == Doubled(g, |ws|)
  {
    var ws' := ws + [Window(start, Min(n, start + grain))];
    forall k | 1 <= k < |ws'|
      ensures ws'[k].lo == ws'[k - 1].hi
      ensures ws'[k].lo < ws'[k].hi == Min(n, ws'[k].lo + Doubled(g, k - 1))
    {
      if k < |ws| {
        assert ws'[k] == ws[k] && ws'[k - 1] == ws[k - 1];
      }
    }
  }

  /** The state of the window loop of `find_if_index` before each round: the
      windows so far form a schedule ending at start (or n), start equals the
      current granularity g * 2^(k-1), and no index before start matches. */
  ghost predicate WindowLoop(ws: seq<Window>, n: nat, g: nat, start: nat, grain: nat, p: nat -> bool)
  {
    && Schedule(ws, n, g)
    && 0 < grain && start == grain == Doubled(g, |ws| - 1)
    && ws[|ws| - 1].hi == Min(start, n)
    && forall j :: 0 <= j < start && j < n ==> !p(j)
  }

  /** A round whose window holds a match ends the search: the window's
      reduction is the first match overall and lies in the window. */
  lemma WindowLoopFound(ws: seq<Window>, n: nat, g: nat, start: nat, grain: nat, p: nat -> bool)
    requires WindowLoop(ws, n, g, start, grain, p) && start < n
    requires WindowMin(start, Min(n, start + grain), n, p) < n
    ensures var i := WindowMin(start, Min(n, start + grain), n, p);
            && i == FirstMatchIn(0, n, p)
            && Schedule(ws + [Window(start, Min(n, start + grain))], n, g)
            && start <= i < Min(n, start + grain)
  {
    ScheduleExtend(ws, n, g, start, grain);
    WindowFound(start, Min(n, start + grain), n, p);
  }

  /** When start reaches n, no index below n matches and the last window
      ends at n. */
  lemma WindowLoopDone(ws: seq<Window>, n: nat, g: nat, start: nat, grain: nat, p: nat -> bool)
    requires WindowLoop(ws, n, g, start, grain, p) && start >= n
    ensures n == FirstMatchIn(0, n, p)
    ensures Schedule(ws, n, g) && ws[|ws| - 1].hi == n
  {
    FirstMatchInUnique(0, n, p, n);
  }

  /** A round whose window holds no match moves start by the granularity,
      doubles the granularity, and keeps the loop state. */
  lemma WindowLoopAdvance(ws: seq<Window>, n: nat, g: nat, start: nat, grain: nat, p: nat -> bool)
    requires WindowLoop(ws, n, g, start, grain, p) && start < n
    requires WindowMin(start, Min(n, start + grain), n, p) == n
    ensures WindowLoop(ws + [Window(start, Min(n, start + grain))], n, g, start + grain, 2 * grain, p)
  {
    ScheduleExtend(ws, n, g, start, grain);
    WindowEmpty(start, Min(n, start + grain), n, p);
  }

  /** `find_if_index(n, p, granularity)` with the defects of lines 51 and 56
      corrected: scan the first `granularity` indices one by one, then reduce
      successive windows with the min monoid, each window starting where the
      last ended and twice as wide. The result is the smallest index below n
      satisfying p, or n when there is none; `windows` records the windows
      examined, and the result lies in the last of them. */
  method FindIfIndex(n: nat, p: nat -> bool, granularity: nat) returns (r: nat, ghost windows: seq<Window>)
    requires granularity > 0
    ensures r == FirstMatchIn(0, n, p)
    ensures r <= n && (r < n ==> p(r)) && forall j :: 0 <= j < r ==> !p(j)
    ensures Schedule(windows, n, granularity)
    ensures r < n ==> windows[|windows| - 1].lo <= r < windows[|windows| - 1].hi
    ensures r == n ==> windows[|windows| - 1].hi == n
  {
    windows := [Window(0, Min(granularity, n))];
    var i := 0;
    while i < Min(granularity, n)
      invariant i <= Min(granularity, n)
      invariant forall j :: 0 <= j < i ==> !p(j)
    {
      if p(i) {
        FirstMatchInUnique(0, n, p, i);
        return i, windows;
      }
      i := i + 1;
    }
    var start := granularity;
    var grain := granularity;
    while start < n
      invariant WindowLoop(windows, n, granularity, start, grain, p)
      decreases n - start
    {
      var end := Min(n, start + grain);
      i := WindowMin(start, end, n, p);
      if i < n {
        WindowLoopFound(windows, n, granularity, start, grain, p);
        return i, windows + [Window(start, end)];
      }
      WindowLoopAdvance(windows, n, granularity, start, grain, p);
      windows := windows + [Window(start, end)];
      start := start + grain;
      grain := 2 * grain;
    }
    WindowLoopDone(windows, n, granularity, start, grain, p);
    return n, windows;
  }
}
