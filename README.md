# Parallel sequence algorithms of `stlalgs.h`, modelled in Dafny

`stlalgs.h` sketches parallel versions of the standard sequence algorithms
of ISO/IEC 14882 (clauses [alg.nonmodifying], [alg.lex.comparison],
[alg.min.max], [alg.unique] and [alg.reverse]). Each one is built from two
pieces. A *delayed sequence* is a length plus an index function. `reduce`
folds such a sequence with a *monoid*, a combine function with its identity.
This project models those pieces and every algorithm built from them:

- `sequences.dfy` (module `Sequences`): `DelayedSeq`, `Monoid`, `Reduce`
  (a left fold seeded with the identity) and `Pack` (an order-preserving
  filter by a keep mask). A reduction may be split anywhere and the halves
  combined in order. `ReduceConcat` proves this for a monoid lawful on all
  of its type, which covers two of the header's monoids: the sum `addm` and
  the first-nonzero sign of `lexicographical_compare`. `ReduceConcatOn`
  proves it for a monoid lawful only on a carrier that contains every
  element, which covers the other three: the window min, the min-index
  combine and the minmax pair combine.
- `index_search.dfy` (module `IndexSearch`): the two index-predicate
  primitives.
  - `count_if_index` is a sum of 0/1 indicators under the additive monoid.
  - `find_if_index` is an imperative method. It first scans a sequential
    prefix. It then min-reduces windows that start where the last one ended
    and double in width. It is proved against the reference left-to-right
    scan `FirstMatchIn`. A ghost trace of the windows it examined is proved
    to be contiguous and gap-free.
- `counting.dfy` (module `Counting`): `count_if`, `count`, `all_of`,
  `any_of`, `none_of` and both forms of `equal`.
- `searching.dfy` (module `Searching`): `find_if`, `find`, `adjacent_find`,
  `mismatch` and `search`. These are methods because `find_if_index` is
  one. `Search` decides each start position with the function `MatchesAt`.
  The inner `for` loop of `search`'s predicate is the method `ScanMatchAt`,
  which is proved to return exactly `MatchesAt`.
- `ordering.dfy` (module `Ordering`):
  - `lexicographical_compare`, with its "first nonzero wins" monoid;
  - `min_element`, `max_element` and `minmax_element`, which reduce over
    indices and break ties to the left.
- `rearranging.dfy` (module `Rearranging`): `unique` (a keep mask handed
  to `pack`) and `reverse` (index i maps to n-1-i).
- `as_written.dfy` (module `AsWritten`): the code of each defective line
  read literally. Each is paired with a lemma giving an input on which it
  departs from the corrected definition (see "## Findings").

The sketch contains several lines that would not compile. The model reads
each of them as its evident intent:

- Line 47: `IntegerPred` is the predicate type and `granularity` is a
  `size_t` defaulting to 1000 (`IndexSearch.DefaultGranularity`).
- Line 85: `S.size` is `S.size()`.
- Lines 98-99: `S` is `S1`, `S.size()` is read as the common length
  min(\|S1\|, \|S2\|), and `!==` is "not related by pred".
- Line 103: `S` is `S1`.
- Line 123: the conditional is `less(s2[i], s1[i]) ? 1 : 0`.
- Line 149: `f(b, a)` is `comp(b, a)`.
- Line 156: the missing semicolon.
- Line 158: the missing `return`.
- Lines 154-161: `comp` is a parameter of `minmax_element`.

Line 143 does compile for an arithmetic element type, and then it does the
wrong thing: it reduces the values of `S` rather than the index sequence
`SS`. That is a defect, listed under "## Findings".

Several definitions only compute (`Reduce`, `CountIfIndex`, `WindowMin`,
`LexicographicalCompare`, `MinElement`, `MaxElement`, `MinMaxCombine`,
`MinMaxElement`, and in `AsWritten` `WindowLoopAsWritten`,
`WindowMinAsWritten`, `AdjacentPairAsWritten`, `MinIndexCombineAsWritten`
and `MinMaxCombineAsWritten`). Each is covered
by the row of the lemma whose contract states what it computes; the third
column names the definition.

## Model

| member | source | states |
|---|---|---|
| `Sequences.DelayedSeq` | stlalgs.h:41-42 | a delayed sequence of length n has f(i) at each index i below n |
| `Sequences.DelayedSeqPrefix` | stlalgs.h:41-42 | dropping the last element of a delayed sequence of length n+1 gives the one of length n |
| `Sequences.ReduceSingleton` | stlalgs.h:43 | `Reduce` of a one-element sequence under a lawful monoid is that element |
| `Sequences.ReduceConcat` | stlalgs.h:43 | `Reduce`: for a monoid lawful on all of its type, reducing a concatenation combines the reductions of the parts |
| `IndexSearch.AddMonoidIsMonoid` | stlalgs.h:43 | `pbbs::addm` (addition with identity 0) is a monoid on all of nat |
| `IndexSearch.CountIfIndexSplit` | stlalgs.h:39-44 | splitting [0, n) at any m, the count of the whole range is the count of [0, m) plus the count of [m, n), so a parallel reduce may split the indicators anywhere |
| `Sequences.ReduceInCarrier` | stlalgs.h:43 | for a monoid lawful on a carrier, the reduction of carrier elements lies in the carrier |
| `Sequences.ReduceConcatOn` | stlalgs.h:43 | for a monoid lawful on a carrier holding every element, reducing a concatenation combines the reductions of the parts, so every split a parallel reduce may choose gives the left fold's result |
| `Sequences.Pack` | stlalgs.h:133 | packing keeps at most \|s\| elements, all taken from s |
| `Sequences.PackAppend` | stlalgs.h:133 | appending x with flag b appends x to the packed sequence exactly when b is set; with the empty case this fixes the result and its order completely |
| `Sequences.PackLength` | stlalgs.h:133 | the packed sequence has exactly one element per flagged position |
| `Sequences.PackAllKept` | stlalgs.h:133 | an all-true mask packs s to itself |
| `Sequences.PackKeepsFlagged` | stlalgs.h:133 | every element whose mask bit is set appears in the result |
| `IndexSearch.CountIfIndexStep` | stlalgs.h:39-44 | `CountIfIndex`: one more index adds its 0/1 indicator to the count |
| `IndexSearch.CountIfIndexIsCardinality` | stlalgs.h:39-44 | `CountIfIndex(n, p)` is the number of indices below n that satisfy p (0 when n is 0) |
| `IndexSearch.CountIfIndexBounds` | stlalgs.h:39-44 | `CountIfIndex(n, p)` is at most n; it equals n iff every index satisfies p, and 0 iff none does |
| `IndexSearch.Doubled` | stlalgs.h:60-61 | the granularity after k doublings is never below a positive initial granularity, and stays 0 when it starts at 0 |
| `IndexSearch.FirstMatchIn` | stlalgs.h:47-64 | the reference scan returns a value in [lo, hi] that satisfies p when below hi, with no index before it satisfying p |
| `IndexSearch.FirstMatchInUnique` | stlalgs.h:47-64 | those three properties determine the first match |
| `IndexSearch.MinMonoidIsMonoidOn` | stlalgs.h:57-58 | `minm` with identity n is a monoid on the values up to n |
| `IndexSearch.WindowMinStep` | stlalgs.h:54-58 | `WindowMin`: widening a window by one index takes the minimum of the old reduction and that index's element |
| `IndexSearch.WindowMinSplit` | stlalgs.h:54-58 | `WindowMin` of a window split anywhere is the minimum of the two halves' reductions |
| `IndexSearch.WindowMinIsFirstMatch` | stlalgs.h:54-58 | `WindowMin`, with the mapping p(start+j) ? start+j : n, is the smallest matching global index in [start, end), or n when none matches |
| `IndexSearch.WindowFound` | stlalgs.h:54-59 | a window reduction below n, with no match before the window, lies in the window and is the first match overall |
| `IndexSearch.WindowEmpty` | stlalgs.h:54-59 | a window reduction equal to n extends the match-free prefix to the window's end |
| `IndexSearch.ScheduleExtend` | stlalgs.h:52-61 | appending the window that starts where the last ended and is g * 2^(k-1) wide keeps the windows contiguous, and the doubled grain is g * 2^k |
| `IndexSearch.WindowLoopFound` | stlalgs.h:52-59 | a round whose window holds a match returns the first match overall, which lies in that window |
| `IndexSearch.WindowLoopDone` | stlalgs.h:52-62 | when start reaches n, no index below n matches and the last window ends at n |
| `IndexSearch.WindowLoopAdvance` | stlalgs.h:52-61 | a round without a match moves start by the granularity, doubles it, and keeps the loop state |
| `IndexSearch.FindIfIndex` | stlalgs.h:47-64 | for granularity > 0, returns the smallest i below n with p(i), or n when there is none; the windows examined start at 0, are contiguous, double in width, and end at the result's window (or at n) |
| `Counting.CountIf` | stlalgs.h:66-68 | count_if is the number of positions whose element satisfies pred |
| `Counting.Count` | stlalgs.h:70-72 | count(S, v) is the number of positions holding v |
| `Counting.CountIsMultiplicity` | stlalgs.h:70-72 | count(S, v) is the multiplicity of v in the multiset of S's elements |
| `Counting.CountPrefixIsMultiplicity` | stlalgs.h:70-72 | over every prefix, the count of v is v's multiplicity in that prefix |
| `Counting.AllOf` | stlalgs.h:74-75 | all_of holds iff every element satisfies pred |
| `Counting.AnyOf` | stlalgs.h:77-78 | any_of holds iff some element satisfies pred (count > 0) |
| `Counting.NoneOf` | stlalgs.h:80-81 | none_of holds iff no element satisfies pred |
| `Counting.QuantifiersAgree` | stlalgs.h:74-81 | any_of is the negation of none_of, and on a non-empty sequence all_of implies any_of |
| `Counting.EqualBy` | stlalgs.h:110-113 | equal(s1, s2, p) holds iff p relates s1[i] and s2[i] at every position of s1 |
| `Counting.Equal` | stlalgs.h:115-118 | equal(s1, s2) holds iff s1 is a prefix of s2, that is, iff s1 == s2 for sequences of the same length |
| `Searching.FindIf` | stlalgs.h:83-85 | the first position whose element satisfies pred, or \|s\| when there is none |
| `Searching.Find` | stlalgs.h:87-89 | the first position holding value; \|s\| exactly when value does not occur |
| `Searching.AdjacentRange` | stlalgs.h:93 | the range of adjacent_find is \|s\|-1, or 0 for an empty sequence |
| `Searching.AdjacentFind` | stlalgs.h:91-94 | the first i with pred(s[i], s[i+1]), or the range length when there is none |
| `Searching.Mismatch` | stlalgs.h:96-99 | the first position where the sequences are not related by pred, or their common length |
| `Searching.SearchRange` | stlalgs.h:103 | the range of search is \|s1\|-\|s2\|+1 start positions, or 0 when s2 is longer |
| `Searching.ScanMatchAt` | stlalgs.h:104-107 | the inner loop reports true iff every element of s2 is related to the element of s1 at the same offset from i |
| `Searching.Search` | stlalgs.h:101-108 | the first start position at which s2 occurs in s1 with every read inside s1; when none exists, the range length and no position matches |
| `Ordering.FirstNonzeroIsMonoid` | stlalgs.h:124-125 | the combine (a == 0) ? b : a is associative with identity 0 |
| `Ordering.FirstNonzeroNotCommutative` | stlalgs.h:124 | the combine is not commutative: order matters |
| `Ordering.ReducedSignIsFirstDecidingSign` | stlalgs.h:122-125 | the reduced sign is the sign at the first position where one element is less than the other, or 0 when there is none |
| `Ordering.LexicographicalCompareIsFirstDifference` | stlalgs.h:120-126 | `LexicographicalCompare` holds iff at the first position where the elements are comparable, s1's element is the lesser |
| `Ordering.LexicographicalCompareInts` | stlalgs.h:120-126 | on integers: true iff at the first differing position s1's element is smaller; false for equal sequences |
| `Ordering.LexicographicalCompareExamples` | stlalgs.h:120-126 | [1,2,3] < [1,2,4]; neither [1,2,3] < [1,2,3] nor [1,2,4] < [1,2,3] |
| `Ordering.FlipStrictWeakOrder` | stlalgs.h:146-150 | the swapped comparison max_element passes is again a strict weak order |
| `Ordering.MinIndexCombine` | stlalgs.h:141-142 | the index combine returns one of its two arguments; for two positions it returns the right one iff comp puts S[r] before S[l], so ties keep the left; when one side is the identity \|S\| it returns the other side |
| `Ordering.MinIndexCombineLaws` | stlalgs.h:141-143 | on the indices 0..\|S\|, the index combine has identity \|S\| and is associative under a strict weak order |
| `Ordering.MinIndexMonoidIsMonoidOn` | stlalgs.h:141-143 | the index monoid of min_element is a monoid on the carrier of indices up to \|S\| |
| `Ordering.FirstMinimumUnique` | stlalgs.h:137-144 | a sequence has at most one first minimal position |
| `Ordering.MinElementPrefixStep` | stlalgs.h:141-143 | combining the first minimal position of s[..m-1] with index m-1 gives the first minimal position of s[..m] |
| `Ordering.MinElementPrefix` | stlalgs.h:137-144 | `MinElement`'s reduction over the first m indices yields the first minimal position of that prefix |
| `Ordering.MinElementIsFirstMinimum` | stlalgs.h:137-144 | `MinElement` returns the first position that no element is less than (0 for an empty sequence) |
| `Ordering.MinElementExample` | stlalgs.h:137-144 | min_element([3,1,4,1,5]) is 1, the first of the two minima |
| `Ordering.MinElementSplit` | stlalgs.h:143 | splitting the index range anywhere and combining the halves' reductions gives `MinElement` |
| `Ordering.MaxElementIsFirstMaximum` | stlalgs.h:146-150 | `MaxElement` returns the first position that no element is greater than |
| `Ordering.MinMaxCombineIsPair` | stlalgs.h:159-161 | `MinMaxCombine` is the min-index combine under comp on the first component and under the flipped comp on the second |
| `Ordering.MinMaxMonoidIsMonoidOn` | stlalgs.h:159-162 | the pair combine with identity (\|S\|, \|S\|) is a monoid on pairs of indices up to \|S\| |
| `Ordering.MinMaxPrefix` | stlalgs.h:152-163 | over every prefix, the pair reduction tracks the min and max index reductions independently |
| `Ordering.MinMaxElementIsMinAndMax` | stlalgs.h:152-163 | `MinMaxElement` is exactly (min_element, max_element) |
| `Rearranging.KeepMask` | stlalgs.h:131-132 | the mask has length \|s\|, is true at 0, and true at i > 0 iff s[i] is not eq to s[i-1] |
| `Rearranging.Unique` | stlalgs.h:128-134 | unique keeps at most \|s\| elements, all taken from s, and starts with s[0] when s is non-empty |
| `Rearranging.UniqueCons` | stlalgs.h:128-134 | unique on x followed by t keeps x, and keeps t's head iff it is not eq to x |
| `Rearranging.UniqueConsStep` | stlalgs.h:128-134 | the same step with unique(t) already known |
| `Rearranging.UniqueSingleton` | stlalgs.h:128-134 | a one-element sequence is its own unique |
| `Rearranging.UniqueHasNoAdjacentEquivalents` | stlalgs.h:128-134 | the result is empty iff s is, starts with s[0], and for an equivalence has no two eq-related neighbours |
| `Rearranging.UniqueOfDistinctNeighbours` | stlalgs.h:128-134 | a sequence without eq-related neighbours is unchanged by unique |
| `Rearranging.UniqueIdempotent` | stlalgs.h:128-134 | for an equivalence, unique is idempotent |
| `Rearranging.UniqueKeepsValueAt` | stlalgs.h:128-134 | under equality, the value at every position survives unique |
| `Rearranging.UniqueKeepsValues` | stlalgs.h:128-134 | under equality, unique holds exactly the values of s |
| `Rearranging.UniqueExampleTail` | stlalgs.h:128-134 | unique([2,2,3,1]) is [2,3,1] |
| `Rearranging.UniqueExampleMiddle` | stlalgs.h:128-134 | unique([2,2,2,3,1]) is [2,3,1] |
| `Rearranging.UniqueExample` | stlalgs.h:128-134 | unique([1,1,2,2,2,3,1]) is [1,2,3,1] |
| `Rearranging.Reverse` | stlalgs.h:165-169 | the result has length n and holds S[n-1-i] at index i |
| `Rearranging.ReverseInvolution` | stlalgs.h:165-169 | reversing twice gives back S |
| `Rearranging.ReverseConcat` | stlalgs.h:165-169 | reversing a concatenation reverses the order of the parts |
| `Rearranging.ReversePermutes` | stlalgs.h:165-169 | reverse is a permutation: the multiset of elements is unchanged |
| `AsWritten.CountIfIndexAsWritten` | stlalgs.h:39-44 | with the bool return type, count_if_index is true iff some index satisfies p |
| `AsWritten.CountIfAsWritten` | stlalgs.h:66-68 | with the bool return type, count_if computes any_of |
| `AsWritten.AllOfAsWritten` | stlalgs.h:74-75 | comparing that bool with size() passes only sequences of length 0, or of length 1 whose element satisfies pred |
| `AsWritten.AllOfAsWrittenCounterexample` | stlalgs.h:74-75 | on [0,0] with an always-true pred, the as-written all_of is false and the corrected one true |
| `AsWritten.FindIfIndexAsWritten` | stlalgs.h:47-51 | with the untested return of line 51, the result is the first match in [0, min(g, n)), or that prefix's end |
| `AsWritten.FindIfIndexAsWrittenAgreesIff` | stlalgs.h:47-51 | the as-written result is correct iff n <= g or the first match lies at or below g |
| `AsWritten.FindIfIndexAsWrittenCounterexample` | stlalgs.h:47-51 | n = 3, g = 1, only index 2 matching: as written 1, intended 2 |
| `AsWritten.WindowLoopIsDoubled` | stlalgs.h:52-61 | after k rounds without a match, the loop's start and granularity (`WindowLoopAsWritten`) are both g * 2^k |
| `AsWritten.ZeroGranularityNeverAdvances` | stlalgs.h:47-61 | with granularity 0, start is still 0 after every round, so for n > 0 the loop condition start < n never fails |
| `AsWritten.WindowMinAsWrittenFindsFirstNonMatch` | stlalgs.h:54-58 | `WindowMinAsWritten`, with the inverted mapping of line 56, finds the first index that does not satisfy p |
| `AsWritten.WindowMinAsWrittenCounterexample` | stlalgs.h:54-58 | window [0,2), n = 2, only index 0 matching: as written 1, intended 0 |
| `AsWritten.AnyOfOverBoolCountAsWritten` | stlalgs.h:78 | over the bool-returning count_if, the bool as 0 or 1 is never greater than 1, so any_of as declared is false on every input |
| `AsWritten.CountIfIndexAboveOneFromPair` | stlalgs.h:77-78 | two different matching indices make the count exceed 1 |
| `AsWritten.CountIfIndexAboveOneHasPair` | stlalgs.h:77-78 | a count above 1 has two different matching indices behind it |
| `AsWritten.CountIfIndexAboveOne` | stlalgs.h:77-78 | the count exceeds 1 iff two different indices satisfy p |
| `AsWritten.AnyOfAsWritten` | stlalgs.h:77-78 | count > 1 holds iff at least two positions satisfy pred |
| `AsWritten.AnyOfAsWrittenCounterexample` | stlalgs.h:77-78 | on [5] with x == 5, the as-written any_of is false and the corrected one true |
| `AsWritten.AdjacentRangeAsWritten` | stlalgs.h:93 | S.size()-1 in size_t wraps to 2^64-1 for an empty sequence and agrees with AdjacentRange otherwise |
| `AsWritten.AdjacentPairAsWrittenIsEquality` | stlalgs.h:93-94 | `AdjacentPairAsWritten`, the predicate of line 94, is adjacency under ==, whatever pred the caller gives |
| `AsWritten.AdjacentFindAsWrittenCounterexample` | stlalgs.h:93-94 | on an empty sequence index 0 is tested and reads outside S; on [1,3] with same-parity pred, the pair at 0 is reported unrelated |
| `AsWritten.ScanAsWritten` | stlalgs.h:104-107 | the as-written scan fails with an out-of-bounds read only when s2 does not fit in s1 from i; true means every remaining element matched inside s1; false names a mismatching position inside s1 |
| `AsWritten.ScanAsWrittenInRange` | stlalgs.h:104-107 | where s2 fits inside s1 from i, the as-written scan reads nothing out of bounds and decides the match under == |
| `AsWritten.SearchAsWrittenCounterexample` | stlalgs.h:101-108 | s1 = [1,2], s2 = [2,3]: start 0 fails, start 1 lies in the as-written range and reads s1[2] |
| `AsWritten.EqualByAsWritten` | stlalgs.h:110-113 | with the count returned as bool, equal holds iff SOME position is related |
| `AsWritten.EqualAsWrittenCounterexample` | stlalgs.h:115-118 | [1,2] and [1,3] are equal as written, though they differ |
| `AsWritten.KeepMaskAsWritten` | stlalgs.h:131-132 | the as-written mask has length \|s\|, is true at 0 and true at i > 0 iff s[i] != s[i-1]: it is the corrected mask under equality, whatever eq is |
| `AsWritten.UniqueAsWritten` | stlalgs.h:128-134 | as written, unique keeps at most \|s\| elements, all taken from s |
| `AsWritten.UniqueAsWrittenIgnoresEq` | stlalgs.h:128-134 | as written, unique(s, eq) is unique under == for every eq |
| `AsWritten.UniqueAsWrittenCounterexample` | stlalgs.h:128-134 | on [1,3] with same-parity eq, as written [1,3], intended [1] |
| `AsWritten.MinIndexCombineAsWrittenInside` | stlalgs.h:141-142 | `MinIndexCombineAsWritten` on two indices inside S is the corrected combine |
| `AsWritten.MinIndexCombineAsWrittenCounterexample` | stlalgs.h:141-143 | combining the identity 1 of [7] with index 0 reads S[1] as written; the corrected combine returns 0 |
| `AsWritten.MinMaxCombineAsWrittenInside` | stlalgs.h:159-161 | on two pairs of indices inside S, the pair combine as written (`MinMaxCombineAsWritten`) reads nothing outside S and agrees with the corrected combine `MinMaxCombine` |
| `AsWritten.MinMaxCombineAsWrittenCounterexample` | stlalgs.h:159-162 | on S = [7], combining the identity (1, 1) with (0, 0) reads S[1] as written, while the corrected combine returns (0, 0) |
| `AsWritten.ReduceValuesAsWritten` | stlalgs.h:141-143 | reducing the VALUES of S with the index combine yields, when it reads nothing outside S, a value of S rather than a position |
| `AsWritten.MinElementAsWritten` | stlalgs.h:137-144 | min_element as written returns 0 for an empty S, and otherwise either an out-of-bounds read or a value of S |
| `AsWritten.MinElementAsWrittenCounterexample` | stlalgs.h:143 | on [3,1,4,1,5] with <, the value fold carries 3 (not the position 1) through four elements and its last combine reads S[5] |

## Left out

- The parallel runtime behind `pbbs::reduce`, `delayed_seq` and
  `parallel_for` (scheduling, work stealing, block sizes) is concurrency.
  `Reduce` is a sequential left fold. `Sequences.ReduceConcatOn` shows
  that, for a monoid lawful on a carrier holding every element, every split
  gives the same result. The laws are proved for each monoid of the header.
  Two are lawful on all of their type: the sum `pbbs::addm`
  (`IndexSearch.AddMonoidIsMonoid`) and the first-nonzero sign
  (`Ordering.FirstNonzeroIsMonoid`). Three are lawful only on a carrier:
  `IndexSearch.MinMonoidIsMonoidOn`, `Ordering.MinIndexMonoidIsMonoidOn`
  and `Ordering.MinMaxMonoidIsMonoidOn`. The split is applied in
  `IndexSearch.CountIfIndexSplit`, `IndexSearch.WindowMinSplit` and
  `Ordering.MinElementSplit`.
- The identity of `minm` is not visible in the header. The min-window
  monoid uses n, the not-found sentinel. A window is never empty, so the
  identity never reaches a result.
- `pack` is an external compaction routine. It is modelled as the
  order-preserving filter `Sequences.Pack`, whose result is fixed by
  `Sequences.PackAppend`.
- The commented wish-list of unimplemented algorithms (lines 172-249) and
  the notes on C++ concepts (lines 251-329) are prose, not code.
- C++ type mechanics: `size_t` overflow of `start + granularity` and of the
  doubling (integers here are unbounded); the `bool`/`char` casts;
  ownership and copying of `sequence`. The one wrap-around that changes a
  result, `S.size()-1` on an empty sequence, is modelled in
  `AsWritten.AdjacentRangeAsWritten`.
- The work and latency bounds of granularity doubling are performance, not
  behaviour.
- `IndexSearch.FindIfIndex` requires granularity > 0: with granularity 0
  the window loop never ends (see "## Findings").
- `Counting.EqualBy`, `Counting.Equal` and
  `Ordering.LexicographicalCompareIsFirstDifference` require
  \|s1\| <= \|s2\|, because the code reads s2[i] at every index of s1.
  `lexicographical_compare` compares only the first \|s1\| positions, as the
  code does, so a proper prefix compares false. ISO C++ answers true there.
- `Ordering.MinMaxElementIsMinAndMax`: the second component is the FIRST
  maximal position, because line 161 keeps the left index on ties. ISO C++
  `minmax_element` returns the last.
- `Searching.AdjacentFind`: when nothing is found, the result is the
  length of the searched index range, \|S\|-1, as in the code. ISO C++
  returns the end of the sequence.
- `Searching.Search`: the code searches the range \|S1\| and so returns
  \|S1\| when nothing is found. The corrected range (see "## Findings")
  changes the not-found value to \|S1\|-\|S2\|+1 (0 when S2 is longer
  than S1). ISO C++ returns the end of S1.
- `AsWritten.FindIfIndexAsWritten`: the window loop of lines 52-62 is
  unreachable as written and is omitted. After line 51 it is entered only
  when granularity >= n, where `start < n` is false at once.
- `AsWritten.MinElementAsWritten` folds from the first value on, as a
  serial reduce does. A fold seeded with the identity \|S\| would read
  S[\|S\|] in its very first combine, so on a non-empty S it fails as well.
  It is stated for sequences of naturals, the element type for which line
  143 compiles and reads S at the values.

## Findings

| source | as written | input that shows it | evidently intended | confidence | as-written member | corrected member |
|---|---|---|---|---|---|---|
| stlalgs.h:40-44 | `count_if_index`, `count_if` and `count` return `bool`, so the count collapses to "some index matches"; `all_of` then compares 0/1 with `size()` | S = [0,0], p always true: all_of is false | return the count as `size_t` | not executed | `AsWritten.AllOfAsWrittenCounterexample` | `Counting.AllOf` |
| stlalgs.h:51 | `if (i < n) return i;` returns the first index after the prefix without testing p | n = 3, granularity 1, p(i) = (i == 2): returns 1 | go on to the window loop | not executed | `AsWritten.FindIfIndexAsWrittenCounterexample` | `IndexSearch.FindIfIndex` |
| stlalgs.h:53-61 | nothing rejects granularity 0; the loop then adds 0 to start and doubles 0, so once line 51 is corrected the loop never ends | n = 1, granularity 0, p never true: start stays 0 < 1 | require granularity > 0 | not executed | `AsWritten.ZeroGranularityNeverAdvances` | `IndexSearch.FindIfIndex` |
| stlalgs.h:56 | `p(i+start) ? n : i+start` maps a match to the sentinel | window [0,2), n = 2, p(i) = (i == 0): yields 1 | `p(i+start) ? i+start : n` | not executed | `AsWritten.WindowMinAsWrittenCounterexample` | `IndexSearch.WindowMinIsFirstMatch` |
| stlalgs.h:78 | `count_if(S, p) > 1` | S = [5], p(x) = (x == 5): false | `> 0` | not executed | `AsWritten.AnyOfAsWrittenCounterexample` | `Counting.AnyOf` |
| stlalgs.h:93-94 | range `S.size()-1` wraps to 2^64-1 when S is empty, and the predicate uses `==` and ignores pred | S = []: index 0 is tested and reads S[0], S[1]; S = [1,3] with same-parity pred: pair 0 not reported | range 0 for an empty S; `pred(S[i], S[i+1])` | not executed | `AsWritten.AdjacentFindAsWrittenCounterexample` | `Searching.AdjacentFind` |
| stlalgs.h:103-106 | the range is the whole of S1, so the loop reads `S1[i+j]` past the end; it also uses `!=` instead of pred | S1 = [1,2], S2 = [2,3]: start 1 reads S1[2] | range \|S1\|-\|S2\|+1 and pred | not executed | `AsWritten.SearchAsWrittenCounterexample` | `Searching.Search` |
| stlalgs.h:112-118 | `equal` returns the count of related positions as bool | s1 = [1,2], s2 = [1,3]: true | count == s1.size() | not executed | `AsWritten.EqualAsWrittenCounterexample` | `Counting.Equal` |
| stlalgs.h:132 | the keep mask compares with `==` and ignores eq | s = [1,3], eq = same parity: [1,3] | `!eq(s[i], s[i-1])` | not executed | `AsWritten.UniqueAsWrittenCounterexample` | `Rearranging.UniqueHasNoAdjacentEquivalents` |
| stlalgs.h:141-142 | the combine reads S[l] and S[r] even when one is the identity S.size(), so the identity is not one (this matters when reduce combines the identity with an element) | S = [7], f(1, 0): reads S[1] | return the other index when one is S.size() | not executed | `AsWritten.MinIndexCombineAsWrittenCounterexample` | `Ordering.MinIndexCombineLaws` |
| stlalgs.h:143 | `pbbs::reduce(S, ...)` reduces the values of S, not the index sequence SS, reading S at each value | S = [3,1,4,1,5], comp = <: the fold carries the value 3, then f(3, 5) reads S[5] | `pbbs::reduce(SS, ...)` | not executed | `AsWritten.MinElementAsWrittenCounterexample` | `Ordering.MinElementIsFirstMinimum` |
| stlalgs.h:159-161 | the pair combine reads S at both components of both pairs, so combining the identity P(n, n) with a pair reads S[n] (this matters when reduce combines the identity with an element) | S = [7], f(P(1, 1), P(0, 0)) reads S[1] | return the other pair's component when one is S.size() | not executed | `AsWritten.MinMaxCombineAsWrittenCounterexample` | `Ordering.MinMaxMonoidIsMonoidOn` |
