/** The optimised bubble sort of Sorting/BubbleSort.java: an in-place sort of
    an int array in ascending or descending order that counts comparisons
    and swaps and stops after the first pass that swaps nothing, together
    with the sortedness check and the thin wrappers around both.

    A Java reference that may be null is an array? here, and a String that
    may be null is an Option<string>. */
module Sorting {

  datatype Option<T> = None | Some(value: T)

  // ---------------------------------------------------------------------
  // The sort direction
  // ---------------------------------------------------------------------

  /** Character.toUpperCase as far as a comparison with an ASCII capital
      can tell: 'a'..'z' become 'A'..'Z' and U+017F (LATIN SMALL LETTER
      LONG S) becomes 'S'.  Every other character is kept, which is exact
      for the question "is its upper-case form one of D, E, S, C". */
  function UpperCase(c: char): char {
    if 'a' <= c <= 'z' then (c as int - 'a' as int + 'A' as int) as char
    else if c == '\U{017F}' then 'S'
    else c
  }

  /** order.equalsIgnoreCase("DESC"): the same length, and at every
      position the same character or the same upper-case form. */
  predicate IsDescKeyword(order: string) {
    |order| == |"DESC"| &&
    forall k :: 0 <= k < |order| ==> order[k] == "DESC"[k] || UpperCase(order[k]) == "DESC"[k]
  }

  /** The direction a sort or a check uses: ascending unless the order
      string is "DESC" ignoring case; a null order means ascending. */
  function IsAscending(order: Option<string>): (ascending: bool)
    ensures order == None ==> ascending
    ensures order == Some("ASC") ==> ascending
    ensures order == Some("DESC") || order == Some("desc") ==> !ascending
  {
    order == None || !IsDescKeyword(order.value)
  }

  /** Exactly the four-letter spellings of "desc" in any mix of cases
      select the descending direction. */
  lemma DescendingSpellings(s: string)
    ensures !IsAscending(Some(s)) <==>
      |s| == 4 && s[0] in "dD" && s[1] in "eE" && s[2] in "sS\U{017F}" && s[3] in "cC"
  {
  }

  /** x may stand before y in a sequence sorted in the given direction. */
  predicate InOrder(x: int, y: int, ascending: bool) {
    if ascending then x <= y else x >= y
  }

  /** Every adjacent pair is in order: what isSorted checks. */
  ghost predicate Ordered(s: seq<int>, ascending: bool) {
    forall k :: 0 <= k < |s| - 1 ==> InOrder(s[k], s[k + 1], ascending)
  }

  /** Every pair is in order. */
  ghost predicate Sorted(s: seq<int>, ascending: bool) {
    forall k, l :: 0 <= k < l < |s| ==> InOrder(s[k], s[l], ascending)
  }

  /** Checking adjacent pairs is enough: they are in order exactly when all
      pairs are, because InOrder is transitive. */
  lemma {:induction false} OrderedIffSorted(s: seq<int>, ascending: bool)
    ensures Ordered(s, ascending) <==> Sorted(s, ascending)
  {
    if Ordered(s, ascending) {
      forall k, l | 0 <= k < l < |s|
        ensures InOrder(s[k], s[l], ascending)
      {
        OrderedSpan(s, ascending, k, l);
      }
    }
  }

  lemma {:induction false} OrderedSpan(s: seq<int>, ascending: bool, k: int, l: int)
    requires Ordered(s, ascending) && 0 <= k < l < |s|
    ensures InOrder(s[k], s[l], ascending)
    decreases l - k
  {
    if k + 1 < l {
      OrderedSpan(s, ascending, k + 1, l);
    }
  }

  // ---------------------------------------------------------------------
  // Inversions: the pairs a sort has to put right
  // ---------------------------------------------------------------------

  /** The number of elements of t that x must not precede. */
  function OutOfOrderWith(x: int, t: seq<int>, ascending: bool): (count: nat)
    ensures count <= |t|
  {
    if |t| == 0 then 0
    else (if InOrder(x, t[0], ascending) then 0 else 1) + OutOfOrderWith(x, t[1..], ascending)
  }

  /** The number of pairs k < l whose elements are out of order. */
  function Inversions(s: seq<int>, ascending: bool): nat {
    if |s| == 0 then 0
    else OutOfOrderWith(s[0], s[1..], ascending) + Inversions(s[1..], ascending)
  }

  /** s with its elements at j and j + 1 exchanged. */
  function Swap(s: seq<int>, j: int): (r: seq<int>)
    requires 0 <= j < |s| - 1
    ensures |r| == |s| && r[j] == s[j + 1] && r[j + 1] == s[j]
    ensures forall k :: 0 <= k < |s| && k != j && k != j + 1 ==> r[k] == s[k]
  {
    s[j := s[j + 1]][j + 1 := s[j]]
  }

  /** No element is out of order with x exactly when x may precede them
      all. */
  lemma {:induction false} OutOfOrderWithZero(x: int, t: seq<int>, ascending: bool)
    ensures OutOfOrderWith(x, t, ascending) == 0 <==>
      forall k :: 0 <= k < |t| ==> InOrder(x, t[k], ascending)
  {
    if |t| > 0 {
      OutOfOrderWithZero(x, t[1..], ascending);
      assert forall k :: 1 <= k < |t| ==> t[k] == t[1..][k - 1];
    }
  }

  /** A sequence has no inversions exactly when it is sorted. */
  lemma {:induction false} NoInversionsIffSorted(s: seq<int>, ascending: bool)
    ensures Inversions(s, ascending) == 0 <==> Sorted(s, ascending)
  {
    if |s| > 0 {
      NoInversionsIffSorted(s[1..], ascending);
      OutOfOrderWithZero(s[0], s[1..], ascending);
      assert forall k :: 1 <= k < |s| ==> s[k] == s[1..][k - 1];
    }
  }

  /** At most every pair is an inversion. */
  lemma {:induction false} InversionsBound(s: seq<int>, ascending: bool)
    ensures 2 * Inversions(s, ascending) <= |s| * (|s| - 1)
  {
    if |s| > 0 {
      var m := |s| - 1;
      InversionsBound(s[1..], ascending);
      assert 2 * Inversions(s, ascending) <= 2 * m + m * (m - 1);
      assert 2 * m + m * (m - 1) == (m + 1) * m;
    }
  }

  /** An ordered sequence has no inversions. */
  lemma OrderedNoInversions(s: seq<int>, ascending: bool)
    requires Ordered(s, ascending)
    ensures Inversions(s, ascending) == 0
  {
    OrderedIffSorted(s, ascending);
    NoInversionsIffSorted(s, ascending);
  }

  /** Swapping two later elements does not change how many of them x must
      not precede. */
  lemma {:induction false} OutOfOrderWithSwap(x: int, t: seq<int>, j: int, ascending: bool)
    requires 0 <= j < |t| - 1
    ensures OutOfOrderWith(x, Swap(t, j), ascending) == OutOfOrderWith(x, t, ascending)
  {
    var t' := Swap(t, j);
    if j == 0 {
      assert t'[1..][1..] == t[1..][1..];
    } else {
      assert t'[1..] == Swap(t[1..], j - 1);
      OutOfOrderWithSwap(x, t[1..], j - 1, ascending);
    }
  }

  /** Swapping an adjacent pair that is out of order removes exactly one
      inversion. */
  lemma {:induction false} SwapRemovesInversion(s: seq<int>, j: int, ascending: bool)
    requires 0 <= j < |s| - 1 && !InOrder(s[j], s[j + 1], ascending)
    ensures Inversions(Swap(s, j), ascending) + 1 == Inversions(s, ascending)
  {
    var s' := Swap(s, j);
    if j == 0 {
      assert s'[1..][1..] == s[1..][1..];
      assert s'[1..] == [s[0]] + s[1..][1..];
      assert s[1..] == [s[1]] + s[1..][1..];
    } else {
      assert s'[1..] == Swap(s[1..], j - 1);
      OutOfOrderWithSwap(s[0], s[1..], j - 1, ascending);
      SwapRemovesInversion(s[1..], j - 1, ascending);
    }
  }

  // ---------------------------------------------------------------------
  // The state of the sort between two comparisons
  // ---------------------------------------------------------------------

  /** Every element at or past bound is in order with every element before
      it: s[bound..] holds, sorted, the elements that end up there. */
  ghost predicate SettledFrom(s: seq<int>, bound: int, ascending: bool) {
    forall k, l :: 0 <= k < l < |s| && bound <= l ==> InOrder(s[k], s[l], ascending)
  }

  /** s[j] is in order with every element before it: the pass has carried
      the last element in order of s[..j + 1] to position j. */
  ghost predicate MaxAt(s: seq<int>, j: int, ascending: bool) {
    0 <= j < |s| && forall k :: 0 <= k < j ==> InOrder(s[k], s[j], ascending)
  }

  /** The adjacent pairs of s[..j + 1] are in order. */
  ghost predicate OrderedBelow(s: seq<int>, j: int, ascending: bool) {
    j < |s| && forall k :: 0 <= k < j ==> InOrder(s[k], s[k + 1], ascending)
  }

  /** s holds at position k the element s0 held at position perm[k], and
      perm names every position of s0 once. */
  ghost predicate Rearranged(s: seq<int>, s0: seq<int>, perm: seq<int>) {
    |s| == |s0| == |perm| &&
    (forall k {:trigger perm[k]} :: 0 <= k < |s| ==> 0 <= perm[k] < |s0| && s[k] == s0[perm[k]]) &&
    (forall k, l :: 0 <= k < l < |perm| ==> perm[k] != perm[l])
  }

  /** Equal elements keep the order they had in s0. */
  ghost predicate Stable(s: seq<int>, perm: seq<int>) {
    |perm| == |s| &&
    forall k, l :: 0 <= k < l < |s| && s[k] == s[l] ==> perm[k] < perm[l]
  }

  function Identity(n: nat): (perm: seq<int>)
    ensures |perm| == n && forall k :: 0 <= k < n ==> perm[k] == k
  {
    seq(n, k => k)
  }

  /** Before the first swap every element is where it started. */
  lemma IdentityRearranges(s: seq<int>)
    ensures Rearranged(s, s, Identity(|s|)) && Stable(s, Identity(|s|))
  {
  }

  /** The number of comparisons made by the first p passes over n elements:
      pass t compares n - 1 - t adjacent pairs. */
  function PassTotal(n: int, p: nat): int {
    if p == 0 then 0 else PassTotal(n, p - 1) + (n - p)
  }

  /** The closed form of PassTotal. */
  lemma {:induction false} PassTotalClosedForm(n: int, p: nat)
    ensures 2 * PassTotal(n, p) == p * (2 * n - 1 - p)
  {
    if p > 0 {
      PassTotalClosedForm(n, p - 1);
      assert (p - 1) * (2 * n - p) + 2 * (n - p) == p * (2 * n - 1 - p);
    }
  }

  /** Each of the first n - 1 passes makes at least one comparison, so
      the total only grows with the number of passes. */
  lemma {:induction false} PassTotalGrows(n: int, p: nat, q: nat)
    requires p <= q <= n - 1
    ensures PassTotal(n, p) <= PassTotal(n, q)
    decreases q
  {
    if p < q {
      PassTotalGrows(n, p, q - 1);
    }
  }

  /** Between one and n - 1 passes make at least n - 1 and at most
      n(n - 1)/2 comparisons. */
  lemma PassTotalBound(n: int, p: nat, total: int)
    requires 1 <= p <= n - 1 && total == PassTotal(n, p)
    ensures n - 1 <= total && 2 * total <= n * (n - 1)
  {
    assert PassTotal(n, 1) == n - 1;
    PassTotalGrows(n, 1, p);
    PassTotalGrows(n, p, n - 1);
    PassTotalClosedForm(n, n - 1);
    assert (n - 1) * (2 * n - 1 - (n - 1)) == n * (n - 1);
  }

  // ---------------------------------------------------------------------
  // What the loops of Sort compute, step by step
  // ---------------------------------------------------------------------

  /** The rest of a pass over s[..bound] from pair j on: each pair j, j + 1
      that is out of order is swapped, left to right.  The flag records
      whether any swap was made, starting from swapped. */
  function PassFrom(s: seq<int>, j: nat, bound: int, ascending: bool, swapped: bool): (r: (seq<int>, bool))
    requires 0 <= bound <= |s|
    ensures |r.0| == |s| && r.0[bound..] == s[bound..]
    ensures swapped ==> r.1
    decreases bound - j
  {
    if j + 1 >= bound then (s, swapped)
    else if InOrder(s[j], s[j + 1], ascending) then PassFrom(s, j + 1, bound, ascending, swapped)
    else PassFrom(Swap(s, j), j + 1, bound, ascending, true)
  }

  /** One whole pass over s[..bound]: the new sequence, and whether the
      pass swapped anything. */
  function BubblePass(s: seq<int>, bound: int, ascending: bool): (r: (seq<int>, bool))
    requires 0 <= bound <= |s|
    ensures |r.0| == |s| && r.0[bound..] == s[bound..]
  {
    PassFrom(s, 0, bound, ascending, false)
  }

  /** The outer loop of Sort from pass i on: pass i covers s[..|s| - i],
      and the loop stops after n - 1 passes or after the first pass that
      swaps nothing.  The result is the final sequence and the number of
      passes made. */
  function RunFrom(s: seq<int>, i: nat, ascending: bool): (r: (seq<int>, nat))
    ensures |r.0| == |s|
    ensures r.1 == i || i < r.1 <= |s| - 1
    decreases |s| - i
  {
    if i + 1 >= |s| then (s, i)
    else
      var (s', swapped) := BubblePass(s, |s| - i, ascending);
      if !swapped then (s', i + 1) else RunFrom(s', i + 1, ascending)
  }

  /** After pass i, the outer loop stops exactly when the pass swapped
      nothing, and otherwise goes on from the new sequence. */
  lemma NextPass(s: seq<int>, s': seq<int>, swapped: bool, i: nat, ascending: bool)
    requires i + 1 < |s| && (s', swapped) == BubblePass(s, |s| - i, ascending)
    ensures !swapped ==> RunFrom(s, i, ascending) == (s', i + 1)
    ensures swapped ==> RunFrom(s, i, ascending) == RunFrom(s', i + 1, ascending)
  {
  }

  /** A pass over an ordered sequence finds every pair in order: it
      changes nothing and the flag stays as it was. */
  lemma {:induction false} PassFromOrdered(s: seq<int>, j: nat, bound: int, ascending: bool, swapped: bool)
    requires 0 <= bound <= |s| && Ordered(s, ascending)
    ensures PassFrom(s, j, bound, ascending, swapped) == (s, swapped)
    decreases bound - j
  {
    if j + 1 < bound {
      PassFromOrdered(s, j + 1, bound, ascending, swapped);
    }
  }

  /** The early exit: on a sequence of two or more elements that is
      already ordered, the outer loop stops after its first pass, which
      changes nothing. */
  lemma RunFromOrdered(s: seq<int>, ascending: bool)
    requires |s| > 1 && Ordered(s, ascending)
    ensures RunFrom(s, 0, ascending) == (s, 1)
  {
    PassFromOrdered(s, 0, |s|, ascending, false);
  }

  /** The outer loop makes between 1 and n - 1 passes over n > 1 elements,
      so its comparisons lie between n - 1 and n(n - 1)/2. */
  lemma RunFromBounds(s: seq<int>, ascending: bool)
    requires |s| > 1
    ensures 1 <= RunFrom(s, 0, ascending).1 <= |s| - 1
    ensures |s| - 1 <= PassTotal(|s|, RunFrom(s, 0, ascending).1)
    ensures 2 * PassTotal(|s|, RunFrom(s, 0, ascending).1) <= |s| * (|s| - 1)
  {
    PassTotalBound(|s|, RunFrom(s, 0, ascending).1, PassTotal(|s|, RunFrom(s, 0, ascending).1));
  }

  /** An example pass: over [3, 1, 2] ascending, the 3 travels to the end
      and the pass reports a swap. */
  lemma PassExample()
    ensures BubblePass([3, 1, 2], 3, true) == ([1, 2, 3], true)
  {
    assert Swap([3, 1, 2], 0) == [1, 3, 2];
    assert Swap([1, 3, 2], 1) == [1, 2, 3];
    assert PassFrom([1, 3, 2], 1, 3, true, true) == ([1, 2, 3], true);
  }

  /** An example run: [2, 1, 3, 4] ascending is sorted by the first pass,
      the second pass swaps nothing and ends the loop, so the passes make
      3 + 2 = 5 comparisons. */
  lemma RunExample()
    ensures RunFrom([2, 1, 3, 4], 0, true) == ([1, 2, 3, 4], 2)
    ensures PassTotal(4, 2) == 5
  {
    assert Swap([2, 1, 3, 4], 0) == [1, 2, 3, 4];
    assert PassFrom([1, 2, 3, 4], 1, 4, true, true) == ([1, 2, 3, 4], true);
    assert BubblePass([2, 1, 3, 4], 4, true) == ([1, 2, 3, 4], true);
    assert BubblePass([1, 2, 3, 4], 3, true) == ([1, 2, 3, 4], false);
  }

  /** One comparison of the inner loop of Sort, at position j of a pass
      whose settled tail starts at bound: s' and perm' are the state after
      the pair at j is swapped if it is out of order. */
  lemma PassStep(s: seq<int>, s0: seq<int>, perm: seq<int>, bound: int, j: int, ascending: bool,
                 s': seq<int>, perm': seq<int>)
    requires 0 <= j && j + 1 < bound <= |s|
    requires SettledFrom(s, bound, ascending) && MaxAt(s, j, ascending)
    requires Rearranged(s, s0, perm) && Stable(s, perm)
    requires if InOrder(s[j], s[j + 1], ascending) then s' == s && perm' == perm
             else s' == Swap(s, j) && perm' == Swap(perm, j)
    ensures SettledFrom(s', bound, ascending) && MaxAt(s', j + 1, ascending)
    ensures Rearranged(s', s0, perm') && Stable(s', perm')
    ensures multiset(s') == multiset(s)
    ensures InOrder(s[j], s[j + 1], ascending) && OrderedBelow(s, j, ascending) ==>
              OrderedBelow(s', j + 1, ascending)
    ensures !InOrder(s[j], s[j + 1], ascending) ==>
              Inversions(s', ascending) + 1 == Inversions(s, ascending)
  {
    if !InOrder(s[j], s[j + 1], ascending) {
      SwapSettled(s, bound, j, ascending);
      SwapRearranged(s, s0, perm, j);
      SwapStable(s, perm, j);
      SwapMultiset(s, j);
      SwapRemovesInversion(s, j, ascending);
    }
  }

  /** Swapping an out-of-order pair below the settled tail keeps the tail
      settled and carries the larger element (in the given direction) up. */
  lemma SwapSettled(s: seq<int>, bound: int, j: int, ascending: bool)
    requires 0 <= j && j + 1 < bound <= |s| && !InOrder(s[j], s[j + 1], ascending)
    requires SettledFrom(s, bound, ascending) && MaxAt(s, j, ascending)
    ensures SettledFrom(Swap(s, j), bound, ascending) && MaxAt(Swap(s, j), j + 1, ascending)
  {
  }

  lemma SwapRearranged(s: seq<int>, s0: seq<int>, perm: seq<int>, j: int)
    requires 0 <= j < |s| - 1 && Rearranged(s, s0, perm)
    ensures Rearranged(Swap(s, j), s0, Swap(perm, j))
  {
  }

  /** Only unequal neighbours are swapped, so equal elements never pass
      each other. */
  lemma SwapStable(s: seq<int>, perm: seq<int>, j: int)
    requires 0 <= j < |s| - 1 && s[j] != s[j + 1] && Stable(s, perm)
    ensures Stable(Swap(s, j), Swap(perm, j))
  {
  }

  lemma SwapMultiset(s: seq<int>, j: int)
    requires 0 <= j < |s| - 1
    ensures multiset(Swap(s, j)) == multiset(s)
  {
    assert s == s[..j] + [s[j], s[j + 1]] + s[j + 2..];
    assert Swap(s, j) == s[..j] + [s[j + 1], s[j]] + s[j + 2..];
  }

  /** At the end of a pass the element carried to bound - 1 joins the
      settled tail. */
  lemma Settle(s: seq<int>, bound: int, ascending: bool)
    requires 1 <= bound <= |s| && SettledFrom(s, bound, ascending) && MaxAt(s, bound - 1, ascending)
    ensures SettledFrom(s, bound - 1, ascending)
  {
  }

  /** A settled tail from bound with its adjacent pairs in order below it
      is the whole sequence ordered. */
  lemma SettledOrdered(s: seq<int>, bound: int, ascending: bool)
    requires 1 <= bound <= |s| && SettledFrom(s, bound, ascending)
    requires OrderedBelow(s, bound - 1, ascending)
    ensures Ordered(s, ascending)
  {
  }

  /** What holds between two passes of Sort over s0, after `passes`
      passes: the tail past |s| - passes is settled, s is s0 rearranged
      stably, every swap so far removed one inversion, and the counters
      are those of full passes. */
  ghost predicate BetweenPasses(s: seq<int>, s0: seq<int>, perm: seq<int>, passes: int,
                                comparisons: int, swaps: int, ascending: bool)
  {
    0 <= passes < |s| &&
    SettledFrom(s, |s| - passes, ascending) &&
    Rearranged(s, s0, perm) && Stable(s, perm) &&
    multiset(s) == multiset(s0) &&
    swaps + Inversions(s, ascending) == Inversions(s0, ascending) &&
    comparisons == PassTotal(|s|, passes) && 0 <= swaps <= comparisons
  }

  /** Before the first pass nothing has moved and nothing is counted. */
  lemma Start(s0: seq<int>, ascending: bool)
    requires |s0| > 0
    ensures BetweenPasses(s0, s0, Identity(|s0|), 0, 0, 0, ascending)
  {
    IdentityRearranges(s0);
  }

  /** A pass over s[..|s| - passes] with the effect Pass promises leads
      from one state between passes to the next. */
  lemma AfterPass(s: seq<int>, s': seq<int>, s0: seq<int>, perm: seq<int>, perm': seq<int>, passes: int,
                  comparisons: int, swaps: int, comparisons': int, swaps': int, ascending: bool)
    requires BetweenPasses(s, s0, perm, passes, comparisons, swaps, ascending) && passes < |s| - 1
    requires |s'| == |s| && SettledFrom(s', |s| - passes - 1, ascending)
    requires Rearranged(s', s0, perm') && Stable(s', perm') && multiset(s') == multiset(s)
    requires comparisons' == comparisons + (|s| - passes) - 1
    requires swaps' + Inversions(s', ascending) == swaps + Inversions(s, ascending)
    requires swaps <= swaps' && swaps' - swaps <= (|s| - passes) - 1
    ensures BetweenPasses(s', s0, perm', passes + 1, comparisons', swaps', ascending)
  {
  }

  /** What holds when the passes of Sort over s0 have stopped with s,
      and outcome is what RunFrom says they stop with: s is ordered, it is
      s0 rearranged stably, the swaps counted are the inversions of s0,
      and s and the comparisons are those of the outcome. */
  ghost predicate Finished(s: seq<int>, s0: seq<int>, perm: seq<int>, comparisons: int, swaps: int,
                           ascending: bool, outcome: (seq<int>, nat))
  {
    Ordered(s, ascending) && Rearranged(s, s0, perm) && Stable(s, perm) &&
    multiset(s) == multiset(s0) && swaps == Inversions(s0, ascending) &&
    0 <= swaps <= comparisons &&
    s == outcome.0 && comparisons == PassTotal(|s|, outcome.1)
  }

  /** When the passes stop, after the last one or after one without a
      swap, the sequence is ordered and the swaps counted are its
      inversions. */
  lemma Finish(s: seq<int>, s0: seq<int>, perm: seq<int>, passes: int,
               comparisons: int, swaps: int, ascending: bool, outcome: (seq<int>, nat))
    requires BetweenPasses(s, s0, perm, passes, comparisons, swaps, ascending) && 1 <= passes
    requires passes == |s| - 1 || OrderedBelow(s, |s| - passes, ascending)
    requires outcome == (s, passes)
    ensures Finished(s, s0, perm, comparisons, swaps, ascending, outcome)
  {
    if passes == |s| - 1 {
      SettledOrdered(s, 1, ascending);
    } else {
      SettledOrdered(s, |s| - passes + 1, ascending);
    }
    OrderedNoInversions(s, ascending);
  }

  // ---------------------------------------------------------------------
  // The operations
  // ---------------------------------------------------------------------

  /** The counters sort reports.  The elapsed time the source also
      reports is not part of this model. */
  datatype SortMetrics = SortMetrics(comparisonCount: int, swapCount: int)

  /** The optimised bubble sort: passes of adjacent compare-and-swap over a
      shrinking prefix, stopping after a pass without swaps.  The ghost perm
      records where each element came from. */
  method Sort(elements: array?<int>, order: Option<string>) returns (metrics: SortMetrics, ghost perm: seq<int>)
    modifies elements
    ensures elements == null || elements.Length <= 1 ==> metrics == SortMetrics(0, 0)
    ensures elements != null && elements.Length <= 1 ==> elements[..] == old(elements[..])
    ensures elements != null ==> Ordered(elements[..], IsAscending(order))
    ensures elements != null ==> multiset(elements[..]) == multiset(old(elements[..]))
    ensures elements != null ==> Rearranged(elements[..], old(elements[..]), perm) && Stable(elements[..], perm)
    ensures elements != null ==> metrics.swapCount == Inversions(old(elements[..]), IsAscending(order))
    ensures 0 <= metrics.swapCount <= metrics.comparisonCount
    ensures elements != null && elements.Length > 1 ==>
              elements.Length - 1 <= metrics.comparisonCount &&
              2 * metrics.comparisonCount <= elements.Length * (elements.Length - 1)
    ensures elements != null && elements.Length > 1 && Ordered(old(elements[..]), IsAscending(order)) ==>
              elements[..] == old(elements[..]) && metrics == SortMetrics(elements.Length - 1, 0)
    ensures elements != null ==>
              elements[..] == RunFrom(old(elements[..]), 0, IsAscending(order)).0 &&
              metrics.comparisonCount == PassTotal(elements.Length, RunFrom(old(elements[..]), 0, IsAscending(order)).1)
  {
    if elements == null || elements.Length <= 1 {
      perm := if elements == null then [] else Identity(elements.Length);
      return SortMetrics(0, 0), perm;
    }
    var ascending := IsAscending(order);
    ghost var s0 := elements[..];
    var comparisons, swaps;
    comparisons, swaps, perm := Passes(elements, ascending);
    metrics := SortMetrics(comparisons, swaps);
    RunFromBounds(s0, ascending);
    if Ordered(s0, ascending) {
      RunFromOrdered(s0, ascending);
      OrderedNoInversions(s0, ascending);
    }
  }

  /** The passes of Sort over an array of two or more elements, in the
      direction chosen: the outer loop of the bubble sort. */
  method Passes(elements: array<int>, ascending: bool) returns (comparisons: int, swaps: int, ghost perm: seq<int>)
    modifies elements
    requires elements.Length > 1
    ensures Ordered(elements[..], ascending)
    ensures multiset(elements[..]) == multiset(old(elements[..]))
    ensures Rearranged(elements[..], old(elements[..]), perm) && Stable(elements[..], perm)
    ensures swaps == Inversions(old(elements[..]), ascending)
    ensures 0 <= swaps <= comparisons
    ensures elements[..] == RunFrom(old(elements[..]), 0, ascending).0
    ensures comparisons == PassTotal(elements.Length, RunFrom(old(elements[..]), 0, ascending).1)
  {
    var n := elements.Length;
    ghost var s0 := elements[..];
    perm := Identity(n);
    comparisons, swaps := 0, 0;
    Start(s0, ascending);
    var i := 0;
    ghost var outcome := RunFrom(s0, 0, ascending);
    while i < n - 1
      invariant 0 <= i <= n - 1
      invariant i < n - 1 ==> BetweenPasses(elements[..], s0, perm, i, comparisons, swaps, ascending)
      invariant i < n - 1 ==> RunFrom(elements[..], i, ascending) == outcome
      invariant i == n - 1 ==> Finished(elements[..], s0, perm, comparisons, swaps, ascending, outcome)
    {
      var swapped;
      comparisons, swaps, swapped, perm := Round(elements, i, ascending, comparisons, swaps, s0, perm, outcome);
      if !swapped {
        break;
      }
      i := i + 1;
    }
  }

  /** The body of the outer loop of Sort: pass number i over
      elements[..n - i], with the counters carried through.  It keeps the
      invariant of the outer loop and reports whether it swapped, which is
      whether it changed the array. */
  method Round(elements: array<int>, i: int, ascending: bool, comparisons: int, swaps: int,
               ghost s0: seq<int>, ghost perm: seq<int>, ghost outcome: (seq<int>, nat))
    returns (comparisons': int, swaps': int, swapped: bool, ghost perm': seq<int>)
    modifies elements
    requires 0 <= i < elements.Length - 1
    requires BetweenPasses(elements[..], s0, perm, i, comparisons, swaps, ascending)
    requires RunFrom(elements[..], i, ascending) == outcome
    ensures (elements[..], swapped) == BubblePass(old(elements[..]), elements.Length - i, ascending)
    ensures !swapped || i + 1 == elements.Length - 1 ==>
              Finished(elements[..], s0, perm', comparisons', swaps', ascending, outcome)
    ensures swapped && i + 1 < elements.Length - 1 ==>
              BetweenPasses(elements[..], s0, perm', i + 1, comparisons', swaps', ascending) &&
              RunFrom(elements[..], i + 1, ascending) == outcome
  {
    ghost var s := elements[..];
    comparisons', swaps', swapped, perm' := Pass(elements, elements.Length - i, ascending, comparisons, swaps, s0, perm);
    AfterPass(s, elements[..], s0, perm, perm', i, comparisons, swaps, comparisons', swaps', ascending);
    NextPass(s, elements[..], swapped, i, ascending);
    if !swapped || i + 1 == elements.Length - 1 {
      Finish(elements[..], s0, perm', i + 1, comparisons', swaps', ascending, outcome);
    }
  }

  /** One pass of Sort, the body of its outer loop: compare each adjacent
      pair of elements[..bound], swapping those out of order, and report
      whether anything was swapped.  The counters are carried through. */
  method Pass(elements: array<int>, bound: int, ascending: bool, comparisons: int, swaps: int,
              ghost s0: seq<int>, ghost perm: seq<int>)
    returns (comparisons': int, swaps': int, swapped: bool, ghost perm': seq<int>)
    modifies elements
    requires 2 <= bound <= elements.Length
    requires SettledFrom(elements[..], bound, ascending)
    requires Rearranged(elements[..], s0, perm) && Stable(elements[..], perm)
    ensures SettledFrom(elements[..], bound - 1, ascending)
    ensures Rearranged(elements[..], s0, perm') && Stable(elements[..], perm')
    ensures multiset(elements[..]) == multiset(old(elements[..]))
    ensures comparisons' == comparisons + bound - 1
    ensures swaps' + Inversions(elements[..], ascending) == swaps + Inversions(old(elements[..]), ascending)
    ensures swapped == (swaps' > swaps) && swaps <= swaps' && swaps' - swaps <= bound - 1
    ensures !swapped ==> OrderedBelow(elements[..], bound - 1, ascending)
    ensures (elements[..], swapped) == BubblePass(old(elements[..]), bound, ascending)
  {
    comparisons', swaps', swapped, perm' := comparisons, swaps, false, perm;
    var j := 0;
    while j < bound - 1
      invariant 0 <= j <= bound - 1
      invariant PassFrom(elements[..], j, bound, ascending, swapped) == BubblePass(old(elements[..]), bound, ascending)
      invariant SettledFrom(elements[..], bound, ascending) && MaxAt(elements[..], j, ascending)
      invariant Rearranged(elements[..], s0, perm') && Stable(elements[..], perm')
      invariant multiset(elements[..]) == multiset(old(elements[..]))
      invariant swaps' + Inversions(elements[..], ascending) == swaps + Inversions(old(elements[..]), ascending)
      invariant comparisons' == comparisons + j
      invariant swapped == (swaps' > swaps) && swaps <= swaps' <= swaps + j
      invariant !swapped ==> OrderedBelow(elements[..], j, ascending)
    {
      ghost var s, p, sw := elements[..], perm', swapped;
      comparisons' := comparisons' + 1;
      var shouldSwap := if ascending then elements[j] > elements[j + 1] else elements[j] < elements[j + 1];
      if shouldSwap {
        var temp := elements[j];
        elements[j] := elements[j + 1];
        elements[j + 1] := temp;
        perm' := Swap(perm', j);
        swaps' := swaps' + 1;
        swapped := true;
      }
      PassStep(s, s0, p, bound, j, ascending, elements[..], perm');
      assert PassFrom(s, j, bound, ascending, sw) == PassFrom(elements[..], j + 1, bound, ascending, swapped);
      j := j + 1;
    }
    Settle(elements[..], bound, ascending);
  }

  /** bubbleSort: Sort in the ascending direction. */
  method BubbleSort(arr: array?<int>) returns (metrics: SortMetrics, ghost perm: seq<int>)
    modifies arr
    ensures arr != null ==> Ordered(arr[..], true) && multiset(arr[..]) == multiset(old(arr[..]))
    ensures arr != null ==> Rearranged(arr[..], old(arr[..]), perm) && Stable(arr[..], perm)
    ensures arr != null ==> metrics.swapCount == Inversions(old(arr[..]), true)
    ensures arr == null || arr.Length <= 1 ==> metrics == SortMetrics(0, 0)
    ensures arr != null && arr.Length <= 1 ==> arr[..] == old(arr[..])
    ensures 0 <= metrics.swapCount <= metrics.comparisonCount
    ensures arr != null && arr.Length > 1 ==>
              arr.Length - 1 <= metrics.comparisonCount &&
              2 * metrics.comparisonCount <= arr.Length * (arr.Length - 1)
    ensures arr != null && arr.Length > 1 && Ordered(old(arr[..]), true) ==>
              arr[..] == old(arr[..]) && metrics == SortMetrics(arr.Length - 1, 0)
    ensures arr != null ==>
              arr[..] == RunFrom(old(arr[..]), 0, true).0 &&
              metrics.comparisonCount == PassTotal(arr.Length, RunFrom(old(arr[..]), 0, true).1)
  {
    metrics, perm := Sort(arr, Some("ASC"));
  }

  /** The counters are Java longs; an int array has fewer than 2^31
      elements, so at most n(n - 1)/2 comparisons never overflow them. */
  lemma CountersFitInLong(n: int, comparisons: int)
    requires 0 <= n < 0x8000_0000 && 2 * comparisons <= n * (n - 1)
    ensures comparisons < 0x8000_0000_0000_0000
  {
    PairsBelowSquare(n, 0x8000_0000);
  }

  lemma PairsBelowSquare(n: int, m: int)
    requires 0 <= n <= m
    ensures n * (n - 1) <= m * m
  {
    assert m * m - n * (n - 1) == (m - n) * m + n * (m - n) + n;
    assert (m - n) * m >= 0 && n * (m - n) >= 0;
  }

  /** The check isSorted(elements, order) makes: true for a null or short
      array, otherwise whether every adjacent pair is in the direction the
      order selects. */
  method IsSorted(elements: array?<int>, order: Option<string>) returns (sorted: bool)
    ensures sorted == (elements == null || Ordered(elements[..], IsAscending(order)))
  {
    if elements == null || elements.Length <= 1 {
      return true;
    }
    var ascending := IsAscending(order);
    var i := 0;
    while i < elements.Length - 1
      invariant 0 <= i <= elements.Length - 1
      invariant forall k :: 0 <= k < i ==> InOrder(elements[k], elements[k + 1], ascending)
    {
      if ascending {
        if elements[i] > elements[i + 1] {
          return false;
        }
      } else {
        if elements[i] < elements[i + 1] {
          return false;
        }
      }
      i := i + 1;
    }
    return true;
  }

  /** isSorted(elements): the ascending check. */
  method IsSortedAscending(elements: array?<int>) returns (sorted: bool)
    ensures sorted == (elements == null || Ordered(elements[..], true))
  {
    sorted := IsSorted(elements, Some("ASC"));
  }

  /** What validateSort reports: the array it was given and whether it is
      sorted.  The creation time the source also records is not part of
      this model. */
  datatype SortResult = SortResult(sortedElements: array?<int>, isSorted: bool)

  method ValidateSort(elements: array?<int>, order: Option<string>) returns (result: SortResult)
    ensures result.sortedElements == elements
    ensures result.isSorted == (elements == null || Ordered(elements[..], IsAscending(order)))
  {
    var sorted := IsSorted(elements, order);
    result := SortResult(elements, sorted);
  }

  /** validateSort(elements): the ascending validation. */
  method ValidateSortAscending(elements: array?<int>) returns (result: SortResult)
    ensures result.sortedElements == elements
    ensures result.isSorted == (elements == null || Ordered(elements[..], true))
  {
    result := ValidateSort(elements, Some("ASC"));
  }

  /** Sorting an array and then validating it in the same direction always
      reports it sorted, whatever the order string. */
  method SortThenValidate(elements: array?<int>, order: Option<string>) returns (metrics: SortMetrics, result: SortResult)
    modifies elements
    ensures result.sortedElements == elements && result.isSorted
  {
    ghost var perm;
    metrics, perm := Sort(elements, order);
    result := ValidateSort(elements, order);
  }

  /** The request of executeBubbleSort.  Its fields stay public and
      assignable, so the order may be None again after construction. */
  class SortInput {
    var elements: array?<int>
    var order: Option<string>

    /** A missing order defaults to "ASC", which selects the same
        direction as leaving it missing. */
    constructor(elements: array?<int>, order: Option<string>)
      ensures this.elements == elements
      ensures this.order == if order == None then Some("ASC") else order
      ensures IsAscending(this.order) == IsAscending(order)
    {
      this.elements := elements;
      this.order := if order == None then Some("ASC") else order;
    }
  }

  /** The answer of executeBubbleSort: the counters and the sorted array. */
  datatype ExecuteBubbleSortResponse = ExecuteBubbleSortResponse(metrics: SortMetrics, sortedElements: array<int>)

  /** executeBubbleSort: without a request or without elements, zero
      counters and a fresh empty array; otherwise the request's own array,
      sorted in place in the direction of the request's order. */
  method ExecuteBubbleSort(input: SortInput?) returns (response: ExecuteBubbleSortResponse)
    modifies if input != null && input.elements != null then {input.elements} else {}
    ensures input == null || input.elements == null ==>
              fresh(response.sortedElements) && response.sortedElements.Length == 0 &&
              response.metrics == SortMetrics(0, 0)
    ensures input != null && input.elements != null ==>
              response.sortedElements == input.elements &&
              Ordered(input.elements[..], IsAscending(input.order)) &&
              multiset(input.elements[..]) == multiset(old(input.elements[..])) &&
              response.metrics.swapCount == Inversions(old(input.elements[..]), IsAscending(input.order))
    ensures input != null && input.elements != null ==>
              input.elements[..] == RunFrom(old(input.elements[..]), 0, IsAscending(input.order)).0 &&
              response.metrics.comparisonCount ==
                PassTotal(input.elements.Length, RunFrom(old(input.elements[..]), 0, IsAscending(input.order)).1)
    ensures 0 <= response.metrics.swapCount <= response.metrics.comparisonCount
  {
    if input == null || input.elements == null {
      var empty := new int[0];
      return ExecuteBubbleSortResponse(SortMetrics(0, 0), empty);
    }
    var metrics, perm := Sort(input.elements, input.order);
    response := ExecuteBubbleSortResponse(metrics, input.elements);
  }
}
