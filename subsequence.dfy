/** src/subsequence.rs: a `Subsequence` is a start index and a length that select a
    contiguous window of a route; its before/in/after views split the route in three. */
module Subsequences {
  import opened Sequences
  import opened Utils

  datatype Subsequence = Subsequence(startIndex: nat, length: nat)

  /** `Subsequence::new`. */
  function New(startIndex: nat, length: nat): (r: Subsequence)
    ensures r.startIndex == startIndex && r.length == length
  {
    Subsequence(startIndex, length)
  }

  /** The window's end, one past its last position. */
  function End(s: Subsequence): nat {
    s.startIndex + s.length
  }

  /** The two draws of `random_subsequence(max)` come from the ranges the source samples:
      the start from `0..max-2` and the length from `1..max-start-1`, each only when
      that range is not empty. */
  predicate DrawsOk(max: nat, startDraw: nat, lengthDraw: nat)
    requires max >= 2
  {
    && (0 < max - 2 ==> startDraw < max - 2)
    && var start := RandomElemFromRange(0, max - 2, startDraw);
       1 < max - start - 1 ==> 1 <= lengthDraw < max - start - 1
  }

  /** `random_subsequence(max)`, with the random draws as parameters. Below 2 the
      source's `max - 2` underflows, so `max >= 2` is required. The window always has
      at least one element and ends before `max`; for `max == 2` both ranges are empty
      and the fallbacks give start 0 and length 1. */
  function RandomSubsequence(max: nat, startDraw: nat, lengthDraw: nat): (r: Subsequence)
    requires max >= 2 && DrawsOk(max, startDraw, lengthDraw)
    ensures r.startIndex < max
    ensures r.length < max - r.startIndex
    ensures r.startIndex + r.length < max
    ensures r.length >= 1
    ensures max == 2 ==> r == Subsequence(0, 1)
    ensures max > 2 ==> r.startIndex + r.length <= max - 2
  {
    var start := RandomElemFromRange(0, max - 2, startDraw);
    Subsequence(start, RandomElemFromRange(1, max - start - 1, lengthDraw))
  }

  /** The values before the window; None when the window does not fit in `xs`. */
  function ValuesBefore<T>(s: Subsequence, xs: seq<T>): (r: Option<seq<T>>)
    ensures r.Some? <==> End(s) <= |xs|
    ensures r.Some? ==> |r.value| == s.startIndex
    ensures r.Some? ==> forall k :: 0 <= k < s.startIndex ==> r.value[k] == xs[k]
  {
    if End(s) <= |xs| then Some(xs[..s.startIndex]) else None
  }

  /** The values in the window; None when the window does not fit in `xs`. */
  function ValuesIn<T>(s: Subsequence, xs: seq<T>): (r: Option<seq<T>>)
    ensures r.Some? <==> End(s) <= |xs|
    ensures r.Some? ==> |r.value| == s.length
    ensures r.Some? ==> forall k :: 0 <= k < s.length ==> r.value[k] == xs[s.startIndex + k]
  {
    if End(s) <= |xs| then Some(xs[s.startIndex..End(s)]) else None
  }

  /** The values after the window; None when the window does not fit in `xs`. */
  function ValuesAfter<T>(s: Subsequence, xs: seq<T>): (r: Option<seq<T>>)
    ensures r.Some? <==> End(s) <= |xs|
    ensures r.Some? ==> |r.value| == |xs| - End(s)
    ensures r.Some? ==> forall k :: 0 <= k < |xs| - End(s) ==> r.value[k] == xs[End(s) + k]
  {
    if End(s) <= |xs| then Some(xs[End(s)..]) else None
  }

  /** The three views put back together give the whole sequence, and each is empty at
      its own boundary. */
  lemma ViewsPartition<T>(s: Subsequence, xs: seq<T>)
    requires End(s) <= |xs|
    ensures ValuesBefore(s, xs).value + ValuesIn(s, xs).value + ValuesAfter(s, xs).value == xs
    ensures s.startIndex == 0 ==> ValuesBefore(s, xs).value == []
    ensures s.length == 0 ==> ValuesIn(s, xs).value == []
    ensures End(s) == |xs| ==> ValuesAfter(s, xs).value == []
  {
    assert xs == xs[..s.startIndex] + xs[s.startIndex..End(s)] + xs[End(s)..];
  }

  /** `get_unique_elems`: the set of values in the window. The source slices the route,
      so the window must fit. */
  function GetUniqueElems(s: Subsequence, indexes: seq<nat>): (r: set<nat>)
    requires End(s) <= |indexes|
    ensures forall v :: v in r <==> exists k :: s.startIndex <= k < End(s) && indexes[k] == v
    ensures |r| <= s.length
    ensures Distinct(indexes) ==> |r| == s.length
  {
    var window := indexes[s.startIndex..End(s)];
    SetOfSeqCard(window);
    assert Distinct(indexes) ==> Distinct(window);
    forall v | v in window
      ensures exists k :: s.startIndex <= k < End(s) && indexes[k] == v
    {
      var j :| 0 <= j < |window| && window[j] == v;
      assert indexes[s.startIndex + j] == v;
    }
    set v | v in window
  }

  /** The worked examples of the source's tests for `get_unique_elems`. */
  lemma GetUniqueElemsExamples()
    ensures GetUniqueElems(New(0, 4), [1, 2, 3, 4]) == {1, 2, 3, 4}
    ensures GetUniqueElems(New(1, 2), [1, 2, 3, 4]) == {2, 3}
    ensures GetUniqueElems(New(1, 1), [1, 2, 3, 4]) == {2}
  {
    var xs: seq<nat> := [1, 2, 3, 4];
    assert xs[0..4] == xs && xs[1..3] == [2, 3] && xs[1..2] == [2];
  }
}
