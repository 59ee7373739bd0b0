/** The deterministic helpers of src/utils.rs: drawing from a range, removing an element,
    relocating an element, membership, and the stable descending argsort with its
    comparator. `ordered_crossover` of the same file lives in module Crossovers. */
module Utils {
  import opened Sequences

  function Min(a: nat, b: nat): nat {
    if a <= b then a else b
  }

  function Max(a: nat, b: nat): nat {
    if a <= b then b else a
  }

  /** The result of comparing two values. */
  datatype Ordering = Less | Equal | Greater

  /** `partial_cmp` on fitness values; total here because reals have no NaN. */
  function Compare(x: real, y: real): Ordering {
    if x < y then Less else if x == y then Equal else Greater
  }

  /** Swaps Less and Greater and keeps Equal. */
  function ReverseOrdering(ordering: Ordering): (r: Ordering)
    ensures r == Equal <==> ordering == Equal
    ensures r != ordering || ordering == Equal
  {
    match ordering
    case Greater => Less
    case Less => Greater
    case Equal => Equal
  }

  lemma ReverseOrderingInvolution(ordering: Ordering)
    ensures ReverseOrdering(ReverseOrdering(ordering)) == ordering
  {
  }

  /** Reversing a comparison is the same as comparing the other way round. */
  lemma ReverseOrderingSwapsArguments(x: real, y: real)
    ensures ReverseOrdering(Compare(x, y)) == Compare(y, x)
  {
  }

  /** `get_random_elem_from_range(lo..hi)`: the random `draw` when the range is non-empty,
      and `lo` itself when it is empty. */
  function RandomElemFromRange(lo: nat, hi: nat, draw: nat): (r: nat)
    requires lo < hi ==> lo <= draw < hi
    ensures lo < hi ==> lo <= r < hi
    ensures hi <= lo ==> r == lo
  {
    if lo < hi then draw else lo
  }

  /** `remove_elem`: the sequence without its element at `elemIdx`, the rest in order. */
  function RemoveElem(data: seq<nat>, elemIdx: nat): (r: seq<nat>)
    requires elemIdx < |data|
    ensures |r| == |data| - 1
    ensures forall k :: 0 <= k < elemIdx ==> r[k] == data[k]
    ensures forall k :: elemIdx <= k < |r| ==> r[k] == data[k + 1]
    ensures multiset(r) + multiset{data[elemIdx]} == multiset(data)
  {
    assert data == data[..elemIdx] + [data[elemIdx]] + data[elemIdx + 1..];
    data[..elemIdx] + data[elemIdx + 1..]
  }

  /** Where the moved element ends up: one place to the left of `putBeforeIdx` when it
      came from the left of it, because removing it shifts the tail. */
  function Landing(putBeforeIdx: nat, moveIdx: nat): nat {
    if moveIdx < putBeforeIdx then putBeforeIdx - 1 else putBeforeIdx
  }

  /** `data` with the element at `moveIdx` taken out and put back in front of the element
      that was at `putBeforeIdx`, given segment by segment. */
  function Relocated(data: seq<nat>, putBeforeIdx: nat, moveIdx: nat): (r: seq<nat>)
    requires putBeforeIdx != moveIdx ==> moveIdx < |data| && putBeforeIdx <= |data|
    ensures |r| == |data| && multiset(r) == multiset(data)
    ensures putBeforeIdx != moveIdx ==>
              var t := Landing(putBeforeIdx, moveIdx);
              t < |r| && r[t] == data[moveIdx] && RemoveElem(r, t) == RemoveElem(data, moveIdx)
  {
    if putBeforeIdx == moveIdx then data
    else if moveIdx < putBeforeIdx then
      var r := data[..moveIdx] + data[moveIdx + 1..putBeforeIdx] + [data[moveIdx]] + data[putBeforeIdx..];
      RelocatedLeftFacts(data, putBeforeIdx, moveIdx, r);
      r
    else
      var r := data[..putBeforeIdx] + [data[moveIdx]] + data[putBeforeIdx..moveIdx] + data[moveIdx + 1..];
      RelocatedRightFacts(data, putBeforeIdx, moveIdx, r);
      r
  }

  lemma RelocatedLeftFacts(data: seq<nat>, p: nat, m: nat, r: seq<nat>)
    requires m < p <= |data|
    requires r == data[..m] + data[m + 1..p] + [data[m]] + data[p..]
    ensures |r| == |data| && multiset(r) == multiset(data)
    ensures r[p - 1] == data[m] && RemoveElem(r, p - 1) == RemoveElem(data, m)
  {
    var a, b, c := data[..m], data[m + 1..p], data[p..];
    assert data == a + [data[m]] + b + c;
    assert r[..p - 1] == a + b && r[p..] == c;
    assert RemoveElem(r, p - 1) == a + b + c;
    assert data[m + 1..] == b + c;
  }

  lemma RelocatedRightFacts(data: seq<nat>, p: nat, m: nat, r: seq<nat>)
    requires p < m < |data|
    requires r == data[..p] + [data[m]] + data[p..m] + data[m + 1..]
    ensures |r| == |data| && multiset(r) == multiset(data)
    ensures r[p] == data[m] && RemoveElem(r, p) == RemoveElem(data, m)
  {
    var a, b, c := data[..p], data[p..m], data[m + 1..];
    assert data == a + b + [data[m]] + c;
    assert r[..p] == a && r[p + 1..] == b + c;
    assert RemoveElem(r, p) == a + b + c;
    assert data[..m] == a + b;
  }

  /** `change_order`: on a copy of `data`, remove the element at `moveIdx` and insert it at
      `max(putBeforeIdx, reset) - reset`, where `reset` is 1 when it came from the left.
      Nothing happens when both indexes are equal. */
  method ChangeOrder(data: seq<nat>, putBeforeIdx: nat, moveIdx: nat) returns (newData: seq<nat>)
    requires putBeforeIdx != moveIdx ==> moveIdx < |data| && putBeforeIdx <= |data|
    ensures newData == Relocated(data, putBeforeIdx, moveIdx)
    ensures putBeforeIdx == moveIdx ==> newData == data
  {
    newData := data;
    if putBeforeIdx != moveIdx {
      var moveItem := data[moveIdx];
      newData := RemoveElem(newData, moveIdx);
      var resetIndex := if moveIdx < putBeforeIdx then 1 else 0;
      var at := Max(putBeforeIdx, resetIndex) - resetIndex;
      assert at == Landing(putBeforeIdx, moveIdx);
      ReinsertIsRelocated(data, putBeforeIdx, moveIdx);
      newData := newData[..at] + [moveItem] + newData[at..];
    }
  }

  /** Putting the removed element back at its landing place gives `Relocated`. */
  lemma ReinsertIsRelocated(data: seq<nat>, putBeforeIdx: nat, moveIdx: nat)
    requires putBeforeIdx != moveIdx && moveIdx < |data| && putBeforeIdx <= |data|
    ensures var removed := RemoveElem(data, moveIdx);
      var at := Landing(putBeforeIdx, moveIdx);
      at <= |removed| && removed[..at] + [data[moveIdx]] + removed[at..] == Relocated(data, putBeforeIdx, moveIdx)
  {
    var removed := data[..moveIdx] + data[moveIdx + 1..];
    assert RemoveElem(data, moveIdx) == removed;
    var at := Landing(putBeforeIdx, moveIdx);
    if moveIdx < putBeforeIdx {
      assert removed[..at] == data[..moveIdx] + data[moveIdx + 1..putBeforeIdx];
      assert removed[at..] == data[putBeforeIdx..];
    } else {
      assert removed[..at] == data[..putBeforeIdx];
      assert removed[at..] == data[putBeforeIdx..moveIdx] + data[moveIdx + 1..];
    }
  }

  /** `is_in`: a scan that stops at the first occurrence. */
  method IsIn(value: nat, elements: seq<nat>) returns (found: bool)
    ensures found <==> value in elements
  {
    for k := 0 to |elements|
      invariant value !in elements[..k]
    {
      if value == elements[k] {
        return true;
      }
    }
    return false;
  }

  /** The order `argsort` puts indexes in: larger value first, equal values by index. */
  predicate Precedes(data: seq<real>, i: nat, j: nat)
    requires i < |data| && j < |data|
  {
    data[i] > data[j] || (data[i] == data[j] && i < j)
  }

  predicate IndexesOf(data: seq<real>, s: seq<nat>) {
    forall k :: 0 <= k < |s| ==> s[k] < |data|
  }

  predicate SortedDescending(data: seq<real>, s: seq<nat>)
    requires IndexesOf(data, s)
  {
    forall a, b :: 0 <= a < b < |s| ==> Precedes(data, s[a], s[b])
  }

  /** The comparator handed to `sort_by` orders `i` before `j` (Less, or Equal with the
      stable sort keeping index order) exactly when `Precedes` holds. */
  lemma ComparatorAgreesWithPrecedes(data: seq<real>, i: nat, j: nat)
    requires i < |data| && j < |data| && i != j
    ensures Precedes(data, i, j) <==>
              var c := ReverseOrdering(Compare(data[i], data[j]));
              c == Less || (c == Equal && i < j)
  {
  }

  /** Inserts index `i` after every index whose value is at least `data[i]`. */
  function InsertByKey(data: seq<real>, s: seq<nat>, i: nat): (r: seq<nat>)
    requires i < |data| && IndexesOf(data, s)
    ensures |r| == |s| + 1 && IndexesOf(data, r)
    ensures multiset(r) == multiset(s) + multiset{i}
  {
    if s == [] then [i]
    else if data[s[0]] < data[i] then [i] + s
    else
      assert s == [s[0]] + s[1..];
      [s[0]] + InsertByKey(data, s[1..], i)
  }

  lemma {:induction false} InsertByKeySorted(data: seq<real>, s: seq<nat>, i: nat)
    requires i < |data| && IndexesOf(data, s) && SortedDescending(data, s)
    requires forall k :: 0 <= k < |s| ==> s[k] < i
    ensures SortedDescending(data, InsertByKey(data, s, i))
  {
    var r := InsertByKey(data, s, i);
    if s == [] {
    } else if data[s[0]] < data[i] {
      forall a, b | 0 <= a < b < |r| ensures Precedes(data, r[a], r[b]) {
        if a > 0 {
          assert r[a] == s[a - 1] && r[b] == s[b - 1];
        } else {
          assert r[b] == s[b - 1];
          assert b - 1 == 0 || Precedes(data, s[0], s[b - 1]);
        }
      }
    } else {
      var tail := InsertByKey(data, s[1..], i);
      InsertByKeySorted(data, s[1..], i);
      forall a, b | 0 <= a < b < |r| ensures Precedes(data, r[a], r[b]) {
        if a > 0 {
          assert r[a] == tail[a - 1] && r[b] == tail[b - 1];
        } else {
          var x := tail[b - 1];
          assert x in multiset(tail);
          assert x == i || x in multiset(s[1..]);
          if x != i {
            var c :| 0 <= c < |s[1..]| && s[1..][c] == x;
            assert Precedes(data, s[0], s[c + 1]);
          }
        }
      }
    }
  }

  /** Stable descending order of the indexes 0..k-1, built by inserting them in turn. */
  function ArgSortPrefix(data: seq<real>, k: nat): (r: seq<nat>)
    requires k <= |data|
    ensures |r| == k && IndexesOf(data, r)
    ensures multiset(r) == multiset(Range(0, k))
    ensures forall m :: 0 <= m < |r| ==> r[m] < k
  {
    if k == 0 then []
    else
      var s := ArgSortPrefix(data, k - 1);
      InsertNewest(data, s, k);
      InsertByKey(data, s, k - 1)
  }

  /** Inserting index `k - 1` into an arrangement of 0..k-2 gives an arrangement of 0..k-1. */
  lemma InsertNewest(data: seq<real>, s: seq<nat>, k: nat)
    requires 1 <= k <= |data| && IndexesOf(data, s)
    requires multiset(s) == multiset(Range(0, k - 1))
    requires forall m :: 0 <= m < |s| ==> s[m] < k - 1
    ensures var r := InsertByKey(data, s, k - 1);
      multiset(r) == multiset(Range(0, k)) && forall m :: 0 <= m < |r| ==> r[m] < k
  {
    var r := InsertByKey(data, s, k - 1);
    assert multiset(r) == multiset(Range(0, k)) by {
      assert Range(0, k) == Range(0, k - 1) + [k - 1];
    }
    forall m | 0 <= m < |r| ensures r[m] < k {
      var v := r[m];
      assert v in multiset(r);
      if v != k - 1 {
        assert v in multiset(s);
        var j :| 0 <= j < |s| && s[j] == v;
      }
    }
  }

  lemma {:induction false} ArgSortPrefixSorted(data: seq<real>, k: nat)
    requires k <= |data|
    ensures SortedDescending(data, ArgSortPrefix(data, k))
  {
    if k > 0 {
      ArgSortPrefixSorted(data, k - 1);
      InsertByKeySorted(data, ArgSortPrefix(data, k - 1), k - 1);
    }
  }

  /** `argsort`: the indexes of `data` ordered by non-increasing value, ties in index order. */
  function ArgSort(data: seq<real>): (r: seq<nat>)
    ensures |r| == |data| && IndexesOf(data, r)
    ensures IsTour(r, |data|)
    ensures SortedDescending(data, r)
  {
    ArgSortPrefixSorted(data, |data|);
    ArgSortPrefix(data, |data|)
  }

  /** `argsort(fitnesses).iter().take(n).map(|idx| xs[idx])`. */
  function TakeFittest<T>(xs: seq<T>, fits: seq<real>, n: nat): (r: seq<T>)
    requires |fits| == |xs|
    ensures |r| == Min(n, |xs|)
  {
    var idx := ArgSort(fits);
    Pick(xs, idx[..Min(n, |xs|)])
  }

  lemma {:induction false} PickInsertByKey<T>(xs: seq<T>, data: seq<real>, s: seq<nat>, i: nat)
    requires |data| == |xs| && i < |data| && IndexesOf(data, s)
    ensures multiset(Pick(xs, InsertByKey(data, s, i))) == multiset(Pick(xs, s)) + multiset{xs[i]}
  {
    var r := InsertByKey(data, s, i);
    if s == [] {
      assert Pick(xs, r) == [xs[i]];
    } else if data[s[0]] < data[i] {
      PickCons(xs, i, s);
    } else {
      var tail := InsertByKey(data, s[1..], i);
      assert s == [s[0]] + s[1..];
      PickInsertByKey(xs, data, s[1..], i);
      PickCons(xs, s[0], tail);
      PickCons(xs, s[0], s[1..]);
    }
  }

  lemma PickCons<T>(xs: seq<T>, j: nat, s: seq<nat>)
    requires j < |xs| && forall k :: 0 <= k < |s| ==> s[k] < |xs|
    ensures Pick(xs, [j] + s) == [xs[j]] + Pick(xs, s)
  {
  }

  lemma {:induction false} PickArgSortPrefix<T>(xs: seq<T>, data: seq<real>, k: nat)
    requires |data| == |xs| && k <= |data|
    ensures multiset(Pick(xs, ArgSortPrefix(data, k))) == multiset(xs[..k])
  {
    if k > 0 {
      var s := ArgSortPrefix(data, k - 1);
      PickArgSortPrefix(xs, data, k - 1);
      assert ArgSortPrefix(data, k) == InsertByKey(data, s, k - 1);
      PickInsertByKey(xs, data, s, k - 1);
      PrefixMultiset(xs, k);
    }
  }

  /** The indexes `argsort` leaves out after the first `n`, as members of `xs`. */
  function Unchosen<T>(xs: seq<T>, fits: seq<real>, n: nat): (r: seq<T>)
    requires |fits| == |xs|
    ensures |r| == |xs| - Min(n, |xs|)
  {
    var idx := ArgSort(fits);
    Pick(xs, idx[Min(n, |xs|)..])
  }

  /** The chosen and the unchosen members together are exactly `xs`. */
  lemma TakeFittestSplit<T>(xs: seq<T>, fits: seq<real>, n: nat)
    requires |fits| == |xs|
    ensures multiset(TakeFittest(xs, fits, n)) + multiset(Unchosen(xs, fits, n)) == multiset(xs)
  {
    var idx := ArgSort(fits);
    var k := Min(n, |xs|);
    assert idx == idx[..k] + idx[k..];
    PickAppend(xs, idx[..k], idx[k..]);
    PickArgSortPrefix(xs, fits, |xs|);
    assert xs[..|xs|] == xs;
  }

  /** The chosen members come in non-increasing fitness. */
  lemma TakeFittestOrdered<T>(xs: seq<T>, fits: seq<real>, fit: T -> real, n: nat)
    requires |fits| == |xs|
    requires forall k :: 0 <= k < |xs| ==> fits[k] == fit(xs[k])
    ensures var r := TakeFittest(xs, fits, n);
      forall a, b :: 0 <= a < b < |r| ==> fit(r[a]) >= fit(r[b])
  {
    var r := TakeFittest(xs, fits, n);
    var idx := ArgSort(fits);
    forall a, b | 0 <= a < b < |r| ensures fit(r[a]) >= fit(r[b]) {
      assert Precedes(fits, idx[a], idx[b]);
    }
  }

  /** No unchosen member is fitter than a chosen one. */
  lemma UnchosenNoFitter<T>(xs: seq<T>, fits: seq<real>, fit: T -> real, n: nat)
    requires |fits| == |xs|
    requires forall k :: 0 <= k < |xs| ==> fits[k] == fit(xs[k])
    ensures var r := TakeFittest(xs, fits, n);
      forall v, a :: v in Unchosen(xs, fits, n) && 0 <= a < |r| ==> fit(v) <= fit(r[a])
  {
    var r := TakeFittest(xs, fits, n);
    var rest := Unchosen(xs, fits, n);
    var idx := ArgSort(fits);
    var k := Min(n, |xs|);
    forall v, a | v in rest && 0 <= a < |r| ensures fit(v) <= fit(r[a]) {
      var c :| 0 <= c < |rest| && rest[c] == v;
      assert Precedes(fits, idx[a], idx[k + c]);
    }
  }

  /** Selection is correct: the chosen members come in non-increasing fitness, they are
      members of `xs` (with multiplicity), every member left out is no fitter than any
      chosen one, and the first chosen member is a fittest member of `xs`. */
  lemma TakeFittestCorrect<T>(xs: seq<T>, fits: seq<real>, fit: T -> real, n: nat)
    requires |fits| == |xs|
    requires forall k :: 0 <= k < |xs| ==> fits[k] == fit(xs[k])
    ensures var r := TakeFittest(xs, fits, n);
      && (forall a, b :: 0 <= a < b < |r| ==> fit(r[a]) >= fit(r[b]))
      && multiset(r) <= multiset(xs)
      && (forall v, a :: v in multiset(xs) - multiset(r) && 0 <= a < |r| ==> fit(v) <= fit(r[a]))
      && (|r| > 0 ==> forall v :: v in xs ==> fit(v) <= fit(r[0]))
  {
    var r := TakeFittest(xs, fits, n);
    var rest := Unchosen(xs, fits, n);
    TakeFittestSplit(xs, fits, n);
    TakeFittestOrdered(xs, fits, fit, n);
    UnchosenNoFitter(xs, fits, fit, n);
    forall v, a | v in multiset(xs) - multiset(r) && 0 <= a < |r|
      ensures fit(v) <= fit(r[a])
    {
      assert v in multiset(rest);
    }
    if |r| > 0 {
      forall v | v in xs ensures fit(v) <= fit(r[0]) {
        assert v in multiset(xs);
        if v !in rest {
          assert v in multiset(r);
          var c :| 0 <= c < |r| && r[c] == v;
          assert c == 0 || fit(r[0]) >= fit(r[c]);
        }
      }
    }
  }

  /** The worked examples of the source's tests for `remove_elem`. */
  lemma RemoveElemExamples()
    ensures RemoveElem([1, 2, 3, 4], 0) == [2, 3, 4]
    ensures RemoveElem([1, 2, 3, 4], 3) == [1, 2, 3]
    ensures RemoveElem([1, 2, 3, 4], 2) == [1, 2, 4]
  {
    var s: seq<nat> := [1, 2, 3, 4];
    assert s[..0] + s[1..] == [2, 3, 4];
    assert s[..3] + s[4..] == [1, 2, 3];
    assert s[..2] + s[3..] == [1, 2, 4];
  }

  /** The worked examples of the source's tests for `change_order` that put an element
      before the first of four. */
  lemma RelocatedExamplesFront()
    ensures Relocated([1, 2, 3, 4], 0, 1) == [2, 1, 3, 4]
    ensures Relocated([1, 2, 3, 4], 0, 3) == [4, 1, 2, 3]
  {
    var s: seq<nat> := [1, 2, 3, 4];
    assert s[..0] + [s[1]] + s[0..1] + s[2..] == [2, 1, 3, 4];
    assert s[..0] + [s[3]] + s[0..3] + s[4..] == [4, 1, 2, 3];
  }

  /** The worked examples of the source's tests for `change_order` that put an element
      before the second of four. */
  lemma RelocatedExamplesSecond()
    ensures Relocated([1, 2, 3, 4], 1, 0) == [1, 2, 3, 4]
    ensures Relocated([1, 2, 3, 4], 1, 2) == [1, 3, 2, 4]
    ensures Relocated([1, 2, 3, 4], 1, 3) == [1, 4, 2, 3]
  {
    var s: seq<nat> := [1, 2, 3, 4];
    assert s[..0] + s[1..1] + [s[0]] + s[1..] == [1, 2, 3, 4];
    assert s[..1] + [s[2]] + s[1..2] + s[3..] == [1, 3, 2, 4];
    assert s[..1] + [s[3]] + s[1..3] + s[4..] == [1, 4, 2, 3];
  }

  /** The worked examples of the source's tests for `change_order` that put an element
      before the last of four. */
  lemma RelocatedExamplesLast()
    ensures Relocated([1, 2, 3, 4], 3, 0) == [2, 3, 1, 4]
    ensures Relocated([1, 2, 3, 4], 3, 3) == [1, 2, 3, 4]
  {
    var s: seq<nat> := [1, 2, 3, 4];
    assert s[..0] + s[1..3] + [s[0]] + s[3..] == [2, 3, 1, 4];
  }

  /** The worked examples of the source's tests for `change_order` on three elements. */
  lemma RelocatedExamplesThree()
    ensures Relocated([1, 2, 3], 1, 0) == [1, 2, 3]
    ensures Relocated([1, 2, 3], 0, 1) == [2, 1, 3]
    ensures Relocated([1, 2, 3], 0, 2) == [3, 1, 2]
    ensures Relocated([1, 2, 3], 2, 0) == [2, 1, 3]
    ensures Relocated([1, 2, 3], 2, 1) == [1, 2, 3]
  {
    var s: seq<nat> := [1, 2, 3];
    assert s[..0] + s[1..1] + [s[0]] + s[1..] == [1, 2, 3];
    assert s[..0] + [s[1]] + s[0..1] + s[2..] == [2, 1, 3];
    assert s[..0] + [s[2]] + s[0..2] + s[3..] == [3, 1, 2];
    assert s[..0] + s[1..2] + [s[0]] + s[2..] == [2, 1, 3];
    assert s[..1] + s[2..2] + [s[1]] + s[2..] == [1, 2, 3];
  }

  /** Two arrangements of the same indexes, both in `Precedes` order, are equal: the
      contract of `ArgSort` fixes its result. */
  lemma {:induction false} SortedArrangementUnique(data: seq<real>, r1: seq<nat>, r2: seq<nat>)
    requires IndexesOf(data, r1) && IndexesOf(data, r2) && multiset(r1) == multiset(r2)
    requires SortedDescending(data, r1) && SortedDescending(data, r2)
    ensures r1 == r2
    decreases |r1|
  {
    if r1 == [] {
      assert |multiset(r2)| == 0;
    } else {
      SortedHeadsAgree(data, r1, r2);
      SortedTail(data, r1);
      SortedTail(data, r2);
      SortedArrangementUnique(data, r1[1..], r2[1..]);
      assert r1 == [r1[0]] + r1[1..] && r2 == [r2[0]] + r2[1..];
    }
  }

  /** Dropping the first index of a sorted arrangement leaves a sorted arrangement of the
      others. */
  lemma SortedTail(data: seq<real>, r: seq<nat>)
    requires IndexesOf(data, r) && SortedDescending(data, r) && |r| > 0
    ensures IndexesOf(data, r[1..]) && SortedDescending(data, r[1..])
    ensures multiset(r[1..]) == multiset(r) - multiset{r[0]}
  {
    var t := r[1..];
    assert r == [r[0]] + t;
    forall a, b | 0 <= a < b < |t| ensures Precedes(data, t[a], t[b]) {
      assert t[a] == r[a + 1] && t[b] == r[b + 1];
    }
  }

  /** Both arrangements start with the index that precedes all others. */
  lemma SortedHeadsAgree(data: seq<real>, r1: seq<nat>, r2: seq<nat>)
    requires IndexesOf(data, r1) && IndexesOf(data, r2) && multiset(r1) == multiset(r2)
    requires SortedDescending(data, r1) && SortedDescending(data, r2)
    requires |r1| > 0
    ensures |r2| > 0 && r1[0] == r2[0]
  {
    assert r1[0] in multiset(r2);
    assert r1[0] in r2;
    var p :| 0 <= p < |r2| && r2[p] == r1[0];
    assert r2[0] in multiset(r1);
    assert r2[0] in r1;
    var q :| 0 <= q < |r1| && r1[q] == r2[0];
    assert p == 0 || q == 0 by {
      if p > 0 && q > 0 {
        assert false;
      }
    }
  }

  /** The converse of `ArgSort`'s contract: an arrangement of all the indexes of `data` in
      `Precedes` order is what `argsort` returns. */
  lemma ArgSortIs(data: seq<real>, r: seq<nat>)
    requires IndexesOf(data, r) && IsTour(r, |data|) && SortedDescending(data, r)
    ensures ArgSort(data) == r
  {
    SortedArrangementUnique(data, ArgSort(data), r);
  }

  /** The worked example of the source's four-value test for `argsort`. */
  lemma ArgSortFourExample()
    ensures ArgSort([1.0, 5.0, 3.0, 6.0]) == [3, 1, 2, 0]
  {
    ArgSortFourSorted([1.0, 5.0, 3.0, 6.0]);
    ArgSortFourTour();
    ArgSortIs([1.0, 5.0, 3.0, 6.0], [3, 1, 2, 0]);
  }

  lemma ArgSortFourSorted(d: seq<real>)
    requires d == [1.0, 5.0, 3.0, 6.0]
    ensures IndexesOf(d, [3, 1, 2, 0]) && SortedDescending(d, [3, 1, 2, 0])
  {
  }

  lemma ArgSortFourTour()
    ensures IsTour([3, 1, 2, 0], 4)
  {
    assert Range(0, 4) == [0, 1, 2, 3];
  }

  /** The worked example of the source's integer test for `argsort`, the values written
      as reals. */
  lemma ArgSortSixExample()
    ensures ArgSort([2.0, 5.0, 3.0, 4.0, 1.0, 6.0]) == [5, 1, 3, 2, 0, 4]
  {
    ArgSortSixSorted([2.0, 5.0, 3.0, 4.0, 1.0, 6.0]);
    ArgSortSixTour();
    ArgSortIs([2.0, 5.0, 3.0, 4.0, 1.0, 6.0], [5, 1, 3, 2, 0, 4]);
  }

  lemma ArgSortSixSorted(d: seq<real>)
    requires d == [2.0, 5.0, 3.0, 4.0, 1.0, 6.0]
    ensures IndexesOf(d, [5, 1, 3, 2, 0, 4]) && SortedDescending(d, [5, 1, 3, 2, 0, 4])
  {
  }

  lemma ArgSortSixTour()
    ensures IsTour([5, 1, 3, 2, 0, 4], 6)
  {
    assert Range(0, 6) == [0, 1, 2, 3, 4, 5];
  }
}
