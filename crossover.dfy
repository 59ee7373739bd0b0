/** `ordered_crossover` of src/utils.rs: the child takes the donor's window unchanged and
    fills the rest with the receiver's values that are not in that window, in the
    receiver's order starting at the window. */
module Crossovers {
  import opened Sequences
  import opened Utils
  import opened Subsequences

  /** The values of `xs` that are not in `selection`, in order. */
  function Absent(xs: seq<nat>, selection: seq<nat>): (r: seq<nat>)
    ensures |r| <= |xs|
  {
    if xs == [] then []
    else
      var init := Absent(xs[..|xs| - 1], selection);
      var last := xs[|xs| - 1];
      assert xs == xs[..|xs| - 1] + [last];
      if last in selection then init else init + [last]
  }

  /** How often a value occurs after filtering: as often as before when it is not
      selected, never when it is. */
  lemma {:induction false} AbsentCount(xs: seq<nat>, selection: seq<nat>, v: nat)
    ensures multiset(Absent(xs, selection))[v] == if v in selection then 0 else multiset(xs)[v]
  {
    if xs != [] {
      var n := |xs| - 1;
      AbsentCount(xs[..n], selection, v);
      assert xs == xs[..n] + [xs[n]];
    }
  }

  /** A value survives the filter exactly when it occurs in the input and is not
      selected. */
  lemma AbsentMembers(xs: seq<nat>, selection: seq<nat>, v: nat)
    ensures v in Absent(xs, selection) <==> v in xs && v !in selection
  {
    AbsentCount(xs, selection, v);
    assert v in Absent(xs, selection) <==> v in multiset(Absent(xs, selection));
    assert v in xs <==> v in multiset(xs);
  }

  /** One more element of the input adds it to the output unless it is selected. */
  lemma AbsentStep(xs: seq<nat>, k: nat, selection: seq<nat>)
    requires k < |xs|
    ensures Absent(xs[..k + 1], selection)
            == Absent(xs[..k], selection) + if xs[k] in selection then [] else [xs[k]]
  {
    assert xs[..k + 1][..k] == xs[..k];
  }

  lemma {:induction false} AbsentAppend(xs: seq<nat>, ys: seq<nat>, selection: seq<nat>)
    ensures Absent(xs + ys, selection) == Absent(xs, selection) + Absent(ys, selection)
    decreases |ys|
  {
    if ys != [] {
      var n := |ys| - 1;
      assert (xs + ys)[..|xs + ys| - 1] == xs + ys[..n];
      AbsentAppend(xs, ys[..n], selection);
    } else {
      assert xs + ys == xs;
    }
  }

  /** Dropping nothing keeps everything. */
  lemma {:induction false} AbsentNothing(xs: seq<nat>)
    ensures Absent(xs, []) == xs
  {
    if xs != [] {
      AbsentNothing(xs[..|xs| - 1]);
    }
  }

  /** Dropping a superset of the values leaves nothing. */
  lemma AbsentCovered(xs: seq<nat>, selection: seq<nat>)
    requires forall v :: v in xs ==> v in selection
    ensures Absent(xs, selection) == []
  {
    var r := Absent(xs, selection);
    if r != [] {
      AbsentMembers(xs, selection, r[0]);
      assert false;
    }
  }

  /** The child `ordered_crossover` builds: B's window without A's window, then A's
      window, then what follows B's window, then what precedes it, both without A's
      window. */
  function OrderedChild(a: seq<nat>, b: seq<nat>, s: Subsequence): (r: seq<nat>)
    requires End(s) <= |a| && End(s) <= |b|
  {
    var selection := ValuesIn(s, a).value;
    Absent(ValuesIn(s, b).value, selection) + selection
      + Absent(ValuesAfter(s, b).value, selection) + Absent(ValuesBefore(s, b).value, selection)
  }

  /** Each value occurs in the child as often as in the donor (see below). */
  lemma OrderedChildCount(a: seq<nat>, b: seq<nat>, s: Subsequence, v: nat)
    requires End(s) <= |a| && End(s) <= |b|
    requires Distinct(a) && multiset(a) == multiset(b)
    ensures multiset(OrderedChild(a, b, s))[v] == multiset(a)[v]
  {
    var selection: seq<nat> := ValuesIn(s, a).value;
    var inB: seq<nat> := ValuesIn(s, b).value;
    var afterB: seq<nat> := ValuesAfter(s, b).value;
    var beforeB: seq<nat> := ValuesBefore(s, b).value;
    var beforeA: seq<nat> := ValuesBefore(s, a).value;
    var afterA: seq<nat> := ValuesAfter(s, a).value;
    ViewsPartition(s, a);
    ViewsPartition(s, b);
    var r1: seq<nat> := Absent(inB, selection);
    var r3: seq<nat> := Absent(afterB, selection);
    var r4: seq<nat> := Absent(beforeB, selection);
    assert OrderedChild(a, b, s) == r1 + selection + r3 + r4;
    assert multiset(OrderedChild(a, b, s))[v]
           == multiset(r1)[v] + multiset(selection)[v] + multiset(r3)[v] + multiset(r4)[v];
    assert multiset(b)[v] == multiset(beforeB)[v] + multiset(inB)[v] + multiset(afterB)[v];
    assert multiset(a)[v] == multiset(beforeA)[v] + multiset(selection)[v] + multiset(afterA)[v];
    AbsentCount(inB, selection, v);
    AbsentCount(afterB, selection, v);
    AbsentCount(beforeB, selection, v);
    if v in selection {
      DistinctCounts(a, v);
      assert v in multiset(selection);
    } else {
      assert multiset(selection)[v] == 0;
    }
  }

  /** The central claim of the crossover: when both parents list the same values and the
      donor has no duplicates, the child lists exactly those values again. */
  lemma OrderedChildPermutation(a: seq<nat>, b: seq<nat>, s: Subsequence)
    requires End(s) <= |a| && End(s) <= |b|
    requires Distinct(a) && multiset(a) == multiset(b)
    ensures multiset(OrderedChild(a, b, s)) == multiset(a)
    ensures Distinct(OrderedChild(a, b, s)) && |OrderedChild(a, b, s)| == |a|
  {
    var r := OrderedChild(a, b, s);
    assert multiset(r) == multiset(a) by {
      forall v ensures multiset(r)[v] == multiset(a)[v] {
        OrderedChildCount(a, b, s, v);
      }
    }
    SameMultisetDistinct(r, a);
  }

  /** The donor's window appears unchanged and contiguous in the child, right after the
      receiver's window values the donor does not have. */
  lemma OrderedChildKeepsWindow(a: seq<nat>, b: seq<nat>, s: Subsequence)
    requires End(s) <= |a| && End(s) <= |b|
    ensures var offset := |Absent(ValuesIn(s, b).value, ValuesIn(s, a).value)|;
      && offset + s.length <= |OrderedChild(a, b, s)|
      && OrderedChild(a, b, s)[offset..offset + s.length] == a[s.startIndex..End(s)]
  {
  }

  /** A window over the whole donor gives back the donor. */
  lemma OrderedChildWholeWindow(a: seq<nat>, b: seq<nat>)
    requires |a| == |b| && multiset(a) == multiset(b)
    ensures OrderedChild(a, b, Subsequence(0, |a|)) == a
  {
    var s := Subsequence(0, |a|);
    assert ValuesIn(s, a).value == a && ValuesIn(s, b).value == b;
    forall v | v in b ensures v in a {
      assert v in multiset(b);
    }
    AbsentCovered(b, a);
    assert ValuesAfter(s, b).value == [] && ValuesBefore(s, b).value == [];
  }

  /** An empty window gives the receiver rotated to start at the window. */
  lemma OrderedChildEmptyWindow(a: seq<nat>, b: seq<nat>, start: nat)
    requires start <= |a| && start <= |b|
    ensures OrderedChild(a, b, Subsequence(start, 0)) == b[start..] + b[..start]
  {
    var s := Subsequence(start, 0);
    var empty: seq<nat> := [];
    var after, before := Absent(b[start..], empty), Absent(b[..start], empty);
    assert OrderedChild(a, b, s) == Absent(empty, empty) + empty + after + before by {
      assert ValuesIn(s, a).value == empty && ValuesIn(s, b).value == empty;
      assert ValuesAfter(s, b).value == b[start..] && ValuesBefore(s, b).value == b[..start];
    }
    assert after == b[start..] by { AbsentNothing(b[start..]); }
    assert before == b[..start] by { AbsentNothing(b[..start]); }
    assert Absent(empty, empty) == empty;
  }

  /** An empty window at position 0 gives the receiver itself. */
  lemma OrderedChildEmptyWindowAtStart(a: seq<nat>, b: seq<nat>)
    ensures OrderedChild(a, b, Subsequence(0, 0)) == b
  {
    OrderedChildEmptyWindow(a, b, 0);
    assert b[0..] + b[..0] == b;
  }

  /** One of the source's filtering loops: push every element of `elems` that `is_in`
      does not find in `mappedSelection` onto `child`. */
  method PushAbsent(child: seq<nat>, elems: seq<nat>, mappedSelection: seq<nat>)
    returns (pushed: seq<nat>)
    ensures pushed == child + Absent(elems, mappedSelection)
  {
    pushed := child;
    for k := 0 to |elems|
      invariant pushed == child + Absent(elems[..k], mappedSelection)
    {
      AbsentStep(elems, k, mappedSelection);
      var found := IsIn(elems[k], mappedSelection);
      if !found {
        pushed := pushed + [elems[k]];
      }
    }
    assert elems[..|elems|] == elems;
  }

  /** `ordered_crossover(parent_a, parent_b, subsequence)`: the child is pushed together
      in four passes. The source unwraps every view, so the window must fit both
      parents. */
  method OrderedCrossover(parentA: seq<nat>, parentB: seq<nat>, subsequence: Subsequence)
    returns (child: seq<nat>)
    requires End(subsequence) <= |parentA| && End(subsequence) <= |parentB|
    ensures child == OrderedChild(parentA, parentB, subsequence)
  {
    var mappedSelection := ValuesIn(subsequence, parentA).value;
    var inB := ValuesIn(subsequence, parentB).value;
    var afterB := ValuesAfter(subsequence, parentB).value;
    var beforeB := ValuesBefore(subsequence, parentB).value;
    child := PushAbsent([], inB, mappedSelection);
    assert child == Absent(inB, mappedSelection);
    var head := child;
    for k := 0 to |mappedSelection|
      invariant child == head + mappedSelection[..k]
    {
      assert mappedSelection[..k + 1] == mappedSelection[..k] + [mappedSelection[k]];
      child := child + [mappedSelection[k]];
    }
    assert mappedSelection[..|mappedSelection|] == mappedSelection;
    child := PushAbsent(child, afterB, mappedSelection);
    child := PushAbsent(child, beforeB, mappedSelection);
  }

  /** The source's `simple_test` for `ordered_crossover`: a window of two. */
  lemma ChildSimpleExample()
    ensures OrderedChild([3, 2, 0, 1], [1, 2, 3, 0], Subsequence(1, 2)) == [3, 2, 0, 1]
  {
    ChildSimpleViews();
    ChildSimpleFiltered();
    assert [3] + [2, 0] + [] + [1] == [3, 2, 0, 1];
  }

  /** The child of `ChildSimpleExample` in terms of the three filtered views of B. */
  lemma ChildSimpleViews()
    ensures OrderedChild([3, 2, 0, 1], [1, 2, 3, 0], Subsequence(1, 2))
      == Absent([2, 3], [2, 0]) + [2, 0] + Absent([0], [2, 0]) + Absent([1], [2, 0])
  {
    var a: seq<nat> := [3, 2, 0, 1];
    var b: seq<nat> := [1, 2, 3, 0];
    assert a[1..3] == [2, 0];
    assert b[1..3] == [2, 3];
    assert b[3..] == [0];
    assert b[..1] == [1];
  }

  /** The three filtered views of B in `ChildSimpleExample`. */
  lemma ChildSimpleFiltered()
    ensures Absent([2, 3], [2, 0]) == [3]
    ensures Absent([0], [2, 0]) == []
    ensures Absent([1], [2, 0]) == [1]
  {
  }

  /** The source's `only_a` test: a window over all of A gives A. */
  lemma ChildOnlyAExample()
    ensures OrderedChild([3, 2, 0, 1], [1, 2, 3, 0], Subsequence(0, 4)) == [3, 2, 0, 1]
  {
    ChildOnlyAViews();
    ChildOnlyAFiltered();
    assert [] + [3, 2, 0, 1] + [] + [] == [3, 2, 0, 1];
  }

  /** The child of `ChildOnlyAExample` in terms of the three filtered views of B. */
  lemma ChildOnlyAViews()
    ensures OrderedChild([3, 2, 0, 1], [1, 2, 3, 0], Subsequence(0, 4))
      == Absent([1, 2, 3, 0], [3, 2, 0, 1]) + [3, 2, 0, 1] + Absent([], [3, 2, 0, 1]) + Absent([], [3, 2, 0, 1])
  {
    var a: seq<nat> := [3, 2, 0, 1];
    var b: seq<nat> := [1, 2, 3, 0];
    assert a[0..4] == [3, 2, 0, 1];
    assert b[0..4] == [1, 2, 3, 0];
    assert b[4..] == [];
    assert b[..0] == [];
  }

  /** The three filtered views of B in `ChildOnlyAExample`. */
  lemma ChildOnlyAFiltered()
    ensures Absent([1, 2, 3, 0], [3, 2, 0, 1]) == []
    ensures Absent([], [3, 2, 0, 1]) == []
    ensures Absent([], [3, 2, 0, 1]) == []
  {
    ChildOnlyAFilteredIn();
  }

  /** One long filtered view of B in `ChildOnlyAExample`, a few values at a time. */
  lemma ChildOnlyAFilteredIn()
    ensures Absent([1, 2, 3, 0], [3, 2, 0, 1]) == []
  {
    AbsentAppend([1, 2, 3], [0], [3, 2, 0, 1]);
    assert [1, 2, 3] + [0] == [1, 2, 3, 0];
    assert Absent([1, 2, 3], [3, 2, 0, 1]) == [];
    assert Absent([0], [3, 2, 0, 1]) == [];
  }

  /** The source's `only_b` test: an empty window gives B. */
  lemma ChildOnlyBExample()
    ensures OrderedChild([3, 2, 0, 1], [1, 2, 3, 0], Subsequence(0, 0)) == [1, 2, 3, 0]
  {
    ChildOnlyBViews();
    ChildOnlyBFiltered();
    assert [] + [] + [1, 2, 3, 0] + [] == [1, 2, 3, 0];
  }

  /** The child of `ChildOnlyBExample` in terms of the three filtered views of B. */
  lemma ChildOnlyBViews()
    ensures OrderedChild([3, 2, 0, 1], [1, 2, 3, 0], Subsequence(0, 0))
      == Absent([], []) + [] + Absent([1, 2, 3, 0], []) + Absent([], [])
  {
    var a: seq<nat> := [3, 2, 0, 1];
    var b: seq<nat> := [1, 2, 3, 0];
    assert a[0..0] == [];
    assert b[0..0] == [];
    assert b[0..] == [1, 2, 3, 0];
    assert b[..0] == [];
  }

  /** The three filtered views of B in `ChildOnlyBExample`. */
  lemma ChildOnlyBFiltered()
    ensures Absent([], []) == []
    ensures Absent([1, 2, 3, 0], []) == [1, 2, 3, 0]
    ensures Absent([], []) == []
  {
    ChildOnlyBFilteredAfter();
  }

  /** One long filtered view of B in `ChildOnlyBExample`, a few values at a time. */
  lemma ChildOnlyBFilteredAfter()
    ensures Absent([1, 2, 3, 0], []) == [1, 2, 3, 0]
  {
    AbsentAppend([1, 2, 3], [0], []);
    assert [1, 2, 3] + [0] == [1, 2, 3, 0];
    assert Absent([1, 2, 3], []) == [1, 2, 3];
    assert Absent([0], []) == [0];
  }

  /** The source's `test_from_paper`: the parents are not arrangements of the same values, and the child holds every value of either parent once. */
  lemma ChildPaperExample()
    ensures OrderedChild([9, 8, 4, 5, 6, 7, 1, 3, 2], [8, 7, 1, 2, 3, 0, 9, 5, 4], Subsequence(3, 3)) == [2, 3, 0, 5, 6, 7, 9, 4, 8, 1]
  {
    ChildPaperViews();
    ChildPaperFiltered();
    assert [2, 3, 0] + [5, 6, 7] + [9, 4] + [8, 1] == [2, 3, 0, 5, 6, 7, 9, 4, 8, 1];
  }

  /** The child of `ChildPaperExample` in terms of the three filtered views of B. */
  lemma ChildPaperViews()
    ensures OrderedChild([9, 8, 4, 5, 6, 7, 1, 3, 2], [8, 7, 1, 2, 3, 0, 9, 5, 4], Subsequence(3, 3))
      == Absent([2, 3, 0], [5, 6, 7]) + [5, 6, 7] + Absent([9, 5, 4], [5, 6, 7]) + Absent([8, 7, 1], [5, 6, 7])
  {
    var a: seq<nat> := [9, 8, 4, 5, 6, 7, 1, 3, 2];
    var b: seq<nat> := [8, 7, 1, 2, 3, 0, 9, 5, 4];
    assert a[3..6] == [5, 6, 7];
    assert b[3..6] == [2, 3, 0];
    assert b[6..] == [9, 5, 4];
    assert b[..3] == [8, 7, 1];
  }

  /** The three filtered views of B in `ChildPaperExample`. */
  lemma ChildPaperFiltered()
    ensures Absent([2, 3, 0], [5, 6, 7]) == [2, 3, 0]
    ensures Absent([9, 5, 4], [5, 6, 7]) == [9, 4]
    ensures Absent([8, 7, 1], [5, 6, 7]) == [8, 1]
  {
  }

  /** The source's `test_from_online_example`: a window of five in parents of ten. */
  lemma ChildOnlineExample()
    ensures OrderedChild([8, 4, 7, 3, 6, 2, 5, 1, 9, 0], [0, 1, 2, 3, 4, 5, 6, 7, 8, 9], Subsequence(3, 5)) == [4, 7, 3, 6, 2, 5, 1, 8, 9, 0]
  {
    ChildOnlineViews();
    ChildOnlineFiltered();
    assert [4, 7] + [3, 6, 2, 5, 1] + [8, 9] + [0] == [4, 7, 3, 6, 2, 5, 1, 8, 9, 0];
  }

  /** The child of `ChildOnlineExample` in terms of the three filtered views of B. */
  lemma ChildOnlineViews()
    ensures OrderedChild([8, 4, 7, 3, 6, 2, 5, 1, 9, 0], [0, 1, 2, 3, 4, 5, 6, 7, 8, 9], Subsequence(3, 5))
      == Absent([3, 4, 5, 6, 7], [3, 6, 2, 5, 1]) + [3, 6, 2, 5, 1] + Absent([8, 9], [3, 6, 2, 5, 1]) + Absent([0, 1, 2], [3, 6, 2, 5, 1])
  {
    var a: seq<nat> := [8, 4, 7, 3, 6, 2, 5, 1, 9, 0];
    var b: seq<nat> := [0, 1, 2, 3, 4, 5, 6, 7, 8, 9];
    assert a[3..8] == [3, 6, 2, 5, 1];
    assert b[3..8] == [3, 4, 5, 6, 7];
    assert b[8..] == [8, 9];
    assert b[..3] == [0, 1, 2];
  }

  /** The three filtered views of B in `ChildOnlineExample`. */
  lemma ChildOnlineFiltered()
    ensures Absent([3, 4, 5, 6, 7], [3, 6, 2, 5, 1]) == [4, 7]
    ensures Absent([8, 9], [3, 6, 2, 5, 1]) == [8, 9]
    ensures Absent([0, 1, 2], [3, 6, 2, 5, 1]) == [0]
  {
    ChildOnlineFilteredIn();
  }

  /** One long filtered view of B in `ChildOnlineExample`, a few values at a time. */
  lemma ChildOnlineFilteredIn()
    ensures Absent([3, 4, 5, 6, 7], [3, 6, 2, 5, 1]) == [4, 7]
  {
    AbsentAppend([3, 4, 5], [6, 7], [3, 6, 2, 5, 1]);
    assert [3, 4, 5] + [6, 7] == [3, 4, 5, 6, 7];
    assert Absent([3, 4, 5], [3, 6, 2, 5, 1]) == [4];
    assert Absent([6, 7], [3, 6, 2, 5, 1]) == [7];
  }
}
