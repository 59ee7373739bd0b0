/** src/route.rs: a `Route` is the visiting order of the nodes. It mutates by moving one
    node in front of another, crosses over with `ordered_crossover`, and its fitness is
    the negated round-trip length. */
module Route {
  import opened Sequences
  import opened Utils
  import opened Subsequences
  import opened Crossovers
  import opened DistanceMats

  datatype Route = Route(indexes: seq<nat>)

  /** `Route::new`: stores the indexes as given. */
  function New(indexes: seq<nat>): (r: Route)
    ensures r.indexes == indexes
  {
    Route(indexes)
  }

  /** The value that the second `remove_elem` takes out of the candidate list: it removes
      position `max(p, 1) - 1` of a list that no longer holds `p`, which is the value
      `p - 1`, or the value 1 when `p` is 0. */
  function SecondExcluded(putBeforeIdx: nat): nat {
    if putBeforeIdx == 0 then 1 else putBeforeIdx - 1
  }

  /** The positions the moved node may be drawn from:
      `remove_elem(remove_elem(0..len-1, p), max(p, 1) - 1)`. Both removals need
      `len >= 3`. */
  function DonorCandidates(len: nat, putBeforeIdx: nat): (r: seq<nat>)
    requires 3 <= len && putBeforeIdx < len - 1
    ensures |r| == len - 3
    ensures forall v: nat :: v in r <==>
              v < len - 1 && v != putBeforeIdx && v != SecondExcluded(putBeforeIdx)
  {
    var all := Range(0, len - 1);
    var first := RemoveElem(all, putBeforeIdx);
    var q := Max(putBeforeIdx, 1) - 1;
    assert first[q] == SecondExcluded(putBeforeIdx);
    var r := RemoveElem(first, q);
    CandidateMembers(all, first, r, putBeforeIdx, q, len);
    r
  }

  lemma CandidateMembers(all: seq<nat>, first: seq<nat>, r: seq<nat>, p: nat, q: nat, len: nat)
    requires 3 <= len && p < len - 1 && all == Range(0, len - 1)
    requires first == RemoveElem(all, p) && q < |first| && r == RemoveElem(first, q)
    requires first[q] == SecondExcluded(p)
    ensures forall v: nat :: v in r <==> v < len - 1 && v != p && v != SecondExcluded(p)
  {
    forall v: nat ensures v in r <==> v < len - 1 && v != p && v != SecondExcluded(p) {
      CandidateMember(all, first, r, p, q, len, v);
      assert v in r <==> v in multiset(r);
    }
  }

  lemma CandidateMember(all: seq<nat>, first: seq<nat>, r: seq<nat>, p: nat, q: nat, len: nat, v: nat)
    requires 3 <= len && p < len - 1 && all == Range(0, len - 1)
    requires first == RemoveElem(all, p) && q < |first| && r == RemoveElem(first, q)
    requires first[q] == SecondExcluded(p)
    ensures multiset(r)[v] > 0 <==> v < len - 1 && v != p && v != SecondExcluded(p)
  {
    var se := SecondExcluded(p);
    assert multiset(all)[v] == if v < len - 1 then 1 else 0 by {
      RangeDistinct(0, len - 1);
      DistinctCounts(all, v);
      RangeMembers(len - 1, v);
    }
    assert multiset(first)[v] == if v < len - 1 && v != p then 1 else 0 by {
      assert all[p] == p;
      RemovedCount(all, p, v);
    }
    assert multiset(r)[v] == if v < len - 1 && v != p && v != se then 1 else 0 by {
      RemovedCount(first, q, v);
    }
  }

  /** Removing the element at `i` lowers the count of that element by one and no other. */
  lemma RemovedCount(s: seq<nat>, i: nat, v: nat)
    requires i < |s|
    ensures multiset(RemoveElem(s, i))[v] + (if s[i] == v then 1 else 0) == multiset(s)[v]
  {
    assert multiset(RemoveElem(s, i)) + multiset{s[i]} == multiset(s);
  }

  /** The random choices of one `mutate` call that mutates: the draw for `put_before_idx`
      from `0..len-1` and the position `pick` in the candidate list that `choose` returns
      when the list is not empty. */
  predicate MutationDrawsOk(len: nat, putDraw: nat, pick: nat) {
    && 3 <= len
    && putDraw < len - 1
    && (len > 3 ==> pick < len - 3)
  }

  /** The node to move: the chosen candidate, or `(p + 1) % len` when `choose` finds the
      candidate list empty. It never is `p` or the node just before `p`, so the move
      always changes the order. */
  function MoveIdx(len: nat, putBeforeIdx: nat, pick: nat): (m: nat)
    requires 3 <= len && putBeforeIdx < len - 1
    requires len > 3 ==> pick < len - 3
    ensures m < len - 1 || (len == 3 && m == putBeforeIdx + 1)
    ensures m != putBeforeIdx && m + 1 != putBeforeIdx
    ensures len > 3 ==> m in DonorCandidates(len, putBeforeIdx)
    ensures len == 3 ==> m == putBeforeIdx + 1
  {
    var candidates := DonorCandidates(len, putBeforeIdx);
    if |candidates| > 0 then
      CandidateFacts(len, putBeforeIdx, pick);
      assert candidates[pick] in candidates;
      candidates[pick]
    else
      assert len == 3 && putBeforeIdx + 1 < len;
      var fallback := (putBeforeIdx + 1) % len;
      ModBelow(putBeforeIdx + 1, len);
      fallback
  }

  lemma CandidateFacts(len: nat, p: nat, pick: nat)
    requires 3 <= len && p < len - 1 && pick < len - 3
    ensures var c := DonorCandidates(len, p)[pick];
      c < len - 1 && c != p && c + 1 != p
  {
    var candidates := DonorCandidates(len, p);
    assert candidates[pick] in candidates;
  }

  lemma ModBelow(a: nat, n: nat)
    requires a < n
    ensures a % n == a
  {
  }

  /** `mutate`: when the coin says no (`mutates` false) the route is returned as is;
      otherwise one node is moved in front of another with `change_order`. The result is
      always a reordering of the route and, on a route without repeated nodes, a mutation
      always changes it. */
  function Mutate(self: Route, mutates: bool, putDraw: nat, pick: nat): (r: Route)
    requires mutates ==> MutationDrawsOk(|self.indexes|, putDraw, pick)
    ensures !mutates ==> r == self
    ensures multiset(r.indexes) == multiset(self.indexes)
    ensures mutates ==>
              exists p: nat, m: nat :: p < |self.indexes| - 1 && m < |self.indexes| && m != p && m + 1 != p
                && r.indexes == Relocated(self.indexes, p, m)
    ensures mutates && Distinct(self.indexes) ==> r != self
  {
    if !mutates then self
    else
      var len := |self.indexes|;
      var p := RandomElemFromRange(0, len - 1, putDraw);
      var m := MoveIdx(len, p, pick);
      var r := Route(Relocated(self.indexes, p, m));
      MoveChanges(self.indexes, p, m);
      r
  }

  /** Moving a node of a duplicate-free sequence anywhere but in front of itself or of its
      successor changes the sequence. */
  lemma MoveChanges(data: seq<nat>, p: nat, m: nat)
    requires m < |data| && p <= |data| && m != p && m + 1 != p
    ensures Distinct(data) ==> Relocated(data, p, m) != data
  {
    if Distinct(data) {
      var t := Landing(p, m);
      var r := Relocated(data, p, m);
      assert r[t] == data[m] && t != m;
      assert data[t] != data[m];
      assert r[t] != data[t];
    }
  }

  /** `crossover`: `ordered_crossover(self, other, random_subsequence(len))`. The
      subsequence needs `len >= 2` and must fit `other`, whose views are unwrapped. When
      both routes list the same nodes without repetition, so does the child. */
  function Crossover(self: Route, other: Route, startDraw: nat, lengthDraw: nat): (r: Route)
    requires |self.indexes| >= 2 && DrawsOk(|self.indexes|, startDraw, lengthDraw)
    requires End(RandomSubsequence(|self.indexes|, startDraw, lengthDraw)) <= |other.indexes|
    ensures exists s: Subsequence :: 1 <= s.length && End(s) < |self.indexes| && End(s) <= |other.indexes|
              && r.indexes == OrderedChild(self.indexes, other.indexes, s)
    ensures Distinct(self.indexes) && multiset(self.indexes) == multiset(other.indexes) ==>
              multiset(r.indexes) == multiset(self.indexes) && Distinct(r.indexes)
  {
    var s := RandomSubsequence(|self.indexes|, startDraw, lengthDraw);
    ChildOfPermutations(self.indexes, other.indexes, s);
    Route(OrderedChild(self.indexes, other.indexes, s))
  }

  lemma ChildOfPermutations(a: seq<nat>, b: seq<nat>, s: Subsequence)
    requires End(s) <= |a| && End(s) <= |b|
    ensures Distinct(a) && multiset(a) == multiset(b) ==>
              multiset(OrderedChild(a, b, s)) == multiset(a) && Distinct(OrderedChild(a, b, s))
  {
    if Distinct(a) && multiset(a) == multiset(b) {
      OrderedChildPermutation(a, b, s);
    }
  }

  /** `fitness`: the negated round-trip length, so a shorter route is fitter. */
  function Fitness(self: Route, distanceMat: DistanceMat): (r: real)
    requires Walkable(distanceMat, self.indexes)
    ensures r == -TourCost(distanceMat, self.indexes)
  {
    -ComputeCost(distanceMat, self.indexes)
  }

  /** The worked example of the source's test. */
  lemma FitnessExample()
    ensures Fitness(Route([1, 2, 0]), TestDistMat()) == -6.0
  {
  }
}
