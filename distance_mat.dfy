/** src/distance_mat.rs: a distance matrix and the cost of a closed walk through it. */
module DistanceMats {
  import opened Sequences

  /** Row `i`, column `j` is the distance from node `i` to node `j`; the source assumes a
      square, symmetric matrix with a zero diagonal but never checks it. */
  datatype DistanceMat = DistanceMat(distances: seq<seq<real>>)

  /** `DistanceMat::new`: stores the rows as given. */
  function New(distances: seq<seq<real>>): (r: DistanceMat)
    ensures r.distances == distances
  {
    DistanceMat(distances)
  }

  /** `n_units`: the number of rows. */
  function NUnits(m: DistanceMat): (r: nat)
    ensures r == |m.distances|
  {
    |m.distances|
  }

  /** Entry `[i][j]` exists. */
  predicate HasEdge(m: DistanceMat, i: nat, j: nat) {
    i < |m.distances| && j < |m.distances[i]|
  }

  function Distance(m: DistanceMat, i: nat, j: nat): real
    requires HasEdge(m, i, j)
  {
    m.distances[i][j]
  }

  /** Every entry that `compute_cost` reads exists: the closing edge from the last to the
      first node and each step between consecutive nodes. An empty walk has no last node
      (`len() - 1` underflows), so it is excluded too. */
  predicate Walkable(m: DistanceMat, walk: seq<nat>) {
    && |walk| > 0
    && HasEdge(m, walk[|walk| - 1], walk[0])
    && forall k :: 1 <= k < |walk| ==> HasEdge(m, walk[k - 1], walk[k])
  }

  /** Reference definition: the sum of the distances between consecutive nodes. */
  function PathCost(m: DistanceMat, walk: seq<nat>): real
    requires forall k :: 1 <= k < |walk| ==> HasEdge(m, walk[k - 1], walk[k])
  {
    if |walk| <= 1 then 0.0
    else Distance(m, walk[0], walk[1]) + PathCost(m, walk[1..])
  }

  /** Reference definition: the length of the round trip that visits `walk` in order and
      returns from its last node to its first. */
  function TourCost(m: DistanceMat, walk: seq<nat>): real
    requires Walkable(m, walk)
  {
    Distance(m, walk[|walk| - 1], walk[0]) + PathCost(m, walk)
  }

  /** The edges a walk that continues from `last` reads. */
  predicate FoldEdges(m: DistanceMat, walk: seq<nat>, last: Option<nat>) {
    && (last.Some? && |walk| > 0 ==> HasEdge(m, last.value, walk[0]))
    && forall k :: 1 <= k < |walk| ==> HasEdge(m, walk[k - 1], walk[k])
  }

  /** The source's `fold`: the state is the running loss and the previous node, and each
      node adds the distance from the previous one, if there is one. */
  function CostFold(m: DistanceMat, walk: seq<nat>, loss: real, last: Option<nat>): real
    requires FoldEdges(m, walk, last)
  {
    if walk == [] then loss
    else
      var next := if last.Some? then loss + Distance(m, last.value, walk[0]) else loss;
      CostFold(m, walk[1..], next, Some(walk[0]))
  }

  /** `compute_cost`: the fold started at the closing edge's distance and no previous
      node. It is the round-trip length. */
  function ComputeCost(m: DistanceMat, walk: seq<nat>): (r: real)
    requires Walkable(m, walk)
    ensures r == TourCost(m, walk)
  {
    CostFoldIsPath(m, walk, Distance(m, walk[|walk| - 1], walk[0]));
    CostFold(m, walk, Distance(m, walk[|walk| - 1], walk[0]), None)
  }

  /** The fold adds exactly the path cost to its starting loss, counting the step from
      the previous node when there is one. */
  lemma {:induction false} CostFoldFrom(m: DistanceMat, walk: seq<nat>, loss: real, last: nat)
    requires FoldEdges(m, walk, Some(last))
    ensures CostFold(m, walk, loss, Some(last)) == loss + PathCost(m, [last] + walk)
  {
    var full := [last] + walk;
    if walk != [] {
      assert full[1..] == walk;
      CostFoldFrom(m, walk[1..], loss + Distance(m, last, walk[0]), walk[0]);
      assert [walk[0]] + walk[1..] == walk;
    }
  }

  lemma CostFoldIsPath(m: DistanceMat, walk: seq<nat>, loss: real)
    requires |walk| > 0 && FoldEdges(m, walk, None)
    ensures CostFold(m, walk, loss, None) == loss + PathCost(m, walk)
  {
    CostFoldFrom(m, walk[1..], loss, walk[0]);
    assert [walk[0]] + walk[1..] == walk;
  }

  /** A walk of two nodes costs the way there and the way back. */
  lemma TwoNodeCost(m: DistanceMat, a: nat, b: nat)
    requires HasEdge(m, a, b) && HasEdge(m, b, a)
    ensures ComputeCost(m, [a, b]) == Distance(m, a, b) + Distance(m, b, a)
  {
    assert [a, b][1..] == [b];
    assert PathCost(m, [a, b]) == Distance(m, a, b) + PathCost(m, [b]);
  }

  /** The 3 x 3 matrix of the source's tests. */
  function TestDistMat(): DistanceMat {
    DistanceMat([[0.0, 1.0, 2.0], [1.0, 0.0, 3.0], [2.0, 3.0, 0.0]])
  }

  /** The worked examples of the source's tests, including a walk that repeats a node. */
  lemma ComputeCostExamples()
    ensures ComputeCost(TestDistMat(), [0, 0]) == 0.0
    ensures ComputeCost(TestDistMat(), [0, 1]) == 2.0
    ensures ComputeCost(TestDistMat(), [1, 2]) == 6.0
    ensures ComputeCost(TestDistMat(), [0, 2, 1]) == 6.0
    ensures ComputeCost(TestDistMat(), [0, 2, 1, 2]) == 10.0
  {
  }
}
