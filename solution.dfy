/** src/solution.rs: a `Solution` is the individual the populations evolve. Its `mutate`
    and `crossover` are the same code as `Route`'s; its fitness is the round-trip length
    itself rather than its negation. */
module Solution {
  import opened Sequences
  import opened Utils
  import opened Subsequences
  import opened Crossovers
  import opened DistanceMats
  import Route

  datatype Solution = Solution(indexes: seq<nat>)

  /** `Solution::new`: stores the indexes as given. */
  function New(indexes: seq<nat>): (r: Solution)
    ensures r.indexes == indexes
  {
    Solution(indexes)
  }

  /** `mutate`: the same steps as `Route`'s. */
  function Mutate(self: Solution, mutates: bool, putDraw: nat, pick: nat): (r: Solution)
    requires mutates ==> Route.MutationDrawsOk(|self.indexes|, putDraw, pick)
    ensures !mutates ==> r == self
    ensures multiset(r.indexes) == multiset(self.indexes)
    ensures mutates ==>
              exists p: nat, m: nat :: p < |self.indexes| - 1 && m < |self.indexes| && m != p && m + 1 != p
                && r.indexes == Relocated(self.indexes, p, m)
    ensures mutates && Distinct(self.indexes) ==> r != self
  {
    Solution(Route.Mutate(Route.Route(self.indexes), mutates, putDraw, pick).indexes)
  }

  /** `crossover`: the same steps as `Route`'s. */
  function Crossover(self: Solution, other: Solution, startDraw: nat, lengthDraw: nat): (r: Solution)
    requires |self.indexes| >= 2 && DrawsOk(|self.indexes|, startDraw, lengthDraw)
    requires End(RandomSubsequence(|self.indexes|, startDraw, lengthDraw)) <= |other.indexes|
    ensures exists s: Subsequence :: 1 <= s.length && End(s) < |self.indexes| && End(s) <= |other.indexes|
              && r.indexes == OrderedChild(self.indexes, other.indexes, s)
    ensures Distinct(self.indexes) && multiset(self.indexes) == multiset(other.indexes) ==>
              multiset(r.indexes) == multiset(self.indexes) && Distinct(r.indexes)
  {
    Solution(Route.Crossover(Route.Route(self.indexes), Route.Route(other.indexes), startDraw, lengthDraw).indexes)
  }

  /** `fitness`: the round-trip length, not negated. */
  function Fitness(self: Solution, distanceMat: DistanceMat): (r: real)
    requires Walkable(distanceMat, self.indexes)
    ensures r == TourCost(distanceMat, self.indexes)
  {
    ComputeCost(distanceMat, self.indexes)
  }

  /** The random choices behind one `crossover(..).mutate(0.5)` of an evolution step. */
  datatype Draw = Draw(startDraw: nat, lengthDraw: nat, mutates: bool, putDraw: nat, pick: nat)

  /** The draws are in the ranges the source samples for parents that visit `n` nodes. */
  predicate DrawOk(n: nat, d: Draw) {
    && n >= 2
    && DrawsOk(n, d.startDraw, d.lengthDraw)
    && (d.mutates ==> Route.MutationDrawsOk(n, d.putDraw, d.pick))
  }

  /** One child of an evolution step: `main.crossover(other).mutate(..)`. Parents that
      each visit the nodes 0..n-1 once give a child that does too. */
  function Offspring(main: Solution, other: Solution, d: Draw, n: nat): (r: Solution)
    requires IsTour(main.indexes, n) && IsTour(other.indexes, n) && DrawOk(n, d)
    ensures IsTour(r.indexes, n)
  {
    TourFacts(main.indexes, n);
    TourFacts(other.indexes, n);
    var child := Crossover(main, other, d.startDraw, d.lengthDraw);
    Mutate(child, d.mutates, d.putDraw, d.pick)
  }

  /** The two individuals rate the same visiting order with opposite signs. */
  lemma FitnessIsNegatedRouteFitness(indexes: seq<nat>, distanceMat: DistanceMat)
    requires Walkable(distanceMat, indexes)
    ensures Fitness(Solution(indexes), distanceMat) == -Route.Fitness(Route.Route(indexes), distanceMat)
  {
  }

  /** The worked example of the source's test. */
  lemma FitnessExample()
    ensures Fitness(Solution([1, 2, 0]), TestDistMat()) == 6.0
  {
  }

  /** The selection key both populations' `evolve_population` hand to
      `get_fittest_population` as written: `Solution::fitness`, the length of the closed tour. Solutions the matrix cannot walk
      have no length; they rate 0 here. */
  function CostFitness(m: DistanceMat): Solution -> real {
    (s: Solution) => if Walkable(m, s.indexes) then Fitness(s, m) else 0.0
  }

  /** The selection key the algorithm intends: the shorter the closed tour, the fitter
      (the sign `Route::fitness` uses). */
  function ShortnessFitness(m: DistanceMat): Solution -> real {
    (s: Solution) => if Walkable(m, s.indexes) then -Fitness(s, m) else 0.0
  }

  /** The matrix has an entry for every ordered pair of the nodes `0..n-1`. */
  predicate Covers(m: DistanceMat, n: nat) {
    forall i, j :: 0 <= i < n && 0 <= j < n ==> HasEdge(m, i, j)
  }

  /** On a matrix that covers the nodes, every tour can be walked, so both selection keys
      rate it by its closed-tour length and the 0 of an unwalkable solution never occurs. */
  lemma CoveredToursRated(m: DistanceMat, n: nat, s: Solution)
    requires n >= 1 && Covers(m, n) && IsTour(s.indexes, n)
    ensures Walkable(m, s.indexes)
    ensures CostFitness(m)(s) == Fitness(s, m)
    ensures ShortnessFitness(m)(s) == -Fitness(s, m)
  {
    TourFacts(s.indexes, n);
  }

  /** The closed-tour lengths of the three solutions of the selection tests on the test matrix. */
  lemma TestTourLengths()
    ensures Fitness(Solution([1, 2, 0]), TestDistMat()) == 6.0
    ensures Fitness(Solution([1, 0]), TestDistMat()) == 2.0
    ensures Fitness(Solution([2, 0]), TestDistMat()) == 4.0
  {
    FitnessExample();
  }
}
