/** src/population.rs: a `Population` is an ordered list of solutions, duplicates
    allowed. It is evolved by crossing every member with every other one and is cut back
    to its fittest members. */
module Population {
  import opened Sequences
  import opened Utils
  import opened DistanceMats
  import opened Solution

  datatype Population = Population(solutions: seq<Solution>)

  /** `Population::from`: keeps the vector as it is, order and duplicates included. */
  function From(solutions: seq<Solution>): (r: Population)
    ensures r.solutions == solutions
  {
    Population(solutions)
  }

  /** `Population::random(n_individuals, n_objects)`, with the shuffled copies of
      `0..n_objects` supplied: one solution per shuffle. */
  function Random(nIndividuals: nat, nObjects: nat, shuffles: seq<seq<nat>>): (r: Population)
    requires |shuffles| == nIndividuals
    requires forall k :: 0 <= k < |shuffles| ==> IsTour(shuffles[k], nObjects)
    ensures |r.solutions| == nIndividuals
    ensures forall k :: 0 <= k < |r.solutions| ==> IsTour(r.solutions[k].indexes, nObjects)
  {
    Population(seq(nIndividuals, k requires 0 <= k < nIndividuals => Solution(shuffles[k])))
  }

  /** `fitnesses`: the fitness of each solution, in the population's order. */
  function Fitnesses(pop: Population, fit: Solution -> real): (r: seq<real>)
    ensures |r| == |pop.solutions|
    ensures forall k :: 0 <= k < |r| ==> r[k] == fit(pop.solutions[k])
  {
    seq(|pop.solutions|, k requires 0 <= k < |pop.solutions| => fit(pop.solutions[k]))
  }

  /** `get_n_fittest`: the first `n` solutions in `argsort` order of their fitness. There
      are `min(n, m)` of them, in non-increasing fitness, taken from the population, and
      none left out is fitter than any taken. */
  function GetNFittest(pop: Population, n: nat, fit: Solution -> real): (r: seq<Solution>)
    ensures |r| == Min(n, |pop.solutions|)
    ensures forall a, b :: 0 <= a < b < |r| ==> fit(r[a]) >= fit(r[b])
    ensures multiset(r) <= multiset(pop.solutions)
    ensures forall v, a :: v in multiset(pop.solutions) - multiset(r) && 0 <= a < |r| ==> fit(v) <= fit(r[a])
    ensures |r| > 0 ==> forall v :: v in pop.solutions ==> fit(v) <= fit(r[0])
  {
    TakeFittestCorrect(pop.solutions, Fitnesses(pop, fit), fit, n);
    TakeFittest(pop.solutions, Fitnesses(pop, fit), n)
  }

  /** `get_fittest_population`: exactly the solutions `get_n_fittest` picks. */
  function GetFittestPopulation(pop: Population, n: nat, fit: Solution -> real): (r: Population)
    ensures r.solutions == GetNFittest(pop, n, fit)
    ensures |r.solutions| <= n
  {
    Population(GetNFittest(pop, n, fit))
  }

  /** The `k`-th index other than `i`. */
  function Skip(i: nat, k: nat): (j: nat)
    ensures j != i && (j == k || j == k + 1)
  {
    if k < i then k else k + 1
  }

  predicate AllTours(solutions: seq<Solution>, n: nat) {
    forall k :: 0 <= k < |solutions| ==> IsTour(solutions[k].indexes, n)
  }

  /** The children of member `i`: one offspring with every other member, in order. */
  function ChildrenOf(pop: Population, i: nat, n: nat, draws: (nat, nat) -> Draw): (r: seq<Solution>)
    requires i < |pop.solutions| && AllTours(pop.solutions, n)
    requires forall a, b :: DrawOk(n, draws(a, b))
    ensures |r| == |pop.solutions| - 1
    ensures forall k :: 0 <= k < |r| ==>
              r[k] == Offspring(pop.solutions[i], pop.solutions[Skip(i, k)], draws(i, Skip(i, k)), n)
  {
    var m := |pop.solutions|;
    seq(m - 1, k requires 0 <= k < m - 1 => ChildOfPair(pop, i, Skip(i, k), n, draws))
  }

  /** The offspring of member `i` crossed with member `j`. */
  function ChildOfPair(pop: Population, i: nat, j: nat, n: nat, draws: (nat, nat) -> Draw): (c: Solution)
    requires i < |pop.solutions| && j < |pop.solutions| && AllTours(pop.solutions, n)
    requires DrawOk(n, draws(i, j))
    ensures c == Offspring(pop.solutions[i], pop.solutions[j], draws(i, j), n)
    ensures IsTour(c.indexes, n)
  {
    Offspring(pop.solutions[i], pop.solutions[j], draws(i, j), n)
  }

  /** `evolve`: for every ordered pair of distinct positions `(i, j)`, the offspring of
      member `i` crossed with member `j`, then mutated; the parents themselves are not
      kept. `draws(i, j)` are that child's random choices. */
  function Evolve(pop: Population, n: nat, draws: (nat, nat) -> Draw): (r: Population)
    requires AllTours(pop.solutions, n)
    requires forall a, b :: DrawOk(n, draws(a, b))
    ensures |r.solutions| == |pop.solutions| * (|pop.solutions| - 1)
    ensures AllTours(r.solutions, n)
    ensures forall c :: c in r.solutions ==> IsChild(pop, n, draws, c)
    ensures forall i: nat, k: nat :: i < |pop.solutions| && k < |pop.solutions| - 1 ==>
              ChildAt(r.solutions, pop, n, draws, i, k)
    ensures forall i, j :: 0 <= i < |pop.solutions| && 0 <= j < |pop.solutions| && i != j ==>
              ChildOfPair(pop, i, j, n, draws) in r.solutions
  {
    var m := |pop.solutions|;
    if m == 0 then Population([])
    else
      var families := seq(m, i requires 0 <= i < m => ChildrenOf(pop, i, n, draws));
      FlattenLength(families, m - 1);
      EvolveMembers(pop, n, draws, families);
      EvolveOrder(pop, n, draws, families);
      EvolvePairs(pop, n, draws, families);
      Population(Flatten(families))
  }

  /** Position `i * (m - 1) + k` of `children` holds member `i` crossed with the `k`-th
      other member, where `m` is the size of the population. */
  ghost predicate ChildAt(children: seq<Solution>, pop: Population, n: nat, draws: (nat, nat) -> Draw,
                          i: nat, k: nat)
    requires AllTours(pop.solutions, n)
    requires forall a, b :: DrawOk(n, draws(a, b))
    requires i < |pop.solutions| && k < |pop.solutions| - 1
  {
    var m := |pop.solutions|;
    i * (m - 1) + k < |children| && children[i * (m - 1) + k] == ChildrenOf(pop, i, n, draws)[k]
  }

  /** The flattened families list member 0's children first, then member 1's, and so on,
      each family in the order of the other members. */
  lemma EvolveOrder(pop: Population, n: nat, draws: (nat, nat) -> Draw, families: seq<seq<Solution>>)
    requires AllTours(pop.solutions, n)
    requires forall a, b :: DrawOk(n, draws(a, b))
    requires |families| == |pop.solutions|
    requires forall i :: 0 <= i < |families| ==> families[i] == ChildrenOf(pop, i, n, draws)
    ensures forall i: nat, k: nat :: i < |pop.solutions| && k < |pop.solutions| - 1 ==>
              ChildAt(Flatten(families), pop, n, draws, i, k)
  {
    var m := |pop.solutions|;
    if m > 0 {
      var all := Flatten(families);
      FlattenBlocks(families, m - 1);
      forall i: nat, k: nat | i < m && k < m - 1 ensures ChildAt(all, pop, n, draws, i, k) {
        ChildAtBlock(pop, n, draws, families, all, i, k);
      }
    }
  }

  lemma ChildAtBlock(pop: Population, n: nat, draws: (nat, nat) -> Draw, families: seq<seq<Solution>>,
                     all: seq<Solution>, i: nat, k: nat)
    requires AllTours(pop.solutions, n)
    requires forall a, b :: DrawOk(n, draws(a, b))
    requires |families| == |pop.solutions| && i < |pop.solutions| && k < |pop.solutions| - 1
    requires families[i] == ChildrenOf(pop, i, n, draws)
    requires BlockAt(all, families, |pop.solutions| - 1, i, k)
    ensures ChildAt(all, pop, n, draws, i, k)
  {
  }

  /** Every ordered pair of distinct members has its offspring among the flattened families. */
  lemma EvolvePairs(pop: Population, n: nat, draws: (nat, nat) -> Draw, families: seq<seq<Solution>>)
    requires AllTours(pop.solutions, n)
    requires forall a, b :: DrawOk(n, draws(a, b))
    requires |families| == |pop.solutions|
    requires forall i :: 0 <= i < |families| ==> families[i] == ChildrenOf(pop, i, n, draws)
    ensures forall i, j :: 0 <= i < |pop.solutions| && 0 <= j < |pop.solutions| && i != j ==>
              ChildOfPair(pop, i, j, n, draws) in Flatten(families)
  {
    var m := |pop.solutions|;
    forall i, j | 0 <= i < m && 0 <= j < m && i != j ensures ChildOfPair(pop, i, j, n, draws) in Flatten(families) {
      var k: nat := if j < i then j else j - 1;
      assert Skip(i, k) == j;
      assert families[i][k] == ChildOfPair(pop, i, j, n, draws);
      FlattenHas(families, i, k);
    }
  }

  /** Every child in the flattened families is the offspring of two distinct members. */
  lemma EvolveMembers(pop: Population, n: nat, draws: (nat, nat) -> Draw, families: seq<seq<Solution>>)
    requires AllTours(pop.solutions, n)
    requires forall a, b :: DrawOk(n, draws(a, b))
    requires |families| == |pop.solutions|
    requires forall i :: 0 <= i < |families| ==> families[i] == ChildrenOf(pop, i, n, draws)
    ensures AllTours(Flatten(families), n)
    ensures forall c :: c in Flatten(families) ==> IsChild(pop, n, draws, c)
  {
    var all := Flatten(families);
    forall c | c in all ensures IsChild(pop, n, draws, c) {
      var i, k := FlattenMembers(families, c);
      FamilyMember(pop, n, draws, families[i], i, k);
    }
    forall k | 0 <= k < |all| ensures IsTour(all[k].indexes, n) {
      assert all[k] in all;
      ChildIsTour(pop, n, draws, all[k]);
    }
  }

  /** `c` is the offspring of member `i` crossed with a different member `j`. */
  ghost predicate IsChild(pop: Population, n: nat, draws: (nat, nat) -> Draw, c: Solution)
    requires AllTours(pop.solutions, n)
    requires forall a, b :: DrawOk(n, draws(a, b))
  {
    exists i, j :: 0 <= i < |pop.solutions| && 0 <= j < |pop.solutions| && i != j
      && c == Offspring(pop.solutions[i], pop.solutions[j], draws(i, j), n)
  }

  lemma ChildIsTour(pop: Population, n: nat, draws: (nat, nat) -> Draw, c: Solution)
    requires AllTours(pop.solutions, n)
    requires forall a, b :: DrawOk(n, draws(a, b))
    requires IsChild(pop, n, draws, c)
    ensures IsTour(c.indexes, n)
  {
    var i, j :| 0 <= i < |pop.solutions| && 0 <= j < |pop.solutions| && i != j
      && c == Offspring(pop.solutions[i], pop.solutions[j], draws(i, j), n);
  }

  lemma FamilyMember(pop: Population, n: nat, draws: (nat, nat) -> Draw,
                     family: seq<Solution>, i: nat, k: nat)
    requires AllTours(pop.solutions, n)
    requires forall a, b :: DrawOk(n, draws(a, b))
    requires i < |pop.solutions| && family == ChildrenOf(pop, i, n, draws) && k < |family|
    ensures IsChild(pop, n, draws, family[k])
  {
    var j := Skip(i, k);
    assert family[k] == Offspring(pop.solutions[i], pop.solutions[j], draws(i, j), n);
  }

  /** `chosen` is what selecting the `size` fittest of `from` yields: `min(size, |from|)`
      members of `from` (with multiplicity), in non-increasing fitness, none left out
      fitter than any chosen. */
  ghost predicate FittestOf(from: seq<Solution>, chosen: seq<Solution>, size: nat, fit: Solution -> real) {
    && |chosen| == Min(size, |from|)
    && multiset(chosen) <= multiset(from)
    && (forall a, b :: 0 <= a < b < |chosen| ==> fit(chosen[a]) >= fit(chosen[b]))
    && (forall v, a :: v in multiset(from) - multiset(chosen) && 0 <= a < |chosen| ==> fit(v) <= fit(chosen[a]))
  }

  /** One generation of `evolve_population`: evolve, then keep the `size` fittest of the
      evolved population. */
  function Generation(pop: Population, n: nat, size: nat, fit: Solution -> real,
                      draws: (nat, nat) -> Draw): (r: Population)
    requires AllTours(pop.solutions, n)
    requires forall a, b :: DrawOk(n, draws(a, b))
    ensures AllTours(r.solutions, n) && |r.solutions| <= size
  {
    var evolved := Evolve(pop, n, draws);
    var r := GetFittestPopulation(evolved, size, fit);
    SelectionKeepsTours(evolved.solutions, r.solutions, n);
    r
  }

  /** A generation keeps the `size` fittest of the population it evolved. */
  lemma GenerationSelects(pop: Population, n: nat, size: nat, fit: Solution -> real, draws: (nat, nat) -> Draw)
    requires AllTours(pop.solutions, n)
    requires forall a, b :: DrawOk(n, draws(a, b))
    ensures FittestOf(Evolve(pop, n, draws).solutions, Generation(pop, n, size, fit, draws).solutions, size, fit)
  {
    var evolved := Evolve(pop, n, draws);
    assert Generation(pop, n, size, fit, draws).solutions == GetNFittest(evolved, size, fit);
  }

  lemma SelectionKeepsTours(from: seq<Solution>, chosen: seq<Solution>, n: nat)
    requires AllTours(from, n) && multiset(chosen) <= multiset(from)
    ensures AllTours(chosen, n)
  {
    forall k | 0 <= k < |chosen| ensures IsTour(chosen[k].indexes, n) {
      assert chosen[k] in multiset(chosen);
      assert chosen[k] in multiset(from);
      var j :| 0 <= j < |from| && from[j] == chosen[k];
    }
  }

  /** The `fold` of `evolve_population` over generations `0..nGenerations`: the last
      generation applied to the fold of the ones before it. The draws of generation `t`
      are `draws(t, .., ..)`. */
  function Generations(pop: Population, nGenerations: nat, n: nat, size: nat,
                       fit: Solution -> real, draws: (nat, nat, nat) -> Draw): (r: Population)
    requires AllTours(pop.solutions, n)
    requires forall t, a, b :: DrawOk(n, draws(t, a, b))
    ensures AllTours(r.solutions, n)
    ensures nGenerations > 0 ==> |r.solutions| <= size
    ensures nGenerations == 0 ==> r == pop
    ensures nGenerations > 0 ==>
              var before := Generations(pop, nGenerations - 1, n, size, fit, draws);
              FittestOf(Evolve(before, n, GenerationDraws(draws, nGenerations - 1)).solutions,
                        r.solutions, size, fit)
    decreases nGenerations
  {
    if nGenerations == 0 then pop
    else
      var before := Generations(pop, nGenerations - 1, n, size, fit, draws);
      GenerationDrawsOk(draws, nGenerations - 1, n);
      GenerationSelects(before, n, size, fit, GenerationDraws(draws, nGenerations - 1));
      Generation(before, n, size, fit, GenerationDraws(draws, nGenerations - 1))
  }

  /** The draws of generation `t`: the child of member `a` crossed with member `b` uses
      `draws(t, a, b)`. */
  function GenerationDraws(draws: (nat, nat, nat) -> Draw, t: nat): (nat, nat) -> Draw {
    (a: nat, b: nat) => draws(t, a, b)
  }

  lemma GenerationDrawsOk(draws: (nat, nat, nat) -> Draw, t: nat, n: nat)
    requires forall t, a, b :: DrawOk(n, draws(t, a, b))
    ensures forall a, b :: DrawOk(n, GenerationDraws(draws, t)(a, b))
  {
  }

  /** The three solutions of the selection tests, with tour lengths 6, 2 and 4. */
  function TestPopulation(): Population {
    Population([Solution([1, 2, 0]), Solution([1, 0]), Solution([2, 0])])
  }

  /** A member strictly fitter than every other is the single fittest one picked. */
  lemma UniqueFittest(pop: Population, fit: Solution -> real, c: Solution)
    requires c in pop.solutions
    requires forall v :: v in pop.solutions && v != c ==> fit(v) < fit(c)
    ensures GetNFittest(pop, 1, fit) == [c]
  {
    var r := GetNFittest(pop, 1, fit);
    assert r[0] in pop.solutions by { assert r[0] in multiset(r); }
  }

  /** As written, `argsort` puts the largest fitness first, so ranking by tour length
      keeps the LONGEST tour: the single fittest of the test population is `[1, 2, 0]`
      (length 6), not the `[1, 0]` (length 2) the selection tests expect. */
  lemma CostSelectionKeepsLongest()
    ensures GetNFittest(TestPopulation(), 1, CostFitness(TestDistMat())) == [Solution([1, 2, 0])]
  {
    TestTourLengths();
    UniqueFittest(TestPopulation(), CostFitness(TestDistMat()), Solution([1, 2, 0]));
  }

  /** Ranked by shortness, the single fittest of the test population is `[1, 0]`, the
      shortest tour, as the selection tests expect. */
  lemma ShortnessSelectionKeepsShortest()
    ensures GetNFittest(TestPopulation(), 1, ShortnessFitness(TestDistMat())) == [Solution([1, 0])]
  {
    TestTourLengths();
    UniqueFittest(TestPopulation(), ShortnessFitness(TestDistMat()), Solution([1, 0]));
  }

  /** `evolve_population`: `n_generations` generations from the initial population, each
      keeping the `size_generation` fittest by the selection key `fit`. With no generations
      it is the initial population; otherwise it is the `size_generation` fittest of the
      population the last generation evolved, each still visiting every node once. */
  function EvolvePopulation(initial: Population, nGenerations: nat, sizeGeneration: nat,
                            fit: Solution -> real, n: nat,
                            draws: (nat, nat, nat) -> Draw): (r: Population)
    requires AllTours(initial.solutions, n)
    requires forall t, a, b :: DrawOk(n, draws(t, a, b))
    ensures nGenerations == 0 ==> r == initial
    ensures nGenerations > 0 ==> |r.solutions| <= sizeGeneration
    ensures nGenerations > 0 ==>
              var last := Generations(initial, nGenerations - 1, n, sizeGeneration, fit, draws);
              FittestOf(Evolve(last, n, GenerationDraws(draws, nGenerations - 1)).solutions,
                        r.solutions, sizeGeneration, fit)
    ensures AllTours(r.solutions, n)
  {
    if nGenerations > 0 then
      var last := Generations(initial, nGenerations - 1, n, sizeGeneration, fit, draws);
      GenerationDrawsOk(draws, nGenerations - 1, n);
      GenerationSelects(last, n, sizeGeneration, fit, GenerationDraws(draws, nGenerations - 1));
      Generations(initial, nGenerations, n, sizeGeneration, fit, draws)
    else
      initial
  }
}
