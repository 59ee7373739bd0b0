/** src/routes.rs: `Routes` is a population kept as a set of solutions, so duplicates
    collapse. Its `evolve` keeps the parents next to their children, and its
    `evolve_population` can split the work over several independent workers. A `HashSet`
    is walked in an order the program does not control; here that order is a sequence that
    lists each member once (`Enumerates`), and every property holds for every such order. */
module Routes {
  import opened Sequences
  import opened Utils
  import opened DistanceMats
  import opened Solution

  datatype Routes = Routes(solutions: set<Solution>)

  /** Every member visits each node 0..n-1 exactly once. */
  predicate AllTours(solutions: set<Solution>, n: nat) {
    forall s :: s in solutions ==> IsTour(s.indexes, n)
  }

  /** `order` lists every member of `solutions` exactly once: an iteration order of the set. */
  predicate Enumerates(order: seq<Solution>, solutions: set<Solution>) {
    && Distinct(order)
    && (forall s :: s in solutions ==> s in order)
    && (forall s :: s in order ==> s in solutions)
  }

  lemma EnumerationLength(order: seq<Solution>, solutions: set<Solution>)
    requires Enumerates(order, solutions)
    ensures |order| == |solutions|
  {
    SetOfSeqCard(order);
    assert (set x | x in order) == solutions;
  }

  /** `Routes::from`: the set of the vector's solutions. Duplicates collapse, so there are
      never more members than entries, and exactly as many when the entries differ. */
  function From(solutions: seq<Solution>): (r: Routes)
    ensures forall s :: s in r.solutions <==> s in solutions
    ensures |r.solutions| <= |solutions|
    ensures Distinct(solutions) ==> |r.solutions| == |solutions|
  {
    SetOfSeqCard(solutions);
    Routes(set s | s in solutions)
  }

  /** The solutions built from the supplied shuffles. */
  function Shuffled(shuffles: seq<seq<nat>>): set<Solution> {
    set k | 0 <= k < |shuffles| :: Solution(shuffles[k])
  }

  lemma ShuffledStep(shuffles: seq<seq<nat>>, i: nat)
    requires i < |shuffles|
    ensures Shuffled(shuffles[..i + 1]) == Shuffled(shuffles[..i]) + {Solution(shuffles[i])}
  {
    var before := shuffles[..i];
    var after := shuffles[..i + 1];
    forall s | s in Shuffled(after) ensures s in Shuffled(before) + {Solution(shuffles[i])} {
      var k :| 0 <= k < |after| && s == Solution(after[k]);
      if k < i {
        assert s == Solution(before[k]);
      }
    }
    forall s | s in Shuffled(before) ensures s in Shuffled(after) {
      var k :| 0 <= k < |before| && s == Solution(before[k]);
      assert s == Solution(after[k]);
    }
    assert Solution(after[i]) in Shuffled(after);
  }

  lemma ShuffledPrefix(shuffles: seq<seq<nat>>, i: nat)
    requires i <= |shuffles|
    ensures Shuffled(shuffles[..i]) <= Shuffled(shuffles)
  {
    forall s | s in Shuffled(shuffles[..i]) ensures s in Shuffled(shuffles) {
      var k :| 0 <= k < i && s == Solution(shuffles[..i][k]);
      assert s == Solution(shuffles[k]);
    }
  }

  /** `Routes::random(n_routes, route_length)`: inserts shuffled copies of
      `0..route_length` into a set until it holds `n_routes` solutions. The shuffles are
      supplied, and among them there must be at least `n_routes` different ones. */
  method Random(nRoutes: nat, routeLength: nat, shuffles: seq<seq<nat>>) returns (r: Routes)
    requires forall k :: 0 <= k < |shuffles| ==> IsTour(shuffles[k], routeLength)
    requires nRoutes <= |Shuffled(shuffles)|
    ensures |r.solutions| == nRoutes
    ensures AllTours(r.solutions, routeLength)
    ensures r.solutions <= Shuffled(shuffles)
  {
    var solutions: set<Solution> := {};
    var i := 0;
    assert shuffles[..0] == [];
    assert shuffles[..|shuffles|] == shuffles;
    while |solutions| < nRoutes
      invariant i <= |shuffles|
      invariant solutions == Shuffled(shuffles[..i])
      invariant |solutions| <= nRoutes
      decreases |shuffles| - i
    {
      ShuffledStep(shuffles, i);
      solutions := solutions + {Solution(shuffles[i])};
      i := i + 1;
    }
    ShuffledPrefix(shuffles, i);
    r := Routes(solutions);
    forall s | s in r.solutions ensures IsTour(s.indexes, routeLength) {
      var k :| 0 <= k < |shuffles| && s == Solution(shuffles[k]);
    }
  }

  /** `fitnesses`: one `(fitness, solution)` pair per member, in iteration order. */
  function Fitnesses(routes: Routes, order: seq<Solution>, fit: Solution -> real): (r: seq<(real, Solution)>)
    requires Enumerates(order, routes.solutions)
    ensures |r| == |routes.solutions|
    ensures forall s :: s in routes.solutions <==> (fit(s), s) in r
    ensures forall k :: 0 <= k < |r| ==> r[k].0 == fit(r[k].1)
    ensures forall a, b :: 0 <= a < b < |r| ==> r[a].1 != r[b].1
  {
    EnumerationLength(order, routes.solutions);
    var r := seq(|order|, k requires 0 <= k < |order| => (fit(order[k]), order[k]));
    forall s | s in routes.solutions ensures (fit(s), s) in r {
      var k :| 0 <= k < |order| && order[k] == s;
      assert r[k] == (fit(s), s);
    }
    r
  }

  /** `get_n_fittest`: the first `n` members in `argsort` order of their fitness. They are
      `min(n, |set|)` different members, in non-increasing fitness, and no member left
      out is fitter than any taken. */
  function GetNFittest(routes: Routes, order: seq<Solution>, n: nat, fit: Solution -> real): (r: seq<Solution>)
    requires Enumerates(order, routes.solutions)
    ensures |r| == Min(n, |routes.solutions|)
    ensures Distinct(r)
    ensures forall s :: s in r ==> s in routes.solutions
    ensures forall a, b :: 0 <= a < b < |r| ==> fit(r[a]) >= fit(r[b])
    ensures forall v, a :: v in routes.solutions && v !in r && 0 <= a < |r| ==> fit(v) <= fit(r[a])
    ensures |r| > 0 ==> forall v :: v in routes.solutions ==> fit(v) <= fit(r[0])
  {
    var fits := FitnessValues(Fitnesses(routes, order, fit));
    SelectedFromEnumeration(order, routes.solutions, fits, fit, n);
    TakeFittest(order, fits, n)
  }

  /** What `TakeFittest` yields on an enumeration of a set, with the fitness of each member. */
  lemma SelectedFromEnumeration(order: seq<Solution>, solutions: set<Solution>, fits: seq<real>,
                                fit: Solution -> real, n: nat)
    requires Enumerates(order, solutions)
    requires |fits| == |order|
    requires forall k :: 0 <= k < |order| ==> fits[k] == fit(order[k])
    ensures var r := TakeFittest(order, fits, n);
      && |r| == Min(n, |solutions|)
      && Distinct(r)
      && (forall s :: s in r ==> s in solutions)
      && (forall a, b :: 0 <= a < b < |r| ==> fit(r[a]) >= fit(r[b]))
      && (forall v, a :: v in solutions && v !in r && 0 <= a < |r| ==> fit(v) <= fit(r[a]))
      && (|r| > 0 ==> forall v :: v in solutions ==> fit(v) <= fit(r[0]))
  {
    EnumerationLength(order, solutions);
    TakeFittestCorrect(order, fits, fit, n);
    var r := TakeFittest(order, fits, n);
    TakenFromEnumeration(order, solutions, r, fit);
  }

  /** The fitness column of the `fitnesses` pairs of an enumeration. */
  function FitnessValues(pairs: seq<(real, Solution)>): (r: seq<real>)
    ensures |r| == |pairs|
    ensures forall k :: 0 <= k < |r| ==> r[k] == pairs[k].0
  {
    seq(|pairs|, k requires 0 <= k < |pairs| => pairs[k].0)
  }

  /** Facts about a selection whose multiset sits inside an enumeration of the set. */
  lemma TakenFromEnumeration(order: seq<Solution>, solutions: set<Solution>, r: seq<Solution>,
                             fit: Solution -> real)
    requires Enumerates(order, solutions)
    requires multiset(r) <= multiset(order)
    requires forall v, a :: v in multiset(order) - multiset(r) && 0 <= a < |r| ==> fit(v) <= fit(r[a])
    ensures Distinct(r)
    ensures forall s :: s in r ==> s in solutions
    ensures forall v, a :: v in solutions && v !in r && 0 <= a < |r| ==> fit(v) <= fit(r[a])
  {
    forall v ensures multiset(r)[v] <= 1 {
      DistinctCounts(order, v);
    }
    CountsDistinct(r);
    forall s | s in r ensures s in solutions {
      assert s in multiset(r);
    }
    forall v, a | v in solutions && v !in r && 0 <= a < |r| ensures fit(v) <= fit(r[a]) {
      assert v in multiset(order);
      assert v in multiset(order) - multiset(r);
    }
  }

  /** `get_fittest_population`: the set of the `n` fittest. It is part of the original,
      has `min(n, |set|)` members, and no member dropped is fitter than one kept. */
  function GetFittestPopulation(routes: Routes, order: seq<Solution>, n: nat, fit: Solution -> real): (r: Routes)
    requires Enumerates(order, routes.solutions)
    ensures r.solutions <= routes.solutions
    ensures |r.solutions| == Min(n, |routes.solutions|)
    ensures forall v, w :: v in routes.solutions - r.solutions && w in r.solutions ==> fit(v) <= fit(w)
  {
    var fittest := GetNFittest(routes, order, n, fit);
    var r := From(fittest);
    forall v, w | v in routes.solutions - r.solutions && w in r.solutions ensures fit(v) <= fit(w) {
      var a :| 0 <= a < |fittest| && fittest[a] == w;
    }
    r
  }

  /** `c` is the crossover of two different members, then mutated. */
  ghost predicate IsChild(routes: Routes, n: nat, draws: (Solution, Solution) -> Draw, c: Solution)
    requires AllTours(routes.solutions, n)
    requires forall a, b :: DrawOk(n, draws(a, b))
  {
    exists a, b :: a in routes.solutions && b in routes.solutions && a != b
      && c == Offspring(a, b, draws(a, b), n)
  }

  /** `evolve`: every ordered pair of different members gives one child, and the parents
      are kept. `draws(a, b)` are the random choices for the child of `a` crossed with `b`.
      The result holds every parent and every child and nothing else, so it is no smaller
      than the original, and all its members are still tours. */
  function Evolve(routes: Routes, n: nat, draws: (Solution, Solution) -> Draw): (r: Routes)
    requires AllTours(routes.solutions, n)
    requires forall a, b :: DrawOk(n, draws(a, b))
    ensures routes.solutions <= r.solutions
    ensures |r.solutions| >= |routes.solutions|
    ensures AllTours(r.solutions, n)
    ensures forall a, b :: a in routes.solutions && b in routes.solutions && a != b ==>
              Offspring(a, b, draws(a, b), n) in r.solutions
    ensures forall c :: c in r.solutions ==> c in routes.solutions || IsChild(routes, n, draws, c)
  {
    var parents := routes.solutions;
    var children := set a, b | a in parents && b in parents && a != b :: Offspring(a, b, draws(a, b), n);
    var r := Routes(children + parents);
    assert parents <= r.solutions;
    SubsetCard(parents, r.solutions);
    r
  }

  lemma SubsetCard<T>(small: set<T>, large: set<T>)
    requires small <= large
    ensures |small| <= |large|
  {
    assert large == small + (large - small);
  }

  /** One generation of the single-worker `evolve_population`: evolve, then keep the `size`
      fittest, the evolved set walked in the order `enumerate` gives. */
  function Generation(routes: Routes, n: nat, size: nat, fit: Solution -> real,
                      draws: (Solution, Solution) -> Draw,
                      enumerate: set<Solution> -> seq<Solution>): (r: Routes)
    requires AllTours(routes.solutions, n)
    requires forall a, b :: DrawOk(n, draws(a, b))
    requires forall s :: Enumerates(enumerate(s), s)
    ensures AllTours(r.solutions, n)
    ensures |r.solutions| <= size
    ensures size >= 1 ==> forall v :: v in routes.solutions ==> exists w :: w in r.solutions && fit(v) <= fit(w)
  {
    var evolved := Evolve(routes, n, draws);
    GenerationDominates(routes, evolved, n, size, fit, enumerate);
    GetFittestPopulation(evolved, enumerate(evolved.solutions), size, fit)
  }

  /** A generation keeps `min(size, |evolved|)` members of the evolved set, and no evolved
      member it drops is fitter than one it keeps. */
  lemma GenerationSelects(routes: Routes, n: nat, size: nat, fit: Solution -> real,
                          draws: (Solution, Solution) -> Draw,
                          enumerate: set<Solution> -> seq<Solution>)
    requires AllTours(routes.solutions, n)
    requires forall a, b :: DrawOk(n, draws(a, b))
    requires forall s :: Enumerates(enumerate(s), s)
    ensures var evolved := Evolve(routes, n, draws).solutions;
      var r := Generation(routes, n, size, fit, draws, enumerate).solutions;
      && r <= evolved
      && |r| == Min(size, |evolved|)
      && forall v, w :: v in evolved - r && w in r ==> fit(v) <= fit(w)
  {
    var evolved := Evolve(routes, n, draws);
    assert Generation(routes, n, size, fit, draws, enumerate)
        == GetFittestPopulation(evolved, enumerate(evolved.solutions), size, fit);
  }

  /** The fittest evolved member is at least as fit as any parent, since `evolve` keeps
      the parents and the selection takes the fittest first. */
  lemma GenerationDominates(routes: Routes, evolved: Routes, n: nat, size: nat, fit: Solution -> real,
                            enumerate: set<Solution> -> seq<Solution>)
    requires routes.solutions <= evolved.solutions && AllTours(evolved.solutions, n)
    requires forall s :: Enumerates(enumerate(s), s)
    ensures var r := GetFittestPopulation(evolved, enumerate(evolved.solutions), size, fit);
      && AllTours(r.solutions, n)
      && |r.solutions| <= size
      && (size >= 1 ==> forall v :: v in routes.solutions ==> exists w :: w in r.solutions && fit(v) <= fit(w))
  {
    var order := enumerate(evolved.solutions);
    var r := GetFittestPopulation(evolved, order, size, fit);
    var fittest := GetNFittest(evolved, order, size, fit);
    forall v | v in routes.solutions && size >= 1 ensures exists w :: w in r.solutions && fit(v) <= fit(w) {
      assert |evolved.solutions| >= 1 by { assert v in evolved.solutions; }
      assert fittest[0] in r.solutions;
    }
  }

  /** The single-worker `fold` of `evolve_population` from generation `g` to `nGenerations`;
      generation `t` draws with `draws(t, .., ..)`. */
  function Generations(routes: Routes, g: nat, nGenerations: nat, n: nat, size: nat,
                       fit: Solution -> real, draws: (nat, Solution, Solution) -> Draw,
                       enumerate: set<Solution> -> seq<Solution>): (r: Routes)
    requires AllTours(routes.solutions, n)
    requires forall t, a, b :: DrawOk(n, draws(t, a, b))
    requires forall s :: Enumerates(enumerate(s), s)
    ensures AllTours(r.solutions, n)
    ensures g < nGenerations ==> |r.solutions| <= size
    ensures nGenerations <= g ==> r == routes
    decreases nGenerations - g
  {
    if nGenerations <= g then routes
    else
      var next := Generation(routes, n, size, fit, GenerationDraws(draws, g), enumerate);
      Generations(next, g + 1, nGenerations, n, size, fit, draws, enumerate)
  }

  /** With at least one survivor per generation, the best fitness never drops: every
      member of the start population is matched or beaten by a member of the result. */
  lemma {:induction false} GenerationsDominate(routes: Routes, g: nat, nGenerations: nat, n: nat, size: nat,
                                               fit: Solution -> real, draws: (nat, Solution, Solution) -> Draw,
                                               enumerate: set<Solution> -> seq<Solution>)
    requires AllTours(routes.solutions, n)
    requires forall t, a, b :: DrawOk(n, draws(t, a, b))
    requires forall s :: Enumerates(enumerate(s), s)
    ensures var r := Generations(routes, g, nGenerations, n, size, fit, draws, enumerate);
      size >= 1 ==> forall v :: v in routes.solutions ==> exists w :: w in r.solutions && fit(v) <= fit(w)
    decreases nGenerations - g
  {
    if size >= 1 {
      var r := Generations(routes, g, nGenerations, n, size, fit, draws, enumerate);
      if g < nGenerations {
        var next := Generation(routes, n, size, fit, GenerationDraws(draws, g), enumerate);
        assert r == Generations(next, g + 1, nGenerations, n, size, fit, draws, enumerate);
        GenerationsDominate(next, g + 1, nGenerations, n, size, fit, draws, enumerate);
        forall v | v in routes.solutions ensures exists w :: w in r.solutions && fit(v) <= fit(w) {
          var u :| u in next.solutions && fit(v) <= fit(u);
          var w :| w in r.solutions && fit(u) <= fit(w);
        }
      } else {
        forall v | v in routes.solutions ensures exists w :: w in r.solutions && fit(v) <= fit(w) {
          assert v in r.solutions;
        }
      }
    }
  }

  /** The draws of generation `t`: the child of `a` crossed with `b` uses `draws(t, a, b)`. */
  function GenerationDraws(draws: (nat, Solution, Solution) -> Draw, t: nat): (Solution, Solution) -> Draw {
    (a: Solution, b: Solution) => draws(t, a, b)
  }

  /** The draws of worker `job`: generation `t` of that worker uses `draws(job, t, .., ..)`. */
  function JobDraws(draws: (nat, nat, Solution, Solution) -> Draw, job: nat): (nat, Solution, Solution) -> Draw {
    (t: nat, a: Solution, b: Solution) => draws(job, t, a, b)
  }

  /** What one worker of the parallel `evolve_population` hands back: it runs
      `n_generations / n_jobs + 1` generations on its own copy of the start population,
      then lists the `size` fittest: at most `size` tours. */
  function WorkerResult(initial: Routes, job: nat, nGenerations: nat, nJobs: nat, size: nat, n: nat,
                        fit: Solution -> real, draws: (nat, nat, Solution, Solution) -> Draw,
                        enumerate: set<Solution> -> seq<Solution>): (r: seq<Solution>)
    requires nJobs > 0
    requires AllTours(initial.solutions, n)
    requires forall j, t, a, b :: DrawOk(n, draws(j, t, a, b))
    requires forall s :: Enumerates(enumerate(s), s)
    ensures |r| <= size
    ensures forall k :: 0 <= k < |r| ==> IsTour(r[k].indexes, n)
  {
    var pop := Generations(initial, 0, nGenerations / nJobs + 1, n, size, fit, JobDraws(draws, job), enumerate);
    var r := GetNFittest(pop, enumerate(pop.solutions), size, fit);
    assert forall k :: 0 <= k < |r| ==> r[k] in pop.solutions;
    r
  }

  /** With `size >= 1`, every start member is matched or beaten by a tour a worker hands back. */
  lemma WorkerResultDominates(initial: Routes, job: nat, nGenerations: nat, nJobs: nat, size: nat, n: nat,
                              fit: Solution -> real, draws: (nat, nat, Solution, Solution) -> Draw,
                              enumerate: set<Solution> -> seq<Solution>)
    requires nJobs > 0
    requires AllTours(initial.solutions, n)
    requires forall j, t, a, b :: DrawOk(n, draws(j, t, a, b))
    requires forall s :: Enumerates(enumerate(s), s)
    requires size >= 1
    ensures var r := WorkerResult(initial, job, nGenerations, nJobs, size, n, fit, draws, enumerate);
      forall v :: v in initial.solutions ==> exists w :: w in r && fit(v) <= fit(w)
  {
    var jobDraws := JobDraws(draws, job);
    var pop := Generations(initial, 0, nGenerations / nJobs + 1, n, size, fit, jobDraws, enumerate);
    var r := GetNFittest(pop, enumerate(pop.solutions), size, fit);
    assert r == WorkerResult(initial, job, nGenerations, nJobs, size, n, fit, draws, enumerate);
    GenerationsDominate(initial, 0, nGenerations / nJobs + 1, n, size, fit, jobDraws, enumerate);
    forall v | v in initial.solutions ensures exists w :: w in r && fit(v) <= fit(w) {
      var u :| u in pop.solutions && fit(v) <= fit(u);
      assert r[0] in r;
    }
  }

  /** Worker `job`'s list, for every `job`. */
  function Workers(initial: Routes, nGenerations: nat, nJobs: nat, size: nat, n: nat,
                   fit: Solution -> real, draws: (nat, nat, Solution, Solution) -> Draw,
                   enumerate: set<Solution> -> seq<Solution>): nat -> seq<Solution>
    requires nJobs > 0
    requires AllTours(initial.solutions, n)
    requires forall j, t, a, b :: DrawOk(n, draws(j, t, a, b))
    requires forall s :: Enumerates(enumerate(s), s)
  {
    (job: nat) => WorkerResult(initial, job, nGenerations, nJobs, size, n, fit, draws, enumerate)
  }

  /** `evolve_population`, ranking by `fit`. With `n_jobs == 0` it is the plain
      generational fold. Otherwise each of `n_jobs` workers evolves its own copy, and the
      result is the set of all their lists: at most `n_jobs * size_generation` tours, no
      final cut. Either way, with `size_generation >= 1` no start member is fitter than
      the fittest tour of the result. */
  method EvolvePopulation(initial: Routes, nGenerations: nat, sizeGeneration: nat, fit: Solution -> real,
                          nJobs: nat, n: nat, draws: (nat, nat, Solution, Solution) -> Draw,
                          enumerate: set<Solution> -> seq<Solution>) returns (r: Routes)
    requires AllTours(initial.solutions, n)
    requires forall j, t, a, b :: DrawOk(n, draws(j, t, a, b))
    requires forall s :: Enumerates(enumerate(s), s)
    ensures AllTours(r.solutions, n)
    ensures nJobs == 0 ==>
              r == Generations(initial, 0, nGenerations, n, sizeGeneration, fit, JobDraws(draws, 0), enumerate)
    ensures nJobs > 0 ==>
              r == From(ConcatUpTo(Workers(initial, nGenerations, nJobs, sizeGeneration, n,
                                           fit, draws, enumerate), nJobs))
    ensures nJobs > 0 ==> |r.solutions| <= nJobs * sizeGeneration
    ensures sizeGeneration >= 1 ==> forall v :: v in initial.solutions ==>
              exists w :: w in r.solutions && fit(v) <= fit(w)
  {
    if nJobs == 0 {
      r := Generations(initial, 0, nGenerations, n, sizeGeneration, fit, JobDraws(draws, 0), enumerate);
      GenerationsDominate(initial, 0, nGenerations, n, sizeGeneration, fit, JobDraws(draws, 0), enumerate);
    } else {
      var workers := Workers(initial, nGenerations, nJobs, sizeGeneration, n, fit, draws, enumerate);
      var result: seq<Solution> := [];
      for job := 0 to nJobs
        invariant result == ConcatUpTo(workers, job)
      {
        var fittest := WorkerResult(initial, job, nGenerations, nJobs, sizeGeneration, n, fit, draws, enumerate);
        result := result + fittest;
      }
      r := From(result);
      assert forall j :: |workers(j)| <= sizeGeneration;
      ConcatUpToLength(workers, nJobs, sizeGeneration);
      forall s | s in r.solutions ensures IsTour(s.indexes, n) {
        ConcatUpToMembers(workers, nJobs, s);
        var j :| 0 <= j < nJobs && s in workers(j);
        var k :| 0 <= k < |workers(j)| && workers(j)[k] == s;
      }
      if sizeGeneration >= 1 {
        var first := WorkerResult(initial, 0, nGenerations, nJobs, sizeGeneration, n, fit, draws, enumerate);
        WorkerResultDominates(initial, 0, nGenerations, nJobs, sizeGeneration, n, fit, draws, enumerate);
        forall v | v in initial.solutions ensures exists w :: w in r.solutions && fit(v) <= fit(w) {
          var w :| w in first && fit(v) <= fit(w);
          ConcatUpToMembers(workers, nJobs, w);
          assert w in workers(0);
        }
      }
    }
  }

  /** The three solutions of the selection tests, as a set. */
  function TestRoutes(): Routes {
    From([Solution([1, 2, 0]), Solution([1, 0]), Solution([2, 0])])
  }

  /** A member strictly fitter than every other is the single fittest one, whatever the
      iteration order. */
  lemma UniqueFittest(routes: Routes, order: seq<Solution>, fit: Solution -> real, c: Solution)
    requires Enumerates(order, routes.solutions)
    requires c in routes.solutions
    requires forall v :: v in routes.solutions && v != c ==> fit(v) < fit(c)
    ensures GetNFittest(routes, order, 1, fit) == [c]
  {
    var r := GetNFittest(routes, order, 1, fit);
    assert r[0] in routes.solutions;
  }

  /** As written, ranking the set by tour length keeps the LONGEST tour, `[1, 2, 0]`, in
      every iteration order, where the selection tests expect `[1, 0]`. */
  lemma CostSelectionKeepsLongest(order: seq<Solution>)
    requires Enumerates(order, TestRoutes().solutions)
    ensures GetNFittest(TestRoutes(), order, 1, CostFitness(TestDistMat())) == [Solution([1, 2, 0])]
  {
    TestTourLengths();
    UniqueFittest(TestRoutes(), order, CostFitness(TestDistMat()), Solution([1, 2, 0]));
  }

  /** Ranked by shortness, the single fittest of the set is `[1, 0]`, the shortest tour,
      in every iteration order. */
  lemma ShortnessSelectionKeepsShortest(order: seq<Solution>)
    requires Enumerates(order, TestRoutes().solutions)
    ensures GetNFittest(TestRoutes(), order, 1, ShortnessFitness(TestDistMat())) == [Solution([1, 0])]
  {
    TestTourLengths();
    UniqueFittest(TestRoutes(), order, ShortnessFitness(TestDistMat()), Solution([1, 0]));
  }
}
