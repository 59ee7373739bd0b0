# Genetic algorithm for the travelling salesman problem, modelled in Dafny

This project models the engine of `genetic-algorithm-tsp`, a genetic algorithm for the
travelling salesman problem. An individual is a visiting order of the nodes 0..n-1.
Individuals come in two variants, `Route` and `Solution`. A `DistanceMat` prices an
individual as the length of the closed tour. Two individuals make a child by ordered
crossover, and the child may then be mutated by moving one node in front of another. A
population is evolved by crossing every member with every other one and is then cut back
to its fittest members, generation after generation.

There are two kinds of population:

- `Population` keeps a vector, so duplicates are allowed, and evolving it drops the parents.
- `Routes` keeps a hash set, and evolving it keeps the parents. Its `evolve_population`
  can run several independent workers and merge their results.

Every random choice of the program is a parameter here, and its range is a precondition:

- the mutation coin is a `bool`;
- the position to insert in front of is a number;
- the donor index is a number;
- the start and length of the crossover window are numbers;
- the shuffled permutations are a supplied sequence.

Every property is therefore stated for all draws. Distances and fitness values are `real`.

Modules, one per source file:

| module | file | models |
|---|---|---|
| `Sequences` | sequences.dfy | shared notions: duplicate-freedom, the range 0..n, tours as permutations of 0..n-1, flattening, picking by index |
| `Utils` | utils.dfy | `src/utils.rs` except `ordered_crossover`: the range draw, `remove_elem`, `change_order`, `is_in`, `argsort`, `reverse_ordering`, and top-n selection by `argsort` |
| `Subsequences` | subsequence.dfy | `src/subsequence.rs`: the crossover window and its before/in/after views |
| `Crossovers` | crossover.dfy | `ordered_crossover` of `src/utils.rs` |
| `DistanceMats` | distance_mat.dfy | `src/distance_mat.rs` |
| `Route` | route.dfy | `src/route.rs` |
| `Solution` | solution.dfy | `src/solution.rs`, plus one evolution step's child (`Offspring`) |
| `Population` | population.dfy | `src/population.rs` |
| `Routes` | routes.dfy | `src/routes.rs` |

`ordered_crossover` has a module of its own because `Subsequences` needs the range draw
from `Utils`, and the crossover in turn needs `Subsequences`. Dafny modules cannot import
each other in a cycle.

## Model

| member | source | states |
|---|---|---|
| Utils.RandomElemFromRange | src/utils.rs:16-25 | a non-empty range yields a value inside it; an empty range yields its start |
| Utils.RemoveElem | src/utils.rs:55-58 | one shorter; the elements before the index are kept, those after it shift down by one; the multiset loses exactly the removed value |
| Utils.RemoveElemExamples | src/utils.rs:173-196 | removing the first, last and a middle element of `[1, 2, 3, 4]` |
| Utils.Relocated | src/utils.rs:36-45 | same length and multiset as the input; the moved value lands at `p - 1` when it came from before `p`, otherwise at `p`; removing it there gives the input with it removed, so all other elements keep their relative order |
| Utils.ChangeOrder | src/utils.rs:35-47 | the remove-then-insert loop yields `Relocated`; `p == m` returns the input unchanged |
| Utils.RelocatedExamplesFront | src/utils.rs:200-207 | moving the second or the last of `[1, 2, 3, 4]` in front of the first gives `[2, 1, 3, 4]` and `[4, 1, 2, 3]` |
| Utils.RelocatedExamplesSecond | src/utils.rs:208-219 | moving the first, third or last of `[1, 2, 3, 4]` in front of the second gives `[1, 2, 3, 4]`, `[1, 3, 2, 4]` and `[1, 4, 2, 3]` |
| Utils.RelocatedExamplesLast | src/utils.rs:220-231 | moving the first of `[1, 2, 3, 4]` in front of the fourth gives `[2, 3, 1, 4]`; moving the fourth in front of itself changes nothing |
| Utils.RelocatedExamplesThree | src/utils.rs:232-252 | the five cases on `[1, 2, 3]` give `[1, 2, 3]`, `[2, 1, 3]`, `[3, 1, 2]`, `[2, 1, 3]` and `[1, 2, 3]` |
| Utils.IsIn | src/utils.rs:101-108 | true exactly when the value occurs in the list |
| Utils.ReverseOrdering | src/utils.rs:145-151 | Equal stays Equal; Less and Greater are swapped |
| Utils.ReverseOrderingInvolution | src/utils.rs:145-151 | reversing twice gives the original ordering |
| Utils.ReverseOrderingSwapsArguments | src/utils.rs:130-136 | the reversed comparison of x with y is the comparison of y with x, so the sort key is descending |
| Utils.ComparatorAgreesWithPrecedes | src/utils.rs:130-136 | the `sort_by` comparator says "before" exactly when the value is larger, or equal with a smaller index (a stable sort) |
| Utils.InsertByKey | src/utils.rs:130-136 | one insertion step of the stable sort adds exactly the new index |
| Utils.InsertByKeySorted | src/utils.rs:130-136 | an insertion into a descending, stable index list keeps it descending and stable |
| Utils.ArgSortPrefix | src/utils.rs:128-138 | sorting the first k indexes gives a permutation of 0..k-1 |
| Utils.ArgSortPrefixSorted | src/utils.rs:128-138 | that list is descending by value, with ties in index order |
| Utils.ArgSort | src/utils.rs:128-138 | `argsort` is a permutation of 0..len-1 along which the data never increases, with ties kept in index order |
| Utils.SortedArrangementUnique | src/utils.rs:128-138 | two arrangements of the same indexes that are both descending by value, ties in index order, are equal |
| Utils.ArgSortIs | src/utils.rs:128-138 | the converse of `ArgSort`'s contract: any permutation of 0..len-1 that is descending by value, ties in index order, is exactly what `argsort` returns |
| Utils.ArgSortFourExample | src/utils.rs:407-410 | `argsort([1, 5, 3, 6])` is `[3, 1, 2, 0]` |
| Utils.ArgSortSixExample | src/utils.rs:421-424 | `argsort([2, 5, 3, 4, 1, 6])` is `[5, 1, 3, 2, 0, 4]` |
| Utils.PickArgSortPrefix | src/utils.rs:128-138 | the elements at the sorted first k indexes are, as a multiset, the first k elements |
| Utils.TakeFittestSplit | src/population.rs:104-110 | the taken members and the members left behind together make up the whole list |
| Utils.TakeFittestOrdered | src/population.rs:104-110 | the taken members come in non-increasing fitness |
| Utils.UnchosenNoFitter | src/population.rs:104-110 | no member left behind is fitter than a member taken |
| Utils.TakeFittestCorrect | src/population.rs:104-110 | taking the first n of `argsort` gives members of the list in non-increasing fitness, none left out is fitter, and the first is a fittest member |
| Subsequences.New | src/subsequence.rs:11-16 | stores exactly the start and the length |
| Subsequences.RandomSubsequence | src/subsequence.rs:17-23 | for max >= 2 the window lies strictly inside: start < max, length < max - start, start + length < max, length >= 1; max == 2 falls back to start 0 and length 1 |
| Subsequences.ValuesBefore | src/utils.rs:87 | the elements before the window; fails exactly when the window runs past the end |
| Subsequences.ValuesIn | src/utils.rs:69-71 | the elements in the window; fails exactly when the window runs past the end |
| Subsequences.ValuesAfter | src/utils.rs:81 | the elements after the window; fails exactly when the window runs past the end |
| Subsequences.ViewsPartition | src/utils.rs:69-87 | before, in and after concatenate back to the whole sequence, and each is empty at its boundary |
| Subsequences.GetUniqueElems | src/subsequence.rs:24-29 | exactly the values inside the window; at most length of them, and exactly length when the sequence has no duplicates |
| Subsequences.GetUniqueElemsExamples | src/subsequence.rs:65-84 | the source's three window examples |
| Crossovers.AbsentCount | src/utils.rs:71-75 | filtering out the selection removes every copy of a selected value and keeps every other count |
| Crossovers.AbsentMembers | src/utils.rs:71-75 | a value survives the filter exactly when it is present and not selected |
| Crossovers.AbsentAppend | src/utils.rs:71-75 | filtering a concatenation is the concatenation of the filtered parts |
| Crossovers.AbsentNothing | src/utils.rs:71-75 | an empty selection filters nothing out |
| Crossovers.AbsentCovered | src/utils.rs:71-75 | a part whose values are all selected filters to nothing |
| Crossovers.PushAbsent | src/utils.rs:71-75 | the loop that appends unselected values appends exactly the filtered part |
| Crossovers.OrderedCrossover | src/utils.rs:67-93 | the four loops build B's in-window values not in A's window, then A's window, then B's after-window values, then B's before-window values, filtered the same way |
| Crossovers.OrderedChildPermutation | src/utils.rs:67-93 | when A is duplicate-free and B is a permutation of A, the child is a permutation of A, duplicate-free and of the same length |
| Crossovers.OrderedChildKeepsWindow | src/utils.rs:77-80 | A's window appears in the child contiguously and unchanged |
| Crossovers.OrderedChildWholeWindow | src/utils.rs:67-93 | a window covering all of A gives exactly A |
| Crossovers.OrderedChildEmptyWindow | src/utils.rs:67-93 | an empty window at s gives B rotated: B[s..] followed by B[..s] |
| Crossovers.OrderedChildEmptyWindowAtStart | src/utils.rs:67-93 | an empty window at 0 gives exactly B |
| Crossovers.ChildPaperExample | src/utils.rs:256-275 | the window of length 3 at 3 of `[9, 8, 4, 5, 6, 7, 1, 3, 2]` with receiver `[8, 7, 1, 2, 3, 0, 9, 5, 4]` gives `[2, 3, 0, 5, 6, 7, 9, 4, 8, 1]` |
| Crossovers.ChildSimpleExample | src/utils.rs:276-294 | the window of length 2 at 1 of `[3, 2, 0, 1]` with receiver `[1, 2, 3, 0]` gives `[3, 2, 0, 1]` |
| Crossovers.ChildOnlyAExample | src/utils.rs:295-313 | a window over all of `[3, 2, 0, 1]` gives `[3, 2, 0, 1]` |
| Crossovers.ChildOnlyBExample | src/utils.rs:314-332 | an empty window at 0 gives the receiver `[1, 2, 3, 0]` |
| Crossovers.ChildOnlineExample | src/utils.rs:333-353 | the window of length 5 at 3 of `[8, 4, 7, 3, 6, 2, 5, 1, 9, 0]` with receiver `[0, 1, ..., 9]` gives `[4, 7, 3, 6, 2, 5, 1, 8, 9, 0]` |
| DistanceMats.New | src/distance_mat.rs:26-28 | stores the matrix unchanged |
| DistanceMats.NUnits | src/distance_mat.rs:39-41 | the number of rows |
| DistanceMats.ComputeCost | src/distance_mat.rs:63-84 | the fold equals the closed-tour cost: the edge from the last node back to the first plus every edge between consecutive nodes |
| DistanceMats.CostFoldFrom | src/distance_mat.rs:63-84 | a fold that starts after a node adds the path cost from that node on |
| DistanceMats.CostFoldIsPath | src/distance_mat.rs:63-84 | the fold from the empty state adds the path cost of the walk |
| DistanceMats.TwoNodeCost | src/distance_mat.rs:104-117 | a two-node tour costs d[a][b] + d[b][a] |
| DistanceMats.ComputeCostExamples | src/distance_mat.rs:97-135 | the worked costs on the 3x3 test matrix, including a repeated visit costing 10 |
| Route.New | src/route.rs:28-30 | stores the given visiting order |
| Route.DonorCandidates | src/route.rs:64-69 | the donor list has len - 3 entries: the positions below len - 1 other than p and the one `max(p, 1) - 1` removes |
| Route.MoveIdx | src/route.rs:61-71 | the moved position is never p nor the one just before p; with len > 3 it is one of the donor candidates; with len == 3 the candidate list is empty and it is the `(p + 1) % len` fallback, p + 1 |
| Route.Mutate | src/route.rs:50-75 | a tails coin returns the route unchanged; otherwise a `change_order` with p < len - 1 and a move index other than p and p - 1; always a permutation of the input; on distinct nodes an applied mutation always changes the route |
| Route.MoveChanges | src/route.rs:57-72 | moving a node that is neither at p nor just before p changes a duplicate-free sequence |
| Route.Crossover | src/route.rs:95-101 | the child is `ordered_crossover` with a window strictly inside the route; parents that are permutations of one duplicate-free set give a child that is too |
| Route.ChildOfPermutations | src/route.rs:95-101 | the ordered crossover of two permutations of one duplicate-free set is again one |
| Route.Fitness | src/route.rs:123-125 | the negated closed-tour cost |
| Route.FitnessExample | src/route.rs:196-201 | `[1, 2, 0]` has fitness -6 on the test matrix |
| Solution.New | src/solution.rs:28-30 | stores the given visiting order |
| Solution.Mutate | src/solution.rs:49-74 | the same contract as `Route.Mutate` |
| Solution.Crossover | src/solution.rs:94-100 | the same contract as `Route.Crossover` |
| Solution.Fitness | src/solution.rs:122-124 | the closed-tour cost itself, not negated |
| Solution.FitnessIsNegatedRouteFitness | src/solution.rs:122-124 | a solution's fitness is minus the fitness of the route with the same order |
| Solution.FitnessExample | src/solution.rs:202-206 | `[1, 2, 0]` has fitness 6 on the test matrix |
| Solution.TestTourLengths | src/population.rs:281-288 | the three test solutions have tour lengths 6, 2 and 4 |
| Solution.CoveredToursRated | src/solution.rs:122-124 | on a matrix with an entry for every pair of the nodes 0..n-1, every tour can be walked, so the as-written key is its length and the corrected key its negated length |
| Solution.Offspring | src/population.rs:170 | crossover then mutation of two tours of 0..n-1 gives a tour of 0..n-1 |
| Population.From | src/population.rs:32-34 | keeps the vector, order and duplicates included |
| Population.Random | src/population.rs:53-60 | one solution per supplied shuffle, each a tour |
| Population.Fitnesses | src/population.rs:80-85 | the same length and order as the solutions, entry k being the fitness of solution k |
| Population.GetNFittest | src/population.rs:104-110 | min(n, m) members of the population in non-increasing fitness; none left out is fitter than one taken; the first is a fittest member |
| Population.GetFittestPopulation | src/population.rs:131-135 | wraps exactly `get_n_fittest(n)`, so at most n members |
| Population.ChildrenOf | src/population.rs:163-170 | member i's children: m - 1 of them, the k-th crossing i with the k-th other member |
| Population.ChildOfPair | src/population.rs:170 | the child of positions i and j is their offspring under the draws of that pair, and a tour |
| Population.Evolve | src/population.rs:157-175 | exactly m * (m - 1) children, each a tour and each the offspring of two members at different positions; the k-th child of member i sits at position i * (m - 1) + k; the child of every ordered pair of different positions is present; the parents are not kept |
| Population.EvolveOrder | src/population.rs:163-172 | flattening the families puts the k-th child of member i at position i * (m - 1) + k |
| Population.EvolvePairs | src/population.rs:163-172 | the child of every ordered pair of different positions is in the flattened families |
| Population.EvolveMembers | src/population.rs:157-175 | every child in the flattened families is a tour and the offspring of two different positions |
| Population.FamilyMember | src/population.rs:164-170 | each child of member i is the offspring of i with a different member |
| Population.ChildIsTour | src/population.rs:170 | an offspring of two tours is a tour |
| Population.SelectionKeepsTours | src/population.rs:131-135 | a selection from tours contains only tours |
| Population.Generation | src/population.rs:208-211 | one evolve-then-select step keeps tours and at most `size_generation` members |
| Population.GenerationSelects | src/population.rs:208-211 | a generation is the `size_generation` fittest of the evolved population: min(size, count) of its members (as a multiset), in non-increasing fitness, none left behind fitter than one kept |
| Population.Generations | src/population.rs:208-211 | the fold keeps tours; with no generations it is the start population; otherwise its last generation is the `size_generation` fittest (as in `FittestOf`) of what it evolved from the fold of the generations before, so at most `size_generation` members |
| Population.EvolvePopulation | src/population.rs:202-212 | zero generations return the initial population; otherwise the result is the `size_generation` fittest of what the last generation evolved (as in `GenerationSelects`), so at most `size_generation` members; all tours; the ranking key is a parameter |
| Population.UniqueFittest | src/population.rs:104-110 | a member strictly fitter than all others is the single one `get_n_fittest(1)` returns |
| Population.CostSelectionKeepsLongest | src/population.rs:104-110 | as written, selecting one of the test population by tour length returns `[1, 2, 0]`, the longest tour |
| Population.ShortnessSelectionKeepsShortest | src/population.rs:302-313 | selecting by shortness returns `[1, 0]`, which the selection test expects |
| Routes.EnumerationLength | src/routes.rs:68-70 | an iteration order of a set is as long as the set is large |
| Routes.From | src/routes.rs:35-39 | the set of the vector's solutions; duplicates collapse, so it never has more members than entries, and it has exactly as many when they all differ |
| Routes.Random | src/routes.rs:58-67 | the insertion loop ends with exactly `n_routes` distinct solutions, each a tour drawn from the shuffles |
| Routes.Fitnesses | src/routes.rs:97-101 | one `(fitness, solution)` pair per member, and no member twice |
| Routes.GetNFittest | src/routes.rs:121-134 | min(n, size) different members in non-increasing fitness; no member left out is fitter than one taken; the first is a fittest member |
| Routes.TakenFromEnumeration | src/routes.rs:121-134 | a selection from an iteration order has no duplicates and only members, and no omitted member beats it |
| Routes.GetFittestPopulation | src/routes.rs:156-158 | a subset of min(n, size) members, none dropped fitter than one kept |
| Routes.Evolve | src/routes.rs:181-199 | keeps every parent, holds the child of every ordered pair of different members, holds nothing else, so it is no smaller than before and all tours |
| Routes.Generation | src/routes.rs:236-239 | one step keeps tours and at most `size_generation` members; with a size of at least 1 every member is matched or beaten by a member of the next generation |
| Routes.GenerationDominates | src/routes.rs:196 | the survivors of a generation are tours, at most `size` of them, and because evolution keeps the parents the fittest survivor is at least as fit as every parent |
| Routes.GenerationSelects | src/routes.rs:236-239 | a generation keeps a subset of the evolved set with min(size, count) members and drops no member fitter than one it keeps |
| Routes.Generations | src/routes.rs:236-239 | the fold keeps tours and at most `size_generation` members after at least one generation, and returns the start population after none |
| Routes.GenerationsDominate | src/routes.rs:236-239 | with a size of at least 1 the best fitness never drops over any number of generations |
| Routes.WorkerResult | src/routes.rs:246-253 | a worker runs `n_generations / n_jobs + 1` generations on its own copy and hands back at most `size_generation` tours |
| Routes.WorkerResultDominates | src/routes.rs:246-253 | with a size of at least 1, every start member is matched or beaten by a tour the worker hands back |
| Routes.EvolvePopulation | src/routes.rs:227-265 | `n_jobs == 0` is the plain fold; otherwise the result is the set of all workers' lists concatenated, with at most `n_jobs * size_generation` members and no final cut; all tours; with a size of at least 1 no start member beats the result's best; the ranking key is a parameter |
| Routes.UniqueFittest | src/routes.rs:121-134 | a member strictly fitter than all others is the single one `get_n_fittest(1)` returns, in every iteration order |
| Routes.CostSelectionKeepsLongest | src/routes.rs:121-134 | as written, selecting one of the test set by tour length returns `[1, 2, 0]`, the longest tour, in every iteration order |
| Routes.ShortnessSelectionKeepsShortest | src/routes.rs:365-376 | selecting by shortness returns `[1, 0]`, which the selection test expects |
| Sequences.TourFacts | src/population.rs:170 | a tour of 0..n-1 has no duplicates and length n |
| Sequences.SetOfSeqCard | src/routes.rs:35-39 | collecting a vector into a set gives at most as many members, and exactly as many without duplicates |
| Sequences.FlattenLength | src/population.rs:172 | m lists of k children flatten to m * k children |
| Sequences.FlattenAt | src/population.rs:172 | when every list has w entries, entry j of list i sits at position i * w + j of the flattened lists |
| Sequences.FlattenHas | src/population.rs:172 | every entry of every list is in the flattened lists |
| Sequences.FlattenMembers | src/population.rs:172 | every flattened child sits at a position of one of the lists |
| Sequences.ConcatUpToMembers | src/routes.rs:255-260 | a value is in the workers' joined lists exactly when one worker handed it back |
| Sequences.ConcatUpToLength | src/routes.rs:255-260 | lists of at most k entries join to at most count * k entries |

## Left out

- Timing and benchmarking (`benchmark_population` in both population files). They measure wall-clock time, which is I/O.
- `src/main.rs` and the integration test that reads a matrix from a file. Both are file and console I/O.
- `src/gen_traits.rs` is only trait signatures; `src/lib.rs` only lists modules.
- The random number generator itself (`thread_rng`, `shuffle`, `gen_range`, `choose`). Every draw is a parameter, and its allowed range is a precondition.
- `random_permutation` is not a member. Its results come in as the supplied shuffles of `Population.Random` and `Routes.Random`.
- The thread mechanics of the parallel `evolve_population` (scope, spawn, join, `unwrap` on a join). Only the sequential meaning is kept: a loop over independent workers whose lists are joined.
- Floating point. Distances and fitness values are `real`, so rounding in the cost sums is not modelled. `argsort`'s `unwrap_or(Ordering::Less)` exists for NaN, which reals do not have.
- The `f32` mutation coin `> prob` becomes a `bool`. The fixed `mutate_prob` of 0.5 in `evolve_population` is therefore not visible.
- `HashSet` hashing and iteration order. `Routes` is a set, and every operation that walks it takes an order listing each member once (`Routes.Enumerates`). Every property holds for every such order.
- Routes.Evolve: a child's draws are keyed by the ordered pair of parent members rather than by their two positions in the iteration order. The positions come from one walk of the set, so the two keyings describe the same children.
- Routes.Random: the source loops until the set is large enough and has no bound on its draws. Here the shuffles are a supplied sequence, and there must be at least `n_routes` different ones among them.
- Routes.Generation, Routes.Generations, Routes.EvolvePopulation: the iteration order of each evolved set comes from a parameter `enumerate` that must list every set it is given.
- Route.Mutate, Solution.Mutate: routes shorter than 3 are outside the domain. For them the source either underflows `len - 1` or removes an element from an empty vector, and both panic.
- Route.Crossover, Solution.Crossover: routes shorter than 2 are outside the domain, because `random_subsequence` underflows `max - 2` for them. The other parent must reach the end of the window, or the source's `unwrap` panics.
- DistanceMats.ComputeCost: needs a non-empty walk whose every edge is inside the matrix. Otherwise the source indexes out of bounds and panics, as its own TODO says.
- `fitness` in both individual files calls `get_distance`, but `src/distance_mat.rs` defines `compute_cost`. The model uses `compute_cost`.
- `ordered_crossover` is declared on `Route`, and `src/solution.rs` passes `Solution` values to it. The model states it on visiting orders (`seq<nat>`), which both individuals share.
- `src/subsequence.rs` imports `get_elem_from_range`, and `src/utils.rs` defines it as `get_random_elem_from_range`. The model uses the latter.
- The definitions of `get_values_before`, `get_values_in` and `get_values_after`, which `ordered_crossover` calls, are not part of this model. The views are modelled as the slices before, inside and after the window, failing when the window runs past the end.
- Population.Evolve, Population.EvolvePopulation, Population.Generation, Routes.Evolve, Routes.EvolvePopulation: these require every member to be a tour of 0..n-1 and every draw to lie in its range. The source only needs the members to be long enough.
- Utils.ArgSort: the standard library's sort algorithm is not modelled. `argsort` is specified through a stable insertion sort, which gives the same result as any stable sort with the same comparator.
- Population.GetNFittest, Routes.GetNFittest, Population.EvolvePopulation, Routes.EvolvePopulation: the ranking key is a parameter. The source ranks by `Solution::fitness`, which is `Solution.CostFitness` here; `Solution.ShortnessFitness` is the corrected key (see Findings).
- Solution.CostFitness, Solution.ShortnessFitness: a solution the matrix cannot walk rates 0 here, where the source's `fitness` indexes out of bounds and panics. On a matrix with an entry for every pair of nodes no tour is unwalkable: the first key is the tour length and the second its negation (`Solution.CoveredToursRated`).
- The `argsort` test on thirteen values (src/utils.rs:411-420) and the crossover test `larger_examples` (src/utils.rs:354-373) are not stated as lemmas. Their literal lists are too long to unfold within the proof resources this project keeps to. `Utils.ArgSortIs` reduces the first to checking that the expected answer is a sorted permutation.

## Findings

| source | as written | input that shows it | evidently intended | confidence | as-written member | corrected member |
|---|---|---|---|---|---|---|
| src/population.rs:104-110 | `get_n_fittest` puts the largest `Solution::fitness` first, and that fitness is the tour length (src/solution.rs:122-124), so selection keeps the longest tours | solutions `[1, 2, 0]`, `[1, 0]`, `[2, 0]` on the 3x3 test matrix (lengths 6, 2, 4): `get_n_fittest(1)` returns `[1, 2, 0]`, where the test at src/population.rs:302-313 expects `[1, 0]` | rank by shortness, the negated length `Route::fitness` uses (src/route.rs:123-125) | high; not executed | Population.CostSelectionKeepsLongest | Population.ShortnessSelectionKeepsShortest |
| src/routes.rs:121-134 | the same ranking in the set population keeps the longest tours | the same three solutions as a set, in every iteration order: `get_n_fittest(1)` returns `[1, 2, 0]`, where the test at src/routes.rs:365-376 expects `[1, 0]` | rank by shortness | high; not executed | Routes.CostSelectionKeepsLongest | Routes.ShortnessSelectionKeepsShortest |

In the model both `evolve_population`s take the ranking key as a parameter. With `Solution.CostFitness` they behave as written; with `Solution.ShortnessFitness` they keep the shortest tours, as the tests expect.
