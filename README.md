# A verified model of the VRP genetic algorithm

This project models the optimisation core of `DavidBeck_VRP.py`, a genetic
algorithm for a vehicle routing problem with pickup and delivery. The
algorithm works on candidates: orderings of a catalog of loads. Each load has
an id, a pickup point and a dropoff point.

- A candidate's cost is the distance driven from the depot `(0, 0)`. For each
  load it drives to the pickup, then carries the load to its dropoff. At the
  end it returns to the depot.
- A route is valid when its cost is at most 720.
- Each generation sorts the population by cost and keeps the best two
  candidates. It then breeds pairs of children from two parents drawn from
  the top ten, using order-preserving crossover followed by swap mutation,
  until the new population is full.
- After the last generation, the best candidate is split greedily into
  routes: a route is closed when its next load would push it over budget.
  The routes are returned as lists of load ids.

How the model represents the things it cannot compute directly:

- **Distance.** The Euclidean `** 0.5` formula is replaced by a distance
  function `dist: (Point, Point) -> real`, passed as a parameter. The
  argument order is the one the code uses: `Load.distance` measures from the
  load's own pickup. Non-negativity of `dist` is a predicate that is assumed
  only where it is needed.
- **Randomness.** Everything drawn from `random` becomes an input:
  - the two crossover cut points;
  - for each position of a mutated child, a draw (the position fires when its
    draw is below the rate) and a swap target;
  - the two parent positions of each round.

  One `Breeding` record holds the draws of one round. A schedule holds the
  records of every generation.
- **Sorting.** Python's `sorted` is a function `sortByCost`, passed as a
  parameter, that is required to return a permutation ordered by cost.
- **Load identity.** Loads are values. The code compares load objects by
  identity, and that is modelled by requiring the catalog to hold no load
  twice.

The model follows the source's own forms:

- Cost accumulation (`total_route_distance`) and the in-place swap pass
  (`mutate`, on an `array`) are loops, proved against the specification
  functions `RouteCost` and `Mutated`.
- The generation step is a `while` loop over a sequence of candidates.
- Segmentation is the greedy append/pop walk.
- The budget check (`is_valid_route`) is a method that calls the cost loop.
- Crossover is a function.

Segmentation is modelled as written. A load that does not fit closes the
current route and starts a new one on its own. That singleton is never
re-checked, so it may be over budget. When the very first load alone is over
budget, the first route emitted is empty.

`crossover` puts the segment at the front of each child, not at positions
`[idx1, idx2)`; `Recombination.SegmentAtFront` shows this on three loads.

Modules:

- `Sequences`: distinctness, filtering, subsequences, flattening, pair
  layout, permutations.
- `Loads`: points, loads, cost.
- `Recombination`: crossover.
- `Mutation`: mutation.
- `Segmentation`: route splitting.
- `Evolution`: generations and the whole algorithm.

## Model

| member | source | states |
|---|---|---|
| Loads.Load.DistanceTo | DavidBeck_VRP.py:15-16 | `Load.distance` measures from the load's own pickup to the other point (the dropoff plays no part), and is non-negative for a non-negative `dist` |
| Loads.TotalRouteDistance | DavidBeck_VRP.py:39-48 | the accumulated distance equals `RouteCost`: every load's deadhead leg from the current location plus its laden leg, with the location advancing to each dropoff, plus the return leg to the depot |
| Loads.IsValidRoute | DavidBeck_VRP.py:51-52 | the answer is true exactly when the route's cost is at most `maxTime` (720 by default) |
| Loads.EmptyRouteCost | DavidBeck_VRP.py:40-47 | the empty route costs one depot-to-depot leg |
| Loads.SingleLoadCost | DavidBeck_VRP.py:43-47 | one load costs depot to pickup, pickup to dropoff, dropoff to depot, with `dist` measured from the pickup |
| Loads.RouteCostNonNegative | DavidBeck_VRP.py:39-48 | with a non-negative `dist`, every route costs at least zero |
| Loads.AppendCost | DavidBeck_VRP.py:43-47 | appending a load replaces the return leg by the deadhead to the new pickup, the laden leg and a return leg from the new dropoff |
| Loads.RouteCostIsWalk | DavidBeck_VRP.py:42-47 | the accumulated cost equals the recursive walk that serves the first load from the current location and the rest from its dropoff |
| Sequences.Without | DavidBeck_VRP.py:62-63 | filtering the other parent by the segment never makes it longer |
| Sequences.WithoutMembers | DavidBeck_VRP.py:62-63 | a load is in the filtered list exactly when it is in the other parent and not in the segment |
| Sequences.WithoutIsSubsequence | DavidBeck_VRP.py:62-63 | the filtered list keeps the other parent's order |
| Sequences.Slice | DavidBeck_VRP.py:60 | Python's clamped slice `parent2[idx1:idx2]`: the plain slice when `idx2` is in range; otherwise exactly the loads from `idx1` to the end (none when `idx1` is past the end), each the one at the same offset from `idx1` |
| Recombination.Crossover | DavidBeck_VRP.py:55-60 | child 1 begins with exactly `parent1[idx1:idx2]`; for parents of equal length child 2 begins with exactly `parent2[idx1:idx2]`; the cuts satisfy `idx1 < idx2 < len(parent1)`, so the last index is never a cut |
| Recombination.CrossoverFill | DavidBeck_VRP.py:62-63 | after its segment each child is a subsequence of the other parent and holds exactly the other parent's loads that are not in the segment |
| Recombination.ChildPermutation | DavidBeck_VRP.py:59-63 | a segment of one permutation followed by the other permutation filtered of that segment is again a permutation of the catalog |
| Recombination.CrossoverPermutation | DavidBeck_VRP.py:55-64 | if both parents are permutations of a catalog of distinct loads, both children are permutations of it and have its length |
| Recombination.SegmentAtFront | DavidBeck_VRP.py:59-62 | on parents `[1,2,3]` and `[3,2,1]` with cuts 1, 2 the first child is `[2,3,1]`: the segment lands at the front |
| Mutation.Swap | DavidBeck_VRP.py:72 | positions `i` and `j` are exchanged and every other position is kept |
| Mutation.Mutate | DavidBeck_VRP.py:67-73 | after the in-place pass the array holds `Mutated` of its old contents, and its multiset of loads is unchanged |
| Mutation.MutateAt | DavidBeck_VRP.py:68-72 | one iteration of the loop: the array after visiting position `i` is the pass's state after `i + 1` positions, swapped with the target only when the draw is below the rate |
| Mutation.MutateSteps | DavidBeck_VRP.py:68-72 | every prefix of the pass keeps the route's length and multiset, each step being a swap of two in-range positions |
| Mutation.Mutated | DavidBeck_VRP.py:67-73 | the whole pass keeps the route's length and its multiset of loads: nothing is lost or duplicated |
| Mutation.NoFireUnchanged | DavidBeck_VRP.py:68-69 | when no draw is below the rate the route comes back unchanged |
| Mutation.ZeroRateUnchanged | DavidBeck_VRP.py:69 | with rate at most 0 and draws in `[0, 1)` the route comes back unchanged |
| Mutation.UntouchedPositionSteps | DavidBeck_VRP.py:68-72 | a position that does not fire and is never a swap target keeps its load |
| Segmentation.PrefixesExtend | DavidBeck_VRP.py:103-105 | a load kept on the current route keeps every prefix of two or more loads within budget |
| Segmentation.KeepLoad | DavidBeck_VRP.py:103-105 | keeping a load that fits keeps the walk's invariant |
| Segmentation.CloseRoute | DavidBeck_VRP.py:105-107 | popping the load, closing the route and restarting with the load keeps the walk's invariant |
| Segmentation.SegmentRoutes | DavidBeck_VRP.py:99-110 | the result meets `GreedySplit`: the routes concatenate to the best candidate in order; every route of two or more loads is within budget, and so is every prefix of two or more loads of a route; each route was closed because the next route's first load did not fit; the first route is empty exactly when the first load alone is over budget; no later route is empty; for non-empty input the last route is non-empty; an empty input gives no routes |
| Segmentation.GreedySplitUnique | DavidBeck_VRP.py:99-110 | any two splits meeting `GreedySplit` for the same candidate are equal, so the walk's result is fully determined by it |
| Segmentation.ClosedGreedilyUnique | DavidBeck_VRP.py:101-107 | two splits into non-empty routes, each closed only when the next load did not fit, that spell out the same loads are equal |
| Segmentation.FirstRouteNotShorter | DavidBeck_VRP.py:101-107 | in such splits the first route of one is no longer than the first route of the other |
| Segmentation.RouteIds | DavidBeck_VRP.py:113 | one id list per route, list `k` being the ids of route `k`, and their concatenation is the ids of the concatenated routes |
| Segmentation.Ids | DavidBeck_VRP.py:113 | the ids of a route, position by position |
| Evolution.BestIndex | DavidBeck_VRP.py:97 | `min(population, key=...)`: the index of a least-cost candidate, preceded only by strictly costlier ones |
| Evolution.MinCost | DavidBeck_VRP.py:97 | the least cost of a non-empty population: no candidate costs less |
| Evolution.MinCostAttained | DavidBeck_VRP.py:97 | some candidate of the population costs exactly the least cost |
| Evolution.SortedBestIsFirst | DavidBeck_VRP.py:82 | in a population sorted by cost the least cost is the first candidate's |
| Evolution.MinCostPermutation | DavidBeck_VRP.py:82 | reordering a population (the sort) does not change its least cost |
| Evolution.PairsNeeded | DavidBeck_VRP.py:87-93 | the number of rounds of the `while` loop: enough to reach the size, and one fewer would not |
| Evolution.Kept | DavidBeck_VRP.py:85 | `population[:2]` carries two candidates forward, or all of them when there are fewer |
| Evolution.Pool | DavidBeck_VRP.py:89 | `population[:10]`: the first ten candidates, or all of them when there are fewer |
| Evolution.Offspring | DavidBeck_VRP.py:89-93 | the two children of a round have the catalog's length |
| Evolution.OffspringPermutation | DavidBeck_VRP.py:89-93 | both children of a round are permutations of the catalog |
| Evolution.Breed | DavidBeck_VRP.py:89-93 | the round's children, crossed and mutated in place, are `Offspring` of its draws |
| Evolution.MutateChild | DavidBeck_VRP.py:93 | mutating a fresh child list in place yields `Mutated` of it |
| Evolution.Children | DavidBeck_VRP.py:87-93 | two children per round |
| Evolution.ChildrenPairs | DavidBeck_VRP.py:87-93 | round `k` contributes children `2k` and `2k+1`, in the order `extend` appends them |
| Evolution.BroodPermutations | DavidBeck_VRP.py:89-93 | both children of every round are permutations of the catalog |
| Evolution.ChildrenPermutations | DavidBeck_VRP.py:87-93 | every child bred in a generation is a permutation of the catalog |
| Evolution.BreedRounds | DavidBeck_VRP.py:87-93 | the loop appends exactly the children of every round to the kept candidates |
| Evolution.PoolPermutations | DavidBeck_VRP.py:89 | the breeding pool `population[:10]` holds only permutations |
| Evolution.GenerationPermutations | DavidBeck_VRP.py:85-95 | kept candidates followed by permutation children form a population of permutations |
| Evolution.ElitismKeepsBest | DavidBeck_VRP.py:82-85 | a new population that starts with the first candidate of a sorted population has no greater least cost |
| Evolution.KeptSize | DavidBeck_VRP.py:85-93 | with size and target at least 2, two kept plus the bred pairs make the target rounded up to even |
| Evolution.NextGeneration | DavidBeck_VRP.py:82-95 | the new population is the first two candidates unchanged followed by the children of every round; all are permutations; the least cost never increases; for a target and population of at least 2, the size is the target rounded up to even |
| Evolution.SizeAt | DavidBeck_VRP.py:85-95 | a positive target keeps every generation non-empty |
| Evolution.SizeSettles | DavidBeck_VRP.py:85-95 | from the second generation on, a target of at least 2 gives the target rounded up to even |
| Evolution.Generation | DavidBeck_VRP.py:79-95 | one pass of the `for` loop: the new population is the first two candidates of the ranking `sortByCost(population)` followed by the children of every round bred from that ranking's top ten; it holds permutations only and has no greater least cost |
| Evolution.Ranked | DavidBeck_VRP.py:82 | the ranking is a cost-sorted reordering of the population, of the same size and holding only permutations |
| Evolution.Evolved | DavidBeck_VRP.py:79-95 | the population after `g` passes (ranking, first two kept, children appended) has the size `SizeAt` gives and holds only permutations |
| Evolution.PoolLargeEnough | DavidBeck_VRP.py:85-89 | whenever a generation breeds, the pool `population[:10]` holds at least three candidates |
| Evolution.Evolve | DavidBeck_VRP.py:78-95 | the loop's result is `Evolved` of the initial population after all generations, with the draws of the schedule; it has the expected size, holds only permutations, and its least cost is at most the initial one |
| Evolution.BestRoutes | DavidBeck_VRP.py:96-113 | the best candidate is the first least-cost one; its routes are its `GreedySplit` (the unique greedy split); route `k` of the result holds the ids of split route `k`; the returned ids list every load id exactly once, in the best candidate's order |
| Evolution.GeneticAlgorithm | DavidBeck_VRP.py:75-113 | with the defaults 50, 100 and 0.01: the final population is `Evolved` of the initial one after all generations; the best candidate is its first least-cost candidate, a permutation of the catalog no costlier than the best initial one; its routes are its `GreedySplit`; the output ids are those routes' ids and concatenate to the best candidate's ids, a permutation of the catalog's ids |

## Left out

- `read_input_file`, `parse_coordinates` and `main` (DavidBeck_VRP.py:19-36, 115-129): file I/O, command-line arguments, string parsing and printing.
- The Euclidean formula inside `Load.distance` (DavidBeck_VRP.py:16): floating-point square roots. `dist` is a parameter instead, and costs are exact reals with no rounding.
- The `random` module: cut points, draws, swap targets and parent choices are inputs. Their ranges are stated as preconditions.
- The `ValueError` crashes of the source are excluded by those preconditions rather than modelled:
  - `random.sample(range(len(parent1)), 2)` on a catalog of fewer than 2 loads (DavidBeck_VRP.py:57), whenever children are needed (`ValidBreeding` requires `cut1 < cut2 < n`);
  - `random.sample(population[:10], 2)` on a pool of fewer than 2 candidates (DavidBeck_VRP.py:89; `ValidBreeding` requires `first != second < poolSize`). This case cannot arise: `Evolution.PoolLargeEnough` shows that the pool holds at least three candidates whenever a round is bred, so this precondition excludes nothing reachable;
  - `min` of an empty population when `population_size <= 0` (DavidBeck_VRP.py:97; `populationSize >= 1` is required).
- The creation of the initial population (DavidBeck_VRP.py:78): only its result is used, as a precondition that every initial candidate is a permutation of the catalog.
- Evolution.SortsByCost: promises only that `sorted` returns an ordered permutation. Python's stability (ties keep their order) is not modelled, so which of several equal-cost candidates are kept may differ.
- Load identity: the catalog's loads are distinct values, standing in for distinct objects.
