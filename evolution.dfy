/**
 * The generation loop of DavidBeck_VRP.py (`genetic_algorithm`): elitist
 * selection, breeding from the top of the ranking, and the final split of
 * the best candidate into routes.
 *
 * Everything the source draws from `random` is a parameter: one `Breeding`
 * record per pair of children, and a sort function for Python's `sorted`.
 */
module Evolution {
  import opened Sequences
  import opened Loads
  import opened Recombination
  import opened Mutation
  import opened Segmentation

  /** Candidates carried forward unchanged (`population[:2]`). */
  const EliteCount: nat := 2

  /** Parents are drawn from this many top-ranked candidates (`population[:10]`). */
  const PoolSize: nat := 10

  function Min(a: nat, b: nat): nat {
    if a <= b then a else b
  }

  ghost predicate SortedByCost(dist: Metric, population: seq<Candidate>) {
    forall i, j :: 0 <= i < j < |population| ==> RouteCost(dist, population[i]) <= RouteCost(dist, population[j])
  }

  ghost predicate AllPermutationsOf(population: seq<Candidate>, loads: seq<Load>) {
    forall c :: c in population ==> IsPermutationOf(c, loads)
  }

  /**
   * `min(population, key=total_route_distance)`: the position of the first
   * candidate of least cost.
   */
  function BestIndex(dist: Metric, population: seq<Candidate>): (best: nat)
    requires |population| > 0
    ensures best < |population|
    ensures forall j :: 0 <= j < |population| ==> RouteCost(dist, population[best]) <= RouteCost(dist, population[j])
    ensures forall j :: 0 <= j < best ==> RouteCost(dist, population[j]) > RouteCost(dist, population[best])
  {
    if |population| == 1 then 0
    else
      var k := BestIndex(dist, population[..|population| - 1]);
      if RouteCost(dist, population[|population| - 1]) < RouteCost(dist, population[k]) then |population| - 1 else k
  }

  /** The least cost in a non-empty population: no candidate costs less. */
  function MinCost(dist: Metric, population: seq<Candidate>): (least: real)
    requires |population| > 0
    ensures forall j :: 0 <= j < |population| ==> least <= RouteCost(dist, population[j])
  {
    RouteCost(dist, population[BestIndex(dist, population)])
  }

  /** The least cost is attained: some candidate costs exactly `MinCost`. */
  lemma MinCostAttained(dist: Metric, population: seq<Candidate>)
    requires |population| > 0
    ensures exists j :: 0 <= j < |population| && MinCost(dist, population) == RouteCost(dist, population[j])
  {
    var best := BestIndex(dist, population);
    assert MinCost(dist, population) == RouteCost(dist, population[best]);
  }

  /** In a population sorted by cost the first candidate is the best one. */
  lemma SortedBestIsFirst(dist: Metric, population: seq<Candidate>)
    requires |population| > 0 && SortedByCost(dist, population)
    ensures BestIndex(dist, population) == 0
    ensures MinCost(dist, population) == RouteCost(dist, population[0])
  {
  }

  /** Reordering a population does not change its least cost. */
  lemma MinCostPermutation(dist: Metric, a: seq<Candidate>, b: seq<Candidate>)
    requires |a| > 0 && multiset(a) == multiset(b)
    ensures |b| > 0 && MinCost(dist, a) == MinCost(dist, b)
  {
    assert |b| == |multiset(a)| == |a|;
    var ia, ib := BestIndex(dist, a), BestIndex(dist, b);
    assert a[ia] in multiset(b) && b[ib] in multiset(a);
    var ja :| 0 <= ja < |b| && b[ja] == a[ia];
    var jb :| 0 <= jb < |a| && a[jb] == b[ib];
    assert MinCost(dist, b) <= RouteCost(dist, b[ja]);
    assert MinCost(dist, a) <= RouteCost(dist, a[jb]);
  }

  /**
   * What the source draws for one pair of children: two distinct positions
   * in the breeding pool (`random.sample(population[:10], 2)`), the two cut
   * points of `crossover`, and the mutation draws of each child.
   */
  datatype Breeding = Breeding(
    first: nat, second: nat, cut1: nat, cut2: nat,
    draws1: seq<real>, targets1: seq<nat>, draws2: seq<real>, targets2: seq<nat>)

  /** Draws the source can make for a pool of `poolSize` candidates of `n` loads. */
  predicate ValidBreeding(b: Breeding, poolSize: nat, n: nat) {
    && b.first < poolSize && b.second < poolSize && b.first != b.second
    && b.cut1 < b.cut2 < n
    && ValidDraws(n, b.draws1, b.targets1) && ValidDraws(n, b.draws2, b.targets2)
  }

  /**
   * How many candidates `population[:2]` carries forward from a population of
   * `size`: two, or all of them when there are fewer.
   */
  function Kept(size: nat): (kept: nat)
    ensures kept <= size && kept <= EliteCount && (kept < EliteCount ==> kept == size)
  {
    Min(EliteCount, size)
  }

  /** The rounds of the `while len(new_population) < population_size` loop. */
  function PairsNeeded(populationSize: nat, kept: nat): (pairs: nat)
    ensures populationSize <= kept + 2 * pairs
    ensures pairs > 0 ==> kept + 2 * (pairs - 1) < populationSize
  {
    if populationSize <= kept then 0 else (populationSize - kept + 1) / 2
  }

  /** The breeding pool: the top-ranked candidates (`population[:10]`). */
  function Pool(population: seq<Candidate>): (pool: seq<Candidate>)
    ensures |pool| == Min(PoolSize, |population|) && pool == population[..|pool|]
  {
    population[..Min(PoolSize, |population|)]
  }

  /** The two children of one breeding round: crossover, then mutation of each child. */
  function Offspring(loads: seq<Load>, pool: seq<Candidate>, b: Breeding, rate: real): (children: (Candidate, Candidate))
    requires Distinct(loads) && AllPermutationsOf(pool, loads)
    requires ValidBreeding(b, |pool|, |loads|)
    ensures |children.0| == |loads| && |children.1| == |loads|
  {
    var parent1, parent2 := pool[b.first], pool[b.second];
    assert parent1 in pool && parent2 in pool;
    assert |parent1| == |multiset(loads)|;
    CrossoverPermutation(loads, parent1, parent2, b.cut1, b.cut2);
    var (child1, child2) := Crossover(parent1, parent2, b.cut1, b.cut2);
    (Mutated(child1, b.draws1, rate, b.targets1), Mutated(child2, b.draws2, rate, b.targets2))
  }

  /** Both children of a round are permutations of the catalog. */
  lemma OffspringPermutation(loads: seq<Load>, pool: seq<Candidate>, b: Breeding, rate: real)
    requires Distinct(loads) && AllPermutationsOf(pool, loads)
    requires ValidBreeding(b, |pool|, |loads|)
    ensures IsPermutationOf(Offspring(loads, pool, b, rate).0, loads)
    ensures IsPermutationOf(Offspring(loads, pool, b, rate).1, loads)
  {
    var parent1, parent2 := pool[b.first], pool[b.second];
    assert parent1 in pool && parent2 in pool;
    CrossoverPermutation(loads, parent1, parent2, b.cut1, b.cut2);
    var (crossed1, crossed2) := Crossover(parent1, parent2, b.cut1, b.cut2);
  }

  /**
   * One breeding round (the body of the `while` loop): cross the two chosen
   * parents, then mutate each child in place.
   */
  method Breed(loads: seq<Load>, pool: seq<Candidate>, b: Breeding, rate: real) returns (child1: Candidate, child2: Candidate)
    requires Distinct(loads) && AllPermutationsOf(pool, loads)
    requires ValidBreeding(b, |pool|, |loads|)
    ensures (child1, child2) == Offspring(loads, pool, b, rate)
  {
    var parent1, parent2 := pool[b.first], pool[b.second];
    assert parent1 in pool && parent2 in pool;
    CrossoverPermutation(loads, parent1, parent2, b.cut1, b.cut2);
    var (crossed1, crossed2) := Crossover(parent1, parent2, b.cut1, b.cut2);
    child1 := MutateChild(crossed1, b.draws1, rate, b.targets1);
    child2 := MutateChild(crossed2, b.draws2, rate, b.targets2);
  }

  /** `mutate(child, mutation_rate)` on a freshly built child list. */
  method MutateChild(child: Candidate, draws: seq<real>, rate: real, targets: seq<nat>) returns (mutated: Candidate)
    requires ValidDraws(|child|, draws, targets)
    ensures mutated == Mutated(child, draws, rate, targets)
  {
    var route := new Load[|child|](j requires 0 <= j < |child| => child[j]);
    assert route[..] == child;
    Mutate(route, draws, rate, targets);
    mutated := route[..];
  }

  /** Draws the source can make for every round of one generation. */
  predicate ValidBreedings(breedings: seq<Breeding>, poolSize: nat, n: nat) {
    forall k :: 0 <= k < |breedings| ==> ValidBreeding(breedings[k], poolSize, n)
  }

  /** The two children of every round of `breedings`, round by round. */
  function Broods(loads: seq<Load>, pool: seq<Candidate>, breedings: seq<Breeding>, rate: real): (broods: seq<(Candidate, Candidate)>)
    requires Distinct(loads) && AllPermutationsOf(pool, loads)
    requires ValidBreedings(breedings, |pool|, |loads|)
    ensures |broods| == |breedings|
  {
    seq(|breedings|, k requires 0 <= k < |breedings| => Offspring(loads, pool, breedings[k], rate))
  }

  /** The children of the rounds of `breedings`, two per round, in the order they are bred. */
  function Children(loads: seq<Load>, pool: seq<Candidate>, breedings: seq<Breeding>, rate: real): (children: seq<Candidate>)
    requires Distinct(loads) && AllPermutationsOf(pool, loads)
    requires ValidBreedings(breedings, |pool|, |loads|)
    ensures |children| == 2 * |breedings|
  {
    Unpair(Broods(loads, pool, breedings, rate))
  }

  /** Round `k` contributes children `2k` and `2k + 1`. */
  lemma ChildrenPairs(loads: seq<Load>, pool: seq<Candidate>, breedings: seq<Breeding>, rate: real, k: nat)
    requires Distinct(loads) && AllPermutationsOf(pool, loads)
    requires ValidBreedings(breedings, |pool|, |loads|) && k < |breedings|
    ensures var children := Children(loads, pool, breedings, rate);
      (children[2 * k], children[2 * k + 1]) == Offspring(loads, pool, breedings[k], rate)
  {
    UnpairAt(Broods(loads, pool, breedings, rate), k);
  }

  /** Both children of every round are permutations of the catalog. */
  lemma BroodPermutations(loads: seq<Load>, pool: seq<Candidate>, breedings: seq<Breeding>, rate: real, round: nat)
    requires Distinct(loads) && AllPermutationsOf(pool, loads)
    requires ValidBreedings(breedings, |pool|, |loads|) && round < |breedings|
    ensures IsPermutationOf(Broods(loads, pool, breedings, rate)[round].0, loads)
    ensures IsPermutationOf(Broods(loads, pool, breedings, rate)[round].1, loads)
  {
    var pair := Offspring(loads, pool, breedings[round], rate);
    OffspringPermutation(loads, pool, breedings[round], rate);
    assert Broods(loads, pool, breedings, rate)[round] == pair;
  }

  /** Every child bred in a generation is a permutation of the catalog. */
  lemma ChildrenPermutations(loads: seq<Load>, pool: seq<Candidate>, breedings: seq<Breeding>, rate: real)
    requires Distinct(loads) && AllPermutationsOf(pool, loads)
    requires ValidBreedings(breedings, |pool|, |loads|)
    ensures var children := Children(loads, pool, breedings, rate);
      forall k :: 0 <= k < |children| ==> IsPermutationOf(children[k], loads)
  {
    var broods := Broods(loads, pool, breedings, rate);
    forall round | 0 <= round < |broods|
      ensures IsPermutationOf(broods[round].0, loads) && IsPermutationOf(broods[round].1, loads)
    {
      BroodPermutations(loads, pool, breedings, rate, round);
    }
    UnpairPermutations(broods, loads);
  }

  /**
   * The `while` loop of one generation: breed two children per round until
   * `next` holds at least `populationSize` candidates.
   */
  method BreedRounds(loads: seq<Load>, pool: seq<Candidate>, breedings: seq<Breeding>, rate: real,
                     start: seq<Candidate>, populationSize: nat) returns (next: seq<Candidate>)
    requires Distinct(loads) && AllPermutationsOf(pool, loads)
    requires ValidBreedings(breedings, |pool|, |loads|)
    requires |breedings| == PairsNeeded(populationSize, |start|)
    ensures next == start + Children(loads, pool, breedings, rate)
  {
    ghost var broods := Broods(loads, pool, breedings, rate);
    next := start;
    var round := 0;
    while |next| < populationSize
      invariant round <= |breedings| && |next| == |start| + 2 * round
      invariant next == start + Unpair(broods[..round])
      decreases populationSize - |next|
    {
      var child1, child2 := Breed(loads, pool, breedings[round], rate);
      assert broods[round] == Offspring(loads, pool, breedings[round], rate);
      UnpairSnoc(start, broods, round, child1, child2);
      next := next + [child1, child2];
      round := round + 1;
    }
    assert broods[..round] == broods;
  }

  /** Every candidate of the breeding pool comes from the population. */
  lemma PoolPermutations(population: seq<Candidate>, loads: seq<Load>)
    requires AllPermutationsOf(population, loads)
    ensures AllPermutationsOf(Pool(population), loads)
  {
    var pool := Pool(population);
    forall c | c in pool ensures c in population {
      var k :| 0 <= k < |pool| && pool[k] == c;
      assert population[k] == c;
    }
  }

  /** The kept candidates and the children are all permutations of the catalog. */
  lemma GenerationPermutations(population: seq<Candidate>, loads: seq<Load>, elites: nat, children: seq<Candidate>)
    requires AllPermutationsOf(population, loads) && elites <= |population|
    requires forall k :: 0 <= k < |children| ==> IsPermutationOf(children[k], loads)
    ensures AllPermutationsOf(population[..elites] + children, loads)
  {
    var next := population[..elites] + children;
    forall c | c in next ensures IsPermutationOf(c, loads) {
      var k :| 0 <= k < |next| && next[k] == c;
      if k < elites {
        assert population[k] == c;
      } else {
        assert children[k - elites] == c;
      }
    }
  }

  /**
   * Elitism: the best of a sorted population is carried forward, so the next
   * population is at least as good.
   */
  lemma ElitismKeepsBest(dist: Metric, population: seq<Candidate>, next: seq<Candidate>)
    requires |population| > 0 && SortedByCost(dist, population)
    requires |next| > 0 && next[0] == population[0]
    ensures MinCost(dist, next) <= MinCost(dist, population)
  {
    SortedBestIsFirst(dist, population);
  }

  /** With at least two candidates an odd size is rounded up by the surplus child. */
  lemma KeptSize(populationSize: nat, size: nat)
    requires populationSize >= 2 && size >= 2
    ensures Kept(size) + 2 * PairsNeeded(populationSize, Kept(size)) == populationSize + populationSize % 2
  {
  }

  /**
   * One generation on a population already sorted by cost: keep the first
   * two, then append children two at a time until the new population holds
   * at least `populationSize` candidates.
   */
  method NextGeneration(dist: Metric, loads: seq<Load>, population: seq<Candidate>, populationSize: nat,
                        rate: real, breedings: seq<Breeding>) returns (next: seq<Candidate>)
    requires Distinct(loads) && AllPermutationsOf(population, loads)
    requires SortedByCost(dist, population)
    requires |breedings| == PairsNeeded(populationSize, Kept(|population|))
    requires ValidBreedings(breedings, |Pool(population)|, |loads|)
    ensures AllPermutationsOf(Pool(population), loads)
    ensures next == population[..Kept(|population|)] + Children(loads, Pool(population), breedings, rate)
    ensures |next| == Kept(|population|) + 2 * |breedings|
    ensures AllPermutationsOf(next, loads)
    ensures |population| > 0 ==> MinCost(dist, next) <= MinCost(dist, population)
    ensures populationSize >= 2 && |population| >= 2 ==> |next| == populationSize + populationSize % 2
  {
    var elites := Kept(|population|);
    var pool := Pool(population);
    PoolPermutations(population, loads);
    next := BreedRounds(loads, pool, breedings, rate, population[..elites], populationSize);
    ChildrenPermutations(loads, pool, breedings, rate);
    GenerationPermutations(population, loads, elites, Children(loads, pool, breedings, rate));
    if |population| > 0 {
      ElitismKeepsBest(dist, population, next);
    }
    if populationSize >= 2 && |population| >= 2 {
      KeptSize(populationSize, |population|);
    }
  }

  /** The population size in generation `g` (the surplus child of an odd size is kept). */
  function SizeAt(populationSize: nat, g: nat): (size: nat)
    ensures populationSize >= 1 ==> size >= 1
  {
    if g == 0 then populationSize
    else
      var before := SizeAt(populationSize, g - 1);
      Kept(before) + 2 * PairsNeeded(populationSize, Kept(before))
  }

  /** From the second generation on, a size of two or more is rounded up to an even number. */
  lemma {:induction false} SizeSettles(populationSize: nat, g: nat)
    requires populationSize >= 2 && g >= 1
    ensures SizeAt(populationSize, g) == populationSize + populationSize % 2
  {
    if g > 1 {
      SizeSettles(populationSize, g - 1);
    }
  }

  /** The draws of every generation fit the population size of that generation. */
  ghost predicate ValidSchedule(schedule: seq<seq<Breeding>>, populationSize: nat, n: nat) {
    forall g :: 0 <= g < |schedule| ==>
      && |schedule[g]| == PairsNeeded(populationSize, Kept(SizeAt(populationSize, g)))
      && ValidBreedings(schedule[g], Min(PoolSize, SizeAt(populationSize, g)), n)
  }

  /** `sortByCost` returns its argument reordered by ascending cost. */
  ghost predicate SortsByCost(dist: Metric, sortByCost: seq<Candidate> -> seq<Candidate>) {
    forall p :: multiset(sortByCost(p)) == multiset(p) && SortedByCost(dist, sortByCost(p))
  }

  /**
   * One pass of the `for` loop: rank the population with `sortByCost`, then
   * build the next generation from the ranking.
   */
  method Generation(dist: Metric, loads: seq<Load>, population: seq<Candidate>, populationSize: nat, rate: real,
                    sortByCost: seq<Candidate> -> seq<Candidate>, breedings: seq<Breeding>) returns (next: seq<Candidate>)
    requires Distinct(loads) && |population| > 0 && AllPermutationsOf(population, loads)
    requires SortsByCost(dist, sortByCost)
    requires |breedings| == PairsNeeded(populationSize, Kept(|population|))
    requires ValidBreedings(breedings, Min(PoolSize, |population|), |loads|)
    ensures |sortByCost(population)| == |population|
    ensures AllPermutationsOf(Pool(sortByCost(population)), loads)
    ensures next == sortByCost(population)[..Kept(|population|)]
      + Children(loads, Pool(sortByCost(population)), breedings, rate)
    ensures |next| == Kept(|population|) + 2 * |breedings|
    ensures AllPermutationsOf(next, loads)
    ensures MinCost(dist, next) <= MinCost(dist, population)
  {
    var ranked := sortByCost(population);
    Ranked(dist, loads, population, sortByCost);
    MinCostPermutation(dist, population, ranked);
    next := NextGeneration(dist, loads, ranked, populationSize, rate, breedings);
  }

  /** The ranking of a population of permutations is a sorted population of permutations of the same size. */
  lemma Ranked(dist: Metric, loads: seq<Load>, population: seq<Candidate>, sortByCost: seq<Candidate> -> seq<Candidate>)
    requires AllPermutationsOf(population, loads) && SortsByCost(dist, sortByCost)
    ensures var ranked := sortByCost(population);
      && multiset(ranked) == multiset(population) && SortedByCost(dist, ranked)
      && |ranked| == |population| && AllPermutationsOf(ranked, loads)
  {
    var ranked := sortByCost(population);
    assert multiset(ranked) == multiset(population);
    assert |ranked| == |multiset(population)| == |population|;
    forall c | c in ranked ensures IsPermutationOf(c, loads) {
      assert c in multiset(population);
    }
  }

  /**
   * The population after `g` passes of the `for` loop from `initial`: each
   * pass ranks the population with `sortByCost`, keeps the first two of the
   * ranking and appends the children of that generation's rounds.
   */
  ghost function Evolved(dist: Metric, loads: seq<Load>, initial: seq<Candidate>, populationSize: nat, rate: real,
                         sortByCost: seq<Candidate> -> seq<Candidate>, schedule: seq<seq<Breeding>>, g: nat): (population: seq<Candidate>)
    requires Distinct(loads) && |initial| == populationSize && AllPermutationsOf(initial, loads)
    requires SortsByCost(dist, sortByCost)
    requires g <= |schedule| && ValidSchedule(schedule, populationSize, |loads|)
    ensures |population| == SizeAt(populationSize, g) && AllPermutationsOf(population, loads)
  {
    if g == 0 then initial
    else
      var before := Evolved(dist, loads, initial, populationSize, rate, sortByCost, schedule, g - 1);
      var ranked := sortByCost(before);
      Ranked(dist, loads, before, sortByCost);
      PoolPermutations(ranked, loads);
      var children := Children(loads, Pool(ranked), schedule[g - 1], rate);
      ChildrenPermutations(loads, Pool(ranked), schedule[g - 1], rate);
      GenerationPermutations(ranked, loads, Kept(|before|), children);
      ranked[..Kept(|before|)] + children
  }

  /**
   * Whenever a generation breeds, the pool `population[:10]` holds at least
   * three candidates, so `random.sample(population[:10], 2)` always has enough to draw from.
   */
  lemma PoolLargeEnough(populationSize: nat, g: nat)
    requires PairsNeeded(populationSize, Kept(SizeAt(populationSize, g))) > 0
    ensures Min(PoolSize, SizeAt(populationSize, g)) >= 3
  {
    if g > 0 && populationSize >= 2 {
      SizeSettles(populationSize, g);
    }
  }

  /** The `for` loop of `genetic_algorithm`: `generations` generations from `initial`. */
  method Evolve(dist: Metric, loads: seq<Load>, initial: seq<Candidate>, populationSize: nat,
                generations: nat, rate: real, sortByCost: seq<Candidate> -> seq<Candidate>,
                schedule: seq<seq<Breeding>>) returns (population: seq<Candidate>)
    requires Distinct(loads)
    requires populationSize >= 1 && |initial| == populationSize && AllPermutationsOf(initial, loads)
    requires SortsByCost(dist, sortByCost)
    requires |schedule| == generations && ValidSchedule(schedule, populationSize, |loads|)
    ensures population == Evolved(dist, loads, initial, populationSize, rate, sortByCost, schedule, generations)
    ensures |population| == SizeAt(populationSize, generations)
    ensures AllPermutationsOf(population, loads)
    ensures |population| > 0 && MinCost(dist, population) <= MinCost(dist, initial)
  {
    population := initial;
    for g := 0 to generations
      invariant population == Evolved(dist, loads, initial, populationSize, rate, sortByCost, schedule, g)
      invariant |population| == SizeAt(populationSize, g)
      invariant AllPermutationsOf(population, loads)
      invariant MinCost(dist, population) <= MinCost(dist, initial)
    {
      population := Generation(dist, loads, population, populationSize, rate, sortByCost, schedule[g]);
    }
  }

  /**
   * The tail of `genetic_algorithm`: take the best candidate of the final
   * population and split it greedily into routes of load ids.
   */
  method BestRoutes(dist: Metric, loads: seq<Load>, population: seq<Candidate>)
    returns (routes: seq<seq<int>>, ghost best: Candidate, ghost segments: seq<Candidate>)
    requires |population| > 0 && AllPermutationsOf(population, loads)
    ensures best == population[BestIndex(dist, population)]
    ensures IsPermutationOf(best, loads) && RouteCost(dist, best) == MinCost(dist, population)
    ensures routes == RouteIds(segments) && GreedySplit(dist, best, segments)
    ensures Flatten(routes) == Ids(best)
    ensures multiset(Flatten(routes)) == multiset(Ids(loads))
  {
    var bestSolution := population[BestIndex(dist, population)];
    assert bestSolution in population;
    best := bestSolution;
    var split := SegmentRoutes(dist, bestSolution);
    segments := split;
    routes := RouteIds(split);
    MapPermutation(IdOf, bestSolution, loads);
  }

  /**
   * `genetic_algorithm(loads, population_size, generations, mutation_rate)`
   * from the initial population on. The best candidate found is at least as
   * good as the best initial one and is a permutation of the catalog, and the
   * routes list every load id exactly once, in the best candidate's order.
   */
  method GeneticAlgorithm(dist: Metric, loads: seq<Load>, initial: seq<Candidate>,
                          sortByCost: seq<Candidate> -> seq<Candidate>, schedule: seq<seq<Breeding>>,
                          populationSize: nat := 50, generations: nat := 100, rate: real := 0.01)
    returns (routes: seq<seq<int>>, ghost final: seq<Candidate>, ghost best: Candidate, ghost segments: seq<Candidate>)
    requires Distinct(loads)
    requires populationSize >= 1 && |initial| == populationSize && AllPermutationsOf(initial, loads)
    requires SortsByCost(dist, sortByCost)
    requires |schedule| == generations && ValidSchedule(schedule, populationSize, |loads|)
    ensures final == Evolved(dist, loads, initial, populationSize, rate, sortByCost, schedule, generations)
    ensures |final| > 0 && best == final[BestIndex(dist, final)]
    ensures IsPermutationOf(best, loads)
    ensures RouteCost(dist, best) <= MinCost(dist, initial)
    ensures routes == RouteIds(segments) && GreedySplit(dist, best, segments)
    ensures Flatten(routes) == Ids(best)
    ensures multiset(Flatten(routes)) == multiset(Ids(loads))
  {
    var population := Evolve(dist, loads, initial, populationSize, generations, rate, sortByCost, schedule);
    final := population;
    routes, best, segments := BestRoutes(dist, loads, population);
  }
}
