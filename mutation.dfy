/**
 * The swap mutation of DavidBeck_VRP.py (`mutate`), in place on an array.
 *
 * The source draws `random.random()` once per position and, when that draw
 * is below the mutation rate, a target `random.randint(0, len(route) - 1)`.
 * Both streams are parameters: `draws[i]` is the draw at position `i` and
 * `targets[i]` the swap target used if position `i` fires.
 */
module Mutation {
  import opened Loads

  /** One draw and one in-range target per position. */
  predicate ValidDraws(n: nat, draws: seq<real>, targets: seq<nat>) {
    |draws| == n && |targets| == n && forall k :: 0 <= k < n ==> targets[k] < n
  }

  /** Exchanges positions `i` and `j` (which may coincide). */
  function Swap(route: Candidate, i: nat, j: nat): (r: Candidate)
    requires i < |route| && j < |route|
    ensures |r| == |route| && r[i] == route[j] && r[j] == route[i]
    ensures forall k :: 0 <= k < |route| && k != i && k != j ==> r[k] == route[k]
    ensures multiset(r) == multiset(route)
  {
    route[i := route[j]][j := route[i]]
  }

  /** The route after positions `0 .. n-1` have been visited. */
  function MutateSteps(route: Candidate, draws: seq<real>, rate: real, targets: seq<nat>, n: nat): (r: Candidate)
    requires ValidDraws(|route|, draws, targets) && n <= |route|
    ensures |r| == |route| && multiset(r) == multiset(route)
  {
    if n == 0 then route
    else
      var before := MutateSteps(route, draws, rate, targets, n - 1);
      if draws[n - 1] < rate then Swap(before, n - 1, targets[n - 1]) else before
  }

  /** The route after the whole left-to-right pass. */
  function Mutated(route: Candidate, draws: seq<real>, rate: real, targets: seq<nat>): (r: Candidate)
    requires ValidDraws(|route|, draws, targets)
    ensures |r| == |route| && multiset(r) == multiset(route)
  {
    MutateSteps(route, draws, rate, targets, |route|)
  }

  /** `mutate(route, mutation_rate)`: swaps in place, left to right. */
  method Mutate(route: array<Load>, draws: seq<real>, rate: real, targets: seq<nat>)
    requires ValidDraws(route.Length, draws, targets)
    modifies route
    ensures route[..] == Mutated(old(route[..]), draws, rate, targets)
    ensures multiset(route[..]) == multiset(old(route[..]))
  {
    ghost var original := route[..];
    for i := 0 to route.Length
      invariant route[..] == MutateSteps(original, draws, rate, targets, i)
    {
      MutateAt(route, draws, rate, targets, i, original);
    }
  }

  /**
   * One iteration of the `for` loop of `mutate`: position `i` swaps with its target
   * when its draw is below the rate.
   */
  method MutateAt(route: array<Load>, draws: seq<real>, rate: real, targets: seq<nat>, i: nat, ghost original: Candidate)
    requires ValidDraws(route.Length, draws, targets) && |original| == route.Length && i < route.Length
    requires route[..] == MutateSteps(original, draws, rate, targets, i)
    modifies route
    ensures route[..] == MutateSteps(original, draws, rate, targets, i + 1)
  {
    if draws[i] < rate {
      var swapWith := targets[i];
      route[i], route[swapWith] := route[swapWith], route[i];
    }
  }

  lemma {:induction false} NoFireSteps(route: Candidate, draws: seq<real>, rate: real, targets: seq<nat>, n: nat)
    requires ValidDraws(|route|, draws, targets) && n <= |route|
    requires forall k :: 0 <= k < n ==> !(draws[k] < rate)
    ensures MutateSteps(route, draws, rate, targets, n) == route
  {
    if n > 0 {
      NoFireSteps(route, draws, rate, targets, n - 1);
    }
  }

  /** When no draw falls below the rate, the route comes back unchanged. */
  lemma NoFireUnchanged(route: Candidate, draws: seq<real>, rate: real, targets: seq<nat>)
    requires ValidDraws(|route|, draws, targets)
    requires forall k :: 0 <= k < |route| ==> !(draws[k] < rate)
    ensures Mutated(route, draws, rate, targets) == route
  {
    NoFireSteps(route, draws, rate, targets, |route|);
  }

  /**
   * With rate 0 (or less) nothing moves, since `random.random()` never
   * returns a negative number.
   */
  lemma ZeroRateUnchanged(route: Candidate, draws: seq<real>, rate: real, targets: seq<nat>)
    requires ValidDraws(|route|, draws, targets)
    requires rate <= 0.0 && forall k :: 0 <= k < |draws| ==> 0.0 <= draws[k] < 1.0
    ensures Mutated(route, draws, rate, targets) == route
  {
    NoFireUnchanged(route, draws, rate, targets);
  }

  /** A position that does not fire and is never a swap target keeps its load. */
  lemma {:induction false} UntouchedPositionSteps(route: Candidate, draws: seq<real>, rate: real, targets: seq<nat>, n: nat, p: nat)
    requires ValidDraws(|route|, draws, targets) && n <= |route| && p < |route|
    requires p >= n || !(draws[p] < rate)
    requires forall k :: 0 <= k < n && draws[k] < rate ==> targets[k] != p
    ensures MutateSteps(route, draws, rate, targets, n)[p] == route[p]
  {
    if n > 0 {
      UntouchedPositionSteps(route, draws, rate, targets, n - 1, p);
    }
  }
}
