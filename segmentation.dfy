/**
 * The greedy split of the best candidate into routes, the tail of
 * `genetic_algorithm` in DavidBeck_VRP.py.
 */
module Segmentation {
  import opened Sequences
  import opened Loads

  /** Every prefix of two or more loads of `route` is within budget. */
  ghost predicate PrefixesWithinBudget(dist: Metric, route: Candidate) {
    forall m :: 2 <= m <= |route| ==> WithinBudget(dist, route[..m], MaxRouteTime)
  }

  /** `route` was closed because `next` did not fit after it. */
  ghost predicate ClosedBefore(dist: Metric, route: Candidate, next: Candidate) {
    next != [] && !WithinBudget(dist, route + [next[0]], MaxRouteTime)
  }

  lemma PrefixesExtend(dist: Metric, route: Candidate, load: Load)
    requires PrefixesWithinBudget(dist, route)
    requires |route| >= 1 ==> WithinBudget(dist, route + [load], MaxRouteTime)
    ensures PrefixesWithinBudget(dist, route + [load])
  {
    var extended := route + [load];
    forall m | 2 <= m <= |extended| ensures WithinBudget(dist, extended[..m], MaxRouteTime) {
      if m <= |route| {
        assert extended[..m] == route[..m];
      } else {
        assert extended[..m] == extended;
      }
    }
  }

  /**
   * The state of the walk after the first `i` loads of `best`: the closed
   * `routes` and the `current` route together spell out `best[..i]`.
   */
  ghost predicate SplitSoFar(dist: Metric, best: Candidate, i: nat, routes: seq<Candidate>, current: Candidate) {
    && i <= |best|
    && Flatten(routes) + current == best[..i]
    && (i == 0 ==> routes == [] && current == [])
    && (i > 0 ==> current != [])
    && (forall k :: 0 <= k < |routes| ==> PrefixesWithinBudget(dist, routes[k]))
    && PrefixesWithinBudget(dist, current)
    && (forall k :: 0 < k < |routes| ==> ClosedBefore(dist, routes[k - 1], routes[k]))
    && (|routes| > 0 ==> ClosedBefore(dist, routes[|routes| - 1], current))
    && ((|routes| > 0 && routes[0] == []) <==> (i > 0 && !WithinBudget(dist, [best[0]], MaxRouteTime)))
  }

  /** The next load fits: it stays on the current route. */
  lemma KeepLoad(dist: Metric, best: Candidate, i: nat, routes: seq<Candidate>, current: Candidate)
    requires i < |best| && SplitSoFar(dist, best, i, routes, current)
    requires WithinBudget(dist, current + [best[i]], MaxRouteTime)
    ensures SplitSoFar(dist, best, i + 1, routes, current + [best[i]])
  {
    PrefixesExtend(dist, current, best[i]);
    assert best[..i + 1] == best[..i] + [best[i]];
    assert i == 0 ==> current + [best[i]] == [best[0]];
  }

  /** The next load does not fit: the current route is closed and the load starts a new one. */
  lemma CloseRoute(dist: Metric, best: Candidate, i: nat, routes: seq<Candidate>, current: Candidate)
    requires i < |best| && SplitSoFar(dist, best, i, routes, current)
    requires !WithinBudget(dist, current + [best[i]], MaxRouteTime)
    ensures SplitSoFar(dist, best, i + 1, routes + [current], [best[i]])
  {
    var extended := routes + [current];
    FlattenAppend(routes, current);
    assert best[..i + 1] == best[..i] + [best[i]];
    assert i == 0 ==> current + [best[i]] == [best[0]];
    assert extended[0] == if routes == [] then current else routes[0];
    AppendRoute(dist, routes, current);
  }

  /** Appending a route that was closed keeps the properties of the closed routes. */
  lemma AppendRoute(dist: Metric, routes: seq<Candidate>, current: Candidate)
    requires forall k :: 0 <= k < |routes| ==> PrefixesWithinBudget(dist, routes[k])
    requires PrefixesWithinBudget(dist, current)
    requires forall k :: 0 < k < |routes| ==> ClosedBefore(dist, routes[k - 1], routes[k])
    requires |routes| > 0 ==> ClosedBefore(dist, routes[|routes| - 1], current)
    ensures var extended := routes + [current];
      && (forall k :: 0 <= k < |extended| ==> PrefixesWithinBudget(dist, extended[k]))
      && (forall k :: 0 < k < |extended| ==> ClosedBefore(dist, extended[k - 1], extended[k]))
  {
    var extended := routes + [current];
    forall k | 0 < k < |extended| ensures ClosedBefore(dist, extended[k - 1], extended[k]) {
      if k < |routes| {
        assert extended[k - 1] == routes[k - 1] && extended[k] == routes[k];
      } else {
        assert extended[k - 1] == routes[|routes| - 1] && extended[k] == current;
      }
    }
    forall k | 0 <= k < |extended| ensures PrefixesWithinBudget(dist, extended[k]) {
      if k < |routes| {
        assert extended[k] == routes[k];
      }
    }
  }

  /**
   * What the greedy walk makes of `best`: the routes spell out `best`, every
   * prefix of two or more loads of a route is within budget (so is every
   * route of two or more loads), and each route was closed because adding
   * the next route's first load broke the budget. An empty route can only be
   * the first, when the first load alone is over budget; for non-empty input
   * the last route is non-empty.
   */
  ghost predicate GreedySplit(dist: Metric, best: Candidate, routes: seq<Candidate>) {
    && Flatten(routes) == best
    && (forall k :: 0 <= k < |routes| ==> PrefixesWithinBudget(dist, routes[k]))
    && (forall k :: 0 <= k < |routes| && |routes[k]| >= 2 ==> WithinBudget(dist, routes[k], MaxRouteTime))
    && (forall k :: 0 < k < |routes| ==> ClosedBefore(dist, routes[k - 1], routes[k]))
    && ((|routes| > 0 && routes[0] == []) <==> (best != [] && !WithinBudget(dist, [best[0]], MaxRouteTime)))
    && (forall k :: 0 < k < |routes| ==> routes[k] != [])
    && (best != [] ==> |routes| > 0 && routes[|routes| - 1] != [])
    && (best == [] ==> routes == [])
  }

  /**
   * Walks `best` left to right, appending each load to the current route; when
   * the route goes over budget the load is popped, the route is closed and a
   * new route is started with that load alone, which is not checked again.
   * The result is the greedy split, which `GreedySplitUnique` shows is the
   * only one.
   */
  method SegmentRoutes(dist: Metric, best: Candidate) returns (routes: seq<Candidate>)
    ensures GreedySplit(dist, best, routes)
  {
    routes := [];
    var currentRoute: Candidate := [];
    for i := 0 to |best|
      invariant SplitSoFar(dist, best, i, routes, currentRoute)
    {
      var load := best[i];
      ghost var before := currentRoute;
      currentRoute := currentRoute + [load];
      var valid := IsValidRoute(dist, currentRoute);
      if !valid {
        currentRoute := currentRoute[..|currentRoute| - 1];
        assert currentRoute == before;
        CloseRoute(dist, best, i, routes, currentRoute);
        routes := routes + [currentRoute];
        currentRoute := [load];
      } else {
        KeepLoad(dist, best, i, routes, before);
      }
    }
    assert best[..|best|] == best;
    if currentRoute != [] {
      FlattenAppend(routes, currentRoute);
      AppendRoute(dist, routes, currentRoute);
      routes := routes + [currentRoute];
    }
    forall k | 0 < k < |routes| ensures routes[k] != [] {
      assert ClosedBefore(dist, routes[k - 1], routes[k]);
    }
    forall k | 0 <= k < |routes| && |routes[k]| >= 2 ensures WithinBudget(dist, routes[k], MaxRouteTime) {
      assert routes[k][..|routes[k]|] == routes[k];
    }
  }

  /**
   * Non-empty routes, each within budget on its prefixes of two or more
   * loads and each closed only because the next route's first load did not fit.
   */
  ghost predicate ClosedGreedily(dist: Metric, routes: seq<Candidate>) {
    && (forall k :: 0 <= k < |routes| ==> routes[k] != [] && PrefixesWithinBudget(dist, routes[k]))
    && (forall k :: 0 < k < |routes| ==> ClosedBefore(dist, routes[k - 1], routes[k]))
  }

  /** Two greedily closed splits of the same loads start with routes of the same length. */
  lemma FirstRouteNotShorter(dist: Metric, s: Candidate, r1: seq<Candidate>, r2: seq<Candidate>)
    requires ClosedGreedily(dist, r1) && ClosedGreedily(dist, r2) && r1 != [] && r2 != []
    requires s == r1[0] + Flatten(r1[1..]) && s == r2[0] + Flatten(r2[1..])
    ensures |r1[0]| <= |r2[0]|
  {
    FirstRouteFits(dist, s, r1);
    FirstRouteClosed(dist, s, r2);
  }

  /** Every prefix of two or more loads of the first route is a prefix of `s` within budget. */
  lemma FirstRouteFits(dist: Metric, s: Candidate, routes: seq<Candidate>)
    requires ClosedGreedily(dist, routes) && routes != [] && s == routes[0] + Flatten(routes[1..])
    ensures forall m :: 2 <= m <= |routes[0]| ==> WithinBudget(dist, s[..m], MaxRouteTime)
  {
    forall m | 2 <= m <= |routes[0]| ensures WithinBudget(dist, s[..m], MaxRouteTime) {
      assert s[..m] == routes[0][..m];
    }
  }

  /** When loads follow the first route, the next of them does not fit after it. */
  lemma FirstRouteClosed(dist: Metric, s: Candidate, routes: seq<Candidate>)
    requires ClosedGreedily(dist, routes) && routes != [] && s == routes[0] + Flatten(routes[1..])
    ensures |routes[0]| >= 1
    ensures |routes[0]| < |s| ==> !WithinBudget(dist, s[..|routes[0]| + 1], MaxRouteTime)
  {
    var first, rest := routes[0], routes[1..];
    if |first| < |s| {
      assert Flatten(rest) != [];
      assert rest != [];
      FlattenCons(rest[0], rest[1..]);
      assert rest == [rest[0]] + rest[1..];
      assert ClosedBefore(dist, routes[0], routes[1]);
      assert first + [s[|first|]] == s[..|first| + 1];
    }
  }

  /** A greedily closed split is determined by the loads it spells out. */
  lemma {:induction false} ClosedGreedilyUnique(dist: Metric, s: Candidate, r1: seq<Candidate>, r2: seq<Candidate>)
    requires ClosedGreedily(dist, r1) && ClosedGreedily(dist, r2)
    requires Flatten(r1) == s && Flatten(r2) == s
    ensures r1 == r2
    decreases |s|
  {
    if r1 != [] {
      FlattenCons(r1[0], r1[1..]);
      assert r1 == [r1[0]] + r1[1..];
    }
    if r2 != [] {
      FlattenCons(r2[0], r2[1..]);
      assert r2 == [r2[0]] + r2[1..];
    }
    if r1 != [] && r2 != [] {
      FirstRouteNotShorter(dist, s, r1, r2);
      FirstRouteNotShorter(dist, s, r2, r1);
      var n := |r1[0]|;
      assert r1[0] == s[..n] == r2[0];
      assert Flatten(r1[1..]) == s[n..] == Flatten(r2[1..]);
      ClosedGreedilyTail(dist, r1);
      ClosedGreedilyTail(dist, r2);
      ClosedGreedilyUnique(dist, s[n..], r1[1..], r2[1..]);
    }
  }

  lemma ClosedGreedilyTail(dist: Metric, routes: seq<Candidate>)
    requires routes != [] && ClosedGreedily(dist, routes)
    ensures ClosedGreedily(dist, routes[1..])
  {
    var rest := routes[1..];
    forall k | 0 < k < |rest| ensures ClosedBefore(dist, rest[k - 1], rest[k]) {
      assert rest[k - 1] == routes[k] && rest[k] == routes[k + 1];
    }
  }

  /**
   * The greedy split is unique: any two splits of `best` meeting
   * `GreedySplit` are equal, so its clauses pin down the routes the walk
   * returns.
   */
  lemma GreedySplitUnique(dist: Metric, best: Candidate, r1: seq<Candidate>, r2: seq<Candidate>)
    requires GreedySplit(dist, best, r1) && GreedySplit(dist, best, r2)
    ensures r1 == r2
  {
    if best != [] {
      var rest1 := GreedyRest(dist, best, r1);
      var rest2 := GreedyRest(dist, best, r2);
      ClosedGreedilyUnique(dist, best, rest1, rest2);
    }
  }

  /** The routes after a possible empty first one are greedily closed and spell out `best`. */
  lemma GreedyRest(dist: Metric, best: Candidate, routes: seq<Candidate>) returns (rest: seq<Candidate>)
    requires best != [] && GreedySplit(dist, best, routes)
    ensures ClosedGreedily(dist, rest) && Flatten(rest) == best
    ensures routes == if !WithinBudget(dist, [best[0]], MaxRouteTime) then [[]] + rest else rest
  {
    if !WithinBudget(dist, [best[0]], MaxRouteTime) {
      rest := routes[1..];
      assert routes == [[]] + rest;
      FlattenCons([], rest);
      forall k | 0 < k < |rest| ensures ClosedBefore(dist, rest[k - 1], rest[k]) {
        assert rest[k - 1] == routes[k] && rest[k] == routes[k + 1];
      }
      forall k | 0 <= k < |rest| ensures rest[k] != [] && PrefixesWithinBudget(dist, rest[k]) {
        assert rest[k] == routes[k + 1];
      }
    } else {
      rest := routes;
    }
  }

  /** The load ids of each route: the list comprehension that `genetic_algorithm` returns. */
  function RouteIds(routes: seq<Candidate>): (ids: seq<seq<int>>)
    ensures |ids| == |routes| && forall k :: 0 <= k < |routes| ==> ids[k] == Ids(routes[k])
    ensures Flatten(ids) == Ids(Flatten(routes))
  {
    MapFlatten(IdOf, routes);
    seq(|routes|, k requires 0 <= k < |routes| => Map(IdOf, routes[k]))
  }

  function IdOf(load: Load): int {
    load.id
  }

  /** The load ids of one route, in order. */
  function Ids(route: Candidate): (ids: seq<int>)
    ensures |ids| == |route| && forall k :: 0 <= k < |route| ==> ids[k] == route[k].id
  {
    Map(IdOf, route)
  }
}
