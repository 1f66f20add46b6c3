/**
 * Loads, the depot and the route-cost model of DavidBeck_VRP.py.
 *
 * Coordinates are reals and the Euclidean square root is replaced by a
 * distance function `dist` passed in by the caller; every member keeps the
 * argument order the source uses.
 */
module Loads {

  datatype Point = Point(x: real, y: real)

  /** A distance between two coordinates (the source's `** 0.5` formula, abstracted). */
  type Metric = (Point, Point) -> real

  datatype Load = Load(id: int, pickup: Point, dropoff: Point) {
    /** `Load.distance`: measured from this load's pickup to `other`. */
    function DistanceTo(dist: Metric, other: Point): (d: real)
      ensures d == dist(pickup, other) && (NonNegative(dist) ==> d >= 0.0)
    {
      dist(pickup, other)
    }
  }

  /** An ordered sequence of loads: a candidate of the search, or one route. */
  type Candidate = seq<Load>

  /** Every route starts and ends here. */
  const Depot := Point(0.0, 0.0)

  /** The default `max_time` of `is_valid_route`. */
  const MaxRouteTime: real := 720.0

  ghost predicate NonNegative(dist: Metric) {
    forall p, q :: dist(p, q) >= 0.0
  }

  /** Where the vehicle stands before serving load `k` of `route`, having left `start`. */
  function Position(start: Point, route: Candidate, k: nat): Point
    requires k <= |route|
  {
    if k == 0 then start else route[k - 1].dropoff
  }

  /** The cost of serving load `k`: the deadhead to its pickup, then the laden leg. */
  function Leg(dist: Metric, start: Point, route: Candidate, k: nat): real
    requires k < |route|
  {
    route[k].DistanceTo(dist, Position(start, route, k)) + route[k].DistanceTo(dist, route[k].dropoff)
  }

  /** The cost of serving the first `n` loads of `route`, having left `start`. */
  function Legs(dist: Metric, start: Point, route: Candidate, n: nat): real
    requires n <= |route|
  {
    if n == 0 then 0.0 else Legs(dist, start, route, n - 1) + Leg(dist, start, route, n - 1)
  }

  /** The objective: from the depot, every load's two legs, then the return leg to the depot. */
  function RouteCost(dist: Metric, route: Candidate): real {
    Legs(dist, Depot, route, |route|) + dist(Position(Depot, route, |route|), Depot)
  }

  /** The same cost, walked from a current location to the end of the route. */
  function WalkCost(dist: Metric, current: Point, route: Candidate): real
    decreases |route|
  {
    if route == [] then dist(current, Depot)
    else
      route[0].DistanceTo(dist, current) + route[0].DistanceTo(dist, route[0].dropoff)
      + WalkCost(dist, route[0].dropoff, route[1..])
  }

  ghost predicate WithinBudget(dist: Metric, route: Candidate, maxTime: real) {
    RouteCost(dist, route) <= maxTime
  }

  /** `total_route_distance`: accumulates the legs while advancing the current location. */
  method TotalRouteDistance(dist: Metric, route: Candidate) returns (distance: real)
    ensures distance == RouteCost(dist, route)
  {
    distance := 0.0;
    var currentLocation := Depot;
    for k := 0 to |route|
      invariant distance == Legs(dist, Depot, route, k)
      invariant currentLocation == Position(Depot, route, k)
    {
      var load := route[k];
      distance := distance + (load.DistanceTo(dist, currentLocation) + load.DistanceTo(dist, load.dropoff));
      currentLocation := load.dropoff;
    }
    distance := distance + Load(0, currentLocation, Depot).DistanceTo(dist, Depot);
  }

  /** `is_valid_route`: the route's cost is within `maxTime`. */
  method IsValidRoute(dist: Metric, route: Candidate, maxTime: real := MaxRouteTime) returns (valid: bool)
    ensures valid <==> WithinBudget(dist, route, maxTime)
  {
    var cost := TotalRouteDistance(dist, route);
    valid := cost <= maxTime;
  }

  /** The empty route costs one depot-to-depot leg. */
  lemma EmptyRouteCost(dist: Metric)
    ensures RouteCost(dist, []) == dist(Depot, Depot)
  {
  }

  /** A single load costs depot to pickup, pickup to dropoff, dropoff back to the depot. */
  lemma SingleLoadCost(dist: Metric, load: Load)
    ensures RouteCost(dist, [load]) ==
      dist(load.pickup, Depot) + dist(load.pickup, load.dropoff) + dist(load.dropoff, Depot)
  {
    assert Legs(dist, Depot, [load], 1) == Leg(dist, Depot, [load], 0);
  }

  lemma {:induction false} LegsNonNegative(dist: Metric, start: Point, route: Candidate, n: nat)
    requires NonNegative(dist) && n <= |route|
    ensures Legs(dist, start, route, n) >= 0.0
  {
    if n > 0 {
      LegsNonNegative(dist, start, route, n - 1);
      assert Leg(dist, start, route, n - 1) >= 0.0;
    }
  }

  /** With a non-negative distance every route costs at least zero. */
  lemma RouteCostNonNegative(dist: Metric, route: Candidate)
    requires NonNegative(dist)
    ensures RouteCost(dist, route) >= 0.0
  {
    LegsNonNegative(dist, Depot, route, |route|);
  }

  /** Legs of a prefix only look at that prefix. */
  lemma {:induction false} LegsPrefix(dist: Metric, start: Point, route: Candidate, more: Candidate, n: nat)
    requires n <= |route|
    ensures Legs(dist, start, route + more, n) == Legs(dist, start, route, n)
  {
    if n > 0 {
      LegsPrefix(dist, start, route, more, n - 1);
      assert Position(start, route + more, n - 1) == Position(start, route, n - 1);
    }
  }

  /**
   * Appending a load to a route replaces its return leg by the deadhead to
   * the new pickup, the laden leg and a return leg from the new dropoff.
   */
  lemma AppendCost(dist: Metric, route: Candidate, load: Load)
    ensures RouteCost(dist, route + [load]) ==
      Legs(dist, Depot, route, |route|) + dist(load.pickup, Position(Depot, route, |route|))
      + dist(load.pickup, load.dropoff) + dist(load.dropoff, Depot)
  {
    LegsPrefix(dist, Depot, route, [load], |route|);
    assert Position(Depot, route + [load], |route|) == Position(Depot, route, |route|);
  }

  /** Serving one more load first: its two legs, then the rest from its dropoff. */
  lemma {:induction false} LegsCons(dist: Metric, start: Point, load: Load, route: Candidate, n: nat)
    requires n <= |route|
    ensures Legs(dist, start, [load] + route, n + 1) ==
      load.DistanceTo(dist, start) + load.DistanceTo(dist, load.dropoff)
      + Legs(dist, load.dropoff, route, n)
  {
    if n > 0 {
      LegsCons(dist, start, load, route, n - 1);
      assert Position(start, [load] + route, n) == Position(load.dropoff, route, n - 1);
      assert ([load] + route)[n] == route[n - 1];
    }
  }

  lemma {:induction false} WalkCostAsLegs(dist: Metric, start: Point, route: Candidate)
    ensures WalkCost(dist, start, route) ==
      Legs(dist, start, route, |route|) + dist(Position(start, route, |route|), Depot)
    decreases |route|
  {
    if route != [] {
      var rest := route[1..];
      WalkCostAsLegs(dist, route[0].dropoff, rest);
      LegsCons(dist, start, route[0], rest, |rest|);
      assert [route[0]] + rest == route;
      assert Position(start, route, |route|) == Position(route[0].dropoff, rest, |rest|);
    }
  }

  /**
   * The accumulated cost equals the step-by-step walk: serve the first load
   * from the current location, then walk the rest from its dropoff.
   */
  lemma RouteCostIsWalk(dist: Metric, route: Candidate)
    ensures RouteCost(dist, route) == WalkCost(dist, Depot, route)
  {
    WalkCostAsLegs(dist, Depot, route);
  }
}
