/**
  The remaining-weight heuristic that steers a search through an ordered list
  of waypoints before the destination. Its state is the list of waypoints not
  yet passed; each estimate may drop the head of that list and returns the
  cost of the straight-line chain from the current vertex through all
  remaining points.

  Distances come from a caller-supplied non-negative function standing for
  the spherical distance library; reals stand for doubles.
*/
module WaypointsEuclideanHeuristic {
  import opened Wrappers

  /** A `GenericLocation`: latitude and longitude. */
  datatype Location = Location(lat: real, lng: real)

  /** `fastDistance(lat1, lng1, lat2, lng2)`, known only to be non-negative. */
  type DistanceFn = f: (Location, Location) -> real | forall a, b :: f(a, b) >= 0.0
    witness (a: Location, b: Location) => 0.0

  /** The position of a search-state vertex: `getX()` is the longitude and
      `getY()` the latitude. */
  datatype VertexPoint = VertexPoint(x: real, y: real)

  /** The location of a vertex: its y as latitude and its x as longitude. */
  function LocationOf(p: VertexPoint): Location
  {
    Location(p.y, p.x)
  }

  /** The heuristic's fields: `remainingWaypoints` (null before `initialize`),
      `alphaDistanceInM`, and the superclass's `walkReluctance` and
      `maxStreetSpeed`. */
  datatype Heuristic = Heuristic(
    remaining: Option<seq<Location>>,
    alphaDistanceInM: real,
    walkReluctance: real,
    maxStreetSpeed: real)

  /** The exceptions `computeForwardWeight` can throw. */
  datatype HeuristicError = NullPointer | IndexOutOfBounds

  /** A new heuristic state and the weight estimated for the current vertex. */
  datatype Estimate = Estimate(state: Heuristic, weight: real)

  /** The constructor: no waypoint list yet, superclass fields still zero. */
  function Create(alphaInM: real): (h: Heuristic)
    ensures h.remaining == None && h.alphaDistanceInM == alphaInM
  {
    Heuristic(None, alphaInM, 0.0, 0.0)
  }

  /** `initialize`: the remaining waypoints are the request's waypoints followed
      by its destination. */
  function Initialize(h: Heuristic, waypoints: seq<Location>, to: Location,
                      walkReluctance: real, maxStreetSpeed: real): (h': Heuristic)
    ensures h'.remaining.Some? && h'.remaining.value == waypoints + [to]
    ensures |h'.remaining.value| >= 1 && h'.remaining.value[|h'.remaining.value| - 1] == to
    ensures h'.alphaDistanceInM == h.alphaDistanceInM
    ensures h'.walkReluctance == walkReluctance && h'.maxStreetSpeed == maxStreetSpeed
  {
    Heuristic(Some(waypoints + [to]), h.alphaDistanceInM, walkReluctance, maxStreetSpeed)
  }

  /** The length of the straight-line chain through `points`, in order: the sum
      of the distances between consecutive points. */
  function ChainLength(points: seq<Location>, dist: DistanceFn): (r: real)
    ensures r >= 0.0
    ensures |points| <= 1 ==> r == 0.0
    ensures |points| >= 2 ==> r >= dist(points[0], points[1])
    decreases |points|
  {
    if |points| <= 1 then 0.0 else dist(points[0], points[1]) + ChainLength(points[1..], dist)
  }

  /** Extending a chain by one point adds the distance of the new last leg. */
  lemma {:induction false} ChainLengthSnoc(p: seq<Location>, q: Location, dist: DistanceFn)
    requires |p| >= 1
    ensures ChainLength(p + [q], dist) == ChainLength(p, dist) + dist(p[|p| - 1], q)
    decreases |p|
  {
    if |p| > 1 {
      assert (p + [q])[1..] == p[1..] + [q];
      ChainLengthSnoc(p[1..], q, dist);
    }
  }

  /** `calculateHeuristicCost(points)`: the loop summing the legs of the chain
      from the front, converted from distance to cost. */
  method CalculateHeuristicCost(points: seq<Location>, walkReluctance: real, maxStreetSpeed: real,
                                dist: DistanceFn) returns (cost: real)
    requires maxStreetSpeed != 0.0
    ensures cost == walkReluctance * ChainLength(points, dist) / maxStreetSpeed
  {
    var distance := 0.0;
    var i := 1;
    while i < |points|
      invariant 1 <= i
      invariant |points| >= 1 ==> i <= |points| && distance == ChainLength(points[..i], dist)
      invariant |points| == 0 ==> distance == 0.0
    {
      assert points[..i + 1] == points[..i] + [points[i]];
      ChainLengthSnoc(points[..i], points[i], dist);
      distance := distance + dist(points[i - 1], points[i]);
      i := i + 1;
    }
    if |points| >= 1 {
      assert points[..i] == points;
    }
    cost := walkReluctance * distance / maxStreetSpeed;
  }

  /** `calculateHeuristicCost(lat, lon, points)`: the cost of the chain that
      starts at the current vertex and then visits `points`. */
  function CostFrom(h: Heuristic, here: Location, points: seq<Location>, dist: DistanceFn): (r: real)
    requires h.maxStreetSpeed != 0.0
    ensures |points| == 0 ==> r == 0.0
    ensures |points| >= 1 ==>
      r == h.walkReluctance * (dist(here, points[0]) + ChainLength(points, dist)) / h.maxStreetSpeed
  {
    if |points| == 0 then
      h.walkReluctance * ChainLength([here], dist) / h.maxStreetSpeed
    else
      ChainFromHere(here, points, dist);
      h.walkReluctance * ChainLength([here] + points, dist) / h.maxStreetSpeed
  }

  /** The overload as the code runs it: prepend the current vertex to a copy
      of the points and run the list loop over the result. */
  method CalculateHeuristicCostFrom(h: Heuristic, here: Location, points: seq<Location>, dist: DistanceFn)
    returns (cost: real)
    requires h.maxStreetSpeed != 0.0
    ensures cost == CostFrom(h, here, points, dist)
  {
    var pts := [here] + points;
    cost := CalculateHeuristicCost(pts, h.walkReluctance, h.maxStreetSpeed, dist);
  }

  /** The chain from the current vertex is its leg to the first point plus the
      chain through the points. */
  lemma ChainFromHere(here: Location, points: seq<Location>, dist: DistanceFn)
    requires |points| >= 1
    ensures ChainLength([here] + points, dist) == dist(here, points[0]) + ChainLength(points, dist)
  {
    assert ([here] + points)[1..] == points;
  }

  /** `computeForwardWeight`: when more than the destination remains and the
      current vertex is within alpha of the next waypoint, that waypoint is
      passed; the weight is the cost of the chain through what remains. */
  function ComputeForwardWeight(h: Heuristic, sv: VertexPoint, dist: DistanceFn)
    : (r: Result<Estimate, HeuristicError>)
    requires h.remaining.Some? ==> h.maxStreetSpeed != 0.0
    ensures r.Success? <==> h.remaining.Some? && |h.remaining.value| >= 1
    ensures h.remaining.None? ==> r == Failure(NullPointer)
    ensures h.remaining == Some([]) ==> r == Failure(IndexOutOfBounds)
    ensures r.Success? ==>
      var before := h.remaining.value;
      var h' := r.value.state;
      && h'.alphaDistanceInM == h.alphaDistanceInM
      && h'.walkReluctance == h.walkReluctance
      && h'.maxStreetSpeed == h.maxStreetSpeed
      && h'.remaining.Some?
      && (h'.remaining.value == before || h'.remaining.value == before[1..])
      && (|h'.remaining.value| < |before| <==>
            |before| > 1 && dist(LocationOf(sv), before[0]) <= h.alphaDistanceInM)
      && |h'.remaining.value| >= 1
      && h'.remaining.value[|h'.remaining.value| - 1] == before[|before| - 1]
      && r.value.weight == CostFrom(h', LocationOf(sv), h'.remaining.value, dist)
  {
    match h.remaining
    case None => Failure(NullPointer)
    case Some(points) =>
      var here := LocationOf(sv);
      if |points| == 1 then
        Success(Estimate(h, CostFrom(h, here, points, dist)))
      else if |points| == 0 then
        Failure(IndexOutOfBounds)
      else
        var next := points[0];
        var left := if dist(here, next) <= h.alphaDistanceInM then points[1..] else points;
        var h' := h.(remaining := Some(left));
        Success(Estimate(h', CostFrom(h', here, left, dist)))
  }

  /** The state after estimating at each of `svs` in turn. */
  function Replay(h: Heuristic, svs: seq<VertexPoint>, dist: DistanceFn): (r: Result<Heuristic, HeuristicError>)
    requires h.remaining.Some? ==> h.maxStreetSpeed != 0.0
    ensures h.remaining.None? && svs != [] ==> r == Failure(NullPointer)
    ensures r.Success? ==> r.value.remaining.Some? == h.remaining.Some?
    ensures r.Success? ==>
      && r.value.alphaDistanceInM == h.alphaDistanceInM
      && r.value.walkReluctance == h.walkReluctance
      && r.value.maxStreetSpeed == h.maxStreetSpeed
    decreases |svs|
  {
    if svs == [] then Success(h)
    else Step(Replay(h, svs[..|svs| - 1], dist), svs[|svs| - 1], dist)
  }

  /** One more estimate after an earlier outcome; a failure propagates. */
  function Step(r: Result<Heuristic, HeuristicError>, sv: VertexPoint, dist: DistanceFn)
    : Result<Heuristic, HeuristicError>
    requires r.Success? && r.value.remaining.Some? ==> r.value.maxStreetSpeed != 0.0
  {
    match r
    case Failure(e) => Failure(e)
    case Success(h1) =>
      match ComputeForwardWeight(h1, sv, dist)
      case Failure(e) => Failure(e)
      case Success(est) => Success(est.state)
  }

  /** `s` is a suffix of `t`. */
  predicate SuffixOf(s: seq<Location>, t: seq<Location>)
  {
    |s| <= |t| && s == t[|t| - |s|..]
  }

  lemma SuffixTransitive(a: seq<Location>, b: seq<Location>, c: seq<Location>)
    requires SuffixOf(a, b) && SuffixOf(b, c)
    ensures SuffixOf(a, c)
  {
    assert c[|c| - |b|..][|b| - |a|..] == c[|c| - |a|..];
  }

  /** Once the list is non-empty, no sequence of estimates fails, and the list
      only ever loses elements from its front: it stays a non-empty suffix of
      what it was. */
  lemma {:induction false} ReplayKeepsSuffix(h: Heuristic, svs: seq<VertexPoint>, dist: DistanceFn)
    requires h.maxStreetSpeed != 0.0
    requires h.remaining.Some? && |h.remaining.value| >= 1
    ensures var r := Replay(h, svs, dist);
      && r.Success? && r.value.remaining.Some?
      && |r.value.remaining.value| >= 1
      && SuffixOf(r.value.remaining.value, h.remaining.value)
    decreases |svs|
  {
    if svs != [] {
      var prefix := svs[..|svs| - 1];
      ReplayKeepsSuffix(h, prefix, dist);
      var h1 := Replay(h, prefix, dist).value;
      var h2 := ComputeForwardWeight(h1, svs[|svs| - 1], dist).value.state;
      assert SuffixOf(h2.remaining.value, h1.remaining.value);
      SuffixTransitive(h2.remaining.value, h1.remaining.value, h.remaining.value);
    }
  }

  /** Estimating at `svs` and then at `more` is estimating at `svs + more`. */
  lemma {:induction false} ReplayAppend(h: Heuristic, svs: seq<VertexPoint>, more: seq<VertexPoint>, dist: DistanceFn)
    requires h.maxStreetSpeed != 0.0
    requires Replay(h, svs, dist).Success?
    ensures Replay(h, svs + more, dist) == Replay(Replay(h, svs, dist).value, more, dist)
    decreases |more|
  {
    if more == [] {
      assert svs + more == svs;
    } else {
      var all, front, last := svs + more, more[..|more| - 1], more[|more| - 1];
      assert all[..|all| - 1] == svs + front && all[|all| - 1] == last;
      ReplayAppend(h, svs, front, dist);
      assert Replay(h, all, dist) == Step(Replay(h, svs + front, dist), last, dist);
    }
  }

  /** Across calls the list of remaining waypoints never grows: the list after
      later estimates is a suffix of the list after earlier ones. */
  lemma ReplayMonotone(h: Heuristic, svs: seq<VertexPoint>, more: seq<VertexPoint>, dist: DistanceFn)
    requires h.maxStreetSpeed != 0.0
    requires h.remaining.Some? && |h.remaining.value| >= 1
    ensures Replay(h, svs, dist).Success? && Replay(h, svs + more, dist).Success?
    ensures SuffixOf(Replay(h, svs + more, dist).value.remaining.value,
                     Replay(h, svs, dist).value.remaining.value)
  {
    ReplayKeepsSuffix(h, svs, dist);
    ReplayAppend(h, svs, more, dist);
    ReplayKeepsSuffix(Replay(h, svs, dist).value, more, dist);
  }

  /** After `initialize`, every sequence of estimates succeeds, and the list of
      remaining waypoints is a non-empty suffix of the initial one that still
      ends with the destination. */
  lemma InitializedNeverEmpties(h: Heuristic, waypoints: seq<Location>, to: Location,
                                walkReluctance: real, maxStreetSpeed: real,
                                svs: seq<VertexPoint>, dist: DistanceFn)
    requires maxStreetSpeed != 0.0
    ensures var h0 := Initialize(h, waypoints, to, walkReluctance, maxStreetSpeed);
      var r := Replay(h0, svs, dist);
      && r.Success? && r.value.remaining.Some?
      && var left := r.value.remaining.value;
      && |left| >= 1
      && SuffixOf(left, waypoints + [to])
      && left[|left| - 1] == to
  {
    var h0 := Initialize(h, waypoints, to, walkReluctance, maxStreetSpeed);
    ReplayKeepsSuffix(h0, svs, dist);
  }
}
