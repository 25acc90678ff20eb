# Search-support logic of a multimodal routing engine, in Dafny

This project models three small pieces of OpenTripPlanner that sit around its
A* search:

- **Multi-target termination** (`MultiTargetTerminationStrategy`, module
  `MultiTargetTermination`). A one-to-many search stops once every target
  vertex is reached. It may also stop once an abort time has passed and the
  reached fraction of the targets meets a reach percentage. Each strategy is an
  immutable `Strategy` value. Each `shouldSearchTerminate` call is the pure step
  `ShouldSearchTerminate`. It returns the next value and the decision.
- **Intersection contraction** (`StreetUtils.unify`, module `StreetUtils`). This
  is a build-time rewrite of the street graph. A degree-1 intersection becomes a
  `DeadEnd` vertex. A degree-2 intersection is merged into one
  `GenericStreetIntersectionVertex`, which takes over the members' in-streets
  and out-streets. Every other degree is skipped. The graph is a map from vertex
  id to vertex, plus a map from edge id to the edge's (from, to) endpoints. Java
  tells vertices apart by object identity; the model instead gives each new
  vertex the `nextId` of the `Graph` value and then increments it.
- **Waypoint heuristic** (`WaypointsEuclideanHeuristic`, module of the same
  name). The heuristic keeps the list of waypoints not yet passed, with the
  destination last. An estimate may drop the head of that list, but never the
  destination. It returns `walkReluctance * chain length / maxStreetSpeed`,
  where the chain runs from the current vertex through every remaining point.

Java exceptions become `Failure` values of `Wrappers.Result`:

- `ClassCastException` and `IndexOutOfBoundsException` in `unify`;
- `NullPointerException` and `IndexOutOfBoundsException` in
  `computeForwardWeight`.

Java `null` and NaN become `Wrappers.Option.None`.

Inputs the code takes from outside become parameters:

- the wall clock, and the value `DateUtils.absoluteTimeout(timeout)` returns at
  each call (fields of `MultiTargetTermination.Call`);
- the spherical distance. It is a function parameter of subset type
  `DistanceFn`, whose only known property is that it is non-negative;
- `walkReluctance` and `maxStreetSpeed`, which the superclass sets up
  (arguments of `Initialize`).

Java sentinels are kept exactly:

- `LongMin` and `LongMax` are the Java `long` bounds;
- `DoubleMinValue` is `Double.MIN_VALUE`, exactly 2^-1074;
- the one-argument constructor passes `Long.MIN_VALUE` as a double, which is
  -2^63 (`LongMinAsDouble`). That is not the `Double.MIN_VALUE` no-timeout
  sentinel (`SentinelsDistinct`).
  `DefaultStrategyTakesDeadline` shows that this constructor takes its abort
  time from `absoluteTimeout` on the first call.

Points of the Java code that the model keeps exactly:

- With no timeout, `setAbortTime` re-pins the abort time to `Long.MAX_VALUE`
  on every call. Otherwise it recomputes the abort time on each call while
  the abort time is still `Long.MIN_VALUE`, so it recomputes again if
  `absoluteTimeout` returned `Long.MIN_VALUE`. `AbortTimeFixedAfterFirstCall`
  states the exact condition under which the first call fixes it.
- `unify` dispatches on `getDegree()`, not on the number of members. A
  degree-1 intersection removes only its first member. A degree-2
  intersection merges every member in its list, however many there are.

## Model

| member | source | states |
|---|---|---|
| MultiTargetTermination.Create | src/main/java/org/opentripplanner/routing/algorithm/strategies/MultiTargetTerminationStrategy.java:33-38 | a new strategy splits the target set into all-unreached and nothing-reached, with the abort time unset (`Long.MIN_VALUE`) and the given timeout and reach percentage |
| MultiTargetTermination.CreateWithTimeout | src/main/java/org/opentripplanner/routing/algorithm/strategies/MultiTargetTerminationStrategy.java:40-42 | the two-argument constructor is the three-argument one with reach percentage 0.95 |
| MultiTargetTermination.CreateDefault | src/main/java/org/opentripplanner/routing/algorithm/strategies/MultiTargetTerminationStrategy.java:29-31 | the one-argument constructor uses reach 0.95 and timeout `Long.MIN_VALUE` as a double, which differs from the `Double.MIN_VALUE` no-timeout sentinel |
| MultiTargetTermination.SetAbortTime | src/main/java/org/opentripplanner/routing/algorithm/strategies/MultiTargetTerminationStrategy.java:78-84 | with no timeout the abort time becomes `Long.MAX_VALUE`; otherwise an unset abort time takes the `absoluteTimeout` value and a set one is kept; the target sets are untouched |
| MultiTargetTermination.ReachedRatio | src/main/java/org/opentripplanner/routing/algorithm/strategies/MultiTargetTerminationStrategy.java:72-76 | the ratio is NaN exactly when there are no targets; otherwise it lies in [0, 1], is 1 iff nothing is unreached and 0 iff nothing is reached |
| MultiTargetTermination.ShouldSearchTerminate | src/main/java/org/opentripplanner/routing/algorithm/strategies/MultiTargetTerminationStrategy.java:57-70 | the abort time is what `setAbortTime` gives for this call's `absoluteTimeout`; an unreached current vertex moves to the reached set, and otherwise both sets are unchanged; the union and disjointness of the sets are kept; unreached only shrinks and reached only grows; an empty unreached set always stops the search |
| MultiTargetTermination.PartitionPreserved | src/main/java/org/opentripplanner/routing/algorithm/strategies/MultiTargetTerminationStrategy.java:64-67 | if the two sets partition the original targets before a call, they do after it, so `|reached| + |unreached|` stays `|targets|` |
| MultiTargetTermination.NoTimeoutStopsOnlyWhenComplete | src/main/java/org/opentripplanner/routing/algorithm/strategies/MultiTargetTerminationStrategy.java:68-84 | with the `Double.MIN_VALUE` timeout the abort time becomes `Long.MAX_VALUE` and the call stops the search iff no target is unreached |
| MultiTargetTermination.BeforeDeadlineStopsOnlyWhenComplete | src/main/java/org/opentripplanner/routing/algorithm/strategies/MultiTargetTerminationStrategy.java:68-69 | when the abort time is `Long.MAX_VALUE` or not yet passed, the call stops the search iff no target is unreached |
| MultiTargetTermination.QuorumAfterDeadline | src/main/java/org/opentripplanner/routing/algorithm/strategies/MultiTargetTerminationStrategy.java:68-76 | once a finite abort time has passed, the call stops the search iff all targets are reached or `|reached| >= reachPercentage * |original targets|` |
| MultiTargetTermination.EmptyTargetsStopAtOnce | src/main/java/org/opentripplanner/routing/algorithm/strategies/MultiTargetTerminationStrategy.java:68 | a strategy over no targets stops the search on its first call, whatever its timeout and reach |
| MultiTargetTermination.Replay | src/main/java/org/opentripplanner/routing/algorithm/strategies/MultiTargetTerminationStrategy.java:64-67 | after a sequence of calls, unreached is the initial unreached set minus the visited vertices, and reached gains exactly the visited initially-unreached ones |
| MultiTargetTermination.NoTimeoutStopsIffAllVisited | src/main/java/org/opentripplanner/routing/algorithm/strategies/MultiTargetTerminationStrategy.java:59-69 | without a timeout, a call stops the search iff the calls so far, this one included, have visited every target |
| MultiTargetTermination.AbortTimeStable | src/main/java/org/opentripplanner/routing/algorithm/strategies/MultiTargetTerminationStrategy.java:78-84 | once the abort time is set (and is `Long.MAX_VALUE` when there is no timeout), no further call changes it |
| MultiTargetTermination.AbortTimeFixedAfterFirstCall | src/main/java/org/opentripplanner/routing/algorithm/strategies/MultiTargetTerminationStrategy.java:78-84 | if `absoluteTimeout` does not return `Long.MIN_VALUE` at the first call, the abort time after that call never changes again |
| MultiTargetTermination.DefaultStrategyTakesDeadline | src/main/java/org/opentripplanner/routing/algorithm/strategies/MultiTargetTerminationStrategy.java:29-31 | the one-argument constructor's first call takes its abort time from `absoluteTimeout`, not `Long.MAX_VALUE` |
| StreetUtils.FirstMiscast | opentripplanner-graph-builder/src/main/java/org/opentripplanner/graph_builder/services/StreetUtils.java:40-43 | the member whose cast throws is the first member in list order that is not an `IntersectionVertex` |
| StreetUtils.AbsorbMember | opentripplanner-graph-builder/src/main/java/org/opentripplanner/graph_builder/services/StreetUtils.java:43-52 | one loop step removes the member, appends its non-null in-street to the incoming list and its non-null out-street to the outgoing list, and keeps the edge set |
| StreetUtils.AbsorbMemberRepoints | opentripplanner-graph-builder/src/main/java/org/opentripplanner/graph_builder/services/StreetUtils.java:44-51 | one loop step points the member's in-street's to-vertex (out-street's from-vertex) at the new vertex and leaves every other edge endpoint alone |
| StreetUtils.Absorb | opentripplanner-graph-builder/src/main/java/org/opentripplanner/graph_builder/services/StreetUtils.java:42-53 | the whole loop over the members keeps the edge set |
| StreetUtils.AbsorbRemoves | opentripplanner-graph-builder/src/main/java/org/opentripplanner/graph_builder/services/StreetUtils.java:42-53 | the loop removes every member from the vertex map and nothing else |
| StreetUtils.AbsorbCollects | opentripplanner-graph-builder/src/main/java/org/opentripplanner/graph_builder/services/StreetUtils.java:42-53 | the incoming (outgoing) list after the loop is the members' non-null in-streets (out-streets), in member order |
| StreetUtils.AbsorbRepoints | opentripplanner-graph-builder/src/main/java/org/opentripplanner/graph_builder/services/StreetUtils.java:42-53 | after the loop an edge's to-vertex (from-vertex) is the new vertex if the edge is some member's in-street (out-street), and is unchanged otherwise |
| StreetUtils.Merge | opentripplanner-graph-builder/src/main/java/org/opentripplanner/graph_builder/services/StreetUtils.java:37-54 | degree 2: the vertex set loses every member and gains exactly one new vertex, which copies the first member's label, x, y and name and holds the in-streets and out-streets; all other vertices and all other edge endpoints are unchanged |
| StreetUtils.MergedDegree | opentripplanner-graph-builder/src/main/java/org/opentripplanner/graph_builder/services/StreetUtils.java:44-51 | the new vertex's incoming (outgoing) count equals the number of members with a non-null in-street (out-street) |
| StreetUtils.UnifyOne | opentripplanner-graph-builder/src/main/java/org/opentripplanner/graph_builder/services/StreetUtils.java:31-55 | one intersection fails iff it is degree 1 or 2 with no members or a failing cast: no members gives `IndexOutOfBounds`, a miscast gives `ClassCast` naming the first member (degree 1) or the first non-`IntersectionVertex` member (degree 2); other degrees leave the graph unchanged; degree 1 removes the first member and adds one `DeadEnd` wrapping it, with edges unchanged; degree 2 removes all members and adds one vertex; only degree-2 members' streets are repointed |
| StreetUtils.Unify | opentripplanner-graph-builder/src/main/java/org/opentripplanner/graph_builder/services/StreetUtils.java:29-57 | the pass succeeds iff every intersection is well cast; it keeps the edge set and creates exactly one vertex per degree-1 or degree-2 intersection |
| StreetUtils.UnifyVertices | opentripplanner-graph-builder/src/main/java/org/opentripplanner/graph_builder/services/StreetUtils.java:29-57 | after the pass the vertex set is the old one minus the removed members plus the new vertices; every vertex not removed keeps its data |
| StreetUtils.UnifyEdges | opentripplanner-graph-builder/src/main/java/org/opentripplanner/graph_builder/services/StreetUtils.java:29-57 | an edge that is no degree-2 member's in-street (out-street) keeps its to-vertex (from-vertex); one that is points to a new vertex that is in the graph |
| StreetUtils.UnifySkipsTrueIntersections | opentripplanner-graph-builder/src/main/java/org/opentripplanner/graph_builder/services/StreetUtils.java:29-57 | a pass over intersections none of which has degree 1 or 2 returns the graph unchanged |
| WaypointsEuclideanHeuristic.Create | src/main/java/org/opentripplanner/routing/algorithm/strategies/WaypointsEuclideanHeuristic.java:19-21 | a new heuristic has no waypoint list yet and keeps the alpha distance |
| WaypointsEuclideanHeuristic.Initialize | src/main/java/org/opentripplanner/routing/algorithm/strategies/WaypointsEuclideanHeuristic.java:24-29 | the remaining list is the waypoints followed by the destination, so it is non-empty and ends with the destination |
| WaypointsEuclideanHeuristic.ChainLength | src/main/java/org/opentripplanner/routing/algorithm/strategies/WaypointsEuclideanHeuristic.java:54-62 | the chain length is non-negative, is 0 for at most one point, and is at least the first leg |
| WaypointsEuclideanHeuristic.ChainLengthSnoc | src/main/java/org/opentripplanner/routing/algorithm/strategies/WaypointsEuclideanHeuristic.java:56-60 | appending a point adds exactly the distance from the old last point to it |
| WaypointsEuclideanHeuristic.CalculateHeuristicCost | src/main/java/org/opentripplanner/routing/algorithm/strategies/WaypointsEuclideanHeuristic.java:54-62 | the front-to-back loop returns `walkReluctance * ChainLength(points) / maxStreetSpeed` |
| WaypointsEuclideanHeuristic.CostFrom | src/main/java/org/opentripplanner/routing/algorithm/strategies/WaypointsEuclideanHeuristic.java:46-52 | the cost from the current vertex through the points is 0 for no points, and otherwise `walkReluctance * (leg to the first point + chain through the points) / maxStreetSpeed` |
| WaypointsEuclideanHeuristic.CalculateHeuristicCostFrom | src/main/java/org/opentripplanner/routing/algorithm/strategies/WaypointsEuclideanHeuristic.java:46-52 | prepending the current vertex and running the list loop gives exactly that cost |
| WaypointsEuclideanHeuristic.ChainFromHere | src/main/java/org/opentripplanner/routing/algorithm/strategies/WaypointsEuclideanHeuristic.java:46-52 | the chain from the current vertex is its leg to the first point plus the chain through the points |
| WaypointsEuclideanHeuristic.ComputeForwardWeight | src/main/java/org/opentripplanner/routing/algorithm/strategies/WaypointsEuclideanHeuristic.java:32-44 | the call fails with a null pointer before `initialize` and with an index error on an empty list; otherwise it removes at most the head; it removes the head iff more than one point remains and the vertex is within alpha of it; the last point stays; the weight is the chain cost from the vertex through the list after the drop |
| WaypointsEuclideanHeuristic.Replay | src/main/java/org/opentripplanner/routing/algorithm/strategies/WaypointsEuclideanHeuristic.java:32-44 | before `initialize`, any non-empty sequence of estimates fails with a null pointer; a successful sequence keeps the list present exactly when it was, and never changes alpha, walk reluctance or maximum street speed |
| WaypointsEuclideanHeuristic.ReplayKeepsSuffix | src/main/java/org/opentripplanner/routing/algorithm/strategies/WaypointsEuclideanHeuristic.java:37-41 | from a non-empty list, every sequence of estimates succeeds and leaves a non-empty suffix of the list |
| WaypointsEuclideanHeuristic.ReplayMonotone | src/main/java/org/opentripplanner/routing/algorithm/strategies/WaypointsEuclideanHeuristic.java:40 | the list after later estimates is a suffix of the list after earlier ones, so its size never grows |
| WaypointsEuclideanHeuristic.InitializedNeverEmpties | src/main/java/org/opentripplanner/routing/algorithm/strategies/WaypointsEuclideanHeuristic.java:24-44 | after `initialize`, no sequence of estimates fails, and the list stays a non-empty suffix of waypoints plus destination that ends with the destination |

## Left out

- `StreetMatcherApp` is not part of this model. It is a batch tool that reads
  files, deserialises a graph, does geometry work and calls an external street
  matcher.
- IEEE double semantics. Distances, coordinates, timeouts, ratios and weights
  are Dafny `real`s, with no rounding, infinities or NaN. The one exception is
  the 0/0 ratio, which is modelled as `None`.
- WaypointsEuclideanHeuristic.CalculateHeuristicCost: requires a non-zero
  `maxStreetSpeed`. In Java a zero speed makes the weight infinite or NaN,
  which a `real` cannot express. `CostFrom` and `CalculateHeuristicCostFrom`
  carry the same precondition.
- WaypointsEuclideanHeuristic.ComputeForwardWeight: requires a non-zero
  `maxStreetSpeed` once the list exists, for the same reason. So do `Replay`
  and the lemmas about it. Before `initialize` no speed is needed, and the
  call fails with a null pointer.
- The spherical distance formula. `DistanceFn` is only known to be non-negative.
  Admissibility of the heuristic is not stated. It depends on street costs that
  are not part of this model.
- `System.currentTimeMillis` and `DateUtils.absoluteTimeout`. Their values at
  each call are inputs. So is the `long` that `DateUtils` returns, which the
  model does not derive from the timeout.
- The bodies of the `DeadEnd` constructor, `Graph.addVertex`,
  `Graph.removeVertex` and `Intersection.getDegree` are not modelled. Adding
  and removing a vertex change only the vertex map. The `DeadEnd` constructor
  is taken to leave the edges alone. The degree is an input field.
- The bodies of `addIncoming`, `addOutgoing`, `setToVertex` and
  `setFromVertex` are not modelled. `addIncoming` and `addOutgoing` are read
  as appending to a list, in member order and keeping duplicates.
  `MergedDegree` and `AbsorbCollects` rely on that reading. `setToVertex` and
  `setFromVertex` are read as changing only that one endpoint of the edge.
- StreetUtils.Unify: the input must give every id below `nextId`, and every
  street a member names must be in the graph's edge table (`IdsBelow`,
  `EdgesKnown`). In Java, object identity and edge objects guarantee both.
- StreetUtils.Unify: when an exception is thrown partway through, the Java graph
  is left partly rewritten. The model returns only the exception.
- Preservation of reachability across contraction is not stated. It needs a
  path semantics for the graph that the code does not define.
- WaypointsEuclideanHeuristic.Create: the superclass fields `walkReluctance` and
  `maxStreetSpeed` are zero until `initialize`. Their real set-up in
  `DefaultRemainingWeightHeuristic` is not part of this model.
- The accessors `getUnreachedTargets` and `getReachedTargets` are the fields
  `unreached` and `reached` of `Strategy`. Java returns the live `HashSet`s,
  so a caller could change them and break the partition. The model assumes
  callers do not change the returned sets, and `PartitionPreserved` holds only
  under that assumption.
