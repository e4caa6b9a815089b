/** The whole run of main (main.go:228-446) without its text input and
    output: ant count check, graph building, path enumeration, selection,
    assignment and the movement loop.

    `sort.Slice` (main.go:344-346) is not modelled; it is not stable, so the
    order of paths of equal length after it is not determined. The run is
    therefore split at that point: `Prepare` does what comes before, and
    `Simulate` takes any length-sorted rearrangement of the enumerated paths. */
module Solver {
  import opened Wrappers
  import opened GraphModel
  import opened Paths
  import opened Select
  import opened Assign
  import opened Schedule
  import opened Occupancy

  /** The reasons main stops early with an error line. */
  datatype Failure = BadAntCount | BadGraph(cause: BuildError) | NoRoute | NoSelection

  datatype Prepared = Prepared(graph: Graph, allPaths: seq<Path>)

  /** main.go:236-341: the ant count must be positive, the graph must build,
      and some route from the start room to the end room must exist. */
  method Prepare(antCount: int, lines: seq<Line>) returns (r: Result<Prepared, Failure>)
    ensures antCount <= 0 <==> r == Failure(BadAntCount)
    ensures antCount > 0 && Build(lines).Failure? ==> r == Failure(BadGraph(Build(lines).error))
    ensures r == Failure(NoRoute) <==>
      (antCount > 0 && Build(lines).Success? &&
       var g := Build(lines).value; !exists p :: IsRoute(g.adj, g.startId, g.endId, p))
    ensures r.Success? <==>
      (antCount > 0 && Build(lines).Success? &&
       var g := Build(lines).value; exists p :: IsRoute(g.adj, g.startId, g.endId, p))
    ensures r.Success? ==> r.value.graph == Build(lines).value
    ensures r.Success? ==> var g := r.value.graph;
      r.value.allPaths == AllPaths(g.adj, g.startId, g.endId) && r.value.allPaths != []
  {
    if antCount <= 0 {
      return Failure(BadAntCount);
    }
    var built := Build(lines);
    if built.Failure? {
      return Failure(BadGraph(built.error));
    }
    var g := built.value;
    var all := BfsAllPaths(g.adj, g.startId, g.endId);
    AllPathsEmptyIff(g.adj, g.startId, g.endId);
    if |all| == 0 {
      return Failure(NoRoute);
    }
    return Success(Prepared(g, all));
  }

  /** Every path is a route from `s` to `e` and `s` is not `e`. */
  ghost predicate RoutesBetween(adj: AdjList, s: int, e: int, paths: seq<Path>) {
    s != e && forall i :: 0 <= i < |paths| ==> IsRoute(adj, s, e, paths[i])
  }

  /** A rearrangement of routes consists of routes. */
  lemma SortedAreRoutes(adj: AdjList, s: int, e: int, sorted: seq<Path>)
    requires s != e && multiset(sorted) == multiset(AllPaths(adj, s, e))
    ensures RoutesBetween(adj, s, e, sorted) && Sliceable(sorted)
  {
    var all := AllPaths(adj, s, e);
    forall i | 0 <= i < |sorted|
      ensures IsRoute(adj, s, e, sorted[i]) && |sorted[i]| >= 2
    {
      assert sorted[i] in multiset(all);
      var j :| 0 <= j < |all| && all[j] == sorted[i];
    }
  }

  /** The selected paths are routes as well. */
  lemma FilteredAreRoutes(adj: AdjList, s: int, e: int, sorted: seq<Path>)
    requires RoutesBetween(adj, s, e, sorted) && Sliceable(sorted)
    ensures RoutesBetween(adj, s, e, FilterPaths(sorted))
  {
    var f := FilterPaths(sorted);
    var idx := Chosen(sorted);
    forall a | 0 <= a < |f|
      ensures IsRoute(adj, s, e, f[a])
    {
      assert 0 <= idx[a] < |sorted|;
    }
  }

  /** Ants standing in `s` on routes from `s` to `e` are on their routes. */
  lemma StartOnRoutes(adj: AdjList, s: int, e: int, filtered: seq<Path>, pos: seq<int>, antPaths: seq<Path>)
    requires RoutesBetween(adj, s, e, filtered)
    requires |pos| == |antPaths| && forall i :: 0 <= i < |pos| ==> pos[i] == s && antPaths[i] in filtered
    ensures OnRoutes(e, pos, antPaths)
  {
    forall i | 0 <= i < |pos|
      ensures IsRoute(adj, s, e, antPaths[i])
    {
      var j :| 0 <= j < |filtered| && filtered[j] == antPaths[i];
      assert antPaths[i][0] == s;
    }
  }

  /** main.go:349-446 for a length-sorted rearrangement `sorted` of the
      enumerated routes. The check at main.go:353 never fails. Every ant
      starts in the start room on the path the assignment and the override
      give it, and the printed lines are those of the movement loop from
      that state. The loop always ends: the run uses as fuel the number of
      hops the ants have left, which bounds the number of steps with moves. */
  method Simulate(g: Graph, antCount: int, sorted: seq<Path>)
    returns (r: Result<seq<Report>, Failure>, positions: seq<int>, antPaths: seq<Path>)
    requires antCount > 0 && g.startId != g.endId
    requires multiset(sorted) == multiset(AllPaths(g.adj, g.startId, g.endId)) && ByLength(sorted)
    requires sorted != []
    ensures r.Success?
    ensures Numbered(r.value, 1)
    ensures forall k :: 0 <= k < |r.value| ==> ValidMoves(r.value[k].moves, antCount, g.endId)
    ensures |positions| == |antPaths| == antCount
    ensures forall i :: 0 <= i < antCount ==> positions[i] == g.startId
    ensures Sliceable(sorted) &&
      var f := FilterPaths(sorted);
      && |f| > 0
      && (forall i :: 0 <= i < antCount - 1 ==> antPaths[i] == f[i % |f|])
      && antPaths[antCount - 1] == f[0]
    ensures OnRoutes(g.endId, positions, antPaths) && FromStart(g.startId, antPaths) && Separate(antPaths)
    ensures var outcome := Run(g.adj, g.endId, positions, antPaths, 1, Remaining(positions, antPaths));
      outcome.Done? && r.value == outcome.reports
    ensures Follows(g.adj, g.endId, positions, antPaths, r.value)
    ensures AllAtEnd(After(g.adj, g.endId, positions, antPaths, |r.value|), g.endId)
    ensures forall n: nat :: Exclusive(g.startId, g.endId, After(g.adj, g.endId, positions, antPaths, n))
  {
    var s, e := g.startId, g.endId;
    SortedAreRoutes(g.adj, s, e, sorted);
    var filtered := FilterPaths(sorted);
    FilterPathsNonEmpty(sorted);
    if |filtered| == 0 || |filtered[0]| == 0 {
      return Failure(NoSelection), [], [];
    }
    FilteredAreRoutes(g.adj, s, e, sorted);
    positions, antPaths := InitialState(antCount, filtered, s);
    StartOnRoutes(g.adj, s, e, filtered, positions, antPaths);
    DrawnSeparate(filtered, antPaths);
    assert FromStart(s, antPaths);
    var fuel := Remaining(positions, antPaths);
    RunFinishes(g.adj, e, positions, antPaths, 1, fuel);
    var outcome := Run(g.adj, e, positions, antPaths, 1, fuel);
    RunReports(g.adj, e, positions, antPaths, 1, fuel);
    RunAfter(g.adj, e, positions, antPaths, 1, fuel, outcome);
    forall n: nat
      ensures Exclusive(s, e, After(g.adj, e, positions, antPaths, n))
    {
      AfterExclusive(g.adj, s, e, positions, antPaths, n);
    }
    r := Success(outcome.reports);
  }
}
