# Lem-in routing engine in Dafny

A model of the routing engine of the Lem-in program (`main.go`). The program
reads a room graph and a number of ants. It then does the following:

- it enumerates every simple route from the `##start` room to the `##end`
  room with a breadth-first queue of partial paths (`BFSAllPaths`);
- it sorts the routes by length and picks the largest set of routes that
  share no interior room (`FilterPaths`);
- it gives every ant a route (`assignPathsToAnts`, then a fix-up loop in
  `main`);
- it moves the ants step by step. Within a step the ants go in index order,
  and each takes one hop unless an earlier ant already entered the next room
  in this step. The end room never blocks.

The model is functional. Paths are `seq<int>`, the adjacency list is a
`map<int, seq<int>>`, and every part of the program is a pure function. The
two loops whose shape matters (the BFS queue and `assignPathsToAnts`) are
methods, proved equal to, or described by, functional definitions.

Modules, in program order:

- `Wrappers`: `Option` and `Result`.
- `GraphModel`: rooms with dense ids, the linear name lookup, link
  insertion, and the fold of the parsed input lines into a graph.
- `Paths`: `contains`, and `BFSAllPaths` twice. `AllPaths` describes it
  level by level (paths of k+1 nodes form level k). `BfsAllPaths` is the
  literal FIFO loop, proved to return exactly `AllPaths`.
- `Reroute`: `findAlternativePath`.
- `Select`: the backtracking search of `FilterPaths`, over positions in the
  input.
- `Assign`: `assignPathsToAnts` and the override in `main`.
- `Schedule`: one step of the movement loop as a function from positions and
  paths to new positions and moves, and the loop itself as a fuel-bounded
  `Run`.
- `Occupancy`: which rooms the ants stand in over the steps of the movement
  loop.
- `Solver`: `main` after parsing, split at the unstable `sort.Slice`.

Main results:

- The enumeration is sound and complete, ordered by length, and empty
  exactly when the end cannot be reached.
- The selection is a pairwise interior-disjoint subsequence of maximum
  size. Among the choices of that size it keeps the one whose positions
  come first in lexicographic order. It is idempotent.
- Rerouting never changes a path. Every enumerated route from an ant's room
  begins with that room. The reroute is only tried when that room was just
  entered, so no route is free of occupied rooms.
- The first ant that is not yet in the end room always moves. The number of
  hops the ants have left is therefore a bound on the number of steps, and
  the movement loop always ends with every ant in the end room.
- The loop only remembers the rooms entered in the current step. Even so,
  after any number of steps no two ants share a room other than the start
  and end rooms. Ants on one route keep their order, the lower-numbered one
  ahead. An ant that stays behind was blocked by an earlier ant from its own
  room, and different selected routes share no interior room. The states
  the printed lines pass through are exactly these iterated steps
  (`RunAfter`), so this holds for every state of the run `Simulate` prints.

Three consequences of the code are worth stating:

- With two ants, both follow the first selected path. `assignPathsToAnts`
  gives ant 0 path 0, and the override at main.go:372-373 gives the last ant
  path 0 as well (`InitialState`). In the diamond S-A-E / S-B-E the two ants
  therefore leave one after the other and take three lines, not two
  (`DiamondTwoAnts`).
- The movement loop has no step cap, yet it cannot livelock on the paths the
  program assigns (`RunFinishes`, `Simulate`). Rerouting never fires, and
  the lowest-numbered ant still travelling always finds its next room free.
- A link given twice is kept twice. The BFS follows both copies, so the
  route through it is recorded twice (`RepeatedLinkRepeatsRoute`). With no
  repeated link, every route is recorded once (`AllPathsDistinct`).

## Model

| member | source | states |
|---|---|---|
| GraphModel.FindNodeId | main.go:99-110 | -1 when no node carries the name; otherwise the id of the first node that does |
| GraphModel.FindNodeIdDense | main.go:99-110 | with ids equal to positions, the result is -1 exactly when the name is absent, and otherwise the position of the first node with that name |
| GraphModel.AddRoom | main.go:263-304 | a room line appends a node whose id is the old node count, keeps edges and adjacency, and sets the start or end id for `##start` and `##end` rooms; the graph stays well formed |
| GraphModel.Connect | main.go:320-321 | the neighbour list of the link's first room gets the second room appended and vice versa; every other list is unchanged |
| GraphModel.ConnectCount | main.go:320-321 | each link adds exactly one occurrence of each end to the other's list |
| GraphModel.ConnectKeepsSymmetric | main.go:319-321 | the adjacency relation stays symmetric, counting duplicates |
| GraphModel.AddLink | main.go:313-321 | a link fails exactly when one of its names is unknown; otherwise the edge is appended, each end is appended to the other's list, and nothing else changes |
| GraphModel.FoundAt | main.go:99-110 | in a graph whose ids are positions, the id found for a name is its first position among the node names, or -1 when it is not one of them |
| GraphModel.LineApplied | main.go:243-322 | a line that applies extends the node names by its room name, if any, appends the edge of a link line between the positions of its names and connects it in the adjacency |
| GraphModel.ConnectAllCount | main.go:319-321 | connecting a sequence of edges adds to the count of n in m's neighbour list exactly the number of those edges from m to n plus the number from n to m |
| GraphModel.Apply | main.go:243-322 | one parsed line fails exactly when it is a link naming a room that is not yet known, with the unknown-room error; otherwise the graph stays well formed, keeps its nodes, gains the room line's name as its last node name, and takes the new id as start or end id for a `##start` or `##end` room; a link line appends one edge between the ids the two names resolve to and appends each room to the other's neighbour list (main.go:319-321), and a room line leaves edges and adjacency unchanged |
| GraphModel.BuildFrom | main.go:243-324 | the fold succeeds exactly when every link names two rooms that are already known or appear on an earlier line, and otherwise fails with the unknown-room error; on success the graph is well formed, keeps the earlier nodes, appends one node per room line whose names are those lines' names in order, and has a start (end) id exactly when one was set before or a `##start` (`##end`) line occurs; that id is the id of the room on the last `##start` (`##end`) line, counting the earlier nodes and room lines, since each such line overwrites it (main.go:263-264, 285-286), or the old id when there is no such line; the edges are the earlier ones followed by one edge per link line, in line order, between the positions of its two names among the room names known at that line, and the adjacency is the old one with each of those edges connected in turn, so room n occurs in room m's neighbour list as often as before plus once for each such edge from m to n and once for each from n to m (main.go:319-321) |
| GraphModel.Build | main.go:219-335 | the build succeeds exactly when every link resolves and both a `##start` and an `##end` room occur; the unknown-room error comes exactly when some link does not resolve; a built graph is well formed, its node names are the room lines' names in order, and its start and end ids are valid and distinct and are the ids of the rooms on the last `##start` line and the last `##end` line; the missing start or end error means one of them never appeared; its edges are one per link line, in line order, between the positions of the two names among the room names of the lines before it, and room n occurs in room m's neighbour list exactly once for each of those edges from m to n and once for each from n to m |
| Paths.Contains | main.go:88-95 | true exactly when the item occurs in the slice |
| Paths.ExtendMembers | main.go:71-81 | each enqueued path is the dequeued one plus one neighbour not already on it, and every such neighbour is enqueued |
| Paths.EnqueueNeighbors | main.go:71-81 | the inner loop appends to the queue exactly the extensions of the path by its fresh neighbours |
| Paths.AllPaths | main.go:50-86 | every recorded path starts at the start node, ends at the end node, repeats no node and follows adjacency entries, and the output is in nondecreasing length order |
| Paths.AllPathsComplete | main.go:57-85 | every simple adjacency walk from start to end is recorded |
| Paths.AllPathsEmptyIff | main.go:50-86 | the result is empty exactly when no route from start to end exists |
| Paths.BfsAllPaths | main.go:50-86 | the FIFO queue loop records exactly the level-by-level enumeration |
| Paths.AllPathsDistinct | main.go:50-86 | when no neighbour list holds a room twice, no route is recorded twice |
| Paths.RepeatedLinkRepeatsRoute | main.go:71-81 | with the link between rooms 0 and 1 given twice, the route from 0 to 1 is recorded twice |
| Reroute.FirstFree | main.go:119-138 | the first path, at or after the given position, none of whose nodes is occupied; none when no such path exists |
| Reroute.FindAlternativePath | main.go:114-142 | a result is a route from the ant's room to the end room avoiding every occupied room; there is none when the ant's own room is occupied |
| Reroute.FindAlternativePathSpec | main.go:114-142 | nil exactly when no free route exists; otherwise a shortest free route |
| Select.ChooseKeeps | main.go:178-183 | taking a compatible path keeps the chosen paths disjoint and `usedNodes` equal to their interior nodes |
| Select.Search | main.go:155-197 | the result is no shorter than the current choice, and it is the best choice so far unless it is strictly longer |
| Select.SearchValid | main.go:155-197 | backtracking from a consistent state returns increasing positions of pairwise disjoint paths, no fewer than the best so far or the current choice |
| Select.SearchFirst | main.go:155-197 | the result is the best choice so far or extends the current one, and no extension of the current choice of the same size comes before it in lexicographic order of positions |
| Select.Chosen | main.go:199-201 | `backtrack(0)` keeps a valid choice |
| Select.FilterPaths | main.go:145-202 | the result is the input paths at the chosen positions, in input order, pairwise interior-disjoint, each with at least two nodes; empty input gives empty output |
| Select.FilterPathsMaximum | main.go:155-200 | no interior-disjoint choice of input paths is larger than the result |
| Select.FilterPathsFirst | main.go:155-201 | of all interior-disjoint choices of the largest size, the kept one has the lexicographically least positions, because `maxPaths` is only replaced by a strictly longer choice (line 157) and the search meets choices in that order |
| Select.FilterPathsKeepsDisjoint | main.go:145-202 | an input that is already pairwise interior-disjoint is returned unchanged |
| Select.FilterPathsIdempotent | main.go:145-202 | filtering a filtered list changes nothing |
| Select.FilterPathsNonEmpty | main.go:349-356 | a non-empty input gives a non-empty result whose first path has both ends, so the error at line 353 never fires after a non-empty enumeration |
| Select.FilterPathsByLength | main.go:344-349 | a length-sorted input gives a length-sorted result |
| Assign.AssignPathsToAnts | main.go:455-471 | exactly antCount paths, ant i getting path i mod the number of paths |
| Assign.InitialState | main.go:366-379 | all ants start in the start room; ants other than the last keep the round-robin path; the last gets the first path, which is no longer than any other assigned path when the paths are length-sorted; with two ants both follow the first path |
| Schedule.Hop | main.go:403-412 | the first position of the path at the ant's room whose successor is free or is the end room; none exactly when no position qualifies |
| Schedule.Detour | main.go:414-420 | the rerouting branch never changes the state |
| Schedule.AntTurn | main.go:398-423 | an ant's turn changes no path and no other ant's position |
| Schedule.AntTurnSpec | main.go:398-423 | an ant in the end room does nothing; otherwise the ant hops exactly when some position of its path opens, to that position's successor, which it claims and reports |
| Schedule.StepPositions | main.go:393-424 | after a step the paths are unchanged, ants in the end room are still there, and every other ant stayed or moved to the successor of its room on its own path |
| Schedule.Step | main.go:393-424 | a step keeps the number of ants and changes no ant's path |
| Schedule.StepMoves | main.go:403-411 | moves are listed in increasing ant order, at most one per ant, none by an ant in the end room; no two enter the same room unless it is the end room; each names the ant's new room; every ant that moved has one |
| Schedule.StepAdvances | main.go:396-413 | a step keeps each ant on its route and raises its index on the route by 0 or 1 |
| Schedule.FirstWaitingMoves | main.go:396-412 | the lowest-numbered ant not in the end room always hops to its next room |
| Schedule.StepProgress | main.go:385-424 | while an ant is travelling, a step makes a move and strictly lowers the number of hops left |
| Schedule.Run | main.go:385-446 | a finished run leaves every ant in the end room |
| Schedule.RunFinishes | main.go:385-446 | with as much fuel as hops are left, the loop ends, printing at most that many lines, numbered consecutively, each with a move |
| Schedule.RunReports | main.go:426-429 | every printed line lists valid moves |
| Schedule.DiamondTwoAnts | main.go:385-446 | in the diamond S-A-E / S-B-E with both ants on S-A-E, the loop prints three lines: `L1` enters A; `L1` reaches E while `L2` enters A; `L2` reaches E |
| Occupancy.StepBlocked | main.go:396-412 | an ant not in the end room that keeps its room through a step found its next room entered, earlier in the step, by a lower-numbered ant that moved there |
| Occupancy.StepNoWorse | main.go:393-424 | a step keeps every ant on its route and never adds to the hops left |
| Occupancy.After | main.go:385-446 | the positions after any number of steps are one per ant |
| Occupancy.AfterOnRoutes | main.go:385-446 | ants on their routes stay on them after any number of steps |
| Occupancy.StepKeepsOrder | main.go:393-424 | on separate routes, ants sharing a route stay in order through a step: the lower-numbered one is strictly ahead, or both are in the route's first room or both in its last |
| Occupancy.OrderedExclusive | main.go:393-424 | ordered ants on separate routes from the start room share no room other than the start and end rooms |
| Occupancy.AfterOrdered | main.go:385-446 | on separate routes, ants sharing a route stay in order after any number of steps |
| Occupancy.AfterExclusive | main.go:385-446 | ants starting in the start room on separate routes never share a room other than the start and end rooms, after any number of steps |
| Occupancy.AfterShift | main.go:385-446 | one step followed by n steps ends where n + 1 steps end |
| Occupancy.RunAfter | main.go:385-446 | a finished run of the movement loop prints one line per step of `After`: line k lists the moves of the step from the positions after k steps, and the run ends in the positions after as many steps as it printed lines |
| Solver.Prepare | main.go:236-341 | a non-positive ant count, a graph error and a missing route each give their error, exactly in those cases; the result is a success exactly when the ant count is positive, the graph builds and a route from start to end exists, and then it holds the built graph and its non-empty enumeration |
| Solver.Simulate | main.go:349-446 | for any length-sorted rearrangement of the enumeration, selection never fails; every ant starts in the start room, the last ant on the first selected path and ant i before it on selected path i mod their number; the printed lines are exactly those of the movement loop run from that state, which ends, numbered from 1, each with valid moves; line k lists the moves of the step from the positions after k steps, after as many steps as there are lines every ant is in the end room, and after any number of steps no two ants share a room other than the start and end rooms |

## Left out

- Command-line handling, file reading and the text parsing of main.go:204-335: the model starts from parsed lines (`Line`). It does not model the format errors for short room lines, non-numeric coordinates, links without exactly two names, or a scanner failure. Lines the program ignores have no `Line` form.
- Room coordinates: they are parsed but never used for routing.
- All printing: `printNodes`, `printEdges`, the input echo at main.go:360-364 and the line format of main.go:409 and 428. A move is a pair of ant index (from 0) and room id. A printed line is a `Report`.
- Timing with `time.Now` and `time.Since`: wall-clock time and floating point.
- The implementation of `sort.Slice` at main.go:344-346. It is not stable, so the order of equal-length routes is not determined. `Simulate` instead accepts any length-sorted rearrangement of the enumeration.
- The recomputation of `allAtEnd` at main.go:439-445 has no effect, because line 390 resets the flag. `antAtEnd` is therefore not modelled. `Run` stops when every ant was in the end room at the start of a step, and that step prints nothing.
- Schedule.Run: the loop is bounded by fuel instead of running forever. `RunFinishes` shows that fuel equal to the hops left always suffices, so no behaviour of the program is cut off.
- Select.FilterPaths: the precondition that every path has at least two nodes leaves out the panic of Go's slice `path[1 : len(path)-1]` at main.go:169 on a shorter path. `main` only passes enumerated routes, and each of those has at least two nodes because the start and end rooms differ.
- Assign.AssignPathsToAnts: with ants but no paths the Go code divides by zero. That case is excluded by a precondition, and `main` never reaches it.
- Go's 64-bit `int`: ids, counts and steps are unbounded integers. Wrap-around would need more rooms or ants than fit in memory.
