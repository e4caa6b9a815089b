/** The movement loop of main (main.go:382-446): every step lets each ant,
    in index order, take one hop along its path unless the next room was
    already entered by an earlier ant in this step; the end room never
    blocks. A step is a pure function of the positions and paths; the
    loop itself is `Run`, bounded by fuel. */
module Schedule {
  import opened Wrappers
  import opened GraphModel
  import opened Paths
  import opened Reroute

  /** One printed move `L<ant+1>-<room>` (main.go:409); `ant` counts from 0. */
  datatype Move = Move(ant: nat, node: int)

  /** What the loop over ants (main.go:396-424) carries from one ant to the
      next: positions, paths, the rooms entered in this step (`occupied`)
      and the moves so far. */
  datatype StepState = StepState(pos: seq<int>, paths: seq<Path>, occupied: set<int>, moves: seq<Move>)

  /** Position `j` of `path` lets an ant in room `pos` hop (main.go:405). */
  predicate Opens(path: Path, pos: int, occupied: set<int>, e: int, j: int)
    requires 0 <= j < |path| - 1
  {
    path[j] == pos && (path[j + 1] !in occupied || path[j + 1] == e)
  }

  /** The scan of main.go:403-412 from `j` on: the first position that lets
      the ant hop, if any. */
  function Hop(path: Path, pos: int, occupied: set<int>, e: int, j: nat): (r: Option<nat>)
    ensures r.Some? ==> j <= r.value < |path| - 1 && Opens(path, pos, occupied, e, r.value)
    ensures r.Some? ==> forall k :: j <= k < r.value ==> !Opens(path, pos, occupied, e, k)
    ensures r.None? <==> forall k :: j <= k < |path| - 1 ==> !Opens(path, pos, occupied, e, k)
    decreases |path| - j
  {
    if j + 1 >= |path| then None
    else if Opens(path, pos, occupied, e, j) then Some(j)
    else Hop(path, pos, occupied, e, j + 1)
  }

  /** `b` follows `a` somewhere on `path`. */
  ghost predicate Hopped(path: Path, a: int, b: int) {
    exists j :: 0 <= j < |path| - 1 && path[j] == a && path[j + 1] == b
  }

  /** The effect of ant `i` hopping into a room from `st` to `r`. */
  ghost predicate Moved(st: StepState, r: StepState, i: int, e: int)
    requires 0 <= i < |st.pos| == |st.paths|
  {
    && st.pos[i] != e
    && |r.pos| == |st.pos|
    && Hopped(st.paths[i], st.pos[i], r.pos[i])
    && (r.pos[i] !in st.occupied || r.pos[i] == e)
    && r.pos == st.pos[i := r.pos[i]]
    && r.paths == st.paths
    && r.occupied == st.occupied + {r.pos[i]}
    && r.moves == st.moves + [Move(i, r.pos[i])]
  }

  /** Ant `i` switches to `alt` (main.go:418). */
  function WithPath(st: StepState, i: int, alt: Path): StepState {
    if 0 <= i < |st.paths| then st.(paths := st.paths[i := alt]) else st
  }

  /** A blocked ant still in the maze looks for a route avoiding the rooms
      entered in this step (main.go:414-420). */
  function Detour(adj: AdjList, e: int, st: StepState, i: nat): (r: StepState)
    requires i < |st.pos| == |st.paths|
    ensures r == st
  {
    if st.pos[i] != e && st.pos[i] in st.occupied then
      match FindAlternativePath(adj, e, st.pos[i], st.occupied)
      case Some(alt) => WithPath(st, i, alt)
      case None => st
    else st
  }

  /** Ant `i`'s turn (main.go:398-423). An ant in the end room does nothing;
      otherwise it hops to the successor of its room on its path if that
      room is free or is the end room. */
  function AntTurn(adj: AdjList, e: int, st: StepState, i: nat): (r: StepState)
    requires i < |st.pos| == |st.paths|
    ensures |r.pos| == |st.pos| && r.paths == st.paths
    ensures forall k :: 0 <= k < |st.pos| && k != i ==> r.pos[k] == st.pos[k]
  {
    if st.pos[i] == e then st
    else
      var hopped :=
        match Hop(st.paths[i], st.pos[i], st.occupied, e, 0)
        case None => st
        case Some(j) =>
          var n := st.paths[i][j + 1];
          StepState(st.pos[i := n], st.paths, st.occupied + {n}, st.moves + [Move(i, n)]);
      Detour(adj, e, hopped, i)
  }

  /** An ant in the end room does nothing; any other ant hops exactly when
      some position of its path opens, and then it hops as `Moved` says. */
  lemma AntTurnSpec(adj: AdjList, e: int, st: StepState, i: nat)
    requires i < |st.pos| == |st.paths|
    ensures var r := AntTurn(adj, e, st, i);
      && (st.pos[i] == e ==> r == st)
      && (r == st || Moved(st, r, i, e))
      && (r != st <==> st.pos[i] != e && exists j :: 0 <= j < |st.paths[i]| - 1 && Opens(st.paths[i], st.pos[i], st.occupied, e, j))
  {
  }

  /** The turns of ants `i`, `i + 1`, ... in order. */
  function Sweep(adj: AdjList, e: int, st: StepState, i: nat): (r: StepState)
    requires i <= |st.pos| == |st.paths|
    ensures |r.pos| == |st.pos| && r.paths == st.paths
    ensures forall k :: 0 <= k < i ==> r.pos[k] == st.pos[k]
    decreases |st.pos| - i
  {
    if i == |st.pos| then st else Sweep(adj, e, AntTurn(adj, e, st, i), i + 1)
  }

  /** One step of the loop: nothing is occupied and no move is made yet. */
  function Step(adj: AdjList, e: int, pos: seq<int>, paths: seq<Path>): (r: StepState)
    requires |pos| == |paths|
    ensures |r.pos| == |pos|
    ensures r.paths == paths
  {
    Sweep(adj, e, StepState(pos, paths, {}, []), 0)
  }

  /** From ant `i` on, each ant stays, or hops once along its own path; an
      ant in the end room stays there. */
  ghost predicate NewPositions(e: int, st: StepState, r: StepState, i: nat)
    requires |r.pos| == |st.pos| == |st.paths|
  {
    forall k :: i <= k < |st.pos| ==>
      r.pos[k] == st.pos[k] || (st.pos[k] != e && Hopped(st.paths[k], st.pos[k], r.pos[k]))
  }

  lemma {:induction false} SweepPositions(adj: AdjList, e: int, st: StepState, i: nat)
    requires i <= |st.pos| == |st.paths|
    ensures NewPositions(e, st, Sweep(adj, e, st, i), i)
    decreases |st.pos| - i, 1
  {
    if i < |st.pos| {
      SweepPositionsStep(adj, e, st, i);
    }
  }

  /** One turn of `SweepPositions`: ant `i`'s turn followed by the later ones. */
  lemma {:induction false} SweepPositionsStep(adj: AdjList, e: int, st: StepState, i: nat)
    requires i < |st.pos| == |st.paths|
    ensures NewPositions(e, st, Sweep(adj, e, st, i), i)
    decreases |st.pos| - i, 0
  {
    SweepPositions(adj, e, AntTurn(adj, e, st, i), i + 1);
    TurnPositionsAt(adj, e, st, i);
  }

  /** `SweepPositionsStep` once the later turns are known to keep `NewPositions`. */
  lemma TurnPositionsAt(adj: AdjList, e: int, st: StepState, i: nat)
    requires i < |st.pos| == |st.paths|
    requires var st' := AntTurn(adj, e, st, i); NewPositions(e, st', Sweep(adj, e, st', i + 1), i + 1)
    ensures NewPositions(e, st, Sweep(adj, e, st, i), i)
  {
    var st' := AntTurn(adj, e, st, i);
    AntTurnSpec(adj, e, st, i);
    var r := Sweep(adj, e, st', i + 1);
    assert r == Sweep(adj, e, st, i);
    TurnPositions(e, st, st', r, i);
  }

  /** The inductive step of `SweepPositions`. */
  lemma TurnPositions(e: int, st: StepState, st': StepState, r: StepState, i: nat)
    requires i < |st.pos| == |st.paths| && (st' == st || Moved(st, st', i, e))
    requires |r.pos| == |st'.pos| == |st'.paths| && r.pos[i] == st'.pos[i]
    requires NewPositions(e, st', r, i + 1)
    ensures NewPositions(e, st, r, i)
  {
    forall k | i < k < |st.pos|
      ensures st'.pos[k] == st.pos[k] && st'.paths[k] == st.paths[k]
    {
    }
  }

  /** The moves of the remaining turns: appended in increasing ant order, at
      most one per ant, none by an ant in the end room, each to the ant's new room, none into a room entered
      earlier in the step unless it is the end room, and one for every ant
      whose room changed. */
  ghost predicate NewMoves(e: int, st: StepState, r: StepState, i: nat)
    requires |r.pos| == |st.pos|
  {
    MovesExtend(st, r) && MovesSound(e, st, r, i) && MovesOrdered(e, st, r) && MovesCover(st, r, i)
  }

  /** `r` keeps the moves of `st` and appends to them. */
  ghost predicate MovesExtend(st: StepState, r: StepState) {
    |r.moves| >= |st.moves| && r.moves[..|st.moves|] == st.moves
  }

  /** Each new move is by an ant from `i` on, not in the end room, to its
      new room, which was free or is the end room. */
  ghost predicate MovesSound(e: int, st: StepState, r: StepState, i: nat)
    requires |r.pos| == |st.pos|
  {
    forall a :: |st.moves| <= a < |r.moves| ==>
      i <= r.moves[a].ant < |st.pos| && r.pos[r.moves[a].ant] == r.moves[a].node
      && st.pos[r.moves[a].ant] != e
      && (r.moves[a].node !in st.occupied || r.moves[a].node == e)
  }

  /** The new moves go by increasing ant and into distinct rooms, the end
      room aside. */
  ghost predicate MovesOrdered(e: int, st: StepState, r: StepState) {
    forall a, b :: |st.moves| <= a < b < |r.moves| ==>
      r.moves[a].ant < r.moves[b].ant && (r.moves[a].node == r.moves[b].node ==> r.moves[a].node == e)
  }

  /** Every ant from `i` on whose room changed has a new move. */
  ghost predicate MovesCover(st: StepState, r: StepState, i: nat)
    requires |r.pos| == |st.pos|
  {
    forall k :: i <= k < |st.pos| && r.pos[k] != st.pos[k] ==>
      exists a :: |st.moves| <= a < |r.moves| && r.moves[a].ant == k
  }

  lemma {:induction false} SweepMoves(adj: AdjList, e: int, st: StepState, i: nat)
    requires i <= |st.pos| == |st.paths|
    ensures NewMoves(e, st, Sweep(adj, e, st, i), i)
    decreases |st.pos| - i, 1
  {
    if i < |st.pos| {
      SweepMovesStep(adj, e, st, i);
    } else {
      NoMoves(e, st, i);
    }
  }

  /** The turns from `i` on make no move once every ant has had its turn. */
  lemma NoMoves(e: int, st: StepState, i: nat)
    requires i == |st.pos|
    ensures NewMoves(e, st, st, i)
  {
  }

  /** One turn of `SweepMoves`: ant `i`'s own move, if any, in front of
      what the turns after it append makes what the turns from `i` on append. */
  lemma {:induction false} SweepMovesStep(adj: AdjList, e: int, st: StepState, i: nat)
    requires i < |st.pos| == |st.paths|
    ensures NewMoves(e, st, Sweep(adj, e, st, i), i)
    decreases |st.pos| - i, 0
  {
    var st' := AntTurn(adj, e, st, i);
    var r := Sweep(adj, e, st, i);
    SweepMoves(adj, e, st', i + 1);
    AntTurnSpec(adj, e, st, i);
    assert r == Sweep(adj, e, st', i + 1);
    TurnOrIdleMoves(e, st, st', r, i);
  }

  /** The inductive step of `SweepMoves`, whether ant `i` moved or not. */
  lemma TurnOrIdleMoves(e: int, st: StepState, st': StepState, r: StepState, i: nat)
    requires i < |st.pos| == |st.paths| && (st' == st || Moved(st, st', i, e))
    requires |r.pos| == |st.pos| && r.pos[i] == st'.pos[i]
    requires NewMoves(e, st', r, i + 1)
    ensures NewMoves(e, st, r, i)
  {
    if st' == st {
      IdleMoves(e, st, r, i);
    } else {
      TurnMoves(e, st, st', r, i);
    }
  }

  /** The inductive step of `SweepMoves` when ant `i` stayed. */
  lemma IdleMoves(e: int, st: StepState, r: StepState, i: nat)
    requires i < |st.pos| == |st.paths|
    requires |r.pos| == |st.pos| && r.pos[i] == st.pos[i]
    requires NewMoves(e, st, r, i + 1)
    ensures NewMoves(e, st, r, i)
  {
  }

  /** The inductive step of `SweepMoves` when ant `i` moved. */
  lemma TurnMoves(e: int, st: StepState, st': StepState, r: StepState, i: nat)
    requires i < |st.pos| == |st.paths| && Moved(st, st', i, e)
    requires |r.pos| == |st.pos| && r.pos[i] == st'.pos[i]
    requires NewMoves(e, st', r, i + 1)
    ensures NewMoves(e, st, r, i)
  {
    TurnExtends(e, st, st', r, i);
    TurnSound(e, st, st', r, i);
    TurnOrdered(e, st, st', r, i);
    TurnCover(e, st, st', r, i);
  }

  /** `TurnMoves`: the move of ant `i` heads the new moves. */
  lemma TurnExtends(e: int, st: StepState, st': StepState, r: StepState, i: nat)
    requires i < |st.pos| == |st.paths| && Moved(st, st', i, e)
    requires MovesExtend(st', r)
    ensures MovesExtend(st, r) && |r.moves| > |st.moves| && r.moves[|st.moves|] == Move(i, st'.pos[i])
  {
    var n := |st.moves|;
    assert r.moves[n] == r.moves[..n + 1][n] == st'.moves[n];
    assert r.moves[..n] == r.moves[..n + 1][..n] == st'.moves[..n];
  }

  /** `TurnMoves`, for the soundness of each new move. */
  lemma TurnSound(e: int, st: StepState, st': StepState, r: StepState, i: nat)
    requires i < |st.pos| == |st.paths| && Moved(st, st', i, e)
    requires |r.pos| == |st.pos| && r.pos[i] == st'.pos[i]
    requires MovesExtend(st', r) && MovesSound(e, st', r, i + 1)
    ensures MovesSound(e, st, r, i)
  {
    TurnExtends(e, st, st', r, i);
  }

  /** `TurnMoves`, for the order of the new moves. */
  lemma TurnOrdered(e: int, st: StepState, st': StepState, r: StepState, i: nat)
    requires i < |st.pos| == |st.paths| && Moved(st, st', i, e)
    requires |r.pos| == |st.pos|
    requires MovesExtend(st', r) && MovesSound(e, st', r, i + 1) && MovesOrdered(e, st', r)
    ensures MovesOrdered(e, st, r)
  {
    TurnExtends(e, st, st', r, i);
  }

  /** `TurnMoves`, for the ants whose room changed. */
  lemma TurnCover(e: int, st: StepState, st': StepState, r: StepState, i: nat)
    requires i < |st.pos| == |st.paths| && Moved(st, st', i, e)
    requires |r.pos| == |st.pos|
    requires MovesExtend(st', r) && MovesCover(st', r, i + 1)
    ensures MovesCover(st, r, i)
  {
    TurnExtends(e, st, st', r, i);
    var n := |st.moves|;
    forall k | i <= k < |st.pos| && r.pos[k] != st.pos[k]
      ensures exists a :: n <= a < |r.moves| && r.moves[a].ant == k
    {
      if k == i {
        assert r.moves[n].ant == k;
      } else {
        assert st'.pos[k] == st.pos[k];
        var a :| n + 1 <= a < |r.moves| && r.moves[a].ant == k;
      }
    }
  }

  /** The positions after one step (main.go:396-413): an ant in the end
      room stays there, and every other ant stays or hops to the next room
      of its own path; the paths never change, so the rerouting at
      main.go:414-420 has no effect. */
  lemma StepPositions(adj: AdjList, e: int, pos: seq<int>, paths: seq<Path>)
    requires |pos| == |paths|
    ensures var r := Step(adj, e, pos, paths);
      && r.paths == paths
      && (forall k :: 0 <= k < |pos| && pos[k] == e ==> r.pos[k] == e)
      && (forall k :: 0 <= k < |pos| ==> r.pos[k] == pos[k] || Hopped(paths[k], pos[k], r.pos[k]))
  {
    SweepPositions(adj, e, StepState(pos, paths, {}, []), 0);
  }

  /** The moves of one step (main.go:405-410): ants in range and in
      increasing order, so each at most once; no two ants enter the same
      room unless it is the end room; each move names the ant's new room;
      and every ant whose room changed has a move. */
  ghost predicate ValidMoves(moves: seq<Move>, ants: int, e: int) {
    && (forall a :: 0 <= a < |moves| ==> moves[a].ant < ants)
    && (forall a, b :: 0 <= a < b < |moves| ==> moves[a].ant < moves[b].ant)
    && (forall a, b :: 0 <= a < b < |moves| && moves[a].node == moves[b].node ==> moves[a].node == e)
  }

  lemma StepMoves(adj: AdjList, e: int, pos: seq<int>, paths: seq<Path>)
    requires |pos| == |paths|
    ensures var r := Step(adj, e, pos, paths);
      && ValidMoves(r.moves, |pos|, e)
      && (forall a :: 0 <= a < |r.moves| ==> pos[r.moves[a].ant] != e && r.pos[r.moves[a].ant] == r.moves[a].node)
      && (forall k :: 0 <= k < |pos| && r.pos[k] != pos[k] ==> exists a :: 0 <= a < |r.moves| && r.moves[a].ant == k)
  {
    SweepMoves(adj, e, StepState(pos, paths, {}, []), 0);
  }

  /** Ants in the end room take no turn: the sweep passes them unchanged. */
  lemma {:induction false} SweepIdle(adj: AdjList, e: int, st: StepState, i: nat, f: nat)
    requires i <= f <= |st.pos| == |st.paths|
    requires forall k :: i <= k < f ==> st.pos[k] == e
    ensures Sweep(adj, e, st, i) == Sweep(adj, e, st, f)
    decreases f - i
  {
    if i < f {
      AntTurnSpec(adj, e, st, i);
      SweepIdle(adj, e, AntTurn(adj, e, st, i), i + 1, f);
    }
  }

  /** The first ant not yet in the end room always moves: every earlier ant
      is in the end room, so nothing is occupied on its turn. */
  lemma FirstWaitingMoves(adj: AdjList, e: int, pos: seq<int>, paths: seq<Path>, f: nat, j: nat)
    requires |pos| == |paths| && f < |pos|
    requires forall k :: 0 <= k < f ==> pos[k] == e
    requires pos[f] != e && j < |paths[f]| - 1 && paths[f][j] == pos[f] && Simple(paths[f])
    ensures Step(adj, e, pos, paths).pos[f] == paths[f][j + 1]
  {
    var st := StepState(pos, paths, {}, []);
    SweepIdle(adj, e, st, 0, f);
    assert Opens(paths[f], pos[f], {}, e, j);
    var st' := AntTurn(adj, e, st, f);
    AntTurnSpec(adj, e, st, f);
    var j' :| 0 <= j' < |paths[f]| - 1 && paths[f][j'] == pos[f] && paths[f][j' + 1] == st'.pos[f];
    assert j' == j;
    assert Sweep(adj, e, st, f) == Sweep(adj, e, st', f + 1);
  }

  /** Every ant stands on its own path, a simple path that ends in `e`. */
  ghost predicate OnRoutes(e: int, pos: seq<int>, paths: seq<Path>) {
    && |pos| == |paths|
    && forall k :: 0 <= k < |pos| ==>
         Simple(paths[k]) && |paths[k]| > 0 && paths[k][|paths[k]| - 1] == e && pos[k] in paths[k]
  }

  /** The first position of `x` on `p`. */
  function IndexOf(p: Path, x: int): (r: nat)
    requires x in p
    ensures r < |p| && p[r] == x && x !in p[..r]
  {
    if p[0] == x then 0
    else
      var r := 1 + IndexOf(p[1..], x);
      assert p[..r] == [p[0]] + p[1..][..r - 1];
      r
  }

  /** On a simple path every room occurs at its own position only. */
  lemma IndexOfSimple(p: Path, j: int)
    requires Simple(p) && 0 <= j < |p|
    ensures IndexOf(p, p[j]) == j
  {
    var r := IndexOf(p, p[j]);
    assert p[r] == p[j];
  }

  /** The hops left to all ants: for each, the rooms after its own on its path. */
  function Remaining(pos: seq<int>, paths: seq<Path>): nat
    requires |pos| == |paths| && forall k :: 0 <= k < |pos| ==> pos[k] in paths[k]
  {
    if pos == [] then 0
    else |paths[0]| - 1 - IndexOf(paths[0], pos[0]) + Remaining(pos[1..], paths[1..])
  }

  /** Where no ant goes back and one goes forward, fewer hops are left. */
  lemma {:induction false} RemainingLess(pos: seq<int>, pos': seq<int>, paths: seq<Path>, f: int)
    requires |pos| == |pos'| == |paths|
    requires forall k :: 0 <= k < |pos| ==> pos[k] in paths[k] && pos'[k] in paths[k]
    requires forall k :: 0 <= k < |pos| ==> IndexOf(paths[k], pos[k]) <= IndexOf(paths[k], pos'[k])
    requires 0 <= f < |pos| && IndexOf(paths[f], pos[f]) < IndexOf(paths[f], pos'[f])
    ensures Remaining(pos', paths) < Remaining(pos, paths)
  {
    if f == 0 {
      RemainingAtMost(pos[1..], pos'[1..], paths[1..]);
    } else {
      RemainingLess(pos[1..], pos'[1..], paths[1..], f - 1);
    }
  }

  lemma {:induction false} RemainingAtMost(pos: seq<int>, pos': seq<int>, paths: seq<Path>)
    requires |pos| == |pos'| == |paths|
    requires forall k :: 0 <= k < |pos| ==> pos[k] in paths[k] && pos'[k] in paths[k]
    requires forall k :: 0 <= k < |pos| ==> IndexOf(paths[k], pos[k]) <= IndexOf(paths[k], pos'[k])
    ensures Remaining(pos', paths) <= Remaining(pos, paths)
  {
    if pos != [] {
      RemainingAtMost(pos[1..], pos'[1..], paths[1..]);
    }
  }

  /** A step keeps every ant on its route and moves it zero or one
      position further along it. */
  lemma StepAdvances(adj: AdjList, e: int, pos: seq<int>, paths: seq<Path>)
    requires OnRoutes(e, pos, paths)
    ensures var r := Step(adj, e, pos, paths);
      && OnRoutes(e, r.pos, paths)
      && forall k :: 0 <= k < |pos| ==>
           r.pos[k] == pos[k] || IndexOf(paths[k], r.pos[k]) == IndexOf(paths[k], pos[k]) + 1
  {
    var r := Step(adj, e, pos, paths);
    StepPositions(adj, e, pos, paths);
    forall k | 0 <= k < |pos| && r.pos[k] != pos[k]
      ensures r.pos[k] in paths[k] && IndexOf(paths[k], r.pos[k]) == IndexOf(paths[k], pos[k]) + 1
    {
      var j :| 0 <= j < |paths[k]| - 1 && paths[k][j] == pos[k] && paths[k][j + 1] == r.pos[k];
      IndexOfSimple(paths[k], j);
      IndexOfSimple(paths[k], j + 1);
    }
  }

  predicate AllAtEnd(pos: seq<int>, e: int) {
    forall k :: 0 <= k < |pos| ==> pos[k] == e
  }

  /** The lowest-numbered ant not in the end room. */
  lemma FirstAway(pos: seq<int>, e: int) returns (f: nat)
    requires !AllAtEnd(pos, e)
    ensures f < |pos| && pos[f] != e && forall k :: 0 <= k < f ==> pos[k] == e
  {
    var w :| 0 <= w < |pos| && pos[w] != e;
    f := 0;
    while pos[f] == e
      invariant f <= w && forall k :: 0 <= k < f ==> pos[k] == e
      decreases w - f
    {
      f := f + 1;
    }
  }

  /** While some ant is away from the end room, a step makes at least one
      move and strictly lowers the hops left. */
  lemma StepProgress(adj: AdjList, e: int, pos: seq<int>, paths: seq<Path>)
    requires OnRoutes(e, pos, paths) && !AllAtEnd(pos, e)
    ensures var r := Step(adj, e, pos, paths);
      && r.paths == paths && OnRoutes(e, r.pos, r.paths)
      && Remaining(r.pos, r.paths) < Remaining(pos, paths) && r.moves != []
  {
    var r := Step(adj, e, pos, paths);
    StepAdvances(adj, e, pos, paths);
    var f := FirstAway(pos, e);
    var p := paths[f];
    var j := IndexOf(p, pos[f]);
    assert j < |p| - 1;
    FirstWaitingMoves(adj, e, pos, paths, f, j);
    IndexOfSimple(p, j + 1);
    assert r.pos[f] != pos[f];
    StepMoves(adj, e, pos, paths);
    forall k | 0 <= k < |pos|
      ensures IndexOf(paths[k], pos[k]) <= IndexOf(paths[k], r.pos[k])
    {
    }
    RemainingLess(pos, r.pos, paths, f);
  }

  /** A line `Adım <step>: <moves>` printed at main.go:427-429. */
  datatype Report = Report(step: nat, moves: seq<Move>)

  /** The printed lines and the final positions, or running out of fuel. */
  datatype Outcome = Done(reports: seq<Report>, final: seq<int>) | OutOfFuel

  /** A step's outcome ahead of the rest of the run: its line, printed
      only when it has moves, goes before the lines that follow. */
  function Then(step: nat, moves: seq<Move>, rest: Outcome): (r: Outcome)
    ensures r.Done? <==> rest.Done?
    ensures r.Done? ==> r.final == rest.final
    ensures r.Done? ==> |r.reports| == |rest.reports| + (if moves == [] then 0 else 1)
  {
    match rest
    case OutOfFuel => OutOfFuel
    case Done(reports, final) => Done((if moves == [] then [] else [Report(step, moves)]) + reports, final)
  }

  /** The loop of main.go:385-446 with at most `fuel` steps that move ants.
      A step's line is printed only when it has moves; the loop stops once
      every ant was in the end room at the start of a step, which then
      makes no move. */
  function Run(adj: AdjList, e: int, pos: seq<int>, paths: seq<Path>, step: nat, fuel: nat): (r: Outcome)
    requires |pos| == |paths|
    ensures r.Done? ==> |r.final| == |pos| && AllAtEnd(r.final, e)
    decreases fuel
  {
    if AllAtEnd(pos, e) then Done([], pos)
    else if fuel == 0 then OutOfFuel
    else
      var st := Step(adj, e, pos, paths);
      Then(step, st.moves, Run(adj, e, st.pos, st.paths, step + 1, fuel - 1))
  }

  /** One turn of the loop when some ant is away from the end room. */
  lemma RunStep(adj: AdjList, e: int, pos: seq<int>, paths: seq<Path>, step: nat, fuel: nat)
    requires |pos| == |paths| && !AllAtEnd(pos, e) && fuel > 0
    ensures var st := Step(adj, e, pos, paths);
      Run(adj, e, pos, paths, step, fuel) == Then(step, st.moves, Run(adj, e, st.pos, st.paths, step + 1, fuel - 1))
  {
  }

  /** Lines numbered consecutively from `step`, each with a move. */
  ghost predicate Numbered(reports: seq<Report>, step: int) {
    forall k :: 0 <= k < |reports| ==> reports[k].step == step + k && reports[k].moves != []
  }

  lemma NumberedCons(first: Report, rest: seq<Report>, step: int)
    requires first.step == step && first.moves != [] && Numbered(rest, step + 1)
    ensures Numbered([first] + rest, step)
  {
    var all := [first] + rest;
    forall k | 0 < k < |all|
      ensures all[k] == rest[k - 1]
    {
    }
  }

  /** A run that ended with every ant in the end room, printed at most
      `bound` lines, numbered consecutively from `step`, each with a move. */
  ghost predicate Settled(r: Outcome, bound: nat, step: nat) {
    r.Done? && |r.reports| <= bound && Numbered(r.reports, step)
  }

  /** Termination: with as much fuel as hops are left the run ends with
      every ant in the end room, and prints one line per step, numbered
      consecutively from `step`, each with at least one move. */
  lemma {:induction false} RunFinishes(adj: AdjList, e: int, pos: seq<int>, paths: seq<Path>, step: nat, fuel: nat)
    requires OnRoutes(e, pos, paths) && fuel >= Remaining(pos, paths)
    ensures Settled(Run(adj, e, pos, paths, step, fuel), Remaining(pos, paths), step)
    decreases fuel
  {
    if !AllAtEnd(pos, e) {
      var moves, pos' := Advance(adj, e, pos, paths, step, fuel);
      RunFinishes(adj, e, pos', paths, step + 1, fuel - 1);
      FinishTurn(Run(adj, e, pos', paths, step + 1, fuel - 1), moves, step, Remaining(pos, paths), Remaining(pos', paths));
    }
  }

  /** A step taken while some ant is away from the end room: it makes
      moves, keeps the ants on their routes and leaves fewer hops. */
  lemma Advance(adj: AdjList, e: int, pos: seq<int>, paths: seq<Path>, step: nat, fuel: nat)
    returns (moves: seq<Move>, pos': seq<int>)
    requires OnRoutes(e, pos, paths) && !AllAtEnd(pos, e) && fuel >= Remaining(pos, paths)
    ensures fuel > 0
    ensures OnRoutes(e, pos', paths) && Remaining(pos', paths) < Remaining(pos, paths) && moves != []
    ensures Run(adj, e, pos, paths, step, fuel) == Then(step, moves, Run(adj, e, pos', paths, step + 1, fuel - 1))
  {
    StepProgress(adj, e, pos, paths);
    var st := Step(adj, e, pos, paths);
    RunStep(adj, e, pos, paths, step, fuel);
    moves, pos' := st.moves, st.pos;
  }

  /** A turn with moves prints its line before the lines of the rest of the run. */
  lemma FinishTurn(rest: Outcome, moves: seq<Move>, step: nat, bound: nat, restBound: nat)
    requires restBound < bound && Settled(rest, restBound, step + 1) && moves != []
    ensures Settled(Then(step, moves, rest), bound, step)
  {
    NumberedCons(Report(step, moves), rest.reports, step);
  }

  /** Every line of `Then(step, moves, rest)` is this step's or one of `rest`'s. */
  lemma ThenReports(step: nat, moves: seq<Move>, rest: Outcome, k: nat)
    requires rest.Done? && k < |Then(step, moves, rest).reports|
    ensures var line := Then(step, moves, rest).reports[k];
      line.moves == moves || exists j :: 0 <= j < |rest.reports| && line == rest.reports[j]
  {
    if moves != [] && k > 0 {
      assert Then(step, moves, rest).reports[k] == rest.reports[k - 1];
    }
  }

  /** Every printed line of a finished run lists valid moves. */
  lemma {:induction false} RunReports(adj: AdjList, e: int, pos: seq<int>, paths: seq<Path>, step: nat, fuel: nat)
    requires |pos| == |paths|
    ensures var r := Run(adj, e, pos, paths, step, fuel);
      r.Done? ==> forall k :: 0 <= k < |r.reports| ==> ValidMoves(r.reports[k].moves, |pos|, e)
    decreases fuel
  {
    if !AllAtEnd(pos, e) && fuel > 0 {
      var st := Step(adj, e, pos, paths);
      StepMoves(adj, e, pos, paths);
      RunReports(adj, e, st.pos, st.paths, step + 1, fuel - 1);
      var rest := Run(adj, e, st.pos, st.paths, step + 1, fuel - 1);
      RunStep(adj, e, pos, paths, step, fuel);
      var r := Then(step, st.moves, rest);
      if r.Done? {
        forall k | 0 <= k < |r.reports|
          ensures ValidMoves(r.reports[k].moves, |pos|, e)
        {
          ThenReports(step, st.moves, rest, k);
        }
      }
    }
  }

  /** The diamond S-A-E / S-B-E, with rooms S, A, B, E numbered 0 to 3. */
  const Diamond: AdjList := map[0 := [1, 2], 1 := [0, 3], 2 := [0, 3], 3 := [1, 2]]

  /** Both ants on S-A-E, as the assignment leaves two ants in the diamond. */
  const DiamondPaths: seq<Path> := [[0, 1, 3], [0, 1, 3]]

  /** Both ants in the diamond's start room, both on S-A-E: the second ant
      finds A entered in the first step and waits, so the run prints three
      lines, not two. */
  lemma DiamondTwoAnts()
    ensures Run(Diamond, 3, [0, 0], DiamondPaths, 1, 4)
      == Done([Report(1, [Move(0, 1)]), Report(2, [Move(0, 3), Move(1, 1)]), Report(3, [Move(1, 3)])], [3, 3])
  {
    DiamondRunFirst();
    DiamondFromSecond();
  }

  /** From the second turn on, the run prints two lines. */
  lemma DiamondFromSecond()
    ensures Run(Diamond, 3, [1, 0], DiamondPaths, 2, 3)
      == Done([Report(2, [Move(0, 3), Move(1, 1)]), Report(3, [Move(1, 3)])], [3, 3])
  {
    DiamondRunSecond();
    DiamondFromThird();
  }

  /** From the third turn on, the run prints one line and then stops. */
  lemma DiamondFromThird()
    ensures Run(Diamond, 3, [3, 1], DiamondPaths, 3, 2) == Done([Report(3, [Move(1, 3)])], [3, 3])
  {
    DiamondRunThird();
    assert AllAtEnd([3, 3], 3);
    assert Run(Diamond, 3, [3, 3], DiamondPaths, 4, 1) == Done([], [3, 3]);
  }

  /** The run's first turn: ant 0 enters A. */
  lemma DiamondRunFirst()
    ensures Run(Diamond, 3, [0, 0], DiamondPaths, 1, 4)
      == Then(1, [Move(0, 1)], Run(Diamond, 3, [1, 0], DiamondPaths, 2, 3))
  {
    DiamondFirst();
    RunStep(Diamond, 3, [0, 0], DiamondPaths, 1, 4);
  }

  /** The run's second turn: ant 0 enters E and ant 1 enters A. */
  lemma DiamondRunSecond()
    ensures Run(Diamond, 3, [1, 0], DiamondPaths, 2, 3)
      == Then(2, [Move(0, 3), Move(1, 1)], Run(Diamond, 3, [3, 1], DiamondPaths, 3, 2))
  {
    DiamondSecond();
    RunStep(Diamond, 3, [1, 0], DiamondPaths, 2, 3);
  }

  /** The run's third turn: ant 1 enters E. */
  lemma DiamondRunThird()
    ensures Run(Diamond, 3, [3, 1], DiamondPaths, 3, 2)
      == Then(3, [Move(1, 3)], Run(Diamond, 3, [3, 3], DiamondPaths, 4, 1))
  {
    DiamondThird();
    RunStep(Diamond, 3, [3, 1], DiamondPaths, 3, 2);
  }

  /** First step: ant 0 enters A, and ant 1, finding A entered, waits. */
  lemma DiamondFirst()
    ensures Step(Diamond, 3, [0, 0], DiamondPaths) == StepState([1, 0], DiamondPaths, {1}, [Move(0, 1)])
  {
    var st0 := StepState([0, 0], DiamondPaths, {}, []);
    var st1 := StepState([1, 0], DiamondPaths, {1}, [Move(0, 1)]);
    DiamondTurn(st0, 0, st1);
    DiamondWait(st1);
    assert Sweep(Diamond, 3, st1, 2) == st1;
  }

  /** The first step's second turn: A is entered, so ant 1 waits in S. */
  lemma DiamondWait(st: StepState)
    requires st == StepState([1, 0], DiamondPaths, {1}, [Move(0, 1)])
    ensures AntTurn(Diamond, 3, st, 1) == st
  {
    assert Hop([0, 1, 3], 0, {1}, 3, 1) == None;
    assert Hop([0, 1, 3], 0, {1}, 3, 0) == None;
  }

  /** Ant `i` with the room after its own on S-A-E free hops into it. */
  lemma DiamondTurn(st: StepState, i: nat, r: StepState)
    requires |st.pos| == 2 && st.paths == DiamondPaths && i < 2 && st.pos[i] in {0, 1}
    requires var n := if st.pos[i] == 0 then 1 else 3;
      (n !in st.occupied || n == 3) && r == StepState(st.pos[i := n], st.paths, st.occupied + {n}, st.moves + [Move(i, n)])
    ensures AntTurn(Diamond, 3, st, i) == r
  {
    var j := if st.pos[i] == 0 then 0 else 1;
    assert Opens(st.paths[i], st.pos[i], st.occupied, 3, j);
    assert Hop(st.paths[i], st.pos[i], st.occupied, 3, 0) == Some(j) by {
      if j == 1 {
        assert !Opens(st.paths[i], st.pos[i], st.occupied, 3, 0);
      }
    }
  }

  /** Second step: ant 0 enters E, then ant 1 enters A, now free. */
  lemma DiamondSecond()
    ensures Step(Diamond, 3, [1, 0], DiamondPaths) == StepState([3, 1], DiamondPaths, {3, 1}, [Move(0, 3), Move(1, 1)])
  {
    var st0 := StepState([1, 0], DiamondPaths, {}, []);
    var st1 := StepState([3, 0], DiamondPaths, {3}, [Move(0, 3)]);
    var st2 := StepState([3, 1], DiamondPaths, {3, 1}, [Move(0, 3), Move(1, 1)]);
    DiamondTurn(st0, 0, st1);
    DiamondTurn(st1, 1, st2);
    assert Sweep(Diamond, 3, st2, 2) == st2;
  }

  /** Third step: ant 0 stays in E and ant 1 enters E. */
  lemma DiamondThird()
    ensures Step(Diamond, 3, [3, 1], DiamondPaths) == StepState([3, 3], DiamondPaths, {3}, [Move(1, 3)])
  {
    var st0 := StepState([3, 1], DiamondPaths, {}, []);
    var st1 := StepState([3, 3], DiamondPaths, {3}, [Move(1, 3)]);
    assert AntTurn(Diamond, 3, st0, 0) == st0;
    DiamondTurn(st0, 1, st1);
    assert Sweep(Diamond, 3, st1, 2) == st1;
  }
}
