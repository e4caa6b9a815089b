/** Room sharing in the movement loop of main.go:385-446. The loop only
    remembers the rooms entered in the current step, not the rooms the
    ants stand in. Still, no two ants are ever in the same room other than
    the start and end rooms, when the paths come from the selection.
    Ants on one path keep their order, lower-numbered ants ahead, and an
    ant that stays behind was blocked by an earlier ant that entered its
    next room from the same room. */
module Occupancy {
  import opened GraphModel
  import opened Paths
  import opened Select
  import opened Schedule

  /** Every room claimed so far in the step was entered by an ant before
      `i`, which still stands there. */
  ghost predicate EnteredBy(pos0: seq<int>, st: StepState, i: nat) {
    forall x :: x in st.occupied ==>
      exists c :: 0 <= c < i && c < |st.pos| && c < |pos0| && st.pos[c] == x && st.pos[c] != pos0[c]
  }

  /** Ant `a`, still in room `pos0[a]`, was blocked: after its room on its
      path comes a room other than the end room that an earlier ant entered. */
  ghost predicate Blocked(e: int, pos0: seq<int>, r: StepState, a: nat)
    requires a < |r.pos| == |r.paths| && a < |pos0|
  {
    forall j :: 0 <= j < |r.paths[a]| - 1 && r.paths[a][j] == pos0[a] ==>
      && r.paths[a][j + 1] != e
      && exists c :: 0 <= c < a && r.pos[c] == r.paths[a][j + 1] && r.pos[c] != pos0[c]
  }

  ghost predicate AllSimple(paths: seq<Path>) {
    forall k :: 0 <= k < |paths| ==> Simple(paths[k])
  }

  /** From ant `i` on, every ant that neither is in the end room nor moved
      was blocked. */
  ghost predicate AllBlocked(e: int, pos0: seq<int>, r: StepState, i: nat)
    requires |r.pos| == |r.paths| == |pos0|
  {
    forall a :: i <= a < |r.pos| && pos0[a] != e && r.pos[a] == pos0[a] ==> Blocked(e, pos0, r, a)
  }

  lemma {:induction false} SweepBlocked(adj: AdjList, e: int, pos0: seq<int>, st: StepState, i: nat)
    requires i <= |st.pos| == |st.paths| == |pos0| && AllSimple(st.paths)
    requires EnteredBy(pos0, st, i)
    requires forall k :: i <= k < |st.pos| ==> st.pos[k] == pos0[k]
    ensures AllBlocked(e, pos0, Sweep(adj, e, st, i), i)
    decreases |st.pos| - i
  {
    if i < |st.pos| {
      var st' := AntTurn(adj, e, st, i);
      AntTurnSpec(adj, e, st, i);
      var r := Sweep(adj, e, st', i + 1);
      assert r == Sweep(adj, e, st, i);
      if st' == st {
        EnteredMore(pos0, st, i);
        SweepBlocked(adj, e, pos0, st', i + 1);
        IdleBlocked(e, pos0, st, r, i);
      } else {
        MovedEnters(e, pos0, st, st', i);
        SweepBlocked(adj, e, pos0, st', i + 1);
        MovedBlocked(e, pos0, r, i);
      }
    }
  }

  lemma EnteredMore(pos0: seq<int>, st: StepState, i: nat)
    requires EnteredBy(pos0, st, i)
    ensures EnteredBy(pos0, st, i + 1)
  {
    forall x | x in st.occupied
      ensures exists c :: 0 <= c < i + 1 && c < |st.pos| && c < |pos0| && st.pos[c] == x && st.pos[c] != pos0[c]
    {
      var c :| 0 <= c < i && c < |st.pos| && c < |pos0| && st.pos[c] == x && st.pos[c] != pos0[c];
    }
  }

  /** The inductive step of `SweepBlocked` when ant `i` moved. */
  lemma MovedBlocked(e: int, pos0: seq<int>, r: StepState, i: nat)
    requires i < |r.pos| == |r.paths| == |pos0| && r.pos[i] != pos0[i]
    requires AllBlocked(e, pos0, r, i + 1)
    ensures AllBlocked(e, pos0, r, i)
  {
  }

  /** The inductive step of `SweepBlocked` when ant `i` stayed: no position
      of its path opened, so the next room is claimed, hence entered by an
      earlier ant that stays there. */
  lemma IdleBlocked(e: int, pos0: seq<int>, st: StepState, r: StepState, i: nat)
    requires i < |st.pos| == |st.paths| == |pos0| && st.pos[i] == pos0[i]
    requires EnteredBy(pos0, st, i)
    requires pos0[i] != e ==> !exists j :: 0 <= j < |st.paths[i]| - 1 && Opens(st.paths[i], st.pos[i], st.occupied, e, j)
    requires |r.pos| == |st.pos| && r.paths == st.paths
    requires forall k :: 0 <= k < i ==> r.pos[k] == st.pos[k]
    requires AllBlocked(e, pos0, r, i + 1)
    ensures AllBlocked(e, pos0, r, i)
  {
    if pos0[i] != e {
      var p := st.paths[i];
      forall j | 0 <= j < |p| - 1 && p[j] == pos0[i]
        ensures p[j + 1] != e && exists c :: 0 <= c < i && r.pos[c] == p[j + 1] && r.pos[c] != pos0[c]
      {
        assert !Opens(p, st.pos[i], st.occupied, e, j);
        var c :| 0 <= c < i && c < |st.pos| && c < |pos0| && st.pos[c] == p[j + 1] && st.pos[c] != pos0[c];
        assert r.pos[c] == st.pos[c];
      }
      assert Blocked(e, pos0, r, i);
    }
  }

  /** After ant `i` moves along a simple path, the rooms claimed are still
      each held by an ant that entered it. */
  lemma MovedEnters(e: int, pos0: seq<int>, st: StepState, st': StepState, i: nat)
    requires i < |st.pos| == |st.paths| == |pos0| && AllSimple(st.paths)
    requires st.pos[i] == pos0[i] && Moved(st, st', i, e)
    requires EnteredBy(pos0, st, i)
    ensures EnteredBy(pos0, st', i + 1) && AllSimple(st'.paths) && st'.pos[i] != pos0[i]
    ensures forall k :: i + 1 <= k < |st'.pos| ==> st'.pos[k] == st.pos[k]
  {
    var p := st.paths[i];
    var j :| 0 <= j < |p| - 1 && p[j] == st.pos[i] && p[j + 1] == st'.pos[i];
    assert st'.pos[i] != pos0[i];
    forall x | x in st'.occupied
      ensures exists c :: 0 <= c < i + 1 && c < |st'.pos| && c < |pos0| && st'.pos[c] == x && st'.pos[c] != pos0[c]
    {
      if x != st'.pos[i] {
        var c :| 0 <= c < i && c < |st.pos| && c < |pos0| && st.pos[c] == x && st.pos[c] != pos0[c];
        assert st'.pos[c] == st.pos[c];
      }
    }
  }

  /** In one step over simple paths, an ant that is not in the end room and
      stays where it is was blocked by an earlier ant. */
  lemma StepBlocked(adj: AdjList, e: int, pos: seq<int>, paths: seq<Path>)
    requires |pos| == |paths| && AllSimple(paths)
    ensures AllBlocked(e, pos, Step(adj, e, pos, paths), 0)
  {
    SweepBlocked(adj, e, pos, StepState(pos, paths, {}, []), 0);
  }

  /** On path `p`, an ant in room `x` is ahead of one in room `y`, unless
      both are in the first room or both in the last. */
  ghost predicate Ahead(p: Path, x: int, y: int)
    requires x in p && y in p
  {
    IndexOf(p, y) < IndexOf(p, x) || (x == y && (x == p[0] || x == p[|p| - 1]))
  }

  /** Ants on their routes, and ants sharing a route keep their order:
      the lower-numbered one is ahead. */
  ghost predicate Ordered(e: int, pos: seq<int>, paths: seq<Path>) {
    && OnRoutes(e, pos, paths)
    && forall a, b :: 0 <= a < b < |pos| && paths[a] == paths[b] ==> Ahead(paths[a], pos[a], pos[b])
  }

  /** Different paths share no interior room, as the selection guarantees. */
  ghost predicate Separate(paths: seq<Path>) {
    forall a, b :: 0 <= a < |paths| && 0 <= b < |paths| && paths[a] != paths[b] ==> Apart(paths[a], paths[b])
  }

  /** What one step from `pos` to `r` is known to do. */
  ghost predicate Stepped(e: int, pos: seq<int>, paths: seq<Path>, r: StepState)
    requires OnRoutes(e, pos, paths)
  {
    && r.paths == paths
    && OnRoutes(e, r.pos, paths)
    && (forall k :: 0 <= k < |pos| ==>
          r.pos[k] == pos[k] || IndexOf(paths[k], r.pos[k]) == IndexOf(paths[k], pos[k]) + 1)
    && (forall k :: 0 <= k < |pos| && pos[k] == e ==> r.pos[k] == e)
    && (forall k :: 0 <= k < |pos| ==> r.pos[k] == pos[k] || Hopped(paths[k], pos[k], r.pos[k]))
    && ValidMoves(r.moves, |pos|, e)
    && (forall m :: 0 <= m < |r.moves| ==> r.pos[r.moves[m].ant] == r.moves[m].node)
    && (forall k :: 0 <= k < |pos| && r.pos[k] != pos[k] ==> exists m :: 0 <= m < |r.moves| && r.moves[m].ant == k)
    && AllBlocked(e, pos, r, 0)
  }

  lemma StepStepped(adj: AdjList, e: int, pos: seq<int>, paths: seq<Path>)
    requires OnRoutes(e, pos, paths)
    ensures Stepped(e, pos, paths, Step(adj, e, pos, paths))
  {
    StepAdvances(adj, e, pos, paths);
    StepPositions(adj, e, pos, paths);
    StepMoves(adj, e, pos, paths);
    StepBlocked(adj, e, pos, paths);
  }

  /** Two different ants that both moved entered different rooms, unless
      it is the end room. */
  lemma EntriesDiffer(e: int, pos: seq<int>, paths: seq<Path>, r: StepState, c: nat, b: nat)
    requires OnRoutes(e, pos, paths) && Stepped(e, pos, paths, r)
    requires c < |pos| && b < |pos| && c != b && r.pos[c] != pos[c] && r.pos[b] != pos[b]
    ensures r.pos[c] != r.pos[b] || r.pos[c] == e
  {
    var mc :| 0 <= mc < |r.moves| && r.moves[mc].ant == c;
    var mb :| 0 <= mb < |r.moves| && r.moves[mb].ant == b;
    if mc < mb {
      assert r.moves[mc].node == r.moves[mb].node ==> r.moves[mc].node == e;
    } else {
      assert r.moves[mb].node == r.moves[mc].node ==> r.moves[mb].node == e;
    }
  }

  lemma InInterior(p: Path, k: int)
    requires 1 <= k < |p| - 1
    ensures p[k] in Interior(p)
  {
    assert p[k] == Interior(p)[k - 1];
  }

  /** On separate simple routes to `e`, a room other than `e` that
      follows position `i` of `q` and position `j` of `p` is the same
      step of the same route. */
  lemma SameSuccessor(e: int, p: Path, q: Path, i: nat, j: nat)
    requires i < |q| - 1 && j < |p| - 1 && q[i + 1] == p[j + 1] != e
    requires Simple(p) && Simple(q) && p[|p| - 1] == e && q[|q| - 1] == e
    requires p != q ==> Apart(p, q)
    ensures p == q && i == j
  {
    if q != p {
      InInterior(p, j + 1);
      InInterior(q, i + 1);
      assert false;
    }
  }

  /** Two ants on one route keep their order through a step. */
  lemma PairKeepsOrder(e: int, pos: seq<int>, paths: seq<Path>, r: StepState, a: nat, b: nat)
    requires Ordered(e, pos, paths) && Separate(paths) && Stepped(e, pos, paths, r)
    requires a < b < |pos| && paths[a] == paths[b]
    ensures Ahead(paths[a], r.pos[a], r.pos[b])
  {
    var p := paths[a];
    var ia, ib := IndexOf(p, pos[a]), IndexOf(p, pos[b]);
    assert Ahead(p, pos[a], pos[b]);
    if pos[a] == e {
      if pos[b] == e {
        assert r.pos[a] == e == r.pos[b] == p[|p| - 1];
      } else {
        AheadOfEnd(e, pos, paths, r, a, b);
      }
    } else if ib < ia {
      AheadOfOther(e, pos, paths, r, a, b);
    } else {
      BothAtStart(e, pos, paths, r, a, b);
    }
  }

  /** The leading ant is in the end room: it stays, and the other ant
      reaches at most the end room. */
  lemma AheadOfEnd(e: int, pos: seq<int>, paths: seq<Path>, r: StepState, a: nat, b: nat)
    requires Ordered(e, pos, paths) && Stepped(e, pos, paths, r)
    requires a < b < |pos| && paths[a] == paths[b] && pos[a] == e && pos[b] != e
    ensures Ahead(paths[a], r.pos[a], r.pos[b])
  {
    var p := paths[a];
    IndexOfSimple(p, |p| - 1);
    if IndexOf(p, r.pos[b]) == |p| - 1 {
      assert r.pos[b] == e;
    }
  }

  /** An ant that stayed outside the end room was blocked by an earlier
      ant on the same route, which stood in the same room and entered the
      next one. */
  lemma Blocker(e: int, pos: seq<int>, paths: seq<Path>, r: StepState, a: nat) returns (c: nat)
    requires OnRoutes(e, pos, paths) && Separate(paths) && |r.pos| == |pos| && r.paths == paths
    requires forall k :: 0 <= k < |pos| ==> r.pos[k] == pos[k] || Hopped(paths[k], pos[k], r.pos[k])
    requires a < |pos| && pos[a] != e && r.pos[a] == pos[a] && Blocked(e, pos, r, a)
    ensures c < a && paths[c] == paths[a] && pos[c] == pos[a] && r.pos[c] != pos[c]
    ensures IndexOf(paths[a], pos[a]) < |paths[a]| - 1 && r.pos[c] == paths[a][IndexOf(paths[a], pos[a]) + 1]
  {
    var p := paths[a];
    var ia := IndexOf(p, pos[a]);
    c := BlockingAnt(e, pos, paths, r, a);
    var i := HopIndex(paths[c], pos[c], r.pos[c]);
    assert p != paths[c] ==> Apart(p, paths[c]);
    SameSuccessor(e, p, paths[c], i, ia);
  }

  /** The earlier ant that entered the next room of a blocked ant. */
  lemma BlockingAnt(e: int, pos: seq<int>, paths: seq<Path>, r: StepState, a: nat) returns (c: nat)
    requires OnRoutes(e, pos, paths) && |r.pos| == |pos| && r.paths == paths
    requires a < |pos| && pos[a] != e && Blocked(e, pos, r, a)
    ensures IndexOf(paths[a], pos[a]) < |paths[a]| - 1
    ensures c < a && r.pos[c] != pos[c] && r.pos[c] == paths[a][IndexOf(paths[a], pos[a]) + 1] != e
  {
    var p := paths[a];
    IndexOfSimple(p, |p| - 1);
    var ia := IndexOf(p, pos[a]);
    c :| 0 <= c < a && r.pos[c] == p[ia + 1] && r.pos[c] != pos[c];
  }

  /** The position of a hop from `x` to `y` on `p`. */
  lemma HopIndex(p: Path, x: int, y: int) returns (i: nat)
    requires Hopped(p, x, y)
    ensures i < |p| - 1 && p[i] == x && p[i + 1] == y
  {
    i :| 0 <= i < |p| - 1 && p[i] == x && p[i + 1] == y;
  }

  /** The leading ant is strictly ahead and not in the end room. If the
      other ant caught up, the leading one was blocked by a third ant from
      its own room, which the order rules out. */
  lemma AheadOfOther(e: int, pos: seq<int>, paths: seq<Path>, r: StepState, a: nat, b: nat)
    requires Ordered(e, pos, paths) && Separate(paths) && Stepped(e, pos, paths, r)
    requires a < b < |pos| && paths[a] == paths[b] && pos[a] != e
    requires IndexOf(paths[a], pos[b]) < IndexOf(paths[a], pos[a])
    ensures Ahead(paths[a], r.pos[a], r.pos[b])
  {
    var p := paths[a];
    if IndexOf(p, r.pos[a]) <= IndexOf(p, r.pos[b]) {
      assert r.pos[a] == pos[a];
      var c := Blocker(e, pos, paths, r, a);
      assert false;
    }
  }

  /** Both ants are in the first room of their route. The leading ant
      cannot be blocked while the other moves, as both would enter the
      same room; if both move, that room is the end room. */
  lemma BothAtStart(e: int, pos: seq<int>, paths: seq<Path>, r: StepState, a: nat, b: nat)
    requires Ordered(e, pos, paths) && Separate(paths) && Stepped(e, pos, paths, r)
    requires a < b < |pos| && paths[a] == paths[b] && pos[a] != e
    requires IndexOf(paths[a], pos[a]) <= IndexOf(paths[a], pos[b])
    ensures Ahead(paths[a], r.pos[a], r.pos[b])
  {
    var p := paths[a];
    assert Ahead(p, pos[a], pos[b]);
    assert pos[a] == pos[b] == p[0];
    IndexOfSimple(p, 0);
    if r.pos[b] != pos[b] {
      IndexOfSimple(p, 1);
      if r.pos[a] == pos[a] {
        var c := Blocker(e, pos, paths, r, a);
        EntriesDiffer(e, pos, paths, r, c, b);
        assert false;
      } else {
        EntriesDiffer(e, pos, paths, r, a, b);
        IndexOfSimple(p, |p| - 1);
      }
    }
  }

  /** One step keeps ants on separate routes in order. */
  lemma StepKeepsOrder(adj: AdjList, e: int, pos: seq<int>, paths: seq<Path>)
    requires Ordered(e, pos, paths) && Separate(paths)
    ensures Ordered(e, Step(adj, e, pos, paths).pos, paths)
  {
    var r := Step(adj, e, pos, paths);
    StepStepped(adj, e, pos, paths);
    forall a, b | 0 <= a < b < |pos| && paths[a] == paths[b]
      ensures Ahead(paths[a], r.pos[a], r.pos[b])
    {
      PairKeepsOrder(e, pos, paths, r, a, b);
    }
  }

  /** No two ants share a room other than `s` and `e`. */
  ghost predicate Exclusive(s: int, e: int, pos: seq<int>) {
    forall a, b :: 0 <= a < b < |pos| && pos[a] == pos[b] ==> pos[a] == s || pos[a] == e
  }

  /** Every path leaves from `s`. */
  ghost predicate FromStart(s: int, paths: seq<Path>) {
    forall k :: 0 <= k < |paths| ==> |paths[k]| > 0 && paths[k][0] == s
  }

  /** Ordered ants on separate routes from `s` share no room but `s` and
      `e`: on one route two ants meet only in its first or last room, and
      two different routes have no interior room in common. */
  lemma OrderedExclusive(s: int, e: int, pos: seq<int>, paths: seq<Path>)
    requires Ordered(e, pos, paths) && Separate(paths) && FromStart(s, paths)
    ensures Exclusive(s, e, pos)
  {
    forall a, b | 0 <= a < b < |pos| && pos[a] == pos[b]
      ensures pos[a] == s || pos[a] == e
    {
      if paths[a] == paths[b] {
        assert Ahead(paths[a], pos[a], pos[b]);
      } else if pos[a] != s && pos[a] != e {
        var p, q := paths[a], paths[b];
        InInterior(p, IndexOf(p, pos[a]));
        InInterior(q, IndexOf(q, pos[b]));
        assert false;
      }
    }
  }

  /** Ants all in `s`, on routes from `s`, are ordered. */
  lemma StartOrdered(s: int, e: int, pos: seq<int>, paths: seq<Path>)
    requires OnRoutes(e, pos, paths) && FromStart(s, paths)
    requires forall k :: 0 <= k < |pos| ==> pos[k] == s
    ensures Ordered(e, pos, paths)
  {
  }

  /** The positions after `n` steps of the movement loop. */
  function After(adj: AdjList, e: int, pos: seq<int>, paths: seq<Path>, n: nat): (r: seq<int>)
    requires |pos| == |paths|
    ensures |r| == |pos|
    decreases n
  {
    if n == 0 then pos else Step(adj, e, After(adj, e, pos, paths, n - 1), paths).pos
  }

  /** Ants on their routes stay on them for any number of steps. */
  lemma {:induction false} AfterOnRoutes(adj: AdjList, e: int, pos: seq<int>, paths: seq<Path>, n: nat)
    requires OnRoutes(e, pos, paths)
    ensures OnRoutes(e, After(adj, e, pos, paths, n), paths)
    decreases n
  {
    if n == 0 {
      AfterNone(adj, e, pos, paths);
    } else {
      AfterOnRoutes(adj, e, pos, paths, n - 1);
      LastOnRoutes(adj, e, pos, paths, n);
    }
  }

  /** The last of `n` steps keeps ants on the routes the ones before it kept. */
  lemma LastOnRoutes(adj: AdjList, e: int, pos: seq<int>, paths: seq<Path>, n: nat)
    requires |pos| == |paths| && n > 0
    requires OnRoutes(e, After(adj, e, pos, paths, n - 1), paths)
    ensures OnRoutes(e, After(adj, e, pos, paths, n), paths)
  {
    var q := After(adj, e, pos, paths, n - 1);
    StepNoWorse(adj, e, q, paths);
    AfterLast(adj, e, pos, paths, n);
  }

  /** No steps leave the positions as they are. */
  lemma AfterNone(adj: AdjList, e: int, pos: seq<int>, paths: seq<Path>)
    requires |pos| == |paths|
    ensures After(adj, e, pos, paths, 0) == pos
  {
  }

  /** The positions after `n` steps are one step on from those after `n - 1`. */
  lemma AfterLast(adj: AdjList, e: int, pos: seq<int>, paths: seq<Path>, n: nat)
    requires |pos| == |paths| && n > 0
    ensures After(adj, e, pos, paths, n) == Step(adj, e, After(adj, e, pos, paths, n - 1), paths).pos
  {
  }

  /** A step keeps ants on their routes and never adds hops. */
  lemma StepNoWorse(adj: AdjList, e: int, pos: seq<int>, paths: seq<Path>)
    requires OnRoutes(e, pos, paths)
    ensures var next := Step(adj, e, pos, paths).pos;
      OnRoutes(e, next, paths) && Remaining(next, paths) <= Remaining(pos, paths)
  {
    if AllAtEnd(pos, e) {
      StepPositions(adj, e, pos, paths);
      assert Step(adj, e, pos, paths).pos == pos;
    } else {
      StepProgress(adj, e, pos, paths);
    }
  }

  /** One step, then `n` more, is `n + 1` steps. */
  lemma {:induction false} AfterShift(adj: AdjList, e: int, pos: seq<int>, paths: seq<Path>, n: nat)
    requires |pos| == |paths|
    ensures After(adj, e, pos, paths, n + 1) == After(adj, e, Step(adj, e, pos, paths).pos, paths, n)
    decreases n
  {
    if n == 0 {
      AfterLast(adj, e, pos, paths, 1);
      AfterNone(adj, e, pos, paths);
      AfterNone(adj, e, Step(adj, e, pos, paths).pos, paths);
    } else {
      AfterShift(adj, e, pos, paths, n - 1);
      ShiftOnce(adj, e, pos, paths, n);
    }
  }

  /** `AfterShift` for `n` from `AfterShift` for `n - 1`. */
  lemma ShiftOnce(adj: AdjList, e: int, pos: seq<int>, paths: seq<Path>, n: nat)
    requires |pos| == |paths| && n > 0
    requires After(adj, e, pos, paths, n) == After(adj, e, Step(adj, e, pos, paths).pos, paths, n - 1)
    ensures After(adj, e, pos, paths, n + 1) == After(adj, e, Step(adj, e, pos, paths).pos, paths, n)
  {
    var next := Step(adj, e, pos, paths).pos;
    AfterLast(adj, e, pos, paths, n + 1);
    AfterLast(adj, e, next, paths, n);
    SameStep(adj, e, paths, After(adj, e, pos, paths, n), After(adj, e, next, paths, n - 1),
      After(adj, e, pos, paths, n + 1), After(adj, e, next, paths, n));
  }

  /** Steps from equal positions end in equal positions. */
  lemma SameStep(adj: AdjList, e: int, paths: seq<Path>, x: seq<int>, y: seq<int>, a: seq<int>, b: seq<int>)
    requires |x| == |paths| && x == y
    requires a == Step(adj, e, x, paths).pos && b == Step(adj, e, y, paths).pos
    ensures a == b
  {
  }

  /** A finished run that follows `After` from `pos`: line `k` lists the
      moves of the step from the positions after `k` steps, and the run
      ends in the positions after as many steps as it printed lines. */
  ghost predicate Traces(adj: AdjList, e: int, pos: seq<int>, paths: seq<Path>, r: Outcome)
    requires |pos| == |paths|
  {
    r.Done? ==> r.final == After(adj, e, pos, paths, |r.reports|) && Follows(adj, e, pos, paths, r.reports)
  }

  /** Line `k` lists the moves of the step from the positions after `k` steps. */
  ghost predicate Follows(adj: AdjList, e: int, pos: seq<int>, paths: seq<Path>, reports: seq<Report>)
    requires |pos| == |paths|
  {
    forall k :: 0 <= k < |reports| ==> reports[k].moves == Step(adj, e, After(adj, e, pos, paths, k), paths).moves
  }

  /** The lines of a finished run are the steps `After` iterates: line `k`
      lists the moves of the step from the positions after `k` steps, and
      the run ends in the positions after as many steps as it printed
      lines. Every step of the loop prints a line, because the first ant
      still travelling always moves. */
  lemma {:induction false} RunAfter(adj: AdjList, e: int, pos: seq<int>, paths: seq<Path>, step: nat, fuel: nat, r: Outcome)
    requires OnRoutes(e, pos, paths) && r == Run(adj, e, pos, paths, step, fuel)
    ensures Traces(adj, e, pos, paths, r)
    decreases fuel, 1
  {
    if AllAtEnd(pos, e) || fuel == 0 {
      RunAfterEnd(adj, e, pos, paths, step, fuel, r);
    } else {
      RunAfterNext(adj, e, pos, paths, step, fuel, r);
    }
  }

  /** `RunAfter` for a run that makes no step. */
  lemma RunAfterEnd(adj: AdjList, e: int, pos: seq<int>, paths: seq<Path>, step: nat, fuel: nat, r: Outcome)
    requires |pos| == |paths| && (AllAtEnd(pos, e) || fuel == 0) && r == Run(adj, e, pos, paths, step, fuel)
    ensures Traces(adj, e, pos, paths, r)
  {
    AfterNone(adj, e, pos, paths);
  }

  /** `RunAfter` for a run that makes a step: the step moves an ant, and
      the rest of the run follows `After` from where the step ends. */
  lemma {:induction false} RunAfterNext(adj: AdjList, e: int, pos: seq<int>, paths: seq<Path>, step: nat, fuel: nat, r: Outcome)
    requires OnRoutes(e, pos, paths) && !AllAtEnd(pos, e) && fuel > 0
    requires r == Run(adj, e, pos, paths, step, fuel)
    ensures Traces(adj, e, pos, paths, r)
    decreases fuel, 0
  {
    var st := Moving(adj, e, pos, paths);
    var rest := Run(adj, e, st.pos, st.paths, step + 1, fuel - 1);
    RunAfter(adj, e, st.pos, st.paths, step + 1, fuel - 1, rest);
    RunStep(adj, e, pos, paths, step, fuel);
    RunAfterStep(adj, e, pos, paths, step, st, rest, r);
  }

  /** The step from ants on their routes, not all in the end room, moves
      an ant and leaves them on their routes. */
  lemma Moving(adj: AdjList, e: int, pos: seq<int>, paths: seq<Path>) returns (st: StepState)
    requires OnRoutes(e, pos, paths) && !AllAtEnd(pos, e)
    ensures st == Step(adj, e, pos, paths) && st.moves != [] && OnRoutes(e, st.pos, st.paths)
  {
    st := Step(adj, e, pos, paths);
    StepProgress(adj, e, pos, paths);
  }

  /** `RunAfter` for a run that begins with a step from `pos`, to `next`
      with `moves`, and goes on as `rest`. */
  lemma RunAfterStep(adj: AdjList, e: int, pos: seq<int>, paths: seq<Path>, step: nat,
                     st: StepState, rest: Outcome, r: Outcome)
    requires |pos| == |paths| && st == Step(adj, e, pos, paths)
    requires st.moves != [] && r == Then(step, st.moves, rest)
    requires Traces(adj, e, st.pos, st.paths, rest)
    ensures Traces(adj, e, pos, paths, r)
  {
    var next, moves := st.pos, st.moves;
    if r.Done? {
      assert r.reports == [Report(step, moves)] + rest.reports;
      AfterShift(adj, e, pos, paths, |rest.reports|);
      forall k | 0 <= k < |r.reports|
        ensures r.reports[k].moves == Step(adj, e, After(adj, e, pos, paths, k), paths).moves
      {
        ReportShift(adj, e, pos, paths, step, next, moves, rest.reports, r.reports, k);
      }
    }
  }

  /** Line `k` of a run that begins with a step from `pos`. */
  lemma ReportShift(adj: AdjList, e: int, pos: seq<int>, paths: seq<Path>, step: nat,
                    next: seq<int>, moves: seq<Move>, rest: seq<Report>, reports: seq<Report>, k: int)
    requires |pos| == |paths|
    requires next == Step(adj, e, pos, paths).pos && moves == Step(adj, e, pos, paths).moves
    requires reports == [Report(step, moves)] + rest && 0 <= k < |reports|
    requires forall k :: 0 <= k < |rest| ==>
      rest[k].moves == Step(adj, e, After(adj, e, next, paths, k), paths).moves
    ensures reports[k].moves == Step(adj, e, After(adj, e, pos, paths, k), paths).moves
  {
    if k == 0 {
      AfterNone(adj, e, pos, paths);
    } else {
      assert reports[k] == rest[k - 1];
      AfterShift(adj, e, pos, paths, k - 1);
    }
  }

  /** Order along shared routes survives any number of steps. */
  lemma {:induction false} AfterOrdered(adj: AdjList, e: int, pos: seq<int>, paths: seq<Path>, n: nat)
    requires Ordered(e, pos, paths) && Separate(paths)
    ensures Ordered(e, After(adj, e, pos, paths, n), paths)
    decreases n
  {
    if n == 0 {
      AfterNone(adj, e, pos, paths);
    } else {
      AfterOrdered(adj, e, pos, paths, n - 1);
      LastOrdered(adj, e, pos, paths, n);
    }
  }

  /** The last of `n` steps keeps the order the ones before it kept. */
  lemma LastOrdered(adj: AdjList, e: int, pos: seq<int>, paths: seq<Path>, n: nat)
    requires |pos| == |paths| && n > 0 && Separate(paths)
    requires Ordered(e, After(adj, e, pos, paths, n - 1), paths)
    ensures Ordered(e, After(adj, e, pos, paths, n), paths)
  {
    StepKeepsOrder(adj, e, After(adj, e, pos, paths, n - 1), paths);
    AfterLast(adj, e, pos, paths, n);
  }

  /** Ants that start in `s` on separate routes from `s` to `e` never
      share any other room but `e`, after any number of steps. */
  lemma AfterExclusive(adj: AdjList, s: int, e: int, pos: seq<int>, paths: seq<Path>, n: nat)
    requires OnRoutes(e, pos, paths) && FromStart(s, paths) && Separate(paths)
    requires forall k :: 0 <= k < |pos| ==> pos[k] == s
    ensures Exclusive(s, e, After(adj, e, pos, paths, n))
  {
    StartOrdered(s, e, pos, paths);
    AfterOrdered(adj, e, pos, paths, n);
    OrderedExclusive(s, e, After(adj, e, pos, paths, n), paths);
  }

  /** Paths drawn from a pairwise interior-disjoint list are separate. */
  lemma DrawnSeparate(filtered: seq<Path>, paths: seq<Path>)
    requires forall a, b :: 0 <= a < b < |filtered| ==> Apart(filtered[a], filtered[b])
    requires forall k :: 0 <= k < |paths| ==> paths[k] in filtered
    ensures Separate(paths)
  {
    forall a, b | 0 <= a < |paths| && 0 <= b < |paths| && paths[a] != paths[b]
      ensures Apart(paths[a], paths[b])
    {
      var x :| 0 <= x < |filtered| && filtered[x] == paths[a];
      var y :| 0 <= y < |filtered| && filtered[y] == paths[b];
      if y < x {
        assert Apart(filtered[y], filtered[x]);
      }
    }
  }
}
