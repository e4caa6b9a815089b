/** The path enumerator `BFSAllPaths` (main.go:50-95).

    The Go code keeps a FIFO queue of partial paths that starts with the
    one-node path [s] and only ever appends a path one node longer than the
    one just dequeued. The queue therefore always holds the rest of one
    level (paths with k+1 nodes) followed by the part of the next level
    built so far, so the enumeration can be described level by level: `Walk`
    is that description and `BfsAllPaths` is the queue loop, proved to
    produce exactly the same sequence. */
module Paths {
  import opened GraphModel

  type Path = seq<int>

  /** Linear membership test (main.go:88-95). */
  function Contains(s: seq<int>, x: int): (r: bool)
    ensures r <==> x in s
  {
    if s == [] then false else s[0] == x || Contains(s[1..], x)
  }

  /** No node occurs twice. */
  ghost predicate Simple(p: Path) {
    forall i, j :: 0 <= i < j < |p| ==> p[i] != p[j]
  }

  /** Each consecutive pair is an adjacency-list entry. */
  ghost predicate Linked(adj: AdjList, p: Path) {
    forall i :: 0 <= i < |p| - 1 ==> p[i + 1] in Neighbors(adj, p[i])
  }

  /** A simple walk from `s` to `e` along the adjacency lists. Being simple,
      it meets `e` only at its end. */
  ghost predicate IsRoute(adj: AdjList, s: int, e: int, p: Path) {
    |p| > 0 && p[0] == s && p[|p| - 1] == e && Simple(p) && Linked(adj, p)
  }

  /** What the queue can hold: a simple walk from `s` that has not met `e`
      before its last node. */
  ghost predicate IsPartial(adj: AdjList, s: int, e: int, p: Path) {
    |p| > 0 && p[0] == s && Simple(p) && Linked(adj, p) && e !in p[..|p| - 1]
  }

  /** Level `k` of the search: partial paths with exactly k+1 nodes. */
  ghost predicate Level(adj: AdjList, s: int, e: int, f: seq<Path>, k: nat) {
    forall i :: 0 <= i < |f| ==> IsPartial(adj, s, e, f[i]) && |f[i]| == k + 1
  }

  predicate AllNonEmpty(f: seq<Path>) {
    forall i :: 0 <= i < |f| ==> |f[i]| > 0
  }

  /** Every node a walk from `s` can reach: `s` and every listed neighbour. */
  ghost function Universe(adj: AdjList, s: int): set<int> {
    {s} + set m, n | m in adj && n in adj[m] :: n
  }

  /** The paths enqueued for the neighbours `ns` of the last node of `p`,
      skipping neighbours already on `p` (main.go:71-81). */
  function Extend(p: Path, ns: seq<int>): seq<Path> {
    if ns == [] then []
    else (if Contains(p, ns[0]) then [] else [p + [ns[0]]]) + Extend(p, ns[1..])
  }

  /** Each enqueued path is `p` plus one fresh neighbour, and every fresh
      neighbour is enqueued. */
  lemma {:induction false} ExtendMembers(p: Path, ns: seq<int>)
    ensures forall q <- Extend(p, ns) :: |q| == |p| + 1 && q[..|p|] == p && q[|p|] in ns && q[|p|] !in p
    ensures forall n <- ns :: n !in p ==> p + [n] in Extend(p, ns)
  {
    if ns != [] {
      ExtendMembers(p, ns[1..]);
      assert (p + [ns[0]])[..|p|] == p;
    }
  }

  /** What dequeuing `p` adds to the queue: nothing once `p` has reached `e`. */
  function Expand(adj: AdjList, e: int, p: Path): seq<Path>
    requires |p| > 0
  {
    var node := p[|p| - 1];
    if node == e then [] else Extend(p, Neighbors(adj, node))
  }

  /** What dequeuing `p` adds to the result. */
  function Arrived(e: int, p: Path): seq<Path>
    requires |p| > 0
  {
    if p[|p| - 1] == e then [p] else []
  }

  /** The level after `f`, in queue order. */
  function NextLevel(adj: AdjList, e: int, f: seq<Path>): seq<Path>
    requires AllNonEmpty(f)
  {
    if f == [] then [] else Expand(adj, e, f[0]) + NextLevel(adj, e, f[1..])
  }

  /** The completed paths of level `f`, in queue order. */
  function Finished(e: int, f: seq<Path>): seq<Path>
    requires AllNonEmpty(f)
  {
    if f == [] then [] else Arrived(e, f[0]) + Finished(e, f[1..])
  }

  lemma {:induction false} ExtendAppend(p: Path, a: seq<int>, b: seq<int>)
    ensures Extend(p, a + b) == Extend(p, a) + Extend(p, b)
  {
    if a == [] {
      assert a + b == b;
    } else {
      assert (a + b)[1..] == a[1..] + b;
      ExtendAppend(p, a[1..], b);
    }
  }

  lemma {:induction false} NextLevelAppend(adj: AdjList, e: int, f: seq<Path>, g: seq<Path>)
    requires AllNonEmpty(f) && AllNonEmpty(g)
    ensures NextLevel(adj, e, f + g) == NextLevel(adj, e, f) + NextLevel(adj, e, g)
  {
    if f == [] {
      assert f + g == g;
    } else {
      assert (f + g)[1..] == f[1..] + g;
      NextLevelAppend(adj, e, f[1..], g);
    }
  }

  lemma {:induction false} FinishedAppend(e: int, f: seq<Path>, g: seq<Path>)
    requires AllNonEmpty(f) && AllNonEmpty(g)
    ensures Finished(e, f + g) == Finished(e, f) + Finished(e, g)
  {
    if f == [] {
      assert f + g == g;
    } else {
      assert (f + g)[1..] == f[1..] + g;
      FinishedAppend(e, f[1..], g);
    }
  }

  /** Extending a partial path of level k by one fresh neighbour gives a
      partial path of level k+1. */
  lemma ExpandIsLevel(adj: AdjList, s: int, e: int, p: Path, k: nat)
    requires IsPartial(adj, s, e, p) && |p| == k + 1
    ensures Level(adj, s, e, Expand(adj, e, p), k + 1)
  {
    var x := Expand(adj, e, p);
    ExtendMembers(p, Neighbors(adj, p[|p| - 1]));
    forall i | 0 <= i < |x|
      ensures IsPartial(adj, s, e, x[i]) && |x[i]| == k + 2
    {
      var q := x[i];
      assert q == p + [q[|p|]];
      assert q[..|q| - 1] == p;
    }
  }

  lemma {:induction false} NextLevelIsLevel(adj: AdjList, s: int, e: int, f: seq<Path>, k: nat)
    requires Level(adj, s, e, f, k)
    ensures Level(adj, s, e, NextLevel(adj, e, f), k + 1)
  {
    if f != [] {
      ExpandIsLevel(adj, s, e, f[0], k);
      NextLevelIsLevel(adj, s, e, f[1..], k);
    }
  }

  lemma {:induction false} FinishedAreRoutes(adj: AdjList, s: int, e: int, f: seq<Path>, k: nat)
    requires Level(adj, s, e, f, k)
    ensures AllRoutes(adj, s, e, Finished(e, f)) && AllOfLength(Finished(e, f), k + 1)
  {
    if f != [] {
      FinishedAreRoutes(adj, s, e, f[1..], k);
      var a := Arrived(e, f[0]);
      var b := Finished(e, f[1..]);
      var r := a + b;
      forall i | 0 <= i < |r|
        ensures IsRoute(adj, s, e, r[i]) && |r[i]| == k + 1
      {
        if i < |a| {
          assert r[i] == f[0];
        } else {
          assert r[i] == b[i - |a|];
        }
      }
    }
  }

  lemma {:induction false} NextLevelContains(adj: AdjList, e: int, f: seq<Path>, p: Path, q: Path)
    requires AllNonEmpty(f) && p in f && |p| > 0 && q in Expand(adj, e, p)
    ensures q in NextLevel(adj, e, f)
  {
    if f[0] != p {
      NextLevelContains(adj, e, f[1..], p, q);
    }
  }

  lemma {:induction false} FinishedContains(e: int, f: seq<Path>, p: Path)
    requires AllNonEmpty(f) && p in f && |p| > 0 && p[|p| - 1] == e
    ensures p in Finished(e, f)
  {
    if f[0] != p {
      FinishedContains(e, f[1..], p);
    }
  }

  /** A simple sequence drawn from `u` is no longer than `u` is large. */
  lemma {:induction false} SimpleBound(p: Path, u: set<int>)
    requires Simple(p) && forall i :: 0 <= i < |p| ==> p[i] in u
    ensures |p| <= |u|
  {
    if p != [] {
      SimpleBound(p[1..], u - {p[0]});
    }
  }

  /** Partial paths never leave the universe of `s`, so a level can only be
      non-empty while k < |Universe(adj, s)|. */
  lemma LevelBound(adj: AdjList, s: int, e: int, f: seq<Path>, k: nat)
    requires Level(adj, s, e, f, k) && f != []
    ensures k + 1 <= |Universe(adj, s)|
  {
    var p := f[0];
    var u := Universe(adj, s);
    forall i | 0 <= i < |p|
      ensures p[i] in u
    {
      if i > 0 {
        assert p[i] in Neighbors(adj, p[i - 1]);
        assert p[i - 1] in adj;
      }
    }
    SimpleBound(p, u);
  }

  /** The level-by-level enumeration from level `f` onwards. */
  function Walk(adj: AdjList, s: int, e: int, f: seq<Path>, k: nat): seq<Path>
    requires Level(adj, s, e, f, k)
    decreases |Universe(adj, s)| - k
  {
    if f == [] then []
    else
      LevelBound(adj, s, e, f, k);
      NextLevelIsLevel(adj, s, e, f, k);
      Finished(e, f) + Walk(adj, s, e, NextLevel(adj, e, f), k + 1)
  }

  /** Every route `BFSAllPaths` records from `s` to `e`, in recording order.
      Each starts at `s`, ends at `e`, repeats no node and follows adjacency
      entries, and shorter routes come first. */
  function AllPaths(adj: AdjList, s: int, e: int): (r: seq<Path>)
    ensures AllRoutes(adj, s, e, r) && ByLength(r)
  {
    WalkSound(adj, s, e, [[s]], 0);
    Walk(adj, s, e, [[s]], 0)
  }

  /** Nondecreasing length order. */
  ghost predicate ByLength(r: seq<Path>) {
    forall i, j :: 0 <= i <= j < |r| ==> |r[i]| <= |r[j]|
  }

  ghost predicate AllRoutes(adj: AdjList, s: int, e: int, r: seq<Path>) {
    forall i :: 0 <= i < |r| ==> IsRoute(adj, s, e, r[i])
  }

  ghost predicate AllOfLength(r: seq<Path>, n: int) {
    forall i :: 0 <= i < |r| ==> |r[i]| == n
  }

  ghost predicate AllLonger(r: seq<Path>, n: int) {
    forall i :: 0 <= i < |r| ==> |r[i]| >= n
  }

  lemma ConcatLevels(adj: AdjList, s: int, e: int, a: seq<Path>, b: seq<Path>, k: nat)
    requires AllRoutes(adj, s, e, a) && AllOfLength(a, k + 1)
    requires AllRoutes(adj, s, e, b) && AllLonger(b, k + 2) && ByLength(b)
    ensures AllRoutes(adj, s, e, a + b) && AllLonger(a + b, k + 1) && ByLength(a + b)
  {
    var r := a + b;
    forall i, j | 0 <= i <= j < |r|
      ensures |r[i]| <= |r[j]|
    {
      if j < |a| {
        assert r[i] == a[i] && r[j] == a[j];
      } else if i < |a| {
        assert r[i] == a[i] && r[j] == b[j - |a|];
      } else {
        assert r[i] == b[i - |a|] && r[j] == b[j - |a|];
      }
    }
    forall i | 0 <= i < |r|
      ensures IsRoute(adj, s, e, r[i]) && |r[i]| >= k + 1
    {
      if i < |a| {
        assert r[i] == a[i];
      } else {
        assert r[i] == b[i - |a|];
      }
    }
  }

  /** From level k on, the walk yields only routes of at least k+1 nodes,
      in nondecreasing length order. */
  lemma {:induction false} WalkSound(adj: AdjList, s: int, e: int, f: seq<Path>, k: nat)
    requires Level(adj, s, e, f, k)
    ensures AllRoutes(adj, s, e, Walk(adj, s, e, f, k))
    ensures AllLonger(Walk(adj, s, e, f, k), k + 1)
    ensures ByLength(Walk(adj, s, e, f, k))
    decreases |Universe(adj, s)| - k
  {
    if f != [] {
      LevelBound(adj, s, e, f, k);
      NextLevelIsLevel(adj, s, e, f, k);
      FinishedAreRoutes(adj, s, e, f, k);
      WalkSound(adj, s, e, NextLevel(adj, e, f), k + 1);
      ConcatLevels(adj, s, e, Finished(e, f), Walk(adj, s, e, NextLevel(adj, e, f), k + 1), k);
    }
  }

  lemma {:induction false} WalkComplete(adj: AdjList, s: int, e: int, f: seq<Path>, k: nat, p: Path)
    requires Level(adj, s, e, f, k)
    requires IsRoute(adj, s, e, p) && |p| >= k + 1 && p[..k + 1] in f
    ensures p in Walk(adj, s, e, f, k)
    decreases |p| - k
  {
    NextLevelIsLevel(adj, s, e, f, k);
    if |p| == k + 1 {
      assert p[..k + 1] == p;
      FinishedContains(e, f, p);
    } else {
      var q := p[..k + 1];
      assert q[k] != e;
      assert p[k + 1] in Neighbors(adj, q[k]);
      assert p[k + 1] !in q;
      assert p[..k + 2] == q + [p[k + 1]];
      ExtendMembers(q, Neighbors(adj, q[k]));
      NextLevelContains(adj, e, f, q, p[..k + 2]);
      WalkComplete(adj, s, e, NextLevel(adj, e, f), k + 1, p);
    }
  }

  /** Completeness: every simple adjacency walk from `s` to `e` is enumerated. */
  lemma AllPathsComplete(adj: AdjList, s: int, e: int, p: Path)
    requires IsRoute(adj, s, e, p)
    ensures p in AllPaths(adj, s, e)
  {
    assert p[..1] == [s];
    WalkComplete(adj, s, e, [[s]], 0, p);
  }

  /** The enumeration is empty exactly when `e` cannot be reached from `s`. */
  lemma AllPathsEmptyIff(adj: AdjList, s: int, e: int)
    ensures AllPaths(adj, s, e) == [] <==> !exists p :: IsRoute(adj, s, e, p)
  {
    var r := AllPaths(adj, s, e);
    if r != [] {
      assert IsRoute(adj, s, e, r[0]);
    }
    if exists p :: IsRoute(adj, s, e, p) {
      var p :| IsRoute(adj, s, e, p);
      AllPathsComplete(adj, s, e, p);
    }
  }

  /** Walking from a non-empty level yields its finished paths, then the rest. */
  lemma WalkStep(adj: AdjList, s: int, e: int, f: seq<Path>, k: nat)
    requires Level(adj, s, e, f, k) && f != []
    ensures Level(adj, s, e, NextLevel(adj, e, f), k + 1)
    ensures Walk(adj, s, e, f, k) == Finished(e, f) + Walk(adj, s, e, NextLevel(adj, e, f), k + 1)
  {
    NextLevelIsLevel(adj, s, e, f, k);
  }

  /** The part of the enumeration still owed once `i` paths of level `f`
      have been dequeued. */
  ghost function Owed(adj: AdjList, s: int, e: int, f: seq<Path>, i: nat, k: nat): seq<Path>
    requires Level(adj, s, e, f, k) && i <= |f|
  {
    NextLevelIsLevel(adj, s, e, f, k);
    Finished(e, f[i..]) + Walk(adj, s, e, NextLevel(adj, e, f), k + 1)
  }

  /** Dequeuing `f[i]` settles its arrival. */
  lemma OwedStep(adj: AdjList, s: int, e: int, f: seq<Path>, i: nat, k: nat)
    requires Level(adj, s, e, f, k) && i < |f|
    ensures Owed(adj, s, e, f, i, k) == Arrived(e, f[i]) + Owed(adj, s, e, f, i + 1, k)
  {
    assert f[i..] == [f[i]] + f[i + 1..];
    assert f[i..][1..] == f[i + 1..];
  }

  /** Once level `f` is used up, what is owed is the walk from the next level. */
  lemma OwedNextLevel(adj: AdjList, s: int, e: int, f: seq<Path>, k: nat)
    requires Level(adj, s, e, f, k)
    ensures Level(adj, s, e, NextLevel(adj, e, f), k + 1)
    ensures NextLevel(adj, e, f) != [] ==>
              Owed(adj, s, e, f, |f|, k) == Owed(adj, s, e, NextLevel(adj, e, f), 0, k + 1)
    ensures NextLevel(adj, e, f) == [] ==> Owed(adj, s, e, f, |f|, k) == []
  {
    NextLevelIsLevel(adj, s, e, f, k);
    var g := NextLevel(adj, e, f);
    assert f[|f|..] == [];
    assert Finished(e, f[|f|..]) == [];
    if g != [] {
      WalkStep(adj, s, e, g, k + 1);
      assert g[0..] == g;
    }
  }

  /** Dequeuing `f[i]` from a queue holding the rest of level `f` and the
      part of the next level built so far, then enqueuing its expansion,
      keeps that shape one position further on. */
  lemma Dequeue(adj: AdjList, e: int, f: seq<Path>, i: nat, queue: seq<Path>)
    requires AllNonEmpty(f) && i < |f|
    requires queue == f[i..] + NextLevel(adj, e, f[..i])
    ensures queue != [] && queue[0] == f[i]
    ensures queue[1..] + Expand(adj, e, f[i]) == f[i + 1..] + NextLevel(adj, e, f[..i + 1])
  {
    var built := NextLevel(adj, e, f[..i]);
    var x := Expand(adj, e, f[i]);
    var rest := f[i + 1..];
    assert f[i..] == [f[i]] + rest;
    Shift(f[i], rest, built, x);
    NextLevelSnoc(adj, e, f, i);
  }

  /** Taking the head off `[h] + rest + built` and appending `x`. */
  lemma Shift<T>(h: T, rest: seq<T>, built: seq<T>, x: seq<T>)
    ensures var q := [h] + rest + built; q != [] && q[0] == h && q[1..] + x == rest + (built + x)
  {
    var q := [h] + rest + built;
    assert q[1..] == rest + built;
  }

  lemma NextLevelSnoc(adj: AdjList, e: int, f: seq<Path>, i: nat)
    requires AllNonEmpty(f) && i < |f|
    ensures NextLevel(adj, e, f[..i + 1]) == NextLevel(adj, e, f[..i]) + Expand(adj, e, f[i])
  {
    assert f[..i + 1] == f[..i] + [f[i]];
    NextLevelAppend(adj, e, f[..i], [f[i]]);
    assert NextLevel(adj, e, [f[i]]) == Expand(adj, e, f[i]) + NextLevel(adj, e, []);
  }

  lemma ExtendSnoc(p: Path, ns: seq<int>, j: nat)
    requires j < |ns|
    ensures Extend(p, ns[..j + 1]) == Extend(p, ns[..j]) + (if ns[j] in p then [] else [p + [ns[j]]])
  {
    assert ns[..j + 1] == ns[..j] + [ns[j]];
    ExtendAppend(p, ns[..j], [ns[j]]);
    assert [ns[j]][1..] == [];
  }

  /** The inner loop over the neighbours of a dequeued path (main.go:71-81). */
  method EnqueueNeighbors(queue: seq<Path>, path: Path, ns: seq<int>) returns (queue': seq<Path>)
    ensures queue' == queue + Extend(path, ns)
  {
    queue' := queue;
    var j := 0;
    while j < |ns|
      invariant 0 <= j <= |ns|
      invariant queue' == queue + Extend(path, ns[..j])
    {
      ExtendSnoc(path, ns, j);
      if !Contains(path, ns[j]) {
        queue' := queue' + [path + [ns[j]]];
      }
      j := j + 1;
    }
    assert ns[..j] == ns;
  }

  /** The state of the queue loop: the queue holds what is left of level
      `f` after `i` dequeues, then the part of the next level built so far,
      and the recorded paths followed by what is still owed make up the
      whole enumeration. */
  ghost predicate QueueInv(adj: AdjList, s: int, e: int, f: seq<Path>, k: nat, i: nat, queue: seq<Path>, paths: seq<Path>) {
    && Level(adj, s, e, f, k)
    && k < |Universe(adj, s)|
    && i <= |f|
    && queue == f[i..] + NextLevel(adj, e, f[..i])
    && paths + Owed(adj, s, e, f, i, k) == AllPaths(adj, s, e)
  }

  lemma QueueInit(adj: AdjList, s: int, e: int)
    ensures QueueInv(adj, s, e, [[s]], 0, 0, [[s]], [])
  {
    var f := [[s]];
    assert Level(adj, s, e, f, 0) by {
      assert IsPartial(adj, s, e, [s]);
    }
    assert 0 < |Universe(adj, s)| by {
      assert s in Universe(adj, s);
    }
    assert f[0..] + NextLevel(adj, e, f[..0]) == f by {
      assert f[..0] == [] && f[0..] == f;
    }
    assert Owed(adj, s, e, f, 0, 0) == AllPaths(adj, s, e) by {
      WalkStep(adj, s, e, f, 0);
      assert f[0..] == f;
    }
  }

  /** The head of a non-empty queue is path `i'` of level `f'`: the current
      level, or the next one when the current is used up. */
  lemma QueueHead(adj: AdjList, s: int, e: int, f: seq<Path>, k: nat, i: nat, queue: seq<Path>, paths: seq<Path>)
    returns (f': seq<Path>, k': nat, i': nat)
    requires QueueInv(adj, s, e, f, k, i, queue, paths) && queue != []
    ensures QueueInv(adj, s, e, f', k', i', queue, paths) && i' < |f'|
    ensures k' == k + 1 || (k' == k && |f'| - i' == |f| - i && f' == f && i' == i)
  {
    f', k', i' := f, k, i;
    if i == |f| {
      assert f[..i] == f;
      OwedNextLevel(adj, s, e, f, k);
      LevelBound(adj, s, e, queue, k + 1);
      f', k', i' := queue, k + 1, 0;
      assert f'[i'..] == f' && f'[..i'] == [];
    }
  }

  /** Dequeuing the head, recording its arrival and enqueuing its expansion
      restores the invariant one position on. */
  lemma QueueTurn(adj: AdjList, s: int, e: int, f: seq<Path>, k: nat, i: nat, queue: seq<Path>, paths: seq<Path>)
    requires QueueInv(adj, s, e, f, k, i, queue, paths) && i < |f|
    ensures queue != [] && queue[0] == f[i] && |queue[0]| > 0
    ensures QueueInv(adj, s, e, f, k, i + 1, queue[1..] + Expand(adj, e, queue[0]), paths + Arrived(e, queue[0]))
  {
    Dequeue(adj, e, f, i, queue);
    OwedStep(adj, s, e, f, i, k);
    Assoc(paths, Arrived(e, queue[0]), Owed(adj, s, e, f, i + 1, k));
  }

  lemma Assoc<T>(a: seq<T>, b: seq<T>, c: seq<T>)
    ensures (a + b) + c == a + (b + c)
  {
  }

  /** Dequeuing a path that has reached `e` records it and enqueues nothing. */
  lemma AtEnd(adj: AdjList, e: int, path: Path)
    requires |path| > 0 && path[|path| - 1] == e
    ensures Expand(adj, e, path) == [] && Arrived(e, path) == [path]
  {
  }

  /** Dequeuing any other path records nothing and enqueues its extensions. */
  lemma NotAtEnd(adj: AdjList, e: int, path: Path)
    requires |path| > 0 && path[|path| - 1] != e
    ensures Expand(adj, e, path) == Extend(path, Neighbors(adj, path[|path| - 1])) && Arrived(e, path) == []
  {
  }

  lemma AppendEmpty<T>(a: seq<T>)
    ensures a + [] == a
  {
  }

  /** The FIFO queue loop of `BFSAllPaths`, node for node (main.go:50-86). */
  method BfsAllPaths(adj: AdjList, s: int, e: int) returns (paths: seq<Path>)
    ensures paths == AllPaths(adj, s, e)
  {
    paths := [];
    var queue: seq<Path> := [[s]];
    ghost var f: seq<Path> := [[s]];
    ghost var k: nat := 0;
    ghost var i: nat := 0;
    QueueInit(adj, s, e);
    while |queue| > 0
      invariant QueueInv(adj, s, e, f, k, i, queue, paths)
      decreases |Universe(adj, s)| - k, |f| - i
    {
      ghost var f', k', i' := QueueHead(adj, s, e, f, k, i, queue, paths);
      QueueTurn(adj, s, e, f', k', i', queue, paths);
      var path := queue[0];
      ghost var queue', paths' := queue[1..] + Expand(adj, e, path), paths + Arrived(e, path);
      queue := queue[1..];
      var node := path[|path| - 1];
      if node == e {
        AtEnd(adj, e, path);
        AppendEmpty(queue);
        paths := paths + [path];
      } else {
        NotAtEnd(adj, e, path);
        AppendEmpty(paths);
        queue := EnqueueNeighbors(queue, path, Neighbors(adj, node));
      }
      assert queue == queue' && paths == paths';
      f, k, i := f', k', i' + 1;
    }
    assert f[i..] == [] && f[..i] == f;
    OwedNextLevel(adj, s, e, f, k);
  }

  /** No path occurs twice. */
  ghost predicate Distinct(r: seq<Path>) {
    forall i, j :: 0 <= i < j < |r| ==> r[i] != r[j]
  }

  /** No adjacency list names a neighbour twice, as when no link is given twice. */
  ghost predicate NoRepeatedLinks(adj: AdjList) {
    forall m, i, j :: 0 <= i < j < |Neighbors(adj, m)| ==> Neighbors(adj, m)[i] != Neighbors(adj, m)[j]
  }

  lemma DistinctAppend(a: seq<Path>, b: seq<Path>)
    requires Distinct(a) && Distinct(b)
    requires forall i, j :: 0 <= i < |a| && 0 <= j < |b| ==> a[i] != b[j]
    ensures Distinct(a + b)
  {
    var r := a + b;
    forall i, j | 0 <= i < j < |r|
      ensures r[i] != r[j]
    {
      if j < |a| {
        assert r[i] == a[i] && r[j] == a[j];
      } else if i < |a| {
        assert r[i] == a[i] && r[j] == b[j - |a|];
      } else {
        assert r[i] == b[i - |a|] && r[j] == b[j - |a|];
      }
    }
  }

  /** Distinct neighbours give distinct extensions. */
  lemma {:induction false} ExtendDistinct(p: Path, ns: seq<int>)
    requires forall i, j :: 0 <= i < j < |ns| ==> ns[i] != ns[j]
    ensures Distinct(Extend(p, ns))
  {
    if ns != [] {
      var rest := ns[1..];
      ExtendDistinct(p, rest);
      ExtendMembers(p, rest);
      var head: seq<Path> := if Contains(p, ns[0]) then [] else [p + [ns[0]]];
      var tail := Extend(p, rest);
      assert ns[0] !in rest by {
        forall k | 0 <= k < |rest|
          ensures rest[k] != ns[0]
        {
          assert rest[k] == ns[k + 1];
        }
      }
      forall i, j | 0 <= i < |head| && 0 <= j < |tail|
        ensures head[i] != tail[j]
      {
        assert tail[j] in tail;
        assert head[i][|p|] == ns[0];
      }
      DistinctAppend(head, tail);
    }
  }

  /** Every path of the next level is a path of `f` plus one node. */
  lemma {:induction false} NextLevelFrom(adj: AdjList, e: int, f: seq<Path>, n: nat)
    requires AllNonEmpty(f) && forall i :: 0 <= i < |f| ==> |f[i]| == n
    ensures forall q <- NextLevel(adj, e, f) :: |q| == n + 1 && q[..n] in f
  {
    if f != [] {
      var p := f[0];
      NextLevelFrom(adj, e, f[1..], n);
      ExtendMembers(p, Neighbors(adj, p[|p| - 1]));
      forall q | q in NextLevel(adj, e, f)
        ensures |q| == n + 1 && q[..n] in f
      {
        if q !in Expand(adj, e, p) {
          assert q in NextLevel(adj, e, f[1..]);
        }
      }
    }
  }

  /** A level without repeats, expanded over repeat-free adjacency lists,
      gives a next level without repeats. */
  lemma {:induction false} NextLevelDistinct(adj: AdjList, e: int, f: seq<Path>, n: nat)
    requires AllNonEmpty(f) && (forall i :: 0 <= i < |f| ==> |f[i]| == n)
    requires Distinct(f) && NoRepeatedLinks(adj)
    ensures Distinct(NextLevel(adj, e, f))
  {
    if f != [] {
      var p := f[0];
      var x := Expand(adj, e, p);
      var rest := NextLevel(adj, e, f[1..]);
      NextLevelDistinct(adj, e, f[1..], n);
      NextLevelFrom(adj, e, f[1..], n);
      if p[|p| - 1] != e {
        ExtendDistinct(p, Neighbors(adj, p[|p| - 1]));
        ExtendMembers(p, Neighbors(adj, p[|p| - 1]));
      }
      assert p !in f[1..] by {
        forall k | 0 <= k < |f[1..]|
          ensures f[1..][k] != p
        {
          assert f[1..][k] == f[k + 1];
        }
      }
      forall i, j | 0 <= i < |x| && 0 <= j < |rest|
        ensures x[i] != rest[j]
      {
        assert x[i] in x && rest[j] in rest;
      }
      DistinctAppend(x, rest);
    }
  }

  /** The paths of a level that reached `e` are among its paths, without repeats. */
  lemma {:induction false} FinishedDistinct(e: int, f: seq<Path>)
    requires AllNonEmpty(f) && Distinct(f)
    ensures Distinct(Finished(e, f)) && forall q <- Finished(e, f) :: q in f
  {
    if f != [] {
      var a := Arrived(e, f[0]);
      var b := Finished(e, f[1..]);
      FinishedDistinct(e, f[1..]);
      assert f[0] !in f[1..] by {
        forall k | 0 <= k < |f[1..]|
          ensures f[1..][k] != f[0]
        {
          assert f[1..][k] == f[k + 1];
        }
      }
      forall i, j | 0 <= i < |a| && 0 <= j < |b|
        ensures a[i] != b[j]
      {
        assert b[j] in b;
      }
      DistinctAppend(a, b);
    }
  }

  lemma {:induction false} WalkDistinct(adj: AdjList, s: int, e: int, f: seq<Path>, k: nat)
    requires Level(adj, s, e, f, k) && Distinct(f) && NoRepeatedLinks(adj)
    ensures Distinct(Walk(adj, s, e, f, k))
    decreases |Universe(adj, s)| - k
  {
    if f != [] {
      WalkStep(adj, s, e, f, k);
      LevelBound(adj, s, e, f, k);
      var g := NextLevel(adj, e, f);
      NextLevelDistinct(adj, e, f, k + 1);
      WalkDistinct(adj, s, e, g, k + 1);
      FinishedDistinct(e, f);
      FinishedAreRoutes(adj, s, e, f, k);
      WalkSound(adj, s, e, g, k + 1);
      DistinctByLength(Finished(e, f), Walk(adj, s, e, g, k + 1), k + 1);
    }
  }

  /** Paths of one length followed by longer ones repeat nothing if neither part does. */
  lemma DistinctByLength(a: seq<Path>, b: seq<Path>, n: int)
    requires Distinct(a) && Distinct(b) && AllOfLength(a, n) && AllLonger(b, n + 1)
    ensures Distinct(a + b)
  {
    DistinctAppend(a, b);
  }

  /** With no link given twice, no route is recorded twice, so every route
      from `s` to `e` is recorded exactly once. */
  lemma AllPathsDistinct(adj: AdjList, s: int, e: int)
    requires NoRepeatedLinks(adj)
    ensures Distinct(AllPaths(adj, s, e))
  {
    assert Level(adj, s, e, [[s]], 0) by {
      assert IsPartial(adj, s, e, [s]);
    }
    WalkDistinct(adj, s, e, [[s]], 0);
  }

  /** A link given twice puts the neighbour twice into the adjacency list,
      and the route through it is then recorded twice. */
  lemma RepeatedLinkRepeatsRoute()
    ensures AllPaths(map[0 := [1, 1], 1 := [0, 0]], 0, 1) == [[0, 1], [0, 1]]
  {
    var adj: AdjList := map[0 := [1, 1], 1 := [0, 0]];
    var f: seq<Path> := [[0]];
    var g: seq<Path> := [[0, 1], [0, 1]];
    assert Level(adj, 0, 1, f, 0) by {
      assert IsPartial(adj, 0, 1, [0]);
    }
    WalkStep(adj, 0, 1, f, 0);
    assert Finished(1, f) == [];
    DoubledLevel(adj);
    WalkStep(adj, 0, 1, g, 1);
    assert Finished(1, g) == g;
    assert NextLevel(adj, 1, g) == [];
  }

  /** The level after [0] when 0 lists its neighbour 1 twice. */
  lemma DoubledLevel(adj: AdjList)
    requires adj == map[0 := [1, 1], 1 := [0, 0]]
    ensures NextLevel(adj, 1, [[0]]) == [[0, 1], [0, 1]]
  {
    assert Neighbors(adj, 0) == [1, 1];
    assert !Contains([0], 1);
    assert [1][1..] == [] && [1, 1][1..] == [1];
    assert Extend([0], []) == [];
    assert [0] + [[1][0]] == [0, 1];
    assert Extend([0], [1]) == [[0, 1]];
    assert Extend([0], [1, 1]) == [[0, 1], [0, 1]];
  }
}
