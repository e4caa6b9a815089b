/** Rerouting a blocked ant: `findAlternativePath` (main.go:114-142). */
module Reroute {
  import opened Wrappers
  import opened GraphModel
  import opened Paths

  /** No node of `p`, endpoints included, is claimed in this step
      (main.go:121-131). */
  predicate Free(p: Path, occupied: set<int>) {
    forall i :: 0 <= i < |p| ==> p[i] !in occupied
  }

  /** Position of the first free path at or after `from`. */
  function FirstFree(paths: seq<Path>, occupied: set<int>, from: nat): (r: Option<nat>)
    requires from <= |paths|
    ensures r.None? <==> forall j :: from <= j < |paths| ==> !Free(paths[j], occupied)
    ensures r.Some? ==> from <= r.value < |paths| && Free(paths[r.value], occupied)
    ensures r.Some? ==> forall j :: from <= j < r.value ==> !Free(paths[j], occupied)
    decreases |paths| - from
  {
    if from == |paths| then None
    else if Free(paths[from], occupied) then Some(from)
    else FirstFree(paths, occupied, from + 1)
  }

  /** The first enumerated route from `pos` to `e` that avoids every claimed
      node, or None. */
  function FindAlternativePath(adj: AdjList, e: int, pos: int, occupied: set<int>): (r: Option<Path>)
    ensures r.Some? ==> IsRoute(adj, pos, e, r.value) && Free(r.value, occupied)
    ensures pos in occupied ==> r.None?
  {
    var all := AllPaths(adj, pos, e);
    match FirstFree(all, occupied, 0)
    case None => None
    case Some(i) => Some(all[i])
  }

  /** None exactly when no free route exists; otherwise the route found is
      a shortest free route, because the enumeration is complete and
      ordered by length. */
  lemma FindAlternativePathSpec(adj: AdjList, e: int, pos: int, occupied: set<int>)
    ensures var r := FindAlternativePath(adj, e, pos, occupied);
      r.None? <==> !exists p :: IsRoute(adj, pos, e, p) && Free(p, occupied)
    ensures var r := FindAlternativePath(adj, e, pos, occupied);
      r.Some? ==> forall p :: IsRoute(adj, pos, e, p) && Free(p, occupied) ==> |r.value| <= |p|
  {
    var all := AllPaths(adj, pos, e);
    var first := FirstFree(all, occupied, 0);
    forall p | IsRoute(adj, pos, e, p) && Free(p, occupied)
      ensures first.Some? && |all[first.value]| <= |p|
    {
      AllPathsComplete(adj, pos, e, p);
      var j :| 0 <= j < |all| && all[j] == p;
      assert Free(all[j], occupied);
      assert first.value <= j;
    }
  }
}
