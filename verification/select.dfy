/** The disjoint-path selector `FilterPaths` (main.go:145-202): an exhaustive
    backtracking search for the largest set of paths no two of which share
    an interior node.

    The Go code keeps the chosen paths themselves in `currentPaths`; since
    it only ever appends `paths[i]` for increasing `i`, the model keeps the
    chosen positions instead, and `Pick` turns them back into paths. */
module Select {
  import opened Paths

  /** The nodes of `p` other than its first and last (main.go:169). */
  function Interior(p: Path): seq<int> {
    if |p| >= 2 then p[1..|p| - 1] else []
  }

  /** Every path has both ends, so the slice at main.go:169 is valid. */
  predicate Sliceable(paths: seq<Path>) {
    forall i :: 0 <= i < |paths| ==> |paths[i]| >= 2
  }

  /** None of the interior nodes of `p` is in use (main.go:166-175). */
  predicate Compatible(p: Path, used: set<int>) {
    forall n <- Interior(p) :: n !in used
  }

  /** Marks the interior nodes of `p` as used (main.go:181-183). */
  function Claim(used: set<int>, p: Path): set<int> {
    used + set n | n in Interior(p)
  }

  /** `p` and `q` share no interior node. */
  ghost predicate Apart(p: Path, q: Path) {
    forall n :: n in Interior(p) ==> n !in Interior(q)
  }

  /** Strictly increasing positions, all in [lo, hi). */
  ghost predicate Increasing(idx: seq<int>, lo: int, hi: int) {
    && (forall a :: 0 <= a < |idx| ==> lo <= idx[a] < hi)
    && (forall a, b :: 0 <= a < b < |idx| ==> idx[a] < idx[b])
  }

  /** The paths at positions `idx` are pairwise interior-disjoint. */
  ghost predicate Disjoint(paths: seq<Path>, idx: seq<int>) {
    forall a, b :: 0 <= a < b < |idx| && 0 <= idx[a] < |paths| && 0 <= idx[b] < |paths| ==> Apart(paths[idx[a]], paths[idx[b]])
  }

  /** A candidate answer: increasing positions of pairwise disjoint paths. */
  ghost predicate Valid(paths: seq<Path>, idx: seq<int>) {
    Increasing(idx, 0, |paths|) && Disjoint(paths, idx)
  }

  /** The interior nodes of the paths at positions `idx`: `usedNodes`. */
  ghost function UsedBy(paths: seq<Path>, idx: seq<int>): set<int> {
    set a, n | 0 <= a < |idx| && 0 <= idx[a] < |paths| && n in Interior(paths[idx[a]]) :: n
  }

  /** The search state when looking at positions from `bound` on. */
  ghost predicate SearchState(paths: seq<Path>, cur: seq<int>, used: set<int>, bound: int) {
    Increasing(cur, 0, bound) && Disjoint(paths, cur) && used == UsedBy(paths, cur)
  }

  /** What `Search` and `Scan` need when looking at position `i`. */
  ghost predicate ScanPre(paths: seq<Path>, i: int, cur: seq<int>, used: set<int>, best: seq<int>) {
    0 <= i <= |paths| && SearchState(paths, cur, used, i) && Valid(paths, best)
  }

  /** Taking `paths[i]` keeps the search state consistent. */
  lemma ChooseKeeps(paths: seq<Path>, cur: seq<int>, used: set<int>, i: int)
    requires 0 <= i < |paths| && SearchState(paths, cur, used, i) && Compatible(paths[i], used)
    ensures SearchState(paths, cur + [i], Claim(used, paths[i]), i + 1)
  {
    var c := cur + [i];
    forall a, b | 0 <= a < b < |c| && 0 <= c[a] < |paths| && 0 <= c[b] < |paths|
      ensures Apart(paths[c[a]], paths[c[b]])
    {
      if b == |cur| {
        forall n | n in Interior(paths[c[a]])
          ensures n !in Interior(paths[i])
        {
          assert n in UsedBy(paths, cur);
        }
      } else {
        assert c[a] == cur[a] && c[b] == cur[b];
      }
    }
    forall n
      ensures n in Claim(used, paths[i]) <==> n in UsedBy(paths, c)
    {
      if n in UsedBy(paths, c) {
        var a :| 0 <= a < |c| && 0 <= c[a] < |paths| && n in Interior(paths[c[a]]);
        if a < |cur| {
          assert c[a] == cur[a];
        }
      }
      if n in used {
        var a :| 0 <= a < |cur| && 0 <= cur[a] < |paths| && n in Interior(paths[cur[a]]);
        assert c[a] == cur[a];
      }
      if n in Interior(paths[i]) {
        assert c[|cur|] == i;
      }
    }
  }

  /** `backtrack(start)` (main.go:155-197): first records `cur` if it beats
      the best so far, then tries every later path. */
  function Search(paths: seq<Path>, start: int, cur: seq<int>, used: set<int>, best: seq<int>): (r: seq<int>)
    requires 0 <= start <= |paths|
    ensures |r| >= |cur|
    ensures r == best || |r| > |best|
    decreases |paths| - start, 1
  {
    var best' := if |cur| > |best| then cur else best;
    Scan(paths, start, cur, used, best')
  }

  /** The loop of main.go:164-196 from position `i` on: each compatible path
      is taken, searched beyond, and given back. */
  function Scan(paths: seq<Path>, i: int, cur: seq<int>, used: set<int>, best: seq<int>): (r: seq<int>)
    requires 0 <= i <= |paths|
    ensures r == best || |r| > |best|
    decreases |paths| - i, 0
  {
    if i == |paths| then best
    else
      var best' :=
        if Compatible(paths[i], used) then Search(paths, i + 1, cur + [i], Claim(used, paths[i]), best)
        else best;
      Scan(paths, i + 1, cur, used, best')
  }

  /** From a consistent state, `Search` returns a valid choice no smaller
      than the best so far or the current one. */
  lemma {:induction false} SearchValid(paths: seq<Path>, start: int, cur: seq<int>, used: set<int>, best: seq<int>)
    requires ScanPre(paths, start, cur, used, best)
    ensures var r := Search(paths, start, cur, used, best);
      Valid(paths, r) && |r| >= |best| && |r| >= |cur|
    decreases |paths| - start, 1, 0
  {
    var best' := if |cur| > |best| then cur else best;
    ScanValid(paths, start, cur, used, best');
  }

  lemma {:induction false} ScanValid(paths: seq<Path>, i: int, cur: seq<int>, used: set<int>, best: seq<int>)
    requires ScanPre(paths, i, cur, used, best)
    ensures var r := Scan(paths, i, cur, used, best);
      Valid(paths, r) && |r| >= |best|
    decreases |paths| - i, 0, 1
  {
    if i < |paths| {
      if Compatible(paths[i], used) {
        ScanValidTaking(paths, i, cur, used, best);
      } else {
        ScanValidSkipping(paths, i, cur, used, best);
      }
    }
  }

  /** The case of `ScanValid` where `paths[i]` clashes with the choice. */
  lemma {:induction false} ScanValidSkipping(paths: seq<Path>, i: int, cur: seq<int>, used: set<int>, best: seq<int>)
    requires ScanPre(paths, i, cur, used, best) && i < |paths| && !Compatible(paths[i], used)
    ensures var r := Scan(paths, i, cur, used, best);
      Valid(paths, r) && |r| >= |best|
    decreases |paths| - i, 0, 0
  {
    StateSkip(paths, cur, used, i);
    ScanValid(paths, i + 1, cur, used, best);
  }

  /** The case of `ScanValid` where `paths[i]` can be taken. */
  lemma {:induction false} ScanValidTaking(paths: seq<Path>, i: int, cur: seq<int>, used: set<int>, best: seq<int>)
    requires ScanPre(paths, i, cur, used, best) && i < |paths| && Compatible(paths[i], used)
    ensures var r := Scan(paths, i, cur, used, best);
      Valid(paths, r) && |r| >= |best|
    decreases |paths| - i, 0, 0
  {
    ChooseKeeps(paths, cur, used, i);
    var best' := Search(paths, i + 1, cur + [i], Claim(used, paths[i]), best);
    SearchValid(paths, i + 1, cur + [i], Claim(used, paths[i]), best);
    assert Scan(paths, i, cur, used, best) == Scan(paths, i + 1, cur, used, best');
    StateSkip(paths, cur, used, i);
    ScanValid(paths, i + 1, cur, used, best');
  }

  /** The positions `FilterPaths` keeps: `backtrack(0)` from an empty state. */
  function Chosen(paths: seq<Path>): (r: seq<int>)
    ensures Valid(paths, r)
  {
    SearchValid(paths, 0, [], {}, []);
    Search(paths, 0, [], {}, [])
  }

  /** The paths at positions `idx`, in order. */
  function Pick(paths: seq<Path>, idx: seq<int>): (r: seq<Path>)
    requires forall a :: 0 <= a < |idx| ==> 0 <= idx[a] < |paths|
    ensures |r| == |idx| && forall a :: 0 <= a < |idx| ==> r[a] == paths[idx[a]]
  {
    if idx == [] then [] else [paths[idx[0]]] + Pick(paths, idx[1..])
  }

  /** `FilterPaths` (main.go:145-202): a subsequence of the input, in input
      order, no two members of which share an interior node. */
  function FilterPaths(paths: seq<Path>): (r: seq<Path>)
    requires Sliceable(paths)
    ensures |r| == |Chosen(paths)| && forall a :: 0 <= a < |r| ==> r[a] == paths[Chosen(paths)[a]]
    ensures Sliceable(r)
    ensures forall a, b :: 0 <= a < b < |r| ==> Apart(r[a], r[b])
    ensures paths == [] ==> r == []
  {
    Pick(paths, Chosen(paths))
  }

  /** `t` extends `cur` with positions from `from` on, keeping disjointness. */
  ghost predicate Extension(paths: seq<Path>, cur: seq<int>, from: int, t: seq<int>) {
    Increasing(t, from, |paths|) && Disjoint(paths, cur + t)
  }

  /** A path that can extend the current choice is compatible with it. */
  lemma ExtensionCompatible(paths: seq<Path>, cur: seq<int>, used: set<int>, i: int, t: seq<int>)
    requires 0 <= i < |paths| && SearchState(paths, cur, used, i) && Extension(paths, cur, i, t) && t != [] && t[0] == i
    ensures Compatible(paths[i], used)
  {
    var c := cur + t;
    forall a | 0 <= a < |cur| && 0 <= cur[a] < |paths|
      ensures Apart(paths[cur[a]], paths[i])
    {
      assert c[a] == cur[a] && c[|cur|] == i;
    }
  }

  /** Moving past position `i` without taking it keeps the search state. */
  lemma StateSkip(paths: seq<Path>, cur: seq<int>, used: set<int>, i: int)
    requires SearchState(paths, cur, used, i)
    ensures SearchState(paths, cur, used, i + 1)
  {
  }

  /** An extension that does not start at `i` starts beyond it. */
  lemma ExtensionSkip(paths: seq<Path>, cur: seq<int>, i: int, t: seq<int>)
    requires Extension(paths, cur, i, t) && t != [] && t[0] != i
    ensures Extension(paths, cur, i + 1, t)
  {
    forall a | 0 < a < |t|
      ensures i + 1 <= t[a]
    {
      assert t[0] < t[a];
    }
  }

  /** An extension that starts at `i` extends `cur + [i]` with its tail. */
  lemma ExtensionTake(paths: seq<Path>, cur: seq<int>, i: int, t: seq<int>)
    requires Extension(paths, cur, i, t) && t != [] && t[0] == i
    ensures Extension(paths, cur + [i], i + 1, t[1..])
  {
    assert (cur + [i]) + t[1..] == cur + t;
    var r := t[1..];
    forall a | 0 <= a < |r|
      ensures i + 1 <= r[a] < |paths|
    {
      assert r[a] == t[a + 1] && t[0] < t[a + 1];
    }
  }

  /** Whatever extension of `cur` exists, `Search` finds a choice at least
      as large. */
  lemma {:induction false} SearchMax(paths: seq<Path>, start: int, cur: seq<int>, used: set<int>, best: seq<int>, t: seq<int>)
    requires ScanPre(paths, start, cur, used, best)
    requires Extension(paths, cur, start, t)
    ensures |Search(paths, start, cur, used, best)| >= |cur| + |t|
    decreases |paths| - start, 1, 0
  {
    if t == [] {
      SearchValid(paths, start, cur, used, best);
    } else {
      var best' := if |cur| > |best| then cur else best;
      ScanMax(paths, start, cur, used, best', t);
    }
  }

  lemma {:induction false} ScanMax(paths: seq<Path>, i: int, cur: seq<int>, used: set<int>, best: seq<int>, t: seq<int>)
    requires ScanPre(paths, i, cur, used, best)
    requires Extension(paths, cur, i, t) && t != []
    ensures |Scan(paths, i, cur, used, best)| >= |cur| + |t|
    decreases |paths| - i, 0, 1
  {
    assert i <= t[0] < |paths|;
    if Compatible(paths[i], used) {
      ScanMaxTaking(paths, i, cur, used, best, t);
    } else if t[0] == i {
      ExtensionCompatible(paths, cur, used, i, t);
    } else {
      ScanSkips(paths, i, cur, used, best);
      ScanMaxSkipping(paths, i, cur, used, best, t);
    }
  }

  /** A clashing path is passed over. */
  lemma ScanSkips(paths: seq<Path>, i: int, cur: seq<int>, used: set<int>, best: seq<int>)
    requires 0 <= i < |paths| && !Compatible(paths[i], used)
    ensures Scan(paths, i, cur, used, best) == Scan(paths, i + 1, cur, used, best)
  {
  }

  /** The case of `ScanMax` where `paths[i]` clashes and is not the next
      position of the extension. */
  lemma {:induction false} ScanMaxSkipping(paths: seq<Path>, i: int, cur: seq<int>, used: set<int>, best: seq<int>, t: seq<int>)
    requires ScanPre(paths, i, cur, used, best) && i < |paths|
    requires Extension(paths, cur, i, t) && t != [] && i < t[0]
    requires Scan(paths, i, cur, used, best) == Scan(paths, i + 1, cur, used, best)
    ensures |Scan(paths, i, cur, used, best)| >= |cur| + |t|
    decreases |paths| - i, 0, 0
  {
    StateSkip(paths, cur, used, i);
    ExtensionSkip(paths, cur, i, t);
    ScanMax(paths, i + 1, cur, used, best, t);
  }

  /** The case of `ScanMax` where `paths[i]` can be taken. */
  lemma {:induction false} ScanMaxTaking(paths: seq<Path>, i: int, cur: seq<int>, used: set<int>, best: seq<int>, t: seq<int>)
    requires ScanPre(paths, i, cur, used, best) && i < |paths|
    requires Extension(paths, cur, i, t) && t != [] && i <= t[0]
    requires Compatible(paths[i], used)
    ensures |Scan(paths, i, cur, used, best)| >= |cur| + |t|
    decreases |paths| - i, 0, 0
  {
    ChooseKeeps(paths, cur, used, i);
    var best' := Search(paths, i + 1, cur + [i], Claim(used, paths[i]), best);
    SearchValid(paths, i + 1, cur + [i], Claim(used, paths[i]), best);
    assert Scan(paths, i, cur, used, best) == Scan(paths, i + 1, cur, used, best');
    StateSkip(paths, cur, used, i);
    if t[0] == i {
      ExtensionTake(paths, cur, i, t);
      SearchMax(paths, i + 1, cur + [i], Claim(used, paths[i]), best, t[1..]);
      ScanValid(paths, i + 1, cur, used, best');
    } else {
      ExtensionSkip(paths, cur, i, t);
      ScanMax(paths, i + 1, cur, used, best', t);
    }
  }

  /** Maximality: no interior-disjoint choice of input paths is larger than
      what `FilterPaths` returns. */
  lemma FilterPathsMaximum(paths: seq<Path>, idx: seq<int>)
    requires Sliceable(paths) && Valid(paths, idx)
    ensures |idx| <= |FilterPaths(paths)|
  {
    assert [] + idx == idx;
    SearchMax(paths, 0, [], {}, [], idx);
  }

  /** `x` is `y` or comes before it in lexicographic order of positions. */
  ghost predicate NotAfter(x: seq<int>, y: seq<int>) {
    x == y || exists k :: 0 <= k < |x| && k < |y| && x[..k] == y[..k] && x[k] < y[k]
  }

  /** No non-empty extension of `cur` from `from` on that is as large as
      `x` comes before `x`: the search would have met it first. */
  ghost predicate Leads(paths: seq<Path>, cur: seq<int>, from: int, x: seq<int>) {
    forall t :: Extension(paths, cur, from, t) && t != [] && |cur + t| == |x| ==> NotAfter(x, cur + t)
  }

  /** `Search` returns the first choice of its size that it meets: one no
      extension of `cur` of the same size precedes, which is either the best
      so far or an extension of `cur`. */
  lemma {:induction false} SearchFirst(paths: seq<Path>, start: int, cur: seq<int>, used: set<int>, best: seq<int>)
    requires ScanPre(paths, start, cur, used, best) && Leads(paths, cur, start, best)
    requires |cur| == |best| ==> NotAfter(best, cur)
    ensures var r := Search(paths, start, cur, used, best);
      && Leads(paths, cur, start, r)
      && (|cur| == |r| ==> NotAfter(r, cur))
      && (r == best || (|r| >= |cur| && r[..|cur|] == cur))
    decreases |paths| - start, 1, 0
  {
    var best' := if |cur| > |best| then cur else best;
    ScanFirst(paths, start, cur, used, best');
  }

  lemma {:induction false} ScanFirst(paths: seq<Path>, i: int, cur: seq<int>, used: set<int>, best: seq<int>)
    requires ScanPre(paths, i, cur, used, best) && Leads(paths, cur, i, best)
    ensures var r := Scan(paths, i, cur, used, best);
      && Leads(paths, cur, i, r)
      && (r == best || (|r| > |cur| && r[..|cur|] == cur && r[|cur|] >= i))
    decreases |paths| - i, 0, 1
  {
    if i < |paths| {
      if Compatible(paths[i], used) {
        ScanFirstTaking(paths, i, cur, used, best);
      } else {
        ScanFirstSkipping(paths, i, cur, used, best);
      }
    }
  }

  /** The case of `ScanFirst` where `paths[i]` clashes with the choice. */
  lemma {:induction false} ScanFirstSkipping(paths: seq<Path>, i: int, cur: seq<int>, used: set<int>, best: seq<int>)
    requires ScanPre(paths, i, cur, used, best) && Leads(paths, cur, i, best)
    requires i < |paths| && !Compatible(paths[i], used)
    ensures var r := Scan(paths, i, cur, used, best);
      && Leads(paths, cur, i, r)
      && (r == best || (|r| > |cur| && r[..|cur|] == cur && r[|cur|] >= i))
    decreases |paths| - i, 0, 0
  {
    ScanSkips(paths, i, cur, used, best);
    StateSkip(paths, cur, used, i);
    LeadsSkip(paths, cur, i, best);
    ScanFirst(paths, i + 1, cur, used, best);
    LeadsBackSkipping(paths, cur, used, i, Scan(paths, i + 1, cur, used, best));
  }

  /** The case of `ScanFirst` where `paths[i]` can be taken. */
  lemma {:induction false} ScanFirstTaking(paths: seq<Path>, i: int, cur: seq<int>, used: set<int>, best: seq<int>)
    requires ScanPre(paths, i, cur, used, best) && Leads(paths, cur, i, best)
    requires i < |paths| && Compatible(paths[i], used)
    ensures var r := Scan(paths, i, cur, used, best);
      && Leads(paths, cur, i, r)
      && (r == best || (|r| > |cur| && r[..|cur|] == cur && r[|cur|] >= i))
    decreases |paths| - i, 0, 0
  {
    var used' := Claim(used, paths[i]);
    ChooseKeeps(paths, cur, used, i);
    TakeLeads(paths, cur, i, best);
    SearchFirst(paths, i + 1, cur + [i], used', best);
    SearchValid(paths, i + 1, cur + [i], used', best);
    var b1 := Search(paths, i + 1, cur + [i], used', best);
    assert Scan(paths, i, cur, used, best) == Scan(paths, i + 1, cur, used, b1);
    StateSkip(paths, cur, used, i);
    AfterTakeLeads(paths, cur, i, best, b1);
    ScanFirst(paths, i + 1, cur, used, b1);
    var r := Scan(paths, i + 1, cur, used, b1);
    LeadsBackTaking(paths, cur, used, i, best, r);
    if r == b1 && b1 != best {
      PrefixStep(r, cur, i);
    }
  }

  /** Leading the extensions from `i` on means leading those from `i + 1` on. */
  lemma LeadsSkip(paths: seq<Path>, cur: seq<int>, i: int, x: seq<int>)
    requires Leads(paths, cur, i, x)
    ensures Leads(paths, cur, i + 1, x)
  {
    forall t | Extension(paths, cur, i + 1, t) && t != [] && |cur + t| == |x|
      ensures NotAfter(x, cur + t)
    {
      assert Extension(paths, cur, i, t);
    }
  }

  /** A clashing `paths[i]` starts no extension, so leading the extensions
      from `i + 1` on is leading those from `i` on. */
  lemma LeadsBackSkipping(paths: seq<Path>, cur: seq<int>, used: set<int>, i: int, r: seq<int>)
    requires 0 <= i < |paths| && SearchState(paths, cur, used, i) && !Compatible(paths[i], used)
    requires Leads(paths, cur, i + 1, r)
    ensures Leads(paths, cur, i, r)
  {
    forall t | Extension(paths, cur, i, t) && t != [] && |cur + t| == |r|
      ensures NotAfter(r, cur + t)
    {
      if t[0] == i {
        ExtensionCompatible(paths, cur, used, i, t);
        assert false;
      }
      ExtensionSkip(paths, cur, i, t);
    }
  }

  /** An extension of `cur + [i]` beyond `i`, with `i` in front, extends `cur` from `i`. */
  lemma ExtensionCons(paths: seq<Path>, cur: seq<int>, i: int, t: seq<int>)
    requires 0 <= i < |paths| && Extension(paths, cur + [i], i + 1, t)
    ensures Extension(paths, cur, i, [i] + t) && cur + ([i] + t) == (cur + [i]) + t
  {
    var u := [i] + t;
    forall a | 0 <= a < |u|
      ensures i <= u[a] < |paths|
    {
      if a > 0 {
        assert u[a] == t[a - 1];
      }
    }
    forall a, b | 0 <= a < b < |u|
      ensures u[a] < u[b]
    {
      assert u[b] == t[b - 1];
      if a > 0 {
        assert u[a] == t[a - 1];
      }
    }
  }

  /** What leads the extensions of `cur` from `i` leads those of `cur + [i]`
      from `i + 1`, and `cur + [i]` itself. */
  lemma TakeLeads(paths: seq<Path>, cur: seq<int>, i: int, best: seq<int>)
    requires 0 <= i < |paths| && Disjoint(paths, cur + [i]) && Leads(paths, cur, i, best)
    ensures Leads(paths, cur + [i], i + 1, best)
    ensures |cur + [i]| == |best| ==> NotAfter(best, cur + [i])
  {
    forall t | Extension(paths, cur + [i], i + 1, t) && t != [] && |(cur + [i]) + t| == |best|
      ensures NotAfter(best, (cur + [i]) + t)
    {
      ExtensionCons(paths, cur, i, t);
    }
    assert Extension(paths, cur, i, [i]);
  }

  /** After the search below `cur + [i]`, its result leads the extensions
      of `cur` that start beyond `i`. */
  lemma AfterTakeLeads(paths: seq<Path>, cur: seq<int>, i: int, best: seq<int>, b1: seq<int>)
    requires Leads(paths, cur, i, best)
    requires b1 == best || (|b1| >= |cur| + 1 && b1[..|cur| + 1] == cur + [i])
    ensures Leads(paths, cur, i + 1, b1)
  {
    forall t | Extension(paths, cur, i + 1, t) && t != [] && |cur + t| == |b1|
      ensures NotAfter(b1, cur + t)
    {
      if b1 == best {
        assert Extension(paths, cur, i, t);
      } else {
        var k := |cur|;
        PrefixStep(b1, cur, i);
        assert (cur + t)[..k] == cur && (cur + t)[k] == t[0];
      }
    }
  }

  /** Once the search below `cur + [i]` has returned `b1` and the rest of
      the loop `r`, `r` leads every extension of `cur` from `i`: those that
      take `i` are no larger than `b1`, so `r` can only be `b1` there. */
  lemma LeadsBackTaking(paths: seq<Path>, cur: seq<int>, used: set<int>, i: int, best: seq<int>, r: seq<int>)
    requires 0 <= i < |paths| && Compatible(paths[i], used)
    requires ScanPre(paths, i + 1, cur + [i], Claim(used, paths[i]), best)
    requires var b1 := Search(paths, i + 1, cur + [i], Claim(used, paths[i]), best);
      && Leads(paths, cur + [i], i + 1, b1)
      && (|cur + [i]| == |b1| ==> NotAfter(b1, cur + [i]))
      && (r == b1 || |r| > |b1|)
    requires Leads(paths, cur, i + 1, r)
    ensures Leads(paths, cur, i, r)
  {
    forall t | Extension(paths, cur, i, t) && t != [] && |cur + t| == |r|
      ensures NotAfter(r, cur + t)
    {
      if t[0] == i {
        TakenLeads(paths, cur, used, i, best, r, t);
      } else {
        ExtensionSkip(paths, cur, i, t);
      }
    }
  }

  /** The extensions of `LeadsBackTaking` that take `i`. */
  lemma TakenLeads(paths: seq<Path>, cur: seq<int>, used: set<int>, i: int, best: seq<int>, r: seq<int>, t: seq<int>)
    requires 0 <= i < |paths|
    requires ScanPre(paths, i + 1, cur + [i], Claim(used, paths[i]), best)
    requires var b1 := Search(paths, i + 1, cur + [i], Claim(used, paths[i]), best);
      && Leads(paths, cur + [i], i + 1, b1)
      && (|cur + [i]| == |b1| ==> NotAfter(b1, cur + [i]))
      && (r == b1 || |r| > |b1|)
    requires Extension(paths, cur, i, t) && t != [] && t[0] == i && |cur + t| == |r|
    ensures NotAfter(r, cur + t)
  {
    var b1 := Search(paths, i + 1, cur + [i], Claim(used, paths[i]), best);
    ExtensionTake(paths, cur, i, t);
    SearchMax(paths, i + 1, cur + [i], Claim(used, paths[i]), best, t[1..]);
    TakenBy(paths, cur, i, b1, r, t);
  }

  /** `TakenLeads` once the search below `cur + [i]` is known to reach the
      size of `cur + t`. */
  lemma TakenBy(paths: seq<Path>, cur: seq<int>, i: int, b1: seq<int>, r: seq<int>, t: seq<int>)
    requires Leads(paths, cur + [i], i + 1, b1) && (|cur + [i]| == |b1| ==> NotAfter(b1, cur + [i]))
    requires r == b1 || |r| > |b1|
    requires t != [] && t[0] == i && Extension(paths, cur + [i], i + 1, t[1..])
    requires |cur + t| == |r| && |b1| >= |cur| + 1 + |t[1..]|
    ensures NotAfter(r, cur + t)
  {
    var u := t[1..];
    assert r == b1;
    assert (cur + [i]) + u == cur + t;
    if u == [] {
      assert cur + t == cur + [i];
    }
  }

  /** A sequence that starts with `cur + [i]` starts with `cur`, then `i`. */
  lemma PrefixStep(x: seq<int>, cur: seq<int>, i: int)
    requires |x| >= |cur| + 1 && x[..|cur| + 1] == cur + [i]
    ensures x[..|cur|] == cur && x[|cur|] == i
  {
    assert x[..|cur|] == x[..|cur| + 1][..|cur|];
    assert x[|cur|] == x[..|cur| + 1][|cur|];
  }

  /** `FilterPaths` keeps the first largest choice: among interior-disjoint
      choices of its size, the one whose positions come first in
      lexicographic order, since `maxPaths` is only replaced by a strictly
      longer choice and the search meets choices in that order. */
  lemma FilterPathsFirst(paths: seq<Path>, idx: seq<int>)
    requires Valid(paths, idx) && |idx| == |Chosen(paths)|
    ensures var c := Chosen(paths);
      c == idx || exists k :: 0 <= k < |idx| && c[..k] == idx[..k] && c[k] < idx[k]
  {
    SearchFirstFromEmpty(paths);
    if idx != [] {
      assert [] + idx == idx;
      assert Extension(paths, [], 0, idx);
    }
  }

  /** `Chosen` leads every non-empty choice of its size. */
  lemma SearchFirstFromEmpty(paths: seq<Path>)
    ensures Leads(paths, [], 0, Chosen(paths))
  {
    assert Leads(paths, [], 0, []);
    SearchFirst(paths, 0, [], {}, []);
  }


  /** Positions increasing within [lo, hi) are spread out: the a-th is at
      least lo + a and leaves room for the ones after it. */
  lemma {:induction false} IncreasingSpread(idx: seq<int>, lo: int, hi: int)
    requires Increasing(idx, lo, hi)
    ensures |idx| <= hi - lo || idx == []
    ensures forall a :: 0 <= a < |idx| ==> lo + a <= idx[a] <= hi - |idx| + a
  {
    if idx != [] {
      var rest := idx[1..];
      assert Increasing(rest, idx[0] + 1, hi) by {
        forall a | 0 <= a < |rest|
          ensures idx[0] + 1 <= rest[a] < hi
        {
          assert rest[a] == idx[a + 1];
        }
      }
      IncreasingSpread(rest, idx[0] + 1, hi);
      forall a | 0 <= a < |idx|
        ensures lo + a <= idx[a] <= hi - |idx| + a
      {
        if a > 0 {
          assert idx[a] == rest[a - 1];
        } else if |idx| > 1 {
          assert idx[1] == rest[0];
        }
      }
    }
  }

  /** The positions 0, 1, ..., n-1. */
  function Range(n: nat): (r: seq<int>)
    ensures |r| == n && forall a :: 0 <= a < n ==> r[a] == a
  {
    seq(n, a => a)
  }

  /** An input that is already pairwise interior-disjoint is returned
      unchanged: the whole input is a valid choice, and the only increasing
      choice of that size is all of it. */
  lemma FilterPathsKeepsDisjoint(paths: seq<Path>)
    requires Sliceable(paths)
    requires forall a, b :: 0 <= a < b < |paths| ==> Apart(paths[a], paths[b])
    ensures FilterPaths(paths) == paths
  {
    var n := |paths|;
    FilterPathsMaximum(paths, Range(n));
    var c := Chosen(paths);
    IncreasingSpread(c, 0, n);
    assert |c| == n;
    assert forall a :: 0 <= a < n ==> c[a] == a;
  }

  /** Idempotence: selecting again from the selection changes nothing. */
  lemma FilterPathsIdempotent(paths: seq<Path>)
    requires Sliceable(paths)
    ensures FilterPaths(FilterPaths(paths)) == FilterPaths(paths)
  {
    FilterPathsKeepsDisjoint(FilterPaths(paths));
  }

  /** Any single path is a valid choice, so a non-empty input never yields
      an empty selection: the "no feasible assignment" error of main.go:353
      cannot follow a non-empty enumeration. */
  lemma FilterPathsNonEmpty(paths: seq<Path>)
    requires Sliceable(paths) && paths != []
    ensures FilterPaths(paths) != [] && |FilterPaths(paths)[0]| >= 2
  {
    FilterPathsMaximum(paths, [0]);
  }

  /** Keeping positions in order keeps a length-sorted input sorted, so the
      first selected path is a shortest one. */
  lemma FilterPathsByLength(paths: seq<Path>)
    requires Sliceable(paths) && ByLength(paths)
    ensures ByLength(FilterPaths(paths))
  {
    var c := Chosen(paths);
    var r := FilterPaths(paths);
    forall a, b | 0 <= a <= b < |r|
      ensures |r[a]| <= |r[b]|
    {
      assert a < b ==> c[a] < c[b];
    }
  }
}
