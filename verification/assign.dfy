/** Giving every ant a path: `assignPathsToAnts` (main.go:455-471) and the
    start-up loop of main (main.go:366-379) that overrides its result. */
module Assign {
  import opened Paths

  /** `assignPathsToAnts`: ants take the selected paths one each while
      unassigned ones remain, then reuse them by `i % len(filteredPaths)`.
      With no paths and at least one ant the Go code divides by zero, so
      that case is excluded. */
  method AssignPathsToAnts(antCount: nat, filtered: seq<Path>) returns (antPaths: seq<Path>)
    requires antCount == 0 || |filtered| > 0
    ensures |antPaths| == antCount
    ensures forall i :: 0 <= i < antCount ==> antPaths[i] == filtered[i % |filtered|]
  {
    antPaths := [];
    var remaining := filtered;
    var i := 0;
    while i < antCount
      invariant 0 <= i <= antCount && |antPaths| == i
      invariant i <= |filtered| ==> remaining == filtered[i..]
      invariant i >= |filtered| ==> remaining == []
      invariant forall a :: 0 <= a < i ==> antPaths[a] == filtered[a % |filtered|]
    {
      if |remaining| > 0 {
        ModBelow(i, |filtered|);
        antPaths := antPaths + [remaining[0]];
        remaining := remaining[1..];
      } else {
        antPaths := antPaths + [filtered[i % |filtered|]];
      }
      i := i + 1;
    }
  }

  lemma ModBelow(i: nat, n: nat)
    requires i < n
    ensures i % n == i
  {
  }

  /** The start-up loop of main: every ant starts in room `s`; the last ant
      is given the first selected path and the others keep their
      round-robin path. With the paths sorted by length the last ant thus
      follows a shortest one (the comment at main.go:373); with two ants,
      both ants follow the first path. */
  method InitialState(antCount: nat, filtered: seq<Path>, s: int) returns (positions: seq<int>, antPaths: seq<Path>)
    requires antCount == 0 || |filtered| > 0
    ensures |positions| == antCount && forall i :: 0 <= i < antCount ==> positions[i] == s
    ensures |antPaths| == antCount
    ensures forall i :: 0 <= i < antCount - 1 ==> antPaths[i] == filtered[i % |filtered|]
    ensures antCount > 0 ==> antPaths[antCount - 1] == filtered[0]
    ensures forall i :: 0 <= i < antCount ==> antPaths[i] in filtered
    ensures ByLength(filtered) ==> forall i :: 0 <= i < antCount ==> |antPaths[antCount - 1]| <= |antPaths[i]|
    ensures antCount == 2 ==> antPaths[0] == antPaths[1] == filtered[0]
  {
    antPaths := AssignPathsToAnts(antCount, filtered);
    positions := [];
    var i := 0;
    while i < antCount
      invariant 0 <= i <= antCount && |positions| == i && |antPaths| == antCount
      invariant forall a :: 0 <= a < i ==> positions[a] == s
      invariant forall a :: 0 <= a < antCount && a != antCount - 1 ==> antPaths[a] == filtered[a % |filtered|]
      invariant i == antCount && antCount > 0 ==> antPaths[antCount - 1] == filtered[0]
      invariant i < antCount ==> antPaths[antCount - 1] == filtered[(antCount - 1) % |filtered|]
    {
      if i == antCount - 1 {
        antPaths := antPaths[i := filtered[0]];
      } else {
        antPaths := antPaths[i := filtered[i % |filtered|]];
      }
      positions := positions + [s];
      i := i + 1;
    }
    if ByLength(filtered) {
      forall a | 0 <= a < antCount
        ensures |antPaths[antCount - 1]| <= |antPaths[a]|
      {
        if a != antCount - 1 {
          assert antPaths[a] == filtered[a % |filtered|];
        }
      }
    }
  }
}
