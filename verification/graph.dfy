/** The room graph of main.go: nodes with dense ids in order of appearance,
    an edge list and a symmetric adjacency list. */
module GraphModel {
  import opened Wrappers

  /** A room. Its coordinates are never used for routing and are not kept. */
  datatype Node = Node(id: int, name: string)

  datatype Edge = Edge(source: int, target: int)

  /** Node id to neighbour ids, in insertion order; duplicates are kept. */
  type AdjList = map<int, seq<int>>

  datatype Graph = Graph(nodes: seq<Node>, edges: seq<Edge>, startId: int, endId: int, adj: AdjList)

  /** One line of the input file after parsing: a room after `##start`,
      a room after `##end`, a plain room, or a link `a-b`. */
  datatype Line = StartRoom(name: string) | EndRoom(name: string) | Room(name: string) | Link(left: string, right: string)

  datatype BuildError = UnknownRoom | MissingStartOrEnd

  /** Reading a Go map at a missing key yields the nil slice. */
  function Neighbors(adj: AdjList, n: int): seq<int> {
    if n in adj then adj[n] else []
  }

  /** Ids are positions in the node list. */
  ghost predicate Dense(nodes: seq<Node>) {
    forall i :: 0 <= i < |nodes| ==> nodes[i].id == i
  }

  ghost predicate ValidId(g: Graph, n: int) {
    0 <= n < |g.nodes|
  }

  /** Every key and every listed neighbour is an id below `count`. */
  ghost predicate AdjBelow(adj: AdjList, count: int) {
    && (forall m :: m in adj ==> 0 <= m < count)
    && (forall m, n :: n in Neighbors(adj, m) ==> 0 <= n < count)
  }

  ghost predicate EdgesBelow(edges: seq<Edge>, count: int) {
    forall i :: 0 <= i < |edges| ==> 0 <= edges[i].source < count && 0 <= edges[i].target < count
  }

  /** Every edge is listed from both ends, with multiplicity. */
  ghost predicate Symmetric(adj: AdjList) {
    forall m, n :: multiset(Neighbors(adj, m))[n] == multiset(Neighbors(adj, n))[m]
  }

  ghost predicate WellFormed(g: Graph) {
    && Dense(g.nodes)
    && (g.startId == -1 || ValidId(g, g.startId))
    && (g.endId == -1 || ValidId(g, g.endId))
    && (g.startId == g.endId ==> g.startId == -1)
    && EdgesBelow(g.edges, |g.nodes|)
    && AdjBelow(g.adj, |g.nodes|)
    && Symmetric(g.adj)
  }

  lemma BelowGrows(g: Graph, count: int)
    requires EdgesBelow(g.edges, |g.nodes|) && AdjBelow(g.adj, |g.nodes|)
    requires |g.nodes| <= count
    ensures EdgesBelow(g.edges, count) && AdjBelow(g.adj, count)
  {
  }

  function EmptyGraph(): (g: Graph)
    ensures WellFormed(g) && g.nodes == [] && g.startId == -1 && g.endId == -1
  {
    Graph([], [], -1, -1, map[])
  }

  /** Linear lookup by name; -1 when no node has that name. */
  function FindNodeId(nodes: seq<Node>, name: string): (r: int)
    ensures (forall k :: 0 <= k < |nodes| ==> nodes[k].name != name) ==> r == -1
    ensures forall k :: 0 <= k < |nodes| && nodes[k].name == name && (forall j :: 0 <= j < k ==> nodes[j].name != name)
              ==> r == nodes[k].id
  {
    if nodes == [] then -1
    else if nodes[0].name == name then nodes[0].id
    else FindNodeId(nodes[1..], name)
  }

  /** With dense ids the sentinel is unambiguous: -1 exactly when the name is
      absent, and otherwise the position of the first node with that name. */
  lemma FindNodeIdDense(nodes: seq<Node>, name: string)
    requires Dense(nodes)
    ensures FindNodeId(nodes, name) == -1 <==> forall k :: 0 <= k < |nodes| ==> nodes[k].name != name
    ensures FindNodeId(nodes, name) != -1 ==>
              var r := FindNodeId(nodes, name);
              0 <= r < |nodes| && nodes[r].name == name && forall j :: 0 <= j < r ==> nodes[j].name != name
  {
    if exists k :: 0 <= k < |nodes| && nodes[k].name == name {
      var k := FirstNamed(nodes, name);
      assert FindNodeId(nodes, name) == k;
    }
  }

  /** The position of the first node called `name`. */
  lemma FirstNamed(nodes: seq<Node>, name: string) returns (k: int)
    requires exists k :: 0 <= k < |nodes| && nodes[k].name == name
    ensures 0 <= k < |nodes| && nodes[k].name == name
    ensures forall j :: 0 <= j < k ==> nodes[j].name != name
  {
    k := 0;
    while nodes[k].name != name
      decreases |nodes| - k
      invariant 0 <= k < |nodes|
      invariant forall j :: 0 <= j < k ==> nodes[j].name != name
      invariant exists k' :: k <= k' < |nodes| && nodes[k'].name == name
    {
      k := k + 1;
    }
  }

  /** Appends a room whose id is the current node count (main.go:263, 285, 303). */
  function AddRoom(g: Graph, line: Line): (r: Graph)
    requires !line.Link?
    requires WellFormed(g)
    ensures WellFormed(r)
    ensures |r.nodes| == |g.nodes| + 1 && r.nodes[..|g.nodes|] == g.nodes
    ensures r.nodes[|g.nodes|].name == line.name
    ensures r.edges == g.edges && r.adj == g.adj
    ensures r.startId == (if line.StartRoom? then |g.nodes| else g.startId)
    ensures r.endId == (if line.EndRoom? then |g.nodes| else g.endId)
  {
    var id := |g.nodes|;
    var g' := g.(nodes := g.nodes + [Node(id, line.name)]);
    BelowGrows(g, id + 1);
    match line
    case StartRoom(_) => g'.(startId := id)
    case EndRoom(_) => g'.(endId := id)
    case Room(_) => g'
  }

  /** Appends `b` to the list of `a`, then `a` to the list of `b`. */
  function Connect(adj: AdjList, a: int, b: int): (r: AdjList)
    ensures r.Keys == adj.Keys + {a, b}
    ensures a != b ==> Neighbors(r, a) == Neighbors(adj, a) + [b]
    ensures a != b ==> Neighbors(r, b) == Neighbors(adj, b) + [a]
    ensures a == b ==> Neighbors(r, a) == Neighbors(adj, a) + [a, a]
    ensures forall n :: n != a && n != b ==> Neighbors(r, n) == Neighbors(adj, n)
  {
    var adj1 := adj[a := Neighbors(adj, a) + [b]];
    adj1[b := Neighbors(adj1, b) + [a]]
  }

  /** How often `n` is a neighbour of `m` after connecting `a` and `b`. */
  lemma ConnectCount(adj: AdjList, a: int, b: int, m: int, n: int)
    ensures multiset(Neighbors(Connect(adj, a, b), m))[n]
              == multiset(Neighbors(adj, m))[n] + (if m == a && n == b then 1 else 0) + (if m == b && n == a then 1 else 0)
  {
    var r := Connect(adj, a, b);
    if m == a && m == b {
      assert Neighbors(r, m) == Neighbors(adj, m) + [a] + [a];
    } else if m == a {
      assert Neighbors(r, m) == Neighbors(adj, m) + [b];
    } else if m == b {
      assert Neighbors(r, m) == Neighbors(adj, m) + [a];
    }
  }

  lemma ConnectKeepsSymmetric(adj: AdjList, a: int, b: int)
    requires Symmetric(adj)
    ensures Symmetric(Connect(adj, a, b))
  {
    var r := Connect(adj, a, b);
    forall m, n
      ensures multiset(Neighbors(r, m))[n] == multiset(Neighbors(r, n))[m]
    {
      ConnectCount(adj, a, b, m, n);
      ConnectCount(adj, a, b, n, m);
    }
  }

  lemma ConnectKeepsBelow(adj: AdjList, a: int, b: int, count: int)
    requires AdjBelow(adj, count) && 0 <= a < count && 0 <= b < count
    ensures AdjBelow(Connect(adj, a, b), count)
  {
    var r := Connect(adj, a, b);
    forall m, n | n in Neighbors(r, m)
      ensures 0 <= n < count
    {
      if m != a && m != b {
        assert n in Neighbors(adj, m);
      }
    }
  }

  lemma LinkKeepsWellFormed(g: Graph, a: int, b: int)
    requires WellFormed(g) && ValidId(g, a) && ValidId(g, b)
    ensures WellFormed(g.(edges := g.edges + [Edge(a, b)], adj := Connect(g.adj, a, b)))
  {
    ConnectKeepsSymmetric(g.adj, a, b);
    ConnectKeepsBelow(g.adj, a, b, |g.nodes|);
  }

  /** Accepts a link only when both names resolve, then records the edge and
      appends each end to the other's adjacency list (main.go:313-321). */
  function AddLink(g: Graph, left: string, right: string): (r: Result<Graph, BuildError>)
    requires WellFormed(g)
    ensures r.Failure? <==> FindNodeId(g.nodes, left) == -1 || FindNodeId(g.nodes, right) == -1
    ensures r.Failure? ==> r.error == UnknownRoom
    ensures r.Success? ==>
              var a := FindNodeId(g.nodes, left);
              var b := FindNodeId(g.nodes, right);
              && WellFormed(r.value)
              && r.value.nodes == g.nodes && r.value.startId == g.startId && r.value.endId == g.endId
              && r.value.edges == g.edges + [Edge(a, b)]
              && r.value.adj.Keys == g.adj.Keys + {a, b}
              && (a != b ==> Neighbors(r.value.adj, a) == Neighbors(g.adj, a) + [b])
              && (a != b ==> Neighbors(r.value.adj, b) == Neighbors(g.adj, b) + [a])
              && (a == b ==> Neighbors(r.value.adj, a) == Neighbors(g.adj, a) + [a, a])
              && (forall n :: n != a && n != b ==> Neighbors(r.value.adj, n) == Neighbors(g.adj, n))
  {
    var a := FindNodeId(g.nodes, left);
    var b := FindNodeId(g.nodes, right);
    if a == -1 || b == -1 then Failure(UnknownRoom)
    else
      FindNodeIdDense(g.nodes, left);
      FindNodeIdDense(g.nodes, right);
      LinkKeepsWellFormed(g, a, b);
      Success(g.(edges := g.edges + [Edge(a, b)], adj := Connect(g.adj, a, b)))
  }

  ghost predicate HasStart(lines: seq<Line>) {
    exists i :: 0 <= i < |lines| && lines[i].StartRoom?
  }

  ghost predicate HasEnd(lines: seq<Line>) {
    exists i :: 0 <= i < |lines| && lines[i].EndRoom?
  }

  lemma HasLineSplit(lines: seq<Line>)
    requires lines != []
    ensures HasStart(lines) <==> lines[0].StartRoom? || HasStart(lines[1..])
    ensures HasEnd(lines) <==> lines[0].EndRoom? || HasEnd(lines[1..])
  {
    if HasStart(lines) && !lines[0].StartRoom? {
      var i :| 0 <= i < |lines| && lines[i].StartRoom?;
      assert lines[1..][i - 1].StartRoom?;
    }
    if HasStart(lines[1..]) {
      var i :| 0 <= i < |lines[1..]| && lines[1..][i].StartRoom?;
      assert lines[i + 1].StartRoom?;
    }
    if HasEnd(lines) && !lines[0].EndRoom? {
      var i :| 0 <= i < |lines| && lines[i].EndRoom?;
      assert lines[1..][i - 1].EndRoom?;
    }
    if HasEnd(lines[1..]) {
      var i :| 0 <= i < |lines[1..]| && lines[1..][i].EndRoom?;
      assert lines[i + 1].EndRoom?;
    }
  }

  /** The names of the nodes, in id order. */
  function Names(nodes: seq<Node>): (r: seq<string>)
    ensures |r| == |nodes| && forall k :: 0 <= k < |nodes| ==> r[k] == nodes[k].name
  {
    seq(|nodes|, k requires 0 <= k < |nodes| => nodes[k].name)
  }

  /** The names of the room lines among `lines`, in order. */
  function RoomNames(lines: seq<Line>): seq<string> {
    if lines == [] then []
    else (if lines[0].Link? then [] else [lines[0].name]) + RoomNames(lines[1..])
  }

  lemma {:induction false} RoomNamesAppend(a: seq<Line>, b: seq<Line>)
    ensures RoomNames(a + b) == RoomNames(a) + RoomNames(b)
    decreases |a|
  {
    if a == [] {
      assert a + b == b;
    } else {
      assert (a + b)[0] == a[0];
      assert (a + b)[1..] == a[1..] + b;
      RoomNamesAppend(a[1..], b);
    }
  }

  /** Every link names two rooms that are among `names` or appear on an
      earlier line. */
  ghost predicate LinksResolve(names: seq<string>, lines: seq<Line>) {
    forall i :: 0 <= i < |lines| && lines[i].Link? ==>
      lines[i].left in names + RoomNames(lines[..i]) && lines[i].right in names + RoomNames(lines[..i])
  }

  /** Links resolve in `lines` exactly when the first line resolves against
      `names` and the rest resolve against `names` and the first line's room. */
  lemma LinksResolveSplit(names: seq<string>, lines: seq<Line>)
    requires lines != []
    ensures LinksResolve(names, lines) <==>
      && (lines[0].Link? ==> lines[0].left in names && lines[0].right in names)
      && LinksResolve(names + RoomNames(lines[..1]), lines[1..])
  {
    var names' := names + RoomNames(lines[..1]);
    assert RoomNames(lines[..0]) == [];
    assert names + RoomNames(lines[..0]) == names;
    forall i | 1 <= i <= |lines|
      ensures names + RoomNames(lines[..i]) == names' + RoomNames(lines[1..][..i - 1])
    {
      assert lines[..i] == lines[..1] + lines[1..][..i - 1];
      RoomNamesAppend(lines[..1], lines[1..][..i - 1]);
    }
    if LinksResolve(names, lines) {
      forall i | 0 <= i < |lines[1..]| && lines[1..][i].Link?
        ensures lines[1..][i].left in names' + RoomNames(lines[1..][..i])
        ensures lines[1..][i].right in names' + RoomNames(lines[1..][..i])
      {
        assert lines[1..][i] == lines[i + 1];
      }
    }
    if && (lines[0].Link? ==> lines[0].left in names && lines[0].right in names)
       && LinksResolve(names', lines[1..]) {
      forall i | 0 <= i < |lines| && lines[i].Link?
        ensures lines[i].left in names + RoomNames(lines[..i]) && lines[i].right in names + RoomNames(lines[..i])
      {
        if i > 0 {
          assert lines[1..][i - 1] == lines[i];
        }
      }
    }
  }

  /** With dense ids a name resolves exactly when it is a node name. */
  lemma FoundIffNamed(nodes: seq<Node>, name: string)
    requires Dense(nodes)
    ensures FindNodeId(nodes, name) != -1 <==> name in Names(nodes)
  {
    FindNodeIdDense(nodes, name);
    if name in Names(nodes) {
      var k :| 0 <= k < |nodes| && Names(nodes)[k] == name;
    }
  }

  /** The position of the first `name` in `names`; -1 when there is none. */
  function IndexIn(names: seq<string>, name: string): (r: int)
    ensures r == -1 <==> name !in names
    ensures r != -1 ==> 0 <= r < |names| && names[r] == name && name !in names[..r]
  {
    if names == [] then -1
    else if names[0] == name then 0
    else
      var k := IndexIn(names[1..], name);
      if k == -1 then -1
      else
        assert names[..k + 1] == [names[0]] + names[1..][..k];
        k + 1
  }

  /** With dense ids, the lookup finds the first position of the name among
      the node names. */
  lemma FoundAt(nodes: seq<Node>, name: string)
    requires Dense(nodes)
    ensures FindNodeId(nodes, name) == IndexIn(Names(nodes), name)
  {
    FindNodeIdDense(nodes, name);
    var names := Names(nodes);
    var k := IndexIn(names, name);
    if k != -1 {
      forall j | 0 <= j < k
        ensures nodes[j].name != name
      {
        assert names[..k][j] == names[j];
      }
    }
  }

  /** The edge a line adds when `names` are the names known before it, ids
      being positions: one for a link, none for a room. */
  ghost function LineEdges(names: seq<string>, line: Line): seq<Edge> {
    if line.Link? then [Edge(IndexIn(names, line.left), IndexIn(names, line.right))] else []
  }

  /** The edges the link lines of `lines` add, one per link line in line
      order, each between the ids its names have once `names` and the rooms
      of the earlier lines are known. */
  ghost function LinkEdges(names: seq<string>, lines: seq<Line>): seq<Edge>
    decreases |lines|
  {
    if lines == [] then []
    else LineEdges(names, lines[0]) + LinkEdges(names + RoomNames([lines[0]]), lines[1..])
  }

  /** The adjacency list after connecting the ends of each edge in turn. */
  ghost function ConnectAll(adj: AdjList, edges: seq<Edge>): AdjList
    decreases |edges|
  {
    if edges == [] then adj
    else ConnectAll(Connect(adj, edges[0].source, edges[0].target), edges[1..])
  }

  /** How often `edges` joins `m` to `n`, counting an edge from either end
      (a loop from `m` to itself counts twice). */
  ghost function Links(edges: seq<Edge>, m: int, n: int): nat
    decreases |edges|
  {
    if edges == [] then 0
    else (if edges[0] == Edge(m, n) then 1 else 0) + (if edges[0] == Edge(n, m) then 1 else 0) + Links(edges[1..], m, n)
  }

  /** Connecting the ends of each edge adds to the neighbours of `m` one `n`
      for each time the edges join them. */
  lemma {:induction false} ConnectAllCount(adj: AdjList, edges: seq<Edge>, m: int, n: int)
    ensures multiset(Neighbors(ConnectAll(adj, edges), m))[n] == multiset(Neighbors(adj, m))[n] + Links(edges, m, n)
    decreases |edges|
  {
    if edges != [] {
      var a, b := edges[0].source, edges[0].target;
      ConnectCount(adj, a, b, m, n);
      ConnectAllCount(Connect(adj, a, b), edges[1..], m, n);
    }
  }

  lemma ConnectAllCounts(adj: AdjList, edges: seq<Edge>)
    ensures forall m, n :: multiset(Neighbors(ConnectAll(adj, edges), m))[n] == multiset(Neighbors(adj, m))[n] + Links(edges, m, n)
  {
    forall m, n
      ensures multiset(Neighbors(ConnectAll(adj, edges), m))[n] == multiset(Neighbors(adj, m))[n] + Links(edges, m, n)
    {
      ConnectAllCount(adj, edges, m, n);
    }
  }

  /** One parsed line (main.go:243-322): a room line appends a node, a link
      line adds a link or fails on an unknown name. */
  function Apply(g: Graph, line: Line): (r: Result<Graph, BuildError>)
    requires WellFormed(g)
    ensures r.Success? <==> (line.Link? ==> line.left in Names(g.nodes) && line.right in Names(g.nodes))
    ensures r.Failure? ==> r.error == UnknownRoom
    ensures r.Success? ==> WellFormed(r.value) && Names(r.value.nodes) == Names(g.nodes) + RoomNames([line])
    ensures r.Success? ==> |r.value.nodes| >= |g.nodes| && r.value.nodes[..|g.nodes|] == g.nodes
    ensures r.Success? ==> r.value.startId == (if line.StartRoom? then |g.nodes| else g.startId)
    ensures r.Success? ==> r.value.endId == (if line.EndRoom? then |g.nodes| else g.endId)
    ensures line.Link? && r.Success? ==>
      var a, b := FindNodeId(g.nodes, line.left), FindNodeId(g.nodes, line.right);
      r.value.edges == g.edges + [Edge(a, b)] && r.value.adj == Connect(g.adj, a, b)
    ensures !line.Link? ==> r.Success? && r.value.edges == g.edges && r.value.adj == g.adj
  {
    if line.Link? then
      FoundIffNamed(g.nodes, line.left);
      FoundIffNamed(g.nodes, line.right);
      assert RoomNames([line]) == [];
      AddLink(g, line.left, line.right)
    else
      RoomAdded(g, line);
      Success(AddRoom(g, line))
  }

  /** A room line appends its own name to the node names. */
  lemma RoomAdded(g: Graph, line: Line)
    requires WellFormed(g) && !line.Link?
    ensures Names(AddRoom(g, line).nodes) == Names(g.nodes) + RoomNames([line])
  {
    assert RoomNames([line]) == [line.name] + RoomNames([]);
  }

  /** What feeding `lines` into `g` yields: success exactly when every link
      resolves, and then a well-formed graph that extends `g` with the
      lines' rooms, in order, and has a start or end room exactly when `g`
      or the lines had one. */
  ghost predicate FoldOutcome(g: Graph, lines: seq<Line>, r: Result<Graph, BuildError>)
    requires WellFormed(g)
  {
    && (r.Success? <==> LinksResolve(Names(g.nodes), lines))
    && (r.Failure? ==> r.error == UnknownRoom)
    && (r.Success? ==> Grown(g, lines, r.value))
  }

  ghost predicate Grown(g: Graph, lines: seq<Line>, g': Graph) {
    && WellFormed(g')
    && Names(g'.nodes) == Names(g.nodes) + RoomNames(lines)
    && (g'.startId != -1 <==> g.startId != -1 || HasStart(lines))
    && (g'.endId != -1 <==> g.endId != -1 || HasEnd(lines))
    && |g'.nodes| >= |g.nodes| && g'.nodes[..|g.nodes|] == g.nodes
    && MarkedId(|g.nodes|, g.startId, lines, true, g'.startId)
    && MarkedId(|g.nodes|, g.endId, lines, false, g'.endId)
    && g'.edges == g.edges + LinkEdges(Names(g.nodes), lines)
    && g'.adj == ConnectAll(g.adj, LinkEdges(Names(g.nodes), lines))
  }

  /** A first line that does not apply means the links do not resolve. */
  lemma FirstFails(g: Graph, lines: seq<Line>)
    requires WellFormed(g) && lines != [] && Apply(g, lines[0]).Failure?
    ensures FoldOutcome(g, lines, Apply(g, lines[0]))
  {
    LinksResolveSplit(Names(g.nodes), lines);
  }

  /** The outcome of the rest, after a first line that applies, is the
      outcome of all the lines. */
  lemma FirstApplies(g: Graph, lines: seq<Line>, g': Graph, r: Result<Graph, BuildError>)
    requires WellFormed(g) && lines != [] && Apply(g, lines[0]) == Success(g')
    requires FoldOutcome(g', lines[1..], r)
    ensures FoldOutcome(g, lines, r)
  {
    FirstLinks(g, lines, g');
    FirstRooms(Names(g.nodes), Names(g'.nodes), lines);
    FirstMarks(g, lines, g');
    if r.Success? {
      PrefixTrans(g.nodes, g'.nodes, r.value.nodes);
      assert |g'.nodes| == |g.nodes| + |RoomNames([lines[0]])|;
      FirstMarkId(|g.nodes|, |g'.nodes|, g.startId, g'.startId, lines, true, r.value.startId);
      FirstMarkId(|g.nodes|, |g'.nodes|, g.endId, g'.endId, lines, false, r.value.endId);
      LineApplied(g, lines[0], g');
      FirstEdges(Names(g.nodes), lines, g.edges, g'.edges, r.value.edges);
      FirstAdj(Names(g.nodes), lines, g.adj, g'.adj, r.value.adj);
    }
  }

  /** The edges the rest of the lines add after those of the first line
      are the edges all the lines add. */
  lemma FirstEdges(names: seq<string>, lines: seq<Line>, edges: seq<Edge>, edges': seq<Edge>, edges2: seq<Edge>)
    requires lines != []
    requires edges' == edges + LineEdges(names, lines[0])
    requires edges2 == edges' + LinkEdges(names + RoomNames([lines[0]]), lines[1..])
    ensures edges2 == edges + LinkEdges(names, lines)
  {
    var first := LineEdges(names, lines[0]);
    var rest := LinkEdges(names + RoomNames([lines[0]]), lines[1..]);
    assert LinkEdges(names, lines) == first + rest;
    assert edges + (first + rest) == (edges + first) + rest;
  }

  /** Connecting what the rest of the lines add after what the first line
      added connects what all the lines add. */
  lemma FirstAdj(names: seq<string>, lines: seq<Line>, adj: AdjList, adj': AdjList, adj2: AdjList)
    requires lines != []
    requires adj' == ConnectAll(adj, LineEdges(names, lines[0]))
    requires adj2 == ConnectAll(adj', LinkEdges(names + RoomNames([lines[0]]), lines[1..]))
    ensures adj2 == ConnectAll(adj, LinkEdges(names, lines))
  {
    var first := LineEdges(names, lines[0]);
    var rest := LinkEdges(names + RoomNames([lines[0]]), lines[1..]);
    assert LinkEdges(names, lines) == first + rest;
    ConnectAllAppend(adj, first, rest);
  }

  /** What `Apply` does to the edges and adjacency, in terms of the names
      known before the line. */
  lemma LineApplied(g: Graph, line: Line, g': Graph)
    requires WellFormed(g) && Apply(g, line) == Success(g')
    ensures Names(g'.nodes) == Names(g.nodes) + RoomNames([line])
    ensures g'.edges == g.edges + LineEdges(Names(g.nodes), line)
    ensures g'.adj == ConnectAll(g.adj, LineEdges(Names(g.nodes), line))
  {
    if line.Link? {
      FoundAt(g.nodes, line.left);
      FoundAt(g.nodes, line.right);
      var a, b := FindNodeId(g.nodes, line.left), FindNodeId(g.nodes, line.right);
      assert ConnectAll(g.adj, [Edge(a, b)]) == ConnectAll(Connect(g.adj, a, b), []);
    }
  }

  /** Connecting the edges of `a + b` connects those of `a`, then those of `b`. */
  lemma {:induction false} ConnectAllAppend(adj: AdjList, a: seq<Edge>, b: seq<Edge>)
    ensures ConnectAll(adj, a + b) == ConnectAll(ConnectAll(adj, a), b)
    decreases |a|
  {
    if a == [] {
      assert a + b == b;
    } else {
      assert (a + b)[0] == a[0] && (a + b)[1..] == a[1..] + b;
      ConnectAllAppend(Connect(adj, a[0].source, a[0].target), a[1..], b);
    }
  }

  /** After a first line that applies, the rest resolve exactly when all
      the lines resolve from `g`. */
  lemma FirstLinks(g: Graph, lines: seq<Line>, g': Graph)
    requires WellFormed(g) && lines != [] && Apply(g, lines[0]) == Success(g')
    ensures LinksResolve(Names(g'.nodes), lines[1..]) <==> LinksResolve(Names(g.nodes), lines)
  {
    assert lines[..1] == [lines[0]];
    LinksResolveSplit(Names(g.nodes), lines);
  }

  /** Nodes named after the first line, then the rest, are named after
      all the lines. */
  lemma FirstRooms(names: seq<string>, names': seq<string>, lines: seq<Line>)
    requires lines != [] && names' == names + RoomNames([lines[0]])
    ensures names' + RoomNames(lines[1..]) == names + RoomNames(lines)
  {
    var first := if lines[0].Link? then [] else [lines[0].name];
    assert RoomNames([lines[0]]) == first + RoomNames([]);
    assert RoomNames(lines) == first + RoomNames(lines[1..]);
  }

  /** After a first line that applies, a start or end room is known exactly
      when one was known from `g` and all the lines. */
  lemma FirstMarks(g: Graph, lines: seq<Line>, g': Graph)
    requires WellFormed(g) && lines != [] && Apply(g, lines[0]) == Success(g')
    ensures g'.startId != -1 || HasStart(lines[1..]) <==> g.startId != -1 || HasStart(lines)
    ensures g'.endId != -1 || HasEnd(lines[1..]) <==> g.endId != -1 || HasEnd(lines)
  {
    HasLineSplit(lines);
  }

  /** Whether `line` is a `##start` room (`start`) or an `##end` room (not `start`). */
  predicate Marks(line: Line, start: bool) {
    if start then line.StartRoom? else line.EndRoom?
  }

  /** Line `i` is the last line of `lines` marked start (or end). */
  ghost predicate LastMark(lines: seq<Line>, start: bool, i: int) {
    && 0 <= i < |lines| && Marks(lines[i], start)
    && forall j :: i < j < |lines| ==> !Marks(lines[j], start)
  }

  /** `id` is the id of the room on the last marked line, when rooms are
      numbered from `n` on in line order, and `before` when no line is
      marked: each mark overwrites the one before it. */
  ghost predicate MarkedId(n: int, before: int, lines: seq<Line>, start: bool, id: int) {
    && ((exists i :: 0 <= i < |lines| && Marks(lines[i], start)) ==>
          exists i :: LastMark(lines, start, i) && id == n + |RoomNames(lines[..i])|)
    && ((forall i :: 0 <= i < |lines| ==> !Marks(lines[i], start)) ==> id == before)
  }

  /** The id that the rest of the lines mark, after the first line has
      numbered its room and possibly set the id, is the id all the lines mark. */
  lemma FirstMarkId(n: int, n': int, before: int, before': int, lines: seq<Line>, start: bool, id: int)
    requires lines != [] && n' == n + |RoomNames([lines[0]])|
    requires before' == (if Marks(lines[0], start) then n else before)
    requires MarkedId(n', before', lines[1..], start, id)
    ensures MarkedId(n, before, lines, start, id)
  {
    var rest := lines[1..];
    if exists i :: 0 <= i < |rest| && Marks(rest[i], start) {
      var i' :| LastMark(rest, start, i') && id == n' + |RoomNames(rest[..i'])|;
      var i := i' + 1;
      assert lines[..i] == [lines[0]] + rest[..i'];
      RoomNamesAppend([lines[0]], rest[..i']);
      forall j | i < j < |lines|
        ensures !Marks(lines[j], start)
      {
        assert lines[j] == rest[j - 1];
      }
      assert LastMark(lines, start, i);
    } else if Marks(lines[0], start) {
      forall j | 0 < j < |lines|
        ensures !Marks(lines[j], start)
      {
        assert lines[j] == rest[j - 1];
      }
      assert LastMark(lines, start, 0);
      assert lines[..0] == [];
    } else {
      forall j | 0 <= j < |lines|
        ensures !Marks(lines[j], start)
      {
        if j > 0 {
          assert lines[j] == rest[j - 1];
        }
      }
    }
  }

  /** Extending a sequence that extends `s` extends `s`. */
  lemma PrefixTrans<T>(s: seq<T>, s': seq<T>, s2: seq<T>)
    requires |s'| >= |s| && s'[..|s|] == s
    requires |s2| >= |s'| && s2[..|s'|] == s'
    ensures |s2| >= |s| && s2[..|s|] == s
  {
    assert s2[..|s|] == s2[..|s'|][..|s|];
  }

  /** Feeds parsed lines into the graph in order (main.go:243-324); the
      first link with an unknown name aborts. */
  function BuildFrom(g: Graph, lines: seq<Line>): (r: Result<Graph, BuildError>)
    requires WellFormed(g)
    ensures r.Success? <==> LinksResolve(Names(g.nodes), lines)
    ensures r.Failure? ==> r.error == UnknownRoom
    ensures r.Success? ==> WellFormed(r.value)
    ensures r.Success? ==> Names(r.value.nodes) == Names(g.nodes) + RoomNames(lines)
    ensures r.Success? ==> (r.value.startId != -1 <==> g.startId != -1 || HasStart(lines))
    ensures r.Success? ==> (r.value.endId != -1 <==> g.endId != -1 || HasEnd(lines))
    ensures r.Success? ==> |r.value.nodes| >= |g.nodes| && r.value.nodes[..|g.nodes|] == g.nodes
    ensures r.Success? ==> MarkedId(|g.nodes|, g.startId, lines, true, r.value.startId)
    ensures r.Success? ==> MarkedId(|g.nodes|, g.endId, lines, false, r.value.endId)
    ensures r.Success? ==> r.value.edges == g.edges + LinkEdges(Names(g.nodes), lines)
    ensures r.Success? ==> r.value.adj == ConnectAll(g.adj, LinkEdges(Names(g.nodes), lines))
    ensures r.Success? ==> forall m, n ::
      multiset(Neighbors(r.value.adj, m))[n] == multiset(Neighbors(g.adj, m))[n] + Links(LinkEdges(Names(g.nodes), lines), m, n)
    decreases |lines|
  {
    ConnectAllCounts(g.adj, LinkEdges(Names(g.nodes), lines));
    if lines == [] then
      assert Names(g.nodes) + RoomNames(lines) == Names(g.nodes);
      assert g.edges + LinkEdges(Names(g.nodes), lines) == g.edges;
      Success(g)
    else
      match Apply(g, lines[0])
      case Failure(e) =>
        FirstFails(g, lines);
        Failure(e)
      case Success(g') =>
        var r := BuildFrom(g', lines[1..]);
        FirstApplies(g, lines, g', r);
        r
  }

  /** Builds the graph of a whole input (main.go:242-335, without the text
      parsing). It fails on the first link with an unknown room name, and
      otherwise when the `##start` or `##end` room is missing. */
  function Build(lines: seq<Line>): (r: Result<Graph, BuildError>)
    ensures r.Success? <==> LinksResolve([], lines) && HasStart(lines) && HasEnd(lines)
    ensures r == Failure(UnknownRoom) <==> !LinksResolve([], lines)
    ensures r.Success? ==> WellFormed(r.value) && Names(r.value.nodes) == RoomNames(lines)
    ensures r.Success? ==> ValidId(r.value, r.value.startId) && ValidId(r.value, r.value.endId)
    ensures r.Success? ==> r.value.startId != r.value.endId
    ensures r == Failure(MissingStartOrEnd) ==> !HasStart(lines) || !HasEnd(lines)
    ensures r.Success? ==> exists i :: LastMark(lines, true, i) && r.value.startId == |RoomNames(lines[..i])|
    ensures r.Success? ==> exists i :: LastMark(lines, false, i) && r.value.endId == |RoomNames(lines[..i])|
    ensures r.Success? ==> r.value.edges == LinkEdges([], lines)
    ensures r.Success? ==> forall m, n :: multiset(Neighbors(r.value.adj, m))[n] == Links(LinkEdges([], lines), m, n)
  {
    assert Names([]) == [];
    assert [] + LinkEdges([], lines) == LinkEdges([], lines);
    assert forall m :: Neighbors(map[], m) == [];
    match BuildFrom(EmptyGraph(), lines)
    case Failure(e) => Failure(e)
    case Success(g) =>
      if g.startId == -1 || g.endId == -1 then Failure(MissingStartOrEnd) else Success(g)
  }
}
