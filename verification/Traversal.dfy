/** The bounded breadth-first search behind blast-radius queries
    (packages/pathways/traversal.py): a pure account of the search, and the
    imperative search that refines it. */
module Traversal {
  import opened Ordering

  datatype DataStatus = Complete | Partial | Stale | Other(name: string)

  datatype Node = Node(
    id: string, confidence: real, coverage: set<string>, refs: set<string>, status: DataStatus)

  datatype Edge = Edge(
    id: string, source: string, destination: string, relationship: string,
    confidence: real, coverage: set<string>, refs: set<string>, status: DataStatus)

  datatype Direction = Downstream | Upstream | Both

  datatype Relation = AtAnchor | ViaDownstream | ViaUpstream

  datatype Request = Request(
    anchor: string, direction: Direction, maxHops: nat, maxNodes: nat, maxEdges: nat, maxPaths: nat)

  predicate ValidRequest(r: Request) {
    1 <= r.maxHops <= 8 && 1 <= r.maxNodes <= 500 && 1 <= r.maxEdges <= 1000 && 1 <= r.maxPaths <= 500
  }

  datatype Reason = MaxHops | MaxNodes | MaxEdges | MaxPaths

  /** One way to leave a node: the edge, the node it leads to, and the sense in which it is crossed. */
  datatype Entry = Entry(edge: Edge, target: string, relation: Relation)

  /** A reported path. Confidence is kept exact; display rounding is not modelled. */
  datatype Item = Item(
    entity: string, distance: nat, relation: Relation, path: seq<string>,
    confidence: real, coverage: set<string>, refs: set<string>, status: DataStatus)

  /** Nodes by id and the distinct edges in canonical order. */
  datatype Graph = Graph(nodes: map<string, Node>, edges: seq<Edge>)

  // ----- Building the graph -----

  /** A dictionary keyed by id: a later node with the same id replaces an earlier one. */
  function NodeMap(nodes: seq<Node>): map<string, Node> {
    if nodes == [] then map[]
    else NodeMap(nodes[..|nodes| - 1])[nodes[|nodes| - 1].id := nodes[|nodes| - 1]]
  }

  function EdgeIds(edges: seq<Edge>): (ids: seq<string>)
    ensures |ids| == |edges|
    ensures forall i :: 0 <= i < |edges| ==> ids[i] == edges[i].id
  {
    seq(|edges|, i requires 0 <= i < |edges| => edges[i].id)
  }

  function NodeIds(nodes: seq<Node>): (ids: seq<string>)
    ensures |ids| == |nodes|
    ensures forall i :: 0 <= i < |nodes| ==> ids[i] == nodes[i].id
  {
    seq(|nodes|, i requires 0 <= i < |nodes| => nodes[i].id)
  }

  /** Keeps the last edge of every id. */
  function LastById(edges: seq<Edge>): seq<Edge> {
    if edges == [] then []
    else if edges[0].id in EdgeIds(edges[1..]) then LastById(edges[1..])
    else [edges[0]] + LastById(edges[1..])
  }

  /** The key (source, destination, relationship, id). */
  predicate EdgeLeq(a: Edge, b: Edge) {
    if a.source != b.source then StrLeq(a.source, b.source)
    else if a.destination != b.destination then StrLeq(a.destination, b.destination)
    else if a.relationship != b.relationship then StrLeq(a.relationship, b.relationship)
    else StrLeq(a.id, b.id)
  }

  function RelationRank(r: Relation): nat {
    match r case AtAnchor => 0 case ViaDownstream => 1 case ViaUpstream => 2
  }

  /** The key (target, edge id, relation). */
  predicate EntryLeq(a: Entry, b: Entry) {
    if a.target != b.target then StrLeq(a.target, b.target)
    else if a.edge.id != b.edge.id then StrLeq(a.edge.id, b.edge.id)
    else RelationRank(a.relation) <= RelationRank(b.relation)
  }

  function BuildGraph(nodes: seq<Node>, edges: seq<Edge>): Graph {
    Graph(NodeMap(nodes), Sort(LastById(edges), EdgeLeq))
  }

  /** The entries one edge contributes to the adjacency list of node `n`. */
  function EdgeEntries(e: Edge, dir: Direction, n: string): seq<Entry> {
    (if dir != Upstream && e.source == n then [Entry(e, e.destination, ViaDownstream)] else []) +
    (if dir != Downstream && e.destination == n then [Entry(e, e.source, ViaUpstream)] else [])
  }

  function Adjacency(edges: seq<Edge>, dir: Direction, n: string): seq<Entry> {
    if edges == [] then []
    else Adjacency(edges[..|edges| - 1], dir, n) + EdgeEntries(edges[|edges| - 1], dir, n)
  }

  function Neighbours(g: Graph, dir: Direction, n: string): seq<Entry> {
    Sort(Adjacency(g.edges, dir, n), EntryLeq)
  }

  /** A node that only edges mention is reported as unknown evidence. */
  function NodeOf(g: Graph, id: string): Node {
    if id in g.nodes then g.nodes[id] else Node(id, 0.0, {}, {}, Partial)
  }

  // ----- The search -----

  /** `found` lists every discovered item in order of discovery. Items before `next`
      have been reported, the others are waiting in the queue. */
  datatype State = State(
    found: seq<Item>, next: nat, visited: set<string>, used: set<string>, reasons: set<Reason>, halted: bool)

  function Min(a: real, b: real): real { if a <= b then a else b }

  function JoinStatus(a: DataStatus, b: DataStatus, c: DataStatus): DataStatus {
    if Stale in {a, b, c} then Stale else if Partial in {a, b, c} then Partial else Complete
  }

  function AnchorItem(anchor: string): Item {
    Item(anchor, 0, AtAnchor, [anchor], 1.0, {}, {}, Complete)
  }

  function Extend(g: Graph, from: Item, e: Entry): Item {
    var n := NodeOf(g, e.target);
    Item(e.target, from.distance + 1, e.relation, from.path + [e.target],
         Min(from.confidence, Min(e.edge.confidence, n.confidence)),
         from.coverage + e.edge.coverage + n.coverage,
         from.refs + e.edge.refs + n.refs,
         JoinStatus(from.status, e.edge.status, n.status))
  }

  function Initial(anchor: string): State {
    State([AnchorItem(anchor)], 0, {anchor}, {}, {}, false)
  }

  /** One entry of the adjacency list of `from`. */
  function Visit(g: Graph, r: Request, from: Item, e: Entry, s: State): (t: State)
    ensures s.found <= t.found && t.next == s.next && t.halted == s.halted
  {
    if e.edge.id !in s.used && |s.used| >= r.maxEdges then s.(reasons := s.reasons + {MaxEdges})
    else
      var s1 := s.(used := s.used + {e.edge.id});
      if e.target in s.visited then s1
      else if |s.visited| >= r.maxNodes then s1.(reasons := s.reasons + {MaxNodes})
      else s1.(visited := s.visited + {e.target}, found := s.found + [Extend(g, from, e)])
  }

  function VisitAll(g: Graph, r: Request, from: Item, es: seq<Entry>, s: State): (t: State)
    ensures s.found <= t.found && t.next == s.next && t.halted == s.halted
  {
    if es == [] then s
    else Visit(g, r, from, es[|es| - 1], VisitAll(g, r, from, es[..|es| - 1], s))
  }

  predicate Finished(s: State) { s.halted || s.next >= |s.found| }

  /** Report the item at the head of the queue and expand it. */
  function Step(g: Graph, r: Request, s: State): (t: State)
    requires !Finished(s)
    ensures t.next == s.next + 1 <= |t.found|
    ensures t.halted <==> t.next >= r.maxPaths
  {
    var cur := s.found[s.next];
    var s1 := s.(next := s.next + 1);
    var ns := Neighbours(g, r.direction, cur.entity);
    if s1.next >= r.maxPaths then
      s1.(halted := true, reasons := if s1.next < |s.found| || ns != [] then s.reasons + {MaxPaths} else s.reasons)
    else if cur.distance >= r.maxHops then
      s1.(reasons := if ns != [] then s.reasons + {MaxHops} else s.reasons)
    else
      VisitAll(g, r, cur, ns, s1)
  }

  function Run(g: Graph, r: Request, s: State): (t: State)
    requires s.next <= |s.found| && (s.halted || s.next < r.maxPaths)
    ensures Finished(t) && t.next <= |t.found|
    decreases r.maxPaths - s.next
  {
    if Finished(s) then s else Run(g, r, Step(g, r, s))
  }

  datatype Result = Result(
    paths: seq<Item>, truncated: bool, reasons: set<Reason>, excludedNodes: nat, excludedEdges: nat)

  function NonNegative(k: int): nat { if k < 0 then 0 else k }

  function Report(g: Graph, s: State): Result
    requires s.next <= |s.found|
  {
    Result(s.found[..s.next], s.reasons != {}, s.reasons,
           if s.reasons * {MaxNodes, MaxPaths, MaxHops} != {} then NonNegative(|g.nodes| - |s.visited|) else 0,
           if s.reasons != {} then NonNegative(|g.edges| - |s.used|) else 0)
  }

  /** The whole query: nothing is reported about an anchor that is not a known node. */
  function Traversed(nodes: seq<Node>, edges: seq<Edge>, r: Request): Result
    requires ValidRequest(r)
  {
    var g := BuildGraph(nodes, edges);
    if r.anchor !in g.nodes then Result([], false, {}, 0, 0)
    else Report(g, Run(g, r, Initial(r.anchor)))
  }

  // ----- The imperative search -----

  function At(adjacent: map<string, seq<Entry>>, n: string): seq<Entry> {
    if n in adjacent then adjacent[n] else []
  }

  function Append(adjacent: map<string, seq<Entry>>, n: string, e: Entry): map<string, seq<Entry>> {
    adjacent[n := At(adjacent, n) + [e]]
  }

  function AddEdge(adjacent: map<string, seq<Entry>>, e: Edge, dir: Direction): map<string, seq<Entry>> {
    var a := if dir != Upstream then Append(adjacent, e.source, Entry(e, e.destination, ViaDownstream)) else adjacent;
    if dir != Downstream then Append(a, e.destination, Entry(e, e.source, ViaUpstream)) else a
  }

  lemma AddEdgeEntries(adjacent: map<string, seq<Entry>>, e: Edge, dir: Direction, n: string)
    ensures At(AddEdge(adjacent, e, dir), n) == At(adjacent, n) + EdgeEntries(e, dir, n)
  {}

  /** The adjacency lists, filled edge by edge. */
  method BuildAdjacent(ordered: seq<Edge>, dir: Direction) returns (adjacent: map<string, seq<Entry>>)
    ensures forall n :: At(adjacent, n) == Adjacency(ordered, dir, n)
  {
    adjacent := map[];
    for i := 0 to |ordered|
      invariant forall n :: At(adjacent, n) == Adjacency(ordered[..i], dir, n)
    {
      assert ordered[..i + 1][..i] == ordered[..i];
      forall n ensures At(AddEdge(adjacent, ordered[i], dir), n) == Adjacency(ordered[..i + 1], dir, n) {
        AddEdgeEntries(adjacent, ordered[i], dir, n);
      }
      adjacent := AddEdge(adjacent, ordered[i], dir);
    }
    assert ordered[..|ordered|] == ordered;
  }

  /** The inner loop: follow the links of the item just reported. */
  method Expand(g: Graph, r: Request, current: Item, neighbours: seq<Entry>, ghost paths: seq<Item>,
                queue0: seq<Item>, visited0: set<string>, used0: set<string>, reasons0: set<Reason>)
    returns (queue: seq<Item>, visited: set<string>, used: set<string>, reasons: set<Reason>)
    ensures State(paths + queue, |paths|, visited, used, reasons, false) ==
            VisitAll(g, r, current, neighbours, State(paths + queue0, |paths|, visited0, used0, reasons0, false))
  {
    queue, visited, used, reasons := queue0, visited0, used0, reasons0;
    ghost var s := State(paths + queue0, |paths|, visited0, used0, reasons0, false);
    for j := 0 to |neighbours|
      invariant State(paths + queue, |paths|, visited, used, reasons, false) ==
                VisitAll(g, r, current, neighbours[..j], s)
    {
      var e := neighbours[j];
      assert neighbours[..j + 1][..j] == neighbours[..j];
      if e.edge.id !in used && |used| >= r.maxEdges {
        reasons := reasons + {MaxEdges};
      } else {
        used := used + {e.edge.id};
        if e.target !in visited {
          if |visited| >= r.maxNodes {
            reasons := reasons + {MaxNodes};
          } else {
            visited := visited + {e.target};
            assert paths + (queue + [Extend(g, current, e)]) == paths + queue + [Extend(g, current, e)];
            queue := queue + [Extend(g, current, e)];
          }
        }
      }
    }
    assert neighbours[..|neighbours|] == neighbours;
  }

  /** One turn of the outer loop: report the head of the queue, then apply the path and hop caps. */
  method Advance(g: Graph, r: Request, adjacent: map<string, seq<Entry>>, paths0: seq<Item>,
                 queue0: seq<Item>, visited0: set<string>, used0: set<string>, reasons0: set<Reason>)
    returns (paths: seq<Item>, queue: seq<Item>, visited: set<string>, used: set<string>,
             reasons: set<Reason>, halted: bool)
    requires queue0 != []
    requires At(adjacent, queue0[0].entity) == Adjacency(g.edges, r.direction, queue0[0].entity)
    ensures State(paths + queue, |paths|, visited, used, reasons, halted) ==
            Step(g, r, State(paths0 + queue0, |paths0|, visited0, used0, reasons0, false))
  {
    var current := queue0[0];
    queue, paths := queue0[1..], paths0 + [current];
    visited, used, reasons, halted := visited0, used0, reasons0, false;
    assert paths + queue == paths0 + queue0;
    if |paths| >= r.maxPaths {
      SortLength(At(adjacent, current.entity), EntryLeq);
      if queue != [] || At(adjacent, current.entity) != [] {
        reasons := reasons + {MaxPaths};
      }
      halted := true;
    } else {
      var neighbours := Sort(At(adjacent, current.entity), EntryLeq);
      if current.distance >= r.maxHops {
        if neighbours != [] {
          reasons := reasons + {MaxHops};
        }
      } else {
        queue, visited, used, reasons := Expand(g, r, current, neighbours, paths, queue, visited, used, reasons);
      }
    }
  }

  /** The search as the program runs it: a queue, a growing list of paths, and the caps. */
  method Traverse(nodes: seq<Node>, edges: seq<Edge>, r: Request) returns (result: Result)
    requires ValidRequest(r)
    ensures result == Traversed(nodes, edges, r)
  {
    var g := BuildGraph(nodes, edges);
    if r.anchor !in g.nodes {
      return Result([], false, {}, 0, 0);
    }
    var adjacent := BuildAdjacent(g.edges, r.direction);
    var queue, paths := [AnchorItem(r.anchor)], [];
    var visited, used, reasons: set<Reason>, halted := {r.anchor}, {}, {}, false;
    assert paths + queue == [AnchorItem(r.anchor)];
    while queue != [] && !halted
      invariant halted || |paths| < r.maxPaths
      invariant Run(g, r, State(paths + queue, |paths|, visited, used, reasons, halted)) ==
                Run(g, r, Initial(r.anchor))
      decreases !halted, r.maxPaths - |paths|
    {
      paths, queue, visited, used, reasons, halted :=
        Advance(g, r, adjacent, paths, queue, visited, used, reasons);
    }
    assert (paths + queue)[..|paths|] == paths;
    result := Result(paths, reasons != {}, reasons,
      if reasons * {MaxNodes, MaxPaths, MaxHops} != {} then NonNegative(|g.nodes| - |visited|) else 0,
      if reasons != {} then NonNegative(|g.edges| - |used|) else 0);
  }
}
