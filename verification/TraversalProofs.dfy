/** What the bounded search reports, measured against walks in the whole graph. */
module TraversalProofs {
  import opened Ordering
  import opened Traversal

  // ----- Reference notions: links, walks, distances -----

  ghost predicate Crosses(e: Edge, dir: Direction, u: string, v: string) {
    || (dir != Upstream && e.source == u && e.destination == v)
    || (dir != Downstream && e.destination == u && e.source == v)
  }

  ghost predicate Linked(g: Graph, dir: Direction, u: string, v: string) {
    exists e :: e in g.edges && Crosses(e, dir, u, v)
  }

  /** A walk from `a`: any sequence of nodes in which consecutive nodes are linked. */
  ghost predicate IsWalk(g: Graph, dir: Direction, a: string, w: seq<string>) {
    && |w| > 0 && w[0] == a
    && forall i :: 0 <= i < |w| - 1 ==> Linked(g, dir, w[i], w[i + 1])
  }

  ghost predicate WalkTo(g: Graph, dir: Direction, a: string, v: string, w: seq<string>) {
    IsWalk(g, dir, a, w) && w[|w| - 1] == v
  }

  /** `k` is the length in hops of a shortest walk from `a` to `v`. */
  ghost predicate ShortestDistance(g: Graph, dir: Direction, a: string, v: string, k: nat) {
    && (exists w :: WalkTo(g, dir, a, v, w) && |w| == k + 1)
    && (forall w :: WalkTo(g, dir, a, v, w) ==> |w| >= k + 1)
  }

  ghost predicate Reachable(g: Graph, dir: Direction, a: string, v: string) {
    exists w :: WalkTo(g, dir, a, v, w)
  }

  ghost predicate ReachableWithin(g: Graph, dir: Direction, a: string, v: string, k: nat) {
    exists w :: WalkTo(g, dir, a, v, w) && |w| <= k + 1
  }

  ghost predicate UniqueIds(edges: seq<Edge>) {
    forall e, f :: e in edges && f in edges && e.id == f.id ==> e == f
  }

  // ----- Orders and adjacency -----

  lemma EntryOrder()
    ensures Total(EntryLeq)
  {
    StrOrder();
    forall a, b ensures EntryLeq(a, b) || EntryLeq(b, a) {}
    forall a, b, c | EntryLeq(a, b) && EntryLeq(b, c) ensures EntryLeq(a, c) {}
  }

  lemma EdgeOrder()
    ensures Total(EdgeLeq)
    ensures forall a, b :: EdgeLeq(a, b) && EdgeLeq(b, a) ==> a.id == b.id
  {
    StrOrder();
    forall a, b ensures EdgeLeq(a, b) || EdgeLeq(b, a) {}
    forall a, b, c | EdgeLeq(a, b) && EdgeLeq(b, c) ensures EdgeLeq(a, c) {}
  }

  lemma {:induction false} AdjacencyExact(edges: seq<Edge>, dir: Direction, n: string)
    ensures forall x :: x in Adjacency(edges, dir, n) ==>
              x.edge in edges && Crosses(x.edge, dir, n, x.target) && Directed(x, n)
    ensures forall e, v :: e in edges && Crosses(e, dir, n, v) ==>
              exists x :: x in Adjacency(edges, dir, n) && x.edge == e && x.target == v
  {
    if edges != [] {
      var rest, last := edges[..|edges| - 1], edges[|edges| - 1];
      AdjacencyExact(rest, dir, n);
      assert edges == rest + [last];
      forall e, v | e in edges && Crosses(e, dir, n, v)
        ensures exists x :: x in Adjacency(edges, dir, n) && x.edge == e && x.target == v
      {
        if e == last {
          var x := if dir != Upstream && e.source == n && e.destination == v
                   then Entry(e, v, ViaDownstream) else Entry(e, v, ViaUpstream);
          assert x in EdgeEntries(last, dir, n);
        } else {
          var x :| x in Adjacency(rest, dir, n) && x.edge == e && x.target == v;
          assert x in Adjacency(edges, dir, n);
        }
      }
    }
  }

  /** The adjacency list of a node holds exactly its links. */
  lemma NeighboursExact(g: Graph, dir: Direction, n: string)
    ensures forall x :: x in Neighbours(g, dir, n) ==>
              x.edge in g.edges && Crosses(x.edge, dir, n, x.target) && Directed(x, n)
    ensures forall v :: Linked(g, dir, n, v) ==> exists x :: x in Neighbours(g, dir, n) && x.target == v
  {
    EntryOrder();
    AdjacencyExact(g.edges, dir, n);
    var adj := Adjacency(g.edges, dir, n);
    SortCorrect(adj, EntryLeq);
    MembersOfPermutation(adj, Sort(adj, EntryLeq));
    forall v | Linked(g, dir, n, v) ensures exists x :: x in Neighbours(g, dir, n) && x.target == v {
      var e :| e in g.edges && Crosses(e, dir, n, v);
      var x :| x in adj && x.edge == e && x.target == v;
      assert x in Neighbours(g, dir, n);
    }
  }

  // ----- The evidence carried along one path -----

  /** One hop of a path: the edge crossed and the node it arrives at. */
  datatype Hop = Hop(edge: Edge, node: Node)

  ghost predicate HopChain(g: Graph, dir: Direction, path: seq<string>, hops: seq<Hop>) {
    && |path| == |hops| + 1
    && forall i :: 0 <= i < |hops| ==>
         && hops[i].edge in g.edges && Crosses(hops[i].edge, dir, path[i], path[i + 1])
         && hops[i].node == NodeOf(g, path[i + 1])
  }

  ghost predicate LeastConfidence(hops: seq<Hop>, c: real) {
    && c <= 1.0
    && (forall h :: h in hops ==> c <= Min(h.edge.confidence, h.node.confidence))
    && (c == 1.0 || exists h :: h in hops && c == Min(h.edge.confidence, h.node.confidence))
  }

  ghost predicate HasStatus(hops: seq<Hop>, st: DataStatus) {
    exists h :: h in hops && st in {h.edge.status, h.node.status}
  }

  /** `item` is the path through `hops`: its confidence is the least on the way (and at most 1),
      its coverage and references are those met on the way, and its status is stale if anything
      on the way is, otherwise partial if anything is, otherwise complete. The anchor's own
      evidence does not take part. */
  ghost predicate Evidence(g: Graph, dir: Direction, item: Item, hops: seq<Hop>) {
    && |hops| == item.distance
    && HopChain(g, dir, item.path, hops)
    && LeastConfidence(hops, item.confidence)
    && (forall c :: c in item.coverage <==> exists h :: h in hops && c in h.edge.coverage + h.node.coverage)
    && (forall c :: c in item.refs <==> exists h :: h in hops && c in h.edge.refs + h.node.refs)
    && item.status == (if HasStatus(hops, Stale) then Stale
                       else if HasStatus(hops, Partial) then Partial else Complete)
    && (item.distance == 0 <==> item.relation == AtAnchor)
    && (item.relation == ViaDownstream ==> Arrives(hops, item.path, false))
    && (item.relation == ViaUpstream ==> Arrives(hops, item.path, true))
  }

  /** The last hop follows its edge forwards, or against its sense. */
  ghost predicate Arrives(hops: seq<Hop>, path: seq<string>, against: bool) {
    && |hops| > 0 && |path| == |hops| + 1
    && var e := hops[|hops| - 1].edge;
       var from, to := path[|hops| - 1], path[|hops|];
       if against then e.destination == from && e.source == to else e.source == from && e.destination == to
  }

  ghost predicate Directed(e: Entry, from: string) {
    || (e.relation == ViaDownstream && e.edge.source == from && e.edge.destination == e.target)
    || (e.relation == ViaUpstream && e.edge.destination == from && e.edge.source == e.target)
  }

  lemma ChainOfHops(g: Graph, dir: Direction, path: seq<string>, hops: seq<Hop>, h: Hop, v: string)
    requires HopChain(g, dir, path, hops) && h.edge in g.edges && h.node == NodeOf(g, v)
    requires Crosses(h.edge, dir, path[|path| - 1], v)
    ensures HopChain(g, dir, path + [v], hops + [h])
  {}

  lemma LeastOfHops(hops: seq<Hop>, h: Hop, c: real)
    requires LeastConfidence(hops, c)
    ensures LeastConfidence(hops + [h], Min(c, Min(h.edge.confidence, h.node.confidence)))
  {
    var m := Min(h.edge.confidence, h.node.confidence);
    if c <= m {
      if c != 1.0 {
        var x :| x in hops && c == Min(x.edge.confidence, x.node.confidence);
        assert x in hops + [h];
      }
    } else {
      assert h in hops + [h];
    }
  }

  lemma StatusOfHops(hops: seq<Hop>, h: Hop, st: DataStatus)
    ensures HasStatus(hops + [h], st) <==> HasStatus(hops, st) || st in {h.edge.status, h.node.status}
  {
    assert h in hops + [h] && forall x :: x in hops + [h] <==> x in hops || x == h;
  }

  lemma EvidenceExtends(g: Graph, dir: Direction, from: Item, hops: seq<Hop>, e: Entry)
    requires Evidence(g, dir, from, hops)
    requires e.edge in g.edges && Crosses(e.edge, dir, from.path[|from.path| - 1], e.target)
    requires Directed(e, from.path[|from.path| - 1])
    ensures Evidence(g, dir, Extend(g, from, e), hops + [Hop(e.edge, NodeOf(g, e.target))])
  {
    var h := Hop(e.edge, NodeOf(g, e.target));
    var hops' := hops + [h];
    assert h in hops' && forall x :: x in hops' <==> x in hops || x == h;
    StatusOfHops(hops, h, Stale);
    StatusOfHops(hops, h, Partial);
    LeastOfHops(hops, h, from.confidence);
    ChainOfHops(g, dir, from.path, hops, h, e.target);
  }

  ghost predicate Evidenced(g: Graph, dir: Direction, item: Item) {
    exists hops :: Evidence(g, dir, item, hops)
  }

  lemma EvidencedNext(g: Graph, dir: Direction, from: Item, e: Entry)
    requires Evidenced(g, dir, from)
    requires |from.path| > 0 && e.edge in g.edges && Crosses(e.edge, dir, from.path[|from.path| - 1], e.target)
    requires Directed(e, from.path[|from.path| - 1])
    ensures Evidenced(g, dir, Extend(g, from, e))
  {
    var hops :| Evidence(g, dir, from, hops);
    EvidenceExtends(g, dir, from, hops, e);
  }

  /** A simple walk from the anchor to the reported entity, with its evidence. */
  ghost predicate ItemOk(g: Graph, r: Request, item: Item) {
    && |item.path| == item.distance + 1
    && WalkTo(g, r.direction, r.anchor, item.entity, item.path)
    && Distinct(item.path)
    && Evidenced(g, r.direction, item)
  }

  // ----- The invariant of the search -----

  ghost predicate Reached(found: seq<Item>, v: string, k: int) {
    exists i :: 0 <= i < |found| && found[i].entity == v && found[i].distance <= k
  }

  ghost predicate Minimal(g: Graph, r: Request, item: Item) {
    forall w :: WalkTo(g, r.direction, r.anchor, item.entity, w) ==> |w| >= item.distance + 1
  }

  /** The visited nodes are the entities of the discovered items, one item each. */
  ghost predicate OnePerEntity(found: seq<Item>, visited: set<string>) {
    && (forall i :: 0 <= i < |found| ==> found[i].entity in visited)
    && (forall v :: v in visited ==> exists i :: 0 <= i < |found| && found[i].entity == v)
    && (forall i, j :: 0 <= i < j < |found| ==> found[i].entity != found[j].entity)
  }

  /** Discovered items are simple walks through visited nodes, each as short as possible. */
  ghost predicate ItemsOk(g: Graph, r: Request, found: seq<Item>, visited: set<string>) {
    forall i :: 0 <= i < |found| ==>
      ItemOk(g, r, found[i]) && Minimal(g, r, found[i]) && (forall n :: n in found[i].path ==> n in visited)
  }

  ghost predicate Discovered(g: Graph, r: Request, s: State) {
    && |s.found| > 0 && s.next <= |s.found| && s.found[0] == AnchorItem(r.anchor)
    && OnePerEntity(s.found, s.visited)
    && ItemsOk(g, r, s.found, s.visited)
  }

  /** The queue is ordered by distance and spans at most two layers. */
  ghost predicate Layered(r: Request, found: seq<Item>, done: nat) {
    && (forall i, j :: 0 <= i < j < |found| ==> found[i].distance <= found[j].distance)
    && (forall j :: 0 <= j < |found| ==> found[j].distance <= r.maxHops)
    && (done < |found| ==> forall j :: 0 <= j < |found| ==> found[j].distance <= found[done].distance + 1)
  }

  /** What the caps and the reasons say about each other, and about crossed edges. */
  ghost predicate Capped(g: Graph, r: Request, s: State) {
    && |s.visited| <= r.maxNodes && |s.used| <= r.maxEdges
    && (MaxNodes in s.reasons ==> |s.visited| >= r.maxNodes)
    && (MaxEdges in s.reasons ==> |s.used| >= r.maxEdges)
    && UsedInside(g, r, s.visited, s.used)
  }

  ghost predicate UsedInside(g: Graph, r: Request, visited: set<string>, used: set<string>) {
    forall e :: e in g.edges && e.id in used && |visited| < r.maxNodes ==>
      e.source in visited && e.destination in visited
  }

  ghost predicate Refused(s: State) { MaxNodes in s.reasons || MaxEdges in s.reasons }

  ghost predicate LinksFound(g: Graph, r: Request, found: seq<Item>, i: nat)
    requires i < |found|
  {
    forall v :: Linked(g, r.direction, found[i].entity, v) ==> Reached(found, v, found[i].distance + 1)
  }

  /** The first `done` items within the hop limit have all their links discovered. */
  ghost predicate InnerExpanded(g: Graph, r: Request, found: seq<Item>, done: nat)
    requires done <= |found|
  {
    forall i :: 0 <= i < done && found[i].distance < r.maxHops ==> LinksFound(g, r, found, i)
  }

  /** The first `done` items at the hop limit have no links. */
  ghost predicate OuterBare(g: Graph, r: Request, found: seq<Item>, done: nat)
    requires done <= |found|
  {
    forall i, v :: 0 <= i < done && found[i].distance >= r.maxHops ==> !Linked(g, r.direction, found[i].entity, v)
  }

  ghost predicate Expanded(g: Graph, r: Request, s: State, done: nat)
    requires done <= |s.found|
  {
    && (!Refused(s) ==> InnerExpanded(g, r, s.found, done))
    && (MaxHops !in s.reasons ==> OuterBare(g, r, s.found, done))
  }

  // ----- Each step keeps the invariant -----

  ghost predicate Inv(g: Graph, r: Request, s: State, done: nat) {
    && UniqueIds(g.edges)
    && Discovered(g, r, s) && Layered(r, s.found, done) && Capped(g, r, s)
    && done <= |s.found| && Expanded(g, r, s, done)
  }

  /** `e` is one way to leave `from`. */
  ghost predicate Leaves(g: Graph, r: Request, from: Item, e: Entry) {
    e.edge in g.edges && Crosses(e.edge, r.direction, from.entity, e.target) && Directed(e, from.entity)
  }

  /** When the links of every item nearer than `k` are found, so is every walk of at most `k` hops. */
  lemma {:induction false} WalkCovered(g: Graph, r: Request, found: seq<Item>, k: nat, w: seq<string>)
    requires |found| > 0 && found[0] == AnchorItem(r.anchor)
    requires forall i :: 0 <= i < |found| && found[i].distance < k ==> LinksFound(g, r, found, i)
    requires IsWalk(g, r.direction, r.anchor, w) && |w| - 1 <= k
    ensures Reached(found, w[|w| - 1], |w| - 1)
  {
    if |w| == 1 {
      assert found[0].entity == r.anchor && found[0].distance == 0;
    } else {
      var w' := w[..|w| - 1];
      WalkCovered(g, r, found, k, w');
      var i :| 0 <= i < |found| && found[i].entity == w'[|w'| - 1] && found[i].distance <= |w'| - 1;
      assert Linked(g, r.direction, w[|w| - 2], w[|w| - 1]);
      assert LinksFound(g, r, found, i);
      ReachedLater(found, w[|w| - 1], found[i].distance + 1, |w| - 1);
    }
  }

  lemma ReachedLater(found: seq<Item>, v: string, k: int, l: int)
    requires Reached(found, v, k) && k <= l
    ensures Reached(found, v, l)
  {
    var i :| 0 <= i < |found| && found[i].entity == v && found[i].distance <= k;
    assert found[i].entity == v;
  }

  /** A node is discovered only while nothing has been refused: afterwards an edge that may
      still be crossed is one already used, and it leads to a visited node. */
  lemma DiscoveryUnrefused(g: Graph, r: Request, s: State, e: Entry, from: Item)
    requires Capped(g, r, s) && Leaves(g, r, from, e)
    requires Visit(g, r, from, e, s).found != s.found
    ensures !Refused(s) && e.target !in s.visited
  {}

  lemma NewItemOk(g: Graph, r: Request, from: Item, e: Entry, visited: set<string>)
    requires ItemOk(g, r, from) && (forall n :: n in from.path ==> n in visited) && e.target !in visited
    requires Leaves(g, r, from, e)
    ensures ItemOk(g, r, Extend(g, from, e))
  {
    EvidencedNext(g, r.direction, from, e);
    assert Linked(g, r.direction, from.entity, e.target);
    WalkExtends(g, r.direction, r.anchor, from.path, e.target);
    StaysSimple(from.path, visited, e.target);
  }

  lemma StaysSimple(path: seq<string>, visited: set<string>, v: string)
    requires Distinct(path) && (forall n :: n in path ==> n in visited) && v !in visited
    ensures Distinct(path + [v])
  {}

  lemma WalkExtends(g: Graph, dir: Direction, a: string, w: seq<string>, v: string)
    requires IsWalk(g, dir, a, w) && Linked(g, dir, w[|w| - 1], v)
    ensures WalkTo(g, dir, a, v, w + [v])
  {
    var w' := w + [v];
    forall i | 0 <= i < |w'| - 1 ensures Linked(g, dir, w'[i], w'[i + 1]) {
      if i < |w| - 1 { assert Linked(g, dir, w[i], w[i + 1]); }
    }
  }

  lemma LowerLayersExpanded(g: Graph, r: Request, found: seq<Item>, done: nat)
    requires done < |found| && Layered(r, found, done) && InnerExpanded(g, r, found, done)
    ensures forall i :: 0 <= i < |found| && found[i].distance < found[done].distance ==> LinksFound(g, r, found, i)
  {}

  lemma NewItemMinimal(g: Graph, r: Request, s: State, done: nat, e: Entry)
    requires done < |s.found| && s.found[0] == AnchorItem(r.anchor) && OnePerEntity(s.found, s.visited)
    requires Layered(r, s.found, done) && InnerExpanded(g, r, s.found, done) && e.target !in s.visited
    ensures Minimal(g, r, Extend(g, s.found[done], e))
  {
    LowerLayersExpanded(g, r, s.found, done);
    forall w | WalkTo(g, r.direction, r.anchor, e.target, w) ensures |w| >= s.found[done].distance + 2 {
      if |w| <= s.found[done].distance + 1 {
        WalkCovered(g, r, s.found, s.found[done].distance, w);
        assert false;
      }
    }
  }

  lemma OneMoreEntity(found: seq<Item>, visited: set<string>, item: Item)
    requires OnePerEntity(found, visited) && item.entity !in visited
    ensures OnePerEntity(found + [item], visited + {item.entity})
  {
    var more, wider := found + [item], visited + {item.entity};
    forall v | v in wider ensures exists i :: 0 <= i < |more| && more[i].entity == v {
      if v in visited {
        var i :| 0 <= i < |found| && found[i].entity == v;
        assert more[i].entity == v;
      } else {
        assert more[|found|].entity == v;
      }
    }
  }

  lemma PathVisited(g: Graph, from: Item, e: Entry, visited: set<string>)
    requires forall n :: n in from.path ==> n in visited
    ensures forall n :: n in Extend(g, from, e).path ==> n in visited + {e.target}
  {}

  lemma OneMoreItem(g: Graph, r: Request, found: seq<Item>, visited: set<string>, item: Item, v: string)
    requires ItemsOk(g, r, found, visited)
    requires ItemOk(g, r, item) && Minimal(g, r, item) && (forall n :: n in item.path ==> n in visited + {v})
    ensures ItemsOk(g, r, found + [item], visited + {v})
  {
    var more := found + [item];
    forall i | 0 <= i < |more|
      ensures ItemOk(g, r, more[i]) && Minimal(g, r, more[i]) && (forall n :: n in more[i].path ==> n in visited + {v})
    {
      if i < |found| { assert more[i] == found[i]; } else { assert more[i] == item; }
    }
  }

  lemma VisitDiscovers(g: Graph, r: Request, s: State, done: nat, e: Entry)
    requires Inv(g, r, s, done) && done < |s.found| && Leaves(g, r, s.found[done], e)
    ensures Discovered(g, r, Visit(g, r, s.found[done], e, s))
  {
    var from := s.found[done];
    if Visit(g, r, from, e, s).found != s.found {
      DiscoveryUnrefused(g, r, s, e, from);
      NewItemOk(g, r, from, e, s.visited);
      NewItemMinimal(g, r, s, done, e);
      OneMoreEntity(s.found, s.visited, Extend(g, from, e));
      PathVisited(g, from, e, s.visited);
      OneMoreItem(g, r, s.found, s.visited, Extend(g, from, e), e.target);
    }
  }

  lemma VisitLayers(g: Graph, r: Request, s: State, done: nat, e: Entry)
    requires Layered(r, s.found, done) && done < |s.found| && s.found[done].distance < r.maxHops
    ensures Layered(r, Visit(g, r, s.found[done], e, s).found, done)
  {
    if Visit(g, r, s.found[done], e, s).found != s.found { MoreLayered(r, s.found, done, Extend(g, s.found[done], e)); }
  }

  lemma MoreLayered(r: Request, found: seq<Item>, done: nat, item: Item)
    requires done < |found| && Layered(r, found, done) && item.distance == found[done].distance + 1 <= r.maxHops
    ensures Layered(r, found + [item], done)
  {}

  lemma AddedSize<T>(s: set<T>, x: T)
    ensures |s + {x}| == |s| + if x in s then 0 else 1
  {
    if x in s { assert s + {x} == s; }
  }

  lemma VisitCaps(g: Graph, r: Request, s: State, from: Item, e: Entry)
    requires UniqueIds(g.edges) && Capped(g, r, s) && from.entity in s.visited && Leaves(g, r, from, e)
    ensures Capped(g, r, Visit(g, r, from, e, s))
  {
    var t := Visit(g, r, from, e, s);
    AddedSize(s.used, e.edge.id);
    AddedSize(s.visited, e.target);
    forall x | x in g.edges && x.id in t.used && |t.visited| < r.maxNodes
      ensures x.source in t.visited && x.destination in t.visited
    {
      if x.id == e.edge.id {
        assert x == e.edge;
      }
    }
  }

  lemma ReachedGrows(found: seq<Item>, more: seq<Item>, v: string, k: int)
    requires found <= more && Reached(found, v, k)
    ensures Reached(more, v, k)
  {
    var i :| 0 <= i < |found| && found[i].entity == v && found[i].distance <= k;
    assert more[i].entity == v;
  }

  lemma VisitExpands(g: Graph, r: Request, s: State, done: nat, e: Entry)
    requires Layered(r, s.found, done) && OnePerEntity(s.found, s.visited)
    requires done < |s.found| && Expanded(g, r, s, done) && Leaves(g, r, s.found[done], e)
    ensures var t := Visit(g, r, s.found[done], e, s);
            && Expanded(g, r, t, done)
            && (Refused(s) ==> Refused(t))
            && (!Refused(t) ==> Reached(t.found, e.target, s.found[done].distance + 1))
  {
    var t := Visit(g, r, s.found[done], e, s);
    if !Refused(t) {
      if e.target in s.visited {
        var i :| 0 <= i < |s.found| && s.found[i].entity == e.target;
        assert t.found[i].distance <= s.found[done].distance + 1;
      } else {
        assert t.found[|s.found|].entity == e.target;
      }
      forall i | 0 <= i < done && t.found[i].distance < r.maxHops ensures LinksFound(g, r, t.found, i) {
        assert LinksFound(g, r, s.found, i);
        forall v | Linked(g, r.direction, t.found[i].entity, v) ensures Reached(t.found, v, t.found[i].distance + 1) {
          ReachedGrows(s.found, t.found, v, t.found[i].distance + 1);
        }
      }
    }
  }

  /** The target of every listed entry has been found, no further than one hop past `k`. */
  ghost predicate AllReached(found: seq<Item>, es: seq<Entry>, k: nat) {
    forall e :: e in es ==> Reached(found, e.target, k + 1)
  }

  lemma VisitKeeps(g: Graph, r: Request, s: State, done: nat, e: Entry)
    requires Inv(g, r, s, done) && done < |s.found| && s.found[done].distance < r.maxHops
    requires Leaves(g, r, s.found[done], e)
    ensures var t := Visit(g, r, s.found[done], e, s);
            Inv(g, r, t, done) && AllReachedUnlessRefused(t, [e], s.found[done].distance)
    ensures Refused(s) ==> Refused(Visit(g, r, s.found[done], e, s))
  {
    VisitDiscovers(g, r, s, done, e);
    VisitLayers(g, r, s, done, e);
    VisitCaps(g, r, s, s.found[done], e);
    VisitExpands(g, r, s, done, e);
    OneReached(Visit(g, r, s.found[done], e, s), e, s.found[done].distance);
  }

  lemma OneReached(t: State, e: Entry, k: nat)
    requires !Refused(t) ==> Reached(t.found, e.target, k + 1)
    ensures AllReachedUnlessRefused(t, [e], k)
  {}

  ghost predicate AllReachedUnlessRefused(s: State, es: seq<Entry>, k: nat) {
    !Refused(s) ==> AllReached(s.found, es, k)
  }

  lemma AllReachedAppend(s: State, t: State, es: seq<Entry>, e: Entry, k: nat)
    requires AllReachedUnlessRefused(s, es, k) && AllReachedUnlessRefused(t, [e], k)
    requires s.found <= t.found && (Refused(s) ==> Refused(t))
    ensures AllReachedUnlessRefused(t, es + [e], k)
  {
    if !Refused(t) {
      forall x | x in es + [e] ensures Reached(t.found, x.target, k + 1) {
        if x in es { ReachedGrows(s.found, t.found, x.target, k + 1); } else { assert x in [e]; }
      }
    }
  }

  lemma {:induction false} VisitAllKeeps(g: Graph, r: Request, s: State, done: nat, es: seq<Entry>)
    requires Inv(g, r, s, done) && done < |s.found| && s.found[done].distance < r.maxHops
    requires forall e :: e in es ==> Leaves(g, r, s.found[done], e)
    ensures var t := VisitAll(g, r, s.found[done], es, s);
            Inv(g, r, t, done) && AllReachedUnlessRefused(t, es, s.found[done].distance)
  {
    if es != [] {
      var rest, e := es[..|es| - 1], es[|es| - 1];
      SplitLast(es);
      VisitAllKeeps(g, r, s, done, rest);
      var m := VisitAll(g, r, s.found[done], rest, s);
      VisitKeeps(g, r, m, done, e);
      AllReachedAppend(m, Visit(g, r, m.found[done], e, m), rest, e, s.found[done].distance);
    }
  }

  lemma AllLinksFound(g: Graph, r: Request, found: seq<Item>, i: nat)
    requires i < |found|
    requires AllReached(found, Neighbours(g, r.direction, found[i].entity), found[i].distance)
    ensures LinksFound(g, r, found, i)
  {
    NeighboursExact(g, r.direction, found[i].entity);
  }

  lemma NoLinks(g: Graph, dir: Direction, n: string)
    requires Neighbours(g, dir, n) == []
    ensures forall v :: !Linked(g, dir, n, v)
  {
    NeighboursExact(g, dir, n);
  }

  /** The number of reported items whose links have been followed. */
  function Done(s: State): nat {
    if s.halted && s.next > 0 then s.next - 1 else s.next
  }

  lemma NextLayer(r: Request, s: State, done: nat)
    requires Layered(r, s.found, done) && done < |s.found|
    ensures Layered(r, s.found, done + 1)
  {}

  lemma NextExpanded(g: Graph, r: Request, s: State, done: nat)
    requires done < |s.found| && Expanded(g, r, s, done)
    requires !Refused(s) && s.found[done].distance < r.maxHops ==> LinksFound(g, r, s.found, done)
    requires MaxHops !in s.reasons && s.found[done].distance >= r.maxHops ==>
               forall v :: !Linked(g, r.direction, s.found[done].entity, v)
    ensures Expanded(g, r, s, done + 1)
  {}

  lemma PopExpanded(g: Graph, r: Request, s: State, t: State)
    requires !Finished(s) && Expanded(g, r, s, s.next) && Capped(g, r, s)
    requires t == s.(next := s.next + 1, reasons := t.reasons, halted := t.halted)
    requires s.reasons <= t.reasons <= s.reasons + {MaxHops, MaxPaths}
    ensures Expanded(g, r, t, s.next) && Capped(g, r, t)
  {}

  lemma PopDiscovered(g: Graph, r: Request, s: State, t: State)
    requires !Finished(s) && Discovered(g, r, s)
    requires t == s.(next := s.next + 1, reasons := t.reasons, halted := t.halted)
    ensures Discovered(g, r, t)
  {}

  /** Popping the queue and adding the reasons `MaxPaths` or `MaxHops` leave the invariant alone. */
  lemma PopKeeps(g: Graph, r: Request, s: State, t: State)
    requires !Finished(s) && Inv(g, r, s, s.next)
    requires t == s.(next := s.next + 1, reasons := t.reasons, halted := t.halted)
    requires s.reasons <= t.reasons <= s.reasons + {MaxHops, MaxPaths}
    ensures Inv(g, r, t, s.next)
  {
    PopExpanded(g, r, s, t);
    PopDiscovered(g, r, s, t);
  }

  /** Every neighbour of an item is one way to leave it. */
  lemma LeavesAll(g: Graph, r: Request, from: Item)
    ensures forall e :: e in Neighbours(g, r.direction, from.entity) ==> Leaves(g, r, from, e)
  {
    NeighboursExact(g, r.direction, from.entity);
  }

  lemma NextKeeps(g: Graph, r: Request, s: State, done: nat)
    requires done < |s.found| && Inv(g, r, s, done)
    requires !Refused(s) && s.found[done].distance < r.maxHops ==> LinksFound(g, r, s.found, done)
    requires MaxHops !in s.reasons && s.found[done].distance >= r.maxHops ==>
               forall v :: !Linked(g, r.direction, s.found[done].entity, v)
    ensures Inv(g, r, s, done + 1)
  {
    NextLayer(r, s, done);
    NextExpanded(g, r, s, done);
  }

  /** Expanding an item within the hop limit. */
  lemma ExpandKeeps(g: Graph, r: Request, s: State, done: nat)
    requires done < |s.found| && Inv(g, r, s, done) && s.found[done].distance < r.maxHops
    ensures var t := VisitAll(g, r, s.found[done], Neighbours(g, r.direction, s.found[done].entity), s);
            Inv(g, r, t, done + 1)
  {
    var ns := Neighbours(g, r.direction, s.found[done].entity);
    var t := VisitAll(g, r, s.found[done], ns, s);
    LeavesAll(g, r, s.found[done]);
    VisitAllKeeps(g, r, s, done, ns);
    if !Refused(t) { AllLinksFound(g, r, t.found, done); }
    NextKeeps(g, r, t, done);
  }

  /** An item at the hop limit is not expanded. */
  lemma LimitKeeps(g: Graph, r: Request, s: State)
    requires !Finished(s) && Inv(g, r, s, s.next) && s.found[s.next].distance >= r.maxHops && s.next + 1 < r.maxPaths
    ensures Inv(g, r, Step(g, r, s), s.next + 1)
  {
    if Neighbours(g, r.direction, s.found[s.next].entity) == [] { NoLinks(g, r.direction, s.found[s.next].entity); }
    PopKeeps(g, r, s, Step(g, r, s));
    NextKeeps(g, r, Step(g, r, s), s.next);
  }

  lemma WithinKeeps(g: Graph, r: Request, s: State)
    requires !Finished(s) && Inv(g, r, s, s.next) && s.found[s.next].distance < r.maxHops && s.next + 1 < r.maxPaths
    ensures Inv(g, r, Step(g, r, s), s.next + 1)
  {
    var s1 := s.(next := s.next + 1);
    PopKeeps(g, r, s, s1);
    StepExpands(g, r, s, s1);
    ExpandKeeps(g, r, s1, s.next);
  }

  lemma StepExpands(g: Graph, r: Request, s: State, s1: State)
    requires !Finished(s) && s.found[s.next].distance < r.maxHops && s.next + 1 < r.maxPaths
    requires s1 == s.(next := s.next + 1)
    ensures Step(g, r, s) == VisitAll(g, r, s1.found[s.next], Neighbours(g, r.direction, s1.found[s.next].entity), s1)
  {}

  lemma HaltKeeps(g: Graph, r: Request, s: State)
    requires !Finished(s) && Inv(g, r, s, s.next) && s.next + 1 >= r.maxPaths
    ensures Inv(g, r, Step(g, r, s), s.next)
  {
    PopKeeps(g, r, s, Step(g, r, s));
  }

  lemma StepKeeps(g: Graph, r: Request, s: State)
    requires !Finished(s) && Inv(g, r, s, s.next)
    ensures var t := Step(g, r, s); Inv(g, r, t, Done(t))
  {
    if s.next + 1 >= r.maxPaths {
      HaltKeeps(g, r, s);
    } else if s.found[s.next].distance >= r.maxHops {
      LimitKeeps(g, r, s);
    } else {
      WithinKeeps(g, r, s);
    }
  }

  // ----- The whole run -----

  lemma InitialInv(g: Graph, r: Request)
    requires ValidRequest(r) && UniqueIds(g.edges)
    ensures Inv(g, r, Initial(r.anchor), 0)
  {
    var item := AnchorItem(r.anchor);
    assert Evidence(g, r.direction, item, []);
    assert ItemOk(g, r, item);
    assert Initial(r.anchor).found[0].entity == r.anchor;
  }

  /** How a run can end: with an empty queue, or at the path cap. */
  ghost predicate Ended(g: Graph, r: Request, s: State) {
    && s.next <= |s.found| && s.next <= r.maxPaths
    && (s.halted ==> s.next == r.maxPaths && s.next > 0 && (MaxPaths !in s.reasons <==>
          s.next == |s.found| && Neighbours(g, r.direction, s.found[s.next - 1].entity) == []))
    && (!s.halted ==> s.next == |s.found| && s.next < r.maxPaths && MaxPaths !in s.reasons)
  }

  lemma {:induction false} VisitAllReasons(g: Graph, r: Request, from: Item, es: seq<Entry>, s: State)
    ensures VisitAll(g, r, from, es, s).reasons <= s.reasons + {MaxNodes, MaxEdges}
  {
    if es != [] { VisitAllReasons(g, r, from, es[..|es| - 1], s); }
  }

  lemma StepEnds(g: Graph, r: Request, s: State)
    requires !Finished(s) && MaxPaths !in s.reasons && s.next < r.maxPaths
    ensures var t := Step(g, r, s); (t.halted ==> Ended(g, r, t)) && (!t.halted ==> MaxPaths !in t.reasons)
  {
    if s.next + 1 < r.maxPaths {
      var cur := s.found[s.next];
      VisitAllReasons(g, r, cur, Neighbours(g, r.direction, cur.entity), s.(next := s.next + 1));
    }
  }

  lemma {:induction false} RunKeeps(g: Graph, r: Request, s: State)
    requires Inv(g, r, s, Done(s)) && (s.halted ==> Ended(g, r, s))
    requires !s.halted ==> MaxPaths !in s.reasons && s.next < r.maxPaths
    ensures var t := Run(g, r, s); Inv(g, r, t, Done(t)) && Ended(g, r, t)
    decreases r.maxPaths - s.next
  {
    if !Finished(s) {
      StepKeeps(g, r, s);
      StepEnds(g, r, s);
      RunKeeps(g, r, Step(g, r, s));
    }
  }

  ghost predicate Reports(paths: seq<Item>, v: string) {
    exists i :: 0 <= i < |paths| && paths[i].entity == v
  }

  lemma FinalExpanded(g: Graph, r: Request, s: State)
    requires Ended(g, r, s) && Expanded(g, r, s, Done(s)) && s.reasons <= {MaxHops}
    ensures s.next == |s.found|
    ensures InnerExpanded(g, r, s.found, |s.found|)
    ensures MaxHops !in s.reasons ==> OuterBare(g, r, s.found, |s.found|)
  {
    if s.halted { NoLinks(g, r.direction, s.found[s.next - 1].entity); }
  }

  lemma WalkReported(g: Graph, r: Request, s: State, k: nat, w: seq<string>)
    requires s.next == |s.found| && |s.found| > 0 && s.found[0] == AnchorItem(r.anchor)
    requires forall i :: 0 <= i < |s.found| && s.found[i].distance < k ==> LinksFound(g, r, s.found, i)
    requires IsWalk(g, r.direction, r.anchor, w) && |w| - 1 <= k
    ensures Reports(s.found[..s.next], w[|w| - 1])
  {
    WalkCovered(g, r, s.found, k, w);
    var i :| 0 <= i < |s.found| && s.found[i].entity == w[|w| - 1] && s.found[i].distance <= |w| - 1;
    assert s.found[..s.next][i].entity == w[|w| - 1];
  }

  lemma ReportedWalk(g: Graph, r: Request, s: State, v: string)
    requires s.next <= |s.found| && ItemsOk(g, r, s.found, s.visited) && Layered(r, s.found, Done(s))
    requires Reports(s.found[..s.next], v)
    ensures ReachableWithin(g, r.direction, r.anchor, v, r.maxHops)
  {
    var i :| 0 <= i < |s.found[..s.next]| && s.found[..s.next][i].entity == v;
    assert ItemOk(g, r, s.found[i]) && s.found[i].distance <= r.maxHops;
    assert WalkTo(g, r.direction, r.anchor, v, s.found[i].path);
  }

  /** Stopped by no other cap than the hop limit, the search has found the nodes within it. */
  lemma FinalWithin(g: Graph, r: Request, s: State, v: string)
    requires Ended(g, r, s) && Inv(g, r, s, Done(s)) && s.reasons <= {MaxHops}
    ensures Reports(s.found[..s.next], v) <==> ReachableWithin(g, r.direction, r.anchor, v, r.maxHops)
  {
    FinalExpanded(g, r, s);
    if ReachableWithin(g, r.direction, r.anchor, v, r.maxHops) {
      var w :| WalkTo(g, r.direction, r.anchor, v, w) && |w| <= r.maxHops + 1;
      WalkReported(g, r, s, r.maxHops, w);
    }
    if Reports(s.found[..s.next], v) { ReportedWalk(g, r, s, v); }
  }

  lemma FinalReachable(g: Graph, r: Request, s: State, v: string)
    requires Ended(g, r, s) && Inv(g, r, s, Done(s)) && s.reasons == {}
    ensures Reports(s.found[..s.next], v) <==> Reachable(g, r.direction, r.anchor, v)
  {
    FinalExpanded(g, r, s);
    if Reachable(g, r.direction, r.anchor, v) {
      var w :| WalkTo(g, r.direction, r.anchor, v, w);
      WalkReported(g, r, s, |w|, w);
    }
    if Reports(s.found[..s.next], v) { ReportedWalk(g, r, s, v); }
  }

  // ----- The graph a query is answered on -----

  lemma {:induction false} LastByIdUnique(edges: seq<Edge>)
    ensures forall e :: e in LastById(edges) ==> e in edges
    ensures forall e :: e in edges ==> e.id in EdgeIds(edges)
    ensures Distinct(EdgeIds(LastById(edges)))
  {
    if edges != [] {
      var rest := edges[1..];
      LastByIdUnique(rest);
      assert forall e :: e in edges ==> e == edges[0] || e in rest;
      var ids := EdgeIds(LastById(edges));
      if edges[0].id !in EdgeIds(rest) {
        forall j | 1 <= j < |ids| ensures ids[0] != ids[j] {
          assert LastById(rest)[j - 1] in rest;
        }
        forall i, j | 1 <= i < j < |ids| ensures ids[i] != ids[j] {
          assert EdgeIds(LastById(rest))[i - 1] != EdgeIds(LastById(rest))[j - 1];
        }
      }
    }
  }

  lemma DistinctIdsUnique(edges: seq<Edge>)
    requires Distinct(EdgeIds(edges))
    ensures UniqueIds(edges)
  {
    forall e, f | e in edges && f in edges && e.id == f.id ensures e == f {
      var i :| 0 <= i < |edges| && edges[i] == e;
      var j :| 0 <= j < |edges| && edges[j] == f;
      assert EdgeIds(edges)[i] == EdgeIds(edges)[j];
    }
  }

  lemma GraphUniqueIds(nodes: seq<Node>, edges: seq<Edge>)
    ensures UniqueIds(BuildGraph(nodes, edges).edges)
  {
    LastByIdUnique(edges);
    DistinctIdsUnique(LastById(edges));
    EdgeOrder();
    SortCorrect(LastById(edges), EdgeLeq);
    MembersOfPermutation(LastById(edges), Sort(LastById(edges), EdgeLeq));
  }

  lemma {:induction false} LastByIdDistinct(edges: seq<Edge>)
    requires Distinct(EdgeIds(edges))
    ensures LastById(edges) == edges
  {
    if edges != [] {
      var rest := edges[1..];
      forall i, j | 0 <= i < j < |rest| ensures EdgeIds(rest)[i] != EdgeIds(rest)[j] {
        assert EdgeIds(edges)[i + 1] != EdgeIds(edges)[j + 1];
      }
      assert edges[0].id !in EdgeIds(rest) by {
        assert forall j :: 0 <= j < |rest| ==> EdgeIds(edges)[j + 1] == rest[j].id;
      }
      LastByIdDistinct(rest);
    }
  }

  lemma {:induction false} NodeMapDistinct(nodes: seq<Node>)
    requires Distinct(NodeIds(nodes))
    ensures forall id :: id in NodeMap(nodes) <==> exists n :: n in nodes && n.id == id
    ensures forall n :: n in nodes ==> n.id in NodeMap(nodes) && NodeMap(nodes)[n.id] == n
  {
    if nodes != [] {
      var rest, last := nodes[..|nodes| - 1], nodes[|nodes| - 1];
      forall i, j | 0 <= i < j < |rest| ensures NodeIds(rest)[i] != NodeIds(rest)[j] {
        assert NodeIds(nodes)[i] != NodeIds(nodes)[j];
      }
      NodeMapDistinct(rest);
      assert nodes == rest + [last];
      forall n | n in rest ensures n.id != last.id {
        var i :| 0 <= i < |rest| && rest[i] == n;
        assert NodeIds(nodes)[i] != NodeIds(nodes)[|rest|];
      }
      assert last in nodes;
      assert forall n :: n in nodes <==> n in rest || n == last;
    }
  }

  lemma NodeMapPermutation(nodes: seq<Node>, nodes': seq<Node>)
    requires Distinct(NodeIds(nodes)) && Distinct(NodeIds(nodes')) && multiset(nodes) == multiset(nodes')
    ensures NodeMap(nodes) == NodeMap(nodes')
  {
    MembersOfPermutation(nodes, nodes');
    NodeMapDistinct(nodes);
    NodeMapDistinct(nodes');
    var m, m' := NodeMap(nodes), NodeMap(nodes');
    assert forall id :: id in m <==> id in m';
    forall id | id in m ensures m[id] == m'[id] {
      var n :| n in nodes && n.id == id;
      assert n in nodes';
    }
  }

  /** With distinct ids, the answer does not depend on the order of the node and edge lists. */
  lemma OrderIndependent(nodes: seq<Node>, nodes': seq<Node>, edges: seq<Edge>, edges': seq<Edge>, r: Request)
    requires ValidRequest(r)
    requires Distinct(NodeIds(nodes)) && Distinct(NodeIds(nodes')) && multiset(nodes) == multiset(nodes')
    requires Distinct(EdgeIds(edges)) && Distinct(EdgeIds(edges')) && multiset(edges) == multiset(edges')
    ensures Traversed(nodes, edges, r) == Traversed(nodes', edges', r)
  {
    NodeMapPermutation(nodes, nodes');
    LastByIdDistinct(edges);
    LastByIdDistinct(edges');
    EdgeOrder();
    DistinctIdsUnique(edges);
    forall a, b | a in multiset(edges) && b in multiset(edges) && EdgeLeq(a, b) && EdgeLeq(b, a) ensures a == b {
      assert a in edges && b in edges;
    }
    SortPermutation(edges, edges', EdgeLeq);
  }

  /** With distinct ids, the links of the graph are those of the edge list. */
  lemma GraphLinks(nodes: seq<Node>, edges: seq<Edge>, dir: Direction, u: string, v: string)
    requires Distinct(EdgeIds(edges))
    ensures Linked(BuildGraph(nodes, edges), dir, u, v) <==> exists e :: e in edges && Crosses(e, dir, u, v)
  {
    LastByIdDistinct(edges);
    EdgeOrder();
    SortCorrect(edges, EdgeLeq);
    MembersOfPermutation(edges, Sort(edges, EdgeLeq));
  }

  // ----- What a query reports -----

  lemma FinalState(nodes: seq<Node>, edges: seq<Edge>, r: Request) returns (g: Graph, s: State)
    requires ValidRequest(r)
    ensures g == BuildGraph(nodes, edges) && s == Run(g, r, Initial(r.anchor))
    ensures Inv(g, r, s, Done(s)) && Ended(g, r, s)
  {
    g := BuildGraph(nodes, edges);
    GraphUniqueIds(nodes, edges);
    InitialInv(g, r);
    RunKeeps(g, r, Initial(r.anchor));
    s := Run(g, r, Initial(r.anchor));
  }

  lemma FoundDistance(g: Graph, r: Request, item: Item)
    requires ItemOk(g, r, item) && Minimal(g, r, item)
    ensures ShortestDistance(g, r.direction, r.anchor, item.entity, item.distance)
  {
    assert WalkTo(g, r.direction, r.anchor, item.entity, item.path);
  }

  /** True distances, each entity once, nearest first, within the caps. */
  ghost predicate DistancesRight(g: Graph, r: Request, paths: seq<Item>) {
    && (forall i :: 0 <= i < |paths| ==>
          && ShortestDistance(g, r.direction, r.anchor, paths[i].entity, paths[i].distance)
          && paths[i].distance <= r.maxHops)
    && (forall i, j :: 0 <= i < j < |paths| ==>
          paths[i].entity != paths[j].entity && paths[i].distance <= paths[j].distance)
    && |paths| <= r.maxPaths && |paths| <= r.maxNodes
  }

  lemma FinalDistances(g: Graph, r: Request, s: State)
    requires s.next <= |s.found| && s.next <= r.maxPaths && |s.visited| <= r.maxNodes
    requires Layered(r, s.found, Done(s)) && OnePerEntity(s.found, s.visited) && ItemsOk(g, r, s.found, s.visited)
    ensures DistancesRight(g, r, s.found[..s.next])
  {
    AllShortest(g, r, s.found, s.visited);
    FoundSize(s.found, s.visited);
    OrderedOnce(s.found, s.next);
  }

  lemma OrderedOnce(found: seq<Item>, n: nat)
    requires n <= |found| && forall i, j :: 0 <= i < j < |found| ==> found[i].entity != found[j].entity && found[i].distance <= found[j].distance
    ensures forall i, j :: 0 <= i < j < n ==> found[..n][i].entity != found[..n][j].entity && found[..n][i].distance <= found[..n][j].distance
  {}

  lemma AllShortest(g: Graph, r: Request, found: seq<Item>, visited: set<string>)
    requires ItemsOk(g, r, found, visited)
    ensures forall i :: 0 <= i < |found| ==>
              ShortestDistance(g, r.direction, r.anchor, found[i].entity, found[i].distance)
  {
    forall i | 0 <= i < |found|
      ensures ShortestDistance(g, r.direction, r.anchor, found[i].entity, found[i].distance)
    {
      FoundDistance(g, r, found[i]);
    }
  }

  /** Every reported distance is the true one in the whole graph, whatever cap has fired; entities
      are reported once each, nearest first, and the caps hold. */
  lemma ReportedDistances(nodes: seq<Node>, edges: seq<Edge>, r: Request)
    requires ValidRequest(r)
    ensures DistancesRight(BuildGraph(nodes, edges), r, Traversed(nodes, edges, r).paths)
  {
    var g, s := FinalState(nodes, edges, r);
    FinalDistances(g, r, s);
  }

  lemma {:induction false} FoundSize(found: seq<Item>, visited: set<string>)
    requires OnePerEntity(found, visited)
    ensures |visited| == |found|
  {
    if found == [] {
      assert visited == {};
    } else {
      var rest, v := found[..|found| - 1], found[|found| - 1].entity;
      forall x | x in visited - {v} ensures exists i :: 0 <= i < |rest| && rest[i].entity == x {
        var i :| 0 <= i < |found| && found[i].entity == x;
        assert rest[i].entity == x;
      }
      FoundSize(rest, visited - {v});
    }
  }

  /** An untruncated answer lists exactly the reachable nodes. */
  lemma UntruncatedExact(nodes: seq<Node>, edges: seq<Edge>, r: Request, v: string)
    requires ValidRequest(r) && r.anchor in NodeMap(nodes)
    requires !Traversed(nodes, edges, r).truncated
    ensures Reports(Traversed(nodes, edges, r).paths, v) <==>
            Reachable(BuildGraph(nodes, edges), r.direction, r.anchor, v)
  {
    var g, s := FinalState(nodes, edges, r);
    FinalReachable(g, r, s, v);
  }

  /** An answer cut only by the hop limit lists exactly the nodes within it. */
  lemma HopLimitExact(nodes: seq<Node>, edges: seq<Edge>, r: Request, v: string)
    requires ValidRequest(r) && r.anchor in NodeMap(nodes)
    requires Traversed(nodes, edges, r).reasons <= {MaxHops}
    ensures Reports(Traversed(nodes, edges, r).paths, v) <==>
            ReachableWithin(BuildGraph(nodes, edges), r.direction, r.anchor, v, r.maxHops)
  {
    var g, s := FinalState(nodes, edges, r);
    FinalWithin(g, r, s, v);
  }

  /** Every reported path is simple and carries the evidence of its own edges and nodes. */
  lemma ReportedEvidence(nodes: seq<Node>, edges: seq<Edge>, r: Request, i: nat)
    requires ValidRequest(r) && i < |Traversed(nodes, edges, r).paths|
    ensures var g, item := BuildGraph(nodes, edges), Traversed(nodes, edges, r).paths[i];
            && WalkTo(g, r.direction, r.anchor, item.entity, item.path)
            && Distinct(item.path)
            && Evidenced(g, r.direction, item)
  {
    var g, s := FinalState(nodes, edges, r);
    assert ItemOk(g, r, s.found[i]);
  }

  // ----- Layers are complete -----

  /** Every walk of fewer than `k` hops ends in a discovered node. */
  ghost predicate FilledBelow(g: Graph, r: Request, found: seq<Item>, k: nat) {
    forall w :: IsWalk(g, r.direction, r.anchor, w) && |w| <= k ==> Reached(found, w[|w| - 1], |w| - 1)
  }

  /** Nothing nearer than a discovered item is missing. */
  ghost predicate Filled(g: Graph, r: Request, found: seq<Item>) {
    forall i :: 0 <= i < |found| ==> FilledBelow(g, r, found, found[i].distance)
  }

  lemma VisitFills(g: Graph, r: Request, s: State, done: nat, e: Entry)
    requires Inv(g, r, s, done) && done < |s.found| && Leaves(g, r, s.found[done], e) && Filled(g, r, s.found)
    ensures Filled(g, r, Visit(g, r, s.found[done], e, s).found)
  {
    var from, t := s.found[done], Visit(g, r, s.found[done], e, s);
    if t.found != s.found {
      DiscoveryUnrefused(g, r, s, e, from);
      LowerLayersExpanded(g, r, s.found, done);
      MoreFilled(g, r, s.found, from.distance, Extend(g, from, e));
    }
  }

  lemma MoreFilled(g: Graph, r: Request, found: seq<Item>, k: nat, item: Item)
    requires |found| > 0 && found[0] == AnchorItem(r.anchor) && Filled(g, r, found) && item.distance == k + 1
    requires forall i :: 0 <= i < |found| && found[i].distance < k ==> LinksFound(g, r, found, i)
    ensures Filled(g, r, found + [item])
  {
    var more := found + [item];
    forall i, w | 0 <= i < |more| && IsWalk(g, r.direction, r.anchor, w) && |w| <= more[i].distance
      ensures Reached(more, w[|w| - 1], |w| - 1)
    {
      if i < |found| { assert FilledBelow(g, r, found, found[i].distance); }
      else { WalkCovered(g, r, found, k, w); }
      ReachedGrows(found, more, w[|w| - 1], |w| - 1);
    }
  }

  lemma {:induction false} VisitAllFills(g: Graph, r: Request, s: State, done: nat, es: seq<Entry>)
    requires Inv(g, r, s, done) && done < |s.found| && s.found[done].distance < r.maxHops && Filled(g, r, s.found)
    requires forall e :: e in es ==> Leaves(g, r, s.found[done], e)
    ensures Filled(g, r, VisitAll(g, r, s.found[done], es, s).found)
  {
    if es != [] {
      var rest, e := es[..|es| - 1], es[|es| - 1];
      SplitLast(es);
      VisitAllFills(g, r, s, done, rest);
      VisitAllKeeps(g, r, s, done, rest);
      VisitFills(g, r, VisitAll(g, r, s.found[done], rest, s), done, e);
    }
  }

  lemma StepFills(g: Graph, r: Request, s: State)
    requires !Finished(s) && Inv(g, r, s, s.next) && Filled(g, r, s.found)
    ensures Filled(g, r, Step(g, r, s).found)
  {
    var cur, s1 := s.found[s.next], s.(next := s.next + 1);
    if s1.next < r.maxPaths && cur.distance < r.maxHops {
      PopKeeps(g, r, s, s1);
      LeavesAll(g, r, cur);
      StepExpands(g, r, s, s1);
      VisitAllFills(g, r, s1, s.next, Neighbours(g, r.direction, cur.entity));
    }
  }

  lemma {:induction false} RunFills(g: Graph, r: Request, s: State)
    requires Inv(g, r, s, Done(s)) && (s.halted || s.next < r.maxPaths) && Filled(g, r, s.found)
    ensures Filled(g, r, Run(g, r, s).found)
    decreases r.maxPaths - s.next
  {
    if !Finished(s) {
      StepKeeps(g, r, s);
      StepFills(g, r, s);
      RunFills(g, r, Step(g, r, s));
    }
  }

  lemma NearerReported(g: Graph, r: Request, s: State, i: nat, v: string, k: nat)
    requires i < s.next <= |s.found| && Layered(r, s.found, Done(s)) && Filled(g, r, s.found)
    requires ShortestDistance(g, r.direction, r.anchor, v, k) && k < s.found[i].distance
    ensures Reports(s.found[..s.next], v)
  {
    var w :| WalkTo(g, r.direction, r.anchor, v, w) && |w| == k + 1;
    assert FilledBelow(g, r, s.found, s.found[i].distance);
    var j :| 0 <= j < |s.found| && s.found[j].entity == v && s.found[j].distance <= k;
    assert s.found[..s.next][j].entity == v;
  }

  /** Whatever cap has fired, nothing nearer than a reported entity is missing: the answer is complete
      up to its last layer. */
  lemma NothingNearerMissed(nodes: seq<Node>, edges: seq<Edge>, r: Request, i: nat, v: string, k: nat)
    requires ValidRequest(r) && i < |Traversed(nodes, edges, r).paths|
    requires ShortestDistance(BuildGraph(nodes, edges), r.direction, r.anchor, v, k)
    requires k < Traversed(nodes, edges, r).paths[i].distance
    ensures Reports(Traversed(nodes, edges, r).paths, v)
  {
    var g, s := FinalState(nodes, edges, r);
    InitialInv(g, r);
    RunFills(g, r, Initial(r.anchor));
    NearerReported(g, r, s, i, v, k);
  }

  // ----- Why an answer is truncated -----

  ghost predicate AllReachable(g: Graph, r: Request, vs: set<string>) {
    forall v :: v in vs ==> Reachable(g, r.direction, r.anchor, v)
  }

  /** The node and edge caps are named only when the graph exceeds them. */
  ghost predicate Warranted(g: Graph, r: Request, s: State) {
    && (forall id :: id in s.used ==> id in EdgeIds(g.edges))
    && (MaxEdges in s.reasons ==> |g.edges| > r.maxEdges)
    && (MaxNodes in s.reasons ==> exists vs :: AllReachable(g, r, vs) && |vs| > r.maxNodes)
  }

  lemma VisitedReachable(g: Graph, r: Request, s: State)
    requires Discovered(g, r, s)
    ensures AllReachable(g, r, s.visited)
  {
    forall v | v in s.visited ensures Reachable(g, r.direction, r.anchor, v) {
      var i :| 0 <= i < |s.found| && s.found[i].entity == v;
      assert ItemOk(g, r, s.found[i]);
      assert WalkTo(g, r.direction, r.anchor, v, s.found[i].path);
    }
  }

  lemma LinkReachable(g: Graph, r: Request, u: string, v: string)
    requires Reachable(g, r.direction, r.anchor, u) && Linked(g, r.direction, u, v)
    ensures Reachable(g, r.direction, r.anchor, v)
  {
    var w :| WalkTo(g, r.direction, r.anchor, u, w);
    WalkExtends(g, r.direction, r.anchor, w, v);
  }

  /** Fewer distinct members than the list is long. */
  lemma {:induction false} MissingOne(ids: set<string>, all: seq<string>, id: string)
    requires (forall x :: x in ids ==> x in all) && id in all && id !in ids
    ensures |ids| < |all|
  {
    var last, rest := all[|all| - 1], all[..|all| - 1];
    assert all == rest + [last];
    if last == id {
      AtMost(ids, rest);
    } else {
      MissingOne(ids - {last}, rest, id);
    }
  }

  lemma {:induction false} AtMost(ids: set<string>, all: seq<string>)
    requires forall x :: x in ids ==> x in all
    ensures |ids| <= |all|
  {
    if all == [] {
      assert ids == {};
    } else {
      assert all == all[..|all| - 1] + [all[|all| - 1]];
      AtMost(ids - {all[|all| - 1]}, all[..|all| - 1]);
    }
  }

  lemma EdgeRefused(g: Graph, r: Request, s: State, e: Entry)
    requires Warranted(g, r, s) && e.edge in g.edges && e.edge.id !in s.used && |s.used| >= r.maxEdges
    ensures |g.edges| > r.maxEdges
  {
    var i :| 0 <= i < |g.edges| && g.edges[i] == e.edge;
    assert EdgeIds(g.edges)[i] == e.edge.id;
    MissingOne(s.used, EdgeIds(g.edges), e.edge.id);
  }

  lemma NodeRefused(g: Graph, r: Request, visited: set<string>, u: string, v: string)
    requires AllReachable(g, r, visited) && u in visited && Linked(g, r.direction, u, v)
    requires v !in visited && |visited| >= r.maxNodes
    ensures exists vs :: AllReachable(g, r, vs) && |vs| > r.maxNodes
  {
    LinkReachable(g, r, u, v);
    AddedSize(visited, v);
    assert AllReachable(g, r, visited + {v});
  }

  lemma VisitWarranted(g: Graph, r: Request, s: State, from: Item, e: Entry)
    requires Warranted(g, r, s) && AllReachable(g, r, s.visited) && from.entity in s.visited && Leaves(g, r, from, e)
    ensures Warranted(g, r, Visit(g, r, from, e, s))
  {
    if e.edge.id !in s.used && |s.used| >= r.maxEdges {
      EdgeRefused(g, r, s, e);
    } else {
      var i :| 0 <= i < |g.edges| && g.edges[i] == e.edge;
      assert EdgeIds(g.edges)[i] == e.edge.id;
      if e.target !in s.visited && |s.visited| >= r.maxNodes { NodeRefused(g, r, s.visited, from.entity, e.target); }
    }
  }

  lemma {:induction false} VisitAllWarranted(g: Graph, r: Request, s: State, done: nat, es: seq<Entry>)
    requires Inv(g, r, s, done) && done < |s.found| && s.found[done].distance < r.maxHops && Warranted(g, r, s)
    requires forall e :: e in es ==> Leaves(g, r, s.found[done], e)
    ensures Warranted(g, r, VisitAll(g, r, s.found[done], es, s))
  {
    if es != [] {
      var rest, e := es[..|es| - 1], es[|es| - 1];
      SplitLast(es);
      VisitAllWarranted(g, r, s, done, rest);
      VisitAllKeeps(g, r, s, done, rest);
      VisitedReachable(g, r, VisitAll(g, r, s.found[done], rest, s));
      VisitWarranted(g, r, VisitAll(g, r, s.found[done], rest, s), s.found[done], e);
    }
  }

  /** The hop limit is named only when a reported item at the limit has links. */
  ghost predicate HopsWarranted(g: Graph, r: Request, s: State) {
    s.next <= |s.found| &&
    (MaxHops in s.reasons ==> exists i :: 0 <= i < s.next && i + 1 < r.maxPaths && LimitMet(g, r, s.found[i]))
  }

  ghost predicate LimitMet(g: Graph, r: Request, item: Item) {
    item.distance == r.maxHops && exists v :: Linked(g, r.direction, item.entity, v)
  }

  lemma ExpandWarranted(g: Graph, r: Request, s: State, done: nat)
    requires Inv(g, r, s, done) && done < |s.found| && s.found[done].distance < r.maxHops && Warranted(g, r, s)
    ensures Warranted(g, r, VisitAll(g, r, s.found[done], Neighbours(g, r.direction, s.found[done].entity), s))
  {
    LeavesAll(g, r, s.found[done]);
    VisitAllWarranted(g, r, s, done, Neighbours(g, r.direction, s.found[done].entity));
  }

  lemma PopWarranted(g: Graph, r: Request, s: State, t: State)
    requires Warranted(g, r, s) && t == s.(next := t.next, reasons := t.reasons, halted := t.halted)
    requires t.reasons <= s.reasons + {MaxHops, MaxPaths}
    ensures Warranted(g, r, t)
  {}

  lemma StepWarranted(g: Graph, r: Request, s: State)
    requires !Finished(s) && Inv(g, r, s, s.next) && Warranted(g, r, s)
    ensures Warranted(g, r, Step(g, r, s))
  {
    if s.next + 1 < r.maxPaths && s.found[s.next].distance < r.maxHops {
      var s1 := s.(next := s.next + 1);
      PopKeeps(g, r, s, s1);
      PopWarranted(g, r, s, s1);
      ExpandWarranted(g, r, s1, s.next);
      StepExpands(g, r, s, s1);
    } else {
      PopWarranted(g, r, s, Step(g, r, s));
    }
  }

  lemma LimitIsMet(g: Graph, r: Request, item: Item)
    requires item.distance >= r.maxHops && item.distance <= r.maxHops
    requires Neighbours(g, r.direction, item.entity) != []
    ensures LimitMet(g, r, item)
  {
    NeighboursExact(g, r.direction, item.entity);
    var e := Neighbours(g, r.direction, item.entity)[0];
    assert Linked(g, r.direction, item.entity, e.target);
  }

  lemma StepHops(g: Graph, r: Request, s: State)
    requires !Finished(s) && Layered(r, s.found, s.next) && HopsWarranted(g, r, s)
    ensures HopsWarranted(g, r, Step(g, r, s))
  {
    var cur, t := s.found[s.next], Step(g, r, s);
    var ns := Neighbours(g, r.direction, cur.entity);
    VisitAllReasons(g, r, cur, ns, s.(next := s.next + 1));
    if MaxHops in s.reasons {
      var i :| 0 <= i < s.next && i + 1 < r.maxPaths && LimitMet(g, r, s.found[i]);
      assert t.found[i] == s.found[i];
    } else if MaxHops in t.reasons {
      LimitIsMet(g, r, t.found[s.next]);
    }
  }

  lemma {:induction false} RunWarranted(g: Graph, r: Request, s: State)
    requires Inv(g, r, s, Done(s)) && (s.halted || s.next < r.maxPaths)
    requires Warranted(g, r, s) && HopsWarranted(g, r, s)
    ensures Warranted(g, r, Run(g, r, s)) && HopsWarranted(g, r, Run(g, r, s))
    decreases r.maxPaths - s.next
  {
    if !Finished(s) {
      StepKeeps(g, r, s);
      StepWarranted(g, r, s);
      StepHops(g, r, s);
      RunWarranted(g, r, Step(g, r, s));
    }
  }

  lemma FinalWarranted(nodes: seq<Node>, edges: seq<Edge>, r: Request)
    requires ValidRequest(r)
    ensures var g := BuildGraph(nodes, edges);
            var s := Run(g, r, Initial(r.anchor));
            Warranted(g, r, s) && HopsWarranted(g, r, s)
  {
    GraphUniqueIds(nodes, edges);
    InitialInv(BuildGraph(nodes, edges), r);
    RunWarranted(BuildGraph(nodes, edges), r, Initial(r.anchor));
  }

  /** Each reason that an answer names is warranted. */
  ghost predicate ReasonsWarranted(g: Graph, r: Request, t: Result) {
    && (t.truncated <==> t.reasons != {})
    && (!t.truncated ==> t.excludedNodes == 0 && t.excludedEdges == 0)
    && (MaxPaths in t.reasons ==> |t.paths| == r.maxPaths)
    && (MaxEdges in t.reasons ==> |g.edges| > r.maxEdges)
    && (MaxNodes in t.reasons ==> exists vs :: AllReachable(g, r, vs) && |vs| > r.maxNodes)
    && (MaxHops in t.reasons ==> exists i :: 0 <= i < |t.paths| && LimitMet(g, r, t.paths[i]))
  }

  lemma ReportWarranted(g: Graph, r: Request, s: State)
    requires Ended(g, r, s) && Warranted(g, r, s) && HopsWarranted(g, r, s)
    ensures ReasonsWarranted(g, r, Report(g, s))
  {
    if MaxHops in s.reasons {
      var i :| 0 <= i < s.next && i + 1 < r.maxPaths && LimitMet(g, r, s.found[i]);
      assert LimitMet(g, r, Report(g, s).paths[i]);
    }
  }

  /** A cap is named only when the graph goes beyond it, so a graph that fits is answered in full. */
  lemma TruncationWarranted(nodes: seq<Node>, edges: seq<Edge>, r: Request)
    requires ValidRequest(r)
    ensures ReasonsWarranted(BuildGraph(nodes, edges), r, Traversed(nodes, edges, r))
  {
    var g, s := FinalState(nodes, edges, r);
    FinalWarranted(nodes, edges, r);
    ReportWarranted(g, r, s);
  }
}
