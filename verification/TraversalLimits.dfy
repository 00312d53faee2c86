/** Exactly when each cap of the bounded search is named, and what is counted as left out. */
module TraversalLimits {
  import opened Ordering
  import opened Traversal
  import opened TraversalProofs
  import opened TraversalOrder

  // ----- Edges that are tried -----

  /** The edge can be crossed from `n`. */
  ghost predicate Touches(e: Edge, dir: Direction, n: string) {
    (dir != Upstream && e.source == n) || (dir != Downstream && e.destination == n)
  }

  ghost predicate Crossing(g: Graph, dir: Direction, n: string, id: string) {
    exists e :: e in g.edges && e.id == id && Touches(e, dir, n)
  }

  ghost predicate IdIn(es: seq<Entry>, id: string) { exists x :: x in es && x.edge.id == id }

  lemma NeighbourIds(g: Graph, dir: Direction, n: string, id: string)
    ensures IdIn(Neighbours(g, dir, n), id) <==> Crossing(g, dir, n, id)
  {
    NeighboursExact(g, dir, n);
    if Crossing(g, dir, n, id) {
      var e :| e in g.edges && e.id == id && Touches(e, dir, n);
      var v := if dir != Upstream && e.source == n then e.destination else e.source;
      var x := EntryFor(g, dir, n, e, v);
    }
    if IdIn(Neighbours(g, dir, n), id) {
      var x :| x in Neighbours(g, dir, n) && x.edge.id == id;
      assert x.edge in g.edges && Touches(x.edge, dir, n);
    }
  }

  /** One of the first `done` items within the hop limit leads to an edge of this id. */
  ghost predicate CrossedBefore(g: Graph, r: Request, found: seq<Item>, done: nat, id: string)
    requires done <= |found|
  {
    exists k :: 0 <= k < done && found[k].distance < r.maxHops && Crossing(g, r.direction, found[k].entity, id)
  }

  ghost predicate Tried(g: Graph, r: Request, found: seq<Item>, done: nat, es: seq<Entry>, id: string)
    requires done <= |found|
  {
    CrossedBefore(g, r, found, done, id) || IdIn(es, id)
  }

  /** Used edges have been tried; all that have been tried are used unless the edge cap was met, and then one
      is not. */
  ghost predicate UsedRight(g: Graph, r: Request, s: State, done: nat, es: seq<Entry>)
    requires done <= |s.found|
  {
    && (forall id :: id in s.used ==> Tried(g, r, s.found, done, es, id))
    && (MaxEdges !in s.reasons ==> forall id :: Tried(g, r, s.found, done, es, id) ==> id in s.used)
    && (MaxEdges in s.reasons ==> exists id :: Tried(g, r, s.found, done, es, id) && id !in s.used)
  }

  lemma TriedMore(g: Graph, r: Request, found: seq<Item>, more: seq<Item>, done: nat, es: seq<Entry>, e: Entry, id: string)
    requires done <= |found| && found <= more
    ensures Tried(g, r, more, done, es + [e], id) <==> Tried(g, r, found, done, es, id) || id == e.edge.id
  {
    CrossedKept(g, r, found, more, done, id);
    if IdIn(es, id) {
      var x :| x in es && x.edge.id == id;
      assert x in es + [e];
    }
    if id == e.edge.id { assert e in es + [e]; }
    if IdIn(es + [e], id) {
      var x :| x in es + [e] && x.edge.id == id;
      assert x in es || x == e;
    }
  }

  lemma CrossedKept(g: Graph, r: Request, found: seq<Item>, more: seq<Item>, done: nat, id: string)
    requires done <= |found| && found <= more
    ensures CrossedBefore(g, r, more, done, id) <==> CrossedBefore(g, r, found, done, id)
  {
    if CrossedBefore(g, r, found, done, id) {
      var k :| 0 <= k < done && found[k].distance < r.maxHops && Crossing(g, r.direction, found[k].entity, id);
      assert more[k] == found[k];
    }
    if CrossedBefore(g, r, more, done, id) {
      var k :| 0 <= k < done && more[k].distance < r.maxHops && Crossing(g, r.direction, more[k].entity, id);
      assert more[k] == found[k];
    }
  }

  /** What one entry does to the used edges. */
  lemma UsedNext(g: Graph, r: Request, from: Item, e: Entry, s: State)
    requires MaxEdges in s.reasons ==> |s.used| >= r.maxEdges
    ensures var t := Visit(g, r, from, e, s);
            && s.found <= t.found
            && (MaxEdges in t.reasons && MaxEdges !in s.reasons ==> e.edge.id !in s.used)
            && (MaxEdges in s.reasons ==> MaxEdges in t.reasons)
            && t.used == (if MaxEdges in t.reasons then s.used else s.used + {e.edge.id})
  {
    AddedUsed(s.used, e.edge.id);
  }

  lemma AddedUsed(used: set<string>, id: string)
    ensures id in used ==> used + {id} == used
  {}

  lemma VisitUses(g: Graph, r: Request, s: State, done: nat, es: seq<Entry>, e: Entry)
    requires done < |s.found| && UsedRight(g, r, s, done, es) && (MaxEdges in s.reasons ==> |s.used| >= r.maxEdges)
    ensures UsedRight(g, r, Visit(g, r, s.found[done], e, s), done, es + [e])
  {
    var t := Visit(g, r, s.found[done], e, s);
    UsedNext(g, r, s.found[done], e, s);
    forall id ensures Tried(g, r, t.found, done, es + [e], id) <==> Tried(g, r, s.found, done, es, id) || id == e.edge.id {
      TriedMore(g, r, s.found, t.found, done, es, e, id);
    }
    if MaxEdges in s.reasons {
      var id :| Tried(g, r, s.found, done, es, id) && id !in s.used;
      assert Tried(g, r, t.found, done, es + [e], id);
    } else if MaxEdges in t.reasons {
      assert Tried(g, r, t.found, done, es + [e], e.edge.id);
    }
  }

  lemma {:induction false} PrefixUses(g: Graph, r: Request, s: State, done: nat, ns: seq<Entry>, k: nat)
    requires done < |s.found| && k <= |ns| && AllOpen(g, r, s, done, ns) && UsedRight(g, r, s, done, [])
    ensures UsedRight(g, r, VisitAll(g, r, s.found[done], ns[..k], s), done, ns[..k])
  {
    if k == 0 {
      TakeNone(ns);
    } else {
      PrefixUses(g, r, s, done, ns, k - 1);
      OneMoreUses(g, r, s, done, ns, k - 1);
    }
  }

  lemma OneMoreUses(g: Graph, r: Request, s: State, done: nat, ns: seq<Entry>, k: nat)
    requires done < |s.found| && k < |ns| && AllOpen(g, r, s, done, ns)
    requires UsedRight(g, r, VisitAll(g, r, s.found[done], ns[..k], s), done, ns[..k])
    ensures UsedRight(g, r, VisitAll(g, r, s.found[done], ns[..k + 1], s), done, ns[..k + 1])
  {
    assert OpenAt(g, r, s, done, ns, k);
    VisitUses(g, r, VisitAll(g, r, s.found[done], ns[..k], s), done, ns[..k], ns[k]);
    VisitAllNext(g, r, s.found[done], ns, k, s);
    TakeNext(ns, k);
  }

  lemma NextTried(g: Graph, r: Request, found: seq<Item>, done: nat, id: string)
    requires done < |found| && found[done].distance < r.maxHops
    ensures Tried(g, r, found, done + 1, [], id) <==>
            Tried(g, r, found, done, Neighbours(g, r.direction, found[done].entity), id)
  {
    NeighbourIds(g, r.direction, found[done].entity, id);
    if CrossedBefore(g, r, found, done, id) {
      var k :| 0 <= k < done && found[k].distance < r.maxHops && Crossing(g, r.direction, found[k].entity, id);
      assert 0 <= k < done + 1;
    }
  }

  lemma NextUses(g: Graph, r: Request, s: State, done: nat)
    requires done < |s.found| && s.found[done].distance < r.maxHops
    requires UsedRight(g, r, s, done, Neighbours(g, r.direction, s.found[done].entity))
    ensures UsedRight(g, r, s, done + 1, [])
  {
    forall id ensures Tried(g, r, s.found, done + 1, [], id) <==>
                      Tried(g, r, s.found, done, Neighbours(g, r.direction, s.found[done].entity), id)
    {
      NextTried(g, r, s.found, done, id);
    }
    if MaxEdges in s.reasons {
      var id :| Tried(g, r, s.found, done, Neighbours(g, r.direction, s.found[done].entity), id) && id !in s.used;
      assert Tried(g, r, s.found, done + 1, [], id);
    }
  }

  lemma SkippedTried(g: Graph, r: Request, found: seq<Item>, done: nat, id: string)
    requires done < |found| && found[done].distance >= r.maxHops
    ensures Tried(g, r, found, done + 1, [], id) <==> Tried(g, r, found, done, [], id)
  {
    if CrossedBefore(g, r, found, done, id) {
      var k :| 0 <= k < done && found[k].distance < r.maxHops && Crossing(g, r.direction, found[k].entity, id);
      assert 0 <= k < done + 1;
    }
  }

  lemma SkippedUses(g: Graph, r: Request, s: State, t: State, done: nat)
    requires done < |s.found| && UsedRight(g, r, s, done, [])
    requires t.found == s.found && t.used == s.used && (MaxEdges in t.reasons <==> MaxEdges in s.reasons)
    ensures UsedRight(g, r, t, done, [])
    ensures s.found[done].distance >= r.maxHops ==> UsedRight(g, r, t, done + 1, [])
  {
    if s.found[done].distance >= r.maxHops {
      forall id ensures Tried(g, r, t.found, done + 1, [], id) <==> Tried(g, r, s.found, done, [], id) {
        SkippedTried(g, r, s.found, done, id);
      }
      if MaxEdges in s.reasons {
        var id :| Tried(g, r, s.found, done, [], id) && id !in s.used;
        assert Tried(g, r, t.found, done + 1, [], id);
      }
    }
  }

  lemma ExpandUses(g: Graph, r: Request, s: State, done: nat)
    requires Inv(g, r, s, done) && done < |s.found| && s.found[done].distance < r.maxHops && UsedRight(g, r, s, done, [])
    ensures var t := VisitAll(g, r, s.found[done], Neighbours(g, r.direction, s.found[done].entity), s);
            done < |t.found| && UsedRight(g, r, t, done + 1, [])
  {
    var ns := Neighbours(g, r.direction, s.found[done].entity);
    OpenThroughout(g, r, s, done);
    PrefixUses(g, r, s, done, ns, |ns|);
    TakeAll(ns);
    var t := VisitAll(g, r, s.found[done], ns, s);
    assert t.found[done] == s.found[done];
    NextUses(g, r, t, done);
  }

  ghost predicate UsedSoFar(g: Graph, r: Request, s: State) {
    Done(s) <= |s.found| && UsedRight(g, r, s, Done(s), [])
  }

  lemma WithinUses(g: Graph, r: Request, s: State)
    requires !Finished(s) && Inv(g, r, s, s.next) && UsedRight(g, r, s, s.next, [])
    requires s.next + 1 < r.maxPaths && s.found[s.next].distance < r.maxHops
    ensures s.next < |Step(g, r, s).found| && UsedRight(g, r, Step(g, r, s), s.next + 1, [])
  {
    var s1 := s.(next := s.next + 1);
    PopKeeps(g, r, s, s1);
    SkippedUses(g, r, s, s1, s.next);
    ExpandUses(g, r, s1, s.next);
    StepExpands(g, r, s, s1);
  }

  lemma StepUses(g: Graph, r: Request, s: State)
    requires !Finished(s) && Inv(g, r, s, s.next) && UsedRight(g, r, s, s.next, [])
    ensures UsedSoFar(g, r, Step(g, r, s))
  {
    if s.next + 1 < r.maxPaths && s.found[s.next].distance < r.maxHops {
      WithinUses(g, r, s);
    } else {
      IdleUses(g, r, s);
    }
  }

  lemma IdleUses(g: Graph, r: Request, s: State)
    requires !Finished(s) && UsedRight(g, r, s, s.next, [])
    requires s.next + 1 >= r.maxPaths || s.found[s.next].distance >= r.maxHops
    ensures UsedSoFar(g, r, Step(g, r, s))
  {
    IdleStep(g, r, s);
    SkippedUses(g, r, s, Step(g, r, s), s.next);
  }

  lemma {:induction false} RunUses(g: Graph, r: Request, s: State)
    requires Inv(g, r, s, Done(s)) && (s.halted || s.next < r.maxPaths) && UsedSoFar(g, r, s)
    ensures UsedSoFar(g, r, Run(g, r, s))
    decreases r.maxPaths - s.next
  {
    if !Finished(s) {
      StepKeeps(g, r, s);
      StepUses(g, r, s);
      RunUses(g, r, Step(g, r, s));
    }
  }

  // ----- What has been met -----

  ghost predicate CrossedFrom(r: Request, paths: seq<Item>, k: nat, e: Edge) {
    Expanding(r, paths, k) && Touches(e, r.direction, paths[k].entity)
  }

  /** The ids of the edges met while following links. */
  ghost function CrossedIds(g: Graph, r: Request, paths: seq<Item>): set<string> {
    set e | e in g.edges && (exists k: nat :: CrossedFrom(r, paths, k, e)) :: e.id
  }

  ghost predicate Met(g: Graph, r: Request, paths: seq<Item>, v: string) {
    v == r.anchor || exists k: nat :: MetFrom(g, r, paths, k, v)
  }

  ghost predicate MetFrom(g: Graph, r: Request, paths: seq<Item>, k: nat, v: string) {
    Expanding(r, paths, k) && Linked(g, r.direction, paths[k].entity, v)
  }

  /** The anchor and the nodes met while following links. */
  ghost function MetNodes(g: Graph, r: Request, paths: seq<Item>): set<string> {
    {r.anchor} + (set e | e in g.edges && Met(g, r, paths, e.source) :: e.source)
               + (set e | e in g.edges && Met(g, r, paths, e.destination) :: e.destination)
  }

  lemma MetNodesExact(g: Graph, r: Request, paths: seq<Item>, v: string)
    ensures v in MetNodes(g, r, paths) <==> Met(g, r, paths, v)
  {
    if v != r.anchor && Met(g, r, paths, v) {
      var k: nat :| MetFrom(g, r, paths, k, v);
      var e :| e in g.edges && Crosses(e, r.direction, paths[k].entity, v);
    }
  }

  lemma ExpandedIff(g: Graph, r: Request, s: State, k: nat)
    requires Ended(g, r, s)
    ensures Expanding(r, s.found[..s.next], k) <==> k < Done(s) && s.found[k].distance < r.maxHops
    ensures k < s.next ==> s.found[..s.next][k] == s.found[k]
  {}

  lemma TriedIsCrossed(g: Graph, r: Request, s: State, id: string)
    requires Ended(g, r, s) && Done(s) <= |s.found|
    ensures Tried(g, r, s.found, Done(s), [], id) <==> id in CrossedIds(g, r, s.found[..s.next])
  {
    var paths := s.found[..s.next];
    if Tried(g, r, s.found, Done(s), [], id) {
      var k :| 0 <= k < Done(s) && s.found[k].distance < r.maxHops && Crossing(g, r.direction, s.found[k].entity, id);
      var e :| e in g.edges && e.id == id && Touches(e, r.direction, s.found[k].entity);
      ExpandedIff(g, r, s, k);
      assert CrossedFrom(r, paths, k, e);
    }
    if id in CrossedIds(g, r, paths) {
      var e :| e in g.edges && (exists k: nat :: CrossedFrom(r, paths, k, e)) && e.id == id;
      var k: nat :| CrossedFrom(r, paths, k, e);
      ExpandedIff(g, r, s, k);
      assert Crossing(g, r.direction, s.found[k].entity, id);
    }
  }

  /** How many edges were used, and when the edge cap is named. */
  lemma EdgesUsed(g: Graph, r: Request, s: State)
    requires Ended(g, r, s) && UsedSoFar(g, r, s) && |s.used| <= r.maxEdges && (MaxEdges in s.reasons ==> |s.used| >= r.maxEdges)
    ensures var crossed := CrossedIds(g, r, s.found[..s.next]);
            && (MaxEdges in s.reasons <==> |crossed| > r.maxEdges)
            && |s.used| == (if |crossed| <= r.maxEdges then |crossed| else r.maxEdges)
  {
    var crossed := CrossedIds(g, r, s.found[..s.next]);
    forall id ensures Tried(g, r, s.found, Done(s), [], id) <==> id in crossed { TriedIsCrossed(g, r, s, id); }
    if MaxEdges in s.reasons {
      var id :| Tried(g, r, s.found, Done(s), [], id) && id !in s.used;
      Smaller(s.used, crossed, id);
    } else {
      assert s.used == crossed;
    }
  }

  lemma Smaller<T>(a: set<T>, b: set<T>, x: T)
    requires a <= b && x in b && x !in a
    ensures |a| < |b|
  {
    assert b == a + (b - a) && x in b - a;
    assert |b| == |a| + |b - a|;
  }

  lemma NotLarger<T>(a: set<T>, b: set<T>)
    requires a <= b
    ensures |a| <= |b| && (|a| == |b| ==> a == b)
  {
    assert b == a + (b - a);
    assert |b| == |a| + |b - a|;
  }

  // ----- Nodes -----

  lemma VisitedIsMet(g: Graph, r: Request, s: State, origins: seq<Origin>, v: string)
    requires Ended(g, r, s) && Discovered(g, r, s) && Layered(r, s.found, Done(s))
    requires Arranged(g, r, s, origins, Done(s), []) && v in s.visited
    ensures Met(g, r, s.found[..s.next], v)
  {
    var j :| 0 <= j < |s.found| && s.found[j].entity == v;
    if j > 0 {
      var p := origins[j].parent;
      assert Child(g, r, s.found, j, origins[j]);
      NoChildren(s.found, origins, Done(s), j);
      ExpandedIff(g, r, s, p);
      assert Linked(g, r.direction, s.found[p].entity, v);
      assert MetFrom(g, r, s.found[..s.next], p, v);
    }
  }

  lemma NoChildren(found: seq<Item>, origins: seq<Origin>, done: nat, j: nat)
    requires |origins| == |found| && Processed(found, origins, done, []) && UpTo(origins, done) && 1 <= j < |found|
    ensures origins[j].parent < done
  {
  }

  lemma MetIsVisited(g: Graph, r: Request, s: State, v: string)
    requires Ended(g, r, s) && Discovered(g, r, s) && Done(s) <= |s.found| && InnerExpanded(g, r, s.found, Done(s))
    requires Met(g, r, s.found[..s.next], v)
    ensures v in s.visited
  {
    if v == r.anchor {
      assert s.found[0].entity == v;
    } else {
      var k: nat :| MetFrom(g, r, s.found[..s.next], k, v);
      ExpandedIff(g, r, s, k);
      assert LinksFound(g, r, s.found, k);
      LinkedIsVisited(g, r, s, k, v);
    }
  }

  lemma VisitedWithin(g: Graph, r: Request, s: State, origins: seq<Origin>)
    requires Ended(g, r, s) && Discovered(g, r, s) && Layered(r, s.found, Done(s))
    requires Arranged(g, r, s, origins, Done(s), [])
    ensures s.visited <= MetNodes(g, r, s.found[..s.next])
  {
    forall v | v in s.visited ensures v in MetNodes(g, r, s.found[..s.next]) {
      VisitedIsMet(g, r, s, origins, v);
      MetNodesExact(g, r, s.found[..s.next], v);
    }
  }

  lemma MetWithin(g: Graph, r: Request, s: State)
    requires Ended(g, r, s) && Discovered(g, r, s) && Done(s) <= |s.found| && InnerExpanded(g, r, s.found, Done(s))
    ensures MetNodes(g, r, s.found[..s.next]) <= s.visited
  {
    forall v | v in MetNodes(g, r, s.found[..s.next]) ensures v in s.visited {
      MetNodesExact(g, r, s.found[..s.next], v);
      MetIsVisited(g, r, s, v);
    }
  }

  /** The visited nodes are among those met, and are all of them when nothing was refused. */
  lemma VisitedNodes(g: Graph, r: Request, s: State, origins: seq<Origin>)
    requires Ended(g, r, s) && Inv(g, r, s, Done(s)) && Arranged(g, r, s, origins, Done(s), [])
    ensures s.visited <= MetNodes(g, r, s.found[..s.next])
    ensures !Refused(s) ==> s.visited == MetNodes(g, r, s.found[..s.next])
  {
    VisitedWithin(g, r, s, origins);
    if !Refused(s) { MetWithin(g, r, s); }
  }

  // ----- When the node cap is named -----

  /** A node met so far: linked from one of the first `done` items, or the target of an entry. */
  ghost predicate MetSoFar(g: Graph, r: Request, found: seq<Item>, done: nat, es: seq<Entry>, v: string)
    requires done <= |found|
  {
    || (exists k :: 0 <= k < done && found[k].distance < r.maxHops && Linked(g, r.direction, found[k].entity, v))
    || TargetIn(es, v)
  }

  /** A refused node has been met and is still not visited. */
  ghost predicate RefusedRight(g: Graph, r: Request, s: State, done: nat, es: seq<Entry>)
    requires done <= |s.found|
  {
    MaxNodes in s.reasons ==> exists v :: MetSoFar(g, r, s.found, done, es, v) && v !in s.visited
  }

  lemma MetMore(g: Graph, r: Request, found: seq<Item>, more: seq<Item>, done: nat, es: seq<Entry>, e: Entry, v: string)
    requires done <= |found| && found <= more
    requires MetSoFar(g, r, found, done, es, v) || v == e.target
    ensures MetSoFar(g, r, more, done, es + [e], v)
  {
    if v == e.target {
      assert e in es + [e];
    } else if TargetIn(es, v) {
      var x :| x in es && x.target == v;
      assert x in es + [e];
    } else {
      var k :| 0 <= k < done && found[k].distance < r.maxHops && Linked(g, r.direction, found[k].entity, v);
      assert more[k] == found[k];
    }
  }

  lemma VisitRefuses(g: Graph, r: Request, s: State, done: nat, es: seq<Entry>, e: Entry)
    requires done < |s.found| && RefusedRight(g, r, s, done, es) && (MaxNodes in s.reasons ==> |s.visited| >= r.maxNodes)
    ensures RefusedRight(g, r, Visit(g, r, s.found[done], e, s), done, es + [e])
  {
    var t := Visit(g, r, s.found[done], e, s);
    if MaxNodes in s.reasons {
      var v :| MetSoFar(g, r, s.found, done, es, v) && v !in s.visited;
      assert t.visited == s.visited;
      MetMore(g, r, s.found, t.found, done, es, e, v);
    } else if MaxNodes in t.reasons {
      MetMore(g, r, s.found, t.found, done, es, e, e.target);
    }
  }

  lemma {:induction false} PrefixRefuses(g: Graph, r: Request, s: State, done: nat, ns: seq<Entry>, k: nat)
    requires done < |s.found| && k <= |ns| && AllOpen(g, r, s, done, ns) && RefusedRight(g, r, s, done, [])
    ensures RefusedRight(g, r, VisitAll(g, r, s.found[done], ns[..k], s), done, ns[..k])
  {
    if k == 0 {
      TakeNone(ns);
    } else {
      PrefixRefuses(g, r, s, done, ns, k - 1);
      OneMoreRefuses(g, r, s, done, ns, k - 1);
    }
  }

  lemma OneMoreRefuses(g: Graph, r: Request, s: State, done: nat, ns: seq<Entry>, k: nat)
    requires done < |s.found| && k < |ns| && AllOpen(g, r, s, done, ns)
    requires RefusedRight(g, r, VisitAll(g, r, s.found[done], ns[..k], s), done, ns[..k])
    ensures RefusedRight(g, r, VisitAll(g, r, s.found[done], ns[..k + 1], s), done, ns[..k + 1])
  {
    assert OpenAt(g, r, s, done, ns, k);
    VisitRefuses(g, r, VisitAll(g, r, s.found[done], ns[..k], s), done, ns[..k], ns[k]);
    VisitAllNext(g, r, s.found[done], ns, k, s);
    TakeNext(ns, k);
  }

  lemma NextRefuses(g: Graph, r: Request, s: State, done: nat)
    requires done < |s.found| && s.found[done].distance < r.maxHops
    requires RefusedRight(g, r, s, done, Neighbours(g, r.direction, s.found[done].entity))
    ensures RefusedRight(g, r, s, done + 1, [])
  {
    var ns := Neighbours(g, r.direction, s.found[done].entity);
    if MaxNodes in s.reasons {
      var v :| MetSoFar(g, r, s.found, done, ns, v) && v !in s.visited;
      if TargetIn(ns, v) {
        NeighboursExact(g, r.direction, s.found[done].entity);
        var x :| x in ns && x.target == v;
        assert Linked(g, r.direction, s.found[done].entity, v);
      }
      assert MetSoFar(g, r, s.found, done + 1, [], v);
    }
  }

  lemma SkippedRefuses(g: Graph, r: Request, s: State, t: State, done: nat)
    requires done < |s.found| && RefusedRight(g, r, s, done, [])
    requires t.found == s.found && t.visited == s.visited && (MaxNodes in t.reasons ==> MaxNodes in s.reasons)
    ensures RefusedRight(g, r, t, done, []) && RefusedRight(g, r, t, done + 1, [])
  {
    if MaxNodes in t.reasons {
      var v :| MetSoFar(g, r, s.found, done, [], v) && v !in s.visited;
      assert MetSoFar(g, r, t.found, done + 1, [], v);
    }
  }

  lemma ExpandRefuses(g: Graph, r: Request, s: State, done: nat)
    requires Inv(g, r, s, done) && done < |s.found| && s.found[done].distance < r.maxHops && RefusedRight(g, r, s, done, [])
    ensures var t := VisitAll(g, r, s.found[done], Neighbours(g, r.direction, s.found[done].entity), s);
            done < |t.found| && RefusedRight(g, r, t, done + 1, [])
  {
    var ns := Neighbours(g, r.direction, s.found[done].entity);
    OpenThroughout(g, r, s, done);
    PrefixRefuses(g, r, s, done, ns, |ns|);
    TakeAll(ns);
    var t := VisitAll(g, r, s.found[done], ns, s);
    assert t.found[done] == s.found[done];
    NextRefuses(g, r, t, done);
  }

  lemma WithinRefuses(g: Graph, r: Request, s: State)
    requires !Finished(s) && Inv(g, r, s, s.next) && RefusedRight(g, r, s, s.next, [])
    requires s.next + 1 < r.maxPaths && s.found[s.next].distance < r.maxHops
    ensures s.next < |Step(g, r, s).found| && RefusedRight(g, r, Step(g, r, s), s.next + 1, [])
  {
    var s1 := s.(next := s.next + 1);
    PopKeeps(g, r, s, s1);
    SkippedRefuses(g, r, s, s1, s.next);
    ExpandRefuses(g, r, s1, s.next);
    StepExpands(g, r, s, s1);
  }

  ghost predicate RefusedSoFar(g: Graph, r: Request, s: State) {
    Done(s) <= |s.found| && RefusedRight(g, r, s, Done(s), [])
  }

  lemma StepRefuses(g: Graph, r: Request, s: State)
    requires !Finished(s) && Inv(g, r, s, s.next) && RefusedRight(g, r, s, s.next, [])
    ensures RefusedSoFar(g, r, Step(g, r, s))
  {
    if s.next + 1 < r.maxPaths && s.found[s.next].distance < r.maxHops {
      WithinRefuses(g, r, s);
    } else {
      IdleRefuses(g, r, s);
    }
  }

  lemma IdleRefuses(g: Graph, r: Request, s: State)
    requires !Finished(s) && RefusedRight(g, r, s, s.next, [])
    requires s.next + 1 >= r.maxPaths || s.found[s.next].distance >= r.maxHops
    ensures RefusedSoFar(g, r, Step(g, r, s))
  {
    IdleStep(g, r, s);
    SkippedRefuses(g, r, s, Step(g, r, s), s.next);
  }

  lemma {:induction false} RunRefuses(g: Graph, r: Request, s: State)
    requires Inv(g, r, s, Done(s)) && (s.halted || s.next < r.maxPaths) && RefusedSoFar(g, r, s)
    ensures RefusedSoFar(g, r, Run(g, r, s))
    decreases r.maxPaths - s.next
  {
    if !Finished(s) {
      StepKeeps(g, r, s);
      StepRefuses(g, r, s);
      RunRefuses(g, r, Step(g, r, s));
    }
  }

  /** When the node cap is named, a met node is missing among the visited ones. */
  lemma NodesRefused(g: Graph, r: Request, s: State)
    requires Ended(g, r, s) && RefusedSoFar(g, r, s) && MaxNodes in s.reasons
    ensures exists v :: v in MetNodes(g, r, s.found[..s.next]) && v !in s.visited
  {
    var v :| MetSoFar(g, r, s.found, Done(s), [], v) && v !in s.visited;
    var k :| 0 <= k < Done(s) && s.found[k].distance < r.maxHops && Linked(g, r.direction, s.found[k].entity, v);
    ExpandedIff(g, r, s, k);
    assert MetFrom(g, r, s.found[..s.next], k, v);
    MetNodesExact(g, r, s.found[..s.next], v);
  }

  ghost predicate NodeCapRight(r: Request, reasons: set<Reason>, visited: set<string>, met: set<string>) {
    && visited <= met && |visited| <= r.maxNodes
    && (MaxNodes in reasons ==> |visited| == r.maxNodes && |met| > r.maxNodes)
    && (MaxEdges !in reasons && MaxNodes !in reasons ==> visited == met && |met| <= r.maxNodes)
  }

  /** How many nodes were visited, and when the node cap is named. */
  lemma NodesVisited(g: Graph, r: Request, s: State, origins: seq<Origin>)
    requires Ended(g, r, s) && Inv(g, r, s, Done(s)) && Arranged(g, r, s, origins, Done(s), []) && RefusedSoFar(g, r, s)
    ensures NodeCapRight(r, s.reasons, s.visited, MetNodes(g, r, s.found[..s.next]))
  {
    VisitedNodes(g, r, s, origins);
    if MaxNodes in s.reasons {
      NodesRefused(g, r, s);
      var v :| v in MetNodes(g, r, s.found[..s.next]) && v !in s.visited;
      Smaller(s.visited, MetNodes(g, r, s.found[..s.next]), v);
    }
  }

  // ----- The whole report -----

  lemma FinalLimits(nodes: seq<Node>, edges: seq<Edge>, r: Request) returns (g: Graph, s: State, origins: seq<Origin>)
    requires ValidRequest(r)
    ensures g == BuildGraph(nodes, edges) && s == Run(g, r, Initial(r.anchor))
    ensures Inv(g, r, s, Done(s)) && Ended(g, r, s) && Arranged(g, r, s, origins, Done(s), [])
    ensures UsedSoFar(g, r, s) && RefusedSoFar(g, r, s) && Warranted(g, r, s) && HopsWarranted(g, r, s)
  {
    g, s, origins := FinalArranged(nodes, edges, r);
    GraphUniqueIds(nodes, edges);
    FinalUses(g, r);
    FinalRefuses(g, r);
    FinalWarranted(nodes, edges, r);
  }

  lemma FinalUses(g: Graph, r: Request)
    requires ValidRequest(r) && UniqueIds(g.edges)
    ensures UsedSoFar(g, r, Run(g, r, Initial(r.anchor)))
  {
    InitialInv(g, r);
    RunUses(g, r, Initial(r.anchor));
  }

  lemma FinalRefuses(g: Graph, r: Request)
    requires ValidRequest(r) && UniqueIds(g.edges)
    ensures RefusedSoFar(g, r, Run(g, r, Initial(r.anchor)))
  {
    InitialInv(g, r);
    RunRefuses(g, r, Initial(r.anchor));
  }

  ghost predicate HasLinks(g: Graph, r: Request, item: Item) { exists v :: Linked(g, r.direction, item.entity, v) }

  lemma NeighboursIffLinks(g: Graph, r: Request, item: Item)
    ensures Neighbours(g, r.direction, item.entity) != [] <==> HasLinks(g, r, item)
  {
    NeighboursExact(g, r.direction, item.entity);
    if Neighbours(g, r.direction, item.entity) != [] {
      var x := Neighbours(g, r.direction, item.entity)[0];
      assert Linked(g, r.direction, item.entity, x.target);
    }
  }

  /** The hop limit is named when an item at the limit, other than the last one at the path cap, has links. */
  lemma HopsNamed(g: Graph, r: Request, s: State)
    requires Ended(g, r, s) && HopsWarranted(g, r, s) && Layered(r, s.found, Done(s)) && Expanded(g, r, s, Done(s))
    ensures MaxHops in s.reasons <==>
            exists i :: 0 <= i < s.next && i + 1 < r.maxPaths && s.found[i].distance == r.maxHops && HasLinks(g, r, s.found[i])
  {
    if MaxHops in s.reasons {
      var i :| 0 <= i < s.next && i + 1 < r.maxPaths && LimitMet(g, r, s.found[i]);
      assert HasLinks(g, r, s.found[i]);
    }
    if i :| 0 <= i < s.next && i + 1 < r.maxPaths && s.found[i].distance == r.maxHops && HasLinks(g, r, s.found[i]) {
      var v :| Linked(g, r.direction, s.found[i].entity, v);
      assert i < Done(s);
    }
  }

  /** The path cap is named when the list is full and more was to come: a link of the last item, or a node
      visited and not yet reported. */
  lemma PathsNamed(g: Graph, r: Request, s: State)
    requires Ended(g, r, s) && OnePerEntity(s.found, s.visited) && s.found != []
    ensures MaxPaths in s.reasons <==>
            s.next == r.maxPaths && s.next > 0 &&
            (HasLinks(g, r, s.found[s.next - 1]) || exists v :: v in s.visited && !Reports(s.found[..s.next], v))
  {
    if s.next > 0 { NeighboursIffLinks(g, r, s.found[s.next - 1]); }
    if s.next < |s.found| {
      var v := s.found[s.next].entity;
      assert v in s.visited && !Reports(s.found[..s.next], v);
    }
    if v :| v in s.visited && !Reports(s.found[..s.next], v) {
      var j :| 0 <= j < |s.found| && s.found[j].entity == v;
      if j < s.next {
        ReportsAt(s.found, s.next, j);
        assert false;
      }
    }
  }

  /** The edge cap is named when more edges are met than it allows; the rest of the edges is left out. */
  ghost predicate EdgesRight(g: Graph, r: Request, t: Result) {
    var crossed := |CrossedIds(g, r, t.paths)|;
    && (MaxEdges in t.reasons <==> crossed > r.maxEdges)
    && t.excludedEdges == (if t.reasons == {} then 0 else |g.edges| - if crossed <= r.maxEdges then crossed else r.maxEdges)
  }

  /** The node cap is named only when more nodes are met than it allows; with neither it nor the edge cap
      named, all that are met are visited. */
  ghost predicate NodesRight(g: Graph, r: Request, t: Result, visited: set<string>) {
    && (forall i :: 0 <= i < |t.paths| ==> t.paths[i].entity in visited)
    && NodeCapRight(r, t.reasons, visited, MetNodes(g, r, t.paths))
    && t.excludedNodes == (if t.reasons <= {MaxEdges} || |g.nodes| < |visited| then 0 else |g.nodes| - |visited|)
  }

  /** The hop limit is named when an item at the limit has links. */
  ghost predicate HopsRight(g: Graph, r: Request, t: Result) {
    MaxHops in t.reasons <==>
    exists i :: 0 <= i < |t.paths| && i + 1 < r.maxPaths && t.paths[i].distance == r.maxHops && HasLinks(g, r, t.paths[i])
  }

  /** The path cap is named when the list is full and more was to come. */
  ghost predicate PathsRight(g: Graph, r: Request, t: Result, visited: set<string>) {
    MaxPaths in t.reasons <==>
    |t.paths| == r.maxPaths && |t.paths| > 0 &&
    (HasLinks(g, r, t.paths[|t.paths| - 1]) || exists v :: v in visited && !Reports(t.paths, v))
  }

  lemma ReportHops(g: Graph, r: Request, s: State)
    requires Ended(g, r, s) && HopsWarranted(g, r, s) && Layered(r, s.found, Done(s)) && Expanded(g, r, s, Done(s))
    ensures HopsRight(g, r, Report(g, s))
  {
    HopsNamed(g, r, s);
    var paths := s.found[..s.next];
    if MaxHops in s.reasons {
      var i :| 0 <= i < s.next && i + 1 < r.maxPaths && s.found[i].distance == r.maxHops && HasLinks(g, r, s.found[i]);
      assert HasLinks(g, r, paths[i]);
    }
  }

  lemma ReportEdges(g: Graph, r: Request, s: State)
    requires Ended(g, r, s) && UsedSoFar(g, r, s) && (forall id :: id in s.used ==> id in EdgeIds(g.edges))
    requires |s.used| <= r.maxEdges && (MaxEdges in s.reasons ==> |s.used| >= r.maxEdges)
    ensures EdgesRight(g, r, Report(g, s))
  {
    EdgesUsed(g, r, s);
    AtMost(s.used, EdgeIds(g.edges));
  }

  lemma ReportNodes(g: Graph, r: Request, s: State, origins: seq<Origin>)
    requires Ended(g, r, s) && Inv(g, r, s, Done(s)) && Arranged(g, r, s, origins, Done(s), []) && RefusedSoFar(g, r, s)
    ensures NodesRight(g, r, Report(g, s), s.visited)
  {
    NodesVisited(g, r, s, origins);
    NodesFrom(g, r, s);
  }

  lemma NodesFrom(g: Graph, r: Request, s: State)
    requires s.next <= |s.found| && OnePerEntity(s.found, s.visited)
    requires NodeCapRight(r, s.reasons, s.visited, MetNodes(g, r, s.found[..s.next]))
    ensures NodesRight(g, r, Report(g, s), s.visited)
  {
    NotOnlyEdges(s.reasons);
  }

  lemma ReportPaths(g: Graph, r: Request, s: State)
    requires Ended(g, r, s) && OnePerEntity(s.found, s.visited) && s.found != []
    ensures PathsRight(g, r, Report(g, s), s.visited)
  {
    PathsNamed(g, r, s);
  }

  lemma NotOnlyEdges(reasons: set<Reason>)
    ensures reasons * {MaxNodes, MaxPaths, MaxHops} == {} <==> reasons <= {MaxEdges}
  {
    if reasons * {MaxNodes, MaxPaths, MaxHops} == {} {
      forall x | x in reasons ensures x == MaxEdges {
        assert x !in reasons * {MaxNodes, MaxPaths, MaxHops};
      }
    }
  }

  /** Each cap is named exactly when the links of the expanded entities go beyond it, and the counts of what
      is left out are exact. `visited` is the set of nodes discovered. */
  lemma LimitsExact(nodes: seq<Node>, edges: seq<Edge>, r: Request) returns (visited: set<string>)
    requires ValidRequest(r) && r.anchor in NodeMap(nodes)
    ensures var g, t := BuildGraph(nodes, edges), Traversed(nodes, edges, r);
            EdgesRight(g, r, t) && NodesRight(g, r, t, visited) && HopsRight(g, r, t) && PathsRight(g, r, t, visited)
  {
    var g, s, origins := FinalLimits(nodes, edges, r);
    visited := s.visited;
    ReportNodes(g, r, s, origins);
    ReportHops(g, r, s);
    ReportEdges(g, r, s);
    ReportPaths(g, r, s);
  }
}
