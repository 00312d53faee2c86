/** In which order the bounded search discovers nodes, through which edges, and what it leaves out. */
module TraversalOrder {
  import opened Ordering
  import opened Traversal
  import opened TraversalProofs

  // ----- Neighbours in order -----

  /** Every link has its entry, edge by edge. */
  lemma EntryFor(g: Graph, dir: Direction, n: string, e: Edge, v: string) returns (x: Entry)
    requires e in g.edges && Crosses(e, dir, n, v)
    ensures x in Neighbours(g, dir, n) && x.edge == e && x.target == v
  {
    EntryOrder();
    AdjacencyExact(g.edges, dir, n);
    var adj := Adjacency(g.edges, dir, n);
    SortCorrect(adj, EntryLeq);
    MembersOfPermutation(adj, Sort(adj, EntryLeq));
    x :| x in adj && x.edge == e && x.target == v;
  }

  /** Smaller targets come first, and for one target smaller edge ids. */
  ghost predicate Before(x: Entry, y: Entry) {
    StrLeq(x.target, y.target) && (x.target == y.target ==> StrLeq(x.edge.id, y.edge.id))
  }

  lemma NeighboursInOrder(g: Graph, dir: Direction, n: string)
    ensures forall i, j :: 0 <= i < j < |Neighbours(g, dir, n)| ==> Before(Neighbours(g, dir, n)[i], Neighbours(g, dir, n)[j])
  {
    EntryOrder();
    StrOrder();
    var ns := Neighbours(g, dir, n);
    SortCorrect(Adjacency(g.edges, dir, n), EntryLeq);
    forall i, j | 0 <= i < j < |ns| ensures Before(ns[i], ns[j]) { assert EntryLeq(ns[i], ns[j]); }
  }

  // ----- Where each discovered item comes from -----

  /** An item was discovered by expanding item `parent` through the entry `via`. */
  datatype Origin = Origin(parent: nat, via: Entry)

  /** No item before `p` is linked to `v`. */
  ghost predicate FirstLinked(g: Graph, r: Request, found: seq<Item>, p: nat, v: string)
    requires p <= |found|
  {
    forall k :: 0 <= k < p ==> !Linked(g, r.direction, found[k].entity, v)
  }

  /** The edge has the least id of all that lead from `u` to `v`. */
  ghost predicate LeastEdge(g: Graph, r: Request, u: string, v: string, e: Edge) {
    forall f :: f in g.edges && Crosses(f, r.direction, u, v) ==> StrLeq(e.id, f.id)
  }

  ghost predicate Child(g: Graph, r: Request, found: seq<Item>, j: nat, o: Origin)
    requires j < |found|
  {
    && o.parent < j && Leaves(g, r, found[o.parent], o.via) && found[j] == Extend(g, found[o.parent], o.via)
    && FirstLinked(g, r, found, o.parent, found[j].entity)
    && LeastEdge(g, r, found[o.parent].entity, found[j].entity, o.via.edge)
  }

  /** Every item but the anchor is the child of the first item linked to it, through the least edge. */
  ghost predicate Tree(g: Graph, r: Request, found: seq<Item>, origins: seq<Origin>) {
    |origins| == |found| && forall j :: 1 <= j < |found| ==> Child(g, r, found, j, origins[j])
  }

  /** Children of earlier items come first, and those of one item by their names. */
  ghost predicate ByParent(found: seq<Item>, origins: seq<Origin>)
    requires |origins| == |found|
  {
    forall i, j :: 1 <= i < j < |found| ==>
      || origins[i].parent < origins[j].parent
      || (origins[i].parent == origins[j].parent && StrLeq(found[i].entity, found[j].entity))
  }

  ghost predicate UpTo(origins: seq<Origin>, done: nat) {
    forall j :: 1 <= j < |origins| ==> origins[j].parent <= done
  }

  ghost predicate TargetIn(es: seq<Entry>, v: string) { exists x :: x in es && x.target == v }

  /** The children of item `done` are targets of the processed entries. */
  ghost predicate Processed(found: seq<Item>, origins: seq<Origin>, done: nat, es: seq<Entry>)
    requires |origins| == |found|
  {
    forall j :: 1 <= j < |found| && origins[j].parent == done ==> TargetIn(es, found[j].entity)
  }

  /** All discoveries come before the link from item `k` to `v` would be reached. */
  ghost predicate AllBefore(found: seq<Item>, origins: seq<Origin>, k: nat, v: string)
    requires |origins| == |found|
  {
    forall j :: 1 <= j < |found| ==>
      || origins[j].parent < k
      || (origins[j].parent == k && StrLeq(found[j].entity, v) && found[j].entity != v)
  }

  /** A link of an expanded item to a node that has not been visited comes after all discoveries. */
  ghost predicate CutBelow(g: Graph, r: Request, s: State, origins: seq<Origin>, done: nat)
    requires |origins| == |s.found| && done <= |s.found|
  {
    forall k, v :: 0 <= k < done && s.found[k].distance < r.maxHops &&
                   Linked(g, r.direction, s.found[k].entity, v) && v !in s.visited ==>
      AllBefore(s.found, origins, k, v)
  }

  ghost predicate CutAt(s: State, origins: seq<Origin>, done: nat, es: seq<Entry>)
    requires |origins| == |s.found|
  {
    forall x :: x in es && x.target !in s.visited ==> AllBefore(s.found, origins, done, x.target)
  }

  ghost predicate Arranged(g: Graph, r: Request, s: State, origins: seq<Origin>, done: nat, es: seq<Entry>) {
    && Tree(g, r, s.found, origins) && ByParent(s.found, origins) && UpTo(origins, done)
    && Processed(s.found, origins, done, es)
    && done <= |s.found| && CutBelow(g, r, s, origins, done) && CutAt(s, origins, done, es)
  }

  // ----- One entry -----

  /** All targets of the entries sort before `e`, entry by entry. */
  ghost predicate AllPrecede(es: seq<Entry>, e: Entry) { forall x :: x in es ==> Before(x, e) }

  lemma UndiscoveredIsLater(s: State, origins: seq<Origin>, done: nat, es: seq<Entry>, e: Entry)
    requires |origins| == |s.found| && UpTo(origins, done) && Processed(s.found, origins, done, es) && AllPrecede(es, e)
    requires OnePerEntity(s.found, s.visited) && e.target !in s.visited
    ensures AllBefore(s.found, origins, done, e.target)
  {
    forall j | 1 <= j < |s.found| && origins[j].parent == done
      ensures StrLeq(s.found[j].entity, e.target) && s.found[j].entity != e.target
    {
      var x :| x in es && x.target == s.found[j].entity;
      assert Before(x, e);
    }
  }

  /** An entry that discovers nothing. */
  lemma PassedEntry(g: Graph, r: Request, s: State, t: State, origins: seq<Origin>, done: nat, es: seq<Entry>, e: Entry)
    requires Arranged(g, r, s, origins, done, es) && AllPrecede(es, e) && OnePerEntity(s.found, s.visited)
    requires t.found == s.found && t.visited == s.visited
    ensures Arranged(g, r, t, origins, done, es + [e])
  {
    forall j | 1 <= j < |t.found| && origins[j].parent == done ensures TargetIn(es + [e], t.found[j].entity) {
      var x :| x in es && x.target == s.found[j].entity;
      assert x in es + [e];
    }
    forall x | x in es + [e] && x.target !in t.visited ensures AllBefore(t.found, origins, done, x.target) {
      if x !in es { UndiscoveredIsLater(s, origins, done, es, e); }
    }
  }

  lemma FoundIsVisited(found: seq<Item>, visited: set<string>, v: string, k: int)
    requires OnePerEntity(found, visited) && Reached(found, v, k)
    ensures v in visited
  {}

  lemma LinkedIsVisited(g: Graph, r: Request, s: State, k: nat, v: string)
    requires k < |s.found| && LinksFound(g, r, s.found, k) && OnePerEntity(s.found, s.visited)
    requires Linked(g, r.direction, s.found[k].entity, v)
    ensures v in s.visited
  {
    FoundIsVisited(s.found, s.visited, v, s.found[k].distance + 1);
  }

  lemma NewIsFirstLinked(g: Graph, r: Request, s: State, done: nat, v: string)
    requires done < |s.found| && InnerExpanded(g, r, s.found, done) && Layered(r, s.found, done)
    requires OnePerEntity(s.found, s.visited) && s.found[done].distance < r.maxHops && v !in s.visited
    ensures FirstLinked(g, r, s.found, done, v)
  {
    forall k | 0 <= k < done ensures !Linked(g, r.direction, s.found[k].entity, v) {
      assert s.found[k].distance <= s.found[done].distance;
      assert LinksFound(g, r, s.found, k);
      if Linked(g, r.direction, s.found[k].entity, v) {
        LinkedIsVisited(g, r, s, k, v);
        assert false;
      }
    }
  }

  /** Discovered at place `k` of its neighbours, the target has no earlier entry, so this edge is the least. */
  lemma NewHasLeastEdge(g: Graph, r: Request, s: State, u: string, ns: seq<Entry>, k: nat)
    requires ns == Neighbours(g, r.direction, u) && k < |ns| && ns[k].target !in s.visited
    requires forall x :: x in ns[..k] ==> x.target in s.visited
    ensures LeastEdge(g, r, u, ns[k].target, ns[k].edge)
  {
    NeighboursInOrder(g, r.direction, u);
    forall f | f in g.edges && Crosses(f, r.direction, u, ns[k].target) ensures StrLeq(ns[k].edge.id, f.id) {
      var x := EntryFor(g, r.direction, u, f, ns[k].target);
      var i :| 0 <= i < |ns| && ns[i] == x;
      assert x !in ns[..k];
      StrLeqTotal(ns[k].edge.id, ns[k].edge.id);
      if k < i { assert Before(ns[k], ns[i]); }
    }
  }

  lemma MoreOrigins(g: Graph, r: Request, found: seq<Item>, origins: seq<Origin>, item: Item, o: Origin)
    requires Tree(g, r, found, origins) && ByParent(found, origins) && UpTo(origins, o.parent) && found != []
    requires o.parent < |found| && Child(g, r, found + [item], |found|, o)
    requires forall j :: 1 <= j < |found| && origins[j].parent == o.parent ==> StrLeq(found[j].entity, item.entity)
    ensures Tree(g, r, found + [item], origins + [o]) && ByParent(found + [item], origins + [o])
  {
    var more, all := found + [item], origins + [o];
    forall j | 1 <= j < |more| ensures Child(g, r, more, j, all[j]) {
      if j < |found| {
        assert Child(g, r, found, j, origins[j]);
        ChildKept(g, r, found, more, j, origins[j]);
      }
    }
  }

  lemma ChildKept(g: Graph, r: Request, found: seq<Item>, more: seq<Item>, j: nat, o: Origin)
    requires j < |found| && found <= more && Child(g, r, found, j, o)
    ensures Child(g, r, more, j, o)
  {
    forall k | 0 <= k < o.parent ensures !Linked(g, r.direction, more[k].entity, more[j].entity) {
      assert more[k] == found[k];
    }
  }

  /** With nothing refused, all targets of processed entries and all links of earlier items are visited. */
  lemma NothingLeft(g: Graph, r: Request, s: State, t: State, origins: seq<Origin>, done: nat, es: seq<Entry>)
    requires |origins| == |t.found| && done < |s.found| && s.found <= t.found && s.visited <= t.visited
    requires InnerExpanded(g, r, s.found, done) && OnePerEntity(s.found, s.visited)
    requires forall x :: x in es ==> x.target in t.visited
    ensures CutBelow(g, r, t, origins, done) && CutAt(t, origins, done, es)
  {
    forall k, v | 0 <= k < done && t.found[k].distance < r.maxHops && Linked(g, r.direction, t.found[k].entity, v)
      ensures v in t.visited
    {
      assert LinksFound(g, r, s.found, k);
      FoundIsVisited(s.found, s.visited, v, s.found[k].distance + 1);
    }
  }

  lemma ProcessedVisited(s: State, es: seq<Entry>, k: nat)
    requires AllReached(s.found, es, k) && OnePerEntity(s.found, s.visited)
    ensures forall x :: x in es ==> x.target in s.visited
  {
    forall x | x in es ensures x.target in s.visited { FoundIsVisited(s.found, s.visited, x.target, k + 1); }
  }

  /** What the invariant of the search says for the arrangement, while item `done` is expanded. */
  ghost predicate Open(g: Graph, r: Request, s: State, done: nat, es: seq<Entry>) {
    && done < |s.found| && s.found[done].distance < r.maxHops
    && Layered(r, s.found, done) && OnePerEntity(s.found, s.visited)
    && (!Refused(s) ==> InnerExpanded(g, r, s.found, done) && AllReached(s.found, es, s.found[done].distance))
  }

  /** Discovering an item keeps the tree. */
  lemma NewEntry(g: Graph, r: Request, s: State, origins: seq<Origin>, done: nat, ns: seq<Entry>, k: nat)
    requires k < |ns| && Open(g, r, s, done, ns[..k]) && !Refused(s)
    requires ns == Neighbours(g, r.direction, s.found[done].entity) && Arranged(g, r, s, origins, done, ns[..k])
    requires Leaves(g, r, s.found[done], ns[k]) && ns[k].target !in s.visited && AllPrecede(ns[..k], ns[k])
    ensures var item := Extend(g, s.found[done], ns[k]);
            && Tree(g, r, s.found + [item], origins + [Origin(done, ns[k])])
            && ByParent(s.found + [item], origins + [Origin(done, ns[k])])
  {
    var item, o := Extend(g, s.found[done], ns[k]), Origin(done, ns[k]);
    NewIsFirstLinked(g, r, s, done, ns[k].target);
    ProcessedVisited(s, ns[..k], s.found[done].distance);
    NewHasLeastEdge(g, r, s, s.found[done].entity, ns, k);
    UndiscoveredIsLater(s, origins, done, ns[..k], ns[k]);
    NewChild(g, r, s.found, item, o);
    MoreOrigins(g, r, s.found, origins, item, o);
  }

  lemma NewChild(g: Graph, r: Request, found: seq<Item>, item: Item, o: Origin)
    requires o.parent < |found| && Leaves(g, r, found[o.parent], o.via) && item == Extend(g, found[o.parent], o.via)
    requires FirstLinked(g, r, found, o.parent, item.entity)
    requires LeastEdge(g, r, found[o.parent].entity, item.entity, o.via.edge)
    ensures Child(g, r, found + [item], |found|, o)
  {
    var more := found + [item];
    forall k | 0 <= k < o.parent ensures !Linked(g, r.direction, more[k].entity, item.entity) {
      assert more[k] == found[k];
    }
  }

  lemma NewProcessed(found: seq<Item>, origins: seq<Origin>, done: nat, es: seq<Entry>, e: Entry, item: Item)
    requires |origins| == |found| && found != [] && UpTo(origins, done) && Processed(found, origins, done, es)
    requires item.entity == e.target
    ensures UpTo(origins + [Origin(done, e)], done)
    ensures Processed(found + [item], origins + [Origin(done, e)], done, es + [e])
  {
    var more, all := found + [item], origins + [Origin(done, e)];
    forall j | 1 <= j < |more| && all[j].parent == done ensures TargetIn(es + [e], more[j].entity) {
      if j < |found| {
        var x :| x in es && x.target == found[j].entity;
        assert x in es + [e];
      } else {
        assert e in es + [e];
      }
    }
  }

  lemma DiscoveringEntry(g: Graph, r: Request, s: State, t: State, origins: seq<Origin>, done: nat, ns: seq<Entry>, k: nat)
    requires k < |ns| && Open(g, r, s, done, ns[..k]) && !Refused(s)
    requires ns == Neighbours(g, r.direction, s.found[done].entity) && Arranged(g, r, s, origins, done, ns[..k])
    requires Leaves(g, r, s.found[done], ns[k]) && ns[k].target !in s.visited && AllPrecede(ns[..k], ns[k])
    requires t.found == s.found + [Extend(g, s.found[done], ns[k])] && t.visited == s.visited + {ns[k].target}
    ensures Arranged(g, r, t, origins + [Origin(done, ns[k])], done, ns[..k] + [ns[k]])
  {
    NewEntry(g, r, s, origins, done, ns, k);
    NewProcessed(s.found, origins, done, ns[..k], ns[k], Extend(g, s.found[done], ns[k]));
    ProcessedVisited(s, ns[..k], s.found[done].distance);
    NothingLeft(g, r, s, t, origins + [Origin(done, ns[k])], done, ns[..k] + [ns[k]]);
  }

  lemma VisitArranges(g: Graph, r: Request, s: State, origins: seq<Origin>, done: nat, ns: seq<Entry>, k: nat)
    returns (more: seq<Origin>)
    requires k < |ns| && Open(g, r, s, done, ns[..k]) && Capped(g, r, s)
    requires ns == Neighbours(g, r.direction, s.found[done].entity) && Arranged(g, r, s, origins, done, ns[..k])
    requires Leaves(g, r, s.found[done], ns[k]) && AllPrecede(ns[..k], ns[k])
    ensures Arranged(g, r, Visit(g, r, s.found[done], ns[k], s), more, done, ns[..k] + [ns[k]])
  {
    var t := Visit(g, r, s.found[done], ns[k], s);
    if t.found != s.found {
      more := origins + [Origin(done, ns[k])];
      DiscoveryUnrefused(g, r, s, ns[k], s.found[done]);
      DiscoveryIs(g, r, s.found[done], ns[k], s);
      DiscoveringEntry(g, r, s, t, origins, done, ns, k);
    } else {
      more := origins;
      SameVisited(g, r, s.found[done], ns[k], s);
      PassedEntry(g, r, s, t, origins, done, ns[..k], ns[k]);
    }
  }

  lemma DiscoveryIs(g: Graph, r: Request, from: Item, e: Entry, s: State)
    requires Visit(g, r, from, e, s).found != s.found
    ensures var t := Visit(g, r, from, e, s);
            t.found == s.found + [Extend(g, from, e)] && t.visited == s.visited + {e.target}
  {}

  lemma SameVisited(g: Graph, r: Request, from: Item, e: Entry, s: State)
    requires Visit(g, r, from, e, s).found == s.found
    ensures Visit(g, r, from, e, s).visited == s.visited
  {}

  lemma PrefixPrecedes(g: Graph, dir: Direction, n: string, k: nat)
    requires k < |Neighbours(g, dir, n)|
    ensures AllPrecede(Neighbours(g, dir, n)[..k], Neighbours(g, dir, n)[k])
  {
    NeighboursInOrder(g, dir, n);
  }

  /** After the first `k` entries the search is still open for the rest. */
  ghost predicate OpenAt(g: Graph, r: Request, s: State, done: nat, ns: seq<Entry>, k: nat)
    requires done < |s.found| && k <= |ns|
  {
    var m := VisitAll(g, r, s.found[done], ns[..k], s);
    m.found[done] == s.found[done] && Open(g, r, m, done, ns[..k]) && Capped(g, r, m)
  }

  ghost predicate AllOpen(g: Graph, r: Request, s: State, done: nat, ns: seq<Entry>)
    requires done < |s.found|
  {
    forall k: nat :: k <= |ns| ==> OpenAt(g, r, s, done, ns, k)
  }

  lemma OpenAfter(g: Graph, r: Request, s: State, done: nat, ns: seq<Entry>, k: nat)
    requires Inv(g, r, s, done) && done < |s.found| && s.found[done].distance < r.maxHops && k <= |ns|
    requires forall e :: e in ns ==> Leaves(g, r, s.found[done], e)
    ensures OpenAt(g, r, s, done, ns, k)
  {
    VisitAllKeeps(g, r, s, done, ns[..k]);
  }

  lemma OpenThroughout(g: Graph, r: Request, s: State, done: nat)
    requires Inv(g, r, s, done) && done < |s.found| && s.found[done].distance < r.maxHops
    ensures AllOpen(g, r, s, done, Neighbours(g, r.direction, s.found[done].entity))
  {
    var ns := Neighbours(g, r.direction, s.found[done].entity);
    LeavesAll(g, r, s.found[done]);
    forall k: nat | k <= |ns| ensures OpenAt(g, r, s, done, ns, k) { OpenAfter(g, r, s, done, ns, k); }
  }

  lemma VisitAllNext(g: Graph, r: Request, from: Item, ns: seq<Entry>, k: nat, s: State)
    requires k < |ns|
    ensures VisitAll(g, r, from, ns[..k + 1], s) == Visit(g, r, from, ns[k], VisitAll(g, r, from, ns[..k], s))
  {
    TakeNext(ns, k);
  }

  lemma {:induction false} PrefixArranges(
    g: Graph, r: Request, s: State, origins: seq<Origin>, done: nat, ns: seq<Entry>, k: nat) returns (more: seq<Origin>)
    requires done < |s.found| && k <= |ns| && AllOpen(g, r, s, done, ns)
    requires ns == Neighbours(g, r.direction, s.found[done].entity) && Arranged(g, r, s, origins, done, [])
    ensures Arranged(g, r, VisitAll(g, r, s.found[done], ns[..k], s), more, done, ns[..k])
  {
    if k == 0 {
      more := origins;
      TakeNone(ns);
    } else {
      more := PrefixArranges(g, r, s, origins, done, ns, k - 1);
      more := OneMoreArranged(g, r, s, more, done, ns, k - 1);
    }
  }

  lemma OneMoreArranged(g: Graph, r: Request, s: State, origins: seq<Origin>, done: nat, ns: seq<Entry>, k: nat)
    returns (more: seq<Origin>)
    requires done < |s.found| && k < |ns| && AllOpen(g, r, s, done, ns)
    requires ns == Neighbours(g, r.direction, s.found[done].entity)
    requires Arranged(g, r, VisitAll(g, r, s.found[done], ns[..k], s), origins, done, ns[..k])
    ensures Arranged(g, r, VisitAll(g, r, s.found[done], ns[..k + 1], s), more, done, ns[..k + 1])
  {
    assert OpenAt(g, r, s, done, ns, k);
    LeavesAll(g, r, s.found[done]);
    PrefixPrecedes(g, r.direction, s.found[done].entity, k);
    more := VisitArranges(g, r, VisitAll(g, r, s.found[done], ns[..k], s), origins, done, ns, k);
    VisitAllNext(g, r, s.found[done], ns, k, s);
    TakeNext(ns, k);
  }

  // ----- One step -----

  /** After an item the arrangement stands for the next one. */
  lemma NextArranged(g: Graph, r: Request, s: State, origins: seq<Origin>, done: nat)
    requires done < |s.found| && s.found[done].distance < r.maxHops
    requires Arranged(g, r, s, origins, done, Neighbours(g, r.direction, s.found[done].entity))
    ensures Arranged(g, r, s, origins, done + 1, [])
  {
    NeighboursExact(g, r.direction, s.found[done].entity);
    forall v | Linked(g, r.direction, s.found[done].entity, v) && v !in s.visited
      ensures AllBefore(s.found, origins, done, v)
    {
      var x :| x in Neighbours(g, r.direction, s.found[done].entity) && x.target == v;
    }
  }

  lemma SkippedArranged(g: Graph, r: Request, s: State, t: State, origins: seq<Origin>, done: nat)
    requires Arranged(g, r, s, origins, done, []) && done < |s.found| && t.found == s.found && t.visited == s.visited
    ensures Arranged(g, r, t, origins, done, [])
    ensures s.found[done].distance >= r.maxHops ==> Arranged(g, r, t, origins, done + 1, [])
  {}

  lemma ExpandArranges(g: Graph, r: Request, s: State, origins: seq<Origin>, done: nat) returns (more: seq<Origin>)
    requires Inv(g, r, s, done) && done < |s.found| && s.found[done].distance < r.maxHops
    requires Arranged(g, r, s, origins, done, [])
    ensures var t := VisitAll(g, r, s.found[done], Neighbours(g, r.direction, s.found[done].entity), s);
            Arranged(g, r, t, more, done + 1, [])
  {
    var ns := Neighbours(g, r.direction, s.found[done].entity);
    var t := VisitAll(g, r, s.found[done], ns, s);
    OpenThroughout(g, r, s, done);
    more := PrefixArranges(g, r, s, origins, done, ns, |ns|);
    TakeAll(ns);
    assert t.found[done] == s.found[done];
    NextArranged(g, r, t, more, done);
  }

  lemma WithinArranges(g: Graph, r: Request, s: State, origins: seq<Origin>) returns (more: seq<Origin>)
    requires !Finished(s) && Inv(g, r, s, s.next) && Arranged(g, r, s, origins, s.next, [])
    requires s.next + 1 < r.maxPaths && s.found[s.next].distance < r.maxHops
    ensures Arranged(g, r, Step(g, r, s), more, s.next + 1, [])
  {
    var s1 := s.(next := s.next + 1);
    PopKeeps(g, r, s, s1);
    SkippedArranged(g, r, s, s1, origins, s.next);
    more := ExpandArranges(g, r, s1, origins, s.next);
    StepExpands(g, r, s, s1);
  }

  /** A step that expands nothing. */
  lemma IdleStep(g: Graph, r: Request, s: State)
    requires !Finished(s) && (s.next + 1 >= r.maxPaths || s.found[s.next].distance >= r.maxHops)
    ensures var t := Step(g, r, s);
            && t.found == s.found && t.used == s.used && t.visited == s.visited
            && t.reasons <= s.reasons + {MaxHops, MaxPaths} && s.reasons <= t.reasons
            && (Done(t) == s.next || (Done(t) == s.next + 1 && s.found[s.next].distance >= r.maxHops))
  {}

  lemma IdleArranges(g: Graph, r: Request, s: State, origins: seq<Origin>)
    requires !Finished(s) && Arranged(g, r, s, origins, s.next, [])
    requires s.next + 1 >= r.maxPaths || s.found[s.next].distance >= r.maxHops
    ensures Arranged(g, r, Step(g, r, s), origins, Done(Step(g, r, s)), [])
  {
    IdleStep(g, r, s);
    SkippedArranged(g, r, s, Step(g, r, s), origins, s.next);
  }

  lemma StepArranges(g: Graph, r: Request, s: State, origins: seq<Origin>) returns (more: seq<Origin>)
    requires !Finished(s) && Inv(g, r, s, s.next) && Arranged(g, r, s, origins, s.next, [])
    ensures Arranged(g, r, Step(g, r, s), more, Done(Step(g, r, s)), [])
  {
    if s.next + 1 < r.maxPaths && s.found[s.next].distance < r.maxHops {
      more := WithinArranges(g, r, s, origins);
    } else {
      more := origins;
      IdleArranges(g, r, s, origins);
    }
  }

  lemma {:induction false} RunArranges(g: Graph, r: Request, s: State, origins: seq<Origin>) returns (more: seq<Origin>)
    requires Inv(g, r, s, Done(s)) && (s.halted || s.next < r.maxPaths) && Arranged(g, r, s, origins, Done(s), [])
    ensures Arranged(g, r, Run(g, r, s), more, Done(Run(g, r, s)), [])
    decreases r.maxPaths - s.next
  {
    more := origins;
    if !Finished(s) {
      StepKeeps(g, r, s);
      var next := StepArranges(g, r, s, origins);
      more := RunArranges(g, r, Step(g, r, s), next);
    }
  }

  lemma FinalArranged(nodes: seq<Node>, edges: seq<Edge>, r: Request) returns (g: Graph, s: State, origins: seq<Origin>)
    requires ValidRequest(r)
    ensures g == BuildGraph(nodes, edges) && s == Run(g, r, Initial(r.anchor))
    ensures Inv(g, r, s, Done(s)) && Ended(g, r, s) && Arranged(g, r, s, origins, Done(s), [])
  {
    g, s := FinalState(nodes, edges, r);
    GraphUniqueIds(nodes, edges);
    InitialInv(g, r);
    var start: Entry :| true;
    origins := RunArranges(g, r, Initial(r.anchor), [Origin(0, start)]);
  }

  // ----- What is reported -----

  /** The order of a report: every entity after the anchor comes from the first reported one linked to it,
      through the edge of least id; children of earlier ones come first, and those of one by name. */
  ghost predicate ReportedInOrder(g: Graph, r: Request, paths: seq<Item>, origins: seq<Origin>) {
    Tree(g, r, paths, origins) && ByParent(paths, origins)
  }

  lemma PrefixOfTree(g: Graph, r: Request, found: seq<Item>, origins: seq<Origin>, n: nat)
    requires Tree(g, r, found, origins) && ByParent(found, origins) && n <= |found|
    ensures Tree(g, r, found[..n], origins[..n]) && ByParent(found[..n], origins[..n])
  {
    forall j | 1 <= j < n ensures Child(g, r, found[..n], j, origins[..n][j]) {
      assert Child(g, r, found, j, origins[j]);
      forall k | 0 <= k < origins[j].parent ensures !Linked(g, r.direction, found[..n][k].entity, found[..n][j].entity) {
        assert found[..n][k] == found[k];
      }
    }
  }

  /** An item whose links have been followed: within the hop limit, and not the last one at the path cap. */
  ghost predicate Expanding(r: Request, paths: seq<Item>, k: nat) {
    k < |paths| && k + 1 < r.maxPaths && paths[k].distance < r.maxHops
  }

  /** A link that has been followed to a node that is not reported comes after all that is reported. */
  ghost predicate UnreportedLater(g: Graph, r: Request, paths: seq<Item>, origins: seq<Origin>)
    requires |origins| == |paths|
  {
    forall k: nat, v :: Expanding(r, paths, k) && Linked(g, r.direction, paths[k].entity, v) && !Reports(paths, v) ==>
      AllBefore(paths, origins, k, v)
  }

  lemma ExpandedBefore(g: Graph, r: Request, s: State, k: nat)
    requires Ended(g, r, s) && Expanding(r, s.found[..s.next], k)
    ensures k < Done(s) && s.found[k].distance < r.maxHops && s.found[..s.next][k] == s.found[k]
  {}

  /** A discovered node that was not reported was discovered after all that were. */
  lemma QueuedLater(g: Graph, r: Request, s: State, origins: seq<Origin>, k: nat, v: string)
    requires Tree(g, r, s.found, origins) && ByParent(s.found, origins) && OnePerEntity(s.found, s.visited)
    requires 0 < s.next <= |s.found| && k < s.next && v in s.visited && !Reports(s.found[..s.next], v)
    requires Linked(g, r.direction, s.found[k].entity, v)
    ensures AllBefore(s.found[..s.next], origins[..s.next], k, v)
  {
    var q :| 0 <= q < |s.found| && s.found[q].entity == v;
    if q < s.next {
      ReportsAt(s.found, s.next, q);
      assert false;
    }
    assert Child(g, r, s.found, q, origins[q]);
    FirstIsNoLater(g, r, s.found, origins[q].parent, k, v);
    BeforeQueued(s.found, origins, s.next, q, k);
  }

  lemma BeforeQueued(found: seq<Item>, origins: seq<Origin>, n: nat, q: nat, k: nat)
    requires |origins| == |found| && ByParent(found, origins) && 1 <= n <= q < |found| && origins[q].parent <= k
    requires forall j :: 0 <= j < q ==> found[j].entity != found[q].entity
    ensures AllBefore(found[..n], origins[..n], k, found[q].entity)
  {}

  lemma ReportsAt(found: seq<Item>, n: nat, q: nat)
    requires q < n <= |found|
    ensures Reports(found[..n], found[q].entity)
  {
    assert found[..n][q].entity == found[q].entity;
  }

  lemma FirstIsNoLater(g: Graph, r: Request, found: seq<Item>, p: nat, k: nat, v: string)
    requires p <= |found| && k < |found| && FirstLinked(g, r, found, p, v) && Linked(g, r.direction, found[k].entity, v)
    ensures p <= k
  {}

  lemma BeforeInPrefix(found: seq<Item>, origins: seq<Origin>, n: nat, k: nat, v: string)
    requires |origins| == |found| && n <= |found| && AllBefore(found, origins, k, v)
    ensures AllBefore(found[..n], origins[..n], k, v)
  {}

  lemma FinalUnreported(g: Graph, r: Request, s: State, origins: seq<Origin>, k: nat, v: string)
    requires Tree(g, r, s.found, origins) && ByParent(s.found, origins) && OnePerEntity(s.found, s.visited)
    requires 0 < s.next <= |s.found| && Done(s) <= |s.found| && CutBelow(g, r, s, origins, Done(s))
    requires k < s.next && k < Done(s) && s.found[k].distance < r.maxHops
    requires Linked(g, r.direction, s.found[k].entity, v) && !Reports(s.found[..s.next], v)
    ensures AllBefore(s.found[..s.next], origins[..s.next], k, v)
  {
    if v in s.visited {
      QueuedLater(g, r, s, origins, k, v);
    } else {
      BeforeInPrefix(s.found, origins, s.next, k, v);
    }
  }

  /** Whatever cap has fired, the report follows the links of the whole graph in one fixed order, and what
      is left out comes later in that order. */
  lemma ReportOrder(nodes: seq<Node>, edges: seq<Edge>, r: Request) returns (origins: seq<Origin>)
    requires ValidRequest(r)
    ensures var g, paths := BuildGraph(nodes, edges), Traversed(nodes, edges, r).paths;
            ReportedInOrder(g, r, paths, origins) && UnreportedLater(g, r, paths, origins)
  {
    var g, s, all := FinalArranged(nodes, edges, r);
    if r.anchor !in g.nodes { return []; }
    PrefixOfTree(g, r, s.found, all, s.next);
    origins := all[..s.next];
    var paths := s.found[..s.next];
    forall k: nat, v | Expanding(r, paths, k) && Linked(g, r.direction, paths[k].entity, v) && !Reports(paths, v)
      ensures AllBefore(paths, origins, k, v)
    {
      ExpandedBefore(g, r, s, k);
      FinalUnreported(g, r, s, all, k, v);
    }
  }

  // ----- Through which edges -----

  /** Every hop of a path takes the edge of least id. */
  ghost predicate LeastHops(g: Graph, r: Request, path: seq<string>, hops: seq<Hop>) {
    |path| == |hops| + 1 && forall i :: 0 <= i < |hops| ==> LeastEdge(g, r, path[i], path[i + 1], hops[i].edge)
  }

  lemma {:induction false} LeastEvidence(g: Graph, r: Request, found: seq<Item>, origins: seq<Origin>, j: nat)
    returns (hops: seq<Hop>)
    requires Tree(g, r, found, origins) && j < |found| && found[0] == AnchorItem(r.anchor)
    ensures Evidence(g, r.direction, found[j], hops) && LeastHops(g, r, found[j].path, hops)
    ensures |found[j].path| > 0 && found[j].path[|found[j].path| - 1] == found[j].entity
    decreases j
  {
    if j == 0 {
      hops := [];
    } else {
      var o := origins[j];
      assert Child(g, r, found, j, o);
      var before := LeastEvidence(g, r, found, origins, o.parent);
      EvidenceExtends(g, r.direction, found[o.parent], before, o.via);
      hops := before + [Hop(o.via.edge, NodeOf(g, o.via.target))];
      LeastExtends(g, r, found[o.parent].path, before, found[j].entity, hops[|before|]);
    }
  }

  lemma LeastExtends(g: Graph, r: Request, path: seq<string>, hops: seq<Hop>, v: string, h: Hop)
    requires LeastHops(g, r, path, hops) && LeastEdge(g, r, path[|path| - 1], v, h.edge)
    ensures LeastHops(g, r, path + [v], hops + [h])
  {
    var p, hs := path + [v], hops + [h];
    forall i | 0 <= i < |hs| ensures LeastEdge(g, r, p[i], p[i + 1], hs[i].edge) {
      if i < |hops| { assert LeastEdge(g, r, path[i], path[i + 1], hops[i].edge); }
    }
  }

  /** The evidence of a reported path is that of the edges of least id between its nodes. */
  lemma ReportedThroughLeastEdges(nodes: seq<Node>, edges: seq<Edge>, r: Request, i: nat) returns (hops: seq<Hop>)
    requires ValidRequest(r) && i < |Traversed(nodes, edges, r).paths|
    ensures var g, item := BuildGraph(nodes, edges), Traversed(nodes, edges, r).paths[i];
            Evidence(g, r.direction, item, hops) && LeastHops(g, r, item.path, hops)
  {
    var g, s, origins := FinalArranged(nodes, edges, r);
    hops := LeastEvidence(g, r, s.found, origins, i);
  }

  // ----- Which nodes and edges count -----

  lemma {:induction false} LastNodeCounts(nodes: seq<Node>, i: nat)
    requires i < |nodes| && forall k :: i < k < |nodes| ==> nodes[k].id != nodes[i].id
    ensures nodes[i].id in NodeMap(nodes) && NodeMap(nodes)[nodes[i].id] == nodes[i]
  {
    if i < |nodes| - 1 { LastNodeCounts(nodes[..|nodes| - 1], i); }
  }

  lemma {:induction false} OnlyListedNodes(nodes: seq<Node>, id: string)
    ensures id in NodeMap(nodes) <==> exists n :: n in nodes && n.id == id
  {
    if nodes != [] {
      OnlyListedNodes(nodes[..|nodes| - 1], id);
      SplitLast(nodes);
      assert forall n :: n in nodes <==> n in nodes[..|nodes| - 1] || n == nodes[|nodes| - 1];
    }
  }

  /** The evidence of a node is that of its last listing; one that only edges mention has no confidence, no
      coverage and no references, and is partial. */
  lemma NodeEvidence(nodes: seq<Node>, edges: seq<Edge>, id: string)
    ensures forall i :: 0 <= i < |nodes| && nodes[i].id == id && (forall k :: i < k < |nodes| ==> nodes[k].id != id) ==>
              NodeOf(BuildGraph(nodes, edges), id) == nodes[i]
    ensures (forall n :: n in nodes ==> n.id != id) ==>
              NodeOf(BuildGraph(nodes, edges), id) == Node(id, 0.0, {}, {}, Partial)
  {
    OnlyListedNodes(nodes, id);
    forall i | 0 <= i < |nodes| && nodes[i].id == id && (forall k :: i < k < |nodes| ==> nodes[k].id != id)
      ensures NodeOf(BuildGraph(nodes, edges), id) == nodes[i]
    {
      LastNodeCounts(nodes, i);
    }
  }

  ghost predicate LastListed(edges: seq<Edge>, i: nat, e: Edge) {
    i < |edges| && edges[i] == e && forall k :: i < k < |edges| ==> edges[k].id != e.id
  }

  lemma {:induction false} LastByIdExact(edges: seq<Edge>, e: Edge)
    ensures e in LastById(edges) <==> exists i: nat :: LastListed(edges, i, e)
  {
    if edges != [] {
      var rest := edges[1..];
      LastByIdExact(rest, e);
      if i: nat :| LastListed(rest, i, e) { assert LastListed(edges, i + 1, e); }
      if i: nat :| LastListed(edges, i, e) {
        if i > 0 { assert LastListed(rest, i - 1, e); }
        else { assert edges[0].id !in EdgeIds(rest) by { forall k | 0 <= k < |rest| ensures rest[k].id != e.id { assert edges[k + 1] == rest[k]; } } }
      }
      if e == edges[0] && edges[0].id !in EdgeIds(rest) {
        forall k | 0 < k < |edges| ensures edges[k].id != e.id { assert EdgeIds(rest)[k - 1] == edges[k].id; }
        assert LastListed(edges, 0, e);
      }
    }
  }

  /** The edges of the searched graph are the last listings of their ids. */
  lemma GraphEdges(nodes: seq<Node>, edges: seq<Edge>, e: Edge)
    ensures e in BuildGraph(nodes, edges).edges <==> exists i: nat :: LastListed(edges, i, e)
  {
    LastByIdExact(edges, e);
    EdgeOrder();
    SortCorrect(LastById(edges), EdgeLeq);
    MembersOfPermutation(LastById(edges), Sort(LastById(edges), EdgeLeq));
  }
}
