/** The shape of the enumerated pathways, and which edges they cover. */
module PathwayProofs {
  import opened Ordering
  import opened Pathways

  function NodeSeq(root: string, path: seq<Edge>): (ids: seq<string>)
    ensures |ids| == |path| + 1
  {
    [root] + seq(|path|, i requires 0 <= i < |path| => path[i].destination)
  }

  /** A chain of selected edges that starts at `root`. */
  ghost predicate Chain(selected: seq<Edge>, root: string, path: seq<Edge>) {
    && (forall e :: e in path ==> e in selected)
    && forall i :: 0 <= i < |path| ==> path[i].source == NodeSeq(root, path)[i]
  }

  /** The walk has followed `path` from `root` to `current` without meeting a node twice. */
  ghost predicate Track(s: Scope, root: string, path: seq<Edge>, current: string, visited: set<string>) {
    && Chain(s.selected, root, path) && |path| <= s.o.maxHops
    && var ns := NodeSeq(root, path);
       ns[|path|] == current && Distinct(ns) && forall n :: n in visited <==> n in ns
  }

  /** The last node repeats an earlier one. */
  ghost predicate Closes(ns: seq<string>) {
    |ns| > 0 && ns[|ns| - 1] in ns[..|ns| - 1]
  }

  ghost predicate Shape(s: Scope, root: string, p: Pathway) {
    && p.edges != [] && Chain(s.selected, root, p.edges) && |p.edges| <= s.o.maxHops
    && p.nodeIds == NodeSeq(root, p.edges)
    && Distinct(p.nodeIds[..|p.edges|])
    && (Closes(p.nodeIds) || Distinct(p.nodeIds))
    && (p.truncated <==> Closes(p.nodeIds) || |p.edges| == s.o.maxHops)
    && (p.partial <==> Closes(p.nodeIds) || exists e :: e in p.edges && e.partial)
    && (!p.truncated ==> Choices(s.selected, p.nodeIds[|p.edges|]) == [])
    && (forall e :: e in p.edges ==> p.confidence <= e.confidence)
    && (exists e :: e in p.edges && p.confidence == e.confidence)
    && p.excluded == s.excluded
  }

  lemma {:induction false} LeastConfidenceIsLeast(path: seq<Edge>)
    requires path != []
    ensures forall e :: e in path ==> LeastConfidence(path) <= e.confidence
    ensures exists e :: e in path && LeastConfidence(path) == e.confidence
  {
    if |path| == 1 {
      assert path[0] in path;
    } else {
      LeastConfidenceIsLeast(path[1..]);
      var e :| e in path[1..] && LeastConfidence(path[1..]) == e.confidence;
      assert e in path && path[0] in path;
      assert forall x :: x in path ==> x == path[0] || x in path[1..];
    }
  }

  lemma IdOrder()
    ensures Total(IdLeq)
  {
    StrOrder();
    forall a, b ensures IdLeq(a, b) || IdLeq(b, a) {}
    forall a, b, c | IdLeq(a, b) && IdLeq(b, c) ensures IdLeq(a, c) {}
  }

  lemma {:induction false} LeavingExact(selected: seq<Edge>, n: string)
    ensures forall e :: e in Leaving(selected, n) <==> e in selected && e.source == n
  {
    if selected != [] {
      LeavingExact(selected[..|selected| - 1], n);
      assert selected == selected[..|selected| - 1] + [selected[|selected| - 1]];
    }
  }

  lemma ChoicesExact(selected: seq<Edge>, n: string)
    ensures forall e :: e in Choices(selected, n) <==> e in selected && e.source == n
  {
    LeavingExact(selected, n);
    IdOrder();
    SortCorrect(Leaving(selected, n), IdLeq);
    MembersOfPermutation(Leaving(selected, n), Choices(selected, n));
  }

  // ----- Shape -----

  lemma ChainExtends(selected: seq<Edge>, root: string, path: seq<Edge>, e: Edge)
    requires Chain(selected, root, path) && e in selected && e.source == NodeSeq(root, path)[|path|]
    ensures NodeSeq(root, path + [e]) == NodeSeq(root, path) + [e.destination]
    ensures Chain(selected, root, path + [e])
  {
    NodesExtend(root, path, e);
    var more, ns := path + [e], NodeSeq(root, path) + [e.destination];
    forall i | 0 <= i < |more| ensures more[i].source == ns[i] {
      if i < |path| { assert path[i].source == NodeSeq(root, path)[i]; }
    }
  }

  lemma NodesExtend(root: string, path: seq<Edge>, e: Edge)
    ensures NodeSeq(root, path + [e]) == NodeSeq(root, path) + [e.destination]
  {}

  lemma EmittedShape(s: Scope, root: string, path: seq<Edge>, cycle: bool)
    requires path != [] && Chain(s.selected, root, path) && |path| <= s.o.maxHops
    requires Distinct(NodeSeq(root, path)[..|path|])
    requires if cycle then Closes(NodeSeq(root, path)) else Distinct(NodeSeq(root, path))
    requires !cycle && |path| < s.o.maxHops ==> Choices(s.selected, NodeSeq(root, path)[|path|]) == []
    ensures Shape(s, root, Emitted(s.o, s.excluded, path, cycle))
  {
    LeastConfidenceIsLeast(path);
    assert path[0].source == NodeSeq(root, path)[0];
    assert NodesOf(path) == NodeSeq(root, path);
  }

  ghost predicate AllShaped(s: Scope, root: string, ps: seq<Pathway>) {
    forall p :: p in ps ==> Shape(s, root, p)
  }

  lemma {:induction false} BelowShape(s: Scope, root: string, current: string, path: seq<Edge>, visited: set<string>)
    requires Track(s, root, path, current, visited)
    ensures AllShaped(s, root, Below(s, current, path, visited))
    decreases s.o.maxHops - |path|, 1, 0
  {
    var choices := Choices(s.selected, current);
    if choices == [] || |path| >= s.o.maxHops {
      if path != [] { EmittedShape(s, root, path, false); }
    } else {
      ChoicesExact(s.selected, current);
      BelowEachShape(s, root, current, choices, path, visited);
    }
  }

  lemma {:induction false} BelowEachShape(
    s: Scope, root: string, current: string, choices: seq<Edge>, path: seq<Edge>, visited: set<string>)
    requires |path| < s.o.maxHops && Track(s, root, path, current, visited)
    requires forall e :: e in choices ==> e in s.selected && e.source == current
    ensures AllShaped(s, root, BelowEach(s, choices, path, visited))
    decreases s.o.maxHops - |path|, 0, |choices|
  {
    if choices != [] {
      BelowEachShape(s, root, current, choices[..|choices| - 1], path, visited);
      AlongShape(s, root, current, choices[|choices| - 1], path, visited);
    }
  }

  lemma CycleShape(s: Scope, root: string, current: string, e: Edge, path: seq<Edge>, visited: set<string>)
    requires |path| < s.o.maxHops && Track(s, root, path, current, visited)
    requires e in s.selected && e.source == current && e.destination in visited
    ensures Shape(s, root, Emitted(s.o, s.excluded, path + [e], true))
  {
    ChainExtends(s.selected, root, path, e);
    assert NodeSeq(root, path + [e])[..|path + [e]|] == NodeSeq(root, path);
    EmittedShape(s, root, path + [e], true);
  }

  lemma TrackNext(s: Scope, root: string, path: seq<Edge>, current: string, visited: set<string>, e: Edge)
    requires Track(s, root, path, current, visited) && |path| < s.o.maxHops
    requires e in s.selected && e.source == current && e.destination !in visited
    ensures Track(s, root, path + [e], e.destination, visited + {e.destination})
  {
    ChainExtends(s.selected, root, path, e);
  }

  lemma {:induction false} AlongShape(
    s: Scope, root: string, current: string, e: Edge, path: seq<Edge>, visited: set<string>)
    requires |path| < s.o.maxHops && Track(s, root, path, current, visited)
    requires e in s.selected && e.source == current
    ensures AllShaped(s, root, Along(s, e, path, visited))
    decreases s.o.maxHops - |path|, 0, 0
  {
    if e.destination in visited {
      CycleShape(s, root, current, e, path, visited);
    } else {
      TrackNext(s, root, path, current, visited, e);
      BelowShape(s, root, e.destination, path + [e], visited + {e.destination});
    }
  }

  lemma {:induction false} BelowRootsShape(s: Scope, roots: seq<string>)
    requires s.o.maxHops >= 0
    ensures forall p :: p in BelowRoots(s, roots) ==> exists root :: root in roots && Shape(s, root, p)
  {
    if roots != [] {
      var last := roots[|roots| - 1];
      BelowRootsShape(s, roots[..|roots| - 1]);
      assert NodeSeq(last, []) == [last];
      BelowShape(s, last, last, [], {last});
      assert roots == roots[..|roots| - 1] + [last];
      forall p | p in BelowRoots(s, roots) ensures exists root :: root in roots && Shape(s, root, p) {
        if p in Below(s, last, [], {last}) {
          assert last in roots && Shape(s, last, p);
        } else {
          assert p in BelowRoots(s, roots[..|roots| - 1]);
          var root :| root in roots[..|roots| - 1] && Shape(s, root, p);
          assert root in roots;
        }
      }
    }
  }

  lemma {:induction false} RootNamesExact(selected: seq<Edge>, roots: set<string>)
    ensures forall n :: n in RootNames(selected, roots) <==> n in roots && n in Sources(selected)
    ensures Distinct(RootNames(selected, roots))
  {
    if selected != [] {
      var init, last := selected[..|selected| - 1], selected[|selected| - 1];
      RootNamesExact(init, roots);
      assert selected == init + [last];
      assert Sources(selected) == Sources(init) + {last.source};
    }
  }

  lemma RootsExact(selected: seq<Edge>)
    ensures forall n :: n in Roots(selected) <==> n in RootSet(selected)
    ensures Distinct(Roots(selected)) && Sorted(Roots(selected), StrLeq)
  {
    var names := RootNames(selected, RootSet(selected));
    RootNamesExact(selected, RootSet(selected));
    StrOrder();
    SortCorrect(names, StrLeq);
    MembersOfPermutation(names, Roots(selected));
    DistinctMultiset(names, Roots(selected));
  }

  lemma CappedMembers(all: seq<Pathway>, cap: nat)
    requires cap > 0
    ensures |Capped(all, cap)| == if |all| <= cap then |all| else cap
    ensures forall i :: 0 <= i < |Capped(all, cap)| ==>
              Capped(all, cap)[i] == all[i].(truncated := all[i].truncated || i == cap - 1)
    ensures |Capped(all, cap)| < cap ==> Capped(all, cap) == all
  {}

  /** Every returned pathway is a chain of selected edges from a root through distinct nodes, except
      that a cycle pathway's last node repeats one earlier node; one that is not marked as truncated
      ends where no selected edge goes on. */
  lemma ReturnedShape(o: Options, edges: seq<Edge>, i: nat)
    requires ValidOptions(o)
    requires i < |Capped(Enumeration(o, edges), o.maxPathways)|
    ensures var s, p := ScopeOf(o, edges), Enumeration(o, edges)[i];
            && Capped(Enumeration(o, edges), o.maxPathways)[i] ==
                 p.(truncated := p.truncated || i == o.maxPathways - 1)
            && (exists root :: root in RootSet(s.selected) && Shape(s, root, p))
            && p.excluded == |edges| - |Selected(o, edges)|
  {
    var s := ScopeOf(o, edges);
    RootsExact(s.selected);
    BelowRootsShape(s, Roots(s.selected));
    CappedMembers(Enumeration(o, edges), o.maxPathways);
    assert Enumeration(o, edges)[i] in Enumeration(o, edges);
  }

  // ----- Coverage -----

  lemma {:induction false} BelowPrefix(s: Scope, current: string, path: seq<Edge>, visited: set<string>)
    requires |path| <= s.o.maxHops && s.o.maxHops > 0
    ensures forall p :: p in Below(s, current, path, visited) ==> path <= p.edges
    ensures path != [] || Choices(s.selected, current) != [] ==> Below(s, current, path, visited) != []
    decreases s.o.maxHops - |path|, 1, 0
  {
    var choices := Choices(s.selected, current);
    if choices != [] && |path| < s.o.maxHops {
      BelowEachPrefix(s, choices, path, visited);
    }
  }

  lemma {:induction false} BelowEachPrefix(s: Scope, choices: seq<Edge>, path: seq<Edge>, visited: set<string>)
    requires |path| < s.o.maxHops
    ensures forall p :: p in BelowEach(s, choices, path, visited) ==> path <= p.edges
    ensures choices != [] ==> BelowEach(s, choices, path, visited) != []
    decreases s.o.maxHops - |path|, 0, |choices|
  {
    if choices != [] {
      var e := choices[|choices| - 1];
      BelowEachPrefix(s, choices[..|choices| - 1], path, visited);
      if e.destination !in visited {
        BelowPrefix(s, e.destination, path + [e], visited + {e.destination});
        assert path <= path + [e];
      }
    }
  }

  lemma {:induction false} AlongInBelowEach(
    s: Scope, choices: seq<Edge>, e: Edge, path: seq<Edge>, visited: set<string>, p: Pathway)
    requires |path| < s.o.maxHops && e in choices && p in Along(s, e, path, visited)
    ensures p in BelowEach(s, choices, path, visited)
    decreases |choices|
  {
    var init, last := choices[..|choices| - 1], choices[|choices| - 1];
    assert choices == init + [last];
    if e != last {
      AlongInBelowEach(s, init, e, path, visited, p);
    }
  }

  ghost predicate Cut(ps: seq<Pathway>) {
    exists p :: p in ps && p.truncated
  }

  /** Where the hop limit or a cycle stops the walk, a pathway marked as truncated is emitted. */
  lemma StopIsReported(s: Scope, current: string, path: seq<Edge>, visited: set<string>, e: Edge)
    requires |path| <= s.o.maxHops && s.o.maxHops > 0 && e in Choices(s.selected, current)
    requires |path| == s.o.maxHops || e.destination in visited
    ensures Cut(Below(s, current, path, visited))
  {
    if |path| == s.o.maxHops {
      assert Emitted(s.o, s.excluded, path, false) in Below(s, current, path, visited);
    } else {
      var p := Emitted(s.o, s.excluded, path + [e], true);
      assert p in Along(s, e, path, visited);
      AlongInBelowEach(s, Choices(s.selected, current), e, path, visited, p);
    }
  }

  /** Unless a cut is reported below, every chain that goes on from here is part of a pathway. */
  lemma {:induction false} BelowCovers(
    s: Scope, current: string, path: seq<Edge>, visited: set<string>, rest: seq<Edge>) returns (p: Pathway)
    requires |path| <= s.o.maxHops && s.o.maxHops > 0
    requires Chain(s.selected, current, rest) && path + rest != []
    requires !Cut(Below(s, current, path, visited))
    ensures p in Below(s, current, path, visited) && path + rest <= p.edges
    decreases |rest|
  {
    BelowPrefix(s, current, path, visited);
    if rest == [] {
      assert path + rest == path;
      p := Below(s, current, path, visited)[0];
    } else {
      var e, choices := rest[0], Choices(s.selected, current);
      ChoicesExact(s.selected, current);
      assert rest[0].source == NodeSeq(current, rest)[0];
      if |path| == s.o.maxHops || e.destination in visited {
        StopIsReported(s, current, path, visited, e);
        assert false;
      }
      forall q | q in Along(s, e, path, visited) ensures q in Below(s, current, path, visited) {
        AlongInBelowEach(s, choices, e, path, visited, q);
      }
      ChainTail(s.selected, current, rest);
      MoveOne(path, rest);
      p := BelowCovers(s, e.destination, path + [e], visited + {e.destination}, rest[1..]);
    }
  }

  lemma MoveOne(path: seq<Edge>, rest: seq<Edge>)
    requires rest != []
    ensures path + [rest[0]] + rest[1..] == path + rest && path + [rest[0]] != []
  {}

  lemma ChainTail(selected: seq<Edge>, root: string, path: seq<Edge>)
    requires path != [] && Chain(selected, root, path)
    ensures Chain(selected, path[0].destination, path[1..])
  {
    forall i | 0 <= i < |path[1..]| ensures path[1..][i].source == NodeSeq(path[0].destination, path[1..])[i] {
      assert path[i + 1].source == NodeSeq(root, path)[i + 1];
    }
  }

  lemma {:induction false} RootInBelowRoots(s: Scope, roots: seq<string>, root: string, p: Pathway)
    requires root in roots && p in Below(s, root, [], {root})
    ensures p in BelowRoots(s, roots)
  {
    var init, last := roots[..|roots| - 1], roots[|roots| - 1];
    assert roots == init + [last];
    if root != last {
      RootInBelowRoots(s, init, root, p);
    }
  }

  /** Some chain of selected edges leads from a root to `e`, and ends with it. */
  ghost predicate OnRootedChain(selected: seq<Edge>, e: Edge) {
    exists root, c :: root in RootSet(selected) && EndsWith(selected, root, c, e)
  }

  ghost predicate EndsWith(selected: seq<Edge>, root: string, c: seq<Edge>, e: Edge) {
    Chain(selected, root, c) && c != [] && c[|c| - 1] == e
  }

  lemma ChainPrefix(selected: seq<Edge>, root: string, c: seq<Edge>, k: nat)
    requires Chain(selected, root, c) && k <= |c|
    ensures Chain(selected, root, c[..k])
  {
    forall i | 0 <= i < k ensures c[..k][i].source == NodeSeq(root, c[..k])[i] {
      assert c[i].source == NodeSeq(root, c)[i];
    }
  }

  lemma RootedIsCovered(s: Scope, e: Edge) returns (p: Pathway)
    requires s.o.maxHops > 0 && OnRootedChain(s.selected, e)
    requires !Cut(BelowRoots(s, Roots(s.selected)))
    ensures p in BelowRoots(s, Roots(s.selected)) && e in p.edges
  {
    RootsExact(s.selected);
    var root, c :| root in RootSet(s.selected) && EndsWith(s.selected, root, c, e);
    forall q | q in Below(s, root, [], {root}) ensures !q.truncated {
      RootInBelowRoots(s, Roots(s.selected), root, q);
    }
    assert [] + c == c;
    p := BelowCovers(s, root, [], {root}, c);
    RootInBelowRoots(s, Roots(s.selected), root, p);
    assert p.edges[|c| - 1] == e;
  }

  lemma CoveredIsRooted(s: Scope, e: Edge, p: Pathway)
    requires s.o.maxHops > 0 && p in BelowRoots(s, Roots(s.selected)) && e in p.edges
    ensures OnRootedChain(s.selected, e)
  {
    RootsExact(s.selected);
    BelowRootsShape(s, Roots(s.selected));
    var root :| root in Roots(s.selected) && Shape(s, root, p);
    ChainUpTo(s.selected, root, p.edges, e);
  }

  lemma ChainUpTo(selected: seq<Edge>, root: string, c: seq<Edge>, e: Edge)
    requires Chain(selected, root, c) && e in c && root in RootSet(selected)
    ensures OnRootedChain(selected, e)
  {
    var k :| 0 <= k < |c| && c[k] == e;
    ChainPrefix(selected, root, c, k + 1);
    assert EndsWith(selected, root, c[..k + 1], e);
  }

  /** With no cut reported, the covered edges are exactly those on a chain from a root. */
  lemma CoveredIffRooted(o: Options, edges: seq<Edge>, e: Edge)
    requires ValidOptions(o)
    requires var ps := Capped(Enumeration(o, edges), o.maxPathways); |ps| < o.maxPathways && !Cut(ps)
    ensures (exists p :: p in Capped(Enumeration(o, edges), o.maxPathways) && e in p.edges) <==>
            OnRootedChain(Selected(o, edges), e)
  {
    var s, all := ScopeOf(o, edges), Enumeration(o, edges);
    CappedMembers(all, o.maxPathways);
    if OnRootedChain(s.selected, e) {
      var p := RootedIsCovered(s, e);
    }
    if p :| p in all && e in p.edges {
      CoveredIsRooted(s, e, p);
    }
  }

  // ----- Acyclic selections -----

  /** A chain of selected edges that comes back to where it started. */
  ghost predicate ClosedChain(selected: seq<Edge>, c: seq<Edge>) {
    c != [] && Chain(selected, c[0].source, c) && c[|c| - 1].destination == c[0].source
  }

  ghost predicate Acyclic(selected: seq<Edge>) {
    forall c :: !ClosedChain(selected, c)
  }

  ghost predicate SourcesOf(c: seq<Edge>, met: set<string>) {
    && (forall e :: e in c ==> e.source in met)
    && (forall n :: n in met ==> exists e :: e in c && e.source == n)
  }

  /** An edge that leads to the start of a chain comes from a node the chain has not left. */
  lemma FreshSource(selected: seq<Edge>, root: string, c: seq<Edge>, met: set<string>, f: Edge)
    requires Acyclic(selected) && Chain(selected, root, c) && SourcesOf(c, met)
    requires f in selected && f.destination == root
    ensures f.source !in met
  {
    if f.source in met {
      var e :| e in c && e.source == f.source;
      var i :| 0 <= i < |c| && c[i] == e;
      ChainPrepend(selected, root, c, f);
      ComesBack(selected, f, c, i);
      assert false;
    }
  }

  /** A chain that meets its first source again holds a closed chain. */
  lemma ComesBack(selected: seq<Edge>, f: Edge, c: seq<Edge>, i: nat)
    requires i < |c| && Chain(selected, f.source, [f] + c) && c[i].source == f.source
    ensures !Acyclic(selected)
  {
    var d := [f] + c;
    ChainPrefix(selected, f.source, d, i + 1);
    assert d[i + 1].source == NodeSeq(f.source, d)[i + 1] == d[i].destination;
    assert ClosedChain(selected, d[..i + 1]);
  }

  lemma OneBack(selected: seq<Edge>, root: string, c: seq<Edge>, met: set<string>) returns (f: Edge)
    requires Acyclic(selected) && Chain(selected, root, c) && SourcesOf(c, met) && root in Destinations(selected)
    ensures Chain(selected, f.source, [f] + c) && SourcesOf([f] + c, met + {f.source})
    ensures f.source in Sources(selected) && f.source !in met
  {
    f :| f in selected && f.destination == root;
    ChainPrepend(selected, root, c, f);
    FreshSource(selected, root, c, met, f);
    SourcesPrepend(c, met, f);
  }

  lemma ChainSource(selected: seq<Edge>, root: string, c: seq<Edge>)
    requires Chain(selected, root, c) && c != []
    ensures root in Sources(selected)
  {
    assert c[0].source == NodeSeq(root, c)[0] == root;
    assert c[0] in c;
  }

  /** Going backwards from an edge of an acyclic selection ends at a node nothing points to. */
  lemma {:induction false} BackToRoot(selected: seq<Edge>, root: string, c: seq<Edge>, met: set<string>)
    returns (r: string, d: seq<Edge>)
    requires Acyclic(selected) && Chain(selected, root, c) && c != [] && SourcesOf(c, met)
    ensures r in Sources(selected) - Destinations(selected) && EndsWith(selected, r, d, c[|c| - 1])
    decreases Sources(selected) - met
  {
    if root !in Destinations(selected) {
      ChainSource(selected, root, c);
      r, d := root, c;
    } else {
      var f := OneBack(selected, root, c, met);
      r, d := BackToRoot(selected, f.source, [f] + c, met + {f.source});
    }
  }

  lemma SourcesPrepend(c: seq<Edge>, met: set<string>, f: Edge)
    requires SourcesOf(c, met)
    ensures SourcesOf([f] + c, met + {f.source})
  {
    forall n | n in met + {f.source} ensures exists e :: e in [f] + c && e.source == n {
      if n in met {
        var e :| e in c && e.source == n;
        assert e in [f] + c;
      } else {
        assert f in [f] + c;
      }
    }
  }

  lemma ChainPrepend(selected: seq<Edge>, root: string, c: seq<Edge>, f: Edge)
    requires Chain(selected, root, c) && f in selected && f.destination == root
    ensures Chain(selected, f.source, [f] + c)
  {
    var d := [f] + c;
    assert NodeSeq(f.source, d) == [f.source] + NodeSeq(root, c);
    forall i | 0 <= i < |d| ensures d[i].source == NodeSeq(f.source, d)[i] {
      if i > 0 { assert c[i - 1].source == NodeSeq(root, c)[i - 1]; }
    }
  }

  /** On an acyclic selection, an answer that reports no cut covers every selected edge. */
  lemma AcyclicCovered(o: Options, edges: seq<Edge>, e: Edge)
    requires ValidOptions(o) && Acyclic(Selected(o, edges)) && e in Selected(o, edges)
    requires var ps := Capped(Enumeration(o, edges), o.maxPathways); |ps| < o.maxPathways && !Cut(ps)
    ensures exists p :: p in Capped(Enumeration(o, edges), o.maxPathways) && e in p.edges
  {
    var selected := Selected(o, edges);
    assert Chain(selected, e.source, [e]);
    assert SourcesOf([e], {e.source}) by { assert e in [e]; }
    var root, c := BackToRoot(selected, e.source, [e], {e.source});
    CoveredIffRooted(o, edges, e);
  }

  // ----- A cycle that no root leads into -----

  const DEFAULTS := Options(true, 0.0, 8, 500, 1000, 200)

  const TO_B := Edge("1", "a", "b", true, 1.0, false)
  const TO_D := Edge("2", "c", "d", true, 1.0, false)
  const TO_C := Edge("3", "d", "c", true, 1.0, false)

  lemma ExampleSelected()
    ensures Selected(DEFAULTS, [TO_B, TO_D, TO_C]) == [TO_B, TO_D, TO_C]
  {
    var edges := [TO_B, TO_D, TO_C];
    assert edges[1..] == [TO_D, TO_C] && edges[1..][1..] == [TO_C] && edges[1..][1..][1..] == [];
    assert Filtered(DEFAULTS, edges[1..][1..]) == [TO_C];
    assert Filtered(DEFAULTS, edges[1..]) == [TO_D, TO_C];
    SortSorted(edges, IdLeq);
  }

  lemma ExampleRoots(selected: seq<Edge>)
    requires selected == [TO_B, TO_D, TO_C]
    ensures Roots(selected) == ["a"]
  {
    assert Sources(selected) == {"a", "c", "d"} && Destinations(selected) == {"b", "d", "c"} by {
      assert selected[0] == TO_B && selected[1] == TO_D && selected[2] == TO_C;
    }
    assert Sources(selected) - Destinations(selected) == {"a"};
    RootsExact(selected);
    OnlyMember(Roots(selected), "a");
  }

  lemma OnlyMember(names: seq<string>, n: string)
    requires Distinct(names) && forall x :: x in names <==> x == n
    ensures names == [n]
  {
    assert n in names;
    forall i | 0 <= i < |names| ensures names[i] == n { assert names[i] in names; }
    AtMostOne(names, n);
  }

  lemma AtMostOne(names: seq<string>, n: string)
    requires Distinct(names) && forall i :: 0 <= i < |names| ==> names[i] == n
    ensures |names| <= 1
  {
    if |names| > 1 {
      FirstTwoDiffer(names);
      assert false;
    }
  }

  lemma FirstTwoDiffer(names: seq<string>)
    requires Distinct(names) && |names| > 1
    ensures names[0] != names[1]
  {}

  lemma NoMembers<T>(s: seq<T>)
    ensures s == [] <==> forall x :: x !in s
  {
    if s != [] { assert s[0] in s; }
  }

  lemma ExampleChoices(selected: seq<Edge>)
    requires selected == [TO_B, TO_D, TO_C]
    ensures Choices(selected, "a") == [TO_B] && Choices(selected, "b") == []
  {
    var two, one := selected[..2], selected[..1];
    assert two == [TO_B, TO_D] && one == [TO_B] && two[..1] == one && one[..0] == [];
    assert Leaving(one, "a") == [TO_B] && Leaving(two, "a") == [TO_B] && Leaving(selected, "a") == [TO_B];
    SortSorted([TO_B], IdLeq);
    ChoicesExact(selected, "b");
    NoMembers(Choices(selected, "b"));
  }

  lemma ExampleEnumeration(s: Scope)
    requires s == Scope(DEFAULTS, [TO_B, TO_D, TO_C], 0)
    ensures BelowRoots(s, ["a"]) == [Emitted(s.o, 0, [TO_B], false)]
  {
    ExampleChoices(s.selected);
    var p := Emitted(s.o, 0, [TO_B], false);
    assert [] + [TO_B] == [TO_B];
    assert Below(s, "b", [TO_B], {"a"} + {"b"}) == [p];
    assert Along(s, TO_B, [], {"a"}) == [p];
    assert [TO_B][..0] == [];
    assert BelowEach(s, [], [], {"a"}) == [];
    assert BelowEach(s, [TO_B], [], {"a"}) == [p];
    assert Below(s, "a", [], {"a"}) == [p];
    assert ["a"][..0] == [];
    assert BelowRoots(s, []) == [];
  }

  /** With another root present, a cycle that no root leads into is missed although nothing is cut. */
  lemma DetachedCycleMissed()
    ensures ValidOptions(DEFAULTS) && TO_D in Selected(DEFAULTS, [TO_B, TO_D, TO_C])
    ensures var ps := Capped(Enumeration(DEFAULTS, [TO_B, TO_D, TO_C]), DEFAULTS.maxPathways);
            |ps| == 1 && !Cut(ps) && forall p :: p in ps ==> TO_D !in p.edges
  {
    ExampleSelected();
    var s := ScopeOf(DEFAULTS, [TO_B, TO_D, TO_C]);
    ExampleRoots(s.selected);
    ExampleEnumeration(s);
    CappedMembers(BelowRoots(s, ["a"]), DEFAULTS.maxPathways);
  }
}
