/** The enumeration, without reference to the walk that produces it: which pathways it lists, and in
    which order. */
module PathwayOrder {
  import opened Ordering
  import opened Pathways
  import opened PathwayProofs

  // ----- The selected edges -----

  lemma {:induction false} FilteredExact(o: Options, edges: seq<Edge>)
    ensures forall e :: e in Filtered(o, edges) <==> e in edges && Keeps(o, e)
    ensures Distinct(edges) ==> Distinct(Filtered(o, edges))
  {
    if edges != [] {
      FilteredExact(o, edges[1..]);
      assert edges == [edges[0]] + edges[1..];
    }
  }

  /** The selected edges are kept ones, ordered by id; when the edge cap leaves one out, the cap is
      full of edges that come no later. */
  lemma SelectedExact(o: Options, edges: seq<Edge>)
    requires ValidOptions(o)
    ensures var selected := Selected(o, edges);
            && (forall e :: e in selected ==> e in edges && Eligible(o, e))
            && (forall i, j :: 0 <= i < j < |selected| ==> StrLeq(selected[i].id, selected[j].id))
            && |selected| <= o.maxEdges
            && (forall e :: e in edges && Eligible(o, e) && e !in selected ==>
                  |selected| == o.maxEdges && forall f :: f in selected ==> StrLeq(f.id, e.id))
            && (Distinct(edges) ==> Distinct(selected))
  {
    var kept := Filtered(o, edges);
    var all := Sort(kept, IdLeq);
    FilteredExact(o, edges);
    IdOrder();
    SortCorrect(kept, IdLeq);
    MembersOfPermutation(kept, all);
    if Distinct(edges) { DistinctMultiset(kept, all); }
    TakeSorted(all, o.maxEdges);
    forall i, j | 0 <= i < j < |Selected(o, edges)| ensures StrLeq(Selected(o, edges)[i].id, Selected(o, edges)[j].id) {
      assert IdLeq(Selected(o, edges)[i], Selected(o, edges)[j]);
    }
  }

  /** Active if that is asked for, and confident enough. */
  ghost predicate Eligible(o: Options, e: Edge) { (o.activeOnly ==> e.active) && e.confidence >= o.minimumConfidence }

  /** Roots are the sources that no selected edge leads to; if there are none, all sources. */
  lemma RootSetExact(selected: seq<Edge>, n: string)
    ensures n in RootSet(selected) <==>
            && (exists e :: e in selected && e.source == n)
            && (  (forall e :: e in selected ==> e.destination != n)
               || (forall e :: e in selected ==> exists f :: f in selected && f.destination == e.source))
  {
    var free := Sources(selected) - Destinations(selected);
    if free == {} {
      forall e | e in selected ensures exists f :: f in selected && f.destination == e.source {
        assert e.source in Sources(selected) && e.source !in free;
      }
    } else {
      var m :| m in free;
      var e :| e in selected && e.source == m;
    }
  }

  lemma TakeSorted(all: seq<Edge>, k: nat)
    requires Sorted(all, IdLeq)
    ensures Sorted(Take(all, k), IdLeq) && |Take(all, k)| <= k && (Distinct(all) ==> Distinct(Take(all, k)))
    ensures forall e :: e in Take(all, k) ==> e in all
    ensures forall e :: e in all && e !in Take(all, k) ==> |Take(all, k)| == k && forall f :: f in Take(all, k) ==> IdLeq(f, e)
  {
    if |all| > k {
      forall e | e in all && e !in all[..k] ensures forall f :: f in all[..k] ==> IdLeq(f, e) {
        var i :| 0 <= i < |all| && all[i] == e;
        assert i >= k;
      }
    }
  }

  // ----- Which pathways -----

  /** A chain from `root` through distinct nodes that cannot or may not go on: it closes a cycle, or has
      reached the hop limit, or no selected edge leaves its end. */
  ghost predicate Terminal(s: Scope, root: string, c: seq<Edge>) {
    && c != [] && Chain(s.selected, root, c) && |c| <= s.o.maxHops
    && var ns := NodeSeq(root, c);
       && Distinct(ns[..|c|])
       && (Closes(ns) || |c| == s.o.maxHops || Choices(s.selected, ns[|c|]) == [])
  }

  function Report(s: Scope, root: string, c: seq<Edge>): Pathway
    requires c != []
  {
    var ns := NodeSeq(root, c);
    Emitted(s.o, s.excluded, c, ns[|c|] in ns[..|c|])
  }

  /** The edge that continues a chain, and the node it leads to. */
  lemma ChainNext(s: Scope, root: string, path: seq<Edge>, rest: seq<Edge>)
    requires rest != [] && Chain(s.selected, root, path + rest)
    ensures rest[0] in s.selected && rest[0].source == NodeSeq(root, path)[|path|]
    ensures NodeSeq(root, path + rest)[..|path| + 1] == NodeSeq(root, path)
    ensures NodeSeq(root, path + rest)[|path| + 1] == rest[0].destination
    ensures path + [rest[0]] + rest[1..] == path + rest
  {
    var c := path + rest;
    assert c[|path|] == rest[0];
    assert c[|path|].source == NodeSeq(root, c)[|path|];
    assert NodeSeq(root, c)[..|path| + 1] == NodeSeq(root, path);
  }

  /** A terminal chain that goes on from here is reported below. */
  lemma {:induction false} TerminalBelow(
    s: Scope, root: string, current: string, path: seq<Edge>, visited: set<string>, rest: seq<Edge>)
    requires Track(s, root, path, current, visited) && rest != [] && Terminal(s, root, path + rest)
    ensures Report(s, root, path + rest) in Below(s, current, path, visited)
    decreases |rest|, 1
  {
    var e, choices := rest[0], Choices(s.selected, current);
    ChainNext(s, root, path, rest);
    ChoicesExact(s.selected, current);
    TerminalAlong(s, root, current, path, visited, rest);
    AlongInBelowEach(s, choices, e, path, visited, Report(s, root, path + rest));
  }

  lemma RepeatIsLast(ns: seq<string>, n: nat, k: nat, m: nat)
    requires n <= |ns| && Distinct(ns[..n]) && k < m < |ns| && ns[k] == ns[m]
    ensures m >= n
  {}

  /** A chain that comes back to a visited node ends there. */
  lemma ClosingAlong(s: Scope, root: string, current: string, path: seq<Edge>, visited: set<string>, rest: seq<Edge>)
    requires Track(s, root, path, current, visited) && rest != [] && Terminal(s, root, path + rest)
    requires rest[0].destination in visited
    ensures Report(s, root, path + rest) in Along(s, rest[0], path, visited)
  {
    var ns, c := NodeSeq(root, path + rest), path + rest;
    ChainNext(s, root, path, rest);
    var k :| 0 <= k <= |path| && NodeSeq(root, path)[k] == rest[0].destination;
    assert ns[..|path| + 1][k] == ns[k];
    RepeatIsLast(ns, |c|, k, |path| + 1);
    assert c == path + [rest[0]] && ns[|c|] in ns[..|c|];
  }

  /** A chain that ends at a new node is reported where it ends. */
  lemma LastAlong(s: Scope, root: string, current: string, path: seq<Edge>, visited: set<string>, e: Edge)
    requires Track(s, root, path, current, visited) && Terminal(s, root, path + [e]) && e.destination !in visited
    ensures Report(s, root, path + [e]) in Along(s, e, path, visited)
  {
    var ns, c := NodeSeq(root, path + [e]), path + [e];
    ChainNext(s, root, path, [e]);
    assert ns[|c|] !in ns[..|c|];
    assert !Closes(ns);
  }

  lemma {:induction false} TerminalAlong(
    s: Scope, root: string, current: string, path: seq<Edge>, visited: set<string>, rest: seq<Edge>)
    requires Track(s, root, path, current, visited) && rest != [] && Terminal(s, root, path + rest)
    ensures Report(s, root, path + rest) in Along(s, rest[0], path, visited)
    decreases |rest|, 0
  {
    var e := rest[0];
    ChainNext(s, root, path, rest);
    if e.destination in visited {
      ClosingAlong(s, root, current, path, visited, rest);
    } else if |rest| == 1 {
      assert rest == [e];
      LastAlong(s, root, current, path, visited, e);
    } else {
      TrackNext(s, root, path, current, visited, e);
      TerminalBelow(s, root, e.destination, path + [e], visited + {e.destination}, rest[1..]);
    }
  }

  lemma {:induction false} ShapeIsTerminal(s: Scope, root: string, p: Pathway)
    requires Shape(s, root, p)
    ensures Terminal(s, root, p.edges)
  {}

  /** The enumeration lists a pathway for every terminal chain from a root, and no others. */
  lemma EnumerationExact(o: Options, edges: seq<Edge>, c: seq<Edge>)
    requires ValidOptions(o)
    ensures (exists p :: p in Enumeration(o, edges) && p.edges == c) <==>
            (exists root :: root in RootSet(Selected(o, edges)) && Terminal(ScopeOf(o, edges), root, c))
  {
    var s := ScopeOf(o, edges);
    RootsExact(s.selected);
    BelowRootsShape(s, Roots(s.selected));
    if root :| root in RootSet(s.selected) && Terminal(s, root, c) {
      assert NodeSeq(root, []) == [root] && [] + c == c;
      TerminalBelow(s, root, root, [], {root}, c);
      RootInBelowRoots(s, Roots(s.selected), root, Report(s, root, c));
      assert Report(s, root, c).edges == c;
    }
    if p :| p in Enumeration(o, edges) && p.edges == c {
      var root :| root in Roots(s.selected) && Shape(s, root, p);
      ShapeIsTerminal(s, root, p);
    }
  }

  // ----- In which order -----

  /** At the first edge where they part, the edge of `p` has the smaller id. */
  ghost predicate PartsBefore(p: Pathway, q: Pathway, k: nat) {
    && k < |p.edges| && k < |q.edges| && p.edges[..k] == q.edges[..k]
    && p.edges[k] != q.edges[k] && StrLeq(p.edges[k].id, q.edges[k].id)
  }

  ghost predicate RootBefore(p: Pathway, q: Pathway) {
    && p.edges != [] && q.edges != []
    && p.edges[0].source != q.edges[0].source && StrLeq(p.edges[0].source, q.edges[0].source)
  }

  ghost predicate Precedes(p: Pathway, q: Pathway) {
    RootBefore(p, q) || exists k :: PartsBefore(p, q, k)
  }

  ghost predicate Ordered(ps: seq<Pathway>) {
    forall i, j :: 0 <= i < j < |ps| ==> Precedes(ps[i], ps[j])
  }

  lemma OrderedConcat(a: seq<Pathway>, b: seq<Pathway>)
    requires Ordered(a) && Ordered(b) && forall p, q :: p in a && q in b ==> Precedes(p, q)
    ensures Ordered(a + b)
  {
    var ab := a + b;
    forall i, j | 0 <= i < j < |ab| ensures Precedes(ab[i], ab[j]) {
      if i < |a| <= j {
        assert ab[i] in a && ab[j] in b;
      } else if j < |a| {
        assert ab[i] == a[i] && ab[j] == a[j];
      } else {
        assert ab[i] == b[i - |a|] && ab[j] == b[j - |a|];
      }
    }
  }

  lemma {:induction false} LeavingDistinct(selected: seq<Edge>, n: string)
    requires Distinct(selected)
    ensures Distinct(Leaving(selected, n))
  {
    if selected != [] {
      LeavingDistinct(selected[..|selected| - 1], n);
      LeavingExact(selected[..|selected| - 1], n);
    }
  }

  lemma ChoicesOrdered(selected: seq<Edge>, n: string)
    requires Distinct(selected)
    ensures Distinct(Choices(selected, n)) && Sorted(Choices(selected, n), IdLeq)
  {
    LeavingDistinct(selected, n);
    IdOrder();
    SortCorrect(Leaving(selected, n), IdLeq);
    DistinctMultiset(Leaving(selected, n), Choices(selected, n));
  }

  lemma AlongPrefix(s: Scope, e: Edge, path: seq<Edge>, visited: set<string>)
    requires |path| < s.o.maxHops
    ensures forall p :: p in Along(s, e, path, visited) ==> path + [e] <= p.edges
  {
    if e.destination !in visited { BelowPrefix(s, e.destination, path + [e], visited + {e.destination}); }
  }

  /** Every pathway below goes on with one of the choices. */
  lemma {:induction false} BelowEachChoice(s: Scope, choices: seq<Edge>, path: seq<Edge>, visited: set<string>, p: Pathway)
    returns (i: nat)
    requires |path| < s.o.maxHops && p in BelowEach(s, choices, path, visited)
    ensures i < |choices| && path + [choices[i]] <= p.edges
    decreases |choices|
  {
    var init, last := choices[..|choices| - 1], choices[|choices| - 1];
    if p in Along(s, last, path, visited) {
      AlongPrefix(s, last, path, visited);
      i := |choices| - 1;
    } else {
      i := BelowEachChoice(s, init, path, visited, p);
    }
  }

  lemma ChoicesPart(p: Pathway, q: Pathway, path: seq<Edge>, e: Edge, f: Edge)
    requires path + [e] <= p.edges && path + [f] <= q.edges && e != f && IdLeq(e, f)
    ensures Precedes(p, q)
  {
    assert p.edges[|path|] == (path + [e])[|path|] && q.edges[|path|] == (path + [f])[|path|];
    assert p.edges[..|path|] == path && q.edges[..|path|] == path;
    assert PartsBefore(p, q, |path|);
  }

  lemma {:induction false} BelowOrdered(s: Scope, current: string, path: seq<Edge>, visited: set<string>)
    requires Distinct(s.selected) && |path| <= s.o.maxHops
    ensures Ordered(Below(s, current, path, visited))
    decreases s.o.maxHops - |path|, 1, 0
  {
    var choices := Choices(s.selected, current);
    if choices != [] && |path| < s.o.maxHops {
      ChoicesOrdered(s.selected, current);
      BelowEachOrdered(s, choices, path, visited);
    }
  }

  lemma {:induction false} BelowEachOrdered(s: Scope, choices: seq<Edge>, path: seq<Edge>, visited: set<string>)
    requires Distinct(s.selected) && |path| < s.o.maxHops && Distinct(choices) && Sorted(choices, IdLeq)
    ensures Ordered(BelowEach(s, choices, path, visited))
    decreases s.o.maxHops - |path|, 0, |choices|
  {
    if choices != [] {
      var init, last := choices[..|choices| - 1], choices[|choices| - 1];
      var a, b := BelowEach(s, init, path, visited), Along(s, last, path, visited);
      BelowEachOrdered(s, init, path, visited);
      if last.destination !in visited { BelowOrdered(s, last.destination, path + [last], visited + {last.destination}); }
      forall p, q | p in a && q in b ensures Precedes(p, q) {
        var i := BelowEachChoice(s, init, path, visited, p);
        AlongPrefix(s, last, path, visited);
        ChoicesPart(p, q, path, choices[i], last);
      }
      OrderedConcat(a, b);
    }
  }

  lemma {:induction false} BelowRootsOrdered(s: Scope, roots: seq<string>)
    requires Distinct(s.selected) && s.o.maxHops >= 0 && Distinct(roots) && Sorted(roots, StrLeq)
    ensures Ordered(BelowRoots(s, roots))
  {
    if roots != [] {
      var init, last := roots[..|roots| - 1], roots[|roots| - 1];
      var a, b := BelowRoots(s, init), Below(s, last, [], {last});
      BelowRootsOrdered(s, init);
      BelowOrdered(s, last, [], {last});
      BelowRootsShape(s, init);
      assert NodeSeq(last, []) == [last];
      BelowShape(s, last, last, [], {last});
      forall p, q | p in a && q in b ensures Precedes(p, q) {
        var root :| root in init && Shape(s, root, p);
        FirstSource(s, root, p);
        FirstSource(s, last, q);
      }
      OrderedConcat(a, b);
    }
  }

  lemma FirstSource(s: Scope, root: string, p: Pathway)
    requires Shape(s, root, p)
    ensures p.edges != [] && p.edges[0].source == root
  {
    assert p.edges[0].source == NodeSeq(root, p.edges)[0];
  }

  /** Over distinct edges the enumeration is in the order of roots and then of edge ids, and so lists no
      pathway twice. */
  lemma EnumerationOrdered(o: Options, edges: seq<Edge>)
    requires ValidOptions(o) && Distinct(Selected(o, edges))
    ensures Ordered(Enumeration(o, edges))
    ensures forall i, j :: 0 <= i < j < |Enumeration(o, edges)| ==> Enumeration(o, edges)[i].edges != Enumeration(o, edges)[j].edges
  {
    var s := ScopeOf(o, edges);
    RootsExact(s.selected);
    BelowRootsOrdered(s, Roots(s.selected));
    forall i, j | 0 <= i < j < |Enumeration(o, edges)|
      ensures Enumeration(o, edges)[i].edges != Enumeration(o, edges)[j].edges
    {
      PrecedingDiffers(Enumeration(o, edges)[i], Enumeration(o, edges)[j]);
    }
  }

  lemma PrecedingDiffers(p: Pathway, q: Pathway)
    requires Precedes(p, q)
    ensures p.edges != q.edges
  {}
}
