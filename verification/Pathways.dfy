/** Depth-first pathway assembly with a shared, capped result list
    (packages/pathways/intelligence.py). */
module Pathways {
  import opened Ordering

  datatype Edge = Edge(
    id: string, source: string, destination: string, active: bool, confidence: real, partial: bool)

  datatype Options = Options(
    activeOnly: bool, minimumConfidence: real, maxHops: int, maxNodes: int, maxEdges: int, maxPathways: int)

  predicate ValidOptions(o: Options) {
    1 <= o.maxHops <= 32 && 1 <= o.maxNodes <= 500 && 1 <= o.maxEdges <= 1000 && 1 <= o.maxPathways <= 200
  }

  datatype Pathway = Pathway(
    edges: seq<Edge>, nodeIds: seq<string>, partial: bool, truncated: bool, confidence: real, excluded: int)

  datatype Assembly = Assembled(pathways: seq<Pathway>) | BoundsExceeded

  // ----- Selecting the edges and the roots -----

  predicate Keeps(o: Options, e: Edge) {
    (!o.activeOnly || e.active) && e.confidence >= o.minimumConfidence
  }

  function Filtered(o: Options, edges: seq<Edge>): seq<Edge> {
    if edges == [] then []
    else (if Keeps(o, edges[0]) then [edges[0]] else []) + Filtered(o, edges[1..])
  }

  predicate IdLeq(a: Edge, b: Edge) { StrLeq(a.id, b.id) }

  function Selected(o: Options, edges: seq<Edge>): seq<Edge>
    requires ValidOptions(o)
  {
    Take(Sort(Filtered(o, edges), IdLeq), o.maxEdges)
  }

  /** The edges that leave `n`, in selection order. */
  function Leaving(selected: seq<Edge>, n: string): seq<Edge> {
    if selected == [] then []
    else
      var last := selected[|selected| - 1];
      Leaving(selected[..|selected| - 1], n) + (if last.source == n then [last] else [])
  }

  function Choices(selected: seq<Edge>, n: string): seq<Edge> {
    Sort(Leaving(selected, n), IdLeq)
  }

  function Sources(selected: seq<Edge>): set<string> { set e | e in selected :: e.source }

  function Destinations(selected: seq<Edge>): set<string> { set e | e in selected :: e.destination }

  /** Nodes that nothing points to; if there are none, every node that has an outgoing edge. */
  function RootSet(selected: seq<Edge>): set<string> {
    var free := Sources(selected) - Destinations(selected);
    if free != {} then free else Sources(selected)
  }

  // ----- The uncapped enumeration -----

  function LeastConfidence(path: seq<Edge>): real
    requires path != []
  {
    if |path| == 1 then path[0].confidence
    else
      var rest := LeastConfidence(path[1..]);
      if path[0].confidence <= rest then path[0].confidence else rest
  }

  function NodesOf(path: seq<Edge>): (ids: seq<string>)
    requires path != []
    ensures |ids| == |path| + 1
  {
    [path[0].source] + seq(|path|, i requires 0 <= i < |path| => path[i].destination)
  }

  function Emitted(o: Options, excluded: int, path: seq<Edge>, cycle: bool): Pathway
    requires path != []
  {
    Pathway(path, NodesOf(path), cycle || exists e :: e in path && e.partial,
            cycle || |path| >= o.maxHops, LeastConfidence(path), excluded)
  }

  /** What is fixed during one assembly. */
  datatype Scope = Scope(o: Options, selected: seq<Edge>, excluded: int)

  /** Every pathway below `current`, in depth-first order, with no cap on their number. */
  function Below(s: Scope, current: string, path: seq<Edge>, visited: set<string>): seq<Pathway>
    decreases s.o.maxHops - |path|, 1, 0
  {
    var choices := Choices(s.selected, current);
    if choices == [] || |path| >= s.o.maxHops then
      if path == [] then [] else [Emitted(s.o, s.excluded, path, false)]
    else BelowEach(s, choices, path, visited)
  }

  function BelowEach(s: Scope, choices: seq<Edge>, path: seq<Edge>, visited: set<string>): seq<Pathway>
    requires |path| < s.o.maxHops
    decreases s.o.maxHops - |path|, 0, |choices|
  {
    if choices == [] then []
    else
      BelowEach(s, choices[..|choices| - 1], path, visited) + Along(s, choices[|choices| - 1], path, visited)
  }

  /** Following one edge: a pathway that closes a cycle ends there, others go on. */
  function Along(s: Scope, e: Edge, path: seq<Edge>, visited: set<string>): seq<Pathway>
    requires |path| < s.o.maxHops
    decreases s.o.maxHops - |path|, 0, 0
  {
    if e.destination in visited then [Emitted(s.o, s.excluded, path + [e], true)]
    else Below(s, e.destination, path + [e], visited + {e.destination})
  }

  function BelowRoots(s: Scope, roots: seq<string>): seq<Pathway> {
    if roots == [] then []
    else BelowRoots(s, roots[..|roots| - 1]) + Below(s, roots[|roots| - 1], [], {roots[|roots| - 1]})
  }

  /** The full list is cut at the cap, and the pathway at the cap is marked as truncated. */
  function Capped(all: seq<Pathway>, cap: nat): seq<Pathway> {
    var kept := Take(all, cap);
    if |kept| == cap && cap > 0 then kept[cap - 1 := kept[cap - 1].(truncated := true)] else kept
  }

  lemma CappedIs(all: seq<Pathway>, cap: nat, kept: seq<Pathway>, result: seq<Pathway>)
    requires cap > 0 && kept == Take(all, cap)
    requires result == if |kept| == cap then kept[|kept| - 1 := kept[|kept| - 1].(truncated := true)] else kept
    ensures result == Capped(all, cap)
  {}

  /** The distinct sources that are roots, in order of first appearance. */
  function RootNames(selected: seq<Edge>, roots: set<string>): seq<string> {
    if selected == [] then []
    else
      var names := RootNames(selected[..|selected| - 1], roots);
      var n := selected[|selected| - 1].source;
      if n in roots && n !in names then names + [n] else names
  }

  function Roots(selected: seq<Edge>): seq<string> {
    Sort(RootNames(selected, RootSet(selected)), StrLeq)
  }

  function ScopeOf(o: Options, edges: seq<Edge>): Scope
    requires ValidOptions(o)
  {
    Scope(o, Selected(o, edges), |edges| - |Selected(o, edges)|)
  }

  function Enumeration(o: Options, edges: seq<Edge>): seq<Pathway>
    requires ValidOptions(o)
  {
    var s := ScopeOf(o, edges);
    BelowRoots(s, Roots(s.selected))
  }

  // ----- The imperative assembly -----

  lemma TakeTake<T>(a: seq<T>, b: seq<T>, k: nat)
    ensures Take(Take(a, k) + b, k) == Take(a + b, k)
  {}

  function At(outgoing: map<string, seq<Edge>>, n: string): seq<Edge> {
    if n in outgoing then outgoing[n] else []
  }

  lemma IndexedNext(selected: seq<Edge>, e: Edge, n: string)
    ensures Leaving(selected + [e], n) == Leaving(selected, n) + (if e.source == n then [e] else [])
  {
    assert (selected + [e])[..|selected|] == selected;
  }

  lemma EndsNext(selected: seq<Edge>, e: Edge)
    ensures Sources(selected + [e]) == Sources(selected) + {e.source}
    ensures Destinations(selected + [e]) == Destinations(selected) + {e.destination}
  {}

  method IndexEdges(selected: seq<Edge>) returns (outgoing: map<string, seq<Edge>>, incoming: set<string>)
    ensures forall n :: At(outgoing, n) == Leaving(selected, n)
    ensures outgoing.Keys == Sources(selected) && incoming == Destinations(selected)
  {
    outgoing, incoming := map[], {};
    for i := 0 to |selected|
      invariant forall n :: At(outgoing, n) == Leaving(selected[..i], n)
      invariant outgoing.Keys == Sources(selected[..i]) && incoming == Destinations(selected[..i])
    {
      var e := selected[i];
      TakeNext(selected, i);
      EndsNext(selected[..i], e);
      forall n ensures Leaving(selected[..i + 1], n) == Leaving(selected[..i], n) + (if e.source == n then [e] else []) {
        IndexedNext(selected[..i], e, n);
      }
      outgoing := outgoing[e.source := At(outgoing, e.source) + [e]];
      incoming := incoming + {e.destination};
    }
    TakeAll(selected);
  }

  /** The nested functions of the program share one result list; here it is a field. */
  class Assembler {
    const scope: Scope
    const outgoing: map<string, seq<Edge>>
    var result: seq<Pathway>

    constructor (scope: Scope, outgoing: map<string, seq<Edge>>)
      ensures this.scope == scope && this.outgoing == outgoing && result == []
    {
      this.scope, this.outgoing, result := scope, outgoing, [];
    }

    ghost predicate Valid()
      reads this
    {
      && 0 <= |result| <= scope.o.maxPathways
      && forall n :: At(outgoing, n) == Leaving(scope.selected, n)
    }

    method Emit(path: seq<Edge>, cycle: bool)
      requires Valid()
      modifies this`result
      ensures Valid()
      ensures result == Take(old(result) + (if path == [] then [] else [Emitted(scope.o, scope.excluded, path, cycle)]),
                             scope.o.maxPathways)
    {
      if path == [] || |result| >= scope.o.maxPathways {
        return;
      }
      result := result + [Emitted(scope.o, scope.excluded, path, cycle)];
    }

    /** Appends everything below `current`, as far as the cap allows. */
    method Walk(current: string, path: seq<Edge>, visited: set<string>)
      requires Valid()
      modifies this`result
      ensures Valid()
      ensures result == Take(old(result) + Below(scope, current, path, visited), scope.o.maxPathways)
      decreases scope.o.maxHops - |path|
    {
      if |result| >= scope.o.maxPathways {
        return;
      }
      var choices := Sort(At(outgoing, current), IdLeq);
      if choices == [] || |path| >= scope.o.maxHops {
        Emit(path, false);
        return;
      }
      ghost var before := result;
      for i := 0 to |choices|
        invariant Valid()
        invariant result == Take(before + BelowEach(scope, choices[..i], path, visited), scope.o.maxPathways)
      {
        var edge := choices[i];
        OneMoreChoice(scope, choices, i, path, visited, before);
        if edge.destination in visited {
          Emit(path + [edge], true);
        } else {
          Walk(edge.destination, path + [edge], visited + {edge.destination});
        }
      }
      TakeAll(choices);
    }
  }

  /** What one more choice adds, below the cap. */
  lemma OneMoreChoice(s: Scope, choices: seq<Edge>, i: nat, path: seq<Edge>, visited: set<string>, before: seq<Pathway>)
    requires i < |choices| && |path| < s.o.maxHops && s.o.maxPathways >= 0
    ensures Take(Take(before + BelowEach(s, choices[..i], path, visited), s.o.maxPathways) +
                 Along(s, choices[i], path, visited), s.o.maxPathways) ==
            Take(before + BelowEach(s, choices[..i + 1], path, visited), s.o.maxPathways)
  {
    var a, b := BelowEach(s, choices[..i], path, visited), Along(s, choices[i], path, visited);
    TakeNext(choices, i);
    TakeTake(before + a, b, s.o.maxPathways);
    assert before + a + b == before + (a + b);
  }

  /** Stopping early at the cap loses nothing that would have been kept. */
  lemma {:induction false} RootsAfterCap(s: Scope, roots: seq<string>, i: nat, cap: nat)
    requires i <= |roots| && |BelowRoots(s, roots[..i])| >= cap
    ensures Take(BelowRoots(s, roots), cap) == Take(BelowRoots(s, roots[..i]), cap)
    decreases |roots|
  {
    if i == |roots| {
      assert roots[..i] == roots;
    } else {
      var init := roots[..|roots| - 1];
      assert init[..i] == roots[..i];
      RootsAfterCap(s, init, i, cap);
      var tail := Below(s, roots[|roots| - 1], [], {roots[|roots| - 1]});
      TakeTake(BelowRoots(s, init), tail, cap);
      assert BelowRoots(s, roots) == BelowRoots(s, init) + tail;
    }
  }

  /** Walks from each root in turn until the cap is reached. */
  method WalkRoots(s: Scope, outgoing: map<string, seq<Edge>>, roots: seq<string>) returns (result: seq<Pathway>)
    requires s.o.maxPathways >= 0 && forall n :: At(outgoing, n) == Leaving(s.selected, n)
    ensures result == Take(BelowRoots(s, roots), s.o.maxPathways)
  {
    var a := new Assembler(s, outgoing);
    var i := 0;
    while i < |roots| && |a.result| < s.o.maxPathways
      invariant 0 <= i <= |roots| && a.Valid()
      invariant a.result == Take(BelowRoots(s, roots[..i]), s.o.maxPathways)
    {
      assert roots[..i + 1][..i] == roots[..i];
      TakeTake(BelowRoots(s, roots[..i]), Below(s, roots[i], [], {roots[i]}), s.o.maxPathways);
      a.Walk(roots[i], [], {roots[i]});
      i := i + 1;
    }
    if i < |roots| {
      RootsAfterCap(s, roots, i, s.o.maxPathways);
    } else {
      assert roots[..i] == roots;
    }
    result := a.result;
  }

  method FindRoots(selected: seq<Edge>, outgoing: set<string>, incoming: set<string>) returns (roots: seq<string>)
    requires outgoing == Sources(selected) && incoming == Destinations(selected)
    ensures roots == Roots(selected)
  {
    var free := outgoing - incoming;
    roots := Sort(RootNames(selected, if free != {} then free else outgoing), StrLeq);
  }

  /** The assembled list is the head of the full enumeration, with its last element marked at the cap. */
  method AssemblePathways(edges: seq<Edge>, o: Options) returns (assembly: Assembly)
    ensures assembly == if ValidOptions(o) then Assembled(Capped(Enumeration(o, edges), o.maxPathways))
                        else BoundsExceeded
    ensures assembly == BoundsExceeded <==>
            !(1 <= o.maxHops <= 32 && 1 <= o.maxNodes <= 500 && 1 <= o.maxEdges <= 1000 && 1 <= o.maxPathways <= 200)
  {
    if !ValidOptions(o) {
      return BoundsExceeded;
    }
    var scope := ScopeOf(o, edges);
    var outgoing, incoming := IndexEdges(scope.selected);
    var roots := FindRoots(scope.selected, outgoing.Keys, incoming);
    var result := WalkRoots(scope, outgoing, roots);
    ghost var kept := result;
    if |result| == o.maxPathways {
      result := result[|result| - 1 := result[|result| - 1].(truncated := true)];
    }
    CappedIs(Enumeration(o, edges), o.maxPathways, kept, result);
    assembly := Assembled(result);
  }
}
