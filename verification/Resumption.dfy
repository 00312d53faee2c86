/** Installed things stay installed, and an interrupted run can be repeated. */
module Resumption {
  import opened Mappings
  import opened Migrations

  // ----- Growth -----

  /** Every installed field of `m` is installed in `n` with the same definition, under the same strictness. */
  ghost predicate MappingKept(m: Mapping, n: Mapping) {
    m.strict == n.strict && forall f :: f in m.properties ==> f in n.properties && n.properties[f] == m.properties[f]
  }

  ghost predicate IndicesKept(s: map<string, Mapping>, t: map<string, Mapping>) {
    forall i :: i in s ==> i in t && MappingKept(s[i], t[i])
  }

  ghost predicate TransformsKept(s: map<string, TransformBody>, t: map<string, TransformBody>) {
    forall i :: i in s ==> i in t && t[i] == s[i]
  }

  ghost predicate Kept(s: State, t: State) {
    (s.ledger ==> t.ledger) && IndicesKept(s.indices, t.indices) && TransformsKept(s.transforms, t.transforms)
  }

  lemma KeptTransitive(s: State, t: State, u: State)
    requires Kept(s, t) && Kept(t, u)
    ensures Kept(s, u)
  {}

  /** A new field always matches itself, so the check after an update cannot fail. */
  lemma VerificationHolds(index: string, props: Properties, current: Properties)
    requires NoConflict(index, props, current)
    ensures AllInstalled(index, props, props + current)
  {
    forall f | f in props ensures UpdateMatches(index, f, props[f], (props + current)[f]) {
      if f !in current { TypeMatchesReflexive(props[f]); }
    }
  }

  lemma UpdateKeeps(c: Catalog, index: string, contract: Contract, s: State)
    ensures var r := PerformUpdate(c, index, contract, s);
            && (r.Stuck? ==> r.state == s && r.error != VerificationFailed)
            && Kept(s, r.state) && r.state.records == s.records && r.state.ledger == s.ledger
  {
    if index in s.indices && PropertiesOf(contract).Some? {
      var props, current := PropertiesOf(contract).value, s.indices[index].properties;
      if NoConflict(index, props, current) { VerificationHolds(index, props, current); }
    }
  }

  /** A rejected step changes nothing; an accepted one keeps what is installed and all records. */
  lemma StepKeeps(c: Catalog, a: Action, s: State)
    ensures var r := Perform(c, a, s);
            && (r.Stuck? ==> r.state == s && r.error != VerificationFailed)
            && Kept(s, r.state) && r.state.records == s.records && r.state.ledger == s.ledger
  {
    if a.UpdateMapping? { UpdateKeeps(c, a.index, a.contract, s); }
  }

  lemma {:induction false} ActionsKeep(c: Catalog, actions: seq<Action>, s: State, b: Budget)
    ensures var r := RunActions(c, actions, s, b);
            Kept(s, r.state) && r.state.records == s.records && r.state.ledger == s.ledger
    decreases |actions|
  {
    if actions != [] && !Spent(b) {
      StepKeeps(c, actions[0], s);
      var r := Perform(c, actions[0], s);
      if r.Done? {
        ActionsKeep(c, actions[1..], r.state, Spend(b));
        KeptTransitive(s, r.state, RunActions(c, actions[1..], r.state, Spend(b)).state);
      }
    }
  }

  // ----- Settled actions -----

  /** Repeating the action would install nothing new. */
  ghost predicate Settled(c: Catalog, a: Action, s: State) {
    match a
    case EnsureIndex(index) => index in s.indices
    case EnsureTransform(id, _) => id in s.transforms
    case Put(_, _) => true
    case UpdateMapping(index, contract) =>
      && PropertiesOf(contract).Some? && IsTarget(c.registry, index)
      && index in s.indices && s.indices[index].strict
      && AllInstalled(index, PropertiesOf(contract).value, s.indices[index].properties)
  }

  lemma SettledKept(c: Catalog, a: Action, s: State, t: State)
    requires Settled(c, a, s) && Kept(s, t)
    ensures Settled(c, a, t)
  {}

  function PutOf(a: Action): map<Resource, Body> {
    if a.Put? then map[a.resource := a.body] else map[]
  }

  lemma DoneSettles(c: Catalog, a: Action, s: State)
    requires Perform(c, a, s).Done?
    ensures Settled(c, a, Perform(c, a, s).state)
    ensures Perform(c, a, s).state.resources == s.resources + PutOf(a)
  {}

  lemma SettledPerform(c: Catalog, a: Action, s: State)
    requires Settled(c, a, s)
    ensures Perform(c, a, s) == Done(s.(resources := s.resources + PutOf(a)))
  {
    if a.UpdateMapping? {
      var props, current := PropertiesOf(a.contract).value, s.indices[a.index].properties;
      assert props + current == current;
      assert s.indices[a.index := Mapping(true, current)] == s.indices;
    }
    if !a.Put? { assert s.resources + PutOf(a) == s.resources; }
  }

  function Puts(actions: seq<Action>): map<Resource, Body> {
    if actions == [] then map[] else PutOf(actions[0]) + Puts(actions[1..])
  }

  lemma PutsFirst(resources: map<Resource, Body>, actions: seq<Action>)
    requires actions != []
    ensures resources + PutOf(actions[0]) + Puts(actions[1..]) == resources + Puts(actions)
  {}

  ghost predicate AllSettled(c: Catalog, actions: seq<Action>, s: State) {
    forall a :: a in actions ==> Settled(c, a, s)
  }

  lemma {:induction false} SettledRun(c: Catalog, actions: seq<Action>, s: State)
    requires AllSettled(c, actions, s)
    ensures RunActions(c, actions, s, Unlimited) ==
            Run(Completed, s.(resources := s.resources + Puts(actions)), Unlimited)
  {
    if actions == [] {
      assert s.resources + map[] == s.resources;
    } else {
      SettledPerform(c, actions[0], s);
      var s' := s.(resources := s.resources + PutOf(actions[0]));
      forall a | a in actions[1..] ensures Settled(c, a, s') { SettledKept(c, a, s, s'); }
      SettledRun(c, actions[1..], s');
      PutsFirst(s.resources, actions);
    }
  }

  lemma FirstSettled(c: Catalog, actions: seq<Action>, s: State)
    requires actions != [] && RunActions(c, actions, s, Unlimited).outcome == Completed
    ensures Perform(c, actions[0], s).Done?
    ensures Perform(c, actions[0], s).state.resources == s.resources + PutOf(actions[0])
    ensures Settled(c, actions[0], RunActions(c, actions, s, Unlimited).state)
  {
    var s' := Perform(c, actions[0], s).state;
    DoneSettles(c, actions[0], s);
    ActionsKeep(c, actions[1..], s', Unlimited);
    SettledKept(c, actions[0], s', RunActions(c, actions[1..], s', Unlimited).state);
  }

  /** A completed run settles its actions, and its puts are what it leaves in the resources. */
  lemma {:induction false} CompletedSettles(c: Catalog, actions: seq<Action>, s: State)
    requires RunActions(c, actions, s, Unlimited).outcome == Completed
    ensures var t := RunActions(c, actions, s, Unlimited).state;
            AllSettled(c, actions, t) && t.resources == s.resources + Puts(actions)
  {
    if actions == [] {
      assert s.resources + map[] == s.resources;
    } else {
      var s' := Perform(c, actions[0], s).state;
      var t := RunActions(c, actions[1..], s', Unlimited).state;
      CompletedSettles(c, actions[1..], s');
      FirstSettled(c, actions, s);
      PutsFirst(s.resources, actions);
      assert forall a :: a in actions ==> a == actions[0] || a in actions[1..];
    }
  }

  /** Running the same actions again changes nothing. */
  lemma ActionsIdempotent(c: Catalog, actions: seq<Action>, s: State)
    requires RunActions(c, actions, s, Unlimited).outcome == Completed
    ensures var r := RunActions(c, actions, s, Unlimited); RunActions(c, actions, r.state, Unlimited) == r
  {
    var t := RunActions(c, actions, s, Unlimited).state;
    CompletedSettles(c, actions, s);
    SettledRun(c, actions, t);
    assert t.resources + Puts(actions) == t.resources;
  }

  // ----- Prefixes -----

  lemma {:induction false} RunConcat(c: Catalog, a: seq<Action>, b: seq<Action>, s: State)
    ensures RunActions(c, a + b, s, Unlimited) ==
            var r := RunActions(c, a, s, Unlimited); if r.outcome == Completed then RunActions(c, b, r.state, Unlimited) else r
  {
    if a == [] {
      assert a + b == b;
    } else {
      assert (a + b)[1..] == a[1..] + b;
      var r := Perform(c, a[0], s);
      if r.Done? { RunConcat(c, a[1..], b, r.state); }
    }
  }

  /** However a run ends, it leaves the state after some prefix of its actions. */
  lemma {:induction false} RunIsPrefix(c: Catalog, actions: seq<Action>, s: State, b: Budget) returns (k: nat)
    ensures k <= |actions|
    ensures RunActions(c, actions[..k], s, Unlimited) == Run(Completed, RunActions(c, actions, s, b).state, Unlimited)
    decreases |actions|
  {
    k := 0;
    if actions != [] && !Spent(b) {
      StepKeeps(c, actions[0], s);
      var r := Perform(c, actions[0], s);
      if r.Done? {
        var j := RunIsPrefix(c, actions[1..], r.state, Spend(b));
        k := j + 1;
        assert actions[..k][1..] == actions[1..][..j];
      }
    }
  }

  /** Repeating the actions after any interruption or failure ends as an uninterrupted run would have. */
  lemma ActionsReplay(c: Catalog, actions: seq<Action>, s: State, b: Budget)
    ensures RunActions(c, actions, RunActions(c, actions, s, b).state, Unlimited) == RunActions(c, actions, s, Unlimited)
  {
    var t := RunActions(c, actions, s, b).state;
    var k := RunIsPrefix(c, actions, s, b);
    var done, rest := actions[..k], actions[k..];
    assert actions == done + rest;
    RunConcat(c, done, rest, s);
    RunConcat(c, done, rest, t);
    ActionsIdempotent(c, done, s);
  }
}
