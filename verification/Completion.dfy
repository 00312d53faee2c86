/** Exactly when a run goes through: a condition on the registry and the cluster that can be checked
    before anything is changed. */
module Completion {
  import opened Optional
  import opened Mappings
  import opened Migrations
  import opened Resumption
  import opened ApplyProofs

  // ----- The definition a field will have -----

  function DefinitionIn(a: Action, index: string, field: string): Option<Field> {
    if a.UpdateMapping? && a.index == index && PropertiesOf(a.contract).Some? && field in PropertiesOf(a.contract).value
    then Some(PropertiesOf(a.contract).value[field]) else None
  }

  /** The first definition of a field among the pending updates. */
  function FirstPending(actions: seq<Action>, index: string, field: string): Option<Field> {
    if actions == [] then None
    else
      var before := FirstPending(actions[..|actions| - 1], index, field);
      if before.Some? then before else DefinitionIn(actions[|actions| - 1], index, field)
  }

  /** The definition a field has, or will be the first to get. */
  function Definitive(c: Catalog, actions: seq<Action>, s: State, index: string, field: string): Option<Field> {
    if index in s.indices then
      if field in s.indices[index].properties then Some(s.indices[index].properties[field])
      else FirstPending(actions, index, field)
    else
      var mapping := IndexMapping(c, index);
      if mapping.Some? && field in mapping.value.properties then Some(mapping.value.properties[field]) else None
  }

  /** Every definition of the update matches the definitive one. */
  predicate Compatible(c: Catalog, actions: seq<Action>, s: State, index: string, props: Properties) {
    forall f :: f in props ==>
      var d := Definitive(c, actions, s, index, f); d.Some? && UpdateMatches(index, f, props[f], d.value)
  }

  /** The condition under which action `i` succeeds, in terms of the state before the first action. */
  predicate Fits(c: Catalog, actions: seq<Action>, s: State, i: nat)
    requires i < |actions|
  {
    match actions[i]
    case EnsureIndex(index) => index in s.indices || IndexMapping(c, index).Some?
    case UpdateMapping(index, contract) =>
      && PropertiesOf(contract).Some? && IsTarget(c.registry, index)
      && (if index in s.indices then s.indices[index].strict else EnsureIndex(index) in actions[..i])
      && Compatible(c, actions, s, index, PropertiesOf(contract).value)
    case _ => true
  }

  /** Every update among the actions comes from the registry. */
  ghost predicate Registered(c: Catalog, actions: seq<Action>) {
    forall a :: a in actions && a.UpdateMapping? ==> FromRegistry(c.registry, a)
  }

  ghost predicate FromRegistry(ms: seq<Migration>, a: Action) {
    a.UpdateMapping? && exists m :: m in ms && Update(a.index, a.contract) in m.updates
  }

  // ----- Owners -----

  lemma {:induction false} OwnedContains(updates: seq<Update>, u: Update)
    requires u in updates && OwnedBy(updates, u.index).Some?
    ensures PropertiesOf(u.contract).Some?
    ensures forall f :: f in PropertiesOf(u.contract).value ==> f in OwnedBy(updates, u.index).value
  {
    var init, last := updates[..|updates| - 1], updates[|updates| - 1];
    assert updates == init + [last];
    if u in init { OwnedContains(init, u); }
  }

  lemma {:induction false} OwnersContain(ms: seq<Migration>, m: Migration, u: Update)
    requires m in ms && u in m.updates && FirstOwners(ms, u.index).Some?
    ensures PropertiesOf(u.contract).Some?
    ensures forall f :: f in PropertiesOf(u.contract).value ==> f in FirstOwners(ms, u.index).value
  {
    var init, last := ms[..|ms| - 1], ms[|ms| - 1];
    assert ms == init + [last];
    if m in init { OwnersContain(init, m, u); } else { OwnedContains(m.updates, u); }
  }

  /** A new index is created with every field that any update will ever ask for. */
  lemma NewIndexHasFields(c: Catalog, a: Action)
    requires FromRegistry(c.registry, a) && IndexMapping(c, a.index).Some?
    ensures IsTarget(c.registry, a.index) && PropertiesOf(a.contract).Some?
    ensures forall f :: f in PropertiesOf(a.contract).value ==> f in IndexMapping(c, a.index).value.properties
  {
    var m :| m in c.registry && Update(a.index, a.contract) in m.updates;
    OwnersContain(c.registry, m, Update(a.index, a.contract));
  }

  // ----- First definitions -----

  lemma {:induction false} FirstPendingKept(actions: seq<Action>, k: nat, index: string, field: string)
    requires k <= |actions| && FirstPending(actions[..k], index, field).Some?
    ensures FirstPending(actions, index, field) == FirstPending(actions[..k], index, field)
  {
    if k == |actions| {
      assert actions[..k] == actions;
    } else {
      assert actions[..|actions| - 1][..k] == actions[..k];
      FirstPendingKept(actions[..|actions| - 1], k, index, field);
    }
  }

  lemma FirstPendingNext(actions: seq<Action>, i: nat, index: string, field: string)
    requires i < |actions|
    ensures FirstPending(actions[..i + 1], index, field) ==
            var before := FirstPending(actions[..i], index, field);
            if before.Some? then before else DefinitionIn(actions[i], index, field)
  {
    assert actions[..i + 1][..i] == actions[..i];
  }

  // ----- The state after some actions -----

  /** An index that was there has kept its strictness and gained the pending fields, each with its
      definitive definition. */
  ghost predicate OldIndex(c: Catalog, actions: seq<Action>, s: State, i: nat, x: string, m: Mapping)
    requires i <= |actions| && x in s.indices
  {
    && m.strict == s.indices[x].strict
    && (forall f :: f in m.properties ==> Definitive(c, actions, s, x, f) == Some(m.properties[f]))
    && (forall f :: f in m.properties <==>
          f in s.indices[x].properties || FirstPending(actions[..i], x, f).Some?)
  }

  ghost predicate IndexAfter(c: Catalog, actions: seq<Action>, s: State, i: nat, t: State, x: string)
    requires i <= |actions|
  {
    && (x in t.indices <==> x in s.indices || EnsureIndex(x) in actions[..i])
    && (x in s.indices && x in t.indices ==> OldIndex(c, actions, s, i, x, t.indices[x]))
    && (x !in s.indices && x in t.indices ==> IndexMapping(c, x) == Some(t.indices[x]))
  }

  ghost predicate After(c: Catalog, actions: seq<Action>, s: State, i: nat, t: State)
    requires i <= |actions|
  {
    forall x :: IndexAfter(c, actions, s, i, t, x)
  }

  lemma AfterNone(c: Catalog, actions: seq<Action>, s: State)
    ensures After(c, actions, s, 0, s)
  {
    forall x ensures IndexAfter(c, actions, s, 0, s, x) {}
  }

  /** Actions that do not concern an index leave its account alone. */
  lemma IndexUntouched(c: Catalog, actions: seq<Action>, s: State, i: nat, t: State, t': State, x: string)
    requires i < |actions| && IndexAfter(c, actions, s, i, t, x)
    requires actions[i] != EnsureIndex(x) && !(actions[i].UpdateMapping? && actions[i].index == x)
    requires (x in t.indices <==> x in t'.indices) && (x in t.indices ==> t'.indices[x] == t.indices[x])
    ensures IndexAfter(c, actions, s, i + 1, t', x)
  {
    assert actions[..i + 1] == actions[..i] + [actions[i]];
    forall f ensures FirstPending(actions[..i + 1], x, f) == FirstPending(actions[..i], x, f) {
      FirstPendingNext(actions, i, x, f);
    }
  }

  lemma EnsureStep(c: Catalog, actions: seq<Action>, s: State, i: nat, t: State)
    requires i < |actions| && actions[i].EnsureIndex? && IndexAfter(c, actions, s, i, t, actions[i].index)
    ensures Perform(c, actions[i], t).Done? <==> Fits(c, actions, s, i)
    ensures Perform(c, actions[i], t).Done? ==> IndexAfter(c, actions, s, i + 1, Perform(c, actions[i], t).state, actions[i].index)
  {
    assert actions[..i + 1] == actions[..i] + [actions[i]];
    forall f ensures FirstPending(actions[..i + 1], actions[i].index, f) == FirstPending(actions[..i], actions[i].index, f) {
      FirstPendingNext(actions, i, actions[i].index, f);
    }
  }

  /** A field not yet installed in an old index will be installed by this very update. */
  lemma NewFieldIsDefinitive(c: Catalog, actions: seq<Action>, s: State, i: nat, m: Mapping, f: string)
    requires i < |actions| && actions[i].UpdateMapping? && actions[i].index in s.indices
    requires OldIndex(c, actions, s, i, actions[i].index, m)
    requires PropertiesOf(actions[i].contract).Some? && f in PropertiesOf(actions[i].contract).value && f !in m.properties
    ensures Definitive(c, actions, s, actions[i].index, f) == Some(PropertiesOf(actions[i].contract).value[f])
  {
    FirstPendingNext(actions, i, actions[i].index, f);
    FirstPendingKept(actions, i + 1, actions[i].index, f);
  }

  lemma OldIndexConflict(c: Catalog, actions: seq<Action>, s: State, i: nat, m: Mapping)
    requires i < |actions| && actions[i].UpdateMapping? && actions[i].index in s.indices
    requires OldIndex(c, actions, s, i, actions[i].index, m) && PropertiesOf(actions[i].contract).Some?
    ensures NoConflict(actions[i].index, PropertiesOf(actions[i].contract).value, m.properties) <==>
            Compatible(c, actions, s, actions[i].index, PropertiesOf(actions[i].contract).value)
  {
    var x, props := actions[i].index, PropertiesOf(actions[i].contract).value;
    forall f | f in props && f !in m.properties
      ensures Definitive(c, actions, s, x, f) == Some(props[f]) && UpdateMatches(x, f, props[f], props[f])
    {
      NewFieldIsDefinitive(c, actions, s, i, m, f);
      TypeMatchesReflexive(props[f]);
    }
  }

  lemma OldIndexNext(c: Catalog, actions: seq<Action>, s: State, i: nat, m: Mapping)
    requires i < |actions| && actions[i].UpdateMapping? && actions[i].index in s.indices
    requires OldIndex(c, actions, s, i, actions[i].index, m) && PropertiesOf(actions[i].contract).Some? && m.strict
    ensures OldIndex(c, actions, s, i + 1, actions[i].index,
                     Mapping(true, PropertiesOf(actions[i].contract).value + m.properties))
  {
    var x, props := actions[i].index, PropertiesOf(actions[i].contract).value;
    forall f | f in props && f !in m.properties ensures Definitive(c, actions, s, x, f) == Some(props[f]) {
      NewFieldIsDefinitive(c, actions, s, i, m, f);
    }
    forall f ensures f in (props + m.properties) <==> f in s.indices[x].properties || FirstPending(actions[..i + 1], x, f).Some? {
      FirstPendingNext(actions, i, x, f);
    }
  }

  lemma OldUpdateStep(c: Catalog, actions: seq<Action>, s: State, i: nat, t: State)
    requires i < |actions| && actions[i].UpdateMapping? && actions[i].index in s.indices
    requires IndexAfter(c, actions, s, i, t, actions[i].index)
    ensures Perform(c, actions[i], t).Done? <==> Fits(c, actions, s, i)
    ensures Perform(c, actions[i], t).Done? ==> IndexAfter(c, actions, s, i + 1, Perform(c, actions[i], t).state, actions[i].index)
  {
    var x, contract := actions[i].index, actions[i].contract;
    if PropertiesOf(contract).Some? {
      OldIndexConflict(c, actions, s, i, t.indices[x]);
      if NoConflict(x, PropertiesOf(contract).value, t.indices[x].properties) {
        VerificationHolds(x, PropertiesOf(contract).value, t.indices[x].properties);
      }
      if t.indices[x].strict { OldIndexNext(c, actions, s, i, t.indices[x]); }
    }
    assert actions[..i + 1] == actions[..i] + [actions[i]];
  }

  lemma NewUpdateStep(c: Catalog, actions: seq<Action>, s: State, i: nat, t: State)
    requires i < |actions| && actions[i].UpdateMapping? && actions[i].index !in s.indices
    requires IndexAfter(c, actions, s, i, t, actions[i].index) && FromRegistry(c.registry, actions[i])
    ensures Perform(c, actions[i], t).Done? <==> Fits(c, actions, s, i)
    ensures Perform(c, actions[i], t).Done? ==> IndexAfter(c, actions, s, i + 1, Perform(c, actions[i], t).state, actions[i].index)
  {
    var x, contract := actions[i].index, actions[i].contract;
    assert actions[..i + 1] == actions[..i] + [actions[i]];
    if x in t.indices {
      NewIndexHasFields(c, actions[i]);
      var props, m := PropertiesOf(contract).value, t.indices[x];
      assert props + m.properties == m.properties;
      if NoConflict(x, props, m.properties) { VerificationHolds(x, props, m.properties); }
    }
  }

  ghost predicate Concerns(a: Action, x: string) {
    (a.EnsureIndex? || a.UpdateMapping?) && a.index == x
  }

  lemma OwnIndexStep(c: Catalog, actions: seq<Action>, s: State, i: nat, t: State)
    requires i < |actions| && (actions[i].EnsureIndex? || actions[i].UpdateMapping?) && Registered(c, actions)
    requires IndexAfter(c, actions, s, i, t, actions[i].index)
    ensures Perform(c, actions[i], t).Done? <==> Fits(c, actions, s, i)
    ensures Perform(c, actions[i], t).Done? ==> IndexAfter(c, actions, s, i + 1, Perform(c, actions[i], t).state, actions[i].index)
  {
    if actions[i].EnsureIndex? { EnsureStep(c, actions, s, i, t); }
    else if actions[i].index in s.indices { OldUpdateStep(c, actions, s, i, t); }
    else { NewUpdateStep(c, actions, s, i, t); }
  }

  lemma OtherIndexStep(c: Catalog, actions: seq<Action>, s: State, i: nat, t: State, x: string)
    requires i < |actions| && IndexAfter(c, actions, s, i, t, x) && !Concerns(actions[i], x)
    requires Perform(c, actions[i], t).Done?
    ensures IndexAfter(c, actions, s, i + 1, Perform(c, actions[i], t).state, x)
  {
    IndexUntouched(c, actions, s, i, t, Perform(c, actions[i], t).state, x);
  }

  /** Step by step: action `i` succeeds exactly when it fits. */
  lemma StepFits(c: Catalog, actions: seq<Action>, s: State, i: nat, j: nat, t: State)
    requires i < |actions| && j == i + 1 && After(c, actions, s, i, t) && Registered(c, actions)
    ensures Perform(c, actions[i], t).Done? <==> Fits(c, actions, s, i)
    ensures Perform(c, actions[i], t).Done? ==> After(c, actions, s, j, Perform(c, actions[i], t).state)
  {
    var a := actions[i];
    if a.EnsureIndex? || a.UpdateMapping? {
      assert IndexAfter(c, actions, s, i, t, a.index);
      OwnIndexStep(c, actions, s, i, t);
    }
    if Perform(c, a, t).Done? {
      var t' := Perform(c, a, t).state;
      forall x ensures IndexAfter(c, actions, s, j, t', x) {
        assert IndexAfter(c, actions, s, i, t, x);
        if !Concerns(a, x) { OtherIndexStep(c, actions, s, i, t, x); }
      }
    }
  }

  ghost predicate AllFit(c: Catalog, actions: seq<Action>, s: State, from: nat) {
    forall i :: from <= i < |actions| ==> Fits(c, actions, s, i)
  }

  lemma {:induction false} RestCompletes(c: Catalog, actions: seq<Action>, s: State, i: nat, t: State)
    requires i <= |actions| && After(c, actions, s, i, t) && Registered(c, actions)
    ensures RunActions(c, actions[i..], t, Unlimited).outcome == Completed <==> AllFit(c, actions, s, i)
    ensures AllFit(c, actions, s, i) ==> After(c, actions, s, |actions|, RunActions(c, actions[i..], t, Unlimited).state)
    decreases |actions| - i
  {
    if i < |actions| {
      StepFits(c, actions, s, i, i + 1, t);
      assert actions[i..][0] == actions[i] && actions[i..][1..] == actions[i + 1..];
      if Fits(c, actions, s, i) {
        RestCompletes(c, actions, s, i + 1, Perform(c, actions[i], t).state);
      }
    }
  }

  /** A list of registered actions goes through exactly when each of them fits, and then every index is
      an old one with the pending fields added or a new one as its catalogue entry defines it. */
  lemma CompletesIffFits(c: Catalog, actions: seq<Action>, s: State)
    requires Registered(c, actions)
    ensures RunActions(c, actions, s, Unlimited).outcome == Completed <==> AllFit(c, actions, s, 0)
    ensures AllFit(c, actions, s, 0) ==> After(c, actions, s, |actions|, RunActions(c, actions, s, Unlimited).state)
  {
    AfterNone(c, actions, s);
    RestCompletes(c, actions, s, 0, s);
    assert actions[0..] == actions;
  }
}
