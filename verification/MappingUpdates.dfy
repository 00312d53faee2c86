/** What a mapping update accepts and installs, said about the kinds of fields at every path. */
module MappingUpdates {
  import opened Optional
  import opened Mappings
  import opened Migrations
  import opened Resumption

  // ----- Kinds at paths -----

  /** One step into a definition: to one of its sub-fields or to one of its properties. */
  datatype Step = Sub(name: string) | Prop(name: string)

  /** The kind declared at a path, if the path exists. */
  function KindAt(f: Field, path: seq<Step>): Option<Option<string>> {
    if path == [] then Some(f.kind)
    else
      match path[0]
      case Sub(n) => if n in f.fields then KindAt(f.fields[n], path[1..]) else None
      case Prop(n) => if n in f.properties then KindAt(f.properties[n], path[1..]) else None
  }

  ghost predicate AgreeAt(expected: Field, installed: Field, path: seq<Step>) {
    KindAt(expected, path).Some? ==> KindAt(installed, path) == KindAt(expected, path)
  }

  /** Every path of `expected` exists in `installed`, with the same kind. */
  ghost predicate SameKinds(expected: Field, installed: Field) {
    forall path :: AgreeAt(expected, installed, path)
  }

  lemma {:induction false} MatchingAgrees(e: Field, i: Field, path: seq<Step>)
    requires TypeMatches(e, i)
    ensures AgreeAt(e, i, path)
    decreases |path|
  {
    if path != [] {
      match path[0]
      case Sub(n) => if n in e.fields { MatchingAgrees(e.fields[n], i.fields[n], path[1..]); }
      case Prop(n) => if n in e.properties { MatchingAgrees(e.properties[n], i.properties[n], path[1..]); }
    }
  }

  lemma StepInto(e: Field, i: Field, step: Step, path: seq<Step>)
    requires AgreeAt(e, i, [step] + path)
    ensures step.Sub? && step.name in e.fields && step.name in i.fields ==>
              AgreeAt(e.fields[step.name], i.fields[step.name], path)
    ensures step.Prop? && step.name in e.properties && step.name in i.properties ==>
              AgreeAt(e.properties[step.name], i.properties[step.name], path)
  {
    assert ([step] + path)[1..] == path;
  }

  lemma StepExists(e: Field, i: Field, step: Step)
    requires SameKinds(e, i)
    ensures step.Sub? && step.name in e.fields ==> step.name in i.fields
    ensures step.Prop? && step.name in e.properties ==> step.name in i.properties
  {
    assert AgreeAt(e, i, [step]) && [step][1..] == [];
    if step.Sub? && step.name in e.fields { assert KindAt(e.fields[step.name], []).Some? && KindAt(e, [step]).Some?; }
    if step.Prop? && step.name in e.properties { assert KindAt(e.properties[step.name], []).Some? && KindAt(e, [step]).Some?; }
  }

  lemma {:induction false} AgreeingMatches(e: Field, i: Field)
    requires SameKinds(e, i)
    ensures TypeMatches(e, i)
    decreases e
  {
    assert AgreeAt(e, i, []);
    forall n | n in e.fields ensures n in i.fields && TypeMatches(e.fields[n], i.fields[n]) {
      StepExists(e, i, Sub(n));
      forall path ensures AgreeAt(e.fields[n], i.fields[n], path) { StepInto(e, i, Sub(n), path); }
      AgreeingMatches(e.fields[n], i.fields[n]);
    }
    forall n | n in e.properties ensures n in i.properties && TypeMatches(e.properties[n], i.properties[n]) {
      StepExists(e, i, Prop(n));
      forall path ensures AgreeAt(e.properties[n], i.properties[n], path) { StepInto(e, i, Prop(n), path); }
      AgreeingMatches(e.properties[n], i.properties[n]);
    }
  }

  /** Two definitions match exactly when the installed one has every path of the expected one, with the
      same kind there. */
  lemma MatchesIffSameKinds(e: Field, i: Field)
    ensures TypeMatches(e, i) <==> SameKinds(e, i)
  {
    if TypeMatches(e, i) { forall path ensures AgreeAt(e, i, path) { MatchingAgrees(e, i, path); } }
    if SameKinds(e, i) { AgreeingMatches(e, i); }
  }

  // ----- What an update does -----

  /** The released exception: the reason of a membership decision stays a keyword. */
  ghost predicate LegacyReason(index: string, field: string, expected: Field, installed: Field) {
    && index == "dataobs-data-product-membership-decisions-v1" && field == "reason"
    && KindAt(expected, []) == Some(Some("match_only_text")) && KindAt(installed, []) == Some(Some("keyword"))
  }

  ghost predicate Acceptable(index: string, field: string, expected: Field, installed: Field) {
    SameKinds(expected, installed) || LegacyReason(index, field, expected, installed)
  }

  lemma AcceptableIff(index: string, field: string, expected: Field, installed: Field)
    ensures UpdateMatches(index, field, expected, installed) <==> Acceptable(index, field, expected, installed)
  {
    MatchesIffSameKinds(expected, installed);
  }

  /** The released shapes of a contract that are well formed. */
  ghost predicate WellFormed(contract: Contract) {
    contract.Plain? || (contract.Wrapper? && contract.dynamic == "strict" && contract.exact)
  }

  /** The update may be tried at all: a well-formed contract for a registered, existing, strict index. */
  ghost predicate Applicable(c: Catalog, index: string, contract: Contract, s: State) {
    && WellFormed(contract)
    && (exists m, u :: m in c.registry && u in m.updates && u.index == index)
    && index in s.indices && s.indices[index].strict
  }

  /** An asked field is installed with a missing path or another kind somewhere. */
  ghost predicate Conflicting(index: string, asked: Properties, installed: Properties) {
    exists f :: f in asked && f in installed && !Acceptable(index, f, asked[f], installed[f])
  }

  lemma ConflictIff(index: string, asked: Properties, installed: Properties)
    ensures NoConflict(index, asked, installed) <==> !Conflicting(index, asked, installed)
  {
    forall f | f in asked && f in installed
      ensures UpdateMatches(index, f, asked[f], installed[f]) <==> Acceptable(index, f, asked[f], installed[f])
    {
      AcceptableIff(index, f, asked[f], installed[f]);
    }
  }

  /** After the update: asked fields are there with acceptable kinds, new ones exactly as asked, old ones
      untouched, and no others. */
  ghost predicate Extended(index: string, asked: Properties, before: Properties, after: Properties) {
    && after.Keys == before.Keys + asked.Keys
    && (forall f :: f in before ==> f in after && after[f] == before[f])
    && (forall f :: f in asked && f !in before ==> f in after && after[f] == asked[f])
    && (forall f :: f in asked ==> f in after && Acceptable(index, f, asked[f], after[f]))
  }

  lemma UpdateExtends(index: string, asked: Properties, before: Properties)
    requires NoConflict(index, asked, before)
    ensures Extended(index, asked, before, asked + before)
  {
    VerificationHolds(index, asked, before);
    forall f | f in asked ensures Acceptable(index, f, asked[f], (asked + before)[f]) {
      AcceptableIff(index, f, asked[f], (asked + before)[f]);
    }
  }

  /** An applicable update is rejected exactly when an asked field conflicts, and then changes nothing;
      otherwise it extends its index, and only that. An update that is not applicable changes nothing. */
  lemma UpdateOutcome(c: Catalog, index: string, contract: Contract, s: State)
    ensures var r := PerformUpdate(c, index, contract, s);
            && (!Applicable(c, index, contract, s) ==> r.Stuck? && r.state == s && r.error != IncompatibleMapping)
            && (r.Stuck? && r.error == MalformedContract <==> !WellFormed(contract))
            && (Applicable(c, index, contract, s) ==>
                  var before := s.indices[index].properties;
                  && (r == Stuck(IncompatibleMapping, s) <==> Conflicting(index, contract.properties, before))
                  && (r.Done? <==> !Conflicting(index, contract.properties, before))
                  && (r.Done? ==>
                        && index in r.state.indices && r.state == s.(indices := s.indices[index := r.state.indices[index]])
                        && r.state.indices[index].strict
                        && Extended(index, contract.properties, before, r.state.indices[index].properties)))
  {
    if Applicable(c, index, contract, s) {
      var before := s.indices[index].properties;
      ConflictIff(index, contract.properties, before);
      if NoConflict(index, contract.properties, before) {
        VerificationHolds(index, contract.properties, before);
        UpdateExtends(index, contract.properties, before);
      }
    }
  }

  // ----- What a new index is created with -----

  lemma {:induction false} OwnedUnlessMalformed(updates: seq<Update>, index: string)
    ensures OwnedBy(updates, index).Some? <==> forall u :: u in updates && u.index == index ==> WellFormed(u.contract)
  {
    if updates != [] {
      var init, last := updates[..|updates| - 1], updates[|updates| - 1];
      OwnedUnlessMalformed(init, index);
      assert updates == init + [last];
    }
  }

  ghost predicate WellFormedFor(m: Migration, index: string) {
    forall u :: u in m.updates && u.index == index ==> WellFormed(u.contract)
  }

  /** An index can be created unless a released contract for it is malformed. */
  lemma {:induction false} OwnersUnlessMalformed(ms: seq<Migration>, index: string)
    ensures FirstOwners(ms, index).Some? <==> forall m :: m in ms ==> WellFormedFor(m, index)
  {
    if ms != [] {
      var init, last := ms[..|ms| - 1], ms[|ms| - 1];
      OwnersUnlessMalformed(init, index);
      OwnedUnlessMalformed(last.updates, index);
      assert WellFormedFor(last, index) <==> OwnedBy(last.updates, index).Some?;
      assert ms == init + [last];
      assert forall m :: m in ms <==> m in init || m == last;
    }
  }

  /** A new index is strict; a field is defined by the pinned table of the index, or else by its owner, or
      else by the overriding table, or else by the shared one. */
  lemma NewIndexDefinition(c: Catalog, index: string, f: string)
    requires FirstOwners(c.registry, index).Some?
    ensures var owners := FirstOwners(c.registry, index).value;
            IndexMapping(c, index).Some? &&
            var m := IndexMapping(c, index).value;
            && m.strict
            && (index in c.pinned && f in c.pinned[index] ==> f in m.properties && m.properties[f] == c.pinned[index][f])
            && (!(index in c.pinned && f in c.pinned[index]) && f in owners ==>
                  f in m.properties && m.properties[f] == owners[f])
            && (!(index in c.pinned && f in c.pinned[index]) && f !in owners && index in c.overrides && f in c.overrides[index] ==>
                  f in m.properties && m.properties[f] == c.overrides[index][f])
            && (!(index in c.pinned && f in c.pinned[index]) && f !in owners &&
                !(index in c.overrides && f in c.overrides[index]) ==>
                  (f in m.properties <==> f in c.shared) && (f in c.shared ==> m.properties[f] == c.shared[f]))
  {}
}
