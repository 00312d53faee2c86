/** What a completed run leaves behind, and when the diagnosis then says ready. */
module Readiness {
  import opened Optional
  import opened Mappings
  import opened Migrations
  import opened Resumption
  import opened ApplyProofs
  import opened Completion
  import opened Installation

  lemma {:induction false} PutIsPut(actions: seq<Action>, r: Resource, b: Body)
    requires Put(r, b) in actions
    ensures r in Puts(actions)
  {
    if actions[0] != Put(r, b) { PutIsPut(actions[1..], r, b); }
  }

  lemma {:induction false} IndexPuts(indices: seq<string>, x: string)
    requires x in indices
    ensures Put(Alias(x, x + "-read"), AliasOf(false)) in IndexActions(indices)
    ensures Put(Alias(x, x + "-write"), AliasOf(true)) in IndexActions(indices)
  {
    var init, last := indices[..|indices| - 1], indices[|indices| - 1];
    assert indices == init + [last];
    if x == last {
      var n := |IndexActions(init)|;
      assert IndexActions(indices)[n + 1] == Put(Alias(x, x + "-read"), AliasOf(false));
      assert IndexActions(indices)[n + 2] == Put(Alias(x, x + "-write"), AliasOf(true));
    } else {
      IndexPuts(init, x);
    }
  }

  function ContractTemplateName(u: StreamUpdate): string { "dataobs-" + Stem(u.pattern) + "-template" }

  function ContractComponentName(u: StreamUpdate): string { "dataobs-" + Stem(u.pattern) + "-mappings" }

  function ContractPolicyName(u: StreamUpdate): string { "dataobs-" + Stem(u.pattern) + "-" + u.contract.retention }

  lemma {:induction false} ContractPuts(streams: seq<StreamUpdate>, u: StreamUpdate)
    requires u in streams
    ensures Put(Lifecycle(ContractPolicyName(u)), DeleteAfter(u.contract.retention)) in ContractActions(streams)
    ensures Put(ComponentTemplate(ContractComponentName(u)), StrictMappings(u.contract.properties)) in ContractActions(streams)
    ensures Put(IndexTemplate(ContractTemplateName(u)),
                ContractTemplate(u.pattern, ContractComponentName(u), ContractPolicyName(u))) in ContractActions(streams)
  {
    var init, last := streams[..|streams| - 1], streams[|streams| - 1];
    assert streams == init + [last];
    if u == last {
      var n, all := |ContractActions(init)|, ContractActions(streams);
      assert all[n] == Put(Lifecycle(ContractPolicyName(u)), DeleteAfter(u.contract.retention));
      assert all[n + 1] == Put(ComponentTemplate(ContractComponentName(u)), StrictMappings(u.contract.properties));
      assert all[n + 2] == Put(IndexTemplate(ContractTemplateName(u)),
                               ContractTemplate(u.pattern, ContractComponentName(u), ContractPolicyName(u)));
    } else {
      ContractPuts(init, u);
    }
  }

  lemma {:induction false} TransformEnsured(ops: seq<TransformOp>, op: TransformOp)
    requires op in ops && op.Executable?
    ensures EnsureTransform(op.id, op.body) in TransformActions(ops)
    ensures Put(StartedTransform(op.id), Running) in TransformActions(ops)
  {
    var init, last := ops[..|ops| - 1], ops[|ops| - 1];
    assert ops == init + [last];
    if op == last {
      var n, all := |TransformActions(init)|, TransformActions(ops);
      assert all[n] == EnsureTransform(op.id, op.body) && all[n + 1] == Put(StartedTransform(op.id), Running);
    } else {
      TransformEnsured(init, op);
    }
  }

  // ----- The work of a migration, item by item -----

  ghost predicate ForIndex(x: string, a: Action) {
    || a == EnsureIndex(x) || a == Put(Alias(x, x + "-read"), AliasOf(false))
    || a == Put(Alias(x, x + "-write"), AliasOf(true))
  }

  ghost predicate ForTransform(op: TransformOp, a: Action) {
    op.Executable? && (a == EnsureTransform(op.id, op.body) || a == Put(StartedTransform(op.id), Running))
  }

  ghost predicate ForContract(u: StreamUpdate, a: Action) {
    || a == Put(Lifecycle(ContractPolicyName(u)), DeleteAfter(u.contract.retention))
    || a == Put(ComponentTemplate(ContractComponentName(u)), StrictMappings(u.contract.properties))
    || a == Put(IndexTemplate(ContractTemplateName(u)),
                ContractTemplate(u.pattern, ContractComponentName(u), ContractPolicyName(u)))
  }

  lemma {:induction false} IndexActionsExact(indices: seq<string>, a: Action)
    ensures a in IndexActions(indices) <==> exists x :: x in indices && ForIndex(x, a)
  {
    if indices != [] {
      var init, last := indices[..|indices| - 1], indices[|indices| - 1];
      IndexActionsExact(init, a);
      assert a in IndexActions(indices) <==> a in IndexActions(init) || ForIndex(last, a);
      assert indices == init + [last];
      assert forall x :: x in indices <==> x in init || x == last;
    }
  }

  lemma {:induction false} TransformActionsExact(ops: seq<TransformOp>, a: Action)
    ensures a in TransformActions(ops) <==> exists op :: op in ops && ForTransform(op, a)
  {
    if ops != [] {
      var init, last := ops[..|ops| - 1], ops[|ops| - 1];
      TransformActionsExact(init, a);
      assert a in TransformActions(ops) <==> a in TransformActions(init) || ForTransform(last, a);
      assert ops == init + [last];
      assert forall x :: x in ops <==> x in init || x == last;
    }
  }

  lemma {:induction false} ContractActionsExact(streams: seq<StreamUpdate>, a: Action)
    ensures a in ContractActions(streams) <==> exists u :: u in streams && ForContract(u, a)
  {
    if streams != [] {
      var init, last := streams[..|streams| - 1], streams[|streams| - 1];
      ContractActionsExact(init, a);
      assert a in ContractActions(streams) <==> a in ContractActions(init) || ForContract(last, a);
      assert streams == init + [last];
      assert forall x :: x in streams <==> x in init || x == last;
    }
  }

  lemma StreamActionsExact(patterns: seq<string>, a: Action)
    ensures a in StreamActions(patterns) <==>
            exists p :: p in patterns && a == Put(IndexTemplate(TemplateName(p)), StreamTemplate(p))
  {
    if p :| p in patterns && a == Put(IndexTemplate(TemplateName(p)), StreamTemplate(p)) {
      var i :| 0 <= i < |patterns| && patterns[i] == p;
      assert StreamActions(patterns)[i] == a;
    }
  }

  lemma UpdateActionsExact(updates: seq<Update>, a: Action)
    ensures a in UpdateActions(updates) <==> exists u :: u in updates && a == UpdateMapping(u.index, u.contract)
  {
    if u :| u in updates && a == UpdateMapping(u.index, u.contract) {
      var i :| 0 <= i < |updates| && updates[i] == u;
      assert UpdateActions(updates)[i] == a;
    }
  }

  /** The work of a migration consists of what its operations ask for, and nothing else. */
  lemma WorkExact(m: Migration, a: Action)
    ensures a in Work(m) <==>
            || (exists x :: x in m.mutableIndices && ForIndex(x, a))
            || (exists p :: p in m.dataStreams && a == Put(IndexTemplate(TemplateName(p)), StreamTemplate(p)))
            || (exists op :: op in m.transforms && ForTransform(op, a))
            || (exists u :: u in m.updates && a == UpdateMapping(u.index, u.contract))
            || (exists u :: u in m.streams && ForContract(u, a))
  {
    IndexActionsExact(m.mutableIndices, a);
    StreamActionsExact(m.dataStreams, a);
    TransformActionsExact(m.transforms, a);
    UpdateActionsExact(m.updates, a);
    ContractActionsExact(m.streams, a);
  }

  // ----- Aliases -----

  /** Only the write alias of an index is its write index. */
  ghost predicate AliasRight(a: Action) {
    a.Put? && a.resource.Alias? ==> a.body == AliasOf(a.resource.name == a.resource.index + "-write")
  }

  lemma SuffixesDiffer(x: string)
    ensures x + "-read" != x + "-write"
  {
    assert |x + "-read"| != |x + "-write"|;
  }

  lemma {:induction false} IndexAliases(indices: seq<string>)
    ensures forall a :: a in IndexActions(indices) ==> AliasRight(a)
  {
    if indices != [] {
      IndexAliases(indices[..|indices| - 1]);
      SuffixesDiffer(indices[|indices| - 1]);
    }
  }

  lemma {:induction false} NoTransformAliases(ops: seq<TransformOp>)
    ensures forall a :: a in TransformActions(ops) ==> AliasRight(a)
  {
    if ops != [] { NoTransformAliases(ops[..|ops| - 1]); }
  }

  lemma {:induction false} NoContractAliases(streams: seq<StreamUpdate>)
    ensures forall a :: a in ContractActions(streams) ==> AliasRight(a)
  {
    if streams != [] { NoContractAliases(streams[..|streams| - 1]); }
  }

  lemma WorkAliases(m: Migration)
    ensures forall a :: a in Work(m) ==> AliasRight(a)
  {
    IndexAliases(m.mutableIndices);
    NoTransformAliases(m.transforms);
    NoContractAliases(m.streams);
  }

  lemma {:induction false} PendingAliases(ms: seq<Migration>, applied: map<string, Record>)
    ensures forall a :: a in Pending(ms, applied) ==> AliasRight(a)
  {
    if ms != [] {
      PendingFirst(ms, applied);
      PendingAliases(ms[1..], applied);
      WorkAliases(ms[0]);
    }
  }

  /** Whichever put comes last, an alias ends up as it should be. */
  lemma {:induction false} PutAlias(actions: seq<Action>, r: Resource)
    requires (forall a :: a in actions ==> AliasRight(a)) && r.Alias? && r in Puts(actions)
    ensures Puts(actions)[r] == AliasOf(r.name == r.index + "-write")
  {
    if r in Puts(actions[1..]) { PutAlias(actions[1..], r); } else { assert AliasRight(actions[0]); }
  }

  lemma {:induction false} WorkIsPending(ms: seq<Migration>, applied: map<string, Record>, m: Migration, a: Action)
    requires m in ms && m.id !in applied && a in Work(m)
    ensures a in Pending(ms, applied)
  {
    PendingFirst(ms, applied);
    if m != ms[0] { WorkIsPending(ms[1..], applied, m, a); }
  }

  /** What the work of a migration amounts to once it is done: its indices with both aliases, its stream
      templates and started transforms, the fields it asks for, and its stream contracts. */
  ghost predicate InPlace(m: Migration, t: State) {
    && (forall x :: x in m.mutableIndices ==> IndexInPlace(x, t))
    && (forall p :: p in m.dataStreams ==> IndexTemplate(TemplateName(p)) in t.resources)
    && (forall op :: op in m.transforms && op.Executable? ==>
          op.id in t.transforms && StartedTransform(op.id) in t.resources)
    && (forall u :: u in m.updates ==> UpdateInPlace(u, t))
    && (forall u :: u in m.streams ==> StreamInPlace(u, t))
  }

  ghost predicate IndexInPlace(x: string, t: State) {
    var reading, writing := Alias(x, x + "-read"), Alias(x, x + "-write");
    && x in t.indices && reading in t.resources && writing in t.resources
    && t.resources[reading] == AliasOf(false) && t.resources[writing] == AliasOf(true)
  }

  ghost predicate UpdateInPlace(u: Update, t: State) {
    && PropertiesOf(u.contract).Some? && u.index in t.indices && t.indices[u.index].strict
    && AllInstalled(u.index, PropertiesOf(u.contract).value, t.indices[u.index].properties)
  }

  ghost predicate StreamInPlace(u: StreamUpdate, t: State) {
    && IndexTemplate(ContractTemplateName(u)) in t.resources
    && ComponentTemplate(ContractComponentName(u)) in t.resources
    && Lifecycle(ContractPolicyName(u)) in t.resources
  }

  /** `t` has seen all the actions through, starting from the resources `before`. */
  ghost predicate Through(c: Catalog, actions: seq<Action>, before: map<Resource, Body>, t: State) {
    && AllSettled(c, actions, t) && t.resources == before + Puts(actions)
    && forall a :: a in actions ==> AliasRight(a)
  }

  ghost predicate Includes(actions: seq<Action>, m: Migration) { forall a :: a in Work(m) ==> a in actions }

  lemma PutInPlace(c: Catalog, actions: seq<Action>, m: Migration, before: map<Resource, Body>, t: State, r: Resource, b: Body)
    requires Through(c, actions, before, t) && Includes(actions, m) && Put(r, b) in Work(m)
    ensures r in t.resources && (r.Alias? ==> t.resources[r] == AliasOf(r.name == r.index + "-write"))
  {
    PutIsPut(actions, r, b);
    if r.Alias? { PutAlias(actions, r); }
  }

  lemma IndicesAreInPlace(c: Catalog, actions: seq<Action>, m: Migration, before: map<Resource, Body>, t: State, x: string)
    requires Through(c, actions, before, t) && Includes(actions, m) && x in m.mutableIndices
    ensures IndexInPlace(x, t)
  {
    WorkUpdates(m);
    assert EnsureIndex(x) in Work(m);
    IndexPuts(m.mutableIndices, x);
    SuffixesDiffer(x);
    PutInPlace(c, actions, m, before, t, Alias(x, x + "-read"), AliasOf(false));
    PutInPlace(c, actions, m, before, t, Alias(x, x + "-write"), AliasOf(true));
  }

  lemma TransformsAreInPlace(c: Catalog, actions: seq<Action>, m: Migration, before: map<Resource, Body>, t: State, op: TransformOp)
    requires Through(c, actions, before, t) && Includes(actions, m) && op in m.transforms && op.Executable?
    ensures op.id in t.transforms && StartedTransform(op.id) in t.resources
  {
    TransformEnsured(m.transforms, op);
    assert EnsureTransform(op.id, op.body) in Work(m);
    assert Settled(c, EnsureTransform(op.id, op.body), t);
    PutInPlace(c, actions, m, before, t, StartedTransform(op.id), Running);
  }

  lemma UpdatesAreInPlace(c: Catalog, actions: seq<Action>, m: Migration, before: map<Resource, Body>, t: State, u: Update)
    requires Through(c, actions, before, t) && Includes(actions, m) && u in m.updates
    ensures UpdateInPlace(u, t)
  {
    var j := UpdateInWork(m, u);
    assert Work(m)[j] in actions;
    assert Settled(c, UpdateMapping(u.index, u.contract), t);
  }

  lemma StreamsAreInPlace(c: Catalog, actions: seq<Action>, m: Migration, before: map<Resource, Body>, t: State, u: StreamUpdate)
    requires Through(c, actions, before, t) && Includes(actions, m) && u in m.streams
    ensures StreamInPlace(u, t)
  {
    ContractPuts(m.streams, u);
    var component, policy := ContractComponentName(u), ContractPolicyName(u);
    PutInPlace(c, actions, m, before, t, Lifecycle(policy), DeleteAfter(u.contract.retention));
    PutInPlace(c, actions, m, before, t, ComponentTemplate(component), StrictMappings(u.contract.properties));
    PutInPlace(c, actions, m, before, t, IndexTemplate(ContractTemplateName(u)), ContractTemplate(u.pattern, component, policy));
  }

  lemma TemplatesAreInPlace(c: Catalog, actions: seq<Action>, m: Migration, before: map<Resource, Body>, t: State, p: string)
    requires Through(c, actions, before, t) && Includes(actions, m) && p in m.dataStreams
    ensures IndexTemplate(TemplateName(p)) in t.resources
  {
    var i :| 0 <= i < |m.dataStreams| && m.dataStreams[i] == p;
    assert StreamActions(m.dataStreams)[i] == Put(IndexTemplate(TemplateName(p)), StreamTemplate(p));
    assert Put(IndexTemplate(TemplateName(p)), StreamTemplate(p)) in StreamActions(m.dataStreams);
    PutInPlace(c, actions, m, before, t, IndexTemplate(TemplateName(p)), StreamTemplate(p));
  }

  lemma ThroughIsInPlace(c: Catalog, actions: seq<Action>, m: Migration, before: map<Resource, Body>, t: State)
    requires Through(c, actions, before, t) && Includes(actions, m)
    ensures InPlace(m, t)
  {
    forall x | x in m.mutableIndices ensures IndexInPlace(x, t) { IndicesAreInPlace(c, actions, m, before, t, x); }
    forall p | p in m.dataStreams ensures IndexTemplate(TemplateName(p)) in t.resources {
      TemplatesAreInPlace(c, actions, m, before, t, p);
    }
    forall op | op in m.transforms && op.Executable?
      ensures op.id in t.transforms && StartedTransform(op.id) in t.resources
    {
      TransformsAreInPlace(c, actions, m, before, t, op);
    }
    forall u | u in m.updates ensures UpdateInPlace(u, t) { UpdatesAreInPlace(c, actions, m, before, t, u); }
    forall u | u in m.streams ensures StreamInPlace(u, t) { StreamsAreInPlace(c, actions, m, before, t, u); }
  }

  /** The facts about a completed full run that the diagnosis relies on. */
  lemma CompletedRun(c: Catalog, s: State)
    requires UniqueIds(c.registry) && Topological(c.registry) && !HasConflicts(c.registry, s.records)
    requires Apply(c, None, s, Unlimited).outcome == Completed
    ensures var t := Apply(c, None, s, Unlimited).state;
            && AllSettled(c, Pending(c.registry, s.records), t)
            && t.resources == s.resources + Puts(Pending(c.registry, s.records))
            && (forall m :: m in c.registry ==> m.id in t.records)
            && RecordsGrow(c.registry, s, t) && Kept(s, t)
  {
    var s1, ms := s.(ledger := true), c.registry;
    assert Apply(c, None, s, Unlimited) == RunMigrations(c, ms, s.records, s1, Unlimited);
    NoConflictsAgree(ms, s.records);
    InOrderMore(ms, s.records.Keys);
    assert InStep(ms, s.records, s1);
    MigrationsArePending(c, ms, s.records, s1);
    CompletedSettles(c, Pending(ms, s.records), s1);
    ApplyGrows(c, None, s, Unlimited);
    var w, t := RunActions(c, Pending(ms, s.records), s1, Unlimited).state, Apply(c, None, s, Unlimited).state;
    forall a | a in Pending(ms, s.records) ensures Settled(c, a, t) { SettledKept(c, a, w, t); }
  }

  lemma NewRecord(ms: seq<Migration>, s: State, t: State, m: Migration)
    requires UniqueIds(ms) && RecordsGrow(ms, s, t) && m in ms && m.id in t.records && m.id !in s.records
    ensures t.records[m.id] == RecordOf(m)
  {
    var n :| n in ms && n.id == m.id && t.records[m.id] == RecordOf(n);
    RequiredExact(ms);
  }

  /** A completed full run has every pending migration in place and recorded. */
  lemma CompletedInstalls(c: Catalog, s: State, m: Migration)
    requires UniqueIds(c.registry) && Topological(c.registry) && !HasConflicts(c.registry, s.records)
    requires Apply(c, None, s, Unlimited).outcome == Completed && m in c.registry && m.id !in s.records
    ensures InPlace(m, Apply(c, None, s, Unlimited).state)
    ensures var records := Apply(c, None, s, Unlimited).state.records;
            m.id in records && records[m.id] == Record(Some(m.checksum), None, m.schemaVersion)
  {
    CompletedRun(c, s);
    NewRecord(c.registry, s, Apply(c, None, s, Unlimited).state, m);
    var p, t := Pending(c.registry, s.records), Apply(c, None, s, Unlimited).state;
    forall a | a in Work(m) ensures a in p { WorkIsPending(c.registry, s.records, m, a); }
    PendingAliases(c.registry, s.records);
    ThroughIsInPlace(c, p, m, s.resources, t);
  }

  lemma DependenciesRecorded(ms: seq<Migration>, t: State)
    requires Topological(ms) && forall m :: m in ms ==> m.id in t.records
    ensures forall m :: m in ms ==> AllIn(m.dependencies, t.records.Keys)
  {
    var none: set<string> := {};
    forall m, d | m in ms && d in m.dependencies ensures d in t.records {
      var i :| 0 <= i < |ms| && ms[i] == m;
      assert d in none || d in Ids(ms[..i]);
      var k :| 0 <= k < i && Ids(ms[..i])[k] == d;
      assert ms[k] in ms && ms[k].id == d;
    }
  }

  lemma UnknownStaysEmpty(ms: seq<Migration>, s: State, t: State)
    requires UniqueIds(ms) && Unknown(ms, s.records) == {} && RecordsGrow(ms, s, t)
    ensures Unknown(ms, t.records) == {}
  {
    RequiredExact(ms);
    forall id | id in t.records ensures id in Required(ms) {
      if id in s.records {
        assert id !in Unknown(ms, s.records);
      } else {
        var m :| m in ms && m.id == id && t.records[id] == RecordOf(m);
      }
    }
  }

  /** The resources of a migration are there, or pending work will put them there. */
  predicate Forthcoming(m: Migration, pending: seq<Action>, s: State) {
    && (forall x :: x in m.mutableIndices && !IsPattern(m, x) ==> x in s.indices || EnsureIndex(x) in pending)
    && (forall u :: u in m.streams ==>
          var template := IndexTemplate(ContractTemplateName(u)); template in s.resources || template in Puts(pending))
  }

  /** A completed full run leaves the indices that were there and those it was to create. */
  lemma CompletedIndices(c: Catalog, s: State, x: string)
    requires UniqueIds(c.registry) && Topological(c.registry) && !HasConflicts(c.registry, s.records)
    requires Apply(c, None, s, Unlimited).outcome == Completed
    ensures x in Apply(c, None, s, Unlimited).state.indices <==>
            x in s.indices || EnsureIndex(x) in Pending(c.registry, s.records)
  {
    var s1, ms, p := s.(ledger := true), c.registry, Pending(c.registry, s.records);
    assert Apply(c, None, s, Unlimited) == RunMigrations(c, ms, s.records, s1, Unlimited);
    NoConflictsAgree(ms, s.records);
    InOrderMore(ms, s.records.Keys);
    assert InStep(ms, s.records, s1);
    MigrationsArePending(c, ms, s.records, s1);
    PendingRegistered(c, ms, s.records);
    CompletesIffFits(c, p, s1);
    assert IndexAfter(c, p, s1, |p|, RunActions(c, p, s1, Unlimited).state, x);
    assert p[..|p|] == p;
  }

  lemma CompletedResources(c: Catalog, s: State)
    requires UniqueIds(c.registry) && Topological(c.registry) && !HasConflicts(c.registry, s.records)
    requires Apply(c, None, s, Unlimited).outcome == Completed
    ensures Apply(c, None, s, Unlimited).state.resources == s.resources + Puts(Pending(c.registry, s.records))
  {
    CompletedRun(c, s);
  }

  lemma ReadyIffForthcoming(m: Migration, pending: seq<Action>, s: State, t: State)
    requires forall x :: x in m.mutableIndices ==> (x in t.indices <==> x in s.indices || EnsureIndex(x) in pending)
    requires t.resources == s.resources + Puts(pending)
    ensures ResourcesReady(m, t) <==> Forthcoming(m, pending, s)
  {
    forall u | u in m.streams
      ensures IndexTemplate(ContractTemplateName(u)) in t.resources <==>
              IndexTemplate(ContractTemplateName(u)) in s.resources || IndexTemplate(ContractTemplateName(u)) in Puts(pending)
    {}
  }

  lemma TerminalReady(c: Catalog, s: State, m: Migration)
    requires UniqueIds(c.registry) && Topological(c.registry) && !HasConflicts(c.registry, s.records)
    requires Apply(c, None, s, Unlimited).outcome == Completed
    ensures ResourcesReady(m, Apply(c, None, s, Unlimited).state) <==>
            Forthcoming(m, Pending(c.registry, s.records), s)
  {
    CompletedResources(c, s);
    forall x | x in m.mutableIndices
      ensures x in Apply(c, None, s, Unlimited).state.indices <==>
              x in s.indices || EnsureIndex(x) in Pending(c.registry, s.records)
    {
      CompletedIndices(c, s, x);
    }
    ReadyIffForthcoming(m, Pending(c.registry, s.records), s, Apply(c, None, s, Unlimited).state);
  }

  lemma UnrecordedReady(c: Catalog, s: State, m: Migration)
    requires UniqueIds(c.registry) && Topological(c.registry) && !HasConflicts(c.registry, s.records)
    requires Apply(c, None, s, Unlimited).outcome == Completed && m in c.registry && m.id !in s.records
    ensures ResourcesReady(m, Apply(c, None, s, Unlimited).state)
  {
    CompletedInstalls(c, s, m);
  }

  /** With every migration recorded, nothing else is left to check. */
  lemma ReadyOnceRecorded(ms: seq<Migration>, t: State)
    requires UniqueIds(ms) && !HasConflicts(ms, t.records) && Topological(ms)
    requires forall m :: m in ms ==> m.id in t.records
    ensures Ready(ms, t) <==>
            && Unknown(ms, t.records) == {} && !HasDuplicate(Numbers(ms))
            && (ms != [] ==> ResourcesReady(ms[|ms| - 1], t))
  {
    DependenciesRecorded(ms, t);
    UniqueHasNoDuplicate(ms);
    if ms != [] { assert Required(ms)[ms[|ms| - 1].id] == ms[|ms| - 1]; }
  }

  lemma UnknownKept(ms: seq<Migration>, s: State, t: State)
    requires UniqueIds(ms) && RecordsGrow(ms, s, t)
    ensures Unknown(ms, t.records) == {} <==> Unknown(ms, s.records) == {}
  {
    if Unknown(ms, s.records) == {} { UnknownStaysEmpty(ms, s, t); } else { StrangersStay(ms, s, t); }
  }

  lemma CompletedRecords(c: Catalog, s: State)
    requires UniqueIds(c.registry) && Topological(c.registry) && !HasConflicts(c.registry, s.records)
    requires Apply(c, None, s, Unlimited).outcome == Completed
    ensures var t := Apply(c, None, s, Unlimited).state;
            && (forall m :: m in c.registry ==> m.id in t.records) && !HasConflicts(c.registry, t.records)
            && (Unknown(c.registry, t.records) == {} <==> Unknown(c.registry, s.records) == {})
  {
    CompletedRun(c, s);
    NoNewConflicts(c.registry, s, Apply(c, None, s, Unlimited).state);
    UnknownKept(c.registry, s, Apply(c, None, s, Unlimited).state);
  }

  /** When a completed full run makes the cluster ready: only strangers among the records, a number used
      twice in the registry, or lost resources of a terminal migration recorded before can stand in the
      way. */
  lemma CompletedIsReady(c: Catalog, s: State)
    requires UniqueIds(c.registry) && Topological(c.registry) && !HasConflicts(c.registry, s.records)
    requires Apply(c, None, s, Unlimited).outcome == Completed
    ensures Ready(c.registry, Apply(c, None, s, Unlimited).state) <==>
            && Unknown(c.registry, s.records) == {} && !HasDuplicate(Numbers(c.registry))
            && (c.registry != [] && c.registry[|c.registry| - 1].id in s.records ==>
                  Forthcoming(c.registry[|c.registry| - 1], Pending(c.registry, s.records), s))
  {
    CompletedRecords(c, s);
    ReadyOnceRecorded(c.registry, Apply(c, None, s, Unlimited).state);
    if c.registry != [] {
      var last := c.registry[|c.registry| - 1];
      if last.id in s.records { TerminalReady(c, s, last); } else { UnrecordedReady(c, s, last); }
    }
  }

  lemma UniqueHasNoDuplicate(ms: seq<Migration>)
    requires UniqueIds(ms)
    ensures !HasDuplicate(Ids(ms))
  {}

  lemma StrangersStay(ms: seq<Migration>, s: State, t: State)
    requires RecordsGrow(ms, s, t) && Unknown(ms, s.records) != {}
    ensures Unknown(ms, t.records) != {}
  {
    var id :| id in Unknown(ms, s.records);
    assert id in Unknown(ms, t.records);
  }

  // ----- Lost resources -----

  /** A single migration with one index, recorded on a cluster that has lost the index: a full run completes
      and changes nothing, and the cluster is not ready. */
  lemma LostIndexStays(m: Migration, shared: Properties) returns (c: Catalog, s: State)
    requires m == Migration("0001_base", "v1", "checksum", [], ["products"], [], [], [], [])
    ensures c == Catalog([m], shared, map[], map[]) && s == State(true, map[m.id := RecordOf(m)], map[], map[], map[])
    ensures Apply(c, None, s, Unlimited) == Run(Completed, s, Unlimited) && !Ready(c.registry, s)
  {
    c := Catalog([m], shared, map[], map[]);
    s := State(true, map[m.id := RecordOf(m)], map[], map[], map[]);
    assert [m][..0] == [] && [m][1..] == [];
    assert Required([m]) == map[m.id := m];
    assert ReusedNumbers([m], s.records) == {} && MismatchedIds([m], s.records) == {};
    assert RunMigrations(c, [], s.records, s, Unlimited) == Run(Completed, s, Unlimited);
    assert Apply(c, None, s, Unlimited) == RunMigrations(c, [m], s.records, s, Unlimited);
    assert "products" in m.mutableIndices && !IsPattern(m, "products");
    assert !ResourcesReady(m, s);
  }
}
