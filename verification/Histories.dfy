/** Whatever has happened to a cluster under one coherent registry, one more full run repairs it. */
module Histories {
  import opened Optional
  import opened Mappings
  import opened Migrations
  import opened Resumption
  import opened ApplyProofs
  import opened Completion
  import opened Installation
  import opened Readiness
  import opened Releases

  // ----- What one registry makes of a cluster -----

  ghost predicate Created(ms: seq<Migration>, x: string) { exists m :: m in ms && x in m.mutableIndices }

  ghost predicate IndexShaped(c: Catalog, x: string, m: Mapping) {
    IndexMapping(c, x) == Some(m) && Created(c.registry, x)
  }

  /** Every index is one of the registry's, as the catalogue defines it. */
  ghost predicate IndicesShaped(c: Catalog, indices: map<string, Mapping>) {
    forall x :: x in indices ==> IndexShaped(c, x, indices[x])
  }

  ghost predicate OwnRecord(ms: seq<Migration>, id: string, r: Record) {
    exists m :: m in ms && m.id == id && r == RecordOf(m)
  }

  ghost predicate OwnRecords(ms: seq<Migration>, records: map<string, Record>) {
    forall id :: id in records ==> OwnRecord(ms, id, records[id])
  }

  /** The indices and the stream templates of a migration are there. */
  ghost predicate Equipped(m: Migration, s: State) {
    && (forall x :: x in m.mutableIndices ==> x in s.indices)
    && (forall u :: u in m.streams ==> TemplatePresent(u.pattern, s))
  }

  ghost predicate AllEquipped(ms: seq<Migration>, s: State) {
    forall m :: m in ms && m.id in s.records ==> Equipped(m, s)
  }

  ghost predicate Shaped(c: Catalog, s: State) {
    IndicesShaped(c, s.indices) && OwnRecords(c.registry, s.records) && AllEquipped(c.registry, s)
  }

  // ----- Each action keeps the shape -----

  ghost predicate FromCatalog(c: Catalog, a: Action) {
    (a.UpdateMapping? ==> FromRegistry(c.registry, a)) && (a.EnsureIndex? ==> Created(c.registry, a.index))
  }

  /** Nothing that was there has gone. */
  ghost predicate Grown(s: State, t: State) {
    s.indices.Keys <= t.indices.Keys && s.resources.Keys <= t.resources.Keys && t.records == s.records
  }

  /** Updates add nothing to an index that was created from the catalogue. */
  lemma UpdateAddsNothing(c: Catalog, a: Action, s: State)
    requires FromRegistry(c.registry, a) && a.index in s.indices && IndexMapping(c, a.index) == Some(s.indices[a.index])
    ensures PerformUpdate(c, a.index, a.contract, s).state == s
  {
    NewIndexHasFields(c, a);
    var props, m := PropertiesOf(a.contract).value, s.indices[a.index];
    assert props + m.properties == m.properties;
    assert s.indices[a.index := Mapping(true, m.properties)] == s.indices;
  }

  lemma StepShapes(c: Catalog, a: Action, s: State)
    requires IndicesShaped(c, s.indices) && FromCatalog(c, a)
    ensures IndicesShaped(c, Perform(c, a, s).state.indices) && Grown(s, Perform(c, a, s).state)
  {
    if a.UpdateMapping? && a.index in s.indices {
      assert IndexShaped(c, a.index, s.indices[a.index]);
      UpdateAddsNothing(c, a, s);
    }
  }

  lemma {:induction false} RunShapes(c: Catalog, actions: seq<Action>, s: State, b: Budget)
    requires IndicesShaped(c, s.indices) && forall a :: a in actions ==> FromCatalog(c, a)
    ensures IndicesShaped(c, RunActions(c, actions, s, b).state.indices) && Grown(s, RunActions(c, actions, s, b).state)
    decreases |actions|
  {
    if actions != [] && !Spent(b) {
      StepShapes(c, actions[0], s);
      var r := Perform(c, actions[0], s);
      if r.Done? { RunShapes(c, actions[1..], r.state, Spend(b)); }
    }
  }

  lemma WorkFromCatalog(c: Catalog, m: Migration)
    requires m in c.registry
    ensures forall a :: a in Work(m) ==> FromCatalog(c, a)
  {
    WorkUpdates(m);
  }

  lemma GrownEquipped(m: Migration, s: State, t: State)
    requires Equipped(m, s) && s.indices.Keys <= t.indices.Keys && s.resources.Keys <= t.resources.Keys
    ensures Equipped(m, t)
  {
    forall u | u in m.streams ensures TemplatePresent(u.pattern, t) { assert TemplatePresent(u.pattern, s); }
  }

  lemma GrownShaped(c: Catalog, s: State, t: State)
    requires Shaped(c, s) && Grown(s, t) && IndicesShaped(c, t.indices)
    ensures Shaped(c, t)
  {
    forall m | m in c.registry && m.id in t.records ensures Equipped(m, t) { GrownEquipped(m, s, t); }
  }

  /** Completed work leaves a migration equipped. */
  lemma WorkEquips(c: Catalog, m: Migration, s: State, b: Budget)
    requires RunActions(c, Work(m), s, b).outcome == Completed
    ensures Equipped(m, RunActions(c, Work(m), s, b).state)
  {
    var t := RunActions(c, Work(m), s, b).state;
    BudgetMatters(c, Work(m), s, b);
    CompletedSettles(c, Work(m), s);
    WorkUpdates(m);
    forall x | x in m.mutableIndices ensures x in t.indices { assert Settled(c, EnsureIndex(x), t); }
    forall u | u in m.streams ensures TemplatePresent(u.pattern, t) { StreamPut(m, u); }
  }

  lemma StreamPut(m: Migration, u: StreamUpdate)
    requires u in m.streams
    ensures IndexTemplate("dataobs-" + Stem(u.pattern) + "-template") in Puts(Work(m))
  {
    ContractPuts(m.streams, u);
    var body := ContractTemplate(u.pattern, ContractComponentName(u), ContractPolicyName(u));
    assert Put(IndexTemplate(ContractTemplateName(u)), body) in Work(m);
    PutIsPut(Work(m), IndexTemplate(ContractTemplateName(u)), body);
  }

  lemma RecordingShapes(c: Catalog, s: State, m: Migration)
    requires UniqueIds(c.registry) && Shaped(c, s) && m in c.registry && Equipped(m, s)
    ensures Shaped(c, Recorded(s, m))
  {
    var t := Recorded(s, m);
    forall id | id in t.records ensures OwnRecord(c.registry, id, t.records[id]) {
      if id != m.id { assert OwnRecord(c.registry, id, s.records[id]); }
    }
    forall n | n in c.registry && n.id in t.records ensures Equipped(n, t) {
      if n.id == m.id { SameMigration(c.registry, n, m); }
      GrownEquipped(n, s, t);
    }
  }

  lemma SameMigration(ms: seq<Migration>, m: Migration, n: Migration)
    requires UniqueIds(ms) && m in ms && n in ms && m.id == n.id
    ensures m == n
  {
    var i :| 0 <= i < |ms| && ms[i] == m;
    var j :| 0 <= j < |ms| && ms[j] == n;
    assert i == j;
  }

  lemma WorkShapes(c: Catalog, m: Migration, s: State, b: Budget)
    requires UniqueIds(c.registry) && Shaped(c, s) && m in c.registry
    ensures var work := RunActions(c, Work(m), s, b);
            && Shaped(c, work.state) && (work.outcome == Completed ==> Shaped(c, Recorded(work.state, m)))
  {
    var work := RunActions(c, Work(m), s, b);
    WorkFromCatalog(c, m);
    RunShapes(c, Work(m), s, b);
    GrownShaped(c, s, work.state);
    if work.outcome == Completed {
      WorkEquips(c, m, s, b);
      RecordingShapes(c, work.state, m);
    }
  }

  lemma {:induction false} MigrationsShape(c: Catalog, ms: seq<Migration>, applied: map<string, Record>, s: State, b: Budget)
    requires UniqueIds(c.registry) && Shaped(c, s) && forall m :: m in ms ==> m in c.registry
    ensures Shaped(c, RunMigrations(c, ms, applied, s, b).state)
  {
    if ms != [] && AllIn(ms[0].dependencies, s.records.Keys) {
      if ms[0].id in applied {
        MigrationsShape(c, ms[1..], applied, s, b);
      } else {
        var work := RunActions(c, Work(ms[0]), s, b);
        WorkShapes(c, ms[0], s, b);
        if work.outcome == Completed && !Spent(work.budget) {
          MigrationsShape(c, ms[1..], applied, Recorded(work.state, ms[0]), Spend(work.budget));
        }
      }
    }
  }

  lemma LedgerShaped(c: Catalog, s: State)
    requires Shaped(c, s)
    ensures Shaped(c, s.(ledger := true))
  {
    GrownShaped(c, s, s.(ledger := true));
  }

  lemma ApplyShapes(c: Catalog, through: Option<string>, s: State, b: Budget)
    requires UniqueIds(c.registry) && Shaped(c, s)
    ensures Shaped(c, Apply(c, through, s, b).state)
  {
    var s1 := s.(ledger := true);
    LedgerShaped(c, s);
    if Select(c.registry, through).Selected? && (s.ledger || !Spent(b)) {
      SelectPrefix(c.registry, through);
      MigrationsShape(c, Select(c.registry, through).migrations, s1.records, s1, if s.ledger then b else Spend(b));
    }
  }

  lemma RollbackShapes(c: Catalog, id: string, s: State)
    requires Shaped(c, s)
    ensures Shaped(c, Rollback(id, s))
  {
    var t := Rollback(id, s);
    forall m | m in c.registry && m.id in t.records ensures Equipped(m, t) { GrownEquipped(m, s, t); }
  }

  // ----- Histories -----

  /** All applications in the history are of one registry. */
  ghost predicate OneCatalog(c: Catalog, ks: seq<Command>) {
    forall k :: k in ks && k.Applying? ==> k.catalog == c
  }

  lemma {:induction false} HistoryShapes(c: Catalog, ks: seq<Command>, s: State)
    requires UniqueIds(c.registry) && Shaped(c, s) && OneCatalog(c, ks)
    ensures Shaped(c, ExecuteAll(ks, s))
    decreases |ks|
  {
    if ks != [] {
      match ks[0] {
        case Applying(_, through, b) => ApplyShapes(c, through, s, b);
        case RollingBack(id) => RollbackShapes(c, id, s);
      }
      assert Shaped(c, Execute(ks[0], s));
      HistoryShapes(c, ks[1..], Execute(ks[0], s));
    }
  }

  lemma ShapedFaithful(c: Catalog, s: State)
    requires Shaped(c, s)
    ensures Faithful(c, s)
  {
    forall x | x in s.indices ensures IndexMapping(c, x) == Some(s.indices[x]) { assert IndexShaped(c, x, s.indices[x]); }
    forall m, x | m in c.registry && m.id in s.records && x in m.mutableIndices ensures x in s.indices {
      assert Equipped(m, s);
    }
  }

  lemma OwnIsConflictFree(ms: seq<Migration>, records: map<string, Record>)
    requires UniqueIds(ms) && OwnRecords(ms, records)
    ensures Unknown(ms, records) == {} && !HasConflicts(ms, records)
  {
    forall id | id in records
      ensures (exists e :: e in PlanOf(ms) && e.id == id && e.checksum == records[id].checksum) && records[id].name == None
    {
      assert OwnRecord(ms, id, records[id]);
      var m :| m in ms && m.id == id && records[id] == RecordOf(m);
      var i :| 0 <= i < |ms| && ms[i] == m;
      assert PlanOf(ms)[i] in PlanOf(ms);
    }
    OwnRecordsAgree(ms, records);
  }

  ghost predicate AllRecorded(ms: seq<Migration>, s: State) { forall m :: m in ms ==> m.id in s.records }

  lemma FullIndices(c: Catalog, s: State, x: string)
    requires Shaped(c, s) && AllRecorded(c.registry, s)
    ensures x in s.indices <==> Created(c.registry, x)
    ensures x in s.indices ==> IndexMapping(c, x) == Some(s.indices[x])
  {
    if x in s.indices { assert IndexShaped(c, x, s.indices[x]); }
    if Created(c.registry, x) {
      var m :| m in c.registry && x in m.mutableIndices;
      assert Equipped(m, s);
    }
  }

  /** When everything is recorded, the registry determines the indices. */
  lemma SameIndices(c: Catalog, s: State, t: State)
    requires Shaped(c, s) && Shaped(c, t) && AllRecorded(c.registry, s) && AllRecorded(c.registry, t)
    ensures s.indices == t.indices
  {
    forall x ensures x in s.indices <==> x in t.indices {
      FullIndices(c, s, x);
      FullIndices(c, t, x);
    }
    forall x | x in s.indices ensures s.indices[x] == t.indices[x] {
      FullIndices(c, s, x);
      FullIndices(c, t, x);
    }
  }

  lemma OwnRecordIs(ms: seq<Migration>, records: map<string, Record>, m: Migration)
    requires UniqueIds(ms) && OwnRecords(ms, records) && m in ms && m.id in records
    ensures records[m.id] == RecordOf(m)
  {
    assert OwnRecord(ms, m.id, records[m.id]);
    var n :| n in ms && n.id == m.id && records[m.id] == RecordOf(n);
    SameMigration(ms, m, n);
  }

  /** ... and the records. */
  lemma SameRecords(ms: seq<Migration>, s: State, t: State)
    requires UniqueIds(ms) && OwnRecords(ms, s.records) && OwnRecords(ms, t.records)
    requires AllRecorded(ms, s) && AllRecorded(ms, t)
    ensures s.records == t.records
  {
    RecordsWithin(ms, s, t);
    RecordsWithin(ms, t, s);
  }

  lemma RecordsWithin(ms: seq<Migration>, s: State, t: State)
    requires UniqueIds(ms) && OwnRecords(ms, s.records) && OwnRecords(ms, t.records) && AllRecorded(ms, t)
    ensures forall id :: id in s.records ==> id in t.records && t.records[id] == s.records[id]
  {
    forall id | id in s.records ensures id in t.records && t.records[id] == s.records[id] {
      assert OwnRecord(ms, id, s.records[id]);
      var m :| m in ms && m.id == id && s.records[id] == RecordOf(m);
      OwnRecordIs(ms, t.records, m);
    }
  }

  /** A full run on a shaped cluster completes. */
  lemma ShapedCompletes(c: Catalog, s: State)
    requires UniqueIds(c.registry) && Topological(c.registry) && Coherent(c) && Shaped(c, s)
    ensures var r := Apply(c, None, s, Unlimited);
            r.outcome == Completed && AllRecorded(c.registry, r.state) && Shaped(c, r.state)
  {
    OwnIsConflictFree(c.registry, s.records);
    ShapedFaithful(c, s);
    FaithfulFits(c, s);
    FullRunCompletesIff(c, s);
    ApplyShapes(c, None, s, Unlimited);
  }

  lemma ShapedReady(c: Catalog, t: State)
    requires UniqueIds(c.registry) && Topological(c.registry) && Shaped(c, t) && AllRecorded(c.registry, t)
    ensures Ready(c.registry, t) <==> !HasDuplicate(Numbers(c.registry))
  {
    OwnIsConflictFree(c.registry, t.records);
    ReadyOnceRecorded(c.registry, t);
    if c.registry != [] {
      var last := c.registry[|c.registry| - 1];
      assert last in c.registry && Equipped(last, t);
      EquippedReady(last, t);
    }
  }

  lemma EquippedReady(m: Migration, t: State)
    requires Equipped(m, t)
    ensures ResourcesReady(m, t)
  {}

  lemma EmptyShaped(c: Catalog)
    ensures Shaped(c, EMPTY)
  {}

  /** Under one coherent registry, after any history of applications, interruptions and rollbacks, one more
      full run completes, records every migration and ends with the indices and records of a clean
      installation; and the cluster is then ready, unless a number is used twice in the registry. */
  lemma AnyHistoryRecovers(c: Catalog, ks: seq<Command>)
    requires UniqueIds(c.registry) && Topological(c.registry) && Coherent(c) && OneCatalog(c, ks)
    ensures var r := Apply(c, None, ExecuteAll(ks, EMPTY), Unlimited);
            var clean := Apply(c, None, EMPTY, Unlimited);
            && r.outcome == Completed && AllRecorded(c.registry, r.state)
            && r.state.indices == clean.state.indices && r.state.records == clean.state.records
            && (Ready(c.registry, r.state) <==> !HasDuplicate(Numbers(c.registry)))
  {
    var r, clean := Apply(c, None, ExecuteAll(ks, EMPTY), Unlimited), Apply(c, None, EMPTY, Unlimited);
    EmptyShaped(c);
    HistoryShapes(c, ks, EMPTY);
    ShapedCompletes(c, ExecuteAll(ks, EMPTY));
    ShapedCompletes(c, EMPTY);
    SameIndices(c, r.state, clean.state);
    SameRecords(c.registry, r.state, clean.state);
    ShapedReady(c, r.state);
  }
}
