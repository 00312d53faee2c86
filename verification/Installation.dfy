/** When a full run records every migration, and why a clean installation meets no mapping conflict. */
module Installation {
  import opened Optional
  import opened Mappings
  import opened Migrations
  import opened Resumption
  import opened ApplyProofs
  import opened Completion

  // ----- The pending work as one list -----

  function WorkUnless(m: Migration, applied: map<string, Record>): seq<Action> {
    if m.id in applied then [] else Work(m)
  }

  function Flatten<T>(blocks: seq<seq<T>>): seq<T> {
    if blocks == [] then [] else blocks[0] + Flatten(blocks[1..])
  }

  function Blocks(ms: seq<Migration>, applied: map<string, Record>): (r: seq<seq<Action>>)
    ensures |r| == |ms| && forall i :: 0 <= i < |ms| ==> r[i] == WorkUnless(ms[i], applied)
  {
    seq(|ms|, i requires 0 <= i < |ms| => WorkUnless(ms[i], applied))
  }

  /** What a full run has to do: the work of every migration that is not recorded. */
  function Pending(ms: seq<Migration>, applied: map<string, Record>): seq<Action> {
    Flatten(Blocks(ms, applied))
  }

  lemma PendingFirst(ms: seq<Migration>, applied: map<string, Record>)
    requires ms != []
    ensures Pending(ms, applied) == WorkUnless(ms[0], applied) + Pending(ms[1..], applied)
  {
    assert Blocks(ms, applied)[1..] == Blocks(ms[1..], applied);
  }

  /** Where an element of a flattened list comes from, and what precedes it. */
  lemma {:induction false} FlattenPosition<T>(blocks: seq<seq<T>>, i: nat) returns (k: nat, j: nat)
    requires i < |Flatten(blocks)|
    ensures k < |blocks| && j < |blocks[k]| && Flatten(blocks)[i] == blocks[k][j]
    ensures Flatten(blocks)[..i] == Flatten(blocks[..k]) + blocks[k][..j]
  {
    var first, rest := blocks[0], blocks[1..];
    if i < |first| {
      k, j := 0, i;
    } else {
      k, j := FlattenPosition(rest, i - |first|);
      assert blocks[..k + 1][1..] == rest[..k];
      assert Flatten(blocks)[..i] == first + Flatten(rest)[..i - |first|];
      k := k + 1;
    }
  }

  lemma {:induction false} IndexActionsOnly(indices: seq<string>)
    ensures forall a :: a in IndexActions(indices) ==> !a.UpdateMapping?
    ensures forall x :: EnsureIndex(x) in IndexActions(indices) <==> x in indices
  {
    if indices != [] {
      IndexActionsOnly(indices[..|indices| - 1]);
      assert indices == indices[..|indices| - 1] + [indices[|indices| - 1]];
    }
  }

  lemma {:induction false} TransformActionsOnly(ops: seq<TransformOp>)
    ensures forall a :: a in TransformActions(ops) ==> !a.UpdateMapping? && !a.EnsureIndex?
  {
    if ops != [] { TransformActionsOnly(ops[..|ops| - 1]); }
  }

  lemma {:induction false} ContractActionsOnly(streams: seq<StreamUpdate>)
    ensures forall a :: a in ContractActions(streams) ==> !a.UpdateMapping? && !a.EnsureIndex?
  {
    if streams != [] { ContractActionsOnly(streams[..|streams| - 1]); }
  }

  /** The updates among the work of a migration are its own, and come after the creation of its indices. */
  lemma WorkUpdates(m: Migration)
    ensures forall a :: a in Work(m) && a.UpdateMapping? ==> Update(a.index, a.contract) in m.updates
    ensures forall x :: EnsureIndex(x) in Work(m) <==> x in m.mutableIndices
    ensures IndexActions(m.mutableIndices) <= Work(m)
  {
    IndexActionsOnly(m.mutableIndices);
    TransformActionsOnly(m.transforms);
    ContractActionsOnly(m.streams);
    forall a | a in UpdateActions(m.updates) ensures Update(a.index, a.contract) in m.updates {
      var i :| 0 <= i < |m.updates| && UpdateActions(m.updates)[i] == a;
      assert m.updates[i] == Update(a.index, a.contract);
    }
  }

  lemma {:induction false} PendingRegistered(c: Catalog, ms: seq<Migration>, applied: map<string, Record>)
    requires forall m :: m in ms ==> m in c.registry
    ensures Registered(c, Pending(ms, applied))
  {
    if ms != [] {
      PendingRegistered(c, ms[1..], applied);
      PendingFirst(ms, applied);
      WorkUpdates(ms[0]);
      forall a | a in Work(ms[0]) && a.UpdateMapping? ensures FromRegistry(c.registry, a) {
        assert ms[0] in c.registry;
      }
    }
  }

  // ----- Running the migrations is running the pending work -----

  lemma {:induction false} RecordsIrrelevant(c: Catalog, actions: seq<Action>, s: State, records: map<string, Record>)
    ensures var r := RunActions(c, actions, s, Unlimited);
            RunActions(c, actions, s.(records := records), Unlimited) == Run(r.outcome, r.state.(records := records), Unlimited)
  {
    if actions != [] {
      var r := Perform(c, actions[0], s);
      PerformIgnoresRecords(c, actions[0], s, records);
      if r.Done? { RecordsIrrelevant(c, actions[1..], r.state, records); }
    }
  }

  lemma PerformIgnoresRecords(c: Catalog, a: Action, s: State, records: map<string, Record>)
    ensures var r := Perform(c, a, s);
            Perform(c, a, s.(records := records)) == r.(state := r.state.(records := records))
  {}

  /** Each migration finds its dependencies recorded or earlier in the list. */
  ghost predicate InOrder(ms: seq<Migration>, have: set<string>) {
    forall i, d :: 0 <= i < |ms| && d in ms[i].dependencies ==> d in have || d in Ids(ms[..i])
  }

  lemma InOrderNext(ms: seq<Migration>, have: set<string>)
    requires ms != [] && InOrder(ms, have)
    ensures AllIn(ms[0].dependencies, have) && InOrder(ms[1..], have + {ms[0].id})
  {
    forall i, d | 0 <= i < |ms[1..]| && d in ms[1..][i].dependencies
      ensures d in have + {ms[0].id} || d in Ids(ms[1..][..i])
    {
      assert ms[1..][i] == ms[i + 1];
      if d in Ids(ms[..i + 1]) {
        var k :| 0 <= k < i + 1 && Ids(ms[..i + 1])[k] == d;
        if k > 0 { assert Ids(ms[1..][..i])[k - 1] == d; }
      }
    }
    assert Ids(ms[..0]) == [];
    forall d | d in ms[0].dependencies ensures d in have {}
  }

  ghost predicate ChecksumsAgree(ms: seq<Migration>, applied: map<string, Record>) {
    forall m :: m in ms && m.id in applied ==> applied[m.id].checksum == Some(m.checksum)
  }

  lemma {:induction false} MigrationsArePending(c: Catalog, ms: seq<Migration>, applied: map<string, Record>, s: State)
    requires UniqueIds(ms) && InStep(ms, applied, s) && InOrder(ms, s.records.Keys) && ChecksumsAgree(ms, applied)
    ensures var r, w := RunMigrations(c, ms, applied, s, Unlimited), RunActions(c, Pending(ms, applied), s, Unlimited);
            && (r.outcome == Completed <==> w.outcome == Completed)
            && (r.outcome == Completed ==> r.state == w.state.(records := r.state.records))
            && (r.outcome == Completed ==> forall m :: m in ms ==> m.id in r.state.records)
  {
    if ms != [] {
      var m := ms[0];
      InOrderNext(ms, s.records.Keys);
      PendingFirst(ms, applied);
      RunConcat(c, WorkUnless(m, applied), Pending(ms[1..], applied), s);
      if m.id in applied {
        InStepNext(ms, applied, s, s);
        assert s.records.Keys + {m.id} == s.records.Keys;
        MigrationsArePending(c, ms[1..], applied, s);
        MigrationsGrow(c, ms[1..], applied, s, Unlimited);
      } else {
        var work := RunActions(c, Work(m), s, Unlimited);
        ActionsKeep(c, Work(m), s, Unlimited);
        UnlimitedStays(c, Work(m), s);
        if work.outcome == Completed {
          InStepNext(ms, applied, s, work.state);
          var s1 := Recorded(work.state, m);
          assert s1.records.Keys == s.records.Keys + {m.id};
          MigrationsArePending(c, ms[1..], applied, s1);
          MigrationsGrow(c, ms[1..], applied, s1, Unlimited);
          RecordsIrrelevant(c, Pending(ms[1..], applied), work.state, s1.records);
        }
      }
      assert forall n :: n in ms ==> n == m || n in ms[1..];
    }
  }

  /** Dependencies point backwards in the registry. */
  ghost predicate Topological(ms: seq<Migration>) { InOrder(ms, {}) }

  lemma InOrderMore(ms: seq<Migration>, have: set<string>)
    requires Topological(ms)
    ensures InOrder(ms, have)
  {
    var none: set<string> := {};
    forall i, d | 0 <= i < |ms| && d in ms[i].dependencies ensures d in have || d in Ids(ms[..i]) {
      assert d in none || d in Ids(ms[..i]);
    }
  }

  lemma NoConflictsAgree(ms: seq<Migration>, applied: map<string, Record>)
    requires UniqueIds(ms) && !HasConflicts(ms, applied)
    ensures ChecksumsAgree(ms, applied)
  {
    RequiredExact(ms);
    forall m | m in ms && m.id in applied ensures applied[m.id].checksum == Some(m.checksum) {
      assert m.id !in MismatchedIds(ms, applied);
    }
  }

  /** From any conflict-free set of records, whatever has been rolled back, a full run completes exactly
      when the pending work fits the cluster, and then every migration is recorded. */
  lemma FullRunCompletesIff(c: Catalog, s: State)
    requires UniqueIds(c.registry) && Topological(c.registry) && !HasConflicts(c.registry, s.records)
    ensures var r := Apply(c, None, s, Unlimited);
            && (r.outcome == Completed <==> AllFit(c, Pending(c.registry, s.records), s, 0))
            && (r.outcome == Completed ==> forall m :: m in c.registry ==> m.id in r.state.records)
  {
    var s1, ms := s.(ledger := true), c.registry;
    assert Apply(c, None, s, Unlimited) == RunMigrations(c, ms, s.records, s1, Unlimited);
    PendingRegistered(c, ms, s.records);
    CompletesIffFits(c, Pending(ms, s.records), s1);
    FitsIgnoresLedger(c, Pending(ms, s.records), s);
    NoConflictsAgree(ms, s.records);
    InOrderMore(ms, s.records.Keys);
    assert InStep(ms, s.records, s1);
    MigrationsArePending(c, ms, s.records, s1);
  }

  lemma FitsIgnoresLedger(c: Catalog, actions: seq<Action>, s: State)
    ensures AllFit(c, actions, s.(ledger := true), 0) <==> AllFit(c, actions, s, 0)
  {
    forall i | 0 <= i < |actions| ensures Fits(c, actions, s.(ledger := true), i) <==> Fits(c, actions, s, i) {
      if actions[i].UpdateMapping? && PropertiesOf(actions[i].contract).Some? {
        forall f ensures Definitive(c, actions, s.(ledger := true), actions[i].index, f) == Definitive(c, actions, s, actions[i].index, f) {}
      }
    }
  }

  // ----- Clean installation -----

  /** The definition a field of a new index is created with. */
  function CreatedWith(c: Catalog, index: string, field: string): Option<Field> {
    if field in Table(c.pinned, index) then Some(Table(c.pinned, index)[field])
    else
      var owners := FirstOwners(c.registry, index);
      if owners.Some? && field in owners.value then Some(owners.value[field]) else None
  }

  /** A property of the registry alone: contracts are well formed, an index is created by the migration
      that first updates it or before, and each definition of a field matches the one it is created with. */
  ghost predicate Coherent(c: Catalog) {
    && (forall i, u :: 0 <= i < |c.registry| && u in c.registry[i].updates ==>
          && PropertiesOf(u.contract).Some?
          && CreatedBy(c.registry, i, u.index)
          && Matching(c, u))
    && (forall m, x :: m in c.registry && x in m.mutableIndices ==> FirstOwners(c.registry, x).Some?)
  }

  ghost predicate CreatedBy(ms: seq<Migration>, i: nat, index: string)
    requires i < |ms|
  {
    exists k :: 0 <= k <= i && index in ms[k].mutableIndices
  }

  ghost predicate Matching(c: Catalog, u: Update)
    requires PropertiesOf(u.contract).Some?
  {
    var props := PropertiesOf(u.contract).value;
    forall f :: f in props ==>
      var d := CreatedWith(c, u.index, f); d.Some? && UpdateMatches(u.index, f, props[f], d.value)
  }

  /** A migration that is still to run, up to number `i`, creates the index. */
  ghost predicate PendingBy(ms: seq<Migration>, applied: map<string, Record>, i: nat, index: string)
    requires i < |ms|
  {
    exists k :: 0 <= k <= i && ms[k].id !in applied && index in ms[k].mutableIndices
  }

  lemma {:induction false} PendingCreates(ms: seq<Migration>, applied: map<string, Record>, m: Migration, x: string)
    requires m in ms && m.id !in applied && x in m.mutableIndices
    ensures EnsureIndex(x) in Pending(ms, applied)
  {
    PendingFirst(ms, applied);
    if m == ms[0] {
      WorkUpdates(m);
      assert EnsureIndex(x) in WorkUnless(m, applied);
    } else {
      PendingCreates(ms[1..], applied, m, x);
    }
  }

  /** An index that a migration or an earlier one creates is created before the migration's updates. */
  lemma CreatedBefore(ms: seq<Migration>, applied: map<string, Record>, k: nat, j: nat, x: string)
    requires k < |ms| && j < |Work(ms[k])| && Work(ms[k])[j].UpdateMapping? && PendingBy(ms, applied, k, x)
    ensures EnsureIndex(x) in Pending(ms[..k], applied) + Work(ms[k])[..j]
  {
    var n :| 0 <= n <= k && ms[n].id !in applied && x in ms[n].mutableIndices;
    if n < k {
      assert ms[..k][n] == ms[n];
      PendingCreates(ms[..k], applied, ms[n], x);
    } else {
      OwnIndexFirst(ms[k], j, x);
    }
  }

  lemma OwnIndexFirst(m: Migration, j: nat, x: string)
    requires j < |Work(m)| && Work(m)[j].UpdateMapping? && x in m.mutableIndices
    ensures EnsureIndex(x) in Work(m)[..j]
  {
    WorkUpdates(m);
    IndexActionsOnly(m.mutableIndices);
    var own := IndexActions(m.mutableIndices);
    assert forall i :: 0 <= i < |own| ==> own[i] in own && Work(m)[i] == own[i];
    assert EnsureIndex(x) in own;
    var l :| 0 <= l < |own| && own[l] == EnsureIndex(x);
    assert Work(m)[..j][l] == own[l];
  }

  /** Where pending action `i` comes from. */
  lemma PendingOrigin(ms: seq<Migration>, applied: map<string, Record>, i: nat) returns (k: nat)
    requires i < |Pending(ms, applied)|
    ensures k < |ms| && Originates(ms, applied, k, Pending(ms, applied)[i], Pending(ms, applied)[..i])
  {
    var j;
    k, j := FlattenPosition(Blocks(ms, applied), i);
    assert Blocks(ms, applied)[..k] == Blocks(ms[..k], applied);
    WorkOrigin(ms, applied, k, j);
  }

  /** The action is one of migration `k`; if it updates an index that is still to be created by then, the
      creation is among the actions `before`. */
  ghost predicate Originates(ms: seq<Migration>, applied: map<string, Record>, k: nat, a: Action, before: seq<Action>)
    requires k < |ms|
  {
    && (a.EnsureIndex? ==> a.index in ms[k].mutableIndices)
    && (a.UpdateMapping? ==> Update(a.index, a.contract) in ms[k].updates)
    && (a.UpdateMapping? && PendingBy(ms, applied, k, a.index) ==> EnsureIndex(a.index) in before)
  }

  lemma WorkOrigin(ms: seq<Migration>, applied: map<string, Record>, k: nat, j: nat)
    requires k < |ms| && j < |WorkUnless(ms[k], applied)|
    ensures Originates(ms, applied, k, WorkUnless(ms[k], applied)[j],
                       Pending(ms[..k], applied) + WorkUnless(ms[k], applied)[..j])
  {
    var a := Work(ms[k])[j];
    assert a in Work(ms[k]);
    WorkUpdates(ms[k]);
    if a.UpdateMapping? && PendingBy(ms, applied, k, a.index) { CreatedBefore(ms, applied, k, j, a.index); }
  }

  /** A cluster that only the registry has shaped: every index is as the catalogue defines it, and recorded
      migrations have their indices. */
  ghost predicate Faithful(c: Catalog, s: State) {
    && (forall x :: x in s.indices ==> IndexMapping(c, x) == Some(s.indices[x]))
    && (forall m, x :: m in c.registry && m.id in s.records && x in m.mutableIndices ==> x in s.indices)
  }

  lemma FaithfulPending(c: Catalog, s: State, k: nat, x: string)
    requires Faithful(c, s) && k < |c.registry| && CreatedBy(c.registry, k, x) && x !in s.indices
    ensures PendingBy(c.registry, s.records, k, x)
  {
    var n :| 0 <= n <= k && x in c.registry[n].mutableIndices;
    assert c.registry[n] in c.registry;
  }

  lemma FaithfulUpdateFits(c: Catalog, s: State, i: nat)
    requires Coherent(c) && Faithful(c, s)
    requires i < |Pending(c.registry, s.records)| && Pending(c.registry, s.records)[i].UpdateMapping?
    ensures Fits(c, Pending(c.registry, s.records), s, i)
  {
    var p := Pending(c.registry, s.records);
    var k := PendingOrigin(c.registry, s.records, i);
    var u := Update(p[i].index, p[i].contract);
    CoherentUpdate(c, k, u);
    if u.index !in s.indices { FaithfulPending(c, s, k, u.index); }
    OwnersContain(c.registry, c.registry[k], u);
    CoherentFits(c, p, s, i, u);
  }

  lemma CoherentUpdate(c: Catalog, k: nat, u: Update)
    requires Coherent(c) && k < |c.registry| && u in c.registry[k].updates
    ensures PropertiesOf(u.contract).Some? && Matching(c, u) && CreatedBy(c.registry, k, u.index)
    ensures IsTarget(c.registry, u.index) && FirstOwners(c.registry, u.index).Some?
  {
    var m := c.registry[k];
    assert m in c.registry;
    assert CreatedBy(c.registry, k, u.index);
    var n :| 0 <= n <= k && u.index in c.registry[n].mutableIndices;
    assert c.registry[n] in c.registry;
  }

  lemma CoherentFits(c: Catalog, p: seq<Action>, s: State, i: nat, u: Update)
    requires i < |p| && p[i] == UpdateMapping(u.index, u.contract)
    requires u.index in s.indices || EnsureIndex(u.index) in p[..i]
    requires u.index in s.indices ==> IndexMapping(c, u.index) == Some(s.indices[u.index])
    requires PropertiesOf(u.contract).Some? && Matching(c, u) && IsTarget(c.registry, u.index)
    requires FirstOwners(c.registry, u.index).Some?
    ensures Fits(c, p, s, i)
  {
    DefinitiveOfNew(c, p, s, u.index);
  }

  lemma DefinitiveOfNew(c: Catalog, actions: seq<Action>, s: State, index: string)
    requires FirstOwners(c.registry, index).Some?
    requires index in s.indices ==> IndexMapping(c, index) == Some(s.indices[index])
    ensures forall f :: CreatedWith(c, index, f).Some? ==> Definitive(c, actions, s, index, f) == CreatedWith(c, index, f)
  {}

  /** What is pending on a faithful cluster fits it. */
  lemma FaithfulFits(c: Catalog, s: State)
    requires Coherent(c) && Faithful(c, s)
    ensures AllFit(c, Pending(c.registry, s.records), s, 0)
  {
    var p := Pending(c.registry, s.records);
    forall i | 0 <= i < |p| ensures Fits(c, p, s, i) {
      if p[i].UpdateMapping? {
        FaithfulUpdateFits(c, s, i);
      } else if p[i].EnsureIndex? {
        var k := PendingOrigin(c.registry, s.records, i);
        assert c.registry[k] in c.registry;
      }
    }
  }

  /** A clean installation of a coherent registry goes through and records every migration, however the
      shared property table types the fields that the registry owns. */
  lemma CleanInstallSucceeds(c: Catalog)
    requires UniqueIds(c.registry) && Topological(c.registry) && Coherent(c)
    ensures var r := Apply(c, None, EMPTY, Unlimited);
            r.outcome == Completed && forall m :: m in c.registry ==> m.id in r.state.records
  {
    FaithfulFits(c, EMPTY);
    assert ReusedNumbers(c.registry, map[]) == {} && MismatchedIds(c.registry, map[]) == {};
    FullRunCompletesIff(c, EMPTY);
  }

  /** The place of an element of a block in the flattened list. */
  lemma {:induction false} FlattenIndex<T>(blocks: seq<seq<T>>, k: nat, j: nat) returns (i: nat)
    requires k < |blocks| && j < |blocks[k]|
    ensures i < |Flatten(blocks)| && Flatten(blocks)[i] == blocks[k][j]
    ensures Flatten(blocks)[..i] == Flatten(blocks[..k]) + blocks[k][..j]
  {
    var first, rest := blocks[0], blocks[1..];
    if k == 0 {
      i := j;
    } else {
      i := FlattenIndex(rest, k - 1, j);
      assert blocks[..k][1..] == rest[..k - 1];
      assert Flatten(blocks)[..|first| + i] == first + Flatten(rest)[..i];
      i := |first| + i;
    }
  }

  lemma {:induction false} PendingCreatedBy(ms: seq<Migration>, x: string)
    requires EnsureIndex(x) in Pending(ms, map[])
    ensures exists n :: 0 <= n < |ms| && x in ms[n].mutableIndices
  {
    PendingFirst(ms, map[]);
    WorkUpdates(ms[0]);
    if EnsureIndex(x) !in WorkUnless(ms[0], map[]) {
      PendingCreatedBy(ms[1..], x);
      var n :| 0 <= n < |ms[1..]| && x in ms[1..][n].mutableIndices;
      assert x in ms[n + 1].mutableIndices;
    }
  }

  lemma WorkCreatedBy(ms: seq<Migration>, k: nat, j: nat, x: string)
    requires k < |ms| && j < |Work(ms[k])| && EnsureIndex(x) in Pending(ms[..k], map[]) + Work(ms[k])[..j]
    ensures CreatedBy(ms, k, x)
  {
    if EnsureIndex(x) in Pending(ms[..k], map[]) {
      PendingCreatedBy(ms[..k], x);
      var n :| 0 <= n < |ms[..k]| && x in ms[..k][n].mutableIndices;
      assert x in ms[n].mutableIndices;
    } else {
      WorkUpdates(ms[k]);
      assert EnsureIndex(x) in Work(ms[k]);
    }
  }

  lemma UpdateInWork(m: Migration, u: Update) returns (j: nat)
    requires u in m.updates
    ensures j < |Work(m)| && Work(m)[j] == UpdateMapping(u.index, u.contract)
  {
    var i :| 0 <= i < |m.updates| && m.updates[i] == u;
    var before := IndexActions(m.mutableIndices) + StreamActions(m.dataStreams) + TransformActions(m.transforms);
    j := |before| + i;
    assert Work(m) == before + (UpdateActions(m.updates) + ContractActions(m.streams));
  }

  /** What a clean installation asks of one update. */
  lemma FittingUpdate(c: Catalog, k: nat, u: Update)
    requires AllFit(c, Pending(c.registry, map[]), EMPTY, 0) && k < |c.registry| && u in c.registry[k].updates
    ensures PropertiesOf(u.contract).Some? && CreatedBy(c.registry, k, u.index)
    ensures Compatible(c, Pending(c.registry, map[]), EMPTY, u.index, PropertiesOf(u.contract).value)
  {
    var ms := c.registry;
    var j := UpdateInWork(ms[k], u);
    var i := FlattenIndex(Blocks(ms, map[]), k, j);
    assert Blocks(ms, map[])[..k] == Blocks(ms[..k], map[]);
    assert Fits(c, Pending(ms, map[]), EMPTY, i);
    WorkCreatedBy(ms, k, j, u.index);
  }

  lemma FittingIndex(c: Catalog, m: Migration, x: string)
    requires AllFit(c, Pending(c.registry, map[]), EMPTY, 0) && m in c.registry && x in m.mutableIndices
    ensures FirstOwners(c.registry, x).Some?
  {
    PendingCreates(c.registry, map[], m, x);
    var p := Pending(c.registry, map[]);
    var i :| 0 <= i < |p| && p[i] == EnsureIndex(x);
    assert Fits(c, p, EMPTY, i);
  }

  lemma FittingMatches(c: Catalog, m: Migration, u: Update)
    requires m in c.registry && u in m.updates && PropertiesOf(u.contract).Some? && FirstOwners(c.registry, u.index).Some?
    requires Compatible(c, Pending(c.registry, map[]), EMPTY, u.index, PropertiesOf(u.contract).value)
    ensures Matching(c, u)
  {
    OwnersContain(c.registry, m, u);
    DefinitiveOfNew(c, Pending(c.registry, map[]), EMPTY, u.index);
  }

  /** A clean installation goes through exactly when the registry is coherent. */
  lemma CleanInstallIff(c: Catalog)
    requires UniqueIds(c.registry) && Topological(c.registry)
    ensures Apply(c, None, EMPTY, Unlimited).outcome == Completed <==> Coherent(c)
  {
    if Coherent(c) {
      CleanInstallSucceeds(c);
    } else {
      assert ReusedNumbers(c.registry, map[]) == {} && MismatchedIds(c.registry, map[]) == {};
      FullRunCompletesIff(c, EMPTY);
      if AllFit(c, Pending(c.registry, map[]), EMPTY, 0) {
        FittingIsCoherent(c);
        assert false;
      }
    }
  }

  lemma FittingIsCoherent(c: Catalog)
    requires AllFit(c, Pending(c.registry, map[]), EMPTY, 0)
    ensures Coherent(c)
  {
    forall m, x | m in c.registry && x in m.mutableIndices ensures FirstOwners(c.registry, x).Some? {
      FittingIndex(c, m, x);
    }
    forall k, u | 0 <= k < |c.registry| && u in c.registry[k].updates
      ensures PropertiesOf(u.contract).Some? && CreatedBy(c.registry, k, u.index) && Matching(c, u)
    {
      FittingUpdate(c, k, u);
      var n :| 0 <= n <= k && u.index in c.registry[n].mutableIndices;
      FittingIndex(c, c.registry[n], u.index);
      FittingMatches(c, c.registry[k], u);
    }
  }

  // ----- Owners are the earliest definitions -----

  predicate Defines(m: Migration, index: string, field: string) {
    exists u :: u in m.updates && u.index == index && PropertiesOf(u.contract).Some? && field in PropertiesOf(u.contract).value
  }

  lemma {:induction false} OwnedIffDefined(updates: seq<Update>, index: string, field: string)
    requires OwnedBy(updates, index).Some?
    ensures field in OwnedBy(updates, index).value <==>
            exists u :: u in updates && u.index == index && PropertiesOf(u.contract).Some? && field in PropertiesOf(u.contract).value
  {
    if updates != [] {
      var init, last := updates[..|updates| - 1], updates[|updates| - 1];
      OwnedIffDefined(init, index, field);
      assert updates == init + [last];
      assert last in updates;
    }
  }

  /** The owner's definition of a field is that of the first migration that defines it. */
  lemma {:induction false} OwnerIsEarliest(ms: seq<Migration>, index: string, field: string) returns (i: nat)
    requires FirstOwners(ms, index).Some? && field in FirstOwners(ms, index).value
    ensures i < |ms| && Defines(ms[i], index, field)
    ensures OwnedBy(ms[i].updates, index).Some? && field in OwnedBy(ms[i].updates, index).value
    ensures FirstOwners(ms, index).value[field] == OwnedBy(ms[i].updates, index).value[field]
    ensures forall k :: 0 <= k < i ==> !Defines(ms[k], index, field)
  {
    var init, last := ms[..|ms| - 1], ms[|ms| - 1];
    if field in FirstOwners(init, index).value {
      i := OwnerIsEarliest(init, index, field);
    } else {
      i := |ms| - 1;
      OwnedIffDefined(last.updates, index, field);
      forall k | 0 <= k < i ensures !Defines(ms[k], index, field) {
        NotOwnedNotDefined(init, index, field, k);
      }
    }
  }

  lemma NotOwnedNotDefined(ms: seq<Migration>, index: string, field: string, k: nat)
    requires k < |ms| && FirstOwners(ms, index).Some? && field !in FirstOwners(ms, index).value
    ensures !Defines(ms[k], index, field)
  {
    forall u | u in ms[k].updates && u.index == index
      ensures !(PropertiesOf(u.contract).Some? && field in PropertiesOf(u.contract).value)
    {
      OwnersContain(ms, ms[k], u);
    }
  }
}
