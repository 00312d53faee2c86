/** The cluster as an object that the migration code changes call by call
    (packages/elastic_store/registry.py). */
module ClusterClient {
  import opened Optional
  import opened Mappings
  import opened Migrations
  import opened Diagnosis

  /** The owner table of one index, filled release by release; a definition already there stays. */
  method CollectOwners(ms: seq<Migration>, index: string) returns (owned: Option<Properties>)
    ensures owned == FirstOwners(ms, index)
  {
    var table: Properties := map[];
    for i := 0 to |ms|
      invariant FirstOwners(ms[..i], index) == Some(table)
    {
      assert ms[..i + 1][..i] == ms[..i];
      var own := OwnedBy(ms[i].updates, index);
      if own.None? {
        StaysMalformed(ms, i + 1, index);
        return None;
      }
      table := own.value + table;
    }
    assert ms[..|ms|] == ms;
    owned := Some(table);
  }

  lemma {:induction false} StaysMalformed(ms: seq<Migration>, k: nat, index: string)
    requires k <= |ms| && FirstOwners(ms[..k], index).None?
    ensures FirstOwners(ms, index).None?
  {
    if k == |ms| {
      assert ms[..k] == ms;
    } else {
      assert ms[..|ms| - 1][..k] == ms[..k];
      StaysMalformed(ms[..|ms| - 1], k, index);
    }
  }

  /** What a diagnosis reports. */
  datatype Diagnostic = Diagnostic(
    missing: seq<string>, unknown: set<string>, reusedNumbers: set<string>, checksumMismatches: set<string>,
    nameMismatches: set<string>, violators: seq<Gap>, duplicateIds: set<string>, duplicateNumbers: set<string>,
    readiness: map<string, bool>, ready: bool)

  lemma UnmetNone(m: Migration, applied: map<string, Record>)
    ensures Unmet(m, applied) == {} <==> AllIn(m.dependencies, applied.Keys)
  {
    if AllIn(m.dependencies, applied.Keys) {
      assert forall d :: d in m.dependencies ==> d in applied.Keys;
    } else {
      var d :| d in m.dependencies && d !in applied.Keys;
      assert d in Unmet(m, applied);
    }
  }

  lemma DuplicatesExact(xs: seq<string>)
    ensures Duplicates(xs) == {} <==> !HasDuplicate(xs)
  {
    if HasDuplicate(xs) {
      var i, j :| 0 <= i < j < |xs| && xs[i] == xs[j];
      assert xs[i + 1..][j - i - 1] == xs[j];
      assert xs[i] in Duplicates(xs);
    }
  }

  /** The table of resources says ready everywhere exactly when they are. */
  lemma ReadinessExact(m: Migration, s: State)
    ensures (forall k :: k in ResourceReadiness(m, s) ==> ResourceReadiness(m, s)[k]) <==> ResourcesReady(m, s)
  {
    var r := ResourceReadiness(m, s);
    forall u | u in m.streams ensures u.pattern in r && r[u.pattern] == TemplatePresent(u.pattern, s) {}
    forall x | x in m.mutableIndices && !IsPattern(m, x) ensures x in r && r[x] == (x in s.indices) {}
    forall k | k in r ensures (k in m.mutableIndices && !IsPattern(m, k)) || IsPattern(m, k) {}
  }

  lemma MismatchesExact(ms: seq<Migration>, applied: map<string, Record>)
    ensures ChecksumMismatches(ms, applied) <= MismatchedIds(ms, applied)
  {}

  lemma {:induction false} MissingNone(ms: seq<Migration>, applied: map<string, Record>)
    ensures Missing(ms, applied) == [] <==> forall m :: m in ms ==> m.id in applied
    ensures Violators(ms, applied) == [] <==>
            forall m :: m in ms && m.id in applied ==> AllIn(m.dependencies, applied.Keys)
  {
    if ms != [] {
      MissingNone(ms[..|ms| - 1], applied);
      UnmetNone(ms[|ms| - 1], applied);
      assert ms == ms[..|ms| - 1] + [ms[|ms| - 1]];
    }
  }

  lemma {:induction false} TerminalRequired(ms: seq<Migration>)
    requires ms != []
    ensures ms[|ms| - 1].id in Required(ms) && Required(ms)[ms[|ms| - 1].id] == ms[|ms| - 1]
  {}

  /** One pass over the registry: the ids without a record, and the recorded ones with a dependency that
      has none. */
  method ListGaps(ms: seq<Migration>, applied: map<string, Record>) returns (missing: seq<string>, violators: seq<Gap>)
    ensures missing == Missing(ms, applied) && violators == Violators(ms, applied)
  {
    missing, violators := [], [];
    for i := 0 to |ms|
      invariant missing == Missing(ms[..i], applied) && violators == Violators(ms[..i], applied)
    {
      assert ms[..i + 1][..i] == ms[..i];
      var m := ms[i];
      if m.id !in applied {
        missing := missing + [m.id];
      } else if Unmet(m, applied) != {} {
        violators := violators + [Gap(m.id, Unmet(m, applied))];
      }
    }
    assert ms[..|ms|] == ms;
  }

  function TerminalReadiness(ms: seq<Migration>, s: State): map<string, bool> {
    if ms == [] || ms[|ms| - 1].id !in s.records || HasConflicts(ms, s.records) then map[]
    else ResourceReadiness(ms[|ms| - 1], s)
  }

  predicate AllTrue(readiness: map<string, bool>) { forall k :: k in readiness ==> readiness[k] }

  lemma TerminalWhen(ms: seq<Migration>, s: State)
    requires !HasConflicts(ms, s.records)
    ensures AllTrue(TerminalReadiness(ms, s)) <==>
            (ms != [] && ms[|ms| - 1].id in s.records ==> ResourcesReady(Required(ms)[ms[|ms| - 1].id], s))
  {
    if ms != [] {
      TerminalRequired(ms);
      ReadinessExact(ms[|ms| - 1], s);
    }
  }

  /** Ready is what is left when a diagnosis finds nothing. */
  lemma ReadyWhen(ms: seq<Migration>, s: State)
    ensures Ready(ms, s) <==>
            && Missing(ms, s.records) == [] && Unknown(ms, s.records) == {} && ReusedNumbers(ms, s.records) == {}
            && MismatchedIds(ms, s.records) == {} && Violators(ms, s.records) == []
            && Duplicates(Ids(ms)) == {} && Duplicates(Numbers(ms)) == {} && AllTrue(TerminalReadiness(ms, s))
  {
    MissingNone(ms, s.records);
    DuplicatesExact(Ids(ms));
    DuplicatesExact(Numbers(ms));
    if !HasConflicts(ms, s.records) { TerminalWhen(ms, s); }
  }

  lemma NumbersMean(ms: seq<Migration>, records: map<string, Record>)
    ensures forall id :: id in Unknown(ms, records) <==> Stranger(ms, records, id)
    ensures forall id :: id in ReusedNumbers(ms, records) <==> Stranger(ms, records, id) && NumberInUse(ms, id)
    ensures forall p :: p in Duplicates(Numbers(ms)) <==> exists i: nat, j: nat :: SharedBy(ms, i, j, p)
  {
    forall id
      ensures id in Unknown(ms, records) <==> Stranger(ms, records, id)
      ensures id in ReusedNumbers(ms, records) <==> Stranger(ms, records, id) && NumberInUse(ms, id)
    {
      UnknownExact(ms, records, id);
      ReusedExact(ms, records, id);
    }
    forall p ensures p in Duplicates(Numbers(ms)) <==> exists i: nat, j: nat :: SharedBy(ms, i, j, p) {
      DuplicateNumbersExact(ms, p);
    }
  }

  class Cluster {
    var ledger: bool
    var records: map<string, Record>
    var indices: map<string, Mapping>
    var transforms: map<string, TransformBody>
    var resources: map<Resource, Body>
    /** How many calls the connection still carries. */
    var budget: Budget

    constructor (budget: Budget)
      ensures Contents() == EMPTY && this.budget == budget
    {
      ledger, records, indices, transforms, resources := false, map[], map[], map[], map[];
      this.budget := budget;
    }

    function Contents(): State
      reads this
    {
      State(ledger, records, indices, transforms, resources)
    }

    /** Creates a missing index from its registered mapping. */
    method EnsureIndex(c: Catalog, index: string) returns (error: Option<Error>)
      modifies this`indices
      ensures var r := Perform(c, Action.EnsureIndex(index), old(Contents()));
              Contents() == r.state && error == if r.Done? then None else Some(r.error)
    {
      if index !in indices {
        var owners := CollectOwners(c.registry, index);
        if owners.None? {
          return Some(MalformedContract);
        }
        var properties := c.shared + Table(c.overrides, index) + owners.value + Table(c.pinned, index);
        indices := indices[index := Mapping(true, properties)];
      }
      error := None;
    }

    /** Adds the fields an update asks for, unless one is installed differently, and verifies them. */
    method ApplyMappingUpdate(c: Catalog, index: string, contract: Contract) returns (error: Option<Error>)
      modifies this`indices
      ensures var r := PerformUpdate(c, index, contract, old(Contents()));
              Contents() == r.state && error == if r.Done? then None else Some(r.error)
    {
      var properties := PropertiesOf(contract);
      if properties.None? {
        return Some(MalformedContract);
      }
      if !IsTarget(c.registry, index) {
        return Some(UnregisteredTarget);
      }
      if index !in indices {
        return Some(MissingTarget);
      }
      if !indices[index].strict {
        return Some(NotStrict);
      }
      var current := indices[index].properties;
      if !NoConflict(index, properties.value, current) {
        return Some(IncompatibleMapping);
      }
      var missing := map f | f in properties.value && f !in current :: properties.value[f];
      assert current + missing == properties.value + current;
      if missing != map[] {
        indices := indices[index := Mapping(true, current + missing)];
      } else {
        assert current + missing == current;
      }
      assert indices == old(indices)[index := Mapping(true, properties.value + current)];
      if AllInstalled(index, properties.value, indices[index].properties) {
        error := None;
      } else {
        error := Some(VerificationFailed);
      }
    }

    method PerformAction(c: Catalog, a: Action) returns (error: Option<Error>)
      modifies this`indices, this`transforms, this`resources
      ensures var r := Perform(c, a, old(Contents()));
              Contents() == r.state && error == if r.Done? then None else Some(r.error)
    {
      error := None;
      match a
      case EnsureIndex(index) => error := this.EnsureIndex(c, index);
      case EnsureTransform(id, transform) =>
        if id !in transforms {
          transforms := transforms[id := transform];
        }
      case Put(resource, body) => resources := resources[resource := body];
      case UpdateMapping(index, contract) => error := ApplyMappingUpdate(c, index, contract);
    }

    /** The work of one migration, action by action, until it is done, fails or is cut off. */
    method RunWork(c: Catalog, actions: seq<Action>) returns (outcome: Outcome)
      modifies this`indices, this`transforms, this`resources, this`budget
      ensures Run(outcome, Contents(), budget) == RunActions(c, actions, old(Contents()), old(budget))
    {
      var i := 0;
      while i < |actions|
        invariant 0 <= i <= |actions| && ledger == old(ledger) && records == old(records)
        invariant RunActions(c, actions[i..], Contents(), budget) == RunActions(c, actions, old(Contents()), old(budget))
      {
        if Spent(budget) {
          return Interrupted;
        }
        assert actions[i..][1..] == actions[i + 1..];
        var error := PerformAction(c, actions[i]);
        budget := Spend(budget);
        if error.Some? {
          return Failed(error.value);
        }
        i := i + 1;
      }
      outcome := Completed;
    }

    /** Brings the cluster up to the registry, or to a prefix of it. `processed` lists the migrations that
        were found recorded or have been recorded, in order. */
    method Apply(c: Catalog, through: Option<string>) returns (outcome: Outcome, processed: seq<string>)
      modifies this
      ensures Run(outcome, Contents(), budget) == Migrations.Apply(c, through, old(Contents()), old(budget))
      ensures outcome == Completed ==> Select(c.registry, through).Selected? &&
                                       processed == Ids(Select(c.registry, through).migrations)
    {
      processed := [];
      if !ledger {
        if Spent(budget) {
          return Interrupted, processed;
        }
        ledger, budget := true, Spend(budget);
      }
      if HasConflicts(c.registry, records) {
        return Failed(RegistryConflict), processed;
      }
      var selection := Select(c.registry, through);
      if selection.Rejected? {
        return Failed(selection.error), processed;
      }
      outcome, processed := RunSelected(c, selection.migrations);
    }

    method RunSelected(c: Catalog, ms: seq<Migration>) returns (outcome: Outcome, processed: seq<string>)
      modifies this
      ensures Run(outcome, Contents(), budget) ==
              RunMigrations(c, ms, old(records), old(Contents()), old(budget))
      ensures outcome == Completed ==> processed == Ids(ms)
    {
      var applied := records;
      processed := [];
      var i := 0;
      while i < |ms|
        invariant 0 <= i <= |ms| && processed == Ids(ms[..i])
        invariant RunMigrations(c, ms[i..], applied, Contents(), budget) ==
                  RunMigrations(c, ms, applied, old(Contents()), old(budget))
      {
        var m := ms[i];
        assert ms[i..][0] == m && ms[i..][1..] == ms[i + 1..];
        if !AllIn(m.dependencies, records.Keys) {
          return Failed(UnappliedDependency), processed;
        }
        if m.id in applied {
          if applied[m.id].checksum != Some(m.checksum) {
            return Failed(RegistryConflict), processed;
          }
        } else {
          var work := RunWork(c, Work(m));
          if work != Completed {
            return work, processed;
          }
          if Spent(budget) {
            return Interrupted, processed;
          }
          records, budget := records[m.id := RecordOf(m)], Spend(budget);
        }
        assert Ids(ms[..i + 1]) == Ids(ms[..i]) + [m.id];
        processed := processed + [m.id];
        i := i + 1;
      }
      assert ms[..|ms|] == ms;
      outcome := Completed;
    }

    /** Whether the resources of the terminal migration are there, unless it has no record or the records
        are in conflict. */
    method TerminalResources(ms: seq<Migration>) returns (readiness: map<string, bool>)
      ensures readiness == TerminalReadiness(ms, Contents())
    {
      readiness := map[];
      if ms != [] && ms[|ms| - 1].id in records && !HasConflicts(ms, records) {
        readiness := ResourceReadiness(ms[|ms| - 1], Contents());
      }
    }

    /** Reports what stands between the cluster and readiness, changing nothing. */
    method Status(c: Catalog) returns (d: Diagnostic)
      requires ValidState(Contents())
      ensures d.missing == Missing(c.registry, records) && d.violators == Violators(c.registry, records)
      ensures d.unknown == Unknown(c.registry, records) && d.reusedNumbers == ReusedNumbers(c.registry, records)
      ensures d.checksumMismatches == ChecksumMismatches(c.registry, records)
      ensures d.checksumMismatches + d.nameMismatches == MismatchedIds(c.registry, records)
      ensures d.checksumMismatches !! d.nameMismatches
      ensures d.duplicateIds == Duplicates(Ids(c.registry)) && d.duplicateNumbers == Duplicates(Numbers(c.registry))
      ensures d.readiness == TerminalReadiness(c.registry, Contents())
      ensures forall id :: id in d.unknown <==> Stranger(c.registry, records, id)
      ensures forall id :: id in d.reusedNumbers <==> Stranger(c.registry, records, id) && NumberInUse(c.registry, id)
      ensures forall p :: p in d.duplicateNumbers <==> exists i: nat, j: nat :: SharedBy(c.registry, i, j, p)
      ensures d.ready <==> Ready(c.registry, Contents())
    {
      var ms := c.registry;
      var missing, violators := ListGaps(ms, records);
      var unknown, reused := Unknown(ms, records), ReusedNumbers(ms, records);
      var checksums, mismatched := ChecksumMismatches(ms, records), MismatchedIds(ms, records);
      MismatchesExact(ms, records);
      NumbersMean(ms, records);
      var ids, numbers := Duplicates(Ids(ms)), Duplicates(Numbers(ms));
      ReadyWhen(ms, Contents());
      var readiness := TerminalResources(ms);
      var ready := missing == [] && unknown == {} && reused == {} && mismatched == {} && violators == [] &&
                   ids == {} && numbers == {} && AllTrue(readiness);
      d := Diagnostic(missing, unknown, reused, checksums, mismatched - checksums, violators, ids, numbers, readiness, ready);
    }

    /** Forgets one record; everything installed stays. */
    method Rollback(id: string)
      modifies this`records
      ensures Contents() == Migrations.Rollback(id, old(Contents()))
      ensures old(ledger) ==> records.Keys == old(records).Keys - {id}
      ensures forall k :: k in records ==> k in old(records) && records[k] == old(records)[k]
    {
      if ledger {
        records := records - {id};
      }
    }
  }
}
