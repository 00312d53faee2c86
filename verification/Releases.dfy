/** The release check (scripts/check_migration_immutability.py) and what a chain of checked releases
    means for a cluster. */
module Releases {
  import opened Optional
  import opened Migrations
  import opened Resumption
  import opened ApplyProofs
  import opened Installation

  /** One line of a migration plan. */
  datatype Entry = Entry(id: string, checksum: Option<string>, dependencies: seq<string>)

  datatype Violation = OrderChanged(missing: set<string>) | ChecksumChanged(id: string) | DependencyChanged(id: string)

  function PlanIds(plan: seq<Entry>): (ids: seq<string>)
    ensures |ids| == |plan| && forall i :: 0 <= i < |plan| ==> ids[i] == plan[i].id
  {
    seq(|plan|, i requires 0 <= i < |plan| => plan[i].id)
  }

  /** A later entry of the same id replaces an earlier one. */
  function ById(plan: seq<Entry>): map<string, Entry> {
    if plan == [] then map[] else ById(plan[..|plan| - 1])[plan[|plan| - 1].id := plan[|plan| - 1]]
  }

  /** The last dependency, as a list of at most one. */
  function Immediate(ds: seq<string>): seq<string> { if ds == [] then [] else [ds[|ds| - 1]] }

  function OrderViolation(prior: seq<Entry>, next: seq<Entry>): seq<Violation> {
    if PlanIds(prior) <= PlanIds(next) then []
    else [OrderChanged((set id | id in PlanIds(prior)) - (set id | id in PlanIds(next)))]
  }

  function EntryViolations(e: Entry, byId: map<string, Entry>): seq<Violation> {
    if e.id !in byId then []
    else
      (if e.checksum != byId[e.id].checksum then [ChecksumChanged(e.id)] else []) +
      (if e.dependencies != [] && Immediate(e.dependencies) != Immediate(byId[e.id].dependencies)
       then [DependencyChanged(e.id)] else [])
  }

  function EntriesViolations(prior: seq<Entry>, byId: map<string, Entry>): seq<Violation> {
    if prior == [] then []
    else EntriesViolations(prior[..|prior| - 1], byId) + EntryViolations(prior[|prior| - 1], byId)
  }

  function Violations(prior: seq<Entry>, next: seq<Entry>): seq<Violation> {
    OrderViolation(prior, next) + EntriesViolations(prior, ById(next))
  }

  method CheckEntry(e: Entry, byId: map<string, Entry>) returns (found: seq<Violation>)
    ensures found == EntryViolations(e, byId)
  {
    found := [];
    if e.id in byId {
      if e.checksum != byId[e.id].checksum {
        found := found + [ChecksumChanged(e.id)];
      }
      if e.dependencies != [] && Immediate(e.dependencies) != Immediate(byId[e.id].dependencies) {
        found := found + [DependencyChanged(e.id)];
      }
    }
  }

  /** The check as a loop over the old plan. */
  method Check(prior: seq<Entry>, next: seq<Entry>) returns (errors: seq<Violation>)
    ensures errors == Violations(prior, next)
  {
    var byId := ById(next);
    var later := [];
    for i := 0 to |prior|
      invariant later == EntriesViolations(prior[..i], byId)
    {
      assert prior[..i + 1][..i] == prior[..i];
      var found := CheckEntry(prior[i], byId);
      later := later + found;
    }
    assert prior[..|prior|] == prior;
    errors := OrderViolation(prior, next) + later;
  }

  // ----- What passing means -----

  ghost predicate DistinctIds(plan: seq<Entry>) {
    forall i, j :: 0 <= i < j < |plan| ==> plan[i].id != plan[j].id
  }

  ghost predicate EntryKept(e: Entry, f: Entry) {
    && e.id == f.id && e.checksum == f.checksum
    && !DependencyMoved(e, f)
  }

  /** The last of the old dependencies is not the last of the new ones. */
  ghost predicate DependencyMoved(e: Entry, f: Entry) {
    && e.dependencies != []
    && (f.dependencies == [] || f.dependencies[|f.dependencies| - 1] != e.dependencies[|e.dependencies| - 1])
  }

  /** The new plan starts with the old one, entry by entry. */
  ghost predicate PlanKept(prior: seq<Entry>, next: seq<Entry>) {
    |prior| <= |next| && forall i :: 0 <= i < |prior| ==> EntryKept(prior[i], next[i])
  }

  lemma {:induction false} ByIdExact(plan: seq<Entry>, i: nat)
    requires DistinctIds(plan) && i < |plan|
    ensures plan[i].id in ById(plan) && ById(plan)[plan[i].id] == plan[i]
  {
    if i < |plan| - 1 { ByIdExact(plan[..|plan| - 1], i); }
  }

  /** Entry `j` is the one that counts for its id. */
  ghost predicate CountsFor(plan: seq<Entry>, j: nat, id: string) {
    j < |plan| && plan[j].id == id && forall k :: j < k < |plan| ==> plan[k].id != id
  }

  lemma {:induction false} ByIdCounts(plan: seq<Entry>, id: string) returns (j: nat)
    requires id in ById(plan)
    ensures CountsFor(plan, j, id) && ById(plan)[id] == plan[j]
  {
    if plan[|plan| - 1].id == id { j := |plan| - 1; } else { j := ByIdCounts(plan[..|plan| - 1], id); }
  }

  lemma {:induction false} CountingIsById(plan: seq<Entry>, j: nat, id: string)
    requires CountsFor(plan, j, id)
    ensures id in ById(plan) && ById(plan)[id] == plan[j]
  {
    if j < |plan| - 1 { CountingIsById(plan[..|plan| - 1], j, id); }
  }

  ghost predicate ReportedBy(prior: seq<Entry>, byId: map<string, Entry>, v: Violation, i: nat) {
    i < |prior| && v in EntryViolations(prior[i], byId)
  }

  lemma {:induction false} ListedHas(prior: seq<Entry>, byId: map<string, Entry>, v: Violation, i: nat)
    requires ReportedBy(prior, byId, v, i)
    ensures v in EntriesViolations(prior, byId)
  {
    if i < |prior| - 1 { ListedHas(prior[..|prior| - 1], byId, v, i); }
  }

  lemma {:induction false} ListedFrom(prior: seq<Entry>, byId: map<string, Entry>, v: Violation) returns (i: nat)
    requires v in EntriesViolations(prior, byId)
    ensures ReportedBy(prior, byId, v, i)
  {
    i := |prior| - 1;
    if v !in EntryViolations(prior[i], byId) { i := ListedFrom(prior[..i], byId, v); }
  }

  lemma EntryViolationIs(e: Entry, byId: map<string, Entry>, id: string)
    ensures ChecksumChanged(id) in EntryViolations(e, byId) <==> e.id == id && id in byId && e.checksum != byId[id].checksum
    ensures DependencyChanged(id) in EntryViolations(e, byId) <==> e.id == id && id in byId && DependencyMoved(e, byId[id])
  {}

  ghost predicate Disagree(prior: seq<Entry>, next: seq<Entry>, i: nat, j: nat, id: string, dependency: bool) {
    && i < |prior| && prior[i].id == id && CountsFor(next, j, id)
    && if dependency then DependencyMoved(prior[i], next[j]) else prior[i].checksum != next[j].checksum
  }

  lemma DisagreementReported(prior: seq<Entry>, next: seq<Entry>, id: string, dependency: bool)
    ensures (if dependency then DependencyChanged(id) else ChecksumChanged(id)) in Violations(prior, next) <==>
            exists i: nat, j: nat :: Disagree(prior, next, i, j, id, dependency)
  {
    var v := if dependency then DependencyChanged(id) else ChecksumChanged(id);
    if v in Violations(prior, next) {
      var i := ListedFrom(prior, ById(next), v);
      EntryViolationIs(prior[i], ById(next), id);
      var j := ByIdCounts(next, id);
      assert Disagree(prior, next, i, j, id, dependency);
    }
    if i: nat, j: nat :| Disagree(prior, next, i, j, id, dependency) {
      CountingIsById(next, j, id);
      EntryViolationIs(prior[i], ById(next), id);
      ListedHas(prior, ById(next), v, i);
    }
  }

  /** What is reported: a changed checksum or last dependency of an id that both plans have, and, first of
      all, old ids that are not the beginning of the new ones, with those that are missing. */
  lemma ReportsExact(prior: seq<Entry>, next: seq<Entry>, id: string)
    ensures ChecksumChanged(id) in Violations(prior, next) <==>
            exists i: nat, j: nat :: Disagree(prior, next, i, j, id, false)
    ensures DependencyChanged(id) in Violations(prior, next) <==>
            exists i: nat, j: nat :: Disagree(prior, next, i, j, id, true)
    ensures (exists missing :: OrderChanged(missing) in Violations(prior, next)) <==> !(PlanIds(prior) <= PlanIds(next))
    ensures !(PlanIds(prior) <= PlanIds(next)) ==>
              Violations(prior, next)[0].OrderChanged? &&
              forall x :: x in Violations(prior, next)[0].missing <==> x in PlanIds(prior) && x !in PlanIds(next)
  {
    DisagreementReported(prior, next, id, false);
    DisagreementReported(prior, next, id, true);
    if missing :| OrderChanged(missing) in Violations(prior, next) {
      if OrderChanged(missing) in EntriesViolations(prior, ById(next)) {
        var i := ListedFrom(prior, ById(next), OrderChanged(missing));
      }
    }
    if !(PlanIds(prior) <= PlanIds(next)) { assert Violations(prior, next)[0] in Violations(prior, next); }
  }

  lemma BothEmpty<T>(a: seq<T>, b: seq<T>)
    ensures a + b == [] <==> a == [] && b == []
  {}

  lemma {:induction false} NoEntryViolations(prior: seq<Entry>, byId: map<string, Entry>)
    ensures EntriesViolations(prior, byId) == [] <==>
            forall i :: 0 <= i < |prior| ==> EntryViolations(prior[i], byId) == []
  {
    if prior != [] {
      var init, last := prior[..|prior| - 1], prior[|prior| - 1];
      NoEntryViolations(init, byId);
      assert prior == init + [last];
      BothEmpty(EntriesViolations(init, byId), EntryViolations(last, byId));
    }
  }

  lemma SameIds(prior: seq<Entry>, next: seq<Entry>)
    ensures PlanIds(prior) <= PlanIds(next) <==>
            |prior| <= |next| && forall i :: 0 <= i < |prior| ==> prior[i].id == next[i].id
  {
    if PlanIds(prior) <= PlanIds(next) {
      forall i | 0 <= i < |prior| ensures prior[i].id == next[i].id { assert PlanIds(prior)[i] == PlanIds(next)[i]; }
    }
  }

  lemma EntryPasses(prior: seq<Entry>, next: seq<Entry>, i: nat)
    requires DistinctIds(next) && i < |prior| <= |next| && prior[i].id == next[i].id
    ensures EntryViolations(prior[i], ById(next)) == [] <==> EntryKept(prior[i], next[i])
  {
    ByIdExact(next, i);
  }

  /** With distinct ids, nothing is reported exactly when the old plan is kept at the front of the new. */
  lemma PassesIffKept(prior: seq<Entry>, next: seq<Entry>)
    requires DistinctIds(next)
    ensures Violations(prior, next) == [] <==> PlanKept(prior, next)
  {
    SameIds(prior, next);
    BothEmpty(OrderViolation(prior, next), EntriesViolations(prior, ById(next)));
    NoEntryViolations(prior, ById(next));
    if PlanIds(prior) <= PlanIds(next) {
      forall i | 0 <= i < |prior|
        ensures EntryViolations(prior[i], ById(next)) == [] <==> EntryKept(prior[i], next[i])
      {
        EntryPasses(prior, next, i);
      }
    }
  }

  lemma KeptTwice(a: seq<Entry>, b: seq<Entry>, c: seq<Entry>)
    requires PlanKept(a, b) && PlanKept(b, c)
    ensures PlanKept(a, c)
  {
    forall i | 0 <= i < |a| ensures EntryKept(a[i], c[i]) {
      assert EntryKept(a[i], b[i]) && EntryKept(b[i], c[i]);
    }
  }

  /** Checks compose: what passes from one release to the next and on to a third passes at once. */
  lemma CheckTransitive(a: seq<Entry>, b: seq<Entry>, c: seq<Entry>)
    requires DistinctIds(b) && DistinctIds(c)
    requires Violations(a, b) == [] && Violations(b, c) == []
    ensures Violations(a, c) == []
  {
    PassesIffKept(a, b);
    PassesIffKept(b, c);
    PassesIffKept(a, c);
    KeptTwice(a, b, c);
  }

  ghost predicate StepPasses(releases: seq<seq<Entry>>, i: nat)
    requires i + 1 < |releases|
  {
    Violations(releases[i], releases[i + 1]) == []
  }

  /** Releases whose ids are distinct and of which each passes the check against the one before. */
  ghost predicate Chain(releases: seq<seq<Entry>>) {
    && (forall i :: 0 <= i < |releases| ==> DistinctIds(releases[i]))
    && (forall i :: 0 <= i < |releases| - 1 ==> StepPasses(releases, i))
  }

  lemma {:induction false} ChainKept(releases: seq<seq<Entry>>, i: nat, j: nat)
    requires Chain(releases) && i <= j < |releases|
    ensures PlanKept(releases[i], releases[j])
    decreases j - i
  {
    if i < j {
      ChainKept(releases, i, j - 1);
      assert StepPasses(releases, j - 1);
      PassesIffKept(releases[j - 1], releases[j]);
      KeptTwice(releases[i], releases[j - 1], releases[j]);
    }
  }

  // ----- What it means for a cluster -----

  function PlanOf(ms: seq<Migration>): (plan: seq<Entry>)
    ensures |plan| == |ms|
    ensures forall i :: 0 <= i < |ms| ==> plan[i] == Entry(ms[i].id, Some(ms[i].checksum), ms[i].dependencies)
  {
    seq(|ms|, i requires 0 <= i < |ms| => Entry(ms[i].id, Some(ms[i].checksum), ms[i].dependencies))
  }

  /** Every record is one that a run of the release would have written, or a named one of the same identity. */
  ghost predicate RecordsOfRelease(plan: seq<Entry>, records: map<string, Record>) {
    forall id :: id in records ==>
      && (exists e :: e in plan && e.id == id && e.checksum == records[id].checksum)
      && (records[id].name == None || records[id].name == Some(id))
  }

  lemma RecordsCarryOver(plan: seq<Entry>, ms: seq<Migration>, records: map<string, Record>)
    requires PlanKept(plan, PlanOf(ms)) && RecordsOfRelease(plan, records)
    ensures RecordsOfRelease(PlanOf(ms), records)
  {
    forall id | id in records ensures exists e :: e in PlanOf(ms) && e.id == id && e.checksum == records[id].checksum {
      var e :| e in plan && e.id == id && e.checksum == records[id].checksum;
      var i :| 0 <= i < |plan| && plan[i] == e;
      assert EntryKept(plan[i], PlanOf(ms)[i]);
      assert PlanOf(ms)[i] in PlanOf(ms);
    }
  }

  lemma OwnRecordsAgree(ms: seq<Migration>, records: map<string, Record>)
    requires UniqueIds(ms) && RecordsOfRelease(PlanOf(ms), records)
    ensures Unknown(ms, records) == {} && !HasConflicts(ms, records)
  {
    RequiredExact(ms);
    forall id | id in records ensures id in Required(ms) && !Mismatched(Required(ms)[id], records[id]) {
      var e :| e in PlanOf(ms) && e.id == id && e.checksum == records[id].checksum;
      var i :| 0 <= i < |ms| && PlanOf(ms)[i] == e;
      assert ms[i] in ms;
    }
    assert Unknown(ms, records) == {};
  }

  /** A cluster that holds any records of an earlier release of a checked chain is neither in conflict
      with the latest one nor holds anything unknown to it. */
  lemma ChainIsConflictFree(releases: seq<seq<Entry>>, i: nat, ms: seq<Migration>, records: map<string, Record>)
    requires Chain(releases) && i < |releases| && releases[|releases| - 1] == PlanOf(ms)
    requires RecordsOfRelease(releases[i], records)
    ensures Unknown(ms, records) == {} && !HasConflicts(ms, records)
  {
    ChainKept(releases, i, |releases| - 1);
    assert DistinctIds(PlanOf(ms));
    RecordsCarryOver(releases[i], ms, records);
    assert UniqueIds(ms) by {
      forall k, j | 0 <= k < j < |ms| ensures ms[k].id != ms[j].id {
        assert PlanOf(ms)[k].id != PlanOf(ms)[j].id;
      }
    }
    OwnRecordsAgree(ms, records);
  }

  lemma {:induction false} ActionsNeverConflict(c: Catalog, actions: seq<Action>, s: State, b: Budget)
    ensures RunActions(c, actions, s, b).outcome != Failed(RegistryConflict)
    decreases |actions|
  {
    if actions != [] && !Spent(b) {
      var r := Perform(c, actions[0], s);
      if r.Done? { ActionsNeverConflict(c, actions[1..], r.state, Spend(b)); }
    }
  }

  lemma {:induction false} MigrationsNeverConflict(c: Catalog, ms: seq<Migration>, applied: map<string, Record>, s: State, b: Budget)
    requires ChecksumsAgree(ms, applied)
    ensures RunMigrations(c, ms, applied, s, b).outcome != Failed(RegistryConflict)
  {
    if ms != [] && AllIn(ms[0].dependencies, s.records.Keys) {
      var work := RunActions(c, Work(ms[0]), s, b);
      ActionsNeverConflict(c, Work(ms[0]), s, b);
      if ms[0].id in applied {
        MigrationsNeverConflict(c, ms[1..], applied, s, b);
      } else if work.outcome == Completed && !Spent(work.budget) {
        MigrationsNeverConflict(c, ms[1..], applied, Recorded(work.state, ms[0]), Spend(work.budget));
      }
    }
  }

  /** Upgrading such a cluster is never refused for its records, keeps every one of them, and does the work
      of the missing migrations and nothing else. */
  lemma UpgradeRunsOnlyMissing(releases: seq<seq<Entry>>, i: nat, c: Catalog, s: State)
    requires Chain(releases) && i < |releases| && releases[|releases| - 1] == PlanOf(c.registry)
    requires RecordsOfRelease(releases[i], s.records) && Topological(c.registry) && UniqueIds(c.registry)
    ensures var r := Apply(c, None, s, Unlimited);
            var w := RunActions(c, Pending(c.registry, s.records), s.(ledger := true), Unlimited);
            && r.outcome != Failed(RegistryConflict)
            && RecordsGrow(c.registry, s, r.state)
            && (r.outcome == Completed <==> w.outcome == Completed)
            && (r.outcome == Completed ==> r.state == w.state.(records := r.state.records))
  {
    var ms, s1 := c.registry, s.(ledger := true);
    ChainIsConflictFree(releases, i, ms, s.records);
    ApplyGrows(c, None, s, Unlimited);
    NoConflictsAgree(ms, s.records);
    InOrderMore(ms, s.records.Keys);
    assert Apply(c, None, s, Unlimited) == RunMigrations(c, ms, s.records, s1, Unlimited);
    MigrationsNeverConflict(c, ms, s.records, s1, Unlimited);
    assert InStep(ms, s.records, s1);
    MigrationsArePending(c, ms, s.records, s1);
  }
}
