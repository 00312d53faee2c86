/** What applying the registry guarantees: it resumes, keeps what is installed, fails closed and keeps
    dependencies. */
module ApplyProofs {
  import opened Optional
  import opened Mappings
  import opened Migrations
  import opened Resumption

  // ----- Records -----

  /** `applied` and the records agree about the migrations still to come. */
  ghost predicate InStep(ms: seq<Migration>, applied: map<string, Record>, s: State) {
    forall m :: m in ms ==>
      (m.id in applied <==> m.id in s.records) && (m.id in applied ==> applied[m.id] == s.records[m.id])
  }

  /** All records of `s` are kept in `t`, and each new one is that of some migration in `ms`. */
  ghost predicate RecordsGrow(ms: seq<Migration>, s: State, t: State) {
    && (forall id :: id in s.records ==> id in t.records && t.records[id] == s.records[id])
    && (forall id :: id in t.records && id !in s.records ==>
          exists m :: m in ms && m.id == id && t.records[id] == RecordOf(m))
  }

  function Recorded(s: State, m: Migration): State {
    s.(records := s.records[m.id := RecordOf(m)])
  }

  lemma InStepNext(ms: seq<Migration>, applied: map<string, Record>, s: State, t: State)
    requires ms != [] && UniqueIds(ms) && InStep(ms, applied, s) && t.records == s.records
    ensures UniqueIds(ms[1..]) && InStep(ms[1..], applied, t) && InStep(ms[1..], applied, Recorded(t, ms[0]))
  {
    forall m | m in ms[1..] ensures m.id != ms[0].id {
      var i :| 0 <= i < |ms[1..]| && ms[1..][i] == m;
      assert ms[i + 1].id == m.id;
    }
  }

  lemma RecordsGrowMore(ms: seq<Migration>, s: State, s1: State, t: State)
    requires ms != [] && s1.records == s.records && ms[0].id !in s.records
    requires RecordsGrow(ms[1..], Recorded(s1, ms[0]), t)
    ensures RecordsGrow(ms, s, t)
  {
    forall id | id in t.records && id !in s.records
      ensures exists m :: m in ms && m.id == id && t.records[id] == RecordOf(m)
    {
      if id != ms[0].id {
        var m :| m in ms[1..] && m.id == id && t.records[id] == RecordOf(m);
        assert m in ms;
      } else {
        assert ms[0] in ms;
      }
    }
  }

  /** `t` holds what `s` holds and what some of the migrations add. */
  ghost predicate Grows(ms: seq<Migration>, s: State, t: State) {
    RecordsGrow(ms, s, t) && Kept(s, t) && t.ledger == s.ledger
  }

  lemma GrowsUnrecorded(ms: seq<Migration>, s: State, w: State)
    requires Kept(s, w) && w.records == s.records && w.ledger == s.ledger
    ensures Grows(ms, s, w)
  {}

  lemma GrowsRecorded(ms: seq<Migration>, s: State, w: State, t: State)
    requires ms != [] && ms[0].id !in s.records && Kept(s, w) && w.records == s.records && w.ledger == s.ledger
    requires Grows(ms[1..], Recorded(w, ms[0]), t)
    ensures Grows(ms, s, t)
  {
    RecordsGrowMore(ms, s, w, t);
    KeptTransitive(s, Recorded(w, ms[0]), t);
  }

  lemma GrowsLonger(ms: seq<Migration>, s: State, t: State)
    requires ms != [] && Grows(ms[1..], s, t)
    ensures Grows(ms, s, t)
  {
    GrowthOfMore(ms, ms[1..], s, t);
  }

  lemma {:induction false} MigrationsGrow(c: Catalog, ms: seq<Migration>, applied: map<string, Record>, s: State, b: Budget)
    requires UniqueIds(ms) && InStep(ms, applied, s)
    ensures Grows(ms, s, RunMigrations(c, ms, applied, s, b).state)
  {
    if ms != [] && AllIn(ms[0].dependencies, s.records.Keys) {
      var m := ms[0];
      var work := RunActions(c, Work(m), s, b);
      ActionsKeep(c, Work(m), s, b);
      InStepNext(ms, applied, s, work.state);
      if m.id in applied {
        MigrationsGrow(c, ms[1..], applied, s, b);
        GrowsLonger(ms, s, RunMigrations(c, ms[1..], applied, s, b).state);
      } else if work.outcome == Completed && !Spent(work.budget) {
        var s1 := Recorded(work.state, m);
        MigrationsGrow(c, ms[1..], applied, s1, Spend(work.budget));
        GrowsRecorded(ms, s, work.state, RunMigrations(c, ms[1..], applied, s1, Spend(work.budget)).state);
      } else {
        GrowsUnrecorded(ms, s, work.state);
      }
    }
  }

  lemma {:induction false} AppliedMatters(
    c: Catalog, ms: seq<Migration>, applied: map<string, Record>, applied': map<string, Record>, s: State, b: Budget)
    requires forall m :: m in ms ==>
      (m.id in applied <==> m.id in applied') && (m.id in applied ==> applied[m.id] == applied'[m.id])
    ensures RunMigrations(c, ms, applied, s, b) == RunMigrations(c, ms, applied', s, b)
  {
    if ms != [] && AllIn(ms[0].dependencies, s.records.Keys) {
      var work := RunActions(c, Work(ms[0]), s, b);
      if ms[0].id in applied {
        AppliedMatters(c, ms[1..], applied, applied', s, b);
      } else if work.outcome == Completed && !Spent(work.budget) {
        AppliedMatters(c, ms[1..], applied, applied', Recorded(work.state, ms[0]), Spend(work.budget));
      }
    }
  }

  // ----- Resumption -----

  /** The run that was cut off inside the work of its first migration, or just before recording it. */
  lemma ReplayFirst(c: Catalog, ms: seq<Migration>, applied: map<string, Record>, s: State, b: Budget)
    requires ms != [] && UniqueIds(ms) && InStep(ms, applied, s) && ms[0].id !in applied
    requires AllIn(ms[0].dependencies, s.records.Keys)
    ensures var t := RunActions(c, Work(ms[0]), s, b).state;
            RunMigrations(c, ms, t.records, t, Unlimited) == RunMigrations(c, ms, applied, s, Unlimited)
  {
    var m := ms[0];
    var t := RunActions(c, Work(m), s, b).state;
    ActionsKeep(c, Work(m), s, b);
    ActionsKeep(c, Work(m), s, Unlimited);
    ActionsReplay(c, Work(m), s, b);
    var work := RunActions(c, Work(m), s, Unlimited);
    InStepNext(ms, applied, s, work.state);
    if work.outcome == Completed {
      UnlimitedStays(c, Work(m), s);
      AppliedMatters(c, ms[1..], applied, t.records, Recorded(work.state, m), Unlimited);
    }
  }

  lemma {:induction false} UnlimitedStays(c: Catalog, actions: seq<Action>, s: State)
    ensures RunActions(c, actions, s, Unlimited).budget == Unlimited
  {
    if actions != [] {
      var r := Perform(c, actions[0], s);
      if r.Done? { UnlimitedStays(c, actions[1..], r.state); }
    }
  }

  /** A completed work does not depend on how much budget was left over. */
  lemma {:induction false} BudgetMatters(c: Catalog, actions: seq<Action>, s: State, b: Budget)
    requires RunActions(c, actions, s, b).outcome == Completed
    ensures RunActions(c, actions, s, Unlimited).outcome == Completed
    ensures RunActions(c, actions, s, Unlimited).state == RunActions(c, actions, s, b).state
    decreases |actions|
  {
    if actions != [] { BudgetMatters(c, actions[1..], Perform(c, actions[0], s).state, Spend(b)); }
  }

  lemma {:induction false} MigrationsReplay(
    c: Catalog, ms: seq<Migration>, applied: map<string, Record>, s: State, b: Budget)
    requires UniqueIds(ms) && InStep(ms, applied, s)
    ensures var t := RunMigrations(c, ms, applied, s, b).state;
            RunMigrations(c, ms, t.records, t, Unlimited) == RunMigrations(c, ms, applied, s, Unlimited)
  {
    MigrationsGrow(c, ms, applied, s, b);
    if ms != [] {
      var m, t := ms[0], RunMigrations(c, ms, applied, s, b).state;
      if !AllIn(m.dependencies, s.records.Keys) {
      } else if m.id in applied {
        InStepNext(ms, applied, s, s);
        if applied[m.id].checksum == Some(m.checksum) { MigrationsReplay(c, ms[1..], applied, s, b); }
      } else {
        var work := RunActions(c, Work(m), s, b);
        if work.outcome != Completed || Spent(work.budget) {
          ReplayFirst(c, ms, applied, s, b);
        } else {
          ActionsKeep(c, Work(m), s, b);
          BudgetMatters(c, Work(m), s, b);
          UnlimitedStays(c, Work(m), s);
          InStepNext(ms, applied, s, work.state);
          MigrationsReplay(c, ms[1..], applied, Recorded(work.state, m), Spend(work.budget));
          RecordedKept(c, ms, applied, work.state, Spend(work.budget));
        }
      }
    }
  }

  lemma RecordedKept(c: Catalog, ms: seq<Migration>, applied: map<string, Record>, s: State, b: Budget)
    requires ms != [] && UniqueIds(ms[1..]) && InStep(ms[1..], applied, Recorded(s, ms[0]))
    ensures var t := RunMigrations(c, ms[1..], applied, Recorded(s, ms[0]), b).state;
            ms[0].id in t.records && t.records[ms[0].id] == RecordOf(ms[0])
  {
    MigrationsGrow(c, ms[1..], applied, Recorded(s, ms[0]), b);
  }

  lemma {:induction false} RequiredIds(ms: seq<Migration>)
    ensures forall id :: id in Required(ms) <==> id in Ids(ms)
    ensures forall id :: id in Required(ms) ==> Required(ms)[id] in ms && Required(ms)[id].id == id
  {
    if ms != [] {
      var init, last := ms[..|ms| - 1], ms[|ms| - 1];
      RequiredIds(init);
      assert ms == init + [last] && Ids(ms) == Ids(init) + [last.id];
    }
  }

  lemma IdMember(ms: seq<Migration>, m: Migration)
    requires m in ms
    ensures m.id in Ids(ms)
  {
    var i :| 0 <= i < |ms| && ms[i] == m;
    assert Ids(ms)[i] == m.id;
  }

  lemma RequiredExact(ms: seq<Migration>)
    requires UniqueIds(ms)
    ensures forall id :: id in Required(ms) ==> Required(ms)[id] in ms && Required(ms)[id].id == id
    ensures forall m :: m in ms ==> m.id in Required(ms) && Required(ms)[m.id] == m
  {
    RequiredIds(ms);
    forall m | m in ms ensures m.id in Required(ms) && Required(ms)[m.id] == m {
      IdMember(ms, m);
      var i :| 0 <= i < |ms| && ms[i] == m;
      var j :| 0 <= j < |ms| && ms[j] == Required(ms)[m.id];
      assert i == j;
    }
  }

  /** Records written by a run are those the registry expects. */
  lemma NoNewConflicts(ms: seq<Migration>, s: State, t: State)
    requires UniqueIds(ms) && RecordsGrow(ms, s, t) && !HasConflicts(ms, s.records)
    ensures !HasConflicts(ms, t.records)
  {
    RequiredExact(ms);
    forall id | id in Required(ms) && id in t.records ensures !Mismatched(Required(ms)[id], t.records[id]) {
      if id in s.records {
        assert id !in MismatchedIds(ms, s.records);
      } else {
        var m :| m in ms && m.id == id && t.records[id] == RecordOf(m);
      }
    }
    forall id | id in t.records && id !in s.records ensures id in Required(ms) {
      var m :| m in ms && m.id == id && t.records[id] == RecordOf(m);
    }
    assert ReusedNumbers(ms, t.records) <= ReusedNumbers(ms, s.records);
  }

  lemma SelectPrefix(ms: seq<Migration>, through: Option<string>)
    requires UniqueIds(ms) && Select(ms, through).Selected?
    ensures UniqueIds(Select(ms, through).migrations) && forall m :: m in Select(ms, through).migrations ==> m in ms
  {}

  lemma ApplyGrows(c: Catalog, through: Option<string>, s: State, b: Budget)
    requires UniqueIds(c.registry)
    ensures var t := Apply(c, through, s, b).state; RecordsGrow(c.registry, s, t) && Kept(s, t)
  {
    var s1 := s.(ledger := true);
    if Select(c.registry, through).Selected? {
      var ms := Select(c.registry, through).migrations;
      SelectPrefix(c.registry, through);
      var b1 := if s.ledger || Spent(b) then b else Spend(b);
      MigrationsGrow(c, ms, s1.records, s1, b1);
      GrowthOfMore(c.registry, ms, s1, RunMigrations(c, ms, s1.records, s1, b1).state);
    }
  }

  lemma GrowthOfMore(all: seq<Migration>, ms: seq<Migration>, s: State, t: State)
    requires RecordsGrow(ms, s, t) && forall m :: m in ms ==> m in all
    ensures RecordsGrow(all, s, t)
  {
    forall id | id in t.records && id !in s.records
      ensures exists m :: m in all && m.id == id && t.records[id] == RecordOf(m)
    {
      var m :| m in ms && m.id == id && t.records[id] == RecordOf(m);
      assert m in all;
    }
  }

  /** However many calls go through before the client is cut off, applying again ends exactly as one
      uninterrupted run would have: same outcome, records, indices, mappings, transforms and templates. */
  lemma ApplyResumes(c: Catalog, through: Option<string>, s: State, b: Budget)
    requires UniqueIds(c.registry)
    ensures Apply(c, through, Apply(c, through, s, b).state, Unlimited) == Apply(c, through, s, Unlimited)
  {
    var s1, t := s.(ledger := true), Apply(c, through, s, b).state;
    if (s.ledger || !Spent(b)) && !HasConflicts(c.registry, s.records) && Select(c.registry, through).Selected? {
      var ms := Select(c.registry, through).migrations;
      SelectPrefix(c.registry, through);
      var b1 := if s.ledger then b else Spend(b);
      MigrationsGrow(c, ms, s1.records, s1, b1);
      MigrationsReplay(c, ms, s1.records, s1, b1);
      ApplyGrows(c, through, s, b);
      NoNewConflicts(c.registry, s, t);
    }
  }

  function ApplyOften(c: Catalog, through: Option<string>, s: State, cuts: seq<nat>): State
    decreases |cuts|
  {
    if cuts == [] then s else ApplyOften(c, through, Apply(c, through, s, Calls(cuts[0])).state, cuts[1..])
  }

  /** Any number of interruptions come to the same. */
  lemma {:induction false} ApplyResumesOften(c: Catalog, through: Option<string>, s: State, cuts: seq<nat>)
    requires UniqueIds(c.registry)
    ensures Apply(c, through, ApplyOften(c, through, s, cuts), Unlimited) == Apply(c, through, s, Unlimited)
    decreases |cuts|
  {
    if cuts != [] {
      ApplyResumes(c, through, s, Calls(cuts[0]));
      ApplyResumesOften(c, through, Apply(c, through, s, Calls(cuts[0])).state, cuts[1..]);
    }
  }

  // ----- Failing closed, dependencies, readiness -----

  /** Every recorded migration of the registry has its dependencies recorded. */
  ghost predicate DependencyClosed(ms: seq<Migration>, s: State) {
    forall m :: m in ms && m.id in s.records ==> AllIn(m.dependencies, s.records.Keys)
  }

  lemma {:induction false} MigrationsClosed(
    c: Catalog, all: seq<Migration>, ms: seq<Migration>, applied: map<string, Record>, s: State, b: Budget)
    requires UniqueIds(all) && (forall m :: m in ms ==> m in all) && DependencyClosed(all, s)
    ensures DependencyClosed(all, RunMigrations(c, ms, applied, s, b).state)
  {
    if ms != [] && AllIn(ms[0].dependencies, s.records.Keys) {
      var work := RunActions(c, Work(ms[0]), s, b);
      ActionsKeep(c, Work(ms[0]), s, b);
      if ms[0].id in applied {
        MigrationsClosed(c, all, ms[1..], applied, s, b);
      } else if work.outcome == Completed && !Spent(work.budget) {
        RecordedClosed(all, work.state, ms[0]);
        MigrationsClosed(c, all, ms[1..], applied, Recorded(work.state, ms[0]), Spend(work.budget));
      }
    }
  }

  lemma RecordedClosed(all: seq<Migration>, s: State, m: Migration)
    requires UniqueIds(all) && m in all && DependencyClosed(all, s) && AllIn(m.dependencies, s.records.Keys)
    ensures DependencyClosed(all, Recorded(s, m))
  {
    forall n | n in all && n.id in Recorded(s, m).records ensures AllIn(n.dependencies, Recorded(s, m).records.Keys) {
      if n.id == m.id {
        var i :| 0 <= i < |all| && all[i] == n;
        var j :| 0 <= j < |all| && all[j] == m;
        assert i == j;
      }
    }
  }

  /** A dependency-closed record set stays dependency-closed, however the run ends. */
  lemma ApplyKeepsDependencies(c: Catalog, through: Option<string>, s: State, b: Budget)
    requires UniqueIds(c.registry) && DependencyClosed(c.registry, s)
    ensures DependencyClosed(c.registry, Apply(c, through, s, b).state)
  {
    var s1 := s.(ledger := true);
    assert DependencyClosed(c.registry, s1);
    if Select(c.registry, through).Selected? && (s.ledger || !Spent(b)) {
      SelectPrefix(c.registry, through);
      MigrationsClosed(c, c.registry, Select(c.registry, through).migrations, s1.records, s1, if s.ledger then b else Spend(b));
    }
  }

  lemma {:induction false} AllRecordedRun(c: Catalog, ms: seq<Migration>, s: State, b: Budget)
    requires forall m :: m in ms ==>
      m.id in s.records && s.records[m.id].checksum == Some(m.checksum) && AllIn(m.dependencies, s.records.Keys)
    ensures RunMigrations(c, ms, s.records, s, b) == Run(Completed, s, b)
  {
    if ms != [] { AllRecordedRun(c, ms[1..], s, b); }
  }

  /** A ready cluster is a fixed point: a further full run completes and changes nothing. */
  lemma ReadyIsStable(c: Catalog, s: State, b: Budget)
    requires s.ledger && Ready(c.registry, s)
    ensures Apply(c, None, s, b) == Run(Completed, s, b)
  {
    ReadyIsUnique(c.registry);
    RequiredExact(c.registry);
    forall m | m in c.registry ensures s.records[m.id].checksum == Some(m.checksum) {
      assert m.id !in MismatchedIds(c.registry, s.records);
    }
    AllRecordedRun(c, c.registry, s, b);
  }

  lemma ReadyIsUnique(ms: seq<Migration>)
    requires !HasDuplicate(Ids(ms))
    ensures UniqueIds(ms)
  {
    forall i, j | 0 <= i < j < |ms| ensures ms[i].id != ms[j].id {
      assert Ids(ms)[i] != Ids(ms)[j];
    }
  }

  // ----- Whole histories -----

  /** A history may apply different registries and take records back. */
  datatype Command = Applying(catalog: Catalog, through: Option<string>, budget: Budget) | RollingBack(id: string)

  function Execute(k: Command, s: State): State {
    match k
    case Applying(c, through, b) => Apply(c, through, s, b).state
    case RollingBack(id) => Rollback(id, s)
  }

  function ExecuteAll(ks: seq<Command>, s: State): State {
    if ks == [] then s else ExecuteAll(ks[1..], Execute(ks[0], s))
  }

  lemma {:induction false} MigrationsKeep(c: Catalog, ms: seq<Migration>, applied: map<string, Record>, s: State, b: Budget)
    ensures Kept(s, RunMigrations(c, ms, applied, s, b).state)
  {
    if ms != [] && AllIn(ms[0].dependencies, s.records.Keys) {
      var work := RunActions(c, Work(ms[0]), s, b);
      ActionsKeep(c, Work(ms[0]), s, b);
      if ms[0].id in applied {
        MigrationsKeep(c, ms[1..], applied, s, b);
      } else if work.outcome == Completed && !Spent(work.budget) {
        var s1 := Recorded(work.state, ms[0]);
        MigrationsKeep(c, ms[1..], applied, s1, Spend(work.budget));
        KeptTransitive(s, s1, RunMigrations(c, ms[1..], applied, s1, Spend(work.budget)).state);
      }
    }
  }

  lemma ExecuteKeeps(k: Command, s: State)
    ensures Kept(s, Execute(k, s))
  {
    match k
    case Applying(c, through, b) =>
      var s1 := s.(ledger := true);
      var b1 := if s.ledger || Spent(b) then b else Spend(b);
      if Select(c.registry, through).Selected? {
        MigrationsKeep(c, Select(c.registry, through).migrations, s1.records, s1, b1);
      }
    case RollingBack(id) =>
  }

  /** Over any history of applications, interruptions and rollbacks, with whatever registries, no
      installed field is removed or redefined, and strictness is kept. */
  lemma {:induction false} HistoryKeeps(ks: seq<Command>, s: State)
    ensures Kept(s, ExecuteAll(ks, s))
  {
    if ks != [] {
      ExecuteKeeps(ks[0], s);
      HistoryKeeps(ks[1..], Execute(ks[0], s));
      KeptTransitive(s, Execute(ks[0], s), ExecuteAll(ks, s));
    }
  }

  /** A rejected mapping update leaves the cluster as it was; an accepted one can be repeated after any
      later history, without conflict and without effect. */
  lemma UpdateRejectedOrRepeatable(c: Catalog, index: string, contract: Contract, s: State, ks: seq<Command>)
    ensures var r := PerformUpdate(c, index, contract, s);
            && (r.Stuck? ==> r.state == s)
            && (r.Done? ==> var t := ExecuteAll(ks, r.state); PerformUpdate(c, index, contract, t) == Done(t))
  {
    var a := UpdateMapping(index, contract);
    var r := Perform(c, a, s);
    StepKeeps(c, a, s);
    if r.Done? {
      var t := ExecuteAll(ks, r.state);
      DoneSettles(c, a, s);
      HistoryKeeps(ks, r.state);
      SettledKept(c, a, r.state, t);
      SettledPerform(c, a, t);
      assert t.resources + PutOf(a) == t.resources;
    }
  }
}
