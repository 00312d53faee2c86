/** What a diagnosis of the records means, and the gate it closes. */
module Diagnosis {
  import opened Optional
  import opened Migrations
  import opened ApplyProofs

  // ----- Numbers -----

  /** `p` is the text of an id before its first underscore, or all of it if there is none. */
  ghost predicate BeforeUnderscore(id: string, p: string) {
    p <= id && '_' !in p && (|p| == |id| || id[|p|] == '_')
  }

  lemma {:induction false} NumberIsBefore(id: string)
    ensures BeforeUnderscore(id, Number(id))
  {
    if id != "" && id[0] != '_' {
      NumberIsBefore(id[1..]);
      var p := Number(id[1..]);
      assert Number(id) == [id[0]] + p && id == [id[0]] + id[1..];
    }
  }

  lemma BeforeIsUnique(id: string, p: string, q: string)
    requires BeforeUnderscore(id, p) && BeforeUnderscore(id, q)
    ensures p == q
  {
    if |p| < |q| {
      HoldsUnderscore(id, p, q);
      assert false;
    }
    if |q| < |p| {
      HoldsUnderscore(id, q, p);
      assert false;
    }
  }

  lemma HoldsUnderscore(id: string, p: string, q: string)
    requires BeforeUnderscore(id, p) && q <= id && |p| < |q|
    ensures '_' in q
  {
    assert q[|p|] == id[|p|];
  }

  /** The number of an id is what stands before its first underscore. */
  lemma NumberExact(p: string, x: string)
    requires '_' !in p
    ensures Number(p) == p && Number(p + "_" + x) == p
  {
    NumberIsBefore(p);
    BeforeIsUnique(p, Number(p), p);
    NumberIsBefore(p + "_" + x);
    BeforeIsUnique(p + "_" + x, Number(p + "_" + x), p);
  }

  ghost predicate SameNumber(a: string, b: string) { exists p :: BeforeUnderscore(a, p) && BeforeUnderscore(b, p) }

  lemma SameNumberIff(a: string, b: string)
    ensures SameNumber(a, b) <==> Number(a) == Number(b)
  {
    NumberIsBefore(a);
    NumberIsBefore(b);
    if p :| BeforeUnderscore(a, p) && BeforeUnderscore(b, p) {
      BeforeIsUnique(a, p, Number(a));
      BeforeIsUnique(b, p, Number(b));
    }
  }

  // ----- Strangers and reused numbers -----

  /** Recorded, but under no id of the registry. */
  ghost predicate Stranger(ms: seq<Migration>, records: map<string, Record>, id: string) {
    id in records && forall m :: m in ms ==> m.id != id
  }

  lemma UnknownExact(ms: seq<Migration>, records: map<string, Record>, id: string)
    ensures id in Unknown(ms, records) <==> Stranger(ms, records, id)
  {
    RequiredIds(ms);
    if id in records && id in Ids(ms) {
      var i :| 0 <= i < |ms| && Ids(ms)[i] == id;
      assert ms[i] in ms;
    }
    forall m | m in ms ensures m.id in Ids(ms) { IdMember(ms, m); }
  }

  ghost predicate NumberInUse(ms: seq<Migration>, id: string) { exists m :: m in ms && SameNumber(m.id, id) }

  /** Reused numbers are those of strangers that share the number of a registry id. */
  lemma ReusedExact(ms: seq<Migration>, records: map<string, Record>, id: string)
    ensures id in ReusedNumbers(ms, records) <==> Stranger(ms, records, id) && NumberInUse(ms, id)
  {
    UnknownExact(ms, records, id);
    RequiredIds(ms);
    if NumberInUse(ms, id) {
      var m :| m in ms && SameNumber(m.id, id);
      SameNumberIff(m.id, id);
      IdMember(ms, m);
      assert m.id in Required(ms);
    }
    if id in ReusedNumbers(ms, records) {
      var k :| k in Required(ms) && Number(k) == Number(id);
      SameNumberIff(k, id);
      assert Required(ms)[k] in ms && SameNumber(Required(ms)[k].id, id);
    }
  }

  ghost predicate SharedBy(ms: seq<Migration>, i: nat, j: nat, p: string) {
    i < j < |ms| && BeforeUnderscore(ms[i].id, p) && BeforeUnderscore(ms[j].id, p)
  }

  ghost predicate Twice(xs: seq<string>, i: nat, j: nat, x: string) { i < j < |xs| && xs[i] == x && xs[j] == x }

  lemma DuplicatesAre(xs: seq<string>, x: string)
    ensures x in Duplicates(xs) <==> exists i: nat, j: nat :: Twice(xs, i, j, x)
  {
    if x in Duplicates(xs) {
      var i :| 0 <= i < |xs| && xs[i] in xs[i + 1..] && xs[i] == x;
      var k :| 0 <= k < |xs[i + 1..]| && xs[i + 1..][k] == xs[i];
      assert Twice(xs, i, i + 1 + k, x);
    }
    if i: nat, j: nat :| Twice(xs, i, j, x) {
      assert xs[i + 1..][j - i - 1] == xs[j];
    }
  }

  /** Duplicate numbers are those that two places of the registry share. */
  lemma DuplicateNumbersExact(ms: seq<Migration>, p: string)
    ensures p in Duplicates(Numbers(ms)) <==> exists i: nat, j: nat :: SharedBy(ms, i, j, p)
  {
    DuplicatesAre(Numbers(ms), p);
    forall i | 0 <= i < |ms| ensures Numbers(ms)[i] == p <==> BeforeUnderscore(ms[i].id, p) {
      NumberIsBefore(ms[i].id);
      if BeforeUnderscore(ms[i].id, p) { BeforeIsUnique(ms[i].id, p, Number(ms[i].id)); }
    }
    if i: nat, j: nat :| Twice(Numbers(ms), i, j, p) { assert SharedBy(ms, i, j, p); }
    if i: nat, j: nat :| SharedBy(ms, i, j, p) { assert Twice(Numbers(ms), i, j, p); }
  }

  // ----- Missing and violating -----

  lemma {:induction false} MissingExact(ms: seq<Migration>, records: map<string, Record>, id: string)
    ensures id in Missing(ms, records) <==> id !in records && exists m :: m in ms && m.id == id
  {
    if ms != [] {
      var init, last := ms[..|ms| - 1], ms[|ms| - 1];
      MissingExact(init, records, id);
      assert ms == init + [last];
      assert last in ms;
    }
  }

  ghost predicate Unsupported(m: Migration, records: map<string, Record>, d: string) {
    m.id in records && d in m.dependencies && d !in records
  }

  lemma {:induction false} ViolatorsExact(ms: seq<Migration>, records: map<string, Record>, gap: Gap)
    ensures gap in Violators(ms, records) <==>
            exists m :: m in ms && m.id == gap.id && gap.missing != {} &&
                        forall d :: d in gap.missing <==> Unsupported(m, records, d)
  {
    if ms != [] {
      var init, last := ms[..|ms| - 1], ms[|ms| - 1];
      ViolatorsExact(init, records, gap);
      assert ms == init + [last];
      LastViolator(last, records, gap);
      if gap in Violators([last], records) { assert last in ms; }
      assert gap in Violators(ms, records) <==> gap in Violators(init, records) || gap in Violators([last], records);
    }
  }

  lemma LastViolator(m: Migration, records: map<string, Record>, gap: Gap)
    ensures Violators([m], records) == if m.id in records && Unmet(m, records) != {} then [Gap(m.id, Unmet(m, records))] else []
    ensures gap in Violators([m], records) <==>
            m.id == gap.id && gap.missing != {} && forall d :: d in gap.missing <==> Unsupported(m, records, d)
  {
    assert [m][..0] == [] && Violators([], records) == [];
    if m.id == gap.id && gap.missing != {} && forall d :: d in gap.missing <==> Unsupported(m, records, d) {
      var d :| d in gap.missing;
      assert gap.missing == Unmet(m, records);
    }
  }

  // ----- Conflicts -----

  /** Recorded with another checksum, or under another name. */
  ghost predicate Changed(m: Migration, records: map<string, Record>) {
    m.id in records &&
    (records[m.id].checksum != Some(m.checksum) || (records[m.id].name != None && records[m.id].name != Some(m.id)))
  }

  ghost predicate InConflict(ms: seq<Migration>, records: map<string, Record>) {
    || (exists m :: m in ms && Changed(m, records))
    || (exists id :: Stranger(ms, records, id) && NumberInUse(ms, id))
  }

  lemma MismatchedExact(ms: seq<Migration>, records: map<string, Record>, m: Migration)
    requires UniqueIds(ms) && m in ms
    ensures m.id in MismatchedIds(ms, records) <==> Changed(m, records)
    ensures m.id in ChecksumMismatches(ms, records) <==> m.id in records && records[m.id].checksum != Some(m.checksum)
  {
    RequiredExact(ms);
  }

  lemma ConflictsExact(ms: seq<Migration>, records: map<string, Record>)
    requires UniqueIds(ms)
    ensures HasConflicts(ms, records) <==> InConflict(ms, records)
  {
    RequiredExact(ms);
    forall id ensures id in ReusedNumbers(ms, records) <==> Stranger(ms, records, id) && NumberInUse(ms, id) {
      ReusedExact(ms, records, id);
    }
    forall m | m in ms ensures m.id in MismatchedIds(ms, records) <==> Changed(m, records) {
      MismatchedExact(ms, records, m);
    }
    if MismatchedIds(ms, records) != {} {
      var id :| id in MismatchedIds(ms, records);
      assert Required(ms)[id] in ms;
    }
  }

  /** A recorded migration with another checksum or name, or a recorded stranger with the number of a
      registry id, stops everything before anything changes. */
  lemma FailsClosed(c: Catalog, through: Option<string>, s: State, b: Budget)
    requires UniqueIds(c.registry) && ValidState(s) && InConflict(c.registry, s.records)
    ensures Apply(c, through, s, b) == Run(Failed(RegistryConflict), s, b)
  {
    ConflictsExact(c.registry, s.records);
    ConflictStops(c, through, s, b);
  }

  lemma ConflictStops(c: Catalog, through: Option<string>, s: State, b: Budget)
    requires ValidState(s) && s.records != map[] && HasConflicts(c.registry, s.records)
    ensures Apply(c, through, s, b) == Run(Failed(RegistryConflict), s, b)
  {}

  // ----- Selecting a prefix -----

  /** Everything the first `k` migrations depend on is among them. */
  ghost predicate SelfContained(ms: seq<Migration>, k: nat) {
    k <= |ms| && forall m, d :: m in ms[..k] && d in m.dependencies ==> exists n :: n in ms[..k] && n.id == d
  }

  lemma {:induction false} FirstIndex(ids: seq<string>, id: string)
    requires id in ids
    ensures forall k :: 0 <= k < IndexOf(ids, id) ==> ids[k] != id
  {
    if ids[0] != id { FirstIndex(ids[1..], id); }
  }

  /** Migration `k` is the first of its id. */
  ghost predicate FirstOf(ms: seq<Migration>, k: nat, id: string) {
    k < |ms| && ms[k].id == id && forall i :: 0 <= i < k ==> ms[i].id != id
  }

  lemma IndexOfFirst(ms: seq<Migration>, k: nat, id: string)
    requires FirstOf(ms, k, id)
    ensures id in Ids(ms) && IndexOf(Ids(ms), id) == k
  {
    assert Ids(ms)[k] == id;
    FirstIndex(Ids(ms), id);
  }

  lemma DependenciesWithin(prefix: seq<Migration>, m: Migration)
    ensures AllIn(m.dependencies, set n | n in prefix :: n.id) <==>
            forall d :: d in m.dependencies ==> exists n :: n in prefix && n.id == d
  {}

  /** A bound selects the migrations up to its first place, provided they hold their own dependencies. */
  lemma SelectExact(ms: seq<Migration>, k: nat, id: string)
    requires FirstOf(ms, k, id)
    ensures Select(ms, Some(id)) == if SelfContained(ms, k + 1) then Selected(ms[..k + 1]) else Rejected(InvalidPrefix)
  {
    IndexOfFirst(ms, k, id);
    forall m | m in ms[..k + 1]
      ensures AllIn(m.dependencies, set n | n in ms[..k + 1] :: n.id) <==>
              forall d :: d in m.dependencies ==> exists n :: n in ms[..k + 1] && n.id == d
    {
      DependenciesWithin(ms[..k + 1], m);
    }
  }

  lemma SelectUnknown(ms: seq<Migration>, id: string)
    ensures Select(ms, Some(id)) == Rejected(UnknownMigration) <==> forall m :: m in ms ==> m.id != id
  {
    if id in Ids(ms) {
      var i :| 0 <= i < |ms| && Ids(ms)[i] == id;
      assert ms[i] in ms;
    }
    forall m | m in ms ensures m.id in Ids(ms) { IdMember(ms, m); }
  }
}
