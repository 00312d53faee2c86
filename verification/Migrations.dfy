/** The migration registry and what applying it does to a cluster (packages/elastic_store/registry.py),
    as functions on cluster states. Every cluster call either goes through or is where the client is
    cut off. */
module Migrations {
  import opened Optional
  import opened Mappings

  // ----- The cluster -----

  /** Named things that are put whole: the last put wins. */
  datatype Resource =
    | Alias(index: string, name: string)
    | IndexTemplate(name: string)
    | ComponentTemplate(name: string)
    | Lifecycle(name: string)
    | StartedTransform(id: string)

  datatype Body =
    | AliasOf(writeIndex: bool)
    | StreamTemplate(pattern: string)
    | ContractTemplate(pattern: string, component: string, policy: string)
    | StrictMappings(properties: Properties)
    | DeleteAfter(retention: string)
    | Running

  datatype TransformBody = TransformBody(source: string, destination: string, uniqueKey: seq<string>, sort: string)

  /** A stored migration record. Older records may carry a name. The time of application is left out. */
  datatype Record = Record(checksum: Option<string>, name: Option<string>, schemaVersion: string)

  /** `ledger` says whether the index of migration records exists. */
  datatype State = State(
    ledger: bool, records: map<string, Record>, indices: map<string, Mapping>,
    transforms: map<string, TransformBody>, resources: map<Resource, Body>)

  /** Without the ledger index there are no records. */
  predicate ValidState(s: State) { s.ledger || s.records == map[] }

  const EMPTY := State(false, map[], map[], map[], map[])

  // ----- The registry -----

  datatype TransformOp = Placeholder(name: string) | Executable(id: string, body: TransformBody)

  datatype StreamContract = StreamContract(retention: string, properties: Properties)

  datatype Update = Update(index: string, contract: Contract)

  datatype StreamUpdate = StreamUpdate(pattern: string, contract: StreamContract)

  datatype Migration = Migration(
    id: string, schemaVersion: string, checksum: string, dependencies: seq<string>,
    mutableIndices: seq<string>, dataStreams: seq<string>, transforms: seq<TransformOp>,
    updates: seq<Update>, streams: seq<StreamUpdate>)

  /** The registry with the property tables that new indices are created from: `shared` for all,
      `overrides` before and `pinned` after the fields that the registry itself owns. */
  datatype Catalog = Catalog(
    registry: seq<Migration>, shared: Properties, overrides: map<string, Properties>, pinned: map<string, Properties>)

  function Ids(ms: seq<Migration>): (ids: seq<string>)
    ensures |ids| == |ms| && forall i :: 0 <= i < |ms| ==> ids[i] == ms[i].id
  {
    seq(|ms|, i requires 0 <= i < |ms| => ms[i].id)
  }

  ghost predicate UniqueIds(ms: seq<Migration>) {
    forall i, j :: 0 <= i < j < |ms| ==> ms[i].id != ms[j].id
  }

  function Table(tables: map<string, Properties>, index: string): Properties {
    if index in tables then tables[index] else map[]
  }

  /** The contracts of one migration for one index, oldest first; none if one of them is malformed. */
  function OwnedBy(updates: seq<Update>, index: string): Option<Properties> {
    if updates == [] then Some(map[])
    else
      var rest, last := OwnedBy(updates[..|updates| - 1], index), updates[|updates| - 1];
      if rest.None? || last.index != index then rest
      else
        var p := PropertiesOf(last.contract);
        if p.None? then None else Some(p.value + rest.value)
  }

  /** For each field of an index, the definition released first. */
  function FirstOwners(ms: seq<Migration>, index: string): Option<Properties> {
    if ms == [] then Some(map[])
    else
      var rest, own := FirstOwners(ms[..|ms| - 1], index), OwnedBy(ms[|ms| - 1].updates, index);
      if rest.None? || own.None? then None else Some(own.value + rest.value)
  }

  /** The strict mapping a new index is created with. */
  function IndexMapping(c: Catalog, index: string): Option<Mapping> {
    var owners := FirstOwners(c.registry, index);
    if owners.None? then None
    else Some(Mapping(true, c.shared + Table(c.overrides, index) + owners.value + Table(c.pinned, index)))
  }

  predicate IsTarget(ms: seq<Migration>, index: string) {
    exists m, u :: m in ms && u in m.updates && u.index == index
  }

  // ----- One step -----

  /** Each action makes at most one write call. */
  datatype Action =
    | EnsureIndex(index: string)
    | EnsureTransform(id: string, transform: TransformBody)
    | Put(resource: Resource, body: Body)
    | UpdateMapping(index: string, contract: Contract)

  datatype Error =
    | RegistryConflict | UnknownMigration | InvalidPrefix | UnappliedDependency
    | MalformedContract | UnregisteredTarget | MissingTarget | NotStrict | IncompatibleMapping | VerificationFailed

  datatype Attempt = Done(state: State) | Stuck(error: Error, state: State)

  /** No field that is already installed has a conflicting definition. */
  predicate NoConflict(index: string, props: Properties, installed: Properties) {
    forall f :: f in props && f in installed ==> UpdateMatches(index, f, props[f], installed[f])
  }

  /** Every field is installed, with a definition that matches. */
  predicate AllInstalled(index: string, props: Properties, installed: Properties) {
    forall f :: f in props ==> f in installed && UpdateMatches(index, f, props[f], installed[f])
  }

  function PerformUpdate(c: Catalog, index: string, contract: Contract, s: State): Attempt {
    var props := PropertiesOf(contract);
    if props.None? then Stuck(MalformedContract, s)
    else if !IsTarget(c.registry, index) then Stuck(UnregisteredTarget, s)
    else if index !in s.indices then Stuck(MissingTarget, s)
    else if !s.indices[index].strict then Stuck(NotStrict, s)
    else
      var current := s.indices[index].properties;
      if !NoConflict(index, props.value, current) then Stuck(IncompatibleMapping, s)
      else
        var installed := props.value + current;
        var s' := s.(indices := s.indices[index := Mapping(true, installed)]);
        if AllInstalled(index, props.value, installed) then Done(s') else Stuck(VerificationFailed, s')
  }

  function Perform(c: Catalog, a: Action, s: State): Attempt {
    match a
    case EnsureIndex(index) =>
      if index in s.indices then Done(s)
      else
        var mapping := IndexMapping(c, index);
        if mapping.None? then Stuck(MalformedContract, s)
        else Done(s.(indices := s.indices[index := mapping.value]))
    case EnsureTransform(id, body) =>
      if id in s.transforms then Done(s) else Done(s.(transforms := s.transforms[id := body]))
    case Put(resource, body) => Done(s.(resources := s.resources[resource := body]))
    case UpdateMapping(index, contract) => PerformUpdate(c, index, contract, s)
  }

  // ----- The work of one migration -----

  function Replaced(s: string, from: string, to: string): string
    requires from != ""
  {
    if s == "" then ""
    else if from <= s then to + Replaced(s[|from|..], from, to)
    else [s[0]] + Replaced(s[1..], from, to)
  }

  function TemplateName(pattern: string): string {
    "dataobs-" + Replaced(Replaced(pattern, "*", "template"), ".", "-")
  }

  function Stem(pattern: string): string { Replaced(Replaced(pattern, "-*", ""), ".", "-") }

  function IndexActions(indices: seq<string>): seq<Action> {
    if indices == [] then []
    else
      var i := indices[|indices| - 1];
      IndexActions(indices[..|indices| - 1]) +
      [EnsureIndex(i), Put(Alias(i, i + "-read"), AliasOf(false)), Put(Alias(i, i + "-write"), AliasOf(true))]
  }

  function StreamActions(patterns: seq<string>): (r: seq<Action>)
    ensures |r| == |patterns|
  {
    seq(|patterns|, i requires 0 <= i < |patterns| =>
      Put(IndexTemplate(TemplateName(patterns[i])), StreamTemplate(patterns[i])))
  }

  function TransformActions(ops: seq<TransformOp>): seq<Action> {
    if ops == [] then []
    else
      TransformActions(ops[..|ops| - 1]) +
      match ops[|ops| - 1]
      case Placeholder(_) => []
      case Executable(id, body) => [EnsureTransform(id, body), Put(StartedTransform(id), Running)]
  }

  function UpdateActions(updates: seq<Update>): (r: seq<Action>)
    ensures |r| == |updates|
    ensures forall i :: 0 <= i < |updates| ==> r[i] == UpdateMapping(updates[i].index, updates[i].contract)
  {
    seq(|updates|, i requires 0 <= i < |updates| => UpdateMapping(updates[i].index, updates[i].contract))
  }

  function ContractActions(streams: seq<StreamUpdate>): seq<Action> {
    if streams == [] then []
    else
      var u := streams[|streams| - 1];
      var stem := Stem(u.pattern);
      var component, policy := "dataobs-" + stem + "-mappings", "dataobs-" + stem + "-" + u.contract.retention;
      ContractActions(streams[..|streams| - 1]) +
      [Put(Lifecycle(policy), DeleteAfter(u.contract.retention)),
       Put(ComponentTemplate(component), StrictMappings(u.contract.properties)),
       Put(IndexTemplate("dataobs-" + stem + "-template"), ContractTemplate(u.pattern, component, policy))]
  }

  function Work(m: Migration): seq<Action> {
    IndexActions(m.mutableIndices) + StreamActions(m.dataStreams) + TransformActions(m.transforms) +
    UpdateActions(m.updates) + ContractActions(m.streams)
  }

  // ----- Runs that may be cut off -----

  /** How many cluster calls go through before the client is cut off. */
  datatype Budget = Unlimited | Calls(left: nat)

  predicate Spent(b: Budget) { b == Calls(0) }

  function Spend(b: Budget): Budget
    requires !Spent(b)
  {
    match b case Unlimited => Unlimited case Calls(n) => Calls(n - 1)
  }

  datatype Outcome = Completed | Interrupted | Failed(error: Error)

  datatype Run = Run(outcome: Outcome, state: State, budget: Budget)

  function RunActions(c: Catalog, actions: seq<Action>, s: State, b: Budget): Run {
    if actions == [] then Run(Completed, s, b)
    else if Spent(b) then Run(Interrupted, s, b)
    else
      match Perform(c, actions[0], s)
      case Stuck(e, s') => Run(Failed(e), s', Spend(b))
      case Done(s') => RunActions(c, actions[1..], s', Spend(b))
  }

  function RecordOf(m: Migration): Record { Record(Some(m.checksum), None, m.schemaVersion) }

  predicate AllIn(xs: seq<string>, s: set<string>) { forall x :: x in xs ==> x in s }

  /** Migrations in order; `applied` is the record set as it was read at the start. */
  function RunMigrations(c: Catalog, ms: seq<Migration>, applied: map<string, Record>, s: State, b: Budget): Run {
    if ms == [] then Run(Completed, s, b)
    else
      var m := ms[0];
      if !AllIn(m.dependencies, s.records.Keys) then Run(Failed(UnappliedDependency), s, b)
      else if m.id in applied then
        if applied[m.id].checksum != Some(m.checksum) then Run(Failed(RegistryConflict), s, b)
        else RunMigrations(c, ms[1..], applied, s, b)
      else
        var work := RunActions(c, Work(m), s, b);
        if work.outcome != Completed then work
        else if Spent(work.budget) then Run(Interrupted, work.state, work.budget)
        else
          RunMigrations(c, ms[1..], applied,
                        work.state.(records := work.state.records[m.id := RecordOf(m)]), Spend(work.budget))
  }

  // ----- Diagnosis -----

  /** The part of an id before its first underscore. */
  function Number(id: string): string {
    if id == "" || id[0] == '_' then "" else [id[0]] + Number(id[1..])
  }

  /** The last migration of each id. */
  function Required(ms: seq<Migration>): map<string, Migration> {
    if ms == [] then map[] else Required(ms[..|ms| - 1])[ms[|ms| - 1].id := ms[|ms| - 1]]
  }

  /** Applied ids that are not in the registry. */
  function Unknown(ms: seq<Migration>, applied: map<string, Record>): set<string> {
    applied.Keys - Required(ms).Keys
  }

  /** Unknown ids that use a number of the registry. */
  function ReusedNumbers(ms: seq<Migration>, applied: map<string, Record>): set<string> {
    set id | id in Unknown(ms, applied) && exists k :: k in Required(ms) && Number(k) == Number(id)
  }

  predicate Mismatched(m: Migration, r: Record) {
    r.checksum != Some(m.checksum) || (r.name.Some? && r.name.value != m.id)
  }

  /** Recorded under another checksum. */
  function ChecksumMismatches(ms: seq<Migration>, applied: map<string, Record>): set<string> {
    set id | id in Required(ms) && id in applied && applied[id].checksum != Some(Required(ms)[id].checksum)
  }

  function MismatchedIds(ms: seq<Migration>, applied: map<string, Record>): set<string> {
    set id | id in Required(ms) && id in applied && Mismatched(Required(ms)[id], applied[id])
  }

  predicate HasConflicts(ms: seq<Migration>, applied: map<string, Record>) {
    ReusedNumbers(ms, applied) != {} || MismatchedIds(ms, applied) != {}
  }

  /** Registry ids without a record, in registry order. */
  function Missing(ms: seq<Migration>, applied: map<string, Record>): seq<string> {
    if ms == [] then []
    else
      Missing(ms[..|ms| - 1], applied) + if ms[|ms| - 1].id in applied then [] else [ms[|ms| - 1].id]
  }

  /** A recorded migration and its dependencies that are not recorded. */
  datatype Gap = Gap(id: string, missing: set<string>)

  function Unmet(m: Migration, applied: map<string, Record>): set<string> {
    (set d | d in m.dependencies) - applied.Keys
  }

  /** Recorded migrations with a dependency that is not recorded, in registry order. */
  function Violators(ms: seq<Migration>, applied: map<string, Record>): seq<Gap> {
    if ms == [] then []
    else
      var m := ms[|ms| - 1];
      Violators(ms[..|ms| - 1], applied) +
      if m.id in applied && Unmet(m, applied) != {} then [Gap(m.id, Unmet(m, applied))] else []
  }

  /** The values that occur more than once. */
  function Duplicates(xs: seq<string>): set<string> {
    set i | 0 <= i < |xs| && xs[i] in xs[i + 1..] :: xs[i]
  }

  predicate HasDuplicate(xs: seq<string>) { exists i, j :: 0 <= i < j < |xs| && xs[i] == xs[j] }

  function Numbers(ms: seq<Migration>): (r: seq<string>)
    ensures |r| == |ms|
  {
    seq(|ms|, i requires 0 <= i < |ms| => Number(ms[i].id))
  }

  predicate TemplatePresent(pattern: string, s: State) {
    IndexTemplate("dataobs-" + Stem(pattern) + "-template") in s.resources
  }

  predicate IsPattern(m: Migration, x: string) { exists u :: u in m.streams && u.pattern == x }

  /** One table for indices and stream patterns: a pattern takes the place of an index of the same name. */
  function ResourceReadiness(m: Migration, s: State): map<string, bool> {
    (map x | x in m.mutableIndices :: x in s.indices) + (map u | u in m.streams :: u.pattern := TemplatePresent(u.pattern, s))
  }

  predicate ResourcesReady(m: Migration, s: State) {
    && (forall x :: x in m.mutableIndices && !IsPattern(m, x) ==> x in s.indices)
    && (forall u :: u in m.streams ==> TemplatePresent(u.pattern, s))
  }

  /** Nothing missing, unknown, conflicting, out of order or duplicated, and the resources of the
      terminal migration in place. */
  predicate Ready(ms: seq<Migration>, s: State) {
    && (forall m :: m in ms ==> m.id in s.records)
    && Unknown(ms, s.records) == {} && !HasConflicts(ms, s.records)
    && (forall m :: m in ms && m.id in s.records ==> AllIn(m.dependencies, s.records.Keys))
    && !HasDuplicate(Ids(ms)) && !HasDuplicate(Numbers(ms))
    && (ms != [] && ms[|ms| - 1].id in s.records ==> ResourcesReady(Required(ms)[ms[|ms| - 1].id], s))
  }

  // ----- Apply and rollback -----

  datatype Selection = Selected(migrations: seq<Migration>) | Rejected(error: Error)

  function IndexOf(ids: seq<string>, id: string): (i: nat)
    requires id in ids
    ensures i < |ids| && ids[i] == id
  {
    if ids[0] == id then 0 else 1 + IndexOf(ids[1..], id)
  }

  /** The whole registry, or its prefix up to an id, provided the prefix holds its own dependencies. */
  function Select(ms: seq<Migration>, through: Option<string>): Selection {
    match through
    case None => Selected(ms)
    case Some(id) =>
      if id !in Ids(ms) then Rejected(UnknownMigration)
      else
        var prefix := ms[..IndexOf(Ids(ms), id) + 1];
        if forall m :: m in prefix ==> AllIn(m.dependencies, set n | n in prefix :: n.id) then Selected(prefix)
        else Rejected(InvalidPrefix)
  }

  function Apply(c: Catalog, through: Option<string>, s: State, b: Budget): Run {
    if !s.ledger && Spent(b) then Run(Interrupted, s, b)
    else
      var s1 := s.(ledger := true);
      var b1 := if s.ledger then b else Spend(b);
      if HasConflicts(c.registry, s1.records) then Run(Failed(RegistryConflict), s1, b1)
      else
        match Select(c.registry, through)
        case Rejected(e) => Run(Failed(e), s1, b1)
        case Selected(ms) => RunMigrations(c, ms, s1.records, s1, b1)
  }

  function Rollback(id: string, s: State): State {
    if s.ledger then s.(records := s.records - {id}) else s
  }
}
