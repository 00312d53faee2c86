/** The difference of two schemas (packages/agent_sdk/models.py), and the difference as a patch. */
module SchemaDiff {
  import opened Ordering
  import opened JsonText
  import opened Schema

  datatype Kind = ColumnAdded | ColumnRemoved | TypeChanged | NullableChanged | ConstraintChanged | PartitionChanged

  /** An absent value and a null are the same, as they are for the program's `get`. */
  datatype Change = Change(kind: Kind, path: string, before: Json, after: Json)

  type Column = map<string, Json>

  type Columns = map<string, Column>

  datatype Outcome<T> = Ok(value: T) | Malformed

  // ----- Reading the columns -----

  function Get(c: Column, f: string): Json { if f in c then c[f] else JNull }

  predicate HasName(j: Json) { j.JObject? && "name" in j.fields && j.fields["name"].JString? }

  function NameOf(j: Json): string
    requires HasName(j)
  {
    j.fields["name"].s
  }

  predicate AllNamed(items: seq<Json>) { forall i :: 0 <= i < |items| ==> HasName(items[i]) }

  /** A later column with the same name replaces an earlier one. */
  function ByName(items: seq<Json>): Columns
    requires AllNamed(items)
  {
    if items == [] then map[]
    else ByName(items[..|items| - 1])[NameOf(items[|items| - 1]) := items[|items| - 1].fields]
  }

  /** What iterating over the entry "columns" of a schema gives. */
  function Listed(j: Json): Outcome<seq<Json>> {
    match j
    case JList(items) => Ok(items)
    case JObject(fields) => if fields == map[] then Ok([]) else Malformed
    case JString(s) => if s == "" then Ok([]) else Malformed
    case _ => Malformed
  }

  function ColumnsOf(schema: map<string, Json>): Outcome<Columns> {
    var canonical := Norm(JObject(schema)).fields;
    var listed := if "columns" in canonical then Listed(canonical["columns"]) else Ok([]);
    if listed.Malformed? || !AllNamed(listed.value) then Malformed else Ok(ByName(listed.value))
  }

  // ----- The difference -----

  function ColumnPath(name: string): string { "columns." + name }

  function FieldPath(name: string, f: string): string { "columns." + name + "." + f }

  function AddedOne(a: Columns, n: string): Change
    requires n in a
  {
    Change(ColumnAdded, ColumnPath(n), JNull, JObject(a[n]))
  }

  function RemovedOne(b: Columns, n: string): Change
    requires n in b
  {
    Change(ColumnRemoved, ColumnPath(n), JObject(b[n]), JNull)
  }

  function FieldChange(b: Column, a: Column, n: string, f: string, kind: Kind): seq<Change> {
    if Get(b, f) != Get(a, f) then [Change(kind, FieldPath(n, f), Get(b, f), Get(a, f))] else []
  }

  function ChangedOne(b: Columns, a: Columns, n: string): seq<Change>
    requires n in a && n in b
  {
    FieldChange(b[n], a[n], n, "type", TypeChanged) +
    FieldChange(b[n], a[n], n, "nullable", NullableChanged) +
    FieldChange(b[n], a[n], n, "constraints", ConstraintChanged) +
    FieldChange(b[n], a[n], n, "partition", PartitionChanged)
  }

  function AddedAll(names: seq<string>, a: Columns): seq<Change>
    requires forall n :: n in names ==> n in a
  {
    if names == [] then [] else AddedAll(names[..|names| - 1], a) + [AddedOne(a, names[|names| - 1])]
  }

  function RemovedAll(names: seq<string>, b: Columns): seq<Change>
    requires forall n :: n in names ==> n in b
  {
    if names == [] then [] else RemovedAll(names[..|names| - 1], b) + [RemovedOne(b, names[|names| - 1])]
  }

  function ChangedAll(names: seq<string>, b: Columns, a: Columns): seq<Change>
    requires forall n :: n in names ==> n in a && n in b
  {
    if names == [] then [] else ChangedAll(names[..|names| - 1], b, a) + ChangedOne(b, a, names[|names| - 1])
  }

  /** The whole difference: added, removed and changed columns, each group in order of name. */
  function Diff(b: Columns, a: Columns): seq<Change> {
    SortedNamesExact(a.Keys - b.Keys);
    SortedNamesExact(b.Keys - a.Keys);
    SortedNamesExact(a.Keys * b.Keys);
    AddedAll(SortedNames(a.Keys - b.Keys), a) + RemovedAll(SortedNames(b.Keys - a.Keys), b) +
    ChangedAll(SortedNames(a.Keys * b.Keys), b, a)
  }

  /** `sorted` applied to a set of names. */
  method SortNames(s: set<string>) returns (r: seq<string>)
    ensures r == SortedNames(s)
  {
    var left, names := s, [];
    while left != {}
      invariant left <= s && multiset(names) + multiset(left) == multiset(s)
    {
      var x :| x in left;
      left, names := left - {x}, names + [x];
    }
    r := Sort(names, StrLeq);
    StrOrder();
    SortCorrect(names, StrLeq);
    SortedNamesExact(s);
    SortedUnique(r, SortedNames(s), StrLeq);
  }

  method ListAdded(names: seq<string>, a: Columns) returns (changes: seq<Change>)
    requires forall n :: n in names ==> n in a
    ensures changes == AddedAll(names, a)
  {
    changes := [];
    for i := 0 to |names|
      invariant changes == AddedAll(names[..i], a)
    {
      assert names[..i + 1][..i] == names[..i];
      changes := changes + [AddedOne(a, names[i])];
    }
    assert names[..|names|] == names;
  }

  method ListRemoved(names: seq<string>, b: Columns) returns (changes: seq<Change>)
    requires forall n :: n in names ==> n in b
    ensures changes == RemovedAll(names, b)
  {
    changes := [];
    for i := 0 to |names|
      invariant changes == RemovedAll(names[..i], b)
    {
      assert names[..i + 1][..i] == names[..i];
      changes := changes + [RemovedOne(b, names[i])];
    }
    assert names[..|names|] == names;
  }

  method ListChanged(names: seq<string>, b: Columns, a: Columns) returns (changes: seq<Change>)
    requires forall n :: n in names ==> n in a && n in b
    ensures changes == ChangedAll(names, b, a)
  {
    changes := [];
    for i := 0 to |names|
      invariant changes == ChangedAll(names[..i], b, a)
    {
      assert names[..i + 1][..i] == names[..i];
      changes := changes + ChangedOne(b, a, names[i]);
    }
    assert names[..|names|] == names;
  }

  method DiffColumns(b: Columns, a: Columns) returns (changes: seq<Change>)
    ensures changes == Diff(b, a)
  {
    SortedNamesExact(a.Keys - b.Keys);
    SortedNamesExact(b.Keys - a.Keys);
    SortedNamesExact(a.Keys * b.Keys);
    var names := SortNames(a.Keys - b.Keys);
    var added := ListAdded(names, a);
    names := SortNames(b.Keys - a.Keys);
    var removed := ListRemoved(names, b);
    names := SortNames(a.Keys * b.Keys);
    var changed := ListChanged(names, b, a);
    changes := added + removed + changed;
  }

  method DiffSchemas(before: map<string, Json>, after: map<string, Json>)
    returns (r: Outcome<seq<Change>>)
    ensures r.Malformed? <==> ColumnsOf(before).Malformed? || ColumnsOf(after).Malformed?
    ensures r.Ok? ==> r.value == Diff(ColumnsOf(before).value, ColumnsOf(after).value)
  {
    var b, a := ColumnsOf(before), ColumnsOf(after);
    if b.Malformed? || a.Malformed? {
      return Malformed;
    }
    var changes := DiffColumns(b.value, a.value);
    return Ok(changes);
  }
}
