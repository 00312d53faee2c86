/** A schema difference read as a patch. */
module SchemaPatch {
  import opened Ordering
  import opened JsonText
  import opened Schema
  import opened SchemaProofs
  import opened SchemaDiff

  /** The attributes of a column that the difference tracks. */
  datatype Attributes = Attributes(kind: Json, nullable: Json, constraints: Json, partition: Json)

  function Tracked(c: Column): Attributes {
    Attributes(Get(c, "type"), Get(c, "nullable"), Get(c, "constraints"), Get(c, "partition"))
  }

  function TrackedAll(cs: Columns): map<string, Attributes> { map n | n in cs :: Tracked(cs[n]) }

  /** The tracked attributes of the named columns only. */
  function TrackedOn(names: seq<string>, cs: Columns): map<string, Attributes>
    requires forall n :: n in names ==> n in cs
  {
    map n | n in names :: Tracked(cs[n])
  }

  function Suffix(kind: Kind): string {
    match kind
    case ColumnAdded => ""
    case ColumnRemoved => ""
    case TypeChanged => ".type"
    case NullableChanged => ".nullable"
    case ConstraintChanged => ".constraints"
    case PartitionChanged => ".partition"
  }

  /** The column a change is about, read back from its path. */
  function Target(c: Change): string {
    if |c.path| < 8 + |Suffix(c.kind)| then "" else c.path[8..|c.path| - |Suffix(c.kind)|]
  }

  function Update(x: Attributes, c: Change): Attributes {
    match c.kind
    case TypeChanged => x.(kind := c.after)
    case NullableChanged => x.(nullable := c.after)
    case ConstraintChanged => x.(constraints := c.after)
    case PartitionChanged => x.(partition := c.after)
    case _ => x
  }

  function Apply(c: Change, t: map<string, Attributes>): map<string, Attributes> {
    match c.kind
    case ColumnAdded => if c.after.JObject? then t[Target(c) := Tracked(c.after.fields)] else t
    case ColumnRemoved => t - {Target(c)}
    case _ => if Target(c) in t then t[Target(c) := Update(t[Target(c)], c)] else t
  }

  function ApplyAll(cs: seq<Change>, t: map<string, Attributes>): map<string, Attributes> {
    if cs == [] then t else Apply(cs[|cs| - 1], ApplyAll(cs[..|cs| - 1], t))
  }

  lemma {:induction false} ApplyConcat(cs: seq<Change>, ds: seq<Change>, t: map<string, Attributes>)
    ensures ApplyAll(cs + ds, t) == ApplyAll(ds, ApplyAll(cs, t))
  {
    if ds == [] {
      assert cs + ds == cs;
    } else {
      ApplyConcat(cs, ds[..|ds| - 1], t);
      assert (cs + ds)[..|cs + ds| - 1] == cs + ds[..|ds| - 1];
    }
  }

  // ----- Each group of changes -----

  lemma AddedTarget(a: Columns, n: string)
    requires n in a
    ensures Target(AddedOne(a, n)) == n
  {}

  lemma RemovedTarget(b: Columns, n: string)
    requires n in b
    ensures Target(RemovedOne(b, n)) == n
  {}

  lemma {:induction false} ApplyAdded(names: seq<string>, a: Columns, t: map<string, Attributes>)
    requires forall n :: n in names ==> n in a
    ensures ApplyAll(AddedAll(names, a), t) == t + TrackedOn(names, a)
  {
    if names != [] {
      var init, last := names[..|names| - 1], names[|names| - 1];
      ApplyAdded(init, a, t);
      AddedTarget(a, last);
      TrackedOnMore(names, a, t);
      var cs := AddedAll(names, a);
      assert cs[..|cs| - 1] == AddedAll(init, a) && cs[|cs| - 1] == AddedOne(a, last);
    }
  }

  lemma {:induction false} ApplyRemoved(names: seq<string>, b: Columns, t: map<string, Attributes>)
    requires forall n :: n in names ==> n in b
    ensures ApplyAll(RemovedAll(names, b), t) == t - (set n | n in names)
  {
    if names != [] {
      var init, last := names[..|names| - 1], names[|names| - 1];
      ApplyRemoved(init, b, t);
      RemovedTarget(b, last);
      assert names == init + [last];
      var cs := RemovedAll(names, b);
      assert cs[..|cs| - 1] == RemovedAll(init, b) && cs[|cs| - 1] == RemovedOne(b, last);
    }
  }

  // ----- Changes to one column -----

  function UpdateAll(cs: seq<Change>, x: Attributes): Attributes {
    if cs == [] then x else Update(UpdateAll(cs[..|cs| - 1], x), cs[|cs| - 1])
  }

  ghost predicate AllAbout(cs: seq<Change>, n: string) {
    forall c :: c in cs ==> Target(c) == n && c.kind != ColumnAdded && c.kind != ColumnRemoved
  }

  /** Changes to the fields of one column act on the attributes of that column alone. */
  lemma {:induction false} ApplyAbout(cs: seq<Change>, n: string, t: map<string, Attributes>)
    requires AllAbout(cs, n) && n in t
    ensures ApplyAll(cs, t) == t[n := UpdateAll(cs, t[n])]
  {
    if cs != [] {
      ApplyAbout(cs[..|cs| - 1], n, t);
      assert cs[|cs| - 1] in cs;
    }
  }

  lemma {:induction false} UpdateConcat(cs: seq<Change>, ds: seq<Change>, x: Attributes)
    ensures UpdateAll(cs + ds, x) == UpdateAll(ds, UpdateAll(cs, x))
  {
    if ds == [] {
      assert cs + ds == cs;
    } else {
      UpdateConcat(cs, ds[..|ds| - 1], x);
      assert (cs + ds)[..|cs + ds| - 1] == cs + ds[..|ds| - 1];
    }
  }

  lemma FieldAbout(b: Column, a: Column, n: string, f: string, kind: Kind)
    requires Suffix(kind) == "." + f && kind != ColumnAdded && kind != ColumnRemoved
    ensures AllAbout(FieldChange(b, a, n, f, kind), n)
  {
    assert FieldPath(n, f)[8..8 + |n|] == n;
  }

  lemma UpdateField(b: Column, a: Column, n: string, f: string, kind: Kind, x: Attributes)
    ensures UpdateAll(FieldChange(b, a, n, f, kind), x) ==
            if Get(b, f) != Get(a, f) then Update(x, Change(kind, FieldPath(n, f), Get(b, f), Get(a, f))) else x
  {
    var cs := FieldChange(b, a, n, f, kind);
    if cs != [] { assert cs[..|cs| - 1] == []; }
  }

  /** The four field comparisons turn the tracked attributes of one column into those of the other. */
  lemma UpdateOne(b: Columns, a: Columns, n: string)
    requires n in a && n in b
    ensures UpdateAll(ChangedOne(b, a, n), Tracked(b[n])) == Tracked(a[n])
  {
    var c1 := FieldChange(b[n], a[n], n, "type", TypeChanged);
    var c2 := FieldChange(b[n], a[n], n, "nullable", NullableChanged);
    var c3 := FieldChange(b[n], a[n], n, "constraints", ConstraintChanged);
    var c4 := FieldChange(b[n], a[n], n, "partition", PartitionChanged);
    var x, y := Tracked(b[n]), Tracked(a[n]);
    UpdateConcat(c1, c2, x);
    UpdateConcat(c1 + c2, c3, x);
    UpdateConcat(c1 + c2 + c3, c4, x);
    UpdateField(b[n], a[n], n, "type", TypeChanged, x);
    UpdateField(b[n], a[n], n, "nullable", NullableChanged, x.(kind := y.kind));
    UpdateField(b[n], a[n], n, "constraints", ConstraintChanged, x.(kind := y.kind, nullable := y.nullable));
    UpdateField(b[n], a[n], n, "partition", PartitionChanged, y.(partition := x.partition));
  }

  lemma ApplyChangedOne(b: Columns, a: Columns, n: string, t: map<string, Attributes>)
    requires n in a && n in b && n in t && t[n] == Tracked(b[n])
    ensures ApplyAll(ChangedOne(b, a, n), t) == t[n := Tracked(a[n])]
  {
    FieldAbout(b[n], a[n], n, "type", TypeChanged);
    FieldAbout(b[n], a[n], n, "nullable", NullableChanged);
    FieldAbout(b[n], a[n], n, "constraints", ConstraintChanged);
    FieldAbout(b[n], a[n], n, "partition", PartitionChanged);
    ApplyAbout(ChangedOne(b, a, n), n, t);
    UpdateOne(b, a, n);
  }

  lemma TrackedOnMore(names: seq<string>, a: Columns, t: map<string, Attributes>)
    requires names != [] && forall n :: n in names ==> n in a
    ensures var init, last := names[..|names| - 1], names[|names| - 1];
            (forall n :: n in init ==> n in a) && (t + TrackedOn(init, a))[last := Tracked(a[last])] == t + TrackedOn(names, a)
  {
    assert names == names[..|names| - 1] + [names[|names| - 1]];
  }

  lemma {:induction false} ApplyChanged(names: seq<string>, b: Columns, a: Columns, t: map<string, Attributes>)
    requires Distinct(names) && forall n :: n in names ==> n in a && n in b && n in t && t[n] == Tracked(b[n])
    ensures ApplyAll(ChangedAll(names, b, a), t) == t + TrackedOn(names, a)
  {
    if names != [] {
      var init, last := names[..|names| - 1], names[|names| - 1];
      ApplyChanged(init, b, a, t);
      TrackedOnMore(names, a, t);
      assert last !in init;
      ApplyChangedOne(b, a, last, t + TrackedOn(init, a));
      ApplyConcat(ChangedAll(init, b, a), ChangedOne(b, a, last), t);
    }
  }

  // ----- The whole difference -----

  ghost predicate Lists(names: seq<string>, s: set<string>) { forall n :: n in names <==> n in s }

  lemma Reassembled(b: Columns, a: Columns, added: seq<string>, removed: seq<string>, common: seq<string>)
    requires Lists(added, a.Keys - b.Keys) && Lists(removed, b.Keys - a.Keys) && Lists(common, a.Keys * b.Keys)
    ensures TrackedAll(b) + TrackedOn(added, a) - (set n | n in removed) + TrackedOn(common, a) == TrackedAll(a)
  {}

  lemma UntouchedCommon(b: Columns, a: Columns, added: seq<string>, removed: seq<string>, n: string)
    requires Lists(added, a.Keys - b.Keys) && Lists(removed, b.Keys - a.Keys) && n in a.Keys * b.Keys
    ensures var t := TrackedAll(b) + TrackedOn(added, a) - (set n | n in removed); n in t && t[n] == Tracked(b[n])
  {}

  /** Applying the difference to the tracked attributes of `b` gives those of `a`. */
  lemma DiffIsPatch(b: Columns, a: Columns)
    ensures ApplyAll(Diff(b, a), TrackedAll(b)) == TrackedAll(a)
  {
    var added, removed, common :=
      SortedNames(a.Keys - b.Keys), SortedNames(b.Keys - a.Keys), SortedNames(a.Keys * b.Keys);
    SortedNamesExact(a.Keys - b.Keys);
    SortedNamesExact(b.Keys - a.Keys);
    SortedNamesExact(a.Keys * b.Keys);
    GroupsPatch(b, a, added, removed, common);
  }

  lemma GroupsPatch(b: Columns, a: Columns, added: seq<string>, removed: seq<string>, common: seq<string>)
    requires Lists(added, a.Keys - b.Keys) && Lists(removed, b.Keys - a.Keys) && Lists(common, a.Keys * b.Keys)
    requires Distinct(common)
    ensures ApplyAll(AddedAll(added, a) + RemovedAll(removed, b) + ChangedAll(common, b, a), TrackedAll(b)) == TrackedAll(a)
  {
    var t := TrackedAll(b);
    ApplyAdded(added, a, t);
    ApplyRemoved(removed, b, t + TrackedOn(added, a));
    forall n | n in common
      ensures n in t + TrackedOn(added, a) - (set m | m in removed) &&
              (t + TrackedOn(added, a) - (set m | m in removed))[n] == Tracked(b[n])
    {
      UntouchedCommon(b, a, added, removed, n);
    }
    ApplyChanged(common, b, a, t + TrackedOn(added, a) - (set m | m in removed));
    ApplyConcat(AddedAll(added, a), RemovedAll(removed, b), t);
    ApplyConcat(AddedAll(added, a) + RemovedAll(removed, b), ChangedAll(common, b, a), t);
    Reassembled(b, a, added, removed, common);
  }

  lemma {:induction false} NothingChanged(names: seq<string>, b: Columns, a: Columns)
    requires forall n :: n in names ==> n in a && n in b && Tracked(b[n]) == Tracked(a[n])
    ensures ChangedAll(names, b, a) == []
  {
    if names != [] {
      NothingChanged(names[..|names| - 1], b, a);
      var n := names[|names| - 1];
      assert Tracked(b[n]) == Tracked(a[n]);
    }
  }

  lemma TrackedAgree(b: Columns, a: Columns)
    requires TrackedAll(b) == TrackedAll(a)
    ensures b.Keys == a.Keys && forall n :: n in a ==> Tracked(b[n]) == Tracked(a[n])
  {
    assert b.Keys == TrackedAll(b).Keys && a.Keys == TrackedAll(a).Keys;
    forall n | n in a ensures Tracked(b[n]) == Tracked(a[n]) {
      assert TrackedAll(b)[n] == TrackedAll(a)[n];
    }
  }

  lemma AgreeingDoNotDiffer(b: Columns, a: Columns)
    requires b.Keys == a.Keys && forall n :: n in a ==> Tracked(b[n]) == Tracked(a[n])
    ensures Diff(b, a) == []
  {
    assert a.Keys - b.Keys == {} && b.Keys - a.Keys == {};
    assert SortedNames({}) == [];
    SortedNamesExact(a.Keys * b.Keys);
    NothingChanged(SortedNames(a.Keys * b.Keys), b, a);
  }

  /** The difference is empty exactly when the tracked attributes agree. */
  lemma DiffEmptyIff(b: Columns, a: Columns)
    ensures Diff(b, a) == [] <==> TrackedAll(b) == TrackedAll(a)
  {
    if TrackedAll(b) == TrackedAll(a) {
      TrackedAgree(b, a);
      AgreeingDoNotDiffer(b, a);
    } else {
      DiffIsPatch(b, a);
    }
  }

  // ----- Swapping the arguments -----

  function Mirror(c: Change): Change {
    var kind := match c.kind case ColumnAdded => ColumnRemoved case ColumnRemoved => ColumnAdded case k => k;
    Change(kind, c.path, c.after, c.before)
  }

  function MirrorAll(cs: seq<Change>): (r: seq<Change>)
    ensures |r| == |cs| && forall i :: 0 <= i < |cs| ==> r[i] == Mirror(cs[i])
  {
    seq(|cs|, i requires 0 <= i < |cs| => Mirror(cs[i]))
  }

  lemma {:induction false} MirrorAdded(names: seq<string>, a: Columns)
    requires forall n :: n in names ==> n in a
    ensures MirrorAll(AddedAll(names, a)) == RemovedAll(names, a)
    ensures MirrorAll(RemovedAll(names, a)) == AddedAll(names, a)
  {
    if names != [] {
      var init, last := names[..|names| - 1], names[|names| - 1];
      MirrorAdded(init, a);
      MirrorConcat(AddedAll(init, a), [AddedOne(a, last)]);
      MirrorConcat(RemovedAll(init, a), [RemovedOne(a, last)]);
      MirrorSingle(AddedOne(a, last));
      MirrorSingle(RemovedOne(a, last));
    }
  }

  lemma {:induction false} MirrorChanged(names: seq<string>, b: Columns, a: Columns)
    requires forall n :: n in names ==> n in a && n in b
    ensures MirrorAll(ChangedAll(names, b, a)) == ChangedAll(names, a, b)
  {
    if names != [] {
      var init, last := names[..|names| - 1], names[|names| - 1];
      MirrorChanged(init, b, a);
      MirrorOne(b, a, last);
      MirrorConcat(ChangedAll(init, b, a), ChangedOne(b, a, last));
    }
  }

  lemma MirrorSingle(c: Change)
    ensures MirrorAll([c]) == [Mirror(c)]
  {}

  lemma MirrorField(b: Column, a: Column, n: string, f: string, kind: Kind)
    requires kind != ColumnAdded && kind != ColumnRemoved
    ensures MirrorAll(FieldChange(b, a, n, f, kind)) == FieldChange(a, b, n, f, kind)
  {}

  lemma MirrorConcat(cs: seq<Change>, ds: seq<Change>)
    ensures MirrorAll(cs + ds) == MirrorAll(cs) + MirrorAll(ds)
  {}

  lemma MirrorOne(b: Columns, a: Columns, n: string)
    requires n in a && n in b
    ensures MirrorAll(ChangedOne(b, a, n)) == ChangedOne(a, b, n)
  {
    var c1 := FieldChange(b[n], a[n], n, "type", TypeChanged);
    var c2 := FieldChange(b[n], a[n], n, "nullable", NullableChanged);
    var c3 := FieldChange(b[n], a[n], n, "constraints", ConstraintChanged);
    var c4 := FieldChange(b[n], a[n], n, "partition", PartitionChanged);
    MirrorConcat(c1, c2);
    MirrorConcat(c1 + c2, c3);
    MirrorConcat(c1 + c2 + c3, c4);
    MirrorField(b[n], a[n], n, "type", TypeChanged);
    MirrorField(b[n], a[n], n, "nullable", NullableChanged);
    MirrorField(b[n], a[n], n, "constraints", ConstraintChanged);
    MirrorField(b[n], a[n], n, "partition", PartitionChanged);
  }

  /** Swapping the schemas swaps additions with removals and turns every change around. */
  lemma DiffSwapped(b: Columns, a: Columns) returns (added: seq<Change>, removed: seq<Change>, changed: seq<Change>)
    ensures Diff(b, a) == added + removed + changed
    ensures Diff(a, b) == MirrorAll(removed) + MirrorAll(added) + MirrorAll(changed)
    ensures forall c :: c in added ==> c.kind == ColumnAdded
    ensures forall c :: c in removed ==> c.kind == ColumnRemoved
  {
    SortedNamesExact(a.Keys - b.Keys);
    SortedNamesExact(b.Keys - a.Keys);
    SortedNamesExact(a.Keys * b.Keys);
    assert a.Keys * b.Keys == b.Keys * a.Keys;
    added := AddedAll(SortedNames(a.Keys - b.Keys), a);
    removed := RemovedAll(SortedNames(b.Keys - a.Keys), b);
    changed := ChangedAll(SortedNames(a.Keys * b.Keys), b, a);
    MirrorAdded(SortedNames(a.Keys - b.Keys), a);
    MirrorAdded(SortedNames(b.Keys - a.Keys), b);
    MirrorChanged(SortedNames(a.Keys * b.Keys), b, a);
    AddedKinds(SortedNames(a.Keys - b.Keys), a);
    AddedKinds(SortedNames(b.Keys - a.Keys), b);
  }

  lemma {:induction false} AddedKinds(names: seq<string>, a: Columns)
    requires forall n :: n in names ==> n in a
    ensures forall c :: c in AddedAll(names, a) ==> c.kind == ColumnAdded
    ensures forall c :: c in RemovedAll(names, a) ==> c.kind == ColumnRemoved
  {
    if names != [] { AddedKinds(names[..|names| - 1], a); }
  }

  // ----- Schemas -----

  /** Reordering lists, changing case or adding blanks is no difference. */
  lemma SameSchemasDoNotDiffer(before: map<string, Json>, after: map<string, Json>)
    requires Same(JObject(before), JObject(after))
    requires ColumnsOf(before).Ok?
    ensures ColumnsOf(after) == ColumnsOf(before)
    ensures Diff(ColumnsOf(before).value, ColumnsOf(after).value) == []
  {
    SameNorm(JObject(before), JObject(after));
    DiffEmptyIff(ColumnsOf(before).value, ColumnsOf(after).value);
  }

  // ----- Which columns are compared -----

  /** `items[j]` is the last of the name `n`. */
  ghost predicate LastNamed(items: seq<Json>, j: nat, n: string)
    requires AllNamed(items)
  {
    j < |items| && NameOf(items[j]) == n && forall k :: j < k < |items| ==> NameOf(items[k]) != n
  }

  lemma {:induction false} ByNameLast(items: seq<Json>, i: nat)
    requires AllNamed(items) && i < |items| && LastNamed(items, i, NameOf(items[i]))
    ensures NameOf(items[i]) in ByName(items) && ByName(items)[NameOf(items[i])] == items[i].fields
  {
    if i < |items| - 1 {
      ByNameLast(items[..|items| - 1], i);
    }
  }

  lemma {:induction false} FindLast(items: seq<Json>, i: nat) returns (j: nat)
    requires AllNamed(items) && i < |items|
    ensures i <= j && LastNamed(items, j, NameOf(items[i]))
  {
    var n := |items| - 1;
    if NameOf(items[n]) == NameOf(items[i]) { j := n; } else { j := FindLast(items[..n], i); }
  }

  /** A column of a list is kept under its name if and only if the last one of that name equals it. */
  lemma KeptIffLast(items: seq<Json>, i: nat)
    requires AllNamed(items) && i < |items|
    ensures NameOf(items[i]) in ByName(items)
    ensures ByName(items)[NameOf(items[i])] == items[i].fields <==>
            exists j: nat :: LastNamed(items, j, NameOf(items[i])) && items[j] == items[i]
  {
    var j := FindLast(items, i);
    ByNameLast(items, j);
  }

  /** Column `i` of a schema is the one that the difference compares under its canonical name. */
  ghost predicate Compared(schema: map<string, Json>, items: seq<Json>, i: nat) {
    && ColumnsOf(schema).Ok? && i < |items| && HasName(Norm(items[i]))
    && NameOf(Norm(items[i])) in ColumnsOf(schema).value
    && ColumnsOf(schema).value[NameOf(Norm(items[i]))] == Norm(items[i]).fields
  }

  /** Among the columns of one canonical name, none has a greater text than column `i`. */
  ghost predicate Greatest(items: seq<Json>, i: nat)
    requires i < |items| && forall k :: 0 <= k < |items| ==> HasName(Norm(items[k]))
  {
    forall k :: 0 <= k < |items| && NameOf(Norm(items[k])) == NameOf(Norm(items[i])) ==> DumpLeq(Norm(items[k]), Norm(items[i]))
  }

  /** The canonical columns of a schema: normal forms in order of their texts. */
  lemma CanonicalColumns(schema: map<string, Json>, items: seq<Json>)
    requires "columns" in schema && schema["columns"] == JList(items)
    ensures var cols := Sort(NormAll(items), DumpLeq);
            && ColumnsOf(schema) == (if AllNamed(cols) then Ok(ByName(cols)) else Malformed)
            && Sorted(cols, DumpLeq) && forall c :: c in cols <==> c in NormAll(items)
  {
    var cols := Sort(NormAll(items), DumpLeq);
    NormList(items);
    assert Norm(JObject(schema)).fields["columns"] == Norm(JList(items));
    DumpOrder();
    SortCorrect(NormAll(items), DumpLeq);
    MembersOfPermutation(NormAll(items), cols);
  }

  lemma SortedUpTo(cols: seq<Json>, p: nat, j: nat)
    requires Sorted(cols, DumpLeq) && p <= j < |cols|
    ensures DumpLeq(cols[p], cols[j])
  {
    StrLeqTotal(Dump(cols[p]), Dump(cols[p]));
  }

  lemma UpToLast(cols: seq<Json>, j: nat, c: Json)
    requires AllNamed(cols) && Sorted(cols, DumpLeq) && c in cols && HasName(c) && LastNamed(cols, j, NameOf(c))
    ensures DumpLeq(c, cols[j])
  {
    var p :| 0 <= p < |cols| && cols[p] == c;
    SortedUpTo(cols, p, j);
  }

  lemma GreatestIsLast(items: seq<Json>, cols: seq<Json>, i: nat, j: nat)
    requires i < |items| && (forall k :: 0 <= k < |items| ==> HasName(Norm(items[k])))
    requires AllNamed(cols) && Sorted(cols, DumpLeq) && forall c :: c in cols <==> c in NormAll(items)
    requires LastNamed(cols, j, NameOf(Norm(items[i])))
    ensures cols[j] == Norm(items[i]) <==> Greatest(items, i)
  {
    if Greatest(items, i) {
      assert NormAll(items)[i] in cols;
      UpToLast(cols, j, Norm(items[i]));
      assert cols[j] in NormAll(items);
      var k :| 0 <= k < |items| && NormAll(items)[k] == cols[j];
      StrLeqTotal(Dump(Norm(items[i])), Dump(cols[j]));
      DumpInjective(Norm(items[i]), cols[j]);
    }
    if cols[j] == Norm(items[i]) {
      forall k | 0 <= k < |items| && NameOf(Norm(items[k])) == NameOf(Norm(items[i]))
        ensures DumpLeq(Norm(items[k]), Norm(items[i]))
      {
        assert NormAll(items)[k] in cols;
        UpToLast(cols, j, Norm(items[k]));
      }
    }
  }

  lemma AllHaveNames(items: seq<Json>, cols: seq<Json>)
    requires AllNamed(cols) && forall c :: c in cols <==> c in NormAll(items)
    ensures forall k :: 0 <= k < |items| ==> HasName(Norm(items[k]))
  {
    forall k | 0 <= k < |items| ensures HasName(Norm(items[k])) {
      assert NormAll(items)[k] in cols;
      var p :| 0 <= p < |cols| && cols[p] == Norm(items[k]);
    }
  }

  /** A column of a schema is compared if and only if no other column of the same canonical name has a
      greater canonical text. */
  lemma ComparedIffGreatest(schema: map<string, Json>, items: seq<Json>, i: nat)
    requires "columns" in schema && schema["columns"] == JList(items) && ColumnsOf(schema).Ok? && i < |items|
    ensures forall k :: 0 <= k < |items| ==> HasName(Norm(items[k]))
    ensures Compared(schema, items, i) <==> Greatest(items, i)
  {
    var cols := Sort(NormAll(items), DumpLeq);
    CanonicalColumns(schema, items);
    AllHaveNames(items, cols);
    assert NormAll(items)[i] in cols;
    var p :| 0 <= p < |cols| && cols[p] == Norm(items[i]);
    var j := FindLast(cols, p);
    ByNameLast(cols, j);
    GreatestIsLast(items, cols, i, j);
  }

  /** Columns of one canonical name have one canonical form. */
  ghost predicate NamesTellApart(items: seq<Json>)
    requires forall k :: 0 <= k < |items| ==> HasName(Norm(items[k]))
  {
    forall i, k :: 0 <= i < |items| && 0 <= k < |items| && NameOf(Norm(items[i])) == NameOf(Norm(items[k])) ==>
      Norm(items[i]) == Norm(items[k])
  }

  /** Every column of a schema is compared if and only if columns that differ have different canonical
      names. */
  lemma EveryColumnComparedIff(schema: map<string, Json>, items: seq<Json>)
    requires "columns" in schema && schema["columns"] == JList(items) && ColumnsOf(schema).Ok?
    ensures forall k :: 0 <= k < |items| ==> HasName(Norm(items[k]))
    ensures (forall i :: 0 <= i < |items| ==> Compared(schema, items, i)) <==> NamesTellApart(items)
  {
    CanonicalColumns(schema, items);
    AllHaveNames(items, Sort(NormAll(items), DumpLeq));
    forall i | 0 <= i < |items| ensures Compared(schema, items, i) <==> Greatest(items, i) {
      ComparedIffGreatest(schema, items, i);
    }
    if NamesTellApart(items) { DistinctAreGreatest(items); }
    if forall i :: 0 <= i < |items| ==> Compared(schema, items, i) { GreatestAreOne(items); }
  }

  lemma DistinctAreGreatest(items: seq<Json>)
    requires (forall k :: 0 <= k < |items| ==> HasName(Norm(items[k]))) && NamesTellApart(items)
    ensures forall i :: 0 <= i < |items| ==> Greatest(items, i)
  {
    forall i, k | 0 <= i < |items| && 0 <= k < |items| && NameOf(Norm(items[k])) == NameOf(Norm(items[i]))
      ensures DumpLeq(Norm(items[k]), Norm(items[i]))
    {
      StrLeqTotal(Dump(Norm(items[i])), Dump(Norm(items[i])));
    }
  }

  lemma GreatestAreOne(items: seq<Json>)
    requires (forall k :: 0 <= k < |items| ==> HasName(Norm(items[k])))
    requires forall i :: 0 <= i < |items| ==> Greatest(items, i)
    ensures NamesTellApart(items)
  {
    forall i, k | 0 <= i < |items| && 0 <= k < |items| && NameOf(Norm(items[i])) == NameOf(Norm(items[k]))
      ensures Norm(items[i]) == Norm(items[k])
    {
      assert Greatest(items, i) && Greatest(items, k);
      StrLeqTotal(Dump(Norm(items[i])), Dump(Norm(items[k])));
      DumpInjective(Norm(items[i]), Norm(items[k]));
    }
  }

  /** Columns can be read unless they are neither a list of named columns nor empty. */
  lemma ColumnsReadable(schema: map<string, Json>)
    ensures "columns" !in schema ==> ColumnsOf(schema) == Ok(map[])
    ensures "columns" in schema ==>
              (ColumnsOf(schema).Ok? <==>
                 match schema["columns"]
                 case JList(items) => forall k :: 0 <= k < |items| ==> HasName(Norm(items[k]))
                 case JObject(fields) => fields == map[]
                 case JString(s) => Fold(s) == ""
                 case _ => false)
  {
    assert Norm(JObject(schema)).fields.Keys == schema.Keys;
    if "columns" in schema {
      assert Norm(JObject(schema)).fields["columns"] == Norm(schema["columns"]);
      match schema["columns"]
      case JList(items) => ListReadable(schema, items);
      case JObject(fields) => assert Norm(JObject(fields)).fields.Keys == fields.Keys;
      case _ =>
    }
  }

  lemma ListReadable(schema: map<string, Json>, items: seq<Json>)
    requires "columns" in schema && schema["columns"] == JList(items)
    ensures ColumnsOf(schema).Ok? <==> forall k :: 0 <= k < |items| ==> HasName(Norm(items[k]))
  {
    var cols := Sort(NormAll(items), DumpLeq);
    CanonicalColumns(schema, items);
    if AllNamed(cols) { AllHaveNames(items, cols); }
    if forall k :: 0 <= k < |items| ==> HasName(Norm(items[k])) {
      forall k | 0 <= k < |cols| ensures HasName(cols[k]) { assert cols[k] in NormAll(items); }
    }
  }

  function NamedColumn(name: string, kind: string): Json {
    JObject(map["name" := JString(name), "type" := JString(kind)])
  }

  lemma NamedColumnNorm(name: string, kind: string)
    ensures Norm(NamedColumn(name, kind)) == NamedColumn(Fold(name), Fold(kind))
    ensures HasName(NamedColumn(name, kind)) && NameOf(NamedColumn(name, kind)) == name
  {
    assert Norm(NamedColumn(name, kind)).fields == NamedColumn(Fold(name), Fold(kind)).fields;
  }

  lemma FoldedWords()
    ensures Fold("ID") == "id" && Fold("id") == "id" && Fold("int") == "int" && Fold("text") == "text"
  {
    assert Lower("ID") == "id" && Lower("id") == "id" && Lower("int") == "int" && Lower("text") == "text";
  }

  /** Two columns whose names differ in case only: one of them is not compared. */
  lemma DuplicateHidden() returns (schema: map<string, Json>, items: seq<Json>, i: nat)
    ensures items == [NamedColumn("id", "int"), NamedColumn("ID", "text")]
    ensures schema == map["columns" := JList(items)] && ColumnsOf(schema).Ok?
    ensures i < |items| && !Compared(schema, items, i)
  {
    items := [NamedColumn("id", "int"), NamedColumn("ID", "text")];
    schema := map["columns" := JList(items)];
    NamedColumnNorm("id", "int");
    NamedColumnNorm("ID", "text");
    FoldedWords();
    TwoColumns(schema, items);
    EveryColumnComparedIff(schema, items);
    assert Norm(items[0]).fields["type"] != Norm(items[1]).fields["type"];
    assert !NamesTellApart(items);
    i :| 0 <= i < |items| && !Compared(schema, items, i);
  }

  lemma TwoColumns(schema: map<string, Json>, items: seq<Json>)
    requires schema == map["columns" := JList(items)] && |items| == 2
    requires HasName(Norm(items[0])) && HasName(Norm(items[1]))
    ensures ColumnsOf(schema).Ok?
  {
    var cols := Sort(NormAll(items), DumpLeq);
    CanonicalColumns(schema, items);
    forall k | 0 <= k < |cols| ensures HasName(cols[k]) { assert cols[k] in NormAll(items); }
  }
}
