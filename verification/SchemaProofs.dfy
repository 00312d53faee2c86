/** The normal form is idempotent and decides equality up to list order, case and blanks. */
module SchemaProofs {
  import opened Ordering
  import opened JsonText
  import opened Schema

  // ----- Strings -----

  ghost predicate IsLower(s: string) { forall c :: c in s ==> LowerChar(c) == c }

  lemma {:induction false} StripLeftKeeps(s: string)
    requires IsLower(s)
    ensures IsLower(StripLeft(s)) && (StripLeft(s) == [] || !Blank(StripLeft(s)[0]))
  {
    if s != [] && Blank(s[0]) { StripLeftKeeps(s[1..]); }
  }

  lemma {:induction false} StripRightKeeps(s: string)
    requires IsLower(s)
    ensures IsLower(StripRight(s)) && StripRight(s) <= s
    ensures StripRight(s) == [] || !Blank(StripRight(s)[|StripRight(s)| - 1])
  {
    if s != [] && Blank(s[|s| - 1]) { StripRightKeeps(s[..|s| - 1]); }
  }

  /** Folding twice is folding once. */
  lemma FoldIdempotent(s: string)
    ensures Fold(Fold(s)) == Fold(s)
  {
    var l := StripLeft(Lower(s));
    assert IsLower(Lower(s));
    StripLeftKeeps(Lower(s));
    StripRightKeeps(l);
    assert Lower(Fold(s)) == Fold(s) by {
      forall i | 0 <= i < |Fold(s)| ensures LowerChar(Fold(s)[i]) == Fold(s)[i] { assert Fold(s)[i] in Fold(s); }
    }
    assert Fold(s) != [] ==> Fold(s)[0] == l[0];
  }

  /** The ASCII characters that stripping removes. */
  ghost predicate Whitespace(c: char) { 9 <= c as int <= 13 || 28 <= c as int <= 32 }

  lemma LowerExact(s: string, i: nat)
    requires i < |s|
    ensures |Lower(s)| == |s|
    ensures Lower(s)[i] as int == s[i] as int + if 65 <= s[i] as int <= 90 then 32 else 0
  {}

  lemma {:induction false} StripLeftExact(s: string) returns (left: string)
    ensures s == left + StripLeft(s) && (forall c :: c in left ==> Whitespace(c))
    ensures StripLeft(s) == "" || !Whitespace(StripLeft(s)[0])
  {
    if s != [] && Blank(s[0]) {
      var rest := StripLeftExact(s[1..]);
      left := [s[0]] + rest;
      assert s == [s[0]] + s[1..];
    } else {
      left := "";
    }
  }

  lemma {:induction false} StripRightExact(s: string) returns (right: string)
    ensures s == StripRight(s) + right && (forall c :: c in right ==> Whitespace(c))
    ensures StripRight(s) == "" || !Whitespace(StripRight(s)[|StripRight(s)| - 1])
  {
    if s != [] && Blank(s[|s| - 1]) {
      var rest := StripRightExact(s[..|s| - 1]);
      right := rest + [s[|s| - 1]];
      assert s == s[..|s| - 1] + [s[|s| - 1]];
    } else {
      right := "";
    }
  }

  /** Folding takes away white space at both ends of the lower-case text, all of it and nothing else. */
  lemma FoldExact(s: string) returns (left: string, right: string)
    ensures Lower(s) == left + Fold(s) + right
    ensures forall c :: c in left + right ==> Whitespace(c)
    ensures Fold(s) == "" || (!Whitespace(Fold(s)[0]) && !Whitespace(Fold(s)[|Fold(s)| - 1]))
  {
    left := StripLeftExact(Lower(s));
    right := StripRightExact(StripLeft(Lower(s)));
    assert Fold(s) != "" ==> Fold(s)[0] == StripLeft(Lower(s))[0];
  }

  // ----- Permutations -----

  function Normaliser(): Json -> Json { j => Norm(j) }

  lemma NormAllIsMapped(items: seq<Json>)
    ensures NormAll(items) == Mapped(items, Normaliser())
  {}

  lemma NormPermutation(xs: seq<Json>, ys: seq<Json>)
    requires multiset(xs) == multiset(ys)
    ensures multiset(NormAll(xs)) == multiset(NormAll(ys))
  {
    NormAllIsMapped(xs);
    NormAllIsMapped(ys);
    MappedPermutation(xs, ys, Normaliser());
  }

  lemma NormRealign(us: seq<Json>, ys: seq<Json>) returns (zs: seq<Json>)
    requires multiset(us) == multiset(NormAll(ys))
    ensures multiset(zs) == multiset(ys) && NormAll(zs) == us
  {
    NormAllIsMapped(ys);
    zs := Realign(us, ys, Normaliser());
    NormAllIsMapped(zs);
  }

  lemma DumpOrder()
    ensures Total(DumpLeq)
    ensures forall s :: Antisymmetric(DumpLeq, s)
  {
    StrOrder();
    forall a, b ensures DumpLeq(a, b) || DumpLeq(b, a) {}
    forall a, b, c | DumpLeq(a, b) && DumpLeq(b, c) ensures DumpLeq(a, c) {}
    forall a, b | DumpLeq(a, b) && DumpLeq(b, a) ensures a == b {
      DumpInjective(a, b);
    }
  }

  // ----- The normal form decides sameness -----

  lemma NormList(items: seq<Json>)
    ensures Norm(JList(items)) == JList(Sort(NormAll(items), DumpLeq))
  {
    assert NormAll(items) == seq(|items|, i requires 0 <= i < |items| => Norm(items[i]));
  }

  /** The order of a list does not show in its normal form. */
  lemma NormLists(xs: seq<Json>, ys: seq<Json>)
    requires multiset(xs) == multiset(ys)
    ensures Norm(JList(xs)) == Norm(JList(ys))
  {
    NormPermutation(xs, ys);
    DumpOrder();
    SortPermutation(NormAll(xs), NormAll(ys), DumpLeq);
    NormList(xs);
    NormList(ys);
  }

  lemma SameItems(xs: seq<Json>, ys: seq<Json>, zs: seq<Json>)
    requires |xs| == |ys| && multiset(ys) == multiset(zs) && forall i :: 0 <= i < |xs| ==> Norm(xs[i]) == Norm(ys[i])
    ensures Norm(JList(xs)) == Norm(JList(zs))
  {
    assert NormAll(xs) == NormAll(ys);
    NormLists(ys, zs);
    NormList(xs);
    NormList(ys);
  }

  lemma {:induction false} SameNorm(a: Json, b: Json)
    requires Same(a, b)
    ensures Norm(a) == Norm(b)
    decreases a
  {
    match a
    case JObject(fields) =>
      forall k | k in fields ensures Norm(fields[k]) == Norm(b.fields[k]) {
        SameNorm(fields[k], b.fields[k]);
      }
    case JList(items) =>
      var other: seq<Json> :| && multiset(other) == multiset(b.items) && |other| == |items|
                              && forall i :: 0 <= i < |items| ==> Same(items[i], other[i]);
      forall i | 0 <= i < |items| ensures Norm(items[i]) == Norm(other[i]) {
        SameNorm(items[i], other[i]);
      }
      SameItems(items, other, b.items);
    case _ =>
  }

  lemma {:induction false} NormSame(a: Json, b: Json)
    requires Norm(a) == Norm(b)
    ensures Same(a, b)
    decreases a
  {
    match a
    case JObject(fields) =>
      assert Norm(a).fields.Keys == fields.Keys;
      assert Norm(b).fields.Keys == b.fields.Keys;
      forall k | k in fields ensures Same(fields[k], b.fields[k]) {
        assert Norm(a).fields[k] == Norm(b).fields[k];
        NormSame(fields[k], b.fields[k]);
      }
    case JList(items) =>
      NormList(items);
      NormList(b.items);
      DumpOrder();
      SortCorrect(NormAll(items), DumpLeq);
      SortCorrect(NormAll(b.items), DumpLeq);
      var other := NormRealign(NormAll(items), b.items);
      forall i | 0 <= i < |items| ensures Same(items[i], other[i]) {
        assert NormAll(items)[i] == NormAll(other)[i];
        NormSame(items[i], other[i]);
      }
    case _ =>
  }

  /** Two values have one normal form exactly when they agree up to list order, case and blanks. */
  lemma NormDecidesSame(a: Json, b: Json)
    ensures Norm(a) == Norm(b) <==> Same(a, b)
  {
    if Same(a, b) { SameNorm(a, b); }
    if Norm(a) == Norm(b) { NormSame(a, b); }
  }

  /** Canonicalising twice is canonicalising once. */
  lemma {:induction false} NormIdempotent(j: Json)
    ensures Norm(Norm(j)) == Norm(j)
  {
    match j
    case JObject(fields) =>
      forall k | k in fields ensures Norm(Norm(fields[k])) == Norm(fields[k]) {
        NormIdempotent(fields[k]);
      }
      assert Norm(Norm(j)).fields == Norm(j).fields;
    case JList(items) =>
      var normed := NormAll(items);
      var sorted := Sort(normed, DumpLeq);
      NormList(items);
      DumpOrder();
      SortCorrect(normed, DumpLeq);
      MembersOfPermutation(normed, sorted);
      forall i | 0 <= i < |sorted| ensures Norm(sorted[i]) == sorted[i] {
        assert sorted[i] in normed;
        var k :| 0 <= k < |items| && normed[k] == sorted[i];
        NormIdempotent(items[k]);
      }
      assert NormAll(sorted) == sorted;
      NormList(sorted);
      SortSorted(sorted, DumpLeq);
    case JString(s) => FoldIdempotent(s);
    case _ =>
  }
}
