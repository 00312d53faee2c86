/** Total orders, the code-point order on strings, and the stable sort that the
    program uses whenever it calls `sorted`. */
module Ordering {

  ghost predicate Total<T(!new)>(leq: (T, T) -> bool) {
    && (forall a, b :: leq(a, b) || leq(b, a))
    && (forall a, b, c :: leq(a, b) && leq(b, c) ==> leq(a, c))
  }

  /** Two members of `s` that compare equal are the same value. */
  ghost predicate Antisymmetric<T(!new)>(leq: (T, T) -> bool, s: multiset<T>) {
    forall a, b :: a in s && b in s && leq(a, b) && leq(b, a) ==> a == b
  }

  ghost predicate Sorted<T>(s: seq<T>, leq: (T, T) -> bool) {
    forall i, j :: 0 <= i < j < |s| ==> leq(s[i], s[j])
  }

  ghost predicate Distinct<T>(s: seq<T>) {
    forall i, j :: 0 <= i < j < |s| ==> s[i] != s[j]
  }

  /** Inserting in front of equal elements is what makes the sort stable. */
  function Insert<T>(x: T, s: seq<T>, leq: (T, T) -> bool): seq<T> {
    if s == [] || leq(x, s[0]) then [x] + s else [s[0]] + Insert(x, s[1..], leq)
  }

  function Sort<T>(s: seq<T>, leq: (T, T) -> bool): seq<T> {
    if s == [] then [] else Insert(s[0], Sort(s[1..], leq), leq)
  }

  lemma {:induction false} InsertCorrect<T(!new)>(x: T, s: seq<T>, leq: (T, T) -> bool)
    requires Total(leq) && Sorted(s, leq)
    ensures Sorted(Insert(x, s, leq), leq)
    ensures multiset(Insert(x, s, leq)) == multiset{x} + multiset(s)
  {
    if s == [] || leq(x, s[0]) {
      var r := [x] + s;
      forall i, j | 0 <= i < j < |r| ensures leq(r[i], r[j]) {
        if i == 0 && j > 1 { assert leq(s[0], s[j - 1]); }
      }
    } else {
      InsertCorrect(x, s[1..], leq);
      var t := Insert(x, s[1..], leq);
      var r := [s[0]] + t;
      assert s == [s[0]] + s[1..];
      forall j | 0 <= j < |t| ensures leq(s[0], t[j]) {
        assert t[j] in multiset(t);
        assert t[j] == x || t[j] in s[1..];
      }
      assert Sorted(r, leq);
    }
  }

  /** The result of a sort is ordered and is a permutation of its input. */
  lemma {:induction false} SortCorrect<T(!new)>(s: seq<T>, leq: (T, T) -> bool)
    requires Total(leq)
    ensures Sorted(Sort(s, leq), leq)
    ensures multiset(Sort(s, leq)) == multiset(s)
    ensures |Sort(s, leq)| == |s|
  {
    if s != [] {
      SortCorrect(s[1..], leq);
      InsertCorrect(s[0], Sort(s[1..], leq), leq);
      assert s == [s[0]] + s[1..];
    }
    assert |multiset(Sort(s, leq))| == |multiset(s)|;
  }

  lemma {:induction false} InsertLength<T>(x: T, s: seq<T>, leq: (T, T) -> bool)
    ensures |Insert(x, s, leq)| == |s| + 1
  {
    if s != [] { InsertLength(x, s[1..], leq); }
  }

  lemma {:induction false} SortLength<T>(s: seq<T>, leq: (T, T) -> bool)
    ensures |Sort(s, leq)| == |s|
  {
    if s != [] {
      SortLength(s[1..], leq);
      InsertLength(s[0], Sort(s[1..], leq), leq);
    }
  }

  /** The first `k` elements, or all of them. */
  function Take<T>(s: seq<T>, k: nat): seq<T> { if |s| <= k then s else s[..k] }

  lemma SplitLast<T>(s: seq<T>)
    requires s != []
    ensures s == s[..|s| - 1] + [s[|s| - 1]] && s[|s| - 1] in s
    ensures forall x :: x in s[..|s| - 1] ==> x in s
  {}

  lemma TakeNext<T>(s: seq<T>, i: nat)
    requires i < |s|
    ensures s[..i + 1] == s[..i] + [s[i]]
    ensures s[..i + 1][..i] == s[..i] && |s[..i + 1]| == i + 1 && s[..i + 1][i] == s[i]
  {}

  lemma TakeNone<T>(s: seq<T>)
    ensures s[..0] == []
  {}

  lemma TakeAll<T>(s: seq<T>)
    ensures s[..|s|] == s
  {}

  lemma MembersOfPermutation<T>(s: seq<T>, t: seq<T>)
    requires multiset(s) == multiset(t)
    ensures |s| == |t|
    ensures forall x :: x in s <==> x in t
  {
    assert |multiset(s)| == |multiset(t)|;
    forall x ensures x in s <==> x in t {
      assert x in s <==> x in multiset(s);
      assert x in t <==> x in multiset(t);
    }
  }

  lemma SortedHead<T(!new)>(s: seq<T>, x: T, leq: (T, T) -> bool)
    requires Total(leq) && Sorted(s, leq) && x in s
    ensures leq(s[0], x)
  {
    var i :| 0 <= i < |s| && s[i] == x;
    if i == 0 { assert leq(x, x); }
  }

  lemma TailMultiset<T>(s: seq<T>)
    requires s != []
    ensures multiset(s[1..]) == multiset(s) - multiset{s[0]}
  {
    assert s == [s[0]] + s[1..];
  }

  lemma SameHead<T(!new)>(s: seq<T>, t: seq<T>, leq: (T, T) -> bool)
    requires Total(leq) && Sorted(s, leq) && Sorted(t, leq) && s != [] && t != []
    requires s[0] in t && t[0] in s
    requires forall a, b :: a in s && b in s && leq(a, b) && leq(b, a) ==> a == b
    ensures s[0] == t[0]
  {
    SortedHead(s, t[0], leq);
    SortedHead(t, s[0], leq);
  }

  lemma SameTail<T>(s: seq<T>, t: seq<T>)
    requires s != [] && t != [] && s[0] == t[0] && s[1..] == t[1..]
    ensures s == t
  {
    assert s == [s[0]] + s[1..] && t == [t[0]] + t[1..];
  }

  /** An order that separates the elements leaves only one sorted arrangement. */
  lemma {:induction false} SortedUnique<T(!new)>(s: seq<T>, t: seq<T>, leq: (T, T) -> bool)
    requires Total(leq) && Sorted(s, leq) && Sorted(t, leq)
    requires multiset(s) == multiset(t)
    requires Antisymmetric(leq, multiset(s))
    ensures s == t
  {
    MembersOfPermutation(s, t);
    if s != [] {
      SameHead(s, t, leq);
      TailMultiset(s);
      TailMultiset(t);
      SortedUnique(s[1..], t[1..], leq);
      SameTail(s, t);
    }
  }

  /** Sorting forgets the order of its input. */
  lemma SortPermutation<T(!new)>(s: seq<T>, t: seq<T>, leq: (T, T) -> bool)
    requires Total(leq) && multiset(s) == multiset(t) && Antisymmetric(leq, multiset(s))
    ensures Sort(s, leq) == Sort(t, leq)
  {
    SortCorrect(s, leq);
    SortCorrect(t, leq);
    SortedUnique(Sort(s, leq), Sort(t, leq), leq);
  }

  /** A sort leaves a sorted list alone. */
  lemma {:induction false} SortSorted<T>(s: seq<T>, leq: (T, T) -> bool)
    requires Sorted(s, leq)
    ensures Sort(s, leq) == s
  {
    if s != [] {
      SortSorted(s[1..], leq);
      assert |s| > 1 ==> leq(s[0], s[1]);
    }
  }

  lemma {:induction false} DistinctMultiset<T>(s: seq<T>, t: seq<T>)
    requires Distinct(s) && multiset(s) == multiset(t)
    ensures Distinct(t)
  {
    forall i, j | 0 <= i < j < |t| ensures t[i] != t[j] {
      if t[i] == t[j] {
        assert t == t[..i] + [t[i]] + t[i + 1..j] + [t[j]] + t[j + 1..];
        assert multiset(t)[t[i]] >= 2;
        var k := CountAtMostOne(s, t[i]);
      }
    }
  }

  lemma {:induction false} CountAtMostOne<T>(s: seq<T>, x: T) returns (k: nat)
    requires Distinct(s)
    ensures k == multiset(s)[x] <= 1
  {
    k := multiset(s)[x];
    if s != [] {
      var rest := CountAtMostOne(s[1..], x);
      assert s == [s[0]] + s[1..];
      if s[0] == x { assert x !in s[1..]; }
    }
  }

  lemma TwiceCounted<T>(r: seq<T>, i: nat, j: nat)
    requires i < j < |r| && r[i] == r[j]
    ensures multiset(r)[r[i]] >= 2
  {
    assert r == r[..i] + [r[i]] + r[i + 1..j] + [r[j]] + r[j + 1..];
  }

  /** A list whose members are counted as in a set is a listing of that set. */
  lemma ListsSet<T>(r: seq<T>, s: set<T>)
    requires multiset(r) == multiset(s)
    ensures Distinct(r) && forall x :: x in r <==> x in s
  {
    forall x ensures x in r <==> x in s {
      assert x in r <==> x in multiset(r);
    }
    if i, j :| 0 <= i < j < |r| && r[i] == r[j] {
      TwiceCounted(r, i, j);
      assert false;
    }
  }

  // ----- Permutations of mapped lists -----

  function Mapped<A, B>(s: seq<A>, f: A -> B): (t: seq<B>)
    ensures |t| == |s| && forall i :: 0 <= i < |s| ==> t[i] == f(s[i])
  {
    seq(|s|, i requires 0 <= i < |s| => f(s[i]))
  }

  function Without<T>(s: seq<T>, j: nat): seq<T>
    requires j < |s|
  {
    s[..j] + s[j + 1..]
  }

  lemma WithoutMultiset<T>(s: seq<T>, j: nat)
    requires j < |s|
    ensures multiset(s) == multiset(Without(s, j)) + multiset{s[j]}
  {
    assert s == s[..j] + [s[j]] + s[j + 1..];
  }

  lemma MappedWithout<A, B>(s: seq<A>, j: nat, f: A -> B)
    requires j < |s|
    ensures Mapped(Without(s, j), f) == Without(Mapped(s, f), j)
  {}

  lemma HeadMultiset<T>(s: seq<T>)
    requires s != []
    ensures multiset(s) == multiset(s[1..]) + multiset{s[0]}
  {
    assert s == [s[0]] + s[1..];
  }

  lemma FindMember<T>(s: seq<T>, t: seq<T>) returns (j: nat)
    requires s != [] && multiset(s) == multiset(t)
    ensures j < |t| && t[j] == s[0] && multiset(s[1..]) == multiset(Without(t, j))
  {
    MembersOfPermutation(s, t);
    assert s[0] in t;
    j :| 0 <= j < |t| && t[j] == s[0];
    HeadMultiset(s);
    WithoutMultiset(t, j);
    assert multiset(s[1..]) == multiset(s) - multiset{s[0]};
    assert multiset(Without(t, j)) == multiset(t) - multiset{t[j]};
  }

  lemma {:induction false} MappedPermutation<A, B>(s: seq<A>, t: seq<A>, f: A -> B)
    requires multiset(s) == multiset(t)
    ensures multiset(Mapped(s, f)) == multiset(Mapped(t, f))
  {
    if s == [] {
      MembersOfPermutation(s, t);
    } else {
      var j := FindMember(s, t);
      MappedPermutation(s[1..], Without(t, j), f);
      MappedWithout(t, j, f);
      WithoutMultiset(Mapped(t, f), j);
      HeadMultiset(Mapped(s, f));
      assert Mapped(s, f)[1..] == Mapped(s[1..], f);
    }
  }

  /** If the images of `t` are a permutation of `u`, then `t` can be rearranged to line up with `u`. */
  lemma {:induction false} Realign<A, B>(u: seq<B>, t: seq<A>, f: A -> B) returns (r: seq<A>)
    requires multiset(u) == multiset(Mapped(t, f))
    ensures multiset(r) == multiset(t) && Mapped(r, f) == u
  {
    if u == [] {
      MembersOfPermutation(u, Mapped(t, f));
      r := t;
    } else {
      var j := FindMember(u, Mapped(t, f));
      MappedWithout(t, j, f);
      var rest := Realign(u[1..], Without(t, j), f);
      r := [t[j]] + rest;
      WithoutMultiset(t, j);
      assert Mapped(r, f) == [f(t[j])] + Mapped(rest, f);
      assert u == [u[0]] + u[1..];
    }
  }

  // ----- Code-point order on strings -----

  predicate StrLeq(a: string, b: string) {
    if a == [] then true
    else if b == [] then false
    else if a[0] != b[0] then a[0] < b[0]
    else StrLeq(a[1..], b[1..])
  }

  lemma {:induction false} StrLeqTotal(a: string, b: string)
    ensures StrLeq(a, b) || StrLeq(b, a)
    ensures StrLeq(a, b) && StrLeq(b, a) ==> a == b
  {
    if a != [] && b != [] && a[0] == b[0] {
      StrLeqTotal(a[1..], b[1..]);
      assert a == [a[0]] + a[1..] && b == [b[0]] + b[1..];
    }
  }

  lemma {:induction false} StrLeqTransitive(a: string, b: string, c: string)
    requires StrLeq(a, b) && StrLeq(b, c)
    ensures StrLeq(a, c)
  {
    if a != [] && a[0] == b[0] && b[0] == c[0] {
      StrLeqTransitive(a[1..], b[1..], c[1..]);
    }
  }

  /** The strings part at place `k`, where `a` has the smaller character. */
  ghost predicate PartsAt(a: string, b: string, k: nat) {
    k < |a| && k < |b| && a[..k] == b[..k] && a[k] < b[k]
  }

  /** Code-point order: a prefix comes first, and otherwise the first difference decides. */
  lemma {:induction false} StrLeqExact(a: string, b: string)
    ensures StrLeq(a, b) <==> a <= b || exists k: nat :: PartsAt(a, b, k)
  {
    if a != [] && b != [] {
      if a[0] == b[0] {
        StrLeqExact(a[1..], b[1..]);
        assert a == [a[0]] + a[1..] && b == [b[0]] + b[1..];
        if k: nat :| PartsAt(a[1..], b[1..], k) {
          assert a[..k + 1] == [a[0]] + a[1..][..k] && b[..k + 1] == [b[0]] + b[1..][..k];
          assert PartsAt(a, b, k + 1);
        }
        if k: nat :| PartsAt(a, b, k) {
          assert a[1..][..k - 1] == a[..k][1..] && b[1..][..k - 1] == b[..k][1..];
          assert PartsAt(a[1..], b[1..], k - 1);
        }
      } else {
        assert a[..0] == b[..0];
        if a[0] < b[0] { assert PartsAt(a, b, 0); }
        forall k: nat | k > 0 ensures !PartsAt(a, b, k) { if k < |a| && k < |b| { assert a[..k][0] != b[..k][0]; } }
      }
    }
  }

  lemma StrOrder()
    ensures Total(StrLeq)
    ensures forall a, b :: StrLeq(a, b) && StrLeq(b, a) ==> a == b
  {
    forall a: string, b: string
      ensures StrLeq(a, b) || StrLeq(b, a)
      ensures StrLeq(a, b) && StrLeq(b, a) ==> a == b
    {
      StrLeqTotal(a, b);
    }
    forall a: string, b: string, c: string | StrLeq(a, b) && StrLeq(b, c) ensures StrLeq(a, c) {
      StrLeqTransitive(a, b, c);
    }
  }

  // ----- Sets of strings in order -----

  ghost predicate LowerBound(x: string, s: set<string>) { forall y :: y in s ==> StrLeq(x, y) }

  lemma {:induction false} Least(s: set<string>) returns (x: string)
    requires s != {}
    ensures x in s && LowerBound(x, s)
  {
    var z :| z in s;
    var rest := s - {z};
    StrLeqTotal(z, z);
    if rest == {} {
      x := z;
      assert s == {z};
    } else {
      x := Least(rest);
      StrLeqTotal(x, z);
      if !StrLeq(x, z) {
        forall y | y in rest ensures StrLeq(z, y) { StrLeqTransitive(z, x, y); }
        x := z;
      }
      assert s == rest + {z};
    }
  }

  lemma LeastExists(s: set<string>)
    requires s != {}
    ensures exists x :: x in s && forall y :: y in s ==> StrLeq(x, y)
  {
    var x := Least(s);
    assert x in s && forall y :: y in s ==> StrLeq(x, y);
  }

  /** `sorted` applied to a set of strings. */
  function SortedNames(s: set<string>): seq<string> {
    if s == {} then []
    else
      StrOrder();
      LeastExists(s);
      var x :| x in s && forall y :: y in s ==> StrLeq(x, y);
      [x] + SortedNames(s - {x})
  }

  lemma SortedNamesFirst(s: set<string>) returns (x: string)
    requires s != {}
    ensures x in s && LowerBound(x, s) && SortedNames(s) == [x] + SortedNames(s - {x})
  {
    StrOrder();
    LeastExists(s);
    x := SortedNames(s)[0];
  }

  lemma {:induction false} SortedNamesMultiset(s: set<string>)
    ensures multiset(SortedNames(s)) == multiset(s) && Sorted(SortedNames(s), StrLeq)
    ensures forall n :: n in SortedNames(s) ==> n in s
  {
    if s != {} {
      var x := SortedNamesFirst(s);
      SortedNamesMultiset(s - {x});
      assert multiset(s) == multiset{x} + multiset(s - {x});
    }
  }

  lemma SortedNamesExact(s: set<string>)
    ensures forall n :: n in SortedNames(s) <==> n in s
    ensures Distinct(SortedNames(s)) && Sorted(SortedNames(s), StrLeq)
    ensures multiset(SortedNames(s)) == multiset(s)
  {
    SortedNamesMultiset(s);
    ListsSet(SortedNames(s), s);
  }
}
