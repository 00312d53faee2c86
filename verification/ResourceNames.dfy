/** How the names of stream resources are made from a pattern. */
module ResourceNames {
  import opened Migrations

  /** `from` starts at place `i` of `s`. */
  ghost predicate OccursAt(s: string, from: string, i: nat) { i <= |s| && from <= s[i..] }

  lemma {:induction false} ReplacedNone(s: string, from: string, to: string)
    requires from != "" && forall i :: 0 <= i < |s| ==> !OccursAt(s, from, i)
    ensures Replaced(s, from, to) == s
  {
    if s != "" {
      assert !OccursAt(s, from, 0) && s[0..] == s;
      forall i | 0 <= i < |s[1..]| ensures !OccursAt(s[1..], from, i) {
        assert s[1..][i..] == s[i + 1..] && !OccursAt(s, from, i + 1);
      }
      ReplacedNone(s[1..], from, to);
    }
  }

  /** Replacement goes from left to right: the first occurrence is exchanged, and then the rest follows. */
  lemma {:induction false} ReplacedFirst(a: string, from: string, b: string, to: string)
    requires from != "" && forall i :: 0 <= i < |a| ==> !OccursAt(a + from + b, from, i)
    ensures Replaced(a + from + b, from, to) == a + to + Replaced(b, from, to)
    decreases |a|
  {
    var s := a + from + b;
    if a == "" {
      assert s == from + b && s[|from|..] == b;
    } else {
      assert !OccursAt(s, from, 0) && s[0..] == s;
      assert s[1..] == a[1..] + from + b;
      forall i | 0 <= i < |a[1..]| ensures !OccursAt(a[1..] + from + b, from, i) {
        assert s[1..][i..] == s[i + 1..] && !OccursAt(s, from, i + 1);
      }
      ReplacedFirst(a[1..], from, b, to);
      assert [s[0]] + (a[1..] + to + Replaced(b, from, to)) == a + to + Replaced(b, from, to);
    }
  }

  ghost predicate Free(s: string, c: char) { c !in s }

  lemma ReplacedChar(a: string, c: char, b: string, to: string)
    requires Free(a, c) && Free(b, c)
    ensures Replaced(a + [c] + b, [c], to) == a + to + b
    ensures Replaced(a, [c], to) == a
  {
    forall i | 0 <= i < |a| ensures !OccursAt(a + [c] + b, [c], i) && !OccursAt(a, [c], i) {
      assert (a + [c] + b)[i..][0] == a[i] && a[i..][0] == a[i];
    }
    forall i | 0 <= i < |b| ensures !OccursAt(b, [c], i) { assert b[i..][0] == b[i]; }
    ReplacedFirst(a, [c], b, to);
    ReplacedNone(b, [c], to);
    ReplacedNone(a, [c], to);
  }

  /** The names made from a pattern like "metrics.orders-*". */
  lemma PatternNames(area: string, name: string)
    requires Free(area, '.') && Free(area, '-') && Free(area, '*')
    requires Free(name, '.') && Free(name, '-') && Free(name, '*')
    ensures TemplateName(area + "." + name + "-*") == "dataobs-" + area + "-" + name + "-template"
    ensures Stem(area + "." + name + "-*") == area + "-" + name
  {
    StarReplaced(area, name);
    DotReplaced(area, name + "-template");
    assert area + "-" + (name + "-template") == area + "-" + name + "-template";
    StemOfPattern(area, name);
  }

  lemma StarReplaced(area: string, name: string)
    requires Free(area, '*') && Free(name, '*')
    ensures Replaced(area + "." + name + "-*", "*", "template") == area + "." + (name + "-template")
  {
    var a := area + "." + name + "-";
    assert area + "." + name + "-*" == a + ['*'] + "";
    ReplacedChar(a, '*', "", "template");
    assert a + "template" + "" == area + "." + (name + "-template");
  }

  lemma DotReplaced(area: string, rest: string)
    requires Free(area, '.') && Free(rest, '.')
    ensures Replaced(area + "." + rest, ".", "-") == area + "-" + rest
  {
    ReplacedChar(area, '.', rest, "-");
  }

  lemma StemOfPattern(area: string, name: string)
    requires Free(area, '.') && Free(area, '-') && Free(area, '*')
    requires Free(name, '.') && Free(name, '-') && Free(name, '*')
    ensures Stem(area + "." + name + "-*") == area + "-" + name
  {
    var a, pattern := area + "." + name, area + "." + name + "-*";
    forall i | 0 <= i < |a| ensures !OccursAt(a + "-*" + "", "-*", i) {
      assert (a + "-*" + "")[i..][0] == a[i] && a[i] != '-';
    }
    ReplacedFirst(a, "-*", "", "");
    assert a + "-*" + "" == pattern && a + "" + Replaced("", "-*", "") == a;
    assert a == area + ['.'] + name;
    ReplacedChar(area, '.', name, "-");
  }
}
