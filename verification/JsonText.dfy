/** JSON values and the text that `json.dumps(value, sort_keys=True)` gives them, with a proof that the
    text determines the value. */
module JsonText {
  import opened Ordering

  /** What may stand in the text of a number. */
  predicate Numeric(c: char) { '0' <= c <= '9' || c == '-' || c == '+' || c == '.' || c == 'e' }

  predicate IsFloatText(s: string) {
    (forall c :: c in s ==> Numeric(c)) && ('.' in s || 'e' in s)
  }

  /** The shortest text of a finite float, which always has a point or an exponent. */
  type FloatText = s: string | IsFloatText(s) witness "0.0"

  datatype Json =
    | JNull
    | JBool(b: bool)
    | JInt(n: int)
    | JFloat(text: FloatText)
    | JString(s: string)
    | JList(items: seq<Json>)
    | JObject(fields: map<string, Json>)

  // ----- Numbers -----

  function DigitChar(d: int): char
    requires 0 <= d < 10
  {
    ('0' as int + d) as char
  }

  function Digits(n: nat): string {
    if n < 10 then [DigitChar(n)] else Digits(n / 10) + [DigitChar(n % 10)]
  }

  function IntText(n: int): string { if n < 0 then "-" + Digits(-n) else Digits(n) }

  // ----- Strings -----

  function HexChar(d: int): char
    requires 0 <= d < 16
  {
    if d < 10 then ('0' as int + d) as char else ('a' as int + d - 10) as char
  }

  function Hex4(n: int): (r: string)
    requires 0 <= n < 0x10000
    ensures |r| == 4
  {
    [HexChar(n / 4096), HexChar(n / 256 % 16), HexChar(n / 16 % 16), HexChar(n % 16)]
  }

  /** The code point, or the first half of its surrogate pair. */
  function FirstUnit(c: char): (u: int)
    ensures 0 <= u < 0x10000
  {
    if c as int < 0x10000 then c as int else 0xD800 + (c as int - 0x10000) / 0x400
  }

  function SecondUnit(c: char): (u: int)
    requires c as int >= 0x10000
    ensures 0xDC00 <= u < 0xE000
  {
    0xDC00 + (c as int - 0x10000) % 0x400
  }

  /** The letter of a two-character escape, if the character has one. */
  function ShortEscape(c: char): (e: string)
    ensures |e| <= 1
  {
    if c == '\\' then "\\" else if c == '"' then "\"" else if c == '\n' then "n" else if c == '\r' then "r"
    else if c == '\t' then "t" else if c == '\U{8}' then "b" else if c == '\U{C}' then "f" else ""
  }

  function Escape(c: char): string {
    if ShortEscape(c) != "" then "\\" + ShortEscape(c)
    else if ' ' <= c <= '~' then [c]
    else if c as int < 0x10000 then "\\u" + Hex4(FirstUnit(c))
    else "\\u" + Hex4(FirstUnit(c)) + "\\u" + Hex4(SecondUnit(c))
  }

  function Escaped(s: string): string {
    if s == "" then "" else Escape(s[0]) + Escaped(s[1..])
  }

  function Quoted(s: string): string { "\"" + Escaped(s) + "\"" }

  // ----- Values -----

  function Dump(j: Json): string
    decreases j, 1, 0
  {
    match j
    case JNull => "null"
    case JBool(b) => if b then "true" else "false"
    case JInt(n) => IntText(n)
    case JFloat(text) => text
    case JString(s) => Quoted(s)
    case JList(items) => "[" + (if items == [] then "]" else Dump(items[0]) + ItemsFrom(j, 1))
    case JObject(fields) =>
      SortedNamesExact(fields.Keys);
      var names := SortedNames(fields.Keys);
      "{" + (if names == [] then "}" else Entry(j, names[0]) + EntriesOf(j, names[1..]))
  }

  /** What follows the first `i` items of a list. */
  function ItemsFrom(j: Json, i: nat): string
    requires j.JList? && i <= |j.items|
    decreases j, 0, |j.items| - i
  {
    if i == |j.items| then "]" else ", " + Dump(j.items[i]) + ItemsFrom(j, i + 1)
  }

  function Entry(j: Json, name: string): string
    requires j.JObject? && name in j.fields
    decreases j, 0, 0
  {
    Quoted(name) + ": " + Dump(j.fields[name])
  }

  /** The remaining entries of an object. */
  function EntriesOf(j: Json, names: seq<string>): string
    requires j.JObject? && forall n :: n in names ==> n in j.fields
    decreases j, 0, |names| + 1
  {
    if names == [] then "}" else ", " + Entry(j, names[0]) + EntriesOf(j, names[1..])
  }

  // ----- Concatenations -----

  lemma Cancel(p: string, x: string, y: string)
    requires p + x == p + y
    ensures x == y
  {
    assert (p + x)[|p|..] == x && (p + y)[|p|..] == y;
  }

  lemma CancelEqual(p: string, q: string, x: string, y: string)
    requires |p| == |q| && p + x == q + y
    ensures p == q && x == y
  {
    assert (p + x)[..|p|] == p && (q + y)[..|q|] == q;
    assert (p + x)[|p|..] == x && (q + y)[|q|..] == y;
  }

  lemma Regroup(p: string, q: string, r: string)
    ensures p + q + r == p + (q + r)
  {}

  /** What follows a value in a text: nothing, or something that cannot belong to a number. */
  ghost predicate Follows(x: string) { x == "" || !Numeric(x[0]) }

  lemma NumberEnds(p: string, q: string, x: string, y: string)
    requires p + x == q + y && Follows(x) && Follows(y)
    requires (forall c :: c in p ==> Numeric(c)) && (forall c :: c in q ==> Numeric(c))
    ensures p == q && x == y
  {
    if |p| < |q| {
      Continues(p, q, x, y);
      assert false;
    }
    if |q| < |p| {
      Continues(q, p, y, x);
      assert false;
    }
    CancelEqual(p, q, x, y);
  }

  lemma Continues(p: string, q: string, x: string, y: string)
    requires p + x == q + y && |p| < |q|
    ensures x != "" && x[0] in q
  {
    assert |p + x| == |q + y|;
    assert (p + x)[|p|] == x[0] && (q + y)[|p|] == q[|p|];
  }

  // ----- The text of a number determines it -----

  function NatOf(s: string): int {
    if s == "" then 0 else NatOf(s[..|s| - 1]) * 10 + (s[|s| - 1] as int - '0' as int)
  }

  lemma {:induction false} DigitsDecode(n: nat)
    ensures NatOf(Digits(n)) == n && Digits(n) != "" && forall c :: c in Digits(n) ==> '0' <= c <= '9'
  {
    if n < 10 {
      assert Digits(n)[..0] == "";
    } else {
      DigitsDecode(n / 10);
      assert Digits(n)[..|Digits(n)| - 1] == Digits(n / 10);
    }
  }

  lemma IntTextDecode(m: int, n: int)
    requires IntText(m) == IntText(n)
    ensures m == n
  {
    DigitsDecode(if m < 0 then -m else m);
    DigitsDecode(if n < 0 then -n else n);
    SignShows(m);
    SignShows(n);
    if m < 0 { Cancel("-", Digits(-m), Digits(-n)); }
  }

  lemma SignShows(n: int)
    ensures IntText(n) != "" && (IntText(n)[0] == '-' <==> n < 0)
  {
    DigitsDecode(if n < 0 then -n else n);
    if n >= 0 { assert Digits(n)[0] in Digits(n); }
  }

  lemma IntTextNumeric(n: int)
    ensures IntText(n) != "" && IsInteger(IntText(n))
  {
    DigitsDecode(if n < 0 then -n else n);
  }

  ghost predicate IsInteger(s: string) { forall c :: c in s ==> '0' <= c <= '9' || c == '-' }

  // ----- The text of a string determines it -----

  lemma HexCharInjective(d: int, e: int)
    requires 0 <= d < 16 && 0 <= e < 16 && HexChar(d) == HexChar(e)
    ensures d == e
  {
    assert HexChar(d) as int == HexChar(e) as int;
  }

  lemma HexParts(n: int)
    requires 0 <= n < 0x10000
    ensures n == n / 4096 * 4096 + n / 256 % 16 * 256 + n / 16 % 16 * 16 + n % 16
  {
    var a := n / 16;
    var b := a / 16;
    assert n == a * 16 + n % 16 && a == b * 16 + a % 16 && b == b / 16 * 16 + b % 16;
    assert n / 256 == b && n / 4096 == b / 16;
  }

  lemma Hex4Injective(m: int, n: int)
    requires 0 <= m < 0x10000 && 0 <= n < 0x10000 && Hex4(m) == Hex4(n)
    ensures m == n
  {
    HexDigitsEqual(m, n);
    HexParts(m);
    HexParts(n);
  }

  lemma HexDigitsEqual(m: int, n: int)
    requires 0 <= m < 0x10000 && 0 <= n < 0x10000 && Hex4(m) == Hex4(n)
    ensures m / 4096 == n / 4096 && m / 256 % 16 == n / 256 % 16 && m / 16 % 16 == n / 16 % 16 && m % 16 == n % 16
  {
    var a, b := Hex4(m), Hex4(n);
    assert a[0] == b[0] && a[1] == b[1] && a[2] == b[2] && a[3] == b[3];
    HexCharInjective(m / 4096, n / 4096);
    HexCharInjective(m / 256 % 16, n / 256 % 16);
    HexCharInjective(m / 16 % 16, n / 16 % 16);
    HexCharInjective(m % 16, n % 16);
  }

  lemma ShortEscapeInjective(c: char, d: char)
    requires ShortEscape(c) == ShortEscape(d) != ""
    ensures c == d
  {}

  ghost predicate Long(c: char) { ShortEscape(c) == "" && !(' ' <= c <= '~') }

  lemma LongEscape(c: char)
    requires Long(c)
    ensures |Escape(c)| >= 6 && Escape(c)[..2] == "\\u" && Escape(c)[2..6] == Hex4(FirstUnit(c))
    ensures c as int < 0x10000 ==> |Escape(c)| == 6 && FirstUnit(c) == c as int
    ensures c as int >= 0x10000 ==> |Escape(c)| == 12 && Escape(c)[8..12] == Hex4(SecondUnit(c))
  {
    var e := Escape(c);
    assert "\\u"[0] == '\\' && "\\u"[1] == 'u';
    if c as int < 0x10000 {
      assert e[2..6] == Hex4(FirstUnit(c));
    } else {
      assert e[2..6] == Hex4(FirstUnit(c));
      assert e[8..12] == Hex4(SecondUnit(c));
    }
  }

  lemma Inside(p: string, x: string, i: nat, j: nat)
    requires i <= j <= |p|
    ensures (p + x)[i..j] == p[i..j]
  {}

  lemma LongDecode(c: char, d: char, x: string, y: string)
    requires Long(c) && Long(d) && Escape(c) + x == Escape(d) + y
    ensures c == d
  {
    LongEscape(c);
    LongEscape(d);
    Inside(Escape(c), x, 2, 6);
    Inside(Escape(d), y, 2, 6);
    Hex4Injective(FirstUnit(c), FirstUnit(d));
    NotSurrogate(c);
    NotSurrogate(d);
    if c as int >= 0x10000 && d as int >= 0x10000 {
      Inside(Escape(c), x, 8, 12);
      Inside(Escape(d), y, 8, 12);
      Hex4Injective(SecondUnit(c), SecondUnit(d));
    }
    assert c as int == d as int;
  }

  /** The halves of surrogate pairs are not characters. */
  lemma NotSurrogate(c: char)
    ensures c as int < 0xD800 || 0xE000 <= c as int < 0x110000
    ensures c as int >= 0x10000 ==> 0xD800 <= FirstUnit(c) < 0xDC00
  {}

  lemma EscapeStart(c: char)
    ensures Escape(c) != "" && Escape(c)[0] != '"'
    ensures ShortEscape(c) != "" ==> Escape(c)[0] == '\\' && |Escape(c)| == 2 && [Escape(c)[1]] == ShortEscape(c)
    ensures ShortEscape(c) != "" ==> Escape(c)[1] != 'u'
    ensures ShortEscape(c) == "" && !Long(c) ==> Escape(c) == [c] && c != '\\'
    ensures Long(c) ==> |Escape(c)| >= 6 && Escape(c)[0] == '\\' && Escape(c)[1] == 'u'
  {
    if Long(c) {
      LongEscape(c);
      assert Escape(c)[0] == Escape(c)[..2][0] && Escape(c)[1] == Escape(c)[..2][1];
    }
  }

  /** No escape is the start of another one. */
  lemma EscapeDecode(c: char, d: char, x: string, y: string)
    requires Escape(c) + x == Escape(d) + y
    ensures c == d && x == y
  {
    EscapeStart(c);
    EscapeStart(d);
    var p, q := Escape(c) + x, Escape(d) + y;
    assert p[0] == Escape(c)[0] && q[0] == Escape(d)[0];
    if p[0] == '\\' {
      assert p[1] == Escape(c)[1] && q[1] == Escape(d)[1];
      if Long(c) { LongDecode(c, d, x, y); } else { ShortEscapeInjective(c, d); }
    }
    Cancel(Escape(c), x, y);
  }

  lemma {:induction false} EscapedDecode(s: string, t: string, x: string, y: string)
    requires Closed(s, x) == Closed(t, y)
    ensures s == t && x == y
  {
    ClosedStart(s, x);
    ClosedStart(t, y);
    if s == "" {
      Cancel("\"", x, y);
    } else {
      ClosedNext(s, x);
      ClosedNext(t, y);
      EscapeDecode(s[0], t[0], Closed(s[1..], x), Closed(t[1..], y));
      EscapedDecode(s[1..], t[1..], x, y);
      SameTail(s, t);
    }
  }

  /** The rest of a quoted string and what follows it. */
  function Closed(s: string, x: string): string { Escaped(s) + ("\"" + x) }

  lemma ClosedStart(s: string, x: string)
    ensures Closed(s, x) != "" && (Closed(s, x)[0] == '"' <==> s == "")
    ensures s == "" ==> Closed(s, x) == "\"" + x
  {
    if s != "" { EscapeStart(s[0]); } else { assert "" + ("\"" + x) == "\"" + x; }
  }

  lemma ClosedNext(s: string, x: string)
    requires s != ""
    ensures Closed(s, x) == Escape(s[0]) + Closed(s[1..], x)
  {
    Regroup(Escape(s[0]), Escaped(s[1..]), "\"" + x);
  }

  lemma QuotedDecode(s: string, t: string, x: string, y: string)
    requires Quoted(s) + x == Quoted(t) + y
    ensures s == t && x == y
  {
    QuotedOpens(s, x);
    QuotedOpens(t, y);
    Cancel("\"", Closed(s, x), Closed(t, y));
    EscapedDecode(s, t, x, y);
  }

  lemma QuotedOpens(s: string, x: string)
    ensures Quoted(s) + x == "\"" + Closed(s, x)
  {}

  // ----- The text of a value determines it -----

  /** The constructors that start with the same character. */
  function Start(j: Json): nat {
    match j
    case JNull => 0
    case JBool(b) => if b then 1 else 2
    case JInt(_) => 3
    case JFloat(_) => 3
    case JString(_) => 4
    case JList(_) => 5
    case JObject(_) => 6
  }

  ghost predicate Starts(c: char, k: nat) {
    match k
    case 0 => c == 'n'
    case 1 => c == 't'
    case 2 => c == 'f'
    case 3 => Numeric(c)
    case 4 => c == '"'
    case 5 => c == '['
    case 6 => c == '{'
    case _ => false
  }

  lemma DumpStart(j: Json)
    ensures Dump(j) != "" && Starts(Dump(j)[0], Start(j))
  {
    match j
    case JInt(n) =>
      IntTextNumeric(n);
      assert IntText(n)[0] in IntText(n);
    case JFloat(text) => assert text[0] in text;
    case _ =>
  }

  lemma SameStart(a: Json, b: Json, x: string, y: string)
    requires Dump(a) + x == Dump(b) + y
    ensures Start(a) == Start(b)
  {
    DumpStart(a);
    DumpStart(b);
    assert (Dump(a) + x)[0] == (Dump(b) + y)[0];
  }

  lemma NumberDecode(a: Json, b: Json, x: string, y: string)
    requires Start(a) == Start(b) == 3 && Dump(a) + x == Dump(b) + y && Follows(x) && Follows(y)
    ensures a == b && x == y
  {
    NumberNumeric(a);
    NumberNumeric(b);
    NumberEnds(Dump(a), Dump(b), x, y);
    if a.JInt? { IntTextDecode(a.n, b.n); }
  }

  lemma NumberNumeric(j: Json)
    requires Start(j) == 3
    ensures forall c :: c in Dump(j) ==> Numeric(c)
    ensures j.JInt? <==> IsInteger(Dump(j))
  {
    if j.JInt? { IntTextNumeric(j.n); }
  }

  /** A text that starts with the text of one value starts with that of no other. */
  lemma {:induction false} DumpDecode(a: Json, b: Json, x: string, y: string)
    requires Dump(a) + x == Dump(b) + y && Follows(x) && Follows(y)
    ensures a == b && x == y
    decreases a, 1, 0
  {
    SameStart(a, b, x, y);
    match a
    case JNull => Cancel("null", x, y);
    case JBool(b) => Cancel(Dump(a), x, y);
    case JInt(_) => NumberDecode(a, b, x, y);
    case JFloat(_) => NumberDecode(a, b, x, y);
    case JString(s) => QuotedDecode(s, b.s, x, y);
    case JList(_) => ListDecode(a, b, x, y);
    case JObject(_) => ObjectDecode(a, b, x, y);
  }

  lemma ItemsFollow(j: Json, i: nat, x: string)
    requires j.JList? && i <= |j.items|
    ensures ItemsFrom(j, i) + x != "" && Follows(ItemsFrom(j, i) + x)
    ensures (ItemsFrom(j, i) + x)[0] == ']' <==> i == |j.items|
  {}

  /** What is left of a list and follows it. */
  function ListRest(j: Json, i: nat, x: string): string
    requires j.JList? && i <= |j.items|
  {
    ItemsFrom(j, i) + x
  }

  lemma ListOpens(j: Json, x: string)
    requires j.JList?
    ensures j.items == [] ==> Dump(j) + x == "[" + ("]" + x)
    ensures j.items != [] ==> Dump(j) + x == "[" + (Dump(j.items[0]) + ListRest(j, 1, x))
  {}

  lemma ListNext(j: Json, i: nat, x: string)
    requires j.JList? && i < |j.items|
    ensures ListRest(j, i, x) == ", " + (Dump(j.items[i]) + ListRest(j, i + 1, x))
  {}

  lemma DumpNotClosing(j: Json, x: string)
    ensures (Dump(j) + x)[0] != ']'
  {
    DumpStart(j);
  }

  lemma {:induction false} ListDecode(a: Json, b: Json, x: string, y: string)
    requires a.JList? && b.JList? && Dump(a) + x == Dump(b) + y && Follows(x) && Follows(y)
    ensures a == b && x == y
    decreases a, 0, |a.items| + 1
  {
    ListOpens(a, x);
    ListOpens(b, y);
    var p := if a.items == [] then "]" + x else Dump(a.items[0]) + ListRest(a, 1, x);
    var q := if b.items == [] then "]" + y else Dump(b.items[0]) + ListRest(b, 1, y);
    Cancel("[", p, q);
    if a.items != [] { DumpNotClosing(a.items[0], ListRest(a, 1, x)); }
    if b.items != [] { DumpNotClosing(b.items[0], ListRest(b, 1, y)); }
    if a.items == [] {
      Cancel("]", x, y);
    } else {
      ItemsFollow(a, 1, x);
      ItemsFollow(b, 1, y);
      DumpDecode(a.items[0], b.items[0], ListRest(a, 1, x), ListRest(b, 1, y));
      ItemsDecode(a, b, 1, x, y);
    }
  }

  lemma {:induction false} ItemsDecode(a: Json, b: Json, i: nat, x: string, y: string)
    requires a.JList? && b.JList? && i <= |a.items| && i <= |b.items| && a.items[..i] == b.items[..i]
    requires ListRest(a, i, x) == ListRest(b, i, y) && Follows(x) && Follows(y)
    ensures a == b && x == y
    decreases a, 0, |a.items| - i
  {
    ItemsFollow(a, i, x);
    ItemsFollow(b, i, y);
    if i == |a.items| {
      Cancel("]", x, y);
      assert a.items == a.items[..i] && b.items == b.items[..i];
    } else {
      ListNext(a, i, x);
      ListNext(b, i, y);
      Cancel(", ", Dump(a.items[i]) + ListRest(a, i + 1, x), Dump(b.items[i]) + ListRest(b, i + 1, y));
      ItemsFollow(a, i + 1, x);
      ItemsFollow(b, i + 1, y);
      DumpDecode(a.items[i], b.items[i], ListRest(a, i + 1, x), ListRest(b, i + 1, y));
      TakeNext(a.items, i);
      TakeNext(b.items, i);
      ItemsDecode(a, b, i + 1, x, y);
    }
  }

  // ----- Objects -----

  /** What is left of an object and follows it. */
  function ObjectRest(j: Json, names: seq<string>, x: string): string
    requires j.JObject? && forall n :: n in names ==> n in j.fields
  {
    EntriesOf(j, names) + x
  }

  lemma EntriesFollow(j: Json, names: seq<string>, x: string)
    requires j.JObject? && forall n :: n in names ==> n in j.fields
    ensures ObjectRest(j, names, x) != "" && Follows(ObjectRest(j, names, x))
    ensures ObjectRest(j, names, x)[0] == '}' <==> names == []
  {}

  lemma EntriesNext(j: Json, names: seq<string>, x: string)
    requires j.JObject? && names != [] && forall n :: n in names ==> n in j.fields
    ensures ObjectRest(j, names, x) == ", " + (Entry(j, names[0]) + ObjectRest(j, names[1..], x))
  {}

  lemma ObjectOpens(j: Json, names: seq<string>, x: string)
    requires j.JObject? && names == SortedNames(j.fields.Keys) && forall n :: n in names ==> n in j.fields
    ensures names == [] ==> Dump(j) + x == "{" + ("}" + x)
    ensures names != [] ==> Dump(j) + x == "{" + (Entry(j, names[0]) + ObjectRest(j, names[1..], x))
  {}

  lemma EntryOpens(j: Json, n: string, x: string)
    requires j.JObject? && n in j.fields
    ensures Entry(j, n) + x == Quoted(n) + (": " + (Dump(j.fields[n]) + x))
  {}

  lemma {:induction false} EntryDecode(a: Json, b: Json, m: string, n: string, x: string, y: string)
    requires a.JObject? && b.JObject? && m in a.fields && n in b.fields
    requires Entry(a, m) + x == Entry(b, n) + y && Follows(x) && Follows(y)
    ensures m == n && a.fields[m] == b.fields[n] && x == y
    decreases a, 0, 0
  {
    var p, q := Dump(a.fields[m]) + x, Dump(b.fields[n]) + y;
    EntryOpens(a, m, x);
    EntryOpens(b, n, y);
    QuotedDecode(m, n, ": " + p, ": " + q);
    Cancel(": ", p, q);
    DumpDecode(a.fields[m], b.fields[n], x, y);
  }

  lemma {:induction false} EntriesDecode(a: Json, b: Json, ms: seq<string>, ns: seq<string>, x: string, y: string)
    requires a.JObject? && b.JObject? && (forall n :: n in ms ==> n in a.fields) && (forall n :: n in ns ==> n in b.fields)
    requires ObjectRest(a, ms, x) == ObjectRest(b, ns, y) && Follows(x) && Follows(y)
    ensures ms == ns && (forall n :: n in ms ==> a.fields[n] == b.fields[n]) && x == y
    decreases a, 0, |ms| + 1
  {
    EntriesFollow(a, ms, x);
    EntriesFollow(b, ns, y);
    if ms == [] {
      Cancel("}", x, y);
    } else {
      EntriesNext(a, ms, x);
      EntriesNext(b, ns, y);
      var p, q := ObjectRest(a, ms[1..], x), ObjectRest(b, ns[1..], y);
      Cancel(", ", Entry(a, ms[0]) + p, Entry(b, ns[0]) + q);
      EntriesFollow(a, ms[1..], x);
      EntriesFollow(b, ns[1..], y);
      EntryDecode(a, b, ms[0], ns[0], p, q);
      EntriesDecode(a, b, ms[1..], ns[1..], x, y);
      SameTail(ms, ns);
    }
  }

  lemma EntryNotClosing(j: Json, n: string, x: string)
    requires j.JObject? && n in j.fields
    ensures (Entry(j, n) + x)[0] != '}'
  {}

  lemma {:induction false} ObjectDecode(a: Json, b: Json, x: string, y: string)
    requires a.JObject? && b.JObject? && Dump(a) + x == Dump(b) + y && Follows(x) && Follows(y)
    ensures a == b && x == y
    decreases a, 0, |SortedNames(a.fields.Keys)| + 2
  {
    SortedNamesExact(a.fields.Keys);
    SortedNamesExact(b.fields.Keys);
    var ms, ns := SortedNames(a.fields.Keys), SortedNames(b.fields.Keys);
    NamesDecode(a, b, ms, ns, x, y);
    SameFields(a.fields, b.fields, ms);
  }

  lemma SameFields(a: map<string, Json>, b: map<string, Json>, names: seq<string>)
    requires (forall n :: n in names <==> n in a) && (forall n :: n in names <==> n in b)
    requires forall n :: n in names ==> a[n] == b[n]
    ensures a == b
  {
    assert forall n :: n in a <==> n in b;
  }

  lemma {:induction false} NamesDecode(a: Json, b: Json, ms: seq<string>, ns: seq<string>, x: string, y: string)
    requires a.JObject? && b.JObject? && (forall n :: n in ms ==> n in a.fields) && (forall n :: n in ns ==> n in b.fields)
    requires ms == SortedNames(a.fields.Keys) && ns == SortedNames(b.fields.Keys)
    requires Dump(a) + x == Dump(b) + y && Follows(x) && Follows(y)
    ensures ms == ns && (forall n :: n in ms ==> a.fields[n] == b.fields[n]) && x == y
    decreases a, 0, |ms| + 1
  {
    ObjectOpens(a, ms, x);
    ObjectOpens(b, ns, y);
    var p := if ms == [] then "}" + x else Entry(a, ms[0]) + ObjectRest(a, ms[1..], x);
    var q := if ns == [] then "}" + y else Entry(b, ns[0]) + ObjectRest(b, ns[1..], y);
    Cancel("{", p, q);
    if ms != [] { EntryNotClosing(a, ms[0], ObjectRest(a, ms[1..], x)); }
    if ns != [] { EntryNotClosing(b, ns[0], ObjectRest(b, ns[1..], y)); }
    if ms == [] {
      Cancel("}", x, y);
    } else {
      EntriesFollow(a, ms[1..], x);
      EntriesFollow(b, ns[1..], y);
      EntryDecode(a, b, ms[0], ns[0], ObjectRest(a, ms[1..], x), ObjectRest(b, ns[1..], y));
      EntriesDecode(a, b, ms[1..], ns[1..], x, y);
      SameTail(ms, ns);
    }
  }

  /** Different values have different texts. */
  lemma DumpInjective(a: Json, b: Json)
    requires Dump(a) == Dump(b)
    ensures a == b
  {
    assert Dump(a) + "" == Dump(a) && Dump(b) + "" == Dump(b);
    DumpDecode(a, b, "", "");
  }

  // ----- Texts spelled out -----

  lemma ScalarTexts()
    ensures Dump(JNull) == "null" && Dump(JBool(true)) == "true" && Dump(JBool(false)) == "false"
    ensures Dump(JInt(120)) == "120" && Dump(JInt(-7)) == "-7" && Dump(JInt(0)) == "0"
  {
    assert Digits(1) == "1" && Digits(12) == "12" && Digits(120) == "120";
  }

  lemma ListTexts(x: Json, y: Json)
    ensures Dump(JList([])) == "[]"
    ensures Dump(JList([x, y])) == "[" + (Dump(x) + (", " + Dump(y) + "]"))
  {
    assert ItemsFrom(JList([x, y]), 2) == "]";
    assert ItemsFrom(JList([x, y]), 1) == ", " + Dump(y) + "]";
  }

  lemma EscapeTexts()
    ensures Escape('a') == "a" && Escape('\\') == "\\\\" && Escape('"') == "\\\""
    ensures Escape('\n') == "\\n" && Escape('\r') == "\\r" && Escape('\t') == "\\t"
    ensures Escape('\U{8}') == "\\b" && Escape('\U{C}') == "\\f" && Escape('\U{7F}') == "\\u007f"
  {
    assert Hex4(0x7F) == "007f";
  }

  /** Beyond the basic plane a character is written as a surrogate pair. */
  lemma SurrogateText()
    ensures Escape('\U{1F600}') == "\\u" + "d83d" + "\\u" + "de00"
  {
    SurrogateUnits();
    HexText();
  }

  lemma SurrogateUnits()
    ensures FirstUnit('\U{1F600}') == 0xD83D && SecondUnit('\U{1F600}') == 0xDE00
  {}

  lemma HexText()
    ensures Hex4(0xD83D) == "d83d" && Hex4(0xDE00) == "de00"
  {}

  lemma TwoNames()
    ensures SortedNames({"a", "b"}) == ["a", "b"]
  {
    SortedNamesExact({"a", "b"});
    var names := SortedNames({"a", "b"});
    assert multiset({"a", "b"}) == multiset{"a", "b"};
    assert |names| == |multiset(names)| == 2;
    assert names[0] in names && names[1] in names && names[0] != names[1];
    assert StrLeq(names[0], names[1]) && !StrLeq("b", "a");
  }

  lemma QuotedLetter(c: char)
    requires ' ' <= c <= '~' && c != '"' && c != '\\'
    ensures Quoted([c]) == "\"" + [c] + "\""
  {
    assert [c][1..] == "" && Escaped("") == "";
    assert Escaped([c]) == [c];
  }

  /** An entry is its quoted name, a colon and its value. */
  lemma EntryText(j: Json, c: char)
    requires j.JObject? && [c] in j.fields && ' ' <= c <= '~' && c != '"' && c != '\\'
    ensures Entry(j, [c]) == "\"" + [c] + "\"" + ": " + Dump(j.fields[[c]])
  {
    QuotedLetter(c);
  }

  /** Entries are ordered by name and set apart by commas. */
  lemma ObjectText(j: Json)
    requires j.JObject? && j.fields.Keys == {"a", "b"}
    ensures Dump(j) == "{" + (Entry(j, "a") + (", " + Entry(j, "b") + "}"))
  {
    TwoNames();
    EntriesText(j);
    assert ["a", "b"][1..] == ["b"];
  }

  lemma EntriesText(j: Json)
    requires j.JObject? && "b" in j.fields
    ensures EntriesOf(j, ["b"]) == ", " + Entry(j, "b") + "}"
  {
    assert ["b"][1..] == [] && EntriesOf(j, []) == "}";
  }
}
