/** Schema canonicalisation (packages/agent_sdk/models.py): a recursive normal form over JSON values
    that ignores list order, letter case and surrounding blanks. */
module Schema {
  import opened Ordering
  import opened JsonText

  // ----- Strings -----

  function LowerChar(c: char): char {
    if 'A' <= c <= 'Z' then c - 'A' + 'a' else c
  }

  function Lower(s: string): (t: string)
    ensures |t| == |s| && forall i :: 0 <= i < |s| ==> t[i] == LowerChar(s[i])
  {
    seq(|s|, i requires 0 <= i < |s| => LowerChar(s[i]))
  }

  predicate Blank(c: char) {
    c == ' ' || '\t' <= c <= '\r' || '\U{1C}' <= c <= '\U{1F}'
  }

  function StripLeft(s: string): string {
    if s != [] && Blank(s[0]) then StripLeft(s[1..]) else s
  }

  function StripRight(s: string): string {
    if s != [] && Blank(s[|s| - 1]) then StripRight(s[..|s| - 1]) else s
  }

  /** `lower().strip()`, on ASCII letters and blanks. */
  function Fold(s: string): string { StripRight(StripLeft(Lower(s))) }

  // ----- The normal form -----

  predicate DumpLeq(a: Json, b: Json) { StrLeq(Dump(a), Dump(b)) }

  /** Lists are ordered by the text of their members. */
  function Norm(j: Json): Json {
    match j
    case JObject(fields) => JObject(map k | k in fields :: Norm(fields[k]))
    case JList(items) => JList(Sort(seq(|items|, i requires 0 <= i < |items| => Norm(items[i])), DumpLeq))
    case JString(s) => JString(Fold(s))
    case _ => j
  }

  function NormAll(items: seq<Json>): (r: seq<Json>)
    ensures |r| == |items| && forall i :: 0 <= i < |items| ==> r[i] == Norm(items[i])
  {
    seq(|items|, i requires 0 <= i < |items| => Norm(items[i]))
  }

  /** Equal up to the order of lists at every depth, and up to case and blanks in strings. */
  ghost predicate Same(a: Json, b: Json)
    decreases a
  {
    match a
    case JObject(fields) =>
      b.JObject? && fields.Keys == b.fields.Keys && forall k :: k in fields ==> Same(fields[k], b.fields[k])
    case JList(items) =>
      b.JList? && exists other: seq<Json> ::
        && multiset(other) == multiset(b.items) && |other| == |items|
        && forall i :: 0 <= i < |items| ==> Same(items[i], other[i])
    case JString(s) => b.JString? && Fold(s) == Fold(b.s)
    case _ => a == b
  }
}
