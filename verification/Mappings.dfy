/** Field definitions of an index mapping and when one may stand for another
    (packages/elastic_store/registry.py). */
module Mappings {
  import opened Optional

  /** `extras` are the attributes that no comparison looks at. */
  datatype Field = Field(
    kind: Option<string>, fields: map<string, Field>, properties: map<string, Field>, extras: map<string, string>)

  type Properties = map<string, Field>

  /** The immutable parts of `expected` are found in `installed`. */
  predicate TypeMatches(expected: Field, installed: Field) {
    && expected.kind == installed.kind
    && (forall n :: n in expected.fields ==>
          n in installed.fields && TypeMatches(expected.fields[n], installed.fields[n]))
    && (forall n :: n in expected.properties ==>
          n in installed.properties && TypeMatches(expected.properties[n], installed.properties[n]))
  }

  const DECISION_INDEX := "dataobs-data-product-membership-decisions-v1"

  /** Matching definitions, and the one released exception. */
  predicate UpdateMatches(index: string, field: string, expected: Field, installed: Field) {
    || TypeMatches(expected, installed)
    || (index == DECISION_INDEX && field == "reason" &&
        expected.kind == Some("match_only_text") && installed.kind == Some("keyword"))
  }

  lemma {:induction false} TypeMatchesReflexive(f: Field)
    ensures TypeMatches(f, f)
  {
    forall n | n in f.fields ensures TypeMatches(f.fields[n], f.fields[n]) {
      TypeMatchesReflexive(f.fields[n]);
    }
    forall n | n in f.properties ensures TypeMatches(f.properties[n], f.properties[n]) {
      TypeMatchesReflexive(f.properties[n]);
    }
  }

  lemma {:induction false} TypeMatchesTransitive(f: Field, g: Field, h: Field)
    requires TypeMatches(f, g) && TypeMatches(g, h)
    ensures TypeMatches(f, h)
  {
    forall n | n in f.fields ensures n in h.fields && TypeMatches(f.fields[n], h.fields[n]) {
      TypeMatchesTransitive(f.fields[n], g.fields[n], h.fields[n]);
    }
    forall n | n in f.properties ensures n in h.properties && TypeMatches(f.properties[n], h.properties[n]) {
      TypeMatchesTransitive(f.properties[n], g.properties[n], h.properties[n]);
    }
  }

  /** The two released shapes of an explicit mapping, and everything else. A wrapper that is `exact`
      holds nothing but its two keys. */
  datatype Contract =
    | Plain(properties: Properties)
    | Wrapper(dynamic: string, exact: bool, properties: Properties)
    | NotFields

  function PropertiesOf(c: Contract): Option<Properties> {
    match c
    case Plain(p) => Some(p)
    case Wrapper(dynamic, exact, p) => if dynamic == "strict" && exact then Some(p) else None
    case NotFields => None
  }

  /** An installed mapping. */
  datatype Mapping = Mapping(strict: bool, properties: Properties)
}
