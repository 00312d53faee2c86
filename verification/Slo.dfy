/** Interval arithmetic of data-reliability objectives (packages/domain_model/slo.py):
    the indicator, the error budget and the burn rate are computed by separate code and
    have to agree under every missing-evidence policy. Floats are exact reals. */
module Slo {
  import opened Optional

  datatype Classification = Good | Bad | Unknown | Excluded

  datatype Interval = Interval(class_: Classification, ref: Option<string>, reason: Option<string>)

  datatype Policy = Exclude | CountAsBad | KeepPartial

  /** `objective` lies in (0, 1], as the definition's own validation demands. */
  datatype Definition = Definition(objective: real, policy: Policy)

  predicate ValidDefinition(d: Definition) { 0.0 < d.objective <= 1.0 }

  datatype Budget =
    | NoBudget
    | ZeroBudget(consumed: real, remaining: real)
    | Available(total: real, consumed: real, remaining: real, consumedRatio: real, remainingRatio: real)

  datatype Burn = Rate(value: real) | InsufficientSample | ZeroErrorBudget

  datatype BurnClass = Normal | Elevated | SlowBurn | FastBurn | CriticalBurn | UnknownBurn

  datatype Health = Healthy | AtRisk | Critical | Exhausted | UnknownHealth | PartialHealth

  datatype EvidenceStatus = EvidenceAvailable | EvidencePartial | EvidenceMissing

  datatype Evaluation = Evaluation(
    sli: Option<real>, expected: nat, eligible: int, good: nat, bad: nat, unknown: nat, excluded: nat,
    coverage: real, confidence: real, budget: Budget, shortBurn: Burn, longBurn: Burn, burnClass: BurnClass,
    health: Health, evidence: EvidenceStatus, refs: set<string>, exclusionReasons: set<string>)

  datatype Outcome = Evaluated(evaluation: Evaluation) | InvalidWindow

  // ----- The three quantities -----

  function ErrorBudget(objective: real, eligible: int, bad: int): Budget {
    if !(0.0 < objective <= 1.0) || eligible <= 0 then NoBudget
    else
      var allowed := eligible as real * (1.0 - objective);
      if allowed == 0.0 then ZeroBudget(bad as real, if bad != 0 then -(bad as real) else 0.0)
      else
        var ratio := bad as real / allowed;
        Available(allowed, bad as real, allowed - bad as real, ratio, 1.0 - ratio)
  }

  function BurnRate(objective: real, eligible: int, bad: int): Burn {
    if eligible <= 0 then InsufficientSample
    else if 1.0 - objective <= 0.0 then ZeroErrorBudget
    else Rate((bad as real / eligible as real) / (1.0 - objective))
  }

  function Min(a: real, b: real): real { if a <= b then a else b }

  function Max(a: real, b: real): real { if a >= b then a else b }

  function ClassifyBurn(short: Burn, long: Burn): BurnClass {
    if !short.Rate? || !long.Rate? then UnknownBurn
    else
      var lower := Min(short.value, long.value);
      if lower >= 14.4 then CriticalBurn
      else if lower >= 6.0 then FastBurn
      else if lower >= 2.0 then SlowBurn
      else if Max(short.value, long.value) >= 1.0 then Elevated
      else Normal
  }

  function Count(xs: seq<Interval>, c: Classification): nat {
    if xs == [] then 0
    else Count(xs[..|xs| - 1], c) + if xs[|xs| - 1].class_ == c then 1 else 0
  }

  function BurnForEvidence(objective: real, xs: seq<Interval>, policy: Policy): Burn {
    var bad := Count(xs, Bad) + if policy == CountAsBad then Count(xs, Unknown) else 0;
    var excluded := Count(xs, Excluded) + if policy != CountAsBad then Count(xs, Unknown) else 0;
    BurnRate(objective, |xs| - excluded, bad)
  }

  // ----- The evaluation -----

  function Refs(xs: seq<Interval>): set<string> {
    set x | x in xs && x.ref.Some? && x.ref.value != "" :: x.ref.value
  }

  function ExclusionReasons(xs: seq<Interval>): set<string> {
    set x | x in xs && x.class_ == Excluded && x.reason.Some? && x.reason.value != "" :: x.reason.value
  }

  function HealthOf(xs: seq<Interval>, eligible: int, partial: bool, budget: Budget, bad: int): Health {
    if xs == [] || eligible <= 0 then UnknownHealth
    else if partial then PartialHealth
    else if budget.ZeroBudget? then if bad != 0 then Exhausted else Healthy
    else if budget.Available? && budget.remainingRatio <= 0.000000000001 then Exhausted
    else if budget.Available? && budget.remainingRatio < 0.1 then Critical
    else if budget.Available? && budget.remainingRatio < 0.5 then AtRisk
    else Healthy
  }

  function StatusOf(h: Health): EvidenceStatus {
    match h
    case UnknownHealth => EvidenceMissing
    case PartialHealth => EvidencePartial
    case _ => EvidenceAvailable
  }

  /** The evaluation of `xs`, with the burn taken over the two windows. */
  function Evaluate(d: Definition, xs: seq<Interval>, short: seq<Interval>, long: seq<Interval>): Evaluation {
    Conclude(d, xs, short, long, Tallied(Count(xs, Good), Count(xs, Bad), Count(xs, Unknown), Count(xs, Excluded)),
             Refs(xs), ExclusionReasons(xs))
  }

  datatype Counters = Tallied(good: nat, bad: nat, unknown: nat, excluded: nat)

  /** What the counters come to. */
  function Conclude(d: Definition, xs: seq<Interval>, short: seq<Interval>, long: seq<Interval>,
                    counts: Counters, refs: set<string>, reasons: set<string>): Evaluation {
    var unknown := counts.unknown;
    var bad := counts.bad + if d.policy == CountAsBad then unknown else 0;
    var excluded := counts.excluded + if d.policy == Exclude then unknown else 0;
    var eligible := |xs| - excluded - if d.policy == KeepPartial then unknown else 0;
    var good := counts.good;
    var coverage := if xs == [] then 0.0 else (good + counts.bad) as real / |xs| as real;
    var budget := ErrorBudget(d.objective, eligible, bad);
    var shortBurn := BurnForEvidence(d.objective, short, d.policy);
    var longBurn := BurnForEvidence(d.objective, long, d.policy);
    var health := HealthOf(xs, eligible, d.policy == KeepPartial && unknown > 0, budget, bad);
    Evaluation(
      if eligible > 0 then Some(good as real / eligible as real) else None,
      |xs|, eligible, good, bad, unknown, excluded,
      coverage, if |xs| >= 2 then coverage else coverage * 0.5,
      budget, shortBurn, longBurn, ClassifyBurn(shortBurn, longBurn),
      health, StatusOf(health), refs, reasons)
  }

  /** One pass over the intervals fills the counters and the two sets. */
  method Tally(xs: seq<Interval>)
    returns (counts: map<Classification, nat>, refs: set<string>, reasons: set<string>)
    ensures forall c :: c in counts && counts[c] == Count(xs, c)
    ensures refs == Refs(xs) && reasons == ExclusionReasons(xs)
  {
    counts := map[Good := 0, Bad := 0, Unknown := 0, Excluded := 0];
    refs, reasons := {}, {};
    forall c ensures c in counts && counts[c] == 0 {
      match c case Good => case Bad => case Unknown => case Excluded =>
    }
    for i := 0 to |xs|
      invariant forall c :: c in counts && counts[c] == Count(xs[..i], c)
      invariant refs == Refs(xs[..i]) && reasons == ExclusionReasons(xs[..i])
    {
      var x := xs[i];
      assert xs[..i + 1] == xs[..i] + [x];
      assert xs[..i + 1][..i] == xs[..i];
      counts := counts[x.class_ := counts[x.class_] + 1];
      if x.ref.Some? && x.ref.value != "" {
        refs := refs + {x.ref.value};
      }
      if x.class_ == Excluded && x.reason.Some? && x.reason.value != "" {
        reasons := reasons + {x.reason.value};
      }
    }
    assert xs[..|xs|] == xs;
  }

  function Or(window: Option<seq<Interval>>, xs: seq<Interval>): seq<Interval> {
    if window.Some? then window.value else xs
  }

  /** A missing window stands for the whole evidence; the evaluation window may not be empty or
      reach into the future. */
  method EvaluateIntervals(d: Definition, xs: seq<Interval>, windowStart: int, windowEnd: int, evaluatedAt: int,
                           short: Option<seq<Interval>>, long: Option<seq<Interval>>) returns (r: Outcome)
    ensures r == if windowStart >= windowEnd || windowEnd > evaluatedAt then InvalidWindow
                 else Evaluated(Evaluate(d, xs, Or(short, xs), Or(long, xs)))
  {
    if windowStart >= windowEnd || windowEnd > evaluatedAt {
      return InvalidWindow;
    }
    var counts, refs, reasons := Tally(xs);
    var tallied := Tallied(counts[Good], counts[Bad], counts[Unknown], counts[Excluded]);
    r := Evaluated(Conclude(d, xs, Or(short, xs), Or(long, xs), tallied, refs, reasons));
  }
}
