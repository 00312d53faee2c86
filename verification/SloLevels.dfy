/** Burn classes and health states, decided by counts of intervals alone. */
module SloLevels {
  import opened Optional
  import opened Slo
  import opened SloProofs

  // ----- Counts -----

  ghost function Places(xs: seq<Interval>, c: Classification): set<int> {
    set i | 0 <= i < |xs| && xs[i].class_ == c
  }

  lemma {:induction false} CountExact(xs: seq<Interval>, c: Classification)
    ensures Count(xs, c) == |Places(xs, c)|
  {
    if xs != [] {
      var n := |xs| - 1;
      var init := xs[..n];
      CountExact(init, c);
      assert Places(xs, c) == Places(init, c) + if xs[n].class_ == c then {n} else {};
      assert n !in Places(init, c);
    }
  }

  /** Bad intervals of some evidence: missing ones count if the policy says so. */
  function BadIn(d: Definition, xs: seq<Interval>): int {
    if d.policy == CountAsBad then Count(xs, Bad) + Count(xs, Unknown) else Count(xs, Bad)
  }

  /** Intervals that count at all: good ones and bad ones. */
  function EligibleIn(d: Definition, xs: seq<Interval>): int { Count(xs, Good) + BadIn(d, xs) }

  /** `share` is the share of `k` in `n`. */
  ghost predicate IsShare(share: real, k: int, n: int) { share * n as real == k as real }

  lemma QuotientIsShare(k: int, n: int)
    requires n != 0
    ensures IsShare(k as real / n as real, k, n)
  {}

  lemma NothingIsShare()
    ensures IsShare(0.0, 0, 0)
  {}

  /** What an evaluation reports as counted. */
  lemma CountsReported(d: Definition, xs: seq<Interval>, short: seq<Interval>, long: seq<Interval>)
    ensures var e := Evaluate(d, xs, short, long);
            && e.expected == |xs| && e.good == Count(xs, Good) && e.unknown == Count(xs, Unknown)
            && e.bad == BadIn(d, xs) && e.eligible == EligibleIn(d, xs)
            && e.excluded == Count(xs, Excluded) + (if d.policy == Exclude then Count(xs, Unknown) else 0)
            && (|xs| >= 2 ==> e.confidence == e.coverage) && (|xs| < 2 ==> 2.0 * e.confidence == e.coverage)
  {
    CountsPartition(xs);
  }

  /** The shares it derives: the indicator is that of the good among the eligible, the coverage that of the
      known among all. */
  lemma SharesReported(d: Definition, xs: seq<Interval>, short: seq<Interval>, long: seq<Interval>)
    ensures var e := Evaluate(d, xs, short, long);
            && IsShare(e.coverage, Count(xs, Good) + Count(xs, Bad), |xs|)
            && (e.sli.Some? <==> e.eligible > 0) && (e.eligible > 0 ==> IsShare(e.sli.value, e.good, e.eligible))
  {
    CountsPartition(xs);
    var e := Evaluate(d, xs, short, long);
    if xs != [] { QuotientIsShare(Count(xs, Good) + Count(xs, Bad), |xs|); } else { NothingIsShare(); }
    if e.eligible > 0 { QuotientIsShare(e.good, e.eligible); }
  }

  // ----- Burn classes -----

  /** There is evidence in the window and a budget to burn. */
  ghost predicate Measurable(d: Definition, xs: seq<Interval>) { EligibleIn(d, xs) > 0 && d.objective < 1.0 }

  /** So many bad intervals are at least `t` times as many as the objective allows. */
  ghost predicate Reaches(bad: int, t: real, objective: real, eligible: int) {
    bad as real >= t * ((1.0 - objective) * eligible as real)
  }

  /** The window burns at least `t` times as fast as the budget allows. */
  ghost predicate Burns(d: Definition, xs: seq<Interval>, t: real) {
    Reaches(BadIn(d, xs), t, d.objective, EligibleIn(d, xs))
  }

  lemma RateIs(objective: real, eligible: int, bad: int, t: real)
    requires eligible > 0 && objective < 1.0
    ensures BurnRate(objective, eligible, bad).Rate?
    ensures BurnRate(objective, eligible, bad).value >= t <==> Reaches(bad, t, objective, eligible)
  {
    var f, n, b := 1.0 - objective, eligible as real, bad as real;
    Divided(b / n, f, t);
    Divided(b, n, t * f);
    assert (t * f) * n == t * (f * n);
  }

  lemma WindowRate(d: Definition, xs: seq<Interval>, t: real)
    ensures BurnForEvidence(d.objective, xs, d.policy).Rate? <==> Measurable(d, xs)
    ensures Measurable(d, xs) ==> (BurnForEvidence(d.objective, xs, d.policy).value >= t <==> Burns(d, xs, t))
  {
    CountsPartition(xs);
    if Measurable(d, xs) { RateIs(d.objective, EligibleIn(d, xs), BadIn(d, xs), t); }
  }

  ghost predicate BothBurn(d: Definition, short: seq<Interval>, long: seq<Interval>, t: real) {
    Burns(d, short, t) && Burns(d, long, t)
  }

  lemma ClassOfRates(s: real, l: real)
    ensures var c := ClassifyBurn(Rate(s), Rate(l));
            && (c == CriticalBurn <==> s >= 14.4 && l >= 14.4)
            && (c == FastBurn <==> s >= 6.0 && l >= 6.0 && !(s >= 14.4 && l >= 14.4))
            && (c == SlowBurn <==> s >= 2.0 && l >= 2.0 && !(s >= 6.0 && l >= 6.0))
            && (c == Elevated <==> (s >= 1.0 || l >= 1.0) && !(s >= 2.0 && l >= 2.0))
            && (c == Normal <==> !(s >= 1.0) && !(l >= 1.0))
            && c != UnknownBurn
  {}

  /** The class follows from how both windows burn: sustained burning takes both of them. */
  ghost predicate ClassRight(d: Definition, short: seq<Interval>, long: seq<Interval>, c: BurnClass) {
    && (c == CriticalBurn <==> BothBurn(d, short, long, 14.4))
    && (c == FastBurn <==> BothBurn(d, short, long, 6.0) && !BothBurn(d, short, long, 14.4))
    && (c == SlowBurn <==> BothBurn(d, short, long, 2.0) && !BothBurn(d, short, long, 6.0))
    && (c == Elevated <==> (Burns(d, short, 1.0) || Burns(d, long, 1.0)) && !BothBurn(d, short, long, 2.0))
    && (c == Normal <==> !Burns(d, short, 1.0) && !Burns(d, long, 1.0))
  }

  lemma MeasuredClass(d: Definition, short: seq<Interval>, long: seq<Interval>)
    requires Measurable(d, short) && Measurable(d, long)
    ensures ClassRight(d, short, long,
              ClassifyBurn(BurnForEvidence(d.objective, short, d.policy), BurnForEvidence(d.objective, long, d.policy)))
    ensures ClassifyBurn(BurnForEvidence(d.objective, short, d.policy), BurnForEvidence(d.objective, long, d.policy)) != UnknownBurn
  {
    var s, l := BurnForEvidence(d.objective, short, d.policy), BurnForEvidence(d.objective, long, d.policy);
    WindowRates(d, short);
    WindowRates(d, long);
    ClassOfRates(s.value, l.value);
  }

  lemma WindowRates(d: Definition, xs: seq<Interval>)
    requires Measurable(d, xs)
    ensures var r := BurnForEvidence(d.objective, xs, d.policy);
            && r.Rate? && (r.value >= 1.0 <==> Burns(d, xs, 1.0)) && (r.value >= 2.0 <==> Burns(d, xs, 2.0))
            && (r.value >= 6.0 <==> Burns(d, xs, 6.0)) && (r.value >= 14.4 <==> Burns(d, xs, 14.4))
  {
    WindowRate(d, xs, 1.0);
    WindowRate(d, xs, 2.0);
    WindowRate(d, xs, 6.0);
    WindowRate(d, xs, 14.4);
  }

  /** The burn class of an evaluation, from the counts of its two windows. */
  lemma BurnClassExact(d: Definition, xs: seq<Interval>, short: seq<Interval>, long: seq<Interval>)
    ensures var c := Evaluate(d, xs, short, long).burnClass;
            && (c == UnknownBurn <==> !Measurable(d, short) || !Measurable(d, long))
            && (c != UnknownBurn ==> ClassRight(d, short, long, c))
  {
    WindowRate(d, short, 1.0);
    WindowRate(d, long, 1.0);
    if Measurable(d, short) && Measurable(d, long) { MeasuredClass(d, short, long); }
  }

  /** The parts of a budget: what is allowed, what is used up and what remains of it. */
  lemma BudgetExact(objective: real, eligible: int, bad: int)
    requires 0.0 < objective < 1.0 && eligible > 0
    ensures var b := ErrorBudget(objective, eligible, bad);
            && b.Available? && b.total == eligible as real * (1.0 - objective) && b.consumed == bad as real
            && b.remaining == b.total - b.consumed && b.consumedRatio * b.total == b.consumed
            && b.remainingRatio == 1.0 - b.consumedRatio
  {
    AllowedIsZeroIff(eligible as real, objective);
  }

  // ----- Health -----

  /** More bad intervals than that share of what the objective allows. */
  ghost predicate Exceeds(bad: int, share: real, objective: real, eligible: int) {
    bad as real > share * ((1.0 - objective) * eligible as real)
  }

  /** Missing evidence that the policy neither excludes nor counts. */
  ghost predicate Partly(d: Definition, xs: seq<Interval>) { d.policy == KeepPartial && Count(xs, Unknown) > 0 }

  lemma RatioUses(objective: real, eligible: int, bad: int, share: real)
    requires 0.0 < objective < 1.0 && eligible > 0
    ensures var b := ErrorBudget(objective, eligible, bad);
            && b.Available? && (b.remainingRatio < 1.0 - share <==> Exceeds(bad, share, objective, eligible))
            && (b.remainingRatio <= 1.0 - share <==> Reaches(bad, share, objective, eligible))
  {
    var allowed, ratio := BudgetIs(objective, eligible, bad);
    SharesOf(bad, share, objective, eligible, allowed);
    RemainingOf(bad as real, allowed, share, ratio);
  }

  lemma BudgetIs(objective: real, eligible: int, bad: int) returns (allowed: real, ratio: real)
    requires 0.0 < objective < 1.0 && eligible > 0
    ensures allowed == eligible as real * (1.0 - objective) && allowed > 0.0 && ratio == 1.0 - bad as real / allowed
    ensures ErrorBudget(objective, eligible, bad).Available? && ErrorBudget(objective, eligible, bad).remainingRatio == ratio
  {
    allowed := eligible as real * (1.0 - objective);
    AllowedIsZeroIff(eligible as real, objective);
    ratio := 1.0 - bad as real / allowed;
  }

  lemma SharesOf(bad: int, share: real, objective: real, eligible: int, allowed: real)
    requires allowed == eligible as real * (1.0 - objective)
    ensures Exceeds(bad, share, objective, eligible) <==> bad as real > share * allowed
    ensures Reaches(bad, share, objective, eligible) <==> bad as real >= share * allowed
  {
    assert (1.0 - objective) * eligible as real == allowed;
  }

  lemma RemainingOf(bad: real, allowed: real, share: real, ratio: real)
    requires allowed > 0.0 && ratio == 1.0 - bad / allowed
    ensures ratio < 1.0 - share <==> bad > share * allowed
    ensures ratio <= 1.0 - share <==> bad >= share * allowed
  {
    Divided(bad, allowed, share);
  }

  /** The limits of the health states: half, nine tenths and all of the allowed bad intervals. */
  ghost predicate HealthRight(objective: real, eligible: int, bad: int, h: Health) {
    && (h == Exhausted <==> Reaches(bad, 0.999999999999, objective, eligible))
    && (h == Critical <==> Exceeds(bad, 0.9, objective, eligible) && !Reaches(bad, 0.999999999999, objective, eligible))
    && (h == AtRisk <==> Exceeds(bad, 0.5, objective, eligible) && !Exceeds(bad, 0.9, objective, eligible))
    && (h == Healthy <==> !Exceeds(bad, 0.5, objective, eligible))
  }

  lemma HealthOfBudget(xs: seq<Interval>, objective: real, eligible: int, bad: int)
    requires xs != [] && 0.0 < objective < 1.0 && eligible > 0
    ensures HealthRight(objective, eligible, bad, HealthOf(xs, eligible, false, ErrorBudget(objective, eligible, bad), bad))
  {
    RatioUses(objective, eligible, bad, 0.999999999999);
    RatioUses(objective, eligible, bad, 0.9);
    RatioUses(objective, eligible, bad, 0.5);
  }

  lemma HealthWithBudget(d: Definition, xs: seq<Interval>, short: seq<Interval>, long: seq<Interval>)
    requires ValidDefinition(d) && d.objective < 1.0 && EligibleIn(d, xs) > 0 && !Partly(d, xs)
    ensures HealthRight(d.objective, EligibleIn(d, xs), BadIn(d, xs), Evaluate(d, xs, short, long).health)
  {
    CountsReported(d, xs, short, long);
    CountsPartition(xs);
    HealthOfBudget(xs, d.objective, EligibleIn(d, xs), BadIn(d, xs));
    HealthIs(d, xs, short, long);
  }

  lemma HealthIs(d: Definition, xs: seq<Interval>, short: seq<Interval>, long: seq<Interval>)
    ensures var e := Evaluate(d, xs, short, long);
            e.health == HealthOf(xs, e.eligible, Partly(d, xs), ErrorBudget(d.objective, e.eligible, e.bad), e.bad)
  {}

  /** The other states of health: nothing eligible, evidence withheld, or no budget, which allows no bad
      interval at all. */
  lemma HealthExact(d: Definition, xs: seq<Interval>, short: seq<Interval>, long: seq<Interval>)
    requires ValidDefinition(d)
    ensures var e := Evaluate(d, xs, short, long);
            && (e.health == UnknownHealth <==> EligibleIn(d, xs) == 0)
            && (e.health == PartialHealth <==> EligibleIn(d, xs) > 0 && Partly(d, xs))
            && (EligibleIn(d, xs) > 0 && !Partly(d, xs) && d.objective == 1.0 ==>
                  e.health == if BadIn(d, xs) > 0 then Exhausted else Healthy)
            && (e.evidence == EvidenceMissing <==> e.health == UnknownHealth)
            && (e.evidence == EvidencePartial <==> e.health == PartialHealth)
  {
    CountsPartition(xs);
    if EligibleIn(d, xs) > 0 { AllowedIsZeroIff(EligibleIn(d, xs) as real, d.objective); }
  }
}
