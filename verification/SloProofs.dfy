/** Agreement and monotonicity of the reliability quantities. */
module SloProofs {
  import opened Slo

  lemma {:induction false} CountsPartition(xs: seq<Interval>)
    ensures Count(xs, Good) + Count(xs, Bad) + Count(xs, Unknown) + Count(xs, Excluded) == |xs|
  {
    if xs != [] {
      CountsPartition(xs[..|xs| - 1]);
    }
  }

  /** Under every policy the eligible intervals are the good ones plus the reported bad ones, every
      interval is accounted for once, and the ratios stay within [0, 1]. */
  lemma EligibleIsGoodPlusBad(d: Definition, xs: seq<Interval>, short: seq<Interval>, long: seq<Interval>)
    ensures var e := Evaluate(d, xs, short, long);
            && e.eligible == e.good + e.bad
            && e.expected == e.eligible + e.excluded + (if d.policy == KeepPartial then e.unknown else 0)
            && 0.0 <= e.coverage <= 1.0 && 0.0 <= e.confidence <= e.coverage
            && (e.sli.Some? ==> 0.0 <= e.sli.value <= 1.0)
  {
    CountsPartition(xs);
    var e := Evaluate(d, xs, short, long);
    if xs != [] { RatioInUnit(Count(xs, Good) + Count(xs, Bad), |xs|); }
    if e.eligible > 0 { RatioInUnit(e.good, e.eligible); }
  }

  lemma RatioInUnit(a: nat, b: nat)
    requires a <= b && b > 0
    ensures 0.0 <= a as real / b as real <= 1.0
  {
    Divided(a as real, b as real, 1.0);
    Divided(a as real, b as real, 0.0);
  }

  /** Comparing a quotient is comparing with a product. */
  lemma Divided(a: real, b: real, c: real)
    requires b > 0.0
    ensures a / b >= c <==> a >= c * b
    ensures a / b <= c <==> a <= c * b
    ensures a / b > c <==> a > c * b
  {
    var q := a / b;
    assert q * b == a;
    assert q > c ==> q * b > c * b;
    assert q < c ==> q * b < c * b;
  }

  lemma AllowedIsZeroIff(n: real, o: real)
    requires n > 0.0 && 0.0 < o <= 1.0
    ensures n * (1.0 - o) >= 0.0 && (n * (1.0 - o) == 0.0 <==> o == 1.0)
  {
    if o < 1.0 { assert n * (1.0 - o) > 0.0; }
  }

  /** `good / n >= o` says the same as `bad <= n * (1 - o)` when good and bad make up n. */
  lemma MeetsIffWithin(good: real, bad: real, n: real, o: real)
    requires n > 0.0 && n == good + bad
    ensures good / n >= o <==> bad <= n * (1.0 - o)
  {
    Divided(good, n, o);
    assert n * (1.0 - o) == n - o * n;
  }

  /** The indicator meets the objective exactly when the bad intervals fit in the allowed budget,
      that is, when the remaining budget is not negative. */
  ghost predicate Agree(objective: real, eligible: int, bad: int, sli: real, b: Budget) {
    && (sli >= objective <==> bad as real <= eligible as real * (1.0 - objective))
    && b != NoBudget && (b.ZeroBudget? <==> objective == 1.0)
    && b.consumed == bad as real
    && (sli >= objective <==> b.remaining >= 0.0)
  }

  lemma BudgetAgrees(objective: real, eligible: nat, good: nat, bad: nat)
    requires 0.0 < objective <= 1.0 && eligible == good + bad && eligible > 0
    ensures Agree(objective, eligible, bad, good as real / eligible as real, ErrorBudget(objective, eligible, bad))
  {
    AllowedIsZeroIff(eligible as real, objective);
    MeetsIffWithin(good as real, bad as real, eligible as real, objective);
  }

  lemma SliMeetsObjectiveIffWithinBudget(d: Definition, xs: seq<Interval>, short: seq<Interval>, long: seq<Interval>)
    requires ValidDefinition(d)
    requires Evaluate(d, xs, short, long).eligible > 0
    ensures var e := Evaluate(d, xs, short, long);
            e.sli.Some? && Agree(d.objective, e.eligible, e.bad, e.sli.value, e.budget)
  {
    EligibleIsGoodPlusBad(d, xs, short, long);
    var e := Evaluate(d, xs, short, long);
    BudgetAgrees(d.objective, e.eligible, e.good, e.bad);
  }

  /** Over its own intervals, the burn rate is the consumed share of the budget. */
  lemma BurnIsConsumedShare(d: Definition, xs: seq<Interval>)
    requires ValidDefinition(d) && d.objective < 1.0
    requires Evaluate(d, xs, xs, xs).eligible > 0
    ensures var e := Evaluate(d, xs, xs, xs);
            && e.budget.Available?
            && e.shortBurn == e.longBurn == Rate(e.budget.consumedRatio)
  {
    var e := Evaluate(d, xs, xs, xs);
    RateIsShare(d.objective, e.eligible, e.bad);
  }

  lemma RateIsShare(objective: real, eligible: nat, bad: nat)
    requires 0.0 < objective < 1.0 && eligible > 0
    ensures var b := ErrorBudget(objective, eligible, bad);
            b.Available? && BurnRate(objective, eligible, bad) == Rate(b.consumedRatio)
  {
    AllowedIsZeroIff(eligible as real, objective);
    QuotientOfQuotient(bad as real, eligible as real, 1.0 - objective);
  }

  lemma QuotientOfQuotient(b: real, n: real, f: real)
    requires n > 0.0 && f > 0.0 && n * f > 0.0
    ensures (b / n) / f == b / (n * f)
  {
    var q := (b / n) / f;
    assert q * f == b / n;
    assert q * (n * f) == (q * f) * n == (b / n) * n == b;
  }

  // ----- Turning good intervals bad -----

  /** `ys` is `xs` with some good intervals turned bad. */
  ghost predicate Worsened(xs: seq<Interval>, ys: seq<Interval>) {
    && |xs| == |ys|
    && forall i :: 0 <= i < |xs| ==>
         xs[i].class_ == ys[i].class_ || (xs[i].class_ == Good && ys[i].class_ == Bad)
  }

  lemma {:induction false} WorsenedCounts(xs: seq<Interval>, ys: seq<Interval>)
    requires Worsened(xs, ys)
    ensures Count(xs, Unknown) == Count(ys, Unknown) && Count(xs, Excluded) == Count(ys, Excluded)
    ensures Count(xs, Bad) <= Count(ys, Bad)
  {
    if xs != [] {
      WorsenedCounts(xs[..|xs| - 1], ys[..|ys| - 1]);
    }
  }

  function HealthRank(h: Health): int {
    match h
    case Healthy => 0 case AtRisk => 1 case Critical => 2 case Exhausted => 3
    case UnknownHealth => 4 case PartialHealth => 5
  }

  function BurnRank(c: BurnClass): int {
    match c
    case Normal => 0 case Elevated => 1 case SlowBurn => 2 case FastBurn => 3 case CriticalBurn => 4
    case UnknownBurn => 5
  }

  lemma QuotientMonotone(a: real, b: real, c: real)
    requires a <= b && c > 0.0
    ensures a / c <= b / c
  {
    Divided(a, c, b / c);
    assert (b / c) * c == b;
  }

  lemma BurnRateMonotone(objective: real, eligible: int, bad: int, more: int)
    requires bad <= more
    ensures var r, s := BurnRate(objective, eligible, bad), BurnRate(objective, eligible, more);
            (r.Rate? <==> s.Rate?) && (r.Rate? ==> r.value <= s.value)
  {
    if eligible > 0 && 1.0 - objective > 0.0 {
      QuotientMonotone(bad as real, more as real, eligible as real);
      QuotientMonotone(bad as real / eligible as real, more as real / eligible as real, 1.0 - objective);
    }
  }

  lemma BurnWorsens(objective: real, xs: seq<Interval>, ys: seq<Interval>, policy: Policy)
    requires Worsened(xs, ys)
    ensures var r, s := BurnForEvidence(objective, xs, policy), BurnForEvidence(objective, ys, policy);
            (r.Rate? <==> s.Rate?) && (r.Rate? ==> r.value <= s.value)
  {
    WorsenedCounts(xs, ys);
    var excluded := Count(xs, Excluded) + if policy != CountAsBad then Count(xs, Unknown) else 0;
    var bad := Count(xs, Bad) + if policy == CountAsBad then Count(xs, Unknown) else 0;
    var more := Count(ys, Bad) + if policy == CountAsBad then Count(ys, Unknown) else 0;
    BurnRateMonotone(objective, |xs| - excluded, bad, more);
  }

  lemma HealthWorsens(objective: real, xs: seq<Interval>, ys: seq<Interval>, eligible: int, partial: bool, bad: nat, more: nat)
    requires bad <= more && |xs| == |ys|
    ensures var h := HealthOf(xs, eligible, partial, ErrorBudget(objective, eligible, bad), bad);
            var k := HealthOf(ys, eligible, partial, ErrorBudget(objective, eligible, more), more);
            HealthRank(h) <= HealthRank(k) && (h in {UnknownHealth, PartialHealth} || k in {UnknownHealth, PartialHealth} ==> h == k)
  {
    if 0.0 < objective <= 1.0 && eligible > 0 {
      var allowed := eligible as real * (1.0 - objective);
      if allowed != 0.0 {
        assert allowed > 0.0;
        QuotientMonotone(bad as real, more as real, allowed);
      }
    }
  }

  /** Turning good intervals bad, in the evidence and in the windows, never improves the state or
      the burn class, and leaves open what was open. */
  lemma WorseningNeverImproves(d: Definition, xs: seq<Interval>, ys: seq<Interval>,
                               short: seq<Interval>, short': seq<Interval>, long: seq<Interval>, long': seq<Interval>)
    requires Worsened(xs, ys) && Worsened(short, short') && Worsened(long, long')
    ensures var e, f := Evaluate(d, xs, short, long), Evaluate(d, ys, short', long');
            && HealthRank(e.health) <= HealthRank(f.health) && e.evidence == f.evidence
            && BurnRank(e.burnClass) <= BurnRank(f.burnClass)
            && (e.burnClass == UnknownBurn <==> f.burnClass == UnknownBurn)
  {
    WorsenedCounts(xs, ys);
    var e, f := Evaluate(d, xs, short, long), Evaluate(d, ys, short', long');
    HealthWorsens(d.objective, xs, ys, e.eligible, d.policy == KeepPartial && e.unknown > 0, e.bad, f.bad);
    BurnWorsens(d.objective, short, short', d.policy);
    BurnWorsens(d.objective, long, long', d.policy);
  }

  lemma OverspentIsExhausted(objective: real, xs: seq<Interval>, eligible: nat, bad: nat)
    requires ErrorBudget(objective, eligible, bad) != NoBudget && ErrorBudget(objective, eligible, bad).remaining < 0.0
    ensures HealthOf(xs, eligible, false, ErrorBudget(objective, eligible, bad), bad) in {Exhausted, UnknownHealth}
  {
    var b := ErrorBudget(objective, eligible, bad);
    if b.Available? {
      AllowedIsZeroIff(eligible as real, objective);
      Divided(bad as real, b.total, 1.0);
    }
  }

  /** Missing the objective exhausts the budget, whenever the state is decided at all. */
  lemma MissedObjectiveExhausts(d: Definition, xs: seq<Interval>, short: seq<Interval>, long: seq<Interval>)
    requires ValidDefinition(d)
    requires var e := Evaluate(d, xs, short, long); e.sli.Some? && e.sli.value < d.objective
    ensures Evaluate(d, xs, short, long).health in {Exhausted, PartialHealth}
  {
    var e := Evaluate(d, xs, short, long);
    SliMeetsObjectiveIffWithinBudget(d, xs, short, long);
    OverspentIsExhausted(d.objective, xs, e.eligible, e.bad);
  }
}
