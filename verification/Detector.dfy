/** The anomaly detector of packages/streaming/intelligence.py: a robust baseline, one evaluation,
    and runs in which each evaluation is fed the previous one. */
module Detector {
  import opened Optional
  import opened Ordering
  import opened Statistics

  datatype PointStatus = Measured | Missing | Partial | Stale | Estimated | Inferred

  datatype Point = Point(timestamp: int, value: Option<real>, status: PointStatus)

  datatype Series = Series(points: seq<Point>, expectedBuckets: int)

  datatype Direction = High | Low | Both

  datatype Definition = Definition(
    enabled: bool, direction: Direction, minimumSamples: int, maximumSamples: int,
    warning: real, severe: real, requiredAnomalies: int, recoveryCount: int)

  predicate ValidDefinition(d: Definition) {
    3 <= d.minimumSamples <= d.maximumSamples <= 10000 && d.requiredAnomalies >= 1 && d.recoveryCount >= 1
  }

  datatype State = Normal | Watch | Anomalous | Severe | Recovering | InsufficientData | Disabled

  datatype Previous = Previous(state: State, anomalies: int, recoveries: int)

  const START := Previous(InsufficientData, 0, 0)

  datatype Baseline = Baseline(
    median: real, mad: real, lower: real, upper: real, samples: nat, coverage: real)

  datatype Evaluation = Evaluation(
    state: State, observed: Option<real>, baseline: Option<Baseline>, score: Option<real>,
    anomalies: int, recoveries: int)

  // ----- The baseline -----

  predicate TimeLeq(a: Point, b: Point) { a.timestamp <= b.timestamp }

  predicate Usable(p: Point) { p.value.Some? && p.status != Missing && p.status != Stale }

  function Values(points: seq<Point>): seq<real> {
    if points == [] then []
    else (if Usable(points[0]) then [points[0].value.value] else []) + Values(points[1..])
  }

  function Latest(xs: seq<real>, k: int): seq<real> {
    if 0 <= k < |xs| then xs[|xs| - k..] else xs
  }

  function Min(a: int, b: int): int { if a <= b then a else b }

  function Max(a: int, b: int): int { if a >= b then a else b }

  function MinReal(a: real, b: real): real { if a <= b then a else b }

  /** The usable values in time order, at most `maximum` of them and always at least one kept. */
  function Sample(points: seq<Point>, maximum: int): seq<real> {
    Latest(Values(Sort(points, TimeLeq)), Max(1, Min(maximum, 10000)))
  }

  function RobustBaseline(points: seq<Point>, expectedBuckets: int, maximum: int): Option<Baseline> {
    var xs := Sample(points, maximum);
    if xs == [] then None
    else Some(Baseline(Median(xs), Mad(xs), Quantile(xs, 0.1), Quantile(xs, 0.9), |xs|,
                       MinReal(1.0, |xs| as real / Max(1, expectedBuckets) as real)))
  }

  // ----- One evaluation -----

  datatype Verdict = Undecided | Within | Abnormal(severe: bool)

  predicate Directional(direction: Direction, delta: real) {
    direction == Both || (direction == High && delta > 0.0) || (direction == Low && delta < 0.0)
  }

  /** All points but the last one listed feed the baseline. */
  function SampleOf(d: Definition, s: Series): seq<real> {
    Sample(if s.points == [] then [] else s.points[..|s.points| - 1], d.maximumSamples)
  }

  function BaselineOf(d: Definition, s: Series): Option<Baseline> {
    RobustBaseline(if s.points == [] then [] else s.points[..|s.points| - 1],
                   Max(0, s.expectedBuckets - 1), d.maximumSamples)
  }

  /** The point with the latest timestamp. */
  function Current(s: Series): Point
    requires s.points != []
  {
    SortLength(s.points, TimeLeq);
    Sort(s.points, TimeLeq)[|s.points| - 1]
  }

  lemma SampleNeedsPoints(d: Definition, s: Series)
    ensures SampleOf(d, s) != [] ==> s.points != []
  {}

  /** The judgement of a value against a sample. */
  function JudgeValue(d: Definition, x: real, median: real, mad: real): Verdict {
    var delta := x - median;
    if Directional(d.direction, delta) && Score(delta, mad) >= d.warning
    then Abnormal(Score(delta, mad) >= d.severe) else Within
  }

  /** The judgement of one series, before any history. */
  function Judge(d: Definition, s: Series): Verdict {
    var xs := SampleOf(d, s);
    SampleNeedsPoints(d, s);
    if |xs| < Max(1, d.minimumSamples) || Current(s).value.None? then Undecided
    else JudgeValue(d, Current(s).value.value, Median(xs), Mad(xs))
  }

  /** The transition taken on a judgement. */
  function Transition(d: Definition, v: Verdict, previous: Previous): Previous {
    match v
    case Undecided => Previous(InsufficientData, 0, 0)
    case Abnormal(severe) =>
      var count := previous.anomalies + 1;
      Previous(if severe then Severe else if count >= d.requiredAnomalies then Anomalous else Watch, count, 0)
    case Within =>
      var recoveries := if previous.state in {Anomalous, Severe, Recovering} then previous.recoveries + 1 else 0;
      Previous(if recoveries != 0 && recoveries < d.recoveryCount then Recovering else Normal, 0, recoveries)
  }

  function EvaluateAnomaly(d: Definition, s: Series, previous: Previous): Evaluation {
    if !d.enabled then Evaluation(Disabled, None, None, None, 0, 0)
    else
      var baseline := BaselineOf(d, s);
      SampleNeedsPoints(d, s);
      if baseline.None? then Evaluation(InsufficientData, None, None, None, 0, 0)
      else
        var current := Current(s).value;
        if baseline.value.samples < d.minimumSamples || current.None? then
          Evaluation(InsufficientData, current, baseline, None, 0, 0)
        else
          var verdict := JudgeValue(d, current.value, baseline.value.median, baseline.value.mad);
          var next := Transition(d, verdict, previous);
          var score := Score(current.value - baseline.value.median, baseline.value.mad);
          Evaluation(next.state, current, baseline, Some(score), next.anomalies, next.recoveries)
  }

  function AsPrevious(e: Evaluation): Previous { Previous(e.state, e.anomalies, e.recoveries) }

  /** What an evaluation hands on is decided by the judgement and the previous evaluation alone. */
  lemma EvaluationIsTransition(d: Definition, s: Series, previous: Previous)
    requires d.enabled
    ensures AsPrevious(EvaluateAnomaly(d, s, previous)) == Transition(d, Judge(d, s), previous)
  {}

  // ----- What a baseline and a judgement mean -----

  /** Some usable point has the value `x`. */
  ghost predicate Gives(points: seq<Point>, x: real) {
    exists p :: p in points && Usable(p) && p.value.value == x
  }

  lemma {:induction false} ValuesExact(points: seq<Point>, x: real)
    ensures x in Values(points) <==> Gives(points, x)
  {
    if points != [] {
      ValuesExact(points[1..], x);
      assert points == [points[0]] + points[1..];
    }
  }

  lemma TimeOrder()
    ensures Total(TimeLeq)
  {}

  lemma SampleExact(points: seq<Point>, maximum: int)
    ensures forall x :: x in Sample(points, maximum) ==> Gives(points, x)
    ensures Sample(points, maximum) == [] <==> forall p :: p in points ==> !Usable(p)
    ensures |Sample(points, maximum)| <= Max(1, Min(maximum, 10000))
  {
    var ordered := Sort(points, TimeLeq);
    TimeOrder();
    SortCorrect(points, TimeLeq);
    MembersOfPermutation(points, ordered);
    var xs := Values(ordered);
    forall x ensures x in xs <==> Gives(points, x) {
      ValuesExact(ordered, x);
    }
    if p :| p in points && Usable(p) { assert Gives(points, p.value.value); }
    if xs != [] {
      assert xs[0] in xs;
      var p :| p in points && Usable(p) && p.value.value == xs[0];
    }
    assert Sample(points, maximum) == [] <==> xs == [];
  }

  /** A baseline exists exactly when there is a usable point; its range encloses the median, its
      deviation is zero only for a majority of equal values, and its coverage is a positive share. */
  lemma BaselineSound(points: seq<Point>, expectedBuckets: int, maximum: int)
    ensures var b := RobustBaseline(points, expectedBuckets, maximum);
            && (b.Some? <==> exists p :: p in points && Usable(p))
            && (b.Some? ==>
                  && b.value.lower <= b.value.median <= b.value.upper && b.value.mad >= 0.0
                  && 1 <= b.value.samples <= Max(1, Min(maximum, 10000))
                  && 0.0 < b.value.coverage <= 1.0
                  && (b.value.coverage == 1.0 <==> b.value.samples >= Max(1, expectedBuckets)))
  {
    SampleExact(points, maximum);
    var xs := Sample(points, maximum);
    if xs != [] {
      RangeEnclosesMedian(xs);
      MadZeroIffMajority(xs);
      Share(|xs|, Max(1, expectedBuckets));
    }
  }

  lemma Share(k: nat, n: nat)
    requires k > 0 && n > 0
    ensures k as real / n as real > 0.0 && (k as real / n as real >= 1.0 <==> k >= n)
  {
    var q := k as real / n as real;
    assert q * n as real == k as real;
    if q >= 1.0 { ScaleOrder(1.0, q, n as real); } else { ScaleOrder(q, 1.0, n as real); }
    if q <= 0.0 { ScaleOrder(q, 0.0, n as real); }
  }

  function Severity(v: Verdict): nat {
    match v case Undecided => 0 case Within => 0 case Abnormal(severe) => if severe then 2 else 1
  }

  lemma DividedOrder(x: real, y: real, unit: real)
    requires unit > 0.0 && x <= y
    ensures x / unit <= y / unit
  {
    var p, q := x / unit, y / unit;
    assert unit * p == x && unit * q == y;
    ScaleOrder(p, q, unit);
  }

  lemma ScoreGrows(x: real, y: real, mad: real)
    requires mad >= 0.0 && Abs(x) <= Abs(y)
    ensures Score(x, mad) <= Score(y, mad)
  {
    if mad != 0.0 {
      var unit := 1.4826 * mad;
      DividedOrder(Abs(x), Abs(y), unit);
    }
  }

  /** A value farther out on the same side is never judged more mildly. */
  lemma FartherNeverMilder(d: Definition, x: real, y: real, median: real, mad: real)
    requires mad >= 0.0 && (median <= x <= y || y <= x <= median)
    ensures Severity(JudgeValue(d, x, median, mad)) <= Severity(JudgeValue(d, y, median, mad))
  {
    ScoreGrows(x - median, y - median, mad);
  }

  // ----- Runs of one detector fed its own outputs -----

  function Run(d: Definition, inputs: seq<Series>): Previous {
    if inputs == [] then START
    else AsPrevious(EvaluateAnomaly(d, inputs[|inputs| - 1], Run(d, inputs[..|inputs| - 1])))
  }

  function Verdicts(d: Definition, inputs: seq<Series>): (vs: seq<Verdict>)
    ensures |vs| == |inputs| && forall i :: 0 <= i < |inputs| ==> vs[i] == Judge(d, inputs[i])
  {
    seq(|inputs|, i requires 0 <= i < |inputs| => Judge(d, inputs[i]))
  }

  lemma VerdictsConcat(d: Definition, a: seq<Series>, b: seq<Series>)
    ensures Verdicts(d, a + b) == Verdicts(d, a) + Verdicts(d, b)
  {}

  lemma VerdictsSlice(d: Definition, inputs: seq<Series>, k: nat)
    requires k <= |inputs|
    ensures Verdicts(d, inputs[..k]) == Verdicts(d, inputs)[..k] && Verdicts(d, inputs[k..]) == Verdicts(d, inputs)[k..]
  {}

  /** The run as the judgements see it. */
  function Follow(d: Definition, vs: seq<Verdict>): Previous {
    if vs == [] then START else Transition(d, vs[|vs| - 1], Follow(d, vs[..|vs| - 1]))
  }

  lemma {:induction false} RunFollows(d: Definition, inputs: seq<Series>)
    requires d.enabled
    ensures Run(d, inputs) == Follow(d, Verdicts(d, inputs))
  {
    if inputs != [] {
      var init := inputs[..|inputs| - 1];
      RunFollows(d, init);
      assert Verdicts(d, inputs)[..|inputs| - 1] == Verdicts(d, init);
      EvaluationIsTransition(d, inputs[|inputs| - 1], Run(d, init));
    }
  }

  /** The length of the longest run of abnormal judgements that ends the history. */
  function TrailingAbnormal(vs: seq<Verdict>): nat {
    if vs == [] || !vs[|vs| - 1].Abnormal? then 0 else TrailingAbnormal(vs[..|vs| - 1]) + 1
  }

  /** `anomalies` counts the trailing abnormal run; with the last judgement it decides between
      watching, anomalous and severe; and the two counters are never both positive. */
  ghost predicate CountsRight(d: Definition, vs: seq<Verdict>, p: Previous) {
    && p.anomalies == TrailingAbnormal(vs)
    && p.recoveries >= 0 && (p.anomalies == 0 || p.recoveries == 0)
    && (p.state == Severe <==> vs != [] && vs[|vs| - 1] == Abnormal(true))
    && (p.state == Anomalous <==> vs != [] && vs[|vs| - 1] == Abnormal(false) && p.anomalies >= d.requiredAnomalies)
    && (p.state == Watch <==> vs != [] && vs[|vs| - 1] == Abnormal(false) && p.anomalies < d.requiredAnomalies)
    && (p.state == InsufficientData <==> vs == [] || vs[|vs| - 1] == Undecided)
  }

  lemma {:induction false} FollowCounts(d: Definition, vs: seq<Verdict>)
    ensures CountsRight(d, vs, Follow(d, vs))
  {
    if vs != [] { FollowCounts(d, vs[..|vs| - 1]); }
  }

  lemma RunCounts(d: Definition, inputs: seq<Series>)
    requires d.enabled
    ensures CountsRight(d, Verdicts(d, inputs), Run(d, inputs))
  {
    RunFollows(d, inputs);
    FollowCounts(d, Verdicts(d, inputs));
  }

  ghost predicate AllWithin(vs: seq<Verdict>) {
    forall i :: 0 <= i < |vs| ==> vs[i] == Within
  }

  /** The state after `k` within-range evaluations in a row. */
  ghost predicate Recovered(d: Definition, p: Previous, k: nat) {
    && p.state == (if k < d.recoveryCount then Recovering else Normal)
    && p.anomalies == 0 && p.recoveries == (if k <= d.recoveryCount then k else 0)
  }

  lemma {:induction false} FollowRecovers(d: Definition, before: seq<Verdict>, calm: seq<Verdict>)
    requires d.recoveryCount >= 1
    requires Follow(d, before).state in {Anomalous, Severe} && AllWithin(calm)
    ensures calm != [] ==> Recovered(d, Follow(d, before + calm), |calm|)
    decreases |calm|
  {
    if calm != [] {
      var init, all := calm[..|calm| - 1], before + calm;
      FollowRecovers(d, before, init);
      FollowCounts(d, before);
      assert all[..|all| - 1] == before + init && all[|all| - 1] == Within;
      if init == [] { assert before + init == before; }
    }
  }

  /** After an anomaly, an unbroken within-range run is reported as recovering until the recovery
      count is reached, and as normal from then on. */
  lemma RecoveryRun(d: Definition, before: seq<Series>, calm: seq<Series>)
    requires d.enabled && d.recoveryCount >= 1
    requires Run(d, before).state in {Anomalous, Severe}
    requires calm != [] && AllWithin(Verdicts(d, calm))
    ensures Recovered(d, Run(d, before + calm), |calm|)
  {
    RunConcat(d, before, calm);
    FollowRecovers(d, Verdicts(d, before), Verdicts(d, calm));
  }

  lemma RunConcat(d: Definition, before: seq<Series>, after: seq<Series>)
    requires d.enabled
    ensures Run(d, before) == Follow(d, Verdicts(d, before))
    ensures Run(d, before + after) == Follow(d, Verdicts(d, before) + Verdicts(d, after))
  {
    RunFollows(d, before);
    RunFollows(d, before + after);
    VerdictsConcat(d, before, after);
  }

  lemma {:induction false} FollowRecovering(d: Definition, vs: seq<Verdict>) returns (k: nat)
    requires d.recoveryCount >= 1 && Follow(d, vs).state == Recovering
    ensures k < |vs| && AllWithin(vs[k..]) && Follow(d, vs[..k]).state in {Anomalous, Severe}
    ensures |vs| - k < d.recoveryCount && Follow(d, vs).recoveries == |vs| - k
  {
    var init := vs[..|vs| - 1];
    FollowCounts(d, init);
    if Follow(d, init).state == Recovering {
      k := FollowRecovering(d, init);
      assert init[..k] == vs[..k] && vs[k..] == init[k..] + [vs[|vs| - 1]];
    } else {
      k := |vs| - 1;
      assert vs[k..] == [vs[k]];
    }
  }

  /** Recovering means nothing else: an anomaly, and since then fewer within-range evaluations than
      the recovery count, with nothing in between. */
  lemma RecoveringOrigin(d: Definition, inputs: seq<Series>) returns (k: nat)
    requires d.enabled && ValidDefinition(d) && Run(d, inputs).state == Recovering
    ensures k < |inputs| && AllWithin(Verdicts(d, inputs[k..]))
    ensures Run(d, inputs[..k]).state in {Anomalous, Severe} && |inputs| - k < d.recoveryCount
  {
    RunFollows(d, inputs);
    k := FollowRecovering(d, Verdicts(d, inputs));
    RunFollows(d, inputs[..k]);
    VerdictsSlice(d, inputs, k);
  }

  // ----- Positive affine rescaling -----

  function RescalePoint(p: Point, f: real -> real): Point {
    p.(value := if p.value.Some? then Some(f(p.value.value)) else None)
  }

  function RescalePoints(points: seq<Point>, f: real -> real): (r: seq<Point>)
    ensures |r| == |points| && forall i :: 0 <= i < |points| ==> r[i] == RescalePoint(points[i], f)
  {
    seq(|points|, i requires 0 <= i < |points| => RescalePoint(points[i], f))
  }

  function RescaleSeries(s: Series, f: real -> real): Series {
    s.(points := RescalePoints(s.points, f))
  }

  lemma {:induction false} RescaleInsert(p: Point, s: seq<Point>, f: real -> real)
    ensures Insert(RescalePoint(p, f), RescalePoints(s, f), TimeLeq) == RescalePoints(Insert(p, s, TimeLeq), f)
  {
    if s != [] && !TimeLeq(p, s[0]) {
      RescaleInsert(p, s[1..], f);
      assert RescalePoints(s, f)[1..] == RescalePoints(s[1..], f);
    }
  }

  lemma {:induction false} RescaleSort(points: seq<Point>, f: real -> real)
    ensures Sort(RescalePoints(points, f), TimeLeq) == RescalePoints(Sort(points, TimeLeq), f)
  {
    if points != [] {
      RescaleSort(points[1..], f);
      assert RescalePoints(points, f)[1..] == RescalePoints(points[1..], f);
      RescaleInsert(points[0], Sort(points[1..], TimeLeq), f);
    }
  }

  lemma {:induction false} RescaleValues(points: seq<Point>, f: real -> real)
    ensures Values(RescalePoints(points, f)) == Mapped(Values(points), f)
  {
    if points != [] {
      RescaleValues(points[1..], f);
      assert RescalePoints(points, f)[1..] == RescalePoints(points[1..], f);
    }
  }

  lemma RescaleSample(d: Definition, s: Series, f: real -> real)
    ensures SampleOf(d, RescaleSeries(s, f)) == Mapped(SampleOf(d, s), f)
  {
    var points := if s.points == [] then [] else s.points[..|s.points| - 1];
    assert RescalePoints(points, f) ==
           (if s.points == [] then [] else RescaleSeries(s, f).points[..|s.points| - 1]);
    RescaleSort(points, f);
    RescaleValues(Sort(points, TimeLeq), f);
  }

  lemma RescaleCurrent(s: Series, f: real -> real)
    requires s.points != []
    ensures Current(RescaleSeries(s, f)) == RescalePoint(Current(s), f)
  {
    RescaleSort(s.points, f);
    SortLength(s.points, TimeLeq);
  }

  lemma RescaleScore(delta: real, mad: real, a: real)
    requires a > 0.0 && mad > 0.0
    ensures Score(a * delta, a * mad) == Score(delta, mad)
  {
    ScaleOrder(0.0, delta, a);
    assert a * mad > 0.0;
    var x, y := Abs(delta), 1.4826 * mad;
    assert Abs(a * delta) == a * x;
    var q := x / y;
    assert q * (1.4826 * (a * mad)) == a * (q * y) == a * x;
  }

  lemma RescaleJudgement(d: Definition, x: real, median: real, mad: real, a: real, b: real)
    requires a > 0.0 && mad > 0.0
    ensures JudgeValue(d, Affine(a, b)(x), Affine(a, b)(median), Affine(a, 0.0)(mad)) == JudgeValue(d, x, median, mad)
  {
    var f := Affine(a, b);
    var delta := x - median;
    assert f(x) - f(median) == a * delta;
    assert Affine(a, 0.0)(mad) == a * mad;
    RescaleScore(delta, mad, a);
    ScaleOrder(0.0, delta, a);
    ScaleOrder(delta, 0.0, a);
  }

  /** With a deviation to measure by, the judgement does not depend on the unit or the origin of the
      values. */
  lemma RescalingInvariant(d: Definition, s: Series, a: real, b: real)
    requires a > 0.0
    requires SampleOf(d, s) != [] ==> Mad(SampleOf(d, s)) != 0.0
    ensures Judge(d, RescaleSeries(s, Affine(a, b))) == Judge(d, s)
  {
    var f, xs := Affine(a, b), SampleOf(d, s);
    RescaleSample(d, s, f);
    if xs != [] {
      SampleNeedsPoints(d, s);
      RescaleCurrent(s, f);
      AffineBaseline(xs, a, b);
      MadZeroIffMajority(xs);
      if Current(s).value.Some? {
        RescaleJudgement(d, Current(s).value.value, Median(xs), Mad(xs), a, b);
      }
    }
  }

  // ----- Exactly when the unit does not matter -----

  ghost predicate JudgedAlike(d: Definition, s: Series, a: real, b: real) {
    Judge(d, RescaleSeries(s, Affine(a, b))) == Judge(d, s)
  }

  /** There is a judgement to make, and the sample has no deviation to measure by. */
  predicate ConstantSample(d: Definition, s: Series) {
    var xs := SampleOf(d, s);
    SampleNeedsPoints(d, s);
    |xs| >= Max(1, d.minimumSamples) && Current(s).value.Some? && Mad(xs) == 0.0
  }

  /** How far the current value lies from the median of the sample. */
  function Distance(d: Definition, s: Series): real
    requires ConstantSample(d, s)
  {
    SampleNeedsPoints(d, s);
    Current(s).value.value - Median(SampleOf(d, s))
  }

  /** The judgement does not depend on the unit of the values. */
  predicate UnitFree(d: Definition, s: Series) {
    || !ConstantSample(d, s)
    || Distance(d, s) == 0.0 || !Directional(d.direction, Distance(d, s))
    || (d.warning <= 0.0 && d.severe <= 0.0)
  }

  /** The judgement of a constant sample in another unit. */
  function ConstantVerdict(d: Definition, delta: real): Verdict {
    if Directional(d.direction, delta) && Abs(delta) >= d.warning then Abnormal(Abs(delta) >= d.severe) else Within
  }

  lemma ConstantJudged(d: Definition, s: Series)
    requires ConstantSample(d, s)
    ensures Judge(d, s) == ConstantVerdict(d, Distance(d, s))
  {}

  lemma AffineDifference(a: real, b: real, x: real, m: real)
    ensures Affine(a, b)(x) - Affine(a, b)(m) == a * (x - m) && Affine(a, 0.0)(0.0) == 0.0
  {}

  lemma ConstantMapped(xs: seq<real>, a: real, b: real, x: real, scaled: real)
    requires xs != [] && a > 0.0 && Mad(xs) == 0.0 && scaled == a * (x - Median(xs))
    ensures Mad(Mapped(xs, Affine(a, b))) == 0.0
    ensures Affine(a, b)(x) - Median(Mapped(xs, Affine(a, b))) == scaled
  {
    AffineBaseline(xs, a, b);
    AffineDifference(a, b, x, Median(xs));
  }

  /** A constant sample stays constant in another unit, and the distance is scaled. */
  lemma ConstantRescaled(d: Definition, s: Series, a: real, b: real, scaled: real)
    requires ConstantSample(d, s) && a > 0.0 && scaled == a * Distance(d, s)
    ensures ConstantSample(d, RescaleSeries(s, Affine(a, b)))
    ensures Distance(d, RescaleSeries(s, Affine(a, b))) == scaled
  {
    var f, xs, x := Affine(a, b), SampleOf(d, s), CurrentValue(d, s);
    RescaledParts(d, s, f);
    ConstantMapped(xs, a, b, x, scaled);
    ConstantFrom(d, RescaleSeries(s, f), Mapped(xs, f), f(x));
  }

  function CurrentValue(d: Definition, s: Series): (x: real)
    requires ConstantSample(d, s)
    ensures s.points != [] && Current(s).value == Some(x) && Distance(d, s) == x - Median(SampleOf(d, s))
  {
    SampleNeedsPoints(d, s);
    Current(s).value.value
  }

  lemma ConstantFrom(d: Definition, t: Series, ys: seq<real>, x: real)
    requires t.points != [] && SampleOf(d, t) == ys && Current(t).value == Some(x)
    requires |ys| >= Max(1, d.minimumSamples) && Mad(ys) == 0.0
    ensures ConstantSample(d, t) && Distance(d, t) == x - Median(ys)
  {}

  lemma RescaledParts(d: Definition, s: Series, f: real -> real)
    requires s.points != []
    ensures SampleOf(d, RescaleSeries(s, f)) == Mapped(SampleOf(d, s), f)
    ensures Current(RescaleSeries(s, f)) == RescalePoint(Current(s), f)
  {
    RescaleSample(d, s, f);
    RescaleCurrent(s, f);
  }

  lemma ConstantJudgement(d: Definition, s: Series, a: real, b: real, delta: real, scaled: real)
    requires ConstantSample(d, s) && a > 0.0 && delta == Distance(d, s) && scaled == a * delta
    ensures Judge(d, s) == ConstantVerdict(d, delta)
    ensures Judge(d, RescaleSeries(s, Affine(a, b))) == ConstantVerdict(d, scaled)
  {
    ConstantJudged(d, s);
    ConstantRescaled(d, s, a, b, scaled);
    ConstantJudged(d, RescaleSeries(s, Affine(a, b)));
  }

  lemma ScaledVerdict(d: Definition, delta: real, a: real, scaled: real)
    requires a > 0.0 && scaled == a * delta
    requires (delta == 0.0 || !Directional(d.direction, delta) || (d.warning <= 0.0 && d.severe <= 0.0))
    ensures ConstantVerdict(d, scaled) == ConstantVerdict(d, delta)
  {
    ScaleOrder(0.0, delta, a);
    ScaleOrder(delta, 0.0, a);
  }

  /** A threshold above zero is missed in one unit and reached in another. */
  lemma ThresholdUnits(delta: real, threshold: real) returns (small: real, large: real)
    requires delta != 0.0 && threshold > 0.0
    ensures small > 0.0 && Abs(small * delta) < threshold && large > 0.0 && Abs(large * delta) == threshold
  {
    var e := Abs(delta);
    small, large := threshold / (2.0 * e), threshold / e;
    ScaledDelta(Both, delta, 0.0, small);
    ScaledDelta(Both, delta, 0.0, large);
    assert small * e == threshold / 2.0 && large * e == threshold by {
      assert small * (2.0 * e) == threshold;
    }
  }

  lemma UnitsDiffer(d: Definition, delta: real) returns (a: real, b: real, near: real, far: real)
    requires delta != 0.0 && Directional(d.direction, delta) && (d.warning > 0.0 || d.severe > 0.0)
    ensures a > 0.0 && b > 0.0 && near == a * delta && far == b * delta
    ensures ConstantVerdict(d, near) != ConstantVerdict(d, far)
  {
    a, b := ThresholdUnits(delta, if d.warning > 0.0 then d.warning else d.severe);
    ScaledDelta(d.direction, delta, 0.0, a);
    ScaledDelta(d.direction, delta, 0.0, b);
    near, far := a * delta, b * delta;
  }

  /** Of a constant sample, judgements agree when the verdicts on the distances do. */
  lemma AlikeIffVerdicts(d: Definition, s: Series, a: real, b: real, delta: real, scaled: real)
    requires ConstantSample(d, s) && a > 0.0 && delta == Distance(d, s) && scaled == a * delta
    ensures JudgedAlike(d, s, a, b) <==> ConstantVerdict(d, scaled) == ConstantVerdict(d, delta)
  {
    ConstantJudgement(d, s, a, b, delta, scaled);
  }

  lemma UnitFreeAlike(d: Definition, s: Series, a: real, b: real)
    requires UnitFree(d, s) && a > 0.0
    ensures JudgedAlike(d, s, a, b)
  {
    if ConstantSample(d, s) {
      var delta := Distance(d, s);
      AlikeIffVerdicts(d, s, a, b, delta, a * delta);
      ScaledVerdict(d, delta, a, a * delta);
    } else {
      UnjudgedOrDeviating(d, s, a, b);
    }
  }

  lemma UnitMatters(d: Definition, s: Series, delta: real) returns (a: real)
    requires ConstantSample(d, s) && delta == Distance(d, s)
    requires delta != 0.0 && Directional(d.direction, delta) && (d.warning > 0.0 || d.severe > 0.0)
    ensures a > 0.0 && !JudgedAlike(d, s, a, 0.0)
  {
    var small, large, near, far := UnitsDiffer(d, delta);
    AlikeIffVerdicts(d, s, small, 0.0, delta, near);
    AlikeIffVerdicts(d, s, large, 0.0, delta, far);
    a := if ConstantVerdict(d, near) != ConstantVerdict(d, delta) then small else large;
  }

  /** The judgement is the same in every unit and from every origin if and only if there is nothing to
      judge, or a deviation to measure by, or the value is the median or on the unwatched side, or
      neither threshold is above zero. */
  lemma RescalingInvariantIff(d: Definition, s: Series)
    ensures (forall a, b :: a > 0.0 ==> JudgedAlike(d, s, a, b)) <==> UnitFree(d, s)
  {
    if UnitFree(d, s) {
      forall a, b | a > 0.0 ensures JudgedAlike(d, s, a, b) { UnitFreeAlike(d, s, a, b); }
    } else {
      var a := UnitMatters(d, s, Distance(d, s));
    }
  }

  lemma UnjudgedOrDeviating(d: Definition, s: Series, a: real, b: real)
    requires a > 0.0 && !ConstantSample(d, s)
    ensures JudgedAlike(d, s, a, b)
  {
    var xs := SampleOf(d, s);
    if xs != [] && Mad(xs) == 0.0 {
      RescaleSample(d, s, Affine(a, b));
      SampleNeedsPoints(d, s);
      RescaleCurrent(s, Affine(a, b));
    } else {
      RescalingInvariant(d, s, a, b);
    }
  }

  /** Then neither does what an evaluation hands on. */
  lemma RescalingInvariantEvaluation(d: Definition, s: Series, previous: Previous, a: real, b: real)
    requires d.enabled && a > 0.0 && UnitFree(d, s)
    ensures AsPrevious(EvaluateAnomaly(d, RescaleSeries(s, Affine(a, b)), previous)) ==
            AsPrevious(EvaluateAnomaly(d, s, previous))
  {
    UnitFreeAlike(d, s, a, b);
    EvaluationIsTransition(d, s, previous);
    EvaluationIsTransition(d, RescaleSeries(s, Affine(a, b)), previous);
  }

  function At(time: int, value: real): Point { Point(time, Some(value), Measured) }

  /** Three equal values and then another one: ten times the unit turns a calm judgement into a severe one. */
  lemma ConstantSampleDependsOnUnit() returns (d: Definition, s: Series)
    ensures ValidDefinition(d) && d.enabled && s.points == [At(1, 1.0), At(2, 1.0), At(3, 1.0), At(4, 2.0)]
    ensures Judge(d, s) == Within && Judge(d, RescaleSeries(s, Affine(10.0, 0.0))) == Abnormal(true)
  {
    d := Definition(true, High, 3, 100, 3.5, 7.0, 2, 2);
    s := Series([At(1, 1.0), At(2, 1.0), At(3, 1.0), At(4, 2.0)], 4);
    ThreeEqual(d, s);
    ConstantJudgement(d, s, 10.0, 0.0, 1.0, 10.0);
  }

  lemma ThreeEqual(d: Definition, s: Series)
    requires s.points == [At(1, 1.0), At(2, 1.0), At(3, 1.0), At(4, 2.0)]
    requires d.minimumSamples == 3 && d.maximumSamples == 100
    ensures ConstantSample(d, s) && Distance(d, s) == 1.0
  {
    var before := [At(1, 1.0), At(2, 1.0), At(3, 1.0)];
    assert s.points[..3] == before;
    SortSorted(before, TimeLeq);
    SortSorted(s.points, TimeLeq);
    ThreeValues(before);
    assert SampleOf(d, s) == [1.0, 1.0, 1.0];
    ThreeConstant();
  }

  lemma ThreeValues(before: seq<Point>)
    requires before == [At(1, 1.0), At(2, 1.0), At(3, 1.0)]
    ensures Values(before) == [1.0, 1.0, 1.0]
  {
    assert before[1..] == [At(2, 1.0), At(3, 1.0)] && before[1..][1..] == [At(3, 1.0)] && before[1..][1..][1..] == [];
    assert Values(before[1..][1..]) == [1.0] && Values(before[1..]) == [1.0, 1.0];
  }

  lemma ThreeConstant()
    ensures Median([1.0, 1.0, 1.0]) == 1.0 && Mad([1.0, 1.0, 1.0]) == 0.0
  {
    SortSorted([1.0, 1.0, 1.0], RealLeq);
    assert Deviations([1.0, 1.0, 1.0], 1.0) == [0.0, 0.0, 0.0];
    SortSorted([0.0, 0.0, 0.0], RealLeq);
  }

  lemma ScaledDelta(direction: Direction, x: real, median: real, a: real)
    requires a > 0.0 && x != median
    ensures Abs(a * x - a * median) == a * Abs(x - median) && a * x != a * median
    ensures Directional(direction, a * x - a * median) == Directional(direction, x - median)
  {
    assert a * x - a * median == a * (x - median);
    ScaleOrder(0.0, x - median, a);
    ScaleOrder(x - median, 0.0, a);
  }
}
