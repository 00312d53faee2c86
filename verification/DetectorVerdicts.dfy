/** Verdicts and samples of the detector, said without its own vocabulary. */
module DetectorVerdicts {
  import opened Optional
  import opened Ordering
  import opened Statistics
  import opened Detector

  // ----- Sides and thresholds -----

  /** The distance is at least `t` scaled deviations, or `t` itself when there is no deviation. */
  ghost predicate Reaches(distance: real, mad: real, t: real) {
    if mad == 0.0 then distance >= t else distance >= t * (1.4826 * mad)
  }

  /** The value lies on a watched side of the median, and far enough out. */
  ghost predicate Beyond(direction: Direction, x: real, median: real, mad: real, t: real) {
    match direction
    case High => x > median && Reaches(x - median, mad, t)
    case Low => x < median && Reaches(median - x, mad, t)
    case Both => if x >= median then Reaches(x - median, mad, t) else Reaches(median - x, mad, t)
  }

  lemma QuotientReaches(distance: real, unit: real, t: real)
    requires unit > 0.0
    ensures distance / unit >= t <==> distance >= t * unit
  {
    var q := distance / unit;
    assert unit * q == distance;
    if q >= t { ScaleOrder(t, q, unit); } else { ScaleOrder(q, t, unit); }
    assert unit * t == t * unit;
    if q < t && distance >= t * unit {
      ScaleOrder(t, q, unit);
      assert false;
    }
  }

  lemma ScoreReaches(delta: real, mad: real, t: real)
    requires mad >= 0.0
    ensures Score(delta, mad) >= t <==> Reaches(if delta >= 0.0 then delta else -delta, mad, t)
  {
    if mad != 0.0 { QuotientReaches(Abs(delta), 1.4826 * mad, t); }
  }

  /** A value is abnormal when it is beyond the warning threshold on a watched side, and severe when it is
      beyond the severe threshold as well. */
  lemma JudgedBySide(d: Definition, x: real, median: real, mad: real)
    requires mad >= 0.0
    ensures var v := JudgeValue(d, x, median, mad);
            && (v.Abnormal? <==> Beyond(d.direction, x, median, mad, d.warning))
            && (v == Within <==> !Beyond(d.direction, x, median, mad, d.warning))
            && (v == Abnormal(true) <==>
                  Beyond(d.direction, x, median, mad, d.warning) && Beyond(d.direction, x, median, mad, d.severe))
  {
    ScoreReaches(x - median, mad, d.warning);
    ScoreReaches(x - median, mad, d.severe);
  }

  /** Watching for drops is watching for rises in the mirror. */
  lemma MirroredDirections(d: Definition, x: real, median: real, mad: real)
    requires mad >= 0.0
    ensures JudgeValue(d.(direction := Low), x, median, mad) ==
            JudgeValue(d.(direction := High), 2.0 * median - x, median, mad)
  {
    var mirrored := 2.0 * median - x;
    assert mirrored - median == median - x;
    JudgedBySide(d.(direction := Low), x, median, mad);
    JudgedBySide(d.(direction := High), mirrored, median, mad);
  }

  // ----- Whole evaluations -----

  /** There is enough of a sample, and a current value. */
  ghost predicate Judgeable(d: Definition, s: Series) {
    && s.points != [] && SampleOf(d, s) != [] && |SampleOf(d, s)| >= d.minimumSamples && Current(s).value.Some?
  }

  lemma JudgedEvaluation(d: Definition, s: Series, previous: Previous)
    requires d.enabled && Judgeable(d, s)
    ensures var e := EvaluateAnomaly(d, s, previous);
            var xs := SampleOf(d, s);
            var x := Current(s).value.value;
            && e.observed == Some(x) && e.baseline == BaselineOf(d, s) && e.score == Some(Score(x - Median(xs), Mad(xs)))
            && AsPrevious(e) == Transition(d, JudgeValue(d, x, Median(xs), Mad(xs)), previous)
  {}

  /** The step from one evaluation to the next. */
  lemma TransitionExact(d: Definition, v: Verdict, previous: Previous)
    requires v != Undecided
    ensures var next := Transition(d, v, previous);
            && next.anomalies == (if v.Abnormal? then previous.anomalies + 1 else 0)
            && (next.state == Severe <==> v == Abnormal(true))
            && (next.state == Anomalous <==> v == Abnormal(false) && previous.anomalies + 1 >= d.requiredAnomalies)
            && (next.state == Watch <==> v == Abnormal(false) && previous.anomalies + 1 < d.requiredAnomalies)
            && (next.state in {Normal, Recovering} <==> v == Within)
  {}

  /** What an evaluation reports, in terms of its sample and its current value. */
  lemma EvaluationExact(d: Definition, s: Series, previous: Previous)
    requires d.enabled && Judgeable(d, s)
    ensures var e := EvaluateAnomaly(d, s, previous);
            var xs := SampleOf(d, s);
            var x := Current(s).value.value;
            var out := Beyond(d.direction, x, Median(xs), Mad(xs), d.warning);
            var far := Beyond(d.direction, x, Median(xs), Mad(xs), d.severe);
            && e.observed == Some(x)
            && e.anomalies == (if out then previous.anomalies + 1 else 0)
            && (e.state == Severe <==> out && far)
            && (e.state == Anomalous <==> out && !far && previous.anomalies + 1 >= d.requiredAnomalies)
            && (e.state == Watch <==> out && !far && previous.anomalies + 1 < d.requiredAnomalies)
            && (e.state in {Normal, Recovering} <==> !out)
  {
    var xs, x := SampleOf(d, s), Current(s).value.value;
    var median, mad := Median(xs), Mad(xs);
    JudgedEvaluation(d, s, previous);
    MadZeroIffMajority(xs);
    JudgedBySide(d, x, median, mad);
    TransitionExact(d, JudgeValue(d, x, median, mad), previous);
  }

  lemma UnjudgedIsInsufficient(d: Definition, s: Series, previous: Previous)
    requires d.enabled && !Judgeable(d, s)
    ensures var e := EvaluateAnomaly(d, s, previous);
            e.state == InsufficientData && e.anomalies == 0 && e.recoveries == 0 && e.score == None
  {
    SampleNeedsPoints(d, s);
  }

  /** Without enough of a sample, or a current value, there is nothing to judge and nothing to count. */
  lemma UnjudgedEvaluation(d: Definition, s: Series, previous: Previous)
    ensures var e := EvaluateAnomaly(d, s, previous);
            && (e.state == Disabled <==> !d.enabled)
            && (e.state == InsufficientData <==> d.enabled && !Judgeable(d, s))
            && (e.state in {Disabled, InsufficientData} ==> e.anomalies == 0 && e.recoveries == 0 && e.score == None)
  {
    if d.enabled {
      if Judgeable(d, s) { EvaluationExact(d, s, previous); } else { UnjudgedIsInsufficient(d, s, previous); }
    }
  }

  // ----- The current point and the sample -----

  /** `i` is the last listed of the latest points. */
  ghost predicate LatestAt(points: seq<Point>, i: nat) {
    && i < |points|
    && (forall j :: 0 <= j < i ==> points[j].timestamp <= points[i].timestamp)
    && (forall j :: i < j < |points| ==> points[j].timestamp < points[i].timestamp)
  }

  lemma {:induction false} InsertLast(p: Point, s: seq<Point>)
    requires s != [] && Sorted(s, TimeLeq)
    ensures |Insert(p, s, TimeLeq)| == |s| + 1
    ensures var last := s[|s| - 1];
            Insert(p, s, TimeLeq)[|s|] == if p.timestamp > last.timestamp then p else last
  {
    if TimeLeq(p, s[0]) {
      assert TimeLeq(s[0], s[|s| - 1]) || |s| == 1;
    } else if |s| == 1 {
      assert s[1..] == [] && Insert(p, s, TimeLeq) == [s[0], p];
    } else {
      InsertLast(p, s[1..]);
    }
  }

  lemma LatestOfMore(points: seq<Point>, j: nat) returns (i: nat)
    requires |points| > 1 && LatestAt(points[1..], j)
    ensures LatestAt(points, i)
    ensures points[i] == if points[0].timestamp > points[1..][j].timestamp then points[0] else points[1..][j]
  {
    var rest := points[1..];
    assert forall k :: 0 <= k < |rest| ==> rest[k] == points[k + 1];
    if points[0].timestamp > rest[j].timestamp {
      i := 0;
      forall k | 0 < k < |points| ensures points[k].timestamp < points[0].timestamp { assert points[k] == rest[k - 1]; }
    } else {
      i := j + 1;
      forall k | i < k < |points| ensures points[k].timestamp < points[i].timestamp { assert points[k] == rest[k - 1]; }
      forall k | 0 < k < i ensures points[k].timestamp <= points[i].timestamp { assert points[k] == rest[k - 1]; }
    }
  }

  lemma {:induction false} LastOfSort(points: seq<Point>) returns (i: nat)
    requires points != []
    ensures |Sort(points, TimeLeq)| == |points| && LatestAt(points, i) && Sort(points, TimeLeq)[|points| - 1] == points[i]
  {
    SortLength(points, TimeLeq);
    if |points| == 1 {
      i := 0;
      assert points[1..] == [] && Sort(points, TimeLeq) == [points[0]];
    } else {
      var j := LastOfSort(points[1..]);
      SortedByTime(points[1..]);
      InsertLast(points[0], Sort(points[1..], TimeLeq));
      i := LatestOfMore(points, j);
    }
  }

  lemma SortedByTime(points: seq<Point>)
    ensures Sorted(Sort(points, TimeLeq), TimeLeq)
  {
    TimeOrder();
    SortCorrect(points, TimeLeq);
  }

  /** The judged point is the last listed of the latest ones. */
  lemma CurrentIsLatest(s: Series) returns (i: nat)
    requires s.points != []
    ensures LatestAt(s.points, i) && Current(s) == s.points[i]
  {
    i := LastOfSort(s.points);
  }

  ghost predicate InTimeOrder(points: seq<Point>) {
    forall i, j :: 0 <= i < j < |points| ==> points[i].timestamp <= points[j].timestamp
  }

  /** The values of the points that have one and are neither missing nor stale. */
  ghost predicate ListsValues(points: seq<Point>, xs: seq<real>) {
    if points == [] then xs == []
    else
      var p := points[0];
      if p.value.Some? && p.status != Missing && p.status != Stale
      then xs != [] && xs[0] == p.value.value && ListsValues(points[1..], xs[1..])
      else ListsValues(points[1..], xs)
  }

  lemma {:induction false} ValuesListed(points: seq<Point>)
    ensures ListsValues(points, Values(points))
  {
    if points != [] {
      ValuesListed(points[1..]);
      if Usable(points[0]) { assert Values(points)[1..] == Values(points[1..]); } else { assert Values(points) == Values(points[1..]); }
    }
  }

  /** The sample is the newest part of the usable values in time order, as long as the limit allows. */
  lemma SampleIsNewest(points: seq<Point>, maximum: int) returns (ordered: seq<Point>, xs: seq<real>, older: seq<real>)
    ensures multiset(ordered) == multiset(points) && InTimeOrder(ordered) && ListsValues(ordered, xs)
    ensures xs == older + Sample(points, maximum)
    ensures older == [] || |Sample(points, maximum)| == Max(1, Min(maximum, 10000))
    ensures |Sample(points, maximum)| <= Max(1, Min(maximum, 10000))
  {
    ordered := Sort(points, TimeLeq);
    TimeOrder();
    SortCorrect(points, TimeLeq);
    assert Sorted(ordered, TimeLeq);
    xs := Values(ordered);
    ValuesListed(ordered);
    older := xs[..|xs| - |Sample(points, maximum)|];
  }

  /** The numbers of a baseline are those of its sample. */
  ghost predicate Describes(b: Baseline, xs: seq<real>, expected: int)
    requires xs != []
  {
    && b.median == Median(xs) && b.mad == Mad(xs) && b.samples == |xs|
    && b.lower == Quantile(xs, 0.1) && b.upper == Quantile(xs, 0.9)
    && CoverageRight(b.coverage, |xs|, expected)
  }

  /** The share of `k` in `n`, and no more than all. */
  ghost predicate CoverageRight(coverage: real, k: int, n: int) {
    if k >= n then coverage == 1.0 else coverage * n as real == k as real
  }

  lemma CoverageIs(k: nat, n: nat)
    requires k > 0 && n > 0
    ensures CoverageRight(MinReal(1.0, k as real / n as real), k, n)
  {
    Share(k, n);
  }

  lemma ShareDescribes(b: Baseline, xs: seq<real>, n: nat)
    requires xs != [] && n > 0
    requires b == Baseline(Median(xs), Mad(xs), Quantile(xs, 0.1), Quantile(xs, 0.9), |xs|,
                           MinReal(1.0, |xs| as real / n as real))
    ensures Describes(b, xs, n)
  {
    CoverageIs(|xs|, n);
  }

  lemma RobustExact(points: seq<Point>, expectedBuckets: int, maximum: int)
    ensures RobustBaseline(points, expectedBuckets, maximum).Some? <==> Sample(points, maximum) != []
    ensures Sample(points, maximum) != [] ==>
              Describes(RobustBaseline(points, expectedBuckets, maximum).value, Sample(points, maximum), Max(1, expectedBuckets))
  {
    var xs := Sample(points, maximum);
    if xs != [] { ShareDescribes(RobustBaseline(points, expectedBuckets, maximum).value, xs, Max(1, expectedBuckets)); }
  }

  /** The baseline of an evaluation leaves out the last listed point and expects one bucket less. */
  lemma BaselineExact(d: Definition, s: Series)
    requires |s.points| > 0
    ensures var xs := Sample(s.points[..|s.points| - 1], d.maximumSamples);
            && (BaselineOf(d, s).Some? <==> xs != [])
            && (xs != [] ==> Describes(BaselineOf(d, s).value, xs, if s.expectedBuckets > 2 then s.expectedBuckets - 1 else 1))
  {
    RobustExact(s.points[..|s.points| - 1], Max(0, s.expectedBuckets - 1), d.maximumSamples);
  }
}
