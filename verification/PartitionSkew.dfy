/** Outlying partitions by robust deviation (packages/streaming/intelligence.py). */
module PartitionSkew {
  import opened Optional
  import opened Ordering
  import opened Statistics

  /** One partition and its measurement; a missing or non-finite one has none. */
  datatype Reading = Reading(partition: int, value: Option<real>)

  datatype Skew = Skew(
    median: real, maximum: real, minimum: real, ratio: Option<real>, deviation: real,
    affected: seq<int>, total: int, coverage: real, reason: Reason)

  datatype Reason = SinglePartition | SkewDetected | Balanced

  datatype Outcome = Measured(skew: Skew) | Unavailable

  const DEFAULT_THRESHOLD := 3.5

  function Readings(values: seq<Reading>): seq<Reading> {
    if values == [] then []
    else (if values[0].value.Some? then [values[0]] else []) + Readings(values[1..])
  }

  function ValuesOf(rs: seq<Reading>): (xs: seq<real>)
    requires forall r :: r in rs ==> r.value.Some?
    ensures |xs| == |rs| && forall i :: 0 <= i < |rs| ==> xs[i] == rs[i].value.value
  {
    seq(|rs|, i requires 0 <= i < |rs| => rs[i].value.value)
  }

  lemma {:induction false} ReadingsMeasured(values: seq<Reading>)
    ensures forall r :: r in Readings(values) ==> r.value.Some? && r in values
    ensures forall r :: r in values && r.value.Some? ==> r in Readings(values)
  {
    if values != [] {
      ReadingsMeasured(values[1..]);
      assert values == [values[0]] + values[1..];
    }
  }

  /** The score of one measured partition. */
  function Scored(r: Reading, median: real, mad: real): real
    requires r.value.Some?
  {
    Score(r.value.value - median, mad)
  }

  /** The partitions whose score reaches the threshold. */
  function Flagged(rs: seq<Reading>, median: real, mad: real, threshold: real): seq<int>
    requires forall r :: r in rs ==> r.value.Some?
  {
    if rs == [] then []
    else
      (if Scored(rs[0], median, mad) >= threshold then [rs[0].partition] else []) +
      Flagged(rs[1..], median, mad, threshold)
  }

  predicate IntLeq(a: int, b: int) { a <= b }

  function Clamp(cap: int): nat { if cap < 0 then 0 else if cap > 100 then 100 else cap }

  function Largest(xs: seq<real>): real
    requires xs != []
  {
    if |xs| == 1 then xs[0] else var m := Largest(xs[1..]); if xs[0] >= m then xs[0] else m
  }

  function Smallest(xs: seq<real>): real
    requires xs != []
  {
    if |xs| == 1 then xs[0] else var m := Smallest(xs[1..]); if xs[0] <= m then xs[0] else m
  }

  function Scores(xs: seq<real>, median: real, mad: real): (ss: seq<real>)
    ensures |ss| == |xs|
  {
    seq(|xs|, i requires 0 <= i < |xs| => Score(xs[i] - median, mad))
  }

  function PartitionSkew(values: seq<Reading>, expected: int, cap: int, threshold: real): Outcome {
    ReadingsMeasured(values);
    var rs := Readings(values);
    if rs == [] then Unavailable
    else
      var xs := ValuesOf(rs);
      var median, mad := Median(xs), Mad(xs);
      var affected := Take(Sort(Flagged(rs, median, mad, threshold), IntLeq), Clamp(cap));
      var shown := if expected <= 1 then [] else affected;
      Measured(Skew(median, Largest(xs), Smallest(xs), if median != 0.0 then Some(Largest(xs) / median) else None,
        Largest(Scores(xs, median, mad)), shown, expected,
        |rs| as real / (if expected >= 1 then expected else 1) as real,
        if expected <= 1 then SinglePartition else if affected != [] then SkewDetected else Balanced))
  }

  // ----- What is reported -----

  /** A measured partition whose score reaches the threshold. */
  ghost predicate Outlying(rs: seq<Reading>, median: real, mad: real, threshold: real, p: int) {
    exists r :: r in rs && r.value.Some? && r.partition == p && Scored(r, median, mad) >= threshold
  }

  lemma {:induction false} FlaggedExact(rs: seq<Reading>, median: real, mad: real, threshold: real, p: int)
    requires forall r :: r in rs ==> r.value.Some?
    ensures p in Flagged(rs, median, mad, threshold) <==> Outlying(rs, median, mad, threshold, p)
  {
    if rs != [] {
      FlaggedExact(rs[1..], median, mad, threshold, p);
      assert rs == [rs[0]] + rs[1..];
    }
  }

  /** The affected partitions are outlying ones in ascending order; one that is left out comes after a
      list filled to the cap. */
  lemma AffectedExact(values: seq<Reading>, expected: int, cap: int, threshold: real)
    requires PartitionSkew(values, expected, cap, threshold).Measured?
    ensures var s := PartitionSkew(values, expected, cap, threshold).skew;
            var rs := Readings(values);
            var limit := if cap < 0 then 0 else if cap > 100 then 100 else cap;
            && (forall r :: r in rs ==> r.value.Some?)
            && (forall i, j :: 0 <= i < j < |s.affected| ==> s.affected[i] <= s.affected[j]) && |s.affected| <= limit
            && (expected <= 1 <==> s.reason == SinglePartition)
            && (s.reason == SkewDetected <==> s.affected != [])
            && (forall p :: p in s.affected ==> Outlying(rs, s.median, Mad(ValuesOf(rs)), threshold, p))
            && (forall p :: expected > 1 && p !in s.affected && Outlying(rs, s.median, Mad(ValuesOf(rs)), threshold, p) ==>
                  |s.affected| == limit && forall q :: q in s.affected ==> q <= p)
            && (expected <= 1 ==> s.affected == []) && s.total == expected
  {
    ReadingsMeasured(values);
    var rs := Readings(values);
    var xs := ValuesOf(rs);
    var flagged := Flagged(rs, Median(xs), Mad(xs), threshold);
    forall p ensures p in flagged <==> Outlying(rs, Median(xs), Mad(xs), threshold, p) {
      FlaggedExact(rs, Median(xs), Mad(xs), threshold, p);
    }
    IntOrder();
    SortCorrect(flagged, IntLeq);
    MembersOfPermutation(flagged, Sort(flagged, IntLeq));
    TakeOrdered(Sort(flagged, IntLeq), Clamp(cap));
    var affected := PartitionSkew(values, expected, cap, threshold).skew.affected;
    forall i, j | 0 <= i < j < |affected| ensures affected[i] <= affected[j] { assert IntLeq(affected[i], affected[j]); }
  }

  lemma IntOrder()
    ensures Total(IntLeq)
  {}

  lemma TakeOrdered(s: seq<int>, k: nat)
    requires Sorted(s, IntLeq)
    ensures Sorted(Take(s, k), IntLeq) && |Take(s, k)| <= k && forall p :: p in Take(s, k) ==> p in s
    ensures forall p :: p in s && p !in Take(s, k) ==> |Take(s, k)| == k && forall q :: q in Take(s, k) ==> q <= p
  {
    if |s| > k {
      forall p | p in s && p !in s[..k] ensures forall q :: q in s[..k] ==> q <= p {
        var i :| 0 <= i < |s| && s[i] == p;
        assert i >= k;
        forall q | q in s[..k] ensures q <= p {
          var j :| 0 <= j < k && s[j] == q;
          assert IntLeq(s[j], s[i]);
        }
      }
    }
  }

  lemma {:induction false} Extremes(xs: seq<real>)
    requires xs != []
    ensures Largest(xs) in xs && Smallest(xs) in xs
    ensures forall x :: x in xs ==> Smallest(xs) <= x <= Largest(xs)
  {
    if |xs| > 1 {
      Extremes(xs[1..]);
      assert xs == [xs[0]] + xs[1..];
    }
  }

  lemma MedianBetween(xs: seq<real>)
    requires xs != []
    ensures Smallest(xs) <= Median(xs) <= Largest(xs)
  {
    SortedBetween(xs, |xs| / 2);
    SortedBetween(xs, (|xs| - 1) / 2);
  }

  lemma SortedBetween(xs: seq<real>, i: nat)
    requires i < |xs|
    ensures Smallest(xs) <= Sorting(xs)[i] <= Largest(xs)
  {
    Extremes(xs);
    RealOrder();
    SortCorrect(xs, RealLeq);
    MembersOfPermutation(xs, Sorting(xs));
    assert Sorting(xs)[i] in Sorting(xs);
  }

  lemma RealOrder()
    ensures Total(RealLeq)
  {}

  /** Every reading lies between the extremes and scores no more than the deviation, which one attains. */
  ghost predicate Encloses(rs: seq<Reading>, s: Skew, mad: real) {
    && s.minimum <= s.median <= s.maximum
    && (forall r :: r in rs ==>
          && r.value.Some? && s.minimum <= r.value.value <= s.maximum
          && Scored(r, s.median, mad) <= s.deviation)
    && (exists r :: r in rs && r.value.Some? && Scored(r, s.median, mad) == s.deviation)
  }

  ghost predicate IsQuotient(q: real, a: real, b: real) { q * b == a }

  lemma QuotientIs(a: real, b: real)
    requires b != 0.0
    ensures IsQuotient(a / b, a, b)
  {}

  ghost predicate SharesRight(measured: nat, s: Skew, expected: int) {
    && (s.ratio.Some? <==> s.median != 0.0) && (s.ratio.Some? ==> IsQuotient(s.ratio.value, s.maximum, s.median))
    && IsQuotient(s.coverage, measured as real, (if expected >= 1 then expected else 1) as real)
  }

  lemma ReadingsEnclosed(rs: seq<Reading>, median: real, mad: real)
    requires rs != [] && forall r :: r in rs ==> r.value.Some?
    ensures var xs := ValuesOf(rs);
            var ss := Scores(xs, median, mad);
            && (forall r :: r in rs ==>
                  && Smallest(xs) <= r.value.value <= Largest(xs) && Scored(r, median, mad) <= Largest(ss))
            && (exists r :: r in rs && r.value.Some? && Scored(r, median, mad) == Largest(ss))
  {
    var xs := ValuesOf(rs);
    var ss := Scores(xs, median, mad);
    Extremes(xs);
    Extremes(ss);
    forall r | r in rs
      ensures Smallest(xs) <= r.value.value <= Largest(xs) && Scored(r, median, mad) <= Largest(ss)
    {
      var i :| 0 <= i < |rs| && rs[i] == r;
      assert xs[i] in xs && ss[i] in ss;
    }
    var k :| 0 <= k < |ss| && ss[k] == Largest(ss);
    assert rs[k] in rs && Scored(rs[k], median, mad) == Largest(ss);
  }

  /** The reported extremes enclose every measured value and the median, and the reported deviation is
      the largest score. */
  lemma SummaryExact(values: seq<Reading>, expected: int, cap: int, threshold: real)
    requires PartitionSkew(values, expected, cap, threshold).Measured?
    ensures forall r :: r in Readings(values) ==> r.value.Some?
    ensures Encloses(Readings(values), PartitionSkew(values, expected, cap, threshold).skew, Mad(ValuesOf(Readings(values))))
  {
    ReadingsMeasured(values);
    var xs := ValuesOf(Readings(values));
    MedianBetween(xs);
    ReadingsEnclosed(Readings(values), Median(xs), Mad(xs));
  }

  /** The ratio is the maximum in units of the median, and the coverage the share of measured partitions. */
  lemma SharesExact(values: seq<Reading>, expected: int, cap: int, threshold: real)
    requires PartitionSkew(values, expected, cap, threshold).Measured?
    ensures SharesRight(|Readings(values)|, PartitionSkew(values, expected, cap, threshold).skew, expected)
  {
    ReadingsMeasured(values);
    var s := PartitionSkew(values, expected, cap, threshold).skew;
    if s.median != 0.0 { QuotientIs(s.maximum, s.median); }
    QuotientIs(|Readings(values)| as real, (if expected >= 1 then expected else 1) as real);
  }

  // ----- Never more than half -----

  /** Counts the values farther from the median than `limit`. */
  function CountBeyond(xs: seq<real>, median: real, limit: real): nat {
    if xs == [] then 0
    else (if Abs(xs[0] - median) > limit then 1 else 0) + CountBeyond(xs[1..], median, limit)
  }

  lemma {:induction false} BeyondAndNot(xs: seq<real>, median: real, limit: real)
    ensures CountBeyond(xs, median, limit) + CountAtMost(Deviations(xs, median), limit) == |xs|
  {
    if xs != [] {
      BeyondAndNot(xs[1..], median, limit);
      assert Deviations(xs, median)[1..] == Deviations(xs[1..], median);
    }
  }

  /** A flagged value lies beyond the median deviation, once the threshold exceeds one of its units. */
  lemma FlaggedIsBeyond(x: real, median: real, mad: real, threshold: real)
    requires mad >= 0.0 && 1.4826 * threshold > 1.0 && Score(x - median, mad) >= threshold
    ensures Abs(x - median) > mad
  {
    if mad != 0.0 {
      var q, unit := Score(x - median, mad), 1.4826 * mad;
      assert unit > 0.0;
      assert q * unit == Abs(x - median);
      assert q * unit >= threshold * unit by { ScaleOrder(threshold, q, unit); }
      assert threshold * unit == (1.4826 * threshold) * mad;
      assert (1.4826 * threshold - 1.0) * mad > 0.0;
    }
  }

  lemma {:induction false} FlaggedAreBeyond(rs: seq<Reading>, median: real, mad: real, threshold: real)
    requires forall r :: r in rs ==> r.value.Some?
    requires mad >= 0.0 && 1.4826 * threshold > 1.0
    ensures |Flagged(rs, median, mad, threshold)| <= CountBeyond(ValuesOf(rs), median, mad)
  {
    if rs != [] {
      FlaggedAreBeyond(rs[1..], median, mad, threshold);
      assert ValuesOf(rs)[1..] == ValuesOf(rs[1..]);
      if Scored(rs[0], median, mad) >= threshold {
        FlaggedIsBeyond(rs[0].value.value, median, mad, threshold);
      }
    }
  }

  /** Above one unit of deviation, at most half of the measured partitions are flagged. */
  lemma AtMostHalfFlagged(rs: seq<Reading>, threshold: real)
    requires rs != [] && forall r :: r in rs ==> r.value.Some?
    requires 1.4826 * threshold > 1.0
    ensures var xs := ValuesOf(rs); |Flagged(rs, Median(xs), Mad(xs), threshold)| <= |rs| / 2
  {
    var xs := ValuesOf(rs);
    var m, mad := Median(xs), Mad(xs);
    MadZeroIffMajority(xs);
    FlaggedAreBeyond(rs, m, mad, threshold);
    BeyondAndNot(xs, m, mad);
    HalfAtMostMedian(Deviations(xs, m));
  }

  /** The affected partitions are at most half of the measured ones, for every input at the default
      threshold and any cap. */
  lemma AtMostHalfAffected(values: seq<Reading>, expected: int, cap: int)
    requires PartitionSkew(values, expected, cap, DEFAULT_THRESHOLD).Measured?
    ensures 2 * |PartitionSkew(values, expected, cap, DEFAULT_THRESHOLD).skew.affected| <= |Readings(values)|
  {
    ReadingsMeasured(values);
    var rs := Readings(values);
    var xs := ValuesOf(rs);
    AtMostHalfFlagged(rs, DEFAULT_THRESHOLD);
    SortLength(Flagged(rs, Median(xs), Mad(xs), DEFAULT_THRESHOLD), IntLeq);
  }

  ghost predicate NeverMoreThanHalf(threshold: real) {
    forall rs: seq<Reading> :: HalfHolds(rs, threshold)
  }

  ghost predicate HalfHolds(rs: seq<Reading>, threshold: real) {
    rs != [] && (forall r :: r in rs ==> r.value.Some?) ==>
      |Flagged(rs, Median(ValuesOf(rs)), Mad(ValuesOf(rs)), threshold)| <= |rs| / 2
  }

  /** The bound is a matter of the threshold alone: it holds for all measurements exactly when the
      threshold exceeds 1 / 1.4826. Below that, two partitions that differ are both flagged. */
  lemma HalfIffThresholdAboveUnit(threshold: real)
    ensures NeverMoreThanHalf(threshold) <==> 1.4826 * threshold > 1.0
  {
    if 1.4826 * threshold > 1.0 {
      forall rs: seq<Reading> ensures HalfHolds(rs, threshold) {
        if rs != [] && forall r :: r in rs ==> r.value.Some? {
          AtMostHalfFlagged(rs, threshold);
        }
      }
    } else {
      var rs := [Reading(0, Some(0.0)), Reading(1, Some(2.0))];
      PairScores(rs, threshold);
      assert !HalfHolds(rs, threshold);
    }
  }

  lemma PairScores(rs: seq<Reading>, threshold: real)
    requires rs == [Reading(0, Some(0.0)), Reading(1, Some(2.0))] && 1.4826 * threshold <= 1.0
    ensures forall r :: r in rs ==> r.value.Some?
    ensures |Flagged(rs, Median(ValuesOf(rs)), Mad(ValuesOf(rs)), threshold)| == 2
  {
    var xs := ValuesOf(rs);
    assert xs == [0.0, 2.0];
    SortSorted(xs, RealLeq);
    assert Deviations(xs, 1.0) == [1.0, 1.0];
    SortSorted([1.0, 1.0], RealLeq);
    assert Median(xs) == 1.0 && Mad(xs) == 1.0;
    assert Score(0.0 - 1.0, 1.0) >= threshold && Score(2.0 - 1.0, 1.0) >= threshold;
    assert rs[1..] == [Reading(1, Some(2.0))] && rs[1..][1..] == [];
    assert Flagged(rs[1..], 1.0, 1.0, threshold) == [1];
  }
}
