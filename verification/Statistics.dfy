/** The robust statistics of packages/streaming/intelligence.py over exact reals: median,
    median absolute deviation and interpolated quantiles. */
module Statistics {
  import opened Ordering

  predicate RealLeq(a: real, b: real) { a <= b }

  function Sorting(xs: seq<real>): (s: seq<real>)
    ensures |s| == |xs|
    ensures forall i, j :: 0 <= i < j < |s| ==> s[i] <= s[j]
  {
    SortCorrect(xs, RealLeq);
    assert Sorted(Sort(xs, RealLeq), RealLeq);
    Sort(xs, RealLeq)
  }

  /** `statistics.median`. */
  function Median(xs: seq<real>): real
    requires xs != []
  {
    var s, n := Sorting(xs), |xs|;
    if n % 2 == 1 then s[n / 2] else (s[n / 2 - 1] + s[n / 2]) / 2.0
  }

  function Abs(x: real): real { if x < 0.0 then -x else x }

  function Deviations(xs: seq<real>, m: real): (ds: seq<real>)
    ensures |ds| == |xs| && forall i :: 0 <= i < |xs| ==> ds[i] == Abs(xs[i] - m)
  {
    seq(|xs|, i requires 0 <= i < |xs| => Abs(xs[i] - m))
  }

  function Mad(xs: seq<real>): real
    requires xs != []
  {
    Median(Deviations(xs, Median(xs)))
  }

  /** How far a value is from the median, in units of the deviation when there is one. */
  function Score(delta: real, mad: real): real {
    if mad != 0.0 then Abs(delta) / (1.4826 * mad) else if delta == 0.0 then 0.0 else Abs(delta)
  }

  function Ceiling(x: real): int { -((-x).Floor) }

  /** Where the quantile lies among `n` ordered values; `q` within [0, 1] keeps it inside. */
  function Position(n: nat, q: real): (p: real)
    requires n > 0 && 0.0 <= q <= 1.0
    ensures 0.0 <= p && Ceiling(p) < n
  {
    var m := (n - 1) as real;
    assert 0.0 <= m * q <= m by {
      ProductNotNegative(m, q);
      ProductNotNegative(m, 1.0 - q);
      assert m * (1.0 - q) == m - m * q;
    }
    m * q
  }

  lemma ProductNotNegative(x: real, y: real)
    requires x >= 0.0 && y >= 0.0
    ensures x * y >= 0.0
  {}

  /** Linear interpolation between neighbours of an ordered list. */
  function At(s: seq<real>, position: real): real
    requires 0.0 <= position && Ceiling(position) < |s|
  {
    var lower, upper := position.Floor, Ceiling(position);
    if lower == upper then s[lower] else s[lower] + (s[upper] - s[lower]) * (position - lower as real)
  }

  function Quantile(xs: seq<real>, q: real): real
    requires xs != [] && 0.0 <= q <= 1.0
  {
    At(Sorting(xs), Position(|xs|, q))
  }

  // ----- Counting -----

  function CountAtMost(xs: seq<real>, m: real): nat {
    if xs == [] then 0 else (if xs[0] <= m then 1 else 0) + CountAtMost(xs[1..], m)
  }

  function CountEqual(xs: seq<real>, m: real): nat {
    if xs == [] then 0 else (if xs[0] == m then 1 else 0) + CountEqual(xs[1..], m)
  }

  lemma {:induction false} CountInsert(x: real, s: seq<real>, m: real)
    ensures CountAtMost(Insert(x, s, RealLeq), m) == CountAtMost(s, m) + if x <= m then 1 else 0
  {
    if s != [] && !RealLeq(x, s[0]) {
      CountInsert(x, s[1..], m);
      assert Insert(x, s, RealLeq)[1..] == Insert(x, s[1..], RealLeq);
    } else {
      assert ([x] + s)[1..] == s;
    }
  }

  lemma {:induction false} CountSorting(xs: seq<real>, m: real)
    ensures CountAtMost(Sorting(xs), m) == CountAtMost(xs, m)
  {
    if xs != [] {
      CountSorting(xs[1..], m);
      CountInsert(xs[0], Sort(xs[1..], RealLeq), m);
    }
  }

  ghost predicate Ordered(s: seq<real>) { forall i, j :: 0 <= i < j < |s| ==> s[i] <= s[j] }

  /** In an ordered list the small values come first. */
  lemma {:induction false} CountPrefix(s: seq<real>, m: real, j: nat)
    requires Ordered(s) && j < |s|
    ensures s[j] <= m <==> CountAtMost(s, m) >= j + 1
  {
    if j > 0 {
      CountPrefix(s[1..], m, j - 1);
      assert s[0] <= s[j];
    } else if s[0] > m {
      NoneSmaller(s, m);
    }
  }

  lemma {:induction false} NoneSmaller(s: seq<real>, m: real)
    requires Ordered(s) && (s != [] ==> s[0] > m)
    ensures CountAtMost(s, m) == 0
  {
    if |s| > 1 {
      assert s[0] <= s[1];
      NoneSmaller(s[1..], m);
    }
  }

  // ----- The median among its list -----

  /** At least half of a list, rounded up, lies at or below its median. */
  lemma HalfAtMostMedian(xs: seq<real>)
    requires xs != []
    ensures CountAtMost(xs, Median(xs)) >= |xs| - |xs| / 2
  {
    CountSorting(xs, Median(xs));
    LowerMiddle(xs);
    CountPrefix(Sorting(xs), Median(xs), (|xs| - 1) / 2);
  }

  lemma LowerMiddle(xs: seq<real>)
    requires xs != []
    ensures Sorting(xs)[(|xs| - 1) / 2] <= Median(xs)
  {
    var n := |xs|;
    assert n % 2 == 1 ==> (n - 1) / 2 == n / 2;
    assert n % 2 == 0 ==> (n - 1) / 2 == n / 2 - 1;
  }

  lemma SortingNotNegative(ds: seq<real>)
    requires forall i :: 0 <= i < |ds| ==> ds[i] >= 0.0
    ensures forall i :: 0 <= i < |ds| ==> Sorting(ds)[i] >= 0.0
  {
    SortCorrect(ds, RealLeq);
    MembersOfPermutation(ds, Sorting(ds));
    forall i | 0 <= i < |ds| ensures Sorting(ds)[i] >= 0.0 {
      assert Sorting(ds)[i] in Sorting(ds);
    }
  }

  lemma DeviationMedianZero(ds: seq<real>)
    requires ds != [] && forall i :: 0 <= i < |ds| ==> ds[i] >= 0.0
    ensures Median(ds) >= 0.0
    ensures Median(ds) == 0.0 <==> CountAtMost(ds, 0.0) >= |ds| / 2 + 1
  {
    SortingNotNegative(ds);
    CountSorting(ds, 0.0);
    CountPrefix(Sorting(ds), 0.0, |ds| / 2);
  }

  lemma {:induction false} CountDeviations(xs: seq<real>, m: real)
    ensures CountAtMost(Deviations(xs, m), 0.0) == CountEqual(xs, m)
  {
    if xs != [] {
      CountDeviations(xs[1..], m);
      assert Deviations(xs, m)[1..] == Deviations(xs[1..], m);
    }
  }

  /** The deviation is never negative, and it is zero exactly when a strict majority of the values
      equals the median. */
  lemma MadZeroIffMajority(xs: seq<real>)
    requires xs != []
    ensures Mad(xs) >= 0.0
    ensures Mad(xs) == 0.0 <==> CountEqual(xs, Median(xs)) >= |xs| / 2 + 1
  {
    DeviationMedianZero(Deviations(xs, Median(xs)));
    CountDeviations(xs, Median(xs));
  }

  // ----- Quantiles -----

  lemma Interpolated(lo: real, hi: real, f: real)
    requires lo <= hi && 0.0 <= f <= 1.0
    ensures lo <= lo + (hi - lo) * f <= hi
  {
    ProductNotNegative(hi - lo, f);
    ProductNotNegative(hi - lo, 1.0 - f);
    assert (hi - lo) * (1.0 - f) == (hi - lo) - (hi - lo) * f;
  }

  lemma Further(lo: real, hi: real, f: real, g: real)
    requires lo <= hi && f <= g
    ensures lo + (hi - lo) * f <= lo + (hi - lo) * g
  {
    ProductNotNegative(hi - lo, g - f);
    assert (hi - lo) * (g - f) == (hi - lo) * g - (hi - lo) * f;
  }

  lemma AtBetween(s: seq<real>, position: real)
    requires Ordered(s) && 0.0 <= position && Ceiling(position) < |s|
    ensures s[position.Floor] <= At(s, position) <= s[Ceiling(position)]
  {
    var lower, upper := position.Floor, Ceiling(position);
    if lower != upper { Interpolated(s[lower], s[upper], position - lower as real); }
  }

  lemma AtMonotone(s: seq<real>, p: real, q: real)
    requires Ordered(s) && 0.0 <= p <= q && Ceiling(q) < |s|
    ensures At(s, p) <= At(s, q)
  {
    AtBetween(s, p);
    AtBetween(s, q);
    if p.Floor == q.Floor && p != p.Floor as real {
      assert Ceiling(p) == Ceiling(q) == p.Floor + 1;
      Further(s[p.Floor], s[Ceiling(p)], p - p.Floor as real, q - p.Floor as real);
    }
  }

  lemma PositionMonotone(n: nat, q: real, r: real)
    requires n > 0 && 0.0 <= q <= r <= 1.0
    ensures Position(n, q) <= Position(n, r)
  {
    var m := (n - 1) as real;
    ProductNotNegative(m, r - q);
    assert m * (r - q) == m * r - m * q;
  }

  lemma QuantileMonotone(xs: seq<real>, q: real, r: real)
    requires xs != [] && 0.0 <= q <= r <= 1.0
    ensures Quantile(xs, q) <= Quantile(xs, r)
  {
    PositionMonotone(|xs|, q, r);
    AtMonotone(Sorting(xs), Position(|xs|, q), Position(|xs|, r));
  }

  /** The median is the 50% quantile. */
  lemma MedianIsQuantile(xs: seq<real>)
    requires xs != []
    ensures Median(xs) == Quantile(xs, 0.5)
  {
    var s, n := Sorting(xs), |xs|;
    var position := Position(n, 0.5);
    if n % 2 == 1 {
      assert position == (n / 2) as real;
    } else {
      assert position == (n / 2 - 1) as real + 0.5;
      assert position.Floor == n / 2 - 1 && Ceiling(position) == n / 2;
    }
  }

  /** Where a quantile stands among the values: more than the share of them are at most it, and any lower
      bound has no more than the share below it, counted in whole values. */
  lemma QuantileCounts(xs: seq<real>, q: real, below: real)
    requires xs != [] && 0.0 <= q <= 1.0 && below < Quantile(xs, q)
    ensures CountAtMost(xs, Quantile(xs, q)) as real > (|xs| - 1) as real * q
    ensures CountAtMost(xs, below) as real < (|xs| - 1) as real * q + 1.0
  {
    var s, p := Sorting(xs), Position(|xs|, q);
    AtBetween(s, p);
    CountSorting(xs, Quantile(xs, q));
    CountSorting(xs, below);
    CountPrefix(s, Quantile(xs, q), p.Floor);
    CountPrefix(s, below, Ceiling(p));
  }

  /** The expected range of a baseline encloses its median. */
  lemma RangeEnclosesMedian(xs: seq<real>)
    requires xs != []
    ensures Quantile(xs, 0.1) <= Median(xs) <= Quantile(xs, 0.9)
  {
    MedianIsQuantile(xs);
    QuantileMonotone(xs, 0.1, 0.5);
    QuantileMonotone(xs, 0.5, 0.9);
  }

  // ----- Positive affine rescaling -----

  ghost predicate OrderKept(f: real -> real, x: real, y: real) { x <= y <==> f(x) <= f(y) }

  ghost predicate MidpointKept(f: real -> real, x: real, y: real) { f((x + y) / 2.0) == (f(x) + f(y)) / 2.0 }

  ghost predicate DistanceMapped(f: real -> real, g: real -> real, x: real, y: real) {
    Abs(f(x) - f(y)) == g(Abs(x - y))
  }

  ghost predicate Increasing(f: real -> real) { forall x, y :: OrderKept(f, x, y) }

  ghost predicate KeepsMidpoints(f: real -> real) { forall x, y :: MidpointKept(f, x, y) }

  /** `g` is what `f` does to distances. */
  ghost predicate Stretches(f: real -> real, g: real -> real) { forall x, y :: DistanceMapped(f, g, x, y) }

  lemma MappedTail(s: seq<real>, f: real -> real)
    requires s != []
    ensures Mapped(s, f)[1..] == Mapped(s[1..], f)
  {}

  lemma MappedFirst(x: real, s: seq<real>, f: real -> real)
    ensures Mapped([x] + s, f) == [f(x)] + Mapped(s, f)
  {}

  lemma {:induction false} EachInsert(x: real, s: seq<real>, f: real -> real)
    requires Increasing(f)
    ensures Insert(f(x), Mapped(s, f), RealLeq) == Mapped(Insert(x, s, RealLeq), f)
  {
    if s != [] {
      assert OrderKept(f, x, s[0]);
      MappedTail(s, f);
      if RealLeq(x, s[0]) { MappedFirst(x, s, f); } else {
        EachInsert(x, s[1..], f);
        MappedFirst(s[0], Insert(x, s[1..], RealLeq), f);
      }
    }
  }

  lemma {:induction false} EachSort(xs: seq<real>, f: real -> real)
    requires Increasing(f)
    ensures Sorting(Mapped(xs, f)) == Mapped(Sorting(xs), f)
  {
    if xs != [] {
      EachSort(xs[1..], f);
      assert Mapped(xs, f)[1..] == Mapped(xs[1..], f);
      EachInsert(xs[0], Sort(xs[1..], RealLeq), f);
    }
  }

  lemma EachMedian(xs: seq<real>, f: real -> real)
    requires xs != [] && Increasing(f) && KeepsMidpoints(f)
    ensures Median(Mapped(xs, f)) == f(Median(xs))
  {
    EachSort(xs, f);
    var s, n := Sorting(xs), |xs|;
    if n % 2 == 0 { assert MidpointKept(f, s[n / 2 - 1], s[n / 2]); }
  }

  lemma EachDeviation(xs: seq<real>, m: real, f: real -> real, g: real -> real)
    requires Stretches(f, g)
    ensures Deviations(Mapped(xs, f), f(m)) == Mapped(Deviations(xs, m), g)
  {
    forall i | 0 <= i < |xs| ensures Abs(f(xs[i]) - f(m)) == g(Abs(xs[i] - m)) {
      assert DistanceMapped(f, g, xs[i], m);
    }
  }

  lemma EachMad(xs: seq<real>, f: real -> real, g: real -> real)
    requires xs != [] && Increasing(f) && KeepsMidpoints(f) && Increasing(g) && KeepsMidpoints(g) && Stretches(f, g)
    ensures Mad(Mapped(xs, f)) == g(Mad(xs))
  {
    EachMedian(xs, f);
    EachDeviation(xs, Median(xs), f, g);
    EachMedian(Deviations(xs, Median(xs)), g);
  }

  function Affine(a: real, b: real): real -> real { x => a * x + b }

  lemma AffineIncreasing(a: real, b: real)
    requires a > 0.0
    ensures Increasing(Affine(a, b))
  {
    var f := Affine(a, b);
    forall x, y ensures OrderKept(f, x, y) {
      ScaleOrder(x, y, a);
      assert f(x) == a * x + b && f(y) == a * y + b;
    }
  }

  lemma ScaleOrder(x: real, y: real, a: real)
    requires a > 0.0
    ensures x <= y <==> a * x <= a * y
  {
    assert a * (y - x) == a * y - a * x;
    if x <= y { ProductNotNegative(a, y - x); } else { assert a * (x - y) > 0.0; }
  }

  lemma AffineMidpoints(a: real, b: real)
    ensures KeepsMidpoints(Affine(a, b))
  {
    forall x, y ensures MidpointKept(Affine(a, b), x, y) {
      assert a * ((x + y) / 2.0) == (a * x + a * y) / 2.0;
    }
  }

  lemma AffineStretches(a: real, b: real)
    requires a > 0.0
    ensures Stretches(Affine(a, b), Affine(a, 0.0))
  {
    var f, g := Affine(a, b), Affine(a, 0.0);
    forall x, y ensures DistanceMapped(f, g, x, y) {
      assert f(x) - f(y) == a * (x - y);
      ScaleOrder(0.0, x - y, a);
    }
  }

  /** Rescaling the values rescales the median and the deviation. */
  lemma AffineBaseline(xs: seq<real>, a: real, b: real)
    requires xs != [] && a > 0.0
    ensures Median(Mapped(xs, Affine(a, b))) == Affine(a, b)(Median(xs))
    ensures Mad(Mapped(xs, Affine(a, b))) == Affine(a, 0.0)(Mad(xs))
  {
    AffineIncreasing(a, b);
    AffineIncreasing(a, 0.0);
    AffineMidpoints(a, b);
    AffineMidpoints(a, 0.0);
    AffineStretches(a, b);
    EachMedian(xs, Affine(a, b));
    EachMad(xs, Affine(a, b), Affine(a, 0.0));
  }
}
