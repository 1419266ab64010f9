/** Sorted real sequences, medians and interpolated percentiles (analysis/latency.py).  Floats are modelled
    as reals. */
module Samples {
  import opened Sorting

  predicate Ascending(s: seq<real>) {
    forall i, j :: 0 <= i <= j < |s| ==> s[i] <= s[j]
  }

  predicate RealLeq(x: real, y: real) {
    x <= y
  }

  /** `sorted`. */
  function Sorted(s: seq<real>): (r: seq<real>)
    ensures |r| == |s|
  {
    Sort(RealLeq, s)
  }

  lemma SortedAscends(s: seq<real>)
    ensures Ascending(Sorted(s))
    ensures multiset(Sorted(s)) == multiset(s)
    ensures forall y :: y in Sorted(s) <==> y in s
  {
    SortSorts(RealLeq, s);
    SortKeepsMembers(RealLeq, s);
    var o := Sorted(s);
    forall i, j | 0 <= i <= j < |o|
      ensures o[i] <= o[j]
    {
      assert i < j ==> RealLeq(o[i], o[j]);
    }
  }

  function Shifted(s: seq<real>, k: real): (r: seq<real>)
    ensures |r| == |s|
  {
    seq(|s|, i requires 0 <= i < |s| => s[i] + k)
  }

  lemma {:induction false} InsertShifts(x: real, s: seq<real>, k: real)
    ensures Insert(RealLeq, x + k, Shifted(s, k)) == Shifted(Insert(RealLeq, x, s), k)
  {
    if s != [] && x > s[0] {
      InsertShifts(x, s[1..], k);
      assert Shifted(s, k)[1..] == Shifted(s[1..], k);
      assert Shifted(s, k)[0] == s[0] + k;
      assert Shifted([s[0]] + Insert(RealLeq, x, s[1..]), k) == [s[0] + k] + Shifted(Insert(RealLeq, x, s[1..]), k);
    } else {
      assert Shifted([x] + s, k) == [x + k] + Shifted(s, k);
    }
  }

  /** Shifting every value and sorting commute. */
  lemma {:induction false} SortedShifts(s: seq<real>, k: real)
    ensures Sorted(Shifted(s, k)) == Shifted(Sorted(s), k)
  {
    if s != [] {
      SortedShifts(s[1..], k);
      InsertShifts(s[0], Sorted(s[1..]), k);
      assert Shifted(s, k)[1..] == Shifted(s[1..], k);
    }
  }

  /** `statistics.median`. */
  function Median(s: seq<real>): real
    requires s != []
  {
    var ordered := Sorted(s);
    var n := |ordered|;
    if n % 2 == 1 then ordered[n / 2] else (ordered[n / 2 - 1] + ordered[n / 2]) / 2.0
  }

  function Interpolate(a: real, b: real, weight: real): real {
    a * (1.0 - weight) + b * weight
  }

  lemma ProductNonNegative(x: real, y: real)
    requires x >= 0.0 && y >= 0.0
    ensures x * y >= 0.0
  {
  }

  lemma ProductMonotone(x: real, y: real, m: real)
    requires x <= y && m >= 0.0
    ensures x * m <= y * m
  {
    ProductNonNegative(y - x, m);
    assert (y - x) * m == y * m - x * m;
  }

  lemma FractionOf(fraction: real, m: real)
    requires 0.0 <= fraction <= 1.0 && m >= 0.0
    ensures 0.0 <= fraction * m <= m
  {
    ProductNonNegative(fraction, m);
    ProductMonotone(fraction, 1.0, m);
  }

  /** Where the percentile falls among `n` sorted values. */
  function Position(n: nat, fraction: real): (p: real)
    requires n >= 1 && 0.0 <= fraction <= 1.0
    ensures 0.0 <= p <= (n - 1) as real
  {
    FractionOf(fraction, (n - 1) as real);
    fraction * (n - 1) as real
  }

  /** The index below the position, `int(position)`. */
  function Below(n: nat, fraction: real): (lower: nat)
    requires n >= 1 && 0.0 <= fraction <= 1.0
    ensures lower <= n - 1
    ensures lower as real <= Position(n, fraction) < lower as real + 1.0
  {
    Position(n, fraction).Floor
  }

  function Above(n: nat, fraction: real): (upper: nat)
    requires n >= 1 && 0.0 <= fraction <= 1.0
    ensures Below(n, fraction) <= upper <= n - 1
  {
    if Below(n, fraction) + 1 <= n - 1 then Below(n, fraction) + 1 else n - 1
  }

  function Weight(n: nat, fraction: real): (w: real)
    requires n >= 1 && 0.0 <= fraction <= 1.0
    ensures 0.0 <= w < 1.0
  {
    Position(n, fraction) - Below(n, fraction) as real
  }

  /** `_percentile`: linear interpolation on an already sorted sequence. */
  function Percentile(ordered: seq<real>, fraction: real): real
    requires ordered != [] && 0.0 <= fraction <= 1.0
  {
    var n := |ordered|;
    if n == 1 then ordered[0]
    else Interpolate(ordered[Below(n, fraction)], ordered[Above(n, fraction)], Weight(n, fraction))
  }

  lemma InterpolateBetween(a: real, b: real, weight: real)
    requires a <= b && 0.0 <= weight <= 1.0
    ensures a <= Interpolate(a, b, weight) <= b
  {
    ProductNonNegative(b - a, weight);
    ProductNonNegative(b - a, 1.0 - weight);
    assert Interpolate(a, b, weight) - a == (b - a) * weight;
    assert b - Interpolate(a, b, weight) == (b - a) * (1.0 - weight);
  }

  lemma InterpolateMonotone(a: real, b: real, v: real, w: real)
    requires a <= b && v <= w
    ensures Interpolate(a, b, v) <= Interpolate(a, b, w)
  {
    ProductNonNegative(b - a, w - v);
    assert Interpolate(a, b, w) - Interpolate(a, b, v) == (b - a) * (w - v);
  }

  lemma InterpolateMonotoneInData(a: real, b: real, a': real, b': real, weight: real)
    requires a <= a' && b <= b' && 0.0 <= weight <= 1.0
    ensures Interpolate(a, b, weight) <= Interpolate(a', b', weight)
  {
    ProductNonNegative(a' - a, 1.0 - weight);
    ProductNonNegative(b' - b, weight);
    assert Interpolate(a', b', weight) - Interpolate(a, b, weight) == (a' - a) * (1.0 - weight) + (b' - b) * weight;
  }

  lemma InterpolateShifts(a: real, b: real, weight: real, k: real)
    ensures Interpolate(a + k, b + k, weight) == Interpolate(a, b, weight) + k
  {
    assert (a + k) * (1.0 - weight) == a * (1.0 - weight) + k * (1.0 - weight);
    assert (b + k) * weight == b * weight + k * weight;
    assert k * (1.0 - weight) + k * weight == k;
  }

  /** A percentile lies between its two neighbours in the data. */
  lemma PercentileBetweenNeighbours(s: seq<real>, fraction: real)
    requires s != [] && Ascending(s) && 0.0 <= fraction <= 1.0
    ensures s[Below(|s|, fraction)] <= Percentile(s, fraction) <= s[Above(|s|, fraction)]
  {
    InterpolateBetween(s[Below(|s|, fraction)], s[Above(|s|, fraction)], Weight(|s|, fraction));
  }

  lemma PercentileBounded(s: seq<real>, fraction: real)
    requires s != [] && Ascending(s) && 0.0 <= fraction <= 1.0
    ensures s[0] <= Percentile(s, fraction) <= s[|s| - 1]
  {
    PercentileBetweenNeighbours(s, fraction);
  }

  lemma PositionMonotone(n: nat, f: real, g: real)
    requires n >= 1 && 0.0 <= f <= g <= 1.0
    ensures Position(n, f) <= Position(n, g)
    ensures Below(n, f) <= Below(n, g)
  {
    ProductMonotone(f, g, (n - 1) as real);
  }

  /** A larger fraction never gives a smaller percentile, within a segment and across its ends. */
  lemma PercentileMonotone(s: seq<real>, f: real, g: real)
    requires s != [] && Ascending(s) && 0.0 <= f <= g <= 1.0
    ensures Percentile(s, f) <= Percentile(s, g)
  {
    var n := |s|;
    PositionMonotone(n, f, g);
    if Below(n, f) == Below(n, g) {
      InterpolateMonotone(s[Below(n, f)], s[Above(n, f)], Weight(n, f), Weight(n, g));
    } else {
      PercentileBetweenNeighbours(s, f);
      PercentileBetweenNeighbours(s, g);
    }
  }

  /** Larger data never give a smaller percentile. */
  lemma PercentileMonotoneInData(s: seq<real>, t: seq<real>, fraction: real)
    requires s != [] && |s| == |t| && 0.0 <= fraction <= 1.0
    requires forall i :: 0 <= i < |s| ==> s[i] <= t[i]
    ensures Percentile(s, fraction) <= Percentile(t, fraction)
  {
    var i, j := Below(|s|, fraction), Above(|s|, fraction);
    InterpolateMonotoneInData(s[i], s[j], t[i], t[j], Weight(|s|, fraction));
  }

  lemma PercentileShifts(s: seq<real>, fraction: real, k: real)
    requires s != [] && 0.0 <= fraction <= 1.0
    ensures Percentile(Shifted(s, k), fraction) == Percentile(s, fraction) + k
  {
    InterpolateShifts(s[Below(|s|, fraction)], s[Above(|s|, fraction)], Weight(|s|, fraction), k);
  }

  /** The median and the 50th percentile are the same number. */
  lemma MedianIsTheMiddlePercentile(s: seq<real>)
    requires s != []
    ensures Median(s) == Percentile(Sorted(s), 0.5)
  {
    var o := Sorted(s);
    var n := |o|;
    if n > 1 {
      var half := n / 2;
      if n % 2 == 1 {
        assert Position(n, 0.5) == half as real;
        assert Below(n, 0.5) == half && Weight(n, 0.5) == 0.0;
      } else {
        assert Position(n, 0.5) == (half - 1) as real + 0.5;
        assert Below(n, 0.5) == half - 1 && Above(n, 0.5) == half && Weight(n, 0.5) == 0.5;
      }
    }
  }

  lemma MedianBounded(s: seq<real>, low: real, high: real)
    requires s != [] && forall i :: 0 <= i < |s| ==> low <= s[i] <= high
    ensures low <= Median(s) <= high
  {
    SortedAscends(s);
    forall y | y in Sorted(s)
      ensures low <= y <= high
    {
      assert y in s;
    }
    MedianIsTheMiddlePercentile(s);
    PercentileBounded(Sorted(s), 0.5);
    assert Sorted(s)[0] in Sorted(s) && Sorted(s)[|s| - 1] in Sorted(s);
  }

  lemma MedianShifts(s: seq<real>, k: real)
    requires s != []
    ensures Median(Shifted(s, k)) == Median(s) + k
  {
    SortedShifts(s, k);
    MedianIsTheMiddlePercentile(s);
    MedianIsTheMiddlePercentile(Shifted(s, k));
    PercentileShifts(Sorted(s), 0.5, k);
  }
}
