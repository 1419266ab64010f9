/** What the percentiles and the bootstrap interval say about the values they are taken from: how many of them lie
    on either side (analysis/latency.py). */
module Quantiles {
  import opened Wrappers
  import opened AnalysisErrors
  import opened Sequences
  import opened Samples
  import opened Bootstrap

  function Over(x: real): real -> bool {
    (y: real) => y > x
  }

  function Under(x: real): real -> bool {
    (y: real) => y < x
  }

  function AtLeast(x: real): real -> bool {
    (y: real) => y >= x
  }

  function AtMost(x: real): real -> bool {
    (y: real) => y <= x
  }

  function Count<T>(p: T -> bool, s: seq<T>): (n: nat)
    ensures n <= |s|
  {
    FilterNoLonger(p, s);
    |Filter(p, s)|
  }

  lemma {:induction false} FilterNoLonger<T>(p: T -> bool, s: seq<T>)
    ensures |Filter(p, s)| <= |s|
  {
    if s != [] {
      FilterNoLonger(p, s[1..]);
    }
  }

  lemma CountConcat<T>(p: T -> bool, a: seq<T>, b: seq<T>)
    ensures Count(p, a + b) == Count(p, a) + Count(p, b)
  {
    FilterConcat(p, a, b);
  }

  /** Counting does not depend on the order. */
  lemma CountOfTheSame<T(!new)>(p: T -> bool, s: seq<T>, t: seq<T>)
    requires multiset(s) == multiset(t)
    ensures Count(p, s) == Count(p, t)
  {
    forall x
      ensures multiset(Filter(p, s))[x] == multiset(Filter(p, t))[x]
    {
      FilterCounts(p, s, x);
      FilterCounts(p, t, x);
    }
    assert multiset(Filter(p, s)) == multiset(Filter(p, t));
    assert |multiset(Filter(p, s))| == |Filter(p, s)| && |multiset(Filter(p, t))| == |Filter(p, t)|;
  }

  /** If nothing before `k` passes, at most the rest does. */
  lemma CountAfter(p: real -> bool, s: seq<real>, k: nat)
    requires k <= |s| && forall i :: 0 <= i < k ==> !p(s[i])
    ensures Count(p, s) <= |s| - k
  {
    assert s == s[..k] + s[k..];
    CountConcat(p, s[..k], s[k..]);
    FilterNone(p, s[..k]);
  }

  lemma CountBefore(p: real -> bool, s: seq<real>, k: nat)
    requires k <= |s| && forall i :: k <= i < |s| ==> !p(s[i])
    ensures Count(p, s) <= k
  {
    assert s == s[..k] + s[k..];
    CountConcat(p, s[..k], s[k..]);
    FilterNone(p, s[k..]);
  }

  /** If everything from `k` on passes, at least that much does. */
  lemma CountFrom(p: real -> bool, s: seq<real>, k: nat)
    requires k <= |s| && forall i :: k <= i < |s| ==> p(s[i])
    ensures Count(p, s) >= |s| - k
  {
    assert s == s[..k] + s[k..];
    CountConcat(p, s[..k], s[k..]);
    FilterAll(p, s[k..]);
  }

  lemma CountUpTo(p: real -> bool, s: seq<real>, k: nat)
    requires k <= |s| && forall i :: 0 <= i < k ==> p(s[i])
    ensures Count(p, s) >= k
  {
    assert s == s[..k] + s[k..];
    CountConcat(p, s[..k], s[k..]);
    FilterAll(p, s[..k]);
  }

  /** The first index at or above the position. */
  function Ceiling(n: nat, fraction: real): (upper: nat)
    requires n >= 1 && 0.0 <= fraction <= 1.0
    ensures upper <= n - 1
    ensures upper as real - 1.0 < Position(n, fraction) <= upper as real
  {
    if Weight(n, fraction) == 0.0 then Below(n, fraction) else Below(n, fraction) + 1
  }

  lemma PercentileUnderCeiling(o: seq<real>, fraction: real)
    requires o != [] && Ascending(o) && 0.0 <= fraction <= 1.0
    ensures o[Below(|o|, fraction)] <= Percentile(o, fraction) <= o[Ceiling(|o|, fraction)]
  {
    PercentileBetweenNeighbours(o, fraction);
  }

  /** How many of the values lie strictly to one side of `x`, and how many at it or beyond, if `x` stands at
      position `p` of them: `p`, or what is left of `n - 1`, rounded to whole values. */
  ghost predicate Splits(s: seq<real>, x: real, p: real) {
    && Count(Over(x), s) as real < |s| as real - p
    && Count(Under(x), s) as real < p + 1.0
    && Count(AtMost(x), s) as real > p
    && Count(AtLeast(x), s) as real >= |s| as real - p - 1.0
  }

  lemma PercentileSplits(o: seq<real>, fraction: real)
    requires o != [] && Ascending(o) && 0.0 <= fraction <= 1.0
    ensures Splits(o, Percentile(o, fraction), Position(|o|, fraction))
  {
    var x := Percentile(o, fraction);
    var below, above := Below(|o|, fraction), Ceiling(|o|, fraction);
    PercentileUnderCeiling(o, fraction);
    CountAfter(Over(x), o, below + 1);
    CountBefore(Under(x), o, above);
    CountUpTo(AtMost(x), o, below + 1);
    CountFrom(AtLeast(x), o, above);
  }

  lemma SplitsInAnyOrder(s: seq<real>, o: seq<real>, x: real, p: real)
    requires multiset(s) == multiset(o) && |s| == |o| && Splits(o, x, p)
    ensures Splits(s, x, p)
  {
    CountOfTheSame(Over(x), s, o);
    CountOfTheSame(Under(x), s, o);
    CountOfTheSame(AtMost(x), s, o);
    CountOfTheSame(AtLeast(x), s, o);
  }

  /** A percentile splits the values it is taken of at its position, in whatever order they come. */
  lemma PercentileOfSortedSplits(s: seq<real>, fraction: real)
    requires s != [] && 0.0 <= fraction <= 1.0
    ensures Splits(s, Percentile(Sorted(s), fraction), fraction * (|s| - 1) as real)
  {
    SortedAscends(s);
    PercentileSplits(Sorted(s), fraction);
    SplitsInAnyOrder(s, Sorted(s), Percentile(Sorted(s), fraction), Position(|s|, fraction));
  }

  /** Of distinct values exactly those above the position lie above the percentile, so the bound is met without
      rounding exactly where the percentile falls on a value. */
  lemma DistinctValuesSplitExactly(o: seq<real>, fraction: real)
    requires o != [] && 0.0 <= fraction <= 1.0
    requires forall i, j :: 0 <= i < j < |o| ==> o[i] < o[j]
    ensures var x, p := Percentile(o, fraction), fraction * (|o| - 1) as real;
      && Count(Over(x), o) == |o| - 1 - p.Floor
      && (Count(Over(x), o) as real <= (|o| - 1) as real - p <==> p == p.Floor as real)
  {
    var x, below := Percentile(o, fraction), Below(|o|, fraction);
    PercentileUnderCeiling(o, fraction);
    CountAfter(Over(x), o, below + 1);
    if below + 1 < |o| {
      InterpolateBelow(o[below], o[below + 1], Weight(|o|, fraction));
    }
    CountFrom(Over(x), o, below + 1);
  }

  lemma InterpolateBelow(a: real, b: real, weight: real)
    requires a < b && 0.0 <= weight < 1.0
    ensures Interpolate(a, b, weight) < b
  {
    assert b - Interpolate(a, b, weight) == (b - a) * (1.0 - weight);
    PositiveProduct(b - a, 1.0 - weight);
  }

  lemma PositiveProduct(x: real, y: real)
    requires x > 0.0 && y > 0.0
    ensures x * y > 0.0
  {
  }

  // ---- between two values ----

  /** At each whole position the percentile is the value there. */
  lemma PercentileHitsEachValue(o: seq<real>, i: nat)
    requires |o| > 1 && i < |o|
    ensures 0.0 <= i as real / (|o| - 1) as real <= 1.0
    ensures Percentile(o, i as real / (|o| - 1) as real) == o[i]
  {
    var m := (|o| - 1) as real;
    var fraction := i as real / m;
    assert fraction * m == i as real;
    assert 0.0 <= fraction <= 1.0 by {
      QuotientBounds(i as real, m);
    }
    assert Position(|o|, fraction) == i as real;
    assert Below(|o|, fraction) == i && Weight(|o|, fraction) == 0.0;
  }

  lemma QuotientBounds(x: real, m: real)
    requires 0.0 <= x <= m && m > 0.0
    ensures 0.0 <= x / m <= 1.0
  {
    var q := x / m;
    assert q * m == x;
    if q < 0.0 {
      PositiveProduct(-q, m);
    }
    if q > 1.0 {
      PositiveProduct(q - 1.0, m);
    }
  }

  /** And from one value to the next it runs straight. */
  lemma PercentileRunsStraight(o: seq<real>, fraction: real)
    requires |o| > 1 && 0.0 <= fraction <= 1.0 && Below(|o|, fraction) + 1 < |o|
    ensures var p := fraction * (|o| - 1) as real;
      var i := p.Floor;
      && 0 <= i < |o| - 1
      && Percentile(o, fraction) == o[i] + (p - i as real) * (o[i + 1] - o[i])
  {
    var i, w := Below(|o|, fraction), Weight(|o|, fraction);
    assert o[i] * (1.0 - w) + o[i + 1] * w == o[i] + w * (o[i + 1] - o[i]);
  }

  // ---- the interval ----

  /** What is covered, for `n` values of which `tail` of `n - 1` are left on either side. */
  ghost predicate Covers(d: seq<real>, ci: Interval, tail: real) {
    && Count(Over(ci.high), d) as real < tail + 1.0
    && Count(Under(ci.low), d) as real < tail + 1.0
    && Count(AtLeast(ci.high), d) as real >= tail
    && Count(AtMost(ci.low), d) as real > tail
  }

  lemma TailsOf(confidence: real, m: real, tail: real)
    requires 0.0 < confidence < 1.0 && tail == (1.0 - confidence) / 2.0 * m
    ensures tail == LowTail(confidence) * m && m - tail == HighTail(confidence) * m
  {
  }

  lemma SplitsCover(d: seq<real>, ci: Interval, tail: real)
    requires Splits(d, ci.low, tail) && Splits(d, ci.high, |d| as real - 1.0 - tail)
    ensures Covers(d, ci, tail)
  {
  }

  lemma SplitsAt(d: seq<real>, fraction: real, p: real)
    requires d != [] && 0.0 <= fraction <= 1.0 && p == fraction * (|d| - 1) as real
    ensures Splits(d, Percentile(Sorted(d), fraction), p)
  {
    PercentileOfSortedSplits(d, fraction);
  }

  lemma LowSplits(d: seq<real>, confidence: real, m: real, tail: real)
    requires d != [] && 0.0 < confidence < 1.0 && m == (|d| - 1) as real && tail == LowTail(confidence) * m
    ensures Splits(d, PercentileInterval(d, confidence).low, tail)
  {
    SplitsAt(d, LowTail(confidence), tail);
  }

  lemma HighSplits(d: seq<real>, confidence: real, m: real, rest: real)
    requires d != [] && 0.0 < confidence < 1.0 && m == (|d| - 1) as real && rest == HighTail(confidence) * m
    ensures Splits(d, PercentileInterval(d, confidence).high, rest)
  {
    SplitsAt(d, HighTail(confidence), rest);
  }

  lemma TailsCover(d: seq<real>, confidence: real, tail: real)
    requires d != [] && 0.0 < confidence < 1.0 && tail == (1.0 - confidence) / 2.0 * (|d| - 1) as real
    ensures Covers(d, PercentileInterval(d, confidence), tail)
  {
    var m := (|d| - 1) as real;
    TailsOf(confidence, m, tail);
    LowSplits(d, confidence, m, tail);
    HighSplits(d, confidence, m, m - tail);
    SplitsCover(d, PercentileInterval(d, confidence), tail);
  }

  /** For every seed: of the `n` differences, fewer than `(1 - confidence) / 2 * (n - 1) + 1` lie strictly above the
      interval and fewer than that strictly below it.  And neither end can move inward: at least
      `(1 - confidence) / 2 * (n - 1)` lie at or above the upper end, and more than that at or below the lower. */
  lemma IntervalCovers(treatment: seq<real>, control: seq<real>, confidence: real, draws: seq<Draw>)
    requires AllDrawFrom(draws, treatment, control)
    requires Bootstrap.Bootstrap(treatment, control, confidence, draws).Success?
    ensures treatment != [] && control != []
    ensures Covers(Differences(treatment, control, draws),
                   Bootstrap.Bootstrap(treatment, control, confidence, draws).value,
                   (1.0 - confidence) / 2.0 * (|draws| - 1) as real)
  {
    var tail := (1.0 - confidence) / 2.0 * (|draws| - 1) as real;
    TailsCover(Differences(treatment, control, draws), confidence, tail);
  }

  // ---- what a decision reports ----

  /** The point estimate is the difference of the two medians, the interval that of the resamples, and the
      descriptives those of the arm they stand under. */
  lemma DecisionExactly(treatment: seq<real>, control: seq<real>, margin: real, confidence: real, draws: seq<Draw>)
    requires AllDrawFrom(draws, treatment, control)
    requires EquivalenceDecision(treatment, control, margin, confidence, draws).Success?
    ensures treatment != [] && control != []
    ensures var d := EquivalenceDecision(treatment, control, margin, confidence, draws).value;
      && d.point == Percentile(Sorted(treatment), 0.5) - Percentile(Sorted(control), 0.5)
      && Bootstrap.Bootstrap(treatment, control, confidence, draws) == Success(d.ci)
      && (d.verdict == Stands <==> d.ci.high < margin)
      && DescribesExactly(treatment, d.treatment) && DescribesExactly(control, d.control)
  {
    MedianIsTheMiddlePercentile(treatment);
    MedianIsTheMiddlePercentile(control);
    DescriptivesExactly(treatment);
    DescriptivesExactly(control);
  }

  predicate DescribesExactly(values: seq<real>, d: Descriptives)
    requires values != []
  {
    && d.n == |values|
    && d.median == Percentile(Sorted(values), 0.5)
    && d.p95 == Percentile(Sorted(values), 0.95)
    && d.iqr == Percentile(Sorted(values), 0.75) - Percentile(Sorted(values), 0.25)
  }

  /** A series is described exactly if it is not empty, by its size and four of its percentiles. */
  lemma DescriptivesExactly(values: seq<real>)
    ensures Describe(values).Success? <==> values != []
    ensures Describe(values).Failure? ==> Describe(values) == Failure(EmptySeries)
    ensures values != [] ==> DescribesExactly(values, Describe(values).value)
  {
    if values != [] {
      MedianIsTheMiddlePercentile(values);
      SortedTwice(values);
    }
  }

  lemma SortedTwice(values: seq<real>)
    requires values != []
    ensures Median(Sorted(values)) == Median(values)
  {
    SortedAscends(values);
    SortedOfAscending(Sorted(values));
  }

  predicate DrawsInTurn(indices: seq<nat>) {
    forall k :: 0 <= k < |indices| ==> indices[k] == k
  }

  predicate DrawsOnly(indices: seq<nat>, i: nat) {
    forall k :: 0 <= k < |indices| ==> indices[k] == i
  }

  /** A resample that draws every value once in turn is the series itself, and one that draws a single value over and
      over has that value for a median. */
  lemma DrawsAreFollowed(treatment: seq<real>, control: seq<real>, d: Draw, i: nat, j: nat)
    requires treatment != [] && control != [] && DrawsFrom(d, treatment, control)
    requires i < |treatment| && j < |control|
    ensures DrawsInTurn(d.treatment) && DrawsInTurn(d.control) ==>
      Difference(treatment, control, d) == Median(treatment) - Median(control)
    ensures DrawsOnly(d.treatment, i) && DrawsOnly(d.control, j) ==>
      Difference(treatment, control, d) == treatment[i] - control[j]
  {
    if DrawsInTurn(d.treatment) {
      assert Resample(treatment, d.treatment) == treatment;
    }
    if DrawsInTurn(d.control) {
      assert Resample(control, d.control) == control;
    }
    if DrawsOnly(d.treatment, i) && DrawsOnly(d.control, j) {
      MedianBounded(Resample(treatment, d.treatment), treatment[i], treatment[i]);
      MedianBounded(Resample(control, d.control), control[j], control[j]);
    }
  }
}
