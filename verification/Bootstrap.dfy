/** The bootstrap interval on a difference of medians and the equivalence rule that reads it
    (analysis/latency.py).  The generator is whatever indices it draws. */
module Bootstrap {
  import opened Wrappers
  import opened AnalysisErrors
  import opened Samples

  datatype Interval = Interval(low: real, high: real)

  /** The indices one resample draws from each series. */
  datatype Draw = Draw(treatment: seq<nat>, control: seq<nat>)

  datatype Descriptives = Descriptives(n: nat, median: real, p95: real, iqr: real)

  datatype Verdict = Stands | Retracted

  datatype Decision = Decision(
    verdict: Verdict, point: real, ci: Interval, treatment: Descriptives, control: Descriptives)

  /** `rng.choice` once per element of the series. */
  predicate DrawsFrom(d: Draw, treatment: seq<real>, control: seq<real>) {
    && |d.treatment| == |treatment| && |d.control| == |control|
    && (forall i :: 0 <= i < |d.treatment| ==> d.treatment[i] < |treatment|)
    && (forall i :: 0 <= i < |d.control| ==> d.control[i] < |control|)
  }

  predicate AllDrawFrom(draws: seq<Draw>, treatment: seq<real>, control: seq<real>) {
    forall i :: 0 <= i < |draws| ==> DrawsFrom(draws[i], treatment, control)
  }

  function Resample(s: seq<real>, indices: seq<nat>): (r: seq<real>)
    requires forall i :: 0 <= i < |indices| ==> indices[i] < |s|
    ensures |r| == |indices|
  {
    seq(|indices|, i requires 0 <= i < |indices| => s[indices[i]])
  }

  function Difference(treatment: seq<real>, control: seq<real>, d: Draw): real
    requires treatment != [] && control != [] && DrawsFrom(d, treatment, control)
  {
    Median(Resample(treatment, d.treatment)) - Median(Resample(control, d.control))
  }

  function Differences(treatment: seq<real>, control: seq<real>, draws: seq<Draw>): (r: seq<real>)
    requires treatment != [] && control != [] && AllDrawFrom(draws, treatment, control)
    ensures |r| == |draws|
  {
    seq(|draws|, i requires 0 <= i < |draws| => Difference(treatment, control, draws[i]))
  }

  /** The fraction of the resamples left below the interval. */
  function LowTail(confidence: real): (f: real)
    requires 0.0 < confidence < 1.0
    ensures 0.0 <= f < 0.5
  {
    var alpha := 1.0 - confidence;
    alpha / 2.0
  }

  function HighTail(confidence: real): (f: real)
    requires 0.0 < confidence < 1.0
    ensures 0.5 < f <= 1.0
  {
    var alpha := 1.0 - confidence;
    1.0 - alpha / 2.0
  }

  function PercentileInterval(differences: seq<real>, confidence: real): Interval
    requires differences != [] && 0.0 < confidence < 1.0
  {
    var ordered := Sorted(differences);
    Interval(Percentile(ordered, LowTail(confidence)), Percentile(ordered, HighTail(confidence)))
  }

  function Bootstrap(treatment: seq<real>, control: seq<real>, confidence: real, draws: seq<Draw>)
    : (r: Result<Interval, AnalysisError>)
    requires AllDrawFrom(draws, treatment, control)
  {
    if treatment == [] || control == [] then Failure(EmptySeries)
    else if !(0.0 < confidence < 1.0) then Failure(ConfidenceOutOfRange)
    else if |draws| < 1000 then Failure(TooFewResamples)
    else Success(PercentileInterval(Differences(treatment, control, draws), confidence))
  }

  /** The arguments the interval is not refused for. */
  predicate Admissible(treatment: seq<real>, control: seq<real>, confidence: real, resamples: nat) {
    treatment != [] && control != [] && 0.0 < confidence < 1.0 && resamples >= 1000
  }

  method BootstrapLoop(treatment: seq<real>, control: seq<real>, confidence: real, draws: seq<Draw>)
    returns (r: Result<Interval, AnalysisError>)
    requires AllDrawFrom(draws, treatment, control)
    ensures r == Bootstrap(treatment, control, confidence, draws)
  {
    if treatment == [] || control == [] {
      return Failure(EmptySeries);
    }
    if !(0.0 < confidence < 1.0) {
      return Failure(ConfidenceOutOfRange);
    }
    if |draws| < 1000 {
      return Failure(TooFewResamples);
    }
    var differences: seq<real> := [];
    for n := 0 to |draws|
      invariant |differences| == n
      invariant forall i :: 0 <= i < n ==> differences[i] == Difference(treatment, control, draws[i])
    {
      var a := Resample(treatment, draws[n].treatment);
      var b := Resample(control, draws[n].control);
      differences := differences + [Median(a) - Median(b)];
    }
    assert differences == Differences(treatment, control, draws);
    r := Success(PercentileInterval(differences, confidence));
  }

  function Describe(values: seq<real>): (r: Result<Descriptives, AnalysisError>) {
    if values == [] then Failure(EmptySeries)
    else
      var ordered := Sorted(values);
      Success(Descriptives(|ordered|, Median(ordered), Percentile(ordered, 0.95),
                           Percentile(ordered, 0.75) - Percentile(ordered, 0.25)))
  }

  function EquivalenceDecision(
    treatment: seq<real>, control: seq<real>, margin: real, confidence: real, draws: seq<Draw>)
    : (r: Result<Decision, AnalysisError>)
    requires AllDrawFrom(draws, treatment, control)
  {
    var ci :- Bootstrap(treatment, control, confidence, draws);
    var t :- Describe(treatment);
    var c :- Describe(control);
    Success(Decision(if ci.high < margin then Stands else Retracted, Median(treatment) - Median(control), ci, t, c))
  }

  // ---- theorems over every seed ----

  predicate Within(s: seq<real>, low: real, high: real) {
    forall i :: 0 <= i < |s| ==> low <= s[i] <= high
  }

  lemma DifferenceBounded(treatment: seq<real>, control: seq<real>, d: Draw, tl: real, th: real, cl: real, ch: real)
    requires treatment != [] && control != [] && DrawsFrom(d, treatment, control)
    requires Within(treatment, tl, th) && Within(control, cl, ch)
    ensures tl - ch <= Difference(treatment, control, d) <= th - cl
  {
    MedianBounded(Resample(treatment, d.treatment), tl, th);
    MedianBounded(Resample(control, d.control), cl, ch);
  }

  lemma PercentileIntervalBounded(differences: seq<real>, confidence: real, low: real, high: real)
    requires differences != [] && 0.0 < confidence < 1.0 && Within(differences, low, high)
    ensures var ci := PercentileInterval(differences, confidence); low <= ci.low <= ci.high <= high
  {
    var ordered := Sorted(differences);
    SortedAscends(differences);
    assert ordered[0] in differences && ordered[|ordered| - 1] in differences by {
      assert ordered[0] in ordered && ordered[|ordered| - 1] in ordered;
    }
    PercentileBounded(ordered, LowTail(confidence));
    PercentileBounded(ordered, HighTail(confidence));
    PercentileMonotone(ordered, LowTail(confidence), HighTail(confidence));
  }

  /** Whatever is drawn, the interval is one, and both its ends lie between the extreme differences of the
      data. */
  lemma IntervalBounded(
    treatment: seq<real>, control: seq<real>, confidence: real, draws: seq<Draw>, tl: real, th: real, cl: real,
    ch: real)
    requires AllDrawFrom(draws, treatment, control) && Admissible(treatment, control, confidence, |draws|)
    requires Within(treatment, tl, th) && Within(control, cl, ch)
    ensures Bootstrap(treatment, control, confidence, draws).Success?
    ensures var ci := Bootstrap(treatment, control, confidence, draws).value;
      tl - ch <= ci.low <= ci.high <= th - cl
  {
    forall i | 0 <= i < |draws|
      ensures tl - ch <= Difference(treatment, control, draws[i]) <= th - cl
    {
      DifferenceBounded(treatment, control, draws[i], tl, th, cl, ch);
    }
    PercentileIntervalBounded(Differences(treatment, control, draws), confidence, tl - ch, th - cl);
  }

  lemma TailsNest(c: real, d: real)
    requires 0.0 < c <= d < 1.0
    ensures LowTail(d) <= LowTail(c) && HighTail(c) <= HighTail(d)
  {
  }

  lemma PercentileIntervalsNest(differences: seq<real>, c: real, d: real)
    requires differences != [] && 0.0 < c <= d < 1.0
    ensures var inner, outer := PercentileInterval(differences, c), PercentileInterval(differences, d);
      outer.low <= inner.low && inner.high <= outer.high
  {
    var ordered := Sorted(differences);
    SortedAscends(differences);
    TailsNest(c, d);
    PercentileMonotone(ordered, LowTail(d), LowTail(c));
    PercentileMonotone(ordered, HighTail(c), HighTail(d));
  }

  /** More confidence never gives a narrower interval. */
  lemma IntervalsNest(treatment: seq<real>, control: seq<real>, c: real, d: real, draws: seq<Draw>)
    requires AllDrawFrom(draws, treatment, control) && c <= d
    requires Admissible(treatment, control, c, |draws|) && Admissible(treatment, control, d, |draws|)
    ensures Bootstrap(treatment, control, c, draws).Success? && Bootstrap(treatment, control, d, draws).Success?
    ensures var inner := Bootstrap(treatment, control, c, draws).value;
      var outer := Bootstrap(treatment, control, d, draws).value;
      outer.low <= inner.low && inner.high <= outer.high
  {
    PercentileIntervalsNest(Differences(treatment, control, draws), c, d);
  }

  lemma DifferencesShift(treatment: seq<real>, control: seq<real>, draws: seq<Draw>, k: real)
    requires treatment != [] && control != [] && AllDrawFrom(draws, treatment, control)
    ensures AllDrawFrom(draws, Shifted(treatment, k), control)
    ensures Differences(Shifted(treatment, k), control, draws) == Shifted(Differences(treatment, control, draws), k)
  {
    var shifted := Shifted(treatment, k);
    forall i | 0 <= i < |draws|
      ensures DrawsFrom(draws[i], shifted, control)
      ensures Difference(shifted, control, draws[i]) == Difference(treatment, control, draws[i]) + k
    {
      assert DrawsFrom(draws[i], treatment, control);
      var a := Resample(treatment, draws[i].treatment);
      assert Resample(shifted, draws[i].treatment) == Shifted(a, k);
      MedianShifts(a, k);
    }
  }

  lemma PercentileIntervalShifts(differences: seq<real>, confidence: real, k: real)
    requires differences != [] && 0.0 < confidence < 1.0
    ensures var ci := PercentileInterval(differences, confidence);
      PercentileInterval(Shifted(differences, k), confidence) == Interval(ci.low + k, ci.high + k)
  {
    SortedShifts(differences, k);
    PercentileShifts(Sorted(differences), LowTail(confidence), k);
    PercentileShifts(Sorted(differences), HighTail(confidence), k);
  }

  /** Slowing every treatment value by `k` moves the interval by exactly `k`. */
  lemma IntervalShifts(treatment: seq<real>, control: seq<real>, confidence: real, draws: seq<Draw>, k: real)
    requires AllDrawFrom(draws, treatment, control) && Admissible(treatment, control, confidence, |draws|)
    ensures AllDrawFrom(draws, Shifted(treatment, k), control)
    ensures Bootstrap(treatment, control, confidence, draws).Success?
    ensures var ci := Bootstrap(treatment, control, confidence, draws).value;
      Bootstrap(Shifted(treatment, k), control, confidence, draws) == Success(Interval(ci.low + k, ci.high + k))
  {
    DifferencesShift(treatment, control, draws, k);
    PercentileIntervalShifts(Differences(treatment, control, draws), confidence, k);
  }

  /** Data that separate from the margin decide the verdict for every seed. */
  lemma SeparatedDataDecide(
    treatment: seq<real>, control: seq<real>, margin: real, confidence: real, draws: seq<Draw>,
    tl: real, th: real, cl: real, ch: real)
    requires AllDrawFrom(draws, treatment, control) && Admissible(treatment, control, confidence, |draws|)
    requires Within(treatment, tl, th) && Within(control, cl, ch)
    ensures EquivalenceDecision(treatment, control, margin, confidence, draws).Success?
    ensures var d := EquivalenceDecision(treatment, control, margin, confidence, draws).value;
      && (th - cl < margin ==> d.verdict == Stands)
      && (tl - ch >= margin ==> d.verdict == Retracted)
  {
    IntervalBounded(treatment, control, confidence, draws, tl, th, cl, ch);
  }

  /** The decision is refused exactly where the interval is, and for the same reason. */
  lemma RefusedExactlyOutsideTheDomain(
    treatment: seq<real>, control: seq<real>, margin: real, confidence: real, draws: seq<Draw>)
    requires AllDrawFrom(draws, treatment, control)
    ensures var ci := Bootstrap(treatment, control, confidence, draws);
      var d := EquivalenceDecision(treatment, control, margin, confidence, draws);
      && (d.Success? <==> Admissible(treatment, control, confidence, |draws|))
      && (d.Failure? ==> ci.Failure? && d.error == ci.error)
      && (d.Success? ==>
            && ci.Success? && d.value.ci == ci.value
            && (d.value.verdict == Stands <==> ci.value.high < margin))
  {
  }

  /** Asking for more confidence can retract a claim but never rescue one. */
  lemma ConfidenceNeverRescues(
    treatment: seq<real>, control: seq<real>, margin: real, c: real, d: real, draws: seq<Draw>)
    requires AllDrawFrom(draws, treatment, control) && c <= d
    requires Admissible(treatment, control, c, |draws|) && Admissible(treatment, control, d, |draws|)
    ensures EquivalenceDecision(treatment, control, margin, c, draws).Success?
    ensures EquivalenceDecision(treatment, control, margin, d, draws).Success?
    ensures EquivalenceDecision(treatment, control, margin, d, draws).value.verdict == Stands
      ==> EquivalenceDecision(treatment, control, margin, c, draws).value.verdict == Stands
  {
    IntervalsNest(treatment, control, c, d, draws);
  }

  lemma {:induction false} SortedOfAscending(s: seq<real>)
    requires Ascending(s)
    ensures Sorted(s) == s
  {
    if s != [] {
      SortedOfAscending(s[1..]);
      assert s == [s[0]] + s[1..];
    }
  }

  /** The descriptives come in order: the reported median lies inside the quartiles and below the 95th
      percentile, and the reported range is not negative. */
  lemma DescriptivesAreOrdered(values: seq<real>)
    requires values != []
    ensures var d := Describe(values).value;
      var o := Sorted(values);
      && Describe(values).Success? && d.n == |values|
      && d.median == Median(values)
      && Percentile(o, 0.25) <= d.median <= Percentile(o, 0.75) <= d.p95
      && d.iqr >= 0.0
  {
    var o := Sorted(values);
    SortedAscends(values);
    SortedOfAscending(o);
    MedianIsTheMiddlePercentile(values);
    PercentileMonotone(o, 0.25, 0.5);
    PercentileMonotone(o, 0.5, 0.75);
    PercentileMonotone(o, 0.75, 0.95);
  }
}
