/** The row 1 claim end to end: from timed samples to a verdict (analysis/latency.py). */
module Claim {
  import opened Wrappers
  import opened AnalysisErrors
  import opened Sequences
  import opened Warmup
  import opened Segments
  import opened Bootstrap
  import opened Quantiles

  const REFUSAL_PATH_SCENARIO := "gt-f1-chain-tamper"


  /** A seeded generator: what it draws depends on nothing but the two lengths. */
  type Generator = (nat, nat) -> seq<Draw>

  predicate OnRefusalPath(samples: seq<Sample>) {
    exists x :: x in samples && x.scenario == REFUSAL_PATH_SCENARIO
  }

  /** Refuses a pool that holds the chain-tamper cell rather than filtering it. */
  function BenignSeries(samples: seq<Sample>, arm: string, phase: string): (r: Result<seq<real>, AnalysisError>) {
    if OnRefusalPath(samples) then Failure(RefusalPathPooled) else SegmentValues(samples, arm, phase)
  }

  predicate DrawsForClaim(generator: Generator, samples: seq<Sample>, treatmentArm: string, controlArm: string) {
    var t, c := BenignSeries(samples, treatmentArm, "warm"), BenignSeries(samples, controlArm, "warm");
    t.Success? && c.Success? ==> AllDrawFrom(generator(|t.value|, |c.value|), t.value, c.value)
  }

  function LightweightClaim(
    samples: seq<Sample>, margin: real, treatmentArm: string, controlArm: string, generator: Generator)
    : (r: Result<Decision, AnalysisError>)
    requires DrawsForClaim(generator, samples, treatmentArm, controlArm)
  {
    var t :- BenignSeries(samples, treatmentArm, "warm");
    var c :- BenignSeries(samples, controlArm, "warm");
    EquivalenceDecision(t, c, margin, 0.95, generator(|t|, |c|))
  }

  /** The series is refused, or no time in it is reported twice with two values. */
  ghost predicate Settled(samples: seq<Sample>, arm: string) {
    BenignSeries(samples, arm, "warm").Failure? || TimesAgree(Filter(Measured(arm, "warm"), samples))
  }

  lemma SeriesOfTheSame(s: seq<Sample>, t: seq<Sample>, arm: string)
    requires multiset(s) == multiset(t) && Settled(s, arm)
    ensures BenignSeries(s, arm, "warm") == BenignSeries(t, arm, "warm")
  {
    SameMultisetSameSamples(s, t);
    assert OnRefusalPath(s) == OnRefusalPath(t);
    if !OnRefusalPath(s) {
      SeriesIgnoresInputOrder(s, t, arm, "warm");
    }
  }

  /** The verdict does not depend on the order the samples were handed over in, as long as the samples of one
      span of one repetition report one time. */
  lemma ClaimIgnoresInputOrder(
    s: seq<Sample>, t: seq<Sample>, margin: real, treatmentArm: string, controlArm: string, generator: Generator)
    requires multiset(s) == multiset(t)
    requires Settled(s, treatmentArm) && Settled(s, controlArm)
    requires DrawsForClaim(generator, s, treatmentArm, controlArm)
    ensures DrawsForClaim(generator, t, treatmentArm, controlArm)
    ensures LightweightClaim(s, margin, treatmentArm, controlArm, generator)
      == LightweightClaim(t, margin, treatmentArm, controlArm, generator)
  {
    SeriesOfTheSame(s, t, treatmentArm);
    SeriesOfTheSame(s, t, controlArm);
  }

  /** A sample the claim has no business with: not of this arm, warm, and in the measured segment. */
  predicate Foreign(x: Sample, treatmentArm: string, controlArm: string) {
    && !Measured(treatmentArm, "warm")(x) && !Measured(controlArm, "warm")(x)
    && x.scenario != REFUSAL_PATH_SCENARIO
  }

  lemma SeriesIgnoresForeign(samples: seq<Sample>, extra: seq<Sample>, arm: string)
    requires forall x :: x in extra ==> !Measured(arm, "warm")(x) && x.scenario != REFUSAL_PATH_SCENARIO
    ensures BenignSeries(samples + extra, arm, "warm") == BenignSeries(samples, arm, "warm")
  {
    FilterConcat(Measured(arm, "warm"), samples, extra);
    FilterNone(Measured(arm, "warm"), extra);
    assert Filter(Measured(arm, "warm"), samples) + [] == Filter(Measured(arm, "warm"), samples);
    assert OnRefusalPath(samples + extra) == OnRefusalPath(samples);
  }

  /** Cold samples, other arms' samples and the spans outside the measured segment never move the verdict,
      while one sample of the chain-tamper cell refuses it. */
  lemma ClaimReadsOnlyItsSegment(
    samples: seq<Sample>, extra: seq<Sample>, margin: real, treatmentArm: string, controlArm: string,
    generator: Generator)
    requires DrawsForClaim(generator, samples, treatmentArm, controlArm)
    ensures (forall x :: x in extra ==> Foreign(x, treatmentArm, controlArm)) ==>
      && DrawsForClaim(generator, samples + extra, treatmentArm, controlArm)
      && LightweightClaim(samples + extra, margin, treatmentArm, controlArm, generator)
        == LightweightClaim(samples, margin, treatmentArm, controlArm, generator)
    ensures OnRefusalPath(extra) ==>
      && DrawsForClaim(generator, samples + extra, treatmentArm, controlArm)
      && LightweightClaim(samples + extra, margin, treatmentArm, controlArm, generator)
        == Failure(RefusalPathPooled)
  {
    if forall x :: x in extra ==> Foreign(x, treatmentArm, controlArm) {
      SeriesIgnoresForeign(samples, extra, treatmentArm);
      SeriesIgnoresForeign(samples, extra, controlArm);
    }
    if OnRefusalPath(extra) {
      var x :| x in extra && x.scenario == REFUSAL_PATH_SCENARIO;
      assert x in samples + extra;
    }
  }

  // ---- when the claim is refused ----

  /** The samples the series of an arm is made of. */
  function RowsOf(samples: seq<Sample>, arm: string): (r: seq<Sample>) {
    Filter(Measured(arm, "warm"), samples)
  }

  /** How many repetitions the arm was measured in. */
  function Repetitions(samples: seq<Sample>, arm: string): nat {
    |Order(RowsOf(samples, arm))|
  }

  /** Some repetition of the arm lacks one of the two spans, or the arm was not measured at all. */
  ghost predicate Unmeasured(samples: seq<Sample>, arm: string) {
    var rows := RowsOf(samples, arm);
    rows == [] || exists x :: x in rows && !BothSpans(rows, RepetitionOf(x))
  }

  lemma SeriesIsMeasured(samples: seq<Sample>, arm: string)
    requires !OnRefusalPath(samples)
    ensures var r := BenignSeries(samples, arm, "warm");
      && (Unmeasured(samples, arm) <==> r.Failure? || r.value == [])
      && (r.Success? ==> |r.value| == Repetitions(samples, arm))
  {
    RefusedExactlyWhenIncomplete(samples, arm, "warm");
    var rows := RowsOf(samples, arm);
    OrderListsKeys(rows);
    if rows != [] {
      KeyHasRow(rows, RepetitionOf(rows[0]));
    }
  }

  /** The claim is refused exactly when a sample of the chain-tamper cell is among the samples, one of the two arms
      was not measured or not completely, or the generator draws fewer than 1000 resamples for as many
      repetitions.  Otherwise it stands exactly when the upper end of the interval is below the margin. */
  lemma ClaimRefusedExactly(
    samples: seq<Sample>, margin: real, treatmentArm: string, controlArm: string, generator: Generator)
    requires DrawsForClaim(generator, samples, treatmentArm, controlArm)
    ensures var r := LightweightClaim(samples, margin, treatmentArm, controlArm, generator);
      && (r.Failure? <==>
            || OnRefusalPath(samples) || Unmeasured(samples, treatmentArm) || Unmeasured(samples, controlArm)
            || |generator(Repetitions(samples, treatmentArm), Repetitions(samples, controlArm))| < 1000)
      && (r.Success? ==> (r.value.verdict == Stands <==> r.value.ci.high < margin))
  {
    if !OnRefusalPath(samples) {
      SeriesIsMeasured(samples, treatmentArm);
      SeriesIsMeasured(samples, controlArm);
      var t, c := BenignSeries(samples, treatmentArm, "warm"), BenignSeries(samples, controlArm, "warm");
      if t.Success? && c.Success? {
        RefusedExactlyOutsideTheDomain(t.value, c.value, margin, 0.95, generator(|t.value|, |c.value|));
      }
    }
  }

  /** The claim's interval leaves out 2.5 percent of the resamples on either side. */
  lemma ClaimCoversNinetyFivePercent(
    samples: seq<Sample>, margin: real, treatmentArm: string, controlArm: string, generator: Generator)
    requires DrawsForClaim(generator, samples, treatmentArm, controlArm)
    requires LightweightClaim(samples, margin, treatmentArm, controlArm, generator).Success?
    ensures var t, c := SegmentValues(samples, treatmentArm, "warm"), SegmentValues(samples, controlArm, "warm");
      && t.Success? && c.Success? && t.value != [] && c.value != []
      && var draws := generator(|t.value|, |c.value|);
        && AllDrawFrom(draws, t.value, c.value)
        && Covers(Differences(t.value, c.value, draws),
                  LightweightClaim(samples, margin, treatmentArm, controlArm, generator).value.ci,
                  0.025 * (|draws| - 1) as real)
  {
    var t, c := BenignSeries(samples, treatmentArm, "warm"), BenignSeries(samples, controlArm, "warm");
    var draws := generator(|t.value|, |c.value|);
    DecisionCovers(t.value, c.value, margin, draws);
  }

  lemma DecisionCovers(treatment: seq<real>, control: seq<real>, margin: real, draws: seq<Draw>)
    requires AllDrawFrom(draws, treatment, control)
    requires EquivalenceDecision(treatment, control, margin, 0.95, draws).Success?
    ensures treatment != [] && control != []
    ensures Covers(Differences(treatment, control, draws),
                   EquivalenceDecision(treatment, control, margin, 0.95, draws).value.ci, 0.025 * (|draws| - 1) as real)
  {
    var tail := 0.025 * (|draws| - 1) as real;
    HalfOfFive((|draws| - 1) as real, tail);
    TailsCover(Differences(treatment, control, draws), 0.95, tail);
  }

  lemma HalfOfFive(m: real, tail: real)
    requires tail == 0.025 * m
    ensures tail == (1.0 - 0.95) / 2.0 * m
  {
    assert (1.0 - 0.95) / 2.0 == 0.025;
  }

  /** The one cell that is refused. */
  lemma RefusalPathExactly(samples: seq<Sample>)
    ensures OnRefusalPath(samples) <==> exists x :: x in samples && x.scenario == "gt-f1-chain-tamper"
  {
  }
}
