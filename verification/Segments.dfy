/** Pairing the spans of a repetition into the measured segment (analysis/latency.py). */
module Segments {
  import opened Wrappers
  import opened AnalysisErrors
  import opened Sequences
  import opened SortedSets
  import opened Ordering
  import opened Warmup

  const PHASES := ["cold", "warm"]
  const PRESENTATION := "presentation"
  const VERIFICATION := "boundary_verification"
  const RQ4_SPANS := ["setup", "delegation", PRESENTATION, VERIFICATION, "end_to_end"]

  /** What samples are paired by. */
  datatype Repetition = Repetition(scenario: string, batch: int, number: int)

  /** The order of the keys as tuples. */
  predicate RepetitionLeq(a: Repetition, b: Repetition) {
    if a.scenario != b.scenario then Leq(a.scenario, b.scenario)
    else if a.batch != b.batch then a.batch < b.batch
    else a.number <= b.number
  }

  function RepetitionOf(x: Sample): Repetition {
    Repetition(x.scenario, x.batch, x.repetition)
  }

  function RepetitionsIn(rows: seq<Sample>): (r: seq<Repetition>)
    ensures |r| == |rows|
  {
    seq(|rows|, i requires 0 <= i < |rows| => RepetitionOf(rows[i]))
  }

  /** The repetitions in the order of the sorted dict. */
  function Order(rows: seq<Sample>): (r: seq<Repetition>) {
    SortedSet(RepetitionLeq, RepetitionsIn(rows))
  }

  predicate IsMeasured(span: string) {
    span == PRESENTATION || span == VERIFICATION
  }

  function Timed(arm: string, phase: string): Sample -> bool {
    (x: Sample) => x.arm == arm && x.phase == phase
  }

  function Measured(arm: string, phase: string): Sample -> bool {
    (x: Sample) => x.arm == arm && x.phase == phase && IsMeasured(x.span)
  }

  /** `paired[key].get(span)`: the last value written. */
  function Latest(rows: seq<Sample>, key: Repetition, span: string): (r: Option<real>)
    decreases |rows|
  {
    if rows == [] then None
    else
      var x := rows[|rows| - 1];
      if RepetitionOf(x) == key && x.span == span then Some(x.value)
      else Latest(rows[..|rows| - 1], key, span)
  }

  function Collect(order: seq<Repetition>, rows: seq<Sample>): (r: Result<seq<real>, AnalysisError>)
    ensures r.Success? ==> |r.value| == |order|
    decreases |order|
  {
    if order == [] then Success([])
    else
      var n := |order| - 1;
      var front :- Collect(order[..n], rows);
      var p, v := Latest(rows, order[n], PRESENTATION), Latest(rows, order[n], VERIFICATION);
      if p.None? || v.None? then Failure(MissingSpan)
      else Success(front + [p.value + v.value])
  }

  function CollectSpan(order: seq<Repetition>, rows: seq<Sample>, span: string): (r: Result<seq<real>, AnalysisError>)
    ensures r.Success? ==> |r.value| == |order|
    decreases |order|
  {
    if order == [] then Success([])
    else
      var n := |order| - 1;
      var front :- CollectSpan(order[..n], rows, span);
      var v := Latest(rows, order[n], span);
      if v.None? then Failure(MissingSpan) else Success(front + [v.value])
  }

  /** `_segment_values`. */
  function SegmentValues(samples: seq<Sample>, arm: string, phase: string): (r: Result<seq<real>, AnalysisError>) {
    if phase !in PHASES then Failure(BadPhase)
    else
      var rows := Filter(Measured(arm, phase), samples);
      Collect(Order(rows), rows)
  }

  /** `_span_values`: here a repetition counts if it has any span at all. */
  function SpanValues(samples: seq<Sample>, arm: string, phase: string, span: string)
    : (r: Result<seq<real>, AnalysisError>)
  {
    if phase !in PHASES then Failure(BadPhase)
    else if span !in RQ4_SPANS then Failure(BadSpan)
    else
      var rows := Filter(Timed(arm, phase), samples);
      CollectSpan(Order(rows), rows, span)
  }

  // ---- the loops ----

  type Paired = map<Repetition, map<string, real>>

  ghost predicate PairsUp(paired: Paired, rows: seq<Sample>) {
    && (forall k :: k in paired <==> k in RepetitionsIn(rows))
    && (forall k, span :: k in paired ==>
      (if span in paired[k] then Latest(rows, k, span) == Some(paired[k][span]) else Latest(rows, k, span) == None))
  }

  lemma RepetitionsAppend(rows: seq<Sample>, x: Sample)
    ensures RepetitionsIn(rows + [x]) == RepetitionsIn(rows) + [RepetitionOf(x)]
  {
  }

  lemma LatestAppend(rows: seq<Sample>, x: Sample, key: Repetition, span: string)
    ensures Latest(rows + [x], key, span)
      == if RepetitionOf(x) == key && x.span == span then Some(x.value) else Latest(rows, key, span)
  {
    assert (rows + [x])[..|rows|] == rows;
  }

  lemma {:induction false} LatestOfAbsent(rows: seq<Sample>, key: Repetition, span: string)
    requires key !in RepetitionsIn(rows)
    ensures Latest(rows, key, span) == None
    decreases |rows|
  {
    if rows != [] {
      var front, x := rows[..|rows| - 1], rows[|rows| - 1];
      assert rows == front + [x];
      RepetitionsAppend(front, x);
      LatestOfAbsent(front, key, span);
      assert RepetitionOf(x) in RepetitionsIn(rows);
    }
  }

  function SpansOf(paired: Paired, key: Repetition): map<string, real> {
    if key in paired then paired[key] else map[]
  }

  /** `paired.setdefault(key, {})[span] = value`. */
  function Put(paired: Paired, x: Sample): Paired {
    paired[RepetitionOf(x) := SpansOf(paired, RepetitionOf(x))[x.span := x.value]]
  }

  lemma PutPairsUp(paired: Paired, rows: seq<Sample>, x: Sample)
    requires PairsUp(paired, rows)
    ensures PairsUp(Put(paired, x), rows + [x])
  {
    var after := Put(paired, x);
    RepetitionsAppend(rows, x);
    forall k, span | k in after
      ensures if span in after[k] then Latest(rows + [x], k, span) == Some(after[k][span])
        else Latest(rows + [x], k, span) == None
    {
      LatestAppend(rows, x, k, span);
      if k !in paired {
        LatestOfAbsent(rows, k, span);
      }
    }
  }

  lemma RepetitionsAreOrdered()
    ensures IsTotalOrder(RepetitionLeq)
  {
    forall x: Repetition, y: Repetition
      ensures RepetitionLeq(x, y) || RepetitionLeq(y, x)
      ensures RepetitionLeq(x, y) && RepetitionLeq(y, x) ==> x == y
    {
      LeqTotal(x.scenario, y.scenario);
    }
    forall x: Repetition, y: Repetition, z: Repetition | RepetitionLeq(x, y) && RepetitionLeq(y, z)
      ensures RepetitionLeq(x, z)
    {
      if x.scenario != y.scenario && y.scenario != z.scenario {
        LeqTransitive(x.scenario, y.scenario, z.scenario);
        LeqTotal(x.scenario, y.scenario);
      }
    }
  }

  method PairLoop(samples: seq<Sample>, keep: Sample -> bool) returns (paired: Paired, keys: seq<Repetition>)
    ensures PairsUp(paired, Filter(keep, samples))
    ensures forall k :: k in keys <==> k in paired
  {
    paired, keys := map[], [];
    for n := 0 to |samples|
      invariant PairsUp(paired, Filter(keep, samples[..n]))
      invariant forall k :: k in keys <==> k in paired
    {
      var x := samples[n];
      assert samples[..n + 1] == samples[..n] + [x];
      FilterAppend(keep, samples[..n], x);
      if keep(x) {
        PutPairsUp(paired, Filter(keep, samples[..n]), x);
        if RepetitionOf(x) !in paired {
          keys := keys + [RepetitionOf(x)];
        }
        paired := Put(paired, x);
      }
    }
    assert samples[..|samples|] == samples;
  }

  lemma CollectStep(order: seq<Repetition>, rows: seq<Sample>, n: nat)
    requires n < |order|
    ensures Collect(order[..n + 1], rows) ==
      match Collect(order[..n], rows)
      case Failure(e) => Failure(e)
      case Success(front) =>
        (var p, v := Latest(rows, order[n], PRESENTATION), Latest(rows, order[n], VERIFICATION);
        if p.None? || v.None? then Failure(MissingSpan) else Success(front + [p.value + v.value]))
  {
    assert order[..n + 1][..n] == order[..n];
  }

  /** One incomplete repetition refuses the whole series. */
  lemma {:induction false} CollectNeedsEach(order: seq<Repetition>, rows: seq<Sample>, i: nat)
    requires i < |order|
    requires Latest(rows, order[i], PRESENTATION).None? || Latest(rows, order[i], VERIFICATION).None?
    ensures Collect(order, rows) == Failure(MissingSpan)
    decreases |order|
  {
    var n := |order| - 1;
    if i < n {
      CollectNeedsEach(order[..n], rows, i);
    } else {
      CollectFailsOneWay(order[..n], rows);
    }
  }

  lemma {:induction false} CollectFailsOneWay(order: seq<Repetition>, rows: seq<Sample>)
    ensures Collect(order, rows).Failure? ==> Collect(order, rows) == Failure(MissingSpan)
    decreases |order|
  {
    if order != [] {
      CollectFailsOneWay(order[..|order| - 1], rows);
    }
  }

  method CollectLoop(order: seq<Repetition>, paired: Paired, ghost rows: seq<Sample>)
    returns (r: Result<seq<real>, AnalysisError>)
    requires PairsUp(paired, rows) && forall k :: k in order ==> k in paired
    ensures r == Collect(order, rows)
  {
    var values: seq<real> := [];
    for n := 0 to |order|
      invariant Collect(order[..n], rows) == Success(values)
    {
      CollectStep(order, rows, n);
      var spans := paired[order[n]];
      if PRESENTATION !in spans || VERIFICATION !in spans {
        CollectNeedsEach(order, rows, n);
        return Failure(MissingSpan);
      }
      values := values + [spans[PRESENTATION] + spans[VERIFICATION]];
    }
    assert order[..|order|] == order;
    r := Success(values);
  }

  method SegmentValuesLoop(samples: seq<Sample>, arm: string, phase: string)
    returns (r: Result<seq<real>, AnalysisError>)
    ensures r == SegmentValues(samples, arm, phase)
  {
    if phase !in PHASES {
      return Failure(BadPhase);
    }
    var paired, keys := PairLoop(samples, Measured(arm, phase));
    ghost var rows := Filter(Measured(arm, phase), samples);
    var order := SortedSet(RepetitionLeq, keys);
    RepetitionsAreOrdered();
    SameElementsSameSet(RepetitionLeq, keys, RepetitionsIn(rows));
    SortedSetIsSorted(RepetitionLeq, keys);
    r := CollectLoop(order, paired, rows);
  }

  // ---- when a series is refused ----

  ghost predicate HasSpan(rows: seq<Sample>, key: Repetition, span: string) {
    exists x :: x in rows && RepetitionOf(x) == key && x.span == span
  }

  lemma {:induction false} LatestFinds(rows: seq<Sample>, key: Repetition, span: string)
    ensures Latest(rows, key, span).Some? <==> HasSpan(rows, key, span)
    decreases |rows|
  {
    if rows != [] {
      var front, x := rows[..|rows| - 1], rows[|rows| - 1];
      assert rows == front + [x];
      LatestFinds(front, key, span);
    }
  }

  ghost predicate BothSpans(rows: seq<Sample>, key: Repetition) {
    HasSpan(rows, key, PRESENTATION) && HasSpan(rows, key, VERIFICATION)
  }

  lemma {:induction false} CollectSucceeds(order: seq<Repetition>, rows: seq<Sample>)
    ensures Collect(order, rows).Success? <==> forall k :: k in order ==> BothSpans(rows, k)
    decreases |order|
  {
    if order != [] {
      var n := |order| - 1;
      CollectSucceeds(order[..n], rows);
      LatestFinds(rows, order[n], PRESENTATION);
      LatestFinds(rows, order[n], VERIFICATION);
      assert order[n] in order;
      forall k
        ensures k in order <==> k in order[..n] || k == order[n]
      {
        assert order == order[..n] + [order[n]];
      }
    }
  }

  lemma KeyHasRow(rows: seq<Sample>, key: Repetition)
    ensures key in RepetitionsIn(rows) <==> exists x :: x in rows && RepetitionOf(x) == key
  {
    if key in RepetitionsIn(rows) {
      var i :| 0 <= i < |rows| && RepetitionsIn(rows)[i] == key;
      assert rows[i] in rows && RepetitionOf(rows[i]) == key;
    }
    if exists x :: x in rows && RepetitionOf(x) == key {
      var x :| x in rows && RepetitionOf(x) == key;
      var i :| 0 <= i < |rows| && rows[i] == x;
      assert RepetitionsIn(rows)[i] == key;
    }
  }

  lemma OrderListsKeys(rows: seq<Sample>)
    ensures StrictlyAscending(RepetitionLeq, Order(rows))
    ensures forall k :: k in Order(rows) <==> k in RepetitionsIn(rows)
  {
    RepetitionsAreOrdered();
    SortedSetIsSorted(RepetitionLeq, RepetitionsIn(rows));
  }

  /** The series is given out exactly when no repetition in it lacks one of the two spans. */
  lemma RefusedExactlyWhenIncomplete(samples: seq<Sample>, arm: string, phase: string)
    requires phase in PHASES
    ensures SegmentValues(samples, arm, phase).Success? <==>
      var rows := Filter(Measured(arm, phase), samples);
      forall x :: x in rows ==> BothSpans(rows, RepetitionOf(x))
  {
    var rows := Filter(Measured(arm, phase), samples);
    OrderListsKeys(rows);
    CollectSucceeds(Order(rows), rows);
    forall x | x in rows
      ensures RepetitionOf(x) in RepetitionsIn(rows)
    {
      KeyHasRow(rows, RepetitionOf(x));
    }
    forall k | k in Order(rows)
      ensures exists x :: x in rows && RepetitionOf(x) == k
    {
      KeyHasRow(rows, k);
    }
  }

  // ---- the total is conserved ----

  function Sum(values: seq<real>): real
    decreases |values|
  {
    if values == [] then 0.0 else Sum(values[..|values| - 1]) + values[|values| - 1]
  }

  function Total(rows: seq<Sample>): real
    decreases |rows|
  {
    if rows == [] then 0.0 else Total(rows[..|rows| - 1]) + rows[|rows| - 1].value
  }

  function OrZero(v: Option<real>): real {
    if v.Some? then v.value else 0.0
  }

  /** The durations lost because a later sample of the same repetition and span replaced them. */
  function Overwritten(rows: seq<Sample>): real
    decreases |rows|
  {
    if rows == [] then 0.0
    else
      var front, x := rows[..|rows| - 1], rows[|rows| - 1];
      Overwritten(front) + OrZero(Latest(front, RepetitionOf(x), x.span))
  }

  function Share(rows: seq<Sample>, key: Repetition): real {
    OrZero(Latest(rows, key, PRESENTATION)) + OrZero(Latest(rows, key, VERIFICATION))
  }

  function Shares(order: seq<Repetition>, rows: seq<Sample>): real {
    if order == [] then 0.0 else Share(rows, order[0]) + Shares(order[1..], rows)
  }

  lemma ShareAppend(rows: seq<Sample>, x: Sample, key: Repetition)
    requires IsMeasured(x.span)
    ensures Share(rows + [x], key) ==
      if key == RepetitionOf(x) then Share(rows, key) + x.value - OrZero(Latest(rows, key, x.span))
      else Share(rows, key)
  {
    LatestAppend(rows, x, key, PRESENTATION);
    LatestAppend(rows, x, key, VERIFICATION);
  }

  lemma {:induction false} SharesAppend(order: seq<Repetition>, rows: seq<Sample>, x: Sample)
    requires StrictlyAscending(RepetitionLeq, order) && IsMeasured(x.span)
    ensures Shares(order, rows + [x]) == Shares(order, rows)
      + if RepetitionOf(x) in order then x.value - OrZero(Latest(rows, RepetitionOf(x), x.span)) else 0.0
  {
    if order != [] {
      SharesAppend(order[1..], rows, x);
      ShareAppend(rows, x, order[0]);
      assert order == [order[0]] + order[1..];
      if order[0] == RepetitionOf(x) {
        forall i | 0 <= i < |order[1..]|
          ensures order[1..][i] != order[0]
        {
          assert order[1..][i] == order[i + 1];
        }
      }
    }
  }

  lemma {:induction false} SharesInsert(order: seq<Repetition>, rows: seq<Sample>, key: Repetition)
    requires key !in order
    ensures Shares(InsertDistinct(RepetitionLeq, key, order), rows) == Shares(order, rows) + Share(rows, key)
  {
    if order == [] {
      assert [key][1..] == [];
    } else {
      SharesInsert(order[1..], rows, key);
      assert order[0] in order;
      assert ([key] + order)[1..] == order;
      var tail := InsertDistinct(RepetitionLeq, key, order[1..]);
      assert ([order[0]] + tail)[1..] == tail;
    }
  }

  lemma {:induction false} InsertPresent(order: seq<Repetition>, key: Repetition)
    requires StrictlyAscending(RepetitionLeq, order) && key in order
    ensures InsertDistinct(RepetitionLeq, key, order) == order
  {
    RepetitionsAreOrdered();
    if key != order[0] {
      FirstIsLeast(RepetitionLeq, order, key);
      assert !RepetitionLeq(key, order[0]);
      InsertPresent(order[1..], key);
      assert order == [order[0]] + order[1..];
    }
  }

  lemma OrderAppend(rows: seq<Sample>, x: Sample)
    ensures Order(rows + [x]) == InsertDistinct(RepetitionLeq, RepetitionOf(x), Order(rows))
  {
    RepetitionsAppend(rows, x);
    SortedSetAppend(RepetitionLeq, RepetitionsIn(rows), RepetitionOf(x));
  }

  lemma OneMoreShare(rows: seq<Sample>, x: Sample)
    requires IsMeasured(x.span)
    ensures Shares(Order(rows + [x]), rows + [x])
      == Shares(Order(rows), rows) + x.value - OrZero(Latest(rows, RepetitionOf(x), x.span))
  {
    var key := RepetitionOf(x);
    OrderAppend(rows, x);
    OrderListsKeys(rows);
    SharesAppend(Order(rows), rows, x);
    if key in Order(rows) {
      InsertPresent(Order(rows), key);
    } else {
      SharesInsert(Order(rows), rows + [x], key);
      ShareAppend(rows, x, key);
      LatestOfAbsent(rows, key, PRESENTATION);
      LatestOfAbsent(rows, key, VERIFICATION);
    }
  }

  lemma {:induction false} SharesAddUp(rows: seq<Sample>)
    requires forall x :: x in rows ==> IsMeasured(x.span)
    ensures Shares(Order(rows), rows) + Overwritten(rows) == Total(rows)
    decreases |rows|
  {
    if rows != [] {
      var front, x := rows[..|rows| - 1], rows[|rows| - 1];
      assert rows == front + [x];
      SharesAddUp(front);
      OneMoreShare(front, x);
    }
  }

  lemma {:induction false} SharesSnoc(order: seq<Repetition>, rows: seq<Sample>, key: Repetition)
    ensures Shares(order + [key], rows) == Shares(order, rows) + Share(rows, key)
  {
    if order == [] {
      assert [key][1..] == [];
    } else {
      SharesSnoc(order[1..], rows, key);
      assert (order + [key])[1..] == order[1..] + [key];
    }
  }

  lemma {:induction false} CollectSums(order: seq<Repetition>, rows: seq<Sample>)
    requires Collect(order, rows).Success?
    ensures Sum(Collect(order, rows).value) == Shares(order, rows)
    decreases |order|
  {
    if order != [] {
      var n := |order| - 1;
      var front := Collect(order[..n], rows).value;
      CollectSums(order[..n], rows);
      SharesSnoc(order[..n], rows, order[n]);
      assert order == order[..n] + [order[n]];
      assert Collect(order, rows).value[..n] == front;
    }
  }

  /** No two of the rows time the same span of the same repetition. */
  predicate TimedOnce(rows: seq<Sample>) {
    forall i, j :: 0 <= i < j < |rows| ==>
      !(RepetitionOf(rows[i]) == RepetitionOf(rows[j]) && rows[i].span == rows[j].span)
  }

  lemma {:induction false} NothingOverwritten(rows: seq<Sample>)
    requires TimedOnce(rows)
    ensures Overwritten(rows) == 0.0
    decreases |rows|
  {
    if rows != [] {
      var front, x := rows[..|rows| - 1], rows[|rows| - 1];
      assert rows == front + [x];
      NothingOverwritten(front);
      LatestFinds(front, RepetitionOf(x), x.span);
    }
  }

  /** Pairing conserves time: the segments add up to all the matching samples, except what later samples of
      the same span overwrote, and there is one segment for each repetition. */
  lemma PairingConservesTheTotal(samples: seq<Sample>, arm: string, phase: string)
    requires SegmentValues(samples, arm, phase).Success?
    ensures var rows := Filter(Measured(arm, phase), samples);
      var values := SegmentValues(samples, arm, phase).value;
      && Sum(values) + Overwritten(rows) == Total(rows)
      && (TimedOnce(rows) ==> Sum(values) == Total(rows))
      && |values| == |Order(rows)|
  {
    var rows := Filter(Measured(arm, phase), samples);
    forall x | x in rows
      ensures IsMeasured(x.span)
    {
      FilterMember(Measured(arm, phase), samples, x);
    }
    SharesAddUp(rows);
    CollectSums(Order(rows), rows);
    if TimedOnce(rows) {
      NothingOverwritten(rows);
    }
  }

  // ---- order independence ----

  predicate SameTiming(x: Sample, y: Sample) {
    RepetitionOf(x) == RepetitionOf(y) && x.span == y.span
  }

  /** Where two of the rows time the same span of the same repetition, they report the same time. */
  ghost predicate TimesAgree(rows: seq<Sample>) {
    forall x, y :: x in rows && y in rows && SameTiming(x, y) ==> x.value == y.value
  }

  ghost predicate SameSamples(s: seq<Sample>, t: seq<Sample>) {
    forall x :: x in s <==> x in t
  }

  lemma {:induction false} LatestIsThere(rows: seq<Sample>, key: Repetition, span: string)
    ensures Latest(rows, key, span).Some? ==>
      exists x :: x in rows && RepetitionOf(x) == key && x.span == span && x.value == Latest(rows, key, span).value
    decreases |rows|
  {
    if rows != [] {
      var front, last := rows[..|rows| - 1], rows[|rows| - 1];
      assert rows == front + [last];
      LatestIsThere(front, key, span);
    }
  }

  lemma LatestOfTheSame(s: seq<Sample>, t: seq<Sample>, key: Repetition, span: string)
    requires TimesAgree(s) && SameSamples(s, t)
    ensures Latest(s, key, span) == Latest(t, key, span)
  {
    LatestFinds(s, key, span);
    LatestFinds(t, key, span);
    LatestIsThere(s, key, span);
    LatestIsThere(t, key, span);
  }

  lemma {:induction false} CollectOfTheSame(order: seq<Repetition>, s: seq<Sample>, t: seq<Sample>)
    requires TimesAgree(s) && SameSamples(s, t)
    ensures Collect(order, s) == Collect(order, t)
    decreases |order|
  {
    if order != [] {
      var n := |order| - 1;
      CollectOfTheSame(order[..n], s, t);
      LatestOfTheSame(s, t, order[n], PRESENTATION);
      LatestOfTheSame(s, t, order[n], VERIFICATION);
    }
  }

  lemma SameKeysSameOrder(s: seq<Sample>, t: seq<Sample>)
    requires forall k :: k in RepetitionsIn(s) <==> k in RepetitionsIn(t)
    ensures Order(s) == Order(t)
  {
    RepetitionsAreOrdered();
    SameElementsSameSet(RepetitionLeq, RepetitionsIn(s), RepetitionsIn(t));
  }

  lemma OrderOfTheSame(s: seq<Sample>, t: seq<Sample>)
    requires SameSamples(s, t)
    ensures Order(s) == Order(t)
  {
    forall k
      ensures k in RepetitionsIn(s) <==> k in RepetitionsIn(t)
    {
      KeyHasRow(s, k);
      KeyHasRow(t, k);
    }
    SameKeysSameOrder(s, t);
  }

  lemma RefusedAlike(s: seq<Sample>, t: seq<Sample>)
    requires SameSamples(s, t)
    ensures Collect(Order(s), s).Success? == Collect(Order(t), t).Success?
    ensures Collect(Order(s), s).Failure? ==> Collect(Order(s), s) == Collect(Order(t), t)
  {
    OrderOfTheSame(s, t);
    CollectSucceeds(Order(s), s);
    CollectSucceeds(Order(t), t);
    assert forall k :: BothSpans(s, k) == BothSpans(t, k);
    CollectFailsOneWay(Order(s), s);
    CollectFailsOneWay(Order(t), t);
  }

  lemma SameMeasured(s: seq<Sample>, t: seq<Sample>, arm: string, phase: string)
    requires SameSamples(s, t)
    ensures SameSamples(Filter(Measured(arm, phase), s), Filter(Measured(arm, phase), t))
  {
    forall x
      ensures x in Filter(Measured(arm, phase), s) <==> x in Filter(Measured(arm, phase), t)
    {
      FilterMember(Measured(arm, phase), s, x);
      FilterMember(Measured(arm, phase), t, x);
    }
  }

  /** A series that is refused, or in which no time is reported twice with two values, is the same in any
      order of the samples. */
  lemma SeriesIgnoresInputOrder(s: seq<Sample>, t: seq<Sample>, arm: string, phase: string)
    requires SameSamples(s, t)
    requires SegmentValues(s, arm, phase).Failure? || TimesAgree(Filter(Measured(arm, phase), s))
    ensures SegmentValues(s, arm, phase) == SegmentValues(t, arm, phase)
  {
    var p, q := Filter(Measured(arm, phase), s), Filter(Measured(arm, phase), t);
    SameMeasured(s, t, arm, phase);
    OrderOfTheSame(p, q);
    RefusedAlike(p, q);
    if TimesAgree(p) {
      CollectOfTheSame(Order(p), p, q);
    }
  }

  /** The samples with the `i`-th moved to the end. */
  function WithLast(s: seq<Sample>, i: nat): (r: seq<Sample>)
    requires i < |s|
    ensures multiset(r) == multiset(s)
  {
    assert s == s[..i] + [s[i]] + s[i + 1..];
    s[..i] + s[i + 1..] + [s[i]]
  }

  lemma SameMultisetSameSamples(s: seq<Sample>, t: seq<Sample>)
    requires multiset(s) == multiset(t)
    ensures SameSamples(s, t)
  {
    forall x
      ensures x in s <==> x in t
    {
      assert x in s <==> x in multiset(s);
      assert x in t <==> x in multiset(t);
    }
  }

  lemma {:induction false} LatestWithout(a: seq<Sample>, x: Sample, b: seq<Sample>, key: Repetition, span: string)
    requires x.span != span
    ensures Latest(a + b, key, span) == Latest(a + [x] + b, key, span)
    decreases |b|
  {
    if b == [] {
      assert a + b == a && a + [x] + b == a + [x];
      LatestAppend(a, x, key, span);
    } else {
      var front, y := b[..|b| - 1], b[|b| - 1];
      LatestWithout(a, x, front, key, span);
      assert a + b == (a + front) + [y] && a + [x] + b == (a + [x] + front) + [y];
      LatestAppend(a + front, y, key, span);
      LatestAppend(a + [x] + front, y, key, span);
    }
  }

  /** Moving a sample to the end makes it the one that counts, and leaves the other spans as they were. */
  lemma MovedToTheEnd(s: seq<Sample>, i: nat, arm: string, phase: string, key: Repetition, other: string)
    requires i < |s| && Measured(arm, phase)(s[i]) && other != s[i].span
    ensures var rows := Filter(Measured(arm, phase), WithLast(s, i));
      && Latest(rows, RepetitionOf(s[i]), s[i].span) == Some(s[i].value)
      && Latest(rows, key, other) == Latest(Filter(Measured(arm, phase), s), key, other)
  {
    var keep := Measured(arm, phase);
    var a, x, b := s[..i], s[i], s[i + 1..];
    assert s == a + [x] + b;
    FilterConcat(keep, a + [x], b);
    FilterAppend(keep, a, x);
    FilterConcat(keep, a, b);
    FilterAppend(keep, a + b, x);
    LatestWithout(Filter(keep, a), x, Filter(keep, b), key, other);
    LatestAppend(Filter(keep, a) + Filter(keep, b), x, key, other);
    LatestAppend(Filter(keep, a) + Filter(keep, b), x, RepetitionOf(x), x.span);
  }

  lemma {:induction false} CollectAt(order: seq<Repetition>, rows: seq<Sample>, k: nat)
    requires k < |order| && Collect(order, rows).Success?
    ensures Latest(rows, order[k], PRESENTATION).Some? && Latest(rows, order[k], VERIFICATION).Some?
    ensures Collect(order, rows).value[k]
      == Latest(rows, order[k], PRESENTATION).value + Latest(rows, order[k], VERIFICATION).value
    decreases |order|
  {
    var n := |order| - 1;
    if k < n {
      CollectAt(order[..n], rows, k);
    }
  }

  /** Two values for one time: whichever comes last decides, so one of the two orders changes the series. */
  lemma LastOneCounts(s: seq<Sample>, i: nat, j: nat, arm: string, phase: string)
    requires i < |s| && j < |s| && Measured(arm, phase)(s[i]) && Measured(arm, phase)(s[j])
    requires SameTiming(s[i], s[j]) && s[i].value != s[j].value
    requires SegmentValues(s, arm, phase).Success?
    ensures SegmentValues(WithLast(s, i), arm, phase) != SegmentValues(WithLast(s, j), arm, phase)
  {
    var p := Filter(Measured(arm, phase), s);
    var a, b := WithLast(s, i), WithLast(s, j);
    var pa, pb := Filter(Measured(arm, phase), a), Filter(Measured(arm, phase), b);
    SameMultisetSameSamples(s, a);
    SameMultisetSameSamples(s, b);
    SameMeasured(s, a, arm, phase);
    SameMeasured(s, b, arm, phase);
    OrderOfTheSame(p, pa);
    OrderOfTheSame(p, pb);
    RefusedAlike(p, pa);
    RefusedAlike(p, pb);
    var key := RepetitionOf(s[i]);
    var other := if s[i].span == PRESENTATION then VERIFICATION else PRESENTATION;
    MovedToTheEnd(s, i, arm, phase, key, other);
    MovedToTheEnd(s, j, arm, phase, key, other);
    var k := PlaceOf(s, i, arm, phase);
    CollectAt(Order(p), pa, k);
    CollectAt(Order(p), pb, k);
  }

  lemma PlaceOf(s: seq<Sample>, i: nat, arm: string, phase: string) returns (k: nat)
    requires i < |s| && Measured(arm, phase)(s[i])
    ensures k < |Order(Filter(Measured(arm, phase), s))|
    ensures Order(Filter(Measured(arm, phase), s))[k] == RepetitionOf(s[i])
  {
    var p := Filter(Measured(arm, phase), s);
    FilterMember(Measured(arm, phase), s, s[i]);
    KeyHasRow(p, RepetitionOf(s[i]));
    OrderListsKeys(p);
    assert RepetitionOf(s[i]) in Order(p);
    k :| 0 <= k < |Order(p)| && Order(p)[k] == RepetitionOf(s[i]);
  }

  /** The order of the samples is immaterial exactly when the series is refused anyway or no time is reported
      twice with two values. */
  lemma OrderIsImmaterialExactly(s: seq<Sample>, arm: string, phase: string)
    ensures (forall t :: multiset(t) == multiset(s) ==> SegmentValues(t, arm, phase) == SegmentValues(s, arm, phase))
      <==> SegmentValues(s, arm, phase).Failure? || TimesAgree(Filter(Measured(arm, phase), s))
  {
    var p := Filter(Measured(arm, phase), s);
    if SegmentValues(s, arm, phase).Failure? || TimesAgree(p) {
      forall t | multiset(t) == multiset(s)
        ensures SegmentValues(t, arm, phase) == SegmentValues(s, arm, phase)
      {
        SameMultisetSameSamples(s, t);
        SeriesIgnoresInputOrder(s, t, arm, phase);
      }
    } else {
      var x, y :| x in p && y in p && SameTiming(x, y) && x.value != y.value;
      FilterMember(Measured(arm, phase), s, x);
      FilterMember(Measured(arm, phase), s, y);
      var i :| 0 <= i < |s| && s[i] == x;
      var j :| 0 <= j < |s| && s[j] == y;
      LastOneCounts(s, i, j, arm, phase);
      assert multiset(WithLast(s, i)) == multiset(s) && multiset(WithLast(s, j)) == multiset(s);
    }
  }

  // ---- the measured segment against its two spans ----

  function Pointwise(a: seq<real>, b: seq<real>): (r: seq<real>)
    requires |a| == |b|
    ensures |r| == |a|
  {
    seq(|a|, i requires 0 <= i < |a| => a[i] + b[i])
  }

  lemma PointwiseAppend(a: seq<real>, b: seq<real>, x: real, y: real)
    requires |a| == |b|
    ensures Pointwise(a + [x], b + [y]) == Pointwise(a, b) + [x + y]
  {
  }

  lemma {:induction false} CollectIsPointwise(order: seq<Repetition>, rows: seq<Sample>)
    requires CollectSpan(order, rows, PRESENTATION).Success? && CollectSpan(order, rows, VERIFICATION).Success?
    ensures Collect(order, rows) ==
      Success(Pointwise(CollectSpan(order, rows, PRESENTATION).value, CollectSpan(order, rows, VERIFICATION).value))
    decreases |order|
  {
    if order != [] {
      var n := |order| - 1;
      CollectIsPointwise(order[..n], rows);
      PointwiseAppend(
        CollectSpan(order[..n], rows, PRESENTATION).value, CollectSpan(order[..n], rows, VERIFICATION).value,
        Latest(rows, order[n], PRESENTATION).value, Latest(rows, order[n], VERIFICATION).value);
    }
  }

  lemma {:induction false} LatestAmongMeasured(
    samples: seq<Sample>, arm: string, phase: string, key: Repetition, span: string)
    requires IsMeasured(span)
    ensures Latest(Filter(Measured(arm, phase), samples), key, span)
      == Latest(Filter(Timed(arm, phase), samples), key, span)
    decreases |samples|
  {
    if samples != [] {
      var front, x := samples[..|samples| - 1], samples[|samples| - 1];
      assert samples == front + [x];
      LatestAmongMeasured(front, arm, phase, key, span);
      FilterAppend(Measured(arm, phase), front, x);
      FilterAppend(Timed(arm, phase), front, x);
      LatestAppend(Filter(Measured(arm, phase), front), x, key, span);
      LatestAppend(Filter(Timed(arm, phase), front), x, key, span);
    }
  }

  lemma {:induction false} CollectAmongMeasured(
    order: seq<Repetition>, samples: seq<Sample>, arm: string, phase: string)
    ensures Collect(order, Filter(Measured(arm, phase), samples)) == Collect(order, Filter(Timed(arm, phase), samples))
    decreases |order|
  {
    if order != [] {
      var n := |order| - 1;
      CollectAmongMeasured(order[..n], samples, arm, phase);
      LatestAmongMeasured(samples, arm, phase, order[n], PRESENTATION);
      LatestAmongMeasured(samples, arm, phase, order[n], VERIFICATION);
    }
  }

  lemma {:induction false} CollectSpanHasAll(order: seq<Repetition>, rows: seq<Sample>, span: string)
    requires CollectSpan(order, rows, span).Success?
    ensures forall k :: k in order ==> HasSpan(rows, k, span)
    decreases |order|
  {
    if order != [] {
      var n := |order| - 1;
      CollectSpanHasAll(order[..n], rows, span);
      LatestFinds(rows, order[n], span);
      assert order == order[..n] + [order[n]];
    }
  }

  ghost predicate AllHaveSpan(rows: seq<Sample>, span: string) {
    forall k :: k in Order(rows) ==> HasSpan(rows, k, span)
  }

  lemma SameRepetitionsMeasured(samples: seq<Sample>, arm: string, phase: string, k: Repetition)
    requires AllHaveSpan(Filter(Timed(arm, phase), samples), PRESENTATION)
    ensures k in RepetitionsIn(Filter(Measured(arm, phase), samples))
      <==> k in RepetitionsIn(Filter(Timed(arm, phase), samples))
  {
    var timed, measured := Filter(Timed(arm, phase), samples), Filter(Measured(arm, phase), samples);
    KeyHasRow(timed, k);
    KeyHasRow(measured, k);
    OrderListsKeys(timed);
    forall x
      ensures x in measured <==> x in timed && IsMeasured(x.span)
    {
      FilterMember(Measured(arm, phase), samples, x);
      FilterMember(Timed(arm, phase), samples, x);
    }
    if k in RepetitionsIn(timed) {
      assert k in Order(timed) && HasSpan(timed, k, PRESENTATION);
      var x :| x in timed && RepetitionOf(x) == k && x.span == PRESENTATION;
      assert x in measured;
    }
  }

  /** Where both spans are reported for every repetition, the measured segment is their sum, repetition by
      repetition: the two ways of reading the samples cannot disagree. */
  lemma SegmentIsTheSumOfItsSpans(samples: seq<Sample>, arm: string, phase: string)
    requires SpanValues(samples, arm, phase, PRESENTATION).Success?
    requires SpanValues(samples, arm, phase, VERIFICATION).Success?
    ensures var p := SpanValues(samples, arm, phase, PRESENTATION).value;
      var v := SpanValues(samples, arm, phase, VERIFICATION).value;
      |p| == |v| && SegmentValues(samples, arm, phase) == Success(Pointwise(p, v))
  {
    var timed, measured := Filter(Timed(arm, phase), samples), Filter(Measured(arm, phase), samples);
    CollectSpanHasAll(Order(timed), timed, PRESENTATION);
    forall k
      ensures k in RepetitionsIn(measured) <==> k in RepetitionsIn(timed)
    {
      SameRepetitionsMeasured(samples, arm, phase, k);
    }
    SameKeysSameOrder(measured, timed);
    CollectAmongMeasured(Order(timed), samples, arm, phase);
    CollectIsPointwise(Order(timed), timed);
  }

  // ---- the series, spelt out ----

  predicate Reports(x: Sample, key: Repetition, span: string) {
    RepetitionOf(x) == key && x.span == span
  }

  /** The row reports the span, and no later row does. */
  predicate LastReport(rows: seq<Sample>, key: Repetition, span: string, i: nat) {
    i < |rows| && Reports(rows[i], key, span) && forall j :: i < j < |rows| ==> !Reports(rows[j], key, span)
  }

  /** The value counted for a span of a repetition is the last one reported. */
  lemma {:induction false} LatestIsTheLast(rows: seq<Sample>, key: Repetition, span: string) returns (i: nat)
    ensures Latest(rows, key, span).None? <==> !HasSpan(rows, key, span)
    ensures Latest(rows, key, span).Some? ==>
      LastReport(rows, key, span, i) && Latest(rows, key, span) == Some(rows[i].value)
    decreases |rows|
  {
    LatestFinds(rows, key, span);
    i := 0;
    if rows != [] {
      var n := |rows| - 1;
      if Reports(rows[n], key, span) {
        i := n;
      } else {
        i := LatestIsTheLast(rows[..n], key, span);
      }
    }
  }

  /** A series is refused for a phase that is neither `cold` nor `warm`, and otherwise for an incomplete repetition;
      a value of it is the last presentation of its repetition plus the last boundary verification, and the
      repetitions come by scenario, batch and number. */
  lemma SeriesExactly(samples: seq<Sample>, arm: string, phase: string)
    ensures var r := SegmentValues(samples, arm, phase);
      var rows := Filter((x: Sample) =>
        x.arm == arm && x.phase == phase && x.span in {"presentation", "boundary_verification"}, samples);
      && (phase !in {"cold", "warm"} <==> r == Failure(BadPhase))
      && (r.Failure? ==> r.error in {BadPhase, MissingSpan})
      && (r.Success? ==>
            && |r.value| == |Order(rows)|
            && StrictlyAscending(RepetitionLeq, Order(rows))
            && (forall k :: k in Order(rows) <==> exists x :: x in rows && RepetitionOf(x) == k)
            && forall i :: 0 <= i < |r.value| ==>
              && Latest(rows, Order(rows)[i], "presentation").Some?
              && Latest(rows, Order(rows)[i], "boundary_verification").Some?
              && r.value[i] == Latest(rows, Order(rows)[i], "presentation").value
                             + Latest(rows, Order(rows)[i], "boundary_verification").value)
  {
    var p := (x: Sample) => x.arm == arm && x.phase == phase && x.span in {"presentation", "boundary_verification"};
    var rows := Filter(p, samples);
    FilterAgrees(p, Measured(arm, phase), samples);
    CollectFailsOneWay(Order(rows), rows);
    OrderListsKeys(rows);
    forall k
      ensures k in Order(rows) <==> exists x :: x in rows && RepetitionOf(x) == k
    {
      KeyHasRow(rows, k);
    }
    if SegmentValues(samples, arm, phase).Success? {
      forall i | 0 <= i < |Order(rows)|
        ensures Latest(rows, Order(rows)[i], PRESENTATION).Some?
        ensures Latest(rows, Order(rows)[i], VERIFICATION).Some?
        ensures Collect(Order(rows), rows).value[i]
          == Latest(rows, Order(rows)[i], PRESENTATION).value + Latest(rows, Order(rows)[i], VERIFICATION).value
      {
        CollectAt(Order(rows), rows, i);
      }
    }
  }

  lemma {:induction false} CollectSpanAt(order: seq<Repetition>, rows: seq<Sample>, span: string, k: nat)
    requires k < |order| && CollectSpan(order, rows, span).Success?
    ensures Latest(rows, order[k], span).Some?
    ensures CollectSpan(order, rows, span).value[k] == Latest(rows, order[k], span).value
    decreases |order|
  {
    var n := |order| - 1;
    if k < n {
      CollectSpanAt(order[..n], rows, span, k);
    }
  }

  lemma {:induction false} CollectSpanSucceeds(order: seq<Repetition>, rows: seq<Sample>, span: string)
    ensures CollectSpan(order, rows, span).Success? <==> forall k :: k in order ==> HasSpan(rows, k, span)
    ensures CollectSpan(order, rows, span).Failure? ==> CollectSpan(order, rows, span) == Failure(MissingSpan)
    decreases |order|
  {
    if order != [] {
      var n := |order| - 1;
      CollectSpanSucceeds(order[..n], rows, span);
      LatestFinds(rows, order[n], span);
      assert order == order[..n] + [order[n]];
    }
  }

  /** A series of one span: refused for the phase, then for the span, then for a repetition of the arm and phase that
      lacks it; else it holds the last value of each repetition. */
  lemma SpanSeriesExactly(samples: seq<Sample>, arm: string, phase: string, span: string)
    ensures var r := SpanValues(samples, arm, phase, span);
      var rows := Filter((x: Sample) => x.arm == arm && x.phase == phase, samples);
      var known := span in {"setup", "delegation", "presentation", "boundary_verification", "end_to_end"};
      && (r == Failure(BadPhase) <==> phase !in {"cold", "warm"})
      && (r == Failure(BadSpan) <==> phase in {"cold", "warm"} && !known)
      && (r.Success? <==>
            phase in {"cold", "warm"} && known && forall x :: x in rows ==> HasSpan(rows, RepetitionOf(x), span))
      && (r.Success? ==>
            && |r.value| == |Order(rows)|
            && forall i :: 0 <= i < |r.value| ==> Latest(rows, Order(rows)[i], span) == Some(r.value[i]))
  {
    var p := (x: Sample) => x.arm == arm && x.phase == phase;
    var rows := Filter(p, samples);
    FilterAgrees(p, Timed(arm, phase), samples);
    CollectSpanSucceeds(Order(rows), rows, span);
    OrderListsKeys(rows);
    forall x | x in rows
      ensures RepetitionOf(x) in Order(rows)
    {
      KeyHasRow(rows, RepetitionOf(x));
    }
    forall k | k in Order(rows)
      ensures exists x :: x in rows && RepetitionOf(x) == k
    {
      KeyHasRow(rows, k);
    }
    if SpanValues(samples, arm, phase, span).Success? {
      forall i | 0 <= i < |Order(rows)|
        ensures Latest(rows, Order(rows)[i], span) == Some(CollectSpan(Order(rows), rows, span).value[i])
      {
        CollectSpanAt(Order(rows), rows, span, i);
      }
    }
  }

  /** Repetitions are told apart and ordered by scenario, then batch, then number. */
  lemma RepetitionsCompare(x: Sample, y: Sample)
    ensures RepetitionOf(x) == RepetitionOf(y) <==>
      x.scenario == y.scenario && x.batch == y.batch && x.repetition == y.repetition
    ensures RepetitionLeq(RepetitionOf(x), RepetitionOf(y)) <==>
      || (x.scenario != y.scenario && Leq(x.scenario, y.scenario))
      || (x.scenario == y.scenario && x.batch < y.batch)
      || (x.scenario == y.scenario && x.batch == y.batch && x.repetition <= y.repetition)
  {
  }
}
