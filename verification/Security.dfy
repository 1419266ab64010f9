/** Exact counts and the reproducibility check over scored cells (analysis/security.py). */
module Security {
  import opened Wrappers
  import opened AnalysisErrors
  import opened Sequences
  import opened SortedSets
  import opened Ordering

  /** One entry of the mapping of Part I values; `None` means not scored. */
  datatype Quantity = Quantity(name: string, value: Option<bool>)

  datatype Verdict = Verdict(scenario: string, arm: string, family: string, template: string, quantities: seq<Quantity>)

  datatype Key = Key(scenario: string, arm: string)

  datatype Disagreement = Disagreement(key: Key, quantity: string, values: seq<Option<bool>>)

  const CELL_PRESENT := "cell-present"

  function KeyOf(v: Verdict): Key {
    Key(v.scenario, v.arm)
  }

  predicate KeyLeq(a: Key, b: Key) {
    if a.scenario != b.scenario then Leq(a.scenario, b.scenario) else Leq(a.arm, b.arm)
  }

  lemma KeysAreOrdered()
    ensures IsTotalOrder(KeyLeq)
  {
    forall x: Key, y: Key
      ensures KeyLeq(x, y) || KeyLeq(y, x)
      ensures KeyLeq(x, y) && KeyLeq(y, x) ==> x == y
    {
      LeqTotal(x.scenario, y.scenario);
      LeqTotal(x.arm, y.arm);
    }
    forall x: Key, y: Key, z: Key | KeyLeq(x, y) && KeyLeq(y, z)
      ensures KeyLeq(x, z)
    {
      if x.scenario == y.scenario == z.scenario {
        LeqTransitive(x.arm, y.arm, z.arm);
      } else if x.scenario != y.scenario && y.scenario != z.scenario {
        LeqTransitive(x.scenario, y.scenario, z.scenario);
        LeqTotal(x.scenario, y.scenario);
      }
    }
  }

  /** `quantities.get(name)`. */
  function Get(quantities: seq<Quantity>, name: string): (r: Option<bool>) {
    if quantities == [] then None
    else if quantities[0].name == name then quantities[0].value
    else Get(quantities[1..], name)
  }

  // ---- reproducibility ----

  type Observation = seq<Quantity>

  function IsOf(key: Key): Verdict -> bool {
    (v: Verdict) => KeyOf(v) == key
  }

  /** Everything recorded, repetition after repetition. */
  function Quantities(verdicts: seq<Verdict>): (r: seq<Observation>)
    ensures |r| == |verdicts|
  {
    seq(|verdicts|, i requires 0 <= i < |verdicts| => verdicts[i].quantities)
  }

  function Keys(verdicts: seq<Verdict>): (r: seq<Key>)
    ensures |r| == |verdicts|
  {
    seq(|verdicts|, i requires 0 <= i < |verdicts| => KeyOf(verdicts[i]))
  }

  function ObservationsOf(verdicts: seq<Verdict>, key: Key): seq<Observation> {
    Quantities(Filter(IsOf(key), verdicts))
  }

  function NamesOf(observations: seq<Observation>): (r: seq<string>)
    decreases |observations|
  {
    if observations == [] then []
    else NamesOf(observations[..|observations| - 1]) + Names(observations[|observations| - 1])
  }

  function Names(o: Observation): (r: seq<string>)
    ensures |r| == |o|
  {
    seq(|o|, i requires 0 <= i < |o| => o[i].name)
  }

  function ValuesOf(observations: seq<Observation>, name: string): (r: seq<Option<bool>>)
    ensures |r| == |observations|
  {
    seq(|observations|, i requires 0 <= i < |observations| => Get(observations[i], name))
  }

  function Presence(n: nat): seq<Option<bool>> {
    seq(n, i => Some(true)) + [Some(false)]
  }

  function Differences(key: Key, names: seq<string>, observations: seq<Observation>): (r: seq<Disagreement>)
    decreases |names|
  {
    if names == [] then []
    else
      var n := |names| - 1;
      var values := ValuesOf(observations, names[n]);
      Differences(key, names[..n], observations)
      + (if |set v | v in values| > 1 then [Disagreement(key, names[n], values)] else [])
  }

  function CellDisagreements(key: Key, observations: seq<Observation>, repetitions: nat): seq<Disagreement> {
    if |observations| != repetitions then [Disagreement(key, CELL_PRESENT, Presence(|observations|))]
    else Differences(key, SortedSet(Leq, NamesOf(observations)), observations)
  }

  function DisagreementsOf(order: seq<Key>, verdicts: seq<Verdict>, repetitions: nat): (r: seq<Disagreement>)
    decreases |order|
  {
    if order == [] then []
    else
      var n := |order| - 1;
      DisagreementsOf(order[..n], verdicts, repetitions)
      + CellDisagreements(order[n], ObservationsOf(verdicts, order[n]), repetitions)
  }

  function Nondeterminism(repetitions: seq<seq<Verdict>>): (r: Result<seq<Disagreement>, AnalysisError>) {
    if |repetitions| < 2 then Failure(TooFewRepetitions)
    else
      var verdicts := Flatten(repetitions);
      Success(DisagreementsOf(SortedSet(KeyLeq, Keys(verdicts)), verdicts, |repetitions|))
  }

  // ---- the loops ----

  type Seen = map<Key, seq<Observation>>

  ghost predicate Records(seen: Seen, keys: seq<Key>, verdicts: seq<Verdict>) {
    && (forall k :: k in seen <==> k in Keys(verdicts))
    && (forall k :: k in keys <==> k in Keys(verdicts))
    && (forall k :: k in seen ==> seen[k] == ObservationsOf(verdicts, k))
  }

  /** `seen[key].append(dict(quantities))` on a dict of lists. */
  function See(seen: Seen, v: Verdict): Seen {
    seen[KeyOf(v) := (if KeyOf(v) in seen then seen[KeyOf(v)] else []) + [v.quantities]]
  }

  lemma KeysAppend(verdicts: seq<Verdict>, v: Verdict)
    ensures Keys(verdicts + [v]) == Keys(verdicts) + [KeyOf(v)]
  {
  }

  lemma QuantitiesAppend(rows: seq<Verdict>, v: Verdict)
    ensures Quantities(rows + [v]) == Quantities(rows) + [v.quantities]
  {
  }

  lemma ObservationsAppend(verdicts: seq<Verdict>, v: Verdict, k: Key)
    ensures ObservationsOf(verdicts + [v], k)
      == if k == KeyOf(v) then ObservationsOf(verdicts, k) + [v.quantities] else ObservationsOf(verdicts, k)
  {
    FilterAppend(IsOf(k), verdicts, v);
    QuantitiesAppend(Filter(IsOf(k), verdicts), v);
  }

  lemma KeyMember(verdicts: seq<Verdict>, k: Key)
    ensures k in Keys(verdicts) <==> exists v :: v in verdicts && KeyOf(v) == k
  {
    if k in Keys(verdicts) {
      var i :| 0 <= i < |verdicts| && Keys(verdicts)[i] == k;
      assert verdicts[i] in verdicts;
    }
    if v :| v in verdicts && KeyOf(v) == k {
      var i :| 0 <= i < |verdicts| && verdicts[i] == v;
      assert Keys(verdicts)[i] == k;
    }
  }

  lemma NothingObserved(verdicts: seq<Verdict>, k: Key)
    requires k !in Keys(verdicts)
    ensures ObservationsOf(verdicts, k) == []
  {
    KeyMember(verdicts, k);
    FilterNone(IsOf(k), verdicts);
  }

  lemma SeeRecords(seen: Seen, keys: seq<Key>, verdicts: seq<Verdict>, v: Verdict)
    requires Records(seen, keys, verdicts)
    ensures Records(See(seen, v), if KeyOf(v) in seen then keys else keys + [KeyOf(v)], verdicts + [v])
  {
    KeysAppend(verdicts, v);
    forall k | k in See(seen, v)
      ensures See(seen, v)[k] == ObservationsOf(verdicts + [v], k)
    {
      ObservationsAppend(verdicts, v, k);
      if k !in seen {
        NothingObserved(verdicts, k);
      }
    }
  }

  method SeeOne(seen: Seen, keys: seq<Key>, ghost before: seq<Verdict>, v: Verdict)
    returns (seen': Seen, keys': seq<Key>)
    requires Records(seen, keys, before)
    ensures Records(seen', keys', before + [v])
  {
    SeeRecords(seen, keys, before, v);
    keys' := if KeyOf(v) in seen then keys else keys + [KeyOf(v)];
    seen' := See(seen, v);
  }

  method SeeRepetition(seen: Seen, keys: seq<Key>, ghost before: seq<Verdict>, repetition: seq<Verdict>)
    returns (seen': Seen, keys': seq<Key>)
    requires Records(seen, keys, before)
    ensures Records(seen', keys', before + repetition)
  {
    seen', keys' := seen, keys;
    ghost var done := before;
    assert before + repetition[..0] == before;
    for m := 0 to |repetition|
      invariant done == before + repetition[..m]
      invariant Records(seen', keys', done)
    {
      seen', keys' := SeeOne(seen', keys', done, repetition[m]);
      done := done + [repetition[m]];
    }
    assert repetition[..|repetition|] == repetition;
  }

  method SeeAll(repetitions: seq<seq<Verdict>>) returns (seen: Seen, keys: seq<Key>)
    ensures Records(seen, keys, Flatten(repetitions))
  {
    seen, keys := map[], [];
    for n := 0 to |repetitions|
      invariant Records(seen, keys, Flatten(repetitions[..n]))
    {
      assert repetitions[..n + 1] == repetitions[..n] + [repetitions[n]];
      FlattenAppend(repetitions[..n], repetitions[n]);
      seen, keys := SeeRepetition(seen, keys, Flatten(repetitions[..n]), repetitions[n]);
    }
    assert repetitions[..|repetitions|] == repetitions;
  }

  method CompareLoop(key: Key, observations: seq<Observation>, repetitions: nat) returns (found: seq<Disagreement>)
    ensures found == CellDisagreements(key, observations, repetitions)
  {
    if |observations| != repetitions {
      return [Disagreement(key, CELL_PRESENT, Presence(|observations|))];
    }
    var names := SortedSet(Leq, NamesOf(observations));
    found := [];
    for n := 0 to |names|
      invariant found == Differences(key, names[..n], observations)
    {
      assert names[..n + 1][..n] == names[..n];
      var values := ValuesOf(observations, names[n]);
      if |set v | v in values| > 1 {
        found := found + [Disagreement(key, names[n], values)];
      }
    }
    assert names[..|names|] == names;
  }

  lemma DisagreementsAppend(front: seq<Key>, last: Key, verdicts: seq<Verdict>, repetitions: nat)
    ensures DisagreementsOf(front + [last], verdicts, repetitions)
      == DisagreementsOf(front, verdicts, repetitions)
       + CellDisagreements(last, ObservationsOf(verdicts, last), repetitions)
  {
    assert (front + [last])[..|front|] == front;
  }

  method ReportLoop(order: seq<Key>, seen: Seen, ghost verdicts: seq<Verdict>, repetitions: nat)
    returns (found: seq<Disagreement>)
    requires forall k :: k in order ==> k in seen && seen[k] == ObservationsOf(verdicts, k)
    ensures found == DisagreementsOf(order, verdicts, repetitions)
  {
    found := [];
    for n := 0 to |order|
      invariant found == DisagreementsOf(order[..n], verdicts, repetitions)
    {
      assert order[n] in order;
      assert order[..n + 1] == order[..n] + [order[n]];
      DisagreementsAppend(order[..n], order[n], verdicts, repetitions);
      var more := CompareLoop(order[n], seen[order[n]], repetitions);
      found := found + more;
    }
    assert order[..|order|] == order;
  }

  method NondeterminismLoop(repetitions: seq<seq<Verdict>>) returns (r: Result<seq<Disagreement>, AnalysisError>)
    ensures r == Nondeterminism(repetitions)
  {
    if |repetitions| < 2 {
      return Failure(TooFewRepetitions);
    }
    var seen, keys := SeeAll(repetitions);
    ghost var verdicts := Flatten(repetitions);
    KeysAreOrdered();
    SameElementsSameSet(KeyLeq, keys, Keys(verdicts));
    SortedSetIsSorted(KeyLeq, keys);
    var found := ReportLoop(SortedSet(KeyLeq, keys), seen, verdicts, |repetitions|);
    r := Success(found);
  }

  // ---- what an empty answer means ----

  /** Two sets of quantities that nobody can tell apart. */
  ghost predicate SameQuantities(a: Observation, b: Observation) {
    forall name :: Get(a, name) == Get(b, name)
  }

  ghost predicate AllSame(observations: seq<Observation>) {
    forall i, j :: 0 <= i < |observations| && 0 <= j < |observations| ==>
      SameQuantities(observations[i], observations[j])
  }

  predicate Constant(values: seq<Option<bool>>) {
    forall i, j :: 0 <= i < |values| && 0 <= j < |values| ==> values[i] == values[j]
  }

  lemma ConstantExactlyAtMostOne(values: seq<Option<bool>>)
    ensures |set v | v in values| > 1 <==> !Constant(values)
  {
    var s := set v | v in values;
    if values == [] {
      assert s == {};
    } else {
      assert values[0] in s;
      if Constant(values) {
        assert s == {values[0]};
      } else {
        var i, j :| 0 <= i < |values| && 0 <= j < |values| && values[i] != values[j];
        assert {values[i], values[j]} <= s;
        assert |{values[i], values[j]}| == 2;
        SubsetSize({values[i], values[j]}, s);
      }
    }
  }

  lemma SubsetSize<T>(a: set<T>, b: set<T>)
    requires a <= b
    ensures |a| <= |b|
  {
    assert b == a + (b - a);
  }

  lemma {:induction false} NoDifferenceExactlyConstant(key: Key, names: seq<string>, observations: seq<Observation>)
    ensures Differences(key, names, observations) == []
      <==> forall name :: name in names ==> Constant(ValuesOf(observations, name))
    decreases |names|
  {
    if names != [] {
      var n := |names| - 1;
      NoDifferenceExactlyConstant(key, names[..n], observations);
      ConstantExactlyAtMostOne(ValuesOf(observations, names[n]));
      forall name
        ensures name in names <==> name in names[..n] || name == names[n]
      {
        assert names == names[..n] + [names[n]];
      }
    }
  }

  lemma {:induction false} GetOfUnnamed(o: Observation, name: string)
    requires name !in Names(o)
    ensures Get(o, name) == None
  {
    if o != [] {
      assert Names(o)[0] == o[0].name;
      assert Names(o) == [o[0].name] + Names(o[1..]);
      GetOfUnnamed(o[1..], name);
    }
  }

  lemma {:induction false} NamedSomewhere(observations: seq<Observation>, i: nat, name: string)
    requires i < |observations| && name in Names(observations[i])
    ensures name in NamesOf(observations)
    decreases |observations|
  {
    var n := |observations| - 1;
    if i < n {
      NamedSomewhere(observations[..n], i, name);
    }
  }

  lemma ConstantExactlySame(observations: seq<Observation>)
    ensures AllSame(observations)
      <==> forall name :: name in NamesOf(observations) ==> Constant(ValuesOf(observations, name))
  {
    if forall name :: name in NamesOf(observations) ==> Constant(ValuesOf(observations, name)) {
      forall i, j, name | 0 <= i < |observations| && 0 <= j < |observations|
        ensures Get(observations[i], name) == Get(observations[j], name)
      {
        if name in NamesOf(observations) {
          assert ValuesOf(observations, name)[i] == ValuesOf(observations, name)[j];
        } else {
          if name in Names(observations[i]) {
            NamedSomewhere(observations, i, name);
          }
          if name in Names(observations[j]) {
            NamedSomewhere(observations, j, name);
          }
          GetOfUnnamed(observations[i], name);
          GetOfUnnamed(observations[j], name);
        }
      }
    }
    if AllSame(observations) {
      forall name, i, j | 0 <= i < |observations| && 0 <= j < |observations|
        ensures ValuesOf(observations, name)[i] == ValuesOf(observations, name)[j]
      {
        assert SameQuantities(observations[i], observations[j]);
      }
    }
  }

  ghost predicate Reproduced(observations: seq<Observation>, repetitions: nat) {
    |observations| == repetitions && AllSame(observations)
  }

  ghost predicate AllReproduced(verdicts: seq<Verdict>, repetitions: nat) {
    forall k :: k in Keys(verdicts) ==> Reproduced(ObservationsOf(verdicts, k), repetitions)
  }

  lemma CellAgreesExactly(key: Key, observations: seq<Observation>, repetitions: nat)
    ensures CellDisagreements(key, observations, repetitions) == [] <==> Reproduced(observations, repetitions)
  {
    var names := SortedSet(Leq, NamesOf(observations));
    StringsAreOrdered();
    SortedSetIsSorted(Leq, NamesOf(observations));
    NoDifferenceExactlyConstant(key, names, observations);
    ConstantExactlySame(observations);
  }

  ghost predicate AllReproducedIn(order: seq<Key>, verdicts: seq<Verdict>, repetitions: nat) {
    forall k :: k in order ==> Reproduced(ObservationsOf(verdicts, k), repetitions)
  }

  lemma OneMoreReproduced(front: seq<Key>, last: Key, verdicts: seq<Verdict>, repetitions: nat)
    ensures AllReproducedIn(front + [last], verdicts, repetitions)
      <==> AllReproducedIn(front, verdicts, repetitions) && Reproduced(ObservationsOf(verdicts, last), repetitions)
  {
    assert last in front + [last];
    assert forall k :: k in front ==> k in front + [last];
  }

  /** The report so far is empty exactly when every cell so far was reproduced. */
  ghost predicate SilenceMeansReproduced(order: seq<Key>, verdicts: seq<Verdict>, repetitions: nat) {
    DisagreementsOf(order, verdicts, repetitions) == [] <==> AllReproducedIn(order, verdicts, repetitions)
  }

  lemma SilenceStep(front: seq<Key>, last: Key, order: seq<Key>, verdicts: seq<Verdict>, repetitions: nat)
    requires order == front + [last]
    requires SilenceMeansReproduced(front, verdicts, repetitions)
    ensures SilenceMeansReproduced(order, verdicts, repetitions)
  {
    DisagreementsAppend(front, last, verdicts, repetitions);
    CellAgreesExactly(last, ObservationsOf(verdicts, last), repetitions);
    OneMoreReproduced(front, last, verdicts, repetitions);
  }

  lemma SilenceAtFirst(verdicts: seq<Verdict>, repetitions: nat)
    ensures SilenceMeansReproduced([], verdicts, repetitions)
  {
  }

  lemma {:induction false} NoDisagreementExactly(order: seq<Key>, verdicts: seq<Verdict>, repetitions: nat)
    ensures SilenceMeansReproduced(order, verdicts, repetitions)
    decreases |order|
  {
    if order == [] {
      SilenceAtFirst(verdicts, repetitions);
    } else {
      var n := |order| - 1;
      NoDisagreementExactly(order[..n], verdicts, repetitions);
      SilenceStep(order[..n], order[n], order, verdicts, repetitions);
    }
  }

  /** Nothing is reported exactly when every recorded cell was recorded as often as there are repetitions,
      and always with the same quantities. */
  lemma SilentExactlyWhenReproduced(repetitions: seq<seq<Verdict>>)
    requires |repetitions| >= 2
    ensures Nondeterminism(repetitions) == Success([]) <==> AllReproduced(Flatten(repetitions), |repetitions|)
  {
    var verdicts := Flatten(repetitions);
    KeysAreOrdered();
    SortedSetIsSorted(KeyLeq, Keys(verdicts));
    NoDisagreementExactly(SortedSet(KeyLeq, Keys(verdicts)), verdicts, |repetitions|);
  }

  // ---- agreement of the repetitions ----

  ghost predicate HasCell(repetition: seq<Verdict>, k: Key) {
    exists v :: v in repetition && KeyOf(v) == k
  }

  predicate OncePerCell(repetition: seq<Verdict>) {
    forall i, j :: 0 <= i < j < |repetition| ==> KeyOf(repetition[i]) != KeyOf(repetition[j])
  }

  ghost predicate SameCells(repetitions: seq<seq<Verdict>>) {
    forall a, b, k :: a in repetitions && b in repetitions && HasCell(a, k) ==> HasCell(b, k)
  }

  ghost predicate SameVerdicts(repetitions: seq<seq<Verdict>>) {
    forall a, b, v, w :: a in repetitions && b in repetitions && v in a && w in b && KeyOf(v) == KeyOf(w) ==>
      SameQuantities(v.quantities, w.quantities)
  }

  lemma {:induction false} OneOfEach(repetition: seq<Verdict>, k: Key)
    requires OncePerCell(repetition)
    ensures |Filter(IsOf(k), repetition)| == if HasCell(repetition, k) then 1 else 0
  {
    if repetition != [] {
      var tail := repetition[1..];
      OneOfEach(tail, k);
      assert repetition == [repetition[0]] + tail;
    }
  }

  /** A cell recorded at most once in each repetition was recorded in all of them exactly when there are as
      many records of it as repetitions. */
  lemma {:induction false} EveryRepetitionHasIt(repetitions: seq<seq<Verdict>>, k: Key)
    requires forall a :: a in repetitions ==> OncePerCell(a)
    ensures |ObservationsOf(Flatten(repetitions), k)| <= |repetitions|
    ensures |ObservationsOf(Flatten(repetitions), k)| == |repetitions|
      <==> forall a :: a in repetitions ==> HasCell(a, k)
    decreases |repetitions|
  {
    if repetitions != [] {
      var n := |repetitions| - 1;
      var front, last := repetitions[..n], repetitions[n];
      assert repetitions == front + [last];
      EveryRepetitionHasIt(front, k);
      FlattenAppend(front, last);
      FilterConcat(IsOf(k), Flatten(front), last);
      assert last in repetitions;
      OneOfEach(last, k);
    }
  }

  lemma ObservationsAllSame(verdicts: seq<Verdict>, k: Key)
    ensures AllSame(ObservationsOf(verdicts, k)) <==> forall v, w ::
      v in verdicts && w in verdicts && KeyOf(v) == k && KeyOf(w) == k ==> SameQuantities(v.quantities, w.quantities)
  {
    var rows := Filter(IsOf(k), verdicts);
    forall v
      ensures v in rows <==> v in verdicts && KeyOf(v) == k
    {
      FilterMember(IsOf(k), verdicts, v);
    }
    if AllSame(ObservationsOf(verdicts, k)) {
      forall v, w | v in rows && w in rows
        ensures SameQuantities(v.quantities, w.quantities)
      {
        var i :| 0 <= i < |rows| && rows[i] == v;
        var j :| 0 <= j < |rows| && rows[j] == w;
        assert SameQuantities(ObservationsOf(verdicts, k)[i], ObservationsOf(verdicts, k)[j]);
      }
    }
  }

  lemma SameCellsExactly(repetitions: seq<seq<Verdict>>)
    ensures SameCells(repetitions) <==>
      forall k, a :: k in Keys(Flatten(repetitions)) && a in repetitions ==> HasCell(a, k)
  {
    var verdicts := Flatten(repetitions);
    forall k
      ensures k in Keys(verdicts) <==> exists a :: a in repetitions && HasCell(a, k)
    {
      KeyMember(verdicts, k);
      if v :| v in verdicts && KeyOf(v) == k {
        FlattenMember(repetitions, v);
        var a :| a in repetitions && v in a;
        assert HasCell(a, k);
      }
      if a :| a in repetitions && HasCell(a, k) {
        var v :| v in a && KeyOf(v) == k;
        FlattenMember(repetitions, v);
      }
    }
  }

  ghost predicate SameByCell(verdicts: seq<Verdict>) {
    forall v, w :: v in verdicts && w in verdicts && KeyOf(v) == KeyOf(w) ==> SameQuantities(v.quantities, w.quantities)
  }

  lemma SameVerdictsFlattened(repetitions: seq<seq<Verdict>>)
    ensures SameVerdicts(repetitions) <==> SameByCell(Flatten(repetitions))
  {
    forall v
      ensures v in Flatten(repetitions) <==> exists a :: a in repetitions && v in a
    {
      FlattenMember(repetitions, v);
    }
  }

  lemma SameCellByCell(verdicts: seq<Verdict>)
    ensures SameByCell(verdicts) <==> forall k :: k in Keys(verdicts) ==> AllSame(ObservationsOf(verdicts, k))
  {
    forall v
      ensures v in verdicts ==> KeyOf(v) in Keys(verdicts)
    {
      KeyMember(verdicts, KeyOf(v));
    }
    forall k {
      ObservationsAllSame(verdicts, k);
    }
  }

  lemma SameVerdictsExactly(repetitions: seq<seq<Verdict>>)
    ensures SameVerdicts(repetitions) <==>
      forall k :: k in Keys(Flatten(repetitions)) ==> AllSame(ObservationsOf(Flatten(repetitions), k))
  {
    SameVerdictsFlattened(repetitions);
    SameCellByCell(Flatten(repetitions));
  }

  /** With at most one verdict per cell in each repetition, the check is silent exactly when all repetitions
      hold the same cells with the same quantities, a missing quantity reading as unscored. */
  lemma SilentExactlyWhenRepetitionsAgree(repetitions: seq<seq<Verdict>>)
    requires |repetitions| >= 2 && forall a :: a in repetitions ==> OncePerCell(a)
    ensures Nondeterminism(repetitions) == Success([]) <==> SameCells(repetitions) && SameVerdicts(repetitions)
  {
    SilentExactlyWhenReproduced(repetitions);
    SameCellsExactly(repetitions);
    SameVerdictsExactly(repetitions);
    forall k {
      EveryRepetitionHasIt(repetitions, k);
    }
  }

  lemma FlattenTwo(a: seq<Verdict>, b: seq<Verdict>)
    ensures Flatten([a, b]) == a + b
  {
    FlattenAppend([a], b);
    FlattenAppend([], a);
    assert [] + [a] == [a] && [a] + [b] == [a, b];
  }

  lemma SameTwice(v: Verdict, k: Key)
    requires k == KeyOf(v)
    ensures ObservationsOf([v, v], k) == [v.quantities, v.quantities]
  {
    FilterAll(IsOf(k), [v, v]);
  }

  lemma TwiceIsReproduced(v: Verdict)
    ensures AllReproduced([v, v], 2)
  {
    forall k | k in Keys([v, v])
      ensures Reproduced(ObservationsOf([v, v], k), 2)
    {
      SameTwice(v, k);
    }
  }

  lemma AbsentFromTheSecond(v: Verdict)
    ensures !SameCells([[v, v], []])
  {
    var repetitions := [[v, v], []];
    assert repetitions[0] == [v, v] && repetitions[1] == [];
    assert v in [v, v];
    assert HasCell([v, v], KeyOf(v)) && !HasCell([], KeyOf(v));
  }

  /** Recorded twice, a cell hides its absence from another repetition: the check counts records, not
      repetitions. */
  lemma DuplicateHidesADrop(v: Verdict)
    ensures Nondeterminism([[v, v], []]) == Success([])
    ensures !SameCells([[v, v], []])
  {
    var repetitions := [[v, v], []];
    FlattenTwo([v, v], []);
    assert [v, v] + [] == [v, v];
    SilentExactlyWhenReproduced(repetitions);
    TwiceIsReproduced(v);
    AbsentFromTheSecond(v);
  }

  // ---- what a report says ----

  predicate PresenceOf(values: seq<Option<bool>>, n: nat) {
    |values| == n + 1 && values[n] == Some(false) && forall i :: 0 <= i < n ==> values[i] == Some(true)
  }

  /** What may be reported of a cell, from its rows in the order they were recorded: that it is missing somewhere,
      or a quantity on which two of its rows differ, with the value each row gives it. */
  ghost predicate Differs(rows: seq<Verdict>, repetitions: nat, quantity: string, values: seq<Option<bool>>) {
    if |rows| != repetitions then quantity == "cell-present" && PresenceOf(values, |rows|)
    else
      && |values| == |rows|
      && (forall i :: 0 <= i < |rows| ==> values[i] == Get(rows[i].quantities, quantity))
      && (exists i, j :: 0 <= i < |rows| && 0 <= j < |rows| && values[i] != values[j])
  }

  lemma {:induction false} DifferencesExactly(
    key: Key, names: seq<string>, observations: seq<Observation>, d: Disagreement)
    ensures d in Differences(key, names, observations) <==>
      && d.key == key && d.quantity in names && d.values == ValuesOf(observations, d.quantity)
      && !Constant(d.values)
    decreases |names|
  {
    if names != [] {
      var n := |names| - 1;
      DifferencesExactly(key, names[..n], observations, d);
      ConstantExactlyAtMostOne(ValuesOf(observations, names[n]));
      assert names == names[..n] + [names[n]];
    }
  }

  lemma {:induction false} DifferingIsNamed(observations: seq<Observation>, name: string)
    requires !Constant(ValuesOf(observations, name))
    ensures name in NamesOf(observations)
  {
    var values := ValuesOf(observations, name);
    var i, j :| 0 <= i < |values| && 0 <= j < |values| && values[i] != values[j];
    if name in Names(observations[i]) {
      NamedSomewhere(observations, i, name);
    } else if name in Names(observations[j]) {
      NamedSomewhere(observations, j, name);
    } else {
      GetOfUnnamed(observations[i], name);
      GetOfUnnamed(observations[j], name);
    }
  }

  lemma CellReportedExactly(rows: seq<Verdict>, key: Key, repetitions: nat, d: Disagreement)
    ensures d in CellDisagreements(key, Quantities(rows), repetitions)
      <==> d.key == key && Differs(rows, repetitions, d.quantity, d.values)
  {
    var observations := Quantities(rows);
    if |rows| == repetitions {
      StringsAreOrdered();
      SortedSetIsSorted(Leq, NamesOf(observations));
      DifferencesExactly(key, SortedSet(Leq, NamesOf(observations)), observations, d);
      var values := ValuesOf(observations, d.quantity);
      if !Constant(values) {
        DifferingIsNamed(observations, d.quantity);
      }
      if |d.values| == |rows| && forall i :: 0 <= i < |rows| ==> d.values[i] == Get(rows[i].quantities, d.quantity) {
        assert d.values == values;
      }
    } else if d.key == key && Differs(rows, repetitions, d.quantity, d.values) {
      assert d.values == Presence(|rows|);
    }
  }

  lemma {:induction false} OrderReportedExactly(
    order: seq<Key>, verdicts: seq<Verdict>, repetitions: nat, d: Disagreement)
    ensures d in DisagreementsOf(order, verdicts, repetitions) <==>
      d.key in order && Differs(Filter(IsOf(d.key), verdicts), repetitions, d.quantity, d.values)
    decreases |order|
  {
    if order != [] {
      var n := |order| - 1;
      OrderReportedExactly(order[..n], verdicts, repetitions, d);
      CellReportedExactly(Filter(IsOf(order[n]), verdicts), order[n], repetitions, d);
      assert order == order[..n] + [order[n]];
    }
  }

  /** A disagreement is reported exactly when its cell was recorded at all and its rows differ as it says. */
  lemma ReportedExactly(repetitions: seq<seq<Verdict>>, d: Disagreement)
    requires |repetitions| >= 2
    ensures Nondeterminism(repetitions).Success?
    ensures d in Nondeterminism(repetitions).value <==>
      var rows := Filter((v: Verdict) => v.scenario == d.key.scenario && v.arm == d.key.arm, Flatten(repetitions));
      rows != [] && Differs(rows, |repetitions|, d.quantity, d.values)
  {
    var verdicts := Flatten(repetitions);
    var p := (v: Verdict) => v.scenario == d.key.scenario && v.arm == d.key.arm;
    KeysAreOrdered();
    SortedSetIsSorted(KeyLeq, Keys(verdicts));
    OrderReportedExactly(SortedSet(KeyLeq, Keys(verdicts)), verdicts, |repetitions|, d);
    KeyMember(verdicts, d.key);
    FilterAgrees(p, IsOf(d.key), verdicts);
    NoneFiltered(IsOf(d.key), verdicts);
  }

  lemma NoneFiltered<T>(p: T -> bool, s: seq<T>)
    ensures Filter(p, s) == [] <==> forall x :: x in s ==> !p(x)
  {
    if forall x :: x in s ==> !p(x) {
      FilterNone(p, s);
    } else {
      var x :| x in s && p(x);
      FilterMember(p, s, x);
    }
  }

  /** Reports come by cell, and within a cell by the name of the quantity, each once. */
  ghost predicate Before(a: Disagreement, b: Disagreement) {
    if a.key == b.key then Leq(a.quantity, b.quantity) && a.quantity != b.quantity else KeyLeq(a.key, b.key)
  }

  ghost predicate InReportOrder(found: seq<Disagreement>) {
    forall i, j :: 0 <= i < j < |found| ==> Before(found[i], found[j])
  }

  lemma InReportOrderConcat(a: seq<Disagreement>, b: seq<Disagreement>)
    requires InReportOrder(a) && InReportOrder(b)
    requires forall x, y :: x in a && y in b ==> Before(x, y)
    ensures InReportOrder(a + b)
  {
    forall i, j | 0 <= i < j < |a + b|
      ensures Before((a + b)[i], (a + b)[j])
    {
      assert i < |a| ==> a[i] in a;
      assert j >= |a| ==> b[j - |a|] in b;
    }
  }

  lemma {:induction false} DifferencesInOrder(key: Key, names: seq<string>, observations: seq<Observation>)
    requires StrictlyAscending(Leq, names)
    ensures InReportOrder(Differences(key, names, observations))
    decreases |names|
  {
    if names != [] {
      var n := |names| - 1;
      var front, last := Differences(key, names[..n], observations), ValuesOf(observations, names[n]);
      DifferencesInOrder(key, names[..n], observations);
      forall d | d in front
        ensures Before(d, Disagreement(key, names[n], last))
      {
        DifferencesExactly(key, names[..n], observations, d);
        var i :| 0 <= i < n && names[i] == d.quantity;
      }
      InReportOrderConcat(front, [Disagreement(key, names[n], last)]);
    }
  }

  lemma CellInOrder(key: Key, observations: seq<Observation>, repetitions: nat)
    ensures InReportOrder(CellDisagreements(key, observations, repetitions))
  {
    if |observations| == repetitions {
      StringsAreOrdered();
      SortedSetIsSorted(Leq, NamesOf(observations));
      DifferencesInOrder(key, SortedSet(Leq, NamesOf(observations)), observations);
    }
  }

  lemma {:induction false} OrderedReport(order: seq<Key>, verdicts: seq<Verdict>, repetitions: nat)
    requires StrictlyAscending(KeyLeq, order)
    ensures InReportOrder(DisagreementsOf(order, verdicts, repetitions))
    decreases |order|
  {
    if order != [] {
      var n := |order| - 1;
      var rows := Filter(IsOf(order[n]), verdicts);
      var front := DisagreementsOf(order[..n], verdicts, repetitions);
      var last := CellDisagreements(order[n], Quantities(rows), repetitions);
      OrderedReport(order[..n], verdicts, repetitions);
      CellInOrder(order[n], Quantities(rows), repetitions);
      forall x, y | x in front && y in last
        ensures Before(x, y)
      {
        OrderReportedExactly(order[..n], verdicts, repetitions, x);
        CellReportedExactly(rows, order[n], repetitions, y);
        var i :| 0 <= i < n && order[i] == x.key;
      }
      InReportOrderConcat(front, last);
    }
  }

  lemma ReportIsOrdered(repetitions: seq<seq<Verdict>>)
    requires |repetitions| >= 2
    ensures InReportOrder(Nondeterminism(repetitions).value)
  {
    KeysAreOrdered();
    SortedSetIsSorted(KeyLeq, Keys(Flatten(repetitions)));
    OrderedReport(SortedSet(KeyLeq, Keys(Flatten(repetitions))), Flatten(repetitions), |repetitions|);
  }

  predicate FirstNamed(quantities: seq<Quantity>, i: nat, name: string) {
    i < |quantities| && quantities[i].name == name && forall j :: 0 <= j < i ==> quantities[j].name != name
  }

  /** A quantity is what the mapping holds under its name, and nothing if it holds none. */
  lemma {:induction false} GetExactly(quantities: seq<Quantity>, name: string)
    ensures (forall i :: 0 <= i < |quantities| ==> quantities[i].name != name) ==> Get(quantities, name) == None
    ensures forall i: nat :: FirstNamed(quantities, i, name) ==> Get(quantities, name) == quantities[i].value
  {
    if quantities != [] {
      var rest := quantities[1..];
      GetExactly(rest, name);
      assert forall j :: 0 <= j < |rest| ==> rest[j] == quantities[j + 1];
      forall i: nat | FirstNamed(quantities, i, name)
        ensures Get(quantities, name) == quantities[i].value
      {
        if i > 0 {
          assert rest[i - 1] == quantities[i] && FirstNamed(rest, i - 1, name);
        }
      }
    }
  }
}
