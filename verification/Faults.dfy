/** The record faults of gate G-12 (src/harness/fault_injection.py) and what the oracle makes of them,
    on every log and not only on the logs a run can produce. */
module Faults {
  import opened Wrappers
  import opened Sequences
  import opened Records
  import opened Oracle

  function NotEffectOf(cid: Cid): Row -> bool {
    (r: Row) => !(r.effectId.Some? && r.cid == cid)
  }

  function NotOf(cid: Cid): Row -> bool {
    (r: Row) => r.cid != cid
  }

  function EventNotOf(cid: Cid): MediationEvent -> bool {
    (e: MediationEvent) => e.cid != cid
  }

  function DropEffectRecords(ledger: seq<Row>, cid: Cid): seq<Row> {
    Filter(NotEffectOf(cid), ledger)
  }

  function DropAllRecords(ledger: seq<Row>, cid: Cid): seq<Row> {
    Filter(NotOf(cid), ledger)
  }

  function DropMediationRecord(events: seq<MediationEvent>, cid: Cid): seq<MediationEvent> {
    Filter(EventNotOf(cid), events)
  }

  function Copied(r: Row): Row {
    r.(effectId := Some((if r.effectId.Some? then r.effectId.value else "") + "-dup"))
  }

  function Duplicated(ledger: seq<Row>, cid: Cid): seq<Row> {
    ledger + Map(Copied, EffectsOf(ledger, cid))
  }

  function Crossed(one: Cid, other: Cid): Row -> Row {
    (r: Row) => if r.cid == one then r.(cid := other) else if r.cid == other then r.(cid := one) else r
  }

  function Swapped(ledger: seq<Row>, one: Cid, other: Cid): seq<Row> {
    Map(Crossed(one, other), ledger)
  }

  const INJECTED_ID := "injected-by-g12-bypass-world"

  function Injected(ledger: seq<Row>, template: Row, cid: Cid): seq<Row> {
    ledger + [template.(cid := cid, effectId := Some(INJECTED_ID))]
  }

  // ---- the loops that apply them to a copy of the rows ----

  method DuplicateEffectRecords(ledger: seq<Row>, cid: Cid) returns (out: seq<Row>)
    ensures out == Duplicated(ledger, cid)
  {
    out := ledger;
    assert ledger[..0] == [];
    for n := 0 to |ledger|
      invariant out == ledger + Map(Copied, EffectsOf(ledger[..n], cid))
    {
      assert ledger[..n + 1] == ledger[..n] + [ledger[n]];
      CopiesSoFar(ledger[..n], ledger[n], cid);
      if ledger[n].effectId.Some? && ledger[n].cid == cid {
        out := out + [Copied(ledger[n])];
      }
    }
    assert ledger[..|ledger|] == ledger;
  }

  lemma CopiesSoFar(rows: seq<Row>, next: Row, cid: Cid)
    ensures Map(Copied, EffectsOf(rows + [next], cid)) ==
      Map(Copied, EffectsOf(rows, cid)) + (if next.effectId.Some? && next.cid == cid then [Copied(next)] else [])
  {
    FilterAppend(IsEffectOf(cid), rows, next);
  }

  method SwapCorrelationIds(ledger: seq<Row>, one: Cid, other: Cid) returns (out: seq<Row>)
    ensures out == Swapped(ledger, one, other)
  {
    out := [];
    for n := 0 to |ledger|
      invariant out == Swapped(ledger[..n], one, other)
    {
      assert ledger[..n + 1] == ledger[..n] + [ledger[n]];
      var row := ledger[n];
      if row.cid == one {
        row := row.(cid := other);
      } else if row.cid == other {
        row := row.(cid := one);
      }
      out := out + [row];
    }
    assert ledger[..|ledger|] == ledger;
  }

  // ---- what each fault does to the correlated rows ----

  ghost predicate SameRecordsOf(ledger: seq<Row>, ledger': seq<Row>, cid: Cid) {
    EffectsOf(ledger, cid) == EffectsOf(ledger', cid) && IngressOf(ledger, cid) == IngressOf(ledger', cid)
  }

  lemma DroppedRecords(ledger: seq<Row>, cid: Cid)
    ensures EffectsOf(DropEffectRecords(ledger, cid), cid) == []
    ensures EffectsOf(DropAllRecords(ledger, cid), cid) == [] && IngressOf(DropAllRecords(ledger, cid), cid) == []
    ensures forall other :: other != cid ==>
      && SameRecordsOf(DropEffectRecords(ledger, cid), ledger, other)
      && SameRecordsOf(DropAllRecords(ledger, cid), ledger, other)
  {
    FilterDisjoint(IsEffectOf(cid), NotEffectOf(cid), ledger);
    FilterDisjoint(IsEffectOf(cid), NotOf(cid), ledger);
    FilterDisjoint(IsIngressOf(cid), NotOf(cid), ledger);
    forall other | other != cid
      ensures SameRecordsOf(DropEffectRecords(ledger, cid), ledger, other)
      ensures SameRecordsOf(DropAllRecords(ledger, cid), ledger, other)
    {
      FilterWeaker(IsEffectOf(other), NotEffectOf(cid), ledger);
      FilterWeaker(IsIngressOf(other), NotEffectOf(cid), ledger);
      FilterWeaker(IsEffectOf(other), NotOf(cid), ledger);
      FilterWeaker(IsIngressOf(other), NotOf(cid), ledger);
    }
  }

  lemma DroppedEvents(events: seq<MediationEvent>, cid: Cid)
    ensures EventsOf(DropMediationRecord(events, cid), cid) == []
    ensures forall other ::
      other != cid ==> EventsOf(DropMediationRecord(events, cid), other) == EventsOf(events, other)
  {
    FilterDisjoint(IsEventOf(cid), EventNotOf(cid), events);
    forall other | other != cid
      ensures EventsOf(DropMediationRecord(events, cid), other) == EventsOf(events, other)
    {
      FilterWeaker(IsEventOf(other), EventNotOf(cid), events);
    }
  }

  lemma {:induction false} CopiedEffects(rows: seq<Row>, cid: Cid)
    requires forall r :: r in rows ==> r.effectId.Some? && r.cid == cid
    ensures EffectsOf(Map(Copied, rows), cid) == Map(Copied, rows)
    ensures forall other :: other != cid ==>
      EffectsOf(Map(Copied, rows), other) == [] && IngressOf(Map(Copied, rows), other) == []
  {
    var copies := Map(Copied, rows);
    forall r | r in copies
      ensures r.effectId.Some? && r.cid == cid
    {
      var i :| 0 <= i < |copies| && copies[i] == r;
      assert rows[i] in rows && copies[i] == Copied(rows[i]);
    }
    FilterAll(IsEffectOf(cid), copies);
    forall other | other != cid
      ensures EffectsOf(copies, other) == [] && IngressOf(copies, other) == []
    {
      FilterNone(IsEffectOf(other), copies);
      FilterNone(IsIngressOf(other), copies);
    }
  }

  lemma DuplicatedEffects(ledger: seq<Row>, cid: Cid)
    ensures EffectsOf(Duplicated(ledger, cid), cid) == EffectsOf(ledger, cid) + Map(Copied, EffectsOf(ledger, cid))
    ensures |IngressOf(Duplicated(ledger, cid), cid)| >= |IngressOf(ledger, cid)|
  {
    var effects := EffectsOf(ledger, cid);
    EffectsCarryTheId(ledger, cid);
    CopiedEffects(effects, cid);
    FilterConcat(IsEffectOf(cid), ledger, Map(Copied, effects));
    FilterConcat(IsIngressOf(cid), ledger, Map(Copied, effects));
  }

  lemma DuplicationLeavesOthers(ledger: seq<Row>, cid: Cid, other: Cid)
    requires other != cid
    ensures SameRecordsOf(Duplicated(ledger, cid), ledger, other)
  {
    var copies := Map(Copied, EffectsOf(ledger, cid));
    EffectsCarryTheId(ledger, cid);
    CopiedEffects(EffectsOf(ledger, cid), cid);
    FilterConcat(IsEffectOf(other), ledger, copies);
    FilterConcat(IsIngressOf(other), ledger, copies);
    assert EffectsOf(copies, other) == [] && IngressOf(copies, other) == [];
    assert EffectsOf(ledger + copies, other) == EffectsOf(ledger, other);
    assert IngressOf(ledger + copies, other) == IngressOf(ledger, other);
  }

  lemma EffectsCarryTheId(ledger: seq<Row>, cid: Cid)
    ensures forall r :: r in EffectsOf(ledger, cid) ==> r.effectId.Some? && r.cid == cid
  {
    forall r | r in EffectsOf(ledger, cid)
      ensures r.effectId.Some? && r.cid == cid
    {
      FilterMember(IsEffectOf(cid), ledger, r);
    }
  }

  lemma SwappedRecords(ledger: seq<Row>, one: Cid, other: Cid)
    ensures EffectsOf(Swapped(ledger, one, other), one) == Swapped(EffectsOf(ledger, other), one, other)
    ensures EffectsOf(Swapped(ledger, one, other), other) == Swapped(EffectsOf(ledger, one), one, other)
    ensures IngressOf(Swapped(ledger, one, other), one) == Swapped(IngressOf(ledger, other), one, other)
    ensures IngressOf(Swapped(ledger, one, other), other) == Swapped(IngressOf(ledger, one), one, other)
  {
    FilterMap(IsEffectOf(one), IsEffectOf(other), Crossed(one, other), ledger);
    FilterMap(IsEffectOf(other), IsEffectOf(one), Crossed(one, other), ledger);
    FilterMap(IsIngressOf(one), IsIngressOf(other), Crossed(one, other), ledger);
    FilterMap(IsIngressOf(other), IsIngressOf(one), Crossed(one, other), ledger);
  }

  lemma SwapLeavesOthers(ledger: seq<Row>, one: Cid, other: Cid, third: Cid)
    requires third != one && third != other
    ensures SameRecordsOf(Swapped(ledger, one, other), ledger, third)
  {
    FilterMap(IsEffectOf(third), IsEffectOf(third), Crossed(one, other), ledger);
    FilterMap(IsIngressOf(third), IsIngressOf(third), Crossed(one, other), ledger);
    forall r | r in EffectsOf(ledger, third) || r in IngressOf(ledger, third)
      ensures Crossed(one, other)(r) == r
    {
      FilterMember(IsEffectOf(third), ledger, r);
      FilterMember(IsIngressOf(third), ledger, r);
    }
    assert Swapped(EffectsOf(ledger, third), one, other) == EffectsOf(ledger, third);
    assert Swapped(IngressOf(ledger, third), one, other) == IngressOf(ledger, third);
  }

  // ---- detection ----

  lemma DropsAreDetected(intent: Intent, events: seq<MediationEvent>, ledger: seq<Row>, cid: Cid)
    requires LinkageOf(intent, events, ledger, cid) == Success(Consistent)
    ensures LinkageOf(intent, events, DropEffectRecords(ledger, cid), cid) == Success(Dropped)
    ensures LinkageOf(intent, events, DropAllRecords(ledger, cid), cid) == Success(Dropped)
    ensures LinkageOf(intent, DropMediationRecord(events, cid), ledger, cid) == Success(Dropped)
  {
    ConsistentMeansOneOfEach(intent, events, ledger, cid);
    DroppedRecords(ledger, cid);
    DroppedEvents(events, cid);
    FilterShrinks(IsIngressOf(cid), NotEffectOf(cid), ledger);
  }

  lemma DuplicationIsDetected(intent: Intent, events: seq<MediationEvent>, ledger: seq<Row>, cid: Cid)
    requires LinkageOf(intent, events, ledger, cid) == Success(Consistent)
    ensures LinkageOf(intent, events, Duplicated(ledger, cid), cid) == Success(Linkage.Duplicated)
  {
    ConsistentMeansOneOfEach(intent, events, ledger, cid);
    DuplicatedEffects(ledger, cid);
    var effects := EffectsOf(Duplicated(ledger, cid), cid);
    assert effects[0] == EffectsOf(ledger, cid)[0] && effects[1] == Copied(effects[0]);
    assert forall i :: 0 <= i < |effects| ==> Names(intent, effects[i]);
  }

  /** Whatever row is forged in, and whether or not it names the right tool. */
  lemma InjectionIsDetected(intent: Intent, events: seq<MediationEvent>, ledger: seq<Row>, cid: Cid, template: Row)
    requires LinkageOf(intent, events, ledger, cid) == Success(Unreached)
    ensures LinkageOf(intent, events, Injected(ledger, template, cid), cid) == Success(Miscorrelated)
    ensures LogIntegrityFailure(events, Injected(ledger, template, cid), cid) == Success(true)
  {
    UnreachedMeansDenialAlone(intent, events, ledger, cid);
    FilterAppend(IsEffectOf(cid), ledger, template.(cid := cid, effectId := Some(INJECTED_ID)));
  }

  lemma SwapIsAnInvolution(ledger: seq<Row>, one: Cid, other: Cid)
    ensures Swapped(Swapped(ledger, one, other), one, other) == ledger
  {
  }

  /** The oracle notices something about this id. */
  ghost predicate Noticed(intent: Intent, digest: string, events: seq<MediationEvent>, ledger: seq<Row>, cid: Cid) {
    LinkageOf(intent, events, ledger, cid) != Success(Consistent) || !RecordsAgree(digest, ledger, cid)
  }

  ghost predicate RequestsDiffer(a: Intent, digestA: string, b: Intent, digestB: string) {
    a.tool != b.tool || a.audience != b.audience || digestA != digestB
  }

  /** Crossing two consistent calls is noticed exactly when the two requests differ in tool, resource
      server or arguments, and then at either of the two ids. */
  lemma SwapIsDetectedExactlyWhenRequestsDiffer(
    a: Intent, digestA: string, b: Intent, digestB: string,
    events: seq<MediationEvent>, ledger: seq<Row>, one: Cid, other: Cid)
    requires one != other
    requires !Noticed(a, digestA, events, ledger, one) && !Noticed(b, digestB, events, ledger, other)
    ensures Noticed(a, digestA, events, Swapped(ledger, one, other), one) <==> RequestsDiffer(a, digestA, b, digestB)
    ensures Noticed(b, digestB, events, Swapped(ledger, one, other), other) <==> RequestsDiffer(a, digestA, b, digestB)
  {
    var swapped := Swapped(ledger, one, other);
    SwappedRecords(ledger, one, other);
    ConsistentMeansOneOfEach(a, events, ledger, one);
    ConsistentMeansOneOfEach(b, events, ledger, other);
    ConsistentMeansOneOfEach(a, events, swapped, one);
    ConsistentMeansOneOfEach(b, events, swapped, other);
    assert IngressOf(ledger, one)[0].ingressDigest == digestA;
    assert IngressOf(ledger, other)[0].ingressDigest == digestB;
    assert IngressOf(swapped, one)[0].ingressDigest == digestB;
    assert IngressOf(swapped, other)[0].ingressDigest == digestA;
  }

  /** Crossing a consistent call with a denied one is always noticed, at both. */
  lemma SwapWithADenialIsDetected(
    a: Intent, b: Intent, events: seq<MediationEvent>, ledger: seq<Row>, one: Cid, other: Cid)
    requires one != other
    requires LinkageOf(a, events, ledger, one) == Success(Consistent)
    requires LinkageOf(b, events, ledger, other) == Success(Unreached)
    ensures LinkageOf(a, events, Swapped(ledger, one, other), one) == Success(Dropped)
    ensures LinkageOf(b, events, Swapped(ledger, one, other), other) == Success(Miscorrelated)
    ensures LogIntegrityFailure(events, Swapped(ledger, one, other), other) == Success(true)
  {
    SwappedRecords(ledger, one, other);
    ConsistentMeansOneOfEach(a, events, ledger, one);
    UnreachedMeansDenialAlone(b, events, ledger, other);
  }

  lemma RowFaultsAreLocal(ledger: seq<Row>, cid: Cid, other: Cid, third: Cid, template: Row)
    requires third != cid && third != other
    ensures SameRecordsOf(DropEffectRecords(ledger, cid), ledger, third)
    ensures SameRecordsOf(DropAllRecords(ledger, cid), ledger, third)
    ensures SameRecordsOf(Duplicated(ledger, cid), ledger, third)
    ensures SameRecordsOf(Swapped(ledger, cid, other), ledger, third)
    ensures SameRecordsOf(Injected(ledger, template, cid), ledger, third)
  {
    DroppedRecords(ledger, cid);
    DuplicationLeavesOthers(ledger, cid, third);
    SwapLeavesOthers(ledger, cid, other, third);
    var row := template.(cid := cid, effectId := Some(INJECTED_ID));
    FilterAppend(IsEffectOf(third), ledger, row);
    FilterAppend(IsIngressOf(third), ledger, row);
  }

  /** No fault moves the verdict of an id it was not aimed at. */
  lemma FaultsAreLocal(
    intent: Intent, events: seq<MediationEvent>, ledger: seq<Row>, cid: Cid, other: Cid, third: Cid, template: Row)
    requires third != cid && third != other
    ensures var verdict := LinkageOf(intent, events, ledger, third);
      && LinkageOf(intent, events, DropEffectRecords(ledger, cid), third) == verdict
      && LinkageOf(intent, events, DropAllRecords(ledger, cid), third) == verdict
      && LinkageOf(intent, DropMediationRecord(events, cid), ledger, third) == verdict
      && LinkageOf(intent, events, Duplicated(ledger, cid), third) == verdict
      && LinkageOf(intent, events, Swapped(ledger, cid, other), third) == verdict
      && LinkageOf(intent, events, Injected(ledger, template, cid), third) == verdict
  {
    RowFaultsAreLocal(ledger, cid, other, third, template);
    SameRecordsSameVerdict(intent, events, third);
    DroppedEvents(events, cid);
    LinkageIsLocal(intent, third, DropMediationRecord(events, cid), ledger, events, ledger);
  }

  lemma SameRecordsSameVerdict(intent: Intent, events: seq<MediationEvent>, cid: Cid)
    ensures forall ledger, ledger' :: SameRecordsOf(ledger', ledger, cid) ==>
      LinkageOf(intent, events, ledger', cid) == LinkageOf(intent, events, ledger, cid)
  {
    forall ledger, ledger' | SameRecordsOf(ledger', ledger, cid)
      ensures LinkageOf(intent, events, ledger', cid) == LinkageOf(intent, events, ledger, cid)
    {
      LinkageIsLocal(intent, cid, events, ledger', events, ledger);
    }
  }

  /** The stated residual: whoever can delete both rows and also rewrite the mediation record leaves an
      honest-looking denial behind. */
  lemma RewrittenDenialGoesUnnoticed(
    intent: Intent, events: seq<MediationEvent>, ledger: seq<Row>, cid: Cid, reason: string)
    ensures LinkageOf(intent, DropMediationRecord(events, cid) + [MediationEvent(cid, false, reason)],
                      DropAllRecords(ledger, cid), cid) == Success(Unreached)
  {
    DroppedRecords(ledger, cid);
    DroppedEvents(events, cid);
    FilterAppend(IsEventOf(cid), DropMediationRecord(events, cid), MediationEvent(cid, false, reason));
  }

  // ---- what each fault does to its own id ----

  /** Dropping effects drops those and no entry; dropping all drops both. */
  lemma DropsExactly(ledger: seq<Row>, cid: Cid, r: Row)
    ensures multiset(DropEffectRecords(ledger, cid))[r]
      == if r.effectId.Some? && r.cid == cid then 0 else multiset(ledger)[r]
    ensures multiset(DropAllRecords(ledger, cid))[r] == if r.cid == cid then 0 else multiset(ledger)[r]
  {
    FilterCounts(NotEffectOf(cid), ledger, r);
    FilterCounts(NotOf(cid), ledger, r);
  }

  lemma EventDropsExactly(events: seq<MediationEvent>, cid: Cid, e: MediationEvent)
    ensures multiset(DropMediationRecord(events, cid))[e] == if e.cid == cid then 0 else multiset(events)[e]
  {
    FilterCounts(EventNotOf(cid), events, e);
  }

  /** Duplication keeps every row and appends one copy of each effect of the id, the same but for its effect id. */
  lemma DuplicatesExactly(ledger: seq<Row>, cid: Cid)
    ensures var out, mine := Duplicated(ledger, cid), EffectsOf(ledger, cid);
      && |out| == |ledger| + |mine| && out[..|ledger|] == ledger
      && forall i :: 0 <= i < |mine| ==>
        mine[i].effectId.Some? && out[|ledger| + i] == mine[i].(effectId := Some(mine[i].effectId.value + "-dup"))
  {
    EffectsCarryTheId(ledger, cid);
    var mine := EffectsOf(ledger, cid);
    forall i | 0 <= i < |mine|
      ensures mine[i].effectId.Some? && Duplicated(ledger, cid)[|ledger| + i] == Copied(mine[i])
    {
      assert mine[i] in mine;
      assert Map(Copied, mine)[i] == Copied(mine[i]);
    }
  }

  /** Injection keeps every row and appends the template under the id, as an effect of its own name. */
  lemma InjectsExactly(ledger: seq<Row>, template: Row, cid: Cid)
    ensures var out := Injected(ledger, template, cid);
      && |out| == |ledger| + 1 && out[..|ledger|] == ledger
      && var row := out[|ledger|];
        && row.cid == cid && row.effectId == Some("injected-by-g12-bypass-world")
        && row.(cid := template.cid, effectId := template.effectId) == template
  {
  }

  /** The swap leaves every row where it is, and changes no field but the id. */
  lemma SwapsExactly(ledger: seq<Row>, one: Cid, other: Cid, i: nat)
    requires i < |ledger|
    ensures var out := Swapped(ledger, one, other);
      && |out| == |ledger|
      && out[i].(cid := ledger[i].cid) == ledger[i]
      && (ledger[i].cid == one ==> out[i].cid == other)
      && (ledger[i].cid == other && one != other ==> out[i].cid == one)
      && (ledger[i].cid != one && ledger[i].cid != other ==> out[i].cid == ledger[i].cid)
  {
  }
}
