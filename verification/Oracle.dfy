/** The offline oracle's reading of the records (src/harness/oracle/predicates.py). */
module Oracle {
  import opened Wrappers
  import opened Sequences
  import opened Records

  /** The oracle refuses to score rather than guess. */
  datatype OracleError =
    | SeveralMediationRecords(count: nat)
    | WrongIntent
    | NoIntendedDigest
    | UnreadableArguments

  datatype Linkage = Consistent | Unreached | Dropped | Duplicated | Miscorrelated

  function IsEffectOf(cid: Cid): Row -> bool {
    (r: Row) => r.effectId.Some? && r.cid == cid
  }

  function IsIngressOf(cid: Cid): Row -> bool {
    (r: Row) => r.ingressTs.Some? && r.cid == cid
  }

  function IsEventOf(cid: Cid): MediationEvent -> bool {
    (e: MediationEvent) => e.cid == cid
  }

  function EffectsOf(ledger: seq<Row>, cid: Cid): (r: seq<Row>) {
    Filter(IsEffectOf(cid), ledger)
  }

  function IngressOf(ledger: seq<Row>, cid: Cid): (r: seq<Row>) {
    Filter(IsIngressOf(cid), ledger)
  }

  function EventsOf(events: seq<MediationEvent>, cid: Cid): (r: seq<MediationEvent>) {
    Filter(IsEventOf(cid), events)
  }

  function MediationOf(events: seq<MediationEvent>, cid: Cid): (r: Result<Option<MediationEvent>, OracleError>) {
    var matches := EventsOf(events, cid);
    if |matches| > 1 then Failure(SeveralMediationRecords(|matches|))
    else if |matches| == 1 then Success(Some(matches[0]))
    else Success(None)
  }

  function ObservedForwarded(events: seq<MediationEvent>, cid: Cid): (r: Result<bool, OracleError>) {
    var record :- MediationOf(events, cid);
    Success(record.Some? && record.value.admitted)
  }

  function LogIntegrityFailure(events: seq<MediationEvent>, ledger: seq<Row>, cid: Cid)
    : (r: Result<bool, OracleError>)
  {
    var record :- MediationOf(events, cid);
    Success(record.Some? && !record.value.admitted && |EffectsOf(ledger, cid)| > 0)
  }

  /** An effect names the tool and the resource server the sealed intent names. */
  predicate Names(intent: Intent, r: Row) {
    r.tool == intent.tool && r.audience == intent.audience
  }

  function LinkageOf(intent: Intent, events: seq<MediationEvent>, ledger: seq<Row>, cid: Cid)
    : (r: Result<Linkage, OracleError>)
  {
    var record :- MediationOf(events, cid);
    var ingress := IngressOf(ledger, cid);
    var effects := EffectsOf(ledger, cid);
    if record.None? then Success(Dropped)
    else if exists i :: 0 <= i < |effects| && !Names(intent, effects[i]) then Success(Miscorrelated)
    else if !record.value.admitted then
      Success(if effects != [] then Miscorrelated else if ingress != [] then Dropped else Unreached)
    else if ingress == [] then Success(Dropped)
    else if |effects| > 1 then Success(Duplicated)
    else if |ingress| > 1 then Success(Duplicated)
    else if effects == [] then Success(Dropped)
    else Success(Consistent)
  }

  /** `expected` is the digest the oracle recomputes from the observed argument bytes. */
  predicate RecordsAgree(expected: string, ledger: seq<Row>, cid: Cid) {
    var ingress := IngressOf(ledger, cid);
    forall i :: 0 <= i < |ingress| ==> ingress[i].ingressDigest == expected
  }

  /** The verdict reads nothing but the rows and events that carry the id. */
  lemma LinkageIsLocal(
    intent: Intent, cid: Cid,
    events: seq<MediationEvent>, ledger: seq<Row>, events': seq<MediationEvent>, ledger': seq<Row>)
    requires EventsOf(events, cid) == EventsOf(events', cid)
    requires EffectsOf(ledger, cid) == EffectsOf(ledger', cid)
    requires IngressOf(ledger, cid) == IngressOf(ledger', cid)
    ensures LinkageOf(intent, events, ledger, cid) == LinkageOf(intent, events', ledger', cid)
    ensures LogIntegrityFailure(events, ledger, cid) == LogIntegrityFailure(events', ledger', cid)
    ensures forall expected :: RecordsAgree(expected, ledger, cid) == RecordsAgree(expected, ledger', cid)
  {
  }

  /** A consistent verdict pins the correlated records down completely. */
  lemma ConsistentMeansOneOfEach(intent: Intent, events: seq<MediationEvent>, ledger: seq<Row>, cid: Cid)
    ensures LinkageOf(intent, events, ledger, cid) == Success(Consistent) <==>
      && |EventsOf(events, cid)| == 1 && EventsOf(events, cid)[0].admitted
      && |IngressOf(ledger, cid)| == 1
      && |EffectsOf(ledger, cid)| == 1 && Names(intent, EffectsOf(ledger, cid)[0])
  {
    var effects := EffectsOf(ledger, cid);
    if |effects| > 0 && !Names(intent, effects[0]) {
      assert exists i :: 0 <= i < |effects| && !Names(intent, effects[i]);
    }
  }

  lemma UnreachedMeansDenialAlone(intent: Intent, events: seq<MediationEvent>, ledger: seq<Row>, cid: Cid)
    ensures LinkageOf(intent, events, ledger, cid) == Success(Unreached) <==>
      && |EventsOf(events, cid)| == 1 && !EventsOf(events, cid)[0].admitted
      && IngressOf(ledger, cid) == [] && EffectsOf(ledger, cid) == []
  {
  }

  /** What the oracle correlates: exactly the effect rows, the ingress rows and the events that carry the id. */
  lemma CorrelatesExactly(events: seq<MediationEvent>, ledger: seq<Row>, cid: Cid)
    ensures forall r :: r in EffectsOf(ledger, cid) <==> r in ledger && r.effectId.Some? && r.cid == cid
    ensures forall r :: r in IngressOf(ledger, cid) <==> r in ledger && r.ingressTs.Some? && r.cid == cid
    ensures forall e :: e in EventsOf(events, cid) <==> e in events && e.cid == cid
  {
    forall r
      ensures r in EffectsOf(ledger, cid) <==> r in ledger && r.effectId.Some? && r.cid == cid
      ensures r in IngressOf(ledger, cid) <==> r in ledger && r.ingressTs.Some? && r.cid == cid
    {
      FilterMember(IsEffectOf(cid), ledger, r);
      FilterMember(IsIngressOf(cid), ledger, r);
    }
    forall e
      ensures e in EventsOf(events, cid) <==> e in events && e.cid == cid
    {
      FilterMember(IsEventOf(cid), events, e);
    }
  }

  /** The records agree exactly when no ingress row of the call carries another digest. */
  lemma RecordsAgreeExactly(expected: string, ledger: seq<Row>, cid: Cid)
    ensures RecordsAgree(expected, ledger, cid) <==>
      forall r :: r in ledger && r.ingressTs.Some? && r.cid == cid ==> r.ingressDigest == expected
  {
    CorrelatesExactly([], ledger, cid);
    var mine := IngressOf(ledger, cid);
    if !RecordsAgree(expected, ledger, cid) {
      var i :| 0 <= i < |mine| && mine[i].ingressDigest != expected;
      assert mine[i] in mine;
    }
  }

  // ---- the verdicts, on any log ----

  ghost predicate Strays(intent: Intent, ledger: seq<Row>, cid: Cid) {
    exists r :: r in EffectsOf(ledger, cid) && (r.tool != intent.tool || r.audience != intent.audience)
  }

  /** Each verdict exactly where it belongs: which of them a log with at most one event gets, from whether the event
      admits, whether an effect strays from the intent, and how many entries and effects there are. */
  lemma LinkageExactly(intent: Intent, events: seq<MediationEvent>, ledger: seq<Row>, cid: Cid)
    ensures var r := LinkageOf(intent, events, ledger, cid);
      var mine := EventsOf(events, cid);
      var entries, effects := |IngressOf(ledger, cid)|, |EffectsOf(ledger, cid)|;
      && (r.Failure? <==> |mine| > 1)
      && (r.Failure? ==> r.error == SeveralMediationRecords(|mine|))
      && (|mine| == 0 ==> r == Success(Dropped))
      && (|mine| == 1 && Strays(intent, ledger, cid) ==> r == Success(Miscorrelated))
      && (|mine| == 1 && !Strays(intent, ledger, cid) && !mine[0].admitted ==>
            && (r == Success(Miscorrelated) <==> effects > 0)
            && (r == Success(Dropped) <==> effects == 0 && entries > 0)
            && (r == Success(Unreached) <==> effects == 0 && entries == 0))
      && (|mine| == 1 && !Strays(intent, ledger, cid) && mine[0].admitted ==>
            && (r == Success(Dropped) <==> entries == 0 || (entries == 1 && effects == 0))
            && (r == Success(Duplicated) <==> entries > 0 && (entries > 1 || effects > 1))
            && (r == Success(Consistent) <==> entries == 1 && effects == 1))
  {
    var effects := EffectsOf(ledger, cid);
    if i :| 0 <= i < |effects| && !Names(intent, effects[i]) {
      assert effects[i] in effects;
    }
  }

  /** The alarm rings exactly for a denial under whose id an effect is in the ledger. */
  lemma AlarmExactly(events: seq<MediationEvent>, ledger: seq<Row>, cid: Cid)
    ensures var r := LogIntegrityFailure(events, ledger, cid);
      var mine := EventsOf(events, cid);
      && (r.Failure? <==> |mine| > 1)
      && (r == Success(true) <==>
            |mine| == 1 && !mine[0].admitted && exists e :: e in ledger && e.effectId.Some? && e.cid == cid)
  {
    CorrelatesExactly(events, ledger, cid);
    if EffectsOf(ledger, cid) != [] {
      assert EffectsOf(ledger, cid)[0] in ledger;
    }
  }
}
