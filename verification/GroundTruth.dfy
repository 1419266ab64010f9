/** What the oracle says against what happened, over every interleaving of calls. */
module GroundTruth {
  import opened Wrappers
  import opened Sequences
  import opened Records
  import opened Closures
  import opened Oracle
  import opened Machine

  /** What happened to one call, told from its own execution and not from any log. */
  function WhatHappened(th: Thread, intent: Intent, audience: string): Linkage {
    if th.decisions == [] then Dropped           // the boundary never recorded an answer
    else if !th.decisions[0] then Unreached      // denied
    else if th.effects > 0 && (BodyName(th.fn) != intent.tool || audience != intent.audience) then Miscorrelated
    else if th.entries == 0 then Dropped         // admitted, and its entry never reached the ledger
    else if th.effects == 0 then Dropped
    else if th.effects == 1 then Consistent
    else Duplicated
  }

  lemma TalliedVerdict(p: Plane, cid: Cid, th: Thread, intent: Intent)
    requires Tallied(p, cid, th) && Accounted(th) && WellWired(th.fn)
    ensures LinkageOf(intent, p.events, p.ledger, cid) == Success(WhatHappened(th, intent, p.audience))
    ensures LogIntegrityFailure(p.events, p.ledger, cid) == Success(false)
  {
    WiredDepths(th.fn);
    var effects := EffectsOf(p.ledger, cid);
    if th.effects > 0 {
      assert Names(intent, effects[0]) <==> BodyName(th.fn) == intent.tool && p.audience == intent.audience;
    }
  }

  lemma WiredDepths(fn: Fn)
    requires WellWired(fn)
    ensures MediationDepth(fn) == 1 && RecordingDepth(fn) == 1
  {
    assert MediationDepth(fn.inner.inner) == 0 && RecordingDepth(fn.inner.inner) == 0;
    assert MediationDepth(fn.inner) == 0 && RecordingDepth(fn.inner) == 1;
  }

  /** For every interleaving, at every moment, the verdict on a correctly wired call is what happened to
      it, and the log-integrity alarm stays silent. */
  lemma OracleTellsTheTruth(audience: string, labels: seq<Label>, cid: Cid, intent: Intent)
    requires cid in Run(Start(audience), labels).threads
    requires WellWired(Run(Start(audience), labels).threads[cid].fn)
    ensures var s := Run(Start(audience), labels);
      && LinkageOf(intent, s.plane.events, s.plane.ledger, cid)
           == Success(WhatHappened(s.threads[cid], intent, audience))
      && LogIntegrityFailure(s.plane.events, s.plane.ledger, cid) == Success(false)
  {
    EveryReachableStateIsHonest(audience, labels);
    var s := Run(Start(audience), labels);
    assert HonestAbout(s, cid);
    TalliedVerdict(s.plane, cid, s.threads[cid], intent);
  }

  /** The four outcomes, when the tool called is the tool the intent names: each verdict identifies one. */
  lemma VerdictsIdentifyOutcomes(audience: string, labels: seq<Label>, cid: Cid, intent: Intent)
    requires cid in Run(Start(audience), labels).threads
    requires var th := Run(Start(audience), labels).threads[cid];
      WellWired(th.fn) && BodyName(th.fn) == intent.tool && audience == intent.audience
    ensures var s := Run(Start(audience), labels);
      var th := s.threads[cid];
      var admitted := th.decisions == [true];
      var verdict := LinkageOf(intent, s.plane.events, s.plane.ledger, cid);
      && (verdict == Success(Unreached) <==> th.decisions == [false])
      && (verdict == Success(Consistent) <==> admitted && th.effects == 1)
      && (verdict == Success(Duplicated) <==> admitted && th.effects >= 2)
      && (verdict == Success(Dropped) <==> th.decisions == [] || (admitted && th.effects == 0))
      && verdict != Success(Miscorrelated)
  {
    OracleTellsTheTruth(audience, labels, cid, intent);
    EveryReachableStateIsHonest(audience, labels);
    assert HonestAbout(Run(Start(audience), labels), cid);
    WiredDepths(Run(Start(audience), labels).threads[cid].fn);
  }

  /** An id that no call carries is reported as a missing record, never as a quiet success. */
  lemma UnknownIdIsDropped(audience: string, labels: seq<Label>, cid: Cid, intent: Intent)
    requires cid !in Run(Start(audience), labels).threads
    ensures var s := Run(Start(audience), labels);
      LinkageOf(intent, s.plane.events, s.plane.ledger, cid) == Success(Dropped)
  {
    EveryReachableStateIsHonest(audience, labels);
    assert HonestAbout(Run(Start(audience), labels), cid);
  }

  /** Whatever the wiring, a consistent verdict proves it: the call passed exactly one boundary and one
      recorder. */
  lemma ConsistentCertifiesTheWiring(audience: string, labels: seq<Label>, cid: Cid, intent: Intent)
    requires var s := Run(Start(audience), labels);
      LinkageOf(intent, s.plane.events, s.plane.ledger, cid) == Success(Consistent)
    ensures var s := Run(Start(audience), labels);
      && cid in s.threads
      && MediationDepth(s.threads[cid].fn) == 1 && RecordingDepth(s.threads[cid].fn) == 1
      && s.threads[cid].effects == 1
  {
    EveryReachableStateIsHonest(audience, labels);
    var s := Run(Start(audience), labels);
    ConsistentMeansOneOfEach(intent, s.plane.events, s.plane.ledger, cid);
    assert HonestAbout(s, cid);
  }

  /** A tool registered after the boundary went in is mediated but not recorded.  Admitted and acted, it
      is never scored consistent: the recorder is not reached by construction after all. */
  lemma LateRegistrationReadsAsDropped(audience: string, labels: seq<Label>, cid: Cid, intent: Intent)
    requires cid in Run(Start(audience), labels).threads
    requires var th := Run(Start(audience), labels).threads[cid];
      && th.fn.Mediated? && th.fn.inner.Body?
      && BodyName(th.fn) == intent.tool && audience == intent.audience
    ensures var s := Run(Start(audience), labels);
      LinkageOf(intent, s.plane.events, s.plane.ledger, cid)
        == Success(if s.threads[cid].decisions == [false] then Unreached else Dropped)
  {
    EveryReachableStateIsHonest(audience, labels);
    assert HonestAbout(Run(Start(audience), labels), cid);
    var fn := Run(Start(audience), labels).threads[cid].fn;
    assert MediationDepth(fn.inner) == 0 && RecordingDepth(fn.inner) == 0;
    assert MediationDepth(fn) == 1 && RecordingDepth(fn) == 0;
  }

  // ---- order of the records ----

  /** Each effect row follows an ingress row with its id, and an admitted event with that id exists. */
  ghost predicate Ordered(p: Plane) {
    forall j :: 0 <= j < |p.ledger| && p.ledger[j].effectId.Some? ==>
      && Entered(p.ledger, j, p.ledger[j].cid)
      && Admitted(p.events, p.ledger[j].cid)
  }

  ghost predicate Admitted(events: seq<MediationEvent>, cid: Cid) {
    exists e :: e in events && e.cid == cid && e.admitted
  }

  ghost predicate EntriesFollowAdmission(p: Plane) {
    forall j :: 0 <= j < |p.ledger| ==> Admitted(p.events, p.ledger[j].cid)
  }

  ghost predicate AllWired(s: State) {
    forall cid :: cid in s.threads ==> WellWired(s.threads[cid].fn)
  }

  predicate CallsAreWired(labels: seq<Label>) {
    forall i :: 0 <= i < |labels| && labels[i].Call? ==> WellWired(labels[i].fn)
  }

  lemma EventKeepsOrder(p: Plane, e: MediationEvent)
    requires Ordered(p) && EntriesFollowAdmission(p)
    ensures var p' := p.(events := p.events + [e]); Ordered(p') && EntriesFollowAdmission(p')
  {
    assert forall cid :: Admitted(p.events, cid) ==> Admitted(p.events + [e], cid);
  }

  ghost predicate Entered(ledger: seq<Row>, n: nat, cid: Cid)
    requires n <= |ledger|
  {
    exists i :: 0 <= i < n && ledger[i].ingressTs.Some? && ledger[i].cid == cid
  }

  lemma RowKeepsOrder(p: Plane, row: Row)
    requires Ordered(p) && EntriesFollowAdmission(p)
    requires Admitted(p.events, row.cid)
    requires row.effectId.Some? ==> Entered(p.ledger, |p.ledger|, row.cid)
    ensures var p' := p.(ledger := p.ledger + [row]); Ordered(p') && EntriesFollowAdmission(p')
  {
    var ledger' := p.ledger + [row];
    forall j | 0 <= j < |ledger'| && ledger'[j].effectId.Some?
      ensures Entered(ledger', j, ledger'[j].cid)
    {
      assert Entered(p.ledger, j, ledger'[j].cid);
      var i :| 0 <= i < j && p.ledger[i].ingressTs.Some? && p.ledger[i].cid == ledger'[j].cid;
      assert ledger'[i] == p.ledger[i];
    }
  }

  lemma AdmittedThread(p: Plane, cid: Cid, th: Thread)
    requires Tallied(p, cid, th) && Accounted(th) && WellWired(th.fn) && th.running && th.code != th.fn
    ensures Admitted(p.events, cid)
    ensures th.code.Body? ==> Entered(p.ledger, |p.ledger|, cid)
  {
    WiredDepths(th.fn);
    var e := EventsOf(p.events, cid)[0];
    FilterMember(IsEventOf(cid), p.events, e);
    if th.code.Body? {
      assert RecordingDepth(th.code) == 0;
      var r := IngressOf(p.ledger, cid)[0];
      FilterMember(IsIngressOf(cid), p.ledger, r);
    }
  }

  lemma MicroKeepsOrder(p: Plane, cid: Cid, th: Thread, c: Choice)
    requires Ordered(p) && EntriesFollowAdmission(p)
    requires Tallied(p, cid, th) && Accounted(th) && WellWired(th.fn) && th.running
    ensures var p' := Micro(p, cid, th, c).0; Ordered(p') && EntriesFollowAdmission(p')
  {
    if th.code != th.fn {
      AdmittedThread(p, cid, th);
    }
    match (th.code, c)
    case (Mediated(_, _), Decide(admit, reason)) =>
      EventKeepsOrder(p, MediationEvent(cid, admit, reason));
    case (Recorded(tool, _), Enter(ts, ack)) =>
      RowKeepsOrder(p, IngressRow(cid, tool, p.audience, th.digest, ts));
    case (Body(name), Effect(act, ack)) =>
      RowKeepsOrder(p, EffectRow(cid, name, p.audience, act));
    case _ =>
  }

  lemma StepKeepsOrder(s: State, l: Label)
    requires Honest(s) && AllWired(s) && Ordered(s.plane) && EntriesFollowAdmission(s.plane)
    requires l.Call? ==> WellWired(l.fn)
    ensures AllWired(Step(s, l)) && Ordered(Step(s, l).plane) && EntriesFollowAdmission(Step(s, l).plane)
  {
    if l.Do? && l.cid in s.threads && s.threads[l.cid].running {
      assert HonestAbout(s, l.cid);
      MicroKeepsOrder(s.plane, l.cid, s.threads[l.cid], l.choice);
    }
  }

  lemma {:induction false} RunKeepsOrder(s: State, labels: seq<Label>)
    requires Honest(s) && AllWired(s) && Ordered(s.plane) && EntriesFollowAdmission(s.plane) && CallsAreWired(labels)
    ensures Ordered(Run(s, labels).plane) && EntriesFollowAdmission(Run(s, labels).plane)
    decreases |labels|
  {
    if labels != [] {
      StepIsHonest(s, labels[0]);
      StepKeepsOrder(s, labels[0]);
      RunKeepsOrder(Step(s, labels[0]), labels[1..]);
    }
  }

  /** Nothing reaches the ledger before the boundary admitted it, and no effect row precedes the entry of
      its own call. */
  lemma RecordsComeInOrder(audience: string, labels: seq<Label>)
    requires CallsAreWired(labels)
    ensures Ordered(Run(Start(audience), labels).plane)
    ensures EntriesFollowAdmission(Run(Start(audience), labels).plane)
  {
    RunKeepsOrder(Start(audience), labels);
  }

  /** The logs are append-only: an earlier state's logs are prefixes of a later one's. */
  lemma {:induction false} LogsOnlyGrow(s: State, labels: seq<Label>)
    ensures s.plane.events <= Run(s, labels).plane.events
    ensures s.plane.ledger <= Run(s, labels).plane.ledger
    decreases |labels|
  {
    if labels != [] {
      LogsOnlyGrow(Step(s, labels[0]), labels[1..]);
    }
  }

  /** On every run the records of a call agree with a digest exactly when no entry of it reached the ledger or it
      was made with that digest. */
  lemma RecordsAgreeOnRuns(audience: string, labels: seq<Label>, cid: Cid, expected: string)
    requires cid in Run(Start(audience), labels).threads
    ensures var s := Run(Start(audience), labels);
      RecordsAgree(expected, s.plane.ledger, cid) <==> s.threads[cid].entries == 0 || s.threads[cid].digest == expected
  {
    EveryReachableStateIsHonest(audience, labels);
    var s := Run(Start(audience), labels);
    assert HonestAbout(s, cid);
    var mine := IngressOf(s.plane.ledger, cid);
    if s.threads[cid].entries > 0 {
      assert mine[0].ingressDigest == s.threads[cid].digest;
    }
  }
}
