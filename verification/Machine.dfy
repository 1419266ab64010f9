/** Interleaved tool calls and the records they leave.
    A call runs its closure one effect at a time: decide and emit, record ingress, record effects.
    Calls carry distinct correlation ids and may interleave in any order; the two logs only grow. */
module Machine {
  import opened Wrappers
  import opened Sequences
  import opened Records
  import opened Closures
  import opened Oracle

  /** What `LedgerWriter.append` came to: the ledger process wrote the line and said so, wrote nothing,
      or wrote the line and died before the harness read the acknowledgement. */
  datatype Ack = Acked | Refused | AckLost

  /** What a tool stub hands the effector. */
  datatype Act = Act(effectId: string, action: string, resource: string, recipient: Option<string>, digest: string,
                     payload: Option<string>, labels: seq<string>)

  /** The world's answer at one step of a call. */
  datatype Choice =
    | Decide(admit: bool, reason: string)
    | DecideRaises
    | Enter(ts: int, ack: Ack)
    | Effect(act: Act, ack: Ack)
    | Return

  /** One call: the function it was dispatched to, what is left of it, and what it did so far. */
  datatype Thread = Thread(
    fn: Fn,
    digest: string,
    code: Fn,
    running: bool,
    decisions: seq<bool>,   // answers of the arm that were emitted
    entries: nat,           // ingress rows that reached the ledger
    acknowledged: nat,      // ingress rows the ledger process acknowledged
    attempts: nat,          // effector calls the body made
    effects: nat            // effect rows that reached the ledger
  )

  /** The instrument: the resource server it stands in front of, and its two logs. */
  datatype Plane = Plane(audience: string, events: seq<MediationEvent>, ledger: seq<Row>)

  datatype State = State(plane: Plane, threads: map<Cid, Thread>)

  datatype Label = Call(cid: Cid, fn: Fn, digest: string) | Do(cid: Cid, choice: Choice)

  function NewThread(fn: Fn, digest: string): Thread {
    Thread(fn, digest, fn, true, [], 0, 0, 0, 0)
  }

  function IngressRow(cid: Cid, tool: string, audience: string, digest: string, ts: int): Row {
    Row(cid, Some(ts), None, tool, audience, "", "", None, digest, "", None, [])
  }

  function EffectRow(cid: Cid, tool: string, audience: string, act: Act): Row {
    Row(cid, None, Some(act.effectId), tool, audience, act.action, act.resource, act.recipient, "", act.digest,
      act.payload, act.labels)
  }

  /** The ledger process refuses a line whose correlation id is empty, whatever else happens. */
  predicate Written(cid: Cid, ack: Ack) {
    cid != "" && !ack.Refused?
  }

  predicate Acknowledged(cid: Cid, ack: Ack) {
    cid != "" && ack.Acked?
  }

  function Appended(ledger: seq<Row>, row: Row, ack: Ack): seq<Row> {
    if Written(row.cid, ack) then ledger + [row] else ledger
  }

  function Count(written: bool): nat {
    if written then 1 else 0
  }

  /** One step of one call.  A choice the call is not waiting for changes nothing. */
  function Micro(p: Plane, cid: Cid, th: Thread, c: Choice): (Plane, Thread) {
    match (th.code, c)
    case (Mediated(_, inner), Decide(admit, reason)) =>
      (p.(events := p.events + [MediationEvent(cid, admit, reason)]),
       th.(decisions := th.decisions + [admit], code := inner, running := admit))
    case (Mediated(_, _), DecideRaises) =>
      (p, th.(running := false))
    case (Recorded(tool, inner), Enter(ts, ack)) =>
      var row := IngressRow(cid, tool, p.audience, th.digest, ts);
      (p.(ledger := Appended(p.ledger, row, ack)),
       th.(entries := th.entries + Count(Written(cid, ack)),
           acknowledged := th.acknowledged + Count(Acknowledged(cid, ack)),
           code := inner, running := Acknowledged(cid, ack)))
    case (Body(name), Effect(act, ack)) =>
      // a failed append raises inside the stub; what the stub does then is its own choice
      (p.(ledger := Appended(p.ledger, EffectRow(cid, name, p.audience, act), ack)),
       th.(attempts := th.attempts + 1, effects := th.effects + Count(Written(cid, ack))))
    case (Body(_), Return) =>
      (p, th.(running := false))
    case _ => (p, th)
  }

  function Step(s: State, l: Label): State {
    match l
    case Call(cid, fn, digest) =>
      if cid in s.threads then s else s.(threads := s.threads[cid := NewThread(fn, digest)])
    case Do(cid, c) =>
      if cid !in s.threads || !s.threads[cid].running then s
      else
        var (p, th) := Micro(s.plane, cid, s.threads[cid], c);
        State(p, s.threads[cid := th])
  }

  function Run(s: State, labels: seq<Label>): State
    decreases |labels|
  {
    if labels == [] then s else Run(Step(s, labels[0]), labels[1..])
  }

  function Start(audience: string): State {
    State(Plane(audience, [], []), map[])
  }

  // ---- what every step keeps: the logs hold exactly what the calls did ----

  ghost predicate EventsTally(events: seq<MediationEvent>, cid: Cid, decisions: seq<bool>) {
    var mine := EventsOf(events, cid);
    |mine| == |decisions| && forall i :: 0 <= i < |mine| ==> mine[i].admitted == decisions[i]
  }

  ghost predicate IngressTally(ledger: seq<Row>, cid: Cid, entries: nat, digest: string) {
    var mine := IngressOf(ledger, cid);
    |mine| == entries && forall i :: 0 <= i < |mine| ==> mine[i].ingressDigest == digest
  }

  ghost predicate EffectsTally(ledger: seq<Row>, cid: Cid, effects: nat, tool: string, audience: string) {
    var mine := EffectsOf(ledger, cid);
    |mine| == effects && forall i :: 0 <= i < |mine| ==> mine[i].tool == tool && mine[i].audience == audience
  }

  ghost predicate Tallied(p: Plane, cid: Cid, th: Thread) {
    && EventsTally(p.events, cid, th.decisions)
    && IngressTally(p.ledger, cid, th.entries, th.digest)
    && EffectsTally(p.ledger, cid, th.effects, BodyName(th.fn), p.audience)
    && BodyName(th.code) == BodyName(th.fn)
  }

  ghost predicate Silent(p: Plane, cid: Cid) {
    EventsOf(p.events, cid) == [] && IngressOf(p.ledger, cid) == [] && EffectsOf(p.ledger, cid) == []
  }

  /** How far a call got, from the shape of its function alone. */
  ghost predicate Accounted(th: Thread) {
    && (th.running ==>
          && |th.decisions| + MediationDepth(th.code) == MediationDepth(th.fn)
          && th.entries + RecordingDepth(th.code) == RecordingDepth(th.fn)
          && th.acknowledged == th.entries
          && (forall i :: 0 <= i < |th.decisions| ==> th.decisions[i]))
    && (!th.running ==> |th.decisions| <= MediationDepth(th.fn) && th.entries <= RecordingDepth(th.fn))
    && th.acknowledged <= th.entries && th.effects <= th.attempts
    && (forall i :: 0 <= i < |th.decisions| - 1 ==> th.decisions[i])
    && (th.attempts > 0 ==>
          && |th.decisions| == MediationDepth(th.fn)
          && th.acknowledged == RecordingDepth(th.fn)
          && th.code.Body?
          && (forall i :: 0 <= i < |th.decisions| ==> th.decisions[i]))
    && (th.running && |th.decisions| == 0 && th.fn.Mediated? ==> th.code == th.fn)
    && (th.fn.Mediated? && th.entries > 0 ==> |th.decisions| > 0 && th.decisions[0])
  }

  ghost predicate HonestAbout(s: State, cid: Cid) {
    if cid in s.threads then Tallied(s.plane, cid, s.threads[cid]) && Accounted(s.threads[cid])
    else Silent(s.plane, cid)
  }

  ghost predicate Honest(s: State) {
    forall cid :: HonestAbout(s, cid)
  }

  lemma AppendedRows(ledger: seq<Row>, row: Row, ack: Ack, cid: Cid)
    ensures var mine := Written(row.cid, ack) && row.cid == cid;
      && IngressOf(Appended(ledger, row, ack), cid)
           == IngressOf(ledger, cid) + (if mine && row.ingressTs.Some? then [row] else [])
      && EffectsOf(Appended(ledger, row, ack), cid)
           == EffectsOf(ledger, cid) + (if mine && row.effectId.Some? then [row] else [])
  {
    FilterAppend(IsIngressOf(cid), ledger, row);
    FilterAppend(IsEffectOf(cid), ledger, row);
  }

  lemma EventsTallyStep(events: seq<MediationEvent>, cid: Cid, decisions: seq<bool>, admit: bool, reason: string)
    requires EventsTally(events, cid, decisions)
    ensures EventsTally(events + [MediationEvent(cid, admit, reason)], cid, decisions + [admit])
  {
    FilterAppend(IsEventOf(cid), events, MediationEvent(cid, admit, reason));
  }

  lemma RowTallyStep(
    ledger: seq<Row>, row: Row, ack: Ack, entries: nat, digest: string, effects: nat, tool: string, audience: string)
    requires IngressTally(ledger, row.cid, entries, digest) && EffectsTally(ledger, row.cid, effects, tool, audience)
    requires row.ingressTs.Some? ==> row.ingressDigest == digest
    requires row.effectId.Some? ==> row.tool == tool && row.audience == audience
    ensures var n := Count(Written(row.cid, ack));
      && IngressTally(Appended(ledger, row, ack), row.cid, entries + (if row.ingressTs.Some? then n else 0), digest)
      && EffectsTally(
           Appended(ledger, row, ack), row.cid, effects + (if row.effectId.Some? then n else 0), tool, audience)
  {
    AppendedRows(ledger, row, ack, row.cid);
  }

  lemma MicroTallies(p: Plane, cid: Cid, th: Thread, c: Choice)
    requires Tallied(p, cid, th)
    ensures var (p', th') := Micro(p, cid, th, c); Tallied(p', cid, th')
  {
    match (th.code, c)
    case (Mediated(_, _), Decide(admit, reason)) =>
      EventsTallyStep(p.events, cid, th.decisions, admit, reason);
    case (Recorded(tool, _), Enter(ts, ack)) =>
      var row := IngressRow(cid, tool, p.audience, th.digest, ts);
      RowTallyStep(p.ledger, row, ack, th.entries, th.digest, th.effects, BodyName(th.fn), p.audience);
    case (Body(name), Effect(act, ack)) =>
      var row := EffectRow(cid, name, p.audience, act);
      RowTallyStep(p.ledger, row, ack, th.entries, th.digest, th.effects, BodyName(th.fn), p.audience);
    case _ =>
  }

  /** A step of one call leaves the records of every other id alone. */
  lemma MicroIsLocal(p: Plane, cid: Cid, th: Thread, c: Choice, other: Cid)
    requires cid != other
    ensures var p' := Micro(p, cid, th, c).0;
      && p'.audience == p.audience
      && EventsOf(p'.events, other) == EventsOf(p.events, other)
      && IngressOf(p'.ledger, other) == IngressOf(p.ledger, other)
      && EffectsOf(p'.ledger, other) == EffectsOf(p.ledger, other)
  {
    match (th.code, c)
    case (Mediated(_, _), Decide(admit, reason)) =>
      FilterAppend(IsEventOf(other), p.events, MediationEvent(cid, admit, reason));
    case (Recorded(tool, _), Enter(ts, ack)) =>
      AppendedRows(p.ledger, IngressRow(cid, tool, p.audience, th.digest, ts), ack, other);
    case (Body(name), Effect(act, ack)) =>
      AppendedRows(p.ledger, EffectRow(cid, name, p.audience, act), ack, other);
    case _ =>
  }

  lemma MicroAccounts(p: Plane, cid: Cid, th: Thread, c: Choice)
    requires Accounted(th) && th.running
    ensures Accounted(Micro(p, cid, th, c).1)
  {
  }

  lemma StepIsHonest(s: State, l: Label)
    requires Honest(s)
    ensures Honest(Step(s, l)) && Step(s, l).plane.audience == s.plane.audience
  {
    forall cid
      ensures HonestAbout(Step(s, l), cid)
    {
      StepIsHonestAbout(s, l, cid);
    }
  }

  lemma OwnStepIsHonest(s: State, cid: Cid, c: Choice)
    requires HonestAbout(s, cid) && cid in s.threads && s.threads[cid].running
    ensures HonestAbout(Step(s, Do(cid, c)), cid)
  {
    MicroTallies(s.plane, cid, s.threads[cid], c);
    MicroAccounts(s.plane, cid, s.threads[cid], c);
  }

  lemma OtherStepIsHonest(s: State, cid: Cid, c: Choice, other: Cid)
    requires HonestAbout(s, other) && cid in s.threads && s.threads[cid].running && cid != other
    ensures HonestAbout(Step(s, Do(cid, c)), other)
  {
    MicroIsLocal(s.plane, cid, s.threads[cid], c, other);
    var s' := Step(s, Do(cid, c));
    assert other in s'.threads <==> other in s.threads;
    assert other in s.threads ==> s'.threads[other] == s.threads[other];
  }

  lemma StepKeepsAudience(s: State, l: Label)
    ensures Step(s, l).plane.audience == s.plane.audience
  {
  }

  lemma StepIsHonestAbout(s: State, l: Label, cid: Cid)
    requires HonestAbout(s, cid)
    ensures HonestAbout(Step(s, l), cid) && Step(s, l).plane.audience == s.plane.audience
  {
    StepKeepsAudience(s, l);
    match l
    case Call(_, _, _) =>
    case Do(id, c) =>
      if id in s.threads && s.threads[id].running {
        if id == cid {
          OwnStepIsHonest(s, cid, c);
        } else {
          OtherStepIsHonest(s, id, c, cid);
        }
      }
  }

  lemma {:induction false} RunIsHonest(s: State, labels: seq<Label>)
    requires Honest(s)
    ensures Honest(Run(s, labels)) && Run(s, labels).plane.audience == s.plane.audience
    decreases |labels|
  {
    if labels != [] {
      StepIsHonest(s, labels[0]);
      RunIsHonest(Step(s, labels[0]), labels[1..]);
    }
  }

  lemma EveryReachableStateIsHonest(audience: string, labels: seq<Label>)
    ensures Honest(Run(Start(audience), labels)) && Run(Start(audience), labels).plane.audience == audience
  {
    RunIsHonest(Start(audience), labels);
  }

  // ---- what one step records, and what ends a call ----

  ghost predicate Waits(s: State, cid: Cid) {
    cid in s.threads && s.threads[cid].running
  }

  /** The records and the state of the call that another call's steps, and its own after it stopped, leave alone. */
  ghost predicate SameAbout(s: State, s': State, cid: Cid) {
    && cid in s.threads && cid in s'.threads && s'.threads[cid] == s.threads[cid]
    && EventsOf(s'.plane.events, cid) == EventsOf(s.plane.events, cid)
    && IngressOf(s'.plane.ledger, cid) == IngressOf(s.plane.ledger, cid)
    && EffectsOf(s'.plane.ledger, cid) == EffectsOf(s.plane.ledger, cid)
  }

  /** A call that has stopped does nothing more, whatever anyone does. */
  lemma {:induction false} StoppedForGood(s: State, labels: seq<Label>, cid: Cid)
    requires cid in s.threads && !s.threads[cid].running
    ensures SameAbout(s, Run(s, labels), cid)
    decreases |labels|
  {
    if labels != [] {
      var s' := Step(s, labels[0]);
      if labels[0].Do? && labels[0].cid != cid && Waits(s, labels[0].cid) {
        MicroIsLocal(s.plane, labels[0].cid, s.threads[labels[0].cid], labels[0].choice, cid);
      }
      assert SameAbout(s, s', cid);
      StoppedForGood(s', labels[1..], cid);
    }
  }

  /** What a call with this id left behind: its events, its ingress rows and its effect rows. */
  ghost predicate Leaves(s: State, cid: Cid, events: seq<MediationEvent>, entries: seq<Row>, effects: seq<Row>) {
    && EventsOf(s.plane.events, cid) == events
    && IngressOf(s.plane.ledger, cid) == entries
    && EffectsOf(s.plane.ledger, cid) == effects
  }

  ghost predicate LeavesForGood(s: State, cid: Cid, events: seq<MediationEvent>, entries: seq<Row>, effects: seq<Row>) {
    forall labels :: Leaves(Run(s, labels), cid, events, entries, effects)
  }

  lemma StoppedLeavesForGood(s: State, cid: Cid, events: seq<MediationEvent>, entries: seq<Row>, effects: seq<Row>)
    requires cid in s.threads && !s.threads[cid].running && Leaves(s, cid, events, entries, effects)
    ensures LeavesForGood(s, cid, events, entries, effects)
  {
    forall labels
      ensures Leaves(Run(s, labels), cid, events, entries, effects)
    {
      StoppedForGood(s, labels, cid);
    }
  }

  /** An arm that fails to answer ends the call without a record. */
  lemma ArmFailureIsFinal(s: State, cid: Cid)
    requires Waits(s, cid) && s.threads[cid].code.Mediated?
    ensures LeavesForGood(Step(s, Do(cid, DecideRaises)), cid, EventsOf(s.plane.events, cid),
                          IngressOf(s.plane.ledger, cid), EffectsOf(s.plane.ledger, cid))
  {
    var s' := Step(s, Do(cid, DecideRaises));
    assert s'.plane == s.plane && !s'.threads[cid].running;
    StoppedLeavesForGood(s', cid, EventsOf(s.plane.events, cid), IngressOf(s.plane.ledger, cid),
                         EffectsOf(s.plane.ledger, cid));
  }

  /** An answer is recorded as it was given: a denial ends the call there, an admission lets it on. */
  lemma AnswerIsRecorded(s: State, cid: Cid, admit: bool, reason: string)
    requires Waits(s, cid) && s.threads[cid].code.Mediated?
    ensures var s' := Step(s, Do(cid, Decide(admit, reason)));
      var events := EventsOf(s.plane.events, cid) + [MediationEvent(cid, admit, reason)];
      && Leaves(s', cid, events, IngressOf(s.plane.ledger, cid), EffectsOf(s.plane.ledger, cid))
      && (admit ==> Waits(s', cid) && s'.threads[cid].code == s.threads[cid].code.inner)
      && (!admit ==> LeavesForGood(s', cid, events, IngressOf(s.plane.ledger, cid), EffectsOf(s.plane.ledger, cid)))
  {
    var s' := Step(s, Do(cid, Decide(admit, reason)));
    var event := MediationEvent(cid, admit, reason);
    FilterAppend(IsEventOf(cid), s.plane.events, event);
    var events := EventsOf(s.plane.events, cid) + [event];
    if !admit {
      StoppedLeavesForGood(s', cid, events, IngressOf(s.plane.ledger, cid), EffectsOf(s.plane.ledger, cid));
    }
  }

  /** An entry is in the ledger unless it was refused or has no id, with the call's own tool, audience, digest and
      time.  Only an acknowledged one lets the call on. */
  lemma EntryIsRecorded(s: State, cid: Cid, ts: int, ack: Ack)
    requires Waits(s, cid) && s.threads[cid].code.Recorded?
    ensures var s' := Step(s, Do(cid, Enter(ts, ack)));
      var events, effects := EventsOf(s.plane.events, cid), EffectsOf(s.plane.ledger, cid);
      var entries := IngressOf(s'.plane.ledger, cid);
      && Leaves(s', cid, events, entries, effects)
      && (cid == "" || ack == Refused ==> entries == IngressOf(s.plane.ledger, cid))
      && (cid != "" && ack != Refused ==>
            && |entries| == |IngressOf(s.plane.ledger, cid)| + 1
            && entries[..|entries| - 1] == IngressOf(s.plane.ledger, cid)
            && var row := entries[|entries| - 1];
              && row.cid == cid && row.ingressTs == Some(ts) && row.effectId == None
              && row.tool == s.threads[cid].code.tool && row.audience == s.plane.audience
              && row.ingressDigest == s.threads[cid].digest)
      && (cid != "" && ack == Acked ==> Waits(s', cid) && s'.threads[cid].code == s.threads[cid].code.inner)
      && (cid == "" || ack != Acked ==> LeavesForGood(s', cid, events, entries, effects))
  {
    var s' := Step(s, Do(cid, Enter(ts, ack)));
    var th := s.threads[cid];
    var row := IngressRow(cid, th.code.tool, s.plane.audience, th.digest, ts);
    AppendedRows(s.plane.ledger, row, ack, cid);
    if cid == "" || ack != Acked {
      StoppedLeavesForGood(s', cid, EventsOf(s.plane.events, cid), IngressOf(s'.plane.ledger, cid),
                           EffectsOf(s.plane.ledger, cid));
    }
  }

  /** An act is in the ledger unless it was refused or has no id, with everything the stub said of it. */
  lemma ActIsRecorded(s: State, cid: Cid, act: Act, ack: Ack)
    requires Waits(s, cid) && s.threads[cid].code.Body?
    ensures var s' := Step(s, Do(cid, Effect(act, ack)));
      var effects := EffectsOf(s'.plane.ledger, cid);
      && Waits(s', cid) && s'.threads[cid].code == s.threads[cid].code
      && Leaves(s', cid, EventsOf(s.plane.events, cid), IngressOf(s.plane.ledger, cid), effects)
      && (cid == "" || ack == Refused ==> effects == EffectsOf(s.plane.ledger, cid))
      && (cid != "" && ack != Refused ==>
            && |effects| == |EffectsOf(s.plane.ledger, cid)| + 1
            && effects[..|effects| - 1] == EffectsOf(s.plane.ledger, cid)
            && SaysOf(effects[|effects| - 1], cid, s.threads[cid].code.name, s.plane.audience, act))
  {
    AppendedRows(s.plane.ledger, EffectRow(cid, s.threads[cid].code.name, s.plane.audience, act), ack, cid);
  }

  predicate SaysOf(row: Row, cid: Cid, tool: string, audience: string, act: Act) {
    && row.cid == cid && row.ingressTs == None && row.effectId == Some(act.effectId)
    && row.tool == tool && row.audience == audience
    && row.action == act.action && row.resource == act.resource && row.recipient == act.recipient
    && row.effectDigest == act.digest && row.effectPayload == act.payload && row.labels == act.labels
  }

  /** A stub that returns ends the call. */
  lemma ReturnIsFinal(s: State, cid: Cid)
    requires Waits(s, cid) && s.threads[cid].code.Body?
    ensures LeavesForGood(Step(s, Do(cid, Return)), cid, EventsOf(s.plane.events, cid),
                          IngressOf(s.plane.ledger, cid), EffectsOf(s.plane.ledger, cid))
  {
    var s' := Step(s, Do(cid, Return));
    assert s'.plane == s.plane && !s'.threads[cid].running;
    StoppedLeavesForGood(s', cid, EventsOf(s.plane.events, cid), IngressOf(s.plane.ledger, cid),
                         EffectsOf(s.plane.ledger, cid));
  }

  /** A call starts at the outermost wrapper with nothing done; an id is never used twice. */
  lemma CallStarts(s: State, cid: Cid, fn: Fn, digest: string)
    ensures var s' := Step(s, Call(cid, fn, digest));
      && s'.plane == s.plane
      && (cid in s.threads ==> s' == s)
      && (cid !in s.threads ==>
            && Waits(s', cid) && s'.threads[cid].fn == s'.threads[cid].code == fn && s'.threads[cid].digest == digest
            && s'.threads[cid].decisions == [] && s'.threads[cid].entries == s'.threads[cid].acknowledged == 0
            && s'.threads[cid].attempts == s'.threads[cid].effects == 0)
  {
  }

  /** No row without an id ever gets in. */
  lemma {:induction false} RowsCarryAnId(s: State, labels: seq<Label>)
    requires forall r :: r in s.plane.ledger ==> r.cid != ""
    ensures forall r :: r in Run(s, labels).plane.ledger ==> r.cid != ""
    decreases |labels|
  {
    if labels != [] {
      RowsCarryAnId(Step(s, labels[0]), labels[1..]);
    }
  }
}
