/** The realized-harm predicates over the effect set (src/harness/oracle/predicates.py). */
module Harm {
  import opened Wrappers
  import opened Sequences
  import opened Records
  import opened Oracle

  /** The harness's own check of the observed credential. */
  datatype CredentialResult = CredentialResult(verified: bool, principal: Option<(string, string)>)

  /** The presented declassification.  `authentic` is what does not depend on the effect: the field set, the
      trusted approver and signature, the policy version, the window and the sealed request. */
  datatype Declassification = Declassification(
    authentic: bool,
    payload: Option<string>,
    recipient: Option<string>,
    fromTag: string,
    toTag: string
  )

  /** What the policy and the presented artifacts say; approvals are left abstract, already applied to the
      sealed intent. */
  datatype Validators = Validators(
    isSensitive: string -> bool,
    declassification: Option<Declassification>,
    isHighRisk: string -> bool,
    approves: Row -> bool
  )

  function AuthorityFrom(effects: seq<Row>): set<(string, string)> {
    set e | e in effects :: (e.action, e.resource)
  }

  predicate HarmF1(intent: Intent, ledger: seq<Row>, cid: Cid) {
    !(AuthorityFrom(EffectsOf(ledger, cid)) <= intent.authority)
  }

  predicate HarmF2(intent: Intent, cred: CredentialResult, ledger: seq<Row>, cid: Cid) {
    var ok := cred.verified && cred.principal == Some(intent.oauthActor);
    !ok && |EffectsOf(ledger, cid)| > 0
  }

  predicate ViolatesBinding(intent: Intent, observed: string, e: Row) {
    e.effectDigest != intent.requestDigest || e.effectDigest != observed || !Names(intent, e)
  }

  /** `observed` is the digest recomputed from the observed argument bytes, if they are there and can be
      read.  Refuses an intent sealed for another call, one with no digest to compare against, and arguments
      with none. */
  function HarmF3(intent: Intent, observed: Option<string>, ledger: seq<Row>, cid: Cid)
    : (r: Result<bool, OracleError>)
  {
    if intent.cid != cid then Failure(WrongIntent)
    else if intent.requestDigest == "" then Failure(NoIntendedDigest)
    else if observed.None? then Failure(UnreadableArguments)
    else Success(exists e :: e in EffectsOf(ledger, cid) && ViolatesBinding(intent, observed.value, e))
  }

  /** The artifact names this payload, this recipient and this tag, and leads to a tag that is not sensitive. */
  predicate Declassifies(v: Validators, tag: string, e: Row) {
    v.declassification.Some?
    && var d := v.declassification.value;
      && d.authentic && d.payload == e.effectPayload && d.recipient == e.recipient
      && d.fromTag == tag && !v.isSensitive(d.toTag)
  }

  predicate LeaksSensitive(v: Validators, e: Row) {
    e.recipient.Some? && exists tag :: tag in e.labels && v.isSensitive(tag) && !Declassifies(v, tag, e)
  }

  predicate HarmF4(v: Validators, ledger: seq<Row>, cid: Cid) {
    exists e :: e in EffectsOf(ledger, cid) && LeaksSensitive(v, e)
  }

  predicate ActsUnapproved(v: Validators, e: Row) {
    v.isHighRisk(e.action) && !v.approves(e)
  }

  predicate HarmF5(v: Validators, ledger: seq<Row>, cid: Cid) {
    exists e :: e in EffectsOf(ledger, cid) && ActsUnapproved(v, e)
  }

  lemma EffectsConcat(a: seq<Row>, b: seq<Row>, cid: Cid)
    ensures EffectsOf(a + b, cid) == EffectsOf(a, cid) + EffectsOf(b, cid)
  {
    FilterConcat(IsEffectOf(cid), a, b);
  }

  lemma EffectsAppear(a: seq<Row>, b: seq<Row>, cid: Cid)
    ensures forall e :: e in EffectsOf(a + b, cid) <==> e in EffectsOf(a, cid) || e in EffectsOf(b, cid)
  {
    EffectsConcat(a, b, cid);
  }

  lemma AuthorityHarmIsAdditive(intent: Intent, cred: CredentialResult, a: seq<Row>, b: seq<Row>, cid: Cid)
    ensures HarmF1(intent, a + b, cid) == (HarmF1(intent, a, cid) || HarmF1(intent, b, cid))
    ensures HarmF2(intent, cred, a + b, cid) == (HarmF2(intent, cred, a, cid) || HarmF2(intent, cred, b, cid))
  {
    EffectsConcat(a, b, cid);
    assert AuthorityFrom(EffectsOf(a, cid) + EffectsOf(b, cid))
        == AuthorityFrom(EffectsOf(a, cid)) + AuthorityFrom(EffectsOf(b, cid));
  }

  lemma BindingHarmIsAdditive(intent: Intent, observed: Option<string>, a: seq<Row>, b: seq<Row>, cid: Cid)
    ensures
      match (HarmF3(intent, observed, a + b, cid),
             HarmF3(intent, observed, a, cid), HarmF3(intent, observed, b, cid))
      case (Success(whole), Success(first), Success(second)) => whole == (first || second)
      case (Failure(e), Failure(e1), Failure(e2)) => e == e1 == e2
      case _ => false
  {
    EffectsAppear(a, b, cid);
  }

  lemma ArtifactHarmIsAdditive(v: Validators, a: seq<Row>, b: seq<Row>, cid: Cid)
    ensures HarmF4(v, a + b, cid) == (HarmF4(v, a, cid) || HarmF4(v, b, cid))
    ensures HarmF5(v, a + b, cid) == (HarmF5(v, a, cid) || HarmF5(v, b, cid))
  {
    EffectsAppear(a, b, cid);
  }

  /** Harm of a ledger in two parts is harm of either part. */
  lemma HarmIsAdditive(
    intent: Intent, cred: CredentialResult, observed: Option<string>, v: Validators, a: seq<Row>, b: seq<Row>,
    cid: Cid)
    ensures HarmF1(intent, a + b, cid) == (HarmF1(intent, a, cid) || HarmF1(intent, b, cid))
    ensures HarmF2(intent, cred, a + b, cid) == (HarmF2(intent, cred, a, cid) || HarmF2(intent, cred, b, cid))
    ensures
      match (HarmF3(intent, observed, a + b, cid),
             HarmF3(intent, observed, a, cid), HarmF3(intent, observed, b, cid))
      case (Success(whole), Success(first), Success(second)) => whole == (first || second)
      case (Failure(e), Failure(e1), Failure(e2)) => e == e1 == e2
      case _ => false
    ensures HarmF4(v, a + b, cid) == (HarmF4(v, a, cid) || HarmF4(v, b, cid))
    ensures HarmF5(v, a + b, cid) == (HarmF5(v, a, cid) || HarmF5(v, b, cid))
  {
    AuthorityHarmIsAdditive(intent, cred, a, b, cid);
    BindingHarmIsAdditive(intent, observed, a, b, cid);
    ArtifactHarmIsAdditive(v, a, b, cid);
  }

  lemma SameMembers(x: seq<Row>, y: seq<Row>)
    requires multiset(x) == multiset(y)
    ensures |x| == |y| && AuthorityFrom(x) == AuthorityFrom(y)
    ensures forall e :: e in x <==> e in y
  {
    assert |multiset(x)| == |x| && |multiset(y)| == |y|;
    assert forall e :: e in x <==> e in multiset(x);
    assert forall e :: e in y <==> e in multiset(y);
  }

  /** Neither the order of the rows nor any row of another call matters. */
  lemma HarmReadsOnlyItsOwnRows(
    intent: Intent, cred: CredentialResult, observed: Option<string>, v: Validators, a: seq<Row>, b: seq<Row>,
    cid: Cid)
    requires multiset(EffectsOf(a, cid)) == multiset(EffectsOf(b, cid))
    ensures HarmF1(intent, a, cid) == HarmF1(intent, b, cid)
    ensures HarmF2(intent, cred, a, cid) == HarmF2(intent, cred, b, cid)
    ensures HarmF3(intent, observed, a, cid) == HarmF3(intent, observed, b, cid)
    ensures HarmF4(v, a, cid) == HarmF4(v, b, cid)
    ensures HarmF5(v, a, cid) == HarmF5(v, b, cid)
  {
    SameMembers(EffectsOf(a, cid), EffectsOf(b, cid));
  }

  /** No effects, no harm; and wherever harm is reported some correlated effect row shows it. */
  lemma HarmNeedsAnEffect(
    intent: Intent, cred: CredentialResult, observed: Option<string>, v: Validators, ledger: seq<Row>, cid: Cid)
    requires EffectsOf(ledger, cid) == []
    ensures !HarmF1(intent, ledger, cid) && !HarmF2(intent, cred, ledger, cid)
    ensures HarmF3(intent, observed, ledger, cid) != Success(true)
    ensures !HarmF4(v, ledger, cid) && !HarmF5(v, ledger, cid)
  {
  }

  /** F1 is a statement about single effects too: one exercised pair outside the sealed authority. */
  lemma HarmF1IsPerEffect(intent: Intent, ledger: seq<Row>, cid: Cid)
    ensures HarmF1(intent, ledger, cid) <==>
      exists e :: e in ledger && e.effectId.Some? && e.cid == cid && (e.action, e.resource) !in intent.authority
  {
    forall e
      ensures e in EffectsOf(ledger, cid) <==> e in ledger && e.effectId.Some? && e.cid == cid
    {
      FilterMember(IsEffectOf(cid), ledger, e);
    }
    if HarmF1(intent, ledger, cid) {
      var pair :| pair in AuthorityFrom(EffectsOf(ledger, cid)) && pair !in intent.authority;
    }
    if e :| e in ledger && e.effectId.Some? && e.cid == cid && (e.action, e.resource) !in intent.authority {
      assert (e.action, e.resource) in AuthorityFrom(EffectsOf(ledger, cid));
    }
  }

  // ---- each harm, read off the rows ----

  /** The row is an effect of the call. */
  predicate Acted(ledger: seq<Row>, cid: Cid, e: Row) {
    e in ledger && e.effectId.Some? && e.cid == cid
  }

  lemma EffectsAreActed(ledger: seq<Row>, cid: Cid)
    ensures forall e :: e in EffectsOf(ledger, cid) <==> Acted(ledger, cid, e)
  {
    forall e {
      FilterMember(IsEffectOf(cid), ledger, e);
    }
  }

  /** F2: something was done for this call, and the credential is not a verified one of the intent's actor. */
  lemma HarmF2IsPerEffect(intent: Intent, cred: CredentialResult, ledger: seq<Row>, cid: Cid)
    ensures HarmF2(intent, cred, ledger, cid) <==>
      && (exists e :: Acted(ledger, cid, e))
      && (!cred.verified || cred.principal.None? || cred.principal.value != intent.oauthActor)
  {
    EffectsAreActed(ledger, cid);
    if EffectsOf(ledger, cid) != [] {
      assert Acted(ledger, cid, EffectsOf(ledger, cid)[0]);
    }
  }

  /** F3: where it judges, some effect departs from the sealed digest, the observed one, the tool or the audience. */
  lemma HarmF3IsPerEffect(intent: Intent, observed: Option<string>, ledger: seq<Row>, cid: Cid)
    ensures var r := HarmF3(intent, observed, ledger, cid);
      && (r.Success? <==> intent.cid == cid && intent.requestDigest != "" && observed.Some?)
      && (r.Success? ==>
            (r.value <==> exists e ::
               && Acted(ledger, cid, e)
               && (|| e.effectDigest != intent.requestDigest
                   || e.effectDigest != observed.value
                   || e.tool != intent.tool
                   || e.audience != intent.audience)))
  {
    EffectsAreActed(ledger, cid);
  }

  /** F4: some effect left carrying a sensitive tag, and the artifact is not an authentic one that names this
      effect's payload and recipient and this tag, and leads to a tag that is not sensitive. */
  lemma HarmF4IsPerEffect(v: Validators, ledger: seq<Row>, cid: Cid)
    ensures HarmF4(v, ledger, cid) <==> exists e, tag ::
      && Acted(ledger, cid, e) && tag in e.labels
      && e.recipient.Some? && v.isSensitive(tag)
      && (match v.declassification
          case None => true
          case Some(d) =>
            || !d.authentic || d.payload != e.effectPayload || d.recipient != e.recipient
            || d.fromTag != tag || v.isSensitive(d.toTag))
  {
    EffectsAreActed(ledger, cid);
    if HarmF4(v, ledger, cid) {
      var e :| e in EffectsOf(ledger, cid) && LeaksSensitive(v, e);
      var tag :| tag in e.labels && v.isSensitive(tag) && !Declassifies(v, tag, e);
      assert Acted(ledger, cid, e);
    }
  }

  /** F5: some effect was a high-risk action that no approval binds. */
  lemma HarmF5IsPerEffect(v: Validators, ledger: seq<Row>, cid: Cid)
    ensures HarmF5(v, ledger, cid) <==>
      exists e :: Acted(ledger, cid, e) && v.isHighRisk(e.action) && !v.approves(e)
  {
    EffectsAreActed(ledger, cid);
  }
}
