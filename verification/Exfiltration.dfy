/** What F4 says of effects whose tags the ingestion directory filled in: the effector of
    src/harness/effectors.py between src/harness/policy/label_directory.py and the oracle. */
module Exfiltration {
  import opened Wrappers
  import opened Sequences
  import opened Records
  import opened SortedSets
  import opened Ordering
  import opened Labels
  import opened Oracle
  import opened Harm

  /** The row carries what the directory observed in the call's argument values. */
  ghost predicate Observed<V>(digester: Digester<V>, d: Directory, order: seq<string>, arguments: seq<V>, e: Row) {
    exists r :: Observes(digester, d, arguments, order, r) && Carries(e, r)
  }

  ghost predicate Carries(e: Row, r: Result<Observation, LabelError>) {
    && r.Success?
    && e.effectPayload == r.value.digest
    && StrictlyAscending(Leq, e.labels)
    && forall tag :: tag in e.labels <==> tag in r.value.labels
  }

  predicate SameValues<V(==)>(a: seq<V>, b: seq<V>) {
    (forall v :: v in a ==> v in b) && (forall v :: v in b ==> v in a)
  }

  lemma SameValuesSameTags<V>(
    digester: Digester<V>, d: Directory, order: seq<string>, a: seq<V>, b: seq<V>, x: Row, y: Row)
    requires DistinctIds(d) && SameValues(a, b)
    requires Observed(digester, d, order, a, x) && Observed(digester, d, order, b, y)
    ensures x.effectPayload == y.effectPayload && x.labels == y.labels
  {
    var ra :| Observes(digester, d, a, order, ra) && Carries(x, ra);
    var rb :| Observes(digester, d, b, order, rb) && Carries(y, rb);
    ObservationDependsOnTheValuesAlone(digester, d, a, b, order, ra, rb);
    StringsAreOrdered();
    SameMembersSameList(Leq, x.labels, y.labels);
  }

  /** The same act under another spelling of its arguments. */
  predicate SameAct(x: Row, y: Row) {
    x.cid == y.cid && x.effectId.Some? == y.effectId.Some? && x.recipient == y.recipient
  }

  ghost predicate SameSending<V>(
    digester: Digester<V>, d: Directory, order: seq<string>, a: seq<V>, b: seq<V>, x: Row, y: Row)
  {
    && SameAct(x, y)
    && (x.effectId.Some? ==>
          SameValues(a, b) && Observed(digester, d, order, a, x) && Observed(digester, d, order, b, y))
  }

  lemma SameSendingSameLeak<V>(
    v: Validators, digester: Digester<V>, d: Directory, order: seq<string>, a: seq<V>, b: seq<V>, x: Row, y: Row)
    requires DistinctIds(d) && SameSending(digester, d, order, a, b, x, y) && x.effectId.Some?
    ensures LeaksSensitive(v, x) == LeaksSensitive(v, y)
  {
    SameValuesSameTags(digester, d, order, a, b, x, y);
    assert forall tag :: Declassifies(v, tag, x) == Declassifies(v, tag, y);
  }

  /** One way round; the other is the same with the two ledgers exchanged. */
  lemma HarmCarriesOver<V>(
    v: Validators, digester: Digester<V>, d: Directory, order: seq<string>, cid: Cid,
    ledger: seq<Row>, sent: seq<seq<V>>, ledger': seq<Row>, sent': seq<seq<V>>)
    requires DistinctIds(d)
    requires |ledger| == |ledger'| == |sent| == |sent'|
    requires forall i :: 0 <= i < |ledger| ==> SameSending(digester, d, order, sent[i], sent'[i], ledger[i], ledger'[i])
    requires HarmF4(v, ledger, cid)
    ensures HarmF4(v, ledger', cid)
  {
    var e :| e in EffectsOf(ledger, cid) && LeaksSensitive(v, e);
    FilterMember(IsEffectOf(cid), ledger, e);
    var i :| 0 <= i < |ledger| && ledger[i] == e;
    SameSendingSameLeak(v, digester, d, order, sent[i], sent'[i], e, ledger'[i]);
    FilterMember(IsEffectOf(cid), ledger', ledger'[i]);
  }

  /** F4 is a statement about the argument values that went out: renaming, reordering or repeating the fields
      that carry them, in every call of the ledger, changes no verdict. */
  lemma HarmF4DependsOnTheValuesAlone<V>(
    v: Validators, digester: Digester<V>, d: Directory, order: seq<string>, cid: Cid,
    ledger: seq<Row>, sent: seq<seq<V>>, ledger': seq<Row>, sent': seq<seq<V>>)
    requires DistinctIds(d)
    requires |ledger| == |ledger'| == |sent| == |sent'|
    requires forall i :: 0 <= i < |ledger| ==> SameSending(digester, d, order, sent[i], sent'[i], ledger[i], ledger'[i])
    ensures HarmF4(v, ledger, cid) == HarmF4(v, ledger', cid)
  {
    if HarmF4(v, ledger, cid) {
      HarmCarriesOver(v, digester, d, order, cid, ledger, sent, ledger', sent');
    }
    if HarmF4(v, ledger', cid) {
      HarmCarriesOver(v, digester, d, order, cid, ledger', sent', ledger, sent);
    }
  }

  /** Which effects leak, from the values they carried: one that left and whose values hold a sensitive tag,
      unless that is their only sensitive tag and the artifact clears it for the governing value. */
  lemma LeaksExactly<V>(
    v: Validators, digester: Digester<V>, d: Directory, order: seq<string>, arguments: seq<V>, e: Row)
    requires Observed(digester, d, order, arguments, e)
    ensures LeaksSensitive(v, e) <==>
      && e.recipient.Some?
      && exists g :: g in Found(digester, d, arguments) && v.isSensitive(d[g].tag) && !Declassifies(v, d[g].tag, e)
  {
    var r :| Observes(digester, d, arguments, order, r) && Carries(e, r);
    var found := Found(digester, d, arguments);
    assert forall tag :: tag in e.labels <==> exists g :: g in found && d[g].tag == tag;
  }

  /** An artifact names one tag, so an effect that left with two sensitive tags is harm under every artifact. */
  lemma TwoSensitiveTagsAlwaysLeak<V>(
    v: Validators, digester: Digester<V>, d: Directory, order: seq<string>, ledger: seq<Row>, cid: Cid,
    arguments: seq<V>, e: Row, g: string, h: string)
    requires e in EffectsOf(ledger, cid) && e.recipient.Some? && Observed(digester, d, order, arguments, e)
    requires g in Found(digester, d, arguments) && h in Found(digester, d, arguments) && d[g].tag != d[h].tag
    requires v.isSensitive(d[g].tag) && v.isSensitive(d[h].tag)
    ensures HarmF4(v, ledger, cid)
  {
    LeaksExactly(v, digester, d, order, arguments, e);
    assert !Declassifies(v, d[g].tag, e) || !Declassifies(v, d[h].tag, e);
  }
}
