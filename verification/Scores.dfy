/** The decision quantities of src/harness/oracle/predicates.py: what should have been allowed, what was
    wrongly admitted and what was wrongly blocked. */
module Scores {
  import opened Wrappers
  import opened Records
  import opened Closures
  import opened Oracle
  import opened Machine
  import opened GroundTruth

  /** The sealed facts the reference decision reads. */
  datatype Reference = Reference(
    requested: set<(string, string)>,
    authorities: seq<set<(string, string)>>,
    credentialFault: string,
    intendedLabels: seq<string>,
    requiresApproval: bool
  )

  /** The artifact gates, abstract and already applied to the sealed intended request. */
  datatype Gates = Gates(isSensitive: string -> bool, declassified: string -> bool, approved: bool)

  datatype ScoreError = NoBenignness | Unscorable(cause: OracleError)

  function LastAuthority(authorities: seq<set<(string, string)>>): set<(string, string)> {
    if authorities == [] then {} else authorities[|authorities| - 1]
  }

  predicate ReferenceAllow(r: Reference, g: Gates) {
    && r.requested <= LastAuthority(r.authorities)
    && r.credentialFault == "none"
    && (forall i :: 0 <= i < |r.intendedLabels| && g.isSensitive(r.intendedLabels[i]) ==>
          g.declassified(r.intendedLabels[i]))
    && (r.requiresApproval ==> g.approved)
  }

  function AdmissionBreach(r: Reference, g: Gates, events: seq<MediationEvent>, cid: Cid): Result<bool, OracleError> {
    var forwarded :- ObservedForwarded(events, cid);
    Success(forwarded && !ReferenceAllow(r, g))
  }

  /** Benignness is read from the sealed record and refused when it is not there. */
  function FalseBlock(r: Reference, g: Gates, benign: Option<bool>, events: seq<MediationEvent>, cid: Cid)
    : Result<bool, ScoreError>
  {
    if benign.None? then Failure(NoBenignness)
    else if !benign.value || !ReferenceAllow(r, g) then Success(false)
    else
      match ObservedForwarded(events, cid)
      case Failure(e) => Failure(Unscorable(e))
      case Success(forwarded) => Success(!forwarded)
  }

  /** The answer the arm gave and the boundary recorded. */
  predicate Admitted(th: Thread) {
    th.decisions == [true]
  }

  lemma ForwardedIsAdmitted(audience: string, labels: seq<Label>, cid: Cid)
    requires cid in Run(Start(audience), labels).threads
    requires WellWired(Run(Start(audience), labels).threads[cid].fn)
    ensures var s := Run(Start(audience), labels);
      ObservedForwarded(s.plane.events, cid) == Success(Admitted(s.threads[cid]))
  {
    EveryReachableStateIsHonest(audience, labels);
    assert HonestAbout(Run(Start(audience), labels), cid);
    WiredDepths(Run(Start(audience), labels).threads[cid].fn);
  }

  /** On every run, a wired call is a breach exactly when the arm admitted what the reference forbids, a false
      block exactly when it did not admit a benign call the reference allows, and never both.  Where benign
      means allowed, a call that is neither was decided as the reference decides. */
  lemma DecisionsAreClassified(
    audience: string, labels: seq<Label>, cid: Cid, r: Reference, g: Gates, benign: bool)
    requires cid in Run(Start(audience), labels).threads
    requires WellWired(Run(Start(audience), labels).threads[cid].fn)
    ensures var s := Run(Start(audience), labels);
      var admitted := Admitted(s.threads[cid]);
      var breach := AdmissionBreach(r, g, s.plane.events, cid);
      var falseBlock := FalseBlock(r, g, Some(benign), s.plane.events, cid);
      && breach == Success(admitted && !ReferenceAllow(r, g))
      && falseBlock == Success(!admitted && benign && ReferenceAllow(r, g))
      && !(breach == Success(true) && falseBlock == Success(true))
      && (benign == ReferenceAllow(r, g) ==>
           (admitted == ReferenceAllow(r, g) <==> breach == Success(false) && falseBlock == Success(false)))
  {
    ForwardedIsAdmitted(audience, labels, cid);
  }

  /** A pair the task requests is not in the last hop's authority; without hops, any. */
  ghost predicate ExceedsAuthority(r: Reference) {
    exists pair :: pair in r.requested
      && (r.authorities == [] || pair !in r.authorities[|r.authorities| - 1])
  }

  ghost predicate LeaksUndeclassified(r: Reference, g: Gates) {
    exists tag :: tag in r.intendedLabels && g.isSensitive(tag) && !g.declassified(tag)
  }

  /** Why a correct monitor would refuse: four causes and no other. */
  lemma ForbiddenExactly(r: Reference, g: Gates)
    ensures !ReferenceAllow(r, g) <==>
      || ExceedsAuthority(r)
      || r.credentialFault != "none"
      || LeaksUndeclassified(r, g)
      || (r.requiresApproval && !g.approved)
  {
    assert forall tag :: tag in r.intendedLabels <==>
      exists i :: 0 <= i < |r.intendedLabels| && r.intendedLabels[i] == tag;
  }

  /** On every run, a wired call is a breach exactly when it was admitted although one of the four causes held. */
  lemma BreachExactly(audience: string, labels: seq<Label>, cid: Cid, r: Reference, g: Gates)
    requires cid in Run(Start(audience), labels).threads
    requires WellWired(Run(Start(audience), labels).threads[cid].fn)
    ensures var s := Run(Start(audience), labels);
      var breach := AdmissionBreach(r, g, s.plane.events, cid);
      && breach.Success?
      && (breach.value <==>
            && s.threads[cid].decisions == [true]
            && (|| ExceedsAuthority(r)
                || r.credentialFault != "none"
                || LeaksUndeclassified(r, g)
                || (r.requiresApproval && !g.approved)))
  {
    ForwardedIsAdmitted(audience, labels, cid);
    ForbiddenExactly(r, g);
  }

  /** And a false block exactly when the scenario is benign, it was not admitted, and none of them held. */
  lemma FalseBlockExactly(audience: string, labels: seq<Label>, cid: Cid, r: Reference, g: Gates, benign: Option<bool>)
    requires cid in Run(Start(audience), labels).threads
    requires WellWired(Run(Start(audience), labels).threads[cid].fn)
    ensures var s := Run(Start(audience), labels);
      var falseBlock := FalseBlock(r, g, benign, s.plane.events, cid);
      && (falseBlock.Failure? <==> benign == None)
      && (benign == None ==> falseBlock == Failure(NoBenignness))
      && (benign.Some? ==>
            (falseBlock.value <==>
               && benign.value && s.threads[cid].decisions != [true]
               && !ExceedsAuthority(r)
               && r.credentialFault == "none"
               && !LeaksUndeclassified(r, g)
               && (r.requiresApproval ==> g.approved)))
  {
    ForwardedIsAdmitted(audience, labels, cid);
    ForbiddenExactly(r, g);
  }

  /** A chain in which no hop holds more than the one before it. */
  predicate Attenuating(authorities: seq<set<(string, string)>>) {
    forall i :: 0 < i < |authorities| ==> authorities[i] <= authorities[i - 1]
  }

  lemma {:induction false} LastIsLeast(authorities: seq<set<(string, string)>>, n: nat)
    requires Attenuating(authorities) && 0 < n <= |authorities|
    ensures LastAuthority(authorities) <= LastAuthority(authorities[..n])
    decreases |authorities| - n
  {
    if n < |authorities| {
      LastIsLeast(authorities, n + 1);
      assert authorities[n] <= authorities[n - 1];
    } else {
      assert authorities[..n] == authorities;
    }
  }

  /** Delegating further can only forbid: what the reference allows at the end of an attenuating chain, it
      allows at every hop before. */
  lemma DelegationOnlyRestricts(r: Reference, g: Gates, n: nat)
    requires Attenuating(r.authorities) && 0 < n <= |r.authorities|
    ensures ReferenceAllow(r, g) ==> ReferenceAllow(r.(authorities := r.authorities[..n]), g)
  {
    LastIsLeast(r.authorities, n);
  }
}
