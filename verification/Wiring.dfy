/** What the wiring of a tool's function decides, over every run: whether the oracle reads its calls right,
    whether it can read them at all, and what stands between a call and its body. */
module Wiring {
  import opened Wrappers
  import opened Records
  import opened Closures
  import opened Registry
  import opened Oracle
  import opened Machine
  import opened GroundTruth
  import opened Instrument

  // ---- a body acts only behind every boundary and every recorder ----

  /** However calls interleave: once a call's body has tried to act, every boundary around it admitted and
      every recorder around it had its row acknowledged.  A call that cannot be recorded never acts. */
  lemma OnlyAdmittedAndRecordedCallsAct(audience: string, labels: seq<Label>, cid: Cid)
    requires var s := Run(Start(audience), labels); cid in s.threads && s.threads[cid].attempts > 0
    ensures var s := Run(Start(audience), labels);
      var th := s.threads[cid];
      && th.acknowledged == RecordingDepth(th.fn) == |IngressOf(s.plane.ledger, cid)|
      && th.decisions == Repeat(true, MediationDepth(th.fn))
      && |EventsOf(s.plane.events, cid)| == MediationDepth(th.fn)
      && forall e :: e in EventsOf(s.plane.events, cid) ==> e.admitted
  {
    EveryReachableStateIsHonest(audience, labels);
    assert HonestAbout(Run(Start(audience), labels), cid);
  }

  function Repeat(b: bool, n: nat): seq<bool> {
    seq(n, i => b)
  }

  // ---- a run of one call in which nothing fails ----

  function Anything(): Act {
    Act("", "", "", None, "", None, [])
  }

  /** Every boundary admits, every recorder is acknowledged, and the body acts once. */
  function Smooth(fn: Fn): seq<Choice> {
    match fn
    case Body(_) => [Effect(Anything(), Acked)]
    case Recorded(_, inner) => [Enter(0, Acked)] + Smooth(inner)
    case Mediated(_, inner) => [Decide(true, "")] + Smooth(inner)
  }

  /** The same up to the last boundary, which denies. */
  function DeniedLast(fn: Fn): seq<Choice> {
    match fn
    case Body(_) => []
    case Recorded(_, inner) => [Enter(0, Acked)] + DeniedLast(inner)
    case Mediated(_, inner) =>
      if MediationDepth(inner) == 0 then [Decide(false, "")] else [Decide(true, "")] + DeniedLast(inner)
  }

  lemma {:induction false} SmoothActsOnce(p: Plane, cid: Cid, th: Thread)
    requires th.running && cid != ""
    ensures var th' := RunThread(p, cid, th, Smooth(th.code)).1;
      th'.fn == th.fn && th'.attempts > 0 && th'.effects == th.effects + 1
    decreases th.code
  {
    var choices := Smooth(th.code);
    var (p', th') := Micro(p, cid, th, choices[0]);
    if th.code.Body? {
      assert choices[1..] == [];
    } else {
      assert choices[1..] == Smooth(th.code.inner);
      SmoothActsOnce(p', cid, th');
    }
  }

  lemma {:induction false} DeniedLastDenies(p: Plane, cid: Cid, th: Thread)
    requires th.running && cid != "" && MediationDepth(th.code) > 0
    ensures var th' := RunThread(p, cid, th, DeniedLast(th.code)).1;
      && th'.fn == th.fn
      && false in th'.decisions
      && |th'.decisions| == |th.decisions| + MediationDepth(th.code)
      && th'.entries >= th.entries + (if th.code.Recorded? then 1 else 0)
    decreases th.code
  {
    var choices := DeniedLast(th.code);
    var (p', th') := Micro(p, cid, th, choices[0]);
    if th.code.Mediated? && MediationDepth(th.code.inner) == 0 {
      assert choices[1..] == [];
      assert th'.decisions[|th.decisions|] == false;
    } else {
      assert choices[1..] == DeniedLast(th.code.inner);
      DeniedLastDenies(p', cid, th');
    }
  }

  function OneCall(fn: Fn, choices: seq<Choice>): seq<Label> {
    [Call("1", fn, "")] + Labels("1", choices)
  }

  lemma OneCallRuns(audience: string, fn: Fn, choices: seq<Choice>)
    ensures var s := Run(Start(audience), OneCall(fn, choices));
      && "1" in s.threads
      && s.threads["1"] == RunThread(Start(audience).plane, "1", NewThread(fn, ""), choices).1
  {
    var s := Step(Start(audience), Call("1", fn, ""));
    assert OneCall(fn, choices)[1..] == Labels("1", choices);
    LoneCallIsARun(s, "1", choices);
  }

  // ---- which wirings the oracle reads right ----

  function VerdictOn(s: State, cid: Cid, intent: Intent): Result<Linkage, OracleError> {
    LinkageOf(intent, s.plane.events, s.plane.ledger, cid)
  }

  ghost predicate OneEffectReadsConsistent(intent: Intent, labels: seq<Label>, cid: Cid, fn: Fn) {
    var s := Run(Start(intent.audience), labels);
    cid in s.threads && s.threads[cid].fn == fn && s.threads[cid].effects == 1 ==>
      VerdictOn(s, cid, intent) == Success(Consistent)
  }

  ghost predicate DenialReadsUnreached(intent: Intent, labels: seq<Label>, cid: Cid, fn: Fn) {
    var s := Run(Start(intent.audience), labels);
    cid in s.threads && s.threads[cid].fn == fn && false in s.threads[cid].decisions ==>
      VerdictOn(s, cid, intent) == Success(Unreached)
  }

  lemma DepthOneReadsConsistent(intent: Intent, labels: seq<Label>, cid: Cid, fn: Fn)
    requires BodyName(fn) == intent.tool && MediationDepth(fn) == 1 && RecordingDepth(fn) == 1
    ensures OneEffectReadsConsistent(intent, labels, cid, fn)
  {
    EveryReachableStateIsHonest(intent.audience, labels);
    var s := Run(Start(intent.audience), labels);
    assert HonestAbout(s, cid);
    ConsistentMeansOneOfEach(intent, s.plane.events, s.plane.ledger, cid);
  }

  /** The run in which nothing fails is misread unless there is one boundary and one recorder. */
  lemma SmoothRunIsMisread(intent: Intent, fn: Fn)
    requires MediationDepth(fn) != 1 || RecordingDepth(fn) != 1
    ensures !OneEffectReadsConsistent(intent, OneCall(fn, Smooth(fn)), "1", fn)
  {
    var labels := OneCall(fn, Smooth(fn));
    OneCallRuns(intent.audience, fn, Smooth(fn));
    SmoothActsOnce(Start(intent.audience).plane, "1", NewThread(fn, ""));
    EveryReachableStateIsHonest(intent.audience, labels);
    var s := Run(Start(intent.audience), labels);
    assert HonestAbout(s, "1");
    ConsistentMeansOneOfEach(intent, s.plane.events, s.plane.ledger, "1");
  }

  /** One effect is read as CONSISTENT on every run exactly when one boundary and one recorder stand around
      the tool, in either order. */
  lemma ConsistentExactlyAtDepthOne(intent: Intent, fn: Fn)
    requires BodyName(fn) == intent.tool
    ensures (forall labels, cid :: OneEffectReadsConsistent(intent, labels, cid, fn))
      <==> MediationDepth(fn) == 1 && RecordingDepth(fn) == 1
  {
    if MediationDepth(fn) == 1 && RecordingDepth(fn) == 1 {
      forall labels, cid
        ensures OneEffectReadsConsistent(intent, labels, cid, fn)
      {
        DepthOneReadsConsistent(intent, labels, cid, fn);
      }
    } else {
      SmoothRunIsMisread(intent, fn);
    }
  }

  lemma OutermostBoundaryReadsUnreached(intent: Intent, labels: seq<Label>, cid: Cid, fn: Fn)
    requires WrapsToDepthOne(fn)
    ensures DenialReadsUnreached(intent, labels, cid, fn)
  {
    EveryReachableStateIsHonest(intent.audience, labels);
    var s := Run(Start(intent.audience), labels);
    assert HonestAbout(s, cid);
    UnreachedMeansDenialAlone(intent, s.plane.events, s.plane.ledger, cid);
  }

  lemma LastDenialIsMisread(intent: Intent, fn: Fn)
    requires !WrapsToDepthOne(fn)
    ensures !DenialReadsUnreached(intent, OneCall(fn, DeniedLast(fn)), "1", fn)
  {
    var labels := OneCall(fn, DeniedLast(fn));
    OneCallRuns(intent.audience, fn, DeniedLast(fn));
    DeniedLastDenies(Start(intent.audience).plane, "1", NewThread(fn, ""));
    EveryReachableStateIsHonest(intent.audience, labels);
    var s := Run(Start(intent.audience), labels);
    assert HonestAbout(s, "1");
    UnreachedMeansDenialAlone(intent, s.plane.events, s.plane.ledger, "1");
  }

  /** A denial is read as UNREACHED on every run exactly when at most one boundary stands around the tool,
      and nothing around the boundary. */
  lemma UnreachedExactlyUnderAnOutermostBoundary(intent: Intent, fn: Fn)
    ensures (forall labels, cid :: DenialReadsUnreached(intent, labels, cid, fn)) <==> WrapsToDepthOne(fn)
  {
    if WrapsToDepthOne(fn) {
      forall labels, cid
        ensures DenialReadsUnreached(intent, labels, cid, fn)
      {
        OutermostBoundaryReadsUnreached(intent, labels, cid, fn);
      }
    } else {
      LastDenialIsMisread(intent, fn);
    }
  }

  lemma WellWiredExactly(fn: Fn)
    ensures WellWired(fn) <==> MediationDepth(fn) == 1 && RecordingDepth(fn) == 1 && WrapsToDepthOne(fn)
  {
    if WellWired(fn) {
      WiredDepths(fn);
    } else if fn.Mediated? && MediationDepth(fn) == 1 && RecordingDepth(fn) == 1 {
      OneRecorderLeft(fn.inner);
    }
  }

  lemma OneRecorderLeft(fn: Fn)
    requires MediationDepth(fn) == 0 && RecordingDepth(fn) == 1
    ensures fn.Recorded? && fn.inner.Body?
  {
    match fn
    case Recorded(_, inner) => assert RecordingDepth(inner) == 0;
  }

  /** The oracle reads effects and denials right on every run exactly when the boundary is outermost and
      directly around the recorder, which is directly around the tool. */
  lemma ReadRightExactlyWhenWired(intent: Intent, fn: Fn)
    requires BodyName(fn) == intent.tool
    ensures (forall labels, cid ::
               OneEffectReadsConsistent(intent, labels, cid, fn) && DenialReadsUnreached(intent, labels, cid, fn))
      <==> WellWired(fn)
  {
    ConsistentExactlyAtDepthOne(intent, fn);
    UnreachedExactlyUnderAnOutermostBoundary(intent, fn);
    WellWiredExactly(fn);
    if forall labels, cid ::
         OneEffectReadsConsistent(intent, labels, cid, fn) && DenialReadsUnreached(intent, labels, cid, fn) {
      assert forall labels, cid :: OneEffectReadsConsistent(intent, labels, cid, fn);
      assert forall labels, cid :: DenialReadsUnreached(intent, labels, cid, fn);
    }
  }

  /** A tool registered after the boundary went in can act once, be admitted and still read as DROPPED. */
  lemma LateToolActsUnseen(intent: Intent, tool: string)
    ensures exists labels ::
      var s := Run(Start(intent.audience), labels);
      && "1" in s.threads && s.threads["1"].fn == Mediated(tool, Body(intent.tool))
      && s.threads["1"].decisions == [true] && s.threads["1"].effects == 1
      && VerdictOn(s, "1", intent) == Success(Dropped)
  {
    var fn := Mediated(tool, Body(intent.tool));
    var labels := OneCall(fn, Smooth(fn));
    assert MediationDepth(fn.inner) == 0 && RecordingDepth(fn.inner) == 0;
    OneCallRuns(intent.audience, fn, Smooth(fn));
    SmoothActsOnce(Start(intent.audience).plane, "1", NewThread(fn, ""));
    OnlyAdmittedAndRecordedCallsAct(intent.audience, labels, "1");
    LateRegistrationReadsAsDropped(intent.audience, labels, "1", intent);
  }

  /** The order the runner installs the two in decides: recorder first, every run of the tool is read right;
      recorder second, some run is misread, and registering the tool again makes some run unreadable. */
  lemma InstallOrderDecides(intent: Intent, name: string)
    ensures var recorderFirst := MediateOnce(name, RecordOnce(name, Body(intent.tool)));
      forall labels, cid ::
        && OneEffectReadsConsistent(intent, labels, cid, recorderFirst)
        && DenialReadsUnreached(intent, labels, cid, recorderFirst)
    ensures var recorderLast := RecordOnce(name, MediateOnce(name, Body(intent.tool)));
      && (exists labels, cid :: !DenialReadsUnreached(intent, labels, cid, recorderLast))
      && exists labels, cid ::
           Dispatched(labels, {MediateOnce(name, recorderLast)}) && !Readable(intent.audience, labels, cid)
  {
    InstallOrderMatters(name, intent.tool);
    var recorderFirst := MediateOnce(name, RecordOnce(name, Body(intent.tool)));
    MediateOnceDepth(name, RecordOnce(name, Body(intent.tool)));
    assert BodyName(recorderFirst) == intent.tool;
    ReadRightExactlyWhenWired(intent, recorderFirst);
    var recorderLast := RecordOnce(name, MediateOnce(name, Body(intent.tool)));
    UnreachedExactlyUnderAnOutermostBoundary(intent, recorderLast);
    ReadableExactlyAtDepthOne(intent.audience, {MediateOnce(name, recorderLast)});
  }

  // ---- whether there is one record to read ----

  ghost predicate Dispatched(labels: seq<Label>, fns: set<Fn>) {
    forall i :: 0 <= i < |labels| && labels[i].Call? ==> labels[i].fn in fns
  }

  ghost predicate CarriedBy(s: State, fns: set<Fn>) {
    forall cid :: cid in s.threads ==> s.threads[cid].fn in fns
  }

  lemma {:induction false} RunIsCarriedBy(s: State, labels: seq<Label>, fns: set<Fn>)
    requires CarriedBy(s, fns) && Dispatched(labels, fns)
    ensures CarriedBy(Run(s, labels), fns)
    decreases |labels|
  {
    if labels != [] {
      assert labels[0].Call? ==> labels[0].fn in fns;
      RunIsCarriedBy(Step(s, labels[0]), labels[1..], fns);
    }
  }

  ghost predicate Readable(audience: string, labels: seq<Label>, cid: Cid) {
    MediationOf(Run(Start(audience), labels).plane.events, cid).Success?
  }

  lemma ReadableAtDepthOne(audience: string, labels: seq<Label>, cid: Cid, fns: set<Fn>)
    requires Dispatched(labels, fns) && forall fn :: fn in fns ==> MediationDepth(fn) <= 1
    ensures Readable(audience, labels, cid)
  {
    RunIsCarriedBy(Start(audience), labels, fns);
    EveryReachableStateIsHonest(audience, labels);
    assert HonestAbout(Run(Start(audience), labels), cid);
  }

  lemma OneCallDispatches(fn: Fn, choices: seq<Choice>, fns: set<Fn>)
    requires fn in fns
    ensures Dispatched(OneCall(fn, choices), fns)
  {
    OnlyDoes("1", choices);
  }

  lemma {:induction false} OnlyDoes(cid: Cid, choices: seq<Choice>)
    ensures forall i :: 0 <= i < |Labels(cid, choices)| ==> Labels(cid, choices)[i].Do?
    decreases |choices|
  {
    if choices != [] {
      OnlyDoes(cid, choices[1..]);
    }
  }

  /** The oracle finds at most one mediation record for every id, on every run over a set of functions,
      exactly when none of them passes two boundaries. */
  lemma ReadableExactlyAtDepthOne(audience: string, fns: set<Fn>)
    ensures (forall labels, cid :: Dispatched(labels, fns) ==> Readable(audience, labels, cid))
      <==> (forall fn :: fn in fns ==> MediationDepth(fn) <= 1)
  {
    if fn :| fn in fns && MediationDepth(fn) > 1 {
      var labels := OneCall(fn, Smooth(fn));
      OneCallDispatches(fn, Smooth(fn), fns);
      OneCallRuns(audience, fn, Smooth(fn));
      SmoothActsOnce(Start(audience).plane, "1", NewThread(fn, ""));
      OnlyAdmittedAndRecordedCallsAct(audience, labels, "1");
      assert Dispatched(labels, fns) && !Readable(audience, labels, "1");
    } else {
      forall labels, cid | Dispatched(labels, fns)
        ensures Readable(audience, labels, cid)
      {
        ReadableAtDepthOne(audience, labels, cid, fns);
      }
    }
  }

  function FunctionsOf(tools: map<string, Tool>): set<Fn>
    reads tools.Values
  {
    set name | name in tools :: tools[name].fn
  }

  /** What the registry's invariant is for: every call of its tools leaves at most one event, and one that
      acted exactly one, which admits it. */
  lemma RegisteredCallsAreMediatedOnce(registry: MediatingToolRegistry, audience: string, labels: seq<Label>, cid: Cid)
    requires registry.AllMediatedOnce() && Dispatched(labels, FunctionsOf(registry.tools))
    ensures var s := Run(Start(audience), labels);
      && |EventsOf(s.plane.events, cid)| <= 1
      && (cid in s.threads && s.threads[cid].attempts > 0 ==>
            |EventsOf(s.plane.events, cid)| == 1 && ObservedForwarded(s.plane.events, cid) == Success(true))
  {
    RunIsCarriedBy(Start(audience), labels, FunctionsOf(registry.tools));
    EveryReachableStateIsHonest(audience, labels);
    assert HonestAbout(Run(Start(audience), labels), cid);
  }
}
