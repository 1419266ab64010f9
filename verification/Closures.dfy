/** A registered tool's `fn` and the wrappers the harness puts around it.
    Python replaces `tool.fn` by a closure over the previous value; here the closure is its syntax,
    and the marker attributes are the outermost constructor. */
module Closures {

  /** The tool stub itself; a function that records ingress and then calls the inner one; or one that asks
      for a decision, emits it, and then calls the inner one unless denied. */
  datatype Fn = Body(name: string) | Recorded(tool: string, inner: Fn) | Mediated(tool: string, inner: Fn)

  function MediateOnce(name: string, fn: Fn): Fn {
    if fn.Mediated? then fn else Mediated(name, fn)
  }

  function RecordOnce(name: string, fn: Fn): Fn {
    if fn.Recorded? then fn else Recorded(name, fn)
  }

  function MediationDepth(fn: Fn): nat {
    match fn
    case Body(_) => 0
    case Recorded(_, inner) => MediationDepth(inner)
    case Mediated(_, inner) => 1 + MediationDepth(inner)
  }

  function RecordingDepth(fn: Fn): nat {
    match fn
    case Body(_) => 0
    case Recorded(_, inner) => 1 + RecordingDepth(inner)
    case Mediated(_, inner) => RecordingDepth(inner)
  }

  function BodyName(fn: Fn): string {
    match fn
    case Body(name) => name
    case Recorded(_, inner) => BodyName(inner)
    case Mediated(_, inner) => BodyName(inner)
  }

  /** What the runner's wiring order leaves on every tool: boundary outermost, recorder inside. */
  predicate WellWired(fn: Fn) {
    fn.Mediated? && fn.inner.Recorded? && fn.inner.inner.Body?
  }

  /** The marker is read off the outermost wrapper only, so the wrap is at depth one exactly when the
      function came in unmediated, or already wrapped once with the boundary outermost. */
  predicate WrapsToDepthOne(fn: Fn) {
    MediationDepth(fn) == 0 || (fn.Mediated? && MediationDepth(fn) == 1)
  }

  lemma MediateOnceDepth(name: string, fn: Fn)
    ensures MediateOnce(name, fn).Mediated?
    ensures MediationDepth(MediateOnce(name, fn)) == 1 <==> WrapsToDepthOne(fn)
    ensures MediateOnce(name, MediateOnce(name, fn)) == MediateOnce(name, fn)
    ensures BodyName(MediateOnce(name, fn)) == BodyName(fn)
    ensures RecordingDepth(MediateOnce(name, fn)) == RecordingDepth(fn)
  {
  }

  /** Installing the recorder first gives the wiring the oracle relies on.  Installing it second leaves
      it outside the boundary, and registering that tool again then mediates the call twice. */
  lemma InstallOrderMatters(name: string, body: string)
    ensures WellWired(MediateOnce(name, RecordOnce(name, Body(body))))
    ensures !WellWired(RecordOnce(name, MediateOnce(name, Body(body))))
    ensures MediationDepth(MediateOnce(name, RecordOnce(name, MediateOnce(name, Body(body))))) == 2
  {
    var mediated := Mediated(name, Body(body));
    assert MediationDepth(mediated) == 1;
    var recordedLast := Recorded(name, mediated);
    assert MediationDepth(recordedLast) == 1;
    assert MediationDepth(Mediated(name, recordedLast)) == 2;
  }
}
