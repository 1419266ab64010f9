/** May a cell be scored at the instant it is judged at?  The guard of src/harness/campaign.py. */
module Clock {
  import opened Wrappers
  import opened SortedSets
  import opened Ordering

  /** Valid from `nbf`, when it has one, until just before `exp`. */
  datatype Window = Window(nbf: Option<int>, exp: int)

  /** What a shape-directed reader makes of a value. */
  datatype Reading = NotThisKind | Timed(window: Window) | Unreadable

  /** A setup value as the two readers see it. */
  datatype Credential = Credential(jwt: Reading, x509: Reading)

  /** A setup dict: its keys, and the value of each. */
  datatype Setup = Setup(names: seq<string>, values: map<string, Credential>)

  datatype Artifacts = Artifacts(declassification: Option<int>, approval: Option<Option<int>>)

  datatype Refusal = NotCovered(name: string, window: Window) | Stale(name: string, iat: int)

  const BEYOND := 0x4000_0000_0000_0000
  const UNREADABLE := Window(Some(BEYOND), -BEYOND)

  const DECLASSIFICATION := "declassification"
  const APPROVAL := "approval_artifact"

  ghost predicate IsDict(setup: Setup) {
    forall name :: name in setup.names <==> name in setup.values
  }

  function Read(reading: Reading): Option<Window> {
    match reading
    case NotThisKind => None
    case Timed(window) => Some(window)
    case Unreadable => Some(UNREADABLE)
  }

  function WindowOf(c: Credential): Option<Window> {
    if Read(c.jwt).Some? then Read(c.jwt) else Read(c.x509)
  }

  /** The guard's own test of one window. */
  predicate Misses(w: Window, judgedAt: int) {
    (w.nbf.Some? && judgedAt < w.nbf.value) || judgedAt >= w.exp
  }

  function Separation(a: int, b: int): nat {
    if a <= b then b - a else a - b
  }

  function ArtifactInstants(a: Artifacts): seq<(string, int)> {
    (if a.declassification.Some? then [(DECLASSIFICATION, a.declassification.value)] else [])
    + match a.approval
      case None => []
      case Some(None) => [(APPROVAL, -BEYOND)]
      case Some(Some(iat)) => [(APPROVAL, iat)]
  }

  /** The windows of the timed values among `names`, in that order. */
  function WindowsOf(names: seq<string>, values: map<string, Credential>): (r: seq<(string, Window)>)
    requires forall name :: name in names ==> name in values
    decreases |names|
  {
    if names == [] then []
    else
      var n := |names| - 1;
      WindowsOf(names[..n], values)
      + (var w := WindowOf(values[names[n]]); if w.Some? then [(names[n], w.value)] else [])
  }

  function CredentialWindows(setup: Setup): seq<(string, Window)>
    requires IsDict(setup)
  {
    StringsAreOrdered();
    SortedSetIsSorted(Leq, setup.names);
    WindowsOf(SortedSet(Leq, setup.names), setup.values)
  }

  method CredentialWindowsLoop(setup: Setup) returns (found: seq<(string, Window)>)
    requires IsDict(setup)
    ensures found == CredentialWindows(setup)
  {
    StringsAreOrdered();
    SortedSetIsSorted(Leq, setup.names);
    var names := SortedSet(Leq, setup.names);
    found := [];
    for n := 0 to |names|
      invariant found == WindowsOf(names[..n], setup.values)
    {
      assert names[..n + 1][..n] == names[..n];
      var window := Read(setup.values[names[n]].jwt);
      if window.None? {
        window := Read(setup.values[names[n]].x509);
      }
      if window.Some? {
        found := found + [(names[n], window.value)];
      }
    }
    assert names[..|names|] == names;
  }

  /** The first window that does not hold the instant. */
  function FirstMiss(windows: seq<(string, Window)>, judgedAt: int): Option<Refusal> {
    if windows == [] then None
    else if Misses(windows[0].1, judgedAt) then Some(NotCovered(windows[0].0, windows[0].1))
    else FirstMiss(windows[1..], judgedAt)
  }

  function FirstStale(instants: seq<(string, int)>, judgedAt: int, delta: int): Option<Refusal> {
    if instants == [] then None
    else if Separation(judgedAt, instants[0].1) > delta then Some(Stale(instants[0].0, instants[0].1))
    else FirstStale(instants[1..], judgedAt, delta)
  }

  function ClockRefusal(artifacts: Artifacts, setup: Setup, judgedAt: int, delta: int): (r: Option<Refusal>)
    requires IsDict(setup)
  {
    var miss := FirstMiss(CredentialWindows(setup), judgedAt);
    if miss.Some? then miss else FirstStale(ArtifactInstants(artifacts), judgedAt, delta)
  }

  method ClockRefusalLoop(artifacts: Artifacts, setup: Setup, judgedAt: int, delta: int) returns (r: Option<Refusal>)
    requires IsDict(setup)
    ensures r == ClockRefusal(artifacts, setup, judgedAt, delta)
  {
    var windows := CredentialWindowsLoop(setup);
    for n := 0 to |windows|
      invariant FirstMiss(windows, judgedAt) == FirstMiss(windows[n..], judgedAt)
    {
      assert windows[n..][1..] == windows[n + 1..];
      var w := windows[n].1;
      if (w.nbf.Some? && judgedAt < w.nbf.value) || judgedAt >= w.exp {
        return Some(NotCovered(windows[n].0, w));
      }
    }
    var instants := ArtifactInstants(artifacts);
    for n := 0 to |instants|
      invariant FirstStale(instants, judgedAt, delta) == FirstStale(instants[n..], judgedAt, delta)
    {
      assert instants[n..][1..] == instants[n + 1..];
      if Separation(judgedAt, instants[n].1) > delta {
        return Some(Stale(instants[n].0, instants[n].1));
      }
    }
    r := None;
  }

  // ---- what passing the guard means ----

  /** A window in force at the instant. */
  predicate Covers(w: Window, t: int) {
    (w.nbf.Some? ==> w.nbf.value <= t) && t < w.exp
  }

  predicate FreshAt(iat: int, t: int, delta: int) {
    t - delta <= iat <= t + delta
  }

  predicate Holds(reading: Reading, t: int) {
    match reading
    case NotThisKind => true
    case Timed(window) => Covers(window, t)
    case Unreadable => false
  }

  /** A value read as a token is judged as one; only a value that is none is read as a certificate. */
  predicate InForce(c: Credential, t: int) {
    if c.jwt.NotThisKind? then Holds(c.x509, t) else Holds(c.jwt, t)
  }

  predicate ArtifactsFresh(a: Artifacts, t: int, delta: int) {
    && (a.declassification.Some? ==> FreshAt(a.declassification.value, t, delta))
    && match a.approval
       case None => true
       case Some(None) => FreshAt(-BEYOND, t, delta)
       case Some(Some(iat)) => FreshAt(iat, t, delta)
  }

  ghost predicate AllInForce(names: seq<string>, values: map<string, Credential>, t: int) {
    forall name :: name in names && name in values ==> InForce(values[name], t)
  }

  /** No instant is inside the window an unreadable credential is given. */
  lemma UnreadableNeverCovers(t: int)
    ensures Misses(UNREADABLE, t) && !Covers(UNREADABLE, t)
  {
  }

  lemma MissesIsNotInForce(c: Credential, t: int)
    ensures InForce(c, t) <==> (WindowOf(c).Some? ==> !Misses(WindowOf(c).value, t))
  {
    UnreadableNeverCovers(t);
  }

  lemma {:induction false} FirstMissConcat(a: seq<(string, Window)>, b: seq<(string, Window)>, t: int)
    ensures FirstMiss(a + b, t) == if FirstMiss(a, t).Some? then FirstMiss(a, t) else FirstMiss(b, t)
  {
    if a == [] {
      assert a + b == b;
    } else {
      FirstMissConcat(a[1..], b, t);
      assert (a + b)[1..] == a[1..] + b;
    }
  }

  lemma {:induction false} NoMissExactlyInForce(names: seq<string>, values: map<string, Credential>, t: int)
    requires forall name :: name in names ==> name in values
    ensures FirstMiss(WindowsOf(names, values), t) == None <==> AllInForce(names, values, t)
    decreases |names|
  {
    if names != [] {
      var n := |names| - 1;
      var last := WindowOf(values[names[n]]);
      var tail := if last.Some? then [(names[n], last.value)] else [];
      NoMissExactlyInForce(names[..n], values, t);
      FirstMissConcat(WindowsOf(names[..n], values), tail, t);
      MissesIsNotInForce(values[names[n]], t);
      forall name
        ensures name in names <==> name in names[..n] || name == names[n]
      {
        assert names == names[..n] + [names[n]];
      }
      assert last.Some? ==> tail[1..] == [];
    }
  }

  /** A cell may be scored exactly when every time-bound credential of its setup is in force at the instant it
      is judged at, and every artifact bound to the freshness window is within it. */
  lemma ScorableExactlyWhen(artifacts: Artifacts, setup: Setup, judgedAt: int, delta: int)
    requires IsDict(setup)
    ensures ClockRefusal(artifacts, setup, judgedAt, delta) == None <==>
      AllInForce(setup.names, setup.values, judgedAt) && ArtifactsFresh(artifacts, judgedAt, delta)
  {
    StringsAreOrdered();
    SortedSetIsSorted(Leq, setup.names);
    var names := SortedSet(Leq, setup.names);
    NoMissExactlyInForce(names, setup.values, judgedAt);
    assert AllInForce(names, setup.values, judgedAt) == AllInForce(setup.names, setup.values, judgedAt);
    StaleExactlyWhenNotFresh(artifacts, judgedAt, delta);
  }

  lemma OneInstant(instant: (string, int), t: int, delta: int)
    ensures FirstStale([instant], t, delta) == None <==> FreshAt(instant.1, t, delta)
  {
    assert [instant][1..] == [];
  }

  lemma StaleExactlyWhenNotFresh(artifacts: Artifacts, t: int, delta: int)
    ensures FirstStale(ArtifactInstants(artifacts), t, delta) == None <==> ArtifactsFresh(artifacts, t, delta)
  {
    var instants := ArtifactInstants(artifacts);
    if |instants| == 1 {
      OneInstant(instants[0], t, delta);
      assert instants == [instants[0]];
    } else if |instants| == 2 {
      OneInstant(instants[1], t, delta);
      assert instants[1..] == [instants[1]];
    }
  }

  /** The value announces one of the two kinds and cannot be read as it. */
  predicate NeverReads(value: Credential) {
    value.jwt.Unreadable? || (value.jwt.NotThisKind? && value.x509.Unreadable?)
  }

  /** A credential or an approval that announces itself and cannot be read is never evidence: it refuses the
      cell at every instant (the approval, at every instant from 1970 on under any window short of 2^62). */
  lemma UnreadableIsRefused(artifacts: Artifacts, setup: Setup, name: string, judgedAt: int, delta: int)
    requires IsDict(setup)
    ensures name in setup.values && NeverReads(setup.values[name])
      ==> ClockRefusal(artifacts, setup, judgedAt, delta).Some?
    ensures artifacts.approval == Some(None) && judgedAt >= 0 && delta < BEYOND
      ==> ClockRefusal(artifacts, setup, judgedAt, delta).Some?
  {
    ScorableExactlyWhen(artifacts, setup, judgedAt, delta);
  }

  // ---- what a refusal says ----

  /** The window a timed value is judged by: its own, or for an unreadable one the window that holds no instant. */
  predicate JudgedBy(c: Credential, w: Window) {
    || (c.jwt == Timed(w))
    || (c.jwt.NotThisKind? && c.x509 == Timed(w))
    || ((c.jwt.Unreadable? || (c.jwt.NotThisKind? && c.x509.Unreadable?))
        && w == Window(Some(0x4000_0000_0000_0000), -0x4000_0000_0000_0000))
  }

  /** The name is that of an artifact and the instant its own; of two the declassification comes first. */
  predicate StaleArtifact(artifacts: Artifacts, t: int, delta: int, name: string, iat: int) {
    && !FreshAt(iat, t, delta)
    && (|| (name == "declassification" && artifacts.declassification == Some(iat))
        || (&& name == "approval_artifact"
            && (artifacts.declassification.Some? ==> FreshAt(artifacts.declassification.value, t, delta))
            && (|| artifacts.approval == Some(Some(iat))
                || (artifacts.approval == Some(None) && iat == -0x4000_0000_0000_0000))))
  }

  /** The first of the names whose credential is not in force, with the window it was judged by. */
  ghost predicate FirstUncovered(names: seq<string>, values: map<string, Credential>, t: int, n: nat, w: Window)
    requires forall name :: name in names ==> name in values
  {
    n < |names| && JudgedBy(values[names[n]], w) && !InForce(values[names[n]], t) && AllInForce(names[..n], values, t)
  }

  lemma {:induction false} FirstMissNames(names: seq<string>, values: map<string, Credential>, t: int)
    returns (n: nat)
    requires forall name :: name in names ==> name in values
    ensures var r := FirstMiss(WindowsOf(names, values), t);
      r.Some? ==>
        r.value.NotCovered? && FirstUncovered(names, values, t, n, r.value.window) && r.value.name == names[n]
    decreases |names|
  {
    n := 0;
    if names != [] {
      var m := |names| - 1;
      var last := WindowOf(values[names[m]]);
      var tail := if last.Some? then [(names[m], last.value)] else [];
      n := FirstMissNames(names[..m], values, t);
      NoMissExactlyInForce(names[..m], values, t);
      FirstMissConcat(WindowsOf(names[..m], values), tail, t);
      MissesIsNotInForce(values[names[m]], t);
      assert last.Some? ==> tail[1..] == [];
      if FirstMiss(WindowsOf(names[..m], values), t).Some? {
        assert names[..m][n] == names[n] && names[..m][..n] == names[..n];
      } else {
        n := m;
      }
    }
  }

  lemma FirstStaleNames(artifacts: Artifacts, t: int, delta: int)
    ensures var r := FirstStale(ArtifactInstants(artifacts), t, delta);
      r.Some? ==> r.value.Stale? && StaleArtifact(artifacts, t, delta, r.value.name, r.value.iat)
  {
    var instants := ArtifactInstants(artifacts);
    if |instants| == 1 {
      OneStale(instants[0], t, delta);
      assert instants == [instants[0]];
    } else if |instants| == 2 {
      OneStale(instants[1], t, delta);
      assert instants[1..] == [instants[1]];
    }
  }

  lemma OneStale(instant: (string, int), t: int, delta: int)
    ensures FirstStale([instant], t, delta)
      == if FreshAt(instant.1, t, delta) then None else Some(Stale(instant.0, instant.1))
  {
    assert [instant][1..] == [];
  }

  /** A refusal names the first credential, by name, that is not in force, with the window it was judged by; and
      only where all are in force an artifact that is not fresh, the declassification before the approval. */
  lemma RefusalNamesTheCause(artifacts: Artifacts, setup: Setup, t: int, delta: int)
    requires IsDict(setup)
    ensures var r := ClockRefusal(artifacts, setup, t, delta);
      && (r.Some? && r.value.NotCovered? ==>
            && r.value.name in setup.values
            && !InForce(setup.values[r.value.name], t) && JudgedBy(setup.values[r.value.name], r.value.window)
            && forall other :: other in setup.values && other != r.value.name && Leq(other, r.value.name) ==>
              InForce(setup.values[other], t))
      && (r.Some? && r.value.Stale? ==>
            AllInForce(setup.names, setup.values, t)
            && StaleArtifact(artifacts, t, delta, r.value.name, r.value.iat))
  {
    StringsAreOrdered();
    SortedSetIsSorted(Leq, setup.names);
    var names := SortedSet(Leq, setup.names);
    var n := FirstMissNames(names, setup.values, t);
    NoMissExactlyInForce(names, setup.values, t);
    FirstStaleNames(artifacts, t, delta);
    var r := ClockRefusal(artifacts, setup, t, delta);
    if r.Some? && r.value.NotCovered? {
      EarlierAreInForce(names, setup.values, t, n);
    }
  }

  lemma EarlierAreInForce(names: seq<string>, values: map<string, Credential>, t: int, n: nat)
    requires StrictlyAscending(Leq, names) && n < |names| && AllInForce(names[..n], values, t)
    ensures forall other :: other in names && other in values && other != names[n] && Leq(other, names[n]) ==>
      InForce(values[other], t)
  {
    forall other | other in names && other in values && other != names[n] && Leq(other, names[n])
      ensures InForce(values[other], t)
    {
      var k :| 0 <= k < |names| && names[k] == other;
      if k > n {
        LeqTotal(names[n], names[k]);
      } else {
        assert names[..n][k] == other;
      }
    }
  }
}
