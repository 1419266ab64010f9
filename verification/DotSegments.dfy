/** `_remove_dot_segments` of src/sut/dpop.py: a stack of path segments. */
module DotSegments {
  import opened Paths
  import opened Wrappers

  predicate IsDot(segment: string) {
    segment == "." || segment == ".."
  }

  /** One segment against the stack.  `..` pops only a non-empty top. */
  function Push(out: seq<string>, segment: string): seq<string> {
    if segment == "." then out
    else if segment == ".." then
      (if out != [] && out[|out| - 1] != "" then out[..|out| - 1] else out)
    else out + [segment]
  }

  function PushAll(out: seq<string>, segments: seq<string>): seq<string>
    decreases |segments|
  {
    if segments == [] then out else PushAll(Push(out, segments[0]), segments[1..])
  }

  function RemoveDotSegments(path: string): string {
    Join(PushAll([], Split(path)))
  }

  method RemoveDotSegmentsLoop(path: string) returns (r: string)
    ensures r == RemoveDotSegments(path)
  {
    var out: seq<string> := [];
    var segments := Split(path);
    assert segments[0..] == segments;
    for n := 0 to |segments|
      invariant PushAll(out, segments[n..]) == PushAll([], segments)
    {
      assert segments[n..][1..] == segments[n + 1..];
      if segments[n] == "." {
        continue;
      }
      if segments[n] == ".." {
        if out != [] && out[|out| - 1] != "" {
          out := out[..|out| - 1];
        }
        continue;
      }
      out := out + [segments[n]];
    }
    r := Join(out);
  }

  predicate Clean(segments: seq<string>) {
    NoSlashes(segments) && forall i :: 0 <= i < |segments| ==> !IsDot(segments[i])
  }

  lemma {:induction false} PushAllIsClean(out: seq<string>, segments: seq<string>)
    requires Clean(out) && NoSlashes(segments)
    ensures Clean(PushAll(out, segments))
    decreases |segments|
  {
    if segments != [] {
      PushAllIsClean(Push(out, segments[0]), segments[1..]);
    }
  }

  lemma {:induction false} PushAllOfClean(out: seq<string>, segments: seq<string>)
    requires Clean(segments)
    ensures PushAll(out, segments) == out + segments
    decreases |segments|
  {
    if segments != [] {
      PushAllOfClean(out + [segments[0]], segments[1..]);
      assert out + [segments[0]] + segments[1..] == out + segments;
    }
  }

  /** On every path: no dot segment is left, and doing it again changes nothing. */
  lemma RemovalIsIdempotent(path: string)
    ensures forall i :: 0 <= i < |Split(RemoveDotSegments(path))| ==> !IsDot(Split(RemoveDotSegments(path))[i])
    ensures RemoveDotSegments(RemoveDotSegments(path)) == RemoveDotSegments(path)
  {
    var out := PushAll([], Split(path));
    PushAllIsClean([], Split(path));
    if out != [] {
      SplitJoin(out);
      PushAllOfClean([], out);
      assert [] + out == out;
    } else {
      assert Split("") == [""];
      PushAllOfClean([], [""]);
    }
  }

  /** The URL components that `normalize_htu` reads, after `urlsplit`. */
  datatype Url = Url(
    scheme: string, host: Option<string>, port: Option<nat>, path: string, query: string, fragment: string)

  function LowerChar(c: char): char {
    if 'A' <= c <= 'Z' then ((c as int) + 32) as char else c
  }

  function Lower(s: string): string {
    seq(|s|, i requires 0 <= i < |s| => LowerChar(s[i]))
  }

  function DefaultPort(scheme: string): Option<nat> {
    if scheme == "http" then Some(80) else if scheme == "https" then Some(443) else None
  }

  /** `normalize_htu`, from components to components. */
  function NormalizeHtu(u: Url): Url {
    var scheme := Lower(u.scheme);
    var path := RemoveDotSegments(u.path);
    Url(scheme,
        Some(if u.host.Some? then Lower(u.host.value) else ""),
        if u.port.Some? && u.port == DefaultPort(scheme) then None else u.port,
        if path == "" then "/" else path,
        "",
        "")
  }

  lemma LowerIsIdempotent(s: string)
    ensures Lower(Lower(s)) == Lower(s)
  {
  }

  lemma RootIsNormal()
    ensures RemoveDotSegments("/") == "/"
  {
    assert Split("") == [""];
    assert Split("/") == ["", ""];
    PushAllOfClean([], ["", ""]);
    assert [] + ["", ""] == ["", ""];
    assert ["", ""][1..] == [""];
  }

  /** Normalizing a normalized proof target changes nothing, so comparing two is comparing normal forms. */
  lemma NormalizationIsIdempotent(u: Url)
    ensures NormalizeHtu(NormalizeHtu(u)) == NormalizeHtu(u)
  {
    LowerIsIdempotent(u.scheme);
    if u.host.Some? {
      LowerIsIdempotent(u.host.value);
    }
    LowerIsIdempotent("");
    RemovalIsIdempotent(u.path);
    RootIsNormal();
    var v := NormalizeHtu(u);
    assert Lower(v.scheme) == v.scheme && Lower(v.host.value) == v.host.value;
    assert RemoveDotSegments(v.path) == v.path;
    assert NormalizeHtu(v).port == v.port;
  }

  /** The two texts differ in the case of ASCII letters at most. */
  predicate SameButCase(a: string, b: string) {
    |a| == |b| && forall i :: 0 <= i < |a| ==>
      || a[i] == b[i]
      || ('A' <= a[i] <= 'Z' && b[i] as int == a[i] as int + 32)
      || ('A' <= b[i] <= 'Z' && a[i] as int == b[i] as int + 32)
  }

  lemma LowerExactly(a: string, b: string)
    ensures Lower(a) == Lower(b) <==> SameButCase(a, b)
  {
    if Lower(a) == Lower(b) {
      assert |Lower(a)| == |a| && |Lower(b)| == |b|;
      forall i | 0 <= i < |a|
        ensures LowerChar(a[i]) == LowerChar(b[i])
      {
        assert Lower(a)[i] == Lower(b)[i];
      }
    }
  }

  /** The port a target is served at, where that is known: its own, or 80 for http and 443 for https. */
  function EffectivePort(u: Url): Option<nat> {
    if u.port.Some? then u.port
    else if SameButCase(u.scheme, "http") then Some(80)
    else if SameButCase(u.scheme, "https") then Some(443)
    else None
  }

  function HostOf(u: Url): string {
    if u.host.Some? then u.host.value else ""
  }

  /** The two paths are the same without their dot segments, and an empty path is the root. */
  predicate SamePath(p: string, q: string) {
    var a, b := RemoveDotSegments(p), RemoveDotSegments(q);
    a == b || (a in {"", "/"} && b in {"", "/"})
  }

  lemma PortExactly(u: Url)
    ensures NormalizeHtu(u).port ==
      if EffectivePort(u) == (if SameButCase(u.scheme, "http") then Some(80)
                              else if SameButCase(u.scheme, "https") then Some(443) else None)
      then None else EffectivePort(u)
  {
    LowerExactly(u.scheme, "http");
    LowerExactly(u.scheme, "https");
    assert Lower("http") == "http" && Lower("https") == "https";
  }

  /** Two targets have the same normal form exactly when scheme and host agree without case, they are served at the
      same port, and their cleaned paths agree.  Query and fragment never matter. */
  lemma NormalFormsAgreeExactly(u: Url, v: Url)
    ensures NormalizeHtu(u) == NormalizeHtu(v) <==>
      && SameButCase(u.scheme, v.scheme) && SameButCase(HostOf(u), HostOf(v))
      && EffectivePort(u) == EffectivePort(v) && SamePath(u.path, v.path)
  {
    LowerExactly(u.scheme, v.scheme);
    LowerExactly(HostOf(u), HostOf(v));
    LowerExactly(u.scheme, "http");
    LowerExactly(v.scheme, "http");
    LowerExactly(u.scheme, "https");
    LowerExactly(v.scheme, "https");
    PortExactly(u);
    PortExactly(v);
    assert Lower("") == "";
  }
}
