/** Splitting and joining paths at `/`. */
module Paths {

  predicate NoSlash(s: string) {
    '/' !in s
  }

  predicate NoSlashes(segments: seq<string>) {
    forall i :: 0 <= i < |segments| ==> NoSlash(segments[i])
  }

  /** `path.split("/")`. */
  function Split(s: string): (r: seq<string>)
    ensures |r| > 0 && NoSlashes(r)
  {
    if s == "" then [""]
    else if s[0] == '/' then [""] + Split(s[1..])
    else
      var rest := Split(s[1..]);
      [[s[0]] + rest[0]] + rest[1..]
  }

  /** `"/".join(segments)`. */
  function Join(segments: seq<string>): string {
    if segments == [] then ""
    else if |segments| == 1 then segments[0]
    else segments[0] + "/" + Join(segments[1..])
  }

  /** Every segment behind its own slash. */
  function Render(segments: seq<string>): string {
    if segments == [] then "" else "/" + segments[0] + Render(segments[1..])
  }

  lemma {:induction false} JoinIsRender(first: string, rest: seq<string>)
    ensures Join([first] + rest) == first + Render(rest)
    decreases |rest|
  {
    assert ([first] + rest)[1..] == rest;
    if rest != [] {
      JoinIsRender(rest[0], rest[1..]);
      assert [rest[0]] + rest[1..] == rest;
      assert first + "/" + (rest[0] + Render(rest[1..])) == first + ("/" + rest[0] + Render(rest[1..]));
    }
  }

  lemma {:induction false} SplitPrefix(head: string, tail: string)
    requires NoSlash(head) && (tail == "" || tail[0] == '/')
    ensures Split(head + tail) == [head] + (if tail == "" then [] else Split(tail[1..]))
  {
    if head == "" {
      assert head + tail == tail;
    } else {
      assert (head + tail)[1..] == head[1..] + tail;
      SplitPrefix(head[1..], tail);
      assert [head[0]] + head[1..] == head;
    }
  }

  lemma {:induction false} SplitRender(first: string, rest: seq<string>)
    requires NoSlash(first) && NoSlashes(rest)
    ensures Split(first + Render(rest)) == [first] + rest
    decreases |rest|
  {
    SplitPrefix(first, Render(rest));
    if rest != [] {
      SplitRender(rest[0], rest[1..]);
      assert Render(rest)[1..] == rest[0] + Render(rest[1..]);
      assert [rest[0]] + rest[1..] == rest;
    }
  }

  /** Joining then splitting gives the segments back. */
  lemma SplitJoin(segments: seq<string>)
    requires segments != [] && NoSlashes(segments)
    ensures Split(Join(segments)) == segments
  {
    assert segments == [segments[0]] + segments[1..];
    JoinIsRender(segments[0], segments[1..]);
    SplitRender(segments[0], segments[1..]);
  }

  /** Splitting then joining gives the path back. */
  lemma {:induction false} JoinSplit(s: string)
    ensures Join(Split(s)) == s
  {
    if s != "" {
      JoinSplit(s[1..]);
      var rest := Split(s[1..]);
      assert [rest[0]] + rest[1..] == rest;
      if s[0] == '/' {
        JoinIsRender("", rest);
        JoinIsRender(rest[0], rest[1..]);
      } else {
        JoinIsRender(rest[0], rest[1..]);
        JoinIsRender([s[0]] + rest[0], rest[1..]);
      }
    }
  }

  /** An absolute path is its segments, each behind a slash. */
  lemma AbsolutePathIsRendered(path: string)
    requires path != "" && path[0] == '/'
    ensures Split(path)[0] == "" && |Split(path)| > 1
    ensures path == Render(Split(path)[1..])
  {
    JoinSplit(path);
    var segments := Split(path);
    assert segments == [""] + Split(path[1..]);
    JoinIsRender("", segments[1..]);
    assert segments == [segments[0]] + segments[1..];
  }
}
