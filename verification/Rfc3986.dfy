/** Section 5.2.4 of RFC 3986, as the buffer-rewriting algorithm the standard gives, and exactly when the
    stack loop of `DotSegments` computes the same. */
module Rfc3986 {
  import opened Wrappers
  import opened Paths
  import opened DotSegments

  /** Length of the input up to its first slash. */
  function ToSlash(s: string): (n: nat)
    ensures n <= |s| && NoSlash(s[..n]) && (n < |s| ==> s[n] == '/')
  {
    if s == "" || s[0] == '/' then 0 else 1 + ToSlash(s[1..])
  }

  /** Step 2C: remove the last segment and its preceding slash, if any, from the output buffer. */
  function CutLast(output: string): string
    decreases |output|
  {
    if output == "" then ""
    else if output[|output| - 1] == '/' then output[..|output| - 1]
    else CutLast(output[..|output| - 1])
  }

  /** One pass through steps 2A to 2E: the new input and output buffers. */
  function Rewrite(input: string, output: string): (r: (string, string))
    requires input != ""
    ensures |r.0| < |input|
  {
    if "../" <= input then (input[3..], output)                  // 2A
    else if "./" <= input then (input[2..], output)              // 2A
    else if "/./" <= input then (input[2..], output)             // 2B
    else if input == "/." then ("/", output)                     // 2B
    else if "/../" <= input then (input[3..], CutLast(output))   // 2C
    else if input == "/.." then ("/", CutLast(output))           // 2C
    else if input == "." || input == ".." then ("", output)      // 2D
    else
      var n := 1 + ToSlash(input[1..]);                          // 2E
      (input[n..], output + input[..n])
  }

  function RemoveDots(input: string, output: string): string
    decreases |input|
  {
    if input == "" then output
    else
      var (input', output') := Rewrite(input, output);
      RemoveDots(input', output')
  }

  // ---- the same algorithm on segments ----

  function Popped(out: seq<string>): seq<string> {
    if out == [] then [] else out[..|out| - 1]
  }

  function DotFold(segments: seq<string>, out: seq<string>): seq<string>
    decreases |segments|
  {
    if segments == [] then out
    else
      var rest := segments[1..];
      if segments[0] == "." then (if rest == [] then out + [""] else DotFold(rest, out))
      else if segments[0] == ".." then (if rest == [] then Popped(out) + [""] else DotFold(rest, Popped(out)))
      else DotFold(rest, out + [segments[0]])
  }

  lemma {:induction false} RenderAppend(out: seq<string>, segment: string)
    ensures Render(out + [segment]) == Render(out) + "/" + segment
    decreases |out|
  {
    if out == [] {
      assert out + [segment] == [segment] && [segment][1..] == [];
    } else {
      assert (out + [segment])[1..] == out[1..] + [segment];
      RenderAppend(out[1..], segment);
    }
  }

  lemma {:induction false} CutLastOf(before: string, segment: string)
    requires NoSlash(segment)
    ensures CutLast(before + "/" + segment) == before
    decreases |segment|
  {
    var s := before + "/" + segment;
    if segment == "" {
      assert s[..|s| - 1] == before;
    } else {
      assert s[..|s| - 1] == before + "/" + segment[..|segment| - 1];
      CutLastOf(before, segment[..|segment| - 1]);
    }
  }

  lemma CutLastIsPop(out: seq<string>)
    requires NoSlashes(out)
    ensures CutLast(Render(out)) == Render(Popped(out))
  {
    if out != [] {
      var last := |out| - 1;
      assert out == out[..last] + [out[last]];
      RenderAppend(out[..last], out[last]);
      CutLastOf(Render(out[..last]), out[last]);
    }
  }

  lemma {:induction false} ToSlashOf(segment: string, tail: string)
    requires NoSlash(segment) && (tail == "" || tail[0] == '/')
    ensures ToSlash(segment + tail) == |segment|
  {
    if segment == "" {
      assert segment + tail == tail;
    } else {
      assert (segment + tail)[1..] == segment[1..] + tail;
      ToSlashOf(segment[1..], tail);
    }
  }

  /** Steps 2A to 2D do not apply. */
  predicate StepE(input: string) {
    && input != ""
    && !("../" <= input) && !("./" <= input) && !("/./" <= input) && input != "/."
    && !("/../" <= input) && input != "/.." && input != "." && input != ".."
  }

  lemma OrdinarySegmentIsStepE(segment: string, tail: string)
    requires NoSlash(segment) && !IsDot(segment) && (tail == "" || tail[0] == '/')
    ensures StepE("/" + segment + tail)
  {
    var input := "/" + segment + tail;
    assert input[0] == '/';
    assert input[1..] == segment + tail;
    if segment == "" {
      assert input[1..] == tail;
      assert |input| > 1 ==> input[1] == '/';
    } else {
      assert input[1] == segment[0];
      if |segment| == 1 {
        assert input[1] != '.' by {
          assert segment[0] == '.' ==> segment == ".";
        }
      } else {
        assert input[2] == segment[1];
        if |segment| == 2 {
          assert input[1] != '.' || input[2] != '.' by {
            assert segment[0] == '.' && segment[1] == '.' ==> segment == "..";
          }
        } else {
          assert input[3] == segment[2];
        }
      }
    }
  }

  /** A segment that is no dot segment is moved to the output whole. */
  lemma OrdinarySegmentMoves(segment: string, tail: string, output: string)
    requires NoSlash(segment) && !IsDot(segment) && (tail == "" || tail[0] == '/')
    ensures Rewrite("/" + segment + tail, output) == (tail, output + "/" + segment)
  {
    var input := "/" + segment + tail;
    var n := 1 + |segment|;
    assert input[1..] == segment + tail;
    ToSlashOf(segment, tail);
    OrdinarySegmentIsStepE(segment, tail);
    assert input[n..] == tail && input[..n] == "/" + segment;
    assert output + ("/" + segment) == output + "/" + segment;
  }

  lemma SlashMoves(output: string)
    ensures RemoveDots("/", output) == output + "/"
  {
    OrdinarySegmentMoves("", "", output);
    assert "/" + "" + "" == "/" && output + "/" + "" == output + "/";
    assert Rewrite("/", output) == ("", output + "/");
  }

  lemma SingleDotIsSkipped(tail: string, output: string)
    requires tail != "" && tail[0] == '/'
    ensures Rewrite("/." + tail, output) == (tail, output)
  {
    var input := "/." + tail;
    assert input[2..] == tail && input[2] == '/';
    assert input[..3] == "/./";
    assert input[0] == '/';
  }

  lemma DoubleDotCuts(tail: string, output: string)
    requires tail != "" && tail[0] == '/'
    ensures Rewrite("/.." + tail, output) == (tail, CutLast(output))
  {
    var input := "/.." + tail;
    assert input[3..] == tail && input[3] == '/';
    assert input[..4] == "/../";
    assert input[0] == '/' && input[2] == '.';
  }

  lemma FinalDots(out: seq<string>)
    requires NoSlashes(out)
    ensures RemoveDots("/.", Render(out)) == Render(out + [""])
    ensures RemoveDots("/..", Render(out)) == Render(Popped(out) + [""])
  {
    var buffer := Render(out);
    var dot, dots := "/.", "/..";
    assert dot[0] == '/' && |dot| == 2 && "./"[0] == '.';
    assert dots[0] == '/' && dots[2] == '.' && |dots| == 3 && "../"[0] == '.' && "/./"[2] == '/';
    assert Rewrite(dot, buffer) == ("/", buffer);
    SlashMoves(buffer);
    RenderAppend(out, "");
    CutLastIsPop(out);
    assert Rewrite(dots, buffer) == ("/", CutLast(buffer));
    SlashMoves(Render(Popped(out)));
    RenderAppend(Popped(out), "");
    assert buffer + "/" + "" == buffer + "/";
    assert Render(Popped(out)) + "/" + "" == Render(Popped(out)) + "/";
  }

  lemma RenderStartsWithSlash(segments: seq<string>)
    requires segments != []
    ensures Render(segments) != "" && Render(segments)[0] == '/'
    ensures segments[0] == "." ==> Render(segments) == "/." + Render(segments[1..])
    ensures segments[0] == ".." ==> Render(segments) == "/.." + Render(segments[1..])
  {
  }

  /** On absolute paths the buffer algorithm is the fold over segments. */
  lemma {:induction false} BufferIsFold(segments: seq<string>, out: seq<string>)
    requires NoSlashes(segments) && NoSlashes(out)
    ensures RemoveDots(Render(segments), Render(out)) == Render(DotFold(segments, out))
    decreases |segments|
  {
    if segments != [] {
      var rest := segments[1..];
      RenderStartsWithSlash(segments);
      if IsDot(segments[0]) && rest == [] {
        FinalDots(out);
      } else if segments[0] == "." {
        RenderStartsWithSlash(rest);
        SingleDotIsSkipped(Render(rest), Render(out));
        BufferIsFold(rest, out);
      } else if segments[0] == ".." {
        RenderStartsWithSlash(rest);
        DoubleDotCuts(Render(rest), Render(out));
        CutLastIsPop(out);
        BufferIsFold(rest, Popped(out));
      } else {
        BufferMovesOne(segments, out);
        BufferIsFold(rest, out + [segments[0]]);
      }
    }
  }

  lemma BufferMovesOne(segments: seq<string>, out: seq<string>)
    requires segments != [] && NoSlashes(segments) && !IsDot(segments[0])
    ensures RemoveDots(Render(segments), Render(out)) == RemoveDots(Render(segments[1..]), Render(out + [segments[0]]))
  {
    if segments[1..] != [] {
      RenderStartsWithSlash(segments[1..]);
    }
    OrdinarySegmentMoves(segments[0], Render(segments[1..]), Render(out));
    RenderAppend(out, segments[0]);
  }

  // ---- where the stack loop parts from the standard ----

  /** A `..` finds an empty segment on top of the loop's stack: the loop keeps it, the standard removes it. */
  predicate Refuses(segment: string, out: seq<string>) {
    segment == ".." && out != [] && out[|out| - 1] == ""
  }

  function Refusals(segments: seq<string>, out: seq<string>): nat
    decreases |segments|
  {
    if segments == [] then 0
    else (if Refuses(segments[0], out) then 1 else 0) + Refusals(segments[1..], Push(out, segments[0]))
  }

  /** Where on the stack the first refused segment is. */
  function FirstRefused(segments: seq<string>, out: seq<string>): (r: Option<nat>)
    decreases |segments|
  {
    if segments == [] then None
    else if Refuses(segments[0], out) then Some(|out| - 1)
    else FirstRefused(segments[1..], Push(out, segments[0]))
  }

  /** Every refusal meets a stack of a single segment. */
  predicate AllShort(segments: seq<string>, out: seq<string>)
    decreases |segments|
  {
    segments == [] || ((Refuses(segments[0], out) ==> |out| == 1) && AllShort(segments[1..], Push(out, segments[0])))
  }

  /** Every refusal but the first does. */
  predicate ShortAfterFirst(segments: seq<string>, out: seq<string>)
    decreases |segments|
  {
    segments == []
    || (if Refuses(segments[0], out) then AllShort(segments[1..], out)
        else ShortAfterFirst(segments[1..], Push(out, segments[0])))
  }

  predicate EndsInDot(segments: seq<string>) {
    segments != [] && IsDot(segments[|segments| - 1])
  }

  /** The standard without its last slash. */
  function Standard(segments: seq<string>, out: seq<string>): seq<string>
    decreases |segments|
  {
    if segments == [] then out
    else if segments[0] == "." then Standard(segments[1..], out)
    else if segments[0] == ".." then Standard(segments[1..], Popped(out))
    else Standard(segments[1..], out + [segments[0]])
  }

  lemma {:induction false} DotFoldIsStandard(segments: seq<string>, out: seq<string>)
    ensures DotFold(segments, out) == Standard(segments, out) + (if EndsInDot(segments) then [""] else [])
    decreases |segments|
  {
    if segments != [] {
      var rest := segments[1..];
      if rest == [] {
        assert Standard(rest, Popped(out)) == Popped(out);
      } else {
        assert segments[|segments| - 1] == rest[|rest| - 1];
        DotFoldIsStandard(rest, out);
        DotFoldIsStandard(rest, Popped(out));
        DotFoldIsStandard(rest, out + [segments[0]]);
      }
    }
  }

  /** Without refusals the two run in step. */
  lemma {:induction false} InStep(segments: seq<string>, out: seq<string>)
    requires Refusals(segments, out) == 0
    ensures Standard(segments, out) == PushAll(out, segments)
    decreases |segments|
  {
    if segments != [] {
      InStep(segments[1..], Push(out, segments[0]));
    }
  }

  /** Once a refusal happened the loop's stack stays longer: everything under the refused empty segment is
      out of its reach, while the standard goes on removing. */
  lemma {:induction false} StaysLonger(
    segments: seq<string>, mine: seq<string>, shared: seq<string>, theirs: seq<string>, more: nat)
    requires mine != [] && mine[|mine| - 1] == "" && |mine| >= |theirs| + more
    ensures |PushAll(mine + shared, segments)| >= |Standard(segments, theirs + shared)| + more
    decreases |segments|
  {
    if segments != [] {
      var rest := segments[1..];
      if segments[0] == "." {
        StaysLonger(rest, mine, shared, theirs, more);
      } else if segments[0] != ".." {
        assert mine + shared + [segments[0]] == mine + (shared + [segments[0]]);
        assert theirs + shared + [segments[0]] == theirs + (shared + [segments[0]]);
        StaysLonger(rest, mine, shared + [segments[0]], theirs, more);
      } else if shared == [] {
        assert mine + shared == mine && theirs + shared == theirs && mine + [] == mine;
        assert Popped(theirs) + [] == Popped(theirs);
        StaysLonger(rest, mine, [], Popped(theirs), more);
      } else {
        ParentOfShared(mine, shared, theirs);
        if shared[|shared| - 1] == "" {
          StaysLonger(rest, mine + shared, [], theirs + shared[..|shared| - 1], more);
        } else {
          StaysLonger(rest, mine, shared[..|shared| - 1], theirs, more);
        }
      }
    }
  }

  lemma ParentOfShared(mine: seq<string>, shared: seq<string>, theirs: seq<string>)
    requires shared != []
    ensures var front := shared[..|shared| - 1];
      && Popped(theirs + shared) == theirs + front == theirs + front + []
      && Push(mine + shared, "..") == (if shared[|shared| - 1] == "" then mine + shared + [] else mine + front)
  {
  }

  /** One refusal behind: the loop has the refused empty segment, the standard does not, and above it they
      agree. */
  ghost predicate OneBehind(mine: seq<string>, theirs: seq<string>, under: seq<string>, above: seq<string>) {
    mine == under + [""] + above && theirs == under + above
  }

  lemma OneBehindPush(mine: seq<string>, theirs: seq<string>, under: seq<string>, above: seq<string>, segment: string)
    requires OneBehind(mine, theirs, under, above) && !IsDot(segment)
    ensures OneBehind(mine + [segment], theirs + [segment], under, above + [segment])
  {
  }

  lemma OneBehindPop(mine: seq<string>, theirs: seq<string>, under: seq<string>, above: seq<string>)
    requires OneBehind(mine, theirs, under, above) && !Refuses("..", mine)
    ensures above != [] && OneBehind(Push(mine, ".."), Popped(theirs), under, above[..|above| - 1])
  {
    assert mine[|mine| - 1] == if above == [] then "" else above[|above| - 1];
  }

  /** A refusal on a longer stack puts the loop two behind, for good. */
  lemma TwoBehind(segments: seq<string>, mine: seq<string>, theirs: seq<string>, under: seq<string>, above: seq<string>)
    requires OneBehind(mine, theirs, under, above) && Refuses("..", mine) && |mine| > 1
    ensures |PushAll(mine, segments)| >= |Standard(segments, Popped(theirs))| + 2
  {
    assert mine + [] == mine && Popped(theirs) + [] == Popped(theirs);
    StaysLonger(segments, mine, [], Popped(theirs), 2);
  }

  /** From one refusal on: further refusals are harmless exactly on a stack of one segment. */
  lemma {:induction false} FromFirstRefusal(
    segments: seq<string>, mine: seq<string>, theirs: seq<string>, under: seq<string>, above: seq<string>)
    returns (above': seq<string>)
    requires OneBehind(mine, theirs, under, above)
    ensures AllShort(segments, mine) ==> OneBehind(PushAll(mine, segments), Standard(segments, theirs), under, above')
    ensures !AllShort(segments, mine) ==> |PushAll(mine, segments)| >= |Standard(segments, theirs)| + 2
    decreases |segments|
  {
    above' := above;
    if segments != [] {
      var rest := segments[1..];
      if segments[0] == "." {
        above' := FromFirstRefusal(rest, mine, theirs, under, above);
      } else if segments[0] != ".." {
        OneBehindPush(mine, theirs, under, above, segments[0]);
        above' := FromFirstRefusal(rest, mine + [segments[0]], theirs + [segments[0]], under, above + [segments[0]]);
      } else if !Refuses("..", mine) {
        OneBehindPop(mine, theirs, under, above);
        above' := FromFirstRefusal(rest, Push(mine, ".."), Popped(theirs), under, above[..|above| - 1]);
      } else if |mine| > 1 {
        TwoBehind(rest, mine, theirs, under, above);
      } else {
        above' := FromFirstRefusal(rest, mine, theirs, under, above);
      }
    }
  }

  /** No segment from here on. */
  predicate EmptyFrom(out: seq<string>, n: nat) {
    forall i :: n <= i < |out| ==> out[i] == ""
  }

  lemma {:induction false} ShiftedIsSame(above: seq<string>)
    ensures [""] + above == above + [""] <==> EmptyFrom(above, 0)
  {
    if [""] + above == above + [""] {
      SameShifted(above, |above|);
    } else {
      var i :| 0 <= i < |above| + 1 && ([""] + above)[i] != (above + [""])[i];
      assert i < |above| ==> (above + [""])[i] == above[i];
      assert i > 0 ==> ([""] + above)[i] == above[i - 1];
    }
  }

  lemma {:induction false} SameShifted(above: seq<string>, n: nat)
    requires [""] + above == above + [""] && n <= |above|
    ensures forall i :: 0 <= i < n ==> above[i] == ""
  {
    if n > 0 {
      SameShifted(above, n - 1);
      assert ([""] + above)[n - 1] == (above + [""])[n - 1];
    }
  }

  lemma OneBehindAgreement(mine: seq<string>, theirs: seq<string>, under: seq<string>, above: seq<string>)
    requires OneBehind(mine, theirs, under, above)
    ensures mine == theirs + [""] <==> EmptyFrom(mine, |under|)
  {
    ShiftedIsSame(above);
    assert mine == under + ([""] + above) && theirs + [""] == under + (above + [""]);
    assert mine[|under|..] == [""] + above && (theirs + [""])[|under|..] == above + [""];
    forall i | 0 <= i < |above|
      ensures mine[|under| + 1 + i] == above[i]
    {
    }
    assert EmptyFrom(mine, |under|) <==> EmptyFrom(above, 0) by {
      if EmptyFrom(above, 0) {
        forall k | |under| <= k < |mine|
          ensures mine[k] == ""
        {
          assert k > |under| ==> mine[k] == above[k - |under| - 1];
        }
      }
    }
  }

  /** The loop with nothing added against the standard with its last slash. */
  lemma {:induction false} SlashExactly(segments: seq<string>, out: seq<string>)
    ensures PushAll(out, segments) == Standard(segments, out) + [""] <==>
      var first := FirstRefused(segments, out);
      first.Some? && ShortAfterFirst(segments, out) && EmptyFrom(PushAll(out, segments), first.value)
    decreases |segments|
  {
    if segments != [] {
      var rest := segments[1..];
      if Refuses(segments[0], out) {
        var under := out[..|out| - 1];
        assert OneBehind(out, Popped(out), under, []);
        var above := FromFirstRefusal(rest, out, Popped(out), under, []);
        if AllShort(rest, out) {
          OneBehindAgreement(PushAll(out, rest), Standard(rest, Popped(out)), under, above);
        }
      } else {
        SlashExactly(rest, Push(out, segments[0]));
      }
    }
  }

  lemma {:induction false} NoRefusalsNoFirst(segments: seq<string>, out: seq<string>)
    ensures FirstRefused(segments, out).None? <==> Refusals(segments, out) == 0
    decreases |segments|
  {
    if segments != [] {
      NoRefusalsNoFirst(segments[1..], Push(out, segments[0]));
    }
  }

  lemma {:induction false} RefusalMakesThemDiffer(segments: seq<string>, out: seq<string>)
    requires Refusals(segments, out) > 0
    ensures |PushAll(out, segments)| > |Standard(segments, out)|
    decreases |segments|
  {
    var rest := segments[1..];
    if Refuses(segments[0], out) {
      assert out + [] == out && Popped(out) + [] == Popped(out);
      StaysLonger(rest, out, [], Popped(out), 1);
    } else {
      RefusalMakesThemDiffer(rest, Push(out, segments[0]));
    }
  }

  lemma {:induction false} PushAllUnderRoot(segments: seq<string>, out: seq<string>)
    ensures PushAll([""] + out, segments) == [""] + PushAll(out, segments)
    decreases |segments|
  {
    if segments != [] {
      PushAllUnderRoot(segments[1..], Push(out, segments[0]));
      assert [""] + out + [segments[0]] == [""] + (out + [segments[0]]);
      if out != [] {
        assert ([""] + out)[..|[""] + out| - 1] == [""] + out[..|out| - 1];
      }
      assert Push([""] + out, segments[0]) == [""] + Push(out, segments[0]);
    }
  }

  /** The loop's answer on an absolute path, in segments. */
  lemma LoopOnAbsolutePath(path: string)
    requires path != "" && path[0] == '/'
    ensures RemoveDotSegments(path) == Render(PushAll([], Split(path)[1..]))
    ensures RemoveDots(path, "") == Render(DotFold(Split(path)[1..], []))
    ensures NoSlashes(PushAll([], Split(path)[1..]))
  {
    AbsolutePathIsRendered(path);
    var segments := Split(path)[1..];
    assert Split(path) == [""] + segments;
    assert Push([], "") == [""] && [""] + [] == [""];
    PushAllUnderRoot(segments, []);
    JoinIsRender("", PushAll([], segments));
    BufferIsFold(segments, []);
    PushAllIsClean([], segments);
  }

  lemma {:induction false} DotFoldNoSlashes(segments: seq<string>, out: seq<string>)
    requires NoSlashes(segments) && NoSlashes(out)
    ensures NoSlashes(DotFold(segments, out))
    decreases |segments|
  {
    if segments != [] {
      DotFoldNoSlashes(segments[1..], out);
      DotFoldNoSlashes(segments[1..], Popped(out));
      DotFoldNoSlashes(segments[1..], out + [segments[0]]);
    }
  }

  lemma RenderIsInjective(a: seq<string>, b: seq<string>)
    requires NoSlashes(a) && NoSlashes(b) && Render(a) == Render(b)
    ensures a == b
  {
    SplitRender("", a);
    SplitRender("", b);
    assert ([""] + a)[1..] == a && ([""] + b)[1..] == b;
  }

  /** In segments: when the loop's answer is the standard's. */
  lemma FoldsAgreeExactly(segments: seq<string>)
    ensures PushAll([], segments) == DotFold(segments, []) <==>
      if EndsInDot(segments) then
        var first := FirstRefused(segments, []);
        first.Some? && ShortAfterFirst(segments, []) && EmptyFrom(PushAll([], segments), first.value)
      else Refusals(segments, []) == 0
  {
    DotFoldIsStandard(segments, []);
    if EndsInDot(segments) {
      SlashExactly(segments, []);
    } else {
      assert Standard(segments, []) + [] == Standard(segments, []);
      if Refusals(segments, []) == 0 {
        InStep(segments, []);
      } else {
        RefusalMakesThemDiffer(segments, []);
      }
    }
  }

  lemma PathsAgreeWithFolds(path: string)
    requires path != "" && path[0] == '/'
    ensures RemoveDotSegments(path) == RemoveDots(path, "") <==>
      PushAll([], Split(path)[1..]) == DotFold(Split(path)[1..], [])
    ensures EndsInDot(Split(path)) <==> EndsInDot(Split(path)[1..])
  {
    AbsolutePathIsRendered(path);
    LoopOnAbsolutePath(path);
    var segments := Split(path)[1..];
    DotFoldNoSlashes(segments, []);
    if Render(PushAll([], segments)) == Render(DotFold(segments, [])) {
      RenderIsInjective(PushAll([], segments), DotFold(segments, []));
    }
  }

  /** For every absolute path: if it does not end in a dot segment, the loop computes what the standard computes
      exactly when no `..` meets an empty segment.  If it does, exactly when one does, every later one meets a
      stack of one segment, and from the first refused segment on the loop's answer is all empty segments. */
  lemma AgreesExactly(path: string)
    requires path != "" && path[0] == '/'
    ensures var segments := Split(path)[1..];
      RemoveDotSegments(path) == RemoveDots(path, "") <==>
      if EndsInDot(Split(path)) then
        var first := FirstRefused(segments, []);
        first.Some? && ShortAfterFirst(segments, []) && EmptyFrom(PushAll([], segments), first.value)
      else Refusals(segments, []) == 0
  {
    PathsAgreeWithFolds(path);
    FoldsAgreeExactly(Split(path)[1..]);
  }

  lemma AgreesExactlyWithoutRefusals(path: string)
    requires path != "" && path[0] == '/' && !EndsInDot(Split(path))
    ensures RemoveDotSegments(path) == RemoveDots(path, "") <==> Refusals(Split(path)[1..], []) == 0
  {
    AgreesExactly(path);
  }

  /** With a final dot segment and no refusal the standard's answer is the loop's with a slash behind it,
      so the two always differ there. */
  lemma FinalDotSegmentLosesTheSlash(path: string)
    requires path != "" && path[0] == '/' && EndsInDot(Split(path))
    requires Refusals(Split(path)[1..], []) == 0
    ensures RemoveDots(path, "") == RemoveDotSegments(path) + "/"
  {
    PathsAgreeWithFolds(path);
    LoopOnAbsolutePath(path);
    var segments := Split(path)[1..];
    InStep(segments, []);
    DotFoldIsStandard(segments, []);
    RenderAppend(PushAll([], segments), "");
  }

  lemma RenderOf(segment: string, rest: seq<string>)
    ensures Render([segment] + rest) == "/" + segment + Render(rest)
  {
    assert ([segment] + rest)[1..] == rest;
  }

  lemma SplitOf(segments: seq<string>)
    requires NoSlashes(segments)
    ensures Split(Render(segments)) == [""] + segments && Split(Render(segments))[1..] == segments
  {
    SplitRender("", segments);
    assert "" + Render(segments) == Render(segments);
  }

  lemma DotAtTheEnd(segments: seq<string>)
    requires NoSlashes(segments) && segments != [] && EndsInDot(segments) && Refusals(segments, []) == 0
    ensures RemoveDotSegments(Render(segments)) == Render(PushAll([], segments))
    ensures RemoveDots(Render(segments), "") == Render(PushAll([], segments)) + "/"
  {
    SplitOf(segments);
    LoopOnAbsolutePath(Render(segments));
    FinalDotSegmentLosesTheSlash(Render(segments));
  }

  lemma EmptySegmentRefused(segments: seq<string>)
    requires NoSlashes(segments) && segments != [] && !EndsInDot(segments) && Refusals(segments, []) > 0
    ensures RemoveDotSegments(Render(segments)) != RemoveDots(Render(segments), "")
  {
    SplitOf(segments);
    AgreesExactly(Render(segments));
  }

  /** A final dot that loses its slash. */
  lemma DotLosesItsSlash(path: string)
    requires path == "/a/."
    ensures RemoveDotSegments(path) == "/a" && RemoveDots(path, "") == "/a/"
  {
    var segments := ["a"] + ["."];
    RenderOf("a", ["."]);
    RenderOf(".", []);
    RenderOf("a", []);
    assert path == Render(segments);
    AThenDot(segments);
    DotAtTheEnd(segments);
  }

  lemma AThenDot(segments: seq<string>)
    requires segments == ["a"] + ["."]
    ensures PushAll([], segments) == ["a"] && Refusals(segments, []) == 0
  {
    var rest := segments[1..];
    assert rest == ["."] && rest[1..] == [];
    assert segments[0] == "a" && Push([], "a") == ["a"];
    assert Push(["a"], ".") == ["a"] && PushAll(["a"], rest) == PushAll(["a"], rest[1..]) == ["a"];
    assert Refusals(rest, ["a"]) == Refusals(rest[1..], ["a"]) == 0;
  }

  /** An empty segment that the loop keeps under a `..`. */
  lemma EmptySegmentIsKept(path: string)
    requires path == "//../a"
    ensures RemoveDotSegments(path) != RemoveDots(path, "")
  {
    var rest := [".."] + ["a"];
    RenderOf("a", []);
    RenderOf("..", ["a"]);
    RenderOf("", rest);
    assert path == Render([""] + rest);
    EmptyThenUp(rest);
    EmptySegmentRefused([""] + rest);
  }

  lemma EmptyThenUp(rest: seq<string>)
    requires rest == [".."] + ["a"]
    ensures Refusals([""] + rest, []) > 0
  {
    assert ([""] + rest)[1..] == rest;
    assert Push([], "") == [""] && Refuses("..", [""]);
  }

  /** No segment is empty, except possibly the last. */
  predicate NoInnerEmpty(segments: seq<string>) {
    forall i :: 0 <= i < |segments| - 1 ==> segments[i] != ""
  }

  lemma {:induction false} NoInnerEmptyNoRefusals(segments: seq<string>, out: seq<string>)
    requires NoInnerEmpty(segments) && forall i :: 0 <= i < |out| ==> out[i] != ""
    ensures Refusals(segments, out) == 0
    decreases |segments|
  {
    if |segments| == 1 {
      assert segments[1..] == [];
    } else if segments != [] {
      NoInnerEmptyNoRefusals(segments[1..], Push(out, segments[0]));
    }
  }

  /** On absolute paths without inner empty segments, agreement with the standard is decided by the last
      segment alone. */
  lemma AgreesUnlessThePathEndsInADot(path: string)
    requires path != "" && path[0] == '/' && NoInnerEmpty(Split(path)[1..])
    ensures RemoveDotSegments(path) == RemoveDots(path, "") <==> !EndsInDot(Split(path))
  {
    NoInnerEmptyNoRefusals(Split(path)[1..], []);
    if EndsInDot(Split(path)) {
      FinalDotSegmentLosesTheSlash(path);
    } else {
      AgreesExactlyWithoutRefusals(path);
    }
  }
}
