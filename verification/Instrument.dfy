/** The code that runs when a wrapped tool is called: `_mediate`, `record_ingress`, the effector, and the
    ledger process at the other end of the writer's pipe.  Each method is tied to a step of `Machine`. */
module Instrument {
  import opened Sequences
  import opened Records
  import opened Closures
  import opened Machine

  /** The arm's answer, or its failure to give one. */
  datatype Answer = Says(admit: bool, reason: string) | Raises

  /** Everything outside the harness during one call. */
  datatype Env = Env(digest: string, decide: string -> Answer, entry: string -> (int, Ack), acts: seq<(Act, Ack)>)

  function AnswerChoice(a: Answer): Choice {
    match a
    case Says(admit, reason) => Decide(admit, reason)
    case Raises => DecideRaises
  }

  /** A stub makes its effector calls in order; one that fails raises out of the stub. */
  function ActScript(cid: Cid, acts: seq<(Act, Ack)>): seq<Choice> {
    if acts == [] then [Return]
    else
      var rest := if Acknowledged(cid, acts[0].1) then ActScript(cid, acts[1..]) else [Return];
      [Effect(acts[0].0, acts[0].1)] + rest
  }

  function Script(cid: Cid, fn: Fn, env: Env): seq<Choice> {
    match fn
    case Mediated(tool, inner) => [AnswerChoice(env.decide(tool))] + Script(cid, inner, env)
    case Recorded(tool, inner) => [Enter(env.entry(tool).0, env.entry(tool).1)] + Script(cid, inner, env)
    case Body(_) => ActScript(cid, env.acts)
  }

  /** One call run by itself; what is left of the script once it stopped is never looked at. */
  function RunThread(p: Plane, cid: Cid, th: Thread, choices: seq<Choice>): (Plane, Thread)
    decreases |choices|
  {
    if choices == [] || !th.running then (p, th)
    else
      var (p', th') := Micro(p, cid, th, choices[0]);
      RunThread(p', cid, th', choices[1..])
  }

  class Harness {
    const audience: string
    var events: seq<MediationEvent>
    var ledger: seq<Row>

    constructor (audience: string)
      ensures this.audience == audience && events == [] && ledger == []
    {
      this.audience := audience;
      events, ledger := [], [];
    }

    ghost function Snapshot(): Plane
      reads this
    {
      Plane(audience, events, ledger)
    }

    /** Emit exactly one event, then deny by raising. */
    method Mediate(cid: Cid, admit: bool, reason: string) returns (raised: bool)
      modifies `events
      ensures events == old(events) + [MediationEvent(cid, admit, reason)]
      ensures raised == !admit
    {
      events := events + [MediationEvent(cid, admit, reason)];
      raised := !admit;
    }

    method Append(row: Row, ack: Ack) returns (ok: bool)
      modifies `ledger
      ensures ledger == Appended(old(ledger), row, ack)
      ensures ok == Acknowledged(row.cid, ack)
    {
      if row.cid != "" && !ack.Refused? {
        ledger := ledger + [row];
      }
      ok := row.cid != "" && ack.Acked?;
    }

    /** Run a closure.  It raises unless it ran to the end of its body. */
    method Invoke(cid: Cid, fn: Fn, env: Env, ghost th: Thread) returns (raised: bool, ghost th': Thread)
      requires th.code == fn && th.running && th.digest == env.digest
      modifies this
      ensures (Snapshot(), th') == RunThread(old(Snapshot()), cid, th, Script(cid, fn, env))
      ensures !th'.running
      ensures !raised ==> th'.code.Body?
      decreases fn
    {
      match fn
      case Mediated(tool, inner) =>
        ghost var step := Micro(Snapshot(), cid, th, AnswerChoice(env.decide(tool)));
        assert Script(cid, fn, env)[1..] == Script(cid, inner, env);
        th' := step.1;
        var answer := env.decide(tool);
        raised := true;
        if answer.Says? {
          raised := Mediate(cid, answer.admit, answer.reason);
          if !raised {
            raised, th' := Invoke(cid, inner, env, step.1);
          }
        }
      case Recorded(tool, inner) =>
        var (ts, ack) := env.entry(tool);
        ghost var step := Micro(Snapshot(), cid, th, Enter(ts, ack));
        assert Script(cid, fn, env)[1..] == Script(cid, inner, env);
        th' := step.1;
        var ok := Append(IngressRow(cid, tool, audience, env.digest, ts), ack);
        raised := !ok;
        if ok {
          raised, th' := Invoke(cid, inner, env, step.1);
        }
      case Body(name) =>
        raised, th' := RunBody(cid, name, env.acts, th);
    }

    /** The tool stub and its effector. */
    method RunBody(cid: Cid, name: string, acts: seq<(Act, Ack)>, ghost th: Thread)
      returns (raised: bool, ghost th': Thread)
      requires th.code == Body(name) && th.running
      modifies this
      ensures (Snapshot(), th') == RunThread(old(Snapshot()), cid, th, ActScript(cid, acts))
      ensures !th'.running && th'.code.Body?
    {
      th' := th;
      var n := 0;
      while n < |acts|
        invariant 0 <= n <= |acts|
        invariant th'.code == Body(name) && th'.running
        invariant RunThread(Snapshot(), cid, th', ActScript(cid, acts[n..]))
               == RunThread(old(Snapshot()), cid, th, ActScript(cid, acts))
      {
        assert acts[n..][1..] == acts[n + 1..];
        ghost var script := ActScript(cid, acts[n..]);
        th' := Micro(Snapshot(), cid, th', Effect(acts[n].0, acts[n].1)).1;
        var ok := Append(EffectRow(cid, name, audience, acts[n].0), acts[n].1);
        if !ok {
          assert script[1..] == [Return] && [Return][1..] == [];
          assert RunThread(Snapshot(), cid, th', [Return]) == (Snapshot(), th'.(running := false));
          th' := th'.(running := false);
          return true, th';
        }
        assert script[1..] == ActScript(cid, acts[n + 1..]);
        n := n + 1;
      }
      assert acts[n..] == [];
      th' := th'.(running := false);
      raised := false;
    }
  }

  function Labels(cid: Cid, choices: seq<Choice>): seq<Label> {
    if choices == [] then [] else [Do(cid, choices[0])] + Labels(cid, choices[1..])
  }

  /** A call made by itself is one of the machine's runs, so everything proved of every run holds of it. */
  lemma {:induction false} LoneCallIsARun(s: State, cid: Cid, choices: seq<Choice>)
    requires cid in s.threads
    ensures var (p, th) := RunThread(s.plane, cid, s.threads[cid], choices);
      Run(s, Labels(cid, choices)) == State(p, s.threads[cid := th])
    decreases |choices|
  {
    if choices == [] {
      assert s.threads[cid := s.threads[cid]] == s.threads;
    } else {
      var s' := Step(s, Do(cid, choices[0]));
      assert Labels(cid, choices)[1..] == Labels(cid, choices[1..]);
      LoneCallIsARun(s', cid, choices[1..]);
      if s.threads[cid].running {
        var (p, th) := RunThread(s.plane, cid, s.threads[cid], choices);
        assert s.threads[cid := s'.threads[cid]][cid := th] == s.threads[cid := th];
      } else {
        assert s' == s;
        assert s.threads[cid := s.threads[cid]] == s.threads;
      }
    }
  }

  // ---- the ledger process ----

  /** One line on the ledger process's standard input, after `strip`. */
  datatype Line = Blank | NotARecord | Record(row: Row)

  predicate Accepted(line: Line) {
    line.Record? && line.row.cid != ""
  }

  function AcceptedRows(lines: seq<Line>): seq<Row> {
    if lines == [] then []
    else (if Accepted(lines[0]) then [lines[0].row] else []) + AcceptedRows(lines[1..])
  }

  /** Blank lines get no answer; every other line gets exactly one. */
  function Answers(lines: seq<Line>): seq<bool> {
    if lines == [] then []
    else (if lines[0].Blank? then [] else [Accepted(lines[0])]) + Answers(lines[1..])
  }

  class LedgerProcess {
    var file: seq<Row>
    var replies: seq<bool>

    constructor (file: seq<Row>)
      ensures this.file == file && replies == []
    {
      this.file := file;
      replies := [];
    }

    /** The accept-write-acknowledge loop over everything that arrives on the pipe. */
    method Serve(lines: seq<Line>)
      modifies this
      ensures file == old(file) + AcceptedRows(lines)
      ensures replies == old(replies) + Answers(lines)
    {
      var n := 0;
      while n < |lines|
        invariant 0 <= n <= |lines|
        invariant file + AcceptedRows(lines[n..]) == old(file) + AcceptedRows(lines)
        invariant replies + Answers(lines[n..]) == old(replies) + Answers(lines)
      {
        assert lines[n..][1..] == lines[n + 1..];
        var line := lines[n];
        if !line.Blank? {
          if line.Record? && line.row.cid != "" {
            file := file + [line.row];
            replies := replies + [true];
          } else {
            replies := replies + [false];
          }
        }
        n := n + 1;
      }
    }
  }

  /** A row is in the file exactly when its own line was answered `ok`: the k-th accepted row belongs to
      the k-th positive answer, and no row without a correlation id ever gets in. */
  lemma {:induction false} AnswersMatchTheFile(lines: seq<Line>)
    ensures |Filter((ok: bool) => ok, Answers(lines))| == |AcceptedRows(lines)|
    ensures forall r :: r in AcceptedRows(lines) <==> r.cid != "" && Record(r) in lines
  {
    if lines != [] {
      AnswersMatchTheFile(lines[1..]);
      assert lines == [lines[0]] + lines[1..];
      FilterConcat((ok: bool) => ok, if lines[0].Blank? then [] else [Accepted(lines[0])], Answers(lines[1..]));
    }
  }

  /** The stub's effector calls stop at the first that is not acknowledged, and then the call is over. */
  lemma {:induction false} StubStopsAtTheFirstFailure(p: Plane, cid: Cid, th: Thread, acts: seq<(Act, Ack)>, n: nat)
    requires th.code.Body? && th.running && n <= |acts|
    requires forall i :: 0 <= i < n ==> Acknowledged(cid, acts[i].1)
    requires n < |acts| ==> !Acknowledged(cid, acts[n].1)
    ensures var th' := RunThread(p, cid, th, ActScript(cid, acts)).1;
      && !th'.running
      && th'.attempts == th.attempts + (if n < |acts| then n + 1 else n)
    decreases |acts|
  {
    var script := ActScript(cid, acts);
    var (p', th') := Micro(p, cid, th, script[0]);
    if acts == [] {
      assert script[1..] == [];
    } else if n == 0 {
      assert script[1..] == [Return] && [Return][1..] == [];
      var (p'', th'') := Micro(p', cid, th', Return);
      assert RunThread(p', cid, th', [Return]) == RunThread(p'', cid, th'', []);
    } else {
      assert script[1..] == ActScript(cid, acts[1..]);
      StubStopsAtTheFirstFailure(p', cid, th', acts[1..], n - 1);
    }
  }
}
