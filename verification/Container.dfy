/** The protobuf container: `fields` and `emit` of smoke/g11/reencode.py, and the stricter `_wire_fields`
    of src/harness/oracle/commitment.py. */
module Container {
  import opened Wrappers
  import opened Varints

  /** One field: wire type 2 carries bytes, wire type 0 a number. */
  datatype Field = Delimited(no: nat, body: seq<byte>) | Number(no: nat, value: nat)

  datatype WireError =
    | TruncatedVarint
    | Overrun
    | UnexpectedWireType(wire: nat, no: nat)

  function EmitField(f: Field): seq<byte> {
    match f
    case Delimited(no, body) => Varint(8 * no + 2) + Varint(|body|) + body
    case Number(no, value) => Varint(8 * no) + Varint(value)
  }

  function Emit(fs: seq<Field>): seq<byte> {
    if fs == [] then [] else EmitField(fs[0]) + Emit(fs[1..])
  }

  /** A Python slice stops at the end of the buffer. */
  function Slice(buf: seq<byte>, start: nat, length: nat): seq<byte>
    requires start <= |buf|
  {
    if start + length <= |buf| then buf[start..start + length] else buf[start..]
  }

  /** One field at `i`, and the index its length field claims it ends at. */
  function ReadField(buf: seq<byte>, i: nat): (r: Result<(Field, nat), WireError>)
    ensures r.Success? ==> i < r.value.1
  {
    match ReadVarint(buf, i)
    case None => Failure(TruncatedVarint)
    case Some((tag, start)) =>
      var no, wire := tag / 8, tag % 8;
      if wire != 0 && wire != 2 then Failure(UnexpectedWireType(wire, no))
      else
        match ReadVarint(buf, start)
        case None => Failure(TruncatedVarint)
        case Some((n, next)) =>
          if wire == 2 then Success((Delimited(no, Slice(buf, next, n)), next + n))
          else Success((Number(no, n), next))
  }

  /** The lenient split, with the index it stopped at: past the end when the last field was cut short. */
  function FieldsFrom(buf: seq<byte>, i: nat): (r: Result<(seq<Field>, nat), WireError>)
    ensures r.Success? ==> r.value.1 >= |buf|
    decreases |buf| - i
  {
    if i >= |buf| then Success(([], i))
    else
      var (f, next) :- ReadField(buf, i);
      var (rest, end) :- FieldsFrom(buf, next);
      Success(([f] + rest, end))
  }

  function Fields(buf: seq<byte>): (r: Result<seq<Field>, WireError>) {
    var (fs, _) :- FieldsFrom(buf, 0);
    Success(fs)
  }

  /** The strict split, which refuses a field that runs past the end. */
  function WireFieldsFrom(buf: seq<byte>, i: nat): (r: Result<seq<Field>, WireError>)
    decreases |buf| - i
  {
    if i >= |buf| then Success([])
    else
      var (f, next) :- ReadField(buf, i);
      if next > |buf| then Failure(Overrun)
      else
        var rest :- WireFieldsFrom(buf, next);
        Success([f] + rest)
  }

  function WireFields(buf: seq<byte>): (r: Result<seq<Field>, WireError>) {
    WireFieldsFrom(buf, 0)
  }

  // ---- the loops ----

  /** The shared loop body: a tag, then a length and its bytes or a number. */
  method SplitField(buf: seq<byte>, i: nat) returns (r: Result<(Field, nat), WireError>)
    ensures r == ReadField(buf, i)
  {
    var tag := ReadVarintLoop(buf, i);
    if tag.None? {
      return Failure(TruncatedVarint);
    }
    var no, wire := tag.value.0 / 8, tag.value.0 % 8;
    if wire == 2 {
      var length := ReadVarintLoop(buf, tag.value.1);
      if length.None? {
        return Failure(TruncatedVarint);
      }
      r := Success((Delimited(no, Slice(buf, length.value.1, length.value.0)), length.value.1 + length.value.0));
    } else if wire == 0 {
      var value := ReadVarintLoop(buf, tag.value.1);
      if value.None? {
        return Failure(TruncatedVarint);
      }
      r := Success((Number(no, value.value.0), value.value.1));
    } else {
      r := Failure(UnexpectedWireType(wire, no));
    }
  }

  /** What the loop still has to produce, given what it produced so far. */
  ghost function Resumed(out: seq<Field>, rest: Result<(seq<Field>, nat), WireError>): Result<seq<Field>, WireError> {
    match rest
    case Success((fs, _)) => Success(out + fs)
    case Failure(e) => Failure(e)
  }

  ghost function StrictlyResumed(out: seq<Field>, rest: Result<seq<Field>, WireError>): Result<seq<Field>, WireError> {
    match rest
    case Success(fs) => Success(out + fs)
    case Failure(e) => Failure(e)
  }

  method SplitFields(buf: seq<byte>) returns (r: Result<seq<Field>, WireError>)
    ensures r == Fields(buf)
  {
    var out: seq<Field> := [];
    var index: nat := 0;
    assert forall fs: seq<Field> :: [] + fs == fs;
    while index < |buf|
      invariant Resumed(out, FieldsFrom(buf, index)) == Fields(buf)
      decreases |buf| - index
    {
      ghost var rest := FieldsFrom(buf, index);
      var f :- SplitField(buf, index);
      assert forall fs: seq<Field> :: out + ([f.0] + fs) == (out + [f.0]) + fs;
      out := out + [f.0];
      index := f.1;
    }
    assert out + [] == out;
    r := Success(out);
  }

  method SplitWireFields(buf: seq<byte>) returns (r: Result<seq<Field>, WireError>)
    ensures r == WireFields(buf)
  {
    var out: seq<Field> := [];
    var i: nat := 0;
    assert forall fs: seq<Field> :: [] + fs == fs;
    while i < |buf|
      invariant StrictlyResumed(out, WireFieldsFrom(buf, i)) == WireFields(buf)
      decreases |buf| - i
    {
      var f :- SplitField(buf, i);
      if f.1 > |buf| {
        return Failure(Overrun);
      }
      assert forall fs: seq<Field> :: out + ([f.0] + fs) == (out + [f.0]) + fs;
      out := out + [f.0];
      i := f.1;
    }
    assert out + [] == out;
    r := Success(out);
  }

  method EmitOne(f: Field) returns (out: seq<byte>)
    ensures out == EmitField(f)
  {
    match f {
      case Delimited(no, body) =>
        var tag := EmitVarint(8 * no + 2);
        var length := EmitVarint(|body|);
        out := tag + length + body;
      case Number(no, value) =>
        var tag := EmitVarint(8 * no);
        var payload := EmitVarint(value);
        out := tag + payload;
    }
  }

  method EmitFields(fs: seq<Field>) returns (out: seq<byte>)
    ensures out == Emit(fs)
  {
    out := [];
    for n := 0 to |fs|
      invariant out + Emit(fs[n..]) == Emit(fs)
    {
      assert fs[n..][1..] == fs[n + 1..];
      var field := EmitOne(fs[n]);
      assert out + (field + Emit(fs[n + 1..])) == (out + field) + Emit(fs[n + 1..]);
      out := out + field;
    }
  }

  // ---- printer and parsers ----

  lemma ReadsDelimited(buf: seq<byte>, i: nat, no: nat, body: seq<byte>, start: nat, next: nat)
    requires ReadVarint(buf, i) == Some((8 * no + 2, start))
    requires ReadVarint(buf, start) == Some((|body|, next))
    requires StandsAt(buf, next, body)
    ensures ReadField(buf, i) == Success((Delimited(no, body), next + |body|))
  {
    assert (8 * no + 2) / 8 == no && (8 * no + 2) % 8 == 2;
    assert Slice(buf, next, |body|) == body;
  }

  lemma ReadsNumber(buf: seq<byte>, i: nat, no: nat, value: nat, start: nat, next: nat)
    requires ReadVarint(buf, i) == Some((8 * no, start))
    requires ReadVarint(buf, start) == Some((value, next))
    ensures ReadField(buf, i) == Success((Number(no, value), next))
  {
    assert 8 * no / 8 == no && 8 * no % 8 == 0;
  }

  /** Two printed numbers read back, one after the other. */
  lemma TwoVarintsRoundTrip(buf: seq<byte>, i: nat, a: nat, b: nat, rest: seq<byte>) returns (start: nat, next: nat)
    requires StandsAt(buf, i, Varint(a) + Varint(b) + rest)
    ensures ReadVarint(buf, i) == Some((a, start)) && ReadVarint(buf, start) == Some((b, next))
    ensures StandsAt(buf, next, rest)
    ensures next == i + |Varint(a)| + |Varint(b)|
  {
    StandsAtSplit(buf, i, Varint(a) + Varint(b), rest);
    StandsAtSplit(buf, i, Varint(a), Varint(b));
    VarintRoundTrip(buf, i, a);
    start := i + |Varint(a)|;
    VarintRoundTrip(buf, start, b);
    next := start + |Varint(b)|;
  }

  lemma FieldRoundTrip(buf: seq<byte>, i: nat, f: Field)
    requires StandsAt(buf, i, EmitField(f))
    ensures ReadField(buf, i) == Success((f, i + |EmitField(f)|))
    ensures |EmitField(f)| > 0
  {
    match f
    case Delimited(no, body) =>
      var start, next := TwoVarintsRoundTrip(buf, i, 8 * no + 2, |body|, body);
      ReadsDelimited(buf, i, no, body, start, next);
    case Number(no, value) =>
      assert Varint(8 * no) + Varint(value) + [] == EmitField(f);
      var start, next := TwoVarintsRoundTrip(buf, i, 8 * no, value, []);
      ReadsNumber(buf, i, no, value, start, next);
  }

  lemma FieldsFromStep(buf: seq<byte>, i: nat, f: Field, next: nat, rest: seq<Field>, end: nat)
    requires i < |buf| && ReadField(buf, i) == Success((f, next)) && FieldsFrom(buf, next) == Success((rest, end))
    ensures FieldsFrom(buf, i) == Success(([f] + rest, end))
  {
  }

  /** The first printed field is read back, and what follows stands right behind it. */
  lemma FirstFieldReads(buf: seq<byte>, i: nat, f: Field, rest: seq<byte>) returns (next: nat)
    requires StandsAt(buf, i, EmitField(f) + rest) && i + |EmitField(f) + rest| == |buf|
    ensures i < |buf| && ReadField(buf, i) == Success((f, next))
    ensures StandsAt(buf, next, rest) && next + |rest| == |buf|
  {
    StandsAtSplit(buf, i, EmitField(f), rest);
    FieldRoundTrip(buf, i, f);
    next := i + |EmitField(f)|;
  }

  lemma {:induction false} FieldsRoundTrip(buf: seq<byte>, i: nat, fs: seq<Field>)
    requires StandsAt(buf, i, Emit(fs)) && i + |Emit(fs)| == |buf|
    ensures FieldsFrom(buf, i) == Success((fs, |buf|))
    decreases |fs|
  {
    if fs != [] {
      var next := FirstFieldReads(buf, i, fs[0], Emit(fs[1..]));
      FieldsRoundTrip(buf, next, fs[1..]);
      FieldsFromStep(buf, i, fs[0], next, fs[1..], |buf|);
      assert [fs[0]] + fs[1..] == fs;
    }
  }

  /** Printing then parsing is the identity, for both parsers. */
  lemma PrintThenParse(fs: seq<Field>)
    ensures Fields(Emit(fs)) == Success(fs)
    ensures WireFields(Emit(fs)) == Success(fs)
  {
    FieldsRoundTrip(Emit(fs), 0, fs);
    StrictIsLenientWithoutOverrun(Emit(fs));
  }

  lemma {:induction false} StrictFromLenient(buf: seq<byte>, i: nat)
    requires i <= |buf|
    ensures WireFieldsFrom(buf, i).Success? <==>
      FieldsFrom(buf, i).Success? && FieldsFrom(buf, i).value.1 == |buf|
    ensures WireFieldsFrom(buf, i).Success? ==> WireFieldsFrom(buf, i).value == FieldsFrom(buf, i).value.0
    decreases |buf| - i
  {
    if i < |buf| && ReadField(buf, i).Success? {
      var next := ReadField(buf, i).value.1;
      if next <= |buf| {
        StrictFromLenient(buf, next);
      }
    }
  }

  /** The oracle's parser accepts exactly what the lenient one splits without running past the end, and
      then the two agree. */
  lemma StrictIsLenientWithoutOverrun(buf: seq<byte>)
    ensures WireFields(buf).Success? <==> FieldsFrom(buf, 0).Success? && FieldsFrom(buf, 0).value.1 == |buf|
    ensures WireFields(buf).Success? ==> WireFields(buf) == Fields(buf)
  {
    StrictFromLenient(buf, 0);
  }

  /** Printing is injective; parsing is not, which is why the commitment binds blocks and not bytes. */
  lemma EmitIsInjective(a: seq<Field>, b: seq<Field>)
    requires Emit(a) == Emit(b)
    ensures a == b
  {
    PrintThenParse(a);
    PrintThenParse(b);
  }

  lemma EncodingIsNotCanonical()
    ensures WireFields([0x08, 0x00]) == Success([Number(1, 0)])
    ensures WireFields([0x08, 0x80, 0x00]) == Success([Number(1, 0)])
  {
    PrintThenParse([Number(1, 0)]);
    assert Emit([Number(1, 0)]) == [0x08, 0x00] by {
      assert Varint(8) == [8] && Varint(0) == [0];
      assert [Number(1, 0)][1..] == [];
    }
    var padded := [0x08, 0x80, 0x00];
    assert ReadVarint(padded, 0) == Some((8, 1));
    assert ReadVarint(padded, 2) == Some((0, 3));
    assert ReadVarint(padded, 1) == Some((0, 3));
    assert ReadField(padded, 0) == Success((Number(1, 0), 3));
    assert WireFieldsFrom(padded, 3) == Success([]);
  }
}
