/** The container re-encoders of smoke/g11/reencode.py: one that must not change the message, and three
    that must. */
module Reencode {
  import opened Wrappers
  import opened Sequences
  import opened Sorting
  import opened Varints
  import opened Container
  import opened Profile

  datatype ReencodeError = Unparsed(error: WireError) | NoAuthority | EmptyAuthority | TooFewBlocks

  // ---- sorted(key=-field_no), which is stable ----

  predicate NoHigher(f: Field, g: Field) {
    f.no >= g.no
  }

  function SortedDescending(fs: seq<Field>): seq<Field> {
    Sort(NoHigher, fs)
  }

  predicate Descending(fs: seq<Field>) {
    forall i, j :: 0 <= i < j < |fs| ==> fs[i].no >= fs[j].no
  }

  function Mine(no: nat, f: Field): seq<Field> {
    if f.no == no then [f] else []
  }

  lemma FilterCons(no: nat, f: Field, fs: seq<Field>)
    ensures Filter(HasNo(no), [f] + fs) == Mine(no, f) + Filter(HasNo(no), fs)
  {
    assert ([f] + fs)[1..] == fs;
  }

  lemma DifferentNumbersCommute(no: nat, f: Field, g: Field, rest: seq<Field>)
    requires f.no != g.no
    ensures Mine(no, g) + (Mine(no, f) + rest) == Mine(no, f) + (Mine(no, g) + rest)
  {
  }

  lemma InsertBehind(f: Field, g: Field, rest: seq<Field>, no: nat)
    requires f.no < g.no
    requires Filter(HasNo(no), Insert(NoHigher, f, rest)) == Mine(no, f) + Filter(HasNo(no), rest)
    ensures Filter(HasNo(no), [g] + Insert(NoHigher, f, rest)) == Mine(no, f) + Filter(HasNo(no), [g] + rest)
  {
    FilterCons(no, g, Insert(NoHigher, f, rest));
    FilterCons(no, g, rest);
    DifferentNumbersCommute(no, f, g, Filter(HasNo(no), rest));
  }

  lemma {:induction false} InsertIsStable(f: Field, fs: seq<Field>, no: nat)
    ensures Filter(HasNo(no), Insert(NoHigher, f, fs)) == Mine(no, f) + Filter(HasNo(no), fs)
  {
    if fs == [] || fs[0].no <= f.no {
      FilterCons(no, f, fs);
    } else {
      InsertIsStable(f, fs[1..], no);
      InsertBehind(f, fs[0], fs[1..], no);
      assert fs == [fs[0]] + fs[1..];
    }
  }

  lemma {:induction false} SortIsStable(fs: seq<Field>, no: nat)
    ensures Filter(HasNo(no), SortedDescending(fs)) == Filter(HasNo(no), fs)
  {
    if fs != [] {
      SortIsStable(fs[1..], no);
      InsertIsStable(fs[0], SortedDescending(fs[1..]), no);
      FilterCons(no, fs[0], fs[1..]);
      assert fs == [fs[0]] + fs[1..];
    }
  }

  /** The sort orders the fields and keeps every field number's own sequence. */
  lemma SortKeepsTheMessage(fs: seq<Field>)
    ensures Descending(SortedDescending(fs))
    ensures SamePerField(SortedDescending(fs), fs)
  {
    SortSorts(NoHigher, fs);
    var sorted := SortedDescending(fs);
    forall i, j | 0 <= i < j < |sorted|
      ensures sorted[i].no >= sorted[j].no
    {
      assert NoHigher(sorted[i], sorted[j]);
    }
    forall no
      ensures Filter(HasNo(no), sorted) == Filter(HasNo(no), fs)
    {
      SortIsStable(fs, no);
    }
  }

  lemma FilterTail(no: nat, fs: seq<Field>)
    requires fs != []
    ensures fs[0].no != no ==> Filter(HasNo(no), fs[1..]) == Filter(HasNo(no), fs)
    ensures fs[0].no == no ==>
      && Filter(HasNo(no), fs) != [] && Filter(HasNo(no), fs)[0] == fs[0]
      && Filter(HasNo(no), fs[1..]) == Filter(HasNo(no), fs)[1..]
  {
    var rest := Filter(HasNo(no), fs[1..]);
    if fs[0].no == no {
      assert ([fs[0]] + rest)[1..] == rest;
    } else {
      assert [] + rest == rest;
    }
  }

  /** Those two properties leave one list only, so it does not matter how the sort works. */
  lemma {:induction false} StableSortIsUnique(a: seq<Field>, b: seq<Field>)
    requires Descending(a) && Descending(b) && SamePerField(a, b)
    ensures a == b
    decreases |a|
  {
    SamePerFieldMembers(a, b);
    assert b != [] ==> b[0] in b && b[0] in a;
    if a != [] {
      assert a[0] in a && a[0] in b;
      assert Filter(HasNo(a[0].no), a) == Filter(HasNo(a[0].no), b);
      forall n
        ensures Filter(HasNo(n), a[1..]) == Filter(HasNo(n), b[1..])
      {
        assert Filter(HasNo(n), a) == Filter(HasNo(n), b);
        FilterTail(n, a);
        FilterTail(n, b);
      }
      StableSortIsUnique(a[1..], b[1..]);
      assert a == [a[0]] + a[1..] && b == [b[0]] + b[1..];
    }
  }

  // ---- the semantically equivalent re-encoding ----

  function ReorderTopLevel(raw: seq<byte>): (r: Result<seq<byte>, ReencodeError>) {
    match Fields(raw)
    case Failure(e) => Failure(Unparsed(e))
    case Success(fs) => Success(Emit(SortedDescending(fs)))
  }

  /** The reordered container is the same message. */
  lemma ReorderKeepsTheMessage(raw: seq<byte>)
    requires WireFields(raw).Success?
    ensures ReorderTopLevel(raw).Success? && SameMessage(raw, ReorderTopLevel(raw).value)
  {
    StrictIsLenientWithoutOverrun(raw);
    var fs := WireFields(raw).value;
    SortKeepsTheMessage(fs);
    PrintThenParse(SortedDescending(fs));
    forall no
      ensures Filter(HasNo(no), fs) == Filter(HasNo(no), SortedDescending(fs))
    {
      assert Filter(HasNo(no), SortedDescending(fs)) == Filter(HasNo(no), fs);
    }
  }

  /** ADR 0003's central property: a re-emitted container verifies exactly when the original does, with
      the same block identifiers. */
  lemma ReorderKeepsTheBlockIds(verify: seq<byte> -> Option<Verified>, raw: seq<byte>, rootLength: nat)
    requires ReadsTheMessage(verify) && WireFields(raw).Success?
    ensures var reordered := ReorderTopLevel(raw);
      && reordered.Success?
      && var before := BlockIdsFromRaw(verify, raw, rootLength);
         var after := BlockIdsFromRaw(verify, reordered.value, rootLength);
         (before.Success? <==> after.Success?) && (before.Success? ==> before == after)
  {
    ReorderKeepsTheMessage(raw);
    SameMessageSameBlocks(verify, raw, ReorderTopLevel(raw).value, rootLength);
  }

  /** The bytes end before their last field does. */
  predicate CutShort(raw: seq<byte>) {
    Fields(raw).Success? && FieldsFrom(raw, 0).value.1 != |raw|
  }

  /** The re-encoder reads leniently, so a container cut short inside its last field comes out whole: for
      anything it can read at all, the strict parse gives the same answer before and after exactly when
      the original was not cut short. */
  lemma ReorderRepairsOnlyTruncation(raw: seq<byte>)
    requires Fields(raw).Success?
    ensures WireFields(ReorderTopLevel(raw).value).Success?
    ensures WireFields(raw).Success? == WireFields(ReorderTopLevel(raw).value).Success? <==> !CutShort(raw)
  {
    PrintThenParse(SortedDescending(Fields(raw).value));
    StrictIsLenientWithoutOverrun(raw);
  }

  /** And so with verification: it gives the same outcome before and after exactly when the original was not cut
      short or its repaired form is refused anyway.  A container cut short is always refused. */
  lemma ReorderVerifiesAlikeExactly(verify: seq<byte> -> Option<Verified>, raw: seq<byte>, rootLength: nat)
    requires ReadsTheMessage(verify) && Fields(raw).Success?
    ensures var before := BlockIdsFromRaw(verify, raw, rootLength);
      var after := BlockIdsFromRaw(verify, ReorderTopLevel(raw).value, rootLength);
      && (CutShort(raw) ==> before.Failure?)
      && ((before.Success? <==> after.Success?) <==> !CutShort(raw) || after.Failure?)
      && (before.Success? ==> before == after)
  {
    StrictIsLenientWithoutOverrun(raw);
    if !CutShort(raw) {
      ReorderKeepsTheBlockIds(verify, raw, rootLength);
    }
  }

  /** A container cut short: one authority field that announces five bytes and holds none. */
  lemma CutShortExists(raw: seq<byte>)
    requires raw == [0x12, 0x05]
    ensures Fields(raw) == Success([Delimited(FIELD_AUTHORITY, [])]) && CutShort(raw)
  {
    assert ReadVarint(raw, 0) == Some((0x12, 1)) && ReadVarint(raw, 1) == Some((5, 2));
    assert Slice(raw, 2, 5) == raw[2..] == [];
    assert ReadField(raw, 0) == Success((Delimited(FIELD_AUTHORITY, []), 7));
    assert FieldsFrom(raw, 7) == Success(([], 7));
    assert [Delimited(FIELD_AUTHORITY, [])] + [] == [Delimited(FIELD_AUTHORITY, [])];
  }

  function ZeroId(): seq<byte> {
    seq(ED25519_SIG_LEN, i => 0)
  }

  /** It is refused, and under a chain verification that reads the message its repaired form is accepted. */
  lemma CutShortIsRepaired(raw: seq<byte>, verify: seq<byte> -> Option<Verified>)
    requires raw == [0x12, 0x05]
    requires forall x :: verify(x) == Some(Verified([ZeroId()], 1))
    ensures ReadsTheMessage(verify)
    ensures BlockIdsFromRaw(verify, raw, ED25519_PUBKEY_LEN).Failure?
    ensures ReorderTopLevel(raw).Success?
    ensures BlockIdsFromRaw(verify, ReorderTopLevel(raw).value, ED25519_PUBKEY_LEN) == Success([ZeroId()])
  {
    CutShortExists(raw);
    StrictIsLenientWithoutOverrun(raw);
    var f := Delimited(FIELD_AUTHORITY, []);
    assert [f][1..] == [] && SortedDescending([f]) == [f];
    PrintThenParse([f]);
    assert WireFields(Emit([f])) == Success([f]);
    assert CheckBlock(f).Success?;
    assert CheckBlocks([f]) == CheckBlocks([]);
    assert Filter(IsSignedBlock, [f]) == [f];
  }

  // ---- the mutations ----

  function Blocks(fs: seq<Field>): seq<Field> {
    Filter(HasNo(FIELD_BLOCKS), fs)
  }

  function Authorities(fs: seq<Field>): seq<Field> {
    Filter(HasNo(FIELD_AUTHORITY), fs)
  }

  /** The positions of the fields with this number: all of them, in order. */
  function Positions(fs: seq<Field>, no: nat): (r: seq<nat>)
    ensures forall i :: 0 <= i < |r| ==> r[i] < |fs| && fs[r[i]].no == no
    ensures forall i, j :: 0 <= i < j < |r| ==> r[i] < r[j]
    ensures forall k :: 0 <= k < |fs| && fs[k].no == no ==> k in r
    decreases |fs|
  {
    if fs == [] then []
    else
      var last := |fs| - 1;
      Positions(fs[..last], no) + (if fs[last].no == no then [last] else [])
  }

  lemma NoneBetween(fs: seq<Field>, no: nat, from: nat, to: nat)
    requires from <= to <= |fs|
    requires forall k :: from <= k < to ==> fs[k].no != no
    ensures Filter(HasNo(no), fs[from..to]) == []
  {
    FilterNone(HasNo(no), fs[from..to]);
  }

  /** Where one field sits among the fields with its number. */
  lemma FilterAround(no: nat, before: seq<Field>, f: Field, after: seq<Field>)
    ensures Filter(HasNo(no), before + [f] + after)
      == Filter(HasNo(no), before) + Mine(no, f) + Filter(HasNo(no), after)
  {
    FilterConcat(HasNo(no), before + [f], after);
    FilterAppend(HasNo(no), before, f);
  }

  /** Drop the terminal appended block. */
  function Truncated(fs: seq<Field>): (r: Result<seq<Field>, ReencodeError>) {
    var appended := Positions(fs, FIELD_BLOCKS);
    if appended == [] then Failure(TooFewBlocks)
    else
      var last := appended[|appended| - 1];
      Success(fs[..last] + fs[last + 1..])
  }

  /** Swap the first two appended blocks. */
  function BlocksSwapped(fs: seq<Field>): (r: Result<seq<Field>, ReencodeError>) {
    var appended := Positions(fs, FIELD_BLOCKS);
    if |appended| < 2 then Failure(TooFewBlocks)
    else Success(fs[appended[0] := fs[appended[1]]][appended[1] := fs[appended[0]]])
  }

  /** `bytearray(payload)`: of a number, that many zero bytes. */
  function BodyOf(f: Field): seq<byte> {
    match f
    case Delimited(_, body) => body
    case Number(_, value) => seq(value, i => 0)
  }

  function FlippedLow(b: byte): byte {
    if b % 2 == 0 then b + 1 else b - 1
  }

  function LastByteFlipped(body: seq<byte>): seq<byte>
    requires body != []
  {
    body[..|body| - 1] + [FlippedLow(body[|body| - 1])]
  }

  /** Change one bit of the first authority field's last byte. */
  function AuthorityFlipped(fs: seq<Field>): (r: Result<seq<Field>, ReencodeError>) {
    var positions := Positions(fs, FIELD_AUTHORITY);
    if positions == [] then Failure(NoAuthority)
    else if BodyOf(fs[positions[0]]) == [] then Failure(EmptyAuthority)
    else Success(fs[positions[0] := Delimited(FIELD_AUTHORITY, LastByteFlipped(BodyOf(fs[positions[0]])))])
  }

  method TruncateTerminal(raw: seq<byte>) returns (r: Result<seq<byte>, ReencodeError>)
    ensures Fields(raw).Failure? ==> r == Failure(Unparsed(Fields(raw).error))
    ensures Fields(raw).Success? ==>
      match Truncated(Fields(raw).value)
      case Failure(e) => r == Failure(e)
      case Success(fs) => r.Success? && WireFields(r.value) == Success(fs)
  {
    var parsed := SplitFields(raw);
    if parsed.Failure? {
      return Failure(Unparsed(parsed.error));
    }
    var kept :- Truncated(parsed.value);
    var bytes := EmitFields(kept);
    PrintThenParse(kept);
    r := Success(bytes);
  }

  method SwapAppendedBlocks(raw: seq<byte>) returns (r: Result<seq<byte>, ReencodeError>)
    ensures Fields(raw).Failure? ==> r == Failure(Unparsed(Fields(raw).error))
    ensures Fields(raw).Success? ==>
      match BlocksSwapped(Fields(raw).value)
      case Failure(e) => r == Failure(e)
      case Success(fs) => r.Success? && WireFields(r.value) == Success(fs)
  {
    var parsed := SplitFields(raw);
    if parsed.Failure? {
      return Failure(Unparsed(parsed.error));
    }
    var fs := parsed.value;
    var appended := Positions(fs, FIELD_BLOCKS);
    if |appended| < 2 {
      return Failure(TooFewBlocks);
    }
    var first, second := appended[0], appended[1];
    fs := fs[first := fs[second]][second := fs[first]];
    var bytes := EmitFields(fs);
    PrintThenParse(fs);
    r := Success(bytes);
  }

  method FlipByteInAuthority(raw: seq<byte>) returns (r: Result<seq<byte>, ReencodeError>)
    ensures Fields(raw).Failure? ==> r == Failure(Unparsed(Fields(raw).error))
    ensures Fields(raw).Success? ==>
      match AuthorityFlipped(Fields(raw).value)
      case Failure(e) => r == Failure(e)
      case Success(fs) => r.Success? && WireFields(r.value) == Success(fs)
  {
    var parsed := SplitFields(raw);
    if parsed.Failure? {
      return Failure(Unparsed(parsed.error));
    }
    var flipped :- AuthorityFlipped(parsed.value);
    var bytes := EmitFields(flipped);
    PrintThenParse(flipped);
    r := Success(bytes);
  }

  // ---- what each mutation does to the message ----

  lemma BlockRemoved(before: seq<Field>, f: Field, after: seq<Field>, no: nat)
    requires f.no == FIELD_BLOCKS && Blocks(after) == []
    ensures Blocks(before + [f] + after) != []
    ensures var blocks := Blocks(before + [f] + after); Blocks(before + after) == blocks[..|blocks| - 1]
    ensures no != FIELD_BLOCKS ==> Filter(HasNo(no), before + after) == Filter(HasNo(no), before + [f] + after)
  {
    FilterAround(FIELD_BLOCKS, before, f, after);
    FilterConcat(HasNo(FIELD_BLOCKS), before, after);
    FilterAround(no, before, f, after);
    FilterConcat(HasNo(no), before, after);
    assert Blocks(before) + [] == Blocks(before);
    assert (Blocks(before) + [f] + [])[..|Blocks(before)|] == Blocks(before);
  }

  lemma LastBlockSplit(fs: seq<Field>) returns (before: seq<Field>, f: Field, after: seq<Field>)
    requires Truncated(fs).Success?
    ensures fs == before + [f] + after && Truncated(fs) == Success(before + after)
    ensures f.no == FIELD_BLOCKS && Blocks(after) == []
  {
    var appended := Positions(fs, FIELD_BLOCKS);
    var last := appended[|appended| - 1];
    NoneBetween(fs, FIELD_BLOCKS, last + 1, |fs|);
    before, f, after := fs[..last], fs[last], fs[last + 1..|fs|];
  }

  lemma NoBlockToTruncate(fs: seq<Field>)
    requires Truncated(fs).Failure?
    ensures Blocks(fs) == []
  {
    NoneBetween(fs, FIELD_BLOCKS, 0, |fs|);
    assert fs[0..|fs|] == fs;
  }

  /** Truncation loses exactly the last block. */
  lemma TruncationDropsTheLastBlock(fs: seq<Field>, no: nat)
    ensures Truncated(fs).Success? <==> Blocks(fs) != []
    ensures Truncated(fs).Success? ==>
      var out := Truncated(fs).value;
      && Blocks(fs) != []
      && Blocks(out) == Blocks(fs)[..|Blocks(fs)| - 1]
      && (no != FIELD_BLOCKS ==> Filter(HasNo(no), out) == Filter(HasNo(no), fs))
  {
    if Truncated(fs).Success? {
      var before, f, after := LastBlockSplit(fs);
      BlockRemoved(before, f, after, no);
    } else {
      NoBlockToTruncate(fs);
    }
  }

  lemma AuthorityReplaced(before: seq<Field>, f: Field, g: Field, after: seq<Field>, no: nat)
    requires f.no == g.no == FIELD_AUTHORITY && Authorities(before) == []
    ensures Authorities(before + [f] + after) == [f] + Authorities(after)
    ensures Authorities(before + [g] + after) == [g] + Authorities(after)
    ensures no != FIELD_AUTHORITY ==> Filter(HasNo(no), before + [g] + after) == Filter(HasNo(no), before + [f] + after)
  {
    FilterAround(FIELD_AUTHORITY, before, f, after);
    FilterAround(FIELD_AUTHORITY, before, g, after);
    FilterAround(no, before, f, after);
    FilterAround(no, before, g, after);
  }

  lemma FlipLeavesNothingEqual(body: seq<byte>)
    requires body != []
    ensures Delimited(FIELD_AUTHORITY, LastByteFlipped(body)) != Delimited(FIELD_AUTHORITY, body)
  {
    assert LastByteFlipped(body)[|body| - 1] != body[|body| - 1];
  }

  lemma UpdateAt(fs: seq<Field>, at: nat, g: Field)
    requires at < |fs|
    ensures fs == fs[0..at] + [fs[at]] + fs[at + 1..]
    ensures fs[at := g] == fs[0..at] + [g] + fs[at + 1..]
  {
  }

  lemma FirstAuthoritySplit(fs: seq<Field>) returns (before: seq<Field>, f: Field, after: seq<Field>)
    requires AuthorityFlipped(fs).Success?
    ensures fs == before + [f] + after && f.no == FIELD_AUTHORITY && Authorities(before) == [] && BodyOf(f) != []
    ensures AuthorityFlipped(fs) == Success(before + [Delimited(FIELD_AUTHORITY, LastByteFlipped(BodyOf(f)))] + after)
  {
    var at := Positions(fs, FIELD_AUTHORITY)[0];
    NoneBetween(fs, FIELD_AUTHORITY, 0, at);
    before, f, after := fs[0..at], fs[at], fs[at + 1..];
    UpdateAt(fs, at, Delimited(FIELD_AUTHORITY, LastByteFlipped(BodyOf(f))));
  }

  /** The flip changes the content of the first authority field, in its last byte only. */
  lemma FlipChangesTheAuthority(fs: seq<Field>, no: nat)
    requires AuthorityFlipped(fs).Success?
    ensures var out := AuthorityFlipped(fs).value;
      && Authorities(fs) != []
      && BodyOf(Authorities(fs)[0]) != []
      && Authorities(out)
        == [Delimited(FIELD_AUTHORITY, LastByteFlipped(BodyOf(Authorities(fs)[0])))] + Authorities(fs)[1..]
      && Authorities(out)[0] != Authorities(fs)[0]
      && (no != FIELD_AUTHORITY ==> Filter(HasNo(no), out) == Filter(HasNo(no), fs))
  {
    var before, f, after := FirstAuthoritySplit(fs);
    var changed := Delimited(FIELD_AUTHORITY, LastByteFlipped(BodyOf(f)));
    AuthorityReplaced(before, f, changed, after, no);
    FlipLeavesNothingEqual(BodyOf(f));
    assert ([f] + Authorities(after))[1..] == Authorities(after);
  }

  /** The fields with one number around two positions. */
  lemma FilterAroundTwo(no: nat, before: seq<Field>, x: Field, between: seq<Field>, y: Field, after: seq<Field>)
    ensures Filter(HasNo(no), before + [x] + (between + [y] + after))
      == Filter(HasNo(no), before) + Mine(no, x) + (Filter(HasNo(no), between) + Mine(no, y) + Filter(HasNo(no), after))
  {
    FilterAround(no, before, x, between + [y] + after);
    FilterAround(no, between, y, after);
  }

  lemma SplitAtTwo(fs: seq<Field>, i: nat, j: nat)
    requires i < j < |fs|
    ensures fs == fs[0..i] + [fs[i]] + (fs[i + 1..j] + [fs[j]] + fs[j + 1..])
    ensures fs[i := fs[j]][j := fs[i]] == fs[0..i] + [fs[j]] + (fs[i + 1..j] + [fs[i]] + fs[j + 1..])
  {
  }

  lemma FirstTwoPositions(fs: seq<Field>) returns (first: nat, second: nat)
    requires BlocksSwapped(fs).Success?
    ensures first < second < |fs| && fs[first].no == fs[second].no == FIELD_BLOCKS
    ensures BlocksSwapped(fs) == Success(fs[first := fs[second]][second := fs[first]])
    ensures forall k :: 0 <= k < second && k != first ==> fs[k].no != FIELD_BLOCKS
  {
    var appended := Positions(fs, FIELD_BLOCKS);
    first, second := appended[0], appended[1];
    forall k | 0 <= k < second && k != first
      ensures fs[k].no != FIELD_BLOCKS
    {
      NotAmongLater(appended, k);
    }
  }

  lemma NotAmongLater(positions: seq<nat>, k: nat)
    requires |positions| >= 2 && forall i, j :: 0 <= i < j < |positions| ==> positions[i] < positions[j]
    requires k < positions[1] && k != positions[0]
    ensures k !in positions
  {
  }

  lemma FirstTwoBlocksSplit(fs: seq<Field>)
    returns (before: seq<Field>, x: Field, between: seq<Field>, y: Field, after: seq<Field>)
    requires BlocksSwapped(fs).Success?
    ensures fs == before + [x] + (between + [y] + after)
    ensures BlocksSwapped(fs) == Success(before + [y] + (between + [x] + after))
    ensures x.no == y.no == FIELD_BLOCKS && Blocks(before) == [] && Blocks(between) == []
  {
    var first, second := FirstTwoPositions(fs);
    NoneBetween(fs, FIELD_BLOCKS, 0, first);
    NoneBetween(fs, FIELD_BLOCKS, first + 1, second);
    SplitAtTwo(fs, first, second);
    before, x, between, y, after := fs[0..first], fs[first], fs[first + 1..second], fs[second], fs[second + 1..];
  }

  lemma BlocksExchanged(x: Field, y: Field, rest: seq<Field>)
    ensures var blocks := [] + [x] + ([] + [y] + rest);
      && |blocks| >= 2
      && [] + [y] + ([] + [x] + rest) == [blocks[1], blocks[0]] + blocks[2..]
      && ([] + [y] + ([] + [x] + rest) == blocks <==> blocks[0] == blocks[1])
  {
    var blocks := [] + [x] + ([] + [y] + rest);
    var swapped := [] + [y] + ([] + [x] + rest);
    assert blocks[2..] == rest;
    assert swapped[0] == y && blocks[0] == x;
  }

  /** The swap exchanges the first two blocks, which shows exactly when they differ. */
  lemma SwapExchangesTwoBlocks(fs: seq<Field>, no: nat)
    requires BlocksSwapped(fs).Success?
    ensures var out := BlocksSwapped(fs).value;
      && |Blocks(fs)| >= 2
      && Blocks(out) == [Blocks(fs)[1], Blocks(fs)[0]] + Blocks(fs)[2..]
      && (Blocks(out) == Blocks(fs) <==> Blocks(fs)[0] == Blocks(fs)[1])
      && (no != FIELD_BLOCKS ==> Filter(HasNo(no), out) == Filter(HasNo(no), fs))
  {
    var before, x, between, y, after := FirstTwoBlocksSplit(fs);
    FilterAroundTwo(FIELD_BLOCKS, before, x, between, y, after);
    FilterAroundTwo(FIELD_BLOCKS, before, y, between, x, after);
    FilterAroundTwo(no, before, x, between, y, after);
    FilterAroundTwo(no, before, y, between, x, after);
    BlocksExchanged(x, y, Blocks(after));
  }

  // ---- the mutations, place by place ----

  predicate NoneWith(fs: seq<Field>, no: nat, from: nat, to: nat)
    requires from <= to <= |fs|
  {
    forall k :: from <= k < to ==> fs[k].no != no
  }

  lemma NoPositions(fs: seq<Field>, no: nat)
    ensures Positions(fs, no) == [] <==> NoneWith(fs, no, 0, |fs|)
  {
    var p := Positions(fs, no);
    if p != [] {
      assert fs[p[0]].no == no;
    }
  }

  lemma BetweenTheEnds(p: seq<nat>, k: nat)
    requires k in p && forall i, j :: 0 <= i < j < |p| ==> p[i] < p[j]
    ensures p[0] <= k <= p[|p| - 1]
  {
    var i :| 0 <= i < |p| && p[i] == k;
    assert i > 0 ==> p[0] < p[i];
    assert i < |p| - 1 ==> p[i] < p[|p| - 1];
  }

  lemma PositionsBetween(fs: seq<Field>, no: nat, k: nat)
    requires k < |fs| && fs[k].no == no
    ensures var p := Positions(fs, no);
      p != [] && p[0] <= k <= p[|p| - 1]
  {
    BetweenTheEnds(Positions(fs, no), k);
  }

  lemma PositionsExactly(fs: seq<Field>, no: nat)
    ensures Positions(fs, no) == [] <==> NoneWith(fs, no, 0, |fs|)
    ensures Positions(fs, no) != [] ==>
      var p := Positions(fs, no);
      NoneWith(fs, no, 0, p[0]) && NoneWith(fs, no, p[|p| - 1] + 1, |fs|)
  {
    NoPositions(fs, no);
    forall k | 0 <= k < |fs| && fs[k].no == no
      ensures Positions(fs, no) != [] && Positions(fs, no)[0] <= k <= Positions(fs, no)[|Positions(fs, no)| - 1]
    {
      PositionsBetween(fs, no, k);
    }
  }

  predicate IsLast(fs: seq<Field>, no: nat, k: nat) {
    k < |fs| && fs[k].no == no && NoneWith(fs, no, k + 1, |fs|)
  }

  predicate AreFirstTwo(fs: seq<Field>, no: nat, i: nat, j: nat) {
    i < j < |fs| && fs[i].no == no && fs[j].no == no && NoneWith(fs, no, 0, i) && NoneWith(fs, no, i + 1, j)
  }

  /** Truncation takes the last field numbered 3 out of its place, and refuses exactly where there is none. */
  lemma TruncatesExactly(fs: seq<Field>) returns (k: nat)
    ensures Truncated(fs).Failure? <==> NoneWith(fs, 3, 0, |fs|)
    ensures Truncated(fs).Failure? ==> Truncated(fs).error == TooFewBlocks
    ensures Truncated(fs).Success? ==> IsLast(fs, 3, k) && Truncated(fs).value == fs[..k] + fs[k + 1..]
  {
    PositionsExactly(fs, FIELD_BLOCKS);
    k := 0;
    if Truncated(fs).Success? {
      k := LastPosition(fs);
    }
  }

  lemma LastPosition(fs: seq<Field>) returns (k: nat)
    requires Truncated(fs).Success?
    ensures IsLast(fs, 3, k) && Truncated(fs).value == fs[..k] + fs[k + 1..]
  {
    PositionsExactly(fs, FIELD_BLOCKS);
    var p := Positions(fs, FIELD_BLOCKS);
    k := p[|p| - 1];
  }

  /** The swap exchanges the first two fields numbered 3, and refuses exactly where there are fewer. */
  lemma SwapsExactly(fs: seq<Field>) returns (i: nat, j: nat)
    ensures BlocksSwapped(fs).Failure? ==> BlocksSwapped(fs) == Failure(TooFewBlocks)
    ensures BlocksSwapped(fs).Success? <==> exists x, y :: 0 <= x < y < |fs| && fs[x].no == 3 && fs[y].no == 3
    ensures BlocksSwapped(fs).Success? ==>
      AreFirstTwo(fs, 3, i, j) && BlocksSwapped(fs).value == fs[i := fs[j]][j := fs[i]]
  {
    i, j := 0, 0;
    if BlocksSwapped(fs).Success? {
      i, j := FirstTwoPositions(fs);
      assert fs[i].no == 3 && fs[j].no == 3;
    }
    if exists x, y :: 0 <= x < y < |fs| && fs[x].no == 3 && fs[y].no == 3 {
      TwoPositions(fs);
    }
  }

  lemma TwoPositions(fs: seq<Field>)
    requires exists x, y :: 0 <= x < y < |fs| && fs[x].no == 3 && fs[y].no == 3
    ensures BlocksSwapped(fs).Success?
  {
    var x, y :| 0 <= x < y < |fs| && fs[x].no == 3 && fs[y].no == 3;
    var p := Positions(fs, FIELD_BLOCKS);
    var m :| 0 <= m < |p| && p[m] == x;
    var n :| 0 <= n < |p| && p[n] == y;
  }

  /** `^ 0x01`: the other byte of the same pair. */
  predicate OneBitApart(b: byte, c: byte) {
    b / 2 == c / 2 && b != c
  }

  predicate IsFirst(fs: seq<Field>, no: nat, k: nat) {
    k < |fs| && fs[k].no == no && NoneWith(fs, no, 0, k)
  }

  /** The same bytes but for the lowest bit of the last. */
  predicate LastBitApart(was: seq<byte>, now: seq<byte>) {
    && |now| == |was| > 0 && now[..|now| - 1] == was[..|was| - 1]
    && OneBitApart(was[|was| - 1], now[|now| - 1])
  }

  /** The flip replaces the first field numbered 2 by one holding its content, zeros for a number, with the lowest bit
      of the last byte changed; it refuses exactly where there is no such field or no content. */
  lemma FlipsExactly(fs: seq<Field>) returns (k: nat, was: seq<byte>, now: seq<byte>)
    ensures NoneWith(fs, 2, 0, |fs|) ==> AuthorityFlipped(fs) == Failure(NoAuthority)
    ensures !NoneWith(fs, 2, 0, |fs|) ==>
      && IsFirst(fs, 2, k) && IsContent(fs[k], was)
      && (was == [] ==> AuthorityFlipped(fs) == Failure(EmptyAuthority))
      && (was != [] ==> LastBitApart(was, now) && AuthorityFlipped(fs) == Success(fs[k := Delimited(2, now)]))
  {
    PositionsExactly(fs, FIELD_AUTHORITY);
    var p := Positions(fs, FIELD_AUTHORITY);
    k, was, now := 0, [], [];
    if p != [] {
      k, was := p[0], BodyOf(fs[p[0]]);
      if was != [] {
        now := LastByteFlipped(was);
        FlippedLastBit(was);
      }
    }
  }

  lemma FlippedLastBit(was: seq<byte>)
    requires was != []
    ensures LastBitApart(was, LastByteFlipped(was))
  {
    var now := LastByteFlipped(was);
    assert now[..|now| - 1] == was[..|was| - 1];
  }

  predicate IsContent(f: Field, body: seq<byte>) {
    match f
    case Delimited(_, b) => body == b
    case Number(_, n) => |body| == n && forall i :: 0 <= i < |body| ==> body[i] == 0
  }
}
