/** What the oracle reads off a token container: the MSc-profile check and the block identifiers of
    src/harness/oracle/commitment.py.  Biscuit verification itself is abstract. */
module Profile {
  import opened Wrappers
  import opened Sequences
  import opened Varints
  import opened Container

  const FIELD_AUTHORITY: nat := 2
  const FIELD_BLOCKS: nat := 3
  const SB_NEXT_KEY: nat := 2
  const SB_EXTERNAL_SIG: nat := 4
  const PK_ALGORITHM: nat := 1
  const ED25519_PUBKEY_LEN: nat := 32
  const ED25519_SIG_LEN: nat := 64

  datatype CommitmentError =
    | TokenStructure
    | UnsupportedAlgorithm
    | UnsupportedVersion
    | PrefixOutOfRange
    | TooLong
    | ChainRejected

  datatype Verified = Verified(revocationIds: seq<seq<byte>>, blockCount: nat)

  function HasNo(no: nat): Field -> bool {
    (f: Field) => f.no == no
  }

  predicate IsSignedBlock(f: Field) {
    f.no == FIELD_AUTHORITY || f.no == FIELD_BLOCKS
  }

  /** One carried next key: every algorithm entry must be Ed25519's 0. */
  function CheckNextKey(f: Field): (r: Result<bool, CommitmentError>) {
    if !f.Delimited? then Failure(TokenStructure)
    else
      match WireFields(f.body)
      case Failure(_) => Failure(TokenStructure)
      case Success(sub) =>
        if exists k :: k in sub && k.no == PK_ALGORITHM && k != Number(PK_ALGORITHM, 0)
        then Failure(UnsupportedAlgorithm)
        else Success(true)
  }

  function CheckNextKeys(sub: seq<Field>): (r: Result<bool, CommitmentError>) {
    if sub == [] then Success(true)
    else
      var _ :- if sub[0].no == SB_NEXT_KEY then CheckNextKey(sub[0]) else Success(true);
      CheckNextKeys(sub[1..])
  }

  /** One signed block: no third-party signature, and no foreign next key. */
  function CheckBlock(f: Field): (r: Result<bool, CommitmentError>) {
    if !f.Delimited? then Failure(TokenStructure)
    else
      match WireFields(f.body)
      case Failure(_) => Failure(TokenStructure)
      case Success(sub) =>
        if exists k :: k in sub && k.no == SB_EXTERNAL_SIG then Failure(TokenStructure)
        else CheckNextKeys(sub)
  }

  function CheckBlocks(fs: seq<Field>): (r: Result<bool, CommitmentError>) {
    if fs == [] then Success(true)
    else
      var _ :- if IsSignedBlock(fs[0]) then CheckBlock(fs[0]) else Success(true);
      CheckBlocks(fs[1..])
  }

  /** The profile check; `rootLength` is the length of the serialized root key. */
  function RejectNonEd25519(raw: seq<byte>, rootLength: nat): (r: Result<bool, CommitmentError>) {
    if rootLength != ED25519_PUBKEY_LEN then Failure(UnsupportedAlgorithm)
    else
      match WireFields(raw)
      case Failure(_) => Failure(TokenStructure)
      case Success(fs) => CheckBlocks(fs)
  }

  /** `verify` stands for the Biscuit library's chain verification over the raw bytes. */
  function BlockIdsFromRaw(verify: seq<byte> -> Option<Verified>, raw: seq<byte>, rootLength: nat)
    : (r: Result<seq<seq<byte>>, CommitmentError>)
  {
    var _ :- RejectNonEd25519(raw, rootLength);
    match verify(raw)
    case None => Failure(ChainRejected)
    case Some(v) =>
      var ids := v.revocationIds;
      if |ids| != v.blockCount || |ids| != |Filter(IsSignedBlock, WireFields(raw).value)| then Failure(TokenStructure)
      else if exists id :: id in ids && |id| != ED25519_SIG_LEN then Failure(UnsupportedAlgorithm)
      else Success(ids)
  }

  /** The two containers hold, field number by field number, the same fields in the same order: protobuf's
      notion of the same message. */
  ghost predicate SamePerField(a: seq<Field>, b: seq<Field>) {
    forall no :: Filter(HasNo(no), a) == Filter(HasNo(no), b)
  }

  /** The assumption about Biscuit: it reads the message, not its encoding. */
  ghost predicate ReadsTheMessage(verify: seq<byte> -> Option<Verified>) {
    forall x, y :: SameMessage(x, y) ==> verify(x) == verify(y)
  }

  ghost predicate SameMessage(x: seq<byte>, y: seq<byte>) {
    WireFields(x).Success? && WireFields(y).Success? && SamePerField(WireFields(x).value, WireFields(y).value)
  }

  // ---- acceptance does not depend on the order of the fields ----

  lemma {:induction false} CheckBlocksAcceptsEach(fs: seq<Field>)
    ensures CheckBlocks(fs).Success? <==> forall f :: f in fs && IsSignedBlock(f) ==> CheckBlock(f).Success?
    ensures CheckBlocks(fs).Success? ==> CheckBlocks(fs) == Success(true)
  {
    if fs != [] {
      CheckBlocksAcceptsEach(fs[1..]);
      assert fs == [fs[0]] + fs[1..];
    }
  }

  lemma SamePerFieldMembers(a: seq<Field>, b: seq<Field>)
    requires SamePerField(a, b)
    ensures forall f :: f in a <==> f in b
  {
    forall f
      ensures f in a <==> f in b
    {
      FilterMember(HasNo(f.no), a, f);
      FilterMember(HasNo(f.no), b, f);
      assert Filter(HasNo(f.no), a) == Filter(HasNo(f.no), b);
    }
  }

  lemma {:induction false} SignedBlocksAreAuthorityAndBlocks(fs: seq<Field>)
    ensures |Filter(IsSignedBlock, fs)| == |Filter(HasNo(FIELD_AUTHORITY), fs)| + |Filter(HasNo(FIELD_BLOCKS), fs)|
  {
    if fs != [] {
      SignedBlocksAreAuthorityAndBlocks(fs[1..]);
    }
  }

  lemma SameProfileOutcome(x: seq<byte>, y: seq<byte>, rootLength: nat)
    requires SameMessage(x, y)
    ensures RejectNonEd25519(x, rootLength).Success? <==> RejectNonEd25519(y, rootLength).Success?
  {
    var a, b := WireFields(x).value, WireFields(y).value;
    SamePerFieldMembers(a, b);
    CheckBlocksAcceptsEach(a);
    CheckBlocksAcceptsEach(b);
  }

  lemma SameBlockCount(a: seq<Field>, b: seq<Field>)
    requires SamePerField(a, b)
    ensures |Filter(IsSignedBlock, a)| == |Filter(IsSignedBlock, b)|
  {
    SignedBlocksAreAuthorityAndBlocks(a);
    SignedBlocksAreAuthorityAndBlocks(b);
    assert Filter(HasNo(FIELD_AUTHORITY), a) == Filter(HasNo(FIELD_AUTHORITY), b);
    assert Filter(HasNo(FIELD_BLOCKS), a) == Filter(HasNo(FIELD_BLOCKS), b);
  }

  /** Two encodings of the same message are accepted or refused together and yield the same identifiers.
      Which of several faults is reported first may differ, so only the outcome is compared. */
  lemma SameMessageSameBlocks(verify: seq<byte> -> Option<Verified>, x: seq<byte>, y: seq<byte>, rootLength: nat)
    requires ReadsTheMessage(verify) && SameMessage(x, y)
    ensures var rx, ry := BlockIdsFromRaw(verify, x, rootLength), BlockIdsFromRaw(verify, y, rootLength);
      (rx.Success? <==> ry.Success?) && (rx.Success? ==> rx == ry)
    ensures RejectNonEd25519(x, rootLength).Success? <==> RejectNonEd25519(y, rootLength).Success?
  {
    SameProfileOutcome(x, y, rootLength);
    SameBlockCount(WireFields(x).value, WireFields(y).value);
    assert verify(x) == verify(y);
  }

  // ---- what the profile accepts ----

  /** A public key whose algorithm, wherever it is given, is the number 0. */
  predicate IsEd25519Key(key: Field) {
    && key.Delimited? && WireFields(key.body).Success?
    && forall entry :: entry in WireFields(key.body).value && entry.no == 1 ==> entry == Number(1, 0)
  }

  /** A signed block without a third-party signature, all of whose next keys are Ed25519's. */
  predicate IsPlainBlock(block: Field) {
    && block.Delimited? && WireFields(block.body).Success?
    && forall part :: part in WireFields(block.body).value ==>
      part.no != 4 && (part.no == 2 ==> IsEd25519Key(part))
  }

  lemma {:induction false} KeysAcceptedExactly(parts: seq<Field>)
    ensures CheckNextKeys(parts).Success?
      <==> forall part :: part in parts && part.no == 2 ==> IsEd25519Key(part)
  {
    if parts != [] {
      KeysAcceptedExactly(parts[1..]);
      assert parts == [parts[0]] + parts[1..];
      if parts[0].no == 2 {
        KeyAcceptedExactly(parts[0]);
      }
    }
  }

  lemma KeyAcceptedExactly(key: Field)
    ensures CheckNextKey(key).Success? <==> IsEd25519Key(key)
  {
  }

  lemma BlockAcceptedExactly(block: Field)
    ensures CheckBlock(block).Success? <==> IsPlainBlock(block)
  {
    if block.Delimited? && WireFields(block.body).Success? {
      KeysAcceptedExactly(WireFields(block.body).value);
    }
  }

  /** The profile check accepts a container exactly when the root key has 32 bytes, the container parses, and every
      field numbered 2 or 3 is a plain block. */
  lemma AcceptedExactly(raw: seq<byte>, rootLength: nat)
    ensures RejectNonEd25519(raw, rootLength).Success? <==>
      && rootLength == 32 && WireFields(raw).Success?
      && forall f :: f in WireFields(raw).value && (f.no == 2 || f.no == 3) ==> IsPlainBlock(f)
  {
    if WireFields(raw).Success? {
      var fs := WireFields(raw).value;
      CheckBlocksAcceptsEach(fs);
      forall f | f in fs
        ensures CheckBlock(f).Success? <==> IsPlainBlock(f)
      {
        BlockAcceptedExactly(f);
      }
    }
  }

  /** The same, of a container printed from its fields. */
  lemma PrintedAcceptedExactly(fs: seq<Field>, rootLength: nat)
    ensures RejectNonEd25519(Emit(fs), rootLength).Success? <==>
      rootLength == 32 && forall f :: f in fs && (f.no == 2 || f.no == 3) ==> IsPlainBlock(f)
  {
    PrintThenParse(fs);
    AcceptedExactly(Emit(fs), rootLength);
  }

  /** Identifiers are given out exactly when the profile accepts, the chain verifies, there are as many of them as
      blocks, verified and on the wire, and each has 64 bytes; and they are the verifier's own. */
  lemma IdentifiersExactly(verify: seq<byte> -> Option<Verified>, raw: seq<byte>, rootLength: nat)
    ensures var r := BlockIdsFromRaw(verify, raw, rootLength);
      && (r.Success? <==>
            && RejectNonEd25519(raw, rootLength).Success? && WireFields(raw).Success? && verify(raw).Some?
            && var ids := verify(raw).value.revocationIds;
              && |ids| == verify(raw).value.blockCount
              && |ids| == |Filter(HasNo(2), WireFields(raw).value)| + |Filter(HasNo(3), WireFields(raw).value)|
              && forall id :: id in ids ==> |id| == 64)
      && (r.Success? ==> r.value == verify(raw).value.revocationIds)
  {
    if WireFields(raw).Success? {
      SignedBlocksAreAuthorityAndBlocks(WireFields(raw).value);
      CheckBlocksAcceptsEach(WireFields(raw).value);
    }
  }

  /** An authority block whose next key names an algorithm: accepted for 0 and refused for 1. */
  lemma NextKeyDecides(raw: seq<byte>, alg: byte)
    requires alg < 2 && raw == [0x12, 0x04, 0x12, 0x02, 0x08, alg]
    ensures alg == 0 ==> RejectNonEd25519(raw, 32) == Success(true)
    ensures alg == 1 ==> RejectNonEd25519(raw, 32) == Failure(UnsupportedAlgorithm)
  {
    var entry := Number(1, alg);
    OneField(entry);
    assert Emit([entry]) == [0x08, alg];
    var key := Delimited(2, [0x08, alg]);
    OneField(key);
    assert Emit([key]) == [0x12, 0x02, 0x08, alg];
    var block := Delimited(2, [0x12, 0x02, 0x08, alg]);
    OneField(block);
    assert Emit([block]) == raw;
    KeyOfOneEntry(key, entry);
    BlockOfOneKey(block, key);
    assert [block][1..] == [] && CheckBlocks([]) == Success(true);
  }

  lemma OneField(f: Field)
    ensures Emit([f]) == EmitField(f) && WireFields(Emit([f])) == Success([f])
  {
    PrintThenParse([f]);
    assert [f][1..] == [] && EmitField(f) + [] == EmitField(f);
  }

  lemma KeyOfOneEntry(key: Field, entry: Field)
    requires key.Delimited? && WireFields(key.body) == Success([entry]) && entry.no == 1
    ensures CheckNextKey(key) == if entry == Number(1, 0) then Success(true) else Failure(UnsupportedAlgorithm)
  {
    assert entry in [entry];
  }

  lemma BlockOfOneKey(block: Field, key: Field)
    requires block.Delimited? && WireFields(block.body) == Success([key]) && key.no == 2
    requires CheckNextKey(key).Success? ==> CheckNextKey(key) == Success(true)
    ensures CheckBlock(block) == CheckNextKey(key)
  {
    assert [key][1..] == [] && CheckNextKeys([]) == Success(true);
    assert CheckNextKeys([key]) == CheckNextKey(key);
  }
}
