/** The tagged, versioned, length-delimited hash pre-images: the capability commitment
    (src/harness/oracle/commitment.py), `H_JCS` on both sides of the wall (src/harness/oracle/jcs_digest.py,
    src/sut/jcs.py) and `H(Gamma)` (src/harness/authorizer/frozen_config.py).  SHA-256 is a parameter. */
module Commitment {
  import opened Wrappers
  import opened Varints
  import opened Profile

  type Hash = seq<byte> -> seq<byte>

  // The ASCII tags AASC-CAP-COMMIT, AASC-JCS-DIGEST and AASC-GAMMA-DIGEST.
  const CAP_TAG: seq<byte> := [65, 65, 83, 67, 45, 67, 65, 80, 45, 67, 79, 77, 77, 73, 84]
  const JCS_TAG: seq<byte> := [65, 65, 83, 67, 45, 74, 67, 83, 45, 68, 73, 71, 69, 83, 84]
  const GAMMA_TAG: seq<byte> := [65, 65, 83, 67, 45, 71, 65, 77, 77, 65, 45, 68, 73, 71, 69, 83, 84]
  const VERSION: byte := 1
  const ALG_ED25519: byte := 1

  /** `n.to_bytes(4, "big")`, which raises from 2^32 on. */
  function U32be(n: nat): (r: Option<seq<byte>>)
    ensures r.Some? <==> n < 0x1_0000_0000
    ensures r.Some? ==> |r.value| == 4
  {
    if n >= 0x1_0000_0000 then None
    else
      var high := n / 256;
      var higher := high / 256;
      Some([higher / 256, higher % 256, high % 256, n % 256])
  }

  /** The value of four bytes, the first the most significant. */
  function BigEndian(s: seq<byte>): nat
    requires |s| == 4
  {
    s[0] as int * 0x100_0000 + s[1] as int * 0x1_0000 + s[2] as int * 0x100 + s[3] as int
  }

  lemma U32beIsBigEndian(n: nat)
    requires n < 0x1_0000_0000
    ensures BigEndian(U32be(n).value) == n
  {
    var high := n / 256;
    var higher := high / 256;
    assert n == high * 256 + n % 256 && high == higher * 256 + high % 256;
    assert higher == higher / 256 * 256 + higher % 256;
  }

  lemma U32beInjective(m: nat, n: nat)
    requires m < 0x1_0000_0000 && n < 0x1_0000_0000 && U32be(m) == U32be(n)
    ensures m == n
  {
    U32beIsBigEndian(m);
    U32beIsBigEndian(n);
  }

  /** Each identifier behind its own length. */
  function Framed(ids: seq<seq<byte>>): (r: Option<seq<byte>>) {
    if ids == [] then Some([])
    else
      match (U32be(|ids[0]|), Framed(ids[1..]))
      case (Some(length), Some(rest)) => Some(length + ids[0] + rest)
      case _ => None
  }

  function CommitPreImage(ids: seq<seq<byte>>): (r: Option<seq<byte>>) {
    match (U32be(|ids|), Framed(ids))
    case (Some(count), Some(framed)) => Some(CAP_TAG + [VERSION] + [ALG_ED25519] + count + framed)
    case _ => None
  }

  /** The one-shot material: tag, version, length, canonical bytes. */
  function TaggedPreImage(tag: seq<byte>, canonical: seq<byte>): (r: Option<seq<byte>>) {
    match U32be(|canonical|)
    case None => None
    case Some(length) => Some(tag + [VERSION] + length + canonical)
  }

  function CommitIds(h: Hash, ids: seq<seq<byte>>, version: nat, alg: nat): (r: Result<seq<byte>, CommitmentError>) {
    if version != VERSION then Failure(UnsupportedVersion)
    else if alg != ALG_ED25519 then Failure(UnsupportedAlgorithm)
    else
      match CommitPreImage(ids)
      case None => Failure(TooLong)
      case Some(material) => Success(h(material))
  }

  function CommitPrefix(h: Hash, ids: seq<seq<byte>>, upto: int): (r: Result<seq<byte>, CommitmentError>) {
    if !(0 <= upto < |ids|) then Failure(PrefixOutOfRange)
    else CommitIds(h, ids[..upto + 1], 1, 1)
  }

  // ---- the running digests ----

  /** A `hashlib` object: what it was fed so far. */
  class Digest {
    var fed: seq<byte>

    constructor ()
      ensures fed == []
    {
      fed := [];
    }

    method Update(data: seq<byte>)
      modifies this
      ensures fed == old(fed) + data
    {
      fed := fed + data;
    }
  }

  /** `commit_ids`: feed the header, then each identifier behind its length. */
  method StreamCommitment(h: Hash, ids: seq<seq<byte>>, version: nat, alg: nat)
    returns (r: Result<seq<byte>, CommitmentError>)
    ensures r == CommitIds(h, ids, version, alg)
  {
    if version != VERSION {
      return Failure(UnsupportedVersion);
    }
    if alg != ALG_ED25519 {
      return Failure(UnsupportedAlgorithm);
    }
    var digest := new Digest();
    digest.Update(CAP_TAG);
    digest.Update([VERSION]);
    digest.Update([ALG_ED25519]);
    assert [] + CAP_TAG == CAP_TAG;
    var count := U32be(|ids|);
    if count.None? {
      return Failure(TooLong);
    }
    digest.Update(count.value);
    ghost var header := digest.fed;
    assert ids[0..] == ids;
    for n := 0 to |ids|
      invariant Fed(digest.fed, Framed(ids[n..])) == Fed(header, Framed(ids))
    {
      FedStep(digest.fed, ids, n);
      var length := U32be(|ids[n]|);
      if length.None? {
        return Failure(TooLong);
      }
      digest.Update(length.value);
      digest.Update(ids[n]);
    }
    assert digest.fed + [] == digest.fed;
    r := Success(h(digest.fed));
  }

  /** What a digest will have been fed once the rest has been fed too. */
  ghost function Fed(fed: seq<byte>, rest: Option<seq<byte>>): Option<seq<byte>> {
    if rest.None? then None else Some(fed + rest.value)
  }

  lemma FedStep(fed: seq<byte>, ids: seq<seq<byte>>, n: nat)
    requires n < |ids|
    ensures U32be(|ids[n]|).None? ==> Framed(ids[n..]).None?
    ensures U32be(|ids[n]|).Some? ==>
      Fed(fed + U32be(|ids[n]|).value + ids[n], Framed(ids[n + 1..])) == Fed(fed, Framed(ids[n..]))
  {
    assert ids[n..][1..] == ids[n + 1..];
    if U32be(|ids[n]|).Some? && Framed(ids[n + 1..]).Some? {
      var length, rest := U32be(|ids[n]|).value, Framed(ids[n + 1..]).value;
      assert fed + (length + ids[n] + rest) == fed + length + ids[n] + rest;
    }
  }

  /** The oracle's `h_jcs`, and with the other tag `h_gamma`: four updates of one digest. */
  method StreamTagged(h: Hash, tag: seq<byte>, canonical: seq<byte>, version: nat)
    returns (r: Result<seq<byte>, CommitmentError>)
    ensures version != VERSION ==> r == Failure(UnsupportedVersion)
    ensures version == VERSION ==>
      match TaggedPreImage(tag, canonical)
      case None => r == Failure(TooLong)
      case Some(material) => r == Success(h(material))
  {
    if version != VERSION {
      return Failure(UnsupportedVersion);
    }
    var digest := new Digest();
    digest.Update(tag);
    digest.Update([VERSION]);
    var length := U32be(|canonical|);
    if length.None? {
      return Failure(TooLong);
    }
    digest.Update(length.value);
    digest.Update(canonical);
    assert [] + tag == tag;
    r := Success(h(digest.fed));
  }

  // ---- injectivity ----

  /** Equal sequences with heads of equal length have equal heads and equal tails. */
  lemma SplitEqual(a: seq<byte>, x: seq<byte>, b: seq<byte>, y: seq<byte>)
    requires |a| == |b| && a + x == b + y
    ensures a == b && x == y
  {
    assert a == (a + x)[..|a|] && b == (b + y)[..|b|];
    assert x == (a + x)[|a|..] && y == (b + y)[|b|..];
  }

  lemma {:induction false} FramedInjective(a: seq<seq<byte>>, b: seq<seq<byte>>)
    requires |a| == |b| && Framed(a).Some? && Framed(a) == Framed(b)
    ensures a == b
  {
    if a != [] {
      var la, lb := U32be(|a[0]|).value, U32be(|b[0]|).value;
      var ra, rb := Framed(a[1..]).value, Framed(b[1..]).value;
      assert la + (a[0] + ra) == la + a[0] + ra && lb + (b[0] + rb) == lb + b[0] + rb;
      SplitEqual(la, a[0] + ra, lb, b[0] + rb);
      U32beInjective(|a[0]|, |b[0]|);
      SplitEqual(a[0], ra, b[0], rb);
      FramedInjective(a[1..], b[1..]);
      assert a == [a[0]] + a[1..] && b == [b[0]] + b[1..];
    }
  }

  /** The pre-image determines the identifier sequence. */
  lemma CommitPreImageInjective(a: seq<seq<byte>>, b: seq<seq<byte>>)
    requires CommitPreImage(a).Some? && CommitPreImage(a) == CommitPreImage(b)
    ensures a == b
  {
    var head := CAP_TAG + [VERSION] + [ALG_ED25519];
    var ca, cb := U32be(|a|).value, U32be(|b|).value;
    var fa, fb := Framed(a).value, Framed(b).value;
    assert head + (ca + fa) == head + ca + fa && head + (cb + fb) == head + cb + fb;
    SplitEqual(head, ca + fa, head, cb + fb);
    SplitEqual(ca, fa, cb, fb);
    U32beInjective(|a|, |b|);
    FramedInjective(a, b);
  }

  lemma TaggedPreImageInjective(tag: seq<byte>, c: seq<byte>, d: seq<byte>)
    requires TaggedPreImage(tag, c).Some? && TaggedPreImage(tag, c) == TaggedPreImage(tag, d)
    ensures c == d
  {
    var lc, ld := U32be(|c|).value, U32be(|d|).value;
    var head := tag + [VERSION];
    assert head + (lc + c) == head + lc + c && head + (ld + d) == head + ld + d;
    SplitEqual(head, lc + c, head, ld + d);
    SplitEqual(lc, c, ld, d);
  }

  /** The three families never share a pre-image: their tags part at the sixth byte. */
  lemma PreImagesAreSeparated(ids: seq<seq<byte>>, c: seq<byte>, d: seq<byte>)
    ensures CommitPreImage(ids).Some? ==> CommitPreImage(ids) != TaggedPreImage(JCS_TAG, c)
    ensures CommitPreImage(ids).Some? ==> CommitPreImage(ids) != TaggedPreImage(GAMMA_TAG, c)
    ensures TaggedPreImage(JCS_TAG, c).Some? ==> TaggedPreImage(JCS_TAG, c) != TaggedPreImage(GAMMA_TAG, d)
  {
    assert CommitPreImage(ids).Some? ==> CommitPreImage(ids).value[5] == CAP_TAG[5];
    assert TaggedPreImage(JCS_TAG, c).Some? ==> TaggedPreImage(JCS_TAG, c).value[5] == JCS_TAG[5];
    assert TaggedPreImage(GAMMA_TAG, c).Some? ==> TaggedPreImage(GAMMA_TAG, c).value[5] == GAMMA_TAG[5];
    assert TaggedPreImage(GAMMA_TAG, d).Some? ==> TaggedPreImage(GAMMA_TAG, d).value[5] == GAMMA_TAG[5];
  }

  ghost predicate Collision(h: Hash, x: seq<byte>, y: seq<byte>) {
    x != y && h(x) == h(y)
  }

  /** Equal prefix commitments mean the same prefix, or exhibit a collision of the hash. */
  lemma EqualCommitmentsMeanEqualPrefixes(h: Hash, a: seq<seq<byte>>, i: int, b: seq<seq<byte>>, j: int)
    requires CommitPrefix(h, a, i).Success? && CommitPrefix(h, a, i) == CommitPrefix(h, b, j)
    ensures 0 <= i < |a| && 0 <= j < |b|
    ensures var x, y := CommitPreImage(a[..i + 1]), CommitPreImage(b[..j + 1]);
      (i == j && a[..i + 1] == b[..j + 1]) || (x.Some? && y.Some? && Collision(h, x.value, y.value))
  {
    var x, y := CommitPreImage(a[..i + 1]), CommitPreImage(b[..j + 1]);
    if x == y {
      CommitPreImageInjective(a[..i + 1], b[..j + 1]);
    }
  }

  // ---- the layout ----

  /** Read `n` identifiers, each behind its big-endian length, and nothing after them. */
  function Unframed(s: seq<byte>, n: nat): Option<seq<seq<byte>>> {
    if n == 0 then if s == [] then Some([]) else None
    else if |s| < 4 || |s| < 4 + BigEndian(s[..4]) then None
    else
      var end := 4 + BigEndian(s[..4]);
      match Unframed(s[end..], n - 1)
      case None => None
      case Some(rest) => Some([s[4..end]] + rest)
  }

  lemma UnframeOne(length: seq<byte>, id: seq<byte>, rest: seq<byte>, n: nat)
    requires |length| == 4 && BigEndian(length) == |id| && n > 0
    ensures Unframed(length + id + rest, n) ==
      match Unframed(rest, n - 1)
      case None => None
      case Some(ids) => Some([id] + ids)
  {
    var s := length + id + rest;
    assert s[..4] == length && s[4..4 + |id|] == id && s[4 + |id|..] == rest;
  }

  lemma {:induction false} FramedIsRead(ids: seq<seq<byte>>)
    requires Framed(ids).Some?
    ensures Unframed(Framed(ids).value, |ids|) == Some(ids)
  {
    if ids != [] {
      FramedIsRead(ids[1..]);
      U32beIsBigEndian(|ids[0]|);
      UnframeOne(U32be(|ids[0]|).value, ids[0], Framed(ids[1..]).value, |ids|);
      assert ids == [ids[0]] + ids[1..];
    }
  }

  lemma {:induction false} FramedExactly(ids: seq<seq<byte>>)
    ensures Framed(ids).Some? <==> forall id :: id in ids ==> |id| < 0x1_0000_0000
  {
    if ids != [] {
      FramedExactly(ids[1..]);
      assert ids == [ids[0]] + ids[1..];
    }
  }

  function Ascii(s: string): (r: seq<byte>)
    requires forall i :: 0 <= i < |s| ==> s[i] < 256 as char
    ensures |r| == |s|
  {
    seq(|s|, i requires 0 <= i < |s| => s[i] as byte)
  }

  /** The committed bytes: the tag, version 1, algorithm 1, the number of identifiers in four bytes, and then the
      identifiers, each behind its length. */
  ghost predicate CommitLayout(s: seq<byte>, ids: seq<seq<byte>>) {
    && |s| >= 21
    && s[..15] == Ascii("AASC-CAP-COMMIT") && s[15] == 1 && s[16] == 1
    && BigEndian(s[17..21]) == |ids|
    && Unframed(s[21..], |ids|) == Some(ids)
  }

  lemma CommitPreImageIsRead(ids: seq<seq<byte>>)
    ensures CommitPreImage(ids).Some?
      <==> |ids| < 0x1_0000_0000 && forall id :: id in ids ==> |id| < 0x1_0000_0000
    ensures CommitPreImage(ids).Some? ==> CommitLayout(CommitPreImage(ids).value, ids)
  {
    FramedExactly(ids);
    if CommitPreImage(ids).Some? {
      var s, count, framed := CommitPreImage(ids).value, U32be(|ids|).value, Framed(ids).value;
      FramedIsRead(ids);
      U32beIsBigEndian(|ids|);
      CapTag();
      LayoutOf(s, CAP_TAG, count, framed);
    }
  }

  lemma CapTag()
    ensures CAP_TAG == Ascii("AASC-CAP-COMMIT")
  {
  }

  lemma LayoutOf(s: seq<byte>, tag: seq<byte>, count: seq<byte>, framed: seq<byte>)
    requires |tag| == 15 && |count| == 4 && s == tag + [VERSION] + [ALG_ED25519] + count + framed
    ensures |s| >= 21 && s[..15] == tag && s[15] == 1 && s[16] == 1 && s[17..21] == count && s[21..] == framed
  {
  }

  /** The tagged bytes: the tag, version 1, the length in four bytes, and the canonical bytes. */
  lemma TaggedPreImageIsRead(tag: seq<byte>, canonical: seq<byte>)
    ensures JCS_TAG == Ascii("AASC-JCS-DIGEST") && GAMMA_TAG == Ascii("AASC-GAMMA-DIGEST")
    ensures TaggedPreImage(tag, canonical).Some? <==> |canonical| < 0x1_0000_0000
    ensures TaggedPreImage(tag, canonical).Some? ==>
      var s, n := TaggedPreImage(tag, canonical).value, |tag|;
      && |s| >= n + 5
      && s[..n] == tag && s[n] == 1 && BigEndian(s[n + 1..n + 5]) == |canonical| && s[n + 5..] == canonical
  {
    if TaggedPreImage(tag, canonical).Some? {
      var s, n, length := TaggedPreImage(tag, canonical).value, |tag|, U32be(|canonical|).value;
      U32beIsBigEndian(|canonical|);
      assert s[n + 1..n + 5] == length && s[n + 5..] == canonical;
    }
  }

  // ---- which commitments are given out ----

  /** A commitment hashes the pre-image of all the identifiers, under version 1 and algorithm 1 only. */
  lemma CommitsExactly(h: Hash, ids: seq<seq<byte>>, version: nat, alg: nat)
    ensures var r := CommitIds(h, ids, version, alg);
      && (r == Failure(UnsupportedVersion) <==> version != 1)
      && (r == Failure(UnsupportedAlgorithm) <==> version == 1 && alg != 1)
      && (r == Failure(TooLong) <==> version == 1 && alg == 1 && CommitPreImage(ids).None?)
      && (r.Success? <==> version == 1 && alg == 1 && CommitPreImage(ids).Some?)
      && (r.Success? ==> exists s :: CommitLayout(s, ids) && r.value == h(s))
  {
    CommitPreImageIsRead(ids);
  }

  /** The commitment of a prefix is that of its identifiers up to and including the given one. */
  lemma PrefixCommitsExactly(h: Hash, ids: seq<seq<byte>>, upto: int)
    ensures var r := CommitPrefix(h, ids, upto);
      && (r == Failure(PrefixOutOfRange) <==> upto < 0 || upto >= |ids|)
      && (r.Success? ==> 0 <= upto < |ids| && exists s :: CommitLayout(s, ids[..upto + 1]) && r.value == h(s))
      && (0 <= upto < |ids| < 0x1_0000_0000 && (forall id :: id in ids ==> |id| < 0x1_0000_0000) ==> r.Success?)
  {
    if 0 <= upto < |ids| {
      CommitsExactly(h, ids[..upto + 1], 1, 1);
      CommitPreImageIsRead(ids[..upto + 1]);
    }
  }
}
