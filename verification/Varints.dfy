/** Protobuf base-128 varints: `_varint`/`_emit_varint` of smoke/g11/reencode.py and `_read_varint` of
    src/harness/oracle/commitment.py.
    The bit operations of the source act on disjoint bit ranges, so they are arithmetic here. */
module Varints {
  import opened Wrappers

  type byte = x: int | 0 <= x < 256

  function Varint(n: nat): (r: seq<byte>)
    ensures |r| > 0
  {
    if n < 128 then [n] else [n % 128 + 128] + Varint(n / 128)
  }

  /** The value starting at `i` and the index after it; `None` when the buffer ends first. */
  function ReadVarint(buf: seq<byte>, i: nat): (r: Option<(nat, nat)>)
    ensures r.Some? ==> i < r.value.1 <= |buf|
    decreases |buf| - i
  {
    if i >= |buf| then None
    else if buf[i] < 128 then Some((buf[i], i + 1))
    else
      match ReadVarint(buf, i + 1)
      case None => None
      case Some((high, next)) => Some((buf[i] - 128 + 128 * high, next))
  }

  /** `v << s`. */
  function Shl(v: nat, s: nat): nat {
    if s == 0 then v else 2 * Shl(v, s - 1)
  }

  lemma {:induction false} ShlAdds(a: nat, b: nat, s: nat)
    ensures Shl(a + b, s) == Shl(a, s) + Shl(b, s)
  {
    if s > 0 {
      ShlAdds(a, b, s - 1);
    }
  }

  lemma ShlSeven(v: nat, s: nat)
    ensures Shl(v, s + 7) == 128 * Shl(v, s)
  {
    assert Shl(v, s + 2) == 2 * Shl(v, s + 1) == 4 * Shl(v, s);
    assert Shl(v, s + 4) == 2 * Shl(v, s + 3) == 4 * Shl(v, s + 2);
    assert Shl(v, s + 6) == 2 * Shl(v, s + 5) == 4 * Shl(v, s + 4);
  }

  lemma {:induction false} ShlScales(v: nat, s: nat)
    ensures Shl(128 * v, s) == 128 * Shl(v, s)
  {
    if s > 0 {
      ShlScales(v, s - 1);
    }
  }

  method EmitVarint(n: nat) returns (out: seq<byte>)
    ensures out == Varint(n)
  {
    out := [];
    var value := n;
    while true
      invariant out + Varint(value) == Varint(n)
      decreases value
    {
      var low := value % 128;
      ghost var before := Varint(value);
      value := value / 128;
      if value == 0 {
        out := out + [low];
        return;
      }
      out := out + [low + 128];
    }
  }

  /** The value read so far plus what is left, in the remaining position of the number. */
  ghost function Resumed(buf: seq<byte>, i: nat, value: nat, shift: nat): Option<(nat, nat)> {
    match ReadVarint(buf, i)
    case None => None
    case Some((high, next)) => Some((value + Shl(high, shift), next))
  }

  lemma ResumeByte(buf: seq<byte>, i: nat, value: nat, shift: nat)
    requires i < |buf| && buf[i] >= 128
    ensures Resumed(buf, i, value, shift) == Resumed(buf, i + 1, value + Shl(buf[i] % 128, shift), shift + 7)
  {
    if ReadVarint(buf, i + 1).Some? {
      var high := ReadVarint(buf, i + 1).value.0;
      ShlSeven(high, shift);
      ShlScales(high, shift);
      ShlAdds(buf[i] - 128, 128 * high, shift);
    }
  }

  method ReadVarintLoop(buf: seq<byte>, start: nat) returns (r: Option<(nat, nat)>)
    ensures r == ReadVarint(buf, start)
  {
    var value: nat, shift: nat, i: nat := 0, 0, start;
    while true
      invariant Resumed(buf, i, value, shift) == ReadVarint(buf, start)
      decreases |buf| - i
    {
      if i >= |buf| {
        return None;
      }
      var b := buf[i];
      if b < 128 {
        return Some((value + Shl(b, shift), i + 1));
      }
      ResumeByte(buf, i, value, shift);
      value := value + Shl(b % 128, shift);
      i, shift := i + 1, shift + 7;
    }
  }

  /** `part` stands in `buf` at `i`. */
  predicate StandsAt(buf: seq<byte>, i: nat, part: seq<byte>) {
    i + |part| <= |buf| && buf[i..i + |part|] == part
  }

  lemma StandsAtSplit(buf: seq<byte>, i: nat, a: seq<byte>, b: seq<byte>)
    requires StandsAt(buf, i, a + b)
    ensures StandsAt(buf, i, a) && StandsAt(buf, i + |a|, b)
  {
    assert a == (a + b)[..|a|] && b == (a + b)[|a|..];
  }

  /** Reading finds what was printed, wherever in a buffer it stands and whatever surrounds it. */
  lemma {:induction false} VarintRoundTrip(buf: seq<byte>, i: nat, n: nat)
    requires StandsAt(buf, i, Varint(n))
    ensures ReadVarint(buf, i) == Some((n, i + |Varint(n)|))
    decreases n
  {
    if n < 128 {
      assert buf[i] == Varint(n)[0];
    } else {
      StandsAtSplit(buf, i, [n % 128 + 128], Varint(n / 128));
      assert buf[i] == [n % 128 + 128][0];
      VarintRoundTrip(buf, i + 1, n / 128);
    }
  }
}
