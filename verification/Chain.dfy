/** Capability chains: one serialized token per hop, each extending the one before it
    (src/harness/authorizer/allowed.py), and the prefix hashes the runner recomputes from the last hop
    alone (src/harness/runner.py). */
module Chain {
  import opened Wrappers
  import opened Varints
  import opened Profile
  import opened Commitment

  /** `block_ids_from_raw` for the chain's root key: verification and extraction, abstract here. */
  type BlockIds = seq<byte> -> Result<seq<seq<byte>>, CommitmentError>

  datatype ChainError =
    | NoHops
    | Unverified(error: CommitmentError)
    | WrongBlockCount(hop: nat)
    | NotAnExtension(hop: nat)

  /** Hop `i` verifies, presents `i + 1` blocks, and begins with the blocks of hop `i - 1`. */
  ghost predicate HopFits(blockIds: BlockIds, hops: seq<seq<byte>>, i: nat)
    requires i < |hops|
  {
    && blockIds(hops[i]).Success?
    && |blockIds(hops[i]).value| == i + 1
    && (i > 0 ==> blockIds(hops[i - 1]) == Success(blockIds(hops[i]).value[..i]))
  }

  ghost predicate IsChain(blockIds: BlockIds, hops: seq<seq<byte>>) {
    hops != [] && forall i :: 0 <= i < |hops| ==> HopFits(blockIds, hops, i)
  }

  /** The constructor's check, carrying the previous hop's identifiers. */
  method CheckChain(blockIds: BlockIds, hops: seq<seq<byte>>) returns (r: Result<bool, ChainError>)
    ensures r.Success? <==> IsChain(blockIds, hops)
    ensures r.Failure? ==>
      match r.error
      case NoHops => hops == []
      case Unverified(e) => exists i :: 0 <= i < |hops| && blockIds(hops[i]) == Failure(e)
      case WrongBlockCount(i) => i < |hops| && blockIds(hops[i]).Success? && |blockIds(hops[i]).value| != i + 1
      case NotAnExtension(i) => 0 < i < |hops| && !HopFits(blockIds, hops, i)
  {
    if hops == [] {
      return Failure(NoHops);
    }
    var previous: seq<seq<byte>> := [];
    for index := 0 to |hops|
      invariant forall i :: 0 <= i < index ==> HopFits(blockIds, hops, i)
      invariant |previous| == index
      invariant index > 0 ==> blockIds(hops[index - 1]) == Success(previous)
    {
      var ids := blockIds(hops[index]);
      assert HopFits(blockIds, hops, index) <==>
        ids.Success? && |ids.value| == index + 1 && ids.value[..|previous|] == previous;
      if ids.Failure? {
        return Failure(Unverified(ids.error));
      }
      if |ids.value| != index + 1 {
        return Failure(WrongBlockCount(index));
      }
      if ids.value[..|previous|] != previous {
        return Failure(NotAnExtension(index));
      }
      previous := ids.value;
    }
    r := Success(true);
  }

  /** An accepted chain is prefix-closed across any two of its hops, not only neighbours. */
  lemma {:induction false} ChainsArePrefixClosed(blockIds: BlockIds, hops: seq<seq<byte>>, i: nat, j: nat)
    requires IsChain(blockIds, hops) && i <= j < |hops|
    ensures blockIds(hops[i]).Success? && blockIds(hops[j]).Success? && |blockIds(hops[j]).value| == j + 1
    ensures blockIds(hops[i]).value == blockIds(hops[j]).value[..i + 1]
    decreases j
  {
    assert HopFits(blockIds, hops, i) && HopFits(blockIds, hops, j);
    if i < j {
      ChainsArePrefixClosed(blockIds, hops, i, j - 1);
      assert HopFits(blockIds, hops, j - 1);
      var last := blockIds(hops[j]).value;
      assert last[..j][..i + 1] == last[..i + 1];
    } else {
      assert blockIds(hops[j]).value[..j + 1] == blockIds(hops[j]).value;
    }
  }

  /** `Chain.commitment(i)`: the commitment of hop `i` over its own identifiers. */
  function HopCommitment(h: Hash, blockIds: BlockIds, hop: seq<byte>): Result<seq<byte>, CommitmentError> {
    var ids :- blockIds(hop);
    CommitPrefix(h, ids, |ids| - 1)
  }

  /** The runner's `P_hashes`: every prefix of the terminal hop's identifiers. */
  method PrefixHashes(h: Hash, blockIds: BlockIds, hops: seq<seq<byte>>)
    returns (r: Result<seq<seq<byte>>, CommitmentError>)
    requires hops != []
    ensures r.Success? ==> blockIds(hops[|hops| - 1]).Success? && |r.value| == |blockIds(hops[|hops| - 1]).value|
    ensures r.Success? ==>
      forall i :: 0 <= i < |r.value| ==> CommitPrefix(h, blockIds(hops[|hops| - 1]).value, i) == Success(r.value[i])
    ensures r.Failure? && blockIds(hops[|hops| - 1]).Success? ==>
      var ids := blockIds(hops[|hops| - 1]).value;
      !(forall i :: 0 <= i < |ids| ==> CommitPrefix(h, ids, i).Success?)
  {
    var ids :- blockIds(hops[|hops| - 1]);
    var hashes: seq<seq<byte>> := [];
    for i := 0 to |ids|
      invariant |hashes| == i
      invariant forall k :: 0 <= k < i ==> CommitPrefix(h, ids, k) == Success(hashes[k])
    {
      var hash :- CommitPrefix(h, ids, i);
      hashes := hashes + [hash];
    }
    r := Success(hashes);
  }

  /** What the runner computes from the terminal token alone is what each hop commits to itself. */
  lemma TerminalHopDeterminesEveryCommitment(h: Hash, blockIds: BlockIds, hops: seq<seq<byte>>, i: nat)
    requires IsChain(blockIds, hops) && i < |hops|
    ensures blockIds(hops[|hops| - 1]).Success?
    ensures CommitPrefix(h, blockIds(hops[|hops| - 1]).value, i) == HopCommitment(h, blockIds, hops[i])
  {
    ChainsArePrefixClosed(blockIds, hops, i, |hops| - 1);
    var ids := blockIds(hops[i]).value;
    assert ids[..|ids|] == ids;
    assert HopFits(blockIds, hops, i);
  }

  /** Two chains that agree on one hop's commitment have the same blocks at every earlier hop, and so agree on
      every earlier commitment, unless the two committed sequences are themselves a collision of the hash. */
  lemma AgreementReachesBack(h: Hash, blockIds: BlockIds, a: seq<seq<byte>>, b: seq<seq<byte>>, i: nat, k: nat)
    requires IsChain(blockIds, a) && IsChain(blockIds, b) && k <= i < |a| && i < |b|
    requires HopCommitment(h, blockIds, a[i]).Success?
    requires HopCommitment(h, blockIds, a[i]) == HopCommitment(h, blockIds, b[i])
    ensures blockIds(a[i]).Success? && blockIds(b[i]).Success?
    ensures var x, y := CommitPreImage(blockIds(a[i]).value), CommitPreImage(blockIds(b[i]).value);
      || (blockIds(a[k]) == blockIds(b[k]) && HopCommitment(h, blockIds, a[k]) == HopCommitment(h, blockIds, b[k]))
      || (x.Some? && y.Some? && Collision(h, x.value, y.value))
  {
    var x, y := blockIds(a[i]).value, blockIds(b[i]).value;
    ChainsArePrefixClosed(blockIds, a, k, i);
    ChainsArePrefixClosed(blockIds, b, k, i);
    assert HopFits(blockIds, a, i) && HopFits(blockIds, b, i);
    EqualCommitmentsMeanEqualPrefixes(h, x, i, y, i);
    assert x[..i + 1] == x && y[..i + 1] == y;
  }
}
