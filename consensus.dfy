/** The longest-chain rule: which of the peers' replies the ledger adopts,
    stated as a function that follows the peer loop one reply at a time. */
module Consensus {
  import opened Blocks
  import opened ChainValidation

  /** What asking one peer for its chain yields: no answer at all (the
      request raises), or an HTTP status with, for status 200, the peer's
      self-reported length and its chain. */
  datatype Reply = Unreachable | Response(status: int, length: int, chain: seq<Block>)

  /** The exceptions that escape resolve_conflicts: a request that cannot
      reach its peer, and an empty chain handed to valid_chain. */
  datatype ResolveError = PeerUnreachable | EmptyPeerChain

  /** The replies in the order the peers are visited. */
  function Replies(order: seq<string>, fetch: string -> Reply): (replies: seq<Reply>)
  {
    seq(|order|, i requires 0 <= i < |order| => fetch(order[i]))
  }

  /** A reply the scan would adopt if it met it with `maxLength` as its
      running maximum: status 200, a reported length above the maximum, and a
      non-empty chain that passes validation. */
  predicate Qualifies(h: Hasher, r: Reply, maxLength: int)
  {
    r.Response? && r.status == 200 && r.length > maxLength &&
    r.chain != [] && ChainValid(h, r.chain)
  }

  /** The peer loop of resolve_conflicts over the remaining replies, with the
      running maximum of reported lengths and the chain adopted so far. */
  function Scan(h: Hasher, replies: seq<Reply>, maxLength: int, newChain: Option<seq<Block>>)
    : (r: Result<Option<seq<Block>>, ResolveError>)
    ensures r.Success? && r.value != newChain ==>
      exists i :: 0 <= i < |replies| && replies[i].Response? && replies[i].status == 200 &&
        replies[i].length > maxLength && r.value == Some(replies[i].chain)
  {
    if replies == [] then Success(newChain)
    else
      assert forall i :: 1 <= i < |replies| ==> replies[1..][i - 1] == replies[i];
      match replies[0]
      case Unreachable => Failure(PeerUnreachable)
      case Response(status, length, chain) =>
        if status == 200 && length > maxLength then
          if chain == [] then Failure(EmptyPeerChain)
          else if ChainValid(h, chain) then Scan(h, replies[1..], length, Some(chain))
          else Scan(h, replies[1..], maxLength, newChain)
        else Scan(h, replies[1..], maxLength, newChain)
  }

  /** A peer that cannot be reached makes the whole scan raise, wherever it
      comes (an earlier empty chain may raise first). */
  lemma {:induction false} UnreachablePeerAborts(
    h: Hasher, replies: seq<Reply>, maxLength: int, newChain: Option<seq<Block>>, i: nat)
    requires i < |replies| && replies[i].Unreachable?
    ensures Scan(h, replies, maxLength, newChain).Failure?
  {
    if i > 0 && !replies[0].Unreachable? {
      var r := replies[0];
      assert replies[1..][i - 1] == replies[i];
      if r.status == 200 && r.length > maxLength {
        if r.chain != [] {
          if ChainValid(h, r.chain) {
            UnreachablePeerAborts(h, replies[1..], r.length, Some(r.chain), i - 1);
          } else {
            UnreachablePeerAborts(h, replies[1..], maxLength, newChain, i - 1);
          }
        }
      } else {
        UnreachablePeerAborts(h, replies[1..], maxLength, newChain, i - 1);
      }
    }
  }

  /** When every peer answers and every status-200 answer has a non-empty
      chain, the scan raises nothing. */
  lemma {:induction false} WellFormedRepliesSucceed(
    h: Hasher, replies: seq<Reply>, maxLength: int, newChain: Option<seq<Block>>)
    requires forall r :: r in replies ==> r.Response? && (r.status == 200 ==> r.chain != [])
    ensures Scan(h, replies, maxLength, newChain).Success?
  {
    if replies != [] {
      var r := replies[0];
      assert r in replies;
      assert forall x :: x in replies[1..] ==> x in replies;
      if r.status == 200 && r.length > maxLength && ChainValid(h, r.chain) {
        WellFormedRepliesSucceed(h, replies[1..], r.length, Some(r.chain));
      } else {
        WellFormedRepliesSucceed(h, replies[1..], maxLength, newChain);
      }
    }
  }

  /** A failed scan names its cause: an unreachable peer, or a status-200
      reply whose chain is empty and whose reported length beat the starting
      maximum. */
  lemma {:induction false} ScanFailureCause(
    h: Hasher, replies: seq<Reply>, maxLength: int, newChain: Option<seq<Block>>)
    requires Scan(h, replies, maxLength, newChain).Failure?
    ensures exists i :: (0 <= i < |replies| &&
      (replies[i].Unreachable? ||
       (replies[i].status == 200 && replies[i].length > maxLength && replies[i].chain == [])))
  {
    var r := replies[0];
    if r.Unreachable? || (r.status == 200 && r.length > maxLength && r.chain == []) {
      assert replies[0] == r;
    } else {
      var m := if r.status == 200 && r.length > maxLength && ChainValid(h, r.chain) then r.length else maxLength;
      var nc := if r.status == 200 && r.length > maxLength && ChainValid(h, r.chain) then Some(r.chain) else newChain;
      assert Scan(h, replies[1..], m, nc).Failure?;
      ScanFailureCause(h, replies[1..], m, nc);
      var j :| 0 <= j < |replies[1..]| &&
        (replies[1..][j].Unreachable? ||
         (replies[1..][j].status == 200 && replies[1..][j].length > m && replies[1..][j].chain == []));
      assert replies[j + 1] == replies[1..][j];
    }
  }

  /** The adopted reply `k`: it qualifies against the starting maximum, no
      qualifying reply reports more, and every qualifying reply before it
      reports strictly less (the first of equal lengths wins). */
  ghost predicate Longest(h: Hasher, replies: seq<Reply>, maxLength: int, k: int)
  {
    0 <= k < |replies| && Qualifies(h, replies[k], maxLength) &&
    (forall j :: 0 <= j < |replies| && Qualifies(h, replies[j], maxLength) ==>
       replies[j].length <= replies[k].length) &&
    (forall j :: 0 <= j < k && Qualifies(h, replies[j], maxLength) ==>
       replies[j].length < replies[k].length)
  }

  /** The step of ScanResult where the first reply raises the running
      maximum: whatever the rest of the scan adopts is the longest reply of
      the whole sequence. */
  lemma NewMaximumLongest(h: Hasher, replies: seq<Reply>, maxLength: int, adopted: seq<Block>)
    requires replies != [] && Qualifies(h, replies[0], maxLength)
    requires var r, rest := replies[0], replies[1..];
      (adopted == r.chain && forall j :: 0 <= j < |rest| ==> !Qualifies(h, rest[j], r.length)) ||
      (exists k :: Longest(h, rest, r.length, k) && adopted == rest[k].chain)
    ensures exists k :: Longest(h, replies, maxLength, k) && adopted == replies[k].chain
  {
    var r, rest := replies[0], replies[1..];
    assert forall j :: 1 <= j < |replies| ==> replies[j] == rest[j - 1];
    if adopted == r.chain && forall j :: 0 <= j < |rest| ==> !Qualifies(h, rest[j], r.length) {
      forall j | 0 <= j < |replies| && Qualifies(h, replies[j], maxLength)
        ensures replies[j].length <= r.length
      {
        if j > 0 {
          assert !Qualifies(h, rest[j - 1], r.length);
        }
      }
      assert Longest(h, replies, maxLength, 0);
    } else {
      var k :| Longest(h, rest, r.length, k) && adopted == rest[k].chain;
      forall j | 0 <= j < |replies| && Qualifies(h, replies[j], maxLength)
        ensures replies[j].length <= rest[k].length
        ensures j < k + 1 ==> replies[j].length < rest[k].length
      {
        if j > 0 && replies[j].length > r.length {
          assert Qualifies(h, rest[j - 1], r.length);
        }
      }
      assert Longest(h, replies, maxLength, k + 1);
    }
  }

  /** What a successful scan returns: the chain carried in, when no reply
      qualifies, or else the chain of the longest qualifying reply. */
  lemma {:induction false} ScanResult(
    h: Hasher, replies: seq<Reply>, maxLength: int, newChain: Option<seq<Block>>)
    requires Scan(h, replies, maxLength, newChain).Success?
    ensures var res := Scan(h, replies, maxLength, newChain).value;
      (res == newChain && forall j :: 0 <= j < |replies| ==> !Qualifies(h, replies[j], maxLength)) ||
      (exists k :: Longest(h, replies, maxLength, k) && res == Some(replies[k].chain))
  {
    if replies == [] {
      return;
    }
    var r, rest := replies[0], replies[1..];
    var res := Scan(h, replies, maxLength, newChain).value;
    assert forall j :: 1 <= j < |replies| ==> replies[j] == rest[j - 1];
    if r.status == 200 && r.length > maxLength && ChainValid(h, r.chain) {
      // r is the new running maximum
      ScanResult(h, rest, r.length, Some(r.chain));
      NewMaximumLongest(h, replies, maxLength, res.value);
    } else {
      // r does not qualify and the running maximum stays
      ScanResult(h, rest, maxLength, newChain);
      SameMaximumLongest(h, replies, maxLength, newChain, res);
    }
  }

  /** The step of ScanResult where the first reply does not qualify: the
      rest of the scan decides, with indices shifted by one. */
  lemma SameMaximumLongest(
    h: Hasher, replies: seq<Reply>, maxLength: int, newChain: Option<seq<Block>>, res: Option<seq<Block>>)
    requires replies != [] && !Qualifies(h, replies[0], maxLength)
    requires var rest := replies[1..];
      (res == newChain && forall j :: 0 <= j < |rest| ==> !Qualifies(h, rest[j], maxLength)) ||
      (exists k :: Longest(h, rest, maxLength, k) && res == Some(rest[k].chain))
    ensures (res == newChain && forall j :: 0 <= j < |replies| ==> !Qualifies(h, replies[j], maxLength)) ||
      (exists k :: Longest(h, replies, maxLength, k) && res == Some(replies[k].chain))
  {
    var rest := replies[1..];
    assert forall j :: 1 <= j < |replies| ==> replies[j] == rest[j - 1];
    if !(res == newChain && forall j :: 0 <= j < |rest| ==> !Qualifies(h, rest[j], maxLength)) {
      var k :| Longest(h, rest, maxLength, k) && res == Some(rest[k].chain);
      assert Longest(h, replies, maxLength, k + 1);
    }
  }

  /** Started with nothing adopted, a successful scan adopts a chain exactly
      when some reply qualifies, and what it adopts is the chain of the
      longest qualifying reply. */
  lemma AdoptsLongestQualifying(h: Hasher, replies: seq<Reply>, maxLength: int)
    requires Scan(h, replies, maxLength, None).Success?
    ensures var res := Scan(h, replies, maxLength, None).value;
      (res.Some? <==> exists j :: 0 <= j < |replies| && Qualifies(h, replies[j], maxLength)) &&
      (res.Some? ==> exists k :: Longest(h, replies, maxLength, k) && res.value == replies[k].chain)
  {
    ScanResult(h, replies, maxLength, None);
  }

  /** An adopted chain is never empty and always passes validation. */
  lemma AdoptedChainValid(h: Hasher, replies: seq<Reply>, maxLength: int)
    requires Scan(h, replies, maxLength, None).Success?
    requires Scan(h, replies, maxLength, None).value.Some?
    ensures var c := Scan(h, replies, maxLength, None).value.value;
      c != [] && ChainValid(h, c)
  {
    AdoptedChainValidFrom(h, replies, maxLength, None);
  }

  lemma {:induction false} AdoptedChainValidFrom(
    h: Hasher, replies: seq<Reply>, maxLength: int, newChain: Option<seq<Block>>)
    requires newChain.Some? ==> newChain.value != [] && ChainValid(h, newChain.value)
    requires Scan(h, replies, maxLength, newChain).Success?
    requires Scan(h, replies, maxLength, newChain).value.Some?
    ensures var c := Scan(h, replies, maxLength, newChain).value.value;
      c != [] && ChainValid(h, c)
  {
    if replies != [] {
      var r := replies[0];
      if r.status == 200 && r.length > maxLength && ChainValid(h, r.chain) {
        AdoptedChainValidFrom(h, replies[1..], r.length, Some(r.chain));
      } else {
        AdoptedChainValidFrom(h, replies[1..], maxLength, newChain);
      }
    }
  }

  /** When every status-200 reply reports its chain's true length, an adopted
      chain is strictly longer than the local one. */
  lemma HonestPeersLengthen(h: Hasher, replies: seq<Reply>, localLength: int)
    requires forall r :: r in replies && r.Response? && r.status == 200 ==> r.length == |r.chain|
    requires Scan(h, replies, localLength, None).Success?
    requires Scan(h, replies, localLength, None).value.Some?
    ensures |Scan(h, replies, localLength, None).value.value| > localLength
  {
    AdoptsLongestQualifying(h, replies, localLength);
    var k :| Longest(h, replies, localLength, k) &&
      Scan(h, replies, localLength, None).value.value == replies[k].chain;
    assert replies[k] in replies;
  }

  /** Only the reported length is compared: a peer claiming length 5 for a
      one-block chain replaces a two-block local chain. */
  lemma ReportedLengthTrusted(h: Hasher, genesis: Block)
    ensures Scan(h, [Response(200, 5, [genesis])], 2, None) == Success(Some([genesis]))
    ensures |[genesis]| < 2
  {
  }
}
