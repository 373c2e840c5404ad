/** The ledger of one node: its chain, its pool of pending transactions and
    the set of peers it knows, with the operations that change them. */
module Ledger {
  import opened Blocks
  import opened ProofSearch
  import opened ChainValidation
  import opened Consensus
  import opened Peers

  /** `order` visits each element of `nodes` exactly once, as iterating over
      the set does. */
  ghost predicate ListsEachOnce(order: seq<string>, nodes: set<string>)
  {
    (forall n :: n in order <==> n in nodes) &&
    (forall i, j :: 0 <= i < j < |order| ==> order[i] != order[j])
  }

  class Blockchain {
    /** SHA-256 and the canonical JSON encoding every hash here is made with. */
    const hashing: Hasher
    var chain: seq<Block>
    var currentTransactions: seq<Transaction>
    var nodes: set<string>

    /** The chain is never empty once the genesis block is sealed. */
    ghost predicate Valid()
      reads this
    {
      chain != []
    }

    /** last_block: the block the chain ends with. */
    function LastBlock(): (last: Block)
      reads this
      requires Valid()
      ensures chain == chain[..|chain| - 1] + [last]
    {
      chain[|chain| - 1]
    }

    /** Starts an empty ledger and seals the genesis block: proof 100,
        predecessor hash "1", no transactions. */
    constructor (hashing: Hasher, now: real)
      ensures this.hashing == hashing
      ensures chain == [Block(1, now, [], 100, "1")]
      ensures currentTransactions == [] && nodes == {}
      ensures Valid() && ChainValid(hashing, chain)
    {
      this.hashing := hashing;
      currentTransactions := [];
      chain := [];
      nodes := {};
      new;
      var _ := NewBlock(100, Some("1"), now);
    }

    /** new_block: seals the whole pending pool into a block appended to the
        chain, and empties the pool. An absent or empty `previousHash` stands
        for the hash of the current last block. */
    method NewBlock(proof: int, previousHash: Option<string>, now: real) returns (block: Block)
      requires (previousHash.Some? && previousHash.value != "") || chain != []
      modifies this`chain, this`currentTransactions
      ensures block.index == |old(chain)| + 1
      ensures block.timestamp == now && block.proof == proof
      ensures block.transactions == old(currentTransactions)
      ensures block.previousHash ==
        if previousHash.Some? && previousHash.value != "" then previousHash.value
        else Hash(hashing, old(chain)[|old(chain)| - 1])
      ensures chain == old(chain) + [block] && currentTransactions == []
      ensures Valid()
    {
      var linkTo := if previousHash.Some? && previousHash.value != "" then previousHash.value
                    else Hash(hashing, chain[|chain| - 1]);
      block := Block(|chain| + 1, now, currentTransactions, proof, linkTo);
      currentTransactions := [];
      chain := chain + [block];
    }

    /** new_transaction: queues a transfer for the next block and returns the
        index that block will have. */
    method NewTransaction(sender: string, recipient: string, amount: int) returns (nextIndex: int)
      requires Valid()
      modifies this`currentTransactions
      ensures currentTransactions == old(currentTransactions) + [Transaction(sender, recipient, amount)]
      ensures nextIndex == LastBlock().index + 1
      ensures Valid()
    {
      currentTransactions := currentTransactions + [Transaction(sender, recipient, amount)];
      nextIndex := LastBlock().index + 1;
    }

    /** register_node: adds the network location of a parsed address, or its
        path when there is no network location; raises, changing nothing, when
        there is neither. */
    method RegisterNode(url: ParsedUrl) returns (outcome: Result<(), RegisterError>)
      modifies this`nodes
      ensures outcome.Success? <==> NodeAddress(url).Success?
      ensures nodes == if NodeAddress(url).Success? then old(nodes) + {NodeAddress(url).value}
                       else old(nodes)
    {
      if url.netloc != "" {
        nodes := nodes + {url.netloc};
      } else if url.path != "" {
        nodes := nodes + {url.path};
      } else {
        return Failure(InvalidUrl);
      }
      return Success(());
    }

    /** resolve_conflicts: asks every known peer for its chain in the order
        `order`, keeps the valid chain with the greatest reported length above
        the local length, and replaces the local chain with it if there is
        one. The pending pool and the peer set are left alone, and an
        exception leaves the chain as it was. */
    method ResolveConflicts(order: seq<string>, fetch: string -> Reply)
      returns (outcome: Result<bool, ResolveError>)
      requires Valid() && ListsEachOnce(order, nodes)
      modifies this`chain
      ensures var scan := Scan(hashing, Replies(order, fetch), |old(chain)|, None);
        (scan.Failure? ==> outcome == Failure(scan.error) && chain == old(chain)) &&
        (scan == Success(None) ==> outcome == Success(false) && chain == old(chain)) &&
        (scan.Success? && scan.value.Some? ==> outcome == Success(true) && chain == scan.value.value)
      ensures outcome == Success(true) ==> ChainValid(hashing, chain)
      ensures Valid()
    {
      ghost var replies := Replies(order, fetch);
      ghost var scan := Scan(hashing, replies, |chain|, None);
      var newChain: Option<seq<Block>> := None;
      var maxLength := |chain|;
      var i := 0;
      while i < |order|
        invariant 0 <= i <= |order| == |replies| && chain == old(chain)
        invariant scan == Scan(hashing, replies[i..], maxLength, newChain)
        invariant newChain.Some? ==> newChain.value != []
      {
        assert replies[i..][0] == fetch(order[i]) && replies[i..][1..] == replies[i + 1..];
        var response := fetch(order[i]);
        match response
        case Unreachable =>
          assert scan == Failure(PeerUnreachable);
          return Failure(PeerUnreachable);
        case Response(status, length, peerChain) =>
          if status == 200 && length > maxLength {
            if peerChain == [] {
              assert scan == Failure(EmptyPeerChain);
              return Failure(EmptyPeerChain);
            }
            var valid := ValidChain(hashing, peerChain);
            if valid {
              maxLength := length;
              newChain := Some(peerChain);
            }
          }
        i := i + 1;
      }
      assert scan == Success(newChain);
      // a chain kept by the loop is never empty, so it is truthy
      if newChain.Some? {
        AdoptedChainValid(hashing, replies, |old(chain)|);
        chain := newChain.value;
        return Success(true);
      }
      return Success(false);
    }

    /** The mine route: finds the least proof for the last block, queues the
        miner's reward of 1 from sender "0", and seals a block linked to the
        previous last block. A valid chain stays valid. */
    method Mine(nodeIdentifier: string, now: real) returns (block: Block)
      requires Valid()
      requires exists p: nat :: ValidProof(hashing, LastBlock().proof, p, Hash(hashing, LastBlock()))
      modifies this`chain, this`currentTransactions
      ensures block.index == |old(chain)| + 1 && block.timestamp == now
      ensures block.transactions == old(currentTransactions) + [Transaction("0", nodeIdentifier, 1)]
      ensures block.previousHash == Hash(hashing, old(LastBlock()))
      ensures Linked(hashing, old(LastBlock()), block)
      ensures forall q: nat :: q < block.proof ==>
        !ValidProof(hashing, old(LastBlock()).proof, q, Hash(hashing, old(LastBlock())))
      ensures block.proof >= 0
      ensures chain == old(chain) + [block] && currentTransactions == []
      ensures ChainValid(hashing, old(chain)) ==> ChainValid(hashing, chain)
      ensures Valid()
    {
      var lastBlock := LastBlock();
      var proof := ProofOfWork(hashing, lastBlock);
      var _ := NewTransaction("0", nodeIdentifier, 1);
      var previousHash := Hash(hashing, lastBlock);
      block := NewBlock(proof, Some(previousHash), now);
      if ChainValid(hashing, old(chain)) {
        ChainValidAppend(hashing, old(chain), block);
      }
    }
  }

  /** The same host registered once with a scheme (network location) and once
      without (path) is stored once. */
  method RegisterWithAndWithoutScheme(ledger: Blockchain)
    modifies ledger`nodes
    ensures ledger.nodes == old(ledger.nodes) + {"10.0.0.5:5001"}
  {
    var first := ledger.RegisterNode(ParsedUrl("10.0.0.5:5001", ""));
    var second := ledger.RegisterNode(ParsedUrl("", "10.0.0.5:5001"));
  }
}
