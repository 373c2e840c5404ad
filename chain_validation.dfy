/** Chain validation: every block after the first must name its
    predecessor's hash and carry a proof the puzzle accepts against it. */
module ChainValidation {
  import opened Blocks
  import opened ProofSearch

  /** The two checks made for each adjacent pair: the hash link and the proof. */
  predicate Linked(h: Hasher, previous: Block, current: Block)
  {
    current.previousHash == Hash(h, previous) &&
    ValidProof(h, previous.proof, current.proof, Hash(h, previous))
  }

  /** A chain is valid when every adjacent pair is linked; the first block is
      checked against nothing. */
  predicate ChainValid(h: Hasher, chain: seq<Block>)
  {
    forall i :: 1 <= i < |chain| ==> Linked(h, chain[i - 1], chain[i])
  }

  /** valid_chain: walks the adjacent pairs from the front and stops at the
      first pair that fails either check. It reads the chain it is given and
      nothing else. An empty chain raises in the source at its first element. */
  method ValidChain(h: Hasher, chain: seq<Block>) returns (valid: bool)
    requires |chain| > 0
    ensures valid <==> ChainValid(h, chain)
  {
    var lastBlock := chain[0];
    var currentIndex := 1;
    while currentIndex < |chain|
      invariant 1 <= currentIndex <= |chain|
      invariant lastBlock == chain[currentIndex - 1]
      invariant forall i :: 1 <= i < currentIndex ==> Linked(h, chain[i - 1], chain[i])
    {
      var block := chain[currentIndex];
      var lastBlockHash := Hash(h, lastBlock);
      if block.previousHash != lastBlockHash {
        return false;
      }
      if !ValidProof(h, lastBlock.proof, block.proof, lastBlockHash) {
        return false;
      }
      lastBlock := block;
      currentIndex := currentIndex + 1;
    }
    return true;
  }

  /** Appending a block linked to the last one keeps a chain valid. */
  lemma ChainValidAppend(h: Hasher, chain: seq<Block>, b: Block)
    requires chain != [] && ChainValid(h, chain)
    requires Linked(h, chain[|chain| - 1], b)
    ensures ChainValid(h, chain + [b])
  {
  }

  /** Every prefix of a valid chain is valid. */
  lemma ChainValidPrefix(h: Hasher, chain: seq<Block>, n: nat)
    requires n <= |chain| && ChainValid(h, chain)
    ensures ChainValid(h, chain[..n])
  {
  }

  /** Changing the recorded predecessor hash of any block after the first
      makes a valid chain invalid. */
  lemma TamperedLinkDetected(h: Hasher, chain: seq<Block>, i: nat, b: Block)
    requires ChainValid(h, chain) && 1 <= i < |chain|
    requires b.previousHash != chain[i].previousHash
    ensures !ChainValid(h, chain[i := b])
  {
    assert chain[i := b][i - 1] == chain[i - 1];
    assert !Linked(h, chain[i := b][i - 1], chain[i := b][i]);
  }

  /** Replacing a block that has a successor by one with a different hash
      makes a valid chain invalid: the successor's link no longer matches. */
  lemma TamperedInteriorDetected(h: Hasher, chain: seq<Block>, i: nat, b: Block)
    requires ChainValid(h, chain) && i + 1 < |chain|
    requires Hash(h, b) != Hash(h, chain[i])
    ensures !ChainValid(h, chain[i := b])
  {
    assert Linked(h, chain[i], chain[i + 1]);
    assert chain[i := b][i + 1] == chain[i + 1];
    assert !Linked(h, chain[i := b][i], chain[i := b][i + 1]);
  }

  /** The last block is checked only through its predecessor hash and its
      proof: its index, timestamp and transactions can be replaced without
      the chain becoming invalid. */
  lemma HeadContentsUnchecked(h: Hasher, chain: seq<Block>, b: Block)
    requires chain != [] && ChainValid(h, chain)
    requires b.previousHash == chain[|chain| - 1].previousHash
    requires b.proof == chain[|chain| - 1].proof
    ensures ChainValid(h, chain[|chain| - 1 := b])
  {
  }
}
