/** The proof-of-work puzzle: the predicate that accepts a proof, and the
    linear search that finds the least accepted one. */
module ProofSearch {
  import opened Blocks

  /** The digest prefix a valid proof must produce. The search's doc comment
      speaks of five zeroes; the predicate compares four characters. */
  const ProofPrefix: string := "0000"

  function DigitChar(d: nat): (c: char)
    requires d < 10
    ensures '0' <= c <= '9'
  {
    (d + '0' as int) as char
  }

  /** The decimal digits of a natural number, most significant first. */
  function NatDecimal(n: nat): (r: string)
    ensures |r| > 0
    ensures forall i :: 0 <= i < |r| ==> '0' <= r[i] <= '9'
  {
    if n < 10 then [DigitChar(n)] else NatDecimal(n / 10) + [DigitChar(n % 10)]
  }

  /** How an integer is rendered inside an f-string: a minus sign for
      negative numbers, then the digits. */
  function Decimal(n: int): (r: string)
    ensures |r| > 0
    ensures r[0] == '-' <==> n < 0
  {
    if n < 0 then "-" + NatDecimal(-n) else NatDecimal(n)
  }

  /** A string's first n characters, or all of it when it is shorter (the slice `s[:n]`). */
  function Take(s: string, n: nat): (r: string)
    ensures |r| == if |s| < n then |s| else n
    ensures r <= s
  {
    if |s| <= n then s else s[..n]
  }

  /** The string that is hashed to test a proof: the previous proof, the
      candidate proof and the previous block's hash written one after the other. */
  function Guess(lastProof: int, proof: int, lastHash: string): (guess: string)
  {
    Decimal(lastProof) + Decimal(proof) + lastHash
  }

  /** valid_proof: the slice of the first four characters of the digest of
      the guess equals "0000", which holds exactly when the digest has at
      least four characters and each of the first four is a zero. */
  predicate ValidProof(h: Hasher, lastProof: int, proof: int, lastHash: string): (valid: bool)
    ensures var digest := h.sha256Hex(Guess(lastProof, proof, lastHash));
      valid <==> |digest| >= 4 && forall i :: 0 <= i < 4 ==> digest[i] == '0'
  {
    Take(h.sha256Hex(Guess(lastProof, proof, lastHash)), 4) == ProofPrefix
  }

  /** The three values are joined without a separator, so different
      (previous proof, proof) pairs can share one guess and hence one verdict. */
  lemma ValidProofIgnoresSplit(h: Hasher, lastHash: string)
    ensures ValidProof(h, 1, 23, lastHash) == ValidProof(h, 12, 3, lastHash)
  {
    assert NatDecimal(23) == NatDecimal(2) + [DigitChar(3)];
    assert NatDecimal(12) == NatDecimal(1) + [DigitChar(2)];
    assert Guess(1, 23, lastHash) == Guess(12, 3, lastHash);
  }

  /** proof_of_work: counts up from zero to the first proof that valid_proof
      accepts against the given block's proof and hash. The search has no
      bound of its own; the caller's guarantee that some proof is accepted
      is what makes it stop. */
  method ProofOfWork(h: Hasher, lastBlock: Block) returns (proof: nat)
    requires exists p: nat :: ValidProof(h, lastBlock.proof, p, Hash(h, lastBlock))
    ensures ValidProof(h, lastBlock.proof, proof, Hash(h, lastBlock))
    ensures forall q: nat :: q < proof ==> !ValidProof(h, lastBlock.proof, q, Hash(h, lastBlock))
  {
    var lastProof := lastBlock.proof;
    var lastHash := Hash(h, lastBlock);
    ghost var found: nat :| ValidProof(h, lastProof, found, lastHash);
    proof := 0;
    while !ValidProof(h, lastProof, proof, lastHash)
      invariant proof <= found
      invariant forall q: nat :: q < proof ==> !ValidProof(h, lastProof, q, lastHash)
      decreases found - proof
    {
      proof := proof + 1;
    }
  }
}
