# Blockchain ledger core

A model of the ledger part of `blockchain.py`: the `Blockchain` class that holds
one node's chain of blocks, its pool of pending transactions and its set of
peer addresses. The model covers:

- building the genesis block;
- sealing blocks (`new_block`) and queueing transactions (`new_transaction`);
- the proof-of-work puzzle (`valid_proof`) and the linear search for its least
  solution (`proof_of_work`);
- chain validation (`valid_chain`);
- the longest-valid-chain consensus rule (`resolve_conflicts`);
- peer registration (`register_node`);
- the three-step `mine` composite.

Files and modules:

- `blocks.dfy` (`Blocks`): transactions, blocks, `Option`/`Result`, and the
  `Hasher` pair of library functions (SHA-256 hex digest, sorted-key JSON
  encoding) that `Hash` composes.
- `proof_search.dfy` (`ProofSearch`): integer rendering as in an f-string, the
  `s[:4]` slice, `ValidProof` and the `ProofOfWork` search.
- `chain_validation.dfy` (`ChainValidation`): the pairwise link predicate, the
  `ValidChain` walk, and what validation does and does not detect.
- `consensus.dfy` (`Consensus`): peer replies, and `Scan`, a function that
  follows the peer loop of `resolve_conflicts` one reply at a time, with the
  lemmas that say what it adopts.
- `peers.dfy` (`Peers`): which part of a parsed URL is stored.
- `blockchain.dfy` (`Ledger`): the `Blockchain` class whose methods update
  `chain`, `currentTransactions` and `nodes` in place, and `Mine`.

The hashing library calls are fields of a `Hasher` value. The class holds one as
a constant. All results hold for every pair of functions, so nothing depends on
properties of SHA-256. Where a result needs two blocks to hash differently, it
takes that as a hypothesis about those two blocks.

The model turns three of the source's exceptions into `Failure` values:
- `register_node` on an address with neither part;
- `resolve_conflicts` when a peer cannot be reached;
- `resolve_conflicts` when a peer's reply carries an empty chain, because
  `valid_chain` then indexes `chain[0]`.

Four behaviours of the code are worth stating plainly:
- The search's doc comment (blockchain.py:174) speaks of five leading zeroes.
  `valid_proof` compares four (blockchain.py:201), and the model follows the code.
- A request to an unreachable peer (blockchain.py:93) is not caught. The
  exception ends `resolve_conflicts`, and the remaining peers are not asked.
- Chains are ranked by the length the peer reports, not by the chain's own
  length. `ReportedLengthTrusted` shows a one-block chain replacing a
  two-block one. `HonestPeersLengthen` shows the chain grows when peers report
  true lengths.
- `valid_chain` does not protect the last block's index, timestamp or
  transactions (`HeadContentsUnchecked`). Tampering with any earlier block is
  detected whenever it changes that block's hash (`TamperedInteriorDetected`),
  and with any non-genesis block whenever it changes its recorded predecessor
  hash (`TamperedLinkDetected`).

`register_node` calls `urlparse`, which `blockchain.py` never imports. As
written, every call raises `NameError`. The model gives the method the parsed
URL (`ParsedUrl`), as the evident intent is to parse the address with the
standard URL parser.

## Model

| member | source | states |
|---|---|---|
| `Blocks.Hash` | blockchain.py:155-168 | the digest is `sha256Hex` of `canonicalJson`, both given functions; nothing further is claimed |
| `ProofSearch.ValidProof` | blockchain.py:188-201 | a proof is valid iff the digest of "previous proof, proof, previous hash" has at least four characters and the first four are all '0' |
| `ProofSearch.ValidProofIgnoresSplit` | blockchain.py:199-201 | the three values are concatenated without a separator, so (1, 23) and (12, 3) get the same verdict for any previous hash |
| `ProofSearch.ProofOfWork` | blockchain.py:170-186 | the returned proof is accepted against the block's proof and hash, and every smaller non-negative proof is rejected (least solution) |
| `ChainValidation.ValidChain` | blockchain.py:48-76 | returns true iff every adjacent pair has the predecessor's hash as `previousHash` and a proof valid against the predecessor's proof and hash; a one-block chain is valid; changes nothing |
| `ChainValidation.ChainValidAppend` | blockchain.py:58-76 | appending a block linked to the last block keeps a valid chain valid |
| `ChainValidation.ChainValidPrefix` | blockchain.py:58-76 | every prefix of a valid chain is valid |
| `ChainValidation.TamperedLinkDetected` | blockchain.py:63-66 | changing the recorded predecessor hash of any non-genesis block of a valid chain makes it invalid |
| `ChainValidation.TamperedInteriorDetected` | blockchain.py:63-66 | replacing a block that has a successor by one with a different hash makes a valid chain invalid |
| `ChainValidation.HeadContentsUnchecked` | blockchain.py:58-76 | the last block can be replaced by any block with the same predecessor hash and proof and the chain stays valid |
| `Consensus.Scan` | blockchain.py:92-102 | the peer loop from a running maximum and a carried chain; when it succeeds with a chain other than the carried one, that chain is the chain of some reply that has status 200 and a reported length above the starting maximum |
| `Consensus.UnreachablePeerAborts` | blockchain.py:92-95 | one unreachable peer anywhere in the iteration makes resolution raise |
| `Consensus.WellFormedRepliesSucceed` | blockchain.py:92-102 | if every peer answers and every status-200 answer carries a non-empty chain, resolution raises nothing |
| `Consensus.ScanFailureCause` | blockchain.py:92-102 | if resolution raises, some peer was unreachable or answered 200 with an empty chain and a reported length above the local length |
| `Consensus.ScanResult` | blockchain.py:85-102 | from any running state, the scan either keeps the chain carried in (no reply qualifies) or adopts the chain of a qualifying reply whose reported length no qualifying reply exceeds and that every earlier qualifying reply falls short of |
| `Consensus.AdoptsLongestQualifying` | blockchain.py:78-109 | with nothing adopted at the start, a successful resolution adopts a chain iff some reply has status 200, reported length above the local length and a valid non-empty chain; the adopted chain is the first one with the greatest reported length |
| `Consensus.AdoptedChainValid` | blockchain.py:99-107 | an adopted chain is non-empty and passes validation |
| `Consensus.HonestPeersLengthen` | blockchain.py:99-102 | if every status-200 reply reports its chain's true length, an adopted chain is strictly longer than the local chain |
| `Consensus.ReportedLengthTrusted` | blockchain.py:96-102 | only the reported length is compared: a peer that reports length 5 for a one-block chain replaces a two-block local chain |
| `Peers.NodeAddress` | blockchain.py:33-46 | an address is accepted iff its network location or its path is non-empty; the network location is preferred; the stored address is non-empty and is one of the two parts |
| `Ledger.Blockchain.constructor` | blockchain.py:20-31 | the chain is the single genesis block (index 1, proof 100, predecessor hash "1", no transactions), which is valid; the pool and the peer set are empty |
| `Ledger.Blockchain.LastBlock` | blockchain.py:151-153 | the chain, which is never empty, ends with the returned block |
| `Ledger.Blockchain.NewBlock` | blockchain.py:111-130 | appends exactly one block with index old length + 1, the whole old pool and the given proof; its predecessor hash is the given one, or the old last block's hash when the given one is absent or empty; empties the pool; earlier blocks and peers unchanged |
| `Ledger.Blockchain.NewTransaction` | blockchain.py:132-153 | appends exactly (sender, recipient, amount) to the pool, returns the last block's index + 1, leaves chain and peers unchanged |
| `Ledger.Blockchain.RegisterNode` | blockchain.py:33-46 | adds the stored address from `NodeAddress` to the peer set, or raises and leaves the set unchanged; set union makes re-registration a no-op |
| `Ledger.Blockchain.ResolveConflicts` | blockchain.py:78-109 | visits the peers once each in the given order; the result and new chain are those of `Scan` from the local length: an exception leaves the chain unchanged, no adoption returns false and keeps the chain, an adoption returns true and installs a valid chain; pool and peers unchanged |
| `Ledger.Blockchain.Mine` | blockchain.py:211-229 | seals a block with the least valid proof for the old last block, the old pool plus the reward ("0", node identifier, 1), linked to the old last block's hash; a valid chain stays valid |
| `Ledger.RegisterWithAndWithoutScheme` | blockchain.py:33-46 | registering the same host once with a scheme (network location) and once without (path) stores it once |

## Left out

- Blocks.Hash: SHA-256 and `json.dumps(..., sort_keys=True)` are not modelled. `Hash` applies two caller-supplied functions. Nothing is proved about field order or about collisions.
- ValidProof: the `.encode()` to UTF-8 before hashing is not modelled, since the encoding is injective. The digest is a function of the string.
- ProofOfWork: the search is unbounded in the source. The model requires that some non-negative proof is accepted, so the search provably stops. Termination on real SHA-256 is not claimed.
- Block timestamps come from the wall clock as floats. They are a `real` parameter, and nothing is stated about them.
- Transaction amounts are integers. `new_transaction` accepts any Python value; its only caller passes 1.
- Blocks received from peers have fixed field types: integer index and proof, string predecessor hash. A peer block whose proof is, say, the JSON number `100.0` would be rendered as "100.0" in the proof test; `Decimal` cannot produce that text, so such chains are not modelled. Nor are peer blocks with missing or extra keys: a block without `previous_hash` or `proof` makes `valid_chain` raise `KeyError` (blockchain.py:65, 69).
- The HTTP request to each peer and `response.json()` are a `fetch` function from address to reply. A reply whose body is not JSON, or whose JSON lacks `length` or `chain`, raises in the source (blockchain.py:96-97) and is not modelled.
- Ledger.Blockchain.ResolveConflicts: the order in which the source iterates over the peer set is unspecified. It is a parameter that lists each peer exactly once.
- The URL parsing of `register_node` is not modelled. The method receives the network location and the path.
- The Flask app, the JSON bodies of the `mine` and `chain` routes, argument parsing and `app.run` are transport. They are not part of this model.
- The node identifier from `uuid4` is a string parameter of `Mine`.
- The debug `print` calls in `valid_chain` are output only.
- Python dictionaries are mutable and shared by reference. Blocks here are values. The source never mutates a block after sealing it, so no behaviour is lost.
