/** The values the ledger is made of: transactions, blocks, and the hashing
    primitives every other module uses to link one block to the next. */
module Blocks {

  datatype Option<+T> = None | Some(value: T)

  /** The outcome of an operation that can raise: the raised exception becomes a `Failure`. */
  datatype Result<+T, +E> = Success(value: T) | Failure(error: E)

  /** One transfer in the pending pool or in a sealed block. A sender of "0"
      marks the reward a miner pays itself. */
  datatype Transaction = Transaction(sender: string, recipient: string, amount: int)

  /** A block as the ledger stores it and as peers send it. `index` is the
      1-based position at which the block was sealed; the genesis block
      carries the sentinel "1" as `previousHash`. */
  datatype Block = Block(
    index: int,
    timestamp: real,
    transactions: seq<Transaction>,
    proof: int,
    previousHash: string)

  /** The two library calls the hashing rests on, taken as given functions:
      the hex digest of SHA-256 over a string, and the JSON encoding of a
      block with its keys sorted. */
  datatype Hasher = Hasher(sha256Hex: string -> string, canonicalJson: Block -> string)

  /** The hash of a block: the digest of its sorted-key JSON encoding. */
  function Hash(h: Hasher, b: Block): (digest: string)
  {
    h.sha256Hex(h.canonicalJson(b))
  }
}
