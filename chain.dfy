/**
 * What the indexer reads from the chain client, as values: transactions with
 * their receipts, blocks with their timestamp, and the chain up to its head.
 */
module Chain {
  import opened Options

  /** A transaction as returned by `getTransactionByBlock`; `hash` is its hex text, `input` the hex call data. */
  datatype Tx = Tx(
    hash: string,
    from: string,
    to: Option<string>,     // None for a contract creation
    value: int,
    gasPrice: int,
    input: string)

  /** A receipt; `status` is absent on pre-Byzantium transactions. */
  datatype Receipt = Receipt(gasUsed: int, status: Option<int>)

  /** A transaction at its index in a block, paired with the receipt the client returns for its hash. */
  datatype ChainTx = ChainTx(tx: Tx, receipt: Receipt)

  datatype Block = Block(timestamp: int, txs: seq<ChainTx>)

  /** Block b is `blocks[b]`; the head is the last block. */
  datatype Chain = Chain(blocks: seq<Block>) {

    function Head(): int
    {
      |blocks| - 1
    }

    /** The client serves block b; for any other number its calls raise. */
    predicate HasBlock(b: int)
    {
      0 <= b < |blocks|
    }
  }
}
