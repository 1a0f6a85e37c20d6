# eth-transactions-indexer: a verified model of the indexing core

`indexer.py` polls an Ethereum-compatible node and copies native-currency transfers and ERC-20
`transfer` calls into the Postgres table `ethtxs`, one row per transaction hash. This project
models the deterministic core of that script in Dafny:

- **startup recovery**: delete every row of the highest indexed block, since that block may be incomplete;
- **one poll cycle**: the cursor is `max(block)`, or the start block on an empty table; the end
  block is `head - confirmations`; the cycle walks the half-open range `[cursor, end)` and skips
  blocks without transactions;
- **classification and decoding** in `insertBlockTransactions`: which transactions are indexed,
  the tri-state status, the `input[10:-64]` / `input[74:]` contract fields and the `> 128` length check;
- **the upsert** keyed by `txhash`, which replaces every column of an existing row.

The table is a `map<string, Row>` from hash to row, held in the field `rows` of class
`Store.EthTxs`. The DELETE and the INSERT ... ON CONFLICT statements are methods that update that
field; `SELECT max(block)` is a method that scans it. Each method of the class is stated by a pure
function: `Upsert` by `Upserted`, `DeleteLastBlock` by `Recovered`, `SelectMaxBlock` by `MaxBlock`.
The class invariant `Valid()` is that every row sits under its own hash (`KeyedByHash`); every
method that writes the table requires and keeps it.
The chain client is a value `Chain.Chain`: a sequence of blocks whose last index is the head.
Each block has a timestamp and its transactions in index order, each paired with its receipt.
The two loops (`insertBlockTransactions` over transaction indices, `main`'s loop over block
numbers) are the methods `Indexer.InsertBlockTransactions` and `Indexer.ScanRange`, which
`Indexer.PollCycle` calls after reading the cursor. Their
invariants tie them to the specification functions `BlockRows`, `Scan`, `CycleRows` and
`ApplyWrites` (the table after a batch of upserts), and the
lemmas state the properties of those functions.

Modules, in dependency order: `Options` (Python's `None`), `PyStr` (`str.startswith` and Python
slicing with negative and out-of-range bounds), `Chain`, `Store`, `Decoder`, `Indexer`.

Notes on the decoder as written in `indexer.py`:

- The contract fields are filled whenever the input starts with `0xa9059cbb`, whatever the
  transaction's value, so a native-currency transfer with such an input also gets them.
- The only sanity check on `contractTo` is `len(contractTo) > 128` characters; when it fails both
  contract fields are cleared and the row is still written.
- The address field is the variable-length slice `input[10:-64]`.
  `Decoder.OverlongTransferOverlaps` proves what this does to calls of 139 to 202 characters:
  `contractTo` runs into the amount word and is still written. `Decoder.TransferFieldsClearedIff`
  proves that only inputs of at most 74 or more than 202 characters get empty fields.

## Model

| member | source | states |
|---|---|---|
| `PyStr.SliceBound` | indexer.py:158-159 | a slice bound inside [0, n] is kept, a negative one counts from the end, and every bound lands in [0, n] |
| `PyStr.PySlice` | indexer.py:158-159 | Python's `s[i:j]`: both bounds normalised by `SliceBound`, empty unless start < end; never longer than `s`; `PySliceLength` and `PySliceInRange` state it |
| `PyStr.StartsWith` | indexer.py:143-157 | Python's `s.startswith(prefix)`: the prefix fits and `s` begins with it; it decides the skip at line 143 and the contract slice at line 157 |
| `PyStr.PySliceFrom` | indexer.py:159 | Python's `s[i:]`, that is `s[i:len(s)]`; never longer than `s` |
| `PyStr.PySliceInRange` | indexer.py:158-159 | within bounds a Python slice is the ordinary subsequence `s[i..j]` |
| `PyStr.PySliceNegativeEnd` | indexer.py:158 | `s[i:-k]` is `s[i..n-k]`, or empty when `n-k <= i` |
| `PyStr.PySliceLength` | indexer.py:158-159 | a slice's length is the distance between the normalised bounds, or zero |
| `Store.Upserted` | indexer.py:166-182 | after the upsert the hash holds exactly the new row, the key set gains only that hash, and every other row is unchanged |
| `Store.UpsertIdempotent` | indexer.py:166-182 | upserting the same row twice equals upserting it once |
| `Store.ApplyWrites` | indexer.py:138-182 | the table after the upserts of a batch, one after another in order; `ApplyWritesAt` gives it pointwise |
| `Store.ApplyWritesAppend` | indexer.py:166-182 | writing one more row is one more upsert on the table written so far |
| `Store.KeyedByHash` | indexer.py:166-182 | every row sits under its own hash, the primary key `txhash` |
| `Store.ApplyWritesKeyedByHash` | indexer.py:166-182 | a batch of upserts keeps every row under its own hash |
| `Store.LastWrite` | indexer.py:166-182 | the last row written for a hash is one of the written rows with that hash; none means no row of the batch has it |
| `Store.ApplyWritesAt` | indexer.py:166-182 | after a sequence of upserts a hash is present iff it was present or written, and holds its last written row, else its old row |
| `Store.ApplyWritesKeeps` | indexer.py:166-182 | upserts never remove a row, and rows whose hash is not written keep their values |
| `Store.ApplyWritesConcat` | indexer.py:121-126 | writing two batches in turn equals writing their concatenation |
| `Store.ApplyWritesIdempotent` | indexer.py:166-182 | writing the same rows a second time, as when a block is reprocessed, leaves the table unchanged |
| `Store.MaxBlockUnique` | indexer.py:111-112 | `max(block)` is determined by the table |
| `Store.MaxBlock` | indexer.py:111-112 | `max(block)` is NULL exactly on an empty table, otherwise the block of some row and at least the block of every row |
| `Store.Recovered` | indexer.py:88 | the table after deleting every row whose block is `max(block)`; unchanged when the table is empty |
| `Store.RecoveredKeepsLowerBlocks` | indexer.py:88 | recovery keeps a row iff some row has a higher block, and keeps it unchanged; an empty table stays empty |
| `Store.RecoveredKeyedByHash` | indexer.py:88 | recovery keeps every remaining row under its own hash |
| `Store.RecoveryLowersMaxBlock` | indexer.py:88 | after recovery the table is empty or its highest block is strictly below the old one |
| `Store.EthTxs.Valid` | indexer.py:166-182 | the table invariant: every row sits under its own hash, the primary key `txhash` |
| `Store.EthTxs.Upsert` | indexer.py:166-182 | the table becomes `Upserted` of the old table and the row, and stays valid |
| `Store.EthTxs.SelectMaxBlock` | indexer.py:111-112 | the scan of the rows returns `max(block)`, NULL on an empty table |
| `Store.EthTxs.DeleteLastBlock` | indexer.py:88 | the table becomes `Recovered` of the old table, and stays valid |
| `Decoder.IsIndexable` | indexer.py:143-144 | the classification: a transaction is indexed iff its value is non-zero or its input starts with `0xa9059cbb` |
| `Decoder.DecodeStatus` | indexer.py:148-151 | status is None exactly when the receipt has no status field, false exactly for status 0, true for any other status |
| `Decoder.DecodeTx` | indexer.py:143-146 | a transaction is skipped exactly when its value is 0 and its input lacks the `0xa9059cbb` prefix; a written row carries the block number, block time and hash |
| `Decoder.SlicedContractFields` | indexer.py:153-159 | the contract fields before the length check: `input[10:-64]` and `input[74:]` when the selector is present, else empty |
| `Decoder.ContractFields` | indexer.py:153-164 | the contract fields as written: cleared when `contractTo` is longer than 128 characters; `ContractFieldsCases` gives them in ordinary slices |
| `Decoder.ContractFieldsCases` | indexer.py:153-164 | with the selector and 74 < n <= 202 the fields are `input[10..n-64]` and `input[74..]`; in every other case both are empty |
| `Decoder.ContractFieldsLengths` | indexer.py:158-164 | the two contract fields always have equal length, at most 128 |
| `Decoder.ExactTransferSplits` | indexer.py:157-159 | a 138-character transfer call splits into two 64-character fields whose concatenation is `input[10:]` |
| `Decoder.StandardTransferDecodes` | indexer.py:157-159 | selector + 64-character address word + 64-character amount word decodes to exactly those two words |
| `Decoder.OverlongTransferOverlaps` | indexer.py:158-161 | for 138 < n <= 202 the kept `contractTo` is longer than 64 characters and ends with the first n-138 characters of `contractValue` |
| `Decoder.TransferFieldsClearedIff` | indexer.py:157-164 | for a transfer call the contract fields are empty iff n <= 74 or n > 202 |
| `Decoder.DecodedRowColumns` | indexer.py:146-182 | an indexed transaction's row carries from, to, value, gas used, gas price, status, input and the contract fields; failing the length check clears only the contract fields |
| `Indexer.BlockRows` | indexer.py:138-182 | the rows one block writes: the decoded row of each indexable transaction, in index order |
| `Indexer.CountIndexable` | indexer.py:143-144 | the number of indexable transactions of a block |
| `Indexer.BlockRowsConcat` | indexer.py:138-140 | rows of earlier transactions precede rows of later ones (index order) |
| `Indexer.BlockRowsStep` | indexer.py:138-146 | handling one more transaction of the block appends its decoded row, or nothing when it is skipped |
| `Indexer.BlockRowsStamped` | indexer.py:136-182 | a block gives exactly one row (one upsert) per indexable transaction, `CountIndexable` of them, so at most as many as it has transactions; each row has that block's number and timestamp |
| `Indexer.BlockRowsFromIndexable` | indexer.py:143-182 | every row of a block is the decoding of one of its indexable transactions |
| `Indexer.BlockRowsCoverIndexable` | indexer.py:143-182 | every indexable transaction of the block has its decoded row among the block's rows |
| `Indexer.BlockRowsEmptyIff` | indexer.py:143-146 | a block writes no row iff none of its transactions is indexable |
| `Indexer.Range` | indexer.py:121 | `range(lo, hi)` has length max(0, hi-lo) and k-th element lo+k |
| `Indexer.RangeVisits` | indexer.py:121 | b is in `range(lo, hi)` iff lo <= b < hi, in strictly increasing order |
| `Indexer.Cursor` | indexer.py:111-115 | the cursor: `max(block)` of the table, or the start block when it is NULL |
| `Indexer.CursorIsMaxOrStart` | indexer.py:111-115 | the cursor is the start block exactly on an empty table, otherwise the highest block of any row |
| `Indexer.Scan` | indexer.py:121-128 | the blocks a cycle asks for, those it hands to `insertBlockTransactions`, and whether it completes or stops at the first block the client does not serve |
| `Indexer.ScanVisits` | indexer.py:117-123 | a cycle completes iff the client serves all of [cursor, end), and then asks for exactly those blocks in order; otherwise it stops at the first missing block |
| `Indexer.ScanStep` | indexer.py:121-128 | one more block number extends an unfinished cycle by that block: it stops at a missing block, passes over an empty one, and hands over one with transactions |
| `Indexer.CycleRows` | indexer.py:121-126 | the rows of a cycle: the rows of each handed-over block, block after block |
| `Indexer.CycleRowsAppend` | indexer.py:121-126 | handing over one more served block appends exactly that block's rows |
| `Indexer.ScanStopsAtMissing` | indexer.py:121-123 | once a cycle has stopped at a missing block, a later end changes nothing |
| `Indexer.ScanEmptyRange` | indexer.py:117-121 | when end <= cursor the cycle asks for no block and writes no row |
| `Indexer.ScanInserted` | indexer.py:123-128 | the blocks handed to `insertBlockTransactions` are exactly the scanned, served blocks with transactions, in increasing order, all in [cursor, end) |
| `Indexer.CycleRowsFromBlocks` | indexer.py:126-182 | every row written for the handed-over blocks has one of their numbers and that block's timestamp and the hash of one of its indexable transactions |
| `Indexer.CycleRowsInBlockOrder` | indexer.py:121-126 | blocks handed over in increasing order give rows in block order |
| `Indexer.ScanRows` | indexer.py:121-182 | the rows of a cycle lie in [cursor, end), carry their block's timestamp, and are in block order |
| `Indexer.FirstCycleScenario` | indexer.py:111-121 | empty table, start block 100, head 105, 2 confirmations: blocks 100, 101, 102 are asked for and the cycle completes |
| `Indexer.RecoveryScenario` | indexer.py:88 | rows in blocks 10, 11, 12: recovery deletes only the block-12 row and the next cursor is 11 |
| `Indexer.InsertBlockTransactions` | indexer.py:134-182 | the rows written are `BlockRows` of the block, and the table is the old table with them upserted in order, and stays valid |
| `Indexer.CurrentBlock` | indexer.py:111-115 | the cursor read from the table is `max(block)`, or the start block when the table is empty |
| `Indexer.ScanRange` | indexer.py:121-128 | the loop over `range(cursor, end)`: the blocks asked for, the blocks handed over and the outcome are `Scan` of that range; the rows written are `CycleRows` of the handed-over blocks, upserted in order, and the table stays valid |
| `Indexer.PollCycle` | indexer.py:110-128 | the blocks asked for, the blocks handed over and the outcome are `Scan` from the cursor to head - confirmations; the rows written are `CycleRows` of the handed-over blocks, upserted in order, and the table stays valid |

## Left out

- Reading `DB_NAME`, `START_BLOCK`, `CONFIRMATIONS`, `NODE_URL` and `PERIOD` from the environment, and the `exit(2)` paths, are configuration and process control. Start block and confirmations are passed to `PollCycle` as integers, so a `ValueError` from `int()` on malformed text is not modelled.
- Choosing the web3 provider by URL scheme, injecting the PoA middleware and `isConnected` are transport wrappers around a library that is not part of this model.
- Opening and closing database connections and cursors is I/O. The SQL text is modelled by its effect on the map.
- The wait for the node to finish syncing (`time.sleep(300)`), the endless poll loop with its `time.sleep(period)` and the SIGINT handler are timing, signals and non-termination. One poll cycle is modelled, and recovery is a separate method.
- Logging, including the warning printed when the length check fails, is output only.
- The chain is one fixed value for the whole cycle: the head is read once, and no block changes or is reorganised while the cycle runs. In particular a block's timestamp (`getBlock`) and its transactions (`getTransactionByBlock`) are taken from the same version of the block, which `ScanRows`' timestamp property relies on.
- Receipt fetches are not observable: a transaction's receipt is the one paired with it in the block. The source fetches it exactly when it writes a row, and the model reads it under the same condition.
- `tx["hash"].hex()` is taken as given: `Tx.hash` already is the hex text.
- Asking for a block the client does not serve raises an exception at indexer.py:123 that nothing catches, so the process ends. The model records this as the outcome `MissingBlock` of the cycle, keeps the rows already upserted, and leaves the restart to the separate recovery method `DeleteLastBlock`. Any other chain-client or database error in the middle of a cycle is not modelled; it ends the process the same way.
- Hex validity of addresses and the numeric meaning of `contractValue` are not modelled; the code treats both as opaque strings.
- A fixed-offset ERC-20 decoder is not modelled; the model keeps the variable-length slice the code uses.
