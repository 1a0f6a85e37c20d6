/**
 * The indexing loop: the rows one block produces, one poll cycle over the
 * half-open block range [cursor, head - confirmations), and the two methods
 * that carry them out against the table.
 */
module Indexer {
  import opened Options
  import opened PyStr
  import opened Chain
  import opened Store
  import opened Decoder

  /** The rows written for the transactions `txs`, in index order (one per indexable transaction). */
  function BlockRows(blockNumber: int, time: int, txs: seq<ChainTx>): seq<Row>
    decreases |txs|
  {
    if txs == [] then []
    else
      BlockRows(blockNumber, time, txs[..|txs| - 1]) +
      (match DecodeTx(blockNumber, time, txs[|txs| - 1])
       case None => []
       case Some(row) => [row])
  }

  /** The rows of earlier transactions come before the rows of later ones. */
  lemma {:induction false} BlockRowsConcat(blockNumber: int, time: int, a: seq<ChainTx>, b: seq<ChainTx>)
    ensures BlockRows(blockNumber, time, a + b) == BlockRows(blockNumber, time, a) + BlockRows(blockNumber, time, b)
    decreases |b|
  {
    if b == [] {
      assert a + b == a;
    } else {
      assert (a + b)[..|a + b| - 1] == a + b[..|b| - 1];
      BlockRowsConcat(blockNumber, time, a, b[..|b| - 1]);
    }
  }

  /** Extending the transactions by the one at index i adds that transaction's row, if any. */
  lemma BlockRowsStep(blockNumber: int, time: int, txs: seq<ChainTx>, i: int)
    requires 0 <= i < |txs|
    ensures BlockRows(blockNumber, time, txs[..i + 1]) ==
      BlockRows(blockNumber, time, txs[..i]) +
      (match DecodeTx(blockNumber, time, txs[i]) case None => [] case Some(row) => [row])
  {
    assert txs[..i + 1][..i] == txs[..i];
  }

  /** How many of the transactions `txs` are indexed. */
  function CountIndexable(txs: seq<ChainTx>): nat
    decreases |txs|
  {
    if txs == [] then 0
    else CountIndexable(txs[..|txs| - 1]) + (if IsIndexable(txs[|txs| - 1].tx) then 1 else 0)
  }

  /**
   * A block gives exactly one row, hence one upsert, per indexable transaction, so
   * at most as many as it has transactions; each row carries the block's number and timestamp.
   */
  lemma {:induction false} BlockRowsStamped(blockNumber: int, time: int, txs: seq<ChainTx>)
    ensures |BlockRows(blockNumber, time, txs)| == CountIndexable(txs) <= |txs|
    ensures forall r :: r in BlockRows(blockNumber, time, txs) ==> r.block == blockNumber && r.time == time
    decreases |txs|
  {
    if txs != [] {
      BlockRowsStamped(blockNumber, time, txs[..|txs| - 1]);
    }
  }

  /** Every row written for a block is the decoding of one of its indexable transactions. */
  lemma {:induction false} BlockRowsFromIndexable(blockNumber: int, time: int, txs: seq<ChainTx>)
    ensures forall r :: r in BlockRows(blockNumber, time, txs) ==>
      exists k :: 0 <= k < |txs| && IsIndexable(txs[k].tx) && DecodeTx(blockNumber, time, txs[k]) == Some(r)
    decreases |txs|
  {
    if txs != [] {
      var init := txs[..|txs| - 1];
      BlockRowsFromIndexable(blockNumber, time, init);
      forall r | r in BlockRows(blockNumber, time, txs)
        ensures exists k :: 0 <= k < |txs| && IsIndexable(txs[k].tx) && DecodeTx(blockNumber, time, txs[k]) == Some(r)
      {
        if r in BlockRows(blockNumber, time, init) {
          var k :| 0 <= k < |init| && IsIndexable(init[k].tx) && DecodeTx(blockNumber, time, init[k]) == Some(r);
          assert txs[k] == init[k];
        } else {
          assert DecodeTx(blockNumber, time, txs[|txs| - 1]) == Some(r);
        }
      }
    }
  }

  /** Every indexable transaction of a block has its row. */
  lemma {:induction false} BlockRowsCoverIndexable(blockNumber: int, time: int, txs: seq<ChainTx>)
    ensures forall k :: 0 <= k < |txs| && IsIndexable(txs[k].tx) ==>
      DecodeTx(blockNumber, time, txs[k]).value in BlockRows(blockNumber, time, txs)
    decreases |txs|
  {
    if txs != [] {
      var init := txs[..|txs| - 1];
      BlockRowsCoverIndexable(blockNumber, time, init);
      forall k | 0 <= k < |txs| && IsIndexable(txs[k].tx)
        ensures DecodeTx(blockNumber, time, txs[k]).value in BlockRows(blockNumber, time, txs)
      {
        if k < |init| {
          assert txs[k] == init[k];
        }
      }
    }
  }

  /** A block writes no row exactly when none of its transactions is indexable. */
  lemma BlockRowsEmptyIff(blockNumber: int, time: int, txs: seq<ChainTx>)
    ensures BlockRows(blockNumber, time, txs) == [] <==> forall k :: 0 <= k < |txs| ==> !IsIndexable(txs[k].tx)
  {
    var rows := BlockRows(blockNumber, time, txs);
    BlockRowsCoverIndexable(blockNumber, time, txs);
    if rows != [] {
      BlockRowsFromIndexable(blockNumber, time, txs);
      assert rows[0] in rows;
    }
  }

  /** `range(lo, hi)`: the integers lo, lo+1, ..., hi-1 in increasing order. */
  function Range(lo: int, hi: int): (r: seq<int>)
    ensures |r| == if lo < hi then hi - lo else 0
    ensures forall k :: 0 <= k < |r| ==> r[k] == lo + k
    decreases hi - lo
  {
    if lo >= hi then [] else [lo] + Range(lo + 1, hi)
  }

  /** b is visited exactly when lo <= b < hi, and the visits strictly increase. */
  lemma RangeVisits(lo: int, hi: int)
    ensures forall b :: b in Range(lo, hi) <==> lo <= b < hi
    ensures Increasing(Range(lo, hi))
  {
    var r := Range(lo, hi);
    forall b | lo <= b < hi
      ensures b in r
    {
      assert r[b - lo] == b;
    }
  }

  /** How a poll cycle ends: every block of the range handled, or the uncaught exception of a call for a block the client does not serve, which ends the process. */
  datatype Outcome = Completed | MissingBlock(number: int)

  /**
   * What one poll cycle does: the blocks whose transaction count it asks for,
   * the blocks it hands to `insertBlockTransactions` (those with transactions), and how it ends.
   */
  datatype CycleTrace = CycleTrace(scanned: seq<int>, inserted: seq<int>, outcome: Outcome)

  /**
   * The loop `for blockNumber in range(from, end)` of a poll cycle, run over the
   * blocks below `end`. Once a block is missing the cycle has stopped, so later
   * blocks add nothing.
   */
  function Scan(chain: Chain, from: int, end: int): CycleTrace
    decreases end - from
  {
    if end <= from then CycleTrace([], [], Completed)
    else
      var done := Scan(chain, from, end - 1);
      var b := end - 1;
      if done.outcome.MissingBlock? then done
      else if !chain.HasBlock(b) then CycleTrace(done.scanned + [b], done.inserted, MissingBlock(b))
      else if |chain.blocks[b].txs| == 0 then CycleTrace(done.scanned + [b], done.inserted, Completed)
      else CycleTrace(done.scanned + [b], done.inserted + [b], Completed)
  }

  /** One more block number extends an unfinished scan by exactly that block's step. */
  lemma ScanStep(chain: Chain, from: int, b: int)
    requires from <= b
    requires Scan(chain, from, b).outcome.Completed?
    ensures !chain.HasBlock(b) ==>
      (Scan(chain, from, b + 1) ==
         CycleTrace(Scan(chain, from, b).scanned + [b], Scan(chain, from, b).inserted, MissingBlock(b)))
    ensures chain.HasBlock(b) && |chain.blocks[b].txs| == 0 ==>
      (Scan(chain, from, b + 1) ==
         CycleTrace(Scan(chain, from, b).scanned + [b], Scan(chain, from, b).inserted, Completed))
    ensures chain.HasBlock(b) && |chain.blocks[b].txs| > 0 ==>
      (Scan(chain, from, b + 1) ==
         CycleTrace(Scan(chain, from, b).scanned + [b], Scan(chain, from, b).inserted + [b], Completed))
  {
  }

  /** The rows upserted for the blocks `inserted`, block after block. */
  function CycleRows(chain: Chain, inserted: seq<int>): seq<Row>
    decreases |inserted|
  {
    if inserted == [] then []
    else
      var b := inserted[|inserted| - 1];
      CycleRows(chain, inserted[..|inserted| - 1]) +
      (if chain.HasBlock(b) then BlockRows(b, chain.blocks[b].timestamp, chain.blocks[b].txs) else [])
  }

  /** Handing over one more served block appends that block's rows. */
  lemma CycleRowsAppend(chain: Chain, inserted: seq<int>, b: int)
    requires chain.HasBlock(b)
    ensures CycleRows(chain, inserted + [b]) ==
      CycleRows(chain, inserted) + BlockRows(b, chain.blocks[b].timestamp, chain.blocks[b].txs)
  {
    assert (inserted + [b])[..|inserted|] == inserted;
  }

  /** The cursor of a cycle: `max(block)` of the table, or the start block when the table is empty. */
  ghost function Cursor(m: Table, startBlock: int): int
  {
    match MaxBlock(m)
    case None => startBlock
    case Some(b) => b
  }

  /** The cursor is the start block exactly for an empty table, and otherwise the highest block of any row. */
  lemma CursorIsMaxOrStart(m: Table, startBlock: int)
    ensures m == map[] ==> Cursor(m, startBlock) == startBlock
    ensures m != map[] ==> (exists h :: h in m && m[h].block == Cursor(m, startBlock)) &&
                           (forall h :: h in m ==> m[h].block <= Cursor(m, startBlock))
  {
  }

  /**
   * A cycle asks for the blocks from, from+1, ... in order. It completes exactly
   * when the client serves every block of [from, end), and then it has asked for
   * exactly those; otherwise it stops at the first block it is not served.
   */
  lemma {:induction false} ScanVisits(chain: Chain, from: int, end: int)
    ensures var t := Scan(chain, from, end);
      (t.outcome.Completed? <==> forall b :: from <= b < end ==> chain.HasBlock(b)) &&
      (t.outcome.Completed? ==> t.scanned == Range(from, end)) &&
      (t.outcome.MissingBlock? ==>
         from <= t.outcome.number < end && !chain.HasBlock(t.outcome.number) &&
         (forall b :: from <= b < t.outcome.number ==> chain.HasBlock(b)) &&
         t.scanned == Range(from, t.outcome.number + 1))
    decreases end - from
  {
    if from < end {
      ScanVisits(chain, from, end - 1);
      var done := Scan(chain, from, end - 1);
      if done.outcome.Completed? {
        var r := Range(from, end);
        assert r == Range(from, end - 1) + [end - 1];
      }
    }
  }

  /** A cycle that stopped at a missing block is unaffected by a later end. */
  lemma {:induction false} ScanStopsAtMissing(chain: Chain, from: int, mid: int, end: int)
    requires from <= mid <= end
    requires Scan(chain, from, mid).outcome.MissingBlock?
    ensures Scan(chain, from, end) == Scan(chain, from, mid)
    decreases end - mid
  {
    if mid < end {
      ScanStopsAtMissing(chain, from, mid, end - 1);
    }
  }

  /** An empty range (end <= from) asks for nothing and writes nothing. */
  lemma ScanEmptyRange(chain: Chain, from: int, end: int)
    requires end <= from
    ensures Scan(chain, from, end) == CycleTrace([], [], Completed)
    ensures CycleRows(chain, Scan(chain, from, end).inserted) == []
  {
  }

  /** Strictly increasing block numbers. */
  ghost predicate Increasing(s: seq<int>)
  {
    forall i, j :: 0 <= i < j < |s| ==> s[i] < s[j]
  }

  /**
   * The blocks handed to `insertBlockTransactions` are, in increasing order,
   * exactly the scanned blocks that the client serves and that have transactions.
   */
  lemma {:induction false} ScanInserted(chain: Chain, from: int, end: int)
    ensures forall b :: b in Scan(chain, from, end).inserted ==>
      b in Scan(chain, from, end).scanned && chain.HasBlock(b) && |chain.blocks[b].txs| > 0
    ensures forall b :: b in Scan(chain, from, end).scanned && chain.HasBlock(b) && |chain.blocks[b].txs| > 0 ==>
      b in Scan(chain, from, end).inserted
    ensures forall b :: b in Scan(chain, from, end).scanned ==> from <= b < end
    ensures Increasing(Scan(chain, from, end).inserted)
    decreases end - from
  {
    if from < end {
      ScanInserted(chain, from, end - 1);
      var done := Scan(chain, from, end - 1);
      assert forall b :: b in done.inserted ==> b in done.scanned;
      forall i | 0 <= i < |done.inserted|
        ensures done.inserted[i] < end - 1
      {
        assert done.inserted[i] in done.inserted;
        assert done.inserted[i] in done.scanned;
      }
      var ins := Scan(chain, from, end).inserted;
      if ins != done.inserted {
        assert ins == done.inserted + [end - 1];
        forall i, j | 0 <= i < j < |ins|
          ensures ins[i] < ins[j]
        {
          assert ins[i] == done.inserted[i];
          if j < |done.inserted| {
            assert ins[j] == done.inserted[j];
          }
        }
      }
    }
  }

  /**
   * Every row written for the blocks `inserted` carries the number and timestamp
   * of one of those blocks and the hash of one of its indexable transactions.
   */
  lemma {:induction false} CycleRowsFromBlocks(chain: Chain, inserted: seq<int>)
    ensures forall r :: r in CycleRows(chain, inserted) ==>
      r.block in inserted && chain.HasBlock(r.block) &&
      r.time == chain.blocks[r.block].timestamp &&
      exists k :: 0 <= k < |chain.blocks[r.block].txs| &&
        IsIndexable(chain.blocks[r.block].txs[k].tx) && chain.blocks[r.block].txs[k].tx.hash == r.txHash
    decreases |inserted|
  {
    if inserted != [] {
      var init, b := inserted[..|inserted| - 1], inserted[|inserted| - 1];
      CycleRowsFromBlocks(chain, init);
      if chain.HasBlock(b) {
        BlockRowsStamped(b, chain.blocks[b].timestamp, chain.blocks[b].txs);
        BlockRowsFromIndexable(b, chain.blocks[b].timestamp, chain.blocks[b].txs);
      }
      forall r | r in CycleRows(chain, init)
        ensures r.block in inserted
      {
        assert r.block in init;
      }
    }
  }

  /** The rows are in non-decreasing block order. */
  ghost predicate InBlockOrder(rows: seq<Row>)
  {
    forall i, j :: 0 <= i < j < |rows| ==> rows[i].block <= rows[j].block
  }

  lemma OrderedConcat(a: seq<Row>, c: seq<Row>, b: int)
    requires InBlockOrder(a)
    requires forall r :: r in a ==> r.block < b
    requires forall r :: r in c ==> r.block == b
    ensures InBlockOrder(a + c)
  {
  }

  /** Blocks handed over in increasing order give rows in block order. */
  lemma {:induction false} CycleRowsInBlockOrder(chain: Chain, inserted: seq<int>)
    requires Increasing(inserted)
    ensures InBlockOrder(CycleRows(chain, inserted))
    decreases |inserted|
  {
    if inserted != [] {
      var init, b := inserted[..|inserted| - 1], inserted[|inserted| - 1];
      CycleRowsInBlockOrder(chain, init);
      CycleRowsFromBlocks(chain, init);
      forall r | r in CycleRows(chain, init)
        ensures r.block < b
      {
        var i :| 0 <= i < |init| && init[i] == r.block;
      }
      if chain.HasBlock(b) {
        BlockRowsStamped(b, chain.blocks[b].timestamp, chain.blocks[b].txs);
        OrderedConcat(CycleRows(chain, init), BlockRows(b, chain.blocks[b].timestamp, chain.blocks[b].txs), b);
      } else {
        assert CycleRows(chain, inserted) == CycleRows(chain, init) + [];
      }
    }
  }

  /**
   * The rows a cycle writes belong to served blocks of [from, end) and carry
   * their block's number and timestamp, and they are written in block order.
   */
  lemma ScanRows(chain: Chain, from: int, end: int)
    ensures var rows := CycleRows(chain, Scan(chain, from, end).inserted);
      InBlockOrder(rows) &&
      forall r :: r in rows ==>
        from <= r.block < end && chain.HasBlock(r.block) && r.time == chain.blocks[r.block].timestamp
  {
    var t := Scan(chain, from, end);
    ScanInserted(chain, from, end);
    CycleRowsFromBlocks(chain, t.inserted);
    CycleRowsInBlockOrder(chain, t.inserted);
  }

  /** The first cycle on an empty table with start block 100, head 105 and 2 confirmations asks for blocks 100, 101, 102. */
  lemma FirstCycleScenario(chain: Chain)
    requires chain.Head() == 105
    ensures Cursor(map[], 100) == 100
    ensures chain.Head() - 2 == 103
    ensures Scan(chain, 100, 103).scanned == [100, 101, 102]
    ensures Scan(chain, 100, 103).outcome == Completed
  {
  }

  /** Rows in blocks 10, 11 and 12: recovery deletes only the block-12 row, and the next cursor is 11. */
  lemma RecoveryScenario(r10: Row, r11: Row, r12: Row)
    requires r10.block == 10 && r11.block == 11 && r12.block == 12
    requires r10.txHash != r11.txHash && r10.txHash != r12.txHash && r11.txHash != r12.txHash
    ensures var m := map[r10.txHash := r10, r11.txHash := r11, r12.txHash := r12];
      Recovered(m) == map[r10.txHash := r10, r11.txHash := r11] &&
      Cursor(Recovered(m), 1) == 11
  {
    var m := map[r10.txHash := r10, r11.txHash := r11, r12.txHash := r12];
    assert r12.txHash in m && m[r12.txHash].block == 12;
    assert IsMaxBlock(m, Some(12));
    MaxBlockUnique(m, Some(12), MaxBlock(m));
    var after := map[r10.txHash := r10, r11.txHash := r11];
    assert Recovered(m) == after;
    assert r11.txHash in after && after[r11.txHash].block == 11;
    assert IsMaxBlock(after, Some(11));
    MaxBlockUnique(after, Some(11), MaxBlock(after));
  }

  /**
   * `insertBlockTransactions`: visit the transactions of a block in index
   * order, skip those that are not indexable and upsert a row for each of the others.
   */
  method InsertBlockTransactions(table: EthTxs, blockNumber: int, block: Block) returns (written: seq<Row>)
    requires table.Valid()
    modifies table
    ensures table.Valid()
    ensures written == BlockRows(blockNumber, block.timestamp, block.txs)
    ensures table.rows == ApplyWrites(old(table.rows), written)
  {
    var blockTime := block.timestamp;
    written := [];
    for txIndex := 0 to |block.txs|
      invariant written == BlockRows(blockNumber, blockTime, block.txs[..txIndex])
      invariant table.rows == ApplyWrites(old(table.rows), written)
      invariant table.Valid()
    {
      var t := block.txs[txIndex];
      BlockRowsStep(blockNumber, blockTime, block.txs, txIndex);
      if t.tx.value == 0 && !StartsWith(t.tx.input, TransferSelector) {
        continue;
      }
      var status := DecodeStatus(t.receipt);
      var contractTo, contractValue := ContractFields(t.tx.input).0, ContractFields(t.tx.input).1;
      var row := Row(blockTime, t.tx.from, t.tx.to, t.tx.value, t.receipt.gasUsed, t.tx.gasPrice,
                     blockNumber, t.tx.hash, contractTo, contractValue, status, t.tx.input);
      assert DecodeTx(blockNumber, blockTime, t) == Some(row);
      ApplyWritesAppend(old(table.rows), written, row);
      table.Upsert(row);
      written := written + [row];
    }
    assert block.txs[..|block.txs|] == block.txs;
  }

  /** The cursor read at the top of a cycle: `SELECT max(block)`, falling back to the start block on NULL. */
  method CurrentBlock(table: EthTxs, startBlock: int) returns (currentBlock: int)
    ensures currentBlock == Cursor(table.rows, startBlock)
    ensures table.rows == map[] ==> currentBlock == startBlock
    ensures table.rows != map[] ==> exists h :: h in table.rows && table.rows[h].block == currentBlock
    ensures forall h :: h in table.rows ==> table.rows[h].block <= currentBlock
  {
    var maxBlock := table.SelectMaxBlock();
    currentBlock := if maxBlock.Some? then maxBlock.value else startBlock;
  }

  /**
   * The loop `for blockNumber in range(currentBlock, endBlock)` of a poll cycle:
   * each block of the range that has transactions is handed to
   * `insertBlockTransactions`. Asking for a block the client does not serve raises
   * an exception nothing catches, so the process ends there (`MissingBlock`); the
   * rows already upserted stay, and the recovery on the next start deletes those
   * of the highest block.
   */
  method ScanRange(table: EthTxs, chain: Chain, currentBlock: int, endBlock: int)
    returns (scanned: seq<int>, inserted: seq<int>, written: seq<Row>, outcome: Outcome)
    requires table.Valid()
    modifies table
    ensures table.Valid()
    ensures CycleTrace(scanned, inserted, outcome) == Scan(chain, currentBlock, endBlock)
    ensures written == CycleRows(chain, inserted)
    ensures table.rows == ApplyWrites(old(table.rows), written)
  {
    ghost var start := table.rows;
    scanned, inserted, outcome := [], [], Completed;
    written := [];
    var blockNumber := currentBlock;
    while blockNumber < endBlock
      invariant currentBlock <= blockNumber && (blockNumber <= endBlock || blockNumber == currentBlock)
      invariant Scan(chain, currentBlock, blockNumber) == CycleTrace(scanned, inserted, Completed)
      invariant written == CycleRows(chain, inserted)
      invariant table.rows == ApplyWrites(start, written)
      decreases endBlock - blockNumber
    {
      ScanStep(chain, currentBlock, blockNumber);
      scanned := scanned + [blockNumber];
      if !chain.HasBlock(blockNumber) {
        outcome := MissingBlock(blockNumber);
        ScanStopsAtMissing(chain, currentBlock, blockNumber + 1, endBlock);
        ApplyWritesKeyedByHash(start, written);
        return;
      }
      var block := chain.blocks[blockNumber];
      if |block.txs| > 0 {
        ApplyWritesKeyedByHash(start, written);
        var rows := InsertBlockTransactions(table, blockNumber, block);
        ApplyWritesConcat(start, written, rows);
        CycleRowsAppend(chain, inserted, blockNumber);
        inserted := inserted + [blockNumber];
        written := written + rows;
      }
      blockNumber := blockNumber + 1;
    }
    ApplyWritesKeyedByHash(start, written);
  }

  /**
   * One poll cycle: read the cursor from the table, compute the end block from
   * the head and the confirmations, and scan [cursor, end).
   */
  method PollCycle(table: EthTxs, chain: Chain, startBlock: int, confirmations: int)
    returns (scanned: seq<int>, inserted: seq<int>, written: seq<Row>, outcome: Outcome)
    requires table.Valid()
    modifies table
    ensures table.Valid()
    ensures CycleTrace(scanned, inserted, outcome) == Scan(chain, Cursor(old(table.rows), startBlock), chain.Head() - confirmations)
    ensures written == CycleRows(chain, inserted)
    ensures table.rows == ApplyWrites(old(table.rows), written)
  {
    var currentBlock := CurrentBlock(table, startBlock);
    var endBlock := chain.Head() - confirmations;
    scanned, inserted, written, outcome := ScanRange(table, chain, currentBlock, endBlock);
  }
}
