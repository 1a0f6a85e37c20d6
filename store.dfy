/**
 * The `ethtxs` table: one row per transaction hash (the `txhash` unique key),
 * so the table is a map from hash to row. The map-level functions specify the
 * SQL statements the indexer issues; the class `EthTxs` is the table the
 * indexer changes in place.
 */
module Store {
  import opened Options

  /** The columns of one row: time, txfrom, txto, value, gas, gasprice, block, txhash, contract_to, contract_value, status, data. */
  datatype Row = Row(
    time: int,
    txFrom: string,
    txTo: Option<string>,
    value: int,
    gas: int,
    gasPrice: int,
    block: int,
    txHash: string,
    contractTo: string,
    contractValue: string,
    status: Option<bool>,
    data: string)

  type Table = map<string, Row>

  /** `INSERT ... ON CONFLICT (txhash) DO UPDATE SET <every column>`: the new row replaces any row with its hash. */
  function Upserted(m: Table, row: Row): (m': Table)
    ensures row.txHash in m' && m'[row.txHash] == row
    ensures m'.Keys == m.Keys + {row.txHash}
    ensures forall h :: h in m && h != row.txHash ==> m'[h] == m[h]
  {
    m[row.txHash := row]
  }

  /** Upserting the same row twice leaves the table as upserting it once. */
  lemma UpsertIdempotent(m: Table, row: Row)
    ensures Upserted(Upserted(m, row), row) == Upserted(m, row)
  {
  }

  /** The table after upserting the rows of `w` one after another, first to last. */
  function ApplyWrites(m: Table, w: seq<Row>): Table
    decreases |w|
  {
    if w == [] then m else Upserted(ApplyWrites(m, w[..|w| - 1]), w[|w| - 1])
  }

  /** One more upsert after a batch. */
  lemma ApplyWritesAppend(m: Table, w: seq<Row>, row: Row)
    ensures ApplyWrites(m, w + [row]) == Upserted(ApplyWrites(m, w), row)
  {
    assert (w + [row])[..|w|] == w;
  }

  /** The last row of `w` with hash h, if any. */
  function LastWrite(w: seq<Row>, h: string): (r: Option<Row>)
    ensures r.Some? ==> r.value.txHash == h
    ensures r.Some? ==>
      (exists k :: 0 <= k < |w| && w[k] == r.value && forall j :: k < j < |w| ==> w[j].txHash != h)
    ensures r.None? ==> forall k :: 0 <= k < |w| ==> w[k].txHash != h
    decreases |w|
  {
    if w == [] then None
    else if w[|w| - 1].txHash == h then Some(w[|w| - 1])
    else LastWrite(w[..|w| - 1], h)
  }

  /** After a sequence of upserts a hash holds the last row written for it, or its old row if none was. */
  lemma {:induction false} ApplyWritesAt(m: Table, w: seq<Row>, h: string)
    ensures h in ApplyWrites(m, w) <==> h in m || LastWrite(w, h).Some?
    ensures h in ApplyWrites(m, w) ==>
      ApplyWrites(m, w)[h] == (if LastWrite(w, h).Some? then LastWrite(w, h).value else m[h])
    decreases |w|
  {
    if w != [] {
      ApplyWritesAt(m, w[..|w| - 1], h);
    }
  }

  /** Upserts never remove a row, and a row whose hash is not written keeps its values. */
  lemma {:induction false} ApplyWritesKeeps(m: Table, w: seq<Row>)
    ensures m.Keys <= ApplyWrites(m, w).Keys
    ensures forall h :: h in m && (forall k :: 0 <= k < |w| ==> w[k].txHash != h) ==> ApplyWrites(m, w)[h] == m[h]
    decreases |w|
  {
    if w != [] {
      ApplyWritesKeeps(m, w[..|w| - 1]);
    }
  }

  /** Two batches of upserts in a row are one batch of their concatenation. */
  lemma {:induction false} ApplyWritesConcat(m: Table, a: seq<Row>, b: seq<Row>)
    ensures ApplyWrites(m, a + b) == ApplyWrites(ApplyWrites(m, a), b)
    decreases |b|
  {
    if b == [] {
      assert a + b == a;
    } else {
      assert (a + b)[..|a + b| - 1] == a + b[..|b| - 1];
      ApplyWritesConcat(m, a, b[..|b| - 1]);
    }
  }

  /** Re-processing: writing the same rows a second time changes nothing. */
  lemma ApplyWritesIdempotent(m: Table, w: seq<Row>)
    ensures ApplyWrites(ApplyWrites(m, w), w) == ApplyWrites(m, w)
  {
    var once := ApplyWrites(m, w);
    var twice := ApplyWrites(once, w);
    forall h
      ensures h in twice <==> h in once
      ensures h in twice ==> twice[h] == once[h]
    {
      ApplyWritesAt(m, w, h);
      ApplyWritesAt(once, w, h);
    }
  }

  /** Every row sits under its own hash, the primary key of `ethtxs`. */
  ghost predicate KeyedByHash(m: Table)
  {
    forall h :: h in m ==> m[h].txHash == h
  }

  /** A batch of upserts keeps every row under its own hash. */
  lemma {:induction false} ApplyWritesKeyedByHash(m: Table, w: seq<Row>)
    requires KeyedByHash(m)
    ensures KeyedByHash(ApplyWrites(m, w))
    decreases |w|
  {
    if w != [] {
      ApplyWritesKeyedByHash(m, w[..|w| - 1]);
    }
  }

  /** r is `SELECT max(block)`: None (SQL NULL) on an empty table, otherwise the largest block of any row. */
  ghost predicate IsMaxBlock(m: Table, r: Option<int>)
  {
    match r
    case None => m == map[]
    case Some(b) => (exists h :: h in m && m[h].block == b) && (forall h :: h in m ==> m[h].block <= b)
  }

  lemma MaxBlockUnique(m: Table, r1: Option<int>, r2: Option<int>)
    requires IsMaxBlock(m, r1) && IsMaxBlock(m, r2)
    ensures r1 == r2
  {
  }

  /** The value of `SELECT max(block) FROM ethtxs`. */
  ghost function MaxBlock(m: Table): (r: Option<int>)
    ensures IsMaxBlock(m, r)
    decreases |m|
  {
    if m == map[] then None
    else
      var h :| h in m;
      var rest := m - {h};
      assert |rest| < |m| by {
        assert rest.Keys == m.Keys - {h};
      }
      var sub := MaxBlock(rest);
      assert forall h' :: h' in m && h' != h ==> h' in rest;
      if sub.Some? && sub.value > m[h].block then Some(sub.value) else Some(m[h].block)
  }

  /** The table after `DELETE ... WHERE block = (SELECT max(block) ...)`. */
  ghost function Recovered(m: Table): Table
  {
    match MaxBlock(m)
    case None => m
    case Some(top) => map h | h in m && m[h].block != top :: m[h]
  }

  /**
   * Recovery keeps exactly the rows of which some other row has a higher block,
   * and keeps them unchanged; an empty table stays empty.
   */
  lemma RecoveredKeepsLowerBlocks(m: Table)
    ensures m == map[] ==> Recovered(m) == map[]
    ensures forall h :: h in Recovered(m) <==> h in m && exists h' :: h' in m && m[h].block < m[h'].block
    ensures forall h :: h in Recovered(m) ==> Recovered(m)[h] == m[h]
  {
  }

  /** Recovery keeps every remaining row under its own hash. */
  lemma RecoveredKeyedByHash(m: Table)
    requires KeyedByHash(m)
    ensures KeyedByHash(Recovered(m))
  {
  }

  /** After recovery the table is empty or its highest block is strictly lower than before. */
  lemma RecoveryLowersMaxBlock(m: Table)
    requires m != map[]
    ensures Recovered(m) == map[] || MaxBlock(Recovered(m)).value < MaxBlock(m).value
  {
  }

  /** The rows of table `ethtxs`. */
  class EthTxs {
    var rows: Table

    /** The table invariant: `txhash` is the primary key, so every row sits under its own hash. */
    ghost predicate Valid()
      reads this
    {
      KeyedByHash(rows)
    }

    /** The upsert statement of `insertBlockTransactions`. */
    method Upsert(row: Row)
      requires Valid()
      modifies this
      ensures Valid()
      ensures rows == Upserted(old(rows), row)
    {
      rows := rows[row.txHash := row];
    }

    /** `SELECT max(block) FROM ethtxs`, computed by scanning the rows. */
    method SelectMaxBlock() returns (r: Option<int>)
      ensures IsMaxBlock(rows, r)
      ensures r == MaxBlock(rows)
    {
      var remaining := rows.Keys;
      r := None;
      while remaining != {}
        invariant remaining <= rows.Keys
        invariant r.None? <==> remaining == rows.Keys
        invariant r.Some? ==> exists h :: h in rows && h !in remaining && rows[h].block == r.value
        invariant r.Some? ==> forall h :: h in rows && h !in remaining ==> rows[h].block <= r.value
        decreases remaining
      {
        var h :| h in remaining;
        if r.None? || rows[h].block > r.value {
          r := Some(rows[h].block);
        }
        remaining := remaining - {h};
      }
      if r.None? {
        assert rows.Keys == {};
      }
      MaxBlockUnique(rows, r, MaxBlock(rows));
    }

    /** Startup recovery: delete every row of the highest indexed block (it may be incomplete). */
    method DeleteLastBlock()
      requires Valid()
      modifies this
      ensures Valid()
      ensures rows == Recovered(old(rows))
    {
      var top := SelectMaxBlock();
      if top.Some? {
        rows := map h | h in rows && rows[h].block != top.value :: rows[h];
      }
      RecoveredKeyedByHash(old(rows));
    }
  }
}
