/**
 * Classification and decoding of one transaction (the body of the loop in
 * `insertBlockTransactions`): which transactions are indexed, the tri-state
 * status, and the ERC-20 `transfer` fields sliced out of the call data.
 */
module Decoder {
  import opened Options
  import opened PyStr
  import opened Chain
  import opened Store

  /** `0x` followed by the selector of `transfer(address,uint256)`. */
  const TransferSelector: string := "0xa9059cbb"

  /** Longest `contractTo` the indexer accepts before clearing both contract fields. */
  const MaxContractToLength: nat := 128

  /** A transaction is indexed when it moves native currency or calls `transfer`. */
  predicate IsIndexable(tx: Tx)
  {
    tx.value != 0 || StartsWith(tx.input, TransferSelector)
  }

  /** The status column: NULL when the receipt has no status field, else Python's `bool(status)`. */
  function DecodeStatus(receipt: Receipt): (s: Option<bool>)
    ensures s.None? <==> receipt.status.None?
    ensures s == Some(false) <==> receipt.status == Some(0)
    ensures s == Some(true) <==> receipt.status.Some? && receipt.status.value != 0
  {
    match receipt.status
    case None => None
    case Some(code) => Some(code != 0)
  }

  /** `contractTo, contractValue` before the length check: `input[10:-64]` and `input[74:]` after the selector, else empty. */
  function SlicedContractFields(input: string): (string, string)
  {
    if StartsWith(input, TransferSelector) then (PySlice(input, 10, -64), PySliceFrom(input, 74))
    else ("", "")
  }

  /** The contract columns as written: both cleared when `contractTo` is longer than 128 characters. */
  function ContractFields(input: string): (string, string)
  {
    var (to, value) := SlicedContractFields(input);
    if |to| > MaxContractToLength then ("", "") else (to, value)
  }

  /**
   * The row `insertBlockTransactions` writes for one transaction of block
   * `blockNumber` whose timestamp is `time`, or None when it skips it.
   */
  function DecodeTx(blockNumber: int, time: int, t: ChainTx): (r: Option<Row>)
    ensures r.None? <==> t.tx.value == 0 && !StartsWith(t.tx.input, TransferSelector)
    ensures r.Some? ==> r.value.block == blockNumber && r.value.time == time && r.value.txHash == t.tx.hash
  {
    if !IsIndexable(t.tx) then None
    else
      var (contractTo, contractValue) := ContractFields(t.tx.input);
      Some(Row(time, t.tx.from, t.tx.to, t.tx.value, t.receipt.gasUsed, t.tx.gasPrice,
               blockNumber, t.tx.hash, contractTo, contractValue, DecodeStatus(t.receipt), t.tx.input))
  }

  /**
   * The contract fields in ordinary slices. Writing n for the input length:
   * without the selector, or with n <= 74 or n > 202, both are empty;
   * otherwise they are `input[10..n-64]` and `input[74..]`.
   */
  lemma ContractFieldsCases(input: string)
    ensures var (to, value) := ContractFields(input);
      if StartsWith(input, TransferSelector) && 74 < |input| <= 202
      then to == input[10..|input| - 64] && value == input[74..]
      else to == "" && value == ""
  {
  }

  /** Both contract fields always have the same length, and `contractTo` never exceeds 128 characters. */
  lemma ContractFieldsLengths(input: string)
    ensures |ContractFields(input).0| == |ContractFields(input).1| <= MaxContractToLength
  {
  }

  /** A transfer call of exactly 138 characters splits into two 64-character fields covering `input[10:]`. */
  lemma ExactTransferSplits(input: string)
    requires StartsWith(input, TransferSelector) && |input| == 138
    ensures |ContractFields(input).0| == 64 && |ContractFields(input).1| == 64
    ensures ContractFields(input).0 + ContractFields(input).1 == input[10..]
  {
  }

  /** Selector, a 64-character address word and a 64-character amount word decode to exactly those words. */
  lemma StandardTransferDecodes(address: string, amount: string)
    requires |address| == 64 && |amount| == 64
    ensures ContractFields(TransferSelector + address + amount) == (address, amount)
  {
    var input := TransferSelector + address + amount;
    assert StartsWith(input, TransferSelector) by {
      assert input[..|TransferSelector|] == TransferSelector;
    }
    ContractFieldsCases(input);
    assert input[10..74] == address;
    assert input[74..] == amount;
  }

  /**
   * For a transfer call longer than 138 but at most 202 characters, the
   * variable-length `input[10:-64]` is kept and overlaps the amount: it is longer
   * than 64 characters and ends with the first n-138 characters of `contractValue`.
   */
  lemma OverlongTransferOverlaps(input: string)
    requires StartsWith(input, TransferSelector) && 138 < |input| <= 202
    ensures var (to, value) := ContractFields(input);
      |to| == |input| - 74 > 64 &&
      to[64..] == value[..|input| - 138]
  {
    ContractFieldsCases(input);
    var n := |input|;
    assert input[10..n - 64][64..] == input[74..n - 64];
    assert input[74..][..n - 138] == input[74..n - 64];
  }

  /** For a transfer call the contract fields are cleared exactly when n <= 74 or n > 202. */
  lemma TransferFieldsClearedIff(input: string)
    requires StartsWith(input, TransferSelector)
    ensures ContractFields(input) == ("", "") <==> |input| <= 74 || |input| > 202
  {
  }

  /**
   * An indexed transaction's row carries every column of the transaction and
   * its receipt; a failed length check clears only the two contract fields.
   */
  lemma DecodedRowColumns(blockNumber: int, time: int, t: ChainTx)
    requires IsIndexable(t.tx)
    ensures var r := DecodeTx(blockNumber, time, t);
      r.Some? &&
      r.value.txFrom == t.tx.from && r.value.txTo == t.tx.to && r.value.value == t.tx.value &&
      r.value.gas == t.receipt.gasUsed && r.value.gasPrice == t.tx.gasPrice &&
      r.value.status == DecodeStatus(t.receipt) && r.value.data == t.tx.input &&
      (r.value.contractTo, r.value.contractValue) == ContractFields(t.tx.input) &&
      (StartsWith(t.tx.input, TransferSelector) && |t.tx.input| > 202 ==> r.value.contractTo == "" && r.value.contractValue == "") &&
      (!StartsWith(t.tx.input, TransferSelector) ==> r.value.contractTo == "" && r.value.contractValue == "")
  {
  }
}
