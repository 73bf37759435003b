/**
 * The `TxEventSink` object of the tx module indexer: the tables it writes are
 * its fields, `InsertModuleEvents` and `SearchTxs` are its methods, and each
 * is proved against the specification functions of `TxIndexer`.
 */
module TxSink {
  import opened Wrappers
  import opened Bytes
  import opened QueryCompiler
  import opened TxIndexer
  import opened TxIndexerFacts

  class TxEventSink {
    /** The chain id of the primary sink. */
    const chainId: string
    /** The encoding configuration and the digest. */
    const codec: Codec
    var blocks: map<BlockKey, nat>
    var nextBlockId: nat
    var txRequests: map<TxKey, TxRequestRow>

    function Snapshot(): Tables
      reads this
    {
      Tables(blocks, nextBlockId, txRequests)
    }

    ghost predicate Valid()
      reads this
    {
      WellFormed(Snapshot())
    }

    /** `NewTxEventSinkIndexer` wraps an existing primary sink, whose database may already hold rows. */
    constructor (chainId: string, codec: Codec, existing: Tables)
      requires WellFormed(existing)
      ensures this.chainId == chainId && this.codec == codec
      ensures Snapshot() == existing
      ensures Valid()
    {
      this.chainId := chainId;
      this.codec := codec;
      blocks := existing.blocks;
      nextBlockId := existing.nextBlockId;
      txRequests := existing.txRequests;
    }

    /**
     * `IndexBlockEvents` through the sink handle: insert-if-absent of the block row, committed on its own.
     * An internal step of `InsertModuleEvents`, stated against the old state only; `Valid()` is kept by
     * `InsertModuleEvents` as a whole.
     */
    method EnsureBlockRow(key: BlockKey)
      modifies this
      ensures Snapshot() == EnsureBlock(old(Snapshot()), key)
    {
      if key !in blocks {
        blocks := blocks[key := nextBlockId];
        nextBlockId := nextBlockId + 1;
      }
    }

    /**
     * `InsertModuleEvents`: one row per transaction, in order; the first failure is returned
     * at once and the rows of the transactions before it stay written.
     */
    method InsertModuleEvents(req: FinalizeBlockRequest, backend: Backend) returns (err: Option<Error>)
      requires Valid()
      modifies this
      ensures IndexOutcome(Snapshot(), err) == IndexTxsFrom(old(Snapshot()), chainId, req, codec, backend, 0)
      ensures Valid()
    {
      err := IndexBlockTxs(req, backend);
      IndexTxsFromWellFormed(old(Snapshot()), chainId, req, codec, backend, 0);
    }

    /** The loop of `InsertModuleEvents`: the txs in order, returning the first error at once. An internal step: `InsertModuleEvents` proves `Valid()` of its result. */
    method IndexBlockTxs(req: FinalizeBlockRequest, backend: Backend) returns (err: Option<Error>)
      modifies this
      ensures IndexOutcome(Snapshot(), err) == IndexTxsFrom(old(Snapshot()), chainId, req, codec, backend, 0)
    {
      var i := 0;
      while i < |req.txs|
        invariant 0 <= i <= |req.txs|
        invariant IndexTxsFrom(old(Snapshot()), chainId, req, codec, backend, 0) == IndexTxsFrom(Snapshot(), chainId, req, codec, backend, i)
      {
        var e := IndexTxAt(req, backend, i);
        if e.Some? {
          return e;
        }
        i := i + 1;
      }
      return None;
    }

    /** The body of the insert loop for the tx at position i. An internal step of `InsertModuleEvents`. */
    method IndexTxAt(req: FinalizeBlockRequest, backend: Backend, i: nat) returns (err: Option<Error>)
      requires i < |req.txs|
      modifies this
      ensures IndexOutcome(Snapshot(), err) == IndexTx(old(Snapshot()), chainId, req, codec, backend, i)
    {
      var txBz := req.txs[i];
      var cosmosTx := codec.unmarshalTx(txBz);
      if cosmosTx.None? {
        return Some(DecodeTx);
      }
      var fullMsgsBz := codec.marshalMsgs(cosmosTx.value.messages);
      if fullMsgsBz.None? {
        return Some(MarshalMsgs);
      }
      var feeBz := codec.marshalFeeJson(cosmosTx.value.fee);
      if feeBz.None? {
        return Some(MarshalFee);
      }
      var txHash := UpperHex(codec.txHash(txBz));
      // The block row goes through the sink handle and is committed on its own.
      var key := BlockKey(req.height, chainId);
      var sink := backend.indexBlockEvents(i);
      if sink == SinkFailed {
        return Some(IndexBlockEvents);
      }
      if sink == BlockIndexed {
        EnsureBlockRow(key);
      }
      // From here on the tx's own transaction: a failure leaves tx_requests as it was.
      if key !in blocks {
        return Some(BlockNotFound);
      }
      var blockId := blocks[key];
      if backend.insertFails(i) {
        return Some(IndexingTxRequests);
      }
      var k := TxKey(blockId, i);
      var row := TxRequestRow(req.height, req.time, txHash, fullMsgsBz.value, feeBz.value, cosmosTx.value.memo);
      if k !in txRequests {
        txRequests := txRequests[k := row];
      }
      return None;
    }

    /**
     * `SearchTxs`: compile the height filter (falling back to the latest block height), run the
     * query with the clamped limit, and decode every row; a failure anywhere returns no responses
     * and count 0.
     */
    method SearchTxs(info: HeightInfo, conditions: seq<Condition>, rangeIndexes: seq<int>, limit: uint16,
                     matching: Query -> seq<Option<Row>>)
      returns (responses: seq<GetTxResponse>, count: nat, err: Option<Error>)
      ensures SearchOutcome(responses, count, err) == Search(Snapshot(), info, conditions, rangeIndexes, limit, matching, codec)
      ensures err.Some? ==> responses == [] && count == 0
      ensures err.None? ==> count == |responses| <= EffectiveLimit(limit) <= TxSearchLimit
    {
      var whereConditions, args, argsCount := CreateHeightRangeWhereConditions(info);
      // The latest block height is only looked up when there is no height clause.
      var tip: Option<int> := None;
      if whereConditions == "" {
        tip := LatestHeight(blocks);
      }
      var cursor := CursorPaginationCondition(whereConditions, tip);
      assert cursor == CursorPaginationCondition(whereConditions, LatestHeight(blocks));
      if cursor.None? {
        SearchNotCompiled(Snapshot(), info, conditions, rangeIndexes, limit, matching, codec, FindingBlockHeight);
        return [], 0, Some(FindingBlockHeight);
      }
      var filter := CreateNonHeightConditionFilterTable(conditions, rangeIndexes, argsCount);
      var query := Query(cursor.value, args + filter.args, EffectiveLimit(limit), filter.clause);
      SearchOfCompiled(Snapshot(), info, conditions, rangeIndexes, limit, matching, codec, query);
      var rows := Take(matching(query), query.limit);
      responses, count, err := DecodeScannedRows(rows);
    }

    /** The scan loop of `SearchTxs`: count and decode every row in order, stopping at the first failure. */
    method DecodeScannedRows(rows: seq<Option<Row>>) returns (responses: seq<GetTxResponse>, count: nat, err: Option<Error>)
      ensures DecodeRows(rows, codec).Ok? ==> err.None? && responses == DecodeRows(rows, codec).value && count == |responses| == |rows|
      ensures DecodeRows(rows, codec).Err? ==> err == Some(DecodeRows(rows, codec).error) && responses == [] && count == 0
    {
      count, responses, err := 0, [], None;
      var i := 0;
      while i < |rows|
        invariant 0 <= i <= |rows|
        invariant count == i
        invariant DecodeRows(rows[..i], codec) == Ok(responses)
      {
        count := count + 1;
        assert rows[..i + 1][..i] == rows[..i];
        var scan := rows[i];
        if scan.None? {
          DecodeErrorIsFinal(rows, codec, i + 1);
          return [], 0, Some(ScanRow);
        }
        var row := scan.value;
        var msgsAny := codec.unmarshalMsgs(row.messages);
        if msgsAny.None? {
          DecodeErrorIsFinal(rows, codec, i + 1);
          return [], 0, Some(DecodeMsgs);
        }
        var txResult := codec.unmarshalTxResult(row.txResult);
        if txResult.None? {
          DecodeErrorIsFinal(rows, codec, i + 1);
          return [], 0, Some(DecodeTxResult);
        }
        var feeProto := codec.unmarshalFeeJson(row.fee);
        if feeProto.None? {
          DecodeErrorIsFinal(rows, codec, i + 1);
          return [], 0, Some(DecodeFee);
        }
        var res := txResult.value;
        var cosmosTx := CosmosTx(msgsAny.value, row.memo, feeProto.value);
        var txResponse := TxResponse(row.height, row.txHash, res.codespace, res.code, res.info,
                                     res.log, res.gasWanted, res.gasUsed, res.events);
        responses := responses + [GetTxResponse(cosmosTx, txResponse)];
        i := i + 1;
      }
      assert rows[..i] == rows;
      DecodeRowsLength(rows, codec);
    }
  }
}
