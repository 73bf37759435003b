/**
 * The tx module indexer: on each finalized block it writes one `tx_requests`
 * row per transaction, keyed by (block id, position in the block), after
 * making sure the block row exists; and it answers searches by compiling the
 * height filter, running the query and decoding every returned row.
 *
 * The relational tables are maps held by the sink object. The codecs and the
 * transaction digest are foreign and supplied as functions (`Codec`); the
 * outcome of the foreign store calls that can fail on their own (the primary
 * sink's block indexing and the row insert) is supplied by `Backend`; the
 * database's final rows for a query, its LIMIT included, as `Next` yields
 * them, are supplied by `matching`.
 */
module TxIndexer {
  import opened Wrappers
  import opened Bytes
  import opened QueryCompiler

  // ---------------------------------------------------------------------------
  // Transactions, results and responses
  // ---------------------------------------------------------------------------

  datatype AnyMsg = AnyMsg(typeUrl: string, value: seq<byte>)
  datatype Coin = Coin(denom: string, amount: nat)
  datatype Fee = Fee(amount: seq<Coin>, gasLimit: nat, payer: string, granter: string)

  /** The parts of a decoded cosmos transaction the indexer persists. */
  datatype CosmosTx = CosmosTx(messages: seq<AnyMsg>, memo: string, fee: Fee)

  datatype Event = Event(kind: string, attributes: seq<(string, string)>)

  /** The stored execution result of a transaction. */
  datatype ExecTxResult = ExecTxResult(
    code: nat, codespace: string, info: string, log: string,
    gasWanted: int, gasUsed: int, events: seq<Event>)

  datatype TxResponse = TxResponse(
    height: int, txHash: string, codespace: string, code: nat, info: string,
    rawLog: string, gasWanted: int, gasUsed: int, events: seq<Event>)

  datatype GetTxResponse = GetTxResponse(tx: CosmosTx, txResponse: TxResponse)

  /** A finalized block as the indexer consumes it: height, raw transactions and block time. */
  datatype FinalizeBlockRequest = FinalizeBlockRequest(height: int, txs: seq<seq<byte>>, time: int)

  /** The encoding configuration and the transaction digest; None stands for a returned error. */
  datatype Codec = Codec(
    unmarshalTx: seq<byte> -> Option<CosmosTx>,
    marshalMsgs: seq<AnyMsg> -> Option<seq<byte>>,
    marshalFeeJson: Fee -> Option<seq<byte>>,
    unmarshalMsgs: seq<byte> -> Option<seq<AnyMsg>>,
    unmarshalTxResult: seq<byte> -> Option<ExecTxResult>,
    unmarshalFeeJson: seq<byte> -> Option<Fee>,
    txHash: seq<byte> -> seq<byte>)

  /** What the primary sink's block indexing did for one call: wrote (or found) the block row, returned success without a visible row, or failed. */
  datatype SinkOutcome = BlockIndexed | BlockNotVisible | SinkFailed

  /** The outcome of the foreign store calls made while indexing the tx at each position. */
  datatype Backend = Backend(indexBlockEvents: nat -> SinkOutcome, insertFails: nat -> bool)

  datatype Error =
    | DecodeTx | MarshalMsgs | MarshalFee
    | IndexBlockEvents | BlockNotFound | IndexingTxRequests
    | FindingBlockHeight
    | ScanRow | DecodeMsgs | DecodeTxResult | DecodeFee

  // ---------------------------------------------------------------------------
  // Tables
  // ---------------------------------------------------------------------------

  /** `blocks` is unique on (height, chain id). */
  datatype BlockKey = BlockKey(height: int, chainId: string)

  /** `tx_requests` is unique on (block id, index). */
  datatype TxKey = TxKey(blockId: nat, index: nat)

  datatype TxRequestRow = TxRequestRow(
    height: int, createdAt: int, txHash: string,
    messages: seq<byte>, fee: seq<byte>, memo: string)

  /** The tables the indexer writes: block rows (to their row id), the next block row id, and the tx request rows. */
  datatype Tables = Tables(blocks: map<BlockKey, nat>, nextBlockId: nat, txRequests: map<TxKey, TxRequestRow>)

  /** Row ids are below the counter and distinct, and every tx request row refers to an existing block. */
  ghost predicate WellFormed(t: Tables)
  {
    && (forall k :: k in t.blocks ==> t.blocks[k] < t.nextBlockId)
    && (forall k1, k2 :: k1 in t.blocks && k2 in t.blocks && t.blocks[k1] == t.blocks[k2] ==> k1 == k2)
    && (forall tk :: tk in t.txRequests ==> tk.blockId in t.blocks.Values)
  }

  /** Every row of t is in t' with the same contents: nothing was deleted or overwritten. */
  ghost predicate Extends(t: Tables, t': Tables)
  {
    && (forall k :: k in t.blocks ==> k in t'.blocks && t'.blocks[k] == t.blocks[k])
    && (forall k :: k in t.txRequests ==> k in t'.txRequests && t'.txRequests[k] == t.txRequests[k])
  }

  // ---------------------------------------------------------------------------
  // The insert path, as specification functions
  // ---------------------------------------------------------------------------

  datatype IndexOutcome = IndexOutcome(tables: Tables, err: Option<Error>)

  /** Insert-if-absent of the block row, as the primary sink does it. */
  function EnsureBlock(t: Tables, key: BlockKey): (t': Tables)
  {
    if key in t.blocks then t
    else t.(blocks := t.blocks[key := t.nextBlockId], nextBlockId := t.nextBlockId + 1)
  }

  /** The codec steps for one raw transaction all succeed. */
  predicate Encodes(codec: Codec, txBz: seq<byte>)
  {
    && codec.unmarshalTx(txBz).Some?
    && codec.marshalMsgs(codec.unmarshalTx(txBz).value.messages).Some?
    && codec.marshalFeeJson(codec.unmarshalTx(txBz).value.fee).Some?
  }

  /** The row written for the transaction at position i. */
  function TxRow(codec: Codec, req: FinalizeBlockRequest, i: nat): TxRequestRow
    requires i < |req.txs| && Encodes(codec, req.txs[i])
  {
    var tx := codec.unmarshalTx(req.txs[i]).value;
    TxRequestRow(req.height, req.time, UpperHex(codec.txHash(req.txs[i])),
                 codec.marshalMsgs(tx.messages).value, codec.marshalFeeJson(tx.fee).value, tx.memo)
  }

  /** Indexing the transaction at position i: decode and marshal outside any transaction, then in its own transaction ensure the block, look up its id and insert with do-nothing-on-conflict. */
  function IndexTx(t: Tables, chainId: string, req: FinalizeBlockRequest, codec: Codec, backend: Backend, i: nat): IndexOutcome
    requires i < |req.txs|
  {
    var txBz := req.txs[i];
    match codec.unmarshalTx(txBz)
    case None => IndexOutcome(t, Some(DecodeTx))
    case Some(tx) =>
      match codec.marshalMsgs(tx.messages)
      case None => IndexOutcome(t, Some(MarshalMsgs))
      case Some(msgsBz) =>
        match codec.marshalFeeJson(tx.fee)
        case None => IndexOutcome(t, Some(MarshalFee))
        case Some(feeBz) =>
          var key := BlockKey(req.height, chainId);
          match backend.indexBlockEvents(i)
          case SinkFailed => IndexOutcome(t, Some(IndexBlockEvents))
          case BlockNotVisible =>
            if key !in t.blocks then IndexOutcome(t, Some(BlockNotFound))
            else InsertTxRow(t, TxKey(t.blocks[key], i), TxRow(codec, req, i), backend.insertFails(i))
          case BlockIndexed =>
            var t1 := EnsureBlock(t, key);
            InsertTxRow(t1, TxKey(t1.blocks[key], i), TxRow(codec, req, i), backend.insertFails(i))
  }

  /** The `INSERT ... ON CONFLICT DO NOTHING`: an existing key is left alone and reported as success. */
  function InsertTxRow(t: Tables, k: TxKey, row: TxRequestRow, fails: bool): (r: IndexOutcome)
  {
    if fails then IndexOutcome(t, Some(IndexingTxRequests))
    else if k in t.txRequests then IndexOutcome(t, None)
    else IndexOutcome(t.(txRequests := t.txRequests[k := row]), None)
  }

  /** The transactions of the block from position i on, indexed in order and stopping at the first error. */
  function IndexTxsFrom(t: Tables, chainId: string, req: FinalizeBlockRequest, codec: Codec, backend: Backend, i: nat): IndexOutcome
    requires i <= |req.txs|
    decreases |req.txs| - i
  {
    if i == |req.txs| then IndexOutcome(t, None)
    else
      var r := IndexTx(t, chainId, req, codec, backend, i);
      if r.err.Some? then r else IndexTxsFrom(r.tables, chainId, req, codec, backend, i + 1)
  }

  // ---------------------------------------------------------------------------
  // The search path, as specification functions
  // ---------------------------------------------------------------------------

  /** The compiled search: the height clause (or cursor), its arguments, the clamped limit and the non-height filter. */
  datatype Query = Query(whereClause: string, args: seq<int>, limit: nat, filterClause: string)

  /** One row of the final select, as scanned from the database. */
  datatype Row = Row(
    height: int, createdAt: int, txHash: string,
    messages: seq<byte>, memo: string, fee: seq<byte>, txResult: seq<byte>)

  datatype SearchOutcome = SearchOutcome(responses: seq<GetTxResponse>, count: nat, err: Option<Error>)

  /** The highest block height in a finite set, which exists when the set is not empty. */
  predicate IsMaxOf(h: int, hs: set<int>)
  {
    h in hs && forall x :: x in hs ==> x <= h
  }

  lemma NonEmptyHasElement(hs: set<int>)
    requires hs != {}
    ensures exists y :: y in hs
  {
    if forall y :: y !in hs {
      assert false;
    }
  }

  lemma {:induction false} MaxExists(hs: set<int>)
    requires hs != {}
    ensures exists h :: IsMaxOf(h, hs)
    decreases |hs|
  {
    NonEmptyHasElement(hs);
    var x :| x in hs;
    var rest := hs - {x};
    if rest == {} {
      assert hs == {x};
      assert IsMaxOf(x, hs);
    } else {
      MaxExists(rest);
      var m :| IsMaxOf(m, rest);
      var top := if m < x then x else m;
      forall y | y in hs
        ensures y <= top
      {
        if y != x {
          assert y in rest;
        }
      }
      assert IsMaxOf(top, hs);
    }
  }

  /** `SELECT height FROM blocks ORDER BY height DESC LIMIT 1`: None when there is no block row. */
  function LatestHeight(blocks: map<BlockKey, nat>): (tip: Option<int>)
    ensures tip.None? <==> blocks == map[]
    ensures tip.Some? ==> (exists k :: k in blocks && k.height == tip.value)
    ensures tip.Some? ==> forall k :: k in blocks ==> k.height <= tip.value
  {
    var hs := set k | k in blocks :: k.height;
    if hs == {} then
      assert forall k :: k in blocks ==> k.height in hs;
      None
    else
      MaxExists(hs);
      var h :| IsMaxOf(h, hs);
      assert forall k :: k in blocks ==> k.height in hs;
      Some(h)
  }

  /** The query SearchTxs runs, or the error it stops at before running one. */
  function CompileSearch(info: HeightInfo, conditions: seq<Condition>, rangeIndexes: seq<int>, tip: Option<int>, limit: uint16): Result<Query, Error>
  {
    var w := HeightWhere(info);
    match CursorPaginationCondition(Render(w.conds), tip)
    case None => Err(FindingBlockHeight)
    case Some(whereClause) =>
      var filter := CreateNonHeightConditionFilterTable(conditions, rangeIndexes, w.argsCount);
      Ok(Query(whereClause, Args(w.conds) + filter.args, EffectiveLimit(limit), filter.clause))
  }

  /** The bound the query's LIMIT puts on the rows read: at most the first `limit` of them (the database's rows already meet it). */
  function Take<T>(rows: seq<T>, limit: nat): (r: seq<T>)
    ensures |r| <= limit && |r| <= |rows|
    ensures r == rows[..|r|]
    ensures |r| == limit || r == rows
  {
    if |rows| <= limit then rows else rows[..limit]
  }

  /** Decoding one scanned row into a response: messages, then the execution result, then the fee. */
  function DecodeRow(scan: Option<Row>, codec: Codec): Result<GetTxResponse, Error>
  {
    match scan
    case None => Err(ScanRow)
    case Some(row) =>
      match codec.unmarshalMsgs(row.messages)
      case None => Err(DecodeMsgs)
      case Some(msgs) =>
        match codec.unmarshalTxResult(row.txResult)
        case None => Err(DecodeTxResult)
        case Some(res) =>
          match codec.unmarshalFeeJson(row.fee)
          case None => Err(DecodeFee)
          case Some(fee) =>
            Ok(GetTxResponse(
              CosmosTx(msgs, row.memo, fee),
              TxResponse(row.height, row.txHash, res.codespace, res.code, res.info,
                         res.log, res.gasWanted, res.gasUsed, res.events)))
  }

  /** Decoding rows in order: the responses of all rows, or the error of the first row that fails. */
  function DecodeRows(rows: seq<Option<Row>>, codec: Codec): Result<seq<GetTxResponse>, Error>
  {
    if rows == [] then Ok([])
    else
      match DecodeRows(rows[..|rows| - 1], codec)
      case Err(e) => Err(e)
      case Ok(rs) =>
        match DecodeRow(rows[|rows| - 1], codec)
        case Err(e) => Err(e)
        case Ok(r) => Ok(rs + [r])
  }

  /** The whole search: compile, run with the limit, decode every row; any failure yields no responses and count 0. */
  function Search(t: Tables, info: HeightInfo, conditions: seq<Condition>, rangeIndexes: seq<int>, limit: uint16,
                  matching: Query -> seq<Option<Row>>, codec: Codec): SearchOutcome
  {
    match CompileSearch(info, conditions, rangeIndexes, LatestHeight(t.blocks), limit)
    case Err(e) => SearchOutcome([], 0, Some(e))
    case Ok(q) =>
      match DecodeRows(Take(matching(q), q.limit), codec)
      case Err(e) => SearchOutcome([], 0, Some(e))
      case Ok(rs) => SearchOutcome(rs, |rs|, None)
  }

  // ---------------------------------------------------------------------------
  // Facts the methods rely on
  // ---------------------------------------------------------------------------

  /** A search whose query compiled is the decode of the rows that query returns under its limit. */
  lemma SearchOfCompiled(t: Tables, info: HeightInfo, conditions: seq<Condition>, rangeIndexes: seq<int>, limit: uint16,
                         matching: Query -> seq<Option<Row>>, codec: Codec, q: Query)
    requires CompileSearch(info, conditions, rangeIndexes, LatestHeight(t.blocks), limit) == Ok(q)
    ensures Search(t, info, conditions, rangeIndexes, limit, matching, codec) ==
      match DecodeRows(Take(matching(q), q.limit), codec)
      case Err(e) => SearchOutcome([], 0, Some(e))
      case Ok(rs) => SearchOutcome(rs, |rs|, None)
  {
  }

  /** A search whose compilation stops at an error returns that error with no responses. */
  lemma SearchNotCompiled(t: Tables, info: HeightInfo, conditions: seq<Condition>, rangeIndexes: seq<int>, limit: uint16,
                          matching: Query -> seq<Option<Row>>, codec: Codec, e: Error)
    requires CompileSearch(info, conditions, rangeIndexes, LatestHeight(t.blocks), limit) == Err(e)
    ensures Search(t, info, conditions, rangeIndexes, limit, matching, codec) == SearchOutcome([], 0, Some(e))
  {
  }

  /** Once a row fails to decode, decoding more rows keeps that error. */
  lemma {:induction false} DecodeErrorIsFinal(rows: seq<Option<Row>>, codec: Codec, k: nat)
    requires k <= |rows|
    requires DecodeRows(rows[..k], codec).Err?
    ensures DecodeRows(rows, codec) == DecodeRows(rows[..k], codec)
    decreases |rows| - k
  {
    if k < |rows| {
      assert rows[..k + 1][..k] == rows[..k];
      DecodeErrorIsFinal(rows, codec, k + 1);
    } else {
      assert rows[..k] == rows;
    }
  }

  /** A successful decode yields one response per row. */
  lemma {:induction false} DecodeRowsLength(rows: seq<Option<Row>>, codec: Codec)
    requires DecodeRows(rows, codec).Ok?
    ensures |DecodeRows(rows, codec).value| == |rows|
  {
    if rows != [] {
      DecodeRowsLength(rows[..|rows| - 1], codec);
    }
  }
}
