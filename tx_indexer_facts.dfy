/**
 * What the tx module indexer guarantees, stated over the specification
 * functions of `TxIndexer`: the insert path only ever adds rows, keeps the
 * tables well formed, writes exactly one row per transaction of a block and
 * is idempotent on a replayed block; the search path returns every decoded
 * row of the limited query in order, or nothing.
 */
module TxIndexerFacts {
  import opened Wrappers
  import opened Bytes
  import opened QueryCompiler
  import opened TxIndexer

  // ---------------------------------------------------------------------------
  // Indexing one transaction
  // ---------------------------------------------------------------------------

  lemma ExtendsTransitive(a: Tables, b: Tables, c: Tables)
    requires Extends(a, b) && Extends(b, c)
    ensures Extends(a, c)
  {
  }

  /**
   * The outcome of indexing the tx at position i, case by case: which error comes from
   * which failing step, what a failure leaves behind (the tx's own transaction is rolled
   * back, the block row the sink committed stays), and what success writes.
   */
  lemma IndexTxOutcome(t: Tables, chainId: string, req: FinalizeBlockRequest, codec: Codec, backend: Backend, i: nat,
                       r: IndexOutcome)
    requires i < |req.txs|
    requires r == IndexTx(t, chainId, req, codec, backend, i)
    ensures var key := BlockKey(req.height, chainId);
      var sink := backend.indexBlockEvents(i);
      var enc := Encodes(codec, req.txs[i]);
      && (r.err == Some(DecodeTx) <==> codec.unmarshalTx(req.txs[i]).None?)
      && (r.err == Some(MarshalMsgs) <==>
            codec.unmarshalTx(req.txs[i]).Some? && codec.marshalMsgs(codec.unmarshalTx(req.txs[i]).value.messages).None?)
      && (r.err == Some(MarshalFee) <==>
            && codec.unmarshalTx(req.txs[i]).Some?
            && codec.marshalMsgs(codec.unmarshalTx(req.txs[i]).value.messages).Some?
            && codec.marshalFeeJson(codec.unmarshalTx(req.txs[i]).value.fee).None?)
      && (r.err in {Some(DecodeTx), Some(MarshalMsgs), Some(MarshalFee)} <==> !enc)
      && (r.err == Some(IndexBlockEvents) <==> enc && sink == SinkFailed)
      && (r.err == Some(BlockNotFound) <==> enc && sink == BlockNotVisible && key !in t.blocks)
      && (r.err == Some(IndexingTxRequests) <==>
            enc && (sink == BlockIndexed || (sink == BlockNotVisible && key in t.blocks)) && backend.insertFails(i))
      && (r.err.Some? ==> r.tables.txRequests == t.txRequests)
      && (r.err.Some? && (!enc || sink != BlockIndexed) ==> r.tables == t)
      && (r.err.Some? && enc && sink == BlockIndexed ==> r.tables == EnsureBlock(t, key))
      && (r.err.None? ==> r.tables.(txRequests := t.txRequests) == (if sink == BlockIndexed then EnsureBlock(t, key) else t))
      && (r.err.None? ==>
            && enc && key in r.tables.blocks
            && var k := TxKey(r.tables.blocks[key], i);
            && k in r.tables.txRequests
            && r.tables.txRequests ==
                 (if k in t.txRequests then t.txRequests else t.txRequests[k := TxRow(codec, req, i)]))
  {
  }

  /** Indexing one tx deletes and overwrites nothing. */
  lemma IndexTxExtends(t: Tables, chainId: string, req: FinalizeBlockRequest, codec: Codec, backend: Backend, i: nat,
                       r: IndexOutcome)
    requires i < |req.txs|
    requires r == IndexTx(t, chainId, req, codec, backend, i)
    ensures Extends(t, r.tables)
  {
  }

  /** The sink's insert-if-absent gives a new block row the next id, so ids stay distinct and below the counter. */
  lemma EnsureBlockWellFormed(t: Tables, key: BlockKey)
    requires WellFormed(t)
    ensures WellFormed(EnsureBlock(t, key))
  {
    var t1 := EnsureBlock(t, key);
    if key !in t.blocks {
      forall tk | tk in t1.txRequests
        ensures tk.blockId in t1.blocks.Values
      {
        var k :| k in t.blocks && t.blocks[k] == tk.blockId;
        assert t1.blocks[k] == tk.blockId;
      }
    }
  }

  /** A tx row is inserted only under the id of an existing block row. */
  lemma InsertTxRowWellFormed(t: Tables, k: TxKey, row: TxRequestRow, fails: bool)
    requires WellFormed(t)
    requires k.blockId in t.blocks.Values
    ensures WellFormed(InsertTxRow(t, k, row, fails).tables)
  {
  }

  /** Indexing one tx keeps row ids distinct and below the counter, and every tx row attached to a block. */
  lemma IndexTxWellFormed(t: Tables, chainId: string, req: FinalizeBlockRequest, codec: Codec, backend: Backend, i: nat,
                          r: IndexOutcome)
    requires i < |req.txs|
    requires WellFormed(t)
    requires r == IndexTx(t, chainId, req, codec, backend, i)
    ensures WellFormed(r.tables)
  {
    var key := BlockKey(req.height, chainId);
    var sink := backend.indexBlockEvents(i);
    if !Encodes(codec, req.txs[i]) || sink == SinkFailed {
      assert r.tables == t;
    } else {
      var t1 := if sink == BlockIndexed then EnsureBlock(t, key) else t;
      EnsureBlockWellFormed(t, key);
      assert WellFormed(t1);
      if key !in t1.blocks {
        assert r.tables == t;
      } else {
        var k := TxKey(t1.blocks[key], i);
        assert r == InsertTxRow(t1, k, TxRow(codec, req, i), backend.insertFails(i));
        assert t1.blocks[key] in t1.blocks.Values;
        InsertTxRowWellFormed(t1, k, TxRow(codec, req, i), backend.insertFails(i));
      }
    }
  }

  // ---------------------------------------------------------------------------
  // Indexing a block
  // ---------------------------------------------------------------------------

  /**
   * Indexing the rest of a block deletes and overwrites nothing, whether it succeeds or stops
   * at an error: the rows the earlier txs committed survive a later failure.
   */
  lemma {:induction false} IndexTxsFromExtends(t: Tables, chainId: string, req: FinalizeBlockRequest, codec: Codec,
                                               backend: Backend, i: nat)
    requires i <= |req.txs|
    ensures Extends(t, IndexTxsFrom(t, chainId, req, codec, backend, i).tables)
    decreases |req.txs| - i
  {
    if i < |req.txs| {
      var r := IndexTx(t, chainId, req, codec, backend, i);
      IndexTxExtends(t, chainId, req, codec, backend, i, r);
      if r.err.None? {
        IndexTxsFromExtends(r.tables, chainId, req, codec, backend, i + 1);
        ExtendsTransitive(t, r.tables, IndexTxsFrom(r.tables, chainId, req, codec, backend, i + 1).tables);
      }
    }
  }

  /** The tx at position k encodes and has its row under (block row id, k) in f. */
  ghost predicate RowKept(f: Tables, chainId: string, req: FinalizeBlockRequest, codec: Codec, k: nat)
    requires k < |req.txs|
  {
    var key := BlockKey(req.height, chainId);
    Encodes(codec, req.txs[k]) && key in f.blocks && TxKey(f.blocks[key], k) in f.txRequests
  }

  /** A tx indexed without error has its row afterwards. */
  lemma SuccessKeepsRow(t: Tables, chainId: string, req: FinalizeBlockRequest, codec: Codec, backend: Backend, i: nat,
                        r: IndexOutcome)
    requires i < |req.txs|
    requires r == IndexTx(t, chainId, req, codec, backend, i) && r.err.None?
    ensures RowKept(r.tables, chainId, req, codec, i)
  {
    IndexTxOutcome(t, chainId, req, codec, backend, i, r);
  }

  /** A kept row stays kept in any extension of the tables. */
  lemma RowKeptExtends(a: Tables, b: Tables, chainId: string, req: FinalizeBlockRequest, codec: Codec, k: nat)
    requires k < |req.txs|
    requires Extends(a, b) && RowKept(a, chainId, req, codec, k)
    ensures RowKept(b, chainId, req, codec, k)
  {
  }

  /** A failing tx leaves tx_requests as it found it. */
  lemma FailureWritesNoTxRow(t: Tables, chainId: string, req: FinalizeBlockRequest, codec: Codec, backend: Backend, i: nat,
                             r: IndexOutcome)
    requires i < |req.txs|
    requires r == IndexTx(t, chainId, req, codec, backend, i) && r.err.Some?
    ensures r.tables.txRequests == t.txRequests
  {
    IndexTxOutcome(t, chainId, req, codec, backend, i, r);
  }

  /** The txs at positions i up to (not including) j, indexed in order and stopping at the first error. */
  function IndexTxsBetween(t: Tables, chainId: string, req: FinalizeBlockRequest, codec: Codec, backend: Backend,
                           i: nat, j: nat): IndexOutcome
    requires i <= j <= |req.txs|
    decreases j - i
  {
    if i == j then IndexOutcome(t, None)
    else
      var r := IndexTx(t, chainId, req, codec, backend, i);
      if r.err.Some? then r else IndexTxsBetween(r.tables, chainId, req, codec, backend, i + 1, j)
  }

  /** The only tx row a successful tx adds is its own. */
  lemma SuccessAddsOwnRow(t: Tables, chainId: string, req: FinalizeBlockRequest, codec: Codec, backend: Backend, i: nat,
                          r: IndexOutcome)
    requires i < |req.txs|
    requires r == IndexTx(t, chainId, req, codec, backend, i) && r.err.None?
    ensures forall tk :: tk in r.tables.txRequests && tk !in t.txRequests ==> tk.index == i
  {
    IndexTxOutcome(t, chainId, req, codec, backend, i, r);
  }

  /**
   * Indexing from position i stopped at tx j: every tx from i up to j succeeded, leaving tables tj
   * that only extend t; the outcome is tx j's failure on tj, which wrote no tx row; every tx from
   * i up to j keeps its row in the result; and every new row belongs to one of those txs, so
   * nothing after tx j was written.
   */
  ghost predicate StoppedAt(t: Tables, chainId: string, req: FinalizeBlockRequest, codec: Codec, backend: Backend,
                            i: nat, j: nat, tj: Tables)
    requires i <= |req.txs|
  {
    var o := IndexTxsFrom(t, chainId, req, codec, backend, i);
    && i <= j < |req.txs|
    && IndexTxsBetween(t, chainId, req, codec, backend, i, j) == IndexOutcome(tj, None)
    && Extends(t, tj)
    && IndexTx(tj, chainId, req, codec, backend, j) == o
    && o.err.Some?
    && o.tables.txRequests == tj.txRequests
    && (forall k :: i <= k < j ==> RowKept(o.tables, chainId, req, codec, k))
    && (forall tk :: tk in o.tables.txRequests && tk !in t.txRequests ==> i <= tk.index < j)
  }

  /** A tx that fails is where indexing stops. */
  lemma StoppedHere(t: Tables, chainId: string, req: FinalizeBlockRequest, codec: Codec, backend: Backend, i: nat)
    requires i < |req.txs|
    requires IndexTx(t, chainId, req, codec, backend, i).err.Some?
    ensures StoppedAt(t, chainId, req, codec, backend, i, i, t)
  {
    var r := IndexTx(t, chainId, req, codec, backend, i);
    FailureWritesNoTxRow(t, chainId, req, codec, backend, i, r);
    assert r == IndexTxsFrom(t, chainId, req, codec, backend, i);
  }

  /** A tx that succeeds carries a later stop back to its own position, keeping its row. */
  lemma StoppedLater(t: Tables, chainId: string, req: FinalizeBlockRequest, codec: Codec, backend: Backend, i: nat,
                     r: IndexOutcome, j: nat, tj: Tables)
    requires i < |req.txs|
    requires r == IndexTx(t, chainId, req, codec, backend, i) && r.err.None?
    requires StoppedAt(r.tables, chainId, req, codec, backend, i + 1, j, tj)
    ensures StoppedAt(t, chainId, req, codec, backend, i, j, tj)
  {
    var o := IndexTxsFrom(r.tables, chainId, req, codec, backend, i + 1);
    assert o == IndexTxsFrom(t, chainId, req, codec, backend, i);
    IndexTxExtends(t, chainId, req, codec, backend, i, r);
    SuccessKeepsRow(t, chainId, req, codec, backend, i, r);
    IndexTxsFromExtends(r.tables, chainId, req, codec, backend, i + 1);
    RowKeptExtends(r.tables, o.tables, chainId, req, codec, i);
    ExtendsTransitive(t, r.tables, tj);
    SuccessAddsOwnRow(t, chainId, req, codec, backend, i, r);
    assert IndexTxsBetween(t, chainId, req, codec, backend, i, j)
        == IndexTxsBetween(r.tables, chainId, req, codec, backend, i + 1, j);
  }

  /**
   * A failing block stops at the first failing tx j: the txs before j all succeed, and the error
   * and tables are tx j's outcome on the tables they left, which only extend the starting tables;
   * every tx before j keeps its committed row in the final tables (each tx has its own
   * transaction); tx j writes no tx row and no tx after it is indexed, so every new row belongs
   * to a tx before j.
   */
  lemma {:induction false} FailureStopsIndexing(t: Tables, chainId: string, req: FinalizeBlockRequest, codec: Codec,
                                                backend: Backend, i: nat)
    requires i <= |req.txs|
    requires IndexTxsFrom(t, chainId, req, codec, backend, i).err.Some?
    ensures exists j, tj :: StoppedAt(t, chainId, req, codec, backend, i, j, tj)
    decreases |req.txs| - i
  {
    assert i < |req.txs|;
    var r := IndexTx(t, chainId, req, codec, backend, i);
    if r.err.Some? {
      StoppedHere(t, chainId, req, codec, backend, i);
    } else {
      FailureStopsIndexing(r.tables, chainId, req, codec, backend, i + 1);
      var j, tj :| StoppedAt(r.tables, chainId, req, codec, backend, i + 1, j, tj);
      StoppedLater(t, chainId, req, codec, backend, i, r, j, tj);
    }
  }

  /** A block without transactions writes nothing and reports no error. */
  lemma EmptyBlockWritesNothing(t: Tables, chainId: string, req: FinalizeBlockRequest, codec: Codec, backend: Backend)
    requires req.txs == []
    ensures IndexTxsFrom(t, chainId, req, codec, backend, 0) == IndexOutcome(t, None)
  {
  }

  /** Indexing a block, whether it succeeds or stops at an error, keeps the tables well formed. */
  lemma {:induction false} IndexTxsFromWellFormed(t: Tables, chainId: string, req: FinalizeBlockRequest, codec: Codec,
                                                  backend: Backend, i: nat)
    requires i <= |req.txs|
    requires WellFormed(t)
    ensures WellFormed(IndexTxsFrom(t, chainId, req, codec, backend, i).tables)
    decreases |req.txs| - i
  {
    if i < |req.txs| {
      var r := IndexTx(t, chainId, req, codec, backend, i);
      IndexTxWellFormed(t, chainId, req, codec, backend, i, r);
      if r.err.None? {
        IndexTxsFromWellFormed(r.tables, chainId, req, codec, backend, i + 1);
      }
    }
  }

  /**
   * Every tx of the block from position i on decodes and has its row under (block row id,
   * position); every row of f that is not in t is one of them and holds what its tx encodes to.
   */
  ghost predicate IndexedFrom(t: Tables, f: Tables, chainId: string, req: FinalizeBlockRequest, codec: Codec, i: nat)
    requires i <= |req.txs|
  {
    var key := BlockKey(req.height, chainId);
    && (forall j :: i <= j < |req.txs| ==> Encodes(codec, req.txs[j]))
    && (i < |req.txs| ==> key in f.blocks)
    && (i < |req.txs| ==> forall j :: i <= j < |req.txs| ==> TxKey(f.blocks[key], j) in f.txRequests)
    && (forall k :: k in f.txRequests && k !in t.txRequests ==>
          && key in f.blocks && k.blockId == f.blocks[key] && i <= k.index < |req.txs|
          && f.txRequests[k] == TxRow(codec, req, k.index))
  }

  /** A block indexed without error has one row per tx; the new rows hold exactly what the txs encode to. */
  lemma {:induction false} SuccessfulIndexing(t: Tables, chainId: string, req: FinalizeBlockRequest, codec: Codec,
                                              backend: Backend, i: nat)
    requires i <= |req.txs|
    requires IndexTxsFrom(t, chainId, req, codec, backend, i).err.None?
    ensures IndexedFrom(t, IndexTxsFrom(t, chainId, req, codec, backend, i).tables, chainId, req, codec, i)
    decreases |req.txs| - i
  {
    if i < |req.txs| {
      var r := IndexTx(t, chainId, req, codec, backend, i);
      assert r.err.None?;
      SuccessfulIndexing(r.tables, chainId, req, codec, backend, i + 1);
      IndexTxsFromExtends(r.tables, chainId, req, codec, backend, i + 1);
      SuccessfulIndexingStep(t, chainId, req, codec, backend, i, r, IndexTxsFrom(r.tables, chainId, req, codec, backend, i + 1).tables);
    }
  }

  /** The tx at position i indexed without error, followed by the rest of the block, covers the block from i on. */
  lemma SuccessfulIndexingStep(t: Tables, chainId: string, req: FinalizeBlockRequest, codec: Codec,
                               backend: Backend, i: nat, r: IndexOutcome, f: Tables)
    requires i < |req.txs|
    requires r == IndexTx(t, chainId, req, codec, backend, i) && r.err.None?
    requires Extends(r.tables, f)
    requires IndexedFrom(r.tables, f, chainId, req, codec, i + 1)
    ensures IndexedFrom(t, f, chainId, req, codec, i)
  {
    var key := BlockKey(req.height, chainId);
    IndexTxOutcome(t, chainId, req, codec, backend, i, r);
    var p := r.tables;
    assert f.blocks[key] == p.blocks[key];
    assert TxKey(p.blocks[key], i) in p.txRequests;
    forall j | i <= j < |req.txs|
      ensures Encodes(codec, req.txs[j]) && TxKey(f.blocks[key], j) in f.txRequests
    {
    }
    forall k | k in f.txRequests && k !in t.txRequests
      ensures key in f.blocks && k.blockId == f.blocks[key] && i <= k.index < |req.txs|
      ensures f.txRequests[k] == TxRow(codec, req, k.index)
    {
      if k in p.txRequests {
        assert f.txRequests[k] == p.txRequests[k];
      }
    }
  }

  /** The tx at position i decodes, its block row and tx row are present, and the store does not fail for it. */
  ghost predicate Replayable(f: Tables, chainId: string, req: FinalizeBlockRequest, codec: Codec, backend: Backend, i: nat)
    requires i < |req.txs|
  {
    var key := BlockKey(req.height, chainId);
    && Encodes(codec, req.txs[i])
    && key in f.blocks && TxKey(f.blocks[key], i) in f.txRequests
    && backend.indexBlockEvents(i) != SinkFailed && !backend.insertFails(i)
  }

  /** Replaying an indexed block changes nothing when every row it needs is already there. */
  lemma {:induction false} ReplayIsNoOp(f: Tables, chainId: string, req: FinalizeBlockRequest, codec: Codec,
                                        backend: Backend, i: nat)
    requires i <= |req.txs|
    requires forall j :: i <= j < |req.txs| ==> Replayable(f, chainId, req, codec, backend, j)
    ensures IndexTxsFrom(f, chainId, req, codec, backend, i) == IndexOutcome(f, None)
    decreases |req.txs| - i
  {
    if i < |req.txs| {
      assert Replayable(f, chainId, req, codec, backend, i);
      ReplayTxIsNoOp(f, chainId, req, codec, backend, i, IndexTx(f, chainId, req, codec, backend, i));
      ReplayIsNoOp(f, chainId, req, codec, backend, i + 1);
    }
  }

  /** A tx whose block row and tx row are both present is indexed again without any change. */
  lemma ReplayTxIsNoOp(f: Tables, chainId: string, req: FinalizeBlockRequest, codec: Codec, backend: Backend, i: nat,
                       r: IndexOutcome)
    requires i < |req.txs|
    requires Encodes(codec, req.txs[i])
    requires BlockKey(req.height, chainId) in f.blocks
    requires TxKey(f.blocks[BlockKey(req.height, chainId)], i) in f.txRequests
    requires backend.indexBlockEvents(i) != SinkFailed && !backend.insertFails(i)
    requires r == IndexTx(f, chainId, req, codec, backend, i)
    ensures r == IndexOutcome(f, None)
  {
  }

  /**
   * Re-indexing a block that was indexed without error, with a store that does not fail,
   * succeeds and changes nothing: the sink's block insert and the tx insert both find
   * their rows and do nothing.
   */
  lemma ReindexingIsIdempotent(t: Tables, chainId: string, req: FinalizeBlockRequest, codec: Codec,
                               first: Backend, again: Backend)
    requires IndexTxsFrom(t, chainId, req, codec, first, 0).err.None?
    requires forall i :: 0 <= i < |req.txs| ==> again.indexBlockEvents(i) != SinkFailed && !again.insertFails(i)
    ensures var f := IndexTxsFrom(t, chainId, req, codec, first, 0).tables;
      IndexTxsFrom(f, chainId, req, codec, again, 0) == IndexOutcome(f, None)
  {
    var f := IndexTxsFrom(t, chainId, req, codec, first, 0).tables;
    SuccessfulIndexing(t, chainId, req, codec, first, 0);
    forall i | 0 <= i < |req.txs|
      ensures Replayable(f, chainId, req, codec, again, i)
    {
    }
    ReplayIsNoOp(f, chainId, req, codec, again, 0);
  }

  // ---------------------------------------------------------------------------
  // Searching
  // ---------------------------------------------------------------------------

  /** Decoding is all or nothing: every row decodes, in order, or the first failing row's error is returned. */
  lemma {:induction false} DecodeRowsAllOrNothing(rows: seq<Option<Row>>, codec: Codec)
    ensures DecodeRows(rows, codec).Ok? <==> forall i :: 0 <= i < |rows| ==> DecodeRow(rows[i], codec).Ok?
    ensures DecodeRows(rows, codec).Ok? ==>
      && |DecodeRows(rows, codec).value| == |rows|
      && forall i :: 0 <= i < |rows| ==> DecodeRows(rows, codec).value[i] == DecodeRow(rows[i], codec).value
    ensures DecodeRows(rows, codec).Err? ==>
      exists j :: 0 <= j < |rows| && DecodeRow(rows[j], codec) == Err(DecodeRows(rows, codec).error)
        && forall i :: 0 <= i < j ==> DecodeRow(rows[i], codec).Ok?
  {
    if rows != [] {
      var init := rows[..|rows| - 1];
      DecodeRowsAllOrNothing(init, codec);
      assert forall i :: 0 <= i < |init| ==> init[i] == rows[i];
      var last := |rows| - 1;
      if DecodeRows(init, codec).Err? {
        var j :| 0 <= j < |init| && DecodeRow(init[j], codec) == Err(DecodeRows(init, codec).error)
          && forall i :: 0 <= i < j ==> DecodeRow(init[i], codec).Ok?;
        assert DecodeRow(rows[j], codec) == Err(DecodeRows(rows, codec).error);
      } else if DecodeRow(rows[last], codec).Err? {
        assert DecodeRow(rows[last], codec) == Err(DecodeRows(rows, codec).error);
      }
    }
  }

  /**
   * The search returns the decoded rows of the compiled query, at most the clamped limit of
   * them and in the query's order, with count equal to their number; or, when the chain has
   * no block to paginate from or any row fails to scan or decode, nothing and count 0.
   */
  lemma SearchMeaning(t: Tables, info: HeightInfo, conditions: seq<Condition>, rangeIndexes: seq<int>, limit: uint16,
                      matching: Query -> seq<Option<Row>>, codec: Codec)
    ensures var s := Search(t, info, conditions, rangeIndexes, limit, matching, codec);
      var c := CompileSearch(info, conditions, rangeIndexes, LatestHeight(t.blocks), limit);
      && (s.err.Some? ==> s.responses == [] && s.count == 0)
      && (c.Err? <==> s.err == Some(FindingBlockHeight) && c == Err(FindingBlockHeight))
      && (c.Ok? ==>
            var rows := Take(matching(c.value), EffectiveLimit(limit));
            && (s.err.None? <==> forall i :: 0 <= i < |rows| ==> DecodeRow(rows[i], codec).Ok?)
            && (s.err.None? ==>
                  && s.count == |s.responses| == |rows| <= EffectiveLimit(limit)
                  && forall i :: 0 <= i < |rows| ==> s.responses[i] == DecodeRow(rows[i], codec).value))
  {
    var c := CompileSearch(info, conditions, rangeIndexes, LatestHeight(t.blocks), limit);
    if c.Ok? {
      DecodeRowsAllOrNothing(Take(matching(c.value), EffectiveLimit(limit)), codec);
    }
  }

  /** The search fails before querying exactly when the filter names no height and no block has been indexed. */
  lemma SearchNeedsHeightOrBlock(t: Tables, info: HeightInfo, conditions: seq<Condition>, rangeIndexes: seq<int>, limit: uint16)
    ensures CompileSearch(info, conditions, rangeIndexes, LatestHeight(t.blocks), limit).Err? <==>
      !IsHeightRangeNotEmpty(info.heightRange) && info.height == 0 && t.blocks == map[]
  {
    HeightWhereShape(info);
  }

  /** Without a height filter the query is paginated from the latest indexed block height. */
  lemma CursorFromLatestBlock(t: Tables, info: HeightInfo, conditions: seq<Condition>, rangeIndexes: seq<int>, limit: uint16)
    requires !IsHeightRangeNotEmpty(info.heightRange) && info.height == 0
    requires t.blocks != map[]
    ensures var c := CompileSearch(info, conditions, rangeIndexes, LatestHeight(t.blocks), limit);
      && c.Ok? && c.value.args == []
      && exists k :: k in t.blocks && c.value.whereClause == "WHERE height <= " + IntToDecimal(k.height)
           && forall k' :: k' in t.blocks ==> k'.height <= k.height
  {
    HeightWhereShape(info);
    var tip := LatestHeight(t.blocks);
    var k :| k in t.blocks && k.height == tip.value;
  }

  /** The non-height conditions of the query do not change what is searched (the filter is not implemented). */
  lemma NonHeightConditionsIgnored(t: Tables, info: HeightInfo, limit: uint16, matching: Query -> seq<Option<Row>>, codec: Codec,
                                   conditions: seq<Condition>, rangeIndexes: seq<int>,
                                   conditions': seq<Condition>, rangeIndexes': seq<int>)
    ensures Search(t, info, conditions, rangeIndexes, limit, matching, codec)
         == Search(t, info, conditions', rangeIndexes', limit, matching, codec)
  {
  }

  // ---------------------------------------------------------------------------
  // What is stored is what is returned
  // ---------------------------------------------------------------------------

  /** The row the final select scans: height, time, hash and result from `tx_results`, the rest from `tx_requests`. */
  function Scanned(stored: TxRequestRow, height: int, createdAt: int, txHash: string, txResult: seq<byte>): Row
  {
    Row(height, createdAt, txHash, stored.messages, stored.memo, stored.fee, txResult)
  }

  /**
   * When the message and fee encodings round-trip, a tx request row written for a tx decodes
   * back to that tx's messages, memo and fee, and its stored hash parses back to the digest.
   */
  lemma StoredRowRoundTrip(codec: Codec, req: FinalizeBlockRequest, i: nat,
                           height: int, createdAt: int, txHash: string, txResult: seq<byte>, res: ExecTxResult)
    requires i < |req.txs| && Encodes(codec, req.txs[i])
    requires var tx := codec.unmarshalTx(req.txs[i]).value;
      && codec.unmarshalMsgs(codec.marshalMsgs(tx.messages).value) == Some(tx.messages)
      && codec.unmarshalFeeJson(codec.marshalFeeJson(tx.fee).value) == Some(tx.fee)
    requires codec.unmarshalTxResult(txResult) == Some(res)
    ensures var tx := codec.unmarshalTx(req.txs[i]).value;
      var r := DecodeRow(Some(Scanned(TxRow(codec, req, i), height, createdAt, txHash, txResult)), codec);
      && r.Ok?
      && r.value.tx == tx
      && r.value.txResponse.height == height && r.value.txResponse.txHash == txHash
      && r.value.txResponse.code == res.code && r.value.txResponse.rawLog == res.log
      && r.value.txResponse.events == res.events
    ensures ParseUpperHex(TxRow(codec, req, i).txHash) == Some(codec.txHash(req.txs[i]))
  {
    UpperHexRoundTrip(codec.txHash(req.txs[i]));
  }
}
