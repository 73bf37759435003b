# bignftd tx module indexer and EVM store keys, in Dafny

This project models two parts of the chain node.

**The tx module indexer** (`indexer/x/tx/indexer.go`) runs on each finalized block. For every
transaction of the block, in order, it does the following:

1. It decodes the transaction, marshals its messages and fee, and renders its hash as upper-case hex.
2. It asks the primary event sink to make sure the block row exists. That write is committed on its own.
3. In a transaction of its own, it looks up the block row id and inserts a `tx_requests` row keyed by
   (block id, position in the block) with `ON CONFLICT DO NOTHING`.

The first failure is returned at once. The rows of the earlier transactions stay committed.

A search works in four steps:

1. It compiles the height filter into a `WHERE` clause with numbered placeholders. A range wins
   over an equality, and an equality on a nonzero height wins over nothing.
2. Without a height filter, it falls back to a cursor bounded by the latest block height.
3. It ignores the non-height conditions and clamps the limit to 5000.
4. It decodes every returned row. Any scan or decode failure yields no responses and count 0.
   An error that ends the row iteration itself is not reported (see "## Left out").

The model has these modules:

- `QueryCompiler` holds the height-filter compiler:
  - a structured clause (`HeightWhere`) and its rendered text (`Render`);
  - the appending method and the counting method the indexer runs;
  - what the clause means for a height (`ClauseAdmits`).
- `TxIndexer` holds the tables as maps, and the insert and search paths as specification functions.
  - The codecs and the digest are foreign. They are the function-typed fields of `Codec`.
  - The outcome of the foreign store calls that can fail on their own is the `Backend` oracle.
  - The `matching` oracle gives the database's final rows for a query, its `LIMIT` included, as `Next` yields them.
- `TxIndexerFacts` holds what those functions guarantee. Indexing only adds rows and keeps the
  tables well formed. A successful block has a row for every transaction, and every new row holds
  exactly the encoded contents (an existing row is kept as it is, by `ON CONFLICT DO NOTHING`). Re-indexing a block is a no-op. A search is all or nothing with respect to scan and decode failures.
- `TxSink` is the `TxEventSink` object. Its tables are fields, and its methods are proved equal to
  the specification functions.
- `Bytes` is the `%X` rendering of the digest, and the parser that inverts it.
- `EvmKeys` holds the EVM module's store-key prefixes and key builders (`x/evm/types/key.go`). Each
  builder has a parser, and the proofs give round trips, injectivity and disjoint key families.
  - `common.Address` is exactly 20 bytes.
  - The SDK's `MustLengthPrefix` is modelled as follows. An empty input is returned as it is. Any
    other input gets its length as a leading byte. Inputs longer than 255 bytes are excluded by a
    precondition, because the SDK panics on them.

## Model

| member | source | states |
|---|---|---|
| QueryCompiler.BoundToInt64Meaning | indexer/x/tx/indexer.go:302 | a bound becomes an int64 by truncation toward zero, saturating outside the int64 range and never failing; an integral in-range bound is kept exactly |
| QueryCompiler.IsHeightRangeNotEmpty | indexer/x/tx/indexer.go:265-267 | a range counts as given exactly when at least one of its bounds is present |
| QueryCompiler.RangeBounds | indexer/x/tx/indexer.go:295-315 | at most two bounds; the lower bound (>= when inclusive, else >) comes before the upper bound (<= when inclusive, else <); each value is the int64 conversion of the bound |
| QueryCompiler.DetectQueryRangeBound | indexer/x/tx/indexer.go:295-315 | the appended operators and values are, position by position, exactly the bounds of RangeBounds |
| QueryCompiler.CreateHeightRangeWhereConditions | indexer/x/tx/indexer.go:238-263 | the text built by the counting loop is the rendering of the structured clause; the values and the placeholder counter are those of HeightWhere |
| QueryCompiler.EqualityClauseText | indexer/x/tx/indexer.go:260 | the equality branch's format string renders the one-comparison clause `WHERE height = $1` |
| QueryCompiler.HeightWhereShape | indexer/x/tx/indexer.go:238-263 | placeholders are numbered from $1 with one value each; a range yields a `WHERE` clause with counter 1 + number of bounds; a nonzero height alone yields `height = $1` with its height and counter 1; otherwise the clause is empty, with no values and counter 0 |
| QueryCompiler.LowerBoundExact | indexer/x/tx/indexer.go:296-303 | for an exact lower bound, the compiled comparison holds for a height iff the query's bound does |
| QueryCompiler.UpperBoundExact | indexer/x/tx/indexer.go:305-312 | for an exact upper bound, the compiled comparison holds for a height iff the query's bound does |
| QueryCompiler.RangeClauseExact | indexer/x/tx/indexer.go:241-256 | a height satisfies every comparison of a compiled range iff it lies in the range |
| QueryCompiler.TruncatedRangeClause | indexer/x/tx/indexer.go:295-315 | for any range, a height satisfies the compiled comparisons iff it lies in the range with each bound converted to int64; an exact range is its own conversion |
| QueryCompiler.CompiledClauseMeaning | indexer/x/tx/indexer.go:238-263 | for every input, a height satisfies the compiled clause iff it satisfies the height info with its bounds converted to int64; exact bounds are left as they are; when a range and an equality are both present the range decides alone |
| QueryCompiler.FractionalBoundIsTruncated | indexer/x/tx/indexer.go:302 | a fractional bound is truncated: `height >= 1.5` compiles to `height >= $1` with value 1, which admits height 1 |
| QueryCompiler.CursorPaginationCondition | indexer/x/tx/indexer.go:269-288 | a non-empty clause passes through; an empty one becomes `WHERE height <= tip`; no tip is the "finding block height" error |
| QueryCompiler.CursorPaginationIdempotent | indexer/x/tx/indexer.go:269-272 | applying the cursor fallback to its own output changes nothing, whatever the tip |
| QueryCompiler.CreateNonHeightConditionFilterTable | indexer/x/tx/indexer.go:290-293 | the non-height filter is always the empty clause with no arguments |
| QueryCompiler.EffectiveLimit | indexer/x/tx/indexer.go:166 | the query's limit is the caller's limit clamped to TxSearchLimit (5000) |
| Bytes.UpperHexShape | indexer/x/tx/indexer.go:60 | the hash text has two characters per digest byte, each an upper-case hex digit |
| Bytes.UpperHexRoundTrip | indexer/x/tx/indexer.go:60 | parsing the hash text gives back the digest |
| Bytes.UpperHexInjective | indexer/x/tx/indexer.go:60 | distinct digests never share a hash text |
| TxIndexer.LatestHeight | indexer/x/tx/indexer.go:278-282 | no height exactly when there is no block row; otherwise the height of some block row, and no block row is higher |
| TxIndexer.Take | indexer/x/tx/indexer.go:122-166 | the rows read are a prefix of the database's final rows, at most the clamped limit of them, and all of them when there are fewer; the database's rows already meet this bound, so it only makes the count bound explicit |
| TxIndexer.DecodeErrorIsFinal | indexer/x/tx/indexer.go:190-205 | once a row fails to scan or decode, the search's decode result is that failure whatever rows follow |
| TxIndexer.DecodeRowsLength | indexer/x/tx/indexer.go:180-213 | a successful decode yields one response per row |
| TxIndexerFacts.IndexTxOutcome | indexer/x/tx/indexer.go:45-95 | for one tx, which error comes from which failing step, as an iff for each error: DecodeTx iff the tx does not decode, MarshalMsgs iff it decodes and its messages do not marshal, MarshalFee iff both succeed and its fee does not marshal, and likewise for the sink, block lookup and insert errors; a failure leaves tx_requests unchanged and keeps only a block row the sink committed; success changes blocks exactly as the sink's insert-if-absent does (or not at all when the sink wrote nothing) and leaves the tx's row under (block id, position), new rows holding the encoded tx |
| TxIndexerFacts.IndexTxExtends | indexer/x/tx/indexer.go:61-93 | indexing one tx deletes and overwrites no block row and no tx row |
| TxIndexerFacts.EnsureBlockWellFormed | indexer/x/tx/indexer.go:64 | the sink's insert-if-absent keeps block row ids distinct and below the counter |
| TxIndexerFacts.InsertTxRowWellFormed | indexer/x/tx/indexer.go:80-90 | a tx row inserted under an existing block row's id keeps the tables well formed |
| TxIndexerFacts.IndexTxWellFormed | indexer/x/tx/indexer.go:61-93 | indexing one tx keeps row ids distinct and below the counter and every tx row attached to a block row |
| TxIndexerFacts.IndexTxsFromExtends | indexer/x/tx/indexer.go:45-97 | indexing a block, whether it succeeds or stops at an error, deletes and overwrites no row that existed before the block |
| TxIndexerFacts.FailureStopsIndexing | indexer/x/tx/indexer.go:45-97 | a failing block stops at some tx j: every tx before j indexed without error, leaving tables that only extend the starting ones, and the outcome is tx j's failure on those tables; every tx before j decoded and keeps its committed row in the final tables, so a later failure does not roll the earlier txs back; tx j wrote no tx row, and every new row belongs to a tx before j, so nothing after tx j is written |
| TxIndexerFacts.EmptyBlockWritesNothing | indexer/x/tx/indexer.go:45-97 | a block without txs writes nothing and returns no error |
| TxIndexerFacts.IndexTxsFromWellFormed | indexer/x/tx/indexer.go:45-97 | indexing a block keeps the tables well formed, whether it succeeds or fails |
| TxIndexerFacts.SuccessfulIndexing | indexer/x/tx/indexer.go:45-97 | after a block indexed without error, every tx decoded and has a row under (block row id, position), and every new row is one of them and holds that tx's height, time, hex hash, messages, fee and memo |
| TxIndexerFacts.ReplayTxIsNoOp | indexer/x/tx/indexer.go:80-88 | a tx whose block row and tx row already exist is indexed again as a success with no change |
| TxIndexerFacts.ReplayIsNoOp | indexer/x/tx/indexer.go:45-97 | replaying txs whose rows all exist, with a store that does not fail, succeeds and changes nothing |
| TxIndexerFacts.ReindexingIsIdempotent | indexer/x/tx/indexer.go:42-98 | re-indexing a block that was indexed without error, with a store that does not fail, succeeds and leaves the tables unchanged |
| TxIndexerFacts.DecodeRowsAllOrNothing | indexer/x/tx/indexer.go:175-216 | decoding succeeds iff every row decodes, with the responses in row order; otherwise the error is that of the first row that fails |
| TxIndexerFacts.SearchMeaning | indexer/x/tx/indexer.go:101-220 | a failed search has no responses and count 0; it fails before querying only for "finding block height"; otherwise it succeeds iff every limited row decodes, with count equal to the number of responses and rows, at most the clamped limit, in row order |
| TxIndexerFacts.SearchNeedsHeightOrBlock | indexer/x/tx/indexer.go:116-120 | the search stops before querying exactly when the query has no height range, no nonzero equality height and no block row |
| TxIndexerFacts.CursorFromLatestBlock | indexer/x/tx/indexer.go:269-288 | without a height filter, the query is paginated as `WHERE height <= h` with h the highest block height and no arguments |
| TxIndexerFacts.NonHeightConditionsIgnored | indexer/x/tx/indexer.go:121 | a search's outcome does not depend on its non-height conditions |
| TxIndexerFacts.StoredRowRoundTrip | indexer/x/tx/indexer.go:190-213 | when the message and fee encodings round-trip, a stored tx row decodes back to the tx's messages, memo and fee, and its hash text parses back to the digest |
| TxSink.TxEventSink.constructor | indexer/x/tx/indexer.go:38-40 | a new sink wraps the primary sink's existing, well-formed tables unchanged, with its chain id and codecs |
| TxSink.TxEventSink.EnsureBlockRow | indexer/x/tx/indexer.go:64 | the sink's block write inserts the block row only if it is absent, with the next row id |
| TxSink.TxEventSink.IndexTxAt | indexer/x/tx/indexer.go:46-95 | the new tables and the error are exactly IndexTx of the old tables |
| TxSink.TxEventSink.IndexBlockTxs | indexer/x/tx/indexer.go:45-97 | the loop's final tables and error are exactly IndexTxsFrom of the old tables from position 0 |
| TxSink.TxEventSink.InsertModuleEvents | indexer/x/tx/indexer.go:42-98 | the new tables and the error are IndexTxsFrom of the old tables, and the tables stay well formed |
| TxSink.TxEventSink.DecodeScannedRows | indexer/x/tx/indexer.go:175-214 | the counting loop returns every decoded row, with count equal to the number of rows; otherwise it returns the first failing row's error, no responses and count 0 |
| TxSink.TxEventSink.SearchTxs | indexer/x/tx/indexer.go:101-220 | responses, count and error are exactly Search on the current tables; an error comes with no responses and count 0; success has count equal to the number of responses, at most the clamped limit |
| EvmKeys.LengthPrefix | x/evm/types/key.go:74 | the SDK's length prefixing fails exactly on inputs longer than 255 bytes; it returns an empty input unchanged and otherwise adds one length byte |
| EvmKeys.LengthPrefixRoundTrip | x/evm/types/key.go:74 | length prefixing is undone by the parser, and whatever the parser accepts is the prefixing of its result |
| EvmKeys.AddressStoragePrefix | x/evm/types/key.go:63-65 | the storage prefix of an account is 21 bytes: the storage prefix byte 2, then the address |
| EvmKeys.StateKey | x/evm/types/key.go:68-70 | a state key is the account's storage prefix followed by the slot key, of length 21 + the slot key's length |
| EvmKeys.EvmAddressMappingStoreKey | x/evm/types/key.go:73-75 | the EVM-mapping key starts with prefix byte 5 and has length 2 + the address length (1 for an empty address) |
| EvmKeys.CosmosAddressMappingStoreKey | x/evm/types/key.go:78-80 | the Cosmos-mapping key is 22 bytes: prefix byte 6, length byte 20, then the EVM address |
| EvmKeys.StateKeyRoundTrip | x/evm/types/key.go:68-70 | a state key parses back to its account and slot key, and whatever parses is the state key of its parts |
| EvmKeys.EvmAddressMappingRoundTrip | x/evm/types/key.go:73-75 | an EVM-mapping key parses back to its cosmos address, and whatever parses is the key of that address |
| EvmKeys.CosmosAddressMappingRoundTrip | x/evm/types/key.go:78-80 | a Cosmos-mapping key parses back to its EVM address, and whatever parses is the key of that address |
| EvmKeys.StateKeyInjective | x/evm/types/key.go:63-70 | two state keys are equal iff their accounts and slot keys are |
| EvmKeys.EvmAddressMappingInjective | x/evm/types/key.go:73-75 | two EVM-mapping keys are equal iff their cosmos addresses are, whatever their lengths |
| EvmKeys.CosmosAddressMappingInjective | x/evm/types/key.go:78-80 | two Cosmos-mapping keys are equal iff their EVM addresses are |
| EvmKeys.PrefixesDistinct | x/evm/types/key.go:27-60 | the code and storage prefixes differ, and the six transient-store and mapping prefixes are pairwise distinct |
| EvmKeys.StoragePrefixSelectsAccount | x/evm/types/key.go:62-70 | a key starts with an account's storage prefix iff it parses as a state key of that account |
| EvmKeys.KeyFamiliesDisjoint | x/evm/types/key.go:56-80 | state keys, EVM-mapping keys and Cosmos-mapping keys never coincide, and no key of one family parses as another's |

## Left out

- SQL execution is not modelled. This covers transactions, isolation, concurrency, the query's CTE and
  joins, and its ordering by tx row id. The rows the query returns, in the database's order, come
  from the `matching` oracle. The model applies the limit to those final rows (`Take`).
- The query applies its `LIMIT` elsewhere: at indexer.go:128, inside the `filtered_heights` CTE. That
  comes before the inner joins with events and attributes (138-139) and with tx_requests (160-164).
  So the database can return fewer than min(limit, matches) rows, and it never returns a tx without
  event attributes. `Take` only bounds the count of the oracle's rows, which already reflect that.
- A failing `dbtx.Query` or a failing commit of the search transaction is not modelled. The search
  errors modelled are the missing block height, a failed scan and a failed decode.
- TxIndexerFacts.IndexTxsFromExtends: states only that rows present before the block survive.
  `FailureStopsIndexing` states that the rows of earlier txs of the same block survive a later failure.
- The source never calls `row.Err()` (indexer.go:175-179). An error that makes `row.Next()` return
  false ends the loop, and `SearchTxs` then returns the rows decoded so far, their count and no error.
  The model does not capture that error. The `matching` oracle's rows stand for what `Next` yields.
- The primary sink's `IndexBlockEvents` and the SQL driver are foreign. Their outcome for each tx comes
  from the `Backend` oracle: a block row written or found, success without a visible row, or failure.
  The same oracle says whether the insert fails with a database error.
- The codecs (protobuf and JSON marshalling of the tx, messages, fee and tx result) and the SHA-256
  digest are foreign. They are parameters in `Codec`.
- The parsing of the query is foreign and not modelled. This covers `kv.DedupHeight`,
  `LookForRangesWithHeight` and `SetheightRange`. A search takes their output as a `HeightInfo`, the
  conditions and the range indexes. The parsed `ranges` value, which is passed only to the
  unimplemented filter, is left out.
- Query bounds are reals. `big.Float`'s infinities and its accuracy result are not modelled. The
  conversion truncates toward zero and saturates at the int64 range.
- `big.Float.Int64`'s accuracy result is discarded (indexer.go:302, 311). So a fractional bound is
  truncated, not rejected, and the model follows the code (`FractionalBoundIsTruncated`,
  `CompiledClauseMeaning`).
- A bound that is not a `*big.Float` is not modelled. Lines 302 and 311 assert the type without the
  comma-ok form, so such a bound makes `SearchTxs` panic. An example is a height compared with a
  DATE or TIME literal. Every model bound is a number, so this panic path cannot be expressed.
- The following are left out:
  - the debug logging;
  - `res.Events`, which the indexer passes to the sink but does not use itself;
  - the block row's own columns other than (height, chain id) and its row id;
  - the trivial accessors `EmitModuleEvents`, `ModuleName`, `EventSink` and `EncodingConfig`.
- `count` is a `nat` rather than a `uint64`. It never exceeds the clamped limit of 5000, so no
  overflow can occur.
- EvmKeys.MustLengthPrefix: the SDK panics on inputs over 255 bytes. The model states this as a precondition.
- `common.Address.Bytes()` is modelled as the 20-byte `Address` itself.
- `KeyPrefixCode` and the transient-store prefixes have no key builder in this file. They are
  modelled only as constants.
