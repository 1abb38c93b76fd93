# TDengine storage core, modelled in Dafny

This project models three sequential pieces of TDengine's storage engine and
proves what they promise.

- **The time-series commit** (`tsdbCommit.c`).
  - The live path:
    - the freeze of the active memory table (`mem` becomes `imem`);
    - the early exit when the frozen table holds no row;
    - the merge-join of in-memory tables against the block index of a file
      set, both sorted by (super table uid, uid).
  - The complete legacy committer (the `#if 0` part of the same file):
    - choosing the next file id;
    - the key-against-block comparison;
    - the two sorted-stream readers:
      - `tsdbLoadDataFromCache` counts inserts, updates and deletes of
        memory rows against a block's keys;
      - `tsdbLoadAndMergeFromCache` interleaves disk rows with memory rows;
    - the sub-block test;
    - the per-table walk that moves, merges or writes blocks;
    - the super/sub-block arrays;
    - column selection and block metadata;
    - the block-info and block-index records.
- **The metadata caches** (`metaCache.c`).
  - Two bucketed hash tables with separate chaining: the table-entry cache
    (base 1024 buckets) and the super-table statistics cache (base 16).
  - Both double when the load reaches one and halve when it falls below a
    quarter.
  - The model is a generic class over an array of chains with a ghost map of
    its contents.
- **The key-value store file** (`tkvstore.c`).
  - The file is a 512-byte header followed by a log of record descriptors and
    values.
  - Drops append tombstones whose offset is the negated offset of the record
    they remove.
  - Opening the store resolves a `.snap` sidecar left by an interrupted
    commit, then replays the log into the uid index and the header counters.

Modules:

| module | file | contents |
|---|---|---|
| `Wrappers` | `wrappers.dfy` | `Option` |
| `KvCodec` | `kv_codec.dfy` | the 24-byte record descriptor codec |
| `KvStore` | `kv_store.dfy` | sidecar names, header, recovery, replay, the `KVStore` class |
| `KvFindings` | `kv_findings.dfy` | the key-value store as written, where it differs |
| `MetaCache` | `meta_cache.dfy` | `ChainedCache<V>`, and `MetaCache` holding both caches |
| `TsdbLive` | `tsdb_live.dfy` | the live commit path |
| `TsdbRules` | `tsdb_rules.dfy` | rows, blocks, configuration; pure decision rules |
| `TsdbLoad` | `tsdb_load.dfy` | the counting reader |
| `TsdbLoadFindings` | `tsdb_load_findings.dfy` | the counting reader as written |
| `TsdbMerge` | `tsdb_merge.dfy` | `Interleave` and `Fold`, the reference merge |
| `TsdbMergeCache` | `tsdb_merge_cache.dfy` | the merging reader, plus its as-written break |
| `TsdbBlock` | `tsdb_block.dfy` | column selection, new-block metadata, block-info layout |
| `TsdbCommit` | `tsdb_commit.dfy` | the `Committer` class with the per-table walk |

How the model stands in for the code:

- A row is `Row(key, deleted, payload)`. A block is its metadata record.
- Each disk block's rows and the block-info array read from the head file
  are parameters (`OldTable`).
- The committer's `aSupBlk`, `aSubBlk` and `aBlkIdx` arrays are `seq` fields
  that its methods reassign.
- So are the bytes it would append to the three files:
  - `writtenRows` holds the rows;
  - `dataEnd`, `lastEnd` and `headEnd` hold the file ends.

Where the code and the documented behaviour differ, the model follows the
code:

- Opening the key-value store resets the size counter to the header size and
  rebuilds every counter by replay; the counters saved in the header are only
  checked, not used (`tkvstore.c:139-143`).
- In the legacy join of tables against the block index, the condition is
  replaced by the live (super table uid, uid) order.

## Model

| member | source | states |
|---|---|---|
| KvCodec.EncodeKVRecord | src/util/src/tkvstore.c:452-459 | a record descriptor is always exactly 24 bytes (uid, offset, size) |
| KvCodec.DecodeKVRecord | src/util/src/tkvstore.c:461-467 | any 24 bytes decode to a descriptor whose fields fit their 64-bit types |
| KvCodec.DecodeEncodeKVRecord | src/util/src/tkvstore.c:452-467 | decoding what encode wrote gives the record back, whatever bytes follow it in the buffer |
| KvCodec.EncodeDecodeKVRecord | src/util/src/tkvstore.c:452-467 | re-encoding a decoded descriptor reproduces the 24 bytes it was read from, so decoding consumes exactly one descriptor |
| KvCodec.DecodeEncodeLE | src/util/src/tkvstore.c:452-467 | an unsigned value below 256^k survives a k-byte little-endian encoding |
| KvCodec.EncodeDecodeLE | src/util/src/tkvstore.c:452-467 | every k-byte field is the encoding of the value it decodes to |
| KvCodec.SignedRoundTrip | src/util/src/tkvstore.c:452-467 | a negative tombstone offset survives its reinterpretation as an unsigned 64-bit field |
| KvCodec.UnsignedRoundTrip | src/util/src/tkvstore.c:452-467 | every 64-bit pattern read back as signed and rewritten is unchanged |
| KvStore.SnapshotFname | src/util/src/tkvstore.c:430-439 | the sidecar name is the file name followed by ".snap" |
| KvStore.NewFname | src/util/src/tkvstore.c:441-450 | the new-file name is the file name followed by ".new" |
| KvStore.SidecarNamesDistinct | src/util/src/tkvstore.c:430-450 | the sidecar names never equal each other or the file itself, and each determines the file name |
| KvStore.LoadHeader | src/util/src/tkvstore.c:309-333 | a header loads exactly when it is sealed, giving its counters; a corrupted one fails with FileCorrupted |
| KvStore.ResizeBody | src/util/src/tkvstore.c:121-125 | truncating to the saved size keeps a prefix of the body, and extending it keeps the whole body followed by zeros |
| KvStore.Recover | src/util/src/tkvstore.c:109-137 | without a sidecar, or with a corrupted one, the file stays as it is; a sealed sidecar makes the body its saved size and its header the file's; a failure keeps the sidecar, and a success removes it |
| KvStore.PutKeepsCount | src/util/src/tkvstore.c:499-516 | replaying a put maps its uid to the record, leaves every other uid alone and keeps nRecords equal to the index size |
| KvStore.TombstoneKeepsCount | src/util/src/tkvstore.c:493-498 | replaying a tombstone removes its uid and keeps nRecords equal to the index size |
| KvStore.ReplaySize | src/util/src/tkvstore.c:479-518 | after replay the size counter is the header size plus every descriptor and value in the log |
| KvStore.SerializedAppend | src/util/src/tkvstore.c:224-284 | appending a descriptor (with its value, for a put) to a serialized log gives the serialized longer log |
| KvStore.SerializedPrefix | src/util/src/tkvstore.c:479-518 | every prefix of a serialized log is serialized in the matching prefix of the bytes |
| KvStore.RestoreFollowsLog | src/util/src/tkvstore.c:479-518 | replay resumed at any record boundary finishes in the state of the whole log |
| KvStore.RestoreReplays | src/util/src/tkvstore.c:479-518 | replay of a serialized log from the start yields the fold of the log |
| KvStore.RestoreReaches | src/util/src/tkvstore.c:479-518 | replay reaches the start of each record in the state of the records before it, as long as none of them puts an empty value |
| KvStore.EmptyValueStopsReplay | src/util/src/tkvstore.c:499-500 | a serialized log holding a put of an empty value fails replay with the assertion error, at the first such put |
| KvStore.Restore | src/util/src/tkvstore.c:479-518 | the replay loop computes the reference replay, and on any serialized log it gives that log's state |
| KvStore.Open | src/util/src/tkvstore.c:96-161 | open is recovery followed by replay; a failed recovery fails the open and keeps the sidecar; a corrupted file with no usable sidecar fails with FileCorrupted; otherwise the sidecar is gone |
| KvStore.AppendPut | src/util/src/tkvstore.c:224-252 | a put appended at the end of the file keeps file, log and counters consistent |
| KvStore.AppendTombstone | src/util/src/tkvstore.c:254-284 | a tombstone for a present uid keeps file, log and counters consistent |
| KvStore.PutKeepsValid | src/util/src/tkvstore.c:224-252 | a put during a commit keeps the store invariant and leaves the committed prefix alone |
| KvStore.DropKeepsValid | src/util/src/tkvstore.c:254-284 | a drop during a commit keeps the store invariant and leaves the committed prefix alone |
| KvStore.KVStore.Create | src/util/src/tkvstore.c:358-362 | a new store holds no record and its counters are (512, 0, 0, 0) |
| KvStore.KVStore.StartCommit | src/util/src/tkvstore.c:165-222 | starting a commit saves the header to the sidecar, and the size counter is the file length |
| KvStore.KVStore.Update | src/util/src/tkvstore.c:224-252 | the value is appended after its descriptor at the old end of the file; the index maps the uid to it; size grows by 24 plus its length; an overwrite moves the old value's size to tombSize, and a new uid adds one record |
| KvStore.KVStore.Drop | src/util/src/tkvstore.c:254-284 | an absent uid fails and changes nothing; a present one appends a tombstone with the negated offset, removes the uid from the index, adds one drop, removes one record and adds the value size plus two descriptors to tombSize |
| KvStore.KVStore.EndCommit | src/util/src/tkvstore.c:287-307 | ending a commit writes the counters into the header and removes the sidecar |
| KvStore.KVStore.RecoverRollsBack | src/util/src/tkvstore.c:109-137 | when the process stops at any point between the store's operations, recovery succeeds and leaves the file holding exactly the log of the last completed commit |
| KvStore.ShortSidecarBlocksOpen | src/util/src/tkvstore.c:109-137 | a sidecar too short to hold a header makes the open fail and stays on disk, so the next open fails the same way |
| KvStore.KVStore.Reopened | src/util/src/tkvstore.c:96-161 | when every put committed carries a value, opening the file again yields the state as of the last completed commit, which outside a commit is the current state |
| KvStore.KVStore.EmptyValueBlocksReopen | src/util/src/tkvstore.c:224-252 | a committed put of an empty value, which a put accepts, makes every open of the file fail with the replay's assertion error |
| MetaCache.BucketOf | source/dnode/vnode/src/meta/metaCache.c:219 | a uid's bucket is its absolute value modulo the bucket count, always a valid bucket |
| MetaCache.ResizeKeepsShape | source/dnode/vnode/src/meta/metaCache.c:173-181 | doubling or a permitted halving keeps the bucket count at base·2^k, never below the base, and at least the entry count |
| MetaCache.RehashDone | source/dnode/vnode/src/meta/metaCache.c:190-206 | relinking every entry yields a well-formed table with the same contents and the same number of entries |
| MetaCache.RelinkChain | source/dnode/vnode/src/meta/metaCache.c:192-200 | relinking one old chain moves each of its entries to the head of its new bucket |
| MetaCache.RelinkAll | source/dnode/vnode/src/meta/metaCache.c:190-201 | the relink loop moves every old chain |
| MetaCache.Walk | source/dnode/vnode/src/meta/metaCache.c:219-223 | the chain walk stops at the first entry with the uid, or at the end when none has it |
| MetaCache.ChainedCache.constructor | source/dnode/vnode/src/meta/metaCache.c:111-128 | a new cache is empty, with the base number of buckets |
| MetaCache.ChainedCache.Get | source/dnode/vnode/src/meta/metaCache.c:283-301 | the stored value for a uid, or not-found exactly when no entry has that uid |
| MetaCache.ChainedCache.Rehash | source/dnode/vnode/src/meta/metaCache.c:173-210 | the bucket count doubles or halves, and the contents and entry count are unchanged |
| MetaCache.ChainedCache.Upsert | source/dnode/vnode/src/meta/metaCache.c:212-253 | a present uid gets its value merged and nothing else changes; a new uid first doubles the buckets when nEntry ≥ nBucket, then adds exactly one entry |
| MetaCache.ChainedCache.ReplaceAt | source/dnode/vnode/src/meta/metaCache.c:225-230 | updating the found entry changes only that uid's value |
| MetaCache.ChainedCache.Insert | source/dnode/vnode/src/meta/metaCache.c:232-248 | inserting a new uid grows the buckets when full and adds one entry |
| MetaCache.ChainedCache.Drop | source/dnode/vnode/src/meta/metaCache.c:255-281 | a present uid is removed alone, nEntry drops by one, and the buckets halve exactly when nEntry < nBucket/4 above the base; an absent uid gives not-found and changes nothing |
| MetaCache.KeepNewer | source/dnode/vnode/src/meta/metaCache.c:226-230 | an existing entry takes version and schema version only from a strictly newer update, and keeps its uid and suid |
| MetaCache.KeepNewerMonotone | source/dnode/vnode/src/meta/metaCache.c:226-230 | an entry's version never decreases, and applying the same update twice is the same as once |
| MetaCache.TakeCount | source/dnode/vnode/src/meta/metaCache.c:354-356 | a stats update overwrites the child-table count unconditionally |
| MetaCache.MetaCache.constructor | source/dnode/vnode/src/meta/metaCache.c:100-157 | both caches start empty, with 1024 and 16 buckets |
| MetaCache.MetaCache.GetEntry | source/dnode/vnode/src/meta/metaCache.c:283-301 | the stored entry for a uid, or not-found |
| MetaCache.MetaCache.UpsertEntry | source/dnode/vnode/src/meta/metaCache.c:212-253 | a present uid keeps the newer version; a new uid is added, after doubling when full |
| MetaCache.MetaCache.DropEntry | source/dnode/vnode/src/meta/metaCache.c:255-281 | the uid is no longer cached; it reports not-found when it was absent; shrinks by the quarter rule above 1024 |
| MetaCache.MetaCache.GetStats | source/dnode/vnode/src/meta/metaCache.c:409-427 | the stored statistics for a super table, or not-found |
| MetaCache.MetaCache.UpsertStats | source/dnode/vnode/src/meta/metaCache.c:342-379 | afterwards the cache holds exactly the given statistics for that uid; a new uid is added, after doubling when full |
| MetaCache.MetaCache.DropStats | source/dnode/vnode/src/meta/metaCache.c:381-407 | the uid is no longer cached; it reports not-found when it was absent; shrinks by the quarter rule above 16 |
| TsdbLive.CompareTableId | source/dnode/vnode/src/tsdb/tsdbCommit.c:453 | the comparison of table ids is zero, negative or positive exactly when equal, before or after in (suid, uid) order |
| TsdbLive.LessTransitive | source/dnode/vnode/src/tsdb/tsdbCommit.c:453 | the table-id order is transitive |
| TsdbLive.Tsdb.constructor | source/dnode/vnode/src/tsdb/tsdbCommit.c:59-71 | a new engine has an active memory table and no frozen one |
| TsdbLive.Tsdb.StartCommit | source/dnode/vnode/src/tsdb/tsdbCommit.c:114-126 | the active table becomes the frozen one, and no table is active |
| TsdbLive.Tsdb.CommitData | source/dnode/vnode/src/tsdb/tsdbCommit.c:132-168 | the data commit goes on exactly when the frozen table holds rows |
| TsdbLive.Tsdb.Commit | source/dnode/vnode/src/tsdb/tsdbCommit.c:73-111 | a commit freezes the active table and goes on to the data commit exactly when that table held rows |
| TsdbLive.Upto | source/dnode/vnode/src/tsdb/tsdbCommit.c:441-478 | the positions 0..n-1 in order |
| TsdbLive.HandOver | source/dnode/vnode/src/tsdb/tsdbCommit.c:441-478 | handing over the next table or index entry extends the handed-over positions by exactly that one |
| TsdbLive.CommitFileDataImpl | source/dnode/vnode/src/tsdb/tsdbCommit.c:441-478 | every table and every index entry is handed over exactly once and in order, within nTbData + nBlockIdx steps; a pair is handed over together only when the ids are equal, and with sorted inputs every equal pair is |
| TsdbLive.MatchedPair | source/dnode/vnode/src/tsdb/tsdbCommit.c:452-456 | a matched table and index entry pass together, keeping every equal pair accounted for |
| TsdbLive.MatchedTable | source/dnode/vnode/src/tsdb/tsdbCommit.c:457-459 | a table below the next index id passes alone without missing a pair |
| TsdbLive.MatchedIndex | source/dnode/vnode/src/tsdb/tsdbCommit.c:460-462 | an index entry below the next table id passes alone without missing a pair |
| TsdbRules.DefaultRows | source/dnode/vnode/src/tsdb/tsdbCommit.c:626 | the default rows of a block lie strictly between zero and maxRows |
| TsdbRules.MergeLastKeeps | source/dnode/vnode/src/tsdb/tsdbCommit.c:2090-2093 | merging a row into the last built row keeps every key and adds the row as a version of the last one |
| TsdbRules.ComparKeyBlock | source/dnode/vnode/src/tsdb/tsdbCommit.c:1558-1569 | the result is -1 exactly when key < minKey, 0 exactly when minKey ≤ key ≤ maxKey, and 1 exactly when key > maxKey |
| TsdbRules.ComparKeyBlockOrders | source/dnode/vnode/src/tsdb/tsdbCommit.c:1558-1569 | for a well-formed block, the comparison is 1 exactly when the key lies above it |
| TsdbRules.SubBlockKeepsPlacement | source/dnode/vnode/src/tsdb/tsdbCommit.c:2162-2178 | a block that may take a sub-block has fewer than 8, at most maxRows operations, its file reused, and a merged row count that fits its file |
| TsdbRules.SetupCommitFiles | source/dnode/vnode/src/tsdb/tsdbCommit.c:1123-1200 | a new file set is made when none exists or the disk level rose; the data file is reused otherwise, and the last file only below 32 KiB |
| TsdbRules.FileIdBounds | source/dnode/vnode/src/tsdb/tsdbCommit.c:894 | a key lies within the span of its file id |
| TsdbRules.FileIdMonotone | source/dnode/vnode/src/tsdb/tsdbCommit.c:894 | later keys never map to earlier file ids |
| TsdbRules.NextCommitFid | source/dnode/vnode/src/tsdb/tsdbCommit.c:881-902 | no file id when no table has a next key; otherwise the smallest file id of any table's next key |
| TsdbBlock.Body | source/dnode/vnode/src/tsdb/tsdbCommit.c:1612-1615 | the key column is set apart from the others |
| TsdbBlock.KeptColumns | source/dnode/vnode/src/tsdb/tsdbCommit.c:1612-1658 | a column is written exactly when not all its values are null |
| TsdbBlock.KeptCount | source/dnode/vnode/src/tsdb/tsdbCommit.c:1612-1658 | never more columns are written than exist, and all are when none is all-null |
| TsdbBlock.SmaBounds | source/dnode/vnode/src/tsdb/tsdbCommit.c:1632-1640 | only super blocks carry block statistics, at most one per written column |
| TsdbBlock.SelectColumns | source/dnode/vnode/src/tsdb/tsdbCommit.c:1612-1658 | the loop keeps exactly the non-all-null columns after the key and counts their statistics |
| TsdbBlock.NewBlockCovers | source/dnode/vnode/src/tsdb/tsdbCommit.c:1785-1798 | a new block's key range covers every row it holds, its row count is the number of rows, and a super block has one sub-block |
| TsdbBlock.AddLinked | source/dnode/vnode/src/tsdb/tsdbCommit.c:1992-2005 | pushing a super block with its sub-blocks keeps every super block pointing at its own run of sub-blocks |
| TsdbBlock.InfoBlocks | source/dnode/vnode/src/tsdb/tsdbCommit.c:1311-1330 | the block-info array holds the super blocks, then the sub-blocks, unchanged but for offsets |
| TsdbBlock.WrittenRecord | source/dnode/vnode/src/tsdb/tsdbCommit.c:1323-1329 | a shifted offset names the record where that block's sub-blocks start |
| TsdbBlock.WrittenReadable | source/dnode/vnode/src/tsdb/tsdbCommit.c:1292-1352 | a reader following each offset finds exactly that block's sub-blocks |
| TsdbBlock.WrittenSubs | source/dnode/vnode/src/tsdb/tsdbCommit.c:1323-1329 | a super block's sub-block run lies after all super blocks and holds only sub-blocks |
| TsdbBlock.ToU32 | source/dnode/vnode/src/tsdb/tsdbCommit.c:1347-1349 | the 32-bit cast keeps values that fit |
| TsdbBlock.IdxOf | source/dnode/vnode/src/tsdb/tsdbCommit.c:1340-1349 | the index entry counts the super blocks and takes hasLast and maxKey from the last one; with no block the entry is empty |
| TsdbLoad.LoadDataFromCache | source/dnode/vnode/src/tsdb/tsdbCommit.c:2197-2345 | per key: inserts, updates and successful deletes counted against the filter keys; repeats folded; keyFirst/keyLast span the touched keys; reading stops at the row or point limit or the end; the target is the folded rows read |
| TsdbLoad.RunCounts | source/dnode/vnode/src/tsdb/tsdbCommit.c:2197-2345 | reading never lowers the operation count |
| TsdbLoad.ReadAgain | source/dnode/vnode/src/tsdb/tsdbCommit.c:1893-1909 | in the model's read, with the repeat test ahead of both limits, the second read of a sub-block merge, which collects rows, stops where the counting read stopped; the read as written differs (see Findings) |
| TsdbLoadFindings.LoadAsWritten | source/dnode/vnode/src/tsdb/tsdbCommit.c:2197-2345 | the reader as written never moves backwards |
| TsdbLoadFindings.DiscardedKeyAsWritten | source/dnode/vnode/src/tsdb/tsdbCommit.c:2315-2318 | as written, a second memory row for a disk key whose first was discarded is inserted |
| TsdbLoadFindings.SplitDuplicateAsWritten | source/dnode/vnode/src/tsdb/tsdbCommit.c:2257-2260 | as written, a block filled to the row limit leaves a repeat of its last key for the next block |
| TsdbMerge.FoldVersions | source/dnode/vnode/src/tsdb/tsdbCommit.c:2057-2142 | each built row holds the versions chosen from all rows of its key: every version with update on, the first without |
| TsdbMerge.MergedRows | source/dnode/vnode/src/tsdb/tsdbCommit.c:2057-2142 | merging disk and memory rows gives strictly increasing keys, exactly the union of keys, with the disk row first at an equal key |
| TsdbMerge.FoldSplit | source/dnode/vnode/src/tsdb/tsdbCommit.c:2057-2142 | folding rows split at a key boundary is folding each part |
| TsdbMerge.InterleaveSplit | source/dnode/vnode/src/tsdb/tsdbCommit.c:2057-2142 | interleaving streams cut at a common key is interleaving each part |
| TsdbMerge.BlocksConcatenate | source/dnode/vnode/src/tsdb/tsdbCommit.c:2007-2042 | consecutive merge calls together produce the merge of the whole streams |
| TsdbMergeCache.LoadAndMergeFromCache | source/dnode/vnode/src/tsdb/tsdbCommit.c:2044-2143 | the target is the reference merge of the rows consumed: strictly increasing keys, a memory row merged over an equal key only with update on; at most maxRows rows, stopping short only at the end of both streams; it never stops inside a key |
| TsdbMergeCache.MergeLoop | source/dnode/vnode/src/tsdb/tsdbCommit.c:2057-2142 | the merge loop ends having loaded a block of the reference merge |
| TsdbMergeCache.SplitKeyAsWritten | source/dnode/vnode/src/tsdb/tsdbCommit.c:2137 | as written, stopping at maxRows-1 splits a repeated memory key over two blocks, and the two blocks differ from the reference merge |
| TsdbCommit.TargetSize | source/dnode/vnode/src/tsdb/tsdbCommit.c:2197-2345 | the rows built are the inserts plus the updates, and updates plus deletes never exceed the disk keys |
| TsdbCommit.MatchedApart | source/dnode/vnode/src/tsdb/tsdbCommit.c:2290-2318 | a disk key is either updated or deleted, never both, and only keys read are matched |
| TsdbCommit.DiskBelowLimit | source/dnode/vnode/src/tsdb/tsdbCommit.c:1884-1888 | every row of an old block lies at or below its key limit, the next block's start minus one, or maxKey for the last |
| TsdbCommit.KeyLimitBelow | source/dnode/vnode/src/tsdb/tsdbCommit.c:1884-1888 | a block's key limit lies between its first key and maxKey |
| TsdbCommit.RewriteFits | source/dnode/vnode/src/tsdb/tsdbCommit.c:1953-1990 | an old block rewritten as it is keeps its range and fits its file |
| TsdbCommit.ReadMemRows | source/dnode/vnode/src/tsdb/tsdbCommit.c:1848-1852 | one read of memory rows builds at most the default rows; fewer means the rows up to the limit are used up |
| TsdbCommit.CountBlockRead | source/dnode/vnode/src/tsdb/tsdbCommit.c:1893-1895 | the counting read against a block's keys is the reference read and uses only rows up to the key limit |
| TsdbCommit.ReadDelta | source/dnode/vnode/src/tsdb/tsdbCommit.c:1907-1909 | with the model's read, the collecting read stops where the counting read stopped, and builds a non-empty sub-block that fits its file; the read as written can stop earlier (see Findings) |
| TsdbCommit.PointLimitAsWritten | source/dnode/vnode/src/tsdb/tsdbCommit.c:2257-2260 | as written, a sub-block merge whose counting read folds a repeated key reaches the point limit in the collecting read, which then takes fewer rows than were counted; the model's read takes all of them |
| TsdbCommit.EmptySubBlockAsWritten | source/dnode/vnode/src/tsdb/tsdbCommit.c:1906-1915 | as written, a memory delete of a disk key chooses a sub-block that would hold no row |
| TsdbCommit.NewBlocksGrow | source/dnode/vnode/src/tsdb/tsdbCommit.c:1854-1866 | every block written from memory is full but the last one, and goes to the last file only when allowed and short |
| TsdbCommit.MergedBlocks | source/dnode/vnode/src/tsdb/tsdbCommit.c:2007-2042 | the blocks written by a merge together hold the merge of the whole disk block with the memory rows read |
| TsdbCommit.CutMoves | source/dnode/vnode/src/tsdb/tsdbCommit.c:2007-2042 | after each block of a merge, no row left in either stream precedes a row already taken |
| TsdbCommit.Committer.constructor | source/dnode/vnode/src/tsdb/tsdbCommit.c:1123-1200 | a committer starts with empty block arrays and the file reuse decided by the file-set rule |
| TsdbCommit.Committer.WriteBlock | source/dnode/vnode/src/tsdb/tsdbCommit.c:1808-1814 | a block is written at the end of its file with the metadata of its rows, and only that file grows |
| TsdbCommit.Committer.CommitAddBlock | source/dnode/vnode/src/tsdb/tsdbCommit.c:1992-2005 | aSupBlk grows by exactly the block, and aSubBlk by exactly its sub-blocks (none when there are none) |
| TsdbCommit.Committer.MoveBlock | source/dnode/vnode/src/tsdb/tsdbCommit.c:1953-1990 | a block in a reused file is kept as it is, its sub-blocks copied with its offset re-pointed, and no row is written and no file end moves; otherwise its rows are appended to the rows written as one super block at its file's end, which grows by their size while the other file's end stays |
| TsdbCommit.Committer.KeepBlock | source/dnode/vnode/src/tsdb/tsdbCommit.c:1969-1981 | in a reused file, a block with one sub-block is added as it is; one with several is re-pointed past the sub-block records gathered and its stored sub-block records follow them; no row is written and no file end moves |
| TsdbCommit.Committer.RewriteBlock | source/dnode/vnode/src/tsdb/tsdbCommit.c:1982-1986 | in a file written anew, the block's rows are written again as one super block at the end of its file, whose end grows by their size, and that block's record is added |
| TsdbCommit.Committer.CommitMemBlock | source/dnode/vnode/src/tsdb/tsdbCommit.c:1848-1866 | one read writes a block exactly when rows remain, placed in the data file when toData or at least minRows |
| TsdbCommit.Committer.CommitMemData | source/dnode/vnode/src/tsdb/tsdbCommit.c:1839-1870 | all memory rows up to the limit are written as new super blocks, each placed by the data/last rule |
| TsdbCommit.Committer.MergeBlockData | source/dnode/vnode/src/tsdb/tsdbCommit.c:2007-2042 | the blocks written hold exactly the merge of the disk block with the memory rows up to the limit; only the final one may go to the last file |
| TsdbCommit.Committer.AddSubBlock | source/dnode/vnode/src/tsdb/tsdbCommit.c:1906-1936 | with the model's read, the rows of the collecting read, which takes every row the counting read took, are written as one sub-block, and a super block pointing at the old and the new sub-blocks is pushed |
| TsdbCommit.Committer.AttachSubBlock | source/dnode/vnode/src/tsdb/tsdbCommit.c:1915-1936 | the new super block has one more sub-block, the merged row count, the read's key range, and the offset where its sub-blocks start |
| TsdbCommit.Committer.MergeMemData | source/dnode/vnode/src/tsdb/tsdbCommit.c:1872-1943 | with no operation the block is moved, with the records, rows written and file ends MoveBlock states; when the merge leaves no row nothing changes; with operations that fit, a sub-block is added after the block's own sub-block records; otherwise the block and rows are merged in full into new blocks; the path follows the corrected sub-block test |
| TsdbCommit.Committer.WriteBlockInfo | source/dnode/vnode/src/tsdb/tsdbCommit.c:1816-1837 | with no super block nothing is written; otherwise one readable block-info record is appended and its index entry pushed |
| TsdbCommit.Committer.CommitToTable | source/dnode/vnode/src/tsdb/tsdbCommit.c:1395-1482 | every memory row up to maxKey is used; a table with no blocks and no rows writes nothing; the block-info and index entry follow from the blocks it built |

## Left out

- File and disk I/O are not modelled:
  - `open`, `lseek`, `tread`, `twrite`, `ftruncate`, `fsync` and `remove`;
  - disk allocation and `tsdbAppendDFile`.

  Files are sequences of bytes or rows. The error paths of those calls are
  not modelled, in particular:
  - the failed `twrite` calls in `tkvstore.c:236` and `:271`;
  - a failing truncate or fsync during recovery.
- Memory allocation failures are not modelled, in particular:
  - the failed allocation of a new bucket array in rehash (`metaCache.c:183-187`);
  - the failed entry allocation in upsert (`metaCache.c:239-243`);
  - failed array pushes in the committer.
- Integer widths are unbounded in the model. This covers:
  - the `int32_t` bucket count (doubling never overflows here);
  - the `int64_t` counters of the key-value store;
  - the 32-bit `len` and `offset` of a block index entry. Those two are the
    exception: they are cast explicitly with `ToU32`.
- Table ids are compared in (super table uid, uid) order. `tTABLEIDCmprFn`
  is not part of this model.
- The file id of a key is its floor division by a day-span parameter.
  `TSDB_KEY_FID` and the time precision are not part of this model.
- `sizeof(SBlock)` and `sizeof(SBlockInfo)` are the committer parameters
  `blockSize` and `infoSize`.
- Column data, schemas, compression, checksums and statistics functions are
  not modelled. In particular:
  - the column values a block holds (`columnsOf`) and its encoded size
    (`sizeOf`) are parameters;
  - block contents are rows, not bytes.
- Header encoding is abstracted. The header checksum and the variable-length
  encoding of the store counters (`tdEncodeStoreInfo`, `tdDecodeStoreInfo`)
  become the three cases `Sealed(info)`, `Corrupted` and `Short`.
- The second pass of `tdRestoreKVStore` (`tkvstore.c:519-563`) is not
  modelled. It reads each value and hands it to the caller's callbacks, so
  it belongs to the callers.
- The tag-filter result cache in `metaCache.c`:
  - `metaGetCachedTableUidList`, `metaUidFilterCachePut`, `metaUidCacheClear`
    and their helpers;
  - it sits on an LRU cache and a hash library that are not part of this model.

  The close functions only free memory.
- The locks are not modelled. The commented-out lock around the memory-table
  swap is concurrency, and the model is sequential.
- Live commit code with no promised behaviour is not modelled: the delete
  commit, the cache commit, the end of commit, and the per-table stubs of the
  live path.
- `TsdbLoad.LoadDataFromCache`: a memory delete of a disk key leaves the
  target unchanged. The append of the deleting row at `tsdbCommit.c:2296`
  depends on `tdAppendSTSRowToDataCol`, which is not part of this model.
- Debug assertions become error results or preconditions:
  - `KvStore.Restore`: the replay loop's assertions (`tkvstore.c:490-491`,
    `:500`) are `Err(AssertionFailed)`.
  - `MetaCache.MetaCache.UpsertEntry`: the assertion that an existing entry
    keeps its super table (`metaCache.c:226`) is a precondition.
  - `TsdbCommit.Committer.MergeMemData` and `CommitToTable`: with update
    enabled, the assertion `ASSERT(!keepDup)` on a memory delete
    (`tsdbCommit.c:2292`) is a precondition that no memory row deletes a
    disk key.
  - `TsdbRules.SubBlockKeepsPlacement`: the assertion that a merge leaves a
    row (`tsdbCommit.c:2167`) is a precondition.
  - `TsdbCommit.Committer.MergeMemData`: the block-ignore path, `ASSERT(0)`
    at `tsdbCommit.c:1903-1905`, is kept as written. It consumes the rows read
    and changes no array.
- `KvStore.KVStore.RecoverRollsBack`: it covers stops between the store's
  operations only. A stop inside starting a commit, after the sidecar is
  created (`tkvstore.c:175`) and before its header is copied into it
  (`:182`), leaves a short sidecar; `KvStore.ShortSidecarBlocksOpen` shows
  that every open of the store then fails. The model does not split
  `StartCommit` into those two steps.
- `KvStore.KVStore.Reopened`: it requires every committed put to carry a
  value. A put accepts an empty value (`tkvstore.c:224-252` has no length
  check), yet replay asserts a positive size (`:500`), so a store that
  committed one can never be opened again; `KVStore.EmptyValueBlocksReopen`
  states this. The model keeps the put as written and does not choose
  between rejecting and skipping empty values.
- `TsdbLive.Tsdb.Commit`: it states only the decision to go on to the data
  commit (`tsdbCommit.c:138`). The data commit loop as written
  (`tsdbCommit.c:338-346`) never returns once the frozen table holds rows:
  the key it tests is set once from the table's least key (`:328`) and
  nothing moves it forward, so it stops at once for a least key of
  `TSKEY_MAX` and otherwise only on an error. That loop is not modelled.
- `TsdbCommit.Committer.CommitToTable`: it states what its calls leave behind
  (rows used up to maxKey, block-info and index entry), not one formula for
  every block it builds. Each branch's blocks are stated by the contracts of
  `MoveBlock`, `MergeMemData` and `CommitMemData`.
- `TsdbCommit.Committer.MergeMemData`: when the rows are merged in full, the
  memory rows consumed are stated by their key limit rather than by a count.
- The legacy outer loop over file sets and tables (`tsdbCommitToFile`,
  `tsdbSetAndOpenCommitFile`, `tsdbCommitTSData`) is not modelled as one
  method. It chooses files, which the model takes as the
  `SetupCommitFiles`/`NextCommitFid` rules, and then calls `CommitToTable`
  once per table.

## Findings

| source | as written | input that shows it | evidently intended | confidence | as-written member | corrected member |
|---|---|---|---|---|---|---|
| src/util/src/tkvstore.c:243-247 | the branch for a uid already in the index increments nRecords, and the branch for a new uid reads the old record through a null pointer | a put of uid 7 into an empty store (null dereference), then a second put of uid 7 (nRecords 2, one indexed record) | an overwrite moves the old size to tombSize; a new uid adds one record | not executed | KvFindings.UpdateCountersInverted | KvStore.KVStore.Update |
| src/util/src/tkvstore.c:236 | only the value bytes are written, yet size grows by the descriptor as well | a put of one byte into an empty store: one byte follows the header while size grows by 25, and replay of that file fails | the descriptor is written before the value | not executed | KvFindings.UpdateWritesNoDescriptor | KvStore.KVStore.Update |
| src/util/src/tkvstore.c:516 | replaying a put always increments nRecords, even when the uid is already in the index | a log with two puts of uid 7: nRecords 2, one indexed record, tombSize 0 | an overwrite keeps nRecords; the model's replay also adds the overwritten value's size to tombSize (tombSize 1 here), a second change, so that replay agrees with the corrected put of tkvstore.c:243-247 | not executed | KvFindings.ReplayCountsOverwrites | KvStore.Restore |
| src/util/src/tkvstore.c:491 | the check that a record starts at the current size also runs for tombstones, whose offset is negative | any log holding a drop: the tombstone's offset is minus the dropped record's position, never the current size | the position check applies to puts only | not executed | KvFindings.TombstoneFailsPositionCheck | KvStore.Restore |
| source/dnode/vnode/src/tsdb/tsdbCommit.c:2315-2318 | discarding a memory row equal to a disk key without update does not record the key, so its next memory row takes the insert branch | memory rows 5, 5 against disk key 5, update off: one insert is counted, and the row is built | later memory rows of a discarded key are discarded too | not executed | TsdbLoadFindings.DiscardedKeyAsWritten | TsdbLoad.LoadDataFromCache |
| source/dnode/vnode/src/tsdb/tsdbCommit.c:2257-2260 | the row-limit break comes before the test for a repeat of the last key | memory rows 5, 5 with update on and a limit of one row: the first block takes one row of key 5, and the next block starts with key 5 again | a repeat of the last key is merged before the limit stops the read | not executed | TsdbLoadFindings.SplitDuplicateAsWritten | TsdbLoad.LoadDataFromCache |
| source/dnode/vnode/src/tsdb/tsdbCommit.c:2258 | the point-limit break, taken only by the collecting read, comes before the test for a repeat of the last key, so the collecting read of a sub-block merge can stop short of the counting read | a data block of keys 1, 3 in a reused file, update on, maxRows 2, memory rows 1, 3, 3: the counting read takes 3 rows with 2 operations and chooses a sub-block; the collecting read takes 2, and the second row of key 3 goes into a block of its own | a repeat of the last key is merged before the point limit stops the read | not executed | TsdbCommit.PointLimitAsWritten | TsdbCommit.ReadDelta |
| source/dnode/vnode/src/tsdb/tsdbCommit.c:2137 | the merge stops once numOfRows reaches maxRows-1, even when the next memory row repeats the last key | disk key 1, memory keys 2, 2, maxRows 2, update off: the first block ends at key 2, and the second block starts with key 2 | stop at maxRows, and never between rows of one key | not executed | TsdbMergeCache.SplitKeyAsWritten | TsdbMergeCache.LoadAndMergeFromCache |
| source/dnode/vnode/src/tsdb/tsdbCommit.c:1906-1915 | the sub-block test counts a successful delete towards the merged rows, so the second read, which builds no row, writes an empty sub-block (refused by the assertion at :1598) | a data block of keys 1, 2 in a reused file, minRows 2, and one memory row deleting key 1 | add a sub-block only when the read builds at least one row, otherwise rewrite the block | not executed | TsdbCommit.EmptySubBlockAsWritten | TsdbCommit.Committer.MergeMemData |
