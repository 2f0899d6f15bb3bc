# A verified model of go-db

go-db is a small database engine: a page store with a buffer pool, a
log-structured key/value store with a write-ahead log and a B+Tree index,
typed tables with secondary indexes, and an SQL front end with snapshot
transactions. This project models its core in Dafny and proves what the engine
promises. Code that changes things in place is modelled by classes and loops
that are proved against specification functions; facts about whole runs are
lemmas about those functions.

`dafny verify dfyconfig.toml` verifies the project.

## Modules

| module | what it models |
|---|---|
| Common | options and names |
| Bytes | byte strings, their order as arithmetic on ranks, little-endian integers |
| BTreeShape, BTree | the B+Tree: its shape as a value, and heap nodes with preemptive splits, a leaf chain and delete by repacking |
| Wal, WalRecovery | the write-ahead log: writer and replay, and what replay does with a log cut at any byte and perhaps written on |
| Page, RecordLog | records in a page image, and the chain of pages that grows from an empty file |
| StoreSpec, Store | the store as a value (log, live map, version chains, snapshots) and as an object over the chain, the tree and the log |
| PoolSpec, Pool | the LRU buffer pool as a value and as an object over a disk that may fail, and the pager |
| Codec | schemas, rows and the row encoding with its NULL bitmap |
| Table, Restore | tables with secondary indexes, putting a remembered image back |
| Lookalikes, Select | when an index finds what a scan finds, SELECT by either |
| Transactions, Executor | the transaction protocol as a step relation over any number of clients, and the executor's requests |
| Numbers, Printing | ints and floats as numbers, what values print |
| Conditions, Where | row conditions and comparison, the WHERE parser and a printer |
| Tokens, Lexer, Splitting | tokens and numerals, the lexer and the statement splitter, and how the two fit together |
| Join | the hash join |

## What the proofs show about the code

Most promises hold as stated. Where one does not, the model keeps the code as
it is, gives a lemma at a concrete input, and states exactly when the promise
holds.

- A batch left without its commit marker stays pending in the log. If a later
  batch reuses its id, replay applies the leftover operations too
  (`WalRecovery.StaleBatchComesBack`); replay is exact if and only if no batch
  reuses the id of an uncommitted one (`WalRecovery.TruncatedReplay`). The
  executor's commit numbers restart with the process.
- Replay does not cut a torn record off before later records are written
  behind it (`WalRecovery.WrittenBehindCut`). When the cut fell on a record
  boundary, replay goes on into the later records, and is exact if and only if
  no batch reuses a torn id (`WalRecovery.LaterRun`). Behind 1 to 7 bytes of a
  record everything later is lost (`WalRecovery.TornMagicLosesTheRest`); behind
  8 to 16 bytes too, in every log under a gigabyte
  (`WalRecovery.TornLengthsFail`); behind a torn checksum or body the later
  bytes are taken for the rest, and the checksum decides
  (`WalRecovery.TornChecksumMixes`, `WalRecovery.TornBodySwallows`).
- An append records a version before it knows whether the record fits a page,
  so an oversized record makes version chains disagree with the index
  (`Store.OversizedPutDisagrees`; `Store.AgreementAfterAppend` has the exact
  condition).
- ROLLBACK puts the whole BEGIN image back, so it erases what other clients
  committed meanwhile (`Transactions.RollbackErasesOthers`). In every run it
  leaves a key alone if and only if the snapshot still reads the key as it is
  now (`Transactions.RollbackLeavesKey`), and with no writer since BEGIN it
  changes no row (`Transactions.QuietRollback`).
- Restoring an image succeeds if and only if the image meets the table's own
  constraints (`Restore.Restore`, `Restore.Reinsert`); a commit does not check
  them, and can leave rows whose image is refused (`Restore.CommitLeavesClash`).
- Four kinds of values do not read back as themselves: an int in a float
  column becomes a float, empty bytes become nil, an instant moves to UTC, and
  one outside 64-bit nanoseconds moves by centuries (`Codec.CanonSettled`,
  `Codec.OldInstantMoves`). They are indexed and compared as given, so the
  secondary index stays exact after an insert if and only if no indexed value
  is one of them (`Table.Table.Insert`, with `Table.IntAsFloatIsMisindexed`
  and `Table.EmptyBytesLeaveAKey`), and after an update if and only if no row
  was changed or no new value is one of them (`Table.Table.Update`). A unique
  column stays free of repeats if and only if no such value turns into another
  row's (`Table.AdmittedStaysUnique`, with `Table.EmptyBytesTwice`); the rows
  let in so cannot be restored (`Restore.EmptyBytesLost`).
- The index finds values of the same type and value, a scan whatever compares
  equal: ints and floats as floats, mixed types by what they print. So `name =
  5` finds '5' in a string column by a scan and not through the index, and
  likewise `age = '5'` and `price = 5` (`Lookalikes.FiveAsText`,
  `Lookalikes.FiveAsFloat`), and 2^53 finds 2^53 + 1
  (`Lookalikes.LargeIntsLookAlike`). For every column type and every value
  asked for, the two agree on every table if and only if the value is
  `Indexable` (`Lookalikes.IndexIsScan`). In an int column that is an int below
  2^53 in magnitude, or between 2^53 and 2^54 and 2 modulo 4; a float that is
  not whole or out of range; or what does not print as an int. In a string
  column it is a string only. In a float column it is no number while NaNs may
  be stored, since a NaN compares equal to all, and otherwise a float that is
  neither zero nor NaN.
- The merged row of a join depends on the order in which Go walks a map, if
  and only if a column only on the right has the name that a repeated column
  gets (`Join.MergeDetermined`, with `Join.TwoMerges`).
- The pool reads the disk without its lock. A page put and evicted in between
  is replaced by the older page (`PoolSpec.StaleRead`); the second half of a
  miss is sound if and only if the disk still holds what was read
  (`PoolSpec.FinishGetOk`).
- A string or byte value of 4 GiB or more has its length cut to 32 bits
  (`Codec.LongValueLost`); the row round trip holds if and only if no value is
  that long (`Codec.RowRoundTrip`).
- The splitter does not know backslash escapes, the lexer does
  (`Splitting.EscapesDoNotCommute`). On texts that lex, splitting and lexing
  commute if and only if the two agree at every semicolon on being inside a
  string (`Splitting.SplitCommutes`).

## Model

| member | source | states |
|---|---|---|
| Bytes.CompareIsRankOrder | kv/btree.go:55-73 | byte-string comparison is the order of real ranks, so it is a total order with equality only on equal strings |
| BTreeShape.MapOfMembers | kv/btree.go:40-53 | in a sorted entry list a key has a value exactly when the map the list stands for gives it that value |
| BTreeShape.MapOfPut | kv/btree.go:118-141 | inserting or replacing an entry in the sorted list is the map update |
| BTreeShape.MapOfDrop | kv/btree.go:143-171 | dropping the entry from the sorted list keeps it sorted and is the map removal |
| BTreeShape.RunRefinesMap | kv/btree.go:77-171 | after every run of puts and deletes the sorted list is the map's run, still sorted |
| BTreeShape.EntriesOk | kv/btree.go:23-38 | a well-formed tree lists its entries in strictly increasing key order, within its bounds |
| BTreeShape.SplitOk | kv/btree.go:91-116 | a full node splits into two properly filled nodes on either side of a separator strictly inside the bounds |
| BTreeShape.SplitKidOk | kv/btree.go:91-116 | splitting a full child keeps the parent well formed and its entries unchanged, and leaves room in both halves |
| BTreeShape.LeafPutOk | kv/btree.go:118-133 | a leaf with the key put at its search position is well formed and lists the updated entries |
| BTreeShape.ReplaceKidOk | kv/btree.go:134-141 | a put into the child where the key belongs is a put into the whole subtree |
| BTreeShape.SearchKid | kv/btree.go:40-62 | an entry with the key is in the subtree exactly when it is in the child the search goes to |
| BTreeShape.EveryNodeOk | kv/btree.go:77-141 | every node reached by any path is a leaf exactly at the common depth, sorted, and properly filled unless it is the top |
| BTreeShape.TreeBalanced | kv/btree.go:77-141 | in a whole tree all leaves are at one depth, no node has more than 32 keys, non-root leaves have at least 16 and non-root internal nodes at least 15 |
| BTreeShape.TreeCapacity | kv/btree.go:77-141 | a tree with h internal levels above its leaves, h at least 1, holds at least 2 * 16^h entries |
| BTree.ChildIndex | kv/btree.go:55-62 | the child chosen is the one whose separators surround the key |
| BTree.KeyIndex | kv/btree.go:63-73 | binary search finds the first key not below the given one |
| BTree.SplitNode | kv/btree.go:91-116 | the heap node becomes the left half, the new node the right half, the separator is the split key, and the leaf chain goes through both |
| BTree.SplitChild | kv/btree.go:91-116 | the parent's shape becomes that with child i split, with fresh nodes only, and its place in the leaf chain unchanged |
| BTree.InsertNonFull | kv/btree.go:118-141 | the subtree stays well formed with the entry put, in its region of the heap and its stretch of the leaf chain |
| BTree.LeavesChained | kv/btree.go:23-38 | the next links visit exactly the leaves in order, and their entries are the tree's entries |
| BTree.BPlusTree.Get | kv/btree.go:40-53 | returns what the map holds for the key, found exactly when it is there |
| BTree.BPlusTree.Put | kv/btree.go:77-90 | the tree stays valid and its map is updated at the key |
| BTree.BPlusTree.InOrder | kv/btree.go:23-38 | walking the leaf chain yields the entries in strictly increasing key order |
| BTree.BPlusTree.Delete | kv/btree.go:143-171 | the rebuilt tree is valid, its map has lost the key, and the result says whether it was there |
| Wal.LogFile.Append | kv/wal.go:46-66 | appends exactly the record's bytes, or nothing when it is too large |
| Wal.LogFile.AppendTransaction | kv/wal.go:68-82 | appends the batch and its commit record, or the operations before the first that is too large |
| Wal.LogFile.Replay | kv/wal.go:84-154 | reads the file record by record with the outcome of scanning its bytes |
| WalRecovery.ScanRecord | kv/wal.go:84-154 | a whole record in front of any bytes is read back with its fields and handled once |
| WalRecovery.ScanTorn | kv/wal.go:84-154 | a record cut short makes no call; the scan ends cleanly inside the header and fails inside the body |
| WalRecovery.RecordTruncation | kv/wal.go:84-154 | a log cut at any byte replays exactly the records wholly before the cut |
| WalRecovery.WrittenBehindCut | kv/wal.go:39-154 | for every log, every cut and every later run of records: at a record boundary replay is that of the whole records and then the later ones; elsewhere it is that of the whole records and then of the torn record with the later bytes behind it |
| WalRecovery.TornMagicLosesTheRest | kv/wal.go:84-120 | behind 1 to 7 bytes of a record replay fails and no later record is handled |
| WalRecovery.TornBodySwallows | kv/wal.go:84-130 | behind a torn body replay fails while the later bytes are too few, fails afterwards exactly when the checksum differs, and otherwise takes them for the rest of the body |
| WalRecovery.TornLengthsFail | kv/wal.go:84-115 | behind 8 to 16 bytes of a record a byte of the next magic ends a length field, so every log shorter than 0x4100_0000 bytes and a header fails with a length error |
| WalRecovery.TornChecksumMixes | kv/wal.go:84-125 | behind 17 to 20 bytes the lengths are right and the checksum is a mixture: failure while there are too few bytes, and then exactly when the mixture is not the checksum of what is taken for the body |
| WalRecovery.WholeItemsExact | kv/wal.go:46-82 | which writer calls lie wholly before a cut, characterised by their sizes |
| WalRecovery.ReplayedIsCommitted | kv/wal.go:84-154 | the calls replay makes are those of single records and committed batches in order, exactly when no batch reuses the id of an uncommitted one |
| WalRecovery.LogOfPush | kv/wal.go:46-82 | each writer call extends the log by its item's bytes |
| WalRecovery.TruncatedReplay | kv/wal.go:46-154 | for every run of writer calls and every cut: the calls are those of the items wholly before it, never part of a batch, exactly when no leftover id is reused; success exactly when the cut is at a record boundary or inside a header |
| WalRecovery.LaterRun | kv/wal.go:38-154 | for every run cut at a record boundary and every later run written behind it: replay succeeds with the committed calls before the cut and then those of the later run, exactly when no batch reuses the id of one left torn |
| WalRecovery.WholeLog | kv/wal.go:84-154 | replay of an undamaged log succeeds with the calls of single records and committed batches, leftovers of a reused id included |
| WalRecovery.TruncatedRun | kv/wal.go:46-154 | when every batch got its commit marker, replay of any cut is exactly the operations of the calls wholly before it |
| WalRecovery.StaleBatchComesBack | kv/wal.go:84-154 | a log in which a reused batch id brings back operations that were never committed |
| Page.Page.constructor | storage/page.go:41-48 | a new page holds no records and has no successor |
| Page.HoldsOneMore | kv/store.go:252-271 | writing a record at the free offset makes the image hold one record more |
| Page.Page.WriteRecord | kv/store.go:252-271 | succeeds exactly when the record fits, and then the page holds it after the others; otherwise nothing changes |
| Page.ReadBack | kv/store.go:227-247 | reading where a record was written returns it |
| Page.ReadHeld | kv/store.go:227-247 | every record a page holds is read back at its offset |
| RecordLog.PageChain.LastPage | kv/store.go:557-579 | follows the links to the last page, allocating the first page of an empty chain |
| RecordLog.PageChain.AppendRecord | kv/store.go:425-470 | the chain's log gains the record at its end, on the last page or a new linked one, exactly when it fits an empty page |
| RecordLog.PageChain.ScanChain | kv/store.go:506-531 | walking pages and offsets yields exactly the records appended, in order |
| RecordLog.SpaceBound | kv/store.go:349-470 | two neighbouring pages hold more than 4080 record bytes, so n pages holding T bytes satisfy 4081 * (n / 2) <= T |
| StoreSpec.AppendAgrees | kv/store.go:425-470 | an append keeps the three representations equal and version numbers increasing |
| StoreSpec.LiveOfListing | kv/store.go:349-423 | folding a listing of the live entries gives the live map back |
| StoreSpec.RunAgrees | kv/store.go:48-65 | after every run of writes, compactions and snapshot calls, folding the log, reading the index and taking newest versions give one map |
| StoreSpec.SnapshotNow | kv/store.go:283-307 | a snapshot taken now reads every key as the live map does |
| StoreSpec.RunBehindSnapshot | kv/store.go:293-307 | later requests do not change what a snapshot reads, and ChangedSince holds exactly for keys written since |
| StoreSpec.SnapshotStable | kv/store.go:283-323 | after every later run a snapshot reads each key as at its beginning, and ChangedSince tells exactly whether the key was appended since |
| Store.AgreementAfterAppend | kv/store.go:425-441 | the representations agree after an append exactly when the record could be stored, or deleted a key that was not live |
| Store.OversizedPutDisagrees | kv/store.go:425-441 | a value too large for a page, put into an empty store, leaves a version of a key that is not in the index |
| Store.Store.Append | kv/store.go:425-470 | records a version, extends the log and updates the index, with the failing and the tombstone cases as coded |
| Store.Store.Put | kv/store.go:326-334 | logs, appends and indexes the value; the whole new state in success and in both failures |
| Store.Store.Delete | kv/store.go:336-347 | logs and appends a tombstone and removes the key; the whole new state in success and in both failures |
| Store.Store.ApplyBatch | kv/store.go:48-65 | logs the batch, then applies its operations in order up to the first that cannot be stored |
| Store.Store.Get | kv/store.go:277-280 | reads the live map |
| Store.Store.BeginSnapshot | kv/store.go:283 | returns the current sequence number and counts one more snapshot |
| Store.Store.ReleaseSnapshot | kv/store.go:286-290 | counts one snapshot less, never below zero |
| Store.Store.HasChangedSince | kv/store.go:293-296 | the newest version is younger than the snapshot |
| Store.Store.ReadAt | kv/store.go:299-307 | scanning back finds the version visible at the snapshot |
| Store.Store.KeysAt | kv/store.go:310-323 | lists exactly the keys live at the snapshot, none twice |
| Store.Store.Compact | kv/store.go:349-423 | refused while a snapshot is held; otherwise one live record per live key on a contiguous chain, every key reading as before, and an empty log |
| Store.Store.RecoveryPathsAgree | kv/store.go:116-169 | the saved index and the page chain stand for the same map |
| Store.RebuildIndex | kv/store.go:506-531 | replaying the chain gives the index, versions and sequence number of appending its records to an empty store |
| Store.RebuildVersions | kv/store.go:533-553 | the version chains and sequence number of the records on the chain |
| Store.Open | kv/store.go:130-169 | the index is the saved list read as a map, or without one the map of the records; version chains and sequence number are those of the records |
| Store.Reopen | kv/store.go:116-217 | after a clean close both recovery paths give the index of before, and with the version chains of the records all representations agree |
| Store.RebuiltAgrees | kv/store.go:506-553 | rebuilt version chains are strictly increasing and end in the live map's values |
| PoolSpec.FinishGetOk | storage/buffer_pool.go:57-70 | the second half of a miss keeps the pool sound, and every page reading as before, exactly when the page was cached meanwhile or the disk still holds what was read |
| PoolSpec.GetOk | storage/buffer_pool.go:43-71 | a Get that nothing interrupts changes no page and returns the page as seen through the cache |
| PoolSpec.StaleRead | storage/buffer_pool.go:43-71 | an interleaving in which a page put and written out is lost |
| PoolSpec.PutOk | storage/buffer_pool.go:87-102 | replaces one page and no other; sound afterwards exactly when dirty now or before, or equal to the disk; nothing changes on failure |
| PoolSpec.MakeRoomOk | storage/buffer_pool.go:104-118 | eviction changes no page as seen through the cache |
| PoolSpec.FlushOk | storage/buffer_pool.go:121-134 | writing out some slots changes no page and marks exactly those clean |
| PoolSpec.FlushedDiskIsView | storage/buffer_pool.go:121-134 | a complete flush leaves the disk equal to the cached view |
| PoolSpec.RunShowsLastPut | storage/buffer_pool.go:43-134 | over every run each page reads as the last page put for it, or else as the original disk page |
| PoolSpec.GetReturnsLastPut | storage/buffer_pool.go:43-71 | after every run a successful Get returns the last page put for the id, or else the original disk page |
| PoolSpec.RunKeepsRecency | storage/buffer_pool.go:43-118 | over every run the slots stay in order of last use and within the capacity |
| PoolSpec.VictimIsLeastRecent | storage/buffer_pool.go:104-118 | the page evicted next was used before every other cached page |
| Pool.BufferPool.Get | storage/buffer_pool.go:43-71 | hit, miss and failures of read and eviction as the value model has them; map and list stay in bijection; counters |
| Pool.BufferPool.Put | storage/buffer_pool.go:87-102 | update in place or insert in front, as the value model has it |
| Pool.BufferPool.MakeRoom | storage/buffer_pool.go:104-118 | removes the last list element from list and map, written out first when dirty; nothing changes when that fails |
| Pool.BufferPool.Flush | storage/buffer_pool.go:121-134 | writes out dirty pages in some order up to the first failure, covering all pages on success |
| Pool.Pager.AllocatePage | storage/pager.go:62-72 | the page sequence gains an empty page at its end, or is unchanged on failure |
| Pool.Pager.ReadPage | storage/pager.go:75-81 | returns the page, refuses ids past the end, changes no page |
| Pool.Pager.WritePage | storage/pager.go:84-89 | replaces one page of the sequence, refuses ids past the end |
| Pool.Pager.Flush | storage/pager.go:109 | changes no page; on success the file holds every page |
| Codec.Validate | kv/table.go:416-428 | accepts exactly distinct non-empty names with known types |
| Codec.IndexOf | kv/table.go:581-588 | the first column with the name, or 0 when there is none |
| Codec.SetNull | kv/table.go:447 | sets exactly one bit of the bitmap |
| Codec.EncodingUnique | kv/table.go:430-507 | a row has one encoding |
| Codec.Encode | kv/table.go:430-507 | succeeds exactly on well-typed rows, with the bitmap marking exactly the NULL columns and then the fields in order |
| Codec.Decode | kv/table.go:509-579 | on arbitrary bytes, without reading outside them, the row the format describes, every byte used |
| Codec.FieldRoundTrip | kv/table.go:450-575 | a field of any type written between any bytes is read back with the offset after it |
| Codec.RowRoundTrip | kv/table.go:430-579 | for every valid schema and accepted row, decoding its encoding gives the row back exactly when no length needs more than 32 bits |
| Codec.CanonSettled | kv/table.go:535-572 | a value reads back as itself exactly when it is not an int in a float column, empty bytes, or an instant outside UTC or outside 64-bit nanoseconds; what reads back is settled |
| Codec.OldInstantMoves | kv/table.go:496-572 | the first second of 1600 is stored as one of 2184 |
| Codec.LongValueLost | kv/table.go:484-564 | a row with a 4 GiB value is accepted and its encoding does not decode |
| Codec.CanonicalRoundTrip | kv/table.go:430-579 | a row of settled values comes back identical, exactly when its values are short |
| Codec.DecodedCanonical | kv/table.go:509-579 | whatever the bytes, a decoded row has the columns and no other, each NULL or of its type, and every value settled |
| Codec.Reencoding | kv/table.go:430-579 | bytes that decode are the encoding of their row exactly when the spare bitmap bits are clear and no NULL is forbidden |
| Table.AddExact | kv/table.go:231-239 | adding a key to a bucket keeps the buckets exact precisely when the value indexed has the index key of the value stored |
| Table.DropExact | kv/table.go:241-249 | taking a key out keeps the buckets exact and leaves no empty bucket |
| Table.AdmittedConsistent | kv/table.go:155-171 | putting a row as it is keeps unique columns free of repeats exactly when the unique check lets it in |
| Table.AdmittedStaysUnique | kv/table.go:133-171 | a row the unique check lets in leaves unique columns free of repeats exactly when none of its unsettled values reads back as the value of another row |
| Table.EmptyBytesTwice | kv/table.go:133-171 | a unique column lets a second empty byte value in |
| Table.EmptyBytesLeaveAKey | kv/table.go:218-249 | an empty byte value is indexed as empty, reads back as nil, and leaves its key in the bucket when deleted |
| Table.IntAsFloatIsMisindexed | kv/table.go:133-153 | an int in a float column is stored as a float that the index does not find |
| Table.CanonAcceptable | kv/table.go:430-507 | an accepted row is accepted again as it reads back, with a record no longer |
| Table.StoredRow | kv/table.go:133-153 | a row that fits a record reads back in canonical form |
| Table.Table.ValidateConstraints | kv/table.go:155-171 | accepts exactly rows that share no unique non-NULL value with a row that prints another key |
| Table.Table.Insert | kv/table.go:133-153 | for any key and row: succeeds exactly on acceptable, admitted rows; the rows afterwards; an exact index stays exact precisely when every indexed value reads back as itself, and no index is exact after one that does not; keys stay printed first columns precisely when this key is |
| Table.Table.Delete | kv/table.go:218-227 | removes one row and its index entries; an exact index stays exact |
| Table.Table.Find | kv/table.go:252-268 | returns each row of the value's bucket, once; with an exact index these are the rows with that value |
| Table.Table.Scan | kv/table.go:279-298 | returns every row once |
| Table.Table.Update | kv/table.go:301-330 | for any changes: puts the matching rows again with the changed columns, stopping at the first refused; an exact index stays exact precisely when no row was put or the changes read back as themselves |
| Table.UpdatesInPlace | kv/table.go:301-330 | an update that leaves the first column alone changes the matching rows in place and nothing else |
| Table.Table.DeleteWhere | kv/table.go:332-357 | removes exactly the matching rows and counts them |
| Table.NewTable | kv/table.go:91-113 | opens exactly on a valid non-empty schema whose stored rows all decode; with an exact index when keys are printed first columns |
| Restore.Restore | sql/sql.go:1159-1168 | succeeds exactly when the image meets the table's constraints, and then the rows are the image |
| Restore.Reinsert | sql/sql.go:1042-1047 | the rows are the image again exactly when the image meets the table's constraints |
| Restore.RestoreAll | sql/sql.go:1041-1048 | after a failed request a table is back to its image exactly when the image meets its constraints, for every table |
| Restore.RunStatement | sql/sql.go:1203-1241 | a statement changes its own table only, as INSERT, UPDATE or DELETE say |
| Restore.ExecuteAll | sql/sql.go:1027-1053 | a request of several statements that fails leaves a table with exactly the rows it had before if and only if those rows met its constraints, for every table |
| Restore.EmptyBytesLost | sql/sql.go:1041-1048 | two rows let in with empty bytes in a unique column cannot be put back |
| Restore.CommitLeavesClash | sql/sql.go:1126-1168 | for any two rows with one value in a unique column: a run in which a commit stores both, and the image of the table then cannot be put back |
| Select.SelectRows | sql/sql.go:1742-1808 | returns the rows a condition selects, each once, by scan or among the bucket of an indexed equality; with an exact index and a value without lookalikes asked for, exactly what scan-then-filter returns |
| Lookalikes.IndexIsScan | sql/sql.go:1323-1424 | for every column type and every value asked for: index and scan select the same rows on every table exactly when the value is NULL or, by its type and the column's, has no lookalike |
| Lookalikes.LookalikesOf | sql/sql.go:1361-1424 | a stored value of the column's type with another index key compares equal exactly when the value asked for is not indexable there |
| Lookalikes.InIntColumn | sql/sql.go:1361-1424 | in an int column a lookalike exists exactly for ints that share their float, whole floats in range and NaN, and what prints as a 64-bit int |
| Lookalikes.InFloatColumn | sql/sql.go:1361-1424 | in a float column a lookalike exists for every int, for zero and NaN, for every number when NaNs are stored, and for what prints as a float |
| Lookalikes.InBytesColumn | sql/sql.go:1361-1424 | in a byte column a lookalike exists exactly for empty bytes and what prints as a byte slice |
| Lookalikes.FiveAsText | sql/sql.go:1361-1404 | 5 asked of a string column that holds '5', and '5' of an int column that holds 5, are missed through the index and found by a scan |
| Lookalikes.FiveAsFloat | sql/sql.go:1361-1424 | 5 asked of a float column that holds 5.0 is missed through the index and found by a scan |
| Lookalikes.LookalikeMissed | sql/sql.go:1748-1754 | a row with a stored value that compares equal and has another index key is returned by a scan and missed through the index |
| Lookalikes.PlainHasNoLookalike | sql/sql.go:1361-1404 | when stored and asked values are strings, bools or ints within 2^53, index and scan select the same rows |
| Lookalikes.LargeIntsLookAlike | sql/sql.go:1361-1371 | 2^53 asked of an int column that holds 2^53 + 1 is missed through the index and found by a scan |
| Select.SameKeysSameBag | kv/table.go:252-298 | two listings of the same rows in any order are the same multiset |
| Conditions.OrderIsEquality | sql/sql.go:1361-1404 | comparing equal is being equal on plain values of one type |
| Numbers.AsFloatExact | sql/sql.go:1416-1424 | ints up to 2^53 survive conversion to a 64-bit float |
| Numbers.AsFloatCollides | sql/sql.go:1416-1424 | 2^53 and 2^53 + 1 become the same float |
| Numbers.FloatTellsApart | sql/sql.go:1416-1424 | converting to a 64-bit float tells an int from every other int exactly below 2^53 in magnitude, and between 2^53 and 2^54 for those 2 modulo 4 |
| Numbers.FloatOfSomeInt | sql/sql.go:1416-1424 | a float is the conversion of some 64-bit int exactly when it is whole and between -2^63 and 2^63 |
| Numbers.FloatOf | sql/sql.go:1416-1424 | every 64-bit int converts to some float pattern that is no NaN |
| Numbers.NumberIsPattern | sql/sql.go:1361-1371 | two float patterns are one number only when they are equal or both zeros |
| Printing.NumeralOfSomeInt | sql/sql.go:1406-1413 | a text is what some 64-bit int prints exactly when it reads as an int that prints it |
| Printing.SliceOfSomeBytes | sql/sql.go:1406-1413 | a text is what some byte slice prints exactly when it reads as one that prints it |
| Printing.SliceTextTells | sql/sql.go:1406-1413 | byte slices that print alike are equal |
| Conditions.SameKeyEqual | sql/sql.go:1361-1404 | values with one index key compare equal, NaNs and NULLs included |
| Transactions.NextKeepsInv | sql/sql.go:1109-1175 | every request of every client keeps the protocol invariant |
| Transactions.FirstCommitterWins | sql/sql.go:1126-1153 | in every run, of two transactions that committed a write to one key, one began after the other committed |
| Transactions.CommitReplacesWhatItSaw | sql/sql.go:1130-1136 | in every run, a successful commit replaces for each written key the value its snapshot showed |
| Transactions.TransactionReads | sql/sql.go:1057-1091 | in every run, the rows seen in a transaction are the BEGIN rows overlaid with its own staged writes |
| Transactions.RollbackRestoresBegin | sql/sql.go:1155-1175 | in every run, a ROLLBACK leaves each table with exactly the rows live at BEGIN |
| Transactions.RollbackErasesOthers | sql/sql.go:1155-1175 | a run in which a ROLLBACK removes a row another client wrote |
| Transactions.RollbackLeavesKey | sql/sql.go:1155-1175 | in every run, a ROLLBACK leaves a key as it finds it exactly when the snapshot still reads it so, in particular when the key has not changed since |
| Transactions.QuietRollback | sql/sql.go:1155-1175 | in every run with no write between BEGIN and ROLLBACK, the rollback changes no table: only the staged writes vanish |
| Transactions.SnapshotCount | kv/store.go:283-290 | in every table the number of snapshots held is the number of open transactions |
| Executor.OverlayRows | sql/sql.go:1063-1086 | the index-shifting loop shows exactly the overlaid rows, in whatever order the writes are walked |
| Executor.ScanAt | kv/table.go:204-216 | lists exactly the keys live at the snapshot, each once, with the value it had there |
| Executor.TransactionRows | sql/sql.go:1057-1091 | a statement inside a transaction works on exactly the snapshot's rows overlaid with the staged writes |
| Executor.FindConflict | sql/sql.go:1130-1136 | finds a conflict exactly when some written key changed since the snapshot |
| Executor.ApplyRowsBatch | kv/table.go:70-84 | writes each staged key once, or nothing when a row has no encoding |
| Executor.Executor.Begin | sql/sql.go:1109-1124 | refused inside a transaction; otherwise a snapshot and image of every table |
| Executor.Executor.RecordWrite | sql/sql.go:1093-1103 | stages the write in the open transaction, if its table is covered |
| Executor.Executor.Commit | sql/sql.go:1126-1153 | conflict exactly on a changed key; otherwise all writes applied and snapshots released, or stopped at a table that cannot be encoded |
| Executor.Executor.Rollback | sql/sql.go:1155-1175 | every table restored to its image and released |
| Executor.BeginIsStep | sql/sql.go:1109-1124 | the executor's BEGIN is a step of the protocol |
| Executor.RecordWriteIsStep | sql/sql.go:1093-1103 | staging a write is a step of the protocol |
| Executor.ConflictIsStep | sql/sql.go:1126-1136 | a refused COMMIT is a step of the protocol that leaves the transaction open |
| Executor.CommitIsStep | sql/sql.go:1126-1153 | the executor's successful COMMIT is a step of the protocol |
| Executor.BrokenCommitIsStep | sql/sql.go:1138-1146 | the executor's COMMIT stopped midway is a step of the protocol |
| Executor.RollbackIsStep | sql/sql.go:1155-1175 | the executor's ROLLBACK is a step of the protocol |
| Tokens.ItoaRoundTrip | sql/sql.go:820-823 | printing and reading a 64-bit integer gives it back |
| Where.OperandRoundTrip | sql/sql.go:811-832 | a literal or parameter written as a token is read back |
| Where.PrintThenParse | sql/sql.go:565-637 | parsing a printed condition gives the same tree and consumes exactly its tokens, whatever stands around it |
| Where.ReadBackSelectsTheSame | sql/sql.go:1323-1359 | the condition read back selects the same rows |
| Where.PrintedIsShortest | sql/sql.go:565-637 | no token list that parses to the tree is shorter than its printed form |
| Where.Parser.ReadOr | sql/sql.go:565-579 | terminates on every token list ending in EOF with the result and position of the grammar |
| Where.Parser.ReadAnd | sql/sql.go:581-595 | terminates on every token list ending in EOF with the result and position of the grammar |
| Where.Parser.ReadPrimary | sql/sql.go:597-637 | a parenthesised condition, an IS test or a comparison, or an error, as the grammar has it |
| Lexer.ScanString | sql/sql.go:111-131 | the text up to the closing quote with escapes undone, or an unterminated string |
| Lexer.Lex | sql/sql.go:45-164 | the token sequence of the text and the end mark, or an error |
| Lexer.SplitStatements | sql/sql.go:1177-1201 | the non-blank stretches between semicolons outside quotes, trimmed |
| Splitting.ReadAppend | sql/sql.go:45-164 | text that ends outside strings, followed by a delimiter, reads as its two parts |
| Splitting.TrimSame | sql/sql.go:1177-1201 | trimming white space changes no token |
| Splitting.SplitCommutes | sql/sql.go:1177-1201 | for every text: where splitter and lexer agree at every semicolon on being inside a string, the text lexes exactly when every statement does; and a text that lexes has its tokens cut at semicolons, empty pieces dropped, as the statements' tokens exactly when they agree so |
| Splitting.NoEscapedQuoteSameView | sql/sql.go:111-131 | on every text in which no backslash escapes the quote of its own string, splitter and lexer agree at every semicolon |
| Splitting.EscapesDoNotCommute | sql/sql.go:117-123 | a string with an escaped quote and a semicolon is one token that the splitter cuts, so splitting and lexing do not commute |
| Join.MergeRows | sql/sql.go:1777-1788 | for any two rows, the left row, the right row's other columns and its repeated columns under qualified names, written in some order of the right row's columns |
| Join.MergeIsMerged | sql/sql.go:1777-1788 | when no column only on the right has a qualified name, every order gives the same merged row |
| Join.MergeDetermined | sql/sql.go:1777-1788 | for any columns: rows with them have one merged row whatever they hold exactly when no column only on the right has a qualified name |
| Join.TwoMerges | sql/sql.go:1777-1788 | a repeated column whose qualified name is a column of the right side only gives two different merged rows, by the order walked |
| Join.PartnersInBucket | sql/sql.go:1774-1776 | a left row's partners are all in its bucket, in order |
| Join.HashJoin | sql/sql.go:1767-1793 | the pairs of the nested loop over all pairs, in its order, each merged |
| Join.JoinDetermined | sql/sql.go:1767-1793 | when no column only on the right has a qualified name, the joined rows are determined |
| Join.PairsIsEquality | sql/sql.go:1774-1776 | pairs are kept exactly on equal index keys, NULL with NULL: comparing them again drops none |

## Left out

- Wal.LogFile.Replay: the apply callback does not fail, so replay stopping at its error is not modelled.
- WalRecovery.TornLengthsFail: a log of more than a gigabyte behind a record torn in its lengths is not resolved, since lengths and checksum are then a mixture of two records.
- RecordLog.PageChain.LastPage: requires the page count to stay below 2^32 - 1; the code does not check it.
- RecordLog.PageChain.AppendRecord: requires the page count to stay below 2^32 - 1.
- Store.Store.Append: requires the page count to stay below 2^32 - 1.
- Store.Store.Put: requires the page count to stay below 2^32 - 1.
- Store.Store.Delete: requires the page count to stay below 2^32 - 1.
- Store.Store.ApplyBatch: requires the page count to stay below 2^32 - 1.
- Store.Store.Compact: requires the page count to stay below 2^32 - 1.
- Store.Open: the log is empty, as after a clean close; whole-store crash recovery is not modelled.
- Store.Reopen: covers a session begun on an empty file; opening with a saved index leaves hasPages false, so later appends start a second chain (kv/store.go:146-160, 557-566).
- Pool.Pager.AllocatePage: requires the page count to stay below 2^32 - 1.
- Pool.Pager.Flush: the file is a map of pages; zero-filled gaps left by an out-of-order write-out are not modelled, since such pages are still dirty in the pool.
- PoolSpec.RunShowsLastPut: calls complete one at a time; the interleaved Get is covered by FinishGetOk and StaleRead.
- Table.Table.Insert: the store underneath is a map of encoded rows whose records fit a page.
- Table.Table.Scan: does not state key order, which BTree.BPlusTree.InOrder states for the tree underneath.
- Table.Table.DeleteWhere: a delete does not fail; in the code it can by an error of the store.
- Restore.RunStatement: the first column of a new row must print the same before and after it is stored, as every settled value does.
- Restore.ExecuteAll: the same; and a request inside a transaction or with transaction control runs statement by statement without restoring (sql/sql.go:1016-1026) and is not modelled.
- Transactions.SnapshotCount: a BEGIN whose scan fails midway keeps the snapshots already taken (sql/sql.go:1112-1121); scans do not fail in the model.
- Executor.Executor.Begin: scans do not fail.
- Executor.ApplyRowsBatch: an operation fails only for a row without an encoding; a record too large for a page inside a batch is modelled by Store.Store.ApplyBatch.
- Executor.Executor.Commit: the same.
- Executor.Executor.Rollback: the protocol assumes that putting the image back is not refused; Restore.Restore has the exact condition.
- Lexer.SplitStatements: white space as in ASCII.
- Splitting.TrimSame: white space as in ASCII.
- Splitting.SplitCommutes: white space as in ASCII; outside ASCII the trim decodes UTF-8 while the lexer reads bytes. The numbers of parameters, which start again in each statement, are left out of the comparison.
- Lookalikes.IndexIsScan: how floats and instants print is given as a function, so that in float and time columns a value of another type is told by the text it prints.
- Where.PrintThenParse: float literals go through a formatter and a reader given as functions, and keyword matching folds ASCII letters only.
- The store uses an array of pages instead of the buffer pool, and the pool holds page contents as values, so a caller changing a cached page in place is not modelled.
- The executor and the protocol hold tables as store values of encoded rows; the secondary index is not updated by a committed transaction (kv/table.go:70-84) and is modelled for direct table operations only.
- UPDATE and DELETE inside a transaction are staged writes; a change of the first column there is not modelled.
- Failing writes of the log and index files.
- Index keys: the `%T:%#v` string of a value is modelled as the typed value it prints, with all NaNs together.
- gob, JSON and CRC-32 internals: the index file is its entry list and the checksum an arbitrary function.
- Creating, altering and dropping tables, foreign keys, prepared statements, the rest of the SQL grammar.
- Aggregates, GROUP BY, ORDER BY, LIMIT and OFFSET, EXPLAIN and SHOW.
- The TCP server, authentication, backup, the catalog and the command line.
