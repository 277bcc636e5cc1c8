# RunnelDB in Dafny

A model of RunnelDB, a small MVCC storage engine with a write-ahead log, B+tree indexes
and a SQL layer, and proofs of what it promises.  `dafny verify dfyconfig.toml` checks
everything.

The project follows the layers of the engine.

- **Transaction kernel.** `Mvcc`, `Compaction` and `Transactions` give Begin, put/del, Get,
  Commit, Rollback, Compact, crash and reopen as steps of a state machine, each atomic as
  under the database lock.  A log of all committed records is kept beside the code's own
  state; `View(log, v, k)` over it is the specification.  `TransactionRuns` proves
  statements about every run, `VersionRuns` what becomes of the version counter.  `Engine` holds the objects `Db` and `Tx` with their loops;
  every method's new state is tied to the step of the machine it implements.
- **Write-ahead log.** `Wal` and `WalRecovery` work on bytes: framing, replay of arbitrary
  input, torn-tail repair, the search for a valid record after damage, and a crash at any
  byte of an append.  `CrashRuns` carries whole runs of the kernel down to these bytes.
- **B+tree.** `BTreeModel`, `BTreeProofs` and `BTreeRuns` treat the tree as a value (order,
  splits, lazy deletion, occupancy over whole runs).  `BTreeNodes` and `BTreeIndex` are the
  heap nodes, changed in place, with the leaf sibling chain; they refine the value tree.
- **Codecs.** `LittleEndian`, `Keys`, `Page`, `Row`, `JsonBin`.
- **SQL layer.** `Secondary` (composite keys and the index object over a B+tree), `Scan`
  (`scanPrefix`), and `SqlModel`, `SqlAnswers`, `SqlIndexes`, `SqlStore`, `SqlCollect`,
  `SqlStatements`, `SqlCatalog`, `SqlEngine`, `SqlDatabase`: predicates, what a WHERE clause
  selects by scan and by index, the invariant between rows and indexes, every statement, and
  the rebuild on open.  `SqlMeaning` says what literals, predicates, paths and stored rows
  mean without the functions that compute them.  `SqlWitnesses` shows small tables where index and scan differ.
  `StatementCommits` ties the map these modules use as their store to the transaction kernel,
  and `SqlRecovery` carries a statement through a crash at any byte.  An index of the SQL layer is the sorted list of its tree's entries,
  which is what the contracts of `BTree` and `SecondaryIdx` speak of.

## Assumptions

- `crc32`, JSON marshalling of records and definitions, JSON text parsing and printing, float
  formatting and the Unicode identifier test are function-valued parameters (`Wal.Codec`,
  `SqlModel.Env`, `SqlRecovery.CatCodec`).
- The machine of `Transactions` takes a file to hold records and reopening to find them.  On
  bytes this needs the records in the file to be storable when a crash strikes: JSON reads
  them back (their keys are UTF-8) and each is within the size limit that replay enforces.
  `CrashRuns` has the runs with this condition, and shows that it is exact.
- A file is a byte sequence; appends may be cut at any byte; rename is atomic.
- SQL statements run one after another, so each is a `DB.Update` with nobody else writing,
  which is the update of a plain map (`StatementCommits.UpdateIsMapUpdate`).
- Names in statements are in normalised form, table names hold no slash (they are
  identifiers), and the column names of a table are distinct.
- In a table with a TEXT primary key, text taken into an index holds no NUL byte, the
  separator of composite keys.  Under INTEGER keys it may.

## Where the code does not do what one might expect

Each is proved on the code as it is, with the exact condition where the behaviours part.

- A NULL literal on an indexed column: the index answers with rows holding zero, the empty
  text or a text that starts with NUL, the scan with rows holding NULL (`NullLiteralAgreesIff`);
  likewise on a path and on the primary key (`NullPathAgreesIff`, `PkPathAgreesIff`).
- A literal of the wrong type on an indexed column is an error by index and no rows by scan
  (`IllTypedLiteralDiffers`).  A BLOB literal on an indexed path is an error by index, and by
  scan an error exactly if some row has a value at the path (`BlobPathAgreesIff`).
- "lookup returns all row keys matching the exact indexed value" is a prefix test.  It also
  takes entries of texts that go on behind the text sought with a NUL byte, and entries whose
  row key completes a text sought that holds one (`PrefixTest`, `PrefixTestText`); index and
  scan agree exactly if no row is such (`IndexPathAgreesIff`, `IndexesAgreeWithScan`).  Under
  TEXT keys, moreover, every text with a NUL byte shares a composite key with a shorter text
  (`CollidesIffNul`).
- The record size limit is enforced on reading only: everything from the first larger record
  on is lost on reopening, or the file is reported corrupt (`ReopensIffWithinLimit`).  A
  compaction with no older reader merges all live keys into one record, so commits that were
  each within the limit can be lost together (`CompactionKeepsIff`, `SnapshotLost`,
  `CompactionLosesCommits`).
- Compaction of a database without live keys writes no records, and the version counter then
  restarts at 0 (`CounterSurvivesCompaction`, `CounterSurvivesRestart`, `CounterLost`).
- The root-collapse branch of `Delete` is never taken (`RootNeverCollapses`).

## Model

| member | source | states |
|---|---|---|
| `BTreeModel.CompareIsOrder` | btree.go:17-42 | `compare` is a strict total order with equality exactly at 0 |
| `BTreeModel.PutIsMapUpdate` | btree.go:168-187 | inserting into the sorted entries is a map update |
| `BTreeModel.DropIsMapRemoval` | btree.go:216-229 | dropping a key from the entries is a map removal |
| `BTreeModel.FindIsMapLookup` | btree.go:68-80 | searching the entries is a map lookup |
| `BTreeModel.FromIsSuffix` | btree.go:99-110 | the entries from a key on are exactly the suffix with keys not below it |
| `BTreeProofs.EntriesSorted` | btree.go:51-57 | in a well-formed tree the in-order entries are strictly ascending |
| `BTreeProofs.InsertEntries` | btree.go:147-214 | insertion with any number of splits yields the entries with the key put in order |
| `BTreeProofs.InsertWF` | btree.go:147-214 | insertion keeps separators bounding subtrees, equal leaf depth and at most 8 keys per node |
| `BTreeProofs.DeleteCorrect` | btree.go:216-229 | lazy deletion removes exactly the key and keeps the tree well formed at the same height |
| `BTreeRuns.StepSound` | btree.go:82-97 | one Put or Delete keeps every tree invariant, acts as on a finite map, and adds at most one to the weight that bounds the leaves |
| `BTreeRuns.Run` | btree.go:82-97 | every run of Put and Delete from the empty tree is well formed, keeps at least 4 keys in non-root interior nodes, and its contents are those of the same run on a map |
| `BTreeRuns.RunIsMap` | btree.go:68-97 | after any run the descent of Get finds exactly what the map of the run holds |
| `BTreeRuns.LeafBounds` | btree.go:147-214 | with N Puts and height h >= 1: 2*5^(h-1) <= leaves <= 1 + N/4, and every non-root interior node has at least 4 keys |
| `BTreeRuns.RootNeverCollapses` | btree.go:92-97 | after no run does Delete leave an interior root without keys |
| `BTreeNodes.BNode.Insert` | btree.go:147-166 | the in-place insertion leaves heap nodes that represent the value tree's result, with the leaf chain linked in order |
| `BTreeNodes.BNode.ChildPosition` | btree.go:139-145 | the loop finds the first key above k |
| `BTreeNodes.BNode.LeafPosition` | btree.go:169-172 | the loop finds the first key not below k |
| `BTreeNodes.BNode.KeyPosition` | btree.go:68-80 | the loop finds the key, or the end |
| `BTreeNodes.BNode.Adopt` | btree.go:156-165 | the split child's key and right half go in beside it, splitting an overfull node |
| `BTreeNodes.BNode.InsertLeaf` | btree.go:168-187 | the key goes to its sorted position or replaces an equal one, in place |
| `BTreeNodes.BNode.SplitLeaf` | btree.go:189-201 | the upper half moves to a fresh leaf linked between the leaf and its old successor |
| `BTreeNodes.BNode.SplitInterior` | btree.go:203-214 | the middle key moves up and the upper children to a fresh node |
| `BTreeNodes.BNode.Delete` | btree.go:216-229 | the in-place deletion represents the value tree's result on the same nodes |
| `BTreeIndex.BTree.constructor` | btree.go:64-66 | a new tree is empty and valid |
| `BTreeIndex.BTree.Get` | btree.go:68-80 | returns the map's value for the key, or nothing |
| `BTreeIndex.BTree.Put` | btree.go:82-90 | the map gains the key; the tree is the value model's, with fresh nodes only where it split |
| `BTreeIndex.BTree.Delete` | btree.go:92-97 | the map loses the key; no node is added or dropped |
| `BTreeIndex.BTree.Seek` | btree.go:99-110 | the iterator's remaining entries are exactly those with key at least k |
| `BTreeIndex.BTree.Ascend` | btree.go:112-118 | the iterator's remaining entries are all entries |
| `BTreeIndex.Iter.Next` | btree.go:125-137 | returns the first remaining entry and leaves the rest, stepping over leaves that deletion emptied; terminates |
| `BTreeIndex.LeavesCarryEntries` | btree.go:51-57 | the sibling chain holds the in-order entries |
| `BTreeIndex.CollectFrom` | btree.go:99-137 | Seek and repeated Next return exactly the entries with key at least k, once each, ascending |
| `Mvcc.VisibleIsView` | tx.go:15-39 | the backward search over the full version list of a key gives the committed value as of the version |
| `Mvcc.ReplayVersions` | db.go:100-109 | applying a log record by record gives every key its versions in order |
| `Mvcc.CutVisible` | compact.go:97-139 | a history pruned at some mark shows the same value for every version at or above it |
| `Mvcc.CutPrune` | compact.go:97-139 | pruning again at a higher mark keeps a suffix of the full version list that serves every reader at or above that mark |
| `Mvcc.CutLast` | tx.go:98-110 | pruning keeps the newest version or drops a key whose newest version is a tombstone at or below the mark |
| `Mvcc.PruneExact` | compact.go:97-139 | said of the versions: pruning keeps a suffix, everything above the mark and at most one version below it, and nothing exactly if the list is empty or ends in a deletion at or below the mark |
| `Mvcc.LastWriteIff` | tx.go:103-110 | a key's last write is above a version exactly if some record above it writes the key |
| `Compaction.GeneralReplay` | compact.go:169-202 | replaying `compactRecords` with retain below the version reproduces the pruned history, key by key and version by version |
| `Compaction.SnapshotView` | compact.go:143-167 | with retain equal to the version, replay reproduces the value visible there for every key |
| `Compaction.CompactView` | compact.go:143-202 | in both cases every reader at or above retain sees the same values |
| `Compaction.CompactRecordsOk` | compact.go:143-202 | the written records have strictly ascending versions within bounds and no key twice in a record |
| `Compaction.LiveOpsOrdered` | compact.go:150-162 | a compacted record lists its operations in key order |
| `Compaction.GroupOpsOrdered` | compact.go:179-191 | so does every version group |
| `Transactions.ReadIsView` | tx.go:15-39 | a read at or above the mark on the pruned history gives the committed value as of that version |
| `Transactions.ConflictExact` | tx.go:98-110 | the check on the pruned history finds a conflict exactly if the key's last commit is above the snapshot |
| `Transactions.OldestBounds` | db.go:132-145 | the oldest read version is that of some open transaction and at or below all of them, the version if there is none, and never below the previous mark |
| `Transactions.WriteOpsSorted` | tx.go:98-118 | a commit's record has one operation for each key written, in key order |
| `Transactions.CommitInv` | tx.go:80-128 | Commit keeps the invariant linking history, WAL records, committed log and commits |
| `Transactions.CompactInv` | compact.go:11-82 | Compact keeps it, whether or not the new file replaced the old one |
| `Transactions.ReopenInv` | db.go:54-98 | reopening from the file establishes it again |
| `Transactions.StepInv` | db.go:100-145 | every step keeps it |
| `TransactionRuns.RunInv` | db.go:100-145 | it holds in every state of every run |
| `TransactionRuns.RepeatableRead` | tx.go:15-39 | an open transaction's read of a key it has not written never changes, whatever commits and compactions follow |
| `TransactionRuns.SnapshotIsolation` | tx.go:15-39 | at any later point Get returns the own last write, else the value committed when the transaction began |
| `TransactionRuns.FirstCommitterWins` | tx.go:98-110 | two transactions committed since the database was opened that wrote a common key never overlap, compactions notwithstanding |
| `TransactionRuns.ConflictIff` | tx.go:98-110 | a commit is refused exactly if some written key was committed after the snapshot |
| `TransactionRuns.CommitOutcome` | tx.go:80-128 | in every reachable state: a writable commit that wrote something and was not overtaken adds one record with the next version and gives each written key its last write; any other only ends the transaction |
| `TransactionRuns.ReadOnlyChangesNothing` | tx.go:57-66 | a transaction begun read-only has no writes at any later point, and its commit changes nothing |
| `TransactionRuns.CompactLeavesOne` | compact.go:86-95 | after a compaction a key has at most one version that is not above the oldest snapshot, and keys whose newest version is a deletion there are gone |
| `TransactionRuns.CompactLeavesLive` | compact.go:143-167 | with no reader, history and file then hold exactly the live keys, one version each |
| `TransactionRuns.WalAgreesWithMemory` | compact.go:11-82 | in every reachable state, replaying the WAL shows what memory shows from the mark upward, for every key |
| `TransactionRuns.MarkBelowSnapshots` | db.go:132-145 | the mark never exceeds an open snapshot |
| `TransactionRuns.Durable` | tx.go:112-128 | after any run with compactions and crashes that find the file's records again, the database shows the committed write sets applied in order; an interrupted commit counts whole or not at all |
| `TransactionRuns.NewReaderSeesCommitted` | db.go:112-124 | a new reader then sees exactly that map |
| `CrashRuns.FileStepRefines` | db.go:54-98 | each step on bytes is the machine's step, as long as a crash finds storable records in the file it leaves |
| `CrashRuns.FileRunRefines` | db.go:54-98 | so is every run, with crashes at any byte of an append and on either side of a compaction's rename |
| `CrashRuns.DurableOnBytes` | wal.go:94-165 | after such a run from a new file the database shows exactly the committed write sets, and the file holds exactly its records |
| `CrashRuns.CrashKeepsIff` | wal.go:137-140 | a crash reopens to the same records exactly if every record in the file is within the limit |
| `CrashRuns.CompactionKeepsIff` | compact.go:41-67 | a crash after a compaction reopens to the compacted records exactly if every record it wrote is within the limit |
| `CrashRuns.SnapshotLost` | compact.go:144-167 | if the one record of a compaction with no older reader is over the limit, the database is empty or does not open |
| `CrashRuns.CompactionLosesCommits` | compact.go:144-167 | two commits within the limit that a restart keeps, and a compaction after which it does not |
| `VersionRuns.CompactCounted` | compact.go:143-202 | a compaction writes no record exactly if there is no older reader and no live key; otherwise its records end at the current version |
| `VersionRuns.RunCounted` | tx.go:119 | in every run the log ends at the counter, the file ends at it or is empty, and no record is without operations |
| `VersionRuns.CounterSurvivesRestart` | db.go:106-108 | after any run a restart finds the counter again exactly if the file holds a record or nothing was committed |
| `VersionRuns.CounterSurvivesCompaction` | compact.go:163-166 | after any run a compaction and a restart keep the counter exactly if nothing was committed, a reader is older, or a key is live |
| `VersionRuns.CounterLost` | compact.go:163-166 | put, delete, compact, restart: the counter falls from 2 to 0 |
| `Engine.PruneVersions` | compact.go:97-139 | the loops keep exactly what pruning may and must keep of the versions |
| `Engine.MakeRecords` | compact.go:143-202 | the grouping loops compute exactly the specified records |
| `Engine.CollectLive` | compact.go:144-167 | the live keys' last values, in key order |
| `Engine.CollectGroups` | compact.go:192-201 | one record per version, ascending |
| `Engine.GroupByVersion` | compact.go:174-191 | the group map has one entry per version in the history, with the operations in key order |
| `Engine.Db.constructor` | db.go:68-87 | applying the recovered records gives their replay and highest version |
| `Engine.Db.ApplyRecord` | db.go:100-109 | history and version after one record |
| `Engine.Db.Begin` | db.go:112-124 | a transaction at the current version, writable as asked, or none when closed |
| `Engine.Db.OldestReadVersion` | db.go:132-145 | the minimum over the active transactions, taken by one of them, or the version |
| `Engine.Db.PruneAll` | compact.go:86-95 | the history becomes the pruned history |
| `Engine.Db.Compact` | compact.go:11-82 | the object takes the machine's Compact step and the file holds exactly the new records |
| `Engine.Db.Rewrite` | compact.go:18-45 | history pruned, and a file of exactly the compacted records |
| `Engine.Db.AppendAndApply` | tx.go:119-124 | file, history and version after one more record |
| `Engine.OpenDb` | db.go:54-98 | opening gives the error, or a database with the records found and the file cut back |
| `Engine.RecoverFromTornAppend` | wal.go:94-103 | a crash at any byte of an append and the reopening reach the machine's state with or without the record |
| `Engine.RecoverFromTornCompact` | compact.go:41-67 | a crash during a compaction and the reopening from the old or the new file reach the machine's state for it |
| `Engine.Tx.Get` | tx.go:15-39 | own write, else the version search, as the machine's Get |
| `Engine.Tx.Put` | tx.go:57-66 | records the write, or refuses when closed or read-only |
| `Engine.Tx.Del` | tx.go:68-77 | records the deletion, likewise |
| `Engine.Tx.FindConflict` | tx.go:103-110 | the loop over sorted keys finds a conflict exactly if there is one |
| `Engine.Tx.CollectOps` | tx.go:115-118 | the write set in key order |
| `Engine.Tx.Persist` | tx.go:115-127 | append, apply and unregister amount to the machine's commit |
| `Engine.Tx.Unregister` | db.go:126-128 | the transaction leaves the active list and nothing else changes |
| `Engine.Tx.Commit` | tx.go:80-128 | the error returned and the machine's commit step, in every case |
| `Engine.Tx.Rollback` | tx.go:131-140 | the transaction closes and nothing else changes |
| `LittleEndian.RoundTrip32` | wal.go:82-92 | a 32-bit field reads back modulo 2^32 |
| `LittleEndian.RoundTrip64` | row.go:17-30 | a 64-bit field reads back |
| `LittleEndian.ByteOrder` | wal.go:88-89 | the low byte comes first |
| `Wal.HasValidRecord` | wal.go:185-209 | the forward search meets its specification, stopping at the first over-long candidate |
| `Wal.Replay` | wal.go:108-183 | the loop computes the replay that `RecoveryExact` characterises, on arbitrary bytes |
| `Wal.Open` | wal.go:59-80 | new, bad-header, corrupt and recovered files, with the truncated contents |
| `WalRecovery.EncodedIsFrame` | wal.go:82-92 | an encoded storable record passes every check of replay |
| `WalRecovery.CrashInAppend` | wal.go:94-165 | with committed frames and any byte prefix of the next, recovery returns exactly the complete frames and cuts the file there |
| `WalRecovery.Reopens` | wal.go:108-165 | a file of storable records opens to exactly these and is unchanged |
| `WalRecovery.ReplayIsFrames` | wal.go:108-165 | on any bytes, what lies before lastGood is exactly one valid frame per applied record |
| `WalRecovery.FrameIsCanonical` | wal.go:82-92 | every valid frame is the framing of its own payload |
| `WalRecovery.RecoveryIdempotent` | db.go:68-87 | recovering the truncated file again gives the same records and changes nothing |
| `WalRecovery.CorruptHasLaterFrame` | wal.go:169-209 | ErrWALCorrupt only if a complete checksummed frame follows the damaged one |
| `WalRecovery.RecoveryExact` | wal.go:108-209 | on any bytes behind a good header: the valid frames up to the first place without one are the records and the rest is cut, unless the frame there is complete and a valid frame follows it with no over-long candidate between: then and only then ErrWALCorrupt |
| `WalRecovery.Decomposes` | wal.go:108-165 | every file with a good header is of that form |
| `WalRecovery.DamageIsReported` | wal.go:169-183 | a record with a wrong checksum right before an intact one is reported, whatever precedes and follows them |
| `WalRecovery.OpenVerdicts` | wal.go:32-80 | the header's bytes, and exactly which files are new, of another kind or of another version |
| `WalRecovery.ReopensIffWithinLimit` | wal.go:137-140 | a file reopens to its records exactly if all are within the limit; otherwise what precedes the first larger one is left, or the file is corrupt |
| `WalRecovery.OversizedIsLost` | wal.go:137-140 | a record over the limit ends the recovery, whatever follows it |
| `Scan.ScanPrefix` | scan.go:13-58 | strictly key-sorted; holds a pair exactly if the key has the prefix and Get in the same transaction returns the value |
| `Scan.SortPairs` | scan.go:54-57 | sorted, with the same pairs |
| `Scan.NewestUpTo` | scan.go:46-51 | the newest version at or below the snapshot, or none |
| `Keys.IntRoundTrip` | keys.go:36-38 | decimal formatting is undone by parsing for every int64 |
| `Keys.EscapeRoundTrip` | keys.go:32-34 | percent-encoding (section 2.1 of RFC 3986) is undone by decoding and leaves no slash |
| `Keys.PkRoundTrip` | keys.go:32-51 | an encoded primary key decodes to itself |
| `Keys.RowKeyRoundTrip` | keys.go:24-59 | a row key has its table's prefix and parses back to its primary key |
| `Keys.RowKeyInjective` | keys.go:24-26 | row keys of different rows differ |
| `Keys.KeyLayout` | keys.go:24-38 | the form of keys in the store, by example |
| `Keys.TablesDisjoint` | keys.go:28-30 | no key is under the row prefixes of two tables |
| `Page.PutAppends` | page.go:50-65 | a successful Put keeps every earlier payload, adds the new one, and keeps payloads and slot directory apart |
| `Page.Page.Reset` | page.go:21-26 | an empty page in the buffer |
| `Page.Page.Write` | page.go:50-65 | a copy into the buffer changes those bytes only |
| `Page.Page.Put` | page.go:50-65 | refuses exactly if payload and slot do not fit; else the payload list grows by it |
| `Page.Page.Get` | page.go:68-79 | on a page made by Reset and Put the i-th payload; on any bytes, exactly when the slot is missing, when it points outside the page, and which bytes it names otherwise |
| `Page.EncodeRowPage` | page.go:97-104 | the one-payload page, if it fits |
| `Page.RowPageRoundTrip` | page.go:97-116 | exactly payloads of at most 4088 bytes have a page, and it gives them back |
| `Page.FitsIff` | page.go:50-57 | a payload fits exactly if header, all payloads and four bytes per slot stay within the page |
| `Row.ValueRoundTrip` | row.go:17-95 | an encoded value followed by anything decodes to what storing keeps of it, with its exact length |
| `Row.EncodeRow` | row.go:97-106 | the loop writes the count and every value in order |
| `Row.DecodeRow` | row.go:108-124 | the loop reads the specified values or fails |
| `Row.PackRoundTrip` | row.go:126-137 | what packs unpacks to the same values, NULLs losing only their type; the page limit keeps the 16-bit count and the 32-bit lengths from being cut |
| `Row.ValueLayout` | row.go:17-48 | tags, lengths and payloads of a value in the file |
| `Row.DecodeExact` | row.go:51-95 | whatever decodes was encoded: the bytes taken are the encoding of the value returned |
| `Row.RowExact` | row.go:108-124 | a row decodes only from bytes that begin with its encoding |
| `JsonBin.AppendDoc` | jsonbin.go:201-292 | appends the specified bytes, or fails exactly if a node is deeper than 32 |
| `JsonBin.AppendElems` | jsonbin.go:247-259 | elements in order |
| `JsonBin.AppendFields` | jsonbin.go:260-288 | fields in ascending key order |
| `JsonBin.ReadJson` | jsonbin.go:294-376 | the offset-driven reader computes the specified result on arbitrary bytes |
| `JsonBin.ReadElemsLoop` | jsonbin.go:328-343 | an array's elements, or failure |
| `JsonBin.ReadFieldsLoop` | jsonbin.go:344-372 | an object's fields, refusing a repeated key and truncation |
| `JsonBin.DocRoundTrip` | jsonbin.go:201-376 | an encoded document followed by anything reads back with its exact length |
| `JsonBin.PrefixFree` | jsonbin.go:201-376 | encodings followed by anything are equal only if the documents and the rests are |
| `JsonBin.BytesDecideEquality` | sql_exec.go:860-861 | byte equality is document equality, objects as maps |
| `JsonBin.ShortIsSmall` | jsonbin.go:240-288 | an encoding below 4 GiB has no length cut by its 32-bit field |
| `JsonBin.BinLayout` | jsonbin.go:201-288 | tags, lengths and payloads of a document in the file |
| `JsonBin.ShallowIff` | jsonbin.go:202-204 | the documents that encode are those without a node 33 levels down |
| `JsonBin.ReadExtends` | jsonbin.go:294-376 | what reads from some bytes reads the same when more follow |
| `JsonBin.ReadShallow` | jsonbin.go:294-376 | only the eight tags read, and nothing deeper than the limit |
| `JsonBin.TruncationRefused` | jsonbin.go:294-376 | an encoding cut anywhere does not read |
| `JsonBin.RepeatRefused` | jsonbin.go:362-364 | a repeated key does not read |
| `Secondary.CompositeInjective` | secondary.go:62-73 | separator-free values: equal composite keys mean equal value and row |
| `Secondary.PrefixMeansValue` | secondary.go:85-96 | a composite key starts with a value's prefix exactly if it is of that value |
| `Secondary.CompositeInjectiveInt` | secondary.go:62-73 | under INTEGER keys equal composite keys mean equal value and row, whatever the text holds |
| `Secondary.PrefixTest` | secondary.go:109-124 | the exact outcome of lookup's test: the value itself, a text that runs on behind a NUL, or a row key that completes the text sought |
| `Secondary.PrefixTestText` | secondary.go:109-124 | for separator-free text sought, the wrong entries are the texts that go on behind it with a NUL |
| `Secondary.CollidesIffNul` | secondary.go:62-73 | under TEXT keys a text shares a composite key with another, separator-free text exactly if it holds the separator |
| `Secondary.LeadingIsAll` | secondary.go:109-124 | scanning from the prefix until it stops matching misses nothing |
| `Secondary.SecondaryIdx.Insert` | secondary.go:98-101 | the tree's map and its sorted entries gain the composite key |
| `Secondary.SecondaryIdx.Remove` | secondary.go:103-106 | the tree's map and its sorted entries lose it |
| `Secondary.SecondaryIdx.Lookup` | secondary.go:109-124 | the row keys of all entries under the value's prefix, in key order |
| `Secondary.LookupIsMapQuery` | secondary.go:109-124 | a row key is returned exactly if some entry under the prefix holds it |
| `SqlModel.Extract` | jsonbin.go:115-138 | fails exactly on a bad path, undecodable bytes, or an array or object with a float JSON cannot print; what it finds is NULL, INTEGER or TEXT |
| `SqlModel.JsonExtract` | jsonbin.go:115-138 | the loop along the path computes the specified walk |
| `SqlModel.ExtractReadsPath` | jsonbin.go:115-138 | on an encoded document the extraction is the walk in the document itself |
| `SqlModel.LeafValue` | jsonbin.go:156-195 | fails exactly on an array or object JSON cannot print; what it is otherwise, `LeafMatches` says |
| `SqlModel.ToValue` | sql_exec.go:298-336 | computes the value of a literal that `LiteralMeans` characterises |
| `SqlModel.ColumnIndex` | catalog.go:41-48 | a column of that name, or the certainty that there is none |
| `SqlModel.ExprMakesClean` | sql_exec.go:298-336 | literals become NULL or a value of the column's type, JSON ones decodable |
| `SqlModel.ValuesEqualIsEquality` | sql_exec.go:848-865 | on stored values `valuesEqual` is equality |
| `SqlModel.MatchWhere` | sql_exec.go:807-846 | the loop decides the clause that `WhereMeans` characterises |
| `SqlModel.StoredKeepsMeaning` | secondary.go:128-150 | storing a row changes neither its key nor what an index takes from it |
| `SqlModel.PackedRowOk` | row.go:126-137 | every row that packs is stored as a well-typed row of its table |
| `SqlModel.IndexValueOk` | secondary.go:128-150 | on stored rows `valueFromRow` never fails and yields INTEGER or TEXT only |
| `SqlMeaning.ParsePathIff` | jsonbin.go:69-93 | the paths that parse are a dollar, or a dollar, a dot and identifiers joined by dots, and the segments are these |
| `SqlMeaning.WalkIff` | jsonbin.go:124-136 | a walk ends at a document exactly if fields lead there |
| `SqlMeaning.LiteralMeans` | sql_exec.go:298-336 | exactly the fitting literals convert, and the stored cell holds that number, text, bytes, NULL, or the document the text parses to |
| `SqlMeaning.LeafMatches` | jsonbin.go:156-195 | a leaf equals an INTEGER exactly if it is that integer or a float standing for it, a TEXT exactly if it is that string, that word for a bool, that float's text, or prints so, and NULL exactly if it is null |
| `SqlMeaning.PredMeans` | sql_exec.go:807-846 | a predicate selects a stored row exactly if the named cell, or the value at the path in its document, equals the literal |
| `SqlMeaning.WhereMeans` | sql_exec.go:807-846 | a clause is met exactly if every predicate is, and fails exactly if one fails after all before it are met |
| `SqlMeaning.ScanMeans` | sql_exec.go:765-792 | the scan selects exactly the rows that meet every predicate |
| `SqlMeaning.InsertMeans` | sql_exec.go:418-449 | the stored row holds the values in column order, or each named column its last value and the others NULL |
| `SqlMeaning.InsertedRowIff` | sql_exec.go:418-449 | exactly which INSERTs describe a row |
| `SqlMeaning.UpdateMeans` | sql_exec.go:541-558 | the stored row holds each named column's last value and what it had elsewhere |
| `SqlAnswers.PkPathAgreesIff` | sql_exec.go:667-700 | the primary-key path equals the scan exactly if the literal has the key's type and a NULL one meets no zero key |
| `SqlAnswers.IndexPathAgreesIff` | sql_exec.go:702-763 | for a typed, non-NULL literal a secondary or path index selects the rows of the scan exactly if no row passes the prefix test falsely |
| `SqlAnswers.FalseRowText` | secondary.go:109-124 | for a separator-free literal, the false rows are those whose text goes on behind it with a NUL |
| `SqlAnswers.NulFreeNoFalse` | secondary.go:109-124 | separator-free literals and texts have no false rows |
| `SqlAnswers.NullLiteralAgreesIff` | sql_exec.go:848-851 | with a NULL literal the column index and the scan agree exactly if the column holds neither NULL nor what reads as zero |
| `SqlAnswers.NullPathAgreesIff` | sql_exec.go:794-805 | with a NULL literal the path index finds nothing, which is right exactly if no row has a JSON null there |
| `SqlAnswers.IllTypedLiteralDiffers` | sql_exec.go:836-842 | a literal of the wrong type fails by index and selects nothing by scan |
| `SqlAnswers.BlobPathAgreesIff` | sql_exec.go:794-805 | a BLOB literal on a path fails by index, and by scan exactly if some row has a value at the path |
| `SqlWitnesses.PkNullDiffers` | sql_exec.go:672-678 | a table where a NULL literal on the key returns the row with key 0 |
| `SqlWitnesses.NullDiffers` | sql_exec.go:738-740 | tables where a NULL literal on an indexed column misses a NULL, or returns a 0 |
| `SqlWitnesses.NullPathDiffers` | sql_exec.go:738-740 | a table where a NULL literal on an indexed path misses a JSON null |
| `SqlWitnesses.BlobPathDiffers` | sql_exec.go:722-727 | an empty table where a BLOB literal on a path fails by index only |
| `SqlWitnesses.NulDiffers` | secondary.go:109-124 | under INTEGER keys, a lookup that returns the row of another text |
| `SqlIndexes.PkIndexedPut` | sql_exec.go:485 | inserting a row's entry keeps the primary-key index equal to the rows |
| `SqlIndexes.PkIndexedDrop` | sql_exec.go:630-634 | removing a key's entry keeps the primary-key index equal to the rows |
| `SqlIndexes.PkIndexedUnique` | sql_exec.go:1086-1100 | the rows determine the primary-key index |
| `SqlIndexes.KeysDistinct` | secondary.go:62-73 | no two rows of a table share a composite key, under INTEGER keys or with separator-free text |
| `SqlIndexes.SecIndexedPut` | secondary.go:98-101 | inserting a row's entry keeps the secondary index equal to the rows |
| `SqlIndexes.SecIndexedDrop` | secondary.go:103-106 | removing a row's entry removes that row's only |
| `SqlIndexes.SecIndexedUnique` | sql_exec.go:1119-1144 | the rows determine the index, entry by entry and in order |
| `SqlIndexes.LookupFindsRows` | secondary.go:109-124 | a lookup returns the row keys of exactly the rows under the prefix, once each |
| `SqlStore.RowsPut` | sql_exec.go:472-477 | writing a row key changes that row of that table |
| `SqlStore.RowsDel` | sql_exec.go:616-623 | deleting a row key removes that row of that table |
| `SqlStore.RowsPutOther` | keys.go:24-30 | and no row of another table |
| `SqlCollect.PkRows` | sql_exec.go:667-700 | one index lookup lists exactly the row with the key |
| `SqlCollect.ChooseIndex` | sql_exec.go:705-718 | an index that serves the predicate, or the certainty that there is none |
| `SqlCollect.ChoiceIs` | sql_exec.go:661-765 | which clauses the primary-key index, a secondary index and the scan answer |
| `SqlCollect.FetchAll` | sql_exec.go:742-760 | the rows behind the row keys, once each |
| `SqlCollect.Pairs` | scan.go:13-58 | the visible pairs under a prefix, in key order |
| `SqlCollect.IndexRows` | sql_exec.go:720-762 | lists exactly the rows the lookup names, once each, with keys and values |
| `SqlCollect.ScanRows` | sql_exec.go:766-792 | lists exactly the rows matchWhere accepts, or fails exactly if it fails on some row |
| `SqlCollect.IndexesAgreeWithScan` | sql_exec.go:661-792 | whichever path answers a typed, non-NULL equality, the rows are those of the table scan exactly if no row passes the prefix test falsely |
| `SqlCollect.CollectRows` | sql_exec.go:661-792 | the answer in every case, and agreement with the scan where it holds |
| `SqlStatements.SetRowAt` | sql_exec.go:439-449 | a cell holds the last value assigned to its column, or what it held before |
| `SqlStatements.SetRowKeepsKey` | sql_exec.go:523-527 | assignments that do not name the key column keep the key |
| `SqlStatements.InsertConsistent` | sql_exec.go:472-499 | one inserted row keeps rows and all indexes in step |
| `SqlStatements.UpdatedAt` | sql_exec.go:541-564 | an update replaces exactly the selected rows |
| `SqlStatements.UpdateConsistent` | sql_exec.go:536-595 | any batch of updated rows keeps rows and all indexes in step |
| `SqlStatements.DeletedAt` | sql_exec.go:616-623 | a delete removes exactly the selected rows |
| `SqlStatements.DeleteConsistent` | sql_exec.go:611-650 | any batch of deleted rows keeps rows and all indexes in step |
| `SqlCatalog.DropConsistent` | sql_exec.go:363-403 | dropping a table leaves every other table, row and index as it was |
| `SqlCatalog.CreateConsistent` | sql_exec.go:338-361 | a new table starts empty and keeps rows and indexes in step |
| `SqlCatalog.IndexConsistent` | sql_exec.go:1027-1037 | adding an index that agrees with its table keeps them in step |
| `SqlCatalog.BuildPkIndex` | sql_exec.go:1086-1100 | building from a scan gives the index of the table's rows |
| `SqlCatalog.BuildSecIndex` | sql_exec.go:1000-1022 | building from a scan gives the index of the table's rows |
| `SqlCatalog.RebuildSqlState` | sql_exec.go:1060-1147 | what is rebuilt from catalog and stored rows equals what the statements maintained, exactly |
| `SqlEngine.BuildRow` | sql_exec.go:418-449 | the row an INSERT describes, or the error |
| `SqlEngine.ApplySets` | sql_exec.go:544-554 | the assignments of an UPDATE on one row, or the error |
| `SqlEngine.InsertIntoIndexes` | sql_exec.go:486-498 | the row goes into every index on its table and into no other |
| `SqlEngine.UpdateIndexes` | sql_exec.go:570-592 | in every index on the table, old rows out and new rows in |
| `SqlEngine.DeleteFromIndexes` | sql_exec.go:635-649 | the rows leave every index on their table |
| `SqlEngine.DeletePairs` | sql_exec.go:369-376 | exactly the keys under the table's row prefix go, as many as the table has rows |
| `SqlEngine.RewriteRows` | sql_exec.go:541-564 | all new pages staged, or nothing if one row cannot be rewritten |
| `StatementCommits.UpdateIsMapUpdate` | db.go:158-168 | an Update with nobody else writing reads the map with its own operations made, never conflicts, and leaves the database showing that map |
| `StatementCommits.UpdateStores` | sql_exec.go:536-567 | the store an UPDATE leaves is what committing its writes leaves |
| `StatementCommits.DeleteStores` | sql_exec.go:611-625 | the store a DELETE leaves is what committing its deletions leaves |
| `StatementCommits.InsertStores` | sql_exec.go:472-477 | the store an INSERT leaves is what committing its write leaves |
| `SqlRecovery.KeySpaces` | keys.go:16-30 | row keys, table definitions and index definitions do not mix |
| `SqlRecovery.RowOpsImage` | sql_exec.go:472-477 | a transaction on rows takes the store that holds one state to the store that holds the next |
| `SqlRecovery.InsertImage` | sql_exec.go:472-477 | so does INSERT |
| `SqlRecovery.UpdateImage` | sql_exec.go:536-567 | so does UPDATE |
| `SqlRecovery.DeleteImage` | sql_exec.go:611-625 | so does DELETE |
| `SqlRecovery.CreateImage` | sql_exec.go:338-351 | CREATE TABLE does so with the definition under its catalog key |
| `SqlRecovery.DropImage` | sql_exec.go:366-389 | DROP TABLE does so with deletions of its rows, its definition and those of its indexes |
| `SqlRecovery.IndexImage` | sql_exec.go:1027-1032 | CREATE INDEX does so with the definition |
| `SqlRecovery.UnindexImage` | sql_exec.go:1048-1052 | DROP INDEX does so with its deletion |
| `SqlRecovery.LoadTables` | catalog.go:74-85 | the table definitions read back from the store are those of the state |
| `SqlRecovery.LoadIndexes` | secondary.go:37-48 | and so are the index definitions |
| `SqlRecovery.ImageConsistent` | sql_exec.go:1060-1147 | rows and indexes agree with the store that holds the state |
| `SqlRecovery.OpenSql` | db.go:54-98 | opening a file whose records show a state brings the SQL layer up in exactly that state |
| `SqlRecovery.StatementTorn` | wal.go:94-165 | a crash at any byte of a statement's append leaves a file that shows the store after it if the record is complete, else before it |
| `SqlRecovery.RecoverStatement` | db.go:68-91 | after that crash tables, rows and every index entry are those after the statement or those before it |
| `SqlRecovery.ScanIsPairs` | scan.go:13-58 | scanPrefix in a transaction that wrote nothing returns the pairs of the map the database shows |
| `SqlDatabase.ListsCount` | sql_exec.go:563 | the number of rows affected is the number of rows selected |
| `SqlDatabase.UpdateEffect` | sql_exec.go:541-564 | after an update each selected row holds the values assigned and every other row its old ones |
| `SqlDatabase.ChosenMeans` | sql_exec.go:661-792 | for a usable clause a statement works on exactly the rows that meet it |
| `SqlDatabase.SqlDb.ExecCreate` | sql_exec.go:338-361 | succeeds exactly if the name is free; the new table is empty |
| `SqlDatabase.SqlDb.ExecDrop` | sql_exec.go:363-403 | succeeds exactly if the table exists; its rows, counted, its definition and its indexes go |
| `SqlDatabase.SqlDb.ExecInsert` | sql_exec.go:405-501 | succeeds exactly if the row can be built, has a key, fits a page and is new; adds that row, whose cells hold the literals; keeps the invariant |
| `SqlDatabase.SqlDb.ExecUpdate` | sql_exec.go:513-596 | succeeds exactly if selection and every rewrite do; rewrites exactly the selected rows, whose cells hold the literals; keeps the invariant |
| `SqlDatabase.SqlDb.ExecDelete` | sql_exec.go:598-653 | removes exactly the selected rows, for a usable clause those that meet it; keeps the invariant |
| `SqlDatabase.SqlDb.ExecCreateIndex` | sql_exec.go:956-1038 | succeeds exactly on a fresh name and an indexable column or path; the built index agrees with the rows |
| `SqlDatabase.SqlDb.ExecDropIndex` | sql_exec.go:1040-1057 | removes the index from memory and catalog |
| `SqlDatabase.SqlDb.Exec` | sql_exec.go:134-163 | every statement succeeds exactly when it can, does then what it is for, changes nothing otherwise, and keeps the invariant |
| `SqlDatabase.SqlDb.Select` | sql_exec.go:867-953 | the rows of a usable clause are those of the table scan, the ones that meet it |
| `SqlDatabase.SqlDb.Reopen` | sql_exec.go:1060-1147 | the in-memory state after rebuilding is the one before |

## Left out

- TransactionRuns.FirstCommitterWins: speaks of one opening, because the list of commits restarts at a crash; no transaction outlives a crash, and the counter may restart lower.
- TransactionRuns.Durable: on the machine, where reopening finds the records of the file; `CrashRuns.DurableOnBytes` is the form with the condition on sizes that bytes need.
- TransactionRuns.NewReaderSeesCommitted: as `Durable`.
- Wal.HasValidRecord: soundness of the search only; it stops at the first over-long candidate, so a later valid record may be missed.
- Secondary.SecondaryIdx.Lookup: stated on prefixes; which values these are is in `PrefixTest`.
- Engine.Db.Compact: the outcome when every file operation succeeds; a failing rename is the machine's Compact without it, and failures after it close the database.
- Engine.Tx.Commit: an append that fails without a crash is not modelled; it ends the run as a crash would.
- SqlDatabase.SqlDb.Select: the rows selected; the projection of columns and json_extract items is left out.
- SqlCollect.Pairs: scans the plain map; own writes and versions are in `Scan.ScanPrefix`, which `SqlRecovery.ScanIsPairs` shows to return the same pairs.
- SqlDatabase.SqlDb.ExecInsert: needs separator-free indexed text under TEXT keys (so do ExecUpdate and ExecCreateIndex), because composite keys collide otherwise.
- SqlDatabase.SqlDb.ExecCreate: needs distinct normalised column names; the parser does not check them.
- The SQL layer's indexes are values (sorted entries), not the heap trees themselves; sharing of tree objects between maps is not modelled.
- SQL statements interleaving with one another: index maintenance is a separate critical section after the commit, and the code promises nothing in between.
- Error branches of the SQL layer on stored data (a row that does not unpack, a row key that does not parse, an index value that fails after the commit) are proved not to occur and have no branch in the methods.
- Rows, Scan and Metrics: result plumbing.
- Case folding of names, argument binding, lexer and parser: statements arrive bound and normalised.
- Set and Delete of user keys with their reserved-prefix test: only row and catalog keys matter to the SQL layer.
- File handling: open, seek, sync and their errors.
- Wrap-around of the 64-bit version counter; integer widths of encoded fields are modelled.
- Conversion of integral floats in JSON and of large JSON numbers: part of the parameters.
- The HTTP server, the checkpoint worker and options: the worker only adds Compact steps, which the machine has.
