# A verified model of the key-value engine

This project models the wired engine: an in-memory B+ tree, a write-ahead log in front of it, and
the engine that joins them. It proves that the tree is a map, that the log is what was written, and
that the map after a restart, a crash or a repeated recovery is what the log says it must be.

`dafny verify dfyconfig.toml` checks everything.

## How it is built

| file | content |
|---|---|
| `KvTypes.dfy` | byte strings, status codes, `Slice::compare` and the two binary searches |
| `Entries.dfy` | sorted runs of entries: the reference meaning of the tree, and the map of a run |
| `TreeShape.dfy` | the node table, the tree it spells out, and the structural invariant |
| `TreeGraft.dfy`, `TreeRepair.dfy` | replacing children after a split; borrowing and merging |
| `TreeChain.dfy`, `TreeFacts.dfy`, `TreeHeight.dfy` | what the invariant says about the leaf chain, the nodes and the height |
| `BPlusTree.dfy` | the class: node table, free list, put, get, delete, changed in place |
| `Cursor.dfy` | the iterator |
| `TreeVerify.dfy`, `TreeOrder.dfy` | the integrity check, what it decides, and when a table that passes is in order |
| `WalFormat.dfy` | the record format: writing and reading one file |
| `WalLayout.dfy` | records in numbered files, and what reading the directory delivers |
| `Wal.dfy` | the class: write buffer, file stream, rotation, sync, recovery |
| `Replay.dfy` | what a list of records does to a map |
| `Engine.dfy` | the class: log first, apply second, rebuild by replay |
| `Crash.dfy`, `Restart.dfy` | what a crash leaves; an engine closed, crashed or recovered again |
| `Runs.dfy`, `Sessions.dfy` | whole runs of operations, over any number of sessions, and a crash at the end |
| `Locks.dfy`, `Calls.dfy` | a step model of threads and the two reader/writer locks; what each call logs, does and answers |

The tree is a class over a table of nodes addressed by ids. A ghost tree beside the table names the
nodes reached from the root; `BPlusTree.Valid` says that the table spells out exactly that tree,
that its entries are in strict order, that every separator is the least key on its right, that all
leaves are equally deep, that every node but the root holds between max/2 and max keys, that the
leaves are chained in order, and that the nodes in use are those of the tree, each once. The bound
max is any number from 3 up.

The order of keys is carried by `Rank`, a strictly monotone embedding of byte strings into the
reals; `CompareIsRank` ties it to the byte comparison of the source.

The log writes through a buffer into a stream that passes on as much as it likes whenever it likes,
so the bytes on disk are, at any moment, some prefix of what was written since the last sync. The
checksum is a parameter: everything holds for every function from bytes to 32-bit numbers, and
nothing is claimed about how much damage a checksum finds. Timestamps are arbitrary numbers.

## What turned out not to hold

- `Verify()` accepts tables that are out of order, for two reasons: it never compares a child's last
  key with the next separator, and it skips the separator of a child that begins with the empty key
  (`src/btree/btree.cpp:572-575`). `TreeVerify.PassesOutOfOrder` and `TreeOrder.PassesWithEmptyKey`
  are instances. A table that passes is in order if and only if at every node the keys below each
  child are below the next separator and no child but the first begins with the empty key
  (`TreeOrder.OrderedExactly`). Put and Delete never make any other table
  (`TreeOrder.ReachableOrdered`).
- The writer takes fields up to 4 GiB, the reader rejects fields above 256 MiB
  (`src/wal/wal.cpp:118`, `src/wal/wal.cpp:284-287`). Recovery succeeds exactly when no record is
  that large (`Restart.CleanRestart`); otherwise the oversized record and everything after it are
  lost (`Restart.OversizedCutsLog`), although each operation reported success
  (`Sessions.LoseOversizedPut`). A record can be that large only if the write buffer is configured
  above 256 MiB, since a field must fit the buffer.
- The public `Recover` on a live engine replays what is on disk. It keeps the map if and only if
  nothing on disk is outdated by a record still in memory, and it keeps the counter past the numbers
  in use if and only if all or nothing of the log is on disk (`Restart.RecoverLive`,
  `Restart.PartlyResumed`). `Sessions.RecoverStale` is a run where an old value comes back: put, sync,
  put again, recover, with a second record that fits the write buffer and the file.
- After a crash the file is reopened for appending without removing a torn record
  (`src/wal/wal.cpp:103`). What is appended is taken for the missing part of the torn record: shorter
  appends vanish while recovery reports success, longer ones are corrupt unless the checksum of the
  mixture agrees (`Crash.TornRecordTakesAppends`; `Crash.TornHeaderTakesAppends` for a cut inside the
  header, with `Crash.TornTailHidesAppends` as an instance). What is left is a well laid out log if and
  only if no record was torn (`Crash.WholeExactly`), and then the log can go on
  (`Restart.CrashRestart`).
- A change does not always return: once logged, a put with a key, or a delete, goes on if and only if
  no iterator is alive, and until then no other thread gets at the engine, not even to read
  (`Locks.BlockedExactly`). So a thread that changes anything while it owns an iterator waits in
  every run (`Locks.OwnCursorBlocks`). A put with an empty key returns all the same
  (`Locks.EmptyKeyReturns`).
- A scan does not take O(log n + k) steps for k results (`README.md:1026`): whatever the limit, and
  however few the results, it walks from the leaf its start falls into to the end of the chain
  (`Cursor.TreeIterator.Scan`, exact for every start and limit). So an empty range at the front walks
  over all leaves of the tree (`Cursor.WalkForNothing`).

## Model

| member | source | states |
|---|---|---|
| `KvTypes.CompareIsRank` | include/kv_types.h:48-56 | `Slice::compare` agrees in sign with the order of the ranks and is zero only on equal strings |
| `KvTypes.CompareLexicographic` | include/kv_types.h:48-56 | a string sorts first exactly when it is a proper prefix or has the smaller byte at the first difference |
| `KvTypes.CompareTotalOrder` | include/kv_types.h:48-56 | the comparison is antisymmetric and transitive, zero only on equal strings, with the empty string first |
| `KvTypes.LowerBound` | src/btree/btree.cpp:72-80 | the first position not below the key, found by bisection |
| `KvTypes.UpperBound` | src/btree/btree.cpp:85-93 | the first position above the key |
| `KvTypes.BoundsUnique` | src/btree/btree.cpp:72-93 | both partition points are unique; they differ by one exactly when the key is in the list |
| `Entries.PutContents` | src/btree/btree.cpp:196-204 | putting into a sorted run is map update |
| `Entries.DelContents` | src/btree/btree.cpp:294-299 | deleting from a sorted run is map removal |
| `Entries.RunUnique` | src/btree/btree.cpp:182-265 | a sorted run is determined by its map, so the tree's entries do not depend on its history |
| `BTree.BPlusTree.constructor` | src/btree/btree.cpp:103-110 | the empty tree satisfies the invariant and stands for the empty map; the bound is at least 3 |
| `BTree.BPlusTree.AllocateNode` | src/btree/btree.cpp:27-46 | hands out a slot that was not in use, the most recently freed one first, and changes no other node in use |
| `BTree.BPlusTree.FreeNode` | src/btree/btree.cpp:144-149 | frees a slot in use and counts it off; does nothing to any other id |
| `BTree.BPlusTree.GetNode` | src/btree/btree.cpp:56-64 | finds a node exactly when the id is in use |
| `BTree.BPlusTree.InsertIntoLeaf` | src/btree/btree.cpp:195-220 | the leaf's entries become the run with the key put, in one leaf or split in two that are both at least half full; the separator is the first key on the right |
| `BTree.BPlusTree.SplitLeaf` | src/btree/btree.cpp:207-219 | both halves hold between max/2 and max entries, together the old ones in order, and are chained into the place of the old leaf |
| `BTree.BPlusTree.Insert` | src/btree/btree.cpp:191-247 | a put below any node puts into its run of entries and leaves the rest of the table alone, whether or not nodes are split |
| `BTree.BPlusTree.SplitInternal` | src/btree/btree.cpp:236-246 | an overfull internal node becomes two properly filled ones around the separator that moves up |
| `BTree.BPlusTree.SeparatorIndex` | src/btree/btree.cpp:223-232 | the separator of a split child lands at the index that was descended through |
| `TreeGraft.SeparatorLands` | src/btree/btree.cpp:222-232 | in an ordered tree the lower bound of the new separator is the child index |
| `TreeGraft.GraftInserted` | src/btree/btree.cpp:222-234 | a parent whose child was split satisfies the invariant again, up to its own size, with the key put in its run |
| `BTree.RootGrown` | src/btree/btree.cpp:254-263 | a new root over the two halves is a valid tree one level higher with the same entries |
| `BTree.BPlusTree.Put` | src/btree/btree.cpp:182-265 | refines map update: the invariant is kept, the map becomes old[key := value], the size grows by one exactly when the key was new; an empty key is rejected and changes nothing; no internal error |
| `BTree.BPlusTree.FindLeaf` | src/btree/btree.cpp:168-180 | ends at a leaf such that all leaves to its left hold smaller keys and all to its right larger ones |
| `BTree.BPlusTree.Get` | src/btree/btree.cpp:267-279 | returns the map's value, or NotFound exactly when the key is absent; no internal error |
| `BTree.BPlusTree.EraseFromLeaf` | src/btree/btree.cpp:292-304 | removes the key from the leaf's run or reports NotFound without touching the table, and reports underflow and first key correctly |
| `BTree.BPlusTree.BorrowLeft` | src/btree/btree.cpp:347-367 | moving the last entry or child of the left sibling leaves every node properly filled and all entries in order |
| `BTree.BPlusTree.BorrowRight` | src/btree/btree.cpp:368-388 | the same from the right sibling, also when the child has become empty |
| `BTree.BPlusTree.Merge` | src/btree/btree.cpp:389-432 | merging two siblings keeps all entries in order, chains past the merged leaf, frees exactly one node, and leaves a properly filled node |
| `BTree.BPlusTree.Rebalance` | src/btree/btree.cpp:345-433 | whichever repair is taken, all children are properly filled afterwards |
| `BTree.BPlusTree.RefreshSeparators` | src/btree/btree.cpp:438-441 | the final loop makes every separator exact, whatever the repairs left |
| `TreeRepair.PairSurgery` | src/btree/btree.cpp:345-433 | replacing two neighbouring children by one or two with the same entries keeps order, chain, footprint and occupancy of the parent, also across leaves of other parents |
| `TreeRepair.JoinForks` | src/btree/btree.cpp:399-405 | two internal nodes joined around their separator form one properly filled subtree with the same entries |
| `TreeRepair.BorrowLastChild` | src/btree/btree.cpp:356-363 | rotating a child to the right keeps entries, exact separators and occupancy |
| `TreeRepair.BorrowFirstChild` | src/btree/btree.cpp:378-385 | rotating a child to the left does, also when the receiving node has no keys |
| `BTree.BPlusTree.Mend` | src/btree/btree.cpp:314-449 | after a child lost a key: separators refreshed, siblings rebalanced, the node is again a subtree with the key removed from its run |
| `BTree.BPlusTree.Erase` | src/btree/btree.cpp:288-450 | a delete below any node removes the key from its run and leaves the rest of the table alone; a missing key changes nothing |
| `BTree.RootCollapse` | src/btree/btree.cpp:459-467 | an internal root without keys has one child, which is a valid tree one level lower with the same entries |
| `BTree.BPlusTree.Delete` | src/btree/btree.cpp:281-476 | refines map removal: NotFound exactly when the key is absent, and then the whole object is unchanged; otherwise the map loses the key and the invariant is kept on every path |
| `TreeFacts.Occupancy` | src/btree/btree.cpp:345-449 | in every reachable tree all leaves are equally deep, and every node but the root holds between max/2 and max keys |
| `TreeFacts.SeparatorIsLeast` | src/btree/btree.cpp:438-441 | key i - 1 of every internal node is the least key below child i and above all keys below child i - 1 |
| `TreeFacts.NodeAccounting` | src/btree/btree.cpp:27-54 | the ids reached from the root are exactly the slots in use, each once; the node count is their number; the free list holds the other slots, each once; no reference leads to a freed slot |
| `TreeChain.ChainVisitsLeaves` | src/btree/btree.cpp:581-592 | following the chain from the leftmost leaf visits exactly the leaves in order, each once, and ends at 0 |
| `TreeHeight.HeightBound` | src/btree/btree.cpp:254-263 | with m = max/2 and height h >= 2 the size lies between 2 m (m+1)^(h-2) and max (max+1)^(h-1), and is at least 2^(h-1) |
| `TreeVerify.VerifyTable` | src/btree/btree.cpp:545-594 | on any table whose nodes form a tree, missing nodes and too few children included, the check returns true if and only if no node is missing, child counts, local order, occupancy, exact separators, equal depth, size and leaf chain are right |
| `TreeVerify.VerifyNode` | src/btree/btree.cpp:554-577 | the recursion finds each missing node and each local fault, and otherwise collects the leaves in order and the number of entries |
| `TreeVerify.VerifyChain` | src/btree/btree.cpp:581-592 | the walk along the chain succeeds if and only if it meets exactly the collected leaves and ends |
| `TreeVerify.ValidPasses` | src/btree/btree.cpp:545-594 | the invariant implies everything the check looks at |
| `TreeFacts.PassesEachNode` | src/btree/btree.cpp:554-577 | passing the check means at each node: increasing keys, at least max/2 of them below the root, leaves at one depth, one child more than keys, and the first key of each child as its separator unless that key is empty |
| `TreeVerify.Verify` | src/btree/btree.cpp:545-594 | the check returns true in every reachable state |
| `TreeVerify.PassesOutOfOrder` | src/btree/btree.cpp:570-575 | passing does not imply order: a key that no search finds, left of a smaller separator |
| `TreeOrder.PassesWithEmptyKey` | src/btree/btree.cpp:574 | nor when every key is under its separator: the empty key hides the comparison |
| `TreeOrder.OrderedExactly` | src/btree/btree.cpp:554-577 | a tree that passes the local tests is in order if and only if at every node the keys below child i are below separator i and no child but the first begins with the empty key |
| `TreeOrder.OrderedWithoutEmptyKey` | src/btree/btree.cpp:554-577 | without empty keys, if and only if the keys below child i are below separator i at every node |
| `TreeOrder.ReachableOrdered` | src/btree/btree.cpp:182-476 | every reachable table is in order, has every key under its separator and holds no empty key |
| `Cursor.TreeIterator.Seek` | src/btree/btree.cpp:681-687 | the cursor comes to rest with exactly the entries from the target up to the limit ahead of it; the walk begins in the leaf the target falls into |
| `Cursor.TreeIterator.SeekToFirst` | src/btree/btree.cpp:613-631 | the same from the iterator's start, or from the leftmost leaf |
| `Cursor.TreeIterator.SkipEmptyOrPastLimit` | src/btree/btree.cpp:633-643 | walking on drops nothing that is due, ends, and counts the leaves left behind; it ends nowhere but at an entry below the limit or at the end of the chain |
| `Cursor.TreeIterator.Next` | src/btree/btree.cpp:689-699 | moves past exactly one entry and counts the leaves left behind |
| `Cursor.WalkForNothing` | src/btree/btree.cpp:613-643 | a scan from the empty string to the empty string has no result and walks over all leaves of the tree, at least size / max of them |
| `Cursor.TreeIterator.HasEntry` | src/btree/btree.cpp:645-651 | true exactly while an entry is due |
| `Cursor.TreeIterator.Scan` | src/btree/btree.cpp:613-699 | a full scan delivers the tree's entries with start <= key < limit, and walks over exactly the leaves from the one the start falls into to the end of the chain |
| `Cursor.ScanMeaning` | src/btree/btree.cpp:613-699 | what a scan delivers is in increasing order and is exactly the part of the map in the range |
| `Cursor.SeekPosition` | src/btree/btree.cpp:613-628 | the lower bound in the leaf found is the right place, also when it is past the end of the leaf |
| `WalFormat.EncodeFixed32` | src/wal/wal.cpp:26-31 | writes four bytes and no others; the byte at offset i counts 256^i, and together they are the number |
| `WalFormat.EncodeFixed64` | src/wal/wal.cpp:34-37 | the same for eight bytes |
| `WalFormat.Fixed64Inverse` | src/wal/wal.cpp:34-51 | decoding inverts encoding for 64-bit numbers |
| `WalFormat.BuildHeader` | src/wal/wal.cpp:138-154 | the 29 bytes of the header, each number as its sum of bytes: kind at 0, number at 1, time at 9, key size at 17, value size at 21, checksum of the first 25 bytes, key and value at 25 |
| `WalFormat.EncodedBytes` | src/wal/wal.cpp:138-179 | a record in a file, byte by byte: that header, the key from offset 29, then the value |
| `WalFormat.ReadBytes` | src/wal/wal.cpp:265-319 | what the reader takes from which bytes: sizes at 17 and 21, corrupt if either is above 268435456, incomplete if the bytes do not reach, corrupt if the checksum at 25 differs, otherwise the record with every field from its offset |
| `WalFormat.ReadLimit` | src/wal/wal.cpp:284-287 | a record reads back as itself, whatever follows, if its key and value have at most 268435456 bytes each, and is corrupt otherwise |
| `WalFormat.ReadEncoded` | src/wal/wal.cpp:265-316 | reading an encoded record gives it back, whatever follows, if and only if its fields are within the reader's limit |
| `WalFormat.ReadTorn` | src/wal/wal.cpp:267-304 | a record cut anywhere is neither delivered nor taken for corruption |
| `WalFormat.ReadDamaged` | src/wal/wal.cpp:306-316 | a whole record with another checksum is corrupt |
| `WalFormat.ParseFile` | src/wal/wal.cpp:265-325 | the reading loop computes the parse of the file |
| `WalFormat.ParseInverts` | src/wal/wal.cpp:265-325 | parsing what was written delivers the records up to the first oversized one, and reports success if and only if there is none |
| `WalFormat.ParseTorn` | src/wal/wal.cpp:267-304 | parsing any truncation delivers exactly the whole records in it and reports success |
| `WalFormat.WholeRecordsMeaning` | src/wal/wal.cpp:267-304 | those are the longest list of leading records whose bytes are all there |
| `WalFormat.ParseAfter` | src/wal/wal.cpp:265-325 | readable records at the front are delivered, and reading goes on behind them as if they were not there |
| `WalFormat.ParseCorrupt` | src/wal/wal.cpp:284-316 | corruption ends the reading: what precedes it is delivered, what follows is not |
| `Wal.WriteAheadLog.constructor` | src/wal/wal.cpp:67-87 | opening continues the highest-numbered file, and takes over a well laid out log |
| `Wal.WriteAheadLog.FlushBuffer` | src/wal/wal.cpp:193-198 | moves the buffer to the stream without changing what was written |
| `Wal.WriteAheadLog.Append` | src/wal/wal.cpp:156-179 | adds the bytes to what was written, whether or not the buffer has to be flushed first |
| `Wal.WriteAheadLog.CopyRecord` | src/wal/wal.cpp:138-181 | adds exactly the encoding of the record, and the file size stays file bytes plus stream plus buffer |
| `Wal.WriteAheadLog.RotateLog` | src/wal/wal.cpp:224-232 | closes the file with everything written and opens the next one; the layout is kept, with an empty last file |
| `Wal.WriteAheadLog.WriteRecord` | src/wal/wal.cpp:112-191 | appends one record, rotating when the file has no room; the layout invariant is kept: no record spans two files, a file above the largest limit ever set holds one record; with the log's own sync option the record is on disk; fields above 4 GiB are rejected and change nothing |
| `Wal.WriteAheadLog.MakeRoom` | src/wal/wal.cpp:123-127 | goes on in the next file if and only if the record would take the current one above the limit |
| `Wal.WriteAheadLog.Put` | src/wal/wal.cpp:350-352 | appends a record of kind 1 with this key, value, number and time, in the current file if it has room for 29 bytes, key and value, else at the beginning of the next |
| `Wal.WriteAheadLog.Delete` | src/wal/wal.cpp:354-356 | appends a record of kind 2 with this key and an empty value in the same way |
| `Wal.WriteAheadLog.Sync` | src/wal/wal.cpp:200-222 | everything written is on disk afterwards |
| `Wal.WriteAheadLog.Close` | src/wal/wal.cpp:89-94 | after the destructor everything written is in the current file, and the files of a well laid out log hold exactly the encodings of the records |
| `Wal.WriteAheadLog.Recover` | src/wal/wal.cpp:234-332 | reads the files in numeric order up to the first corrupt one; on success, and only then, reports the maximum of the numbers delivered: none is higher, and it is one of them or 0 |
| `Wal.HighestIs` | src/wal/wal.cpp:321-323 | for any list of records, rising or not, the highest number is at least each number, and is 0 or one of them |
| `WalLayout.RecordWritten` | src/wal/wal.cpp:123-181 | adding a record to the current file keeps the layout, whatever part of it reaches the disk |
| `WalLayout.RotateLaidOut` | src/wal/wal.cpp:224-232 | rotation keeps the layout and leaves every record on disk |
| `WalLayout.Reopens` | src/wal/wal.cpp:67-87 | opening the newest file for appending takes over the log in the directory, all of it on disk |
| `WalLayout.DeliverInverts` | src/wal/wal.cpp:234-332 | reading all files gives the log up to the first oversized record, and succeeds if and only if there is none |
| `WalLayout.DeliverTorn` | src/wal/wal.cpp:234-332 | with any byte prefix of the last file, reading succeeds and gives exactly the records wholly on disk, a prefix of the log |
| `Replay.LastEffectDecides` | src/kv_engine.cpp:117-133 | the last put or delete of a key decides what replay leaves for it |
| `Replay.RunLast` | src/kv_engine.cpp:117-133 | a record of kind 1 puts unless its key is empty, one of kind 2 deletes, and every other kind does nothing |
| `Replay.RunIdempotent` | src/kv_engine.cpp:99-133 | replaying a log over its own result changes nothing |
| `Replay.PartialReplay` | src/kv_engine.cpp:99-133 | replaying a first part of the log over the whole result changes nothing if and only if nothing in that part was overwritten later with another outcome |
| `Replay.StaleReplay` | src/kv_engine.cpp:99-133 | an instance where an old value comes back |
| `Engine.KVEngine.constructor` | src/kv_engine.cpp:7-18 | the tree is the replay of what the directory delivers, and after success with some number above 0 and none at the last 64-bit value the counter is greater than every number delivered, rising or not |
| `Engine.KVEngine.Recover` | src/kv_engine.cpp:99-115 | replays the records delivered over the tree, also when a file is corrupt; after corruption the counter is the old one, after success it is one past the highest number delivered |
| `Engine.ResumedPast` | src/kv_engine.cpp:108-112 | where recovery leaves the counter, for any log: unmoved after corruption or when all numbers are 0, otherwise greater than every number and by one than some |
| `Engine.KVEngine.RecoveryCallback` | src/kv_engine.cpp:117-133 | a record of kind 1 with a key updates the map, one of kind 2 removes its key, and any other record changes nothing |
| `Engine.KVEngine.Put` | src/kv_engine.cpp:39-57 | the map becomes old[key := value] and the tree stays equal to the replay of the log; an empty key is logged, rejected and changes nothing; a field above 4 GiB is not logged; with either sync option, the engine's or the log's, the record is on disk |
| `Engine.KVEngine.Delete` | src/kv_engine.cpp:64-82 | the map loses the key and the tree stays equal to the replay of the log; NotFound exactly when the key was absent, and logged all the same; with either sync option the record is on disk |
| `Engine.KVEngine.Get` | src/kv_engine.cpp:59-62 | answers from the map |
| `Engine.KVEngine.Sync` | src/kv_engine.cpp:143-149 | all logged records are safe afterwards, and tree and log stay in step |
| `Engine.RisingHighest` | src/wal/wal.cpp:321-329 | in a log with rising numbers the highest number is the last one |
| `Restart.ResumedRising` | src/kv_engine.cpp:109-111 | after a restart the counter exceeds every number in the log again |
| `Restart.PartlyResumed` | src/kv_engine.cpp:109-111 | after recovery from the first k records of a rising log the counter exceeds every number if and only if k is none or all of them |
| `Crash.CrashConsistent` | src/wal/wal.cpp:193-222 | for any byte prefix of the current file that covers the synced records, recovery gives a prefix of the log that includes every synced record |
| `Crash.SafeBytesExact` | src/wal/wal.cpp:200-222 | the first k records survive a cut if and only if their bytes do |
| `Crash.CrashWhileWriting` | src/wal/wal.cpp:156-188 | with any part of the log and of a record being written on disk, recovery gives a prefix of the log, or the log and that record, with every synced record |
| `Crash.CrashWhileRotating` | src/wal/wal.cpp:224-232 | a crash between closing one file and creating the next, or right after, loses nothing |
| `Crash.CleanCut` | src/wal/wal.cpp:96-110 | a crash that tears no record leaves a well laid out log |
| `Crash.WholeExactly` | src/wal/wal.cpp:96-110 | what a crash leaves is a well laid out log of readable records if and only if no record was torn |
| `Crash.TornIsNotWhole` | src/wal/wal.cpp:267-304 | readable records followed by a record cut anywhere are not the encoding of any readable records |
| `Crash.TornHeaderTakesAppends` | src/wal/wal.cpp:101-103 | bytes appended behind a record torn anywhere inside its header: too few to complete it they are hidden; otherwise the sizes and the checksum of the mixture decide between hidden, corrupt, and a record nobody wrote |
| `Crash.TornRecordTakesAppends` | src/wal/wal.cpp:101-103 | bytes appended behind a record torn anywhere after its header: shorter than the missing part they are hidden and recovery succeeds; otherwise recovery stops as corrupt there unless the checksum of the mixture agrees, and then delivers the mixture |
| `Crash.TornTailHidesAppends` | src/wal/wal.cpp:101-103 | a record appended behind a torn header is not delivered although recovery reports success |
| `Runs.MatchesMeaning` | src/kv_engine.cpp:117-133 | replaying the log of a run has the meaning of its operations |
| `Runs.MeaningLast` | src/kv_engine.cpp:39-82 | what a run means: each put with a key updates the map, each delete removes its key, and empty-key puts, syncs and flushes change nothing |
| `Runs.SurvivingRun` | src/kv_engine.cpp:39-82 | a surviving prefix of the log is the log of a prefix of the run that includes every operation that secured the log |
| `Restart.CleanRestart` | src/kv_engine.cpp:7-20 | destroying the engine and building a new one, with any options, gives the map of the log up to the first oversized record; recovery succeeds if and only if every key and value has at most 268435456 bytes, and then the map is the old one, tree and log agree, everything is on disk, and the numbers still rise |
| `Restart.OversizedCutsLog` | src/wal/wal.cpp:284-287 | an oversized record cuts the log; the map survives if and only if nothing in the lost part made a difference |
| `Restart.CrashRestart` | src/kv_engine.cpp:7-18 | from any state of the log, whatever the tree had seen of it, a crash leaves a new engine whose map is that of a prefix of the log with every safe record, and whose counter is past the surviving numbers; without a torn record it is in step and can go on |
| `Restart.RecoverLive` | src/kv_engine.cpp:99-115 | recovering a live engine keeps the map if and only if no record on disk is outdated by one still in memory, and keeps the counter past the numbers in use if and only if all or nothing of the log is on disk |
| `Restart.RecoverAgain` | src/kv_engine.cpp:99-115 | after a sync, recovering a live engine keeps map, log and rising numbers |
| `Sessions.RisingStep` | src/kv_engine.cpp:42-67 | each operation keeps the numbers strictly rising below the counter, unless the counter wraps |
| `Sessions.Execute` | src/kv_engine.cpp:39-82 | any run of puts, deletes, syncs and flushes has its meaning on the map, writes one record per change in order, keeps numbers rising, and has every record that a sync or a sync option secured on disk |
| `Sessions.RunSessions` | src/kv_engine.cpp:7-82 | any list of sessions on one directory, each with its own node size, buffer size, file limit and sync options: the map is what all operations mean, tree and log agree, numbers rise throughout |
| `Sessions.RunThenRestart` | src/kv_engine.cpp:7-82 | and after one more restart, with any options, it is still so |
| `Sessions.AllChangesSurvive` | src/wal/wal.cpp:185-188 | a prefix that holds every put and delete of a run means what the run means |
| `Sessions.Interrupt` | src/wal/wal.cpp:112-191 | a change cut off before, during or after a rotation, after the record or after its sync leaves a well laid out log, with or without the record |
| `Sessions.CrashAt` | src/kv_engine.cpp:39-82 | from every state of a well laid out log that holds the records of a run, or those and one more, a crash leaves the map of a prefix of the run, with that change at the end or not, and with every secured operation |
| `Sessions.RunThenCrash` | src/kv_engine.cpp:7-82 | any sessions, then a crash between operations or inside a change, before or after the tree was touched: the map is that of a prefix that includes every operation before the last sync; with either sync option no put or delete that had returned is lost |
| `Sessions.LoseOversizedPut` | src/wal/wal.cpp:118-120 | a put reported done, and in the engine's map, that a clean restart loses |
| `Sessions.RecoverStale` | src/kv_engine.cpp:99-115 | put, sync, put again, recover the live engine: with no option to sync every write, and a second record that fits the write buffer and the file, the older value comes back |
| `Sessions.PutInMemory` | src/wal/wal.cpp:156-179 | a put that fits the buffer and the file leaves the disk as it was |
| `Locks.StepInv` | src/kv_engine.cpp:39-97 | the invariant of locks, log, tree and iterators is kept by every step of every thread |
| `Locks.RunInv` | src/kv_engine.cpp:39-97 | and so by every run, for any number of threads and any interleaving |
| `Locks.TreeFollowsLog` | src/kv_engine.cpp:39-57 | in every reachable state the tree is the replay of the log, except while the one thread that owns the engine's lock is between its two writes |
| `Locks.GetSeesLog` | src/kv_engine.cpp:59-62 | every Get answers from the replay of the whole log at that moment |
| `Locks.ChangeSeesLog` | src/kv_engine.cpp:64-82 | among other threads, every change answers from the log before its own record: a delete reports NotFound exactly when its key was not in the replay of it |
| `Locks.LaterGetSeesMore` | src/kv_engine.cpp:59-62 | a Get that ends later answers from a log that extends every earlier one |
| `Calls.GetAnswers` | src/kv_engine.cpp:59-62 | a thread that began Get(key) is answered OK and the value that the whole log gives the key, or NotFound and nothing if the log gives it none |
| `Calls.PutLogs` | src/kv_engine.cpp:39-53 | a thread that began Put(key, value) logs exactly one record, of kind 1 with this key and value and the counter as number, unless a field is too long |
| `Calls.DeleteLogs` | src/kv_engine.cpp:64-78 | a thread that began Delete(key) logs exactly one record, of kind 2 with this key |
| `Calls.PutApplies` | src/kv_engine.cpp:55-56 | then the tree becomes the replay of the log before its record with [key := value], and the answer is OK |
| `Calls.DeleteApplies` | src/kv_engine.cpp:80-81 | or loses the key, and the answer is NotFound exactly when the key was not in that replay |
| `Calls.EmptyPutRejected` | src/btree/btree.cpp:183 | only a put with an empty key is turned away after it was logged, with InvalidArgument |
| `Calls.ThreadsDoWhatTheyAsk` | src/kv_engine.cpp:39-82 | over any run of any threads the log grows by the changes they asked for, in the order logged, and whenever nobody is midway the tree is what those changes mean |
| `Locks.CursorStartsInStep` | src/kv_engine.cpp:84-97 | a new iterator sees the replay of the whole log |
| `Locks.CursorSeesOneMap` | src/btree/btree.cpp:607-611 | while an iterator lives the tree does not change, whatever the other threads do |
| `Locks.BlockedExactly` | src/kv_engine.cpp:39-57 | a thread that has logged a change for the tree can go on if and only if no iterator is alive, and nobody else can enter the engine meanwhile |
| `Locks.ThenReturns` | src/btree/btree.cpp:182-265 | with no iterator alive it finishes, and the tree is then the replay of the log |
| `Locks.EmptyKeyReturns` | src/btree/btree.cpp:183 | a logged put with an empty key returns InvalidArgument without the tree's lock, iterators or not, and the tree is in step |
| `Locks.OwnCursorBlocks` | src/btree/btree.cpp:607-611 | in every run in which only this thread closes its iterator, its change never gets the tree's lock, it keeps the engine's, and the log stands still |

## Left out

- Custom comparators: only the default byte order is modelled.
- `Wal.WriteAheadLog.WriteRecord`: requires that the header, the key and the value each fit the write buffer, unless a field above 4 GiB is rejected, because the source copies each of them whole into it; what happens otherwise is outside the language's guarantees.
- `Engine.KVEngine.Delete`: requires the same of the header and the key.
- `Engine.KVEngine.Put`: requires the same of its record, and assumes that logging and syncing do not fail for reasons of the operating system; a failed sync returns with the record logged and not applied.
- `BTree.BPlusTree.Get`: a null output argument is not modelled.
- `Wal.WriteAheadLog.Append`: requires that the bytes fit the write buffer, as the source does not check it.
- `Wal.WriteAheadLog.CopyRecord`: requires that header, key and value each fit the write buffer, as the source does not check it.
- `Crash.CrashConsistent`: covers the loss of a process with its buffers; closed files are kept, since a sync reaches the current file only.
- `Restart.CrashRestart`: after a torn record the new engine's map is proved, not what later recoveries see; the torn bytes stay in the file.
- `Wal.WriteAheadLog.LaidOut`: files are bounded by the largest limit the log was ever opened with; which limit was in force when each file was written is not recorded.
- `TreeVerify.VerifyTable`: tables with cycles, on which the source does not end, and nodes with more children than keys plus one, where it reads past the keys, are outside.
- `Wal.WriteAheadLog.Recover`: returns the records instead of calling a callback for each; the engine applies them in the same order.
- `Engine.KVEngine.Recover`: the public call takes no engine lock, and neither do `Size`, `NodeCount`, `Height` and `MemoryUsage`; none of them is part of the step model of the locks.
- `Locks.RunInv`: fairness of the locks is not modelled, nor an iterator that outlives its tree or is closed in the middle of a call.
- Running without a log (`enable_wal` false), parsing of file names, a missing directory, and duplicate numbers in file names.
- Transaction markers: written and read like any record, no-ops in replay.
- `SeekToLast`, `Prev`, moves, `MemoryUsage`, printing, statistics, and the members that only return NotSupported.
- The `node_is_leaf` vector, which is written and never read.
- Message texts of statuses.
- MemTable, SSTable and flush jobs, which the engine does not use; the REST server, the command line and the benchmarks.
