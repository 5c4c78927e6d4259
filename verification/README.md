# Verification of KVFS, a tiered file system on a key-value store

KVFS keeps a POSIX-style file system in a key-value store and tiers it out to cloud storage. This
project models its three central components in Dafny and proves what they are for:

- **The chunked file store** (`Chunks`, `File`, `FileRuns`, `Files`). File bytes live in sparse,
  variable-length chunks under printed keys. Every sequence of reads, writes and resizes over any
  number of files behaves as one flat, zero-filled byte array per inode (`FlatFile` is that
  reference), and an evicted file is rebuilt to the same bytes.
- **The partitioned directory** (`DirCodec`, `Partition`, `Directory`, `DirView`, `Readdir`, `Dirs`,
  `Links`). Hashed partitions refine one name-to-inode map, survive serialisation, and can be
  scanned page by page with a resumable cookie while entries come and go; over all the stored
  directories, link counts equal the number of entries.
- **The tiering protocol** (`ChangeLog`, `LogFile`, `Windows`, `Index`, `Paths`, `TieringOut`,
  `TieringIn`, `Eviction`, `Tiering`, `Cursors`, `Passes`, `Captures`). The change log, the snapshot loop, the
  segment index and the eviction cursor, and over all of them a state machine in which eviction is
  invisible to every read.
- **The mounted system** (`Volume`, `Mounted`). Files and directories in one store, the log, the
  index and the agents' loops put together in one class: every call is a step of that state machine,
  so every read of the chunked store, through any number of creates, writes, resizes, snapshots and
  eviction passes, returns what a file system that never evicts would return.

`Keys` and `Store` hold the printed keys and the store, `Bytes` the shared basics.

The code keeps its promise under conditions that it does not check. For each of them the project has
a run that fails (`Failures`, and the logs at the end of `Windows`) and the exact condition:

- A file is evicted only when no log entry above the tiered-out cursor names it: without that,
  `Captures.UncheckedEvictionExactly`.
- An evicted file is read back before it is changed: without that, `Tiering.ChangeKeepsInvExactly`,
  and on the code `TieringIn.ChangeEvicted`.
- A snapshot window finds entries, moves the cursor and meets no evicted file. Each id that is
  allocated and not logged, as by every `Rmdir` (src/kvfs_mount.cc:560-572), shifts what windows read:
  `Windows.LoopEndsExactly`, `Cursors.WindowGoesWellExactly`, `Cursors.SegmentsOrderedExactly`,
  `Mounted.SnapshotReachesEndExactly`.
- Each tiered-out entry is handed to one eviction pass. Skipped ids make passes read an entry again or
  put one off, but never lose one that the cursor has passed: `Passes.NothingPassedIsLost`,
  `Passes.PassHandsExactly`, `Passes.HandOverExactly`.

Over whole runs, `Captures.AllReadsRightExactly` puts the first two together: all reads at all moments
are right if and only if each change and each eviction meets its condition.

Conventions. `off_t` is bounded by `OFF_MAX`, chunk sizes are positive 32-bit numbers, C++ division
truncates (`TruncDiv`), and the unsigned wrap in `read` and the 32-bit byte count in `Deserialize`
are written out. Strings of the original are byte sequences; store keys are character strings. A
fresh mount numbers transactions from 1 with both cursors at 0 (src/kvfs_mount.cc:71-72, 114), and its
log starts with the entry for the root directory (src/fuse_kvfs_main.cc:227,
src/FileSystemManager.cc:63-80).
Inside proofs, `hide` keeps definitions that a proof does not need away from the solver.

Where the code and its documentation differ, the model follows the code:

- src/tiering/fs_change_log.h:47-48 says that `Read` sets `*first_xid` to the id of the first entry
  copied. With gaps in the log it need not be; `ChangeLog.ReadExactIffGapless` gives the exact
  condition under which ranges are honoured.
- src/tiering/eviction_agent.cc:67-68 describes skipping inodes changed since the log entry; the
  loop at lines 109-155 does not. The protocol theorem takes the skip as a condition on runs;
  `Captures.SettledExactly` says what it amounts to, `Captures.UncheckedEvictionExactly` and
  `Failures.EvictionDropsWrite` what happens without it.
- src/tiering/tiering_out_agent.cc:120-121 says that ids need not be contiguous, but the loop ends
  only under the condition of `Windows.LoopEndsExactly`.
- A zero-length `write` past end of file grows the file (src/KVFSFile.cc:635-637).
- A `read` that starts past end of file, in the chunk of the last byte, zero-fills to the end of that
  chunk whatever length was asked for (src/KVFSFile.cc:464-470, 512-524); `FlatFile.ReadPastEnd` and
  `FlatFile.ReadStaysInRequest` give the exact extent.

## Model

| member | source | states |
|---|---|---|
| Keys.Print | src/KVFSFile.cc:488 | a printed key parses back to its inode and chunk number, so printing loses nothing |
| Keys.PrintInjective | src/KVFSFile.cc:235 | two inode, chunk or partition keys are the same string only if they are the same key |
| Keys.PrintedForm | src/KVFSFile.cc:488 | a handle prints in base ten, and a chunk or partition key is two such numbers around a dot |
| Bytes.TruncDivLaw | src/KVFSFile.cc:554-558 | division of the original truncates toward zero, for either sign |
| Bytes.ConversionLaws | src/KVFSFile.cc:464-478 | the 64-bit conversions keep the value modulo 2^64, each in its own range |
| FlatFile.ReadDelivers | src/KVFSFile.cc:464-470 | a read that starts at or before end of file delivers exactly the bytes from there on, as many as were asked for or as there are |
| FlatFile.ReadPastEnd | src/KVFSFile.cc:512-524 | a read past end of file delivers zeros to the end of the chunk if that is the chunk of the last byte, and nothing otherwise |
| FlatFile.ReadStaysInRequest | src/KVFSFile.cc:464-470 | a read fills no more than it was asked for if and only if it starts at or before end of file, or in a later chunk than the last byte, or asks for the rest of that chunk |
| FlatFile.ReadPastEndOverfills | src/KVFSFile.cc:512-524 | a concrete one-byte read past end of file that fills six bytes |
| FlatFile.UnwrittenStaysZero | src/KVFSFile.cc:926-946 | over every sequence of operations, a byte that is zero or beyond the end and that no write touches never becomes anything but zero |
| FlatFile.TruncateThenExtendRevealsZeros | src/KVFSFile.cc:948-1001 | after truncation, every later extension by resize or far write exposes only zeros |
| FlatFile.StepBytes | src/KVFSFile.cc:540-655 | what a write and a resize leave, byte by byte and in size |
| FlatFile.RunKeepsByte | src/KVFSFile.cc:926-1001 | over every sequence of operations, a byte that no write touches and no resize cuts off keeps its value |
| FlatFile.LastWriteWins | src/KVFSFile.cc:540-655 | over every sequence of operations, a byte holds what was last written to it if it was not cut off since |
| FlatFile.ChangesNothingExactly | src/KVFSFile.cc:540-655 | a write leaves the contents as they were if and only if it writes the bytes already there, a resize if and only if it sets the size already there |
| Chunks.SkippedReadIsHarmless | src/KVFSFile.cc:571-586 | under the chunk invariant a chunk starting at end of file is empty, so not reading it loses nothing |
| Chunks.PutChunkByte | src/KVFSFile.cc:616-620 | putting an overlaid chunk changes exactly the bytes of the piece written, for every byte of the file |
| Chunks.WriteStep | src/KVFSFile.cc:567-631 | one iteration of the write loop advances the written prefix, keeps the chunk invariant and all other bytes, whether or not the old chunk was fetched |
| Chunks.CutChunk | src/KVFSFile.cc:979-997 | shortening or removing one chunk zeroes exactly its tail and keeps the chunk invariant |
| Chunks.TrimStep | src/KVFSFile.cc:973-998 | one iteration of truncation leaves every byte below the new size alone |
| Chunks.EmptyHasNoChunks | src/KVFSFile.cc:776-777 | a file resized to nothing has no chunk left |
| Chunks.ChunkRange | src/KVFSFile.cc:554-558 | the loop bounds computed with truncating division run from the chunk of the first byte to the chunk of the last |
| File.OtherFileKept | src/KVFSFile.cc:588 | a change confined to one inode's keys leaves the metadata, chunk invariant and bytes of every other file unchanged |
| File.ChunkHolds | src/KVFSFile.cc:485-525 | the chunk stored under a handle and number holds the bytes of the file from that number times the chunk size on; everything else below the size is zero |
| File.ReadLoopRange | src/KVFSFile.cc:464-478 | the clamp, the signed conversions and the chunk bounds of `read` cover exactly the extent, past end of file included |
| File.LogFSFile.constructor | src/KVFSFile.cc:191-244 | a new file is empty, resident and stored, and nothing else changes |
| File.LogFSFile.Flush | src/KVFSFile.cc:789-812 | the in-memory metadata is what the store then holds under the inode key |
| File.LogFSFile.Load | src/KVFSFile.cc:323-339 | loading succeeds exactly when the inode is stored, and then yields a valid object |
| File.LogFSFile.WriteChunk | src/KVFSFile.cc:567-631 | one chunk of a write, including the decision to skip the read, advances the written prefix |
| File.LogFSFile.WriteChunks | src/KVFSFile.cc:554-631 | the whole chunk loop writes all of the buffer |
| File.LogFSFile.Write | src/KVFSFile.cc:540-655 | contents become the old ones zero-extended and overlaid with the buffer, size the maximum, `actualLen` the length; chunk invariant kept, other inodes untouched |
| File.LogFSFile.CutChunkAt | src/KVFSFile.cc:973-998 | one iteration of truncation on the store |
| File.LogFSFile.ResizeData | src/KVFSFile.cc:952-1001 | no stored byte remains at or past the new size, and no byte below it changes |
| File.LogFSFile.SetSize | src/KVFSFile.cc:926-946 | contents are cut or zero-extended to the new size; a missing inode is an error without effect |
| File.LogFSFile.Evict | src/KVFSFile.cc:768-787 | no data chunk of the inode is left in the store, size kept, state evicted; a missing inode is an error without effect |
| File.LogFSFile.UnEvict | src/KVFSFile.cc:667-722 | for every way the source is split into positive short reads the loop ends with exactly the source's bytes; without a source nothing changes |
| File.LogFSFile.HoldData | src/KVFSFile.cc:657-664 | data is faulted in exactly when it was evicted |
| File.LogFSFile.ReadChunk | src/KVFSFile.cc:485-525 | one chunk of a read copies the stored bytes and zero-fills the rest |
| File.LogFSFile.ReadChunks | src/KVFSFile.cc:472-526 | the chunk loop fills exactly the extent and leaves the rest of the buffer alone |
| File.LogFSFile.Read | src/KVFSFile.cc:449-530 | up to end of file the buffer receives exactly the bytes of the visible contents asked for or available, and `actualLen` is their number; past it the reference read; bytes beyond keep their value, and evicted data is resident again |
| FileRuns.FilesAreIndependent | src/KVFSFile.cc:588 | in a run over many files each file ends as if it had been alone |
| FileRuns.DoOp | src/KVFSFile.cc:449-655 | one call on a resident file is one step of the flat reference, in state and in output |
| FileRuns.DoCall | src/KVFSFile.cc:449-655 | the same for a whole set of files: the called file steps, all others stay |
| FileRuns.RunCalls | src/KVFSFile.cc:449-655 | every sequence of write, resize and read calls over any number of files matches one flat byte array per inode, in every output and in the final state |
| FileRuns.AnswersAreBytes | src/KVFSFile.cc:464-530 | in every run each read up to end of file returned exactly the bytes that the calls before it had left |
| FileRuns.FsKeepsByte | src/KVFSFile.cc:588 | in a run over many files, a byte that no call on its file writes or cuts off keeps its value |
| FileRuns.FsLastWriteWins | src/KVFSFile.cc:540-655 | in a run over many files, a byte holds what was last written to it if it was not cut off since |
| Files.FilesKept | src/KVFSFile.cc:588 | whatever is done to other inodes, directories included, every file keeps its metadata, bytes and eviction state |
| Files.OneFileChanged | src/KVFSFile.cc:588 | a change confined to one inode's keys changes that entry of the table of all files and no other |
| Files.ChangedExactly | src/KVFSFile.cc:540-655 | after a change one file has the changed bytes and its eviction state, every other is as it was |
| Files.DroppedExactly | src/KVFSFile.cc:768-787 | after an eviction the victims are evicted, of the same size and all holes, every other file is as it was |
| Files.FetchedExactly | src/KVFSFile.cc:657-722 | after a read an evicted file with a copy is resident with the copy's bytes, every other is as it was |
| Files.EvictFile | src/KVFSFile.cc:768-787 | in the table of all files exactly one becomes evicted, and no chunk of it is left |
| Files.FetchFile | src/KVFSFile.cc:449-530 | in the table of all files at most the file read changes, from evicted to the copy's bytes, and the buffer gets the reference read of it |
| Files.Capture | src/tiering/segment.cc:108-119 | the bytes read for the persister are those of every resident file, and reading them leaves the store as it was |
| DirCodec.EncodeMap | src/KVFSDirectoryPartition.cc:208-215 | the loop emits the entries in map order |
| DirCodec.ListingAscends | src/KVFSDirectoryPartition.cc:208-215 | the entries are emitted in ascending order: of two names the earlier is a proper prefix or has the smaller byte where they first differ |
| DirCodec.EntryBytes | src/KVFSDirectoryPartition.cc:208-215 | an entry is the inode in eight bytes, the name and a pipe character |
| DirCodec.LowByteFirst | src/KVFSDirectoryPartition.cc:202-204 | numbers are stored lowest byte first |
| DirCodec.DecodeLoop | src/KVFSDirectoryPartition.cc:164-182 | the pointer-and-count loop, with its 32-bit wrap, computes the entry list and the name map, and fails exactly when it would leave the buffer |
| DirCodec.FindPipeExactly | src/KVFSDirectoryPartition.cc:173 | no end of a name is found exactly when a NUL or the end of the buffer comes before any pipe character |
| DirCodec.LastEntryCounts | src/KVFSDirectoryPartition.cc:176-178 | of several entries with one name the last counts |
| DirCodec.CutEntriesFail | src/KVFSDirectoryPartition.cc:170-181 | a buffer cut inside an entry cannot be read |
| DirCodec.EntriesRoundTrip | src/KVFSDirectoryPartition.cc:170-181 | decoding encoded entries with clean names gives them back |
| DirCodec.DecodedNamesAreClean | src/KVFSDirectoryPartition.cc:173 | no decoded name contains '\|' or NUL, whatever the buffer |
| DirCodec.NameMapRoundTrip | src/KVFSDirectoryPartition.cc:133-216 | the stored map is restored if and only if every name is free of '\|' and NUL, for buffers under 2^32 bytes; the entry vector is then its listing |
| DirCodec.ListingIsTheMap | src/KVFSDirectoryPartition.cc:201-216 | the listing has each name of the map once, with its inode |
| Partition.HeaderRoundTrip | src/KVFSDirectoryPartition.cc:143-155 | file-system id, directory inode and partition number survive the header |
| Partition.RereadExactly | src/KVFSDirectoryPartition.cc:112-187 | a fresh object reading a buffer under 2^32 bytes gets the stored map back, with its listing as entry vector, if and only if every name is free of a pipe or NUL |
| Partition.LogFSDirectoryPartition.Load | src/KVFSDirectoryPartition.cc:112-187 | a first use loads whatever the entry loop finds in the stored buffer, clean names or not; an absent key is no entries |
| Partition.DirEntryAdder.Add | src/dir_entry_adder.cc:33-48 | an entry is added exactly when it fits, otherwise the buffer is marked full |
| Partition.LogFSDirectoryPartition.Deserialize | src/KVFSDirectoryPartition.cc:133-187 | header and map come from the buffer, entries are appended to the vector; false on a short buffer, and where the loop would leave the buffer |
| Partition.LogFSDirectoryPartition.Refresh | src/KVFSDirectoryPartition.cc:112-128 | a first use of a readable partition finds the stored map, later uses change nothing |
| Partition.LogFSDirectoryPartition.Serialize | src/KVFSDirectoryPartition.cc:201-216 | header followed by the entries in map order |
| Partition.LogFSDirectoryPartition.WriteToLog | src/KVFSDirectoryPartition.cc:218-240 | the store holds the serialised map under the partition's key, and no other key changes |
| Partition.LogFSDirectoryPartition.InsertEntry | src/KVFSDirectoryPartition.cc:10-25 | EEXIST, or a new slot at the end, the name bound, and the store brought up to date |
| Partition.LogFSDirectoryPartition.RemoveEntry | src/KVFSDirectoryPartition.cc:93-108 | ENOENT, or the name unbound while its slot stays as a tombstone, and the store brought up to date |
| Partition.LogFSDirectoryPartition.FindEntry | src/KVFSDirectoryPartition.cc:82-91 | the bound inode, or 0 |
| Partition.LogFSDirectoryPartition.IsEmpty | src/KVFSDirectoryPartition.cc:67-80 | true exactly when no name but "." and ".." is bound |
| Partition.OnlyDots | src/KVFSDirectoryPartition.cc:71-79 | the size test and the loop together decide whether the names are among "." and ".." |
| Partition.LogFSDirectoryPartition.ListEntries | src/KVFSDirectoryPartition.cc:27-65 | adds the longest prefix of the live entries from the offset on that fits |
| Partition.ListLoop | src/KVFSDirectoryPartition.cc:41-63 | the listing loop skips tombstones and stops at the first entry that does not fit |
| Directory.DirectoryFile.constructor | src/KVFSFile.cc:1029-1042 | a fresh directory object stands for the maps in the store |
| Directory.DirectoryFile.RoutedLookup | src/KVFSFile.cc:1044-1047 | a name is in the directory if and only if it is in the partition its hash selects, with the same inode |
| Directory.DirectoryFile.InsertEntry | src/KVFSFile.cc:1105-1115 | one binding is added to the single map, or an error if the name is taken; other inodes untouched |
| Directory.DirectoryFile.RemoveEntry | src/KVFSFile.cc:1117-1127 | one binding is dropped from the single map, or an error; other inodes untouched |
| Directory.DirectoryFile.FindHandle | src/KVFSFile.cc:1055-1059 | the inode in the single map, or 0 |
| Directory.DirectoryFile.IsDirEmpty | src/KVFSFile.cc:1094-1103 | true exactly when only "." and ".." remain |
| Directory.DirectoryFile.ListDirectory | src/KVFSFile.cc:1065-1092 | a page is the longest prefix that fits of the live entries after the cookie, over all partitions; a missing directory is an error |
| Directory.Reopen | src/KVFSDirectoryPartition.cc:112-128 | a fresh object over the store stands for the same map, for clean names |
| Directory.PartitionUntouched | src/KVFSDirectoryPartition.cc:225 | operations on another inode leave a stored partition as it was |
| Directory.RunDirectory | src/KVFSFile.cc:1055-1127 | every sequence of inserts, removes and lookups answers as, and ends as, one plain map |
| Directory.LookupsFindTheLast | src/KVFSFile.cc:1055-1127 | in every run a lookup finds the inode with which a name was entered while it was free, and nothing once it was dropped; entering a taken name fails and keeps the old inode |
| Directory.RunScan | src/KVFSFile.cc:1061-1092 | a paged readdir of the stored directory, with inserts and removes before each page, returns every name that each page finds present, and exactly once if no pair is re-inserted and no vector exceeds 1,000,000 |
| Dirs.DirsKept | src/KVFSDirectoryPartition.cc:225 | whatever is done to other inodes, files included, every directory object keeps agreeing with the store |
| Dirs.InsertIn | src/KVFSFile.cc:1105-1115 | among all directories of the store exactly one name map gains the binding, or none if the name is taken; other inodes untouched |
| Dirs.RemoveIn | src/KVFSFile.cc:1117-1127 | among all directories of the store exactly one name map loses the binding; other inodes untouched |
| Dirs.NewDir | src/KVFSFile.cc:1130-1147 | a new directory is stored with its two dots and its inode, and all others are as before |
| Readdir.CookieResumes | src/KVFSFile.cc:1061-1084 | within the vector bound, the listing that resumes at a cookie has exactly the live slots at or after it, in increasing order |
| Readdir.CookieValues | src/KVFSDirectoryPartition.cc:57-60 | slot k of partition q is listed with cookie q times 1,000,000 plus k plus 1 |
| Readdir.PageIsLongest | src/dir_entry_adder.cc:33-48 | a page holds as many of the listed entries as fit, and is empty only when nothing is left if every name fits |
| Readdir.ChangeOfNames | src/KVFSDirectoryPartition.cc:10-25 | a change between pages binds a free name or unbinds a name, and touches no other |
| Readdir.ScanOfUpToAMillion | src/KVFSFile.cc:1061-1092 | with two partitions of up to 1,000,000 slots each, a scan returns every entry that stays exactly once |
| Readdir.CookiesSoundExactly | src/KVFSFile.cc:1063-1084 | resuming at any cookie misses no live slot if and only if no live slot has index 1,000,000 or more |
| Readdir.ScanIsComplete | src/KVFSFile.cc:1065-1092 | a finished paged scan with any changes between pages returns every name that each page finds present |
| Readdir.ScanReturnsNoPairTwice | src/KVFSDirectoryPartition.cc:42-63 | if no (name, inode) pair is re-inserted, none is returned twice |
| Readdir.ScanReturnsExactlyOnce | src/KVFSDirectoryPartition.cc:42-63 | a name bound to the same inode throughout is then returned exactly once |
| Links.InsertKeepsBalance | src/KVFSFile.cc:277-279 | an entry added together with one link keeps every link count equal to the number of entries naming the inode |
| Links.RemoveKeepsBalanceExactly | src/KVFSFile.cc:757-759 | an entry removed together with one link keeps all counts right if and only if the link is taken from the inode the entry names |
| Links.TotalLinks | src/KVFSFile.cc:312-317 | whenever every count is right, the sum of all link counts is the total number of directory entries |
| Links.LinkSumAdds | src/KVFSFile.cc:312-317 | the sum counts each inode once, in whatever order |
| Links.EntryOfName | src/KVFSFile.cc:1055-1059 | the entries that are counted are exactly the names in the stored directories, with the inodes they are bound to |
| Links.MakeExactly | src/KVFSFile.cc:271-289 | a create adds exactly the entry in the parent and, for a directory, "." naming itself and ".." naming the parent; the new inode has one or two links, the parent of a directory one more, and nothing else changes; a taken name changes nothing |
| Links.LinkToExactly | src/KVFSFile.cc:291-310 | a link adds exactly one entry and one link, or nothing if the name is taken |
| Links.UnmakeExactly | src/KVFSFile.cc:751-766 | a looked-up remove drops exactly the entry and takes one link from the inode it named, or does nothing if there is no such name |
| Links.FlatEnter | src/KVFSFile.cc:1105-1115 | a name bound in one directory is one more entry among all entries |
| Links.CountsInEveryRun | src/KVFSFile.cc:271-317 | over every sequence of create, link and looked-up remove calls, each link count is the number of entries naming the inode, dots included, and the sum of the counts is the number of entries |
| Links.Namespace.constructor | src/FileSystemManager.cc:64-69 | an empty store with its root directory |
| Links.Namespace.CreateRoot | src/KVFSFile.cc:1149-1156 | "." and ".." are entered in the root's stored partitions and counted, and the root inode is stored |
| Links.Namespace.ConnectDots | src/KVFSFile.cc:1130-1147 | both dot entries are put in the directory's stored partitions, and one link counted for each |
| Links.Namespace.CreateAt | src/KVFSFile.cc:271-289 | a new inode is entered in the parent's stored partition, a directory gets its stored dots, the counts follow, and the inode is stored |
| Links.Namespace.Create | src/kvfs_mount.cc:443-478 | a name found by the lookup is an error without effect, a free one gets the next inode number |
| Links.Namespace.Link | src/KVFSFile.cc:291-310 | one more stored entry and one more link, or an error without effect |
| Links.Namespace.Remove | src/KVFSFile.cc:751-766 | one stored entry and one link fewer; the counts stay right if and only if the entry named the inode the link is taken from; a missing name is an error without effect |
| Links.Namespace.Unlink | src/kvfs_mount.cc:581-602 | the looked-up inode is removed, and every count stays right |
| Links.Namespace.Run | src/KVFSFile.cc:271-317 | after any sequence of calls on the stored directories each link count is the number of stored entries naming the inode, and the sum is the number of all stored entries |
| Links.RunFromRoot | src/KVFSFile.cc:1149-1156 | the same from an empty store and `createRoot` on |
| ChangeLog.ReadBounds | src/tiering/fs_change_log.cc:58-81 | with gaps, no returned entry is above `last_xid` and none at or above `first_xid` lies before the start index |
| ChangeLog.ReadCovers | src/tiering/fs_change_log.cc:58-81 | with gaps, a non-empty result contains every entry from `first_xid` to the id of its own last entry |
| ChangeLog.ReadExactIffGapless | src/tiering/fs_change_log.cc:58-81 | every range is returned exactly, in order, if and only if the log has no gaps |
| ChangeLog.ReadReturnsExactly | src/tiering/fs_change_log.cc:58-81 | on any log, an entry is returned if and only if its id, with the ids skipped after it added, lies in the range asked for |
| ChangeLog.BetweenExactly | src/tiering/fs_change_log.cc:58-81 | the entries with ids in a range are all those in the log, no others, in log order |
| ChangeLog.LagShrinks | src/tiering/fs_change_log.cc:62-71 | the ids skipped after an entry, by which its index runs ahead of its id, never increase along the log |
| ChangeLog.FsChangeLog.NextXid | src/tiering/fs_change_log.h:71-73 | an id is allocated and the log stays ordered |
| ChangeLog.FsChangeLog.Append | src/tiering/fs_change_log.cc:43-56 | the entry is appended with its id; the log stays ordered, and gapless if the id was assigned here |
| ChangeLog.FsChangeLog.Read | src/tiering/fs_change_log.cc:58-81 | the copy loop returns the clamped index range |
| LogFile.Flush | src/tiering/fs_change_log.cc:92-122 | the file is the length-prefixed stream of the entries |
| LogFile.Refresh | src/tiering/fs_change_log.cc:129-180 | the loop appends decoded entries and tracks the next id, and fails exactly on an oversized or truncated record |
| LogFile.RefreshAfterFlush | src/tiering/fs_change_log.cc:92-180 | a flushed log is restored, with next id one past the last, if and only if every serialised entry is under 1024 bytes; otherwise reading it is fatal |
| LogFile.CutStream | src/tiering/fs_change_log.cc:144-162 | a flushed file cut inside the bytes of an entry is fatal to read; cut inside its length it reads as if it ended before the entry |
| LogFile.RecordWithoutId | src/tiering/fs_change_log.cc:169-176 | a record whose entry carries no id is skipped |
| Index.IndexManager.GetSegment | src/tiering/index_manager.cc:121-149 | the backward scan returns the last segment that holds the inode at or before the id, with its first offset, and nothing exactly when there is none |
| Index.IndexManager.Update | src/tiering/index_manager.cc:151-173 | one segment is appended that lists each inode of the map once, in inode order |
| Index.ListPaths | src/tiering/index_manager.cc:165-171 | iteration over the inode map lists each pair once, in increasing order |
| Index.LatestHasGreatestXid | src/tiering/index_manager.cc:124-144 | with segments in transaction order the segment found has the greatest eligible `last_xid` |
| Index.LatestExactly | src/tiering/index_manager.cc:121-149 | if some segment ends at or before the id and lists the inode, one is found, none of the qualifying ones lies after it, and it qualifies |
| Index.LatestIsReal | src/tiering/index_manager.cc:121-149 | what is found ends at or before the id and lists the inode |
| Index.LatestAfterAppend | src/tiering/index_manager.cc:121-173 | a new segment changes the answer exactly for the inodes it holds |
| Paths.GetPath | src/tiering/snapshot_persister.cc:122-155 | the walk ends, because parents have smaller handles, and yields the joined names or a missing inode |
| Paths.PathFromParent | src/tiering/snapshot_persister.cc:142-149 | a path is the parent's path, a slash and the name, and in the root the name alone; it is missing exactly when an inode on the way is |
| Paths.RootHasPath | src/tiering/snapshot_persister.cc:122-155 | the walk from the root yields the empty path |
| Paths.CreateKeepsTree | src/kvfs_mount.cc:455-462 | creating under a fresh larger handle and an unused name keeps the recorded tree in order |
| Paths.PathsAreDistinct | src/tiering/snapshot_persister.cc:142-149 | distinct inodes have distinct paths when names are non-empty and slash-free and no two record the same parent and name |
| TieringOut.GetInodes | src/tiering/tiering_out_agent.cc:178-197 | exactly the inodes mentioned by the entries, each once, in increasing order |
| TieringOut.BuildSegment | src/tiering/snapshot_persister.cc:63-74 | paths of exactly the existing inodes, and a tarball in which every file is found under its path |
| TieringOut.Persist | src/tiering/snapshot_persister.cc:40-84 | one indexed segment for the batch, or none if no inode exists any more |
| Windows.AdvancesExactly | src/tiering/tiering_out_agent.cc:116-144 | on any log, a window finds entries and moves the cursor forward if and only if it ends inside the log and fewer ids were skipped after its last entry than it asks for |
| Windows.CompletesStep | src/tiering/tiering_out_agent.cc:113-166 | once the first window advances and the last id is logged, every later window advances |
| Windows.LoopEndsExactly | src/tiering/tiering_out_agent.cc:113-166 | on any log, the loop ends if and only if there is an untiered entry, the last allocated id was logged, and the first window advances |
| Windows.GaplessCompletes | src/tiering/tiering_out_agent.cc:113-166 | without gaps an untiered entry is all that the loop needs to end |
| Windows.SkippedThousandStalls | src/tiering/tiering_out_agent.cc:116-166 | after 1001 skipped ids the window re-reads the last tiered entry and the loop never ends |
| Windows.SkippedThousandOneFindsNothing | src/tiering/tiering_out_agent.cc:143-144 | after 1002 skipped ids the window is empty |
| Windows.TrailingSkipStalls | src/tiering/tiering_out_agent.cc:166 | one id allocated after the last entry keeps the loop from ever reaching its end |
| TieringOut.WindowIsExact | src/tiering/tiering_out_agent.cc:118-123 | in a gapless log a window holds exactly the entries of its ids, and the first id reported is that of its first entry |
| TieringOut.WindowsAreShort | src/tiering/tiering_out_agent.cc:122 | each window spans at most 1001 ids and starts right after the one before |
| TieringOut.PathsOfExactly | src/tiering/snapshot_persister.cc:63-74 | the inodes of a segment are those of the batch that still have a path, each with that path |
| TieringOut.Snapshot | src/tiering/tiering_out_agent.cc:113-166 | on every log on which the loop ends, gaps or not: it ends at the snapshot's last id; its windows are adjacent, disjoint and at most 1001 ids long, each with the entries read for it, the first id that their place in the log stands for, their inodes and its own segment; segments in transaction order stay so |
| TieringOut.EachEntryInOneWindow | src/tiering/tiering_out_agent.cc:113-166 | gaps or not, every untiered entry falls by its id in exactly one window, which read it and lists its inode |
| Eviction.ProcessEvictions | src/tiering/eviction_agent.cc:60-162 | after the pass exactly those files are evicted that were before or are mentioned by the entries read and ready, the latter with no chunk left; all other inodes are untouched, and the cursor moves past what was read |
| TieringIn.Open | src/tiering/tiering_in_agent.cc:83-100 | the copy under the recorded path in the latest segment that holds the inode |
| TieringIn.ReadThrough | src/KVFSFile.cc:657-722 | a read through the index returns the reference read of the visible contents |
| TieringIn.EvictAndReadBack | src/KVFSFile.cc:768-787 | a file with a copy of its size is evicted to no chunk at all, and the next read returns and restores the copy byte for byte, so nothing is lost exactly when the copy is current |
| TieringIn.ChangeEvicted | src/KVFSFile.cc:667-716 | after a write or resize of an evicted file the fault-in stops at its size assertion if and only if the size changed, and otherwise the change survives if and only if it changed nothing |
| Tiering.SnapshotInv | src/tiering/tiering_out_agent.cc:113-166 | a snapshot window, with or without gaps in the log, keeps: evicted and settled files have a current copy |
| Tiering.UncapturedWasSettled | src/tiering/tiering_out_agent.cc:143-164 | a file outside the window that is settled after it was settled before it |
| Tiering.CopyAfterCapture | src/tiering/index_manager.cc:121-173 | after a window, the copy of a captured file is its contents and that of any other file is unchanged |
| Tiering.StepInv | src/tiering/eviction_agent.cc:56-59 | every step of the protocol keeps the invariant that ties chunks and tiered copies to the reference |
| Tiering.EvictionIsInvisible | src/KVFSFile.cc:657-722 | in every run and at every moment, a read of any file gets past the size assertion and returns what a file system that never evicts returns |
| Tiering.EvictedCopyIsCurrent | src/tiering/index_manager.cc:121-149 | in every run, the latest indexed copy of an evicted or settled file is its current contents |
| Tiering.GuardedIsGood | src/tiering/eviction_agent.cc:56-59 | in every run that keeps both guards nothing goes wrong at any moment |
| Tiering.RunTreeInv | src/kvfs_mount.cc:455-462 | in any run of the code every logged inode is the root or recorded in the tree, and every recorded inode has a path |
| Tiering.ChangeKeepsInvExactly | src/KVFSFile.cc:540-655 | a change to any file, evicted or not, goes well if and only if the file was resident or the change leaves its contents as they were; otherwise the next read returns the old contents or stops at the size assertion |
| Tiering.EvictKeepsInvExactly | src/tiering/eviction_agent.cc:109-155 | evicting any files that a pass is offered goes well if and only if the latest copy of each is its current contents |
| Captures.CopyIsLastWindow | src/tiering/index_manager.cc:121-173 | in every run in which nothing has gone wrong so far, the latest copy of a file is what the reference held for it at the last window that named it, and there is none if no window did |
| Captures.CapturedAfter | src/tiering/tiering_out_agent.cc:143-164 | in any run of the code, once the cursor has passed a logged change, a window after that change named its inode |
| Captures.UncheckedEvictionExactly | src/tiering/eviction_agent.cc:109-155 | in every such run, evicting offered files without the missing check: the next read is right if and only if the changes since the file's last window leave the captured contents as they were; it always is for a settled file |
| Captures.SettledExactly | src/tiering/eviction_agent.cc:67-68 | in any run of the code the check that the comment describes holds if and only if the file has not changed since its last window and nothing logged before that window is above the cursor |
| Captures.AllReadsRightExactly | src/KVFSFile.cc:657-722 | in any run of the code, guarded or not, all reads at all moments return what a file system that never evicts returns, if and only if each change is to a resident file or leaves it as it was and each file is evicted only while its latest copy is its contents |
| Captures.RefLastWriteWins | src/KVFSFile.cc:540-655 | in any run of the code a byte of the reference is the one last written to it, if it was not cut off since |
| Captures.ReadsReturnLastWrite | src/KVFSFile.cc:657-722 | in every run that keeps both guards, whatever was tiered out, evicted and faulted in, a read returns at each place the byte last written there |
| Captures.UnsafeShows | src/tiering/eviction_agent.cc:109-155 | a change or eviction that does not meet its condition makes some read wrong in the very next state |
| Cursors.MeetsNoEvictedExactly | src/FileSystemManager.cc:44-49 | a window meets no evicted file if and only if each log entry of one, up to the window's end, has an id that with the ids skipped after it is at most the cursor |
| Cursors.WindowGoesWellExactly | src/tiering/tiering_out_agent.cc:116-165 | a window finds entries, advances and meets no evicted file if and only if three conditions on positions, ids and skipped ids hold |
| Cursors.SegmentsOrderedExactly | src/tiering/index_manager.cc:151-173 | in any run of the code, skipped ids or not, segments have increasing `last_xid` if and only if every window was taken on a log on which it ends, inside the log, at an id beyond the cursor |
| Cursors.CursorStep | src/tiering/eviction_agent.cc:79-107 | without skipped ids each step keeps the cursors ordered and neither goes back |
| Cursors.CursorsInEveryRun | src/tiering/eviction_agent.cc:160-161 | in every run without skipped ids, segments have increasing `last_xid`, windows cover exactly the log up to the tiered-out cursor and passes exactly the log before the eviction cursor, each entry once |
| Cursors.SnapshotNeverStuck | src/FileSystemManager.cc:44-49 | without skipped ids and with an untiered entry the next window can be taken and never meets an evicted file |
| Passes.PassHandsExactly | src/tiering/eviction_agent.cc:79-97 | on any log, a pass is handed an entry if and only if its id, with the ids skipped after it added, lies between the two cursors |
| Passes.PassMovesForwardExactly | src/tiering/eviction_agent.cc:103-105 | on any log, a pass does not move its cursor back if and only if few enough ids were skipped after the last entry it reads |
| Passes.NothingPassedIsLost | src/tiering/eviction_agent.cc:160-161 | in any run of the code every entry before the place where the next pass starts has been handed to a pass |
| Passes.PassCatchesUp | src/tiering/eviction_agent.cc:79-97 | after a pass every entry whose id, with the ids skipped after it, is at most the tiered-out cursor has been handed over |
| Passes.StartsRightExactly | src/tiering/eviction_agent.cc:160-161 | a pass starts right behind what was handed over before if and only if its cursor is one past the last id handed over with the ids skipped after it added |
| Passes.HandOverExactly | src/tiering/eviction_agent.cc:79-107 | in any run of the code the passes are handed a first part of the log, in order and each entry once, if and only if every pass that reads anything starts right behind what was handed over before |
| Passes.CursorsOrderedExactly | src/tiering/tiering_out_agent.cc:162-165 | in any run of the code the eviction cursor is at all moments at most one past the tiered-out cursor, if and only if every window ends at or past what the passes were handed |
| Volume.HousedKept | src/KVFSDirectoryPartition.cc:225 | operations on files leave every stored directory of the volume as it was |
| Volume.PlacedCreate | src/KVFSFile.cc:271-289 | after a create the stored directory entries are again exactly what the inodes record: an entry under each inode's parent and name, the dots, and nothing else |
| Volume.WithEntryExactly | src/KVFSFile.cc:271-289 | a create adds the name to the parent's stored map and "." and ".." to a new directory's, and every other stored entry is as it was |
| Volume.FileSystem.constructor | src/KVFSFile.cc:1149-1156 | an empty volume has the root directory with its dots |
| Volume.FileSystem.Create | src/KVFSFile.cc:271-289 | the entry goes into the parent's stored partition, a directory gets its stored dots, a file is empty; all other files and directories are as before |
| Volume.FileSystem.Change | src/KVFSFile.cc:540-655 | one file changes as the flat reference does, no other file and no directory changes |
| Volume.FileSystem.Fetch | src/KVFSFile.cc:449-530 | the buffer gets the reference read, an evicted file comes back, no other file and no directory changes |
| Volume.FileSystem.Evict | src/tiering/eviction_agent.cc:60-162 | exactly the chosen files lose their data, and no directory changes |
| Mounted.WindowIsStep | src/tiering/tiering_out_agent.cc:118-165 | on a log with or without gaps, what the persister did for the next window is a step of the protocol |
| Mounted.WindowsAreSteps | src/tiering/tiering_out_agent.cc:113-166 | on a log with or without gaps, everything the snapshot loop does is a run of protocol steps, one for each window, and keeps the invariant |
| Mounted.EvictedStopsLoop | src/FileSystemManager.cc:44-49 | if an evicted file has an entry that the loop would still read, no number of windows reaches the end of the log |
| Mounted.SnapshotReachesEndExactly | src/tiering/tiering_out_agent.cc:113-166 | in every good state, some number of windows takes the cursor to the end of the log if and only if the loop on that log ends and no evicted file has an entry that it would still read |
| Mounted.Mount.constructor | src/FileSystemManager.cc:63-80 | a fresh mount, its volume with the root directory and its log with the root's entry, is the initial state of the protocol |
| Mounted.Mount.Create | src/kvfs_mount.cc:443-478 | a free name is entered in the parent's stored partition with the next inode number, its inode stored and logged, a protocol step that keeps the reference equal; a name found there is an error without effect |
| Mounted.Mount.Change | src/kvfs_mount.cc:672-694 | a logged write or resize of any file through the chunk store is a protocol step; the mount stays equal to the reference if and only if the file was resident or the change left it as it was; directories are untouched |
| Mounted.Mount.SkipXid | src/kvfs_mount.cc:560 | an id allocated and never logged is a protocol step |
| Mounted.Mount.Read | src/KVFSFile.cc:449-530 | whatever was evicted, the buffer receives exactly the never-evicting reference's bytes asked for or available, for every pace of short reads; the fault-in is a protocol step |
| Mounted.Mount.EvictionPass | src/tiering/eviction_agent.cc:60-162 | a pass without any check is a protocol step that leaves its victims no chunk and every directory alone; the mount stays equal to the reference if and only if the copy of each victim is current, as it is for settled ones |
| Mounted.Mount.Snapshot | src/tiering/tiering_out_agent.cc:113-166 | on every log on which the loop ends and meets no evicted file, it is one protocol step for each window, ends with the log tiered out, disturbs no file or directory, and then the index holds a current copy of every file |
| Failures.EvictionDropsWrite | src/tiering/eviction_agent.cc:109-155 | a run for every byte b: write 5, tier it out, overwrite it with b, and the pass evicts the file; the next read returns 5 |
| Failures.WriteToEvictedIsLost | src/KVFSFile.cc:540-655 | a run for every byte b in which a write of b to an evicted file is followed by a read that returns the old byte |
| Failures.GrowingEvictedStopsRead | src/KVFSFile.cc:681 | a run in which an evicted file is grown and the next read stops at the size assertion |
| Failures.SkippedIdStopsSnapshot | src/FileSystemManager.cc:44-49 | a run, with both guards kept, in which one skipped id makes the next window meet an evicted file |
| Failures.SkippedIdRepeatsEntry | src/tiering/eviction_agent.cc:79-107 | a run in which one skipped id makes two passes read the same entry and none the last one tiered out |

## Left out

- FUSE request handling, replies, and the inode cache with its hold counts and attribute states.
- LevelDB and RocksDB: the store is a map whose puts succeed, so the error branches after a failed put are not modelled.
- Tarballs, working directories, rclone and shell commands: a segment is an index entry and a map from path to bytes.
- Threads, sleeps and web control: a snapshot window, an eviction pass and a file operation are atomic steps.
- CityHash: any function of the name.
- Protobuf encoding: `LogFile` takes an entry codec that round-trips as given.
- `Compress`, which does nothing, and log trimming, which is not implemented.
- Mode bits, access checks, timestamps, status tables, configuration and counters.
- `SetAttr` beyond its call of `SetSize`, `close`, remounting, and deletion or renaming inside the tiering runs.
- Null buffers passed to `read` and `write`, which both return at once without effect.
- `fileInitialSize`, always 0 in the original.
- Sorting the inodes of a segment by path (src/tiering/snapshot_persister.cc:58-59): it only sets the order in which files are added.
- The lazy allocation of partition objects: both exist from the start, unread.
- Overflow of link counts and of 64-bit transaction ids.
- TieringOut.Snapshot: stated for the logs on which the loop ends; on all others, by `Windows.LoopEndsExactly`, it runs for ever or takes the last element of an empty vector (src/tiering/tiering_out_agent.cc:143-144).
- Mounted.Mount.Snapshot: stated for logs on which the loop ends and meets no evicted file, which `Mounted.SnapshotReachesEndExactly` shows to be needed. It reads the contents of all resident files once at the start; the source reads each window's files as it comes to them, which is the same while no other call intervenes.
- Tiering.EvictionIsInvisible: holds for runs in which a file is only evicted when no log entry above the tiered-out cursor names it, an evicted file is read before it is changed again, every window finds an entry and no evicted file (which the snapshot mount could not read), and every segment is persisted; the source enforces none of the four. The exact conditions for the first three are listed above.
- Directory.Reopen: stated for clean names and buffers under 2^32 bytes; `DirCodec.NameMapRoundTrip` shows that names with '|' or NUL do not survive.
- LogFile.Flush: requires a non-empty log, because the source names the file after its first and last entry.
- Partition.LogFSDirectoryPartition.Deserialize: where the entry loop would leave the buffer the model returns false; the source has no such test and reads on (src/KVFSDirectoryPartition.cc:170-181).
- Partition.LogFSDirectoryPartition.Refresh: stated for maps that can be read back; `Partition.LogFSDirectoryPartition.Load` and `Partition.RereadExactly` say what happens with all others.
- Link counts are those of the loaded inodes, as `remove` changes them without storing the inode; the copy in the stored inode is not modelled.
- Cursors.CursorsInEveryRun: stated for runs without skipped ids; with gaps a pass can read an entry again or put one off (`Failures.SkippedIdRepeatsEntry`), exactly as `Passes.PassHandsExactly`, `Passes.HandOverExactly` and `Passes.CursorsOrderedExactly` say, and nothing that the cursor has passed is lost.
