# VexFS storage engine: model and proofs

VexFS is a user-space file system in Rust that keeps everything in one image file: a superblock, a table of inodes, a
write-ahead journal and a data region, with an index, a cache and a small usage memory on top. This project models
its stateful core in Dafny and proves what that core is meant to guarantee.

* **Journal and recovery** (`Bytes`, `Checksum`, `DiskCodec`, `JournalCodec`, `DiskImage`, `JournalLog`, `Storage`,
  `Journal`, `Atomicity`, `Recovery`, `DiskManager`, `CrashRuns`, `CrashWindows`). The disk is a sequence of bytes.
  Every write adds to a ghost set all the images that a crash during that write could leave: any bytes in the range
  being written and any file length in between. The methods then promise something about every image in that set, so
  the theorems hold for a crash at any point, including crashes inside the replay at mount. `Recovered(img)` is what
  mounting `img` shows outside the journal region.
* **Space** (`FreeList`, `FreeListStore`, `Rebuild`, `InodeTable`, `BlockZero`, `Space`, `SpaceRuns`,
  `BlockZeroCrashes`): the best-fit free list, its rebuilding from the live extents, the growable inode table, the
  packing of block 0 and crashes while it is written, who owns which byte, and what a mount may hand out.
* **B+ tree** (`Keys`, `Tree`, `BPlusTree`): the metadata index as an ordered map, its structural invariants, its
  pruned range scan, its height and the length of a lookup.
* **ARC cache** (`ArcCache`): lists with lazily removed entries, sizes, ghosts, and agreement with a plain map.
* **Clustering** (`Clustering`): union-find with path compression against connected components.
* **Namespace** (`Namespace`): create, mkdir, unlink, rmdir and rename over the index and the file table, what they
  always keep, and exactly when they keep the directories a tree.
* **Usage memory** (`Utf8`, `MemoryImage`): writing and reading the persisted memory under any hash map order.

Three premises about the hardware stand behind this. Two are in `Storage.MayLeave`: the 64-byte journal header is
written all or not at all (it lies inside one sector), and a journal slot that is torn fails its checksum. The third is
in the way the crash images are collected, one write after the other: writes reach the disk in program order. The code
asks for that nowhere; it only calls `flush` on the file, which orders nothing. All other writes tear in any way.

Nothing is assumed about a slot and the header that counts it, or about the 513 writes of a clear, happening together.
Recovery from any single crash is right without that. For histories of sessions and crashes, `CrashRuns.MountAndRun`
starts from a `Sound` image and shows that every image a crash can leave is `Sound` again, so that the next session can
start from it, except in exactly two windows: `Uncounted` (the first entry of a transaction is in the log, the header
that counts its id is not) and `HalfBlank` (a clear has blanked slot 0 and not everything behind it). Treating an entry
with its header, and a clear, as one step each closes both. The writes of a session go to any offset clear of block 0
and of the journal, and which of them succeed is known exactly. `DiskManager.Open` says that a mount carries on soundly
exactly on `Reusable` images; `CrashWindows.IdHandedOutTwice` and `CrashWindows.StaleReplayed` take the code through the
two windows and show what they lead to. `CrashRuns.FormattedSound` shows that a formatted image is sound.

Where the code does not do what its comments say, the code is what is modelled and the difference is proved:

* the free list in block 0 survives up to 190 extents, not the declared 200 (`BlockZero.RoundTripBound`);
* rebuilding the free list is exact only up to 200 gaps and when byte 0 is not free (`Rebuild.RebuildFromInodes`);
* an allocation that was never flushed is handed out again by the next mount, under a recovered inode, whether it came
  from the end of the region (`SpaceRuns.HandedOutAgain`) or from the free list (`SpaceRuns.HandedOutFromStaleList`);
  `SpaceRuns.ClearExactly` says for which extents this cannot happen;
* block 0 is written without the journal: a flush can leave an image that does not open (`BlockZeroCrashes.TornFlush`),
  and a growing inode table one whose new block is handed out as file space (`BlockZeroCrashes.NewBlockShared`);
  `BlockZeroCrashes.FlushWhole` and `BlockZeroCrashes.AllocWhole` say when that is safe;
* a format leaves the old free list in block 0; `vexfs mkfs` flushes afterwards, but an old image that is formatted and
  mounted without a flush hands out space twice (`SpaceRuns.FormatAndOpen`, `SpaceRuns.ReformattedSharesSpace`);
* the cache's "hard memory ceiling" does not bind updates in place (`ArcCache.ArcCache.Insert`,
  `ArcCache.CeilingExceeded`), and an eviction need not be announced (`ArcCache.EvictsUnannounced`);
* a directory listing misses names that sort behind U+10FFFF, so `rmdir` can remove a directory that is not empty
  (`BPlusTree.BPlusTree.ListDir`, `Namespace.RemovedWhileFull`);
* `rename` can move a directory into itself and `unlink` can remove a full directory
  (`Namespace.MovedIntoItself`, `Namespace.UnlinkedWhileFull`);
* a crash in a long data write can leave a log that no later write fits behind (`CrashWindows.Stranded`).

## Model

| member | source | states |
|---|---|---|
| `Bytes.LeRoundTrip` | src/fs/disk.rs:69-86 | the little-endian bytes of a number that fits the width give the number back |
| `Bytes.LeExact` | src/fs/disk.rs:69-86 | and encoding what was decoded gives the bytes back, so no other bytes decode to the number |
| `Bytes.LeByte` | src/fs/disk.rs:69-86 | byte i is v / 256^i % 256 |
| `Checksum.CheckValue` | src/fs/disk.rs:50-56 | the IEEE check value of the byte 0x7F, through polynomial, start value and final inversion |
| `DiskCodec.SuperblockRoundTrip` | src/fs/disk.rs:113-160 | a superblock decodes to what was encoded, with the checksum accepted |
| `DiskCodec.SuperblockLayout` | src/fs/disk.rs:86-128 | each field, the checksum over bytes 0 to 55 included, at its documented offset |
| `DiskCodec.SuperblockExact` | src/fs/disk.rs:114-147 | bytes are read as a superblock if and only if they are, padding aside, what is written for it: damaged ones are refused |
| `DiskCodec.InodeRoundTrip` | src/fs/disk.rs:187-234 | an inode record decodes to what was encoded, name and unchecked tail included |
| `DiskCodec.InodeLayout` | src/fs/disk.rs:198-214 | each field of a record at its documented offset |
| `DiskCodec.InodeExact` | src/fs/disk.rs:198-234 | a record is read if and only if its fields, checksum and name are what is written for it |
| `DiskCodec.ZeroedIsFree` | src/fs/inode_table.rs:188-211 | a zeroed record reads as a free slot |
| `JournalCodec.HeaderRoundTrip` | src/fs/journal.rs:85-117 | the journal header decodes to what was encoded |
| `JournalCodec.HeaderLayout` | src/fs/journal.rs:90-99 | each field of the header at its documented offset |
| `JournalCodec.HeaderExact` | src/fs/journal.rs:90-110 | a header is read if and only if its 24 bytes of fields and checksum are what is written for it |
| `JournalCodec.EntryRoundTrip` | src/fs/journal.rs:147-203 | a journal entry in use decodes to what was encoded |
| `JournalCodec.EntryLayout` | src/fs/journal.rs:159-176 | each field of an entry at its documented offset, the offset on disk split in two halves |
| `JournalCodec.EntryExact` | src/fs/journal.rs:159-202 | a slot is read as an entry if and only if it holds, byte by byte, what is written for it; anything damaged is refused |
| `JournalLog.RunIs` | src/fs/journal.rs:249-265 | the log a mount reads is the longest run of readable slots from slot 0, and the only one |
| `JournalLog.LogStands` | src/fs/journal.rs:249-265 | a log is what a mount reads if and only if each entry stands in its slot exactly as it is written, 512 bytes apart, and the next slot holds no entry |
| `JournalLog.ReplaysExactly` | src/fs/journal.rs:267-281 | what is replayed is, in log order and once each, exactly the written inode and data entries whose transaction has a written COMMIT |
| `JournalLog.WrittenBytes` | src/fs/journal.rs:322-450 | the bytes of the entries that are written: kind, state, transaction, length, offset, checksum, data, zeros |
| `JournalLog.SelectOnlyCommitted` | src/fs/journal.rs:267-281 | whatever is replayed is a write of a transaction whose COMMIT is in the log |
| `JournalLog.UncommittedNotReplayed` | src/fs/journal.rs:267-281 | entries of a fresh id without a COMMIT change nothing a mount replays |
| `JournalLog.CommitReplaysAll` | src/fs/journal.rs:267-281 | the COMMIT adds all writes of its transaction behind everything committed before |
| `JournalLog.ReplayIsLastWriter` | src/fs/mod.rs:92-104 | byte by byte, replay leaves what the last committed entry covering the byte put there, and other bytes alone |
| `JournalLog.ReplayConcat` | src/fs/mod.rs:92-104 | replaying one log and then another is replaying both in one |
| `JournalLog.ReplayRepairs` | src/fs/mod.rs:92-104 | images that differ only in bytes the log writes are the same after replay |
| `JournalLog.ChunksAreOneWrite` | src/fs/journal.rs:378-414 | applying the 490-byte chunks in order is one write of the whole buffer at its offset |
| `JournalLog.ChunksWithin` | src/fs/journal.rs:378-414 | every chunk belongs to the transaction and lies in the buffer's range |
| `JournalLog.ChunksCover` | src/fs/journal.rs:378-414 | the chunks cover every byte of the buffer's range |
| `Storage.File.Write` | src/fs/disk.rs:34-40 | a positioned write, and every image a crash during it can leave |
| `Storage.SlotLeft` | src/fs/journal.rs:475-500 | a crash while a slot is written leaves it saying what it said, what was written, or nothing |
| `Storage.JournalUntouched` | src/fs/mod.rs:179-204 | a write outside the journal region, torn or not, leaves the log alone |
| `Storage.TornRepaired` | src/fs/mod.rs:179-204 | replaying entries that cover a torn write gives what replaying them on the untorn image gives |
| `Journal.Journal.Format` | src/fs/journal.rs:215-227 | a fresh header and an empty log; bytes outside the region are kept |
| `Journal.Journal.Open` | src/fs/journal.rs:232-284 | the log position, the header and exactly the committed entries of the visible log, each of which stands in its slot as it is written |
| `Journal.Journal.WriteEntry` | src/fs/journal.rs:475-500 | appends to the log, or refuses when it is full; the crash images with the entry and those without it |
| `Journal.Journal.LogInodeWriteAt` | src/fs/journal.rs:322-345 | one inode entry behind the log; every crash image shows the log with or without it |
| `Journal.Journal.LogDataWriteAll` | src/fs/journal.rs:378-414 | all chunks behind the log, or nothing at all when chunks and COMMIT together do not fit; a crash shows some first part of them |
| `Journal.Journal.Commit` | src/fs/journal.rs:442-450 | the COMMIT behind the log, and which crash images have it |
| `Journal.Journal.Clear` | src/fs/journal.rs:455-468 | an empty log with the id counter kept; a crash on the way shows all of the old log or none of it |
| `Journal.AppendImages` | src/fs/journal.rs:475-500 | the slot write and the header write of an entry separate cleanly into images without and with the entry |
| `Journal.ClearImages` | src/fs/journal.rs:455-468 | an interrupted clear reads as the whole old log until slot 0 is blank and as an empty one from then on |
| `Atomicity.BeforeCommit` | src/fs/mod.rs:179-204 | without the COMMIT in the log a mount recovers the old state |
| `Atomicity.AfterCommit` | src/fs/mod.rs:179-204 | with the COMMIT in the log a mount recovers the new state, though nothing is in place |
| `Atomicity.TornInPlace` | src/fs/mod.rs:179-204 | however the write in place tears, a mount recovers the new state |
| `Atomicity.Checkpoint` | src/fs/journal.rs:455-473 | clearing a log whose writes are all in place loses nothing at any crash point |
| `Atomicity.LoggingCarried` | src/fs/journal.rs:475-500 | while a transaction is logged, the journal stays usable at every crash except between its first entry and the header |
| `Recovery.InterruptedReplays` | src/fs/mod.rs:92-104 | replaying in full after an interrupted replay is replaying once |
| `Recovery.ReplayIdempotent` | src/fs/mod.rs:92-104 | a finished replay is a fixed point of replaying |
| `Recovery.AttemptsConverge` | src/fs/mod.rs:92-104 | any number of replays, whole or cut short, then one in full, is one replay |
| `Recovery.ReplayDone` | src/fs/mod.rs:92-104 | after the replay everything committed is in place and the log may be cleared |
| `Recovery.ReplayingRemountable` | src/fs/mod.rs:92-104 | a crash during the replay loses nothing and leaves a log the next mount replays and clears again |
| `DiskManager.DiskManager.Format` | src/fs/mod.rs:120-168 | the whole image, byte ranges and superblock fields written out: journal header, zeroed inode table and journal, superblock and directory in block 0, everything else kept; a mounted disk with an empty log, an empty free list and 1024 free inode slots |
| `DiskManager.DiskManager.Open` | src/fs/mod.rs:82-117 | the opened disk shows what the image recovers to; every crash during replay and clear recovers the same; the result is soundly mounted exactly when the image is reusable |
| `DiskManager.DiskManager.ReplayAll` | src/fs/mod.rs:92-104 | the replay loop, and that every image it can leave recovers the same state |
| `DiskManager.DiskManager.WriteInode` | src/fs/mod.rs:179-204 | crash atomicity of an inode write: every crash image recovers the old state without the COMMIT in its log, or the new state with it or with an emptied log; every other byte is kept; exactly when it is refused, and where that leaves the log |
| `DiskManager.DiskManager.WriteFileData` | src/fs/mod.rs:246-259 | crash atomicity of a data write of any length, and exactly when it is refused |
| `DiskManager.DiskManager.Checkpoint` | src/fs/mod.rs:194-202 | the log is emptied from slot 496 on, and content outside the journal is kept |
| `DiskManager.DiskManager.Flush` | src/fs/mod.rs:348-354 | superblock, free list and directory go to block 0 and the disk stays mounted; which images a crash can leave |
| `DiskManager.DiskManager.AllocData` | src/fs/mod.rs:219-238 | the front of a best-fitting free extent or the end of the region, with what is left of either; after the latter the end is the next multiple of 512; the new extent shares no byte with any live extent, free extent or inode block, and lies in the data region, whenever space was sound |
| `DiskManager.DiskManager.FreeData` | src/fs/mod.rs:241-243 | any extent is taken unchecked; ownership stays sound when it was live, and otherwise exactly when its bytes are in the region and nobody owns one |
| `DiskManager.DiskManager.AllocInode` | src/fs/mod.rs:295-318 | the least free slot, or slot 0 of a new block when all are used; None only with all 65,536 in use; earlier inodes and the ownership of bytes are kept; which images a crash can leave |
| `CrashRuns.RunSession` | src/fs/mod.rs:179-259 | over any run of inode writes and of data writes clear of block 0 and the journal: exactly which succeed and how much log is in use; every crash image recovers exactly a first part of the run, each operation whole, in order, and its journal is usable but for the two windows |
| `CrashRuns.MountAndRun` | src/fs/mod.rs:82-117 | the same for a mount followed by a run, crashes during the mount included; every crash image outside the two windows is sound again, and so is the final image |
| `CrashRuns.CrashSound` | src/fs/mod.rs:82-117 | a usable crash image has the superblock and block directory its session began with, and everything else a mount asks for |
| `CrashRuns.NewDisk` | src/fs/mod.rs:120-168 | a formatted and flushed image is sound |
| `CrashRuns.FormattedSound` | src/fs/mod.rs:120-168 | a formatted image is sound as it stands, without a flush |
| `CrashRuns.SessionsCompose` | src/fs/mod.rs:82-117 | session after session, the last image recovers all writes that survived, in order |
| `CrashWindows.IdHandedOutTwice` | src/fs/journal.rs:475-500 | the run from any settled image with nothing to replay: a crash between the slot of a transaction's first entry and the header, a mount, one committed write under the same id; the log and what a mount makes of it: the orphan entry, which was never committed, is replayed as well |
| `CrashWindows.StaleReplayed` | src/fs/journal.rs:455-468 | the run from any settled log of two entries or more: a crash behind slot 0 of a clear, a mount, one journaled inode; the new log has the end of the old one behind it, and a byte of the new write reads back exactly when what is replayed of that end leaves it alone or last writes the same |
| `CrashWindows.OlderInodeShown` | src/fs/journal.rs:455-468 | such a run from a new disk, after which a mount shows the older of two inodes |
| `CrashWindows.ReplaysApart` | src/fs/journal.rs:267-281 | logs without a common transaction id are replayed one after the other |
| `CrashWindows.Stranded` | src/fs/journal.rs:378-414 | the run: a crash before the COMMIT of a write that takes the log to 511 entries, a mount, any further operations; the log is the old one with the chunks behind it, the mount keeps all 511 slots, and no operation but an empty write succeeds |
| `CrashWindows.FullForGood` | src/fs/journal.rs:475-481 | some run still puts something on the disk if and only if at most 510 slots are in use |
| `CrashRuns.RunKeepsRoom` | src/fs/mod.rs:194-202 | from at most 495 used slots, over any run, the log gets back to at most 495 behind every operation, and every inode write with a block and every data write of up to 16 chunks succeeds |
| `CrashRuns.OnlyTheseAlwaysFit` | src/fs/mod.rs:249-257 | any other operation is refused by a log with 495 slots in use |
| `FreeList.FreeList.Free` | src/fs/free_list.rs:66-72 | exactly the freed bytes become free, except that empty, zero-offset and over-full calls are ignored |
| `FreeList.FreeList.MergeAdjacent` | src/fs/free_list.rs:102-120 | the same bytes, as sorted extents with a gap between any two |
| `FreeList.MergedFormUnique` | src/fs/free_list.rs:102-120 | that form is determined by the bytes |
| `FreeList.FreeList.Alloc` | src/fs/free_list.rs:76-96 | a shortest fitting extent is claimed; extents stay apart; None exactly when no extent is long enough |
| `FreeList.ClaimedBytes` | src/fs/free_list.rs:76-96 | the claimed bytes were free and are no more, nothing becomes free, and only slack behind the claim is lost |
| `FreeList.ClaimedTotal` | src/fs/free_list.rs:76-96 | the free total drops by the claimed bytes and fewer than 512 of slack |
| `FreeList.NoFitMeansNoRun` | src/fs/free_list.rs:76-96 | when no extent fits, there is no run of that many free bytes anywhere |
| `FreeList.RunInsideOne` | src/fs/free_list.rs:102-120 | on separate extents a run of free bytes lies inside one extent |
| `Rebuild.RebuildFromInodes` | src/fs/free_list.rs:192-223 | never a byte too many; exactly the complement of the used extents, in any order, overlapping or past the end of the disk, when at most 200 gaps are met and no gap starts at byte 0; and, for non-empty used extents, only then |
| `FreeListStore.ExtentsRoundTrip` | src/fs/free_list.rs:42-55 | the extents decode to what was encoded |
| `FreeListStore.ExtentsExact` | src/fs/free_list.rs:42-54 | whole extents decode to a list that encodes to the same bytes |
| `FreeListStore.ExtentsLayout` | src/fs/free_list.rs:42-47 | 16 bytes an extent, offset and then length |
| `InodeTable.SlotsDisjoint` | src/fs/inode_table.rs:154-179 | exactly the slots below the capacity are addressable, and no two share a byte |
| `InodeTable.SlotPlace` | src/fs/inode_table.rs:160-169 | an addressable slot keeps clear of block 0 and of the journal |
| `InodeTable.DirectoryEntry` | src/fs/inode_table.rs:140-150 | 8 bytes an inode block, in order |
| `InodeTable.GrownDirectory` | src/fs/inode_table.rs:188-211 | a new block goes behind everything, keeps the directory a nonzero prefix and adds 1024 slots |
| `InodeTable.GrownImage` | src/fs/inode_table.rs:188-211 | after growing, every old inode reads back and every new slot is free |
| `InodeTable.InodeTable.Open` | src/fs/inode_table.rs:106-137 | the directory the image holds, entry 0 always the original table |
| `InodeTable.InodeTable.AllocBlock` | src/fs/inode_table.rs:188-211 | the first slot of a new block, or None when all 64 blocks exist |
| `InodeTable.InodeTable.AllocInode` | src/fs/inode_table.rs:248-276 | the least free slot; the old capacity when every slot is used; full only at 65,536 |
| `BlockZero.RoundTripBound` | src/fs/mod.rs:348-354 | flush then open gives superblock, free extents and directory back if and only if at most 190 extents are free |
| `BlockZero.FlushedBytes` | src/fs/free_list.rs:123-147 | what flush leaves in block 0: the directory lies over whatever of the free list reaches 3584 |
| `BlockZero.FreeListOverrun` | src/fs/free_list.rs:150-188 | with more extents the list read back is empty or wrong |
| `BlockZero.FreeListExact` | src/fs/free_list.rs:150-188 | a list that is not empty is read if and only if header and extents are what is written for it |
| `BlockZero.HeaderLayout` | src/fs/free_list.rs:123-147 | magic, count and checksum of the list at their documented offsets |
| `Space.ClaimedSpace` | src/fs/mod.rs:219-224 | claiming from the free list keeps live, free and inode bytes apart |
| `Space.BumpedSpace` | src/fs/mod.rs:225-238 | so does allocating at the end of the region |
| `Space.ReleasedSpace` | src/fs/mod.rs:241-243 | making the bytes of an extent free keeps them apart if and only if the bytes lie in the region and nobody owns one |
| `Space.FreedSpace` | src/fs/mod.rs:241-243 | giving back an extent, live or not, taken by the list or dropped |
| `Space.GrownSpace` | src/fs/mod.rs:295-318 | so does a new inode block |
| `SpaceRuns.ClearExactly` | src/fs/mod.rs:219-238 | whatever run of allocations follows a mount, it keeps clear of an extent if and only if the extent is empty, or ends by next_data_offset and has no byte on the free list |
| `SpaceRuns.AllocRun` | src/fs/mod.rs:219-238 | the extents a run of allocations hands out are those the condition speaks of |
| `SpaceRuns.RunAligned` | src/fs/mod.rs:225-238 | over any run of allocations, an extent handed out lies in what the free list held, starts at the old end, or starts at a multiple of 512 |
| `SpaceRuns.CrashedSpace` | src/fs/mod.rs:82-117 | every crash image of a session behind a flush with at most 190 free extents reads back superblock, directory and free list of that flush, so the extents live then are kept apart from everything else |
| `SpaceRuns.Remount` | src/fs/mod.rs:82-117 | mounting such an image and taking those extents over makes space sound again |
| `SpaceRuns.HandedOutAgain` | src/fs/mod.rs:225-238 | the run: allocate at the end of the region, journal data and inode, crash before a flush, mount; the inode is there and its extent is handed out again |
| `SpaceRuns.HandedOutFromStaleList` | src/fs/mod.rs:219-224 | the same for an extent taken from the free list: it ends by next_data_offset, but the list in block 0 still holds it |
| `SpaceRuns.FormatAndOpen` | src/fs/mod.rs:82-168 | a format and a mount: it opens with the superblock of the format, 1024 free slots and an empty log; the free list is the one the image held before, and space is sound if and only if that is empty |
| `SpaceRuns.ReformattedSharesSpace` | src/fs/mod.rs:82-168 | the run: an image with a free extent is formatted and mounted without a flush, and two allocations get the same offset |
| `BlockZeroCrashes.FlushCrash` | src/fs/mod.rs:348-354 | whatever a crash during a flush leaves, inodes and data are recovered as before, and the image can be carried on with if and only if it has a superblock, and a directory that fits it |
| `BlockZeroCrashes.FlushWhole` | src/fs/mod.rs:348-354 | it always can when the superblock and the directory, each inside one sector, both stand as before or as written |
| `BlockZeroCrashes.TornSuperblock` | src/fs/disk.rs:113-160 | a superblock torn in front of its checksum is read exactly when the old checksum fits the new fields |
| `BlockZeroCrashes.TornFlush` | src/fs/mod.rs:348-354 | the run: such a crash during a flush; the image opens exactly under that condition |
| `BlockZeroCrashes.AllocCrash` | src/fs/mod.rs:295-318 | the same as for a flush while the inode table grows, below the end of the region |
| `BlockZeroCrashes.AllocWhole` | src/fs/mod.rs:295-318 | with neither superblock nor directory torn, the image can be carried on with if and only if it is not the one between the two writes |
| `BlockZeroCrashes.GrownLaid` | src/fs/inode_table.rs:188-211 | a directory with a new block fits a superblock if and only if that counts the block |
| `BlockZeroCrashes.BlockKept` | src/fs/mod.rs:219-238 | a mount allocates clear of the block exactly then, its bytes not being on the free list |
| `BlockZeroCrashes.InodeBlockHandedOut` | src/fs/inode_table.rs:203-204 | the run, from any disk whose slots are all used: a crash between directory and superblock; the next mount hands the block's first bytes out unless the free list has room |
| `BlockZeroCrashes.NewBlockShared` | src/fs/mod.rs:295-318 | the whole of it from a new disk: 1024 inodes, one more, the crash, a mount, and a file that shares a byte with the block |
| `Keys.TotalOrder` | src/fs/btree.rs:47-61 | keys are totally ordered by parent and then name |
| `Keys.NameOrder` | src/fs/btree.rs:47-61 | the order of names is that of a dictionary: the first difference decides, a prefix comes first |
| `Keys.SortedIsAlphabetical` | src/fs/btree.rs:47-61 | sorted entries stand by parent number and, within a parent, as in a dictionary |
| `Keys.PutIsUpdate` | src/fs/btree.rs:141-188 | putting into a sorted list updates the map it stands for and keeps it sorted |
| `Keys.DropIsRemoval` | src/fs/btree.rs:191-207 | dropping from a sorted list removes from the map it stands for and keeps it sorted |
| `Tree.GetFinds` | src/fs/btree.rs:123-137 | a lookup in a well-formed subtree finds what its entries in order hold under the key |
| `Tree.EntriesOk` | src/fs/btree.rs:73-117 | the entries of a well-formed subtree are sorted and within its separators |
| `Tree.InsertInto` | src/fs/btree.rs:141-188 | an insert, with any splits on the way, puts exactly the pair into the entries and keeps order, separators, fill and uniform depth |
| `Tree.RemoveFrom` | src/fs/btree.rs:191-207 | a removal drops exactly the key from the entries and keeps order, separators and depth |
| `Tree.LeafSplit` | src/fs/btree.rs:141-166 | splitting a leaf loses no entry and separates the halves |
| `Tree.InternalSplit` | src/fs/btree.rs:166-186 | splitting an internal node loses no entry, promotes the middle key and separates the halves |
| `BPlusTree.BPlusTree.Insert` | src/fs/btree.rs:275-293 | the ordered map updated at one key, with the size its number of keys |
| `BPlusTree.BPlusTree.Remove` | src/fs/btree.rs:297-307 | the ordered map without one key, answering its value |
| `BPlusTree.BPlusTree.Get` | src/fs/btree.rs:310-312 | the ordered map's value |
| `BPlusTree.BPlusTree.ListAll` | src/fs/btree.rs:332-336 | all entries, by parent and then as in a dictionary, as a map exactly the contents |
| `BPlusTree.CollectRange` | src/fs/btree.rs:226-254 | the pruned scan appends exactly the entries in range, in order |
| `BPlusTree.BPlusTree.RangeKeys` | src/fs/btree.rs:339-343 | exactly the entries from the first key to the last, both included, as in a dictionary |
| `BPlusTree.BPlusTree.ListDir` | src/fs/btree.rs:320-329 | the entries of the directory as in a dictionary, exactly those whose name is not U+10FFFF with something behind it; so all of them exactly when there is no such name, and none exactly when all are such |
| `BPlusTree.ListingExact` | src/fs/btree.rs:27-36 | the range between the sentinels holds all of a directory exactly when no name sorts behind U+10FFFF |
| `BPlusTree.PastSentinelIs` | src/fs/btree.rs:27-36 | a name sorts behind the sentinel if and only if it begins with U+10FFFF and goes on |
| `BPlusTree.SentinelIsNotLast` | src/fs/btree.rs:34-36 | anything that extends the sentinel sorts behind it |
| `BPlusTree.HeightBound` | src/fs/btree.rs:152-183 | an insert-only tree of height h >= 1 holds at least 2 * 4^h entries |
| `BPlusTree.SizeBound` | src/fs/btree.rs:141-207 | any tree of height h, after removals too, holds at most 7 * 8^h entries |
| `BPlusTree.PathLength` | src/fs/btree.rs:123-137 | a lookup visits exactly one node on every level and answers what its leaf answers |
| `BPlusTree.LookupLogarithmic` | src/fs/btree.rs:123-137 | in an insert-only tree a lookup of k >= 2 nodes means at least 2 * 4^(k-1) entries |
| `ArcCache.OrderedSet.PopFront` | src/cache/mod.rs:41-48 | the first queued key that is still a member leaves; None exactly when the set is empty |
| `ArcCache.OrderedSet.TruncateTo` | src/cache/mod.rs:65-70 | keys leave from the front of the queue only until at most the limit are left |
| `ArcCache.ArcCache.Insert` | src/cache/mod.rs:124-150 | the map with the value, less what was recorded as evicted; the ceiling holds exactly when the value fits; exactly when something is evicted; a new key goes to the back of its queue and the others keep their order; T2 loses keys only once T1 is within its target |
| `ArcCache.ArcCache.Get` | src/cache/mod.rs:153-167 | the last value inserted, or None exactly when the key is absent or was evicted since; how the target adapts; a key of T1 goes to the back of T2, one of T2 to its back again |
| `ArcCache.ArcCache.Remove` | src/cache/mod.rs:175-184 | the key leaves, and its last value is answered when it was resident |
| `ArcCache.ArcCache.PeekEvictionCandidate` | src/cache/mod.rs:196-207 | when Some, the first key in queue order of T1 if T1 is over its target or T2 is empty, of T2 otherwise, and the one the next eviction takes; None exactly below the ceiling or when empty |
| `ArcCache.ArcCache.EvictOne` | src/cache/mod.rs:210-232 | T2 loses a key only while T1 is within its target, T1 only when it is over its target or T2 is empty; it is the first in queue order, is recorded as evicted and remembered in the ghost list beside it, which keeps to 1000; the rest keeps its order; nothing happens only on an empty cache |
| `ArcCache.ArcCache.MakeRoom` | src/cache/mod.rs:139-142 | the eviction loop ends, with room or with nothing left, only recorded keys have left, and T2 keeps its keys while T1 is over its target |
| `ArcCache.CeilingExceeded` | src/cache/mod.rs:128-137 | a run that ends above the memory ceiling |
| `ArcCache.EvictsUnannounced` | src/cache/mod.rs:196-199 | a run in which a key is evicted although no candidate was announced |
| `ArcCache.UsedTwiceStays` | src/cache/mod.rs:196-213 | a run in which a key used twice stays and the oldest key used once is evicted |
| `Clustering.UnionFind.Find` | src/ai/workspace.rs:171-176 | terminates, answers the root, compresses the path and changes no root |
| `Clustering.UnionFind.Union` | src/ai/workspace.rs:178-182 | exactly the two trees become one |
| `Clustering.ShorterKeepsRoot` | src/ai/workspace.rs:171-176 | path compression changes no node's root |
| `Clustering.AddedEdge` | src/ai/workspace.rs:184-188 | adding an edge connects exactly what was connected with its two ends |
| `Clustering.UniteAll` | src/ai/workspace.rs:184-188 | two files have the same root exactly when pairs that met three times connect them, in any order of the pairs; fails exactly on an unknown file |
| `Clustering.DiscoverProjects` | src/ai/workspace.rs:154-199 | the groups are exactly the connected components of at least two files under the pairs that met at least 3 times, disjoint and without repeats; fails exactly when such a pair names an unknown file |
| `Clustering.StrongMeet` | src/ai/workspace.rs:154-199 | two known files that met 3 times or more are in one group; no pair that did means no group |
| `Namespace.VexFs.Make` | src/fuse/mod.rs:965-1081 | create and mkdir: which error, or a fresh inode with entry and record; the namespace stays consistent and a tree stays a tree; records keep disk slots of their own exactly when the disk hands out none that is held |
| `Namespace.VexFs.Unlink` | src/fuse/mod.rs:1085-1101 | entry and record go, where records have disk slots of their own, the one given back is held by no other; a tree stays one exactly when nothing lay in the entry |
| `Namespace.VexFs.Rmdir` | src/fuse/mod.rs:1108-1131 | which error; a directory goes exactly when each name in it sorts behind the sentinel |
| `Namespace.VexFs.Rename` | src/fuse/mod.rs:1138-1186 | the entry moves, overwriting what was there; a tree stays one exactly when the move fits |
| `Namespace.NoInodeUnderTwoKeys` | src/fuse/mod.rs:1158-1173 | no inode stands under two names |
| `Namespace.RemovedStaysTree` | src/fuse/mod.rs:1085-1131 | removing an entry keeps the tree if and only if nothing lies in it |
| `Namespace.MovedStaysTree` | src/fuse/mod.rs:1147-1173 | moving an entry keeps the tree if and only if the target is a directory, does not lie in what is moved, and hides no directory |
| `Namespace.Reparented` | src/fuse/mod.rs:1147-1173 | a directory can hang elsewhere if and only if the new place does not lie below it |
| `Namespace.MovedIntoItself` | src/fuse/mod.rs:1147-1173 | a rename that cuts a directory off from the root |
| `Namespace.UnlinkedWhileFull` | src/fuse/mod.rs:1085-1101 | an unlink that leaves a directory's contents without a parent |
| `Namespace.RemovedWhileFull` | src/fuse/mod.rs:1118-1131 | an rmdir of a directory that is not empty |
| `MemoryImage.ToBytes` | src/ai/memory.rs:593-658 | the image of the memory under some order of its hash maps |
| `MemoryImage.TablesLayout` | src/ai/memory.rs:593-658 | sessions, times, streaks, pairs, last day, daily counts and names stand one behind the other, with nothing between or behind them |
| `MemoryImage.RowShapes` | src/ai/memory.rs:593-760 | the cells of a row of each table: widths, number and order |
| `MemoryImage.SessionLayout` | src/ai/memory.rs:593-658 | a session is its id, start, end, writes and reads, then its files, at most 100 with their number in front, then the focus |
| `MemoryImage.TableLayout` | src/ai/memory.rs:593-658 | a table is the number of its rows, then the rows in order |
| `MemoryImage.RowLayout` | src/ai/memory.rs:593-658 | a row is its cells in order |
| `MemoryImage.CellLayout` | src/ai/memory.rs:767-784 | numbers are little-endian; a string is its length in one byte, then at most 255 of its bytes |
| `MemoryImage.FromBytes` | src/ai/memory.rs:661-760 | reads any bytes without passing their end, and gives what they encode or None; None on every image that is cut short |
| `MemoryImage.CutImageRefused` | src/ai/memory.rs:661-760 | no strict prefix of an image is read as a memory |
| `MemoryImage.ImageBack` | src/ai/memory.rs:593-760 | under any hash map order, reading an image gives the memory with what is over a cap dropped, strings clipped and peaks forgotten |
| `MemoryImage.RestoredIffSurvives` | src/ai/memory.rs:593-760 | with valid strings, the memory comes back whole if and only if it is within its caps, no session has a peak or an empty focus name, and every string has at most 255 bytes or is cut inside a final U+FFFD |
| `MemoryImage.SaveAndLoad` | src/ai/memory.rs:593-760 | the same for the two methods run one after the other |
| `MemoryImage.TextKept` | src/ai/memory.rs:767-794 | a valid string comes back exactly under that condition |
| `Utf8.ValidIsKept` | src/ai/memory.rs:786-794 | reading leaves a valid string alone |
| `Utf8.ValidIs` | src/ai/memory.rs:786-794 | valid strings are exactly the encodings of sequences of Unicode scalar values |
| `Utf8.LossyIsValid` | src/ai/memory.rs:786-794 | whatever the bytes, what is read is a valid string |
| `Utf8.CutIsKept` | src/ai/memory.rs:767-794 | a valid string cut short is read back whole if and only if it ends in U+FFFD and the cut fell into it |

## Left out

- Namespace.VexFs.Make: what the disk answers for a free inode slot is a parameter; `DiskManager.DiskManager.AllocInode` is what the disk promises.
- Namespace.VexFs.Unlink: the extent given back to the data allocator, sizes, timestamps, open times and dirty flags are not part of the file table here.
- DiskManager.DiskManager.Open: asks for an image that reaches past the journal region, as every formatted one does, and for a log that does not aim into the journal itself; what a mount makes of a truncated image is covered only as far as Journal.Journal.Open.
- DiskManager.DiskManager.WriteInode: transaction ids that wrap around 32 bits are allowed for one write; what they do to later writes is not covered.
- CrashRuns.MountAndRun: transaction ids do not wrap within a session, and the session consists of inode and data writes outside block 0.
- DiskManager.DiskManager.AllocInode: asks that nothing in the log reaches into space still to be allocated, which every write into allocated space keeps, and that no slot lies behind the end of the file.
- Rebuild.RebuildFromInodes: which gaps are lost when some used extents are empty is not worked out.
- DiskManager.DiskManager.AllocData: a request whose rounded end passes 2^64 - 1, where the code's addition overflows, is excluded.
- Journal.Journal.Open: an entry that claims more than 490 payload bytes is read as having 490; the code would panic on it.
- MemoryImage.FromBytes: the session in progress, which starts from the clock, is not part of the memory.
- Utf8.ValidIsKept: `String::from_utf8_lossy` belongs to the Rust standard library and is modelled from its documentation.
- Tree.InsertInto: nodes are values that are rebuilt, so editing key and child vectors in place, and sharing, are not captured; the tree object's root and size are updated in place.
- Write errors of the operating system: reads past the end fail, writes do not.
- `free_inode` and the snapshot table bypass the journal; only their effect on the mounted state through writes outside it is covered, by `Recovery.BypassMounted`.
- CRC32 is computed, but nothing is claimed about collisions beyond the premise on torn slots.
- Names are compared as sequences of Unicode scalar values, which is the order of their UTF-8 bytes.
- Mount-time loading of the namespace from inodes, the FUSE replies and attributes, virtual files, the write buffer and the dirty-data flush on eviction: glue without a strong invariant.
- zstd compression and blake3: library calls.
- Markov prediction, importance, entropy, search and neural scoring: floating point and heuristics.
- Project names, velocity and inactivity in the clusters: reporting on top of the groups.
- Command line, GUI, daemon, dashboard, benchmarks, snapshots and threads.
