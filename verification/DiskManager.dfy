/** The disk manager (src/fs/mod.rs): journaled inode and data writes, and mounting with replay. */
module DiskManager {
  import opened Bytes
  import opened DiskImage
  import opened DiskCodec
  import opened JournalCodec
  import opened JournalLog
  import opened Storage
  import opened Journal
  import opened Atomicity
  import opened Recovery
  import opened InodeTable
  import opened FreeList
  import FreeListStore
  import BlockZero
  import opened Space

  const MAGIC: u64 := 0x5645584653000001
  const MAX_FILES: nat := 65536

  /** The log slots at which a finished write checkpoints: 16 short of full. */
  const CHECKPOINT_SLOT: nat := 496

  /** Behind the last byte a 64-bit offset can name. */
  const LOG_END: nat := 0x1_0000_0000_0000_0000

  function AfterCheckpoint(slot: nat): nat {
    if slot >= CHECKPOINT_SLOT then 0 else slot
  }

  class DiskManager {
    const file: File
    const journal: Journal
    const inodeTable: InodeTable
    const freeList: FreeList
    var superblock: Superblock
    /** The extents handed out by `alloc_data` and not given back. */
    ghost var live: seq<Extent>

    constructor (file: File, superblock: Superblock, journal: Journal, freeList: FreeList, inodeTable: InodeTable)
      ensures this.file == file && this.journal == journal && this.inodeTable == inodeTable
      ensures this.freeList == freeList && this.superblock == superblock && live == []
    {
      this.file, this.superblock, this.journal, this.freeList, this.inodeTable :=
        file, superblock, journal, freeList, inodeTable;
      live := [];
    }

    /** A new image: empty log, empty free list, the original inode table only. */
    constructor Format(file: File, totalBlocks: u64, now: u64)
      modifies file
      ensures fresh(journal) && fresh(freeList) && fresh(inodeTable) && this.file == file
      ensures Mounted() && LogInSpace() && SpaceValid() && live == []
              && Capacity(inodeTable.blockOffsets) == INODES_PER_BLOCK
      ensures InFile(file.bytes, inodeTable.blockOffsets)
      ensures superblock == Superblock(0x5645_5846_5300_0001, 1, 4096, totalBlocks, totalBlocks, 0, 659520, now)
      ensures superblock.magic == MAGIC && superblock.nextDataOffset == DATA_OFFSET && freeList.extents == []
      ensures FormattedImage(old(file.bytes), file.bytes, superblock, inodeTable.blockOffsets)
      ensures journal.nextSlot == 0 && journal.header == NewHeader()
      ensures forall i: nat :: i < INODES_PER_BLOCK ==> !SlotUsed(file.bytes, inodeTable.blockOffsets, i)
    {
      var sb := Superblock(MAGIC, 1, 4096, totalBlocks, totalBlocks, 0, DATA_OFFSET, now);
      var j, table := FormatRegions(file, sb);
      this.file, superblock, journal, inodeTable := file, sb, j, table;
      freeList := new FreeList();
      live := [];
      new;
      WiderMounted(file.bytes, journal.header.nextTxId, INODE_TABLE_OFFSET, DATA_OFFSET, LOG_END);
    }

    static method FormatRegions(file: File, sb: Superblock) returns (j: Journal, table: InodeTable)
      modifies file
      ensures fresh(j) && fresh(table)
      ensures j.Tracks(file) && MountedOn(file.bytes, j.header.nextTxId, INODE_TABLE_OFFSET, DATA_OFFSET)
      ensures j.nextSlot == 0 && j.header == NewHeader()
      ensures Partitioned([], table.blockOffsets, [], DATA_OFFSET) && Capacity(table.blockOffsets) == INODES_PER_BLOCK
      ensures InFile(file.bytes, table.blockOffsets)
      ensures FormattedImage(old(file.bytes), file.bytes, sb, table.blockOffsets)
      ensures forall i: nat :: i < INODES_PER_BLOCK ==> !SlotUsed(file.bytes, table.blockOffsets, i)
    {
      hide Overwrite, At, EncodeSuperblock, FormattedImage, BlockCount, Capacity, Log, TailClean, HeaderValid, HeaderOf,
           DiskNextId, MountedOn, InFile, SlotUsed, EncodeDirectory, Partitioned;
      ghost var was := file.bytes;
      FormatTables(file, sb);
      ghost var zeroed := file.bytes;
      j := new Journal.Format(file);
      ghost var logged := file.bytes;
      table := new InodeTable([INODE_TABLE_OFFSET] + seq(63, _ => 0), DATA_OFFSET);
      table.SaveDirectory(file);
      FormattedMounted(zeroed, logged, file.bytes, table.blockOffsets, j.nextSlot);
      FormattedBytes(was, zeroed, logged, file.bytes, sb, table.blockOffsets);
    }

    /** The superblock, then a zeroed inode table and a zeroed snapshot table. */
    static method FormatTables(file: File, sb: Superblock)
      modifies file
      ensures |file.bytes| == Max(|old(file.bytes)|, 397312) && file.bytes[..64] == EncodeSuperblock(sb)
      ensures forall i :: 4096 <= i < 397312 ==> file.bytes[i] == 0
      ensures forall i :: 64 <= i < |file.bytes| && !(4096 <= i < 397312) ==> file.bytes[i] == At(old(file.bytes), i)
    {
      hide EncodeSuperblock;
      file.Write(0, EncodeSuperblock(sb));
      file.Write(INODE_TABLE_OFFSET, Zeros(INODES_PER_BLOCK * INODE_BYTES));
      file.Write(INODE_TABLE_OFFSET + INODE_BLOCK_SIZE, Zeros(256 * 512));
    }

    /** Writes superblock, free list and block directory to block 0; the mount stays as it is. */
    method Flush() returns (ghost left: iset<Image>)
      requires Mounted() && SpaceValid()
      modifies file
      ensures FreeListStore.Encodable(freeList.extents)
      ensures file.bytes == BlockZero.Flushed(old(file.bytes), superblock, freeList.extents, inodeTable.blockOffsets)
      ensures Mounted() && forall end :: old(MountedUpTo(end)) ==> MountedUpTo(end)
      ensures Adds(old(file.crashes), file.crashes, left)
      ensures left == BlockZero.FlushImages(old(file.bytes), superblock, freeList.extents, inodeTable.blockOffsets)
    {
      hide EncodeSuperblock, EncodeDirectory, Overwrite, MountedOn, Log, TailClean, HeaderValid, Partitioned, Adds,
           CrashImages, FreeListStore.SaveImages, BlockZero.FlushImages,
           FreeListStore.SavedFreeList, FreeListStore.Encodable;
      PartitionedEncodable(live, inodeTable.blockOffsets, freeList.extents, superblock.nextDataOffset);
      ghost var was, c0 := file.bytes, file.crashes;
      file.Write(0, EncodeSuperblock(superblock));
      ghost var c1 := file.crashes;
      FreeListStore.Save(freeList, file);
      ghost var c2 := file.crashes;
      inodeTable.SaveDirectory(file);
      left := BlockZero.FlushImages(was, superblock, freeList.extents, inodeTable.blockOffsets);
      BlockZero.FlushAdds(c0, c1, c2, file.crashes, was, superblock, freeList.extents, inodeTable.blockOffsets);
      forall end | old(MountedUpTo(end)) ensures MountedUpTo(end) {
        FlushedMounted(was, superblock, freeList.extents, inodeTable.blockOffsets, journal.header.nextTxId, end,
                       journal.nextSlot);
      }
    }

    ghost predicate SpaceValid()
      reads this, freeList, inodeTable
    {
      Partitioned(live, inodeTable.blockOffsets, freeList.extents, superblock.nextDataOffset)
    }

    /** Space for `size` bytes of file data: from a best-fitting free extent, or else at the end of the region. It must
        not run past the last 64-bit offset. */
    method AllocData(size: nat) returns (offset: u64)
      requires FreeListStore.Encodable(freeList.extents)
      requires EndAfter(freeList.extents, superblock.nextDataOffset, size) < 0x1_0000_0000_0000_0000
      modifies this, freeList, inodeTable
      ensures Extent(offset, size) == NextExtent(old(freeList.extents), old(superblock.nextDataOffset), size)
      ensures freeList.extents == FreeAfter(old(freeList.extents), size)
      ensures superblock == old(superblock).(nextDataOffset :=
                              EndAfter(old(freeList.extents), old(superblock.nextDataOffset), size))
      // From the list nothing moves; from the end of the region, the end moves to the least multiple of 512 behind.
      ensures if exists e :: e in old(freeList.extents) && e.length >= size then superblock == old(superblock)
              else offset == old(superblock.nextDataOffset) && freeList.extents == old(freeList.extents)
                   && IsAlignedUp(offset + size, superblock.nextDataOffset)
      ensures var seen := old(inodeTable.nextDiskEnd);
              if exists e :: e in old(freeList.extents) && e.length >= size then inodeTable.nextDiskEnd == seen
              else inodeTable.nextDiskEnd == if offset + size > seen then offset + size else seen
      ensures live == old(live) + [Extent(offset, size)] && (old(SpaceValid()) ==> SpaceValid())
      ensures old(superblock.nextDataOffset) <= superblock.nextDataOffset
      ensures inodeTable.blockOffsets == old(inodeTable.blockOffsets)
      ensures forall end :: old(MountedUpTo(end)) ==> MountedUpTo(end)
      ensures old(LogInSpace()) ==> LogInSpace()
    {
      hide *;
      SpaceIs();
      ghost var was, next := freeList.extents, superblock.nextDataOffset;
      var claimed := freeList.Alloc(size);
      if claimed.Some? {
        ghost var i :| BestFit(was, size) == Some(i) && Claimed(was, i, size, claimed.value, freeList.extents);
        TakenFromList(was, next, size, i, claimed.value, freeList.extents);
        FromList(was, i, size, claimed.value);
        live := live + [Extent(claimed.value, size)];
        SpaceIs();
        return claimed.value;
      }
      TakenAtEnd(was, next, size);
      AlignedUpIs(next + size);
      offset := superblock.nextDataOffset;
      AtEnd(size);
      var end := offset + size;
      if end > inodeTable.nextDiskEnd {
        inodeTable.nextDiskEnd := end;
      }
      superblock := superblock.(nextDataOffset := AlignedUp(end));
      live := live + [Extent(offset, size)];
      SpaceIs();
      WiderLog(offset);
    }

    lemma SpaceIs()
      ensures SpaceValid() <==> Partitioned(live, inodeTable.blockOffsets, freeList.extents, superblock.nextDataOffset)
      ensures LogInSpace() <==> MountedUpTo(superblock.nextDataOffset)
    {
    }

    lemma FromList(was: seq<Extent>, i: nat, size: nat, at: nat)
      requires FreeListStore.Encodable(was) && Claimed(was, i, size, at, freeList.extents)
      ensures at < 0x1_0000_0000_0000_0000
      ensures Partitioned(live, inodeTable.blockOffsets, was, superblock.nextDataOffset) ==>
                Partitioned(live + [Extent(at, size)], inodeTable.blockOffsets, freeList.extents,
                    superblock.nextDataOffset)
    {
      hide Partitioned;
      assert was[i] in was;
      if Partitioned(live, inodeTable.blockOffsets, was, superblock.nextDataOffset) {
        ClaimedSpace(live, inodeTable.blockOffsets, was, superblock.nextDataOffset, i, size, at, freeList.extents);
      }
    }

    lemma AtEnd(size: nat)
      ensures var offset, end := superblock.nextDataOffset, superblock.nextDataOffset + size;
              && end <= AlignedUp(end)
              && (Partitioned(live, inodeTable.blockOffsets, freeList.extents, offset) ==>
                    Partitioned(live + [Extent(offset, size)], inodeTable.blockOffsets, freeList.extents,
                        AlignedUp(end)))
    {
      hide Partitioned;
      var offset, end := superblock.nextDataOffset, superblock.nextDataOffset + size;
      if Partitioned(live, inodeTable.blockOffsets, freeList.extents, offset) {
        BumpedSpace(live, inodeTable.blockOffsets, freeList.extents, offset, size, AlignedUp(end));
      }
    }

    lemma WiderLog(end: nat)
      requires end <= superblock.nextDataOffset
      ensures MountedUpTo(end) ==> LogInSpace()
    {
      if MountedUpTo(end) {
        WiderMounted(file.bytes, journal.header.nextTxId, INODE_TABLE_OFFSET, end, superblock.nextDataOffset);
      }
    }

    /** Gives an extent back; nobody checks that it was live. It is safe for one that is; for any other, if the list
        takes it, exactly when its bytes are in the region and belong to nobody. */
    method FreeData(offset: nat, length: nat)
      modifies this`live, freeList
      ensures live == Without(old(live), Extent(offset, length))
      ensures !ListTakes(old(freeList.extents), offset, length) ==> freeList.extents == old(freeList.extents)
      ensures ListTakes(old(freeList.extents), offset, length) ==>
                && Separated(freeList.extents)
                && forall b :: InSome(freeList.extents, b) <==>
                               InSome(old(freeList.extents), b) || Inside(Extent(offset, length), b)
      ensures old(SpaceValid()) && Extent(offset, length) in old(live) ==> SpaceValid()
      ensures old(SpaceValid()) && ListTakes(old(freeList.extents), offset, length) ==>
                (SpaceValid() <==>
                 Ownerless(Extent(offset, length), live, inodeTable.blockOffsets, superblock.nextDataOffset))
    {
      hide *;
      SpaceIs();
      ghost var was, e, taken := freeList.extents, Extent(offset, length), ListTakes(freeList.extents, offset, length);
      freeList.Free(offset, length);
      ListTook(was, offset, length, freeList.extents);
      if old(SpaceValid()) {
        PartitionedPositive(live, inodeTable.blockOffsets, was, superblock.nextDataOffset);
        FreedSpace(live, inodeTable.blockOffsets, was, superblock.nextDataOffset, e, freeList.extents, taken);
      }
      live := Without(live, e);
      SpaceIs();
    }

    /** Takes over the extents that the inodes of a mounted image name. */
    ghost method Adopt(named: seq<Extent>)
      requires Partitioned(named, inodeTable.blockOffsets, freeList.extents, superblock.nextDataOffset)
      modifies this`live
      ensures SpaceValid() && live == named
    {
      live := named;
    }

    /** A free inode slot, growing the table by a block when every slot is used; None only with all 65,536 used. */
    method AllocInode() returns (r: Option<nat>, ghost left: iset<Image>)
      requires LogInSpace() && SpaceValid() && InFile(file.bytes, inodeTable.blockOffsets)
      requires superblock.nextDataOffset + INODE_BLOCK_SIZE < 0x1_0000_0000_0000_0000
      modifies this`superblock, inodeTable, file
      ensures LogInSpace() && SpaceValid() && InFile(file.bytes, inodeTable.blockOffsets)
      ensures inodeTable.nextDiskEnd == superblock.nextDataOffset
      ensures r.None? ==> AllUsed(old(file.bytes), old(inodeTable.blockOffsets), MAX_FILES)
      ensures r.None? ==> inodeTable.blockOffsets == old(inodeTable.blockOffsets)
      ensures Adds(old(file.crashes), file.crashes, left)
      ensures inodeTable.blockOffsets == old(inodeTable.blockOffsets) ==>
                left == iset{} && file.bytes == old(file.bytes) && superblock == old(superblock)
      ensures inodeTable.blockOffsets != old(inodeTable.blockOffsets) ==>
                && GrewTo(old(inodeTable.blockOffsets), old(superblock), inodeTable.blockOffsets, superblock)
                && left == AllocImages(old(file.bytes), old(superblock.nextDataOffset), inodeTable.blockOffsets,
                    superblock)
      ensures r.Some? ==> LeastFree(old(file.bytes), old(inodeTable.blockOffsets),
                                    file.bytes, inodeTable.blockOffsets, r.value)
    {
      ghost var was, dir, next := file.bytes, inodeTable.blockOffsets, superblock.nextDataOffset;
      hide InodeAt, Overwrite, EncodeDirectory, EncodeSuperblock, Zeros, InodeOffset, MountedOn, Log, TailClean,
           HeaderValid, Slots, HeaderOf, InFile, BlockCount, Partitioned, AllUsed, LeastFree, Laid, Capacity,
           GrowthImages, AllocImages, GrewTo, Adds;
      NothingAdded(file.crashes);
      left := iset{};
      ghost var seen := file.crashes;
      inodeTable.nextDiskEnd := superblock.nextDataOffset;
      PartitionedLaid(live, dir, freeList.extents, next);
      var slot := inodeTable.AllocInode(file);
      match slot
      case IoError => r := None;
      case Full => r := None;
      case Allocated(index, newBlock) =>
        r := Some(index);
        if newBlock {
          ghost var sb, entered := superblock, file.crashes;
          left := GrowSuperblock(was, dir, next, index);
          AllocAdds(seen, entered, file.crashes, was, next, inodeTable.blockOffsets, superblock, left);
          Grew(dir, sb, inodeTable.blockOffsets, superblock);
          left := AllocImages(was, next, inodeTable.blockOffsets, superblock);
        }
    }

    /** The superblock half of `alloc_inode` after a new block. */
    method GrowSuperblock(ghost was: Image, ghost dir: Directory, ghost next: u64, ghost index: nat)
      returns (ghost left: iset<Image>)
      requires MountedOn(was, journal.header.nextTxId, INODE_TABLE_OFFSET, next)
      requires HeaderValid(was) && journal.header.magic == JOURNAL_MAGIC
      requires journal.nextSlot == |Log(was)| && TailClean(was, journal.nextSlot)
      requires superblock.nextDataOffset == next && inodeTable.nextDiskEnd == next + INODE_BLOCK_SIZE
      requires Partitioned(live, dir, freeList.extents, next) && BlockCount(dir) < MAX_INODE_BLOCKS
      requires inodeTable.blockOffsets == dir[BlockCount(dir) := next]
      requires file.bytes == Overwrite(Overwrite(was, next, Zeros(INODE_BLOCK_SIZE)), DIRECTORY_OFFSET,
                                       EncodeDirectory(inodeTable.blockOffsets))
      requires InFile(file.bytes, inodeTable.blockOffsets)
      requires LeastFree(was, dir, file.bytes, inodeTable.blockOffsets, index)
      modifies this`superblock, file
      ensures LogInSpace() && SpaceValid() && InFile(file.bytes, inodeTable.blockOffsets)
      ensures LeastFree(was, dir, file.bytes, inodeTable.blockOffsets, index)
      ensures superblock == old(superblock).(nextDataOffset := next + INODE_BLOCK_SIZE)
      ensures Adds(old(file.crashes), file.crashes, left)
      ensures left == CrashImages(old(file.bytes), 0, EncodeSuperblock(superblock))
    {
      hide InodeAt, Overwrite, EncodeDirectory, EncodeSuperblock, Zeros, MountedOn, Log, TailClean,
           HeaderValid, Slots, HeaderOf, InFile, BlockCount, Partitioned, Capacity, LeastFree, CrashImages, Adds;
      GrownSpace(live, dir, freeList.extents, next);
      PartitionedLaid(live, inodeTable.blockOffsets, freeList.extents, next + INODE_BLOCK_SIZE);
      PartitionedLaid(live, dir, freeList.extents, next);
      ghost var grown := file.bytes;
      superblock := superblock.(nextDataOffset := inodeTable.nextDiskEnd);
      var sb := EncodeSuperblock(superblock);
      file.Write(0, sb);
      left := CrashImages(grown, 0, sb);
      GrownMounted(was, journal.header.nextTxId, next, inodeTable.blockOffsets, grown, sb, journal.nextSlot);
      SuperblockOnly(grown, inodeTable.blockOffsets, inodeTable.nextDiskEnd, sb);
    }

    /** Opens an image, replaying what is committed in its log and clearing the log if there was anything to replay.
        null is a superblock or directory that cannot be read. */
    static method Open(file: File) returns (dm: DiskManager?, ghost left: iset<Image>)
      requires DATA_OFFSET <= |file.bytes| && ClearOf(ToReplay(VisibleLog(file.bytes)))
      modifies file
      ensures dm == null <==> BlockZero.LoadSuperblock(old(file.bytes)).None?
                              || BlockZero.LoadSuperblock(old(file.bytes)).value.magic != MAGIC
      ensures dm != null ==>
                && fresh(dm) && fresh(dm.journal) && fresh(dm.freeList) && fresh(dm.inodeTable) && dm.file == file
                && dm.live == []
                && dm.superblock == BlockZero.LoadSuperblock(old(file.bytes)).value
                && Blank(file.bytes) == Recovered(old(file.bytes))
                && dm.journal.nextSlot == (if ToReplay(VisibleLog(old(file.bytes))) != [] then 0
                                           else |VisibleLog(old(file.bytes))|)
                && (dm.Mounted() <==> Reusable(old(file.bytes)))
                && (forall end :: dm.MountedUpTo(end) <==> Reusable(old(file.bytes)))
                && (HeaderValid(old(file.bytes)) ==> dm.journal.header.nextTxId == DiskNextId(old(file.bytes)))
                && dm.freeList.extents == FreeListStore.LoadFreeList(file.bytes)
                && Some(dm.inodeTable.blockOffsets) == LoadDirectory(file.bytes)
      ensures Adds(old(file.crashes), file.crashes, left)
      ensures forall c :: c in left ==> Remountable(c, old(file.bytes))
    {
      hide *;
      left := iset{};
      NothingAdded(file.crashes);
      var sbBytes := file.Read(0, SUPERBLOCK_BYTES);
      ReadSuperblock(file.bytes);
      var superblock := DecodeSuperblock(sbBytes.value);
      if superblock.None? || superblock.value.magic != MAGIC {
        return null, left;
      }
      var journal;
      journal, left := RecoverLog(file);
      var freeList := FreeListStore.Load(file);
      DirectoryIsThere(file.bytes);
      var inodeTable := InodeTable.Open(file, superblock.value.nextDataOffset);
      dm := new DiskManager(file, superblock.value, journal, freeList, inodeTable);
      dm.MountedByJournal();
    }

    lemma MountedByJournal()
      ensures Mounted() <==> JournalMounted(journal, file, LOG_END)
      ensures forall end :: MountedUpTo(end) <==> JournalMounted(journal, file, end)
    {
    }

    /** The journal half of `open`: replay, and clear when anything was replayed. */
    static method RecoverLog(file: File) returns (journal: Journal, ghost left: iset<Image>)
      requires DATA_OFFSET <= |file.bytes| && ClearOf(ToReplay(VisibleLog(file.bytes)))
      modifies file
      ensures fresh(journal) && DATA_OFFSET <= |file.bytes| && Blank(file.bytes) == Recovered(old(file.bytes))
      ensures journal.nextSlot
              == if ToReplay(VisibleLog(old(file.bytes))) != [] then 0 else |VisibleLog(old(file.bytes))|
      ensures forall end :: JournalMounted(journal, file, end) <==> Reusable(old(file.bytes))
      ensures HeaderValid(old(file.bytes)) ==> journal.header.nextTxId == DiskNextId(old(file.bytes))
      ensures Adds(old(file.crashes), file.crashes, left)
      ensures forall c :: c in left ==> Remountable(c, old(file.bytes))
    {
      ghost var base := file.bytes;
      hide MountedOn, Log, TailClean, HeaderValid, DiskNextId, Blank, Recovered, Remountable, Run, Slots, Slot,
           HeaderOf;
      var toReplay;
      journal, toReplay := Journal.Open(file);
      left := ReplayAll(file, toReplay);
      if toReplay != [] {
        ghost var done, seen := file.bytes, file.crashes;
        ReplayDone(toReplay, base, done);
        ghost var clearing := journal.Clear(file);
        ClearAfterReplay(base, done, clearing, left);
        AddsJoin(old(file.crashes), seen, file.crashes, left, clearing);
        left := left + clearing;
        forall end ensures JournalMounted(journal, file, end) {
          ClearedMounted(file.bytes, done, journal.header.nextTxId, INODE_TABLE_OFFSET, end);
        }
      } else {
        NothingReplayed(base, journal.header.nextTxId, journal.nextSlot, journal.header.magic);
      }
    }

    static ghost predicate JournalMounted(journal: Journal, file: File, end: nat)
      reads journal, file
    {
      journal.Tracks(file) && MountedOn(file.bytes, journal.header.nextTxId, INODE_TABLE_OFFSET, end)
    }

    /** The replay loop of `open`. */
    static method ReplayAll(file: File, toReplay: seq<Entry>) returns (ghost left: iset<Image>)
      requires DATA_OFFSET <= |file.bytes| && toReplay == ToReplay(VisibleLog(file.bytes)) && ClearOf(toReplay)
      modifies file
      ensures file.bytes == Replay(toReplay, old(file.bytes)) && Replaying(file.bytes, old(file.bytes))
      ensures Adds(old(file.crashes), file.crashes, left)
      ensures forall c :: c in left ==> Remountable(c, old(file.bytes))
    {
      left := iset{};
      ghost var base := file.bytes;
      assert Replay(toReplay[..0], base) == base;
      assert Adds(file.crashes, file.crashes, left);
      hide Adds, Replay, ToReplay, VisibleLog, ClearOf, Replaying, Overwrite, MayLeave, Data, Remountable;
      for k := 0 to |toReplay|
        invariant file.bytes == Replay(toReplay[..k], base) && Replaying(file.bytes, base)
        invariant Adds(old(file.crashes), file.crashes, left)
        invariant forall c :: c in left ==> Remountable(c, base)
      {
        var entry := toReplay[k];
        ghost var now, seen := file.bytes, file.crashes;
        file.Write(entry.diskOffset, Data(entry));
        ghost var torn := CrashImages(now, entry.diskOffset, Data(entry));
        forall c | c in torn ensures Replaying(c, base) && Remountable(c, base) {
          ReplayStep(toReplay, base, k, now, c);
          ReplayingRemountable(c, base);
        }
        WrittenMayBeLeft(now, entry.diskOffset, Data(entry));
        ReplayStep(toReplay, base, k, now, file.bytes);
        AddsJoin(old(file.crashes), seen, file.crashes, left, torn);
        left := left + torn;
      }
      assert toReplay[..|toReplay|] == toReplay;
    }

    /** Between operations: memory and log agree, nothing committed is missing in place, and what is in the log ends
        by `end`. */
    ghost predicate MountedUpTo(end: nat)
      reads file, journal
    {
      JournalMounted(journal, file, end)
    }

    ghost predicate Mounted()
      reads file, journal
    {
      MountedUpTo(LOG_END)
    }

    /** Nothing in the log reaches into the space that is still to be allocated. */
    ghost predicate LogInSpace()
      reads this`superblock, file, journal
    {
      MountedUpTo(superblock.nextDataOffset)
    }

    ghost predicate TableLaid()
      reads this`superblock, inodeTable
    {
      Laid(inodeTable.blockOffsets, superblock.nextDataOffset)
    }

    /** `needs_checkpoint` and `clear`. */
    method Checkpoint() returns (ghost left: iset<Image>)
      requires journal.Tracks(file) && Settled(file.bytes)
      modifies file, journal
      ensures journal.Tracks(file) && Blank(file.bytes) == Blank(old(file.bytes))
      ensures journal.nextSlot == AfterCheckpoint(old(journal.nextSlot))
      ensures journal.nextSlot == if old(journal.nextSlot) >= 496 then 0 else old(journal.nextSlot)
      ensures old(journal.nextSlot) < CHECKPOINT_SLOT ==> file.bytes == old(file.bytes)
      ensures journal.header.nextTxId == old(journal.header.nextTxId)
      ensures forall end :: old(MountedUpTo(end)) || old(journal.nextSlot) >= CHECKPOINT_SLOT ==> MountedUpTo(end)
      ensures Adds(old(file.crashes), file.crashes, left)
      ensures forall c :: c in left ==> Shows(c, old(file.bytes), old(Log(file.bytes))) || Shows(c, old(file.bytes), [])
    {
      left := iset{};
      ghost var done := file.bytes;
      hide Settled, Blank, Log, HeaderValid, TailClean;
      if journal.nextSlot >= CHECKPOINT_SLOT {
        assert HeaderValid(done) by { SettledHeader(done); }
        left := journal.Clear(file);
        forall end ensures MountedUpTo(end) && Blank(file.bytes) == Blank(done) {
          ClearedMounted(file.bytes, done, journal.header.nextTxId, INODE_TABLE_OFFSET, end);
        }
      }
    }

    /** The COMMIT of a transaction whose writes are all in the log. */
    method CommitLogged(tx: u32, ghost base: Image, ghost log: seq<Entry>, ghost es: seq<Entry>, ghost off: nat,
                        ghost data: seq<byte>)
      returns (ok: bool, ghost before: iset<Image>, ghost after: iset<Image>)
      requires Begun(base, log, es, tx, off, data) && journal.Tracks(file)
      requires Shows(file.bytes, base, log + es)
      requires DiskNextId(file.bytes) == journal.header.nextTxId == NextId(tx)
      modifies file, journal
      ensures ok <==> old(journal.nextSlot) < JOURNAL_SLOTS
      ensures journal.Tracks(file) && journal.header.nextTxId == old(journal.header.nextTxId)
      ensures !ok ==> journal.nextSlot == old(journal.nextSlot) && file.bytes == old(file.bytes) && after == iset{}
      ensures ok ==> journal.nextSlot == old(journal.nextSlot) + 1
                     && Shows(file.bytes, base, Committed(log, es, tx))
                     && DiskNextId(file.bytes) == journal.header.nextTxId
      ensures Adds(old(file.crashes), file.crashes, before + after)
      ensures AllOld(before, base, tx) && AllNew(after, base, tx, off, data)
    {
      hide Blank, Recovered, DiskNextId, TailClean, Overwrite, AllOld, AllNew, Begun, HeaderValid;
      ghost var mid := file.bytes;
      ok, before, after := journal.Commit(file, tx);
      CommitStage(before, after, mid, file.bytes, ok, base, log, es, tx, off, data);
    }

    /** The tail of both write paths, the data being in place: checkpoint when the log runs full. */
    method Finish(ghost base: Image, ghost now: Image, ghost log: seq<Entry>, ghost es: seq<Entry>, ghost tx: u32,
                  ghost off: nat, ghost data: seq<byte>)
      returns (ghost left: iset<Image>)
      requires Begun(base, log, es, tx, off, data)
      requires DATA_OFFSET <= |now| && Shows(now, base, Committed(log, es, tx))
      requires file.bytes == Overwrite(now, off, data)
      requires journal.Tracks(file)
      requires INODE_TABLE_OFFSET <= off
      requires DiskNextId(now) == journal.header.nextTxId
      modifies file, journal
      ensures journal.Tracks(file) && Blank(file.bytes) == Overwrite(Blank(base), off, data)
      ensures tx < journal.header.nextTxId ==>
                forall end :: MountedOn(base, tx, INODE_TABLE_OFFSET, end) && off + |data| <= end ==> MountedUpTo(end)
      ensures journal.nextSlot == AfterCheckpoint(old(journal.nextSlot))
      ensures old(journal.nextSlot) < CHECKPOINT_SLOT ==> file.bytes == old(file.bytes)
      ensures journal.header.nextTxId == old(journal.header.nextTxId)
      ensures Adds(old(file.crashes), file.crashes, left)
      ensures AllNew(left, base, tx, off, data)
    {
      ghost var done, next := file.bytes, journal.header.nextTxId;
      InPlace(base, now, log, es, tx, off, data);
      forall end | tx < next && MountedOn(base, tx, INODE_TABLE_OFFSET, end) && off + |data| <= end
        ensures MountedUpTo(end)
      {
        DoneMounted(now, base, log, es, tx, off, data, next, INODE_TABLE_OFFSET, end);
      }
      hide Blank, Overwrite, Recovered, Settled, MountedOn, Shows, DiskNextId, TailClean, HeaderValid, Log, Transaction,
           AllNew, Committed;
      left := Checkpoint();
      FinishImages(left, done, base, now, log, es, tx, off, data);
    }

    ghost function InodePlace(index: nat): nat
      reads inodeTable
    {
      match InodeOffset(inodeTable.blockOffsets, index)
      case Some(o) => o
      case None => 0
    }

    /** Writes inode `index` under the journal. It fails, changing nothing a mount shows, when the index has no
        block or the log lacks two free slots; otherwise every crash leaves all of it or nothing. */
    method WriteInode(index: nat, inode: Inode) returns (ok: bool, ghost before: iset<Image>, ghost after: iset<Image>)
      requires index < MAX_FILES && Mounted() && TableLaid()
      modifies file, journal
      ensures ok <==> index < Capacity(inodeTable.blockOffsets) && old(journal.nextSlot) + 2 <= JOURNAL_SLOTS
      ensures ok ==> Blank(file.bytes) == Overwrite(Blank(old(file.bytes)), InodePlace(index), EncodeInode(inode))
      ensures ok ==> journal.nextSlot == AfterCheckpoint(old(journal.nextSlot) + 2)
      ensures ok && old(journal.nextSlot) + 2 < CHECKPOINT_SLOT ==>
                Appended(old(Log(file.bytes)), Log(file.bytes), InodePlace(index), EncodeInode(inode))
      // With one slot left the entry is logged and its COMMIT refused: the log is full.
      ensures !ok ==>
                journal.nextSlot == if index < Capacity(inodeTable.blockOffsets) then JOURNAL_SLOTS
                                    else old(journal.nextSlot)
      ensures !ok ==> Blank(file.bytes) == Blank(old(file.bytes)) && after == iset{}
      ensures journal.header.nextTxId in {old(journal.header.nextTxId), NextId(old(journal.header.nextTxId))}
      ensures old(journal.header.nextTxId) < 0xFFFF_FFFF ==>
                Mounted() && forall end :: old(MountedUpTo(end)) && superblock.nextDataOffset <= end ==>
                    MountedUpTo(end)
      ensures Adds(old(file.crashes), file.crashes, before + after)
      ensures AllOld(before, old(file.bytes), old(journal.header.nextTxId))
      ensures AllNew(after, old(file.bytes), old(journal.header.nextTxId), InodePlace(index), EncodeInode(inode))
    {
      before, after := iset{}, iset{};
      NoImages(file.bytes, journal.header.nextTxId, InodePlace(index), EncodeInode(inode));
      SlotsDisjoint(inodeTable.blockOffsets, superblock.nextDataOffset, index, index);
      var bytes := EncodeInode(inode);
      var diskOffset := InodeOffset(inodeTable.blockOffsets, index);
      if diskOffset.None? {
        return false, before, after;
      }
      SlotPlace(inodeTable.blockOffsets, superblock.nextDataOffset, index);
      ok, before, after := WriteInodeAt(index, diskOffset.value, inode, bytes);
    }

    /** `write_inode` from where the slot's offset is known. */
    method WriteInodeAt(index: nat, diskOffset: u64, inode: Inode, bytes: seq<byte>)
      returns (ok: bool, ghost before: iset<Image>, ghost after: iset<Image>)
      requires InodeOffset(inodeTable.blockOffsets, index) == Some(diskOffset) && bytes == EncodeInode(inode)
      requires Mounted() && ClearOfJournal(diskOffset, |bytes|)
      requires INODE_TABLE_OFFSET <= diskOffset && diskOffset + |bytes| <= LOG_END
      modifies file, journal
      ensures ok <==> old(journal.nextSlot) + 2 <= JOURNAL_SLOTS
      ensures ok ==> Blank(file.bytes) == Overwrite(Blank(old(file.bytes)), diskOffset, bytes)
      ensures journal.nextSlot == if ok then AfterCheckpoint(old(journal.nextSlot) + 2) else JOURNAL_SLOTS
      ensures ok && old(journal.nextSlot) + 2 < CHECKPOINT_SLOT ==>
                Appended(old(Log(file.bytes)), Log(file.bytes), diskOffset, bytes)
      ensures !ok ==> Blank(file.bytes) == Blank(old(file.bytes)) && after == iset{}
      ensures journal.header.nextTxId in {old(journal.header.nextTxId), NextId(old(journal.header.nextTxId))}
      ensures old(journal.header.nextTxId) < 0xFFFF_FFFF ==>
                forall end :: old(MountedUpTo(end)) && diskOffset + |bytes| <= end ==> MountedUpTo(end)
      ensures Adds(old(file.crashes), file.crashes, before + after)
      ensures AllOld(before, old(file.bytes), old(journal.header.nextTxId))
      ensures AllNew(after, old(file.bytes), old(journal.header.nextTxId), diskOffset, bytes)
    {
      hide EncodeInode, Blank, Overwrite, Recovered, Log, Transaction, MountedOn, Shows, DiskNextId,
           AllOld, AllNew, Adds, Begun, Committed, HeaderValid, TailClean, ClearOfJournal, InodeOffset, Appended;
      ghost var base, log, seen := file.bytes, Log(file.bytes), file.crashes;
      ghost var es;
      var tx;
      tx, ok, before, after, es := CommitInode(diskOffset, bytes);
      if !ok {
        return;
      }
      ghost var now, committed := file.bytes, file.crashes;
      InPlaceStage(now, base, log, es, tx, diskOffset, bytes);
      var written := inodeTable.WriteInode(file, index, inode);
      ghost var applied := file.crashes;
      ghost var left := Finish(base, now, log, es, tx, diskOffset, bytes);
      ApplyAdds(seen, committed, applied, file.crashes, before, after, CrashImages(now, diskOffset, bytes), left,
                base, tx, diskOffset, bytes);
      CommittedAppended(base, now, log, es, tx, diskOffset, bytes);
      after := after + (CrashImages(now, diskOffset, bytes) + left);
    }

    /** The journal half of `write_inode`: one entry and the COMMIT. */
    method CommitInode(off: u64, bytes: seq<byte>)
      returns (tx: u32, ok: bool, ghost before: iset<Image>, ghost after: iset<Image>, ghost es: seq<Entry>)
      requires Mounted() && ClearOfJournal(off, |bytes|) && 0 < |bytes| <= PAYLOAD_SIZE
      modifies file, journal
      ensures tx == old(journal.header.nextTxId) && journal.header.nextTxId == NextId(tx)
      ensures Begun(old(file.bytes), old(Log(file.bytes)), es, tx, off, bytes)
      ensures ok <==> old(journal.nextSlot) + 2 <= JOURNAL_SLOTS
      ensures journal.Tracks(file)
      ensures ok ==> CommittedOnly(old(file.bytes), es, tx) && journal.nextSlot == old(journal.nextSlot) + 2
      ensures !ok ==> after == iset{} && Blank(file.bytes) == Blank(old(file.bytes))
                      && journal.nextSlot == JOURNAL_SLOTS
                      && (tx < journal.header.nextTxId ==> forall end :: old(MountedUpTo(end)) ==> MountedUpTo(end))
      ensures Adds(old(file.crashes), file.crashes, before + after)
      ensures AllOld(before, old(file.bytes), tx) && AllNew(after, old(file.bytes), tx, off, bytes)
    {
      hide Blank, Overwrite, Recovered, Log, WriteEntryOf, Transaction, MountedOn, Shows, DiskNextId,
           AllOld, AllNew, AllShowSome, Adds, Begun, Committed, HeaderValid, TailClean, ClearOfJournal;
      ghost var base, log, seen := file.bytes, Log(file.bytes), file.crashes;
      tx := journal.Begin();
      ghost var next := journal.header.nextTxId;
      NoImages(base, tx, off, bytes);
      es := [WriteEntryOf(ENTRY_WRITE_INODE, tx, off, bytes)];
      InodeIsTransaction(tx, off, bytes);
      Atomicity.Begin(base, es, tx, off, bytes, INODE_TABLE_OFFSET, LOG_END);
      var logged;
      logged, before := journal.LogInodeWriteAt(file, tx, off, bytes);
      LogStage(before, base, log, es, tx, off, bytes);
      if !logged {
        forall end | tx < next && old(MountedUpTo(end)) ensures MountedUpTo(end) {
          LaterId(base, tx, next, INODE_TABLE_OFFSET, end);
        }
        assert before + iset{} == before;
        ok, after := false, iset{};
        return;
      }
      ghost var mid, crashes := file.bytes, file.crashes;
      ghost var committing;
      ok, committing, after := CommitLogged(tx, base, log, es, off, bytes);
      CommitAdds(seen, crashes, file.crashes, before, committing, after, base, tx);
      before := before + committing;
      if !ok {
        forall end | tx < next && old(MountedUpTo(end)) ensures MountedUpTo(end) {
          UncommittedMounted(mid, base, log, es, tx, off, bytes, next, INODE_TABLE_OFFSET, end);
        }
        ShowsBlank(mid, base, log + es);
      }
    }

    /** Writes `data` at `off` under the journal: refused, changing nothing a mount shows, when its chunks and the
        COMMIT do not fit the log; otherwise every crash leaves all of it or nothing. */
    method WriteFileData(off: u64, data: seq<byte>)
      returns (ok: bool, ghost before: iset<Image>, ghost after: iset<Image>)
      requires Mounted() && ClearOfJournal(off, |data|)
      requires INODE_TABLE_OFFSET <= off && off + |data| < LOG_END
      modifies file, journal
      ensures ok <==> data == [] || old(journal.nextSlot) + ChunksNeeded(|data|) + 1 <= JOURNAL_SLOTS
      ensures ok ==> Blank(file.bytes) == Overwrite(Blank(old(file.bytes)), off, data)
      ensures ok && data != [] ==>
                journal.nextSlot == AfterCheckpoint(old(journal.nextSlot) + ChunksNeeded(|data|) + 1)
      ensures ok && data != [] && old(journal.nextSlot) + ChunksNeeded(|data|) + 1 < CHECKPOINT_SLOT ==>
                Appended(old(Log(file.bytes)), Log(file.bytes), off, data)
      ensures !ok ==> file.bytes == old(file.bytes)
      ensures !ok || data == [] ==> before == after == iset{} && journal.nextSlot == old(journal.nextSlot)
      ensures journal.header.nextTxId in {old(journal.header.nextTxId), NextId(old(journal.header.nextTxId))}
      ensures old(journal.header.nextTxId) < 0xFFFF_FFFF ==>
                Mounted() && forall end :: old(MountedUpTo(end)) && off + |data| <= end ==> MountedUpTo(end)
      ensures Adds(old(file.crashes), file.crashes, before + after)
      ensures AllOld(before, old(file.bytes), old(journal.header.nextTxId))
      ensures AllNew(after, old(file.bytes), old(journal.header.nextTxId), off, data)
    {
      hide Blank, Overwrite, Recovered, Log, Transaction, MountedOn, Shows, DiskNextId,
           AllOld, AllNew, Adds, Begun, Committed, HeaderValid, TailClean, ClearOfJournal, ChunksNeeded, Appended;
      ghost var base, log, seen := file.bytes, Log(file.bytes), file.crashes;
      NoImages(base, journal.header.nextTxId, off, data);
      before, after := iset{}, iset{};
      if data == [] {
        OverwriteNothing(Blank(base), off);
        NothingAdded(seen);
        assert before + after == iset{};
        return true, before, after;
      }
      ghost var es;
      var tx;
      tx, ok, before, after, es := CommitData(off, data);
      if !ok {
        return;
      }
      ghost var now, committed := file.bytes, file.crashes;
      InPlaceStage(now, base, log, es, tx, off, data);
      file.Write(off, data);
      ghost var applied := file.crashes;
      ghost var left := Finish(base, now, log, es, tx, off, data);
      ApplyAdds(seen, committed, applied, file.crashes, before, after, CrashImages(now, off, data), left,
                base, tx, off, data);
      CommittedAppended(base, now, log, es, tx, off, data);
      after := after + (CrashImages(now, off, data) + left);
    }

    /** The journal half of `write_file_data`: all chunks and the COMMIT, for which room is sure. */
    method CommitData(off: u64, data: seq<byte>)
      returns (tx: u32, ok: bool, ghost before: iset<Image>, ghost after: iset<Image>, ghost es: seq<Entry>)
      requires Mounted() && ClearOfJournal(off, |data|) && data != [] && off + |data| < 0x1_0000_0000_0000_0000
      modifies file, journal
      ensures tx == old(journal.header.nextTxId) && journal.header.nextTxId == NextId(tx)
      ensures Begun(old(file.bytes), old(Log(file.bytes)), es, tx, off, data)
      ensures ok <==> old(journal.nextSlot) + ChunksNeeded(|data|) + 1 <= JOURNAL_SLOTS
      ensures journal.Tracks(file)
      ensures ok ==> CommittedOnly(old(file.bytes), es, tx)
                     && journal.nextSlot == old(journal.nextSlot) + ChunksNeeded(|data|) + 1
      ensures !ok ==> before == after == iset{} && file.bytes == old(file.bytes)
                      && journal.nextSlot == old(journal.nextSlot)
                      && (tx < journal.header.nextTxId ==> forall end :: old(MountedUpTo(end)) ==> MountedUpTo(end))
      ensures Adds(old(file.crashes), file.crashes, before + after)
      ensures AllOld(before, old(file.bytes), tx) && AllNew(after, old(file.bytes), tx, off, data)
    {
      hide Blank, Overwrite, Recovered, Log, Transaction, MountedOn, Shows, DiskNextId, Chunks, ChunksNeeded,
           AllOld, AllNew, AllShowSome, Adds, Begun, Committed, HeaderValid, TailClean, ClearOfJournal;
      ghost var base, log, seen := file.bytes, Log(file.bytes), file.crashes;
      tx := journal.Begin();
      ghost var next := journal.header.nextTxId;
      NoImages(base, tx, off, data);
      es := Chunks(tx, off, data);
      ChunksAreTransaction(tx, off, data);
      Atomicity.Begin(base, es, tx, off, data, INODE_TABLE_OFFSET, LOG_END);
      var logged;
      logged, before := journal.LogDataWriteAll(file, tx, off, data);
      if !logged {
        forall end | tx < next && old(MountedUpTo(end)) ensures MountedUpTo(end) {
          LaterId(base, tx, next, INODE_TABLE_OFFSET, end);
        }
        ok, after := false, iset{};
        assert before + after == before;
        return;
      }
      LogStage(before, base, log, es, tx, off, data);
      ghost var crashes := file.crashes;
      ghost var committing;
      ok, committing, after := CommitLogged(tx, base, log, es, off, data);
      CommitAdds(seen, crashes, file.crashes, before, committing, after, base, tx);
      before := before + committing;
    }

    /** The transaction is in the log with its COMMIT; nothing is in place. */
    ghost predicate CommittedOnly(base: Image, es: seq<Entry>, tx: u32)
      reads this, file, journal
    {
      && Shows(file.bytes, base, Committed(Log(base), es, tx))
      && DiskNextId(file.bytes) == journal.header.nextTxId
    }
  }

  lemma PartitionedPositive(live: seq<Extent>, dir: Directory, free: seq<Extent>, end: nat)
    requires Partitioned(live, dir, free, end)
    ensures AllPositive(free)
  {
  }

  lemma ListTook(was: seq<Extent>, offset: nat, length: nat, now: seq<Extent>)
    requires offset == 0 || length == 0 || |was| >= 200 ==> now == was
    requires offset != 0 && length != 0 && |was| < 200 ==>
               && Separated(now)
               && (forall b :: InSome(now, b) <==> InSome(was, b) || offset <= b < offset + length)
    ensures !ListTakes(was, offset, length) ==> now == was
    ensures ListTakes(was, offset, length) ==>
              Separated(now) && forall b :: InSome(now, b) <==> InSome(was, b) || Inside(Extent(offset, length), b)
  {
    hide InSome, Separated;
    assert forall b :: Inside(Extent(offset, length), b) <==> offset <= b < offset + length;
  }

  /** A block went to the end of the region, and the end behind the block. */
  ghost predicate GrewTo(dir: Directory, sb: Superblock, grown: Directory, sb': Superblock) {
    && |dir| == MAX_INODE_BLOCKS && BlockCount(dir) < MAX_INODE_BLOCKS && sb.nextDataOffset + INODE_BLOCK_SIZE < LOG_END
    && grown == dir[BlockCount(dir) := sb.nextDataOffset]
    && sb' == sb.(nextDataOffset := sb.nextDataOffset + INODE_BLOCK_SIZE)
  }

  /** What a crash may leave while a block is zeroed, entered in the directory and counted in the superblock. */
  ghost function AllocImages(img: Image, end: u64, grown: Directory, sb: Superblock): iset<Image> {
    GrowthImages(img, end, grown)
    + CrashImages(Overwrite(Overwrite(img, end, Zeros(INODE_BLOCK_SIZE)), DIRECTORY_OFFSET, EncodeDirectory(grown)),
                  0, EncodeSuperblock(sb))
  }

  lemma AllocAdds(was: iset<Image>, mid: iset<Image>, now: iset<Image>, img: Image, end: u64, grown: Directory,
                  sb: Superblock, left: iset<Image>)
    requires Adds(was, mid, GrowthImages(img, end, grown)) && Adds(mid, now, left)
    requires left == CrashImages(Overwrite(Overwrite(img, end, Zeros(INODE_BLOCK_SIZE)), DIRECTORY_OFFSET,
                                           EncodeDirectory(grown)), 0, EncodeSuperblock(sb))
    ensures Adds(was, now, AllocImages(img, end, grown, sb))
  {
    hide GrowthImages, CrashImages, Overwrite, EncodeDirectory, EncodeSuperblock, Zeros;
  }

  lemma Grew(dir: Directory, sb: Superblock, grown: Directory, sb': Superblock)
    requires |dir| == MAX_INODE_BLOCKS && BlockCount(dir) < MAX_INODE_BLOCKS
    requires sb.nextDataOffset + INODE_BLOCK_SIZE < LOG_END && grown == dir[BlockCount(dir) := sb.nextDataOffset]
    requires sb' == sb.(nextDataOffset := sb.nextDataOffset + INODE_BLOCK_SIZE)
    ensures GrewTo(dir, sb, grown, sb')
  {
  }

  lemma PartitionedLaid(live: seq<Extent>, dir: Directory, free: seq<Extent>, end: nat)
    requires Partitioned(live, dir, free, end)
    ensures Laid(dir, end)
  {
  }

  lemma PartitionedEncodable(live: seq<Extent>, dir: Directory, free: seq<Extent>, end: u64)
    requires Partitioned(live, dir, free, end)
    ensures FreeListStore.Encodable(free) && |dir| == MAX_INODE_BLOCKS
  {
    forall e | e in free
      ensures e.offset < 0x1_0000_0000_0000_0000 && e.length < 0x1_0000_0000_0000_0000
    {
      assert Inside(e, e.offset) && Inside(e, e.End() - 1);
      assert InSome(free, e.offset) && InSome(free, e.End() - 1);
    }
  }

  /** A flush touches block 0 only, below every logged write. */
  lemma FlushedMounted(was: Image, sb: Superblock, free: seq<Extent>, dir: Directory, next: u32, hi: nat, slot: nat)
    requires FreeListStore.Encodable(free) && |dir| == MAX_INODE_BLOCKS
    requires MountedOn(was, next, INODE_TABLE_OFFSET, hi)
    ensures var img := BlockZero.Flushed(was, sb, free, dir);
            && MountedOn(img, next, INODE_TABLE_OFFSET, hi) && DATA_OFFSET <= |img|
            && HeaderValid(img) == HeaderValid(was) && Log(img) == Log(was)
            && TailClean(img, slot) == TailClean(was, slot)
  {
    var count := Min(|free|, MAX_PERSISTED_EXTENTS);
    var ext := FreeListStore.EncodeExtents(free[..count]);
    var hdr := FreeListStore.EncodeHeader(count, ext);
    hide EncodeSuperblock, EncodeDirectory, Overwrite, MountedOn, Log, TailClean, HeaderValid, Slots, HeaderOf,
         FreeListStore.EncodeExtents, FreeListStore.EncodeHeader;
    var a := Overwrite(was, 0, EncodeSuperblock(sb));
    var b := Overwrite(a, FreeListStore.FREE_LIST_OFFSET, hdr);
    var c := Overwrite(b, FreeListStore.FREE_LIST_OFFSET + FreeListStore.FREE_LIST_HEADER, ext);
    BypassMounted(was, next, INODE_TABLE_OFFSET, hi, 0, EncodeSuperblock(sb));
    BypassMounted(a, next, INODE_TABLE_OFFSET, hi, FreeListStore.FREE_LIST_OFFSET, hdr);
    BypassMounted(b, next, INODE_TABLE_OFFSET, hi, FreeListStore.FREE_LIST_OFFSET + FreeListStore.FREE_LIST_HEADER,
        ext);
    BypassMounted(c, next, INODE_TABLE_OFFSET, hi, DIRECTORY_OFFSET, EncodeDirectory(dir));
    var img := BlockZero.Flushed(was, sb, free, dir);
    assert img == Overwrite(c, DIRECTORY_OFFSET, EncodeDirectory(dir));
    SameLog(img, was);
    MountedSize(img, next, hi);
  }

  lemma MountedSize(img: Image, next: u32, hi: nat)
    requires MountedOn(img, next, INODE_TABLE_OFFSET, hi)
    ensures DATA_OFFSET <= |img|
  {
  }

  lemma EmptyLogMounted(img: Image)
    requires DATA_OFFSET <= |img| && HeaderValid(img) && Log(img) == []
    ensures MountedOn(img, DiskNextId(img), INODE_TABLE_OFFSET, DATA_OFFSET)
  {
    assert ToReplay([]) == [];
    assert Replay([], img) == img;
  }

  /** What a format leaves outside the journal: superblock and directory, zeroed inode and snapshot tables, and every
      other byte as it was, the bytes where a free list would stand included. */
  ghost predicate FormattedImage(was: Image, img: Image, sb: Superblock, dir: Directory) {
    && |img| == Max(|was|, 659520)
    && BlockZero.LoadSuperblock(img) == Some(sb) && LoadDirectory(img) == Some(dir)
    && (forall i :: 4096 <= i < 397312 ==> img[i] == 0)
    && (forall i :: 64 <= i < 3584 || 659520 <= i < |img| ==> img[i] == At(was, i))
  }

  lemma FormattedBytes(was: Image, zeroed: Image, logged: Image, img: Image, sb: Superblock, dir: Directory)
    requires |zeroed| == Max(|was|, 397312) && zeroed[..64] == EncodeSuperblock(sb)
    requires forall i :: 4096 <= i < 397312 ==> zeroed[i] == 0
    requires forall i :: 64 <= i < |zeroed| && !(4096 <= i < 397312) ==> zeroed[i] == At(was, i)
    requires |logged| == Max(|zeroed|, DATA_OFFSET)
    requires forall i :: 0 <= i < |logged| && !InJournal(i) ==> logged[i] == At(zeroed, i)
    requires |dir| == MAX_INODE_BLOCKS && dir[0] == INODE_TABLE_OFFSET
    requires img == Overwrite(logged, DIRECTORY_OFFSET, EncodeDirectory(dir))
    ensures FormattedImage(was, img, sb, dir)
  {
    SuperblockRoundTrip(sb);
    hide EncodeSuperblock, DecodeSuperblock, EncodeDirectory, LoadDirectory;
    forall i | 0 <= i < |img| && !InJournal(i) && !(3584 <= i < 4096) ensures img[i] == At(zeroed, i) {
      assert img[i] == At(logged, i) == logged[i];
    }
    assert img[..64] == zeroed[..64];
    assert img[3584..4096] == EncodeDirectory(dir);
    BlockZero.DirectoryRead(img, dir);
    forall i | 64 <= i < 3584 || 659520 <= i < |img| ensures img[i] == At(was, i) {
      assert img[i] == At(zeroed, i);
    }
  }

  /** What a format leaves: a mounted disk with an empty log, and 1024 free inode slots. */
  lemma FormattedMounted(zeroed: Image, logged: Image, img: Image, dir: Directory, slot: nat)
    requires 397312 <= |zeroed| && |logged| == Max(|zeroed|, DATA_OFFSET)
    requires forall i :: 4096 <= i < 397312 ==> zeroed[i] == 0
    requires forall i :: 0 <= i < |logged| && !InJournal(i) ==> logged[i] == At(zeroed, i)
    requires HeaderOf(logged) == Some(NewHeader()) && HeaderValid(logged) && Log(logged) == []
    requires TailClean(logged, slot)
    requires dir == [INODE_TABLE_OFFSET] + seq(63, _ => 0)
    requires img == Overwrite(logged, DIRECTORY_OFFSET, EncodeDirectory(dir))
    ensures DATA_OFFSET <= |img| && HeaderValid(img) && Log(img) == [] && TailClean(img, slot)
    ensures MountedOn(img, 1, INODE_TABLE_OFFSET, DATA_OFFSET)
    ensures Partitioned([], dir, [], DATA_OFFSET) && Capacity(dir) == INODES_PER_BLOCK
    ensures InFile(img, dir) && forall i: nat :: i < INODES_PER_BLOCK ==> !SlotUsed(img, dir, i)
  {
    FreshDirectory(DATA_OFFSET);
    FreshSpace(dir, DATA_OFFSET);
    EmptyLogMounted(logged);
    assert forall i :: INODE_TABLE_OFFSET <= i < INODE_TABLE_OFFSET + INODE_BLOCK_SIZE ==> logged[i] == 0;
    FormattedSlots(logged, img, dir);
    hide Overwrite, EncodeDirectory, MountedOn, Slots, Log, TailClean, HeaderValid, InFile, SlotUsed, Partitioned;
    BypassMounted(logged, 1, INODE_TABLE_OFFSET, DATA_OFFSET, DIRECTORY_OFFSET, EncodeDirectory(dir));
    SameLog(img, logged);
  }

  /** A fresh table: 1024 zeroed slots, all free. */
  lemma FormattedSlots(logged: Image, img: Image, dir: Directory)
    requires dir == [INODE_TABLE_OFFSET] + seq(63, _ => 0) && DATA_OFFSET <= |logged|
    requires img == Overwrite(logged, DIRECTORY_OFFSET, EncodeDirectory(dir))
    requires forall i :: INODE_TABLE_OFFSET <= i < INODE_TABLE_OFFSET + INODE_BLOCK_SIZE ==> logged[i] == 0
    ensures InFile(img, dir) && forall i: nat :: i < INODES_PER_BLOCK ==> !SlotUsed(img, dir, i)
  {
    hide EncodeDirectory, ReadInode;
    forall i: nat | i < INODES_PER_BLOCK ensures !SlotUsed(img, dir, i) {
      var o := INODE_TABLE_OFFSET + i * INODE_BYTES;
      assert img[o..o + INODE_BYTES] == Zeros(INODE_BYTES);
      ZeroedIsFree();
    }
  }

  /** Growing the table writes behind everything logged and in block 0 only. */
  lemma GrownMounted(was: Image, next: u32, end: u64, dir: Directory, grown: Image, sb: seq<byte>, slot: nat)
    requires MountedOn(was, next, INODE_TABLE_OFFSET, end) && DATA_OFFSET <= end
    requires |dir| == MAX_INODE_BLOCKS && |sb| == SUPERBLOCK_BYTES
    requires grown == Overwrite(Overwrite(was, end, Zeros(INODE_BLOCK_SIZE)), DIRECTORY_OFFSET, EncodeDirectory(dir))
    ensures var img := Overwrite(grown, 0, sb);
            && MountedOn(img, next, INODE_TABLE_OFFSET, end + INODE_BLOCK_SIZE)
            && HeaderValid(img) == HeaderValid(was) && Log(img) == Log(was)
            && TailClean(img, slot) == TailClean(was, slot) && |was| <= |img|
  {
    hide Overwrite, EncodeDirectory, Zeros, MountedOn, Slots, HeaderOf, Log, HeaderValid, TailClean;
    var a := Overwrite(was, end, Zeros(INODE_BLOCK_SIZE));
    BypassMounted(was, next, INODE_TABLE_OFFSET, end, end, Zeros(INODE_BLOCK_SIZE));
    BypassMounted(a, next, INODE_TABLE_OFFSET, end, DIRECTORY_OFFSET, EncodeDirectory(dir));
    BypassMounted(grown, next, INODE_TABLE_OFFSET, end, 0, sb);
    SameLog(Overwrite(grown, 0, sb), was);
    WiderMounted(Overwrite(grown, 0, sb), next, INODE_TABLE_OFFSET, end, end + INODE_BLOCK_SIZE);
  }

  /** Rewriting the superblock moves no inode. */
  lemma SuperblockOnly(img: Image, dir: Directory, end: nat, sb: seq<byte>)
    requires Laid(dir, end) && InFile(img, dir) && |sb| == SUPERBLOCK_BYTES
    ensures var r := Overwrite(img, 0, sb);
            && InFile(r, dir)
            && forall was, old', index :: LeastFree(was, old', img, dir, index) ==> LeastFree(was, old', r, dir, index)
  {
    var r := Overwrite(img, 0, sb);
    assert InFile(r, dir);
    forall j: nat ensures InodeAt(r, dir, j) == InodeAt(img, dir, j) {
      SameSlot(img, r, dir, end, j);
    }
    hide InodeAt;
  }

  lemma SameSlot(img: Image, r: Image, dir: Directory, end: nat, j: nat)
    requires Laid(dir, end) && |r| == |img|
    requires forall k :: INODE_TABLE_OFFSET <= k < |img| ==> r[k] == img[k]
    ensures InodeAt(r, dir, j) == InodeAt(img, dir, j)
  {
    hide ReadInode, BlockCount;
    SlotsDisjoint(dir, end, j, j);
    if j < Capacity(dir) {
      SlotPlace(dir, end, j);
      var o := InodeOffset(dir, j).value;
      if o + INODE_BYTES <= |img| {
        assert r[o..o + INODE_BYTES] == img[o..o + INODE_BYTES];
      }
    }
  }

  lemma ClearAfterReplay(base: Image, done: Image, clearing: iset<Image>, left: iset<Image>)
    requires Settled(done) && Blank(done) == Recovered(base) && Log(done) == Log(base) && ToReplay(Log(done)) != []
    requires forall c :: c in clearing ==> Shows(c, done, Log(done)) || Shows(c, done, [])
    ensures forall c :: c in clearing ==> Remountable(c, base)
  {
    hide Settled, Blank, Recovered, Shows, Log, Carried;
    forall c | c in clearing ensures Remountable(c, base) {
      Checkpoint(done, c);
      ClearingAgain(done, c);
    }
  }

  lemma ClearingAgain(done: Image, c: Image)
    requires ToReplay(Log(done)) != [] && (Shows(c, done, Log(done)) || Shows(c, done, []))
    ensures Carried(c)
  {
    hide Blank, TailClean, DiskNextId, ToReplay;
  }

  /** Without anything to replay the image is what it was; it is mounted exactly when it was reusable. */
  lemma NothingReplayed(img: Image, next: u32, slot: nat, magic: u64)
    requires DATA_OFFSET <= |img| && ToReplay(VisibleLog(img)) == []
    requires slot == |VisibleLog(img)|
    requires next == if HeaderValid(img) then HeaderOf(img).value.nextTxId else NewHeader().nextTxId
    requires magic == JOURNAL_MAGIC
    ensures Blank(img) == Recovered(img) && Replay([], img) == img
    ensures forall end ::
              (HeaderValid(img) && slot == |Log(img)| && TailClean(img, slot)
                  && MountedOn(img, next, INODE_TABLE_OFFSET, end))
              <==> Reusable(img)
  {
    hide *;
    ReplayNothingOn(img);
    forall end
      ensures (HeaderValid(img) && slot == |Log(img)| && TailClean(img, slot)
              && MountedOn(img, next, INODE_TABLE_OFFSET, end))
              <==> Reusable(img)
    {
      MountedIffReusable(img, next, slot, end);
    }
  }

  lemma NothingAdded(crashes: iset<Image>)
    ensures Adds(crashes, crashes, iset{})
  {
  }

  lemma ReadSuperblock(img: Image)
    requires DATA_OFFSET <= |img|
    ensures BlockZero.LoadSuperblock(img) == DecodeSuperblock(img[0..SUPERBLOCK_BYTES]) && SUPERBLOCK_BYTES <= |img|
  {
    assert img[0..SUPERBLOCK_BYTES] == img[..SUPERBLOCK_BYTES];
  }

  lemma DirectoryIsThere(img: Image)
    requires DATA_OFFSET <= |img|
    ensures LoadDirectory(img).Some?
  {
  }

  lemma ReplayNothingOn(img: Image)
    requires ToReplay(VisibleLog(img)) == []
    ensures Blank(img) == Recovered(img) && Replay([], img) == img
  {
    hide Blank;
  }

  lemma MountedIffReusable(img: Image, next: u32, slot: nat, end: nat)
    requires DATA_OFFSET <= |img| && ToReplay(VisibleLog(img)) == []
    requires slot == |VisibleLog(img)|
    requires next == if HeaderValid(img) then HeaderOf(img).value.nextTxId else NewHeader().nextTxId
    ensures (HeaderValid(img) && slot == |Log(img)| && TailClean(img, slot)
            && MountedOn(img, next, INODE_TABLE_OFFSET, end))
            <==> Reusable(img)
  {
    hide Blank;
  }

  lemma ShowsBlank(img: Image, base: Image, log: seq<Entry>)
    requires Shows(img, base, log)
    ensures Blank(img) == Blank(base) && DATA_OFFSET <= |img| && HeaderValid(img) && Log(img) == log
  {
  }

  lemma CommittedAppended(base: Image, now: Image, log: seq<Entry>, es: seq<Entry>, tx: u32, off: nat, data: seq<byte>)
    requires Begun(base, log, es, tx, off, data) && Shows(now, base, Committed(log, es, tx))
    ensures Appended(log, Log(now), off, data)
  {
    hide Blank, Transaction;
  }

  lemma LogStage(left: iset<Image>, base: Image, log: seq<Entry>, es: seq<Entry>, tx: u32, off: nat, data: seq<byte>)
    requires Begun(base, log, es, tx, off, data) && AllShowSome(left, base, log, es, NextId(tx))
    ensures AllOld(left, base, tx)
  {
    TransactionWrites(es, tx, off, data);
    LoggingImages(left, base, log, es, tx, NextId(tx));
  }

  lemma InPlaceStage(now: Image, base: Image, log: seq<Entry>, es: seq<Entry>, tx: u32, off: nat, data: seq<byte>)
    requires Begun(base, log, es, tx, off, data) && Shows(now, base, Committed(log, es, tx))
    ensures AllNew(CrashImages(now, off, data), base, tx, off, data)
    ensures var done := Overwrite(now, off, data);
            && DATA_OFFSET <= |done| && HeaderValid(done) && Log(done) == Log(now)
            && forall n: nat :: TailClean(now, n) ==> TailClean(done, n)
  {
    InPlaceImages(now, base, log, es, tx, off, data);
    InPlace(base, now, log, es, tx, off, data);
    var done := Overwrite(now, off, data);
    hide Overwrite, DecodeEntry;
    forall n: nat, k | TailClean(now, n) && n <= k < JOURNAL_SLOTS ensures Slot(done, k).None? {
      assert Slots(done)[k] == Slots(now)[k];
    }
  }

  lemma CommitAdds(seen: iset<Image>, mid: iset<Image>, now: iset<Image>, a: iset<Image>, b: iset<Image>,
                   c: iset<Image>, base: Image, tx: u32)
    requires Adds(seen, mid, a) && Adds(mid, now, b + c) && AllOld(a, base, tx) && AllOld(b, base, tx)
    ensures Adds(seen, now, a + b + c) && AllOld(a + b, base, tx)
  {
    AllOldJoin(a, b, base, tx);
    hide AllOld;
  }

  lemma ApplyAdds(seen: iset<Image>, c1: iset<Image>, c2: iset<Image>, c3: iset<Image>, before: iset<Image>,
                  after: iset<Image>, x: iset<Image>, y: iset<Image>, base: Image, tx: u32, off: nat, data: seq<byte>)
    requires Adds(seen, c1, before + after) && Adds(c1, c2, x) && Adds(c2, c3, y)
    requires AllNew(after, base, tx, off, data) && AllNew(x, base, tx, off, data) && AllNew(y, base, tx, off, data)
    ensures Adds(seen, c3, before + (after + (x + y))) && AllNew(after + (x + y), base, tx, off, data)
  {
    AllNewJoin(x, y, base, tx, off, data);
    AllNewJoin(after, x + y, base, tx, off, data);
    hide AllNew;
  }

  lemma CommitStage(before: iset<Image>, after: iset<Image>, mid: Image, now: Image, ok: bool, base: Image,
                    log: seq<Entry>, es: seq<Entry>, tx: u32, off: nat, data: seq<byte>)
    requires Begun(base, log, es, tx, off, data) && Shows(mid, base, log + es)
    requires DiskNextId(mid) == NextId(tx)
    requires forall c :: c in before ==> Shows(c, mid, Log(mid)) && Stays(c, mid, |log| + |es|)
    requires forall c :: c in after ==> Shows(c, mid, Log(mid) + [CommitEntry(tx)])
    requires ok ==> Shows(now, mid, Log(mid) + [CommitEntry(tx)])
    ensures AllOld(before, base, tx) && AllNew(after, base, tx, off, data)
    ensures ok ==> Shows(now, base, Committed(log, es, tx))
  {
    CommitImages(before, after, mid, base, log, es, tx, off, data);
  }

  lemma FinishImages(left: iset<Image>, done: Image, base: Image, now: Image, log: seq<Entry>, es: seq<Entry>, tx: u32,
                     off: nat, data: seq<byte>)
    requires Begun(base, log, es, tx, off, data) && Shows(now, base, Committed(log, es, tx))
    requires done == Overwrite(now, off, data)
    requires forall c :: c in left ==> Shows(c, done, Log(done)) || Shows(c, done, [])
    ensures AllNew(left, base, tx, off, data)
  {
    InPlace(base, now, log, es, tx, off, data);
    hide Settled, Transaction, Overwrite, Blank;
    CheckpointImages(left, done, base, log, es, tx, off, data);
  }

  lemma SettledHeader(img: Image)
    requires Settled(img)
    ensures HeaderValid(img) && DATA_OFFSET <= |img|
  {
  }
}
