/** Crashes while block 0 is written, by `flush` and by `alloc_inode`: these writes are not journaled
    (DiskManager::flush and alloc_inode in src/fs/mod.rs, alloc_block in src/fs/inode_table.rs). */
module BlockZeroCrashes {
  import opened Bytes
  import opened Checksum
  import opened DiskImage
  import opened DiskCodec
  import opened JournalCodec
  import opened JournalLog
  import opened Storage
  import opened Journal
  import opened Atomicity
  import opened Recovery
  import opened InodeTable
  import opened FreeList
  import opened Space
  import opened DiskManager
  import opened CrashRuns
  import FreeListStore
  import BlockZero
  import SpaceRuns

  // ----- what such a crash leaves alone -----

  /** `c` has the bytes of `was` from the inode table up to `end`. */
  ghost predicate SameBehind(c: Image, was: Image, end: nat) {
    |was| <= |c| && forall i :: INODE_TABLE_OFFSET <= i < end && i < |was| ==> c[i] == was[i]
  }

  lemma WriteBehind(was: Image, now: Image, off: nat, data: seq<byte>, c: Image, end: nat)
    requires SameBehind(now, was, end) && MayLeave(now, off, data, c)
    requires off + |data| <= INODE_TABLE_OFFSET || end <= off
    ensures SameBehind(c, was, end)
  {
    forall i | INODE_TABLE_OFFSET <= i < end && i < |was| ensures c[i] == was[i] {
      assert At(now, i) == now[i];
    }
  }

  lemma WroteBehind(was: Image, now: Image, off: nat, data: seq<byte>, end: nat)
    requires SameBehind(now, was, end)
    requires off + |data| <= INODE_TABLE_OFFSET || end <= off
    ensures SameBehind(Overwrite(now, off, data), was, end)
  {
    WrittenMayBeLeft(now, off, data);
    WriteBehind(was, now, off, data, Overwrite(now, off, data), end);
  }

  const EXTENTS_OFFSET: nat := FreeListStore.FREE_LIST_OFFSET + FreeListStore.FREE_LIST_HEADER

  /** The crash fell into the write of `s`, of `hdr`, of `ext` or of `d`. */
  ghost predicate FlushLeft(c: Image, was: Image, s: seq<byte>, hdr: seq<byte>, ext: seq<byte>, d: seq<byte>) {
    var a := Overwrite(was, 0, s);
    var b := Overwrite(a, FreeListStore.FREE_LIST_OFFSET, hdr);
    || MayLeave(was, 0, s, c) || MayLeave(a, FreeListStore.FREE_LIST_OFFSET, hdr, c)
    || MayLeave(b, EXTENTS_OFFSET, ext, c)
    || MayLeave(Overwrite(b, EXTENTS_OFFSET, ext), DIRECTORY_OFFSET, d, c)
  }

  lemma FlushCases(c: Image, was: Image, sb: Superblock, free: seq<Extent>, dir: Directory)
    returns (hdr: seq<byte>, ext: seq<byte>)
    requires FreeListStore.Encodable(free) && c in BlockZero.FlushImages(was, sb, free, dir)
    ensures |hdr| == FreeListStore.FREE_LIST_HEADER && |ext| <= 3200
    ensures FlushLeft(c, was, EncodeSuperblock(sb), hdr, ext, EncodeDirectory(dir))
  {
    hide EncodeSuperblock, EncodeDirectory, FreeListStore.EncodeExtents, FreeListStore.EncodeHeader, MayLeave,
         Overwrite;
    var count := Min(|free|, MAX_PERSISTED_EXTENTS);
    ext := FreeListStore.EncodeExtents(free[..count]);
    hdr := FreeListStore.EncodeHeader(count, ext);
  }

  lemma FlushBehind(c: Image, was: Image, sb: Superblock, free: seq<Extent>, dir: Directory)
    requires FreeListStore.Encodable(free) && |dir| == MAX_INODE_BLOCKS
             && c in BlockZero.FlushImages(was, sb, free, dir)
    ensures SameBehind(c, was, LOG_END)
  {
    hide EncodeSuperblock, EncodeDirectory, Overwrite, MayLeave, SameBehind, BlockZero.FlushImages,
         FreeListStore.Encodable;
    var hdr, ext := FlushCases(c, was, sb, free, dir);
    var s, d := EncodeSuperblock(sb), EncodeDirectory(dir);
    var a := Overwrite(was, 0, s);
    var b := Overwrite(a, FreeListStore.FREE_LIST_OFFSET, hdr);
    var e := Overwrite(b, EXTENTS_OFFSET, ext);
    ItselfBehind(was, LOG_END);
    WroteBehind(was, was, 0, s, LOG_END);
    WroteBehind(was, a, FreeListStore.FREE_LIST_OFFSET, hdr, LOG_END);
    WroteBehind(was, b, EXTENTS_OFFSET, ext, LOG_END);
    if MayLeave(was, 0, s, c) {
      WriteBehind(was, was, 0, s, c, LOG_END);
    } else if MayLeave(a, FreeListStore.FREE_LIST_OFFSET, hdr, c) {
      WriteBehind(was, a, FreeListStore.FREE_LIST_OFFSET, hdr, c, LOG_END);
    } else if MayLeave(b, EXTENTS_OFFSET, ext, c) {
      WriteBehind(was, b, EXTENTS_OFFSET, ext, c, LOG_END);
    } else {
      WriteBehind(was, e, DIRECTORY_OFFSET, d, c, LOG_END);
    }
  }

  lemma ItselfBehind(was: Image, end: nat)
    ensures SameBehind(was, was, end)
  {
  }

  lemma AllocBehind(c: Image, was: Image, end: u64, grown: Directory, sb: Superblock)
    requires INODE_TABLE_OFFSET <= end && |grown| == MAX_INODE_BLOCKS && c in AllocImages(was, end, grown, sb)
    ensures SameBehind(c, was, end)
  {
    hide EncodeSuperblock, EncodeDirectory, Overwrite, MayLeave, Zeros, SameBehind;
    var z, d, s := Zeros(INODE_BLOCK_SIZE), EncodeDirectory(grown), EncodeSuperblock(sb);
    var a := Overwrite(was, end, z);
    var b := Overwrite(a, DIRECTORY_OFFSET, d);
    ItselfBehind(was, end);
    WroteBehind(was, was, end, z, end);
    WroteBehind(was, a, DIRECTORY_OFFSET, d, end);
    if MayLeave(was, end, z, c) {
      WriteBehind(was, was, end, z, c, end);
    } else if MayLeave(a, DIRECTORY_OFFSET, d, c) {
      WriteBehind(was, a, DIRECTORY_OFFSET, d, c, end);
    } else {
      WriteBehind(was, b, 0, s, c, end);
    }
  }

  /** The journal says what it said, so a mount recovers the same inodes and data. */
  lemma SameJournalBehind(c: Image, was: Image, end: nat)
    requires SameBehind(c, was, end) && DATA_OFFSET <= end && DATA_OFFSET <= |was|
    ensures HeaderOf(c) == HeaderOf(was) && Slots(c) == Slots(was)
  {
    hide HeaderOf, Slot;
    SameJournal(c, was);
    assert Slots(c) == Slots(was);
  }

  lemma RecoveredBehind(c: Image, was: Image, end: nat)
    requires SameBehind(c, was, end) && DATA_OFFSET <= end && DATA_OFFSET <= |was|
    ensures forall i: nat :: INODE_TABLE_OFFSET <= i < end && i < |was| ==> At(Recovered(c), i) == At(Recovered(was), i)
  {
    SameJournalBehind(c, was, end);
    hide HeaderOf, Slots, ToReplay, Replay, At, Blank, Recovered;
    SameLog(c, was);
    forall i: nat | INODE_TABLE_OFFSET <= i < end && i < |was| ensures At(Recovered(c), i) == At(Recovered(was), i) {
      assert c[i] == was[i];
      RecoveredByte(c, was, i);
    }
  }

  lemma RecoveredByte(c: Image, was: Image, i: nat)
    requires VisibleLog(c) == VisibleLog(was) && i < |c| && i < |was| && c[i] == was[i]
    ensures At(Recovered(c), i) == At(Recovered(was), i)
  {
    hide ToReplay, VisibleLog, Replay, LastWrite;
    var es := ToReplay(VisibleLog(was));
    ReplayIsLastWriter(es, c, i);
    ReplayIsLastWriter(es, was, i);
    ReplayTouches(es, c);
    ReplayTouches(es, was);
  }

  lemma UsableBehind(c: Image, was: Image, end: nat)
    requires SameBehind(c, was, end) && DATA_OFFSET <= end && Reusable(was) && LogInPlace(was)
    ensures Reusable(c) && LogInPlace(c) && ClearOf(ToReplay(VisibleLog(c))) && DATA_OFFSET <= |c|
  {
    SameJournalBehind(c, was, end);
    hide HeaderOf, Slots, ToReplay, TailClean, SameBehind;
    SameLog(c, was);
    assert |was| <= |c| by {
      LongerBehind(c, was, end);
    }
  }

  lemma LongerBehind(c: Image, was: Image, end: nat)
    requires SameBehind(c, was, end)
    ensures |was| <= |c|
  {
  }

  // ----- exactly when the image can be mounted -----

  /** A session can be run on the image. */
  ghost predicate Mountable(c: Image) {
    exists sb, dir :: Sound(c, sb, dir)
  }

  /** Block 0 has a superblock and a directory of blocks that end by its next_data_offset. */
  ghost predicate BlockZeroReads(c: Image) {
    && BlockZero.LoadSuperblock(c).Some? && BlockZero.LoadSuperblock(c).value.magic == MAGIC
    && LoadDirectory(c).Some? && Laid(LoadDirectory(c).value, BlockZero.LoadSuperblock(c).value.nextDataOffset)
  }

  lemma MountableIffReads(c: Image)
    requires Reusable(c) && LogInPlace(c)
    ensures Mountable(c) <==> BlockZeroReads(c)
  {
    hide BlockZero.LoadSuperblock, LoadDirectory, Laid, Reusable, LogInPlace;
    if BlockZeroReads(c) {
      assert Sound(c, BlockZero.LoadSuperblock(c).value, LoadDirectory(c).value);
    }
  }

  /** A crash during a flush: inodes and data are recovered as before, and the image can be mounted exactly when block 0
      reads as a whole. */
  lemma FlushCrash(c: Image, was: Image, sb: Superblock, free: seq<Extent>, dir: Directory)
    requires FreeListStore.Encodable(free) && |dir| == MAX_INODE_BLOCKS && Reusable(was) && LogInPlace(was)
    requires c in BlockZero.FlushImages(was, sb, free, dir)
    ensures forall i: nat :: INODE_TABLE_OFFSET <= i < |was| && i < LOG_END ==>
            At(Recovered(c), i) == At(Recovered(was), i)
    ensures Mountable(c) <==> BlockZeroReads(c)
  {
    assert DATA_OFFSET <= LOG_END && DATA_OFFSET <= |was|;
    hide BlockZero.FlushImages, SameBehind, Recovered, Reusable, LogInPlace, Mountable, BlockZeroReads,
         FreeListStore.Encodable;
    FlushBehind(c, was, sb, free, dir);
    RecoveredBehind(c, was, LOG_END);
    UsableBehind(c, was, LOG_END);
    MountableIffReads(c);
  }

  /** A crash while `alloc_inode` grows the table: the same below the end of the region. */
  lemma AllocCrash(c: Image, was: Image, end: u64, grown: Directory, sb: Superblock)
    requires DATA_OFFSET <= end && |grown| == MAX_INODE_BLOCKS && Reusable(was) && LogInPlace(was)
    requires c in AllocImages(was, end, grown, sb)
    ensures forall i: nat :: INODE_TABLE_OFFSET <= i < |was| && i < end ==> At(Recovered(c), i) == At(Recovered(was), i)
    ensures Mountable(c) <==> BlockZeroReads(c)
  {
    assert DATA_OFFSET <= |was|;
    hide AllocImages, SameBehind, Recovered, Reusable, LogInPlace, Mountable, BlockZeroReads;
    AllocBehind(c, was, end, grown, sb);
    RecoveredBehind(c, was, end);
    UsableBehind(c, was, end);
    MountableIffReads(c);
  }

  // ----- safe when sectors do not tear -----

  /** The superblock and the directory, each within one sector, are each as before or as written. */
  ghost predicate SectorsWhole(c: Image, was: Image, now: Image) {
    && BlockZero.BLOCK_SIZE <= |c| && BlockZero.BLOCK_SIZE <= |was| && BlockZero.BLOCK_SIZE <= |now|
    && (c[..64] == was[..64] || c[..64] == now[..64])
    && (c[3584..4096] == was[3584..4096] || c[3584..4096] == now[3584..4096])
  }

  lemma SectorsRead(c: Image, x: Image)
    requires BlockZero.BLOCK_SIZE <= |c| && BlockZero.BLOCK_SIZE <= |x|
    ensures c[..64] == x[..64] ==> BlockZero.LoadSuperblock(c) == BlockZero.LoadSuperblock(x)
    ensures c[3584..4096] == x[3584..4096] ==> LoadDirectory(c) == LoadDirectory(x)
  {
    hide LeToU64, DecodeSuperblock;
    if c[3584..4096] == x[3584..4096] {
      forall i | 1 <= i < MAX_INODE_BLOCKS
        ensures c[3584 + 8 * i..3584 + 8 * i + 8] == x[3584 + 8 * i..3584 + 8 * i + 8]
      {
        SliceOfSlice(c, 3584, 4096, 8 * i, 8 * i + 8);
        SliceOfSlice(x, 3584, 4096, 8 * i, 8 * i + 8);
      }
      assert LoadDirectory(c).value == LoadDirectory(x).value;
    }
  }

  lemma WiderLaid(dir: Directory, end: nat, end': nat)
    requires Laid(dir, end) && end <= end'
    ensures Laid(dir, end')
  {
  }

  /** Block 0 begins with these 64 bytes. */
  ghost predicate Begins(c: Image, s: seq<byte>) {
    BlockZero.BLOCK_SIZE <= |c| && c[..64] == s
  }

  lemma BeginKept(now: Image, off: nat, data: seq<byte>, c: Image, s: seq<byte>)
    requires Begins(now, s) && 64 <= off && MayLeave(now, off, data, c)
    ensures Begins(c, s)
  {
    forall i | 0 <= i < 64 ensures c[i] == now[i] {
      assert At(now, i) == now[i];
    }
  }

  lemma BeginWritten(was: Image, s: seq<byte>)
    requires BlockZero.BLOCK_SIZE <= |was| && |s| == 64
    ensures Begins(Overwrite(was, 0, s), s)
  {
  }

  lemma BeginsIs(c: Image, s: seq<byte>)
    requires Begins(c, s)
    ensures BlockZero.BLOCK_SIZE <= |c| && c[..64] == s
  {
  }

  lemma EndKept(was: Image, s: seq<byte>, c: Image)
    requires BlockZero.BLOCK_SIZE <= |was| && |s| == 64 && MayLeave(was, 0, s, c)
    ensures BlockZero.BLOCK_SIZE <= |c| && c[3584..4096] == was[3584..4096]
  {
    forall i | 3584 <= i < 4096 ensures c[i] == was[i] {
      assert At(was, i) == was[i];
    }
  }

  /** While the superblock is written, the directory is what it was; from then on the superblock is the new one. */
  lemma FlushOrder(c: Image, was: Image, sb: Superblock, free: seq<Extent>, dir: Directory)
    requires FreeListStore.Encodable(free) && BlockZero.BLOCK_SIZE <= |was|
    requires c in BlockZero.FlushImages(was, sb, free, dir)
    ensures BlockZero.BLOCK_SIZE <= |c|
    ensures c[3584..4096] == was[3584..4096] || c[..64] == EncodeSuperblock(sb)
  {
    hide EncodeSuperblock, EncodeDirectory, MayLeave, Overwrite, Begins, BlockZero.FlushImages, FreeListStore.Encodable;
    var hdr, ext := FlushCases(c, was, sb, free, dir);
    var s := EncodeSuperblock(sb);
    var a := Overwrite(was, 0, s);
    var b := Overwrite(a, FreeListStore.FREE_LIST_OFFSET, hdr);
    var e := Overwrite(b, EXTENTS_OFFSET, ext);
    if MayLeave(was, 0, s, c) {
      EndKept(was, s, c);
    } else {
      BeginWritten(was, s);
      WrittenMayBeLeft(a, FreeListStore.FREE_LIST_OFFSET, hdr);
      BeginKept(a, FreeListStore.FREE_LIST_OFFSET, hdr, b, s);
      WrittenMayBeLeft(b, EXTENTS_OFFSET, ext);
      BeginKept(b, EXTENTS_OFFSET, ext, e, s);
      if MayLeave(a, FreeListStore.FREE_LIST_OFFSET, hdr, c) {
        BeginKept(a, FreeListStore.FREE_LIST_OFFSET, hdr, c, s);
      } else if MayLeave(b, EXTENTS_OFFSET, ext, c) {
        BeginKept(b, EXTENTS_OFFSET, ext, c, s);
      } else {
        BeginKept(e, DIRECTORY_OFFSET, EncodeDirectory(dir), c, s);
      }
      BeginsIs(c, s);
    }
  }

  /** When the superblock and the directory each stand as before or as written, every crash during a flush leaves an
      image to carry on with: the old block 0, the old directory under the new superblock, or the new block 0. (More
      than 190 free extents are first written over the directory, which then stands as neither for a while.) */
  lemma FlushWhole(c: Image, was: Image, sb0: Superblock, dir0: Directory, sb: Superblock, free: seq<Extent>,
                   dir: Directory)
    requires Sound(was, sb0, dir0) && FreeListStore.Encodable(free) && c in BlockZero.FlushImages(was, sb, free, dir)
    requires sb.magic == MAGIC && sb0.nextDataOffset <= sb.nextDataOffset && Laid(dir, sb.nextDataOffset)
    requires SectorsWhole(c, was, BlockZero.Flushed(was, sb, free, dir))
    ensures Sound(c, sb0, dir0) || Sound(c, sb, dir0) || Sound(c, sb, dir)
  {
    var now := BlockZero.Flushed(was, sb, free, dir);
    hide BlockZero.FlushImages, BlockZero.Flushed, BlockZero.LoadSuperblock, LoadDirectory, Reusable, LogInPlace,
      FreeListStore.Encodable, EncodeSuperblock, SameBehind;
    WiderLaid(dir0, sb0.nextDataOffset, sb.nextDataOffset);
    FlushOrder(c, was, sb, free, dir);
    FlushBehind(c, was, sb, free, dir);
    UsableBehind(c, was, LOG_END);
    BlockZero.FlushedBytes(was, sb, free, dir);
    BlockZero.SuperblockComesBack(was, sb, free, dir);
    BlockZero.DirectoryComesBack(was, sb, free, dir);
    SectorsRead(c, was);
    SectorsRead(c, now);
  }

  /** A directory that grew by a block at `end` fits a superblock exactly when that counts the block. */
  lemma GrownLaid(dir: Directory, grown: Directory, end: u64, s: nat)
    requires Laid(dir, end) && Laid(dir, s) && BlockCount(dir) < MAX_INODE_BLOCKS
             && grown == dir[BlockCount(dir) := end]
    ensures Laid(grown, s) <==> end + INODE_BLOCK_SIZE <= s
    ensures Laid(grown, end + INODE_BLOCK_SIZE) && InBlock(grown, end)
  {
    GrownDirectory(dir, end);
    hide BlockCount;
    assert dir[0] != 0 && BlockCount(dir) >= 1;
    assert grown[BlockCount(dir)] == end;
  }

  /** Whatever a mount allocates keeps clear of the new block exactly when its superblock counts the block and its free
      list has no byte of it. */
  lemma BlockKept(dir: Directory, grown: Directory, end: u64, s: nat, free: seq<Extent>)
    requires Laid(dir, end) && Laid(dir, s) && BlockCount(dir) < MAX_INODE_BLOCKS
             && grown == dir[BlockCount(dir) := end]
    ensures (forall ns :: SpaceRuns.KeptClear(Extent(end, INODE_BLOCK_SIZE), free, s, ns))
            <==> Laid(grown, s) && forall b :: end <= b < end + INODE_BLOCK_SIZE ==> !InSome(free, b)
  {
    var e := Extent(end, INODE_BLOCK_SIZE);
    assert forall b :: Inside(e, b) <==> end <= b < end + INODE_BLOCK_SIZE;
    hide Laid, BlockCount, InSome, SpaceRuns.KeptClear;
    GrownLaid(dir, grown, end, s);
    SpaceRuns.ClearExactly(e, free, s);
  }

  /** While the block and the directory are written, the superblock is what it was; then the directory is
      the new one. */
  lemma AllocOrder(c: Image, was: Image, end: u64, grown: Directory, sb: Superblock)
    requires BlockZero.BLOCK_SIZE <= |was| && BlockZero.BLOCK_SIZE <= end && |grown| == MAX_INODE_BLOCKS
    requires c in AllocImages(was, end, grown, sb)
    ensures BlockZero.BLOCK_SIZE <= |c|
    ensures c[..64] == was[..64] || c[3584..4096] == EncodeDirectory(grown)
  {
    var z, d, s := Zeros(INODE_BLOCK_SIZE), EncodeDirectory(grown), EncodeSuperblock(sb);
    assert Begins(was, was[..64]);
    DirectoryWritten(Overwrite(was, end, z), d);
    hide EncodeSuperblock, EncodeDirectory, Zeros, MayLeave, Overwrite, Begins;
    var a := Overwrite(was, end, z);
    WrittenMayBeLeft(was, end, z);
    BeginKept(was, end, z, a, was[..64]);
    if MayLeave(was, end, z, c) {
      BeginKept(was, end, z, c, was[..64]);
      BeginsIs(c, was[..64]);
    } else if MayLeave(a, DIRECTORY_OFFSET, d, c) {
      BeginKept(a, DIRECTORY_OFFSET, d, c, was[..64]);
      BeginsIs(c, was[..64]);
    } else {
      EndKept(Overwrite(a, DIRECTORY_OFFSET, d), s, c);
    }
  }

  lemma DirectoryWritten(a: Image, d: seq<byte>)
    requires |d| == DIRECTORY_BYTES && BlockZero.BLOCK_SIZE <= |a|
    ensures var b := Overwrite(a, DIRECTORY_OFFSET, d); BlockZero.BLOCK_SIZE <= |b| && b[3584..4096] == d
  {
  }

  lemma AllocBytes(was: Image, end: u64, grown: Directory, sb: Superblock)
    requires BlockZero.BLOCK_SIZE <= |was| && BlockZero.BLOCK_SIZE <= end && |grown| == MAX_INODE_BLOCKS
    requires grown[0] == INODE_TABLE_OFFSET
    ensures var now := AllocatedImage(was, end, grown, sb);
            BlockZero.BLOCK_SIZE <= |now| && BlockZero.LoadSuperblock(now) == Some(sb)
                && LoadDirectory(now) == Some(grown)
  {
    SuperblockRoundTrip(sb);
    hide EncodeSuperblock, EncodeDirectory, Zeros, DecodeSuperblock;
    var now := AllocatedImage(was, end, grown, sb);
    assert now[..64] == EncodeSuperblock(sb);
    assert now[3584..4096] == EncodeDirectory(grown);
    BlockZero.DirectoryRead(now, grown);
  }

  /** What the three writes of a new block make of an image. */
  function AllocatedImage(was: Image, end: u64, grown: Directory, sb: Superblock): Image {
    Overwrite(Overwrite(Overwrite(was, end, Zeros(INODE_BLOCK_SIZE)), DIRECTORY_OFFSET, EncodeDirectory(grown)),
              0, EncodeSuperblock(sb))
  }

  /** With whole sectors each of the two reads as before or as written, the directory new wherever the superblock is. */
  lemma AllocReads(c: Image, was: Image, end: u64, grown: Directory, sb: Superblock)
    requires BlockZero.BLOCK_SIZE <= |was| && BlockZero.BLOCK_SIZE <= end && |grown| == MAX_INODE_BLOCKS
    requires grown[0] == INODE_TABLE_OFFSET && c in AllocImages(was, end, grown, sb)
    requires SectorsWhole(c, was, AllocatedImage(was, end, grown, sb))
    ensures BlockZero.LoadSuperblock(c) == BlockZero.LoadSuperblock(was) || BlockZero.LoadSuperblock(c) == Some(sb)
    ensures LoadDirectory(c) == LoadDirectory(was) || LoadDirectory(c) == Some(grown)
    ensures BlockZero.LoadSuperblock(c) == BlockZero.LoadSuperblock(was) || LoadDirectory(c) == Some(grown)
  {
    hide AllocImages, AllocatedImage, BlockZero.LoadSuperblock, LoadDirectory, EncodeSuperblock, EncodeDirectory;
    AllocOrder(c, was, end, grown, sb);
    AllocBytes(was, end, grown, sb);
    SectorsRead(c, was);
    SectorsRead(c, AllocatedImage(was, end, grown, sb));
    NewDirectoryReads(c, grown);
  }

  lemma NewDirectoryReads(c: Image, grown: Directory)
    requires BlockZero.BLOCK_SIZE <= |c| && |grown| == MAX_INODE_BLOCKS && grown[0] == INODE_TABLE_OFFSET
    ensures c[3584..4096] == EncodeDirectory(grown) ==> LoadDirectory(c) == Some(grown)
  {
    hide EncodeDirectory, LoadDirectory;
    if c[3584..4096] == EncodeDirectory(grown) {
      BlockZero.DirectoryRead(c, grown);
    }
  }

  /** Which of the four pairs of superblock and directory fit. */
  lemma PairsLaid(sb0: Superblock, dir: Directory, sb: Superblock, grown: Directory, sb': Superblock)
    requires Laid(dir, sb0.nextDataOffset) && sb0.nextDataOffset <= sb.nextDataOffset && GrewTo(dir, sb, grown, sb')
    ensures Laid(dir, sb'.nextDataOffset) && Laid(grown, sb'.nextDataOffset) && !Laid(grown, sb0.nextDataOffset)
    ensures sb' != sb0 && grown != dir && |grown| == MAX_INODE_BLOCKS && grown[0] == INODE_TABLE_OFFSET
    ensures sb'.magic == sb.magic && DATA_OFFSET <= sb.nextDataOffset
  {
    assert dir[0] == INODE_TABLE_OFFSET && dir[BlockCount(dir)] == 0 && DATA_OFFSET <= sb0.nextDataOffset;
    hide Laid, BlockCount;
    WiderLaid(dir, sb0.nextDataOffset, sb.nextDataOffset);
    WiderLaid(dir, sb0.nextDataOffset, sb'.nextDataOffset);
    GrownLaid(dir, grown, sb.nextDataOffset, sb0.nextDataOffset);
  }

  /** A new block, with neither superblock nor directory torn: the image can be carried on with exactly when it is not
      the one between the two writes, whose directory names a block its superblock does not count. */
  lemma AllocWhole(c: Image, was: Image, sb0: Superblock, dir: Directory, sb: Superblock, grown: Directory,
                   sb': Superblock)
    requires Sound(was, sb0, dir) && sb0.nextDataOffset <= sb.nextDataOffset && sb.magic == MAGIC
    requires GrewTo(dir, sb, grown, sb') && c in AllocImages(was, sb.nextDataOffset, grown, sb')
    requires SectorsWhole(c, was, AllocatedImage(was, sb.nextDataOffset, grown, sb'))
    ensures Mountable(c) <==> !(BlockZero.LoadSuperblock(c) == Some(sb0) && LoadDirectory(c) == Some(grown))
  {
    assert DATA_OFFSET <= |was|;
    hide AllocImages, AllocatedImage, BlockZero.LoadSuperblock, LoadDirectory, Reusable, LogInPlace, Mountable,
         Recovered, Laid, GrewTo, SectorsWhole;
    PairsLaid(sb0, dir, sb, grown, sb');
    AllocCrash(c, was, sb.nextDataOffset, grown, sb');
    AllocReads(c, was, sb.nextDataOffset, grown, sb');
  }

  // ----- the runs -----

  /** The checksum an image holds for its superblock. */
  function StoredSum(img: Image): u32 {
    if |img| < SUPERBLOCK_BYTES then 0 else LeToU32(img[56..60])
  }

  /** A superblock torn between its fields and its checksum reads only if the old checksum happens to fit. */
  lemma TornSuperblock(was: Image, sb: Superblock)
    requires BlockZero.BLOCK_SIZE <= |was|
    ensures var c := Overwrite(was, 0, SuperblockFields(sb));
            && MayLeave(was, 0, EncodeSuperblock(sb), c)
            && BlockZero.LoadSuperblock(c) == if StoredSum(was) == Crc32(SuperblockFields(sb)) then Some(sb) else None
  {
    var f, b := SuperblockFields(sb), EncodeSuperblock(sb);
    var c := Overwrite(was, 0, f);
    TornMayBeLeft(was, sb, c);
    SuperblockRoundTrip(sb);
    hide SuperblockFields, Crc32, LeToU64, LeToU32, U32ToLe, DecodeSuperblock, MayLeave;
    var t := c[..64];
    TornBytes(was, f);
    assert b[..56] == f;
    SameFields(t, b);
  }

  lemma TornBytes(was: Image, f: seq<byte>)
    requires BlockZero.BLOCK_SIZE <= |was| && |f| == 56
    ensures var t := Overwrite(was, 0, f)[..64]; t[..56] == f && t[56..60] == was[56..60]
  {
    var c := Overwrite(was, 0, f);
    forall k | 56 <= k < 60 ensures c[k] == was[k] {
      assert At(was, k) == was[k];
    }
    assert c[..64][56..60] == c[56..60] == was[56..60];
  }

  lemma SameFields(t: seq<byte>, b: seq<byte>)
    requires |t| == SUPERBLOCK_BYTES && |b| == SUPERBLOCK_BYTES && t[..56] == b[..56]
    ensures DecodeSuperblock(t).Some? <==> Crc32(t[..56]) == LeToU32(t[56..60])
    ensures DecodeSuperblock(t).Some? && DecodeSuperblock(b).Some? ==> DecodeSuperblock(t) == DecodeSuperblock(b)
  {
    hide LeToU64, LeToU32, Crc32;
    SameSlice(t, b, 0, 8);
    SameSlice(t, b, 8, 12);
    SameSlice(t, b, 12, 16);
    SameSlice(t, b, 16, 24);
    SameSlice(t, b, 24, 32);
    SameSlice(t, b, 32, 40);
    SameSlice(t, b, 40, 48);
    SameSlice(t, b, 48, 56);
  }

  lemma SameSlice(t: seq<byte>, b: seq<byte>, i: nat, j: nat)
    requires 56 <= |t| && 56 <= |b| && t[..56] == b[..56] && i <= j <= 56
    ensures t[i..j] == b[i..j]
  {
    SliceOfSlice(t, 0, 56, i, j);
    SliceOfSlice(b, 0, 56, i, j);
  }

  lemma TornMayBeLeft(was: Image, sb: Superblock, c: Image)
    requires BlockZero.BLOCK_SIZE <= |was| && c == Overwrite(was, 0, SuperblockFields(sb))
    ensures MayLeave(was, 0, EncodeSuperblock(sb), c) && |c| == |was|
  {
    hide SuperblockFields, EncodeSuperblock;
  }

  lemma TornFlushLeft(was: Image, sb: Superblock, free: seq<Extent>, dir: Directory)
    requires FreeListStore.Encodable(free) && BlockZero.BLOCK_SIZE <= |was|
    ensures Overwrite(was, 0, SuperblockFields(sb)) in BlockZero.FlushImages(was, sb, free, dir)
  {
    TornSuperblock(was, sb);
    hide MayLeave, Overwrite, FreeListStore.SaveImages, FreeListStore.SavedFreeList, EncodeSuperblock, EncodeDirectory,
      FreeListStore.Encodable;
  }

  /** The run: a flush is cut short between the fields of the superblock and its checksum. The image cannot be opened
      unless the new fields have the old checksum. */
  method TornFlush(dm: DiskManager) returns (reopened: DiskManager?, ghost c: Image, ghost left: iset<Image>)
    requires dm.Mounted() && dm.SpaceValid() && dm.superblock.magic == MAGIC
    modifies dm.file
    ensures Adds(old(dm.file.crashes), dm.file.crashes, left) && c in left
    ensures BlockZero.LoadSuperblock(c).None?
            <==> Crc32(SuperblockFields(dm.superblock)) != StoredSum(old(dm.file.bytes))
    ensures reopened == null <==> BlockZero.LoadSuperblock(c).None?
  {
    hide *;
    var was := dm.file.bytes;
    MountedSizeOf(dm);
    MountedLog(dm);
    TableEncodes(dm);
    left := dm.Flush();
    TornSuperblock(was, dm.superblock);
    TornFlushLeft(was, dm.superblock, dm.freeList.extents, dm.inodeTable.blockOffsets);
    var torn := new File(Overwrite(was, 0, SuperblockFields(dm.superblock)));
    c := torn.bytes;
    EndIsFar();
    FlushBehind(c, was, dm.superblock, dm.freeList.extents, dm.inodeTable.blockOffsets);
    UsableBehind(c, was, LOG_END);
    ghost var replaying;
    reopened, replaying := DiskManager.Open(torn);
  }

  lemma EndIsFar()
    ensures DATA_OFFSET <= LOG_END
  {
  }

  lemma TableEncodes(dm: DiskManager)
    requires dm.SpaceValid()
    ensures |dm.inodeTable.blockOffsets| == MAX_INODE_BLOCKS
  {
  }

  /** Every slot is used, so a new inode takes a new block. */
  lemma MustGrow(was: Image, dir: Directory, now: Image, grown: Directory, r: Option<nat>)
    requires BlockCount(dir) < MAX_INODE_BLOCKS && AllUsed(was, dir, Capacity(dir))
             && NonzeroPrefix(dir, BlockCount(dir))
    requires r.None? ==> AllUsed(was, dir, MAX_FILES)
    requires r.Some? ==> LeastFree(was, dir, now, grown, r.value)
    requires grown == dir ==> now == was
    ensures grown != dir
  {
    Addressable(dir, Capacity(dir));
    assert !SlotUsed(was, dir, Capacity(dir)) && Capacity(dir) < MAX_FILES;
    hide ReadInode, InodeOffset, BlockCount, InodeAt;
  }

  lemma GrewIs(dir: Directory, sb: Superblock, grown: Directory, sb': Superblock)
    requires GrewTo(dir, sb, grown, sb') && Laid(dir, sb.nextDataOffset)
    ensures |grown| == MAX_INODE_BLOCKS && grown[0] == INODE_TABLE_OFFSET && INODE_TABLE_OFFSET <= sb.nextDataOffset
    ensures DATA_OFFSET <= sb.nextDataOffset && BlockZero.BLOCK_SIZE <= sb.nextDataOffset
    ensures InBlock(grown, sb.nextDataOffset) && !Laid(grown, sb.nextDataOffset)
  {
    assert dir[0] == INODE_TABLE_OFFSET && DATA_OFFSET <= sb.nextDataOffset;
    hide Laid, BlockCount;
    GrownLaid(dir, grown, sb.nextDataOffset, sb.nextDataOffset);
  }

  /** The image between the directory write and the superblock write. */
  lemma BetweenWrites(was: Image, end: u64, grown: Directory, sb: Superblock)
    requires BlockZero.BLOCK_SIZE <= |was| && BlockZero.BLOCK_SIZE <= end
    requires |grown| == MAX_INODE_BLOCKS && grown[0] == INODE_TABLE_OFFSET
    ensures var c := Overwrite(Overwrite(was, end, Zeros(INODE_BLOCK_SIZE)), DIRECTORY_OFFSET, EncodeDirectory(grown));
            && c in AllocImages(was, end, grown, sb) && BlockZero.BLOCK_SIZE <= |c| && c[..3584] == was[..3584]
            && BlockZero.LoadSuperblock(c) == BlockZero.LoadSuperblock(was) && LoadDirectory(c) == Some(grown)
  {
    hide *;
    var z, d := Zeros(INODE_BLOCK_SIZE), EncodeDirectory(grown);
    var a := Overwrite(was, end, z);
    var c := Overwrite(a, DIRECTORY_OFFSET, d);
    LeftBetween(was, end, grown, sb);
    SizesBetween(grown);
    PrefixKept(was, end, z);
    PrefixKept(a, DIRECTORY_OFFSET, d);
    DirectoryWritten(a, d);
    BlockZero.DirectoryRead(c, grown);
    SamePrefixReads(c, was);
  }

  lemma LeftBetween(was: Image, end: u64, grown: Directory, sb: Superblock)
    ensures Overwrite(Overwrite(was, end, Zeros(INODE_BLOCK_SIZE)), DIRECTORY_OFFSET, EncodeDirectory(grown))
            in AllocImages(was, end, grown, sb)
  {
    hide MayLeave, Overwrite, EncodeSuperblock, EncodeDirectory, Zeros, GrowthImages;
    var c := Overwrite(Overwrite(was, end, Zeros(INODE_BLOCK_SIZE)), DIRECTORY_OFFSET, EncodeDirectory(grown));
    WrittenMayBeLeft(c, 0, EncodeSuperblock(sb));
  }

  lemma SizesBetween(grown: Directory)
    ensures |grown| == MAX_INODE_BLOCKS ==> |EncodeDirectory(grown)| == DIRECTORY_BYTES
    ensures 3584 <= DIRECTORY_OFFSET && 3584 <= BlockZero.BLOCK_SIZE
  {
  }

  lemma PrefixKept(was: Image, off: nat, data: seq<byte>)
    requires BlockZero.BLOCK_SIZE <= |was| && 3584 <= off
    ensures var c := Overwrite(was, off, data); |was| <= |c| && 3584 <= |c| && 3584 <= |was| && c[..3584] == was[..3584]
    ensures BlockZero.BLOCK_SIZE <= |Overwrite(was, off, data)|
  {
    var c := Overwrite(was, off, data);
    forall i | 0 <= i < 3584 ensures c[i] == was[i] {
      assert At(was, i) == was[i];
    }
  }

  lemma SamePrefixReads(c: Image, was: Image)
    requires 3584 <= |c| && 3584 <= |was| && c[..3584] == was[..3584]
    ensures BlockZero.LoadSuperblock(c) == BlockZero.LoadSuperblock(was)
  {
    hide DecodeSuperblock;
    SliceOfSlice(c, 0, 3584, 0, 64);
    SliceOfSlice(was, 0, 3584, 0, 64);
  }

  lemma LoadedEncodable(img: Image)
    ensures FreeListStore.Encodable(FreeListStore.LoadFreeList(img))
  {
    hide FromLe, Crc32;
    if FreeListStore.LoadFreeList(img) != [] {
      FreeListStore.DecodedEncodable(img[544..][..16 * LeToU32(img[512..544][8..12])]);
    }
  }

  lemma NewEnd(free: seq<Extent>, end: nat, n: nat)
    requires end + n + 511 < 0x1_0000_0000_0000_0000
    ensures EndAfter(free, end, n) < 0x1_0000_0000_0000_0000
    ensures BestFit(free, n).None? ==> NextExtent(free, end, n) == Extent(end, n)
  {
  }

  lemma LogEnds(dm: DiskManager)
    requires dm.LogInSpace()
    ensures LogInPlace(dm.file.bytes) && Reusable(dm.file.bytes) && BlockZero.BLOCK_SIZE <= |dm.file.bytes|
  {
    dm.SpaceIs();
    hide ToReplay, Recovered, Blank;
  }

  lemma SpaceParts(dm: DiskManager)
    requires dm.SpaceValid()
    ensures Laid(dm.inodeTable.blockOffsets, dm.superblock.nextDataOffset)
    ensures NonzeroPrefix(dm.inodeTable.blockOffsets, BlockCount(dm.inodeTable.blockOffsets))
  {
  }

  /** A new inode appends a block, and the crash comes between the directory and the superblock. */
  method CrashWhileGrowing(dm: DiskManager) returns (crashed: File, ghost left: iset<Image>)
    requires dm.LogInSpace() && dm.SpaceValid() && InFile(dm.file.bytes, dm.inodeTable.blockOffsets)
    requires BlockCount(dm.inodeTable.blockOffsets) < MAX_INODE_BLOCKS
    requires AllUsed(dm.file.bytes, dm.inodeTable.blockOffsets, Capacity(dm.inodeTable.blockOffsets))
    requires dm.superblock.nextDataOffset + INODE_BLOCK_SIZE < 0x1_0000_0000_0000_0000
    modifies dm, dm.inodeTable, dm.file
    ensures fresh(crashed) && Adds(old(dm.file.crashes), dm.file.crashes, left) && crashed.bytes in left
    ensures LoadDirectory(crashed.bytes) == Some(dm.inodeTable.blockOffsets)
    ensures BlockZero.LoadSuperblock(crashed.bytes) == BlockZero.LoadSuperblock(old(dm.file.bytes))
    ensures InBlock(dm.inodeTable.blockOffsets, old(dm.superblock.nextDataOffset))
    ensures !Laid(dm.inodeTable.blockOffsets, old(dm.superblock.nextDataOffset))
    ensures BlockZero.BLOCK_SIZE <= |old(dm.file.bytes)| && BlockZero.BLOCK_SIZE <= |crashed.bytes|
    ensures crashed.bytes[..3584] == old(dm.file.bytes)[..3584]
    ensures LogInPlace(crashed.bytes) && DATA_OFFSET <= |crashed.bytes| && ClearOf(ToReplay(VisibleLog(crashed.bytes)))
  {
    hide *;
    var was, next := dm.file.bytes, dm.superblock.nextDataOffset;
    ghost var dir, sb := dm.inodeTable.blockOffsets, dm.superblock;
    LogEnds(dm);
    SpaceParts(dm);
    BlockZeroSize(was);
    var r;
    r, left := dm.AllocInode();
    MustGrow(was, dir, dm.file.bytes, dm.inodeTable.blockOffsets, r);
    GrewIs(dir, sb, dm.inodeTable.blockOffsets, dm.superblock);
    BetweenWrites(was, next, dm.inodeTable.blockOffsets, dm.superblock);
    crashed := new File(Overwrite(Overwrite(was, next, Zeros(INODE_BLOCK_SIZE)), DIRECTORY_OFFSET,
                                  EncodeDirectory(dm.inodeTable.blockOffsets)));
    AllocBehind(crashed.bytes, was, next, dm.inodeTable.blockOffsets, dm.superblock);
    UsableBehind(crashed.bytes, was, next);
    BlockZeroSize(crashed.bytes);
  }

  lemma BlockZeroSize(img: Image)
    ensures BlockZero.BLOCK_SIZE <= |img| ==> 3584 <= |img|
  {
  }

  /** The run, from any disk with its superblock flushed and every inode slot used: the crash comes while the inode
      table grows. The next mount does not know that the block is taken: unless the free list has room, it hands the
      first bytes of the block out for file data. */
  method InodeBlockHandedOut(dm: DiskManager, size: nat)
    returns (reopened: DiskManager, off: u64, ghost c: Image, ghost left: iset<Image>)
    requires dm.LogInSpace() && dm.SpaceValid() && InFile(dm.file.bytes, dm.inodeTable.blockOffsets)
    requires BlockCount(dm.inodeTable.blockOffsets) < MAX_INODE_BLOCKS
    requires AllUsed(dm.file.bytes, dm.inodeTable.blockOffsets, Capacity(dm.inodeTable.blockOffsets))
    requires BlockZero.LoadSuperblock(dm.file.bytes) == Some(dm.superblock) && dm.superblock.magic == MAGIC
    requires dm.superblock.nextDataOffset + INODE_BLOCK_SIZE < 0x1_0000_0000_0000_0000
    requires dm.superblock.nextDataOffset + size + 511 < 0x1_0000_0000_0000_0000
    modifies dm, dm.inodeTable, dm.file
    ensures Adds(old(dm.file.crashes), dm.file.crashes, left) && c in left
    ensures reopened.inodeTable.blockOffsets == dm.inodeTable.blockOffsets
    ensures InBlock(reopened.inodeTable.blockOffsets, old(dm.superblock.nextDataOffset))
    ensures !Laid(reopened.inodeTable.blockOffsets, old(dm.superblock.nextDataOffset))
    ensures 3584 <= |c| && 3584 <= |old(dm.file.bytes)| && c[..3584] == old(dm.file.bytes)[..3584]
    ensures reopened.live == [Extent(off, size)]
    ensures BestFit(FreeListStore.LoadFreeList(c), size).None? ==> off == old(dm.superblock.nextDataOffset)
  {
    hide *;
    BlockZeroSize(dm.file.bytes);
    ghost var next := dm.superblock.nextDataOffset;
    var crashed;
    crashed, left := CrashWhileGrowing(dm);
    BlockZeroSize(dm.file.bytes);
    c := crashed.bytes;
    BlockZeroSize(c);
    ghost var replaying;
    reopened, replaying := DiskManager.Open(crashed);
    DirectoryMounted(c, crashed.bytes);
    SpaceRuns.FreeListMounted(c, crashed.bytes);
    LoadedEncodable(c);
    NewEnd(FreeListStore.LoadFreeList(c), next, size);
    off := reopened.AllocData(size);
  }

  // ----- a table filled -----

  lemma OnlyEmptyLoads(c: Image, was: Image)
    requires FreeListStore.SaysEmpty(was) && 3584 <= |c| && 3584 <= |was| && c[..3584] == was[..3584]
    ensures FreeListStore.LoadFreeList(c) == []
  {
    hide FreeListStore.LoadBehind, FreeListStore.EncodeHeader, FreeListStore.EncodeExtents;
    SliceOfSlice(c, 0, 3584, 512, 544);
    SliceOfSlice(was, 0, 3584, 512, 544);
    NoExtents();
    BlockZero.LoadBehindIs(c[512..544], c[544..], []);
  }

  lemma NoExtents()
    ensures FreeListStore.EncodeExtents([]) == [] && FreeListStore.Encodable([])
  {
  }

  lemma SlotUsedIs(img: Image, dir: Directory, j: nat, p: nat)
    requires InodeOffset(dir, j) == Some(p)
    ensures SlotUsed(img, dir, j) <==> p + INODE_BYTES <= |img| && ReadInode(img[p..p + INODE_BYTES]).isUsed != 0
  {
    hide InodeOffset, ReadInode;
  }

  /** Writing a used inode to slot `i`. */
  lemma SlotFilled(was: Image, now: Image, dir: Directory, end: nat, i: nat, inode: Inode)
    requires Laid(dir, end) && i < Capacity(dir) && AllUsed(was, dir, i) && inode.isUsed != 0
    requires InodeOffset(dir, i).Some?
    requires Blank(now) == Overwrite(Blank(was), InodeOffset(dir, i).value, EncodeInode(inode))
    ensures AllUsed(now, dir, i + 1)
  {
    hide SlotUsed, Laid, Capacity, InodeOffset, EncodeInode, Blank, Overwrite;
    forall j | 0 <= j < i + 1 ensures SlotUsed(now, dir, j) {
      SlotStaysUsed(was, now, dir, end, i, inode, j);
    }
  }

  lemma SlotStaysUsed(was: Image, now: Image, dir: Directory, end: nat, i: nat, inode: Inode, j: nat)
    requires Laid(dir, end) && j <= i < Capacity(dir) && (j < i ==> SlotUsed(was, dir, j)) && inode.isUsed != 0
    requires InodeOffset(dir, i).Some?
    requires Blank(now) == Overwrite(Blank(was), InodeOffset(dir, i).value, EncodeInode(inode))
    ensures SlotUsed(now, dir, j)
  {
    hide *;
    SlotPlace(dir, end, i);
    SlotPlace(dir, end, j);
    SlotsDisjoint(dir, end, i, j);
    var o, p := InodeOffset(dir, i).value, InodeOffset(dir, j).value;
    SlotUsedIs(was, dir, j, p);
    SlotUsedIs(now, dir, j, p);
    if j == i {
      WrittenSlotReads(was, now, o, inode);
    } else {
      OtherSlotReads(was, now, o, EncodeInode(inode), p);
    }
  }

  lemma WrittenSlotReads(was: Image, now: Image, o: nat, inode: Inode)
    requires ClearOfJournal(o, INODE_BYTES) && Blank(now) == Overwrite(Blank(was), o, EncodeInode(inode))
    ensures o + INODE_BYTES <= |now| && ReadInode(now[o..o + INODE_BYTES]) == inode
  {
    var b := EncodeInode(inode);
    InodeRoundTrip(inode);
    hide EncodeInode, DecodeInode;
    assert |Blank(now)| == |now|;
    forall k | o <= k < o + INODE_BYTES ensures now[k] == b[k - o] {
      assert Blank(now)[k] == b[k - o];
    }
    assert now[o..o + INODE_BYTES] == b;
  }

  lemma OtherSlotReads(was: Image, now: Image, o: nat, b: seq<byte>, p: nat)
    requires Blank(now) == Overwrite(Blank(was), o, b) && ClearOfJournal(p, INODE_BYTES) && p + INODE_BYTES <= |was|
    requires p + INODE_BYTES <= o || o + |b| <= p
    ensures p + INODE_BYTES <= |now| && now[p..p + INODE_BYTES] == was[p..p + INODE_BYTES]
  {
    assert |Blank(now)| == |now|;
    forall k | p <= k < p + INODE_BYTES ensures now[k] == was[k] {
      assert At(Blank(was), k) == was[k];
      assert Blank(now)[k] == At(Blank(was), k);
    }
  }

  /** Nothing in front of the inode table moved, and the file did not shrink. */
  ghost predicate FrontKept(now: Image, was: Image) {
    INODE_TABLE_OFFSET <= |was| <= |now| && now[..INODE_TABLE_OFFSET] == was[..INODE_TABLE_OFFSET]
  }

  lemma FrontStays(base: Image, was: Image, now: Image, o: nat, b: seq<byte>)
    requires FrontKept(was, base) && INODE_TABLE_OFFSET <= o && Blank(now) == Overwrite(Blank(was), o, b)
    ensures FrontKept(now, base)
  {
    assert |Blank(now)| == |now|;
    forall i | 0 <= i < INODE_TABLE_OFFSET ensures now[i] == base[i] {
      assert At(Blank(was), i) == was[i] && was[i] == was[..INODE_TABLE_OFFSET][i];
      assert Blank(now)[i] == now[i];
    }
  }

  /** One more slot filled. */
  method FillSlot(dm: DiskManager, i: nat, inode: Inode, ghost base: Image)
    requires dm.LogInSpace() && dm.SpaceValid() && inode.isUsed != 0
    requires Capacity(dm.inodeTable.blockOffsets) == INODES_PER_BLOCK && i < INODES_PER_BLOCK
    requires dm.journal.nextSlot <= 495 && dm.journal.header.nextTxId < 0xFFFF_FFFF
    requires AllUsed(dm.file.bytes, dm.inodeTable.blockOffsets, i) && FrontKept(dm.file.bytes, base)
    modifies dm.file, dm.journal
    ensures dm.LogInSpace() && dm.journal.nextSlot <= 495
    ensures dm.journal.header.nextTxId <= old(dm.journal.header.nextTxId) + 1
    ensures AllUsed(dm.file.bytes, dm.inodeTable.blockOffsets, i + 1) && FrontKept(dm.file.bytes, base)
  {
    hide *;
    ghost var was, dir, end := dm.file.bytes, dm.inodeTable.blockOffsets, dm.superblock.nextDataOffset;
    SpaceParts(dm);
    SlotReady(dm, i);
    dm.SpaceIs();
    var ok; ghost var before, after;
    ok, before, after := dm.WriteInode(i, inode);
    dm.SpaceIs();
    SlotFilled(was, dm.file.bytes, dir, end, i, inode);
    FrontStays(base, was, dm.file.bytes, InodeOffset(dir, i).value, EncodeInode(inode));
  }

  lemma SlotReady(dm: DiskManager, i: nat)
    requires dm.LogInSpace() && dm.SpaceValid() && Capacity(dm.inodeTable.blockOffsets) == INODES_PER_BLOCK
    requires i < INODES_PER_BLOCK && dm.journal.nextSlot <= 495 && dm.journal.header.nextTxId < 0xFFFF_FFFF
    ensures dm.Mounted() && dm.TableLaid() && i < MAX_FILES && i < Capacity(dm.inodeTable.blockOffsets)
    ensures InodeOffset(dm.inodeTable.blockOffsets, i) == Some(dm.InodePlace(i))
            && INODE_TABLE_OFFSET <= dm.InodePlace(i)
    ensures dm.journal.nextSlot + 2 <= JOURNAL_SLOTS && AfterCheckpoint(dm.journal.nextSlot + 2) <= 495
    ensures NextId(dm.journal.header.nextTxId) == dm.journal.header.nextTxId + 1
  {
    SlotPlace(dm.inodeTable.blockOffsets, dm.superblock.nextDataOffset, i);
    hide ToReplay, Recovered, Blank, Log;
  }

  lemma StartsEmpty(dm: DiskManager)
    requires dm.Mounted() && dm.journal.nextSlot == 0
    ensures dm.journal.nextSlot <= 495 && 1 + INODES_PER_BLOCK < 0x1_0000
    ensures AllUsed(dm.file.bytes, dm.inodeTable.blockOffsets, 0) && FrontKept(dm.file.bytes, dm.file.bytes)
  {
  }

  lemma TableFull(dm: DiskManager, base: Image)
    requires Sound(base, dm.superblock, dm.inodeTable.blockOffsets) && FrontKept(dm.file.bytes, base)
    requires InFile(base, dm.inodeTable.blockOffsets) && Capacity(dm.inodeTable.blockOffsets) == INODES_PER_BLOCK
    requires dm.superblock.nextDataOffset == DATA_OFFSET
    ensures InFile(dm.file.bytes, dm.inodeTable.blockOffsets)
    ensures BlockZero.LoadSuperblock(dm.file.bytes) == Some(dm.superblock) && dm.superblock.magic == MAGIC
    ensures BlockCount(dm.inodeTable.blockOffsets) < MAX_INODE_BLOCKS
    ensures dm.superblock.nextDataOffset + INODE_BLOCK_SIZE < 0x1_0000_0000
  {
    hide BlockZero.LoadSuperblock, LoadDirectory, Laid, Reusable, LogInPlace;
    SameBlockZero(dm.file.bytes, base);
  }

  lemma OnlyEmptyFits(c: Image, full: Image, base: Image, size: nat)
    requires FreeListStore.SaysEmpty(base) && FrontKept(full, base)
    requires 3584 <= |c| && 3584 <= |full| && c[..3584] == full[..3584]
    ensures BestFit(FreeListStore.LoadFreeList(c), size).None?
  {
    hide FreeListStore.SaysEmpty, FreeListStore.LoadFreeList, BestFit;
    assert full[..3584] == full[..INODE_TABLE_OFFSET][..3584] && base[..3584] == base[..INODE_TABLE_OFFSET][..3584];
    OnlyEmptyLoads(c, base);
  }

  lemma AddedIsThere(was: iset<Image>, now: iset<Image>, left: iset<Image>, c: Image)
    requires Adds(was, now, left) && c in left
    ensures c in now
  {
  }

  /** The same from scratch: on a new disk all 1024 slots are taken, the 1025th inode appends a block, and the crash
      comes between the two writes. The block and the next file share a byte. */
  method NewBlockShared(file: File, totalBlocks: u64, now: u64, inode: Inode, size: nat)
    returns (reopened: DiskManager, off: u64, ghost c: Image)
    requires inode.isUsed != 0 && 0 < size < 0x1_0000_0000
    modifies file
    ensures c in file.crashes
    ensures reopened.live == [Extent(off, size)] && InBlock(reopened.inodeTable.blockOffsets, off)
  {
    hide *;
    var dm := NewDisk(file, totalBlocks, now);
    ghost var base, dir := file.bytes, dm.inodeTable.blockOffsets;
    StartsEmpty(dm);
    for i := 0 to INODES_PER_BLOCK
      modifies file, dm.journal
      invariant dm.LogInSpace() && dm.SpaceValid() && dm.journal.nextSlot <= 495
      invariant dm.journal.header.nextTxId <= 1 + i
      invariant AllUsed(file.bytes, dir, i) && FrontKept(file.bytes, base)
    {
      FillSlot(dm, i, inode, base);
    }
    SoundStart(base, dm.superblock, dir);
    TableFull(dm, base);
    ghost var full, seen := file.bytes, file.crashes;
    ghost var left;
    reopened, off, c, left := InodeBlockHandedOut(dm, size);
    OnlyEmptyFits(c, full, base, size);
    AddedIsThere(seen, file.crashes, left, c);
  }
}
