/** Space across mounts: `alloc_data` moves the end of the data region in memory only, so what a mount may hand out
    depends on when the superblock was last flushed. */
module SpaceRuns {
  import opened Bytes
  import Checksum
  import opened DiskImage
  import opened DiskCodec
  import opened JournalCodec
  import opened JournalLog
  import opened Storage
  import opened Journal
  import opened Atomicity
  import opened InodeTable
  import opened FreeList
  import opened Space
  import opened DiskManager
  import opened CrashRuns
  import FreeListStore
  import BlockZero

  function Longest(es: seq<Extent>): (n: nat)
    ensures forall e :: e in es ==> e.length <= n
  {
    if es == [] then 0
    else
      assert es == es[..|es| - 1] + [es[|es| - 1]];
      Max(es[|es| - 1].length, Longest(es[..|es| - 1]))
  }

  // ----- which extents the allocations after a mount may reach -----

  /** The extents that allocations of sizes `ns`, one after the other, get. */
  function HandedOut(free: seq<Extent>, end: nat, ns: seq<nat>): seq<Extent>
    decreases |ns|
  {
    if ns == [] then []
    else [NextExtent(free, end, ns[0])] + HandedOut(FreeAfter(free, ns[0]), EndAfter(free, end, ns[0]), ns[1..])
  }

  /** A run of allocations as the disk manager makes them. */
  method AllocRun(dm: DiskManager, ns: seq<nat>)
    requires dm.SpaceValid()
    requires InRange(dm.freeList.extents, dm.superblock.nextDataOffset, ns)
    modifies dm, dm.freeList, dm.inodeTable
    ensures dm.SpaceValid()
    ensures dm.live == old(dm.live) + HandedOut(old(dm.freeList.extents), old(dm.superblock.nextDataOffset), ns)
  {
    hide *;
    ghost var free, end := dm.freeList.extents, dm.superblock.nextDataOffset;
    assert ns[0..] == ns;
    for i := 0 to |ns|
      invariant dm.SpaceValid() && InRange(dm.freeList.extents, dm.superblock.nextDataOffset, ns[i..])
      invariant dm.live + HandedOut(dm.freeList.extents, dm.superblock.nextDataOffset, ns[i..])
                == old(dm.live) + HandedOut(free, end, ns)
    {
      ghost var was, f, e := dm.live, dm.freeList.extents, dm.superblock.nextDataOffset;
      RunNext(f, e, ns, i);
      SpaceLaid(dm);
      var offset := dm.AllocData(ns[i]);
      assert was + ([Extent(offset, ns[i])] + HandedOut(FreeAfter(f, ns[i]), EndAfter(f, e, ns[i]), ns[i + 1..]))
             == (was + [Extent(offset, ns[i])]) + HandedOut(FreeAfter(f, ns[i]), EndAfter(f, e, ns[i]), ns[i + 1..]);
    }
    RunDone(dm.freeList.extents, dm.superblock.nextDataOffset, ns);
  }

  /** No allocation of the run passes the last 64-bit offset. */
  ghost predicate InRange(free: seq<Extent>, end: nat, ns: seq<nat>)
    decreases |ns|
  {
    ns != [] ==> EndAfter(free, end, ns[0]) < 0x1_0000_0000_0000_0000
                 && InRange(FreeAfter(free, ns[0]), EndAfter(free, end, ns[0]), ns[1..])
  }

  lemma RunNext(free: seq<Extent>, end: nat, ns: seq<nat>, i: nat)
    requires i < |ns| && InRange(free, end, ns[i..])
    ensures EndAfter(free, end, ns[i]) < 0x1_0000_0000_0000_0000
    ensures InRange(FreeAfter(free, ns[i]), EndAfter(free, end, ns[i]), ns[i + 1..])
    ensures HandedOut(free, end, ns[i..]) == [NextExtent(free, end, ns[i])]
                                             + HandedOut(FreeAfter(free, ns[i]), EndAfter(free, end, ns[i]),
                                                 ns[i + 1..])
  {
    hide NextExtent, FreeAfter, EndAfter;
    assert ns[i..][0] == ns[i] && ns[i..][1..] == ns[i + 1..];
  }

  lemma RunDone(free: seq<Extent>, end: nat, ns: seq<nat>)
    ensures HandedOut(free, end, ns[|ns|..]) == []
  {
  }

  ghost predicate EndBy(free: seq<Extent>, lo: nat) {
    forall f :: f in free ==> f.End() <= lo
  }

  /** Over any run, whatever is handed out behind the end the run began with starts at a multiple of 512: only the very
      first extent taken from the end may start elsewhere. */
  lemma {:induction false} RunAligned(free: seq<Extent>, end: nat, ns: seq<nat>, lo: nat)
    requires EndBy(free, lo) && lo <= end
    ensures forall c :: c in HandedOut(free, end, ns) ==> c.offset <= lo || c.offset == end || c.offset % 512 == 0
    decreases |ns|
  {
    if ns != [] {
      var n := ns[0];
      OneAligned(free, end, n, lo);
      hide NextExtent, FreeAfter, EndAfter, EndBy;
      RunAligned(FreeAfter(free, n), EndAfter(free, end, n), ns[1..], lo);
    }
  }

  lemma OneAligned(free: seq<Extent>, end: nat, n: nat, lo: nat)
    requires EndBy(free, lo) && lo <= end
    ensures EndBy(FreeAfter(free, n), lo) && end <= EndAfter(free, end, n)
    ensures EndAfter(free, end, n) == end || EndAfter(free, end, n) % 512 == 0
    ensures NextExtent(free, end, n).offset <= lo || NextExtent(free, end, n).offset == end
  {
    AlignedUpIs(end + n);
    hide AlignedUp;
    if BestFit(free, n).Some? {
      var i := BestFit(free, n).value;
      assert free[i] in free;
      forall f | f in FreeAfter(free, n) ensures f.End() <= lo {
        assert f in free || f.End() == free[i].End();
      }
    }
  }

  /** No allocation of the run shares a byte with `e`. */
  ghost predicate KeptClear(e: Extent, free: seq<Extent>, end: nat, ns: seq<nat>) {
    forall c :: c in HandedOut(free, end, ns) ==> NoSharedByte(e, c)
  }

  /** Below the end of the region, and not a byte of it on the free list. */
  ghost predicate OutOfReach(e: Extent, free: seq<Extent>, end: nat) {
    e.End() <= end && forall b :: Inside(e, b) ==> !InSome(free, b)
  }

  /** Whatever is allocated after a mount keeps clear of an extent exactly when the extent is empty, or ends by
      next_data_offset and has no byte on the free list. */
  lemma ClearExactly(e: Extent, free: seq<Extent>, end: nat)
    ensures (forall ns :: KeptClear(e, free, end, ns)) <==> e.length == 0 || OutOfReach(e, free, end)
  {
    if OutOfReach(e, free, end) {
      forall ns ensures KeptClear(e, free, end, ns) {
        StaysOutOfReach(e, free, end, ns);
      }
    } else if e.length > 0 {
      var ns := ReachedBy(e, free, end);
      assert !KeptClear(e, free, end, ns);
    } else {
      assert forall c :: NoSharedByte(e, c);
    }
  }

  lemma {:induction false} StaysOutOfReach(e: Extent, free: seq<Extent>, end: nat, ns: seq<nat>)
    requires OutOfReach(e, free, end)
    ensures KeptClear(e, free, end, ns)
    decreases |ns|
  {
    if ns != [] {
      OneTaken(free, end, ns[0]);
      hide NextExtent, FreeAfter, EndAfter;
      StaysOutOfReach(e, FreeAfter(free, ns[0]), EndAfter(free, end, ns[0]), ns[1..]);
    }
  }

  /** An allocation takes free bytes or bytes behind the end; no byte becomes free, and the end only moves on. */
  lemma OneTaken(free: seq<Extent>, end: nat, n: nat)
    ensures forall b :: Inside(NextExtent(free, end, n), b) ==> InSome(free, b) || end <= b
    ensures forall b :: InSome(FreeAfter(free, n), b) ==> InSome(free, b)
    ensures end <= EndAfter(free, end, n)
  {
    match BestFit(free, n)
    case None =>
    case Some(i) =>
      assert free[i] in free;
      forall b | InSome(FreeAfter(free, n), b) ensures InSome(free, b) {
        var e :| e in FreeAfter(free, n) && Inside(e, b);
        assert e in free || Inside(free[i], b);
      }
  }

  /** Otherwise some run takes a byte of it: asking for the length of the free extent over and over hands that very
      extent out, and a request too long for the list is met at the end of the region. */
  lemma ReachedBy(e: Extent, free: seq<Extent>, end: nat) returns (ns: seq<nat>)
    requires e.length > 0 && !OutOfReach(e, free, end)
    ensures exists c :: c in HandedOut(free, end, ns) && !NoSharedByte(e, c)
  {
    if e.End() > end {
      var n := Longest(free) + 1 + e.End();
      ns := [n];
      var c := Extent(end, n);
      assert HandedOut(free, end, ns)[0] == c;
      assert Inside(e, e.End() - 1) && Inside(c, e.End() - 1);
      assert c in HandedOut(free, end, ns) && !NoSharedByte(e, c);
    } else {
      var b :| Inside(e, b) && InSome(free, b);
      var f :| f in free && Inside(f, b);
      ns := TakenAtLast(f, free, end);
      assert f in HandedOut(free, end, ns) && !NoSharedByte(e, f);
    }
  }

  /** Requests of exactly its length get to any extent of the list, those of the same length in front of it first. */
  lemma {:induction false} TakenAtLast(f: Extent, free: seq<Extent>, end: nat) returns (ns: seq<nat>)
    requires f in free
    ensures f in HandedOut(free, end, ns)
    decreases |free|
  {
    var n := f.length;
    var i := BestFit(free, n).value;
    assert free[i].length == n;
    assert NextExtent(free, end, n) == free[i];
    if free[i] == f {
      ns := [n];
      assert HandedOut(free, end, ns)[0] == f;
    } else {
      var rest := FreeAfter(free, n);
      assert rest == free[..i] + free[i + 1..];
      assert f in rest;
      var more := TakenAtLast(f, rest, EndAfter(free, end, n));
      ns := [n] + more;
      assert ns[1..] == more;
    }
  }

  lemma SameFreeList(a: Image, b: Image)
    requires INODE_TABLE_OFFSET <= |a| && INODE_TABLE_OFFSET <= |b|
             && a[..INODE_TABLE_OFFSET] == b[..INODE_TABLE_OFFSET]
    ensures FreeListStore.LoadFreeList(a) == FreeListStore.LoadFreeList(b)
  {
    SliceFromBlock(a, b, 512, 544);
    forall n: nat | n <= 3200 ensures a[544..][..n] == b[544..][..n] {
      SliceFromBlock(a, b, 544, 544 + n);
      assert a[544..][..n] == a[544..544 + n] && b[544..][..n] == b[544..544 + n];
    }
    SameBehind(a[512..544], a[544..], b[544..]);
  }

  lemma SliceFromBlock(a: Image, b: Image, i: nat, j: nat)
    requires INODE_TABLE_OFFSET <= |a| && INODE_TABLE_OFFSET <= |b|
             && a[..INODE_TABLE_OFFSET] == b[..INODE_TABLE_OFFSET]
    requires i <= j <= INODE_TABLE_OFFSET
    ensures a[i..j] == b[i..j]
  {
    SliceOfSlice(a, 0, INODE_TABLE_OFFSET, i, j);
    SliceOfSlice(b, 0, INODE_TABLE_OFFSET, i, j);
  }

  lemma SameBehind(hdr: seq<byte>, a: seq<byte>, b: seq<byte>)
    requires |hdr| == 32 && 3200 <= |a| && 3200 <= |b| && forall n: nat :: n <= 3200 ==> a[..n] == b[..n]
    ensures FreeListStore.LoadBehind(hdr, a) == FreeListStore.LoadBehind(hdr, b)
  {
    hide LeToU32, LeToU64, FromLe, FreeListStore.DecodeExtents;
  }

  /** An image with the block 0 of a flush with at most 190 free extents: whoever mounts it may take over the extents
      that were live then, and allocates clear of them. */
  lemma FlushedSpace(was: Image, img: Image, sb: Superblock, free: seq<Extent>, dir: Directory, live: seq<Extent>)
    requires Partitioned(live, dir, free, sb.nextDataOffset) && |free| <= 190 && INODE_TABLE_OFFSET <= |was|
    requires FreeListStore.Encodable(free) && INODE_TABLE_OFFSET <= |img|
    requires INODE_TABLE_OFFSET <= |BlockZero.Flushed(was, sb, free, dir)|
    requires img[..INODE_TABLE_OFFSET] == BlockZero.Flushed(was, sb, free, dir)[..INODE_TABLE_OFFSET]
    ensures BlockZero.LoadSuperblock(img) == Some(sb) && LoadDirectory(img) == Some(dir)
    ensures FreeListStore.LoadFreeList(img) == free
  {
    PartitionedLaid(live, dir, free, sb.nextDataOffset);
    BlockZero.SuperblockComesBack(was, sb, free, dir);
    hide BlockZero.Flushed, BlockZero.LoadSuperblock, LoadDirectory, FreeListStore.LoadFreeList,
         FreeListStore.Encodable, Partitioned;
    BlockZero.DirectoryComesBack(was, sb, free, dir);
    BlockZero.FreeListComesBack(was, sb, free, dir);
    SameBlockZero(img, BlockZero.Flushed(was, sb, free, dir));
    SameFreeList(img, BlockZero.Flushed(was, sb, free, dir));
  }

  /** Any crash image of a session that began with such a block 0 has it too. */
  lemma CrashedSpace(was: Image, base: Image, c: Image, ops: seq<Op>, oks: seq<bool>, sb: Superblock, free: seq<Extent>,
                     dir: Directory, live: seq<Extent>)
    requires Partitioned(live, dir, free, sb.nextDataOffset) && |free| <= 190 && INODE_TABLE_OFFSET <= |was|
    requires FreeListStore.Encodable(free) && base == BlockZero.Flushed(was, sb, free, dir)
    requires LogInPlace(base) && LogInPlace(c) && AllOpsFit(ops, oks, dir)
             && ShowsPrefix(c, Recovered(base), ops, oks, dir)
    ensures Partitioned(live, dir, FreeListStore.LoadFreeList(c), sb.nextDataOffset)
    ensures BlockZero.LoadSuperblock(c) == Some(sb) && LoadDirectory(c) == Some(dir)
  {
    LogSize(base);
    LogSize(c);
    hide *;
    PrefixBlockZero(c, base, ops, oks, dir);
    FlushedSpace(was, c, sb, free, dir, live);
  }

  lemma LogSize(img: Image)
    requires LogInPlace(img)
    ensures INODE_TABLE_OFFSET <= |img|
  {
  }

  /** Mounts an image and takes over the extents that were live at its last flush: space is sound again. */
  method Remount(file: File, ghost sb: Superblock, ghost dir: Directory, ghost live: seq<Extent>)
    returns (dm: DiskManager)
    requires Sound(file.bytes, sb, dir)
    requires Partitioned(live, dir, FreeListStore.LoadFreeList(file.bytes), sb.nextDataOffset)
    modifies file
    ensures fresh(dm) && fresh(dm.journal) && fresh(dm.freeList) && fresh(dm.inodeTable)
    ensures dm.file == file && dm.superblock == sb && dm.inodeTable.blockOffsets == dir
    ensures dm.Mounted() && dm.SpaceValid() && dm.live == live
    ensures dm.freeList.extents == FreeListStore.LoadFreeList(old(file.bytes))
    ensures Blank(file.bytes) == Recovered(old(file.bytes))
  {
    hide *;
    ghost var base := file.bytes;
    SoundStart(base, sb, dir);
    ghost var left;
    dm, left := DiskManager.Open(file);
    DirectoryMounted(base, file.bytes);
    FreeListMounted(base, file.bytes);
    dm.Adopt(live);
  }

  lemma FreeListMounted(img: Image, mounted: Image)
    requires LogInPlace(img) && Blank(mounted) == Recovered(img)
    ensures FreeListStore.LoadFreeList(mounted) == FreeListStore.LoadFreeList(img)
  {
    RecoveredBlockZero(img);
    BlankBlockZero(mounted);
    hide Recovered, Blank, LogInPlace, FreeListStore.LoadFreeList;
    SameFreeList(mounted, img);
  }

  /** The free list a crash image holds is the one its session began with. */
  lemma SameFreeSpace(c: Image, base: Image, ops: seq<Op>, oks: seq<bool>, sb: Superblock, dir: Directory)
    requires Sound(base, sb, dir) && Sound(c, sb, dir) && AllOpsFit(ops, oks, dir)
    requires ShowsPrefix(c, Recovered(base), ops, oks, dir)
    ensures FreeListStore.LoadFreeList(c) == FreeListStore.LoadFreeList(base)
  {
    hide *;
    SoundStart(base, sb, dir);
    SoundStart(c, sb, dir);
    LogSize(base);
    LogSize(c);
    PrefixBlockZero(c, base, ops, oks, dir);
    SameFreeList(c, base);
  }

  lemma EmptySpace(dir: Directory, end: nat)
    requires Laid(dir, end)
    ensures Partitioned([], dir, [], end)
  {
    hide Laid;
  }

  /** Two operations on an empty log that both fit. */
  lemma BothFit(off: u64, data: seq<byte>, inode: Inode, dir: Directory)
    requires ChunksNeeded(|data|) <= 16 && Capacity(dir) == INODES_PER_BLOCK
    ensures Outcomes([DataOp(off, data), InodeOp(0, inode)], 0, dir) == [true, true]
  {
    hide Capacity, ChunksNeeded;
    var ops := [DataOp(off, data), InodeOp(0, inode)];
    RunKeepsRoom(ops, 0, dir);
    assert AlwaysFits(ops[0], dir) && AlwaysFits(ops[1], dir);
  }

  lemma BothKept(off: u64, data: seq<byte>, inode: Inode, dir: Directory, view: Image)
    requires InodeOffset(dir, 0) == Some(INODE_TABLE_OFFSET)
    ensures Fold(Kept([DataOp(off, data), InodeOp(0, inode)], [true, true], dir), view)
            == Overwrite(Overwrite(view, off, data), INODE_TABLE_OFFSET, EncodeInode(inode))
  {
    hide Overwrite, EncodeInode, InodeOffset;
    var d, i := DataOp(off, data), InodeOp(0, inode);
    KeptNext([], [], dir, d, true);
    assert [] + [d] == [d] && [] + [true] == [true];
    KeptNext([d], [true], dir, i, true);
    assert [d] + [i] == [d, i] && [true] + [true] == [true, true];
    FoldNext([], Effect(d, dir), view);
    FoldNext([Effect(d, dir)], Effect(i, dir), view);
    assert [] + [Effect(d, dir)] == [Effect(d, dir)];
  }

  /** The inode in slot 0 reads back once a mount shows it written. */
  lemma InodeWritten(view: Image, img: Image, dir: Directory, inode: Inode)
    requires InodeOffset(dir, 0) == Some(INODE_TABLE_OFFSET)
    requires Blank(img) == Overwrite(view, INODE_TABLE_OFFSET, EncodeInode(inode))
    ensures InodeAt(img, dir, 0) == inode
  {
    var b := EncodeInode(inode);
    InodeRoundTrip(inode);
    hide EncodeInode, DecodeInode, InodeOffset;
    var slot := img[INODE_TABLE_OFFSET..INODE_TABLE_OFFSET + INODE_BYTES];
    forall k | 0 <= k < INODE_BYTES ensures slot[k] == b[k] {
      assert Blank(img)[INODE_TABLE_OFFSET + k] == b[k];
    }
    assert slot == b;
  }

  lemma FirstSlot(dir: Directory, end: nat)
    requires Laid(dir, end) && Capacity(dir) == INODES_PER_BLOCK
    ensures InodeOffset(dir, 0) == Some(INODE_TABLE_OFFSET)
  {
    SlotPlace(dir, end, 0);
  }

  lemma BothAdmissible(off: u64, data: seq<byte>, inode: Inode)
    requires off == DATA_OFFSET && |data| <= 16 * PAYLOAD_SIZE
    ensures off + |data| + 511 < 0x1_0000_0000_0000_0000
    ensures Admissible(DataOp(off, data)) && Admissible(InodeOp(0, inode)) && ChunksNeeded(|data|) <= 16
  {
  }

  lemma SpaceLaid(dm: DiskManager)
    requires dm.SpaceValid()
    ensures FreeListStore.Encodable(dm.freeList.extents)
    ensures dm.TableLaid() && Laid(dm.inodeTable.blockOffsets, dm.superblock.nextDataOffset)
  {
    hide FreeListStore.Encodable, Laid;
    PartitionedLaid(dm.live, dm.inodeTable.blockOffsets, dm.freeList.extents, dm.superblock.nextDataOffset);
    PartitionedEncodable(dm.live, dm.inodeTable.blockOffsets, dm.freeList.extents, dm.superblock.nextDataOffset);
  }

  lemma NothingFits(end: nat, n: nat)
    ensures NextExtent([], end, n) == Extent(end, n) && FreeAfter([], n) == []
    ensures end + n <= EndAfter([], end, n) <= end + n + 511
  {
  }

  /** From a mounted disk whose image was last flushed with `sb`: a file's data and its inode are journaled, the machine
      crashes before the next flush, and the image is mounted. */
  method CrashBeforeFlush(first: DiskManager, off: u64, data: seq<byte>, named: Inode, ghost sb: Superblock,
                          ghost dir: Directory)
    returns (dm: DiskManager)
    requires first.Mounted() && first.TableLaid() && first.inodeTable.blockOffsets == dir
    requires first.journal.nextSlot == 0 && first.journal.header.nextTxId == 1
    requires Sound(first.file.bytes, sb, dir) && Capacity(dir) == INODES_PER_BLOCK
    requires Partitioned([], dir, FreeListStore.LoadFreeList(first.file.bytes), sb.nextDataOffset)
    requires off == DATA_OFFSET && |data| <= 16 * PAYLOAD_SIZE
    modifies first.file, first.journal
    ensures fresh(dm) && fresh(dm.journal) && fresh(dm.freeList) && fresh(dm.inodeTable)
    ensures dm.file == first.file && InodeAt(dm.file.bytes, dir, 0) == named
    ensures dm.Mounted() && dm.SpaceValid() && dm.live == []
    ensures dm.superblock == sb && dm.inodeTable.blockOffsets == dir
    ensures dm.freeList.extents == FreeListStore.LoadFreeList(old(first.file.bytes))
  {
    hide *;
    ghost var base, ops := first.file.bytes, [DataOp(off, data), InodeOp(0, named)];
    SoundStart(base, sb, dir);
    MountedShows(first);
    BothAdmissible(off, data, named);
    var oks; ghost var left;
    oks, left := RunSession(first, [DataOp(off, data), InodeOp(0, named)]);
    BothFit(off, data, named, dir);
    FirstSlot(dir, sb.nextDataOffset);
    BothKept(off, data, named, dir, Recovered(base));
    MountedLog(first);
    MountedShows(first);
    WholeSession(first.file.bytes, Recovered(base), ops, oks, dir);
    CrashSound(first.file.bytes, base, ops, oks, sb, dir);
    SameFreeSpace(first.file.bytes, base, ops, oks, sb, dir);
    dm := Remount(first.file, sb, dir, []);
    InodeWritten(Overwrite(Recovered(base), off, data), dm.file.bytes, dir, named);
  }

  /** The run: space for a file is taken at the end of the region, its data and its inode are journaled, and the machine
      crashes before the superblock is flushed. The next mount shows the inode, and hands its extent out again. */
  method HandedOutAgain(file: File, totalBlocks: u64, now: u64, data: seq<byte>, inode: Inode)
    returns (off: u64, dm: DiskManager, again: u64)
    requires data != [] && |data| <= 16 * PAYLOAD_SIZE
    modifies file
    ensures dm.file == file
    ensures InodeAt(file.bytes, dm.inodeTable.blockOffsets, 0) == inode.(dataOffset := off, size := |data|)
    ensures dm.Mounted() && dm.SpaceValid() && dm.live == [Extent(again, |data|)] && again == off
  {
    hide *;
    var first := NewDisk(file, totalBlocks, now);
    ghost var sb, dir := first.superblock, first.inodeTable.blockOffsets;
    SpaceLaid(first);
    EmptySpace(dir, sb.nextDataOffset);
    NothingFits(sb.nextDataOffset, |data|);
    BothAdmissible(sb.nextDataOffset, data, inode);
    off := first.AllocData(|data|);
    SpaceLaid(first);
    dm := CrashBeforeFlush(first, off, data, inode.(dataOffset := off, size := |data|), sb, dir);
    SpaceLaid(dm);
    again := dm.AllocData(|data|);
  }

  /** The same through the free list: an extent is taken, given back and flushed as free, then taken again for a file
      whose data and inode are journaled; the crash comes before the next flush. The free list in block 0 still holds
      the extent, which ends below next_data_offset there, and the next mount hands it out again. */
  method HandedOutFromStaleList(file: File, totalBlocks: u64, now: u64, data: seq<byte>, inode: Inode)
    returns (off: u64, dm: DiskManager, again: u64)
    requires data != [] && |data| <= 16 * PAYLOAD_SIZE
    modifies file
    ensures dm.file == file
    ensures InodeAt(file.bytes, dm.inodeTable.blockOffsets, 0) == inode.(dataOffset := off, size := |data|)
    ensures dm.Mounted() && dm.SpaceValid() && dm.live == [Extent(again, |data|)] && again == off
    ensures off + |data| <= dm.superblock.nextDataOffset
  {
    hide *;
    var first := NewDisk(file, totalBlocks, now);
    ghost var dir, next := first.inodeTable.blockOffsets, first.superblock.nextDataOffset;
    SoundStart(file.bytes, first.superblock, dir);
    NothingFits(next, |data|);
    BothAdmissible(next, data, inode);
    SpaceLaid(first);
    off := first.AllocData(|data|);
    TakesOne(Extent(off, |data|));
    first.FreeData(off, |data|);
    OnlyFreed(first, off, |data|);
    ghost var was := file.bytes;
    MountedSizeOf(first);
    ghost var left := first.Flush();
    FlushedSound(first, was);
    ghost var sb := first.superblock;
    OnlyFreedLoads(first, was);
    OneFits(Extent(off, |data|), sb.nextDataOffset);
    SpaceLaid(first);
    off := first.AllocData(|data|);
    SpaceLaid(first);
    dm := CrashBeforeFlush(first, off, data, inode.(dataOffset := off, size := |data|), sb, dir);
    SpaceLaid(dm);
    again := dm.AllocData(|data|);
  }

  lemma TakesOne(e: Extent)
    ensures e.offset == DATA_OFFSET && e.length > 0 ==> ListTakes([], e.offset, e.length)
    ensures [] + [e] == [e] && Without([e], e) == []
  {
  }

  lemma OnlyFreed(dm: DiskManager, off: nat, n: nat)
    requires dm.SpaceValid() && Separated(dm.freeList.extents) && n > 0
    requires forall b :: InSome(dm.freeList.extents, b) <==> InSome([], b) || Inside(Extent(off, n), b)
    ensures dm.freeList.extents == [Extent(off, n)]
  {
    hide Laid;
    assert forall b :: InSome([Extent(off, n)], b) <==> Inside(Extent(off, n), b) by {
      assert Extent(off, n) in [Extent(off, n)];
    }
    MergedFormUnique(dm.freeList.extents, [Extent(off, n)]);
  }

  lemma OnlyFreedLoads(dm: DiskManager, was: Image)
    requires dm.Mounted() && dm.SpaceValid() && BlockZero.BLOCK_SIZE <= |was| && |dm.freeList.extents| == 1
    requires FreeListStore.Encodable(dm.freeList.extents)
    requires dm.file.bytes == BlockZero.Flushed(was, dm.superblock, dm.freeList.extents, dm.inodeTable.blockOffsets)
    ensures FreeListStore.LoadFreeList(dm.file.bytes) == dm.freeList.extents
    ensures dm.live == [] ==>
            Partitioned([], dm.inodeTable.blockOffsets, dm.freeList.extents, dm.superblock.nextDataOffset)
  {
    PartitionedLaid(dm.live, dm.inodeTable.blockOffsets, dm.freeList.extents, dm.superblock.nextDataOffset);
    hide BlockZero.Flushed, FreeListStore.LoadFreeList, FreeListStore.Encodable, DiskManager.Mounted;
    BlockZero.FreeListComesBack(was, dm.superblock, dm.freeList.extents, dm.inodeTable.blockOffsets);
  }

  lemma OneFits(e: Extent, end: nat)
    ensures NextExtent([e], end, e.length) == e && EndAfter([e], end, e.length) == end && FreeAfter([e], e.length) == []
    ensures e.offset < 0x1_0000_0000_0000_0000 && e.length < 0x1_0000_0000_0000_0000 ==> FreeListStore.Encodable([e])
    ensures FreeListStore.Encodable([])
  {
    assert e in [e];
  }

  // ----- a format and what it leaves -----

  /** A list whose magic number is zero reads as empty, and nothing of it is changed by a format. */
  lemma FormattedList(was: Image, img: Image, sb: Superblock, dir: Directory)
    requires FormattedImage(was, img, sb, dir)
    ensures (forall i :: 512 <= i < 520 ==> At(was, i) == 0) ==> FreeListStore.LoadFreeList(img) == []
  {
    hide BlockZero.LoadSuperblock, LoadDirectory, Checksum.Crc32, FreeListStore.DecodeExtents;
    if forall i :: 512 <= i < 520 ==> At(was, i) == 0 {
      var m := img[512..544][0..8];
      assert m == Zeros(8) by {
        forall k | 0 <= k < 8 ensures m[k] == 0 {
          assert m[k] == img[512 + k] == At(was, 512 + k);
        }
      }
      ZeroIsZero(8);
    }
  }

  /** The list in block 0, whatever it says, does not reach the directory. */
  ghost predicate ListEndsBefore(img: Image) {
    3584 <= |img| && LeToU32(img[520..524]) <= 190
  }

  /** Such a list is still there when the image has been formatted. */
  lemma OldListKept(was: Image, img: Image, sb: Superblock, dir: Directory)
    requires FormattedImage(was, img, sb, dir)
    ensures ListEndsBefore(was) ==> FreeListStore.LoadFreeList(img) == FreeListStore.LoadFreeList(was)
  {
    hide BlockZero.LoadSuperblock, LoadDirectory, FromLe, LeToU32, LeToU64, FreeListStore.DecodeExtents, Checksum.Crc32;
    if ListEndsBefore(was) {
      forall i | 64 <= i < 3584 ensures img[i] == was[i] {
        assert At(was, i) == was[i];
      }
      assert img[512..544] == was[512..544];
      assert was[512..544][8..12] == was[520..524];
      assert img[544..][..3040] == was[544..][..3040];
      ListBehind(was[512..544], img[544..], was[544..]);
    }
  }

  lemma ListBehind(hdr: seq<byte>, a: seq<byte>, b: seq<byte>)
    requires |hdr| == FreeListStore.FREE_LIST_HEADER && LeToU32(hdr[8..12]) <= 190
    requires 3040 <= |a| && 3040 <= |b| && a[..3040] == b[..3040]
    ensures FreeListStore.LoadBehind(hdr, a) == FreeListStore.LoadBehind(hdr, b)
  {
    hide FromLe, LeToU32, LeToU64, FreeListStore.DecodeExtents, Checksum.Crc32;
    FrontSlices(a, b, 3040);
  }

  lemma {:induction false} ZeroIsZero(n: nat)
    ensures FromLe(Zeros(n)) == 0
  {
    if n > 0 {
      ZeroIsZero(n - 1);
      assert Zeros(n)[1..] == Zeros(n - 1);
    }
  }

  /** At the end of the data region of a new disk nothing can be free. */
  lemma NewRegionIsFull(dir: Directory, free: seq<Extent>, end: nat)
    requires Laid(dir, end) && end == DATA_OFFSET
    ensures Partitioned([], dir, free, end) <==> free == []
  {
    if free != [] && free[0].length > 0 {
      assert free[0] in free && Inside(free[0], free[0].offset);
      assert InSome(free, free[0].offset);
    }
  }

  /** Format and then open: the disk that was formatted, mounted with an empty log. A format leaves the bytes of a free
      list alone, so the list is empty if the file held none, and space is sound exactly when it is empty. */
  method FormatAndOpen(file: File, totalBlocks: u64, now: u64) returns (dm: DiskManager)
    modifies file
    ensures fresh(dm) && fresh(dm.journal) && fresh(dm.inodeTable) && fresh(dm.freeList) && dm.file == file
    ensures dm.Mounted() && dm.journal.nextSlot == 0 && dm.live == []
    ensures dm.superblock == Superblock(0x5645_5846_5300_0001, 1, 4096, totalBlocks, totalBlocks, 0, 659520, now)
    ensures Capacity(dm.inodeTable.blockOffsets) == 1024
    ensures dm.freeList.extents == FreeListStore.LoadFreeList(file.bytes)
    ensures ListEndsBefore(old(file.bytes)) ==> dm.freeList.extents == FreeListStore.LoadFreeList(old(file.bytes))
    ensures (forall i :: 512 <= i < 520 ==> At(old(file.bytes), i) == 0) ==> dm.freeList.extents == []
    ensures dm.SpaceValid() <==> dm.freeList.extents == []
    ensures exists formatted: Image :: Blank(file.bytes) == Recovered(formatted)
              && FormattedImage(old(file.bytes), formatted, dm.superblock, dm.inodeTable.blockOffsets)
  {
    hide *;
    var formatted := new DiskManager.Format(file, totalBlocks, now);
    ghost var was, img, sb, dir := old(file.bytes), file.bytes, formatted.superblock, formatted.inodeTable.blockOffsets;
    FormattedSound(formatted, was);
    SoundStart(img, sb, dir);
    EmptyLog(formatted);
    var disk; ghost var left;
    disk, left := DiskManager.Open(file);
    dm := disk;
    DirectoryMounted(img, file.bytes);
    FreeListMounted(img, file.bytes);
    FormattedList(was, img, sb, dir);
    OldListKept(was, img, sb, dir);
    NewRegionIsFull(dir, dm.freeList.extents, sb.nextDataOffset);
    dm.SpaceIs();
  }

  lemma EmptyLog(dm: DiskManager)
    requires dm.Mounted() && dm.journal.nextSlot == 0
    ensures ToReplay(VisibleLog(dm.file.bytes)) == [] && VisibleLog(dm.file.bytes) == []
    ensures 659520 == DATA_OFFSET && INODES_PER_BLOCK == 1024
  {
    NothingToReplay();
    hide Recovered, Blank, ToReplay;
  }

  /** The run: an image whose free list holds an extent is formatted anew and mounted without a flush in between. The
      old list is still there, and two allocations in a row are answered with the same offset. */
  method ReformattedSharesSpace(file: File, totalBlocks: u64, now: u64, n: nat)
    returns (dm: DiskManager, first: u64, second: u64)
    requires 0 < n < 0x1_0000_0000
    modifies file
    ensures first == second && dm.live == [Extent(first, n), Extent(second, n)] && !dm.SpaceValid()
    ensures dm.file == file && dm.Mounted()
  {
    hide *;
    var disk := NewDisk(file, totalBlocks, now);
    RegionStart();
    NothingFits(disk.superblock.nextDataOffset, n);
    SpaceLaid(disk);
    first := disk.AllocData(n);
    TakesOne(Extent(first, n));
    disk.FreeData(first, n);
    OnlyFreed(disk, first, n);
    ghost var was := file.bytes;
    MountedSizeOf(disk);
    ghost var left := disk.Flush();
    OnlyFreedLoads(disk, was);
    OneExtentEnds(disk, was);
    dm := FormatAndOpen(file, totalBlocks, now);
    OneFits(Extent(first, n), dm.superblock.nextDataOffset);
    first := dm.AllocData(n);
    NothingFits(dm.superblock.nextDataOffset, n);
    second := dm.AllocData(n);
    TwiceIsUnsound(dm, Extent(first, n));
  }

  lemma RegionStart()
    ensures DATA_OFFSET == 659520
  {
  }

  lemma OneExtentEnds(dm: DiskManager, was: Image)
    requires dm.SpaceValid() && BlockZero.BLOCK_SIZE <= |was| && |dm.freeList.extents| == 1
    requires FreeListStore.Encodable(dm.freeList.extents)
    requires dm.file.bytes == BlockZero.Flushed(was, dm.superblock, dm.freeList.extents, dm.inodeTable.blockOffsets)
    ensures ListEndsBefore(dm.file.bytes)
  {
    hide *;
    var free, img := dm.freeList.extents, dm.file.bytes;
    dm.SpaceIs();
    PartitionedLaid(dm.live, dm.inodeTable.blockOffsets, free, dm.superblock.nextDataOffset);
    DirectorySize(dm.inodeTable.blockOffsets, dm.superblock.nextDataOffset);
    BlockZero.FlushedBytes(was, dm.superblock, free, dm.inodeTable.blockOffsets);
    assert free[..1] == free;
    CountOfOne(img, free);
  }

  lemma DirectorySize(dir: Directory, end: nat)
    requires Laid(dir, end)
    ensures |dir| == MAX_INODE_BLOCKS && Min(1, MAX_PERSISTED_EXTENTS) == 1 && 4096 <= BlockZero.BLOCK_SIZE
  {
  }

  lemma CountOfOne(img: Image, free: seq<Extent>)
    requires 4096 <= |img| && FreeListStore.Encodable(free)
    requires img[512..544] == FreeListStore.EncodeHeader(1, FreeListStore.EncodeExtents(free))
    ensures ListEndsBefore(img)
  {
    BlockZero.HeaderFields(1, FreeListStore.EncodeExtents(free));
    hide FreeListStore.EncodeHeader, FreeListStore.EncodeExtents, FreeListStore.CountField, LeToU32, FromLe,
      FreeListStore.Encodable;
    SliceOfSlice(img, 512, 544, 8, 12);
  }

  /** No partition lets two live extents have the same bytes. */
  lemma TwiceIsUnsound(dm: DiskManager, e: Extent)
    requires dm.live == [e, e] && e.length > 0
    ensures !dm.SpaceValid()
  {
    hide Laid;
    assert Inside(e, e.offset) && dm.live[0] == e && dm.live[1] == e;
  }
}
