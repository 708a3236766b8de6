/** The growable inode table (src/fs/inode_table.rs): a directory of up to 64 blocks of 1024 inode slots. */
module InodeTable {
  import opened Bytes
  import opened DiskImage
  import opened DiskCodec
  import opened Storage

  const INODE_TABLE_OFFSET: nat := 4096
  const INODES_PER_BLOCK: nat := 1024
  const MAX_INODE_BLOCKS: nat := 64
  const INODE_BLOCK_SIZE: nat := 262144
  const DIRECTORY_OFFSET: nat := 3584
  const DIRECTORY_BYTES: nat := 512

  type Directory = seq<u64>

  function BlockFor(index: nat): nat { index / INODES_PER_BLOCK }

  function SlotInBlock(index: nat): nat { index % INODES_PER_BLOCK }

  /** Where inode `index` lives; None when its block does not exist. */
  function InodeOffset(dir: Directory, index: nat): Option<nat> {
    var base := if BlockFor(index) < |dir| then dir[BlockFor(index)] else 0;
    if base == 0 then None else Some(base + SlotInBlock(index) * INODE_BYTES)
  }

  function BlockCount(dir: Directory): (n: nat)
    ensures n <= |dir|
  {
    if dir == [] then 0 else BlockCount(dir[..|dir| - 1]) + if dir[|dir| - 1] != 0 then 1 else 0
  }

  function Capacity(dir: Directory): nat {
    BlockCount(dir) * INODES_PER_BLOCK
  }

  /** The first `n` directory entries are in use, the others are zero. */
  ghost predicate NonzeroPrefix(dir: Directory, n: nat) {
    n <= |dir| && forall i :: 0 <= i < |dir| ==> (dir[i] != 0 <==> i < n)
  }

  lemma {:induction false} CountOfPrefix(dir: Directory, n: nat)
    requires NonzeroPrefix(dir, n)
    ensures BlockCount(dir) == n
  {
    if dir != [] {
      CountOfPrefix(dir[..|dir| - 1], if n == |dir| then n - 1 else n);
    }
  }

  /** The blocks keep clear of each other and of everything below the data region, and end by `end`. */
  ghost predicate Laid(dir: Directory, end: nat) {
    && |dir| == MAX_INODE_BLOCKS && dir[0] == INODE_TABLE_OFFSET && DATA_OFFSET <= end
    && NonzeroPrefix(dir, BlockCount(dir))
    && (forall i :: 1 <= i < BlockCount(dir) ==> DATA_OFFSET <= dir[i] && dir[i] + INODE_BLOCK_SIZE <= end)
    && (forall i, j :: 0 <= i < j < BlockCount(dir) ==>
          dir[i] + INODE_BLOCK_SIZE <= dir[j] || dir[j] + INODE_BLOCK_SIZE <= dir[i])
  }

  lemma FreshDirectory(end: nat)
    requires DATA_OFFSET <= end
    ensures Laid([INODE_TABLE_OFFSET] + seq(63, _ => 0), end)
    ensures BlockCount([INODE_TABLE_OFFSET] + seq(63, _ => 0)) == 1
  {
    var dir: Directory := [INODE_TABLE_OFFSET] + seq(63, _ => 0);
    CountOfPrefix(dir, 1);
  }

  /** Exactly the slots below the capacity are addressable, and no two share a byte. */
  lemma SlotsDisjoint(dir: Directory, end: nat, i: nat, j: nat)
    requires Laid(dir, end)
    ensures InodeOffset(dir, i).Some? <==> i < Capacity(dir)
    ensures i != j && i < Capacity(dir) && j < Capacity(dir) ==>
              var a, b := InodeOffset(dir, i).value, InodeOffset(dir, j).value;
              a + INODE_BYTES <= b || b + INODE_BYTES <= a
  {
    Addressable(dir, i);
    Addressable(dir, j);
    if i != j && i < Capacity(dir) && j < Capacity(dir) {
      if BlockFor(i) == BlockFor(j) {
        assert SlotInBlock(i) < SlotInBlock(j) || SlotInBlock(j) < SlotInBlock(i);
      } else if BlockFor(i) < BlockFor(j) {
        assert dir[BlockFor(i)] + INODE_BLOCK_SIZE <= dir[BlockFor(j)]
               || dir[BlockFor(j)] + INODE_BLOCK_SIZE <= dir[BlockFor(i)];
      } else {
        assert dir[BlockFor(j)] + INODE_BLOCK_SIZE <= dir[BlockFor(i)]
               || dir[BlockFor(i)] + INODE_BLOCK_SIZE <= dir[BlockFor(j)];
      }
    }
  }

  lemma Addressable(dir: Directory, i: nat)
    requires NonzeroPrefix(dir, BlockCount(dir))
    ensures InodeOffset(dir, i).Some? <==> i < Capacity(dir)
    ensures i < Capacity(dir) ==>
              && BlockFor(i) < BlockCount(dir) <= |dir|
              && dir[BlockFor(i)] <= InodeOffset(dir, i).value
              && InodeOffset(dir, i).value + INODE_BYTES <= dir[BlockFor(i)] + INODE_BLOCK_SIZE
  {
    assert i == BlockFor(i) * INODES_PER_BLOCK + SlotInBlock(i);
    assert i < Capacity(dir) <==> BlockFor(i) < BlockCount(dir);
  }

  /** An addressable slot keeps clear of block 0 of the disk and of the journal region. */
  lemma SlotPlace(dir: Directory, end: nat, i: nat)
    requires Laid(dir, end) && i < Capacity(dir)
    ensures InodeOffset(dir, i).Some?
    ensures var o := InodeOffset(dir, i).value;
            && INODE_TABLE_OFFSET <= o && o + INODE_BYTES <= end
            && ClearOfJournal(o, INODE_BYTES)
            && (i < 1024 ==> o == 4096 + i * 256)
            && (1024 <= i ==> DATA_OFFSET <= o && o == dir[i / 1024] + i % 1024 * 256)
  {
    Addressable(dir, i);
  }

  /** The inode a slot reads as; slots of missing blocks read as the empty inode. */
  function InodeAt(img: Image, dir: Directory, index: nat): Inode {
    match InodeOffset(dir, index)
    case None => EmptyInode()
    case Some(o) => if o + INODE_BYTES <= |img| then ReadInode(img[o..o + INODE_BYTES]) else EmptyInode()
  }

  ghost predicate SlotUsed(img: Image, dir: Directory, index: nat) {
    InodeAt(img, dir, index).isUsed != 0
  }

  ghost predicate AllUsed(img: Image, dir: Directory, n: nat) {
    forall j :: 0 <= j < n ==> SlotUsed(img, dir, j)
  }

  ghost predicate InFile(img: Image, dir: Directory) {
    DATA_OFFSET <= |img| && forall i :: 0 <= i < |dir| && dir[i] != 0 ==> dir[i] + INODE_BLOCK_SIZE <= |img|
  }

  // ---- the directory on disk ----

  function EncodeDirectory(dir: Directory): (b: seq<byte>)
    ensures |b| == 8 * |dir|
  {
    if dir == [] then [] else EncodeDirectory(dir[..|dir| - 1]) + U64ToLe(dir[|dir| - 1])
  }

  lemma {:induction false} DirectoryEntry(dir: Directory, i: nat)
    requires i < |dir|
    ensures EncodeDirectory(dir)[8 * i..8 * i + 8] == U64ToLe(dir[i])
  {
    var init := dir[..|dir| - 1];
    if i < |dir| - 1 {
      DirectoryEntry(init, i);
      assert EncodeDirectory(dir)[8 * i..8 * i + 8] == EncodeDirectory(init)[8 * i..8 * i + 8];
    }
  }

  /** `InodeTable::open`: entry 0 is always the original table, the others come from the directory on disk. */
  function LoadDirectory(img: Image): Option<Directory> {
    if |img| < DIRECTORY_OFFSET + DIRECTORY_BYTES then None
    else Some(seq(MAX_INODE_BLOCKS,
                  i requires 0 <= i < MAX_INODE_BLOCKS =>
                    if i == 0 then INODE_TABLE_OFFSET else LeToU64(img[3584 + 8 * i..3584 + 8 * i + 8])))
  }

  // ---- growth ----

  lemma GrownDirectory(dir: Directory, end: u64)
    requires Laid(dir, end) && BlockCount(dir) < MAX_INODE_BLOCKS
    ensures var grown := dir[BlockCount(dir) := end];
            && Laid(grown, end + INODE_BLOCK_SIZE) && BlockCount(grown) == BlockCount(dir) + 1
            && (forall j: nat :: j < Capacity(dir) ==> InodeOffset(grown, j) == InodeOffset(dir, j))
            && (forall j: nat :: Capacity(dir) <= j < Capacity(grown) ==>
                  InodeOffset(grown, j) == Some(end + (j - Capacity(dir)) * INODE_BYTES))
  {
    var n := BlockCount(dir);
    var grown := dir[n := end];
    CountOfPrefix(grown, n + 1);
    assert n > 0 by {
      assert dir[0] != 0;
    }
    forall j: nat | j < Capacity(dir) ensures InodeOffset(grown, j) == InodeOffset(dir, j) {
      Addressable(dir, j);
    }
    forall j: nat | Capacity(dir) <= j < Capacity(grown)
      ensures InodeOffset(grown, j) == Some(end + (j - Capacity(dir)) * INODE_BYTES)
    {
      Addressable(grown, j);
      assert BlockFor(j) == n;
    }
  }

  /** Zeroing a block behind everything and rewriting the directory: old inodes read as before, new slots are free. */
  lemma GrownImage(img: Image, dir: Directory, end: u64, img': Image)
    requires Laid(dir, end) && InFile(img, dir) && BlockCount(dir) < MAX_INODE_BLOCKS
    requires img' == Overwrite(Overwrite(img, end, Zeros(INODE_BLOCK_SIZE)), DIRECTORY_OFFSET,
                               EncodeDirectory(dir[BlockCount(dir) := end]))
    ensures var grown := dir[BlockCount(dir) := end];
            && InFile(img', grown)
            && (forall j: nat :: j < Capacity(dir) ==> InodeAt(img', grown, j) == InodeAt(img, dir, j))
            && (forall j: nat :: Capacity(dir) <= j < Capacity(grown) ==> InodeAt(img', grown, j).isUsed == 0)
  {
    var grown := dir[BlockCount(dir) := end];
    GrownDirectory(dir, end);
    assert InFile(img', grown);
    hide EncodeDirectory, InodeAt, Overwrite, BlockCount, Capacity, InFile;
    forall j: nat | j < Capacity(dir) ensures InodeAt(img', grown, j) == InodeAt(img, dir, j) {
      OldSlotKept(img, dir, end, img', grown, j);
    }
    forall j: nat | Capacity(dir) <= j < Capacity(grown) ensures InodeAt(img', grown, j).isUsed == 0 {
      NewSlotFree(img', dir, end, grown, j);
    }
  }

  lemma OldSlotKept(img: Image, dir: Directory, end: u64, img': Image, grown: Directory, j: nat)
    requires Laid(dir, end) && InFile(img, dir) && j < Capacity(dir) && |img| <= |img'|
    requires InodeOffset(grown, j) == InodeOffset(dir, j)
    requires forall k :: DIRECTORY_OFFSET + DIRECTORY_BYTES <= k < end && k < |img| ==> img'[k] == img[k]
    ensures InodeAt(img', grown, j) == InodeAt(img, dir, j)
  {
    hide DiskCodec.ReadInode, DecodeInode, BlockCount;
    SlotPlace(dir, end, j);
    Addressable(dir, j);
    var o := InodeOffset(dir, j).value;
    assert img'[o..o + INODE_BYTES] == img[o..o + INODE_BYTES];
  }

  lemma NewSlotFree(img': Image, dir: Directory, end: u64, grown: Directory, j: nat)
    requires end + INODE_BLOCK_SIZE <= |img'|
    requires forall k :: end <= k < end + INODE_BLOCK_SIZE ==> img'[k] == 0
    requires Capacity(dir) <= j < Capacity(dir) + INODES_PER_BLOCK
    requires InodeOffset(grown, j) == Some(end + (j - Capacity(dir)) * INODE_BYTES)
    ensures InodeAt(img', grown, j).isUsed == 0
  {
    hide DiskCodec.ReadInode, DecodeInode, BlockCount;
    var o := end + (j - Capacity(dir)) * INODE_BYTES;
    assert o + INODE_BYTES <= end + INODE_BLOCK_SIZE;
    assert img'[o..o + INODE_BYTES] == Zeros(INODE_BYTES);
    ZeroedIsFree();
  }

  /** `index` is the least unused slot of the old table, free in the new one; every old slot reads as before. */
  ghost predicate LeastFree(was: Image, dir: Directory, img: Image, grown: Directory, index: nat) {
    && index < Capacity(grown) && AllUsed(was, dir, index) && !SlotUsed(img, grown, index)
    && forall j: nat :: j < Capacity(dir) ==> InodeAt(img, grown, j) == InodeAt(was, dir, j)
  }

  /** What a crash may leave while a new block is zeroed at `end` and then entered in the directory. */
  ghost function GrowthImages(img: Image, end: u64, grown: Directory): iset<Image> {
    CrashImages(img, end, Zeros(INODE_BLOCK_SIZE))
    + CrashImages(Overwrite(img, end, Zeros(INODE_BLOCK_SIZE)), DIRECTORY_OFFSET, EncodeDirectory(grown))
  }

  lemma GrowthAdds(was: iset<Image>, mid: iset<Image>, now: iset<Image>, img: Image, end: u64, grown: Directory)
    requires Adds(was, mid, CrashImages(img, end, Zeros(INODE_BLOCK_SIZE)))
    requires Adds(mid, now,
             CrashImages(Overwrite(img, end, Zeros(INODE_BLOCK_SIZE)), DIRECTORY_OFFSET, EncodeDirectory(grown)))
    ensures Adds(was, now, GrowthImages(img, end, grown))
  {
    hide CrashImages, EncodeDirectory, Zeros;
  }

  datatype SlotResult = IoError | Full | Allocated(index: nat, newBlock: bool)

  class InodeTable {
    /** Disk offsets of the blocks; entry 0 is the original table. */
    var blockOffsets: Directory
    /** First byte behind everything allocated. */
    var nextDiskEnd: u64

    constructor (blockOffsets: Directory, nextDiskEnd: u64)
      ensures this.blockOffsets == blockOffsets && this.nextDiskEnd == nextDiskEnd
    {
      this.blockOffsets, this.nextDiskEnd := blockOffsets, nextDiskEnd;
    }

    /** The table of an image; null when the directory cannot be read. */
    static method Open(file: File, nextDiskEnd: u64) returns (table: InodeTable?)
      ensures table == null <==> LoadDirectory(file.bytes).None?
      ensures table != null ==> fresh(table) && table.blockOffsets == LoadDirectory(file.bytes).value
                                && table.nextDiskEnd == nextDiskEnd
    {
      var buf := file.Read(DIRECTORY_OFFSET, DIRECTORY_BYTES);
      if buf.None? {
        return null;
      }
      hide LeToU64, FromLe;
      var offsets: Directory := [INODE_TABLE_OFFSET];
      for i := 1 to MAX_INODE_BLOCKS
        invariant |offsets| == i && offsets[0] == INODE_TABLE_OFFSET
        invariant forall k :: 1 <= k < i ==> offsets[k] == LeToU64(file.bytes[3584 + 8 * k..3584 + 8 * k + 8])
      {
        SliceOfSlice(file.bytes, 3584, 4096, 8 * i, 8 * i + 8);
        offsets := offsets + [LeToU64(buf.value[8 * i..8 * i + 8])];
      }
      assert offsets == LoadDirectory(file.bytes).value;
      table := new InodeTable(offsets, nextDiskEnd);
    }

    ghost predicate Valid(file: File)
      reads this, file
    {
      Laid(blockOffsets, nextDiskEnd) && InFile(file.bytes, blockOffsets)
    }

    method SaveDirectory(file: File)
      requires |blockOffsets| == MAX_INODE_BLOCKS
      modifies file
      ensures file.bytes == Overwrite(old(file.bytes), DIRECTORY_OFFSET, EncodeDirectory(blockOffsets))
      ensures Adds(old(file.crashes), file.crashes,
                   CrashImages(old(file.bytes), DIRECTORY_OFFSET, EncodeDirectory(blockOffsets)))
    {
      hide CrashImages;
      var buf: seq<byte> := [];
      for i := 0 to MAX_INODE_BLOCKS
        invariant buf == EncodeDirectory(blockOffsets[..i])
      {
        buf := buf + U64ToLe(blockOffsets[i]);
        assert blockOffsets[..i + 1][..i] == blockOffsets[..i];
      }
      assert blockOffsets[..MAX_INODE_BLOCKS] == blockOffsets;
      file.Write(DIRECTORY_OFFSET, buf);
    }

    /** None is a failed read. */
    method ReadInode(file: File, index: nat) returns (r: Option<Inode>)
      ensures InodeOffset(blockOffsets, index).Some?
              && InodeOffset(blockOffsets, index).value + INODE_BYTES > |file.bytes|
              <==> r.None?
      ensures r.Some? ==> r.value == InodeAt(file.bytes, blockOffsets, index)
    {
      hide DiskCodec.ReadInode, EncodeInode, InodeOffset;
      match InodeOffset(blockOffsets, index)
      case None => r := Some(EmptyInode());
      case Some(offset) =>
        var buf := file.Read(offset, INODE_BYTES);
        r := match buf case Some(b) => Some(DiskCodec.ReadInode(b)) case None => None;
    }

    method WriteInode(file: File, index: nat, inode: Inode) returns (ok: bool)
      modifies file
      ensures ok <==> InodeOffset(blockOffsets, index).Some?
      ensures !ok ==> file.bytes == old(file.bytes) && file.crashes == old(file.crashes)
      ensures ok ==> var o := InodeOffset(blockOffsets, index).value;
                     && file.bytes == Overwrite(old(file.bytes), o, EncodeInode(inode))
                     && Adds(old(file.crashes), file.crashes, CrashImages(old(file.bytes), o, EncodeInode(inode)))
    {
      match InodeOffset(blockOffsets, index)
      case None => ok := false;
      case Some(offset) =>
        file.Write(offset, EncodeInode(inode));
        ok := true;
    }

    /** The new block goes to the first empty directory entry; None when all 64 are taken. */
    method AllocBlock(file: File) returns (slot: Option<nat>)
      requires Valid(file) && nextDiskEnd + INODE_BLOCK_SIZE < 0x1_0000_0000_0000_0000
      modifies this, file
      ensures slot.None? <==> old(BlockCount(blockOffsets)) == MAX_INODE_BLOCKS
      ensures slot.None? ==>
                blockOffsets == old(blockOffsets) && nextDiskEnd == old(nextDiskEnd) && file.bytes == old(file.bytes)
      ensures slot.Some? ==>
                && slot.value == old(BlockCount(blockOffsets))
                && blockOffsets == old(blockOffsets)[slot.value := old(nextDiskEnd)]
                && nextDiskEnd == old(nextDiskEnd) + INODE_BLOCK_SIZE
                && file.bytes == Overwrite(Overwrite(old(file.bytes), old(nextDiskEnd), Zeros(INODE_BLOCK_SIZE)),
                                           DIRECTORY_OFFSET, EncodeDirectory(blockOffsets))
                && Adds(old(file.crashes), file.crashes, GrowthImages(old(file.bytes), old(nextDiskEnd), blockOffsets))
      ensures slot.None? ==> file.crashes == old(file.crashes)
    {
      hide Overwrite, EncodeDirectory, Zeros, InFile, BlockCount, CrashImages, GrowthImages, Adds;
      var i := 1;
      while i < |blockOffsets| && blockOffsets[i] != 0
        invariant 1 <= i <= |blockOffsets|
        invariant forall k :: 0 <= k < i ==> blockOffsets[k] != 0
      {
        i := i + 1;
      }
      if i == |blockOffsets| {
        assert BlockCount(blockOffsets) == MAX_INODE_BLOCKS by {
          assert blockOffsets[MAX_INODE_BLOCKS - 1] != 0;
        }
        return None;
      }
      assert i == BlockCount(blockOffsets) by {
        assert blockOffsets[i] == 0;
        assert BlockCount(blockOffsets) < |blockOffsets| ==> blockOffsets[BlockCount(blockOffsets)] == 0;
      }
      ghost var was, seen, end := file.bytes, file.crashes, nextDiskEnd;
      file.Write(nextDiskEnd, Zeros(INODE_BLOCK_SIZE));
      ghost var zeroed := file.crashes;
      blockOffsets := blockOffsets[i := nextDiskEnd];
      nextDiskEnd := nextDiskEnd + INODE_BLOCK_SIZE;
      SaveDirectory(file);
      GrowthAdds(seen, zeroed, file.crashes, was, end, blockOffsets);
      slot := Some(i);
    }

    /** The least free slot; when every slot is used, slot 0 of a new block; full only at 65,536 used slots. */
    method AllocInode(file: File) returns (r: SlotResult)
      requires Valid(file) && nextDiskEnd + INODE_BLOCK_SIZE < 0x1_0000_0000_0000_0000
      modifies this, file
      ensures Valid(file) && r != IoError
      ensures r == Full ==> Capacity(old(blockOffsets)) == 65536 && AllUsed(old(file.bytes), old(blockOffsets), 65536)
      ensures r == Full || (r.Allocated? && !r.newBlock) ==>
                && blockOffsets == old(blockOffsets) && nextDiskEnd == old(nextDiskEnd) && file.bytes == old(file.bytes)
                && file.crashes == old(file.crashes)
      ensures r.Allocated? ==> LeastFree(old(file.bytes), old(blockOffsets), file.bytes, blockOffsets, r.index)
      ensures r.Allocated? && r.newBlock ==>
                && r.index == Capacity(old(blockOffsets))
                && nextDiskEnd == old(nextDiskEnd) + INODE_BLOCK_SIZE
                && old(BlockCount(blockOffsets)) < MAX_INODE_BLOCKS
                && blockOffsets == old(blockOffsets)[old(BlockCount(blockOffsets)) := old(nextDiskEnd)]
                && file.bytes == Overwrite(Overwrite(old(file.bytes), old(nextDiskEnd), Zeros(INODE_BLOCK_SIZE)),
                                           DIRECTORY_OFFSET, EncodeDirectory(blockOffsets))
                && Adds(old(file.crashes), file.crashes, GrowthImages(old(file.bytes), old(nextDiskEnd), blockOffsets))
                && (forall j: nat :: r.index <= j < Capacity(blockOffsets) ==> !SlotUsed(file.bytes, blockOffsets, j))
    {
      hide InodeAt, InodeOffset, Overwrite, GrowthImages, Adds, Zeros, EncodeDirectory, SlotUsed, AllUsed, LeastFree,
           InFile, Laid, BlockCount;
      ghost var was, dir, end := file.bytes, blockOffsets, nextDiskEnd;
      var capacity := Capacity(blockOffsets);
      NoneScanned(was, dir);
      for index := 0 to capacity
        invariant blockOffsets == dir && nextDiskEnd == old(nextDiskEnd) && file.bytes == was
        invariant file.crashes == old(file.crashes)
        invariant AllUsed(was, dir, index)
      {
        SlotInFile(was, dir, nextDiskEnd, index);
        var inode := ReadInode(file, index);
        match inode {
          case None => return IoError;
          case Some(n) =>
            Scanned(was, dir, index);
            if n.isUsed == 0 {
              return Allocated(index, false);
            }
        }
      }
      GrownFull(was, dir, end);
      var block := AllocBlock(file);
      if block.None? {
        return Full;
      }
      return Allocated(capacity, true);
    }
  }

  lemma NoneScanned(img: Image, dir: Directory)
    ensures AllUsed(img, dir, 0)
  {
  }

  lemma SlotInFile(img: Image, dir: Directory, end: nat, index: nat)
    requires Laid(dir, end) && InFile(img, dir) && index < Capacity(dir)
    ensures InodeOffset(dir, index).Some? && InodeOffset(dir, index).value + INODE_BYTES <= |img|
  {
    SlotPlace(dir, end, index);
    Addressable(dir, index);
  }

  /** The scan passes a used slot and stops at a free one. */
  lemma Scanned(img: Image, dir: Directory, index: nat)
    requires AllUsed(img, dir, index) && index < Capacity(dir)
    ensures InodeAt(img, dir, index).isUsed != 0 ==> AllUsed(img, dir, index + 1)
    ensures InodeAt(img, dir, index).isUsed == 0 ==> LeastFree(img, dir, img, dir, index)
  {
    hide InodeAt, BlockCount;
  }

  /** A table with every slot used: what a new block makes of it, unless there are 64. */
  lemma GrownFull(img: Image, dir: Directory, end: u64)
    requires Laid(dir, end) && InFile(img, dir) && AllUsed(img, dir, Capacity(dir))
    ensures BlockCount(dir) <= MAX_INODE_BLOCKS && (BlockCount(dir) == MAX_INODE_BLOCKS ==> Capacity(dir) == 65536)
    ensures BlockCount(dir) < MAX_INODE_BLOCKS ==>
              var grown := dir[BlockCount(dir) := end];
              var img' := Overwrite(Overwrite(img, end, Zeros(INODE_BLOCK_SIZE)), DIRECTORY_OFFSET,
                                    EncodeDirectory(grown));
              && Laid(grown, end + INODE_BLOCK_SIZE) && InFile(img', grown)
              && LeastFree(img, dir, img', grown, Capacity(dir))
              && (forall j: nat :: Capacity(dir) <= j < Capacity(grown) ==> !SlotUsed(img', grown, j))
  {
    if BlockCount(dir) < MAX_INODE_BLOCKS {
      hide InodeAt, InFile, Laid, Overwrite, EncodeDirectory, Zeros, InodeOffset, BlockCount, AllUsed;
      var grown := dir[BlockCount(dir) := end];
      GrownImage(img, dir, end, Overwrite(Overwrite(img, end, Zeros(INODE_BLOCK_SIZE)), DIRECTORY_OFFSET,
                                          EncodeDirectory(grown)));
      GrownDirectory(dir, end);
    }
  }
}
