/** The packing of block 0: superblock at 0, free list from 512, inode block directory at 3584 (DiskManager::flush
    and open in src/fs/mod.rs, FreeList in src/fs/free_list.rs, InodeTable in src/fs/inode_table.rs). */
module BlockZero {
  import opened Bytes
  import opened Checksum
  import opened DiskImage
  import opened DiskCodec
  import opened FreeList
  import FreeListStore
  import opened InodeTable
  import opened Storage

  const BLOCK_SIZE: nat := 4096

  function LoadSuperblock(img: Image): Option<Superblock> {
    if |img| < SUPERBLOCK_BYTES then None else DecodeSuperblock(img[..SUPERBLOCK_BYTES])
  }

  /** What `flush` writes, in its order. */
  function Flushed(img: Image, sb: Superblock, free: seq<Extent>, dir: Directory): Image
    requires forall e :: e in free ==> e.offset < 0x1_0000_0000_0000_0000 && e.length < 0x1_0000_0000_0000_0000
  {
    Overwrite(FreeListStore.SavedFreeList(Overwrite(img, 0, EncodeSuperblock(sb)), free),
              DIRECTORY_OFFSET, EncodeDirectory(dir))
  }

  /** What a crash may leave while `flush` writes superblock, free list and directory. */
  ghost function FlushImages(img: Image, sb: Superblock, free: seq<Extent>, dir: Directory): iset<Image>
    requires FreeListStore.Encodable(free)
  {
    var a := Overwrite(img, 0, EncodeSuperblock(sb));
    CrashImages(img, 0, EncodeSuperblock(sb)) + FreeListStore.SaveImages(a, free)
    + CrashImages(FreeListStore.SavedFreeList(a, free), DIRECTORY_OFFSET, EncodeDirectory(dir))
  }

  lemma FlushAdds(c0: iset<Image>, c1: iset<Image>, c2: iset<Image>, c3: iset<Image>, img: Image, sb: Superblock,
                  free: seq<Extent>, dir: Directory)
    requires FreeListStore.Encodable(free)
    requires var a := Overwrite(img, 0, EncodeSuperblock(sb));
             && Adds(c0, c1, CrashImages(img, 0, EncodeSuperblock(sb)))
             && Adds(c1, c2, FreeListStore.SaveImages(a, free))
             && Adds(c2, c3, CrashImages(FreeListStore.SavedFreeList(a, free), DIRECTORY_OFFSET, EncodeDirectory(dir)))
    ensures Adds(c0, c3, FlushImages(img, sb, free, dir))
  {
    hide CrashImages, EncodeSuperblock, EncodeDirectory, FreeListStore.SaveImages, FreeListStore.SavedFreeList,
         Overwrite;
  }

  /** The bytes `flush` leaves in block 0: the directory goes last, over whatever reaches 3584. */
  lemma FlushedBytes(img: Image, sb: Superblock, free: seq<Extent>, dir: Directory)
    requires FreeListStore.Encodable(free) && |dir| == MAX_INODE_BLOCKS && BLOCK_SIZE <= |img|
    ensures var count := Min(|free|, MAX_PERSISTED_EXTENTS);
            var ext := FreeListStore.EncodeExtents(free[..count]);
            var r := Flushed(img, sb, free, dir);
            && |r| == |img|
            && r[..SUPERBLOCK_BYTES] == EncodeSuperblock(sb)
            && r[512..544] == FreeListStore.EncodeHeader(count, ext)
            && r[3584..4096] == EncodeDirectory(dir)
            && r[544..][3040..3048] == EncodeDirectory(dir)[0..8]
            && (count <= 190 ==> r[544..][..16 * count] == ext)
            && (forall k :: BLOCK_SIZE <= k < |img| ==> r[k] == img[k])
  {
    hide FreeListStore.EncodeExtents, FreeListStore.EncodeHeader, EncodeDirectory, EncodeSuperblock;
    var count := Min(|free|, MAX_PERSISTED_EXTENTS);
    var ext := FreeListStore.EncodeExtents(free[..count]);
    var r := Flushed(img, sb, free, dir);
    assert r[..SUPERBLOCK_BYTES] == EncodeSuperblock(sb);
    assert r[512..544] == FreeListStore.EncodeHeader(count, ext);
    assert r[3584..4096] == EncodeDirectory(dir);
    assert r[544..][3040..3048] == EncodeDirectory(dir)[0..8];
    assert count <= 190 ==> r[544..][..16 * count] == ext;
  }

  lemma SuperblockComesBack(img: Image, sb: Superblock, free: seq<Extent>, dir: Directory)
    requires FreeListStore.Encodable(free) && |dir| == MAX_INODE_BLOCKS && BLOCK_SIZE <= |img|
    ensures LoadSuperblock(Flushed(img, sb, free, dir)) == Some(sb)
  {
    FlushedBytes(img, sb, free, dir);
    SuperblockRoundTrip(sb);
  }

  lemma DirectoryRead(r: Image, dir: Directory)
    requires |dir| == MAX_INODE_BLOCKS && dir[0] == INODE_TABLE_OFFSET && BLOCK_SIZE <= |r|
    requires r[3584..4096] == EncodeDirectory(dir)
    ensures LoadDirectory(r) == Some(dir)
  {
    hide EncodeDirectory, FromLe, ToLe, U64ToLe, LeToU64;
    forall i | 1 <= i < MAX_INODE_BLOCKS ensures LeToU64(r[3584 + 8 * i..3584 + 8 * i + 8]) == dir[i] {
      DirectoryEntry(dir, i);
      SliceOfSlice(r, 3584, 4096, 8 * i, 8 * i + 8);
    }
    assert LoadDirectory(r).value == dir;
  }

  lemma DirectoryComesBack(img: Image, sb: Superblock, free: seq<Extent>, dir: Directory)
    requires FreeListStore.Encodable(free) && BLOCK_SIZE <= |img|
    requires |dir| == MAX_INODE_BLOCKS && dir[0] == INODE_TABLE_OFFSET
    ensures LoadDirectory(Flushed(img, sb, free, dir)) == Some(dir)
  {
    FlushedBytes(img, sb, free, dir);
    var r := Flushed(img, sb, free, dir);
    hide EncodeDirectory, Flushed, FreeListStore.EncodeExtents, FreeListStore.EncodeHeader, EncodeSuperblock, FromLe;
    DirectoryRead(r, dir);
  }

  lemma HeaderFields(count: u32, ext: seq<byte>)
    ensures var h := FreeListStore.EncodeHeader(count, ext);
            && LeToU64(h[0..8]) == FreeListStore.FREE_LIST_MAGIC && LeToU32(h[8..12]) == count
            && h[..12] == FreeListStore.CountField(count)
            && LeToU32(h[12..16]) == Crc32(FreeListStore.CountField(count) + ext)
  {
    var h, c := FreeListStore.EncodeHeader(count, ext), FreeListStore.CountField(count);
    hide Crc32, FromLe, ToLe, U64ToLe, U32ToLe, LeToU32, LeToU64;
    assert h[..12] == c && h[12..16] == U32ToLe(Crc32(c + ext));
    assert h[0..8] == c[0..8] == U64ToLe(FreeListStore.FREE_LIST_MAGIC);
    assert h[8..12] == c[8..12] == U32ToLe(count);
  }

  /** The documented layout of the free list's header. */
  lemma HeaderLayout(count: u32, ext: seq<byte>)
    ensures var h := FreeListStore.EncodeHeader(count, ext);
            && h[0..8] == ToLe(0x4652_454C_4953_5400, 8) && h[8..12] == ToLe(count, 4)
            && h[12..16] == ToLe(Crc32(h[..12] + ext), 4) && h[16..] == Zeros(16)
  {
    hide Crc32, FromLe, ToLe;
    var c := FreeListStore.CountField(count);
    assert FreeListStore.EncodeHeader(count, ext)[..12] == c;
    assert c[0..8] == ToLe(0x4652_454C_4953_5400, 8) && c[8..12] == ToLe(count, 4);
  }

  lemma LoadBehindIs(hdr: seq<byte>, rest: seq<byte>, free: seq<Extent>)
    requires FreeListStore.Encodable(free) && |free| <= MAX_PERSISTED_EXTENTS && 16 * |free| <= |rest|
    requires hdr == FreeListStore.EncodeHeader(|free|, FreeListStore.EncodeExtents(free))
    requires rest[..16 * |free|] == FreeListStore.EncodeExtents(free)
    ensures FreeListStore.LoadBehind(hdr, rest) == free
  {
    HeaderFields(|free|, FreeListStore.EncodeExtents(free));
    FreeListStore.ExtentsRoundTrip(free);
    hide FreeListStore.EncodeExtents, FreeListStore.DecodeExtents, FreeListStore.EncodeHeader,
         FreeListStore.CountField, Crc32, FromLe, LeToU32, LeToU64;
  }

  /** A free list that is not empty is read exactly from the bytes written for it; anything else reads as empty. */
  lemma FreeListExact(hdr: seq<byte>, rest: seq<byte>, free: seq<Extent>)
    requires |hdr| == FreeListStore.FREE_LIST_HEADER && free != []
    ensures FreeListStore.LoadBehind(hdr, rest) == free <==>
              && |free| <= MAX_PERSISTED_EXTENTS && 16 * |free| <= |rest| && FreeListStore.Encodable(free)
              && hdr[..16] == FreeListStore.EncodeHeader(|free|, FreeListStore.EncodeExtents(free))[..16]
              && rest[..16 * |free|] == FreeListStore.EncodeExtents(free)
  {
    if FreeListStore.LoadBehind(hdr, rest) == free {
      LoadedBytes(hdr, rest, free);
    } else if |free| <= MAX_PERSISTED_EXTENTS && 16 * |free| <= |rest| && FreeListStore.Encodable(free)
              && hdr[..16] == FreeListStore.EncodeHeader(|free|, FreeListStore.EncodeExtents(free))[..16]
              && rest[..16 * |free|] == FreeListStore.EncodeExtents(free) {
      var written := FreeListStore.EncodeHeader(|free|, FreeListStore.EncodeExtents(free));
      hide FreeListStore.EncodeHeader, FreeListStore.EncodeExtents;
      LoadBehindIs(written, rest, free);
      SameFront(hdr, written, rest);
      assert false;
    }
  }

  lemma SameFront(a: seq<byte>, b: seq<byte>, rest: seq<byte>)
    requires |a| == |b| == FreeListStore.FREE_LIST_HEADER && a[..16] == b[..16]
    ensures FreeListStore.LoadBehind(a, rest) == FreeListStore.LoadBehind(b, rest)
  {
    hide LeToU32, LeToU64, Crc32, FreeListStore.DecodeExtents;
    FrontSlices(a, b, 16);
  }

  lemma LoadedBytes(hdr: seq<byte>, rest: seq<byte>, free: seq<Extent>)
    requires |hdr| == FreeListStore.FREE_LIST_HEADER && free != [] && FreeListStore.LoadBehind(hdr, rest) == free
    ensures |free| <= MAX_PERSISTED_EXTENTS && 16 * |free| <= |rest| && FreeListStore.Encodable(free)
    ensures hdr[..16] == FreeListStore.EncodeHeader(|free|, FreeListStore.EncodeExtents(free))[..16]
    ensures rest[..16 * |free|] == FreeListStore.EncodeExtents(free)
  {
    hide FreeListStore.EncodeExtents, FreeListStore.DecodeExtents, FreeListStore.Encodable, FreeListStore.EncodeHeader,
         FreeListStore.CountField, Crc32, LeToU32, LeToU64, FromLe;
    var count := LeToU32(hdr[8..12]);
    var ext := rest[..16 * count];
    FreeListStore.ExtentsExact(ext);
    HeaderBytes(hdr, count, ext);
  }

  lemma HeaderBytes(hdr: seq<byte>, count: u32, ext: seq<byte>)
    requires |hdr| == FreeListStore.FREE_LIST_HEADER
    requires LeToU64(hdr[0..8]) == FreeListStore.FREE_LIST_MAGIC && LeToU32(hdr[8..12]) == count
    requires LeToU32(hdr[12..16]) == Crc32(hdr[..12] + ext)
    ensures hdr[..16] == FreeListStore.EncodeHeader(count, ext)[..16]
  {
    hide Crc32, FromLe, ToLe, LeToU32, LeToU64, U32ToLe, U64ToLe;
    Le64Exact(hdr[0..8]);
    Le32Exact(hdr[8..12]);
    Le32Exact(hdr[12..16]);
    assert hdr[..12] == hdr[0..8] + hdr[8..12] == FreeListStore.CountField(count);
    assert hdr[..16] == hdr[..12] + hdr[12..16];
    var written := FreeListStore.EncodeHeader(count, ext);
    assert written[..16] == FreeListStore.CountField(count) + U32ToLe(Crc32(FreeListStore.CountField(count) + ext));
  }

  lemma FreeListComesBack(img: Image, sb: Superblock, free: seq<Extent>, dir: Directory)
    requires FreeListStore.Encodable(free) && |dir| == MAX_INODE_BLOCKS && BLOCK_SIZE <= |img|
    requires |free| <= 190
    ensures FreeListStore.LoadFreeList(Flushed(img, sb, free, dir)) == free
  {
    var r := Flushed(img, sb, free, dir);
    FlushedBytes(img, sb, free, dir);
    assert free[..|free|] == free;
    hide Flushed, FreeListStore.EncodeExtents, FreeListStore.EncodeHeader, FreeListStore.LoadBehind,
         EncodeSuperblock, EncodeDirectory;
    LoadBehindIs(r[512..544], r[544..], free);
  }

  lemma OverrunExtent(hdr: seq<byte>, rest: seq<byte>, at: u64)
    requires |hdr| == FreeListStore.FREE_LIST_HEADER && 3048 <= |rest|
    requires LeToU32(hdr[8..12]) > 190 && rest[3040..3048] == U64ToLe(at)
    ensures var loaded := FreeListStore.LoadBehind(hdr, rest);
            loaded == [] || (|loaded| > 190 && loaded[190].offset == at)
  {
    hide Crc32, FromLe, FreeListStore.DecodeExtents;
    var loaded := FreeListStore.LoadBehind(hdr, rest);
    if loaded != [] {
      var b := rest[..16 * LeToU32(hdr[8..12])];
      FreeListStore.DecodedExtent(b, 190);
      assert b[16 * 190..16 * 190 + 8] == rest[3040..3048];
    }
  }

  /** Beyond 190 extents the directory lies over extent 190: the list read back is empty or has the original
      inode table's offset there, checksum or not. */
  lemma FreeListOverrun(img: Image, sb: Superblock, free: seq<Extent>, dir: Directory)
    requires FreeListStore.Encodable(free) && BLOCK_SIZE <= |img|
    requires |dir| == MAX_INODE_BLOCKS && dir[0] == INODE_TABLE_OFFSET
    requires |free| > 190 && free[190].offset != INODE_TABLE_OFFSET
    ensures FreeListStore.LoadFreeList(Flushed(img, sb, free, dir)) != free
  {
    OverrunBytes(img, sb, free, dir);
    var r := Flushed(img, sb, free, dir);
    hide Flushed, FreeListStore.LoadBehind, FromLe, ToLe, U64ToLe, LeToU32;
    OverrunExtent(r[512..544], r[544..], INODE_TABLE_OFFSET);
  }

  lemma OverrunBytes(img: Image, sb: Superblock, free: seq<Extent>, dir: Directory)
    requires FreeListStore.Encodable(free) && BLOCK_SIZE <= |img|
    requires |dir| == MAX_INODE_BLOCKS && |free| > 190
    ensures var r := Flushed(img, sb, free, dir);
            |r| == |img| && LeToU32(r[512..544][8..12]) > 190 && r[544..][3040..3048] == U64ToLe(dir[0])
  {
    var count := Min(|free|, MAX_PERSISTED_EXTENTS);
    FlushedBytes(img, sb, free, dir);
    HeaderFields(count, FreeListStore.EncodeExtents(free[..count]));
    DirectoryEntry(dir, 0);
    hide Flushed, FreeListStore.EncodeExtents, FreeListStore.EncodeHeader, FreeListStore.CountField,
         EncodeDirectory, Crc32, FromLe, U64ToLe, LeToU32, EncodeSuperblock;
    var r := Flushed(img, sb, free, dir);
    assert EncodeDirectory(dir)[8 * 0..8 * 0 + 8] == EncodeDirectory(dir)[0..8];
  }

  /** Flush then open gives back the whole state exactly when at most 190 extents are free, not the 200 the
      free list allows itself. */
  lemma RoundTripBound(img: Image, sb: Superblock, free: seq<Extent>, dir: Directory)
    requires FreeListStore.Encodable(free) && BLOCK_SIZE <= |img|
    requires |dir| == MAX_INODE_BLOCKS && dir[0] == INODE_TABLE_OFFSET
    requires forall e :: e in free ==> DATA_OFFSET <= e.offset
    ensures var r := Flushed(img, sb, free, dir);
            (LoadSuperblock(r) == Some(sb) && FreeListStore.LoadFreeList(r) == free && LoadDirectory(r) == Some(dir))
            <==> |free| <= 190
  {
    hide Flushed, FreeListStore.LoadFreeList;
    SuperblockComesBack(img, sb, free, dir);
    DirectoryComesBack(img, sb, free, dir);
    if |free| <= 190 {
      FreeListComesBack(img, sb, free, dir);
    } else {
      FreeListOverrun(img, sb, free, dir);
    }
  }
}
