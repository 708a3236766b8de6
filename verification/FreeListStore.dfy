/** The free list on disk (FreeList::save and load in src/fs/free_list.rs): a 32-byte header at offset 512 of
    block 0, then 16 bytes per extent. */
module FreeListStore {
  import opened Bytes
  import opened Checksum
  import opened DiskImage
  import opened FreeList
  import opened Storage

  const FREE_LIST_MAGIC: u64 := 0x4652454C49535400
  const FREE_LIST_OFFSET: nat := 512
  const FREE_LIST_HEADER: nat := 32
  const FREE_EXTENT_SIZE: nat := 16

  ghost predicate Encodable(es: seq<Extent>) {
    forall e :: e in es ==> e.offset < 0x1_0000_0000_0000_0000 && e.length < 0x1_0000_0000_0000_0000
  }

  function EncodeExtents(es: seq<Extent>): (b: seq<byte>)
    requires forall e :: e in es ==> e.offset < 0x1_0000_0000_0000_0000 && e.length < 0x1_0000_0000_0000_0000
    ensures |b| == FREE_EXTENT_SIZE * |es|
  {
    if es == [] then [] else U64ToLe(es[0].offset) + U64ToLe(es[0].length) + EncodeExtents(es[1..])
  }

  function DecodeExtents(b: seq<byte>): (es: seq<Extent>)
    requires |b| % FREE_EXTENT_SIZE == 0
    ensures |es| == |b| / FREE_EXTENT_SIZE
  {
    if b == [] then []
    else [Extent(LeToU64(b[0..8]), LeToU64(b[8..16]))] + DecodeExtents(b[16..])
  }

  lemma {:induction false} ExtentsRoundTrip(es: seq<Extent>)
    requires Encodable(es)
    ensures DecodeExtents(EncodeExtents(es)) == es
  {
    if es != [] {
      var b := EncodeExtents(es);
      assert b[0..8] == U64ToLe(es[0].offset) && b[8..16] == U64ToLe(es[0].length);
      assert b[16..] == EncodeExtents(es[1..]);
      ExtentsRoundTrip(es[1..]);
    }
  }

  /** Extent `i` is decoded from its own 16 bytes. */
  lemma {:induction false} DecodedExtent(b: seq<byte>, i: nat)
    requires |b| % FREE_EXTENT_SIZE == 0 && i < |b| / FREE_EXTENT_SIZE
    ensures DecodeExtents(b)[i].offset == LeToU64(b[16 * i..16 * i + 8])
  {
    hide LeToU64;
    if i > 0 {
      DecodedExtent(b[16..], i - 1);
      SliceOfSlice(b, 16, |b|, 16 * (i - 1), 16 * (i - 1) + 8);
      assert b[16..|b|] == b[16..];
      assert b[16..][16 * (i - 1)..16 * (i - 1) + 8] == b[16 * i..16 * i + 8];
    }
  }

  lemma {:induction false} DecodedEncodable(b: seq<byte>)
    requires |b| % FREE_EXTENT_SIZE == 0
    ensures Encodable(DecodeExtents(b))
  {
    hide FromLe;
    if b != [] {
      DecodedEncodable(b[16..]);
    }
  }

  /** Any bytes are the encoding of the extents they decode to. */
  lemma {:induction false} ExtentsExact(b: seq<byte>)
    requires |b| % FREE_EXTENT_SIZE == 0
    ensures Encodable(DecodeExtents(b)) && EncodeExtents(DecodeExtents(b)) == b
  {
    DecodedEncodable(b);
    hide LeToU64, U64ToLe, Encodable;
    if b != [] {
      ExtentsExact(b[16..]);
      Le64Exact(b[0..8]);
      Le64Exact(b[8..16]);
      assert DecodeExtents(b)[1..] == DecodeExtents(b[16..]);
      assert b == b[0..8] + b[8..16] + b[16..];
    }
  }

  /** The documented layout: 16 bytes per extent, offset and then length. */
  lemma {:induction false} ExtentsLayout(es: seq<Extent>, i: nat)
    requires Encodable(es) && i < |es|
    ensures var b := EncodeExtents(es);
            b[16 * i..16 * i + 8] == ToLe(es[i].offset, 8) && b[16 * i + 8..16 * i + 16] == ToLe(es[i].length, 8)
  {
    hide ToLe;
    var b := EncodeExtents(es);
    if i > 0 {
      ExtentsLayout(es[1..], i - 1);
      assert b[16..|b|] == EncodeExtents(es[1..]);
      SliceOfSlice(b, 16, |b|, 16 * (i - 1), 16 * (i - 1) + 8);
      SliceOfSlice(b, 16, |b|, 16 * (i - 1) + 8, 16 * (i - 1) + 16);
    }
  }

  function CountField(count: u32): (b: seq<byte>)
    ensures |b| == 12
  {
    U64ToLe(FREE_LIST_MAGIC) + U32ToLe(count)
  }

  function EncodeHeader(count: u32, extents: seq<byte>): (b: seq<byte>)
    ensures |b| == FREE_LIST_HEADER
  {
    CountField(count) + U32ToLe(Crc32(CountField(count) + extents)) + Zeros(16)
  }

  /** What `load` makes of an image: any doubt about it reads as the empty list. */
  function LoadFreeList(img: Image): seq<Extent> {
    if |img| < FREE_LIST_OFFSET + FREE_LIST_HEADER then []
    else LoadBehind(img[512..544], img[544..])
  }

  /** `load` with the 32 header bytes in hand and `rest` behind them. */
  function LoadBehind(hdr: seq<byte>, rest: seq<byte>): seq<Extent>
    requires |hdr| == FREE_LIST_HEADER
  {
    hide Crc32, FromLe, DecodeExtents;
    var count := LeToU32(hdr[8..12]);
    if LeToU64(hdr[0..8]) != FREE_LIST_MAGIC || count > MAX_PERSISTED_EXTENTS then []
    else if |rest| < FREE_EXTENT_SIZE * count then []
    else
      var ext := rest[..FREE_EXTENT_SIZE * count];
      if Crc32(hdr[..12] + ext) != LeToU32(hdr[12..16]) then [] else DecodeExtents(ext)
  }

  /** The header of a list of no extents. */
  ghost predicate SaysEmpty(img: Image) {
    FREE_LIST_OFFSET + FREE_LIST_HEADER <= |img| && img[512..544] == EncodeHeader(0, [])
  }

  /** The two writes of `save`. */
  function SavedFreeList(img: Image, es: seq<Extent>): Image
    requires forall e :: e in es ==> e.offset < 0x1_0000_0000_0000_0000 && e.length < 0x1_0000_0000_0000_0000
  {
    var count := Min(|es|, MAX_PERSISTED_EXTENTS);
    var ext := EncodeExtents(es[..count]);
    Overwrite(Overwrite(img, FREE_LIST_OFFSET, EncodeHeader(count, ext)), FREE_LIST_OFFSET + FREE_LIST_HEADER, ext)
  }

  /** What a crash during the two writes may leave. */
  ghost function SaveImages(img: Image, es: seq<Extent>): iset<Image>
    requires Encodable(es)
  {
    var count := Min(|es|, MAX_PERSISTED_EXTENTS);
    var ext := EncodeExtents(es[..count]);
    CrashImages(img, FREE_LIST_OFFSET, EncodeHeader(count, ext))
    + CrashImages(Overwrite(img, FREE_LIST_OFFSET, EncodeHeader(count, ext)), FREE_LIST_OFFSET + FREE_LIST_HEADER, ext)
  }

  method Save(fl: FreeList, file: File)
    requires Encodable(fl.extents)
    modifies file
    ensures file.bytes == SavedFreeList(old(file.bytes), fl.extents)
    ensures Adds(old(file.crashes), file.crashes, SaveImages(old(file.bytes), fl.extents))
  {
    hide CrashImages, EncodeHeader, EncodeExtents, Overwrite;
    var count := Min(|fl.extents|, MAX_PERSISTED_EXTENTS);
    var ext := EncodeExtents(fl.extents[..count]);
    file.Write(FREE_LIST_OFFSET, EncodeHeader(count, ext));
    file.Write(FREE_LIST_OFFSET + FREE_LIST_HEADER, ext);
  }

  method Load(file: File) returns (fl: FreeList)
    ensures fresh(fl) && fl.extents == LoadFreeList(file.bytes)
  {
    fl := new FreeList();
    hide Crc32, DecodeExtents, FromLe;
    var hdr := file.Read(FREE_LIST_OFFSET, FREE_LIST_HEADER);
    if hdr.None? {
      return;
    }
    if LeToU64(hdr.value[0..8]) != FREE_LIST_MAGIC {
      return;
    }
    var count := LeToU32(hdr.value[8..12]);
    var stored := LeToU32(hdr.value[12..16]);
    if count > MAX_PERSISTED_EXTENTS {
      return;
    }
    var ext := file.Read(FREE_LIST_OFFSET + FREE_LIST_HEADER, FREE_EXTENT_SIZE * count);
    assert ext.Some? ==> ext.value == file.bytes[544..][..FREE_EXTENT_SIZE * count];
    if ext.None? {
      return;
    }
    if Crc32(hdr.value[..12] + ext.value) != stored {
      return;
    }
    fl.extents := DecodeExtents(ext.value);
  }
}
