/** The superblock and inode records (src/fs/disk.rs). */
module DiskCodec {
  import opened Bytes
  import opened Checksum

  const SUPERBLOCK_BYTES: nat := 64
  const INODE_BYTES: nat := 256
  const NAME_BYTES: nat := 200

  datatype Superblock = Superblock(
    magic: u64, version: u32, blockSize: u32, totalBlocks: u64, freeBlocks: u64,
    inodeCount: u64, nextDataOffset: u64, createdAt: u64)

  function SuperblockFields(s: Superblock): (b: seq<byte>)
    ensures |b| == 56
  {
    U64ToLe(s.magic) + U32ToLe(s.version) + U32ToLe(s.blockSize) + U64ToLe(s.totalBlocks)
    + U64ToLe(s.freeBlocks) + U64ToLe(s.inodeCount) + U64ToLe(s.nextDataOffset) + U64ToLe(s.createdAt)
  }

  function EncodeSuperblock(s: Superblock): (b: seq<byte>)
    ensures |b| == SUPERBLOCK_BYTES
  {
    SuperblockFields(s) + U32ToLe(Crc32(SuperblockFields(s))) + Zeros(4)
  }

  /** None is a checksum mismatch. */
  function DecodeSuperblock(b: seq<byte>): Option<Superblock>
    requires |b| == SUPERBLOCK_BYTES
  {
    if Crc32(b[..56]) != LeToU32(b[56..60]) then None
    else Some(Superblock(LeToU64(b[0..8]), LeToU32(b[8..12]), LeToU32(b[12..16]), LeToU64(b[16..24]),
                         LeToU64(b[24..32]), LeToU64(b[32..40]), LeToU64(b[40..48]), LeToU64(b[48..56])))
  }

  lemma SuperblockRoundTrip(s: Superblock)
    ensures DecodeSuperblock(EncodeSuperblock(s)) == Some(s)
  {
    hide U64ToLe, U32ToLe, LeToU64, LeToU32, ToLe, FromLe, Crc32;
    var b, f := EncodeSuperblock(s), SuperblockFields(s);
    assert b[..56] == f && b[56..60] == U32ToLe(Crc32(f));
    assert b[0..8] == f[0..8] == U64ToLe(s.magic);
    assert b[8..12] == f[8..12] == U32ToLe(s.version);
    assert b[12..16] == f[12..16] == U32ToLe(s.blockSize);
    assert b[16..24] == f[16..24] == U64ToLe(s.totalBlocks);
    assert b[24..32] == f[24..32] == U64ToLe(s.freeBlocks);
    assert b[32..40] == f[32..40] == U64ToLe(s.inodeCount);
    assert b[40..48] == f[40..48] == U64ToLe(s.nextDataOffset);
    assert b[48..56] == f[48..56] == U64ToLe(s.createdAt);
  }

  /** The documented layout: where each field of the superblock stands. */
  lemma SuperblockLayout(s: Superblock)
    ensures var b := EncodeSuperblock(s);
            && b[0..8] == ToLe(s.magic, 8) && b[8..12] == ToLe(s.version, 4) && b[12..16] == ToLe(s.blockSize, 4)
            && b[16..24] == ToLe(s.totalBlocks, 8) && b[24..32] == ToLe(s.freeBlocks, 8)
            && b[32..40] == ToLe(s.inodeCount, 8) && b[40..48] == ToLe(s.nextDataOffset, 8)
            && b[48..56] == ToLe(s.createdAt, 8) && b[56..60] == ToLe(Crc32(b[..56]), 4) && b[60..] == Zeros(4)
  {
    hide ToLe, Crc32;
    var b, f := EncodeSuperblock(s), SuperblockFields(s);
    assert b[..56] == f;
    assert b[0..8] == f[0..8] && b[8..12] == f[8..12] && b[12..16] == f[12..16] && b[16..24] == f[16..24];
    assert b[24..32] == f[24..32] && b[32..40] == f[32..40] && b[40..48] == f[40..48] && b[48..56] == f[48..56];
  }

  /** A superblock is read exactly from its own 60 bytes, checksum included. */
  lemma SuperblockExact(b: seq<byte>, s: Superblock)
    requires |b| == SUPERBLOCK_BYTES
    ensures DecodeSuperblock(b) == Some(s) <==> b[..60] == EncodeSuperblock(s)[..60]
  {
    SuperblockLayout(s);
    SuperblockRoundTrip(s);
    var e := EncodeSuperblock(s);
    hide ToLe, FromLe, Crc32, EncodeSuperblock;
    if b[..60] == e[..60] {
      FrontSlices(b, e, 60);
    }
    if DecodeSuperblock(b) == Some(s) {
      Le64Exact(b[0..8]);
      Le32Exact(b[8..12]);
      Le32Exact(b[12..16]);
      Le64Exact(b[16..24]);
      Le64Exact(b[24..32]);
      Le64Exact(b[32..40]);
      Le64Exact(b[40..48]);
      Le64Exact(b[48..56]);
      Le32Exact(b[56..60]);
      SuperblockParts(b);
      SuperblockParts(e);
    }
  }

  lemma SuperblockParts(b: seq<byte>)
    requires |b| == SUPERBLOCK_BYTES
    ensures b[..56] == b[0..8] + b[8..12] + b[12..16] + b[16..24] + b[24..32] + b[32..40] + b[40..48] + b[48..56]
    ensures b[..60] == b[..56] + b[56..60]
  {
  }

  type Name = n: seq<byte> | |n| == 200 witness Zeros(200)

  datatype Inode = Inode(
    ino: u64, size: u64, dataOffset: u64, createdAt: u64, modifiedAt: u64, parentIno: u64,
    isUsed: byte, isDir: byte, name: Name)

  function EmptyInode(): Inode {
    Inode(0, 0, 0, 0, 0, 0, 0, 0, Zeros(NAME_BYTES))
  }

  function InodeFields(n: Inode): (b: seq<byte>)
    ensures |b| == 50
  {
    U64ToLe(n.ino) + U64ToLe(n.size) + U64ToLe(n.dataOffset) + U64ToLe(n.createdAt)
    + U64ToLe(n.modifiedAt) + U64ToLe(n.parentIno) + [n.isUsed, n.isDir]
  }

  /** The checksum covers the 50 bytes of fields, not the name. */
  function EncodeInode(n: Inode): (b: seq<byte>)
    ensures |b| == INODE_BYTES
  {
    InodeFields(n) + U32ToLe(Crc32(InodeFields(n))) + Zeros(2) + n.name
  }

  function DecodeInode(b: seq<byte>): Option<Inode>
    requires |b| == INODE_BYTES
  {
    if Crc32(b[..50]) != LeToU32(b[50..54]) then None
    else Some(Inode(LeToU64(b[0..8]), LeToU64(b[8..16]), LeToU64(b[16..24]), LeToU64(b[24..32]),
                    LeToU64(b[32..40]), LeToU64(b[40..48]), b[48], b[49], b[56..256]))
  }

  lemma InodeRoundTrip(n: Inode)
    ensures DecodeInode(EncodeInode(n)) == Some(n)
  {
    hide U64ToLe, U32ToLe, LeToU64, LeToU32, ToLe, FromLe, Crc32;
    var b, f := EncodeInode(n), InodeFields(n);
    assert b[..50] == f && b[50..54] == U32ToLe(Crc32(f));
    assert b[0..8] == f[0..8] == U64ToLe(n.ino);
    assert b[8..16] == f[8..16] == U64ToLe(n.size);
    assert b[16..24] == f[16..24] == U64ToLe(n.dataOffset);
    assert b[24..32] == f[24..32] == U64ToLe(n.createdAt);
    assert b[32..40] == f[32..40] == U64ToLe(n.modifiedAt);
    assert b[40..48] == f[40..48] == U64ToLe(n.parentIno);
    assert b[48] == f[48] && b[49] == f[49];
    assert b[56..256] == n.name;
  }

  /** The documented layout: where each field of an inode record stands. */
  lemma InodeLayout(n: Inode)
    ensures var b := EncodeInode(n);
            && b[0..8] == ToLe(n.ino, 8) && b[8..16] == ToLe(n.size, 8) && b[16..24] == ToLe(n.dataOffset, 8)
            && b[24..32] == ToLe(n.createdAt, 8) && b[32..40] == ToLe(n.modifiedAt, 8)
            && b[40..48] == ToLe(n.parentIno, 8)
            && b[48] == n.isUsed && b[49] == n.isDir && b[50..54] == ToLe(Crc32(b[..50]), 4)
            && b[54..56] == Zeros(2) && b[56..] == n.name
  {
    hide ToLe, Crc32;
    var b, f := EncodeInode(n), InodeFields(n);
    assert b[..50] == f;
    assert b[0..8] == f[0..8] && b[8..16] == f[8..16] && b[16..24] == f[16..24] && b[24..32] == f[24..32];
    assert b[32..40] == f[32..40] && b[40..48] == f[40..48];
  }

  /** A record is read exactly from its 54 bytes of fields and checksum and from its name. */
  lemma InodeExact(b: seq<byte>, n: Inode)
    requires |b| == INODE_BYTES
    ensures DecodeInode(b) == Some(n) <==> b[..54] == EncodeInode(n)[..54] && b[56..] == n.name
  {
    InodeLayout(n);
    InodeRoundTrip(n);
    var e := EncodeInode(n);
    hide ToLe, FromLe, Crc32, EncodeInode;
    assert b[56..256] == b[56..];
    if b[..54] == e[..54] && b[56..] == n.name {
      FrontSlices(b, e, 54);
      assert b[48] == b[48..49][0] && b[49] == b[49..50][0] && e[48] == e[48..49][0] && e[49] == e[49..50][0];
    }
    if DecodeInode(b) == Some(n) {
      Le64Exact(b[0..8]);
      Le64Exact(b[8..16]);
      Le64Exact(b[16..24]);
      Le64Exact(b[24..32]);
      Le64Exact(b[32..40]);
      Le64Exact(b[40..48]);
      Le32Exact(b[50..54]);
      InodeParts(b);
      InodeParts(e);
    }
  }

  lemma InodeParts(b: seq<byte>)
    requires |b| == INODE_BYTES
    ensures b[..50] == b[0..8] + b[8..16] + b[16..24] + b[24..32] + b[32..40] + b[40..48] + [b[48], b[49]]
    ensures b[..54] == b[..50] + b[50..54]
  {
  }

  /** `read_inode`: a record that does not check out reads as the empty inode. */
  function ReadInode(b: seq<byte>): Inode
    requires |b| == INODE_BYTES
  {
    match DecodeInode(b)
    case Some(n) => n
    case None => EmptyInode()
  }

  /** A zeroed record is a free slot, whatever its checksum says. */
  lemma ZeroedIsFree()
    ensures ReadInode(Zeros(INODE_BYTES)).isUsed == 0
  {
  }
}
