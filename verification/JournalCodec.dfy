/** On-disk form of the write-ahead journal (src/fs/journal.rs): a 64-byte header and 512-byte entries. */
module JournalCodec {
  import opened Bytes
  import opened Checksum

  const JOURNAL_MAGIC: u64 := 0x4A524E4C00000001
  const HEADER_SIZE: nat := 64
  const ENTRY_SIZE: nat := 512
  const PAYLOAD_SIZE: nat := 490

  const ENTRY_FREE: byte := 0
  const ENTRY_WRITE_INODE: byte := 1
  const ENTRY_WRITE_DATA: byte := 2
  const ENTRY_COMMIT: byte := 4

  const STATE_WRITTEN: byte := 1

  datatype Header = Header(magic: u64, version: u32, nextTxId: u32, entryCount: u32)

  type Payload = p: seq<byte> | |p| == 490 witness Zeros(490)

  datatype Entry = Entry(entryType: byte, state: byte, txId: u32, payloadLen: u32, diskOffset: u64, payload: Payload)

  function NewHeader(): Header {
    Header(JOURNAL_MAGIC, 1, 1, 0)
  }

  function EncodeHeader(h: Header): (b: seq<byte>)
    ensures |b| == HEADER_SIZE
  {
    var fields := U64ToLe(h.magic) + U32ToLe(h.version) + U32ToLe(h.nextTxId) + U32ToLe(h.entryCount);
    fields + U32ToLe(Crc32(fields)) + Zeros(40)
  }

  /** None is a checksum mismatch. */
  function DecodeHeader(b: seq<byte>): Option<Header>
    requires |b| == HEADER_SIZE
  {
    if Crc32(b[..20]) != LeToU32(b[20..24]) then None
    else Some(Header(LeToU64(b[0..8]), LeToU32(b[8..12]), LeToU32(b[12..16]), LeToU32(b[16..20])))
  }

  lemma HeaderRoundTrip(h: Header)
    ensures DecodeHeader(EncodeHeader(h)) == Some(h)
  {
    hide U64ToLe, U32ToLe, LeToU64, LeToU32, ToLe, FromLe, Crc32;
    var fields := U64ToLe(h.magic) + U32ToLe(h.version) + U32ToLe(h.nextTxId) + U32ToLe(h.entryCount);
    var b := EncodeHeader(h);
    assert b[..20] == fields;
    assert b[20..24] == U32ToLe(Crc32(fields));
    assert b[0..8] == U64ToLe(h.magic);
    assert b[8..12] == U32ToLe(h.version);
    assert b[12..16] == U32ToLe(h.nextTxId);
    assert b[16..20] == U32ToLe(h.entryCount);
  }

  /** The documented layout: where each field of the header stands. */
  lemma HeaderLayout(h: Header)
    ensures var b := EncodeHeader(h);
            && b[0..8] == ToLe(h.magic, 8) && b[8..12] == ToLe(h.version, 4) && b[12..16] == ToLe(h.nextTxId, 4)
            && b[16..20] == ToLe(h.entryCount, 4) && b[20..24] == ToLe(Crc32(b[..20]), 4) && b[24..] == Zeros(40)
  {
    hide ToLe, Crc32;
    var fields := U64ToLe(h.magic) + U32ToLe(h.version) + U32ToLe(h.nextTxId) + U32ToLe(h.entryCount);
    assert EncodeHeader(h)[..20] == fields;
  }

  /** A header is read exactly from its own 24 bytes, checksum included; the padding is not looked at. */
  lemma HeaderExact(b: seq<byte>, h: Header)
    requires |b| == HEADER_SIZE
    ensures DecodeHeader(b) == Some(h) <==> b[..24] == EncodeHeader(h)[..24]
  {
    HeaderLayout(h);
    HeaderRoundTrip(h);
    var e := EncodeHeader(h);
    hide ToLe, FromLe, Crc32, EncodeHeader;
    if b[..24] == e[..24] {
      FrontSlices(b, e, 24);
    }
    if DecodeHeader(b) == Some(h) {
      Le64Exact(b[0..8]);
      Le32Exact(b[8..12]);
      Le32Exact(b[12..16]);
      Le32Exact(b[16..20]);
      Le32Exact(b[20..24]);
      assert b[..20] == b[0..8] + b[8..12] + b[12..16] + b[16..20];
      assert e[..20] == e[0..8] + e[8..12] + e[12..16] + e[16..20];
      assert b[..24] == b[..20] + b[20..24] && e[..24] == e[..20] + e[20..24];
    }
  }

  function Used(len: u32): (n: nat)
    ensures n <= PAYLOAD_SIZE
  {
    Min(len, PAYLOAD_SIZE)
  }

  function EntryFields(e: Entry): (b: seq<byte>)
    ensures |b| == 18
  {
    [e.entryType, e.state] + U32ToLe(e.txId) + U32ToLe(e.payloadLen)
    + U32ToLe(e.diskOffset % 0x1_0000_0000) + U32ToLe(e.diskOffset / 0x1_0000_0000)
  }

  /** The checksum covers the 18 bytes of fields and the part of the payload in use. */
  function EncodeEntry(e: Entry): (b: seq<byte>)
    ensures |b| == ENTRY_SIZE
  {
    EntryFields(e) + U32ToLe(Crc32(EntryFields(e) + e.payload[..Used(e.payloadLen)])) + e.payload
  }

  /** None is a free slot or a checksum mismatch: `Journal::open` stops at either. */
  function DecodeEntry(b: seq<byte>): Option<Entry>
    requires |b| == ENTRY_SIZE
  {
    var len := LeToU32(b[6..10]);
    if b[0] == ENTRY_FREE then None
    else if Crc32(b[..18] + b[22..22 + Used(len)]) != LeToU32(b[18..22]) then None
    else Some(Entry(b[0], b[1], LeToU32(b[2..6]), len,
                    LeToU32(b[14..18]) * 0x1_0000_0000 + LeToU32(b[10..14]), b[22..512]))
  }

  lemma EntryRoundTrip(e: Entry)
    requires e.entryType != ENTRY_FREE
    ensures DecodeEntry(EncodeEntry(e)) == Some(e)
  {
    hide U64ToLe, U32ToLe, LeToU64, LeToU32, ToLe, FromLe, Crc32;
    var b := EncodeEntry(e);
    var f := EntryFields(e);
    assert b[..18] == f;
    assert b[0] == f[0] && b[1] == f[1];
    assert b[2..6] == f[2..6] == U32ToLe(e.txId);
    assert b[6..10] == f[6..10] == U32ToLe(e.payloadLen);
    assert b[10..14] == f[10..14] == U32ToLe(e.diskOffset % 0x1_0000_0000);
    assert b[14..18] == f[14..18] == U32ToLe(e.diskOffset / 0x1_0000_0000);
    assert b[18..22] == U32ToLe(Crc32(f + e.payload[..Used(e.payloadLen)]));
    assert b[22..512] == e.payload;
    assert b[22..22 + Used(e.payloadLen)] == e.payload[..Used(e.payloadLen)];
  }

  /** The documented layout: where each field of an entry stands. */
  lemma EntryLayout(e: Entry)
    ensures var b := EncodeEntry(e);
            && b[0] == e.entryType && b[1] == e.state && b[2..6] == ToLe(e.txId, 4) && b[6..10] == ToLe(e.payloadLen, 4)
            && b[10..14] == ToLe(e.diskOffset % 0x1_0000_0000, 4) && b[14..18] == ToLe(e.diskOffset / 0x1_0000_0000, 4)
            && b[18..22] == ToLe(Crc32(b[..18] + e.payload[..Used(e.payloadLen)]), 4) && b[22..] == e.payload
  {
    hide ToLe, Crc32;
    var b, f := EncodeEntry(e), EntryFields(e);
    assert b[..18] == f;
    assert b[2..6] == f[2..6] && b[6..10] == f[6..10] && b[10..14] == f[10..14] && b[14..18] == f[14..18];
  }

  /** A slot is read as an entry exactly when it holds, byte by byte, what is written for that entry: anything damaged
      since, in the fields, in the payload in use or in the checksum, stops the log there. */
  lemma EntryExact(b: seq<byte>, e: Entry)
    requires |b| == ENTRY_SIZE
    ensures DecodeEntry(b) == Some(e) <==> e.entryType != ENTRY_FREE && b == EncodeEntry(e)
  {
    if e.entryType != ENTRY_FREE {
      EntryRoundTrip(e);
    }
    if DecodeEntry(b) == Some(e) {
      DecodedEntryBytes(b, e);
    }
  }

  lemma DecodedEntryBytes(b: seq<byte>, e: Entry)
    requires |b| == ENTRY_SIZE && DecodeEntry(b) == Some(e)
    ensures b == EncodeEntry(e)
  {
    hide ToLe, FromLe, Crc32;
    Le32Exact(b[2..6]);
    Le32Exact(b[6..10]);
    Le32Exact(b[10..14]);
    Le32Exact(b[14..18]);
    Le32Exact(b[18..22]);
    assert e.diskOffset % 0x1_0000_0000 == LeToU32(b[10..14]) && e.diskOffset / 0x1_0000_0000 == LeToU32(b[14..18]);
    assert EntryFields(e) == [b[0], b[1]] + b[2..6] + b[6..10] + b[10..14] + b[14..18];
    assert b[..18] == [b[0], b[1]] + b[2..6] + b[6..10] + b[10..14] + b[14..18];
    assert e.payload[..Used(e.payloadLen)] == b[22..22 + Used(e.payloadLen)];
    assert b == b[..18] + b[18..22] + b[22..512];
  }
}
