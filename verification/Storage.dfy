/** The image file, and which images a crash in the middle of a write may leave behind. */
module Storage {
  import opened Bytes
  import opened DiskImage
  import opened JournalCodec
  import opened JournalLog

  ghost predicate IsSlotWrite(off: nat, len: nat) {
    exists k :: 0 <= k < JOURNAL_SLOTS && off == SlotOffset(k) && len == ENTRY_SIZE
  }

  /** A crash during `write_all(off, data)` may leave any bytes in the range being written, and any length
      between the two. Two writes are trusted further: the 64-byte header lies inside one sector and is
      old or new, and a journal slot that tears fails its checksum. */
  ghost predicate MayLeave(before: Image, off: nat, data: seq<byte>, img: Image) {
    && |before| <= |img| <= |Overwrite(before, off, data)|
    && (forall i :: 0 <= i < |img| && !(off <= i < off + |data|) ==> img[i] == At(before, i))
    && (off == JOURNAL_OFFSET && |data| == HEADER_SIZE ==>
          img == before || img == Overwrite(before, off, data))
    && (IsSlotWrite(off, |data|) && DATA_OFFSET <= |before| ==>
          img == before || img == Overwrite(before, off, data)
          || DecodeEntry(img[off..off + ENTRY_SIZE]) == None)
  }

  ghost function CrashImages(before: Image, off: nat, data: seq<byte>): iset<Image> {
    iset img | MayLeave(before, off, data, img)
  }

  /** `left` are the crash images added on the way from `was` to `now`. */
  ghost predicate Adds(was: iset<Image>, now: iset<Image>, left: iset<Image>) {
    now == was + left
  }

  lemma AddsJoin(was: iset<Image>, mid: iset<Image>, now: iset<Image>, a: iset<Image>, b: iset<Image>)
    requires Adds(was, mid, a) && Adds(mid, now, b)
    ensures Adds(was, now, a + b)
  {
  }

  class File {
    var bytes: Image
    /** Every image some crash so far could have left. */
    ghost var crashes: iset<Image>

    constructor (bytes: Image)
      ensures this.bytes == bytes && crashes == iset{bytes}
    {
      this.bytes := bytes;
      crashes := iset{bytes};
    }

    method Write(off: nat, data: seq<byte>)
      modifies this
      ensures bytes == Overwrite(old(bytes), off, data)
      ensures Adds(old(crashes), crashes, CrashImages(old(bytes), off, data))
    {
      crashes := crashes + CrashImages(bytes, off, data);
      bytes := Overwrite(bytes, off, data);
    }

    /** `read_exact`: None when the range runs past the end of the file. */
    method Read(off: nat, len: nat) returns (r: Option<seq<byte>>)
      ensures r == if off + len <= |bytes| then Some(bytes[off..off + len]) else None
    {
      r := if off + len <= |bytes| then Some(bytes[off..off + len]) else None;
    }
  }

  // ---- what writes to the journal region do to what it says ----

  lemma HeaderWritten(img: Image, h: Header)
    requires DATA_OFFSET <= |img|
    ensures var r := Overwrite(img, JOURNAL_OFFSET, EncodeHeader(h));
            |r| == |img| && HeaderOf(r) == Some(h) && Slots(r) == Slots(img) && Blank(r) == Blank(img)
  {
    var b := EncodeHeader(h);
    var r := Overwrite(img, JOURNAL_OFFSET, b);
    assert r[JOURNAL_OFFSET..JOURNAL_OFFSET + HEADER_SIZE] == b;
    HeaderRoundTrip(h);
    forall k | 0 <= k < JOURNAL_SLOTS ensures Slot(r, k) == Slot(img, k) {
      SlotUntouched(img, r, k);
    }
    BlankIgnoresJournal(img, JOURNAL_OFFSET, b);
  }

  lemma SlotUntouched(a: Image, b: Image, k: nat)
    requires DATA_OFFSET <= |a| && DATA_OFFSET <= |b| && k < JOURNAL_SLOTS
    requires forall i :: SlotOffset(k) <= i < SlotOffset(k) + ENTRY_SIZE ==> a[i] == At(b, i)
    ensures Slot(a, k) == Slot(b, k)
  {
    assert a[SlotOffset(k)..SlotOffset(k) + ENTRY_SIZE] == b[SlotOffset(k)..SlotOffset(k) + ENTRY_SIZE];
  }

  lemma SlotLeftElsewhere(before: Image, n: nat, data: seq<byte>, img: Image)
    requires DATA_OFFSET <= |before| && n < JOURNAL_SLOTS && |data| == ENTRY_SIZE
    requires MayLeave(before, SlotOffset(n), data, img)
    ensures |img| == |before| && Blank(img) == Blank(before) && HeaderOf(img) == HeaderOf(before)
    ensures forall k :: 0 <= k < JOURNAL_SLOTS && k != n ==> Slot(img, k) == Slot(before, k)
  {
    assert Blank(img) == Blank(before);
    assert img[JOURNAL_OFFSET..JOURNAL_OFFSET + HEADER_SIZE] == before[JOURNAL_OFFSET..JOURNAL_OFFSET + HEADER_SIZE];
    forall k | 0 <= k < JOURNAL_SLOTS && k != n ensures Slot(img, k) == Slot(before, k) {
      SlotUntouched(img, before, k);
    }
  }

  /** A crash during a write to slot `n` changes at most what slot `n` says: it says what it said,
      what was written, or nothing. */
  lemma SlotLeft(before: Image, n: nat, data: seq<byte>, img: Image)
    requires DATA_OFFSET <= |before| && n < JOURNAL_SLOTS && |data| == ENTRY_SIZE
    requires MayLeave(before, SlotOffset(n), data, img)
    ensures |img| == |before| && Blank(img) == Blank(before) && HeaderOf(img) == HeaderOf(before)
    ensures Slots(img) == Slots(before) || Slots(img) == Slots(before)[n := DecodeEntry(data)]
            || Slots(img) == Slots(before)[n := None]
    ensures img == Overwrite(before, SlotOffset(n), data) ==> Slots(img) == Slots(before)[n := DecodeEntry(data)]
  {
    hide DecodeEntry, DecodeHeader, HeaderOf, Blank;
    var off := SlotOffset(n);
    SlotLeftElsewhere(before, n, data, img);
    assert IsSlotWrite(off, |data|);
    assert Slots(img) == Slots(before)[n := Slot(img, n)];
    if img == Overwrite(before, off, data) {
      assert img[off..off + ENTRY_SIZE] == data;
    }
  }

  lemma WrittenMayBeLeft(before: Image, off: nat, data: seq<byte>)
    ensures MayLeave(before, off, data, before)
    ensures MayLeave(before, off, data, Overwrite(before, off, data))
  {
  }

  /** A write outside the journal region, torn or not, leaves the journal alone. */
  lemma JournalUntouched(before: Image, off: nat, data: seq<byte>, img: Image)
    requires DATA_OFFSET <= |before| && ClearOfJournal(off, |data|)
    requires MayLeave(before, off, data, img)
    ensures |before| <= |img| && HeaderOf(img) == HeaderOf(before) && Slots(img) == Slots(before)
    ensures Log(img) == Log(before)
  {
    SameJournal(before, img);
    assert Slots(img) == Slots(before);
  }

  /** What a crash during a write leaves differs only in bytes that write covers, so any later write or
      replay over the same bytes repairs it. */
  lemma TornRepaired(before: Image, off: nat, data: seq<byte>, img: Image, es: seq<Entry>)
    requires MayLeave(before, off, data, img)
    requires forall i :: off <= i < off + |data| ==> Covered(es, i)
    requires data != [] ==> off + |data| <= End(es)
    ensures Replay(es, img) == Replay(es, before)
  {
    assert AgreeBesides(es, img, before);
    ReplayRepairs(es, img, before);
  }
}
