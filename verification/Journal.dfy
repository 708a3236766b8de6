/** The write-ahead journal (src/fs/journal.rs). Each method says what the journal region shows when it
    is done, and what it shows in every image a crash on the way may leave. */
module Journal {
  import opened Bytes
  import opened DiskImage
  import opened JournalCodec
  import opened JournalLog
  import opened Storage

  /** `img` has the content of `base` outside the journal region, a valid header, and this log. */
  ghost predicate Shows(img: Image, base: Image, log: seq<Entry>) {
    && DATA_OFFSET <= |img| && DATA_OFFSET <= |base|
    && Blank(img) == Blank(base)
    && HeaderValid(img)
    && Log(img) == log
  }

  /** Nothing stands from slot `n` on, and the header says the next id `prior` says. */
  ghost predicate Stays(img: Image, prior: Image, n: nat) {
    TailClean(img, n) && DiskNextId(img) == DiskNextId(prior)
  }

  /** Nothing stands from slot `n` on, and the header says the next id `prior` says, or already `next`. */
  ghost predicate Moves(img: Image, prior: Image, n: nat, next: u32) {
    TailClean(img, n) && (DiskNextId(img) == DiskNextId(prior) || DiskNextId(img) == next)
  }

  /** `log` with the first `j` of `es` behind it; the header has counted the transaction, or at most its first
      entry is in the log. */
  ghost predicate ShowsUpto(img: Image, base: Image, log: seq<Entry>, es: seq<Entry>, next: u32, j: nat) {
    && j <= |es| && Shows(img, base, Upto(log, es, j)) && TailClean(img, |log| + j)
    && (DiskNextId(img) == next || (j <= 1 && DiskNextId(img) == DiskNextId(base)))
  }

  /** `log` with some prefix of `es` behind it. */
  ghost predicate ShowsSome(img: Image, base: Image, log: seq<Entry>, es: seq<Entry>, next: u32) {
    exists j: nat :: ShowsUpto(img, base, log, es, next, j)
  }

  /** Every one of these images shows a prefix of the transaction behind `log`. */
  ghost predicate AllShowSome(images: iset<Image>, base: Image, log: seq<Entry>, es: seq<Entry>, next: u32) {
    forall c :: c in images ==> ShowsSome(c, base, log, es, next)
  }

  lemma AllShowSomeJoin(a: iset<Image>, b: iset<Image>, base: Image, log: seq<Entry>, es: seq<Entry>, next: u32)
    requires AllShowSome(a, base, log, es, next) && AllShowSome(b, base, log, es, next)
    ensures AllShowSome(a + b, base, log, es, next)
  {
  }

  /** `log` with the first `k` of `es` behind it. */
  ghost function Upto(log: seq<Entry>, es: seq<Entry>, k: nat): seq<Entry> {
    log + if k <= |es| then es[..k] else es
  }

  /** From `pos` on, the buffer's chunks are the entries of `es` from `k` on. */
  ghost predicate ChunksLeft(es: seq<Entry>, k: nat, tx: u32, off: u64, data: seq<byte>, pos: nat) {
    && off + |data| < 0x1_0000_0000_0000_0000 && pos <= |data| && k <= |es|
    && es[k..] == Chunks(tx, off + pos, data[pos..])
  }

  lemma AppendedShowsSome(prior: Image, base: Image, log: seq<Entry>, es: seq<Entry>, k: nat, now: Image, next: u32,
                          before: iset<Image>, after: iset<Image>)
    requires k < |es| && Shows(prior, base, Upto(log, es, k))
    requires DiskNextId(prior) == if k == 0 then DiskNextId(base) else next
    requires Shows(now, prior, Log(prior) + [es[k]])
    requires forall c :: c in before ==> Shows(c, prior, Log(prior)) && Stays(c, prior, |log| + k)
    requires forall c :: c in after ==> Shows(c, prior, Log(prior) + [es[k]]) && Moves(c, prior, |log| + k + 1, next)
    ensures Shows(now, base, Upto(log, es, k + 1)) && AllShowSome(before + after, base, log, es, next)
  {
    hide Blank, Log, HeaderValid, TailClean, DiskNextId;
    assert Upto(log, es, k) + [es[k]] == Upto(log, es, k + 1);
    forall c | c in before + after ensures ShowsSome(c, base, log, es, next) {
      assert ShowsUpto(c, base, log, es, next, if c in before then k else k + 1);
    }
  }

  lemma ChunksStart(tx: u32, off: u64, data: seq<byte>, log: seq<Entry>)
    requires off + |data| < 0x1_0000_0000_0000_0000
    ensures Upto(log, Chunks(tx, off, data), 0) == log
    ensures ChunksLeft(Chunks(tx, off, data), 0, tx, off, data, 0)
  {
    assert data[0..] == data;
  }

  lemma ChunksEnd(es: seq<Entry>, k: nat, tx: u32, off: u64, data: seq<byte>, log: seq<Entry>)
    requires ChunksLeft(es, k, tx, off, data, |data|)
    ensures Upto(log, es, k) == log + es && k == |es|
    ensures data != [] && es == Chunks(tx, off, data) ==> es != []
  {
    assert data[|data|..] == [];
    assert es[..k] == es;
  }

  /** The chunk at `pos` is the next entry of the whole chunking. */
  lemma NextChunk(es: seq<Entry>, k: nat, tx: u32, off: u64, data: seq<byte>, pos: nat, n: nat)
    requires ChunksLeft(es, k, tx, off, data, pos) && pos < |data| && n == Min(|data| - pos, PAYLOAD_SIZE)
    ensures 0 < n <= PAYLOAD_SIZE && pos + n <= |data| && k < |es|
    ensures es[k] == WriteEntryOf(ENTRY_WRITE_DATA, tx, off + pos, data[pos..pos + n])
    ensures ChunksLeft(es, k + 1, tx, off, data, pos + n)
  {
    var e := WriteEntryOf(ENTRY_WRITE_DATA, tx, off + pos, data[pos..pos + n]);
    assert data[pos..][..n] == data[pos..pos + n] && data[pos..][n..] == data[pos + n..];
    assert es[k..] == [e] + Chunks(tx, off + pos + n, data[pos + n..]);
    assert es[k] == es[k..][0] == e;
    assert es[k + 1..] == es[k..][1..];
  }

  function DiskNextId(img: Image): u32 {
    match HeaderOf(img)
    case Some(h) => h.nextTxId
    case None => 0
  }

  /** The next id on disk has not been handed out to any entry in the log. */
  ghost predicate IdsBelow(log: seq<Entry>, next: int) {
    forall e :: e in log ==> e.txId < next
  }

  /** A journal region a mount can carry on with: either the mount will clear it, or what is behind the
      log is blank and the ids in the log are spent. */
  ghost predicate Reusable(img: Image) {
    && DATA_OFFSET <= |img|
    && HeaderValid(img)
    && (|| ToReplay(Log(img)) != []
        || (TailClean(img, |Log(img)|) && IdsBelow(Log(img), DiskNextId(img))))
  }

  /** The first entry of a transaction is in the log, but the header does not count its id as handed out. */
  ghost predicate Uncounted(img: Image) {
    && DATA_OFFSET <= |img| && HeaderValid(img) && TailClean(img, |Log(img)|) && Log(img) != []
    && IdsBelow(Log(img)[..|Log(img)| - 1], DiskNextId(img)) && DiskNextId(img) <= Log(img)[|Log(img)| - 1].txId
  }

  /** Slot 0 is blank, but something stands behind it: a clear was cut short. */
  ghost predicate HalfBlank(img: Image) {
    DATA_OFFSET <= |img| && HeaderValid(img) && Log(img) == [] && !TailClean(img, 0)
  }

  /** The journal can be carried on with, unless the crash hit one of the two windows. */
  ghost predicate Carried(img: Image) {
    Reusable(img) || Uncounted(img) || HalfBlank(img)
  }

  /** `wrapping_add(1)` on a u32. */
  function NextId(id: u32): u32 {
    if id == 0xFFFF_FFFF then 0 else id + 1
  }

  /** Ids are counted modulo 2^32. */
  lemma NextIdWraps(id: u32)
    ensures NextId(id) == (id + 1) % 0x1_0000_0000
  {
  }

  class Journal {
    var header: Header
    /** Slot index of the next free entry. */
    var nextSlot: nat

    constructor (header: Header, nextSlot: nat)
      ensures this.header == header && this.nextSlot == nextSlot
    {
      this.header, this.nextSlot := header, nextSlot;
    }

    /** A new header and 512 blank slots. */
    constructor Format(file: File)
      modifies file
      ensures Tracks(file) && header == NewHeader() && Log(file.bytes) == []
      ensures HeaderOf(file.bytes) == Some(header) && header == Header(0x4A52_4E4C_0000_0001, 1, 1, 0)
      ensures |file.bytes| == Max(|old(file.bytes)|, DATA_OFFSET)
      ensures forall i :: 0 <= i < |file.bytes| && !InJournal(i) ==> file.bytes[i] == At(old(file.bytes), i)
    {
      hide Overwrite, Slot, HeaderOf, EncodeHeader, Zeros, Run, NewHeader, Formatted;
      header, nextSlot := NewHeader(), 0;
      new;
      ghost var was := file.bytes;
      file.Write(JOURNAL_OFFSET, EncodeHeader(header));
      FormatHeader(was);
      for i := 0 to JOURNAL_SLOTS
        invariant header == NewHeader() && nextSlot == 0
        invariant Formatted(was, file.bytes, i)
      {
        FormatSlot(was, file.bytes, i);
        file.Write(SlotOffset(i), Zeros(ENTRY_SIZE));
      }
      FormatDone(was, file.bytes);
    }

    /** The journal as the image has it, and the entries a mount must replay. A header that does not check out
        starts an empty journal; a read past the end of the image fails. */
    static method Open(file: File) returns (journal: Journal?, toReplay: seq<Entry>)
      ensures journal == null ==> |file.bytes| < DATA_OFFSET
      ensures journal != null ==> fresh(journal)
      ensures journal != null && DATA_OFFSET <= |file.bytes| ==>
                && toReplay == ToReplay(VisibleLog(file.bytes))
                && journal.nextSlot == |VisibleLog(file.bytes)|
                && journal.header == (if HeaderValid(file.bytes) then HeaderOf(file.bytes).value else NewHeader())
                && (HeaderValid(file.bytes) ==> Standing(file.bytes, VisibleLog(file.bytes)))
    {
      var hdrBuf := file.Read(JOURNAL_OFFSET, HEADER_SIZE);
      if hdrBuf.None? {
        return null, [];
      }
      hide DecodeEntry, DecodeHeader, Standing;
      LogStands(file.bytes, Log(file.bytes));
      var header := DecodeHeader(hdrBuf.value);
      if header.None? || header.value.magic != JOURNAL_MAGIC {
        journal := new Journal(NewHeader(), 0);
        return journal, [];
      }
      var entries := ReadEntries(file);
      if entries.None? {
        return null, [];
      }
      toReplay := ToReplay(entries.value);
      journal := new Journal(header.value, |entries.value|);
    }

    /** Reads slots up to the first free or corrupt one; None when a read fails. */
    static method ReadEntries(file: File) returns (r: Option<seq<Entry>>)
      ensures r.None? ==> |file.bytes| < DATA_OFFSET
      ensures r.Some? ==> r.value == Log(file.bytes)
    {
      hide DecodeEntry;
      var entries: seq<Entry> := [];
      var nextSlot := 0;
      for i := 0 to JOURNAL_SLOTS
        invariant nextSlot == |entries| == i
        invariant forall k :: 0 <= k < i ==> Slots(file.bytes)[k] == Some(entries[k])
      {
        var buf := file.Read(SlotOffset(i), ENTRY_SIZE);
        if buf.None? {
          return None;
        }
        match DecodeEntry(buf.value) {
          case Some(entry) =>
            entries := entries + [entry];
            nextSlot := i + 1;
          case None =>
            assert Slots(file.bytes)[i] == None;
            break;
        }
      }
      RunIs(Slots(file.bytes), entries);
      r := Some(entries);
    }

    /** The memory side agrees with the region: the log ends at `nextSlot` and nothing is behind it. */
    ghost predicate Tracks(file: File)
      reads this, file
    {
      && DATA_OFFSET <= |file.bytes|
      && HeaderValid(file.bytes)
      && header.magic == JOURNAL_MAGIC
      && nextSlot == |Log(file.bytes)|
      && TailClean(file.bytes, nextSlot)
    }

    method Begin() returns (id: u32)
      modifies this`header
      ensures id == old(header).nextTxId
      ensures header == old(header).(nextTxId := NextId(id))
    {
      id := header.nextTxId;
      header := header.(nextTxId := NextId(header.nextTxId));
    }

    method WriteEntry(file: File, e: Entry) returns (ok: bool, ghost before: iset<Image>, ghost after: iset<Image>)
      requires Tracks(file) && e.entryType != ENTRY_FREE
      modifies this, file
      ensures ok <==> old(nextSlot) < JOURNAL_SLOTS
      ensures !ok ==> header == old(header) && nextSlot == old(nextSlot) && file.bytes == old(file.bytes)
                      && before == after == iset{}
      ensures ok ==> Tracks(file) && nextSlot == old(nextSlot) + 1 && header == old(header).(entryCount := nextSlot)
                     && Shows(file.bytes, old(file.bytes), old(Log(file.bytes)) + [e])
                     && DiskNextId(file.bytes) == header.nextTxId
      ensures Adds(old(file.crashes), file.crashes, before + after)
      ensures forall c :: c in before ==> Shows(c, old(file.bytes), old(Log(file.bytes)))
                                          && Stays(c, old(file.bytes), old(nextSlot))
      ensures forall c :: c in after ==> Shows(c, old(file.bytes), old(Log(file.bytes)) + [e])
                                         && Moves(c, old(file.bytes), old(nextSlot) + 1, header.nextTxId)
    {
      hide DecodeEntry, EncodeEntry, DecodeHeader, EncodeHeader, Overwrite, CrashImages, StillWithout, AlreadyWith,
           Shows, Stays, Moves,
           Slot, Slots, Run, Log, HeaderOf, HeaderValid, TailClean;
      before, after := iset{}, iset{};
      if nextSlot >= JOURNAL_SLOTS {
        return false, before, after;
      }
      ghost var base, log := file.bytes, Log(file.bytes);
      ghost var h := header.(entryCount := nextSlot + 1);
      AppendImages(base, log, e, h);
      before, after := StillWithout(base, log, e), AlreadyWith(base, log, e, h);
      PutEntry(file, e);
      ok := true;
    }

    /** The two writes of `write_entry`: the slot, then the header with the new count. */
    method PutEntry(file: File, e: Entry)
      requires nextSlot < JOURNAL_SLOTS
      modifies this, file
      ensures nextSlot == old(nextSlot) + 1 && header == old(header).(entryCount := nextSlot)
      ensures var mid := Overwrite(old(file.bytes), SlotOffset(old(nextSlot)), EncodeEntry(e));
              && file.bytes == Overwrite(mid, JOURNAL_OFFSET, EncodeHeader(header))
              && Adds(old(file.crashes), file.crashes,
                      CrashImages(old(file.bytes), SlotOffset(old(nextSlot)), EncodeEntry(e))
                      + CrashImages(mid, JOURNAL_OFFSET, EncodeHeader(header)))
    {
      hide EncodeEntry, EncodeHeader, Overwrite, CrashImages;
      file.Write(SlotOffset(nextSlot), EncodeEntry(e));
      nextSlot := nextSlot + 1;
      header := header.(entryCount := nextSlot);
      file.Write(JOURNAL_OFFSET, EncodeHeader(header));
    }

    method LogInodeWriteAt(file: File, tx: u32, off: u64, inode: seq<byte>)
      returns (ok: bool, ghost left: iset<Image>)
      requires Tracks(file) && |inode| <= PAYLOAD_SIZE
      modifies this, file
      ensures ok <==> old(nextSlot) < JOURNAL_SLOTS
      ensures !ok ==> header == old(header) && nextSlot == old(nextSlot) && file.bytes == old(file.bytes)
      ensures ok ==> Tracks(file) && header == old(header).(entryCount := nextSlot)
                     && DiskNextId(file.bytes) == header.nextTxId
                     && Shows(file.bytes, old(file.bytes),
                              old(Log(file.bytes)) + [WriteEntryOf(ENTRY_WRITE_INODE, tx, off, inode)])
      ensures Adds(old(file.crashes), file.crashes, left)
      ensures AllShowSome(left, old(file.bytes), old(Log(file.bytes)),
                          [WriteEntryOf(ENTRY_WRITE_INODE, tx, off, inode)], header.nextTxId)
    {
      ghost var base, log := file.bytes, Log(file.bytes);
      var e := WriteEntryOf(ENTRY_WRITE_INODE, tx, off, inode);
      ghost var before, after;
      ok, before, after := WriteEntry(file, e);
      left := before + after;
      assert Upto(log, [e], 0) == log && Upto(log, [e], 1) == log + [e];
      forall c | c in left ensures ShowsSome(c, base, log, [e], header.nextTxId) {
        assert ShowsUpto(c, base, log, [e], header.nextTxId, if c in before then 0 else 1);
      }
    }

    /** One entry per 490-byte chunk; refuses up front when chunks and COMMIT together do not fit. */
    method LogDataWriteAll(file: File, tx: u32, off: u64, data: seq<byte>)
      returns (ok: bool, ghost left: iset<Image>)
      requires Tracks(file) && off + |data| < 0x1_0000_0000_0000_0000
      modifies this, file
      ensures ok <==> data == [] || old(nextSlot) + |Chunks(tx, off, data)| + 1 <= JOURNAL_SLOTS
      ensures !ok ==> header == old(header) && nextSlot == old(nextSlot) && file.bytes == old(file.bytes)
                      && left == iset{}
      ensures ok ==> Tracks(file) && header.nextTxId == old(header).nextTxId
                     && nextSlot == old(nextSlot) + |Chunks(tx, off, data)|
                     && Shows(file.bytes, old(file.bytes), old(Log(file.bytes)) + Chunks(tx, off, data))
                     && (data != [] ==> DiskNextId(file.bytes) == header.nextTxId)
      ensures Adds(old(file.crashes), file.crashes, left)
      ensures AllShowSome(left, old(file.bytes), old(Log(file.bytes)), Chunks(tx, off, data), header.nextTxId)
    {
      left := iset{};
      if data == [] {
        assert Log(file.bytes) + [] == Log(file.bytes);
        return true, left;
      }
      var needed := ChunksNeeded(|data|);
      var available := if nextSlot <= JOURNAL_SLOTS then JOURNAL_SLOTS - nextSlot else 0;
      if needed + 1 > available {
        return false, left;
      }
      left := LogChunks(file, tx, off, data);
      ok := true;
    }

    /** The first `k` of a transaction's entries are behind `log`. */
    ghost predicate Logged(file: File, base: Image, log: seq<Entry>, es: seq<Entry>, k: nat, next: u32)
      reads this, file
    {
      && Tracks(file) && header.nextTxId == next
      && k <= |es| && nextSlot == |log| + k
      && Shows(file.bytes, base, Upto(log, es, k))
      && DiskNextId(file.bytes) == if k > 0 then next else DiskNextId(base)
    }

    method LogChunks(file: File, tx: u32, off: u64, data: seq<byte>) returns (ghost left: iset<Image>)
      requires Tracks(file) && off + |data| < 0x1_0000_0000_0000_0000
      requires data != [] && nextSlot + |Chunks(tx, off, data)| <= JOURNAL_SLOTS
      modifies this, file
      ensures Tracks(file) && header.nextTxId == old(header).nextTxId && DiskNextId(file.bytes) == header.nextTxId
      ensures nextSlot == old(nextSlot) + |Chunks(tx, off, data)|
      ensures Shows(file.bytes, old(file.bytes), old(Log(file.bytes)) + Chunks(tx, off, data))
      ensures Adds(old(file.crashes), file.crashes, left)
      ensures AllShowSome(left, old(file.bytes), old(Log(file.bytes)), Chunks(tx, off, data), header.nextTxId)
    {
      hide *;
      left := iset{};
      ghost var base, log, es, next := file.bytes, Log(file.bytes), Chunks(tx, off, data), header.nextTxId;
      LoggedStart(file, es);
      ChunksStart(tx, off, data, log);
      var pos := 0;
      ghost var written := 0;
      while pos < |data|
        invariant pos <= |data| && |log| + |es| <= JOURNAL_SLOTS
        invariant ChunksLeft(es, written, tx, off, data, pos)
        invariant Logged(file, base, log, es, written, next)
        invariant Adds(old(file.crashes), file.crashes, left)
        invariant AllShowSome(left, base, log, es, next)
      {
        ghost var seen := file.crashes;
        var n; ghost var torn;
        n, torn := LogNextChunk(file, tx, off, data, pos, base, log, es, written, next);
        AllShowSomeJoin(left, torn, base, log, es, next);
        AddsJoin(old(file.crashes), seen, file.crashes, left, torn);
        left := left + torn;
        pos, written := pos + n, written + 1;
      }
      ChunksEnd(es, written, tx, off, data, log);
      LoggedEnd(file, base, log, es, next);
    }

    lemma LoggedStart(file: File, es: seq<Entry>)
      requires Tracks(file)
      ensures Logged(file, file.bytes, Log(file.bytes), es, 0, header.nextTxId)
      ensures nextSlot == |Log(file.bytes)| && Adds(file.crashes, file.crashes, iset{})
      ensures AllShowSome(iset{}, file.bytes, Log(file.bytes), es, header.nextTxId)
    {
      assert Upto(Log(file.bytes), es, 0) == Log(file.bytes);
    }

    lemma LoggedEnd(file: File, base: Image, log: seq<Entry>, es: seq<Entry>, next: u32)
      requires Logged(file, base, log, es, |es|, next) && es != []
      ensures Tracks(file) && header.nextTxId == next && DiskNextId(file.bytes) == next
      ensures nextSlot == |log| + |es| && Shows(file.bytes, base, log + es)
    {
    }

    /** Logs the chunk at `pos`. */
    method LogNextChunk(file: File, tx: u32, off: u64, data: seq<byte>, pos: nat, ghost base: Image,
                        ghost log: seq<Entry>, ghost es: seq<Entry>, ghost k: nat, ghost next: u32)
      returns (n: nat, ghost left: iset<Image>)
      requires ChunksLeft(es, k, tx, off, data, pos) && pos < |data| && |log| + |es| <= JOURNAL_SLOTS
      requires Logged(file, base, log, es, k, next)
      modifies this, file
      ensures 0 < n && pos + n <= |data| && ChunksLeft(es, k + 1, tx, off, data, pos + n)
      ensures Logged(file, base, log, es, k + 1, next)
      ensures Adds(old(file.crashes), file.crashes, left) && AllShowSome(left, base, log, es, next)
    {
      assert off + |data| < 0x1_0000_0000_0000_0000;
      hide Logged, ChunksLeft, Adds, AllShowSome;
      n := Min(|data| - pos, PAYLOAD_SIZE);
      NextChunk(es, k, tx, off, data, pos, n);
      left := LogDataWriteChunk(file, tx, off + pos, data[pos..pos + n], base, log, es, k, next);
    }

    method LogDataWriteChunk(file: File, tx: u32, off: u64, chunk: seq<byte>, ghost base: Image,
                             ghost log: seq<Entry>, ghost es: seq<Entry>, ghost k: nat, ghost next: u32)
      returns (ghost left: iset<Image>)
      requires |chunk| <= PAYLOAD_SIZE && |log| + |es| <= JOURNAL_SLOTS
      requires k < |es| && es[k] == WriteEntryOf(ENTRY_WRITE_DATA, tx, off, chunk)
      requires Logged(file, base, log, es, k, next)
      modifies this, file
      ensures Logged(file, base, log, es, k + 1, next)
      ensures Adds(old(file.crashes), file.crashes, left)
      ensures AllShowSome(left, base, log, es, next)
    {
      ghost var prior := file.bytes;
      assert es[k].entryType != ENTRY_FREE;
      hide DecodeEntry, EncodeEntry, DecodeHeader, EncodeHeader, Blank, Overwrite, Slot, Slots, Run, HeaderOf, Shows,
           DiskNextId, TailClean, HeaderValid, Log, WriteEntryOf;
      ghost var before, after;
      var ok;
      ok, before, after := WriteEntry(file, WriteEntryOf(ENTRY_WRITE_DATA, tx, off, chunk));
      left := before + after;
      AppendedShowsSome(prior, base, log, es, k, file.bytes, next, before, after);
    }

    method Commit(file: File, tx: u32) returns (ok: bool, ghost before: iset<Image>, ghost after: iset<Image>)
      requires Tracks(file)
      modifies this, file
      ensures ok <==> old(nextSlot) < JOURNAL_SLOTS
      ensures !ok ==> header == old(header) && nextSlot == old(nextSlot) && file.bytes == old(file.bytes)
                      && before == after == iset{}
      ensures ok ==> Tracks(file) && header == old(header).(entryCount := nextSlot)
                     && DiskNextId(file.bytes) == header.nextTxId
                     && Shows(file.bytes, old(file.bytes), old(Log(file.bytes)) + [CommitEntry(tx)])
      ensures Adds(old(file.crashes), file.crashes, before + after)
      ensures forall c :: c in before ==> Shows(c, old(file.bytes), old(Log(file.bytes)))
                                          && Stays(c, old(file.bytes), old(nextSlot))
      ensures forall c :: c in after ==> Shows(c, old(file.bytes), old(Log(file.bytes)) + [CommitEntry(tx)])
    {
      ok, before, after := WriteEntry(file, CommitEntry(tx));
    }

    /** Blanks the log. A crash on the way shows the whole old log or none of it. */
    method Clear(file: File) returns (ghost left: iset<Image>)
      requires DATA_OFFSET <= |file.bytes| && HeaderValid(file.bytes) && header.magic == JOURNAL_MAGIC
      modifies this, file
      ensures Tracks(file) && header == old(header).(entryCount := 0)
      ensures Shows(file.bytes, old(file.bytes), [])
      ensures DiskNextId(file.bytes) == header.nextTxId
      ensures |file.bytes| == |old(file.bytes)|
      ensures Adds(old(file.crashes), file.crashes, left)
      ensures forall c :: c in left ==>
                Shows(c, old(file.bytes), old(Log(file.bytes))) || Shows(c, old(file.bytes), [])
    {
      hide DecodeEntry, EncodeEntry, DecodeHeader, EncodeHeader, Blank, Overwrite;
      ghost var base, log := file.bytes, Log(file.bytes);
      nextSlot := 0;
      header := header.(entryCount := 0);
      file.Write(JOURNAL_OFFSET, EncodeHeader(header));
      HeaderWritten(base, header);
      left := CrashImages(base, JOURNAL_OFFSET, EncodeHeader(header));
      forall c | c in left ensures Shows(c, base, log) {
        assert c == base || c == file.bytes;
      }
      for i := 0 to JOURNAL_SLOTS
        invariant nextSlot == 0 && header == old(header).(entryCount := 0)
        invariant |file.bytes| == |base| && Blank(file.bytes) == Blank(base) && HeaderOf(file.bytes) == Some(header)
        invariant forall k :: 0 <= k < i ==> Slot(file.bytes, k) == None
        invariant i == 0 ==> Log(file.bytes) == log
        invariant Adds(old(file.crashes), file.crashes, left)
        invariant forall c :: c in left ==> Shows(c, base, log) || Shows(c, base, [])
      {
        ghost var prior := file.bytes;
        file.Write(SlotOffset(i), Zeros(ENTRY_SIZE));
        ghost var torn := CrashImages(prior, SlotOffset(i), Zeros(ENTRY_SIZE));
        forall c | c in torn ensures Shows(c, base, log) || Shows(c, base, []) {
          ClearImages(base, prior, i, c);
        }
        WrittenMayBeLeft(prior, SlotOffset(i), Zeros(ENTRY_SIZE));
        ClearImages(base, prior, i, file.bytes);
        left := left + torn;
      }
    }
  }

  /** A format has written the header and the first `n` blank slots. */
  ghost predicate Formatted(was: Image, img: Image, n: nat) {
    && n <= JOURNAL_SLOTS && |img| == Max(|was|, SlotOffset(n))
    && (forall k :: 0 <= k < |img| && !InJournal(k) ==> img[k] == At(was, k))
    && HeaderOf(img) == Some(NewHeader())
    && (forall k :: 0 <= k < n ==> Slot(img, k) == None)
  }

  lemma FormatDone(was: Image, img: Image)
    requires Formatted(was, img, JOURNAL_SLOTS)
    ensures HeaderValid(img) && HeaderOf(img) == Some(NewHeader()) && NewHeader().magic == JOURNAL_MAGIC
    ensures NewHeader() == Header(0x4A52_4E4C_0000_0001, 1, 1, 0)
    ensures Log(img) == [] && TailClean(img, 0) && |img| == Max(|was|, DATA_OFFSET)
    ensures forall i :: 0 <= i < |img| && !InJournal(i) ==> img[i] == At(was, i)
  {
    hide DecodeEntry, DecodeHeader;
    RunIs(Slots(img), []);
  }

  lemma FormatHeader(was: Image)
    ensures Formatted(was, Overwrite(was, JOURNAL_OFFSET, EncodeHeader(NewHeader())), 0)
  {
    var b := EncodeHeader(NewHeader());
    var img := Overwrite(was, JOURNAL_OFFSET, b);
    HeaderRoundTrip(NewHeader());
    hide DecodeHeader, EncodeHeader, NewHeader, Slot;
    assert img[JOURNAL_OFFSET..JOURNAL_OFFSET + HEADER_SIZE] == b;
  }

  lemma FormatSlot(was: Image, img: Image, n: nat)
    requires Formatted(was, img, n) && n < JOURNAL_SLOTS
    ensures Formatted(was, Overwrite(img, SlotOffset(n), Zeros(ENTRY_SIZE)), n + 1)
  {
    var next := Overwrite(img, SlotOffset(n), Zeros(ENTRY_SIZE));
    assert DecodeEntry(Zeros(ENTRY_SIZE)) == None;
    hide DecodeEntry, DecodeHeader, NewHeader;
    assert next[SlotOffset(n)..SlotOffset(n) + ENTRY_SIZE] == Zeros(ENTRY_SIZE);
    assert next[JOURNAL_OFFSET..JOURNAL_OFFSET + HEADER_SIZE] == img[JOURNAL_OFFSET..JOURNAL_OFFSET + HEADER_SIZE];
    forall k | 0 <= k < n ensures Slot(next, k) == Slot(img, k) {
      assert next[SlotOffset(k)..SlotOffset(k) + ENTRY_SIZE] == img[SlotOffset(k)..SlotOffset(k) + ENTRY_SIZE];
    }
    forall k | 0 <= k < |next| && !InJournal(k) ensures next[k] == At(was, k) {
      assert k < |img| ==> img[k] == At(was, k);
    }
  }

  /** Appending an entry behind a clean log: a crash shows the log without it or with it. */
  lemma SlotAppendLeft(base: Image, log: seq<Entry>, e: Entry, c: Image)
    requires DATA_OFFSET <= |base| && HeaderValid(base) && Log(base) == log && |log| < JOURNAL_SLOTS
    requires TailClean(base, |log|) && e.entryType != ENTRY_FREE
    requires MayLeave(base, SlotOffset(|log|), EncodeEntry(e), c)
    ensures |c| == |base| && Slots(c) == Slots(base) ==> Shows(c, base, log)
    ensures |c| == |base| && Slots(c) != Slots(base) ==>
              Shows(c, base, log + [e]) && Slots(c) == Slots(base)[|log| := Some(e)]
    ensures |c| == |base| && HeaderOf(c) == HeaderOf(base)
    ensures c == Overwrite(base, SlotOffset(|log|), EncodeEntry(e)) ==> Slots(c) != Slots(base)
  {
    hide DecodeEntry, EncodeEntry, DecodeHeader, Blank, MayLeave, Overwrite;
    EntryRoundTrip(e);
    SlotLeft(base, |log|, EncodeEntry(e), c);
    RunIs(Slots(base), log);
    RunIs(Slots(c), log + [e]);
    assert Slots(base)[|log|] == None;
    if Slots(c) != Slots(base) {
      assert Slots(base)[|log| := None] == Slots(base);
      assert Slots(c) == Slots(base)[|log| := Some(e)];
      if |log| + 1 < JOURNAL_SLOTS {
        assert Slot(base, |log| + 1).None?;
      }
      assert IsRun(Slots(c), log + [e]);
    }
  }

  /** The images of an interrupted `write_entry` in which the slot does not yet say `e`. */
  ghost function StillWithout(base: Image, log: seq<Entry>, e: Entry): iset<Image> {
    iset c | c in CrashImages(base, SlotOffset(|log|), EncodeEntry(e)) && DATA_OFFSET <= |c| && Slots(c) == Slots(base)
  }

  ghost function AlreadyWith(base: Image, log: seq<Entry>, e: Entry, h: Header): iset<Image> {
    (CrashImages(base, SlotOffset(|log|), EncodeEntry(e)) - StillWithout(base, log, e))
    + CrashImages(Overwrite(base, SlotOffset(|log|), EncodeEntry(e)), JOURNAL_OFFSET, EncodeHeader(h))
  }

  lemma SlotsTail(base: Image, img: Image, n: nat, e: Option<Entry>)
    requires n < JOURNAL_SLOTS && TailClean(base, n) && DATA_OFFSET <= |base| && DATA_OFFSET <= |img|
    requires Slots(img) == Slots(base)[n := e]
    ensures TailClean(img, n + 1) && (e.None? ==> TailClean(img, n))
  {
    forall k | n < k < JOURNAL_SLOTS ensures Slot(img, k) == Slot(base, k) {
      assert Slots(img)[k] == Slots(base)[k];
    }
    assert Slot(img, n) == Slots(img)[n];
  }

  lemma AppendImages(base: Image, log: seq<Entry>, e: Entry, h: Header)
    requires DATA_OFFSET <= |base| && HeaderValid(base) && Log(base) == log && |log| < JOURNAL_SLOTS
    requires TailClean(base, |log|) && e.entryType != ENTRY_FREE && h.magic == JOURNAL_MAGIC
    ensures forall c :: c in StillWithout(base, log, e) ==> Shows(c, base, log) && Stays(c, base, |log|)
    ensures forall c :: c in AlreadyWith(base, log, e, h) ==>
              Shows(c, base, log + [e]) && Moves(c, base, |log| + 1, h.nextTxId)
    ensures var r := Overwrite(Overwrite(base, SlotOffset(|log|), EncodeEntry(e)), JOURNAL_OFFSET, EncodeHeader(h));
            |r| == |base| && Shows(r, base, log + [e]) && HeaderValid(r) && Log(r) == log + [e]
                && TailClean(r, |log| + 1) && DiskNextId(r) == h.nextTxId
    ensures CrashImages(base, SlotOffset(|log|), EncodeEntry(e))
            + CrashImages(Overwrite(base, SlotOffset(|log|), EncodeEntry(e)), JOURNAL_OFFSET, EncodeHeader(h))
            == StillWithout(base, log, e) + AlreadyWith(base, log, e, h)
  {
    hide DecodeEntry, EncodeEntry, DecodeHeader, EncodeHeader, Blank, Overwrite;
    var mid := Overwrite(base, SlotOffset(|log|), EncodeEntry(e));
    var r := Overwrite(mid, JOURNAL_OFFSET, EncodeHeader(h));
    WrittenMayBeLeft(base, SlotOffset(|log|), EncodeEntry(e));
    SlotAppendLeft(base, log, e, mid);
    HeaderWritten(mid, h);
    assert Slots(r) == Slots(mid);
    forall c | c in CrashImages(base, SlotOffset(|log|), EncodeEntry(e))
      ensures c in StillWithout(base, log, e) ==> Shows(c, base, log) && Stays(c, base, |log|)
      ensures c !in StillWithout(base, log, e) ==> Shows(c, base, log + [e]) && Stays(c, base, |log| + 1)
    {
      SlotAppendLeft(base, log, e, c);
      SlotsTail(base, c, |log|, Slots(c)[|log|]);
    }
    SlotsTail(base, mid, |log|, Some(e));
    SlotsTail(base, r, |log|, Some(e));
    forall c | c in CrashImages(mid, JOURNAL_OFFSET, EncodeHeader(h)) ensures c == mid || c == r {
    }
  }

  lemma BlankFirstSlot(img: Image)
    requires DATA_OFFSET <= |img| && Slot(img, 0) == None
    ensures Log(img) == []
  {
    assert Slots(img)[0] == Slot(img, 0);
  }

  lemma SameSlots(a: Image, b: Image)
    requires DATA_OFFSET <= |a| && DATA_OFFSET <= |b| && forall k :: 0 <= k < JOURNAL_SLOTS ==> Slot(a, k) == Slot(b, k)
    ensures Log(a) == Log(b)
  {
    assert Slots(a) == Slots(b);
  }

  /** A crash while slot `i` is blanked: the slot says what it said or nothing, everything else is as it was. */
  lemma BlankingSlot(prior: Image, i: nat, c: Image)
    requires DATA_OFFSET <= |prior| && i < JOURNAL_SLOTS && MayLeave(prior, SlotOffset(i), Zeros(ENTRY_SIZE), c)
    ensures |c| == |prior| && HeaderOf(c) == HeaderOf(prior) && Blank(c) == Blank(prior)
    ensures forall k :: 0 <= k < JOURNAL_SLOTS && k != i ==> Slot(c, k) == Slot(prior, k)
    ensures Slot(c, i) == Slot(prior, i) || Slot(c, i) == None
    ensures c == Overwrite(prior, SlotOffset(i), Zeros(ENTRY_SIZE)) ==> Slot(c, i) == None
  {
    assert DecodeEntry(Zeros(ENTRY_SIZE)) == None;
    hide DecodeEntry, DecodeHeader, Blank, MayLeave, Overwrite, Zeros, HeaderOf;
    SlotLeft(prior, i, Zeros(ENTRY_SIZE), c);
    forall k | 0 <= k < JOURNAL_SLOTS && k != i ensures Slot(c, k) == Slot(prior, k) {
      assert Slots(c)[k] == Slots(prior)[k];
    }
    assert Slots(c)[i] == Slot(c, i) && Slots(prior)[i] == Slot(prior, i);
  }

  /** Blanking the slots one by one: until slot 0 goes the log is all there, from then on it is empty. */
  lemma ClearImages(base: Image, prior: Image, i: nat, c: Image)
    requires DATA_OFFSET <= |base| && |prior| == |base| && i < JOURNAL_SLOTS
    requires Blank(prior) == Blank(base) && HeaderValid(prior)
    requires if i == 0 then Log(prior) == Log(base) else Slot(prior, 0) == None
    requires MayLeave(prior, SlotOffset(i), Zeros(ENTRY_SIZE), c)
    ensures |c| == |prior| && HeaderOf(c) == HeaderOf(prior) && Blank(c) == Blank(prior)
    ensures Shows(c, base, Log(base)) || Shows(c, base, [])
    ensures forall k :: 0 <= k < JOURNAL_SLOTS && k != i ==> Slot(c, k) == Slot(prior, k)
    ensures c == Overwrite(prior, SlotOffset(i), Zeros(ENTRY_SIZE)) ==> Slot(c, i) == None
  {
    hide Slot, Log, Blank, MayLeave, Overwrite, Zeros, HeaderOf;
    BlankingSlot(prior, i, c);
    if Slot(c, 0) == None {
      BlankFirstSlot(c);
    } else {
      SameSlots(c, prior);
    }
  }
}
