/** The two crash windows after which the journal cannot be trusted with a second session, and a crash that fills the
    log for good: each with the run that gets there. */
module CrashWindows {
  import opened Bytes
  import opened DiskImage
  import opened DiskCodec
  import opened JournalCodec
  import opened JournalLog
  import opened Storage
  import opened Journal
  import opened Atomicity
  import opened InodeTable
  import opened DiskManager
  import opened CrashRuns
  import BlockZero

  // ----- the windows -----

  /** In a settled image with nothing to replay, slot |log| takes entry `e` of a fresh transaction; then the crash. */
  lemma Uncounting(base: Image, e: Entry, c: Image)
    requires Settled(base) && ToReplay(Log(base)) == [] && TailClean(base, |Log(base)|) && |Log(base)| < JOURNAL_SLOTS
    requires IdsBelow(Log(base), DiskNextId(base)) && IsWrite(e) && e.txId == DiskNextId(base)
    requires c == Overwrite(base, SlotOffset(|Log(base)|), EncodeEntry(e))
    ensures MayLeave(base, SlotOffset(|Log(base)|), EncodeEntry(e), c)
    ensures Shows(c, base, Log(base) + [e]) && TailClean(c, |Log(base)| + 1) && HeaderOf(c) == HeaderOf(base)
    ensures ToReplay(Log(c)) == [] && Recovered(c) == Blank(base) && Uncounted(c) && !Reusable(c)
  {
    ghost var log := Log(base);
    hide Blank, Overwrite, EncodeEntry, DecodeEntry, Slot, Run, ToReplay, MayLeave, HeaderOf, Ids;
    WrittenMayBeLeft(base, SlotOffset(|log|), EncodeEntry(e));
    SlotAppendLeft(base, log, e, c);
    SlotsTail(base, c, |log|, Some(e));
    FreshId(log, DiskNextId(base));
    UncommittedNotReplayed(log, [e], e.txId);
    RecoveredFromView(c, base, log + [e]);
    ReplayNothing(base);
    assert e in Log(c) && (log + [e])[..|log|] == log;
  }

  lemma FreshId(log: seq<Entry>, tx: u32)
    requires IdsBelow(log, tx)
    ensures tx !in Ids(log)
  {
  }

  lemma OrphanJoins(e: Entry, es: seq<Entry>, tx: u32, off: nat, data: seq<byte>, img: Image)
    requires IsWrite(e) && e.txId == tx && ClearOf([e]) && Transaction(es, tx, off, data)
    ensures WritesOf([e] + es, tx) && ClearOf([e] + es)
    ensures Replay([e] + es, img) == Overwrite(Apply(img, e), off, data)
  {
    assert e in [e];
    hide Overwrite, Apply, Data;
    assert ([e] + es)[1..] == es;
  }

  /** A later transaction under the same id takes the orphan `e` with it. */
  lemma OrphanReplayed(base: Image, log: seq<Entry>, e: Entry, es: seq<Entry>, tx: u32, off: nat, data: seq<byte>,
                       img: Image)
    requires ToReplay(log) == [] && tx !in Ids(log) && IsWrite(e) && e.txId == tx && ClearOf([e])
    requires Transaction(es, tx, off, data) && Shows(img, base, log + [e] + es + [CommitEntry(tx)])
    ensures Recovered(img) == Overwrite(Apply(Blank(base), e), off, data)
  {
    hide Blank, Overwrite, Apply, ToReplay, Ids, Transaction, Data, WritesOf, ClearOf, IsWrite, Recovered, Replay,
         Shows;
    OrphanJoins(e, es, tx, off, data, Blank(base));
    assert log + [e] + es + [CommitEntry(tx)] == log + ([e] + es) + [CommitEntry(tx)];
    CommitReplaysAll(log, [e] + es, CommitEntry(tx));
    assert [] + ([e] + es) == [e] + es;
    RecoveredFromView(img, base, log + [e] + es + [CommitEntry(tx)]);
  }

  lemma FirstEntry(es: seq<Entry>, tx: u32, off: nat, data: seq<byte>)
    requires Transaction(es, tx, off, data) && es != []
    ensures IsWrite(es[0]) && es[0].txId == tx && ClearOf([es[0]])
  {
    assert es[0] in es;
  }

  lemma ShowsChain(a: Image, b: Image, c: Image, log: seq<Entry>, more: seq<Entry>)
    requires Shows(b, a, log) && Shows(c, b, more)
    ensures Shows(c, a, more) && Log(b) == log
  {
    hide Blank, HeaderValid, Log;
  }

  /** What a mount makes of the image with the uncounted entry. */
  lemma OpenedUncounted(file: File, journal: Journal, base: Image, e: Entry)
    requires Shows(file.bytes, base, Log(base) + [e]) && TailClean(file.bytes, |Log(base)| + 1)
    requires HeaderOf(file.bytes) == HeaderOf(base)
    requires journal.nextSlot == |VisibleLog(file.bytes)|
    requires journal.header == if HeaderValid(file.bytes) then HeaderOf(file.bytes).value else NewHeader()
    ensures journal.nextSlot == |Log(base)| + 1 && journal.header.nextTxId == DiskNextId(base)
    ensures journal.header.magic == JOURNAL_MAGIC && HeaderValid(file.bytes) && Log(file.bytes) == Log(base) + [e]
  {
    hide Log, Blank, TailClean;
  }

  lemma BegunTracks(journal: Journal, file: File)
    requires journal.header.magic == JOURNAL_MAGIC && DATA_OFFSET <= |file.bytes| && HeaderValid(file.bytes)
    requires journal.nextSlot == |Log(file.bytes)| && TailClean(file.bytes, journal.nextSlot)
    ensures journal.Tracks(file)
  {
  }

  lemma ShownLog(img: Image, base: Image, log: seq<Entry>)
    requires Shows(img, base, log)
    ensures Log(img) == log && Blank(img) == Blank(base)
  {
  }

  lemma ImageSize(img: Image, base: Image, log: seq<Entry>)
    requires Shows(img, base, log)
    ensures DATA_OFFSET <= |img|
  {
  }

  /** The run: a crash between the slot of a transaction's first entry and the header that counts it leaves an image
      that recovers what it should; but the next mount hands the same id out again, and the COMMIT of the next
      transaction makes the mount after that replay the entry `e`, whose own COMMIT never reached the log. */
  method IdHandedOutTwice(base: Image, e: Entry, off: u64, data: seq<byte>, ghost es: seq<Entry>, ghost w: Write)
    returns (file: File, ghost crashed: Image)
    requires Settled(base) && ToReplay(Log(base)) == [] && TailClean(base, |Log(base)|)
    requires IdsBelow(Log(base), DiskNextId(base))
    requires Transaction(es, DiskNextId(base), w.off, w.data) && es != [] && e == es[0]
    requires data != [] && ClearOfJournal(off, |data|) && off + |data| < 0x1_0000_0000_0000_0000
    requires |Log(base)| + 1 + ChunksNeeded(|data|) + 1 <= JOURNAL_SLOTS
    ensures fresh(file)
    ensures MayLeave(base, SlotOffset(|Log(base)|), EncodeEntry(e), crashed)
    ensures Recovered(crashed) == Blank(base) && Uncounted(crashed) && !Reusable(crashed)
    ensures Log(file.bytes) == Log(base) + [e] + Chunks(e.txId, off, data) + [CommitEntry(e.txId)]
    ensures Blank(file.bytes) == Blank(base) && Recovered(file.bytes) == Overwrite(Apply(Blank(base), e), off, data)
  {
    hide *;
    ghost var log, tx := Log(base), DiskNextId(base);
    FirstEntry(es, tx, w.off, w.data);
    crashed := Overwrite(base, SlotOffset(|Log(base)|), EncodeEntry(e));
    Uncounting(base, e, crashed);
    file := new File(Overwrite(base, SlotOffset(|Log(base)|), EncodeEntry(e)));
    ImageSize(file.bytes, base, log + [e]);
    var journal, toReplay := Journal.Open(file);
    OpenedUncounted(file, journal, base, e);
    var id := journal.Begin();
    BegunTracks(journal, file);
    ChunksAreTransaction(id, off, data);
    var logged, left := journal.LogDataWriteAll(file, id, off, data);
    ghost var mid := file.bytes;
    ShowsChain(base, crashed, mid, log + [e], log + [e] + Chunks(id, off, data));
    var done, before, after := journal.Commit(file, id);
    ShowsChain(base, mid, file.bytes, log + [e] + Chunks(id, off, data),
               log + [e] + Chunks(id, off, data) + [CommitEntry(id)]);
    ShownLog(file.bytes, base, log + [e] + Chunks(id, off, data) + [CommitEntry(id)]);
    FreshId(log, tx);
    OrphanReplayed(base, log, e, Chunks(id, off, data), tx, off, data, file.bytes);
  }

  // ----- half a clear -----

  lemma SelectDisjoint(log: seq<Entry>, a: set<u32>, b: set<u32>)
    requires forall e :: e in log ==> e.txId !in b
    ensures Select(log, a + b) == Select(log, a)
  {
    SelectSame(log, a + b, a);
  }

  /** Logs without a common id are replayed independently. */
  lemma ReplaysApart(a: seq<Entry>, b: seq<Entry>)
    requires Ids(a) !! Ids(b)
    ensures ToReplay(a + b) == ToReplay(a) + ToReplay(b)
  {
    var ca, cb := CommittedIds(a), CommittedIds(b);
    assert CommittedIds(a + b) == ca + cb;
    forall e | e in a ensures e.txId !in cb {
      assert e.txId in Ids(a);
    }
    forall e | e in b ensures e.txId !in ca {
      assert e.txId in Ids(b);
    }
    SelectConcat(a, b, ca + cb);
    SelectDisjoint(a, ca, cb);
    SelectDisjoint(b, cb, ca);
    assert cb + ca == ca + cb;
  }

  lemma PairReplays(w: Entry, tx: u32)
    requires IsWrite(w) && w.txId == tx
    ensures ToReplay([w, CommitEntry(tx)]) == [w] && Ids([w, CommitEntry(tx)]) == {tx}
  {
    assert [w, CommitEntry(tx)] == [] + [w] + [CommitEntry(tx)];
    CommitReplaysAll([], [w], CommitEntry(tx));
    NothingToReplay();
  }

  /** What a mount replays of the end of a log it replays of the whole log. */
  lemma TailReplays(log: seq<Entry>, k: nat)
    requires k <= |log|
    ensures forall e :: e in ToReplay(log[k..]) ==> e in ToReplay(log)
  {
    SelectOnlyCommitted(log[k..], CommittedIds(log[k..]));
    SelectOnlyCommitted(log, CommittedIds(log));
    assert forall e :: e in log[k..] ==> e in log;
  }

  /** Clearing has written its header and blanked slot 0: the log reads as empty, but its end still stands. */
  lemma HalfBlanked(base: Image, h: Header, c: Image)
    requires Settled(base) && |Log(base)| >= 2 && h == HeaderOf(base).value.(entryCount := 0)
    requires c == Overwrite(Overwrite(base, JOURNAL_OFFSET, EncodeHeader(h)), SlotOffset(0), Zeros(ENTRY_SIZE))
    ensures |c| == |base| && Blank(c) == Blank(base) && HeaderOf(c) == Some(h)
    ensures Slots(c) == Slots(base)[0 := None] && Log(c) == []
    ensures Recovered(c) == Blank(base) && HalfBlank(c) && !Reusable(c)
  {
    hide Overwrite, EncodeHeader, Zeros, DecodeEntry, DecodeHeader, Blank, MayLeave, ToReplay;
    var mid := Overwrite(base, JOURNAL_OFFSET, EncodeHeader(h));
    HeaderWritten(base, h);
    WrittenMayBeLeft(mid, SlotOffset(0), Zeros(ENTRY_SIZE));
    BlankingSlot(mid, 0, c);
    SameSlotsBut(mid, c, 0, None);
    BlankFirstSlot(c);
    RunIs(Slots(base), Log(base));
    assert Slots(c)[1] == Slot(c, 1);
    NothingToReplay();
    RecoveredFromView(c, base, []);
    ReplayNothing(base);
  }

  lemma SameSlotsBut(a: Image, b: Image, n: nat, e: Option<Entry>)
    requires DATA_OFFSET <= |a| && DATA_OFFSET <= |b| && n < JOURNAL_SLOTS && Slot(b, n) == e
    requires forall k :: 0 <= k < JOURNAL_SLOTS && k != n ==> Slot(b, k) == Slot(a, k)
    ensures Slots(b) == Slots(a)[n := e]
  {
    hide Slot;
  }

  /** An entry and then a header written, whatever stands behind the entry. */
  lemma EntryPut(img: Image, n: nat, e: Entry, h: Header)
    requires DATA_OFFSET <= |img| && n < JOURNAL_SLOTS && e.entryType != ENTRY_FREE
    ensures var r := Overwrite(Overwrite(img, SlotOffset(n), EncodeEntry(e)), JOURNAL_OFFSET, EncodeHeader(h));
            |r| == |img| && Blank(r) == Blank(img) && HeaderOf(r) == Some(h) && Slots(r) == Slots(img)[n := Some(e)]
  {
    hide Overwrite, EncodeEntry, EncodeHeader, DecodeEntry, DecodeHeader, Blank, MayLeave, Slot;
    var mid := Overwrite(img, SlotOffset(n), EncodeEntry(e));
    WrittenMayBeLeft(img, SlotOffset(n), EncodeEntry(e));
    SlotLeft(img, n, EncodeEntry(e), mid);
    EntryRoundTrip(e);
    HeaderWritten(mid, h);
  }

  /** Two entries over the blank beginning of a log join what stands behind them. */
  lemma LogRejoined(slots: seq<Option<Entry>>, log: seq<Entry>, now: seq<Option<Entry>>, w: Entry, commit: Entry)
    requires |slots| == JOURNAL_SLOTS && Run(slots) == log && |log| >= 2
    requires now == slots[0 := None][0 := Some(w)][1 := Some(commit)]
    ensures Run(now) == [w, commit] + log[2..]
  {
    RunIs(slots, log);
    var joined := [w, commit] + log[2..];
    assert IsRun(now, joined) by {
      assert |joined| == |log|;
    }
    RunIs(now, joined);
  }

  /** With the new write in place, a mount replays it and then the stale end of the old log over it. */
  lemma StaleOverNew(base: Image, img: Image, w: Entry, tx: u32, off: nat, data: seq<byte>)
    requires Settled(base) && |Log(base)| >= 2 && tx !in Ids(Log(base))
    requires IsWrite(w) && w.txId == tx && w.diskOffset == off && Data(w) == data && ClearOfJournal(off, |data|)
    requires DATA_OFFSET <= |img| && HeaderValid(img) && Log(img) == [w, CommitEntry(tx)] + Log(base)[2..]
    requires Blank(img) == Overwrite(Blank(base), off, data)
    ensures Recovered(img) == Replay(ToReplay(Log(base)[2..]), Overwrite(Blank(base), off, data))
  {
    var old', stale := Log(base), ToReplay(Log(base)[2..]);
    var view := Overwrite(Blank(base), off, data);
    PairReplays(w, tx);
    assert Ids(old'[2..]) <= Ids(old') by {
      assert forall e :: e in old'[2..] ==> e in old';
    }
    ReplaysApart([w, CommitEntry(tx)], old'[2..]);
    TailReplays(old', 2);
    assert ClearOf([w] + stale);
    OverwriteTwice(Blank(base), off, data);
    hide Blank, Overwrite, ToReplay, Data, ClearOf, Ids, HeaderValid, Log;
    RecoveredFromView(img, img, [w, CommitEntry(tx)] + old'[2..]);
    assert ([w] + stale)[1..] == stale;
    assert Replay([w] + stale, view) == Replay(stale, Apply(view, w));
  }

  lemma OverwriteTwice(img: Image, off: nat, data: seq<byte>)
    ensures Overwrite(Overwrite(img, off, data), off, data) == Overwrite(img, off, data)
  {
  }

  lemma StaleRun(base: Image, c: Image, f1: Image, f2: Image, tx: u32, off: u64, data: seq<byte>, h: Header,
                 h1: Header, h2: Header)
    requires Settled(base) && |Log(base)| >= 2 && tx !in Ids(Log(base)) && DATA_OFFSET <= |c|
    requires Slots(c) == Slots(base)[0 := None] && Blank(c) == Blank(base) && h2.magic == JOURNAL_MAGIC
    requires |data| <= PAYLOAD_SIZE && ClearOfJournal(off, |data|)
    requires f1 == Overwrite(Overwrite(c, SlotOffset(0), EncodeEntry(WriteEntryOf(ENTRY_WRITE_INODE, tx, off, data))),
                             JOURNAL_OFFSET, EncodeHeader(h1))
    requires f2
             == Overwrite(Overwrite(f1, SlotOffset(1), EncodeEntry(CommitEntry(tx))), JOURNAL_OFFSET, EncodeHeader(h2))
    ensures var img := Overwrite(f2, off, data);
            && Log(img) == [WriteEntryOf(ENTRY_WRITE_INODE, tx, off, data), CommitEntry(tx)] + Log(base)[2..]
            && Blank(img) == Overwrite(Blank(base), off, data)
            && Recovered(img) == Replay(ToReplay(Log(base)[2..]), Overwrite(Blank(base), off, data))
  {
    var w := WriteEntryOf(ENTRY_WRITE_INODE, tx, off, data);
    WriteEntryData(ENTRY_WRITE_INODE, tx, off, data);
    hide Overwrite, EncodeEntry, EncodeHeader, Blank, Slots, MayLeave, Recovered, ToReplay, Replay, Ids, Data;
    EntryPut(c, 0, w, h1);
    EntryPut(f1, 1, CommitEntry(tx), h2);
    LogRejoined(Slots(base), Log(base), Slots(f2), w, CommitEntry(tx));
    WrittenMayBeLeft(f2, off, data);
    JournalUntouched(f2, off, data, Overwrite(f2, off, data));
    BlankOverwrite(f2, off, data);
    StaleOverNew(base, Overwrite(f2, off, data), w, tx, off, data);
  }

  lemma SettledHasHeader(base: Image)
    requires Settled(base)
    ensures HeaderOf(base).Some? && DATA_OFFSET <= |base|
  {
  }

  lemma OpenedBlank(base: Image, c: Image, h: Header)
    requires Settled(base) && h == HeaderOf(base).value.(entryCount := 0) && HeaderOf(c) == Some(h) && Log(c) == []
    ensures HeaderValid(c) && VisibleLog(c) == [] && h.nextTxId == DiskNextId(base) && h.magic == JOURNAL_MAGIC
    ensures HeaderValid(base) && DATA_OFFSET <= |base|
  {
  }

  /** Byte `i` of the new write survives the replay of `stale` exactly when `stale` leaves it alone or last writes the
      same there. */
  ghost predicate Survives(stale: seq<Entry>, off: nat, data: seq<byte>, i: nat) {
    off <= i < off + |data| && (LastWrite(stale, i).None? || LastWrite(stale, i) == Some(data[i - off]))
  }

  lemma StaleBytes(stale: seq<Entry>, view: Image, off: nat, data: seq<byte>)
    ensures forall i: nat :: off <= i < off + |data| ==>
              (At(Replay(stale, Overwrite(view, off, data)), i) == data[i - off] <==> Survives(stale, off, data, i))
  {
    hide LastWrite;
    forall i: nat | off <= i < off + |data|
      ensures At(Replay(stale, Overwrite(view, off, data)), i) == data[i - off] <==> Survives(stale, off, data, i)
    {
      ReplayIsLastWriter(stale, Overwrite(view, off, data), i);
      assert At(Overwrite(view, off, data), i) == data[i - off];
    }
  }

  /** The run: a crash in the middle of `clear`, behind slot 0. The image recovers what it should; but once the next
      session has journaled an inode in front and put it in place, the end of the old log is part of the log again, and
      a mount replays it over the newer write: a byte of that write reads back exactly when what is replayed does not
      put another value there. */
  method StaleReplayed(base: Image, off: u64, data: seq<byte>) returns (file: File, ghost crashed: Image)
    requires Settled(base) && |Log(base)| >= 2 && IdsBelow(Log(base), DiskNextId(base))
    requires |data| <= PAYLOAD_SIZE && ClearOfJournal(off, |data|)
    ensures fresh(file)
    ensures Recovered(crashed) == Blank(base) && HalfBlank(crashed) && !Reusable(crashed)
    ensures var tx := DiskNextId(base);
            Log(file.bytes) == [WriteEntryOf(ENTRY_WRITE_INODE, tx, off, data), CommitEntry(tx)] + Log(base)[2..]
    ensures Blank(file.bytes) == Overwrite(Blank(base), off, data)
    ensures Recovered(file.bytes) == Replay(ToReplay(Log(base)[2..]), Overwrite(Blank(base), off, data))
    ensures forall i: nat :: off <= i < off + |data| ==>
              (At(Recovered(file.bytes), i) == data[i - off] <==> Survives(ToReplay(Log(base)[2..]), off, data, i))
  {
    hide *;
    SettledHasHeader(base);
    var header := HeaderOf(base).value.(entryCount := 0);
    file := new File(base);
    file.Write(JOURNAL_OFFSET, EncodeHeader(header));
    file.Write(SlotOffset(0), Zeros(ENTRY_SIZE));
    crashed := file.bytes;
    HalfBlanked(base, header, crashed);
    OpenedBlank(base, crashed, header);
    var journal, toReplay := Journal.Open(file);
    var tx := journal.Begin();
    FreshId(Log(base), tx);
    journal.PutEntry(file, WriteEntryOf(ENTRY_WRITE_INODE, tx, off, data));
    ghost var f1, h1 := file.bytes, journal.header;
    journal.PutEntry(file, CommitEntry(tx));
    ghost var f2 := file.bytes;
    file.Write(off, data);
    StaleRun(base, crashed, f1, f2, tx, off, data, header, h1, journal.header);
    StaleBytes(ToReplay(Log(base)[2..]), Blank(base), off, data);
  }

  /** The second of two committed writes is what stands behind slot 2 of the log. */
  lemma SecondReplayed(l1: seq<Entry>, l2: seq<Entry>, off: nat, a: seq<byte>, b: seq<byte>, view: Image)
    requires Appended([], l1, off, a) && Appended(l1, l2, off, b) && |l1| == 2
    ensures |l2| >= 2 && Replay(ToReplay(l2[2..]), view) == Overwrite(view, off, b)
  {
    var es, tx: u32 :| Transaction(es, tx, off, b) && l2 == Committed(l1, es, tx);
    hide Overwrite, Replay, ToReplay;
    CommittedReplays([], es, tx);
    assert l2[2..] == Committed([], es, tx);
    assert ToReplay([]) == [] by { NothingToReplay(); }
    assert [] + es == es;
  }

  lemma SlotReads(view: Image, dir: Directory, off: nat, inode: Inode)
    requires InodeOffset(dir, 0) == Some(off)
    ensures InodeAt(Overwrite(view, off, EncodeInode(inode)), dir, 0) == inode
  {
    var b := EncodeInode(inode);
    InodeRoundTrip(inode);
    hide EncodeInode, DecodeInode, InodeOffset;
    assert Overwrite(view, off, b)[off..off + INODE_BYTES] == b;
  }

  lemma FirstSlotIs(dm: DiskManager)
    requires dm.TableLaid() && Capacity(dm.inodeTable.blockOffsets) == INODES_PER_BLOCK
    ensures 0 < Capacity(dm.inodeTable.blockOffsets) && 0 < MAX_FILES && 4 < CHECKPOINT_SLOT && 4 <= JOURNAL_SLOTS
    ensures InodeOffset(dm.inodeTable.blockOffsets, 0) == Some(INODE_TABLE_OFFSET)
            && dm.InodePlace(0) == INODE_TABLE_OFFSET
    ensures INODE_BYTES <= PAYLOAD_SIZE && ClearOfJournal(INODE_TABLE_OFFSET, INODE_BYTES)
            && INODE_TABLE_OFFSET < 0x1_0000_0000
    ensures AfterCheckpoint(2) == 2 && AfterCheckpoint(4) == 4
  {
    SlotPlace(dm.inodeTable.blockOffsets, dm.superblock.nextDataOffset, 0);
  }

  lemma MountedLogIs(dm: DiskManager)
    requires dm.Mounted()
    ensures |Log(dm.file.bytes)| == dm.journal.nextSlot && Settled(dm.file.bytes)
    ensures IdsBelow(Log(dm.file.bytes), DiskNextId(dm.file.bytes))
  {
  }

  /** On a new disk: inode `a` is written to a slot and then `b`, a clear is cut short, and the next session writes `c`
      there. The mount after that shows `b`. */
  method OlderInodeShown(disk: File, totalBlocks: u64, now: u64, a: Inode, b: Inode, c: Inode)
    returns (file: File, dir: Directory, ghost crashed: Image)
    modifies disk
    ensures fresh(file) && InodeAt(Recovered(crashed), dir, 0) == b
    ensures InodeAt(Blank(file.bytes), dir, 0) == c
    ensures InodeAt(Recovered(file.bytes), dir, 0) == b
  {
    hide *;
    var dm := NewDisk(disk, totalBlocks, now);
    dir := dm.inodeTable.blockOffsets;
    NewTable(dm);
    FirstSlotIs(dm);
    MountedLogIs(dm);
    IdAfter(1);
    EncodedSize(a);
    EncodedSize(b);
    EncodedSize(c);
    var ok; ghost var before, after;
    ok, before, after := dm.WriteInode(0, a);
    MountedLogIs(dm);
    ghost var l1, view := Log(disk.bytes), Blank(disk.bytes);
    ok, before, after := dm.WriteInode(0, b);
    MountedLogIs(dm);
    ghost var base := disk.bytes;
    SecondReplayed(l1, Log(base), INODE_TABLE_OFFSET, EncodeInode(a), EncodeInode(b),
                   Overwrite(Blank(base), INODE_TABLE_OFFSET, EncodeInode(c)));
    file, crashed := StaleReplayed(disk.bytes, INODE_TABLE_OFFSET, EncodeInode(c));
    SlotReads(view, dir, INODE_TABLE_OFFSET, b);
    SlotReads(Blank(base), dir, INODE_TABLE_OFFSET, c);
    SlotReads(Overwrite(Blank(base), INODE_TABLE_OFFSET, EncodeInode(c)), dir, INODE_TABLE_OFFSET, b);
  }

  lemma NewTable(dm: DiskManager)
    requires dm.SpaceValid()
    ensures dm.TableLaid()
  {
  }

  lemma EncodedSize(inode: Inode)
    ensures |EncodeInode(inode)| == INODE_BYTES
  {
  }

  // ----- a full log -----

  /** Operation `i` of the run puts something on the disk. */
  ghost predicate Effective(ops: seq<Op>, slot: nat, dir: Directory, i: nat) {
    i < |ops| && Outcomes(ops, slot, dir)[i] && !(ops[i].DataOp? && ops[i].data == [])
  }

  /** From 511 used slots on, nothing but an empty write ever succeeds again in a session. */
  lemma {:induction false} OnlyEmptyWrites(ops: seq<Op>, slot: nat, dir: Directory)
    requires 511 <= slot <= JOURNAL_SLOTS
    ensures 511 <= SlotAfterAll(ops, slot, dir) <= JOURNAL_SLOTS
    ensures forall i: nat :: !Effective(ops, slot, dir, i)
  {
    hide Capacity;
    if ops != [] {
      var n := |ops| - 1;
      OnlyEmptyWrites(ops[..n], slot, dir);
      forall i: nat ensures !Effective(ops, slot, dir, i) {
        assert !Effective(ops[..n], slot, dir, i);
      }
    }
  }

  /** Some run still has an operation that puts something on the disk exactly when at most 510 slots are in use. */
  lemma FullForGood(slot: nat, dir: Directory)
    requires slot <= JOURNAL_SLOTS
    ensures (exists ops, i: nat :: Effective(ops, slot, dir, i)) <==> slot <= 510
  {
    if slot <= 510 {
      var op := DataOp(DATA_OFFSET, [0]);
      assert [op][..0] == [];
      assert Effective([op], slot, dir, 0);
    } else {
      forall ops, i: nat ensures !Effective(ops, slot, dir, i) {
        OnlyEmptyWrites(ops, slot, dir);
      }
    }
  }

  /** A log without a COMMIT is as good a start as what was there before. */
  lemma LoggedSound(base: Image, img: Image, sb: Superblock, dir: Directory, es: seq<Entry>, tx: u32)
    requires Sound(base, sb, dir) && ToReplay(Log(base)) == [] && DiskNextId(base) == tx < 0xFFFF_FFFF
             && WritesOf(es, tx)
    requires Shows(img, base, Log(base) + es) && TailClean(img, |Log(base)| + |es|) && DiskNextId(img) == tx + 1
    ensures Sound(img, sb, dir) && ToReplay(Log(img)) == [] && Recovered(img) == Recovered(base)
  {
    hide Blank, ToReplay, DiskNextId, TailClean, HeaderValid, Laid, BlockZero.LoadSuperblock, LoadDirectory, Ids, Log;
    FreshId(Log(base), tx);
    UncommittedNotReplayed(Log(base), es, tx);
    RecoveredFromView(img, base, Log(base) + es);
    RecoveredFromView(base, base, Log(base));
    assert IdsBelow(Log(img), tx + 1);
    assert Sound(img, sb, dir) by {
      NothingRun(img, base, dir);
      CrashSound(img, base, [], [], sb, dir);
    }
  }

  lemma NothingRun(img: Image, base: Image, dir: Directory)
    requires Recovered(img) == Recovered(base)
    ensures ShowsPrefix(img, Recovered(base), [], [], dir) && AllOpsFit([], [], dir)
  {
    assert ShowsFirst(img, Recovered(base), [], [], dir, 0);
  }

  lemma OpenedSound(file: File, journal: Journal, sb: Superblock, dir: Directory)
    requires Sound(file.bytes, sb, dir) && ToReplay(Log(file.bytes)) == []
    requires journal.nextSlot == |VisibleLog(file.bytes)|
    requires journal.header == if HeaderValid(file.bytes) then HeaderOf(file.bytes).value else NewHeader()
    ensures journal.header.magic == JOURNAL_MAGIC && journal.header.nextTxId == DiskNextId(file.bytes)
    ensures journal.nextSlot == |Log(file.bytes)| && TailClean(file.bytes, journal.nextSlot)
  {
    hide ToReplay, Log, TailClean, Laid, LoadDirectory, BlockZero.LoadSuperblock;
  }

  lemma DataInRange(off: u64, data: seq<byte>, tx: u32, slot: nat)
    requires Admissible(DataOp(off, data)) && slot + ChunksNeeded(|data|) == 511
    ensures off + |data| < 0x1_0000_0000_0000_0000
    ensures slot + |Chunks(tx, off, data)| == 511 && 511 + 1 <= JOURNAL_SLOTS
  {
  }

  lemma IdAfter(tx: u32)
    requires tx < 0xFFFF_FFFF
    ensures NextId(tx) == tx + 1
  {
  }

  lemma LoggedTail(journal: Journal, file: File, n: nat)
    requires journal.Tracks(file) && journal.nextSlot == n
    ensures TailClean(file.bytes, n)
  {
  }

  lemma FullSlot(img: Image, base: Image, es: seq<Entry>)
    requires Shows(img, base, Log(base) + es) && ToReplay(Log(img)) == [] && |Log(base)| + |es| == 511
    ensures MountSlot(img) == 511
  {
    hide ToReplay, Log, Blank;
  }

  lemma {:induction false} NothingKept(ops: seq<Op>, slot: nat, dir: Directory, view: Image)
    requires forall i: nat :: !Effective(ops, slot, dir, i)
    ensures Fold(Kept(ops, Outcomes(ops, slot, dir), dir), view) == view
  {
    hide Overwrite, InodeOffset, EncodeInode, Capacity;
    if ops != [] {
      var n, oks := |ops| - 1, Outcomes(ops, slot, dir);
      assert oks[..n] == Outcomes(ops[..n], slot, dir);
      forall i: nat ensures !Effective(ops[..n], slot, dir, i) {
        assert !Effective(ops, slot, dir, i);
      }
      NothingKept(ops[..n], slot, dir, view);
      assert !Effective(ops, slot, dir, n);
      var front := Kept(ops[..n], oks[..n], dir);
      if oks[n] {
        FoldNext(front, Effect(ops[n], dir), view);
        OverwriteNothing(view, Effect(ops[n], dir).off);
      } else {
        assert front + [] == front;
      }
    }
  }

  /** The run: a crash before the COMMIT of a write that takes the log to 511 entries. A mount keeps that log, since
      nothing in it can be replayed and so it is not cleared, and in the session on it every write that is not empty is
      refused. */
  method Stranded(file: File, off: u64, data: seq<byte>, ops: seq<Op>, ghost sb: Superblock, ghost dir: Directory)
    returns (oks: seq<bool>, ghost crashed: Image)
    requires Sound(file.bytes, sb, dir) && ToReplay(Log(file.bytes)) == []
    requires Admissible(DataOp(off, data)) && |Log(file.bytes)| + ChunksNeeded(|data|) == 511 && data != []
    requires forall op :: op in ops ==> Admissible(op)
    requires DiskNextId(file.bytes) + 1 + |ops| < 0x1_0000_0000
    modifies file
    ensures Log(crashed) == old(Log(file.bytes)) + Chunks(DiskNextId(old(file.bytes)), off, data)
            && MountSlot(crashed) == 511
    ensures Sound(crashed, sb, dir) && Recovered(crashed) == Recovered(old(file.bytes))
    ensures oks == Outcomes(ops, MountSlot(crashed), dir)
            && forall i: nat :: !Effective(ops, MountSlot(crashed), dir, i)
    ensures Recovered(file.bytes) == Recovered(old(file.bytes))
  {
    hide *;
    ghost var base := file.bytes;
    SoundStart(base, sb, dir);
    var journal, toReplay := Journal.Open(file);
    OpenedSound(file, journal, sb, dir);
    var tx := journal.Begin();
    BegunTracks(journal, file);
    DataInRange(off, data, tx, |Log(base)|);
    var ok, left := journal.LogDataWriteAll(file, tx, off, data);
    crashed := file.bytes;
    ChunksWithin(tx, off, data);
    IdAfter(tx);
    LoggedTail(journal, file, |Log(base)| + |Chunks(tx, off, data)|);
    LoggedSound(base, crashed, sb, dir, Chunks(tx, off, data), tx);
    FullSlot(crashed, base, Chunks(tx, off, data));
    ghost var more;
    oks, more := MountAndRun(file, ops, sb, dir);
    OnlyEmptyWrites(ops, MountSlot(crashed), dir);
    NothingKept(ops, MountSlot(crashed), dir, Recovered(crashed));
  }
}
