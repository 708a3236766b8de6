/** What a journal region says: the log read back at mount, which entries a mount replays, and what
    the replay leaves (Journal::open in src/fs/journal.rs, DiskManager::open in src/fs/mod.rs). */
module JournalLog {
  import opened Bytes
  import opened Checksum
  import opened DiskImage
  import opened JournalCodec

  // ---- reading the region ----

  function SlotOffset(i: nat): nat {
    JOURNAL_OFFSET + HEADER_SIZE + i * ENTRY_SIZE
  }

  /** What slot `i` says; an image that ends before the slot says nothing there. */
  function Slot(img: Image, i: nat): Option<Entry> {
    if |img| < SlotOffset(i) + ENTRY_SIZE then None
    else DecodeEntry(img[SlotOffset(i)..SlotOffset(i) + ENTRY_SIZE])
  }

  function HeaderOf(img: Image): Option<Header> {
    if |img| < JOURNAL_OFFSET + HEADER_SIZE then None
    else DecodeHeader(img[JOURNAL_OFFSET..JOURNAL_OFFSET + HEADER_SIZE])
  }

  predicate HeaderValid(img: Image) {
    HeaderOf(img).Some? && HeaderOf(img).value.magic == JOURNAL_MAGIC
  }

  function Slots(img: Image): (slots: seq<Option<Entry>>)
    ensures |slots| == JOURNAL_SLOTS && forall k :: 0 <= k < JOURNAL_SLOTS ==> slots[k] == Slot(img, k)
  {
    seq(JOURNAL_SLOTS, k requires 0 <= k => Slot(img, k))
  }

  /** The entries up to the first free or corrupt slot. */
  function Run(slots: seq<Option<Entry>>): (log: seq<Entry>)
    ensures |log| <= |slots|
  {
    if slots == [] || slots[0].None? then [] else [slots[0].value] + Run(slots[1..])
  }

  function Log(img: Image): (log: seq<Entry>)
    ensures |log| <= JOURNAL_SLOTS
  {
    Run(Slots(img))
  }

  /** `Journal::open` sees no entries at all when the header does not check out. */
  function VisibleLog(img: Image): (log: seq<Entry>)
  {
    if HeaderValid(img) then Log(img) else []
  }

  predicate TailClean(img: Image, n: nat) {
    forall k :: n <= k < JOURNAL_SLOTS ==> Slot(img, k).None?
  }

  ghost predicate IsRun(slots: seq<Option<Entry>>, log: seq<Entry>) {
    && |log| <= |slots|
    && (forall k :: 0 <= k < |log| ==> slots[k] == Some(log[k]))
    && (|log| < |slots| ==> slots[|log|].None?)
  }

  /** The log is the longest run of readable slots from slot 0. */
  lemma {:induction false} RunIs(slots: seq<Option<Entry>>, log: seq<Entry>)
    ensures Run(slots) == log <==> IsRun(slots, log)
  {
    if slots != [] && slots[0].Some? {
      RunIs(slots[1..], Run(slots[1..]));
      if IsRun(slots, log) {
        RunIs(slots[1..], log[1..]);
        assert log == [log[0]] + log[1..];
      }
    }
  }

  /** Slot `k` holds, byte by byte, what is written for `e`. */
  ghost predicate Holds(img: Image, k: nat, e: Entry) {
    && SlotOffset(k) + ENTRY_SIZE <= |img| && e.entryType != ENTRY_FREE
    && img[SlotOffset(k)..SlotOffset(k) + ENTRY_SIZE] == EncodeEntry(e)
  }

  lemma SlotHolds(img: Image, k: nat, e: Entry)
    ensures Slot(img, k) == Some(e) <==> Holds(img, k, e)
  {
    hide DecodeEntry, EncodeEntry;
    if SlotOffset(k) + ENTRY_SIZE <= |img| {
      EntryExact(img[SlotOffset(k)..SlotOffset(k) + ENTRY_SIZE], e);
    }
  }

  /** The entries stand in the first slots exactly as they are written, and the slot behind them holds no entry. */
  ghost predicate Standing(img: Image, log: seq<Entry>) {
    && |log| <= JOURNAL_SLOTS
    && (forall k :: 0 <= k < |log| ==> Holds(img, k, log[k]))
    && (|log| < JOURNAL_SLOTS ==> forall e :: !Holds(img, |log|, e))
  }

  /** The log is read up to the first slot whose bytes are no entry as it is written; nothing damaged is part of it. */
  lemma LogStands(img: Image, log: seq<Entry>)
    ensures Log(img) == log <==> Standing(img, log)
  {
    hide Slot, Holds;
    RunIs(Slots(img), log);
    forall k: nat, e ensures Slot(img, k) == Some(e) <==> Holds(img, k, e) {
      SlotHolds(img, k, e);
    }
    if |log| < JOURNAL_SLOTS {
      assert Slots(img)[|log|] == Slot(img, |log|);
      if Slot(img, |log|).Some? {
        assert Holds(img, |log|, Slot(img, |log|).value);
      }
    }
  }

  /** Images with the same bytes in the journal region have the same journal. */
  lemma SameJournal(a: Image, b: Image)
    requires DATA_OFFSET <= |a| && DATA_OFFSET <= |b|
    requires forall i :: JOURNAL_OFFSET <= i < DATA_OFFSET ==> a[i] == b[i]
    ensures HeaderOf(a) == HeaderOf(b) && Log(a) == Log(b)
    ensures forall k :: 0 <= k < JOURNAL_SLOTS ==> Slot(a, k) == Slot(b, k)
  {
    assert a[JOURNAL_OFFSET..JOURNAL_OFFSET + HEADER_SIZE] == b[JOURNAL_OFFSET..JOURNAL_OFFSET + HEADER_SIZE];
    forall k | 0 <= k < JOURNAL_SLOTS ensures Slot(a, k) == Slot(b, k) {
      assert a[SlotOffset(k)..SlotOffset(k) + ENTRY_SIZE] == b[SlotOffset(k)..SlotOffset(k) + ENTRY_SIZE];
    }
    assert Slots(a) == Slots(b);
  }

  // ---- which entries a mount replays ----

  function Ids(log: seq<Entry>): set<u32> {
    set e | e in log :: e.txId
  }

  function CommittedIds(log: seq<Entry>): set<u32> {
    set e | e in log && e.entryType == ENTRY_COMMIT && e.state == STATE_WRITTEN :: e.txId
  }

  predicate IsWrite(e: Entry) {
    e.state == STATE_WRITTEN && (e.entryType == ENTRY_WRITE_INODE || e.entryType == ENTRY_WRITE_DATA)
  }

  function Select(log: seq<Entry>, ids: set<u32>): seq<Entry> {
    if log == [] then []
    else (if log[0].txId in ids && IsWrite(log[0]) then [log[0]] else []) + Select(log[1..], ids)
  }

  function ToReplay(log: seq<Entry>): seq<Entry> {
    Select(log, CommittedIds(log))
  }

  /** A mount replays an entry that is a finished write of a transaction with a finished COMMIT in the log. */
  ghost predicate Replayable(e: Entry, log: seq<Entry>) {
    && e.state == 1 && (e.entryType == 1 || e.entryType == 2)
    && exists c :: c in log && c.entryType == 4 && c.state == 1 && c.txId == e.txId
  }

  /** Exactly those entries are replayed, in the order of the log: `at` are their slots. */
  lemma ReplaysExactly(log: seq<Entry>) returns (at: seq<nat>)
    ensures |at| == |ToReplay(log)|
    ensures forall i :: 0 <= i < |at| ==> at[i] < |log| && ToReplay(log)[i] == log[at[i]]
    ensures forall i, j :: 0 <= i < j < |at| ==> at[i] < at[j]
    ensures forall k: nat :: k < |log| ==> (k in at <==> Replayable(log[k], log))
  {
    at := SelectedAt(log, CommittedIds(log));
    forall k: nat | k < |log| ensures k in at <==> Replayable(log[k], log) {
      assert log[k].txId in CommittedIds(log) <==>
             exists c :: c in log && c.entryType == 4 && c.state == 1 && c.txId == log[k].txId;
    }
  }

  /** `out` is made of the entries of `log` at the positions `at`, in order, and these are the ones wanted. */
  ghost predicate Picks(at: seq<nat>, out: seq<Entry>, log: seq<Entry>, ids: set<u32>) {
    && |at| == |out|
    && (forall i :: 0 <= i < |at| ==> at[i] < |log| && out[i] == log[at[i]])
    && (forall i, j :: 0 <= i < j < |at| ==> at[i] < at[j])
    && (forall k: nat :: k < |log| ==> (k in at <==> log[k].txId in ids && IsWrite(log[k])))
  }

  lemma PicksNext(at: seq<nat>, out: seq<Entry>, init: seq<Entry>, last: Entry, ids: set<u32>)
    requires Picks(at, out, init, ids)
    ensures if last.txId in ids && IsWrite(last) then Picks(at + [|init|], out + [last], init + [last], ids)
            else Picks(at, out + [], init + [last], ids)
  {
    hide IsWrite;
    assert out + [] == out;
  }

  lemma {:induction false} SelectedAt(log: seq<Entry>, ids: set<u32>) returns (at: seq<nat>)
    ensures Picks(at, Select(log, ids), log, ids)
  {
    hide IsWrite;
    at := [];
    if log != [] {
      hide Picks;
      var n := |log| - 1;
      var init, last := log[..n], log[n];
      assert log == init + [last];
      at := SelectedAt(init, ids);
      SelectConcat(init, [last], ids);
      SelectOne(last, ids);
      PicksNext(at, Select(init, ids), init, last, ids);
      if last.txId in ids && IsWrite(last) {
        at := at + [n];
      }
    }
  }

  lemma SelectOne(e: Entry, ids: set<u32>)
    ensures Select([e], ids) == if e.txId in ids && IsWrite(e) then [e] else []
  {
    assert [e][1..] == [];
  }

  lemma NothingToReplay()
    ensures ToReplay([]) == []
  {
  }

  /** No entry of a transaction without a COMMIT is replayed. */
  lemma {:induction false} SelectOnlyCommitted(log: seq<Entry>, ids: set<u32>)
    ensures forall e :: e in Select(log, ids) <==> e in log && e.txId in ids && IsWrite(e)
  {
    if log != [] {
      SelectOnlyCommitted(log[1..], ids);
    }
  }

  lemma {:induction false} SelectConcat(a: seq<Entry>, b: seq<Entry>, ids: set<u32>)
    ensures Select(a + b, ids) == Select(a, ids) + Select(b, ids)
  {
    if a == [] {
      assert a + b == b;
    } else {
      assert (a + b)[1..] == a[1..] + b;
      SelectConcat(a[1..], b, ids);
    }
  }

  lemma {:induction false} SelectSame(log: seq<Entry>, ids: set<u32>, ids': set<u32>)
    requires forall e :: e in log ==> (e.txId in ids <==> e.txId in ids')
    ensures Select(log, ids) == Select(log, ids')
  {
    if log != [] {
      SelectSame(log[1..], ids, ids');
    }
  }

  lemma {:induction false} SelectAll(log: seq<Entry>, ids: set<u32>)
    requires forall e :: e in log ==> e.txId in ids && IsWrite(e)
    ensures Select(log, ids) == log
  {
    if log != [] {
      SelectAll(log[1..], ids);
    }
  }

  lemma {:induction false} SelectNone(log: seq<Entry>, ids: set<u32>)
    requires forall e :: e in log ==> e.txId !in ids
    ensures Select(log, ids) == []
  {
    if log != [] {
      SelectNone(log[1..], ids);
    }
  }

  /** The writes of one transaction. */
  ghost predicate WritesOf(es: seq<Entry>, tx: u32) {
    forall e :: e in es ==> e.txId == tx && IsWrite(e)
  }

  /** Until its COMMIT is in the log, a transaction under a fresh id changes nothing a mount replays. */
  lemma UncommittedNotReplayed(log: seq<Entry>, es: seq<Entry>, tx: u32)
    requires tx !in Ids(log) && WritesOf(es, tx)
    ensures ToReplay(log + es) == ToReplay(log)
  {
    var ids := CommittedIds(log + es);
    assert ids == CommittedIds(log) by {
      forall t | t in ids ensures t in CommittedIds(log) {
        var e :| e in log + es && e.entryType == ENTRY_COMMIT && e.state == STATE_WRITTEN && e.txId == t;
        assert e in log;
      }
      forall t | t in CommittedIds(log) ensures t in ids {
        var e :| e in log && e.entryType == ENTRY_COMMIT && e.state == STATE_WRITTEN && e.txId == t;
        assert e in log + es;
      }
    }
    SelectConcat(log, es, ids);
    forall e | e in es ensures e.txId !in ids {
      if tx in CommittedIds(log) {
        assert false;
      }
    }
    SelectNone(es, ids);
  }

  /** The COMMIT adds the whole transaction, behind everything committed before it. */
  lemma CommitReplaysAll(log: seq<Entry>, es: seq<Entry>, commit: Entry)
    requires commit.txId !in Ids(log) && WritesOf(es, commit.txId)
    requires commit.entryType == ENTRY_COMMIT && commit.state == STATE_WRITTEN
    ensures ToReplay(log + es + [commit]) == ToReplay(log) + es
  {
    var all := log + es + [commit];
    var ids := CommittedIds(all);
    assert commit in all;
    assert ids == CommittedIds(log) + {commit.txId} by {
      forall t | t in ids ensures t in CommittedIds(log) + {commit.txId} {
        var e :| e in all && e.entryType == ENTRY_COMMIT && e.state == STATE_WRITTEN && e.txId == t;
        assert e in log || e == commit;
      }
      forall t | t in CommittedIds(log) ensures t in ids {
        var e :| e in log && e.entryType == ENTRY_COMMIT && e.state == STATE_WRITTEN && e.txId == t;
        assert e in all;
      }
    }
    SelectConcat(log + es, [commit], ids);
    SelectConcat(log, es, ids);
    assert forall e :: e in log ==> e.txId in Ids(log);
    SelectSame(log, ids, CommittedIds(log));
    SelectAll(es, ids);
    assert Select([commit], ids) == [] + Select([commit][1..], ids);
  }

  // ---- what a replay leaves ----

  function Data(e: Entry): seq<byte> {
    e.payload[..Used(e.payloadLen)]
  }

  function Apply(img: Image, e: Entry): Image {
    Overwrite(img, e.diskOffset, Data(e))
  }

  function Replay(es: seq<Entry>, img: Image): (r: Image)
    ensures |img| <= |r|
  {
    if es == [] then img else Replay(es[1..], Apply(img, es[0]))
  }

  lemma {:induction false} ReplayConcat(a: seq<Entry>, b: seq<Entry>, img: Image)
    ensures Replay(a + b, img) == Replay(b, Replay(a, img))
  {
    if a == [] {
      assert a + b == b;
    } else {
      assert (a + b)[1..] == a[1..] + b;
      ReplayConcat(a[1..], b, Apply(img, a[0]));
    }
  }

  predicate Covers(e: Entry, i: int) {
    e.diskOffset <= i < e.diskOffset + |Data(e)|
  }

  /** The byte the last entry covering `i`, in log order, puts there. */
  function LastWrite(es: seq<Entry>, i: nat): Option<byte> {
    if es == [] then None
    else if Covers(es[|es| - 1], i) then Some(Data(es[|es| - 1])[i - es[|es| - 1].diskOffset])
    else LastWrite(es[..|es| - 1], i)
  }

  /** Replay is last-committed-writer-wins, byte by byte; bytes nobody wrote stay. */
  lemma {:induction false} ReplayIsLastWriter(es: seq<Entry>, img: Image, i: nat)
    ensures At(Replay(es, img), i) == match LastWrite(es, i) case Some(b) => b case None => At(img, i)
  {
    if es != [] {
      var init, last := es[..|es| - 1], es[|es| - 1];
      ReplayIsLastWriter(init, img, i);
      assert es == init + [last];
      ReplayConcat(init, [last], img);
      assert Replay([last], Replay(init, img)) == Apply(Replay(init, img), last);
    }
  }

  /** Where the replay of `es` ends the file, if it grows it. */
  function End(es: seq<Entry>): nat {
    if es == [] then 0
    else Max(if Data(es[0]) == [] then 0 else es[0].diskOffset + |Data(es[0])|, End(es[1..]))
  }

  /** The images differ at most in bytes that `es` writes. */
  ghost predicate AgreeBesides(es: seq<Entry>, a: Image, b: Image) {
    && Max(|a|, End(es)) == Max(|b|, End(es))
    && forall i: nat :: !Covered(es, i) ==> At(a, i) == At(b, i)
  }

  /** A replay cannot see, and so repairs, whatever happened to the bytes it writes. */
  lemma {:induction false} ReplayRepairs(es: seq<Entry>, a: Image, b: Image)
    requires AgreeBesides(es, a, b)
    ensures Replay(es, a) == Replay(es, b)
  {
    if es == [] {
      assert |a| == |b|;
      forall i | 0 <= i < |a| ensures a[i] == b[i] {
        assert At(a, i) == At(b, i);
      }
    } else {
      var a', b' := Apply(a, es[0]), Apply(b, es[0]);
      forall i: nat | !Covered(es[1..], i) ensures At(a', i) == At(b', i) {
        if !Covers(es[0], i) {
          assert !Covered(es, i) by {
            assert forall e :: e in es ==> e == es[0] || e in es[1..];
          }
          assert At(a, i) == At(b, i);
        }
      }
      ReplayRepairs(es[1..], a', b');
    }
  }

  ghost predicate ClearOf(es: seq<Entry>) {
    forall e :: e in es ==> ClearOfJournal(e.diskOffset, |Data(e)|)
  }

  lemma {:induction false} ReplayBlank(es: seq<Entry>, img: Image)
    requires ClearOf(es)
    ensures Blank(Replay(es, img)) == Replay(es, Blank(img))
  {
    if es != [] {
      BlankOverwrite(img, es[0].diskOffset, Data(es[0]));
      ReplayBlank(es[1..], Apply(img, es[0]));
    }
  }

  /** What mounting `img` shows outside the journal region. */
  function Recovered(img: Image): Image {
    Blank(Replay(ToReplay(VisibleLog(img)), img))
  }

  // ---- chunked logging ----

  function WriteEntryOf(kind: byte, tx: u32, off: u64, data: seq<byte>): Entry
    requires |data| <= PAYLOAD_SIZE
  {
    Entry(kind, STATE_WRITTEN, tx, |data|, off, data + Zeros(PAYLOAD_SIZE - |data|))
  }

  function CommitEntry(tx: u32): Entry {
    Entry(ENTRY_COMMIT, STATE_WRITTEN, tx, 0, 0, Zeros(PAYLOAD_SIZE))
  }

  /** The bytes of the three kinds of entries that are written: kind, state, transaction, length, offset, checksum, and
      the data in front of zeros. */
  lemma WrittenBytes(tx: u32, off: u64, data: seq<byte>)
    requires |data| <= 490
    ensures EncodeEntry(WriteEntryOf(ENTRY_WRITE_INODE, tx, off, data))[0] == 1
    ensures EncodeEntry(WriteEntryOf(ENTRY_WRITE_DATA, tx, off, data))[0] == 2
    ensures forall kind :: var b := EncodeEntry(WriteEntryOf(kind, tx, off, data));
              && b[0] == kind && b[1] == 1 && b[2..6] == ToLe(tx, 4) && b[6..10] == ToLe(|data|, 4)
              && b[10..18] == ToLe(off, 8) && b[22..22 + |data|] == data && b[22 + |data|..] == Zeros(490 - |data|)
              && b[18..22] == ToLe(Crc32(b[..18] + data), 4)
    ensures var c := EncodeEntry(CommitEntry(tx)); c[0] == 4 && c[1] == 1 && c[2..6] == ToLe(tx, 4)
  {
    TwoHalves(off);
    EntryLayout(CommitEntry(tx));
    hide EncodeEntry, ToLe, Crc32;
    forall kind ensures var b := EncodeEntry(WriteEntryOf(kind, tx, off, data));
              && b[0] == kind && b[1] == 1 && b[2..6] == ToLe(tx, 4) && b[6..10] == ToLe(|data|, 4)
              && b[10..18] == ToLe(off, 8) && b[22..22 + |data|] == data && b[22 + |data|..] == Zeros(490 - |data|)
              && b[18..22] == ToLe(Crc32(b[..18] + data), 4)
    {
      var e := WriteEntryOf(kind, tx, off, data);
      var b := EncodeEntry(e);
      EntryLayout(e);
      assert b[10..18] == b[10..14] + b[14..18];
      assert b[22..22 + |data|] == b[22..][..|data|] && b[22 + |data|..] == b[22..][|data|..];
      assert e.payload[..|data|] == data;
    }
  }

  /** `len.div_ceil(490)`. */
  function ChunksNeeded(len: nat): nat {
    (len + PAYLOAD_SIZE - 1) / PAYLOAD_SIZE
  }

  /** The entries of `log_data_write_all`: one per started run of 490 bytes. */
  function Chunks(tx: u32, off: u64, data: seq<byte>): (es: seq<Entry>)
    requires off + |data| < 0x1_0000_0000_0000_0000
    ensures |es| == ChunksNeeded(|data|)
    decreases |data|
  {
    if data == [] then []
    else
      var n := Min(|data|, PAYLOAD_SIZE);
      [WriteEntryOf(ENTRY_WRITE_DATA, tx, off, data[..n])] + Chunks(tx, off + n, data[n..])
  }

  lemma WriteEntryData(kind: byte, tx: u32, off: u64, data: seq<byte>)
    requires |data| <= PAYLOAD_SIZE
    ensures Data(WriteEntryOf(kind, tx, off, data)) == data
  {
  }

  /** Applying the chunks in order equals one write of the whole buffer. */
  lemma {:induction false} ChunksAreOneWrite(tx: u32, off: u64, data: seq<byte>, img: Image)
    requires off + |data| < 0x1_0000_0000_0000_0000
    ensures Replay(Chunks(tx, off, data), img) == Overwrite(img, off, data)
    decreases |data|
  {
    hide Overwrite;
    if data == [] {
      OverwriteNothing(img, off);
    } else {
      var n := Min(|data|, PAYLOAD_SIZE);
      var es := Chunks(tx, off, data);
      WriteEntryData(ENTRY_WRITE_DATA, tx, off, data[..n]);
      assert es[1..] == Chunks(tx, off + n, data[n..]);
      ChunksAreOneWrite(tx, off + n, data[n..], Apply(img, es[0]));
      if n < |data| {
        OverwriteJoins(img, off, data[..n], data[n..]);
        assert data[..n] + data[n..] == data;
      } else {
        assert data[..n] == data && data[n..] == [];
        OverwriteNothing(Apply(img, es[0]), off + n);
      }
    }
  }

  ghost predicate Covered(es: seq<Entry>, i: int) {
    exists e :: e in es && Covers(e, i)
  }

  /** Every chunk is a write of the transaction, inside the buffer's range. */
  lemma {:induction false} ChunksWithin(tx: u32, off: u64, data: seq<byte>)
    requires off + |data| < 0x1_0000_0000_0000_0000
    ensures WritesOf(Chunks(tx, off, data), tx)
    ensures forall e :: e in Chunks(tx, off, data) ==>
              off <= e.diskOffset && e.diskOffset + |Data(e)| <= off + |data|
    decreases |data|
  {
    if data != [] {
      var n := Min(|data|, PAYLOAD_SIZE);
      var head := WriteEntryOf(ENTRY_WRITE_DATA, tx, off, data[..n]);
      WriteEntryData(ENTRY_WRITE_DATA, tx, off, data[..n]);
      ChunksWithin(tx, off + n, data[n..]);
      assert Chunks(tx, off, data) == [head] + Chunks(tx, off + n, data[n..]);
    }
  }

  /** The chunks cover every byte of the buffer's range. */
  lemma {:induction false} ChunksCover(tx: u32, off: u64, data: seq<byte>)
    requires off + |data| < 0x1_0000_0000_0000_0000
    ensures forall i :: off <= i < off + |data| ==> Covered(Chunks(tx, off, data), i)
    ensures End(Chunks(tx, off, data)) == if data == [] then 0 else off + |data|
    decreases |data|
  {
    if data != [] {
      var n := Min(|data|, PAYLOAD_SIZE);
      var head := WriteEntryOf(ENTRY_WRITE_DATA, tx, off, data[..n]);
      var rest := Chunks(tx, off + n, data[n..]);
      WriteEntryData(ENTRY_WRITE_DATA, tx, off, data[..n]);
      ChunksCover(tx, off + n, data[n..]);
      assert Chunks(tx, off, data) == [head] + rest;
      forall i | off <= i < off + |data| ensures Covered([head] + rest, i) {
        if i < off + n {
          assert Covers(head, i) && head in [head] + rest;
        } else {
          assert Covered(rest, i);
          var e :| e in rest && Covers(e, i);
          assert e in [head] + rest;
        }
      }
    }
  }
}
