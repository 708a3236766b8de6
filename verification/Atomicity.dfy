/** Why a journaled write is atomic: what each stage of it lets a mount recover. */
module Atomicity {
  import opened Bytes
  import opened DiskImage
  import opened JournalCodec
  import opened JournalLog
  import opened Storage
  import opened Journal

  /** `es` are the writes of transaction `tx` that put `data` at `off`, and nothing else. */
  ghost predicate Transaction(es: seq<Entry>, tx: u32, off: nat, data: seq<byte>) {
    && data != [] && ClearOfJournal(off, |data|)
    && WritesOf(es, tx) && ClearOf(es)
    && (forall e :: e in es ==> off <= e.diskOffset && e.diskOffset + |Data(e)| <= off + |data|)
    && (forall i :: off <= i < off + |data| ==> Covered(es, i))
    && End(es) == off + |data|
    && (forall img :: Replay(es, img) == Overwrite(img, off, data))
  }

  lemma ChunksAreTransaction(tx: u32, off: u64, data: seq<byte>)
    requires data != [] && off + |data| < 0x1_0000_0000_0000_0000 && ClearOfJournal(off, |data|)
    ensures Transaction(Chunks(tx, off, data), tx, off, data)
  {
    hide Chunks, Overwrite, Replay;
    ChunksWithin(tx, off, data);
    ChunksCover(tx, off, data);
    forall img ensures Replay(Chunks(tx, off, data), img) == Overwrite(img, off, data) {
      ChunksAreOneWrite(tx, off, data, img);
    }
  }

  lemma InodeIsTransaction(tx: u32, off: u64, inode: seq<byte>)
    requires inode != [] && |inode| <= PAYLOAD_SIZE && ClearOfJournal(off, |inode|)
    ensures Transaction([WriteEntryOf(ENTRY_WRITE_INODE, tx, off, inode)], tx, off, inode)
  {
    var e := WriteEntryOf(ENTRY_WRITE_INODE, tx, off, inode);
    WriteEntryData(ENTRY_WRITE_INODE, tx, off, inode);
    assert End([e]) == Max(off + |inode|, End([e][1..]));
    hide Overwrite;
    forall i | off <= i < off + |inode| ensures Covered([e], i) {
      assert Covers(e, i) && e in [e];
    }
    forall img ensures Replay([e], img) == Overwrite(img, off, inode) {
      assert Replay([e], img) == Replay([], Apply(img, e));
    }
  }

  /** What a mount recovers depends only on the content outside the journal and on the log. */
  lemma RecoveredFromView(c: Image, base: Image, log: seq<Entry>)
    requires Shows(c, base, log) && ClearOf(ToReplay(log))
    ensures Recovered(c) == Replay(ToReplay(log), Blank(base))
  {
    ReplayBlank(ToReplay(log), c);
  }

  /** The state between operations: nothing committed is missing in place. */
  ghost predicate Settled(img: Image) {
    && DATA_OFFSET <= |img| && HeaderValid(img)
    && ClearOf(ToReplay(Log(img))) && Recovered(img) == Blank(img)
  }

  lemma LogPrefixUnreplayed(log: seq<Entry>, es: seq<Entry>, tx: u32, j: nat)
    requires tx !in Ids(log) && WritesOf(es, tx) && j <= |es|
    ensures ToReplay(Upto(log, es, j)) == ToReplay(log) && tx !in CommittedIds(Upto(log, es, j))
  {
    UncommittedNotReplayed(log, es[..j], tx);
    forall e | e in log + es[..j] && e.txId == tx ensures e.entryType != ENTRY_COMMIT {
      assert e in log ==> tx in Ids(log);
    }
  }

  /** Before the COMMIT is in the log, a mount recovers the old state. */
  lemma BeforeCommit(c: Image, base: Image, log: seq<Entry>, es: seq<Entry>, tx: u32, j: nat)
    requires Settled(base) && Log(base) == log && tx !in Ids(log) && WritesOf(es, tx)
    requires j <= |es| && Shows(c, base, Upto(log, es, j))
    ensures Recovered(c) == Blank(base) && tx !in CommittedIds(Log(c))
    ensures ToReplay(Log(c)) == ToReplay(log)
  {
    LogPrefixUnreplayed(log, es, tx, j);
    RecoveredFromView(c, base, Upto(log, es, j));
    RecoveredFromView(base, base, log);
  }

  /** The log with the whole transaction and its COMMIT behind it. */
  function Committed(log: seq<Entry>, es: seq<Entry>, tx: u32): seq<Entry> {
    log + es + [CommitEntry(tx)]
  }

  /** `now` is `log` with a transaction behind it that puts `data` at `off`, whole and committed. */
  ghost predicate Appended(log: seq<Entry>, now: seq<Entry>, off: nat, data: seq<byte>) {
    exists es, tx: u32 :: Transaction(es, tx, off, data) && now == Committed(log, es, tx)
  }

  lemma CommittedReplays(log: seq<Entry>, es: seq<Entry>, tx: u32)
    requires tx !in Ids(log) && WritesOf(es, tx)
    ensures ToReplay(Committed(log, es, tx)) == ToReplay(log) + es
    ensures tx in CommittedIds(Committed(log, es, tx))
  {
    CommitReplaysAll(log, es, CommitEntry(tx));
    assert CommitEntry(tx) in Committed(log, es, tx);
  }

  /** Once the COMMIT is in the log, a mount recovers the new state, though nothing is in place yet. */
  lemma AfterCommit(c: Image, base: Image, log: seq<Entry>, es: seq<Entry>, tx: u32, off: nat, data: seq<byte>)
    requires Settled(base) && Log(base) == log && tx !in Ids(log) && Transaction(es, tx, off, data)
    requires Shows(c, base, Committed(log, es, tx))
    ensures Recovered(c) == Overwrite(Blank(base), off, data) && tx in CommittedIds(Log(c))
    ensures ClearOf(ToReplay(Log(c)))
  {
    hide Replay, Overwrite, Blank;
    CommittedReplays(log, es, tx);
    assert ClearOf(ToReplay(log) + es) by {
      assert ClearOf(ToReplay(log));
    }
    RecoveredFromView(c, base, Committed(log, es, tx));
    RecoveredFromView(base, base, log);
    ReplayConcat(ToReplay(log), es, Blank(base));
  }

  lemma {:induction false} EndOfConcat(a: seq<Entry>, b: seq<Entry>)
    ensures End(a + b) == Max(End(a), End(b))
  {
    if a == [] {
      assert a + b == b;
    } else {
      assert (a + b)[1..] == a[1..] + b;
      EndOfConcat(a[1..], b);
    }
  }

  /** Whatever a crash during the in-place write leaves, the replay of the committed log repairs. */
  lemma TornInPlace(now: Image, c: Image, log: seq<Entry>, es: seq<Entry>, tx: u32, off: nat, data: seq<byte>)
    requires DATA_OFFSET <= |now| && HeaderValid(now) && Log(now) == Committed(log, es, tx)
    requires tx !in Ids(log) && Transaction(es, tx, off, data)
    requires MayLeave(now, off, data, c)
    ensures Recovered(c) == Recovered(now) && HeaderValid(c) && Log(c) == Log(now) && DATA_OFFSET <= |c|
    ensures Slots(c) == Slots(now) && HeaderOf(c) == HeaderOf(now)
  {
    JournalUntouched(now, off, data, c);
    CommittedReplays(log, es, tx);
    var rs := ToReplay(log) + es;
    hide MayLeave, Replay, Overwrite, Blank, Slots, Run, HeaderOf, Committed, ToReplay;
    forall i | off <= i < off + |data| ensures Covered(rs, i) {
      assert Covered(es, i);
      var e :| e in es && Covers(e, i);
      assert e in rs;
    }
    EndOfConcat(ToReplay(log), es);
    TornRepaired(now, off, data, c, rs);
  }

  /** With the write in place the manager is settled again, on the new content. */
  lemma InPlace(base: Image, now: Image, log: seq<Entry>, es: seq<Entry>, tx: u32, off: nat, data: seq<byte>)
    requires Settled(base) && Log(base) == log && tx !in Ids(log) && Transaction(es, tx, off, data)
    requires Shows(now, base, Committed(log, es, tx))
    ensures var done := Overwrite(now, off, data);
            && Settled(done) && Blank(done) == Overwrite(Blank(base), off, data)
            && Log(done) == Log(now) && Slots(done) == Slots(now) && HeaderOf(done) == HeaderOf(now)
  {
    hide Replay, Overwrite, Blank, Slots, Run, HeaderOf, MayLeave;
    WrittenMayBeLeft(now, off, data);
    TornInPlace(now, Overwrite(now, off, data), log, es, tx, off, data);
    AfterCommit(now, base, log, es, tx, off, data);
    BlankOverwrite(now, off, data);
  }

  /** Clearing a settled log: all of it or none of it recovers the same. */
  lemma Checkpoint(base: Image, c: Image)
    requires Settled(base)
    requires Shows(c, base, Log(base)) || Shows(c, base, [])
    ensures Recovered(c) == Blank(base)
    ensures Log(c) == Log(base) || Log(c) == []
  {
    hide Blank, Replay;
    RecoveredFromView(base, base, Log(base));
    assert ToReplay([]) == [];
    if Shows(c, base, []) {
      RecoveredFromView(c, base, []);
      ReplayNothing(base);
    } else {
      RecoveredFromView(c, base, Log(base));
    }
  }

  lemma ReplayNothing(base: Image)
    ensures Replay([], Blank(base)) == Blank(base)
  {
  }

  /** This crash image recovers the state of `base`, and the COMMIT of `tx` is not in its log. Unless the ids wrap,
      its journal can be carried on with, or the crash hit one of the two windows. */
  ghost predicate IsOld(c: Image, base: Image, tx: u32) {
    && Recovered(c) == Blank(base) && tx !in CommittedIds(Log(c)) && ToReplay(Log(c)) == ToReplay(Log(base))
    && (tx < 0xFFFF_FFFF ==> Carried(c))
  }

  ghost predicate AllOld(images: iset<Image>, base: Image, tx: u32) {
    forall c :: c in images ==> IsOld(c, base, tx)
  }

  /** A mount replays from `now` only what it replayed from `was`, and writes inside the `len` bytes at `off`. */
  ghost predicate ReplaysWithin(now: seq<Entry>, was: seq<Entry>, off: nat, len: nat) {
    forall e :: e in ToReplay(now) ==>
      e in ToReplay(was) || (off <= e.diskOffset && e.diskOffset + |Data(e)| <= off + len)
  }

  lemma CommittedReplaysWithin(log: seq<Entry>, es: seq<Entry>, tx: u32, off: nat, data: seq<byte>)
    requires tx !in Ids(log) && Transaction(es, tx, off, data)
    ensures ReplaysWithin(Committed(log, es, tx), log, off, |data|) && ReplaysWithin([], log, off, |data|)
  {
    hide Overwrite, Replay, Data, End;
    TransactionWrites(es, tx, off, data);
    CommittedReplays(log, es, tx);
    assert ToReplay([]) == [];
  }

  /** This one recovers it with `data` at `off`; the COMMIT is in its log unless a checkpoint has emptied it. */
  ghost predicate IsNew(c: Image, base: Image, tx: u32, off: nat, data: seq<byte>) {
    && Recovered(c) == Overwrite(Blank(base), off, data) && (tx in CommittedIds(Log(c)) || Log(c) == [])
    && ReplaysWithin(Log(c), Log(base), off, |data|) && Carried(c)
  }

  ghost predicate AllNew(images: iset<Image>, base: Image, tx: u32, off: nat, data: seq<byte>) {
    forall c :: c in images ==> IsNew(c, base, tx, off, data)
  }

  /** While a transaction is logged, the journal can be carried on with as soon as the header has counted it. */
  lemma LoggingCarried(c: Image, base: Image, log: seq<Entry>, es: seq<Entry>, tx: u32, j: nat)
    requires WritesOf(es, tx) && IdsBelow(log, DiskNextId(base)) && DiskNextId(base) <= tx < 0xFFFF_FFFF
    requires ShowsUpto(c, base, log, es, tx + 1, j)
    ensures Carried(c)
  {
    hide Blank, HeaderValid, TailClean, DiskNextId, ToReplay, Log;
    var now := Upto(log, es, j);
    assert forall e :: e in es[..j] ==> e in es;
    if DiskNextId(c) == tx + 1 {
      assert IdsBelow(now, tx + 1);
    } else if j == 0 {
      assert now == log;
    } else {
      assert now[..|now| - 1] == log && now[|now| - 1] == es[0];
    }
  }

  /** A log with a committed transaction is cleared by the mount that replays it. */
  lemma CommittedCarried(c: Image, log: seq<Entry>, es: seq<Entry>, tx: u32, off: nat, data: seq<byte>)
    requires tx !in Ids(log) && Transaction(es, tx, off, data)
    requires DATA_OFFSET <= |c| && HeaderValid(c) && Log(c) == Committed(log, es, tx)
    ensures Carried(c)
  {
    assert Covered(es, off);
    hide HeaderValid, Log, TailClean, ToReplay;
    TransactionWrites(es, tx, off, data);
    CommittedReplays(log, es, tx);
  }

  /** Stage 1, logging: every image is old. */
  lemma LoggingImages(left: iset<Image>, base: Image, log: seq<Entry>, es: seq<Entry>, tx: u32, next: u32)
    requires Settled(base) && Log(base) == log && tx !in Ids(log) && WritesOf(es, tx)
    requires IdsBelow(log, DiskNextId(base)) && DiskNextId(base) <= tx && next == NextId(tx)
    requires AllShowSome(left, base, log, es, next)
    ensures AllOld(left, base, tx)
  {
    hide Recovered, Blank, Settled, CommittedIds, Ids, WritesOf, Carried, DiskNextId, Shows, TailClean;
    forall c | c in left ensures IsOld(c, base, tx) {
      var j: nat :| ShowsUpto(c, base, log, es, next, j);
      BeforeCommit(c, base, log, es, tx, j);
      if tx < 0xFFFF_FFFF {
        LoggingCarried(c, base, log, es, tx, j);
      }
    }
  }

  /** Stage 2, the COMMIT: old until it is in the log, new from then on. */
  lemma CommitImages(before: iset<Image>, after: iset<Image>, mid: Image, base: Image, log: seq<Entry>, es: seq<Entry>,
                     tx: u32, off: nat, data: seq<byte>)
    requires Settled(base) && Log(base) == log && tx !in Ids(log) && Transaction(es, tx, off, data)
    requires IdsBelow(log, DiskNextId(base)) && DiskNextId(base) <= tx && DiskNextId(mid) == NextId(tx)
    requires Shows(mid, base, log + es)
    requires forall c :: c in before ==> Shows(c, mid, Log(mid)) && Stays(c, mid, |log| + |es|)
    requires forall c :: c in after ==> Shows(c, mid, Log(mid) + [CommitEntry(tx)])
    ensures AllOld(before, base, tx) && AllNew(after, base, tx, off, data)
  {
    assert Upto(log, es, |es|) == log + es;
    hide Recovered, Settled, CommittedIds, Ids, Upto, Transaction, Overwrite, Carried, ReplaysWithin, ToReplay;
    assert WritesOf(es, tx) by { TransactionWrites(es, tx, off, data); }
    hide Blank;
    forall c | c in before ensures IsOld(c, base, tx) {
      assert Shows(c, base, Upto(log, es, |es|));
      BeforeCommit(c, base, log, es, tx, |es|);
      if tx < 0xFFFF_FFFF {
        LoggingCarried(c, base, log, es, tx, |es|);
      }
    }
    forall c | c in after ensures IsNew(c, base, tx, off, data) {
      assert Shows(c, base, Committed(log, es, tx));
      AfterCommit(c, base, log, es, tx, off, data);
      CommittedCarried(c, log, es, tx, off, data);
      CommittedReplaysWithin(log, es, tx, off, data);
    }
  }

  lemma TransactionWrites(es: seq<Entry>, tx: u32, off: nat, data: seq<byte>)
    requires Transaction(es, tx, off, data)
    ensures WritesOf(es, tx)
  {
  }

  /** Stage 3, the write in place: however it tears, new. */
  lemma InPlaceImages(now: Image, base: Image, log: seq<Entry>, es: seq<Entry>, tx: u32, off: nat, data: seq<byte>)
    requires Settled(base) && Log(base) == log && tx !in Ids(log) && Transaction(es, tx, off, data)
    requires Shows(now, base, Committed(log, es, tx))
    ensures AllNew(CrashImages(now, off, data), base, tx, off, data)
  {
    hide Recovered, Settled, Ids, Transaction, Overwrite, MayLeave, Committed, CommittedIds, Carried, ReplaysWithin;
    forall c | c in CrashImages(now, off, data) ensures IsNew(c, base, tx, off, data) {
      TornInPlace(now, c, log, es, tx, off, data);
      AfterCommit(now, base, log, es, tx, off, data);
      CommittedCarried(c, log, es, tx, off, data);
      CommittedReplaysWithin(log, es, tx, off, data);
    }
  }

  /** Stage 4, the checkpoint: new, with the whole log or with none. */
  lemma CheckpointImages(left: iset<Image>, done: Image, base: Image, log: seq<Entry>, es: seq<Entry>, tx: u32,
                         off: nat, data: seq<byte>)
    requires Settled(done) && Log(done) == Committed(log, es, tx) && Log(base) == log
             && Blank(done) == Overwrite(Blank(base), off, data)
    requires forall c :: c in left ==> Shows(c, done, Log(done)) || Shows(c, done, [])
    requires tx !in Ids(log) && Transaction(es, tx, off, data)
    ensures AllNew(left, base, tx, off, data)
  {
    assert WritesOf(es, tx);
    hide Recovered, Settled, Ids, Overwrite, Committed, CommittedIds, Shows, Blank, Carried, Transaction, ReplaysWithin;
    CommittedReplays(log, es, tx);
    forall c | c in left ensures IsNew(c, base, tx, off, data) {
      Checkpoint(done, c);
      ClearingCarried(done, c, log, es, tx, off, data);
      CommittedReplaysWithin(log, es, tx, off, data);
    }
  }

  /** An empty log can be carried on with unless something stands behind it. */
  lemma ClearingCarried(done: Image, c: Image, log: seq<Entry>, es: seq<Entry>, tx: u32, off: nat, data: seq<byte>)
    requires Log(done) == Committed(log, es, tx) && tx !in Ids(log) && Transaction(es, tx, off, data)
    requires Shows(c, done, Log(done)) || Shows(c, done, [])
    ensures Carried(c)
  {
    hide Transaction, Blank, Ids, Committed, TailClean, DiskNextId;
    if Log(c) == Log(done) {
      CommittedCarried(c, log, es, tx, off, data);
    }
  }

  lemma AllNewJoin(a: iset<Image>, b: iset<Image>, base: Image, tx: u32, off: nat, data: seq<byte>)
    requires AllNew(a, base, tx, off, data) && AllNew(b, base, tx, off, data)
    ensures AllNew(a + b, base, tx, off, data)
  {
    hide IsNew;
  }

  lemma AllOldJoin(a: iset<Image>, b: iset<Image>, base: Image, tx: u32)
    requires AllOld(a, base, tx) && AllOld(b, base, tx)
    ensures AllOld(a + b, base, tx)
  {
    hide IsOld;
  }

  lemma NoImages(base: Image, tx: u32, off: nat, data: seq<byte>)
    ensures AllOld(iset{}, base, tx) && AllNew(iset{}, base, tx, off, data)
  {
  }

  // ---- the state between operations ----

  /** Everything a mount would replay lies in [lo, hi). */
  ghost predicate LogWithin(log: seq<Entry>, lo: nat, hi: nat) {
    forall e :: e in ToReplay(log) ==> lo <= e.diskOffset && e.diskOffset + |Data(e)| <= hi
  }

  /** The image side of a mounted disk: nothing committed is missing in place, what is in the log lies in [lo, hi),
      and its ids are below the next id, on disk and in memory. */
  ghost predicate MountedOn(img: Image, next: u32, lo: nat, hi: nat) {
    && Settled(img) && LogWithin(Log(img), lo, hi)
    && IdsBelow(Log(img), DiskNextId(img)) && DiskNextId(img) <= next
  }

  /** A transaction of fresh id `tx` on a settled image. */
  ghost predicate Begun(base: Image, log: seq<Entry>, es: seq<Entry>, tx: u32, off: nat, data: seq<byte>) {
    && Settled(base) && Log(base) == log && tx !in Ids(log) && Transaction(es, tx, off, data)
    && IdsBelow(log, DiskNextId(base)) && DiskNextId(base) <= tx
  }

  lemma Begin(base: Image, es: seq<Entry>, tx: u32, off: nat, data: seq<byte>, lo: nat, hi: nat)
    requires MountedOn(base, tx, lo, hi) && Transaction(es, tx, off, data)
    ensures Begun(base, Log(base), es, tx, off, data)
  {
  }

  lemma LaterId(base: Image, tx: u32, next: u32, lo: nat, hi: nat)
    requires MountedOn(base, tx, lo, hi) && tx <= next
    ensures MountedOn(base, next, lo, hi)
  {
  }

  /** With its COMMIT not in the log, a transaction leaves the disk mounted on the old content. */
  lemma UncommittedMounted(img: Image, base: Image, log: seq<Entry>, es: seq<Entry>, tx: u32, off: nat, data: seq<byte>,
                           next: u32, lo: nat, hi: nat)
    requires Begun(base, log, es, tx, off, data) && MountedOn(base, tx, lo, hi)
    requires Shows(img, base, log + es) && DiskNextId(img) == next && tx < next
    ensures MountedOn(img, next, lo, hi)
  {
    hide Recovered, Blank, Transaction, Overwrite, ToReplay, Slots, Run;
    TransactionWrites(es, tx, off, data);
    LogPrefixUnreplayed(log, es, tx, |es|);
    assert Upto(log, es, |es|) == log + es;
    BeforeCommit(img, base, log, es, tx, |es|);
  }

  /** Committed and in place, it leaves the disk mounted on the new content. */
  lemma DoneMounted(now: Image, base: Image, log: seq<Entry>, es: seq<Entry>, tx: u32, off: nat, data: seq<byte>,
                    next: u32, lo: nat, hi: nat)
    requires Begun(base, log, es, tx, off, data) && MountedOn(base, tx, lo, hi)
    requires Shows(now, base, Committed(log, es, tx)) && DiskNextId(now) == next && tx < next
    requires lo <= off && off + |data| <= hi
    ensures MountedOn(Overwrite(now, off, data), next, lo, hi)
  {
    hide Recovered, Blank, Overwrite, ToReplay, Slots, Run, Data, Settled, IdsBelow, Committed, Transaction;
    InPlace(base, now, log, es, tx, off, data);
    TransactionWrites(es, tx, off, data);
    CommittedReplays(log, es, tx);
    CommittedIdsBelow(log, es, tx, off, data, DiskNextId(base), next);
    CommittedWithin(log, es, tx, off, data, lo, hi);
  }

  lemma CommittedWithin(log: seq<Entry>, es: seq<Entry>, tx: u32, off: nat, data: seq<byte>, lo: nat, hi: nat)
    requires LogWithin(log, lo, hi) && tx !in Ids(log) && Transaction(es, tx, off, data)
    requires lo <= off && off + |data| <= hi
    ensures LogWithin(Committed(log, es, tx), lo, hi)
  {
    hide ToReplay, Data, Overwrite, Replay;
    CommittedReplays(log, es, tx);
    forall e | e in ToReplay(log) + es ensures lo <= e.diskOffset && e.diskOffset + |Data(e)| <= hi {
      assert e in ToReplay(log) || e in es;
    }
  }

  lemma CommittedIdsBelow(log: seq<Entry>, es: seq<Entry>, tx: u32, off: nat, data: seq<byte>, was: u32, next: u32)
    requires IdsBelow(log, was) && was <= tx < next && Transaction(es, tx, off, data)
    ensures IdsBelow(Committed(log, es, tx), next)
  {
    TransactionWrites(es, tx, off, data);
    forall e | e in Committed(log, es, tx) ensures e.txId < next {
      assert e in log || e in es || e == CommitEntry(tx);
    }
  }

  lemma ClearedMounted(img: Image, done: Image, next: u32, lo: nat, hi: nat)
    requires Settled(done) && Shows(img, done, []) && DiskNextId(img) == next
    ensures MountedOn(img, next, lo, hi) && Blank(img) == Blank(done)
  {
    assert ToReplay([]) == [];
    RecoveredFromView(img, done, []);
    ReplayNothing(done);
  }
}
