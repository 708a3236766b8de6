/** Whole runs: any sequence of writes, a crash anywhere, a mount, and so on. */
module CrashRuns {
  import opened Bytes
  import opened DiskImage
  import opened DiskCodec
  import opened JournalCodec
  import opened JournalLog
  import opened Storage
  import opened Journal
  import opened Atomicity
  import opened Recovery
  import opened InodeTable
  import opened DiskManager
  import FreeListStore
  import BlockZero

  datatype Op = InodeOp(index: nat, inode: Inode) | DataOp(off: u64, data: seq<byte>)

  /** What an operation puts where. */
  datatype Write = Write(off: nat, data: seq<byte>)

  function Effect(op: Op, dir: Directory): Write {
    match op
    case InodeOp(index, inode) =>
      Write(match InodeOffset(dir, index) case Some(o) => o case None => 0, EncodeInode(inode))
    case DataOp(off, data) => Write(off, data)
  }

  /** The view after writes in order. */
  function Fold(ws: seq<Write>, view: Image): Image {
    if ws == [] then view
    else Overwrite(Fold(ws[..|ws| - 1], view), ws[|ws| - 1].off, ws[|ws| - 1].data)
  }

  /** The effects of the operations that succeeded. */
  function Kept(ops: seq<Op>, oks: seq<bool>, dir: Directory): (ws: seq<Write>)
    requires |ops| == |oks|
  {
    if ops == [] then []
    else Kept(ops[..|ops| - 1], oks[..|ops| - 1], dir)
         + if oks[|ops| - 1] then [Effect(ops[|ops| - 1], dir)] else []
  }

  // ----- which operations succeed -----

  /** Whether the operation succeeds with `slot` log slots in use: an inode must have a block and needs two slots, data
      needs one slot for every started 490 bytes and one for the COMMIT. */
  predicate Admits(op: Op, slot: nat, dir: Directory) {
    match op
    case InodeOp(index, _) => index < Capacity(dir) && slot + 2 <= JOURNAL_SLOTS
    case DataOp(_, data) => data == [] || slot + ChunksNeeded(|data|) + 1 <= JOURNAL_SLOTS
  }

  /** The log slots in use behind it. A refused inode write has filled the log. */
  function SlotAfter(op: Op, slot: nat, dir: Directory): nat {
    match op
    case InodeOp(index, _) =>
      if index >= Capacity(dir) then slot
      else if Admits(op, slot, dir) then AfterCheckpoint(slot + 2) else JOURNAL_SLOTS
    case DataOp(_, data) =>
      if data == [] || !Admits(op, slot, dir) then slot else AfterCheckpoint(slot + ChunksNeeded(|data|) + 1)
  }

  function SlotAfterAll(ops: seq<Op>, slot: nat, dir: Directory): nat {
    if ops == [] then slot else SlotAfter(ops[|ops| - 1], SlotAfterAll(ops[..|ops| - 1], slot, dir), dir)
  }

  /** Which of the operations succeed, one after the other. */
  function Outcomes(ops: seq<Op>, slot: nat, dir: Directory): (oks: seq<bool>)
    ensures |oks| == |ops|
  {
    if ops == [] then []
    else Outcomes(ops[..|ops| - 1], slot, dir)
         + [Admits(ops[|ops| - 1], SlotAfterAll(ops[..|ops| - 1], slot, dir), dir)]
  }

  lemma OutcomesNext(ops: seq<Op>, slot: nat, dir: Directory, op: Op)
    ensures Outcomes(ops + [op], slot, dir)
            == Outcomes(ops, slot, dir) + [Admits(op, SlotAfterAll(ops, slot, dir), dir)]
    ensures SlotAfterAll(ops + [op], slot, dir) == SlotAfter(op, SlotAfterAll(ops, slot, dir), dir)
  {
    assert (ops + [op])[..|ops|] == ops;
  }

  lemma NoOutcomes(slot: nat, dir: Directory)
    ensures Outcomes([], slot, dir) == [] && SlotAfterAll([], slot, dir) == slot
  {
  }

  /** The operation succeeds wherever a run that began with at most 495 slots in use may have got to. */
  predicate AlwaysFits(op: Op, dir: Directory) {
    match op
    case InodeOp(index, _) => index < Capacity(dir)
    case DataOp(_, data) => ChunksNeeded(|data|) <= 16
  }

  /** From at most 495 used slots, over any run: the log gets back to at most 495 behind every operation, so every
      inode write with a block succeeds, and so does every data write of up to 16 * 490 bytes. */
  lemma {:induction false} RunKeepsRoom(ops: seq<Op>, slot: nat, dir: Directory)
    requires slot <= 495
    ensures SlotAfterAll(ops, slot, dir) <= 495
    ensures forall i :: 0 <= i < |ops| && AlwaysFits(ops[i], dir) ==> Outcomes(ops, slot, dir)[i]
  {
    hide ChunksNeeded, Capacity;
    if ops != [] {
      RunKeepsRoom(ops[..|ops| - 1], slot, dir);
    }
  }

  /** No weaker condition would do: any other operation is refused by a log with 495 slots in use. */
  lemma OnlyTheseAlwaysFit(op: Op, dir: Directory)
    ensures !AlwaysFits(op, dir) ==> Outcomes([op], 495, dir) == [false]
  {
    hide Capacity;
    NoOutcomes(495, dir);
    assert [op][..0] == [];
  }

  ghost predicate Admissible(op: Op) {
    match op
    case InodeOp(index, _) => index < MAX_FILES
    case DataOp(off, data) => ClearOfJournal(off, |data|) && INODE_TABLE_OFFSET <= off && off + |data| < LOG_END
  }

  /** A mount of `c` shows the first `k` operations and no others. */
  ghost predicate ShowsFirst(c: Image, view: Image, ops: seq<Op>, oks: seq<bool>, dir: Directory, k: nat) {
    |ops| == |oks| && k <= |ops| && Recovered(c) == Fold(Kept(ops[..k], oks[..k], dir), view)
  }

  ghost predicate ShowsPrefix(c: Image, view: Image, ops: seq<Op>, oks: seq<bool>, dir: Directory) {
    exists k: nat :: ShowsFirst(c, view, ops, oks, dir, k)
  }

  ghost predicate AllShowPrefix(images: iset<Image>, view: Image, ops: seq<Op>, oks: seq<bool>, dir: Directory) {
    forall c :: c in images ==> ShowsPrefix(c, view, ops, oks, dir)
  }

  /** Everything a mount would replay lies outside block 0 and the journal. */
  ghost predicate LogInPlace(img: Image) {
    && DATA_OFFSET <= |img| && HeaderValid(img) && ClearOf(ToReplay(Log(img)))
    && LogWithin(Log(img), INODE_TABLE_OFFSET, LOG_END)
  }

  /** Crash images whose journal can be carried on with, the two windows aside. */
  ghost predicate AllFit(images: iset<Image>) {
    forall c :: c in images ==> Carried(c) && LogInPlace(c)
  }

  /** What an operation writes is clear of block 0 and the journal. */
  ghost predicate Fits(w: Write) {
    ClearOfJournal(w.off, |w.data|) && INODE_TABLE_OFFSET <= w.off && w.off + |w.data| <= LOG_END
  }

  ghost predicate AllOpsFit(ops: seq<Op>, oks: seq<bool>, dir: Directory) {
    |ops| == |oks| && forall i :: 0 <= i < |ops| && oks[i] ==> Fits(Effect(ops[i], dir))
  }

  /** An image a session can be run on. */
  ghost predicate Sound(img: Image, sb: Superblock, dir: Directory) {
    && Reusable(img) && LogInPlace(img)
    && BlockZero.LoadSuperblock(img) == Some(sb) && sb.magic == MAGIC
    && LoadDirectory(img) == Some(dir) && Laid(dir, sb.nextDataOffset)
  }

  lemma OldFits(c: Image, base: Image, tx: u32)
    requires IsOld(c, base, tx) && LogInPlace(base) && tx < 0xFFFF_FFFF
    ensures Carried(c) && LogInPlace(c)
  {
    hide Recovered, Blank, CommittedIds, Log, ToReplay, Data;
    CarriedImage(c);
  }

  lemma NewFits(c: Image, base: Image, tx: u32, w: Write)
    requires IsNew(c, base, tx, w.off, w.data) && LogInPlace(base) && Fits(w)
    ensures Carried(c) && LogInPlace(c)
  {
    hide Recovered, Blank, Overwrite, CommittedIds, Log, ToReplay, Data;
    CarriedImage(c);
  }

  lemma OneMoreFits(seen: iset<Image>, before: iset<Image>, after: iset<Image>, base: Image, tx: u32, w: Write)
    requires AllFit(seen) && LogInPlace(base) && tx < 0xFFFF_FFFF
    requires AllOld(before, base, tx) && AllNew(after, base, tx, w.off, w.data)
    requires after == iset{} || Fits(w)
    ensures AllFit(seen + (before + after))
  {
    hide IsOld, IsNew, LogInPlace, Carried, Fits;
    forall c | c in seen + (before + after) ensures Carried(c) && LogInPlace(c) {
      if c in before {
        OldFits(c, base, tx);
      } else if c in after {
        NewFits(c, base, tx, w);
      }
    }
  }

  lemma CarriedImage(c: Image)
    requires Carried(c)
    ensures DATA_OFFSET <= |c| && HeaderValid(c)
  {
  }

  lemma KeptNext(ops: seq<Op>, oks: seq<bool>, dir: Directory, op: Op, ok: bool)
    requires |ops| == |oks|
    ensures Kept(ops + [op], oks + [ok], dir) == Kept(ops, oks, dir) + if ok then [Effect(op, dir)] else []
  {
    assert (ops + [op])[..|ops|] == ops && (oks + [ok])[..|ops|] == oks;
  }

  lemma FoldNext(ws: seq<Write>, w: Write, view: Image)
    ensures Fold(ws + [w], view) == Overwrite(Fold(ws, view), w.off, w.data)
  {
    assert (ws + [w])[..|ws|] == ws;
  }

  /** One more operation: its old images show the operations before it, its new images it as well. */
  lemma OneMore(seen: iset<Image>, before: iset<Image>, after: iset<Image>, base: Image, tx: u32, op: Op, ok: bool,
                view: Image, ops: seq<Op>, oks: seq<bool>, dir: Directory)
    requires |ops| == |oks| && Blank(base) == Fold(Kept(ops, oks, dir), view)
    requires AllShowPrefix(seen, view, ops, oks, dir)
    requires AllOld(before, base, tx) && AllNew(after, base, tx, Effect(op, dir).off, Effect(op, dir).data)
    requires !ok ==> after == iset{}
    ensures AllShowPrefix(seen + (before + after), view, ops + [op], oks + [ok], dir)
    ensures ok ==> Overwrite(Blank(base), Effect(op, dir).off, Effect(op, dir).data)
                   == Fold(Kept(ops + [op], oks + [ok], dir), view)
    ensures !ok ==> Blank(base) == Fold(Kept(ops + [op], oks + [ok], dir), view)
  {
    hide Effect, Recovered, Blank, Overwrite, Fold, Kept, CommittedIds, Log;
    var ops', oks' := ops + [op], oks + [ok];
    KeptNext(ops, oks, dir, op, ok);
    assert Kept(ops, oks, dir) + [] == Kept(ops, oks, dir);
    FoldNext(Kept(ops, oks, dir), Effect(op, dir), view);
    assert ops'[..|ops'|] == ops' && oks'[..|ops'|] == oks';
    assert ops'[..|ops|] == ops && oks'[..|ops|] == oks;
    forall c | c in seen + (before + after) ensures ShowsPrefix(c, view, ops', oks', dir) {
      if c in seen {
        var k: nat :| ShowsFirst(c, view, ops, oks, dir, k);
        assert ops'[..k] == ops[..k] && oks'[..k] == oks[..k];
        assert ShowsFirst(c, view, ops', oks', dir, k);
      } else if c in before {
        assert ShowsFirst(c, view, ops', oks', dir, |ops|);
      } else {
        assert ShowsFirst(c, view, ops', oks', dir, |ops'|);
      }
    }
  }

  /** A session: operations one after the other on a mounted disk. Whatever the crash point, a mount afterwards
      shows the effect of a prefix of the operations, whole, and can be carried on with unless the crash hit one of
      the two windows; the disk itself ends up showing all of them. */
  method RunSession(dm: DiskManager, ops: seq<Op>) returns (oks: seq<bool>, ghost left: iset<Image>)
    requires dm.Mounted() && dm.TableLaid()
    requires forall op :: op in ops ==> Admissible(op)
    requires dm.journal.header.nextTxId + |ops| < 0x1_0000_0000
    modifies dm.file, dm.journal
    ensures |oks| == |ops| && dm.Mounted()
    ensures oks == Outcomes(ops, old(dm.journal.nextSlot), dm.inodeTable.blockOffsets)
    ensures dm.journal.nextSlot == SlotAfterAll(ops, old(dm.journal.nextSlot), dm.inodeTable.blockOffsets)
    ensures Blank(dm.file.bytes) == Fold(Kept(ops, oks, dm.inodeTable.blockOffsets), Blank(old(dm.file.bytes)))
    ensures Adds(old(dm.file.crashes), dm.file.crashes, left)
    ensures AllShowPrefix(left, Blank(old(dm.file.bytes)), ops, oks, dm.inodeTable.blockOffsets)
    ensures AllFit(left)
    ensures AllOpsFit(ops, oks, dm.inodeTable.blockOffsets)
  {
    hide *;
    oks, left := [], iset{};
    ghost var view, dir := Blank(dm.file.bytes), dm.inodeTable.blockOffsets;
    SessionStart(dm.file.crashes, dm.file.bytes, dir);
    NoOutcomes(dm.journal.nextSlot, dir);
    for i := 0 to |ops|
      invariant |oks| == i && dm.Mounted() && dm.TableLaid()
      invariant oks == Outcomes(ops[..i], old(dm.journal.nextSlot), dir)
      invariant dm.journal.nextSlot == SlotAfterAll(ops[..i], old(dm.journal.nextSlot), dir)
      invariant dm.journal.header.nextTxId <= old(dm.journal.header.nextTxId) + i
      invariant Blank(dm.file.bytes) == Fold(Kept(ops[..i], oks, dir), view)
      invariant Adds(old(dm.file.crashes), dm.file.crashes, left)
      invariant AllShowPrefix(left, view, ops[..i], oks, dir)
      invariant AllFit(left) && AllOpsFit(ops[..i], oks, dir)
    {
      ghost var base, seen, tx := dm.file.bytes, dm.file.crashes, dm.journal.header.nextTxId;
      assert ops[i] in ops;
      MountedLog(dm);
      var ok; ghost var before, after;
      ok, before, after := RunOp(dm, ops[i]);
      OneMore(left, before, after, base, tx, ops[i], ok, view, ops[..i], oks, dir);
      OneMoreFits(left, before, after, base, tx, Effect(ops[i], dir));
      OpFits(ops[..i], oks, dir, ops[i], ok);
      OutcomesNext(ops[..i], old(dm.journal.nextSlot), dir, ops[i]);
      AddsJoin(old(dm.file.crashes), seen, dm.file.crashes, left, before + after);
      assert ops[..i + 1] == ops[..i] + [ops[i]];
      oks, left := oks + [ok], left + (before + after);
    }
    assert ops[..|ops|] == ops;
  }

  lemma MountedLog(dm: DiskManager)
    requires dm.Mounted()
    ensures LogInPlace(dm.file.bytes) && Reusable(dm.file.bytes)
  {
    hide ToReplay, Recovered, Blank;
  }

  lemma OpFits(ops: seq<Op>, oks: seq<bool>, dir: Directory, op: Op, ok: bool)
    requires AllOpsFit(ops, oks, dir) && (ok ==> Fits(Effect(op, dir)))
    ensures AllOpsFit(ops + [op], oks + [ok], dir)
  {
    hide Fits, Effect;
  }

  method RunOp(dm: DiskManager, op: Op) returns (ok: bool, ghost before: iset<Image>, ghost after: iset<Image>)
    requires dm.Mounted() && dm.TableLaid() && Admissible(op)
    requires dm.journal.header.nextTxId < 0xFFFF_FFFF
    modifies dm.file, dm.journal
    ensures dm.Mounted() && dm.TableLaid() && dm.journal.header.nextTxId <= old(dm.journal.header.nextTxId) + 1
    ensures ok == Admits(op, old(dm.journal.nextSlot), dm.inodeTable.blockOffsets)
    ensures dm.journal.nextSlot == SlotAfter(op, old(dm.journal.nextSlot), dm.inodeTable.blockOffsets)
    ensures var w := Effect(op, dm.inodeTable.blockOffsets);
            Blank(dm.file.bytes)
                == if ok then Overwrite(Blank(old(dm.file.bytes)), w.off, w.data) else Blank(old(dm.file.bytes))
    ensures !ok ==> after == iset{}
    ensures ok ==> Fits(Effect(op, dm.inodeTable.blockOffsets))
    ensures Adds(old(dm.file.crashes), dm.file.crashes, before + after)
    ensures AllOld(before, old(dm.file.bytes), old(dm.journal.header.nextTxId))
    ensures var w := Effect(op, dm.inodeTable.blockOffsets);
            AllNew(after, old(dm.file.bytes), old(dm.journal.header.nextTxId), w.off, w.data)
  {
    hide *;
    OpIs(dm, op);
    match op
    case InodeOp(index, inode) =>
      ok, before, after := dm.WriteInode(index, inode);
      if ok {
        InodeFits(dm.inodeTable.blockOffsets, dm.superblock.nextDataOffset, index, inode);
      }
    case DataOp(off, data) =>
      ok, before, after := dm.WriteFileData(off, data);
      DataFits(off, data, dm.inodeTable.blockOffsets);
  }

  /** What the run's notions say of one operation on the disk as it is. */
  lemma OpIs(dm: DiskManager, op: Op)
    requires Admissible(op)
    ensures dm.journal.header.nextTxId < 0xFFFF_FFFF ==>
              NextId(dm.journal.header.nextTxId) == dm.journal.header.nextTxId + 1
    ensures dm.TableLaid() ==> Laid(dm.inodeTable.blockOffsets, dm.superblock.nextDataOffset)
    ensures op.InodeOp? ==>
              && op.index < MAX_FILES
              && Effect(op, dm.inodeTable.blockOffsets) == Write(dm.InodePlace(op.index), EncodeInode(op.inode))
              && (Admits(op, dm.journal.nextSlot, dm.inodeTable.blockOffsets)
                  <==> op.index < Capacity(dm.inodeTable.blockOffsets) && dm.journal.nextSlot + 2 <= JOURNAL_SLOTS)
              && SlotAfter(op, dm.journal.nextSlot, dm.inodeTable.blockOffsets)
                 == if op.index >= Capacity(dm.inodeTable.blockOffsets) then dm.journal.nextSlot
                    else if dm.journal.nextSlot + 2 <= JOURNAL_SLOTS then AfterCheckpoint(dm.journal.nextSlot + 2)
                    else JOURNAL_SLOTS
    ensures op.DataOp? ==>
              && ClearOfJournal(op.off, |op.data|) && INODE_TABLE_OFFSET <= op.off && op.off + |op.data| < LOG_END
              && Effect(op, dm.inodeTable.blockOffsets) == Write(op.off, op.data)
              && (Admits(op, dm.journal.nextSlot, dm.inodeTable.blockOffsets)
                  <==> op.data == [] || dm.journal.nextSlot + ChunksNeeded(|op.data|) + 1 <= JOURNAL_SLOTS)
              && (SlotAfter(op, dm.journal.nextSlot, dm.inodeTable.blockOffsets)
                  == if op.data == [] || dm.journal.nextSlot + ChunksNeeded(|op.data|) + 1 > JOURNAL_SLOTS
                     then dm.journal.nextSlot
                     else AfterCheckpoint(dm.journal.nextSlot + ChunksNeeded(|op.data|) + 1))
  {
    hide EncodeInode, InodeOffset, Capacity, ChunksNeeded, Laid;
  }

  lemma DataFits(off: u64, data: seq<byte>, dir: Directory)
    requires Admissible(DataOp(off, data))
    ensures Fits(Effect(DataOp(off, data), dir))
  {
  }

  lemma InodeFits(dir: Directory, end: u64, index: nat, inode: Inode)
    requires Laid(dir, end) && index < Capacity(dir)
    ensures Fits(Effect(InodeOp(index, inode), dir))
  {
    hide EncodeInode, Laid, Capacity, InodeOffset;
    SlotPlace(dir, end, index);
  }

  lemma SessionStart(crashes: iset<Image>, img: Image, dir: Directory)
    ensures AllFit(iset{}) && AllOpsFit([], [], dir)
    ensures Adds(crashes, crashes, iset{})
    ensures Blank(img) == Fold(Kept([], [], dir), Blank(img))
    ensures AllShowPrefix(iset{}, Blank(img), [], [], dir)
  {
  }

  // ----- block 0 -----

  /** A replay that keeps clear of block 0 leaves superblock and directory alone. */
  lemma RecoveredBlockZero(img: Image)
    requires LogInPlace(img)
    ensures |img| <= |Recovered(img)| && Recovered(img)[..INODE_TABLE_OFFSET] == img[..INODE_TABLE_OFFSET]
  {
    var es := ToReplay(Log(img));
    var done := Replay(es, img);
    hide ToReplay, Log, Data, End;
    ReplayTouches(es, img);
    forall i: nat | i < INODE_TABLE_OFFSET ensures done[i] == img[i] {
      assert !Covered(es, i);
      assert At(done, i) == At(img, i);
    }
  }

  lemma {:induction false} FoldBlockZero(ws: seq<Write>, view: Image)
    requires INODE_TABLE_OFFSET <= |view| && forall w :: w in ws ==> Fits(w)
    ensures |view| <= |Fold(ws, view)| && Fold(ws, view)[..INODE_TABLE_OFFSET] == view[..INODE_TABLE_OFFSET]
  {
    if ws != [] {
      var front, w := ws[..|ws| - 1], ws[|ws| - 1];
      FoldBlockZero(front, view);
      assert w in ws;
      var was, now := Fold(front, view), Fold(ws, view);
      forall i: nat | i < INODE_TABLE_OFFSET ensures now[i] == was[i] {
        assert At(was, i) == was[i];
      }
    }
  }

  lemma {:induction false} KeptFits(ops: seq<Op>, oks: seq<bool>, dir: Directory)
    requires AllOpsFit(ops, oks, dir)
    ensures forall w :: w in Kept(ops, oks, dir) ==> Fits(w)
  {
    hide Fits, Effect;
    if ops != [] {
      KeptFits(ops[..|ops| - 1], oks[..|ops| - 1], dir);
    }
  }

  lemma SameBlockZero(a: Image, b: Image)
    requires INODE_TABLE_OFFSET <= |a| && INODE_TABLE_OFFSET <= |b|
             && a[..INODE_TABLE_OFFSET] == b[..INODE_TABLE_OFFSET]
    ensures BlockZero.LoadSuperblock(a) == BlockZero.LoadSuperblock(b) && LoadDirectory(a) == LoadDirectory(b)
  {
    var x, y := a[..INODE_TABLE_OFFSET], b[..INODE_TABLE_OFFSET];
    hide LeToU64, DecodeSuperblock;
    assert a[..64] == x[..64] && b[..64] == y[..64];
    forall i | 1 <= i < MAX_INODE_BLOCKS
      ensures a[3584 + 8 * i..3584 + 8 * i + 8] == b[3584 + 8 * i..3584 + 8 * i + 8]
    {
      assert a[3584 + 8 * i..3584 + 8 * i + 8] == x[3584 + 8 * i..3584 + 8 * i + 8];
      assert b[3584 + 8 * i..3584 + 8 * i + 8] == y[3584 + 8 * i..3584 + 8 * i + 8];
    }
    assert LoadDirectory(a).value == LoadDirectory(b).value;
  }

  /** Whatever prefix of a session an image shows, its block 0 is that of the image the session began with. */
  lemma PrefixBlockZero(c: Image, base: Image, ops: seq<Op>, oks: seq<bool>, dir: Directory)
    requires LogInPlace(c) && LogInPlace(base) && AllOpsFit(ops, oks, dir)
    requires ShowsPrefix(c, Recovered(base), ops, oks, dir)
    ensures c[..INODE_TABLE_OFFSET] == base[..INODE_TABLE_OFFSET]
  {
    var k: nat :| ShowsFirst(c, Recovered(base), ops, oks, dir, k);
    hide Recovered, Fold, Kept, Fits, Effect, Log, ToReplay;
    RecoveredBlockZero(c);
    RecoveredBlockZero(base);
    KeptFits(ops[..k], oks[..k], dir);
    FoldBlockZero(Kept(ops[..k], oks[..k], dir), Recovered(base));
  }

  /** So a crash image outside the windows is as good a start for the next session as its own start was. */
  lemma CrashSound(c: Image, base: Image, ops: seq<Op>, oks: seq<bool>, sb: Superblock, dir: Directory)
    requires Sound(base, sb, dir) && AllOpsFit(ops, oks, dir)
    requires Reusable(c) && LogInPlace(c) && ShowsPrefix(c, Recovered(base), ops, oks, dir)
    ensures Sound(c, sb, dir)
  {
    hide Recovered, Reusable, AllOpsFit, ShowsPrefix, Laid, LoadDirectory, BlockZero.LoadSuperblock;
    PrefixBlockZero(c, base, ops, oks, dir);
    SameBlockZero(c, base);
  }

  lemma MountShowsNothingNew(left: iset<Image>, view: Image, dir: Directory)
    requires forall c :: c in left ==> Recovered(c) == view
    ensures AllShowPrefix(left, view, [], [], dir)
  {
    forall c | c in left ensures ShowsPrefix(c, view, [], [], dir) {
      assert ShowsFirst(c, view, [], [], dir, 0);
    }
  }

  lemma PrefixOfMore(left: iset<Image>, view: Image, ops: seq<Op>, oks: seq<bool>, dir: Directory)
    requires AllShowPrefix(left, view, [], [], dir) && |ops| == |oks|
    ensures AllShowPrefix(left, view, ops, oks, dir)
  {
    forall c | c in left ensures ShowsPrefix(c, view, ops, oks, dir) {
      var k: nat :| ShowsFirst(c, view, [], [], dir, k);
      assert ops[..0] == [] && oks[..0] == [];
      assert ShowsFirst(c, view, ops, oks, dir, 0);
    }
  }

  lemma AllShowPrefixJoin(a: iset<Image>, b: iset<Image>, view: Image, ops: seq<Op>, oks: seq<bool>, dir: Directory)
    requires AllShowPrefix(a, view, ops, oks, dir) && AllShowPrefix(b, view, ops, oks, dir)
    ensures AllShowPrefix(a + b, view, ops, oks, dir)
  {
  }

  lemma TableFromImage(dm: DiskManager, dir: Directory)
    requires dm.inodeTable.blockOffsets == dir && Laid(dir, dm.superblock.nextDataOffset)
    ensures dm.TableLaid()
  {
  }

  lemma MountFits(left: iset<Image>, base: Image)
    requires LogInPlace(base) && forall c :: c in left ==> Remountable(c, base)
    ensures AllFit(left) && forall c :: c in left ==> Recovered(c) == Recovered(base)
  {
    hide Recovered, Log, ToReplay;
    assert ToReplay([]) == [] by { NothingToReplay(); }
    forall c | c in left ensures Carried(c) && LogInPlace(c) {
      CarriedImage(c);
    }
  }

  lemma SoundStart(img: Image, sb: Superblock, dir: Directory)
    requires Sound(img, sb, dir)
    ensures DATA_OFFSET <= |img| && HeaderValid(img) && Reusable(img) && ClearOf(ToReplay(VisibleLog(img)))
    ensures LogInPlace(img) && BlockZero.LoadSuperblock(img) == Some(sb) && sb.magic == MAGIC
    ensures LoadDirectory(img) == Some(dir) && Laid(dir, sb.nextDataOffset)
  {
  }

  /** The directory a mount reads after its replay is the one that was in the image before. */
  lemma DirectoryMounted(img: Image, mounted: Image)
    requires LogInPlace(img) && Blank(mounted) == Recovered(img)
    ensures LoadDirectory(mounted) == LoadDirectory(img)
  {
    RecoveredBlockZero(img);
    BlankBlockZero(mounted);
    hide Recovered, Blank, LogInPlace, LoadDirectory;
    SameBlockZero(mounted, img);
  }

  lemma BlankBlockZero(img: Image)
    requires INODE_TABLE_OFFSET <= |img|
    ensures |Blank(img)| == |img| && Blank(img)[..INODE_TABLE_OFFSET] == img[..INODE_TABLE_OFFSET]
  {
  }

  /** The image a finished session leaves shows all of it, as a prefix. */
  lemma WholeSession(img: Image, view: Image, ops: seq<Op>, oks: seq<bool>, dir: Directory)
    requires |ops| == |oks| && Recovered(img) == Blank(img) == Fold(Kept(ops, oks, dir), view)
    ensures ShowsPrefix(img, view, ops, oks, dir)
  {
    hide Recovered, Blank, Fold, Kept;
    assert ops[..|ops|] == ops && oks[..|ops|] == oks;
    assert ShowsFirst(img, view, ops, oks, dir, |ops|);
  }

  lemma MountedShows(dm: DiskManager)
    requires dm.Mounted()
    ensures Recovered(dm.file.bytes) == Blank(dm.file.bytes)
  {
  }

  lemma AllSound(left: iset<Image>, base: Image, ops: seq<Op>, oks: seq<bool>, sb: Superblock, dir: Directory)
    requires Sound(base, sb, dir) && AllOpsFit(ops, oks, dir) && AllFit(left)
    requires AllShowPrefix(left, Recovered(base), ops, oks, dir)
    ensures forall c :: c in left ==> Sound(c, sb, dir) || Uncounted(c) || HalfBlank(c)
  {
    hide Recovered, Sound, AllOpsFit, LogInPlace, ShowsPrefix, Reusable, Uncounted, HalfBlank;
    forall c | c in left ensures Sound(c, sb, dir) || Uncounted(c) || HalfBlank(c) {
      if Reusable(c) {
        CrashSound(c, base, ops, oks, sb, dir);
      }
    }
  }

  lemma AllFitJoin(a: iset<Image>, b: iset<Image>)
    requires AllFit(a) && AllFit(b)
    ensures AllFit(a + b)
  {
  }

  /** The log slots in use behind a mount: none once something was replayed, else what the log holds. */
  function MountSlot(img: Image): nat {
    if ToReplay(VisibleLog(img)) != [] then 0 else |VisibleLog(img)|
  }

  lemma MountSlotIs(img: Image)
    ensures MountSlot(img) == if ToReplay(VisibleLog(img)) != [] then 0 else |VisibleLog(img)|
  {
  }

  /** Mount a sound image and run a session on it. At every crash point, those of the mount's own replay and clear
      included, the next mount shows a prefix of the session on top of what this mount showed; and the crash image
      is sound again, so that the next session can start from it, unless the crash fell between the first entry of a
      transaction and the header that counts it, or into a clear. */
  method MountAndRun(file: File, ops: seq<Op>, ghost sb: Superblock, ghost dir: Directory)
    returns (oks: seq<bool>, ghost left: iset<Image>)
    requires Sound(file.bytes, sb, dir)
    requires forall op :: op in ops ==> Admissible(op)
    requires DiskNextId(file.bytes) + |ops| < 0x1_0000_0000
    modifies file
    ensures |oks| == |ops| && Sound(file.bytes, sb, dir)
    ensures oks == Outcomes(ops, MountSlot(old(file.bytes)), dir)
    ensures Recovered(file.bytes) == Fold(Kept(ops, oks, dir), Recovered(old(file.bytes)))
    ensures Adds(old(file.crashes), file.crashes, left)
    ensures AllShowPrefix(left, Recovered(old(file.bytes)), ops, oks, dir)
    ensures forall c :: c in left ==> Sound(c, sb, dir) || Uncounted(c) || HalfBlank(c)
  {
    hide *;
    ghost var base, view := file.bytes, Recovered(file.bytes);
    SoundStart(base, sb, dir);
    MountSlotIs(base);
    var dm;
    dm, left := DiskManager.Open(file);
    DirectoryMounted(base, file.bytes);
    TableFromImage(dm, dir);
    MountFits(left, base);
    MountShowsNothingNew(left, view, dir);
    ghost var seen := file.crashes;
    ghost var more;
    oks, more := RunSession(dm, ops);
    PrefixOfMore(left, view, ops, oks, dir);
    AllShowPrefixJoin(left, more, view, ops, oks, dir);
    AllFitJoin(left, more);
    AddsJoin(old(file.crashes), seen, file.crashes, left, more);
    left := left + more;
    AllSound(left, base, ops, oks, sb, dir);
    MountedLog(dm);
    MountedShows(dm);
    WholeSession(file.bytes, view, ops, oks, dir);
    CrashSound(file.bytes, base, ops, oks, sb, dir);
  }

  lemma FlushedSound(dm: DiskManager, was: Image)
    requires dm.Mounted() && dm.SpaceValid() && dm.superblock.magic == MAGIC && BlockZero.BLOCK_SIZE <= |was|
    requires FreeListStore.Encodable(dm.freeList.extents)
    requires dm.file.bytes == BlockZero.Flushed(was, dm.superblock, dm.freeList.extents, dm.inodeTable.blockOffsets)
    ensures Sound(dm.file.bytes, dm.superblock, dm.inodeTable.blockOffsets)
  {
    MountedLog(dm);
    PartitionedLaid(dm.live, dm.inodeTable.blockOffsets, dm.freeList.extents, dm.superblock.nextDataOffset);
    BlockZero.SuperblockComesBack(was, dm.superblock, dm.freeList.extents, dm.inodeTable.blockOffsets);
    hide BlockZero.Flushed, Reusable, LogInPlace, BlockZero.LoadSuperblock, LoadDirectory, DiskManager.Mounted,
      FreeListStore.Encodable;
    BlockZero.DirectoryComesBack(was, dm.superblock, dm.freeList.extents, dm.inodeTable.blockOffsets);
  }

  lemma MountedSizeOf(dm: DiskManager)
    requires dm.Mounted()
    ensures BlockZero.BLOCK_SIZE <= |dm.file.bytes|
  {
  }

  /** A freshly formatted and flushed image is sound. */
  method NewDisk(file: File, totalBlocks: u64, now: u64) returns (dm: DiskManager)
    modifies file
    ensures fresh(dm) && fresh(dm.journal) && fresh(dm.inodeTable) && fresh(dm.freeList) && dm.file == file
    ensures Sound(file.bytes, dm.superblock, dm.inodeTable.blockOffsets)
    ensures FreeListStore.LoadFreeList(file.bytes) == [] && FreeListStore.SaysEmpty(file.bytes)
    ensures dm.LogInSpace() && InFile(file.bytes, dm.inodeTable.blockOffsets)
    ensures dm.Mounted() && dm.SpaceValid() && dm.live == [] && dm.freeList.extents == []
    ensures dm.journal.nextSlot == 0 && dm.journal.header.nextTxId == 1
    ensures dm.superblock.nextDataOffset == DATA_OFFSET && Capacity(dm.inodeTable.blockOffsets) == INODES_PER_BLOCK
  {
    hide *;
    dm := new DiskManager.Format(file, totalBlocks, now);
    ghost var was := file.bytes;
    MountedSizeOf(dm);
    dm.SpaceIs();
    ghost var left := dm.Flush();
    dm.SpaceIs();
    FlushedSound(dm, was);
    NewIds();
    NothingFree(dm, was);
  }

  lemma NewIds()
    ensures NewHeader().nextTxId == 1
  {
  }

  lemma NothingFree(dm: DiskManager, was: Image)
    requires dm.freeList.extents == [] && FreeListStore.Encodable([]) && BlockZero.BLOCK_SIZE <= |was|
    requires dm.SpaceValid()
    requires dm.file.bytes == BlockZero.Flushed(was, dm.superblock, [], dm.inodeTable.blockOffsets)
    ensures FreeListStore.LoadFreeList(dm.file.bytes) == [] && FreeListStore.SaysEmpty(dm.file.bytes)
    ensures InFile(was, dm.inodeTable.blockOffsets) ==> InFile(dm.file.bytes, dm.inodeTable.blockOffsets)
  {
    PartitionedLaid(dm.live, dm.inodeTable.blockOffsets, dm.freeList.extents, dm.superblock.nextDataOffset);
    hide BlockZero.Flushed, FreeListStore.LoadFreeList, FreeListStore.EncodeHeader, EncodeSuperblock, EncodeDirectory;
    BlockZero.FreeListComesBack(was, dm.superblock, [], dm.inodeTable.blockOffsets);
    BlockZero.FlushedBytes(was, dm.superblock, [], dm.inodeTable.blockOffsets);
  }

  /** A format alone leaves an image that can be mounted. */
  lemma FormattedSound(dm: DiskManager, was: Image)
    requires dm.Mounted() && dm.SpaceValid() && dm.superblock.magic == MAGIC
    requires FormattedImage(was, dm.file.bytes, dm.superblock, dm.inodeTable.blockOffsets)
    ensures Sound(dm.file.bytes, dm.superblock, dm.inodeTable.blockOffsets)
  {
    MountedLog(dm);
    hide Reusable, LogInPlace, BlockZero.LoadSuperblock, LoadDirectory, DiskManager.Mounted;
    PartitionedLaid(dm.live, dm.inodeTable.blockOffsets, dm.freeList.extents, dm.superblock.nextDataOffset);
  }

  function Concat(wss: seq<seq<Write>>): seq<Write> {
    if wss == [] then [] else Concat(wss[..|wss| - 1]) + wss[|wss| - 1]
  }

  lemma {:induction false} FoldConcat(a: seq<Write>, b: seq<Write>, view: Image)
    ensures Fold(a + b, view) == Fold(b, Fold(a, view))
  {
    if b == [] {
      assert a + b == a;
    } else {
      assert (a + b)[..|a + b| - 1] == a + b[..|b| - 1];
      FoldConcat(a, b[..|b| - 1], view);
    }
  }

  /** Session after session: if each image recovers some writes on top of what the one before it recovered, the
      last recovers all of them, in order, on top of the first. */
  lemma {:induction false} SessionsCompose(imgs: seq<Image>, wss: seq<seq<Write>>)
    requires |imgs| == |wss| + 1
    requires forall n :: 0 <= n < |wss| ==> Recovered(imgs[n + 1]) == Fold(wss[n], Recovered(imgs[n]))
    ensures Recovered(imgs[|wss|]) == Fold(Concat(wss), Recovered(imgs[0]))
  {
    if wss != [] {
      var n := |wss| - 1;
      SessionsCompose(imgs[..|imgs| - 1], wss[..n]);
      FoldConcat(Concat(wss[..n]), wss[n], Recovered(imgs[0]));
    }
  }
}
