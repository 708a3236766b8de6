/** Mounting: the replay of the committed log can itself be interrupted, any number of times. */
module Recovery {
  import opened Bytes
  import opened DiskImage
  import opened JournalCodec
  import opened JournalLog
  import opened Storage
  import opened Journal
  import opened Atomicity

  lemma CoveredMore(some: seq<Entry>, all: seq<Entry>, i: int)
    requires forall e :: e in some ==> e in all
    ensures Covered(some, i) ==> Covered(all, i)
  {
  }

  /** A replay changes at most the bytes its entries cover, and ends the file where they end. */
  lemma {:induction false} ReplayTouches(es: seq<Entry>, img: Image)
    ensures |Replay(es, img)| == Max(|img|, End(es))
    ensures forall i: nat :: !Covered(es, i) ==> At(Replay(es, img), i) == At(img, i)
  {
    if es != [] {
      ReplayTouches(es[1..], Apply(img, es[0]));
      forall i: nat | !Covered(es, i) ensures At(Replay(es, img), i) == At(img, i) {
        CoveredMore(es[1..], es, i);
        assert !Covers(es[0], i);
      }
    }
  }

  /** An image some interrupted replay of `es` over `img` may leave: the first `k` entries are in place, the
      next one torn. */
  ghost predicate Interrupted(es: seq<Entry>, img: Image, k: nat, c: Image) {
    k < |es| && MayLeave(Replay(es[..k], img), es[k].diskOffset, Data(es[k]), c)
  }

  lemma InterruptedAgrees(es: seq<Entry>, img: Image, k: nat, c: Image)
    requires Interrupted(es, img, k, c)
    ensures AgreeBesides(es, c, img)
  {
    var init, e := es[..k], es[k];
    assert es == init + [e] + es[k + 1..];
    ReplayTouches(init, img);
    EndOfConcat(init + [e], es[k + 1..]);
    EndOfConcat(init, [e]);
    assert End([e]) == Max(if Data(e) == [] then 0 else e.diskOffset + |Data(e)|, End([e][1..]));
    forall i: nat | !Covered(es, i) ensures At(c, i) == At(img, i) {
      assert !Covers(e, i);
      CoveredMore(init, es, i);
      assert At(Replay(init, img), i) == At(img, i);
      assert At(c, i) == At(Replay(init, img), i);
    }
  }

  /** However a replay was interrupted, replaying once in full gives the same image. */
  lemma InterruptedReplays(es: seq<Entry>, img: Image, k: nat, c: Image)
    requires Interrupted(es, img, k, c)
    ensures Replay(es, c) == Replay(es, img)
  {
    InterruptedAgrees(es, img, k, c);
    ReplayRepairs(es, c, img);
  }

  /** A finished replay is a fixed point. */
  lemma ReplayIdempotent(es: seq<Entry>, img: Image)
    ensures Replay(es, Replay(es, img)) == Replay(es, img)
  {
    ReplayTouches(es, img);
    ReplayRepairs(es, Replay(es, img), img);
  }

  ghost predicate Attempt(es: seq<Entry>, img: Image, c: Image) {
    c == Replay(es, img) || exists k :: Interrupted(es, img, k, c)
  }

  /** Attempts to replay, one after the other: each full, or interrupted somewhere. */
  ghost predicate Attempts(es: seq<Entry>, imgs: seq<Image>) {
    && imgs != []
    && forall n :: 1 <= n < |imgs| ==> Attempt(es, imgs[n - 1], imgs[n])
  }

  /** Replaying any number of times, in whole or cut short, and then once in full, is replaying once. */
  lemma {:induction false} AttemptsConverge(es: seq<Entry>, imgs: seq<Image>)
    requires Attempts(es, imgs)
    ensures Replay(es, imgs[|imgs| - 1]) == Replay(es, imgs[0])
  {
    if |imgs| > 1 {
      var n := |imgs| - 2;
      assert Attempt(es, imgs[n], imgs[n + 1]);
      AttemptsConverge(es, imgs[..n + 1]);
      if imgs[n + 1] == Replay(es, imgs[n]) {
        ReplayIdempotent(es, imgs[n]);
      } else {
        var k :| Interrupted(es, imgs[n], k, imgs[n + 1]);
        InterruptedReplays(es, imgs[n], k, imgs[n + 1]);
      }
    }
  }

  /** During the replay at mount, the journal region still says what it said and nothing is lost. */
  ghost predicate Replaying(img: Image, base: Image) {
    && |base| <= |img| && Slots(img) == Slots(base) && HeaderOf(img) == HeaderOf(base)
    && Recovered(img) == Recovered(base)
  }

  lemma SameLog(img: Image, base: Image)
    requires Slots(img) == Slots(base) && HeaderOf(img) == HeaderOf(base)
    ensures HeaderValid(img) == HeaderValid(base) && Log(img) == Log(base) && VisibleLog(img) == VisibleLog(base)
    ensures forall n: nat :: TailClean(img, n) == TailClean(base, n)
  {
    forall k | 0 <= k < JOURNAL_SLOTS ensures Slot(img, k) == Slot(base, k) {
      assert Slots(img)[k] == Slots(base)[k];
    }
  }

  lemma ReplayStep(es: seq<Entry>, base: Image, k: nat, now: Image, c: Image)
    requires DATA_OFFSET <= |base| && es == ToReplay(VisibleLog(base)) && ClearOf(es) && k < |es|
    requires now == Replay(es[..k], base) && Replaying(now, base)
    requires MayLeave(now, es[k].diskOffset, Data(es[k]), c)
    ensures Replaying(c, base)
    ensures Apply(now, es[k]) == Replay(es[..k + 1], base)
  {
    assert Interrupted(es, base, k, c);
    InterruptedReplays(es, base, k, c);
    hide MayLeave, Replay, Slots, HeaderOf, Run, ToReplay, Blank, Overwrite;
    JournalUntouched(now, es[k].diskOffset, Data(es[k]), c);
    SameLog(c, base);
    ReplayNext(es, base, k);
  }

  /** A crash while `base` is being mounted left `c`: nothing is lost, and the log is what it was or empty. */
  ghost predicate Remountable(c: Image, base: Image) {
    Recovered(c) == Recovered(base) && Carried(c) && (Log(c) == Log(base) || Log(c) == [])
  }

  /** A crash during the replay leaves a log that the next mount replays and clears again. */
  lemma ReplayingRemountable(c: Image, base: Image)
    requires Replaying(c, base) && DATA_OFFSET <= |base| && ToReplay(VisibleLog(base)) != []
    ensures Remountable(c, base)
  {
    hide Slots, HeaderOf, Run, ToReplay, TailClean;
    assert ToReplay([]) == [] by { NothingToReplay(); }
    SameLog(c, base);
  }

  lemma ReplayNext(es: seq<Entry>, base: Image, k: nat)
    requires k < |es|
    ensures Apply(Replay(es[..k], base), es[k]) == Replay(es[..k + 1], base)
  {
    hide Apply;
    assert es[..k + 1] == es[..k] + [es[k]];
    ReplayConcat(es[..k], [es[k]], base);
    assert Replay([es[k]], Replay(es[..k], base)) == Replay([es[k]][1..], Apply(Replay(es[..k], base), es[k]));
  }

  /** After the replay everything committed is in place. */
  lemma ReplayDone(es: seq<Entry>, base: Image, done: Image)
    requires DATA_OFFSET <= |base| && HeaderValid(base) && es == ToReplay(Log(base)) && ClearOf(es)
    requires done == Replay(es, base) && Replaying(done, base)
    ensures Settled(done) && Blank(done) == Recovered(base) && Log(done) == Log(base)
  {
    SameLog(done, base);
    ReplayIdempotent(es, base);
  }

  // ---- writes that bypass the journal ----

  /** No entry touches the `len` bytes at `off`. */
  ghost predicate KeepsClear(es: seq<Entry>, off: nat, len: nat) {
    forall e :: e in es ==> e.diskOffset + |Data(e)| <= off || off + len <= e.diskOffset
  }

  lemma {:induction false} ReplayCommutes(es: seq<Entry>, img: Image, off: nat, data: seq<byte>)
    requires KeepsClear(es, off, |data|)
    ensures Replay(es, Overwrite(img, off, data)) == Overwrite(Replay(es, img), off, data)
  {
    if es != [] {
      var e := es[0];
      assert e in es;
      hide Data;
      assert Apply(Overwrite(img, off, data), e) == Overwrite(Apply(img, e), off, data);
      ReplayCommutes(es[1..], Apply(img, e), off, data);
    }
  }

  /** A write below `lo` or from `hi` on, outside the journal, leaves a mounted disk mounted. */
  lemma BypassMounted(img: Image, next: u32, lo: nat, hi: nat, off: nat, data: seq<byte>)
    requires MountedOn(img, next, lo, hi) && ClearOfJournal(off, |data|)
    requires off + |data| <= lo || hi <= off
    ensures var done := Overwrite(img, off, data);
            && MountedOn(done, next, lo, hi) && Slots(done) == Slots(img) && HeaderOf(done) == HeaderOf(img)
  {
    hide Slots, HeaderOf, Run, MayLeave, ToReplay, Overwrite, Blank, Replay, Data, Log;
    var es := ToReplay(Log(img));
    var done := Overwrite(img, off, data);
    WrittenMayBeLeft(img, off, data);
    JournalUntouched(img, off, data, done);
    SameLog(done, img);
    ReplayCommutes(es, img, off, data);
    BlankOverwrite(Replay(es, img), off, data);
    BlankOverwrite(img, off, data);
  }

  lemma WiderMounted(img: Image, next: u32, lo: nat, hi: nat, hi': nat)
    requires MountedOn(img, next, lo, hi) && hi <= hi'
    ensures MountedOn(img, next, lo, hi')
  {
  }
}
