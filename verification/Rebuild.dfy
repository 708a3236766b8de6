/** Rebuilding the free list from the live extents (FreeList::rebuild_from_inodes in src/fs/free_list.rs). */
module Rebuild {
  import opened Bytes
  import opened FreeList

  /** Free is exactly what is unused in [dataStart, diskSize). */
  ghost predicate Exact(free: seq<Extent>, used: seq<Extent>, dataStart: nat, diskSize: nat) {
    forall b :: InSome(free, b) <==> IsUnused(used, dataStart, diskSize, b)
  }

  ghost predicate IsUnused(used: seq<Extent>, lo: nat, hi: nat, b: int) {
    lo <= b < hi && !InSome(used, b)
  }

  /** Where the sweep ends: at the end of the disk, or behind it when an extent ends behind it. */
  function Reach(used: seq<Extent>, diskSize: nat): (r: nat)
    ensures diskSize <= r && forall e :: e in used ==> e.End() <= r
    ensures r == diskSize || exists e :: e in used && e.End() == r
  {
    if used == [] then diskSize
    else
      assert forall e :: e in used <==> e == used[0] || e in used[1..];
      Max(used[0].End(), Reach(used[1..], diskSize))
  }

  /** The gaps the sweep meets over `sorted` with the cursor at `cursor`, the tail of the disk included. */
  function Gaps(sorted: seq<Extent>, cursor: nat, diskSize: nat): nat {
    if sorted == [] then (if cursor < diskSize then 1 else 0)
    else (if sorted[0].offset > cursor then 1 else 0)
         + Gaps(sorted[1..], Max(sorted[0].End(), cursor), diskSize)
  }

  /** Bytes between the cursor and the next extent in address order are unused. */
  lemma GapUnused(sorted: seq<Extent>, k: nat, cursor: nat, b: int)
    requires SortedByOffset(sorted) && k <= |sorted|
    requires forall e :: e in sorted[..k] ==> e.End() <= cursor
    requires cursor <= b && (k < |sorted| ==> b < sorted[k].offset)
    ensures !InSome(sorted, b)
  {
    forall i | 0 <= i < |sorted| ensures !Inside(sorted[i], b) {
      if i < k {
        assert sorted[i] in sorted[..k];
      } else {
        assert sorted[k].offset <= sorted[i].offset;
      }
    }
  }

  /** A gap appended behind a separated list, one used byte away from it, is one more extent. */
  lemma GapAppended(was: seq<Extent>, gap: Extent, now: seq<Extent>)
    requires Separated(was) && AllPositive(was) && Separated(now) && AllPositive(now) && gap.length > 0
    requires was != [] ==> was[|was| - 1].End() < gap.offset
    requires forall b :: InSome(now, b) <==> InSome(was, b) || gap.offset <= b < gap.End()
    ensures now == was + [gap]
  {
    forall i | 0 <= i < |was| ensures was[i].End() < gap.offset {
      assert i < |was| - 1 ==> was[i].End() < was[|was| - 1].offset;
    }
    assert Separated(was + [gap]);
    PushLast(was, gap);
    assert forall b :: Inside(gap, b) <==> gap.offset <= b < gap.End();
    MergedFormUnique(now, was + [gap]);
  }

  /** What the sweep has done up to `cursor`, `calls` gaps in. */
  ghost predicate Swept(free: seq<Extent>, used: seq<Extent>, dataStart: nat, cursor: nat, calls: nat,
                        lost: Option<int>)
  {
    && (forall b :: InSome(free, b) ==> IsUnused(used, dataStart, cursor, b))
    && (lost.None? ==> forall b :: IsUnused(used, dataStart, cursor, b) ==> InSome(free, b))
    && (lost.Some? ==> IsUnused(used, dataStart, cursor, lost.value) && !InSome(free, lost.value))
    && (lost.Some? ==> calls > MAX_PERSISTED_EXTENTS || (dataStart == 0 && !InSome(used, 0)))
    && AllPositive(free) && |free| <= calls && |free| <= MAX_PERSISTED_EXTENTS
    && (free != [] ==> Separated(free))
    && (AllPositive(used) && lost.None? ==> |free| == calls)
  }

  /** One gap: `free(cursor, end - cursor)` either makes it free or, when the list is full or the gap starts at
      byte 0, loses it. */
  lemma SweepGap(was: seq<Extent>, now: seq<Extent>, used: seq<Extent>, dataStart: nat, cursor: nat, end: nat,
                 calls: nat, lost: Option<int>) returns (lost': Option<int>)
    requires Swept(was, used, dataStart, cursor, calls, lost)
    requires dataStart <= cursor < end
    requires forall b :: cursor <= b < end ==> !InSome(used, b)
    requires AllPositive(used) && was != [] ==> was[|was| - 1].End() < cursor
    requires cursor == 0 || |was| >= MAX_PERSISTED_EXTENTS ==> now == was
    requires cursor != 0 && |was| < MAX_PERSISTED_EXTENTS ==>
               && Separated(now) && AllPositive(now) && |now| <= |was| + 1
               && (forall b :: InSome(now, b) <==> InSome(was, b) || cursor <= b < end)
    ensures Swept(now, used, dataStart, end, calls + 1, lost')
    ensures AllPositive(used) && now != [] ==> now[|now| - 1].End() <= end
  {
    lost' := if lost.None? && now == was then Some(cursor) else lost;
    if cursor == 0 || |was| >= MAX_PERSISTED_EXTENTS {
      assert IsUnused(used, dataStart, end, cursor);
      assert InSome(was, cursor) ==> IsUnused(used, dataStart, cursor, cursor);
      forall b | InSome(now, b) ensures IsUnused(used, dataStart, end, b) {
        assert IsUnused(used, dataStart, cursor, b);
      }
      if lost.Some? {
        assert IsUnused(used, dataStart, end, lost.value);
      }
    } else {
      assert now != was by {
        assert InSome(now, cursor);
        assert InSome(was, cursor) ==> IsUnused(used, dataStart, cursor, cursor);
      }
      forall b | InSome(now, b) ensures IsUnused(used, dataStart, end, b) {
        assert InSome(was, b) ==> IsUnused(used, dataStart, cursor, b);
      }
      forall b | IsUnused(used, dataStart, end, b) && lost.None? ensures InSome(now, b) {
        assert b < cursor ==> IsUnused(used, dataStart, cursor, b);
      }
      if lost.Some? {
        assert IsUnused(used, dataStart, end, lost.value);
      }
      if AllPositive(used) {
        GapAppended(was, Extent(cursor, end - cursor), now);
      }
    }
  }

  /** Passing a used extent moves the cursor over used bytes only. */
  lemma SweepUsed(free: seq<Extent>, used: seq<Extent>, e: Extent, dataStart: nat, cursor: nat, calls: nat,
                  lost: Option<int>)
    requires Swept(free, used, dataStart, cursor, calls, lost)
    requires e in used && e.offset <= cursor
    ensures Swept(free, used, dataStart, Max(e.End(), cursor), calls, lost)
  {
    var next := Max(e.End(), cursor);
    forall b ensures IsUnused(used, dataStart, next, b) <==> IsUnused(used, dataStart, cursor, b) {
      if cursor <= b < next {
        assert Inside(e, b);
      }
    }
  }

  /** What one call of `free` for the gap [cursor, end) may have done (the contract of FreeList.Free). */
  ghost predicate Freed(was: seq<Extent>, now: seq<Extent>, cursor: nat, end: nat) {
    && (cursor == 0 || cursor >= end || |was| >= MAX_PERSISTED_EXTENTS ==> now == was)
    && (cursor != 0 && cursor < end && |was| < MAX_PERSISTED_EXTENTS ==>
          && Separated(now) && |now| <= |was| + 1
          && (AllPositive(was) ==> AllPositive(now))
          && (forall b :: InSome(now, b) <==> InSome(was, b) || cursor <= b < end))
  }

  /** The sweep has passed the first `k` extents in address order. */
  ghost predicate SweptTo(free: seq<Extent>, used: seq<Extent>, sorted: seq<Extent>, k: nat, dataStart: nat,
                          diskSize: nat, cursor: nat, calls: nat, lost: Option<int>)
  {
    && SortedByOffset(sorted) && k <= |sorted| && (forall e :: e in sorted <==> e in used)
    && dataStart <= cursor <= Max(dataStart, Reach(used, diskSize))
    && (forall e :: e in sorted[..k] ==> e.End() <= cursor)
    && calls + Gaps(sorted[k..], cursor, diskSize) == Gaps(sorted, dataStart, diskSize)
    && Swept(free, used, dataStart, cursor, calls, lost)
    && (AllPositive(used) && free != [] ==> free[|free| - 1].End() < cursor)
    && (dataStart == 0 && !InSome(used, 0) && cursor > 0 ==> lost.Some?)
  }

  lemma SweepStart(used: seq<Extent>, dataStart: nat, diskSize: nat)
    ensures SweptTo([], used, SortByOffset(used), 0, dataStart, diskSize, dataStart, 0, None)
  {
    var sorted := SortByOffset(used);
    assert sorted[0..] == sorted;
    assert forall b :: !IsUnused(used, dataStart, dataStart, b);
  }

  lemma SweepStep(was: seq<Extent>, now: seq<Extent>, used: seq<Extent>, sorted: seq<Extent>, k: nat, dataStart: nat,
                  diskSize: nat, cursor: nat, calls: nat, lost: Option<int>)
    returns (calls': nat, lost': Option<int>)
    requires SweptTo(was, used, sorted, k, dataStart, diskSize, cursor, calls, lost) && k < |sorted|
    requires Freed(was, now, cursor, sorted[k].offset)
    ensures SweptTo(now, used, sorted, k + 1, dataStart, diskSize, Max(sorted[k].End(), cursor), calls', lost')
  {
    hide Swept, InSome, AllPositive, Separated, Reach;
    var e := sorted[k];
    assert e in sorted;
    assert sorted[k..][1..] == sorted[k + 1..] && sorted[k..][0] == e;
    assert sorted[..k + 1] == sorted[..k] + [e];
    if e.offset > cursor {
      calls' := calls + 1;
      lost' := SweepPastGap(was, now, used, sorted, k, dataStart, diskSize, cursor, calls, lost);
    } else {
      calls', lost' := calls, lost;
      SweepUsed(now, used, e, dataStart, cursor, calls, lost);
      FromZero(used, e, cursor);
    }
  }

  lemma FromZero(used: seq<Extent>, e: Extent, cursor: nat)
    requires e in used && e.offset <= cursor
    ensures cursor == 0 && e.End() > 0 ==> InSome(used, 0)
  {
    assert cursor == 0 && e.End() > 0 ==> Inside(e, 0);
  }

  lemma SweepPastGap(was: seq<Extent>, now: seq<Extent>, used: seq<Extent>, sorted: seq<Extent>, k: nat, dataStart: nat,
                     diskSize: nat, cursor: nat, calls: nat, lost: Option<int>)
    returns (lost': Option<int>)
    requires SweptTo(was, used, sorted, k, dataStart, diskSize, cursor, calls, lost) && k < |sorted|
    requires sorted[k].offset > cursor && Freed(was, now, cursor, sorted[k].offset)
    ensures Swept(now, used, dataStart, sorted[k].End(), calls + 1, lost')
    ensures AllPositive(used) && now != [] ==> now[|now| - 1].End() < sorted[k].End()
    ensures dataStart == 0 && !InSome(used, 0) ==> lost'.Some?
  {
    var e := sorted[k];
    assert e in sorted;
    SameMembers(sorted, used);
    forall b | cursor <= b < e.offset ensures !InSome(used, b) {
      GapUnused(sorted, k, cursor, b);
    }
    assert AllPositive(was) by {
      assert Swept(was, used, dataStart, cursor, calls, lost);
    }
    lost' := SweepGap(was, now, used, dataStart, cursor, e.offset, calls, lost);
    assert dataStart == 0 && cursor == 0 ==> !InSome(was, 0) by {
      assert Swept(was, used, dataStart, cursor, calls, lost);
      assert InSome(was, 0) ==> IsUnused(used, dataStart, cursor, 0);
    }
    assert dataStart == 0 && cursor == 0 && !InSome(used, 0) ==> IsUnused(used, dataStart, e.offset, 0);
    SweepUsed(now, used, e, dataStart, e.offset, calls + 1, lost');
  }

  lemma SweepEnd(was: seq<Extent>, now: seq<Extent>, used: seq<Extent>, sorted: seq<Extent>, dataStart: nat,
                 diskSize: nat, cursor: nat, calls: nat, lost: Option<int>)
    requires SweptTo(was, used, sorted, |sorted|, dataStart, diskSize, cursor, calls, lost) && used != []
    requires Freed(was, now, cursor, diskSize)
    ensures forall b :: InSome(now, b) ==> IsUnused(used, dataStart, Reach(used, diskSize), b)
    ensures (dataStart > 0 || InSome(used, 0)) && Gaps(sorted, dataStart, diskSize) <= MAX_PERSISTED_EXTENTS ==>
              Exact(now, used, dataStart, Reach(used, diskSize))
    ensures AllPositive(used) && Exact(now, used, dataStart, Reach(used, diskSize)) ==>
              (dataStart > 0 || InSome(used, 0)) && Gaps(sorted, dataStart, diskSize) <= MAX_PERSISTED_EXTENTS
  {
    SameMembers(sorted, used);
    assert sorted[..|sorted|] == sorted;
    assert used[0] in sorted;
    var calls', lost' := calls, lost;
    if cursor < diskSize {
      forall b | cursor <= b < diskSize ensures !InSome(used, b) {
        GapUnused(sorted, |sorted|, cursor, b);
      }
      lost' := SweepGap(was, now, used, dataStart, cursor, diskSize, calls, lost);
      calls' := calls + 1;
    }
    SweepVerdict(now, used, dataStart, Reach(used, diskSize), Max(cursor, diskSize), calls', lost');
  }

  /** At the end of the sweep: exact means nothing was lost. */
  lemma SweepVerdict(now: seq<Extent>, used: seq<Extent>, dataStart: nat, end: nat, cursor: nat, calls: nat,
                     lost: Option<int>)
    requires Swept(now, used, dataStart, cursor, calls, lost)
    requires cursor == end || (cursor == dataStart && end <= dataStart)
    ensures lost.None? <==> Exact(now, used, dataStart, end)
    ensures forall b :: InSome(now, b) ==> IsUnused(used, dataStart, end, b)
  {
    assert forall b :: IsUnused(used, dataStart, cursor, b) <==> IsUnused(used, dataStart, end, b);
    if lost.Some? {
      assert IsUnused(used, dataStart, end, lost.value);
    }
  }

  lemma FreedGap(was: seq<Extent>, now: seq<Extent>, cursor: nat, end: nat)
    requires cursor == 0 || cursor >= end || |was| >= MAX_PERSISTED_EXTENTS ==> now == was
    requires cursor != 0 && cursor < end && |was| < MAX_PERSISTED_EXTENTS ==>
               && Separated(now) && |now| <= |was| + 1
               && (forall b :: InSome(now, b) <==> InSome(was, b) || cursor <= b < end)
    requires AllPositive(was) ==> AllPositive(now)
    ensures Freed(was, now, cursor, end)
  {
    hide Separated, InSome, AllPositive;
  }

  lemma AllUnused(gap: Extent, dataStart: nat, diskSize: nat)
    requires gap == Extent(dataStart, if diskSize >= dataStart then diskSize - dataStart else 0)
    ensures Reach([], diskSize) == diskSize
    ensures Exact([gap], [], dataStart, diskSize)
    ensures forall b :: InSome([gap], b) ==> IsUnused([], dataStart, diskSize, b)
  {
    assert forall b :: Inside(gap, b) <==> IsUnused([], dataStart, diskSize, b);
    assert forall b :: InSome([gap], b) <==> Inside(gap, b) by {
      assert gap in [gap];
    }
  }

  /** The free list from the live extents. "All that is unused" reaches to the end of the disk, or to the end of the
      furthest extent if that lies behind it: gaps in front of such an extent become free past the end of the disk. */
  method RebuildFromInodes(used: seq<Extent>, diskSize: nat, dataStart: nat) returns (fl: FreeList)
    ensures fresh(fl)
    ensures used == [] ==> Exact(fl.extents, used, dataStart, diskSize)
    // Never a byte too many.
    ensures forall b :: InSome(fl.extents, b) ==> IsUnused(used, dataStart, Reach(used, diskSize), b)
    // Every byte, when no gap starts at byte 0 and the gaps fit the list ...
    ensures used != [] && (dataStart > 0 || InSome(used, 0))
            && Gaps(SortByOffset(used), dataStart, diskSize) <= MAX_PERSISTED_EXTENTS ==>
              Exact(fl.extents, used, dataStart, Reach(used, diskSize))
    // ... and otherwise, for non-empty live extents, some byte goes missing.
    ensures used != [] && AllPositive(used) && Exact(fl.extents, used, dataStart, Reach(used, diskSize)) ==>
              (dataStart > 0 || InSome(used, 0))
              && Gaps(SortByOffset(used), dataStart, diskSize) <= MAX_PERSISTED_EXTENTS
  {
    hide SweptTo, Freed, Exact, IsUnused, InSome, Inside, SortByOffset, Gaps, Separated, AllPositive, Reach;
    fl := new FreeList();
    if used == [] {
      var gap := Extent(dataStart, if diskSize >= dataStart then diskSize - dataStart else 0);
      fl.extents := fl.extents + [gap];
      assert fl.extents == [gap];
      AllUnused(gap, dataStart, diskSize);
      return;
    }
    var sorted := SortByOffset(used);
    var cursor: nat := dataStart;
    SweepStart(used, dataStart, diskSize);
    ghost var calls: nat, lost: Option<int> := 0, None;
    for k := 0 to |sorted|
      invariant SweptTo(fl.extents, used, sorted, k, dataStart, diskSize, cursor, calls, lost)
      invariant fresh(fl)
    {
      ghost var was := fl.extents;
      if sorted[k].offset > cursor {
        fl.Free(cursor, sorted[k].offset - cursor);
      }
      FreedGap(was, fl.extents, cursor, sorted[k].offset);
      calls, lost := SweepStep(was, fl.extents, used, sorted, k, dataStart, diskSize, cursor, calls, lost);
      cursor := Max(sorted[k].End(), cursor);
    }
    ghost var was := fl.extents;
    if cursor < diskSize {
      fl.Free(cursor, diskSize - cursor);
    }
    FreedGap(was, fl.extents, cursor, diskSize);
    SweepEnd(was, fl.extents, used, sorted, dataStart, diskSize, cursor, calls, lost);
  }
}
