/** Who owns which byte of the data region: live file extents, free extents and inode extension blocks
    (src/fs/mod.rs, src/fs/free_list.rs, src/fs/inode_table.rs). */
module Space {
  import opened Bytes
  import opened DiskImage
  import opened FreeList
  import opened InodeTable

  /** Byte `b` belongs to an inode extension block. */
  ghost predicate InBlock(dir: Directory, b: int) {
    exists k :: 1 <= k < BlockCount(dir) && dir[k] <= b < dir[k] + INODE_BLOCK_SIZE
  }

  ghost predicate InRegion(e: Extent, end: nat) {
    e.length > 0 ==> DATA_OFFSET <= e.offset && e.End() <= end
  }

  ghost predicate NoSharedByte(a: Extent, b: Extent) {
    forall x :: !(Inside(a, x) && Inside(b, x))
  }

  /** No byte of `e` is free or part of an extension block. */
  ghost predicate OwnBytes(e: Extent, dir: Directory, free: seq<Extent>) {
    forall x :: Inside(e, x) ==> !InSome(free, x) && !InBlock(dir, x)
  }

  ghost predicate FreeInRegion(dir: Directory, free: seq<Extent>, end: nat) {
    forall x :: InSome(free, x) ==> DATA_OFFSET <= x < end && !InBlock(dir, x)
  }

  /** Live extents, free extents and extension blocks are pairwise disjoint and lie in [DATA_OFFSET, end). */
  ghost predicate Partitioned(live: seq<Extent>, dir: Directory, free: seq<Extent>, end: nat) {
    && Laid(dir, end)
    && (forall i :: 0 <= i < |live| ==> InRegion(live[i], end) && OwnBytes(live[i], dir, free))
    && (forall i, j :: 0 <= i < j < |live| ==> NoSharedByte(live[i], live[j]))
    && FreeInRegion(dir, free, end) && Apart(free) && AllPositive(free)
  }

  // ---- what `alloc_data` takes, and what it leaves ----

  /** The extent an allocation of `n` bytes gets: from the front of a best-fitting free extent, or else at the end. */
  function NextExtent(free: seq<Extent>, end: nat, n: nat): Extent {
    match BestFit(free, n)
    case Some(i) => Extent(free[i].offset, n)
    case None => Extent(end, n)
  }

  function FreeAfter(free: seq<Extent>, n: nat): seq<Extent> {
    match BestFit(free, n)
    case Some(i) =>
      free[..i] + free[i + 1..]
      + if free[i].length - n >= 512 then [Extent(free[i].offset + n, free[i].length - n)] else []
    case None => free
  }

  function AlignedUp(end: nat): nat {
    var rem := end % 512;
    if rem != 0 then end + (512 - rem) else end
  }

  /** `aligned` is the least multiple of 512 from `end` on. */
  ghost predicate IsAlignedUp(end: nat, aligned: nat) {
    end <= aligned < end + 512 && aligned % 512 == 0
  }

  lemma AlignedUpIs(end: nat)
    ensures IsAlignedUp(end, AlignedUp(end))
  {
  }

  function EndAfter(free: seq<Extent>, end: nat, n: nat): nat {
    if BestFit(free, n).Some? then end else AlignedUp(end + n)
  }

  lemma TakenFromList(free: seq<Extent>, end: nat, n: nat, i: nat, at: nat, now: seq<Extent>)
    requires BestFit(free, n) == Some(i) && Claimed(free, i, n, at, now)
    ensures NextExtent(free, end, n) == Extent(at, n) && FreeAfter(free, n) == now && EndAfter(free, end, n) == end
  {
  }

  lemma TakenAtEnd(free: seq<Extent>, end: nat, n: nat)
    ensures (forall e :: e in free ==> e.length < n) ==>
              && NextExtent(free, end, n) == Extent(end, n) && FreeAfter(free, n) == free
              && EndAfter(free, end, n) == AlignedUp(end + n)
  {
  }

  lemma FreshSpace(dir: Directory, end: nat)
    requires Laid(dir, end) && BlockCount(dir) == 1
    ensures Partitioned([], dir, [], end)
  {
  }

  /** An allocation from the free list: the claimed bytes change hands, nobody else is touched. */
  lemma ClaimedSpace(live: seq<Extent>, dir: Directory, was: seq<Extent>, end: nat, i: nat, n: nat, at: nat,
                     now: seq<Extent>)
    requires Partitioned(live, dir, was, end) && Claimed(was, i, n, at, now)
    ensures Partitioned(live + [Extent(at, n)], dir, now, end)
  {
    ClaimedBytes(was, i, n, at, now);
    var e := Extent(at, n);
    hide InSome, InBlock, Apart, AllPositive, Laid, Claimed, LostWithin;
    forall x | Inside(e, x) ensures InSome(was, x) && !InSome(now, x) {
    }
    if n > 0 {
      assert Inside(e, at) && Inside(e, at + n - 1);
      assert InSome(was, at) && InSome(was, at + n - 1);
    }
    forall k | 0 <= k < |live| ensures OwnBytes(live[k], dir, now) && NoSharedByte(live[k], e) {
    }
  }

  /** An allocation at the end of the region. */
  lemma BumpedSpace(live: seq<Extent>, dir: Directory, free: seq<Extent>, end: nat, n: nat, end': nat)
    requires Partitioned(live, dir, free, end) && end + n <= end'
    ensures Partitioned(live + [Extent(end, n)], dir, free, end')
  {
    var e := Extent(end, n);
    hide InSome, Apart, AllPositive;
    forall x | Inside(e, x) ensures !InSome(free, x) && !InBlock(dir, x) {
    }
    forall k | 0 <= k < |live| ensures InRegion(live[k], end') && NoSharedByte(live[k], e) {
      assert InRegion(live[k], end);
    }
  }

  /** `es` without the first `e`. */
  function Without(es: seq<Extent>, e: Extent): seq<Extent> {
    if es == [] then [] else if es[0] == e then es[1..] else [es[0]] + Without(es[1..], e)
  }

  lemma {:induction false} WithoutIs(es: seq<Extent>, e: Extent) returns (k: nat)
    ensures e !in es ==> Without(es, e) == es
    ensures e in es ==> k < |es| && es[k] == e && Without(es, e) == es[..k] + es[k + 1..]
  {
    k := 0;
    if es != [] && es[0] != e {
      var k' := WithoutIs(es[1..], e);
      k := k' + 1;
      assert e in es ==> e in es[1..];
      assert e in es ==> [es[0]] + (es[1..][..k'] + es[1..][k' + 1..]) == es[..k] + es[k + 1..];
    }
  }

  /** The bytes of `e` lie in the region, and no live extent and no extension block owns one. */
  ghost predicate Ownerless(e: Extent, live: seq<Extent>, dir: Directory, end: nat) {
    forall x :: Inside(e, x) ==> DATA_OFFSET <= x < end && !InBlock(dir, x) && !InSome(live, x)
  }

  /** A live extent that leaves the live ones belongs to nobody. */
  lemma LiveGivenUp(live: seq<Extent>, k: nat, dir: Directory, free: seq<Extent>, end: nat)
    requires Partitioned(live, dir, free, end) && k < |live|
    ensures var rest := live[..k] + live[k + 1..];
            Partitioned(rest, dir, free, end) && Ownerless(live[k], rest, dir, end)
  {
    var rest := live[..k] + live[k + 1..];
    hide InBlock, Apart, AllPositive, Laid;
    assert forall i :: 0 <= i < |rest| ==> rest[i] == live[if i < k then i else i + 1];
    assert InRegion(live[k], end) && OwnBytes(live[k], dir, free);
    forall i | 0 <= i < |rest| ensures NoSharedByte(rest[i], live[k]) {
      var i' := if i < k then i else i + 1;
      assert NoSharedByte(live[if i < k then i' else k], live[if i < k then k else i']);
    }
    forall i, j | 0 <= i < j < |rest| ensures NoSharedByte(rest[i], rest[j]) {
      assert NoSharedByte(live[if i < k then i else i + 1], live[if j < k then j else j + 1]);
    }
  }

  /** Making the bytes of an extent free keeps everybody apart exactly when they lie in the region and nobody
      owns one. */
  lemma ReleasedSpace(live: seq<Extent>, dir: Directory, was: seq<Extent>, end: nat, e: Extent, now: seq<Extent>)
    requires Partitioned(live, dir, was, end) && Separated(now) && AllPositive(now)
    requires forall x :: InSome(now, x) <==> InSome(was, x) || Inside(e, x)
    ensures Partitioned(live, dir, now, end) <==> Ownerless(e, live, dir, end)
  {
    SeparatedIsApart(now);
    hide InBlock, Apart, AllPositive, Laid, Separated;
    if Ownerless(e, live, dir, end) {
      forall i | 0 <= i < |live| ensures InRegion(live[i], end) && OwnBytes(live[i], dir, now) {
        assert InRegion(live[i], end) && OwnBytes(live[i], dir, was);
        forall x | Inside(live[i], x) ensures !InSome(now, x) {
          assert live[i] in live && InSome(live, x);
        }
      }
    }
    if Partitioned(live, dir, now, end) {
      forall x | Inside(e, x) ensures DATA_OFFSET <= x < end && !InBlock(dir, x) && !InSome(live, x) {
        assert InSome(now, x);
        forall l | l in live ensures !Inside(l, x) {
          var i :| 0 <= i < |live| && live[i] == l;
          assert OwnBytes(live[i], dir, now);
        }
      }
    }
  }

  /** What giving back `e` does, whoever owns it: `now` is the free list as it was, or with the bytes of `e`. */
  lemma FreedSpace(live: seq<Extent>, dir: Directory, was: seq<Extent>, end: nat, e: Extent, now: seq<Extent>,
                   taken: bool)
    requires Partitioned(live, dir, was, end)
    requires !taken ==> now == was
    requires taken ==> Separated(now) && AllPositive(now)
                       && forall x :: InSome(now, x) <==> InSome(was, x) || Inside(e, x)
    ensures e in live || !taken ==> Partitioned(Without(live, e), dir, now, end)
    ensures taken ==> (Partitioned(Without(live, e), dir, now, end) <==> Ownerless(e, Without(live, e), dir, end))
  {
    hide Partitioned, Ownerless, InSome, Separated, AllPositive;
    var k := WithoutIs(live, e);
    if e in live {
      LiveGivenUp(live, k, dir, was, end);
    }
    if taken {
      ReleasedSpace(Without(live, e), dir, was, end, e, now);
    }
  }

  /** A new extension block at the end of the region. */
  lemma GrownSpace(live: seq<Extent>, dir: Directory, free: seq<Extent>, end: u64)
    requires Partitioned(live, dir, free, end) && BlockCount(dir) < MAX_INODE_BLOCKS
    ensures Partitioned(live, dir[BlockCount(dir) := end], free, end + INODE_BLOCK_SIZE)
  {
    var grown := dir[BlockCount(dir) := end];
    GrownDirectory(dir, end);
    hide InSome, Apart, AllPositive, BlockCount, InodeOffset;
    forall x | InBlock(grown, x) && x < end ensures InBlock(dir, x) {
      var k :| 1 <= k < BlockCount(grown) && grown[k] <= x < grown[k] + INODE_BLOCK_SIZE;
      assert k < BlockCount(dir);
    }
    forall i | 0 <= i < |live|
      ensures InRegion(live[i], end + INODE_BLOCK_SIZE) && OwnBytes(live[i], grown, free)
    {
      assert InRegion(live[i], end) && OwnBytes(live[i], dir, free);
    }
  }
}
