/** The free list (src/fs/free_list.rs): best-fit allocation over merged extents. */
module FreeList {
  import opened Bytes

  const MAX_PERSISTED_EXTENTS: nat := 200

  datatype Extent = Extent(offset: nat, length: nat) {
    function End(): nat { offset + length }
  }

  predicate Inside(e: Extent, b: int) {
    e.offset <= b < e.End()
  }

  /** Byte `b` lies in one of the extents. */
  ghost predicate InSome(es: seq<Extent>, b: int) {
    exists e :: e in es && Inside(e, b)
  }

  /** Any two extents have at least one byte between them. */
  ghost predicate Apart(es: seq<Extent>) {
    forall i, j :: 0 <= i < |es| && 0 <= j < |es| && i != j ==>
      es[i].End() < es[j].offset || es[j].End() < es[i].offset
  }

  ghost predicate AllPositive(es: seq<Extent>) {
    forall e :: e in es ==> e.length > 0
  }

  /** In address order, with at least one byte between neighbours. */
  ghost predicate Separated(es: seq<Extent>) {
    forall i, j :: 0 <= i < j < |es| ==> es[i].End() < es[j].offset
  }

  lemma SeparatedIsApart(es: seq<Extent>)
    requires Separated(es)
    ensures Apart(es)
  {
  }

  // ---- sort_by_key(offset): stable ----

  ghost predicate SortedByOffset(es: seq<Extent>) {
    forall i, j :: 0 <= i < j < |es| ==> es[i].offset <= es[j].offset
  }

  function Insert(e: Extent, es: seq<Extent>): (r: seq<Extent>)
    requires SortedByOffset(es)
    ensures SortedByOffset(r) && |r| == |es| + 1
    ensures forall x :: x in r <==> x == e || x in es
  {
    if es == [] || e.offset <= es[0].offset then [e] + es
    else
      var rest := Insert(e, es[1..]);
      assert forall x :: x in es <==> x == es[0] || x in es[1..];
      assert forall k :: 0 <= k < |rest| ==> rest[k] in rest;
      [es[0]] + rest
  }

  function SortByOffset(es: seq<Extent>): (r: seq<Extent>)
    ensures SortedByOffset(r) && |r| == |es|
    ensures forall x :: x in r <==> x in es
  {
    if es == [] then []
    else
      assert forall x :: x in es <==> x == es[0] || x in es[1..];
      Insert(es[0], SortByOffset(es[1..]))
  }

  lemma SameMembers(a: seq<Extent>, b: seq<Extent>)
    requires forall x :: x in a <==> x in b
    ensures forall b' :: InSome(a, b') <==> InSome(b, b')
    ensures AllPositive(a) <==> AllPositive(b)
  {
  }

  // ---- best fit ----

  /** The first index, among the extents of at least `n` bytes, of a shortest one. */
  function BestFit(es: seq<Extent>, n: nat): (r: Option<nat>)
    ensures r.None? <==> forall e :: e in es ==> e.length < n
    ensures r.Some? ==> r.value < |es| && es[r.value].length >= n
                        && (forall j :: 0 <= j < |es| && es[j].length >= n ==> es[r.value].length <= es[j].length)
                        && (forall j :: 0 <= j < r.value && es[j].length >= n ==> es[r.value].length < es[j].length)
  {
    if es == [] then None
    else
      var last := |es| - 1;
      assert es == es[..last] + [es[last]];
      match BestFit(es[..last], n)
      case None => if es[last].length >= n then Some(last) else None
      case Some(i) => if n <= es[last].length < es[i].length then Some(last) else Some(i)
  }

  /** On a list of separate extents, a run of free bytes lies inside one extent. */
  lemma {:induction false} RunInsideOne(es: seq<Extent>, off: int, n: nat)
    requires Apart(es) && n > 0
    requires forall b :: off <= b < off + n ==> InSome(es, b)
    ensures exists e :: e in es && e.offset <= off && off + n <= e.End()
  {
    assert InSome(es, off + n - 1);
    if n == 1 {
      var e :| e in es && Inside(e, off);
    } else {
      RunInsideOne(es, off, n - 1);
      var e :| e in es && e.offset <= off && off + (n - 1) <= e.End();
      var e' :| e' in es && Inside(e', off + n - 1);
      var i :| 0 <= i < |es| && es[i] == e;
      var j :| 0 <= j < |es| && es[j] == e';
      assert i == j;
    }
  }

  /** `free` ignores an extent at offset 0, an empty one, and any extent beyond 200. */
  predicate ListTakes(es: seq<Extent>, offset: nat, length: nat) {
    offset != 0 && length != 0 && |es| < MAX_PERSISTED_EXTENTS
  }

  class FreeList {
    var extents: seq<Extent>

    constructor ()
      ensures extents == []
    {
      extents := [];
    }

    /** Adds a freed extent: exactly its bytes become free, and the list is back in separated order.
        An extent at offset 0, an empty one, and any extent beyond 200 are dropped. */
    method Free(offset: nat, length: nat)
      modifies this
      ensures offset == 0 || length == 0 || |old(extents)| >= 200 ==> extents == old(extents)
      ensures offset != 0 && length != 0 && |old(extents)| < 200 ==>
                && Separated(extents)
                && (forall b :: InSome(extents, b) <==> InSome(old(extents), b) || offset <= b < offset + length)
      ensures |extents| <= |old(extents)| + 1
      ensures AllPositive(old(extents)) ==> AllPositive(extents)
    {
      if offset == 0 || length == 0 {
        return;
      }
      if |extents| >= MAX_PERSISTED_EXTENTS {
        return;
      }
      ghost var was := extents;
      extents := extents + [Extent(offset, length)];
      assert forall b :: InSome(extents, b) <==> InSome(was, b) || offset <= b < offset + length by {
        forall b ensures InSome(extents, b) <==> InSome(was, b) || offset <= b < offset + length {
          assert Inside(Extent(offset, length), b) <==> offset <= b < offset + length;
          assert Extent(offset, length) in extents;
          assert forall e :: e in extents <==> e in was || e == Extent(offset, length);
        }
      }
      MergeAdjacent();
    }

    /** Sorts by offset and joins extents that touch or overlap; not a byte is gained or lost. */
    method MergeAdjacent()
      modifies this
      ensures Separated(extents) && |extents| <= |old(extents)|
      ensures forall b :: InSome(extents, b) <==> InSome(old(extents), b)
      ensures AllPositive(old(extents)) ==> AllPositive(extents)
    {
      hide InSome, Inside, MergedFrom, Separated, AllPositive, SortByOffset;
      FewAreSeparated(extents);
      if |extents| < 2 {
        return;
      }
      var sorted := SortByOffset(extents);
      SortedHasSame(extents);
      assert sorted[..0] == [];
      var merged: seq<Extent> := [];
      for k := 0 to |sorted|
        invariant MergedFrom(merged, sorted[..k])
      {
        var extent := sorted[k];
        assert sorted[..k + 1] == sorted[..k] + [extent];
        if merged != [] && extent.offset <= merged[|merged| - 1].End() {
          var last := merged[|merged| - 1];
          var newEnd := Max(extent.End(), last.End());
          var joined := merged[..|merged| - 1] + [Extent(last.offset, newEnd - last.offset)];
          MergedNonEmpty(merged, sorted[..k]);
          MergedJoin(merged, sorted[..k], extent, joined);
          merged := joined;
        } else {
          MergedPush(merged, sorted[..k], extent);
          merged := merged + [extent];
        }
      }
      assert sorted[..|sorted|] == sorted;
      MergedDone(merged, sorted);
      extents := merged;
    }

    /** Claims `n` bytes from a shortest extent that holds them. A rest of 512 bytes or more goes back on
        the list, a shorter rest is lost. */
    method Alloc(n: nat) returns (r: Option<nat>)
      modifies this
      ensures r.None? <==> forall e :: e in old(extents) ==> e.length < n
      ensures r.None? ==> extents == old(extents)
      ensures r.Some? ==> exists i :: BestFit(old(extents), n) == Some(i)
                                      && Claimed(old(extents), i, n, r.value, extents)
                                      && TotalFreeBytes() == old(TotalFreeBytes()) - n
                                         - Slack(old(extents)[i].length - n)
    {
      match BestFit(extents, n)
      case None =>
        r := None;
      case Some(idx) =>
        ghost var was := extents;
        var extent := extents[idx];
        extents := extents[..idx] + extents[idx + 1..];
        var remainder := extent.length - n;
        if remainder >= 512 {
          extents := extents + [Extent(extent.offset + n, remainder)];
        }
        r := Some(extent.offset);
        assert Claimed(was, idx, n, extent.offset, extents);
        ClaimedTotal(was, idx, n, extent.offset, extents);
    }

    function TotalFreeBytes(): nat
      reads this
    {
      Sum(extents)
    }
  }

  /** What a claim loses of the rest of its extent. */
  function Slack(rest: nat): nat {
    if rest < 512 then rest else 0
  }

  function Sum(es: seq<Extent>): nat {
    if es == [] then 0 else es[0].length + Sum(es[1..])
  }

  /** Extent `i` leaves the list; what is left of it behind the first `n` bytes returns if it is 512 or more. */
  ghost predicate Claimed(was: seq<Extent>, i: nat, n: nat, at: nat, now: seq<Extent>) {
    && i < |was| && at == was[i].offset && n <= was[i].length
    && now == was[..i] + was[i + 1..]
              + if was[i].length - n >= 512 then [Extent(at + n, was[i].length - n)] else []
  }

  /** `merged` is the separated form of the extents in `from`, which come in address order. */
  ghost predicate MergedFrom(merged: seq<Extent>, from: seq<Extent>) {
    && Separated(merged) && |merged| <= |from| && (from != [] ==> merged != [])
    && (merged != [] ==> from != [] && merged[|merged| - 1].offset <= from[|from| - 1].offset)
    && (forall b :: InSome(merged, b) <==> InSome(from, b))
    && (AllPositive(from) ==> AllPositive(merged))
  }

  lemma FewAreSeparated(es: seq<Extent>)
    ensures |es| < 2 ==> Separated(es)
    ensures MergedFrom([], [])
  {
  }

  lemma SortedHasSame(es: seq<Extent>)
    ensures forall b :: InSome(SortByOffset(es), b) <==> InSome(es, b)
    ensures AllPositive(es) ==> AllPositive(SortByOffset(es))
  {
    SameMembers(SortByOffset(es), es);
  }

  lemma MergedNonEmpty(merged: seq<Extent>, from: seq<Extent>)
    requires MergedFrom(merged, from) && merged != []
    ensures from != [] && merged[|merged| - 1].offset <= from[|from| - 1].offset
  {
  }

  lemma MergedDone(merged: seq<Extent>, from: seq<Extent>)
    requires MergedFrom(merged, from)
    ensures Separated(merged) && |merged| <= |from| && (AllPositive(from) ==> AllPositive(merged))
    ensures forall b :: InSome(merged, b) <==> InSome(from, b)
  {
  }

  lemma MergedPush(merged: seq<Extent>, from: seq<Extent>, e: Extent)
    requires MergedFrom(merged, from)
    requires merged == [] || merged[|merged| - 1].End() < e.offset
    ensures MergedFrom(merged + [e], from + [e])
  {
    PushLast(merged, e);
    PushLast(from, e);
    hide InSome;
    forall i | 0 <= i < |merged| ensures merged[i].End() < e.offset {
      assert i < |merged| - 1 ==> merged[i].End() < merged[|merged| - 1].offset;
    }
    if AllPositive(from + [e]) {
      assert e in from + [e] && forall x :: x in from ==> x in from + [e];
    }
  }

  lemma MergedJoin(merged: seq<Extent>, from: seq<Extent>, e: Extent, joined: seq<Extent>)
    requires MergedFrom(merged, from) && merged != []
    requires from[|from| - 1].offset <= e.offset <= merged[|merged| - 1].End()
    requires var last := merged[|merged| - 1];
             joined == merged[..|merged| - 1] + [Extent(last.offset, Max(e.End(), last.End()) - last.offset)]
    ensures MergedFrom(joined, from + [e])
  {
    JoinLast(merged, e, joined);
    PushLast(from, e);
    hide InSome;
    if AllPositive(from + [e]) {
      assert e in from + [e] && forall x :: x in from ==> x in from + [e];
      assert merged[|merged| - 1] in merged;
      assert forall x :: x in joined ==> x in merged || x == joined[|joined| - 1];
    }
  }

  lemma PushLast(es: seq<Extent>, e: Extent)
    ensures forall b :: InSome(es + [e], b) <==> InSome(es, b) || Inside(e, b)
  {
    forall b ensures InSome(es + [e], b) <==> InSome(es, b) || Inside(e, b) {
      assert e in es + [e];
      assert forall x :: x in es + [e] <==> x in es || x == e;
    }
  }

  /** Growing the last extent over a touching or overlapping one joins their bytes. */
  lemma JoinLast(es: seq<Extent>, e: Extent, joined: seq<Extent>)
    requires es != [] && es[|es| - 1].offset <= e.offset <= es[|es| - 1].End()
    requires var last := es[|es| - 1];
             joined == es[..|es| - 1] + [Extent(last.offset, Max(e.End(), last.End()) - last.offset)]
    ensures forall b :: InSome(joined, b) <==> InSome(es, b) || Inside(e, b)
  {
    var init, last := es[..|es| - 1], es[|es| - 1];
    assert es == init + [last];
    PushLast(init, last);
    PushLast(init, joined[|es| - 1]);
  }

  /** Every byte that was free and is no more lies within `len` bytes of `at`. */
  ghost predicate LostWithin(was: seq<Extent>, now: seq<Extent>, at: nat, len: nat) {
    forall b :: InSome(was, b) && !InSome(now, b) ==> at <= b < at + len
  }

  /** What a claim does to the free bytes: the `n` bytes were free and are no more, nothing else becomes free,
      fewer than 512 bytes besides go missing, and the list stays apart. */
  lemma ClaimedBytes(was: seq<Extent>, i: nat, n: nat, at: nat, now: seq<Extent>)
    requires Claimed(was, i, n, at, now) && Apart(was)
    ensures Apart(now)
    ensures AllPositive(was) ==> AllPositive(now)
    ensures forall b :: at <= b < at + n ==> InSome(was, b) && !InSome(now, b)
    ensures forall b :: InSome(now, b) ==> InSome(was, b)
    ensures LostWithin(was, now, at, n + 511)
  {
    var e := was[i];
    var rest := was[..i] + was[i + 1..];
    var back := if e.length - n >= 512 then [Extent(at + n, e.length - n)] else [];
    hide InSome, Inside, AllPositive, Apart, LostWithin;
    assert now == rest + back;
    ClaimedApart(was, i, rest, back);
    ClaimedPositive(was, i, rest, back);
    ClaimedBytesAll(was, i, rest, back, n);
  }

  /** The free total drops by the claimed bytes and, when it is shorter than 512, by the rest of the extent. */
  lemma ClaimedTotal(was: seq<Extent>, i: nat, n: nat, at: nat, now: seq<Extent>)
    requires Claimed(was, i, n, at, now)
    ensures Sum(now) == Sum(was) - n - Slack(was[i].length - n)
  {
    var back := if was[i].length - n >= 512 then [Extent(at + n, was[i].length - n)] else [];
    ClaimedSum(was, i, was[..i] + was[i + 1..], back);
  }

  lemma ClaimedSum(was: seq<Extent>, i: nat, rest: seq<Extent>, back: seq<Extent>)
    requires i < |was| && rest == was[..i] + was[i + 1..] && |back| <= 1
    ensures Sum(rest + back) == Sum(was) - was[i].length + if back == [] then 0 else back[0].length
  {
    assert was == was[..i] + [was[i]] + was[i + 1..];
    SumDrop(was[..i], was[i], was[i + 1..], back);
    assert back != [] ==> Sum(back) == back[0].length + Sum(back[1..]);
  }

  lemma ClaimedBytesAll(was: seq<Extent>, i: nat, rest: seq<Extent>, back: seq<Extent>, n: nat)
    requires Apart(was) && i < |was| && rest == was[..i] + was[i + 1..] && n <= was[i].length
    requires back == if was[i].length - n >= 512 then [Extent(was[i].offset + n, was[i].length - n)] else []
    ensures forall b :: was[i].offset <= b < was[i].offset + n ==> InSome(was, b) && !InSome(rest + back, b)
    ensures forall b :: InSome(rest + back, b) ==> InSome(was, b)
    ensures LostWithin(was, rest + back, was[i].offset, n + 511)
  {
    hide InSome, Inside;
    forall b
      ensures InSome(was, b) <==> InSome(rest, b) || Inside(was[i], b)
      ensures InSome(rest + back, b) <==> InSome(rest, b) || (back != [] && Inside(back[0], b))
      ensures Inside(was[i], b) ==> !InSome(rest, b)
    {
      ClaimedInSome(was, i, rest, back, b);
    }
    ClaimedBytesOf(was, was[i], rest, back, rest + back, n);
  }

  lemma ClaimedPositive(was: seq<Extent>, i: nat, rest: seq<Extent>, back: seq<Extent>)
    requires i < |was| && rest == was[..i] + was[i + 1..] && (forall x :: x in back ==> x.length > 0)
    ensures AllPositive(was) ==> AllPositive(rest + back)
  {
    forall x | x in rest + back && AllPositive(was) ensures x.length > 0 {
      assert x in was || x in back;
    }
  }

  lemma ClaimedBytesOf(was: seq<Extent>, e: Extent, rest: seq<Extent>, back: seq<Extent>, now: seq<Extent>, n: nat)
    requires n <= e.length && back == if e.length - n >= 512 then [Extent(e.offset + n, e.length - n)] else []
    requires forall b :: InSome(was, b) <==> InSome(rest, b) || Inside(e, b)
    requires forall b :: InSome(now, b) <==> InSome(rest, b) || (back != [] && Inside(back[0], b))
    requires forall b :: Inside(e, b) ==> !InSome(rest, b)
    ensures forall b :: e.offset <= b < e.offset + n ==> InSome(was, b) && !InSome(now, b)
    ensures forall b :: InSome(now, b) ==> InSome(was, b)
    ensures LostWithin(was, now, e.offset, n + 511)
  {
    hide InSome;
    forall b
      ensures e.offset <= b < e.offset + n ==> InSome(was, b) && !InSome(now, b)
      ensures InSome(now, b) ==> InSome(was, b)
      ensures InSome(was, b) && !InSome(now, b) ==> e.offset <= b < e.offset + (n + 511)
    {
      assert Inside(e, b) <==> e.offset <= b < e.End();
      assert InSome(was, b) <==> InSome(rest, b) || Inside(e, b);
      assert InSome(now, b) <==> InSome(rest, b) || (back != [] && Inside(back[0], b));
    }
  }

  lemma SumDrop(a: seq<Extent>, x: Extent, c: seq<Extent>, back: seq<Extent>)
    ensures Sum(a + c + back) == Sum(a + [x] + c) - x.length + Sum(back)
  {
    SumSplit(a, c);
    SumSplit(a + c, back);
    SumSplit(a, [x]);
    SumSplit(a + [x], c);
    assert Sum([x]) == x.length + Sum([x][1..]);
  }

  lemma ClaimedInSome(was: seq<Extent>, i: nat, rest: seq<Extent>, back: seq<Extent>, b: int)
    requires Apart(was) && i < |was| && rest == was[..i] + was[i + 1..] && |back| <= 1
    ensures InSome(was, b) <==> InSome(rest, b) || Inside(was[i], b)
    ensures InSome(rest + back, b) <==> InSome(rest, b) || (back != [] && Inside(back[0], b))
    ensures Inside(was[i], b) ==> !InSome(rest, b)
  {
    SplitAt(was, i, b);
    if back != [] {
      assert back == [back[0]];
      PushLast(rest, back[0]);
    } else {
      assert rest + back == rest;
    }
    ApartFromRest(was, i, b);
  }

  lemma ClaimedApart(was: seq<Extent>, i: nat, rest: seq<Extent>, back: seq<Extent>)
    requires Apart(was) && i < |was| && rest == was[..i] + was[i + 1..]
    requires back == [] || (|back| == 1 && was[i].offset <= back[0].offset && back[0].End() == was[i].End())
    ensures Apart(rest + back)
  {
    var now := rest + back;
    forall x, y | 0 <= x < |now| && 0 <= y < |now| && x != y
      ensures now[x].End() < now[y].offset || now[y].End() < now[x].offset
    {
      var x' := if x == |rest| then i else if x < i then x else x + 1;
      var y' := if y == |rest| then i else if y < i then y else y + 1;
      assert was[x'].End() < was[y'].offset || was[y'].End() < was[x'].offset;
    }
  }

  lemma ApartFromRest(was: seq<Extent>, i: nat, b: int)
    requires Apart(was) && i < |was|
    ensures Inside(was[i], b) ==> !InSome(was[..i] + was[i + 1..], b)
  {
    var rest := was[..i] + was[i + 1..];
    forall k | 0 <= k < |rest| ensures !(Inside(rest[k], b) && Inside(was[i], b)) {
      var k' := if k < i then k else k + 1;
      assert was[k'].End() < was[i].offset || was[i].End() < was[k'].offset;
    }
  }

  lemma SplitAt(es: seq<Extent>, i: nat, b: int)
    requires i < |es|
    ensures InSome(es, b) <==> InSome(es[..i] + es[i + 1..], b) || Inside(es[i], b)
  {
    assert forall x :: x in es <==> x in es[..i] + es[i + 1..] || x == es[i] by {
      assert es == es[..i] + [es[i]] + es[i + 1..];
    }
  }

  lemma {:induction false} SumSplit(a: seq<Extent>, b: seq<Extent>)
    ensures Sum(a + b) == Sum(a) + Sum(b)
  {
    if a == [] {
      assert a + b == b;
    } else {
      assert (a + b)[1..] == a[1..] + b;
      SumSplit(a[1..], b);
    }
  }

  /** `alloc` fails exactly when no run of `n` free bytes exists anywhere. */
  lemma NoFitMeansNoRun(es: seq<Extent>, n: nat)
    requires Apart(es) && n > 0
    ensures BestFit(es, n).None? <==> !exists off :: IsFreeRun(es, off, n)
  {
    if BestFit(es, n).None? {
      forall off | IsFreeRun(es, off, n) ensures false {
        RunInsideOne(es, off, n);
      }
    } else {
      var e := es[BestFit(es, n).value];
      forall b | e.offset <= b < e.offset + n ensures InSome(es, b) {
        assert Inside(e, b);
      }
      assert IsFreeRun(es, e.offset, n);
    }
  }

  ghost predicate IsFreeRun(es: seq<Extent>, off: int, n: nat) {
    forall b :: off <= b < off + n ==> InSome(es, b)
  }

  /** A separated list is determined by its bytes: there is one merged form. */
  lemma {:induction false} MergedFormUnique(a: seq<Extent>, b: seq<Extent>)
    requires Separated(a) && Separated(b) && AllPositive(a) && AllPositive(b)
    requires forall x :: InSome(a, x) <==> InSome(b, x)
    ensures a == b
  {
    if a == [] {
      if b != [] {
        assert Inside(b[0], b[0].offset);
        assert InSome(b, b[0].offset);
      }
    } else if b == [] {
      assert Inside(a[0], a[0].offset);
      assert InSome(a, a[0].offset);
    } else {
      FirstStarts(a, b);
      FirstStarts(b, a);
      FirstEnds(a, b);
      FirstEnds(b, a);
      assert a[0] == b[0];
      forall x ensures InSome(a[1..], x) <==> InSome(b[1..], x) {
        RestOf(a, x);
        RestOf(b, x);
        assert InSome(a, x) <==> InSome(b, x);
      }
      MergedFormUnique(a[1..], b[1..]);
      assert a == [a[0]] + a[1..] && b == [b[0]] + b[1..];
    }
  }

  lemma RestOf(a: seq<Extent>, x: int)
    requires Separated(a) && a != []
    ensures InSome(a[1..], x) <==> InSome(a, x) && !Inside(a[0], x)
  {
    if InSome(a, x) {
      var k :| 0 <= k < |a| && Inside(a[k], x);
      if k > 0 {
        assert a[k] in a[1..];
        assert a[0].End() < a[k].offset;
      }
    }
    if InSome(a[1..], x) {
      var k :| 0 <= k < |a| - 1 && Inside(a[1..][k], x);
      assert a[k + 1] in a && a[0].End() < a[k + 1].offset;
    }
  }

  lemma FirstStarts(a: seq<Extent>, b: seq<Extent>)
    requires Separated(a) && Separated(b) && AllPositive(a) && AllPositive(b) && a != [] && b != []
    requires forall x :: InSome(a, x) ==> InSome(b, x)
    ensures b[0].offset <= a[0].offset
  {
    assert Inside(a[0], a[0].offset);
    assert InSome(b, a[0].offset);
    var k :| 0 <= k < |b| && Inside(b[k], a[0].offset);
    assert k > 0 ==> b[0].End() < b[k].offset;
  }

  lemma FirstEnds(a: seq<Extent>, b: seq<Extent>)
    requires Separated(a) && Separated(b) && AllPositive(a) && AllPositive(b) && a != [] && b != []
    requires a[0].offset == b[0].offset
    requires forall x :: InSome(a, x) ==> InSome(b, x)
    ensures a[0].End() <= b[0].End()
  {
    var x := b[0].End();
    assert Inside(a[0], x) ==> InSome(a, x);
    assert !InSome(b, x) by {
      forall k | 0 <= k < |b| ensures !Inside(b[k], x) {
        assert k > 0 ==> x < b[k].offset;
      }
    }
  }
}
