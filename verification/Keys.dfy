/** Composite keys of the metadata index (src/fs/btree.rs): parent inode first, then name. */
module Keys {
  /** A string of Unicode scalar values; Rust compares UTF-8 bytes, which orders the same way. */
  datatype Key = Key(parent: nat, name: string)

  datatype Value = Value(ino: nat, size: nat, isDir: bool, diskIndex: nat)

  datatype Pair = Pair(key: Key, val: Value)

  predicate NameLt(a: string, b: string) {
    b != [] && (a == [] || a[0] < b[0] || (a[0] == b[0] && NameLt(a[1..], b[1..])))
  }

  predicate Lt(a: Key, b: Key) {
    a.parent < b.parent || (a.parent == b.parent && NameLt(a.name, b.name))
  }

  predicate Le(a: Key, b: Key) {
    a == b || Lt(a, b)
  }

  /** `a` stands before `b` in a dictionary: they agree on the first `k` characters, and there `a` ends or has the
      lesser character. */
  ghost predicate PrecedesAt(a: string, b: string, k: nat) {
    k <= |a| && k < |b| && a[..k] == b[..k] && (k == |a| || a[k] < b[k])
  }

  ghost predicate Precedes(a: string, b: string) {
    exists k: nat :: PrecedesAt(a, b, k)
  }

  /** Names are compared as in a dictionary. */
  lemma {:induction false} NameOrder(a: string, b: string)
    ensures NameLt(a, b) <==> Precedes(a, b)
  {
    if a == [] {
      assert b != [] ==> PrecedesAt(a, b, 0);
    } else if b != [] {
      NameOrder(a[1..], b[1..]);
      if a[0] < b[0] {
        assert PrecedesAt(a, b, 0);
      } else if a[0] == b[0] && NameLt(a[1..], b[1..]) {
        var k: nat :| PrecedesAt(a[1..], b[1..], k);
        PrecedesShift(a, b, k);
      }
      if k: nat :| PrecedesAt(a, b, k) && k > 0 {
        assert a[0] == a[..k][0] == b[..k][0] == b[0];
        PrecedesShift(a, b, k - 1);
      }
    }
  }

  lemma PrecedesShift(a: string, b: string, k: nat)
    requires a != [] && b != [] && a[0] == b[0]
    ensures PrecedesAt(a, b, k + 1) <==> PrecedesAt(a[1..], b[1..], k)
  {
    if k <= |a| - 1 && k < |b| - 1 {
      assert a[..k + 1] == [a[0]] + a[1..][..k] && b[..k + 1] == [b[0]] + b[1..][..k];
      assert a[..k + 1][1..] == a[1..][..k] && b[..k + 1][1..] == b[1..][..k];
    }
  }

  lemma {:induction false} NameTotal(a: string, b: string)
    ensures !NameLt(a, a)
    ensures NameLt(a, b) || a == b || NameLt(b, a)
    ensures NameLt(a, b) ==> !NameLt(b, a)
  {
    if a != [] {
      NameTotal(a[1..], a[1..]);
      if b != [] {
        NameTotal(a[1..], b[1..]);
        assert a == [a[0]] + a[1..] && b == [b[0]] + b[1..];
      }
    }
  }

  lemma {:induction false} NameTransitive(a: string, b: string, c: string)
    requires NameLt(a, b) && NameLt(b, c)
    ensures NameLt(a, c)
  {
    if a != [] && a[0] == b[0] == c[0] {
      NameTransitive(a[1..], b[1..], c[1..]);
    }
  }

  /** `Ord for Key` is a strict total order. */
  lemma TotalOrder()
    ensures forall a :: !Lt(a, a)
    ensures forall a, b {:trigger Lt(a, b)} :: Lt(a, b) || a == b || Lt(b, a)
    ensures forall a, b, c {:trigger Lt(a, b), Lt(b, c)} :: Lt(a, b) && Lt(b, c) ==> Lt(a, c)
  {
    forall a: Key, b: Key
      ensures !Lt(a, a)
      ensures Lt(a, b) || a == b || Lt(b, a)
    {
      NameTotal(a.name, b.name);
    }
    forall a: Key, b: Key, c: Key | Lt(a, b) && Lt(b, c) ensures Lt(a, c) {
      if a.parent == b.parent == c.parent {
        NameTransitive(a.name, b.name, c.name);
      }
    }
  }

  lemma StrictOrder()
    ensures forall a, b {:trigger Lt(a, b)} :: Lt(a, b) ==> a != b && !Lt(b, a)
  {
    forall a: Key, b: Key | Lt(a, b) ensures a != b && !Lt(b, a) {
      NameTotal(a.name, b.name);
    }
  }

  // ---- sorted entries: the ordered map the tree stands for ----

  ghost predicate Sorted(es: seq<Pair>) {
    forall i, j :: 0 <= i < j < |es| ==> Lt(es[i].key, es[j].key)
  }

  /** By parent inode and, in one directory, as in a dictionary. */
  ghost predicate Alphabetical(es: seq<Pair>) {
    forall i, j :: 0 <= i < j < |es| ==>
      && es[i].key.parent <= es[j].key.parent
      && (es[i].key.parent == es[j].key.parent ==> Precedes(es[i].key.name, es[j].key.name))
  }

  lemma SortedIsAlphabetical(es: seq<Pair>)
    ensures Sorted(es) ==> Alphabetical(es)
  {
    hide NameLt, Precedes;
    if Sorted(es) {
      forall i, j | 0 <= i < j < |es|
        ensures es[i].key.parent <= es[j].key.parent
        ensures es[i].key.parent == es[j].key.parent ==> Precedes(es[i].key.name, es[j].key.name)
      {
        assert Lt(es[i].key, es[j].key);
        NameOrder(es[i].key.name, es[j].key.name);
      }
    }
  }

  /** Insert or update. */
  function Put(es: seq<Pair>, k: Key, v: Value): seq<Pair> {
    if es == [] || Lt(k, es[0].key) then [Pair(k, v)] + es
    else if es[0].key == k then [Pair(k, v)] + es[1..]
    else [es[0]] + Put(es[1..], k, v)
  }

  function Drop(es: seq<Pair>, k: Key): seq<Pair> {
    if es == [] then [] else if es[0].key == k then es[1..] else [es[0]] + Drop(es[1..], k)
  }

  function ToMap(es: seq<Pair>): map<Key, Value> {
    if es == [] then map[] else ToMap(es[..|es| - 1])[es[|es| - 1].key := es[|es| - 1].val]
  }

  ghost predicate AllBelow(es: seq<Pair>, k: Key) {
    forall i :: 0 <= i < |es| ==> Lt(es[i].key, k)
  }

  ghost predicate AllAbove(es: seq<Pair>, k: Key) {
    forall i :: 0 <= i < |es| ==> Lt(k, es[i].key)
  }

  lemma {:induction false} PutBehind(a: seq<Pair>, e: seq<Pair>, k: Key, v: Value)
    requires AllBelow(a, k)
    ensures Put(a + e, k, v) == a + Put(e, k, v)
  {
    hide Lt;
    StrictOrder();
    if a == [] {
      assert a + e == e;
    } else {
      assert (a + e)[1..] == a[1..] + e;
      assert Lt(a[0].key, k);
      PutBehind(a[1..], e, k, v);
    }
  }

  lemma {:induction false} PutBefore(e: seq<Pair>, b: seq<Pair>, k: Key, v: Value)
    requires AllAbove(b, k)
    ensures Put(e + b, k, v) == Put(e, k, v) + b
  {
    hide Lt;
    if e == [] {
      assert e + b == b;
      if b != [] {
        assert Lt(k, b[0].key);
      }
    } else {
      assert (e + b)[1..] == e[1..] + b;
      PutBefore(e[1..], b, k, v);
    }
  }

  /** A key between `a` and `b` goes into what lies between them. */
  lemma PutMiddle(a: seq<Pair>, e: seq<Pair>, b: seq<Pair>, k: Key, v: Value)
    requires AllBelow(a, k) && AllAbove(b, k)
    ensures Put(a + e + b, k, v) == a + Put(e, k, v) + b
  {
    PutBehind(a, e, k, v);
    PutBefore(a + e, b, k, v);
  }

  lemma {:induction false} DropBehind(a: seq<Pair>, e: seq<Pair>, k: Key)
    requires AllBelow(a, k)
    ensures Drop(a + e, k) == a + Drop(e, k)
  {
    hide Lt;
    StrictOrder();
    if a == [] {
      assert a + e == e;
    } else {
      assert (a + e)[1..] == a[1..] + e;
      assert Lt(a[0].key, k);
      DropBehind(a[1..], e, k);
    }
  }

  lemma {:induction false} DropBefore(e: seq<Pair>, b: seq<Pair>, k: Key)
    requires AllAbove(b, k)
    ensures Drop(e + b, k) == Drop(e, k) + b
  {
    hide Lt;
    if e == [] {
      assert e + b == b;
      forall i | 0 <= i < |b| ensures b[i].key != k {
        assert Lt(k, b[i].key);
        StrictOrder();
      }
      DropAbsent(b, k);
    } else {
      assert (e + b)[1..] == e[1..] + b;
      DropBefore(e[1..], b, k);
    }
  }

  lemma DropMiddle(a: seq<Pair>, e: seq<Pair>, b: seq<Pair>, k: Key)
    requires AllBelow(a, k) && AllAbove(b, k)
    ensures Drop(a + e + b, k) == a + Drop(e, k) + b
  {
    DropBehind(a, e, k);
    DropBefore(a + e, b, k);
  }

  lemma {:induction false} DropAbsent(es: seq<Pair>, k: Key)
    requires forall i :: 0 <= i < |es| ==> es[i].key != k
    ensures Drop(es, k) == es
  {
    if es != [] {
      DropAbsent(es[1..], k);
    }
  }

  ghost predicate HasKey(es: seq<Pair>, k: Key) {
    exists e :: e in es && e.key == k
  }

  lemma {:induction false} MapDomain(es: seq<Pair>)
    ensures forall k :: k in ToMap(es) <==> HasKey(es, k)
  {
    if es != [] {
      var init, last := es[..|es| - 1], es[|es| - 1];
      MapDomain(init);
      forall k ensures k in ToMap(es) <==> HasKey(es, k) {
        assert HasKey(es, k) <==> HasKey(init, k) || k == last.key by {
          assert es == init + [last];
          assert last in es;
          assert forall e :: e in es <==> e in init || e == last;
        }
      }
    }
  }

  lemma SortedDistinct(es: seq<Pair>)
    requires Sorted(es)
    ensures es != [] ==> !HasKey(es[..|es| - 1], es[|es| - 1].key)
  {
    hide Lt;
    StrictOrder();
    if es != [] {
      var n := |es| - 1;
      forall i | 0 <= i < n ensures es[i].key != es[n].key {
        assert Lt(es[i].key, es[n].key);
      }
    }
  }

  lemma {:induction false} MapEntries(es: seq<Pair>)
    requires Sorted(es)
    ensures |ToMap(es)| == |es|
    ensures forall e :: e in es ==> e.key in ToMap(es) && ToMap(es)[e.key] == e.val
  {
    hide Lt;
    if es != [] {
      var init, last := es[..|es| - 1], es[|es| - 1];
      MapEntries(init);
      MapDomain(init);
      SortedDistinct(es);
      assert forall e :: e in es <==> e in init || e == last;
      forall e | e in init ensures e.key != last.key {
        assert HasKey(init, e.key);
      }
    }
  }

  /** Sorted entries with the same members have the same map. */
  lemma MapByMembers(es: seq<Pair>, m: map<Key, Value>)
    requires Sorted(es)
    requires forall e :: e in es <==> e.key in m && m[e.key] == e.val
    ensures ToMap(es) == m && |es| == |m|
  {
    hide Lt, ToMap;
    MapDomain(es);
    MapEntries(es);
    forall k ensures k in ToMap(es) <==> k in m {
      if k in m {
        assert Pair(k, m[k]) in es;
        assert HasKey(es, k);
      }
    }
    forall k | k in m ensures ToMap(es)[k] == m[k] {
      assert Pair(k, m[k]) in es;
    }
    assert ToMap(es) == m;
  }

  lemma MembersOfMap(es: seq<Pair>)
    requires Sorted(es)
    ensures forall e :: e in es <==> e.key in ToMap(es) && ToMap(es)[e.key] == e.val
  {
    hide Lt, ToMap;
    MapDomain(es);
    MapEntries(es);
    forall e: Pair | e.key in ToMap(es) && ToMap(es)[e.key] == e.val ensures e in es {
      var x :| x in es && x.key == e.key;
      assert x == e;
    }
  }

  /** On sorted entries `Put` and `Drop` are the map's own update and removal, and keep the order. */
  lemma PutIsUpdate(es: seq<Pair>, k: Key, v: Value)
    requires Sorted(es)
    ensures Sorted(Put(es, k, v)) && ToMap(Put(es, k, v)) == ToMap(es)[k := v]
    ensures |Put(es, k, v)| == |es| + if k in ToMap(es) then 0 else 1
  {
    hide Lt, ToMap, Put;
    PutSorted(es, k, v);
    PutMembers(es, k, v);
    MembersOfMap(es);
    MapEntries(es);
    MapByMembers(Put(es, k, v), ToMap(es)[k := v]);
    assert |ToMap(es)[k := v]| == |ToMap(es)| + if k in ToMap(es) then 0 else 1;
  }

  lemma {:induction false} PutMembers(es: seq<Pair>, k: Key, v: Value)
    requires Sorted(es)
    ensures forall e :: e in Put(es, k, v) <==> e == Pair(k, v) || (e in es && e.key != k)
  {
    hide Lt;
    TotalOrder();
    if es != [] {
      assert forall e :: e in es <==> e == es[0] || e in es[1..];
      if Lt(k, es[0].key) {
        assert forall e :: e in es ==> Lt(k, e.key);
      } else if es[0].key == k {
        assert forall e :: e in es[1..] ==> Lt(k, e.key);
      } else {
        PutMembers(es[1..], k, v);
      }
    }
  }

  lemma {:induction false} PutSorted(es: seq<Pair>, k: Key, v: Value)
    requires Sorted(es)
    ensures Sorted(Put(es, k, v))
  {
    hide Lt;
    TotalOrder();
    if es != [] && !Lt(k, es[0].key) && es[0].key != k {
      PutSorted(es[1..], k, v);
      PutMembers(es[1..], k, v);
      var p := Put(es[1..], k, v);
      forall j | 0 <= j < |p| ensures Lt(es[0].key, p[j].key) {
        assert p[j] in p;
      }
    }
  }

  lemma DropIsRemoval(es: seq<Pair>, k: Key)
    requires Sorted(es)
    ensures Sorted(Drop(es, k)) && ToMap(Drop(es, k)) == ToMap(es) - {k}
    ensures |Drop(es, k)| == |es| - if k in ToMap(es) then 1 else 0
  {
    hide Lt, ToMap, Drop;
    DropMembers(es, k);
    MembersOfMap(es);
    MapEntries(es);
    MapByMembers(Drop(es, k), ToMap(es) - {k});
    assert (ToMap(es) - {k}).Keys == ToMap(es).Keys - {k};
  }

  lemma {:induction false} DropMembers(es: seq<Pair>, k: Key)
    requires Sorted(es)
    ensures Sorted(Drop(es, k))
    ensures forall e :: e in Drop(es, k) <==> e in es && e.key != k
  {
    hide Lt;
    TotalOrder();
    if es != [] {
      assert forall e :: e in es <==> e == es[0] || e in es[1..];
      if es[0].key == k {
        assert forall e :: e in es[1..] ==> Lt(k, e.key);
      } else {
        DropMembers(es[1..], k);
        var d := Drop(es[1..], k);
        forall j | 0 <= j < |d| ensures Lt(es[0].key, d[j].key) {
          assert d[j] in d;
        }
      }
    }
  }
}
