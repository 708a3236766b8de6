/** The adaptive cache (src/cache/mod.rs): resident lists T1 and T2, ghost lists B1 and B2, each a queue with
    lazily removed entries. */
module ArcCache {
  import opened Bytes

  const GHOST_LIMIT: nat := 1000

  /** The first key in the queue that is still a member. */
  function FrontOf(order: seq<nat>, members: set<nat>): (r: Option<nat>)
    ensures r.None? <==> forall k :: k in order ==> k !in members
    ensures r.Some? ==> r.value in order && r.value in members
  {
    if order == [] then None
    else if order[0] in members then Some(order[0])
    else FrontOf(order[1..], members)
  }

  /** `k` is the member that has been queued longest. */
  ghost predicate FirstMember(order: seq<nat>, members: set<nat>, k: nat) {
    k in members && exists i :: 0 <= i < |order| && order[i] == k && forall j :: 0 <= j < i ==> order[j] !in members
  }

  lemma {:induction false} FrontIsFirst(order: seq<nat>, members: set<nat>)
    ensures FrontOf(order, members).Some? ==> FirstMember(order, members, FrontOf(order, members).value)
  {
    if order != [] {
      if order[0] in members {
        assert order[0] == FrontOf(order, members).value;
      } else {
        FrontIsFirst(order[1..], members);
        if FrontOf(order[1..], members).Some? {
          var k := FrontOf(order[1..], members).value;
          var i :| 0 <= i < |order| - 1 && order[1..][i] == k && forall j :: 0 <= j < i ==> order[1..][j] !in members;
          assert order[i + 1] == k;
          forall j | 0 <= j < i + 1 ensures order[j] !in members {
            assert j > 0 ==> order[j] == order[1..][j - 1];
          }
        }
      }
    }
  }

  ghost predicate EndOf(now: seq<nat>, was: seq<nat>) {
    |now| <= |was| && now == was[|was| - |now|..]
  }

  lemma EndOfEnd(a: seq<nat>, b: seq<nat>, c: seq<nat>)
    requires EndOf(b, a) && EndOf(c, b)
    ensures EndOf(c, a)
  {
  }

  /** `key` was queued behind what is left of `was`. */
  ghost predicate QueuedBehind(now: seq<nat>, was: seq<nat>, key: nat) {
    now != [] && now[|now| - 1] == key && EndOf(now[..|now| - 1], was)
  }

  /** Keys have only been popped off the front, and a key popped is no longer a member. */
  ghost predicate Popped(was: seq<nat>, before: set<nat>, now: seq<nat>, after: set<nat>) {
    && |now| <= |was| && now == was[|was| - |now|..]
    && after == before - SetOf(was[..|was| - |now|])
  }

  lemma PoppedNone(was: seq<nat>, before: set<nat>)
    ensures Popped(was, before, was, before)
  {
    assert was[..0] == [];
  }

  lemma PoppedOne(was: seq<nat>, before: set<nat>, now: seq<nat>, after: set<nat>)
    requires Popped(was, before, now, after) && now != []
    ensures Popped(was, before, now[1..], after - {now[0]})
  {
    var cut := |was| - |now|;
    assert was[..cut + 1] == was[..cut] + [now[0]];
  }

  lemma PoppedMore(a: seq<nat>, sa: set<nat>, b: seq<nat>, sb: set<nat>, c: seq<nat>, sc: set<nat>)
    requires Popped(a, sa, b, sb) && Popped(b, sb, c, sc)
    ensures Popped(a, sa, c, sc)
  {
    var i, j := |a| - |b|, |b| - |c|;
    assert a[..i + j] == a[..i] + b[..j];
  }

  /** A set with an eviction order. The order may hold keys that have left the set, and a key that comes back is
      found again at its old place. */
  class OrderedSet {
    var order: seq<nat>
    var members: set<nat>

    ghost predicate Covered()
      reads this
    {
      forall k :: k in members ==> k in order
    }

    /** The key was queued, and then the oldest members dropped until the ghost limit was kept. */
    ghost predicate Remembers(was: seq<nat>, before: set<nat>, key: nat)
      reads this
    {
      && Popped(if key in before then was else was + [key], before + {key}, order, members)
      && |members| == Min(|before + {key}|, 1000)
    }

    constructor ()
      ensures order == [] && members == {} && Covered()
    {
      order, members := [], {};
    }

    method PushBack(key: nat)
      requires Covered()
      modifies this
      ensures Covered() && members == old(members) + {key}
      ensures order == if key in old(members) then old(order) else old(order) + [key]
    {
      if key !in members {
        members := members + {key};
        order := order + [key];
      }
    }

    /** Pops keys until one is still a member; that one leaves the set. */
    method PopFront() returns (r: Option<nat>)
      requires Covered()
      modifies this
      ensures Covered() && r == FrontOf(old(order), old(members))
      ensures members == old(members) - if r.Some? then {r.value} else {}
      ensures r.None? <==> old(members) == {}
      ensures Popped(old(order), old(members), order, members) && EndOf(order, old(order))
    {
      hide Popped;
      PoppedNone(order, members);
      while order != []
        invariant Covered() && members == old(members)
        invariant Popped(old(order), old(members), order, members) && EndOf(order, old(order))
        invariant FrontOf(order, members) == FrontOf(old(order), members)
        decreases |order|
      {
        var key := order[0];
        PoppedOne(old(order), old(members), order, members);
        ghost var was := order;
        order := order[1..];
        assert forall k :: k in was <==> k == key || k in order;
        if key in members {
          members := members - {key};
          return Some(key);
        }
        assert members - {key} == members;
      }
      r := None;
    }

    method Remove(key: nat) returns (was: bool)
      requires Covered()
      modifies this
      ensures Covered() && was == (key in old(members)) && members == old(members) - {key} && order == old(order)
    {
      was := key in members;
      members := members - {key};
    }

    /** Drops the oldest members until at most `max` are left. */
    method TruncateTo(max: nat)
      requires Covered()
      modifies this
      ensures Covered() && Popped(old(order), old(members), order, members)
      ensures |members| == Min(|old(members)|, max)
    {
      hide Popped, Covered;
      PoppedNone(order, members);
      while |members| > max
        invariant Covered() && Popped(old(order), old(members), order, members)
        invariant Min(|old(members)|, max) <= |members| <= |old(members)|
        decreases |members|
      {
        ghost var was, before := order, members;
        var r := PopFront();
        PoppedMore(old(order), old(members), was, before, order, members);
        if r.None? {
          break;
        }
      }
    }
  }

  lemma Subsets(a: set<nat>, b: set<nat>)
    requires a <= b
    ensures |a| <= |b| && (a != b ==> |a| < |b|)
  {
    assert b == a + (b - a) && a !! (b - a);
  }

  datatype Entry = Entry(data: seq<byte>, size: nat)

  ghost function Sum(m: map<nat, Entry>): nat
    decreases |m|
  {
    if m == map[] then 0
    else
      var k :| k in m;
      m[k].size + Sum(m - {k})
  }

  lemma {:induction false} SumWithout(m: map<nat, Entry>, k: nat)
    requires k in m
    ensures Sum(m) == m[k].size + Sum(m - {k})
    decreases |m|
  {
    var x :| x in m && Sum(m) == m[x].size + Sum(m - {x});
    if x != k {
      SumWithout(m - {x}, k);
      SumWithout(m - {k}, x);
      assert m - {x} - {k} == m - {k} - {x};
    }
  }

  lemma SumWith(m: map<nat, Entry>, k: nat, e: Entry)
    ensures k !in m ==> Sum(m[k := e]) == Sum(m) + e.size
    ensures k in m ==> Sum(m[k := e]) == Sum(m) - m[k].size + e.size
    ensures k in m ==> m[k].size <= Sum(m)
  {
    SumWithout(m[k := e], k);
    if k in m {
      SumWithout(m, k);
      assert m[k := e] - {k} == m - {k};
    } else {
      assert m[k := e] - {k} == m;
    }
  }

  /** The resident lists, the data and the account of evictions. */
  datatype Snapshot = Snapshot(m1: set<nat>, m2: set<nat>, o1: seq<nat>, o2: seq<nat>, data: map<nat, Entry>,
                               gone: seq<nat>, lost: set<nat>, used: nat)

  /** Saturating subtraction. */
  function Minus(a: nat, b: nat): nat {
    if a < b then 0 else a - b
  }

  class ArcCache {
    const t1: OrderedSet
    const t2: OrderedSet
    const b1: OrderedSet
    const b2: OrderedSet
    var data: map<nat, Entry>
    /** Target size of T1. */
    var p: nat
    const maxBytes: nat
    var usedBytes: nat
    /** Keys evicted since the last drain. */
    var evicted: seq<nat>

    /** What a plain map would hold: every key inserted and not removed since, with its last value. */
    ghost var model: map<nat, seq<byte>>
    /** The keys of the model evicted since their last insertion. */
    ghost var lost: set<nat>

    ghost predicate Lists()
      reads this, t1, t2, b1, b2
    {
      && t1 != t2 && t1 != b1 && t1 != b2 && t2 != b1 && t2 != b2 && b1 != b2
      && t1.Covered() && t2.Covered() && b1.Covered() && b2.Covered()
      && t1.members !! t2.members && t1.members + t2.members == data.Keys
      && |b1.members| <= 1000 && |b2.members| <= 1000
    }

    ghost predicate Sizes()
      reads this
    {
      && usedBytes == Sum(data) && p <= maxBytes
      && forall k :: k in data ==> data[k].size == |data[k].data|
    }

    ghost predicate Agrees()
      reads this
    {
      && model.Keys == data.Keys + lost && data.Keys !! lost
      && forall k :: k in data ==> data[k].data == model[k]
    }

    ghost predicate Valid()
      reads this, t1, t2, b1, b2
    {
      Lists() && Sizes() && Agrees()
    }

    constructor (maxBytes: nat)
      ensures Valid() && fresh(t1) && fresh(t2) && fresh(b1) && fresh(b2)
      ensures this.maxBytes == maxBytes && data == map[] && model == map[] && evicted == [] && usedBytes == 0
      ensures p == 0 && t1.order == t2.order == [] && t1.members == t2.members == {}
    {
      t1 := new OrderedSet();
      t2 := new OrderedSet();
      b1 := new OrderedSet();
      b2 := new OrderedSet();
      data, p, usedBytes, evicted := map[], 0, 0, [];
      this.maxBytes := maxBytes;
      model, lost := map[], {};
    }

    /** The key the next eviction takes. */
    function Candidate(): (r: Option<nat>)
      reads this, t1, t2
    {
      if |t1.members| > p || t2.members == {} then FrontOf(t1.order, t1.members) else FrontOf(t2.order, t2.members)
    }

    lemma CandidateIsResident()
      requires Valid()
      ensures Candidate().None? <==> data == map[]
      ensures Candidate().Some? ==> Candidate().value in data
    {
      if t2.members == {} && t1.members == {} {
        assert data.Keys == {};
      }
    }

    /** Names the next victim, but only once the memory is used up. */
    function PeekEvictionCandidate(): (r: Option<nat>)
      requires Valid()
      reads this, t1, t2, b1, b2
      ensures r.Some? ==> r == Candidate() && r.value in data
      // The key used least recently of T1 while T1 is over its target or T2 is empty, and else of T2.
      ensures r.Some? ==> if |t1.members| > p || t2.members == {} then FirstMember(t1.order, t1.members, r.value)
                          else FirstMember(t2.order, t2.members, r.value)
      ensures r.None? <==> usedBytes < maxBytes || data == map[]
    {
      FrontIsFirst(t1.order, t1.members);
      FrontIsFirst(t2.order, t2.members);
      CandidateIsResident();
      if usedBytes < maxBytes then None else Candidate()
    }

    /** Evicts exactly the candidate and records it. */
    method EvictOne()
      requires Valid()
      modifies this, t1, t2, b1, b2
      ensures Valid()
      ensures old(Candidate()).Some? ==> Lost(old(data), old(evicted), old(lost), old(Candidate()).value)
      ensures old(Candidate()).Some? ==>
                var k := old(Candidate()).value;
                k in old(data) && usedBytes == old(usedBytes) - old(data)[k].size
      ensures old(Candidate()).None? ==> data == old(data) == map[] && evicted == old(evicted) && lost == old(lost)
      ensures old(Candidate()).Some? && old(Candidate()).value in old(t1.members) ==>
                && b1.Remembers(old(b1.order), old(b1.members), old(Candidate()).value)
                && t1.members == old(t1.members) - {old(Candidate()).value} && t2.members == old(t2.members)
                && b2.order == old(b2.order) && b2.members == old(b2.members)
      ensures old(Candidate()).Some? && old(Candidate()).value in old(t2.members) ==>
                && b2.Remembers(old(b2.order), old(b2.members), old(Candidate()).value)
                && t2.members == old(t2.members) - {old(Candidate()).value} && t1.members == old(t1.members)
                && b1.order == old(b1.order) && b1.members == old(b1.members)
      ensures model == old(model) && p == old(p)
      ensures Fair(old(t1.members), old(t2.members), p, t1.members, t2.members)
      ensures old(Candidate()).Some? ==>
                var k := old(Candidate()).value;
                if k in old(t1.members) then FirstMember(old(t1.order), old(t1.members), k)
                else FirstMember(old(t2.order), old(t2.members), k)
      ensures EndOf(t1.order, old(t1.order)) && EndOf(t2.order, old(t2.order))
    {
      hide *;
      CandidateIsResident();
      CandidateIs();
      ghost var m1, m2, k := t1.members, t2.members, Candidate();
      var evictFromT1 := |t1.members| > p || t2.members == {};
      if evictFromT1 && t1.members != {} {
        EvictFromT1();
        OneLess(m1, m2, p, k.value);
      } else if t2.members != {} {
        EvictFromT2();
        OneLess(m1, m2, p, k.value);
      } else {
        NoneLess(m1, m2, p);
      }
    }

    /** Which list the candidate is taken from, and that it is the first of it. */
    lemma CandidateIs()
      requires Valid()
      ensures t1 != t2 && t1 != b1 && t1 != b2 && t2 != b1 && t2 != b2 && b1 != b2
      ensures if (|t1.members| > p || t2.members == {}) && t1.members != {} then
                && Candidate() == FrontOf(t1.order, t1.members) && Candidate().Some?
                && Candidate().value in t1.members && Candidate().value !in t2.members
                && FirstMember(t1.order, t1.members, Candidate().value)
              else if t2.members != {} then
                && Candidate() == FrontOf(t2.order, t2.members) && Candidate().Some?
                && Candidate().value in t2.members && Candidate().value !in t1.members
                && FirstMember(t2.order, t2.members, Candidate().value) && |t1.members| <= p
              else Candidate().None? && data == map[]
      ensures EndOf(t1.order, t1.order) && EndOf(t2.order, t2.order)
    {
      CandidateIsResident();
      FrontIsFirst(t1.order, t1.members);
      FrontIsFirst(t2.order, t2.members);
      hide Sizes, Agrees, FirstMember;
    }

    static lemma OneLess(m1: set<nat>, m2: set<nat>, p: nat, k: nat)
      ensures k in m1 && (|m1| > p || m2 == {}) ==> Fair(m1, m2, p, m1 - {k}, m2)
      ensures k in m2 && |m1| <= p ==> Fair(m1, m2, p, m1, m2 - {k})
    {
    }

    static lemma NoneLess(m1: set<nat>, m2: set<nat>, p: nat)
      ensures Fair(m1, m2, p, m1, m2)
    {
    }

    /** At most one key has left: one of T2 only while T1 is within its target, one of T1 only when T1 is over its
        target or T2 is empty. */
    static ghost predicate Fair(m1: set<nat>, m2: set<nat>, p: nat, now1: set<nat>, now2: set<nat>) {
      && now1 <= m1 && now2 <= m2 && |now1| + |now2| >= |m1| + |m2| - 1
      && (now2 != m2 ==> |m1| <= p)
      && (now1 != m1 ==> |m1| > p || m2 == {})
    }

    /** `key` has just left the cache for the evicted list. */
    ghost predicate Lost(was: map<nat, Entry>, gone: seq<nat>, before: set<nat>, key: nat)
      reads this
    {
      && key in was && data == was - {key}
      && evicted == gone + [key] && lost == before + {key}
    }

    /** Moves the oldest key of T1 to its ghost list. */
    method EvictFromT1()
      requires Valid() && t1.members != {}
      modifies this, t1, b1
      ensures Valid()
      ensures FrontOf(old(t1.order), old(t1.members)).Some?
      ensures t1.members == old(t1.members) - {FrontOf(old(t1.order), old(t1.members)).value}
      ensures EndOf(t1.order, old(t1.order))
      ensures Lost(old(data), old(evicted), old(lost), FrontOf(old(t1.order), old(t1.members)).value)
      ensures FrontOf(old(t1.order), old(t1.members)).value in old(data)
      ensures usedBytes == old(usedBytes) - old(data)[FrontOf(old(t1.order), old(t1.members)).value].size
      ensures b1.Remembers(old(b1.order), old(b1.members), FrontOf(old(t1.order), old(t1.members)).value)
      ensures model == old(model) && p == old(p)
    {
      hide Sum, Agrees, Sizes, OrderedSet.Covered, Popped;
      var r := t1.PopFront();
      Evicted(r.value);
      b1.PushBack(r.value);
      b1.TruncateTo(GHOST_LIMIT);
    }

    /** Moves the oldest key of T2 to its ghost list. */
    method EvictFromT2()
      requires Valid() && t2.members != {}
      modifies this, t2, b2
      ensures Valid()
      ensures FrontOf(old(t2.order), old(t2.members)).Some?
      ensures t2.members == old(t2.members) - {FrontOf(old(t2.order), old(t2.members)).value}
      ensures EndOf(t2.order, old(t2.order))
      ensures Lost(old(data), old(evicted), old(lost), FrontOf(old(t2.order), old(t2.members)).value)
      ensures FrontOf(old(t2.order), old(t2.members)).value in old(data)
      ensures usedBytes == old(usedBytes) - old(data)[FrontOf(old(t2.order), old(t2.members)).value].size
      ensures b2.Remembers(old(b2.order), old(b2.members), FrontOf(old(t2.order), old(t2.members)).value)
      ensures model == old(model) && p == old(p)
    {
      hide Sum, Agrees, Sizes, OrderedSet.Covered, Popped;
      var r := t2.PopFront();
      Evicted(r.value);
      b2.PushBack(r.value);
      b2.TruncateTo(GHOST_LIMIT);
    }

    /** The bookkeeping of an eviction whose key has just left its list. */
    method Evicted(key: nat)
      requires Sizes() && Agrees() && key in data
      modifies this
      ensures Sizes() && Agrees() && Lost(old(data), old(evicted), old(lost), key)
      ensures usedBytes == old(usedBytes) - old(data)[key].size
      ensures model == old(model) && p == old(p)
    {
      SumWithout(data, key);
      usedBytes := usedBytes - data[key].size;
      data := data - {key};
      evicted := evicted + [key];
      lost := lost + {key};
    }

    method Promote(key: nat)
      requires Valid()
      modifies t1, t2
      ensures Valid()
      ensures t1.members == old(t1.members) - {key}
      ensures t2.members == old(t2.members) + if key in old(t1.members) then {key} else {}
      ensures t1.order == old(t1.order)
      ensures t2.order == old(t2.order) + if key in old(t1.members) then [key] else []
    {
      var was := t1.Remove(key);
      if was {
        t2.PushBack(key);
      }
    }

    /** Nothing has left the cache or become lost but what was recorded as evicted meanwhile. */
    static ghost predicate Follows(was: map<nat, Entry>, gone: seq<nat>, before: set<nat>,
                                   now: map<nat, Entry>, goneNow: seq<nat>, lostNow: set<nat>)
    {
      && gone <= goneNow && SetOf(goneNow[|gone|..]) <= was.Keys
      && now == was - SetOf(goneNow[|gone|..]) && lostNow == before + SetOf(goneNow[|gone|..])
    }

    lemma NothingFollows()
      ensures Follows(data, evicted, lost, data, evicted, lost)
    {
      assert evicted[|evicted|..] == [];
    }

    lemma LossFollows(was: map<nat, Entry>, gone: seq<nat>, before: set<nat>,
                      d: map<nat, Entry>, es: seq<nat>, ls: set<nat>, key: nat)
      requires Follows(was, gone, before, d, es, ls) && Lost(d, es, ls, key)
      ensures Follows(was, gone, before, data, evicted, lost) && |evicted| > |gone| && |data| < |d|
      ensures data.Keys <= d.Keys
    {
      assert evicted[|gone|..] == es[|gone|..] + [key];
      assert data.Keys == d.Keys - {key};
      assert |data| == |data.Keys| && |d| == |d.Keys|;
    }

    /** The last eviction was needed: with its key still there, the limit would be passed. */
    static ghost predicate Needed(was: map<nat, Entry>, gone: seq<nat>, total: nat, limit: nat) {
      gone != [] && gone[|gone| - 1] in was && total + was[gone[|gone| - 1]].size > limit
    }

    lemma NeedKept(was: map<nat, Entry>, gone: seq<nat>, now: seq<nat>, used: nat, size: nat)
      requires evicted == now && usedBytes == used + size
      requires |now| > |gone| ==> Needed(was, now, used + size, maxBytes)
      ensures |evicted| > |gone| ==> Needed(was, evicted, usedBytes, maxBytes)
    {
    }

    lemma LossFrees(start: Snapshot, prev: Snapshot, now: Snapshot, key: nat, size: nat)
      requires Follows(start.data, start.gone, start.lost, prev.data, prev.gone, prev.lost)
      requires Lost(prev.data, prev.gone, prev.lost, key) && key in prev.data && now == Now()
      requires usedBytes == prev.used - prev.data[key].size && prev.used + size > maxBytes
      ensures Needed(start.data, now.gone, now.used + size, maxBytes) && |start.gone| <= |evicted|
    {
    }

    /** What evictions leave of the lists: T2 has been touched only if T1 is within its target by now, and T1 has fallen
        below its target only if T2 is used up. */
    static ghost predicate Spares(now1: set<nat>, now2: set<nat>, p: nat, before1: set<nat>, before2: set<nat>) {
      && now1 <= before1 && now2 <= before2
      && (now2 != before2 ==> |now1| <= p)
      && (|now1| < |before1| && |now1| < p ==> now2 == {})
    }

    lemma NothingSpared()
      ensures Spares(t1.members, t2.members, p, t1.members, t2.members)
      ensures EndOf(t1.order, t1.order) && EndOf(t2.order, t2.order)
    {
    }

    static lemma MoreSpared(before1: set<nat>, before2: set<nat>, m1: set<nat>, m2: set<nat>, now1: set<nat>,
                            now2: set<nat>, p: nat)
      requires Spares(m1, m2, p, before1, before2) && Fair(m1, m2, p, now1, now2)
      ensures Spares(now1, now2, p, before1, before2)
    {
      Subsets(now1, m1);
      Subsets(now2, m2);
    }

    /** What Insert relies on: nothing evicted, and what an update leaves to use. */
    lemma NothingEvicted()
      ensures SetOf(evicted[|evicted|..]) == {} && forall m: map<nat, Entry> :: m - {} == m
      ensures lost == lost + {} && evicted <= evicted
    {
    }

    lemma UpdateFits(key: nat)
      requires Valid() && key in data
      ensures key !in lost && lost - {key} == lost && data[key].size <= usedBytes && key in t1.members + t2.members
    {
      SumWithout(data, key);
    }

    lemma KeysAre(key: nat)
      requires Valid()
      ensures key in data <==> key in t1.members || key in t2.members
      ensures t1 != t2
    {
    }

    lemma NotEmpty(key: nat)
      ensures key in data ==> data != map[]
    {
    }

    static lemma FollowsMeans(was: map<nat, Entry>, gone: seq<nat>, before: set<nat>, now: map<nat, Entry>,
                              goneNow: seq<nat>, lostNow: set<nat>, key: nat)
      requires Follows(was, gone, before, now, goneNow, lostNow) && key !in was
      ensures gone <= goneNow && now == was - SetOf(goneNow[|gone|..]) && lostNow == before + SetOf(goneNow[|gone|..])
      ensures lostNow - {key} == (before - {key}) + SetOf(goneNow[|gone|..])
    {
    }

    static lemma BackOf(order: seq<nat>, was: seq<nat>, key: nat)
      requires EndOf(order, was)
      ensures QueuedBehind(order + [key], was, key)
    {
      assert (order + [key])[..|order|] == order;
    }

    lemma AddedSpares(e1: set<nat>, e2: set<nat>, key: nat, m1: set<nat>, m2: set<nat>)
      requires Spares(e1, e2, p, m1, m2) && key !in e1 && t1.members == e1 + {key}
      ensures Spares(t1.members - {key}, e2, p, m1, m2)
    {
      assert t1.members - {key} == e1;
    }

    lemma EmptyUsesNothing()
      requires Valid()
      ensures data == map[] ==> usedBytes == 0
    {
    }

    /** Inserts or updates; a new key first evicts until it fits. */
    method Insert(key: nat, value: seq<byte>)
      requires Valid()
      modifies this, t1, t2, b1, b2
      ensures Valid() && old(evicted) <= evicted && p == old(p)
      ensures data == (old(data) - SetOf(evicted[|old(evicted)|..]))[key := Entry(value, |value|)]
      ensures model == old(model)[key := value]
      ensures lost == (old(lost) - {key}) + SetOf(evicted[|old(evicted)|..])
      // An update promotes the key; T2 takes it at its back.
      ensures key in old(data) ==>
                && evicted == old(evicted)
                && t1.members == old(t1.members) - {key} && t2.members == old(t2.members) + {key}
                && t1.order == old(t1.order)
                && t2.order == old(t2.order) + (if key in old(t1.members) then [key] else [])
      // A new key goes to the back of T1; what was evicted before that was taken as the targets say, and no more.
      ensures key !in old(data) ==>
                && key in t1.members && (usedBytes <= maxBytes || data.Keys == {key})
                && Spares(t1.members - {key}, t2.members, p, old(t1.members), old(t2.members))
                && QueuedBehind(t1.order, old(t1.order), key) && EndOf(t2.order, old(t2.order))
      ensures |evicted| > |old(evicted)| ==> Needed(old(data), evicted, usedBytes, maxBytes)
      // The memory ceiling holds exactly when the value fits; an update in place does not evict to make room.
      ensures usedBytes <= maxBytes <==>
                (if key in old(data) then old(usedBytes) - old(data)[key].size else 0) + |value| <= maxBytes
      // Something is evicted exactly when a new key does not fit beside what is resident.
      ensures |evicted| > |old(evicted)| <==>
                key !in old(data) && old(data) != map[] && old(usedBytes) + |value| > maxBytes
      ensures |evicted| == |old(evicted)| && key !in old(data) ==>
                && usedBytes == old(usedBytes) + |value|
                && t1.members == old(t1.members) + {key} && t2.members == old(t2.members)
                && t1.order == old(t1.order) + [key] && t2.order == old(t2.order)
    {
      hide *;
      if key in data {
        NothingEvicted();
        UpdateFits(key);
        Update(key, value);
      } else {
        InsertNew(key, value);
      }
    }

    /** `insert` of a key that is not resident: evict until it fits, then queue it. */
    method InsertNew(key: nat, value: seq<byte>)
      requires Valid() && key !in data
      modifies this, t1, t2, b1, b2
      ensures Valid() && old(evicted) <= evicted && p == old(p)
      ensures data == (old(data) - SetOf(evicted[|old(evicted)|..]))[key := Entry(value, |value|)]
      ensures model == old(model)[key := value]
      ensures lost == (old(lost) - {key}) + SetOf(evicted[|old(evicted)|..])
      ensures key in t1.members && (usedBytes <= maxBytes || data.Keys == {key})
      ensures Spares(t1.members - {key}, t2.members, p, old(t1.members), old(t2.members))
      ensures QueuedBehind(t1.order, old(t1.order), key) && EndOf(t2.order, old(t2.order))
      ensures usedBytes <= maxBytes <==> |value| <= maxBytes
      ensures |evicted| > |old(evicted)| <==> old(data) != map[] && old(usedBytes) + |value| > maxBytes
      ensures |evicted| > |old(evicted)| ==> Needed(old(data), evicted, usedBytes, maxBytes)
      ensures |evicted| == |old(evicted)| ==>
                && usedBytes == old(usedBytes) + |value|
                && t1.members == old(t1.members) + {key} && t2.members == old(t2.members)
                && t1.order == old(t1.order) + [key] && t2.order == old(t2.order)
    {
      hide *;
      ghost var was, gone, before := data, evicted, lost;
      ghost var m1, m2, o1 := t1.members, t2.members, t1.order;
      MakeRoom(|value|);
      FollowsMeans(was, gone, before, data, evicted, lost, key);
      KeysAre(key);
      ghost var e1, e2, order, used := t1.members, t2.members, t1.order, usedBytes;
      ghost var now := evicted;
      Add(key, value);
      NeedKept(was, gone, now, used, |value|);
      BackOf(order, o1, key);
      AddedSpares(e1, e2, key, m1, m2);
    }

    method Update(key: nat, value: seq<byte>)
      requires Valid() && key in data
      modifies this, t1, t2
      ensures Valid() && data == old(data)[key := Entry(value, |value|)]
      ensures model == old(model)[key := value]
      ensures evicted == old(evicted) && lost == old(lost)
      ensures t1.members == old(t1.members) - {key} && t2.members == old(t2.members) + {key}
      ensures t1.order == old(t1.order) && p == old(p)
      ensures t2.order == old(t2.order) + if key in old(t1.members) then [key] else []
      ensures usedBytes == old(usedBytes) - old(data)[key].size + |value|
    {
      hide Sum, OrderedSet.Covered;
      var size := |value|;
      SumWith(data, key, Entry(value, size));
      usedBytes := Minus(usedBytes, data[key].size) + size;
      data := data[key := Entry(value, size)];
      model := model[key := value];
      Promote(key);
    }

    /** Evicts until `size` more bytes fit or nothing is left. */
    method MakeRoom(size: nat)
      requires Valid()
      modifies this, t1, t2, b1, b2
      ensures Valid() && model == old(model)
      ensures usedBytes + size <= maxBytes || data == map[]
      ensures data == map[] ==> usedBytes == 0
      ensures |evicted| == |old(evicted)| <==> old(data) == map[] || old(usedBytes) + size <= maxBytes
      ensures |evicted| == |old(evicted)| ==>
                && usedBytes == old(usedBytes) && t1.members == old(t1.members) && t2.members == old(t2.members)
                && t1.order == old(t1.order) && t2.order == old(t2.order)
      ensures Follows(old(data), old(evicted), old(lost), data, evicted, lost)
      ensures p == old(p) && Spares(t1.members, t2.members, p, old(t1.members), old(t2.members))
      ensures EndOf(t1.order, old(t1.order)) && EndOf(t2.order, old(t2.order))
      ensures |evicted| > |old(evicted)| ==> Needed(old(data), evicted, usedBytes + size, maxBytes)
    {
      hide *;
      ghost var start := Now();
      NowIs(start);
      ProgressStart(size);
      while data != map[] && usedBytes + size > maxBytes
        invariant Valid() && model == old(model) && p == old(p)
        invariant Progress(start, Now(), p, size, maxBytes)
        decreases |data|
      {
        ghost var prev, k := Now(), Candidate();
        CandidateIsResident();
        NowIs(prev);
        EvictOne();
        ProgressStep(start, prev, k.value, size);
      }
      EmptyUsesNothing();
      NowIs(Now());
      ProgressMeans(start, size);
    }

    /** Everything an eviction touches. */
    ghost function Now(): Snapshot
      reads this, t1, t2
    {
      Snapshot(t1.members, t2.members, t1.order, t2.order, data, evicted, lost, usedBytes)
    }

    /** What evictions have made of the cache since `a`. */
    static ghost predicate Progress(a: Snapshot, b: Snapshot, p: nat, size: nat, limit: nat) {
      && Follows(a.data, a.gone, a.lost, b.data, b.gone, b.lost)
      && Spares(b.m1, b.m2, p, a.m1, a.m2) && EndOf(b.o1, a.o1) && EndOf(b.o2, a.o2) && |a.gone| <= |b.gone|
      && (|b.gone| == |a.gone| ==> b == a)
      && (|b.gone| > |a.gone| ==>
            a.data != map[] && a.used + size > limit && Needed(a.data, b.gone, b.used + size, limit))
    }

    lemma ProgressStart(size: nat)
      ensures Progress(Now(), Now(), p, size, maxBytes)
    {
      NothingFollows();
      NothingSpared();
    }

    lemma NowIs(now: Snapshot)
      requires now == Now()
      ensures now == Snapshot(t1.members, t2.members, t1.order, t2.order, data, evicted, lost, usedBytes)
    {
    }

    lemma ProgressStep(start: Snapshot, prev: Snapshot, key: nat, size: nat)
      requires Progress(start, prev, p, size, maxBytes) && prev.data != map[] && prev.used + size > maxBytes
      requires Lost(prev.data, prev.gone, prev.lost, key) && key in prev.data
      requires usedBytes == prev.used - prev.data[key].size
      requires Fair(prev.m1, prev.m2, p, t1.members, t2.members)
      requires EndOf(t1.order, prev.o1) && EndOf(t2.order, prev.o2)
      ensures Progress(start, Now(), p, size, maxBytes) && |data| < |prev.data|
    {
      hide *;
      ProgressParts(start, prev, p, size, maxBytes);
      LossFollows(start.data, start.gone, start.lost, prev.data, prev.gone, prev.lost, key);
      MoreSpared(start.m1, start.m2, prev.m1, prev.m2, t1.members, t2.members, p);
      EndOfEnd(start.o1, prev.o1, t1.order);
      EndOfEnd(start.o2, prev.o2, t2.order);
      ghost var now := Now();
      NowIs(now);
      LossFrees(start, prev, now, key, size);
      ProgressMade(start, now, p, size, maxBytes);
    }

    static lemma ProgressParts(a: Snapshot, b: Snapshot, p: nat, size: nat, limit: nat)
      requires Progress(a, b, p, size, limit) && b.data != map[] && b.used + size > limit
      ensures Follows(a.data, a.gone, a.lost, b.data, b.gone, b.lost) && Spares(b.m1, b.m2, p, a.m1, a.m2)
      ensures EndOf(b.o1, a.o1) && EndOf(b.o2, a.o2) && a.data != map[] && a.used + size > limit
    {
      hide Follows, Spares, EndOf, Needed;
    }

    static lemma ProgressMade(a: Snapshot, b: Snapshot, p: nat, size: nat, limit: nat)
      requires Follows(a.data, a.gone, a.lost, b.data, b.gone, b.lost) && Spares(b.m1, b.m2, p, a.m1, a.m2)
      requires EndOf(b.o1, a.o1) && EndOf(b.o2, a.o2) && |a.gone| < |b.gone|
      requires a.data != map[] && a.used + size > limit && Needed(a.data, b.gone, b.used + size, limit)
      ensures Progress(a, b, p, size, limit)
    {
      hide Follows, Spares, EndOf, Needed;
    }

    lemma ProgressMeans(start: Snapshot, size: nat)
      requires Progress(start, Now(), p, size, maxBytes)
      ensures Follows(start.data, start.gone, start.lost, data, evicted, lost)
      ensures Spares(t1.members, t2.members, p, start.m1, start.m2)
      ensures EndOf(t1.order, start.o1) && EndOf(t2.order, start.o2)
      ensures |evicted| == |start.gone| ==> Now() == start
      ensures |start.gone| <= |evicted|
      ensures |evicted| > |start.gone| ==>
                && start.data != map[] && start.used + size > maxBytes
                && Needed(start.data, evicted, usedBytes + size, maxBytes)
    {
      hide Follows, Spares, EndOf;
    }

    /** Puts a new key at the back of T1. */
    method Add(key: nat, value: seq<byte>)
      requires Valid() && key !in data
      modifies this, t1
      ensures Valid() && data == old(data)[key := Entry(value, |value|)]
      ensures usedBytes == old(usedBytes) + |value| && p == old(p)
      ensures t1.members == old(t1.members) + {key} && t1.order == old(t1.order) + [key]
      ensures model == old(model)[key := value] && lost == old(lost) - {key} && evicted == old(evicted)
    {
      hide Sum, OrderedSet.Covered;
      var size := |value|;
      SumWith(data, key, Entry(value, size));
      usedBytes := usedBytes + size;
      data := data[key := Entry(value, size)];
      model, lost := model[key := value], lost - {key};
      if key !in t1.members && key !in t2.members {
        t1.PushBack(key);
      }
    }

    /** The last inserted value, or None when the key was never inserted, was removed, or has been evicted since. */
    method Get(key: nat) returns (r: Option<seq<byte>>)
      requires Valid()
      modifies this`p, t1, t2
      ensures Valid()
      ensures r == if key in data then Some(model[key]) else None
      ensures if key in data then t1.members == old(t1.members) - {key} && t2.members == old(t2.members) + {key}
              else t1.members == old(t1.members) && t2.members == old(t2.members)
      ensures t1.order == old(t1.order)
      ensures t2.order == old(t2.order) + if key in old(t1.members) then [key] else []
      ensures r.None? <==> key !in model || key in lost
      ensures p == if key in data then old(p)
                   else if key in b1.members then Min(old(p) + 1, maxBytes)
                   else if key in b2.members then Minus(old(p), 1) else old(p)
    {
      if key in data {
        Promote(key);
        return Some(data[key].data);
      }
      if key in b1.members {
        p := Min(p + 1, maxBytes);
      } else if key in b2.members {
        p := Minus(p, 1);
      }
      r := None;
    }

    method Remove(key: nat) returns (r: Option<seq<byte>>)
      requires Valid()
      modifies this, t1, t2
      ensures Valid() && key !in data && data == old(data) - {key}
      ensures r == if key in old(data) then Some(old(model)[key]) else None
      ensures model == old(model) - {key} && lost == old(lost) - {key} && evicted == old(evicted)
    {
      hide Sum, OrderedSet.Covered;
      if key in data {
        SumWithout(data, key);
        r := Some(data[key].data);
        usedBytes := Minus(usedBytes, data[key].size);
        data := data - {key};
        var inT1 := t1.Remove(key);
        var inT2 := t2.Remove(key);
      } else {
        r := None;
      }
      model, lost := model - {key}, lost - {key};
    }

    method DrainEvicted() returns (r: seq<nat>)
      requires Valid()
      modifies this`evicted
      ensures Valid() && r == old(evicted) && evicted == []
    {
      r := evicted;
      evicted := [];
    }
  }

  /** The documented ceiling fails: a growing value is updated in place without evicting. */
  method CeilingExceeded() returns (c: ArcCache)
    ensures fresh(c) && c.Valid() && c.usedBytes > c.maxBytes
  {
    c := new ArcCache(1);
    c.Insert(7, []);
    c.Insert(7, [0, 0]);
  }

  /** Among a key used twice and two used once, the older one of the latter is next to go. */
  method UsedTwiceStays() returns (c: ArcCache, announced: Option<nat>)
    ensures fresh(c) && c.Valid() && announced == Some(2) && 1 in c.data && 3 in c.data
  {
    hide *;
    c := OneUsedTwice();
    c.KeysAre(2);
    c.Insert(2, [0]);
    c.KeysAre(3);
    c.Insert(3, [0]);
    c.KeysAre(1);
    c.KeysAre(3);
    announced := c.PeekEvictionCandidate();
    c.NotEmpty(1);
    FirstOfThree(c.t1.order, c.t1.members, announced.value);
  }

  method OneUsedTwice() returns (c: ArcCache)
    ensures fresh(c) && fresh(c.t1) && fresh(c.t2) && fresh(c.b1) && fresh(c.b2) && c.Valid()
    ensures c.t1.members == {} && c.t2.members == {1} && c.t1.order == [1] && c.p == 0
    ensures c.usedBytes == 1 && c.maxBytes == 3
  {
    hide *;
    c := new ArcCache(3);
    c.Insert(1, [0]);
    c.KeysAre(1);
    var hit := c.Get(1);
  }

  lemma FirstOfThree(order: seq<nat>, members: set<nat>, k: nat)
    requires order == [1, 2, 3] && members == {2, 3} && FirstMember(order, members, k)
    ensures k == 2
  {
    assert order[1] == 2;
  }

  /** An insert can evict a key although no candidate was announced before it. */
  method EvictsUnannounced() returns (c: ArcCache, announced: Option<nat>)
    ensures fresh(c) && c.Valid() && announced.None? && c.evicted != []
  {
    hide *;
    c := new ArcCache(3);
    c.Insert(7, [0, 0]);
    announced := c.PeekEvictionCandidate();
    c.Insert(8, [0, 0]);
  }
}
