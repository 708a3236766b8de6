/** The metadata index (src/fs/btree.rs): scans, and the tree as an ordered map. */
module BPlusTree {
  import opened Bytes
  import opened Keys
  import opened Tree

  // ---- scans ----

  predicate InRange(k: Key, start: Key, end: Key) {
    Le(start, k) && Le(k, end)
  }

  function Filter(es: seq<Pair>, start: Key, end: Key): seq<Pair> {
    if es == [] then []
    else Filter(es[..|es| - 1], start, end)
         + if InRange(es[|es| - 1].key, start, end) then [es[|es| - 1]] else []
  }

  lemma {:induction false} FilterConcat(a: seq<Pair>, b: seq<Pair>, start: Key, end: Key)
    ensures Filter(a + b, start, end) == Filter(a, start, end) + Filter(b, start, end)
  {
    hide InRange;
    if b == [] {
      assert a + b == a;
    } else {
      assert (a + b)[..|a + b| - 1] == a + b[..|b| - 1];
      FilterConcat(a, b[..|b| - 1], start, end);
    }
  }

  lemma {:induction false} FilterNone(es: seq<Pair>, start: Key, end: Key)
    requires forall i :: 0 <= i < |es| ==> !InRange(es[i].key, start, end)
    ensures Filter(es, start, end) == []
  {
    if es != [] {
      FilterNone(es[..|es| - 1], start, end);
    }
  }

  /** A subtree the scan prunes has nothing in the range. */
  lemma PrunedIsEmpty(es: seq<Pair>, lo: Option<Key>, hi: Option<Key>, start: Key, end: Key)
    requires Within(es, lo, hi)
    requires (lo.Some? && !Le(lo.value, end)) || (hi.Some? && !Le(start, hi.value))
    ensures Filter(es, start, end) == []
  {
    hide Lt, Filter;
    TotalOrder();
    forall i | 0 <= i < |es| ensures !InRange(es[i].key, start, end) {
      assert AtLeast(es[i].key, lo) && Below(es[i].key, hi);
    }
    FilterNone(es, start, end);
  }

  lemma EntriesNext(children: seq<Node>, i: nat)
    requires i < |children|
    ensures AllEntries(children[..i + 1]) == AllEntries(children[..i]) + Entries(children[i])
  {
    assert children[..i + 1] == children[..i] + [children[i]];
    AllEntriesConcat(children[..i], [children[i]]);
    AllEntriesOne(children[i]);
  }

  method CollectAll(n: Node, out: seq<Pair>, ghost lo: Option<Key>, ghost hi: Option<Key>, ghost h: nat,
                    ghost root: bool, ghost min: nat)
    returns (out': seq<Pair>)
    requires WF(n, lo, hi, h, root, min)
    ensures out' == out + Entries(n)
    decreases n
  {
    out' := out;
    match n
    case Leaf(keys, vals) =>
      for i := 0 to |keys|
        invariant out' == out + Zip(keys, vals)[..i]
      {
        out' := out' + [Pair(keys[i], vals[i])];
      }
    case Internal(keys, children) =>
      assert AllEntries(children[..0]) == [];
      for i := 0 to |children|
        invariant out' == out + AllEntries(children[..i])
      {
        EntriesNext(children, i);
        out' := CollectAll(children[i], out', ChildLo(keys, lo, i), ChildHi(keys, hi, i), h - 1, false, min);
      }
      assert children[..|children|] == children;
  }

  /** The pruned scan: skips every child whose separators rule it out, and still finds exactly the entries in range. */
  method CollectRange(n: Node, start: Key, end: Key, out: seq<Pair>, ghost lo: Option<Key>, ghost hi: Option<Key>,
                      ghost h: nat, ghost root: bool, ghost min: nat)
    returns (out': seq<Pair>)
    requires WF(n, lo, hi, h, root, min)
    ensures out' == out + Filter(Entries(n), start, end)
    decreases n, 1
  {
    match n
    case Leaf(keys, vals) =>
      out' := CollectLeaf(keys, vals, start, end, out);
    case Internal(keys, children) =>
      out' := CollectChildren(keys, children, start, end, out, lo, hi, h - 1, min);
  }

  method CollectChildren(keys: seq<Key>, children: seq<Node>, start: Key, end: Key, out: seq<Pair>,
                         ghost lo: Option<Key>, ghost hi: Option<Key>, ghost h: nat, ghost min: nat)
    returns (out': seq<Pair>)
    requires ChildrenOk(keys, children, lo, hi, h, min)
    ensures out' == out + Filter(AllEntries(children), start, end)
    decreases children, 0
  {
    hide Lt, Le, Filter, AllEntries, WF, SeparatorsOk;
    out' := out;
    FilterStart(children, start, end);
    for i := 0 to |children|
      invariant out' == out + Filter(AllEntries(children[..i]), start, end)
    {
      FilterNext(children, i, start, end);
      var aboveMin := i == 0 || Le(keys[i - 1], end);
      var belowMax := i == |keys| || Le(start, keys[i]);
      if aboveMin && belowMax {
        out' := CollectRange(children[i], start, end, out', ChildLo(keys, lo, i), ChildHi(keys, hi, i), h, false, min);
      } else {
        PrunedChild(keys, children, start, end, lo, hi, h, min, i);
      }
    }
    assert children[..|children|] == children;
  }

  lemma FilterStart(children: seq<Node>, start: Key, end: Key)
    ensures Filter(AllEntries(children[..0]), start, end) == []
  {
  }

  lemma FilterNext(children: seq<Node>, i: nat, start: Key, end: Key)
    requires i < |children|
    ensures Filter(AllEntries(children[..i + 1]), start, end)
            == Filter(AllEntries(children[..i]), start, end) + Filter(Entries(children[i]), start, end)
  {
    EntriesNext(children, i);
    FilterConcat(AllEntries(children[..i]), Entries(children[i]), start, end);
  }

  lemma PrunedChild(keys: seq<Key>, children: seq<Node>, start: Key, end: Key, lo: Option<Key>, hi: Option<Key>, h: nat,
                    min: nat, i: nat)
    requires ChildrenOk(keys, children, lo, hi, h, min) && i < |children|
    requires (i > 0 && !Le(keys[i - 1], end)) || (i < |keys| && !Le(start, keys[i]))
    ensures Filter(Entries(children[i]), start, end) == []
  {
    hide Lt, Le, Filter, Entries;
    EntriesOk(children[i], ChildLo(keys, lo, i), ChildHi(keys, hi, i), h, false, min);
    PrunedIsEmpty(Entries(children[i]), ChildLo(keys, lo, i), ChildHi(keys, hi, i), start, end);
  }

  method CollectLeaf(keys: seq<Key>, vals: seq<Value>, start: Key, end: Key, out: seq<Pair>) returns (out': seq<Pair>)
    requires |keys| == |vals|
    ensures out' == out + Filter(Zip(keys, vals), start, end)
  {
    hide Lt;
    out' := out;
    ghost var es := Zip(keys, vals);
    for i := 0 to |keys|
      invariant out' == out + Filter(es[..i], start, end)
    {
      assert es[..i + 1][..i] == es[..i];
      if Le(start, keys[i]) && Le(keys[i], end) {
        out' := out' + [Pair(keys[i], vals[i])];
      }
    }
    assert es[..|keys|] == es;
  }

  lemma {:induction false} FilterKeeps(es: seq<Pair>, start: Key, end: Key)
    ensures forall p :: p in Filter(es, start, end) <==> p in es && InRange(p.key, start, end)
    ensures Sorted(es) ==> Sorted(Filter(es, start, end))
  {
    hide InRange, Lt;
    if es != [] {
      var init, last := es[..|es| - 1], es[|es| - 1];
      FilterKeeps(init, start, end);
      assert forall p :: p in es <==> p in init || p == last;
      if Sorted(es) {
        forall i | 0 <= i < |Filter(init, start, end)| ensures Lt(Filter(init, start, end)[i].key, last.key) {
          assert Filter(init, start, end)[i] in init;
          var j :| 0 <= j < |init| && init[j] == Filter(init, start, end)[i];
          assert Lt(es[j].key, last.key);
        }
      }
    }
  }

  /** `a` comes before `b`: by parent and then as in a dictionary. */
  ghost predicate KeyPrecedes(a: Key, b: Key) {
    a.parent < b.parent || (a.parent == b.parent && Precedes(a.name, b.name))
  }

  /** In order, the pairs of the map whose keys are neither before `start` nor behind `end`. */
  ghost predicate Between(out: seq<Pair>, m: map<Key, Value>, start: Key, end: Key) {
    && Alphabetical(out)
    && forall p :: p in out <==>
         p.key in m && m[p.key] == p.val && !KeyPrecedes(p.key, start) && !KeyPrecedes(end, p.key)
  }

  lemma InRangeIs(k: Key, start: Key, end: Key)
    ensures InRange(k, start, end) <==> !KeyPrecedes(k, start) && !KeyPrecedes(end, k)
  {
    NameOrder(k.name, start.name);
    NameOrder(end.name, k.name);
    NameTotal(k.name, start.name);
    NameTotal(end.name, k.name);
    hide NameLt, Precedes;
  }

  lemma FilterIsBetween(es: seq<Pair>, start: Key, end: Key)
    requires Sorted(es)
    ensures Between(Filter(es, start, end), ToMap(es), start, end)
  {
    FilterKeeps(es, start, end);
    MembersOfMap(es);
    SortedIsAlphabetical(Filter(es, start, end));
    hide Filter, ToMap, InRange, KeyPrecedes, Alphabetical, Sorted;
    forall p: Pair ensures InRange(p.key, start, end) <==> !KeyPrecedes(p.key, start) && !KeyPrecedes(end, p.key) {
      InRangeIs(p.key, start, end);
    }
  }

  // ---- directory listings ----

  function DirStart(parent: nat): Key { Key(parent, "") }

  /** The sentinel behind a directory's entries: the highest Unicode scalar as a name. */
  function DirEnd(parent: nat): Key { Key(parent, "\U{10FFFF}") }

  function OfParent(es: seq<Pair>, parent: nat): seq<Pair> {
    if es == [] then []
    else OfParent(es[..|es| - 1], parent) + if es[|es| - 1].key.parent == parent then [es[|es| - 1]] else []
  }

  /** The name begins with the last character there is and goes on. */
  predicate PastSentinel(name: string) {
    |name| > 1 && name[0] == '\U{10FFFF}'
  }

  /** These names, and no others, sort behind the sentinel: every name that begins with an ordinary character, and the
      sentinel itself, stands in front of it. */
  lemma PastSentinelIs(name: string)
    ensures PastSentinel(name) <==> NameLt("\U{10FFFF}", name)
  {
    if name != [] {
      assert name[0] <= '\U{10FFFF}';
      assert "\U{10FFFF}"[1..] == [];
    }
  }

  lemma DirRangeOf(k: Key, parent: nat)
    ensures InRange(k, DirStart(parent), DirEnd(parent)) <==> k.parent == parent && !PastSentinel(k.name)
  {
    PastSentinelIs(k.name);
    NameTotal(k.name, "\U{10FFFF}");
    NameTotal("\U{10FFFF}", "\U{10FFFF}");
    assert k.name == "" || NameLt("", k.name);
  }

  lemma {:induction false} ListingLength(es: seq<Pair>, parent: nat)
    ensures |Filter(es, DirStart(parent), DirEnd(parent))| <= |OfParent(es, parent)|
    ensures |Filter(es, DirStart(parent), DirEnd(parent))| < |OfParent(es, parent)|
            <==> exists e :: e in es && e.key.parent == parent && PastSentinel(e.key.name)
  {
    if es != [] {
      var last := es[|es| - 1];
      ListingLength(es[..|es| - 1], parent);
      DirRangeOf(last.key, parent);
      assert es == es[..|es| - 1] + [last];
      assert last in es && forall e :: e in es <==> e in es[..|es| - 1] || e == last;
      hide InRange, PastSentinel, DirStart, DirEnd;
    }
  }

  /** `list_dir` returns a directory's entries, in name order, exactly when no name in it sorts behind the sentinel. */
  lemma {:induction false} ListingExact(es: seq<Pair>, parent: nat)
    ensures Filter(es, DirStart(parent), DirEnd(parent)) == OfParent(es, parent)
            <==> forall e :: e in es && e.key.parent == parent ==> !PastSentinel(e.key.name)
  {
    ListingLength(es, parent);
    if forall e :: e in es && e.key.parent == parent ==> !PastSentinel(e.key.name) {
      ListingEqual(es, parent);
    }
  }

  lemma {:induction false} ListingEqual(es: seq<Pair>, parent: nat)
    requires forall e :: e in es && e.key.parent == parent ==> !PastSentinel(e.key.name)
    ensures Filter(es, DirStart(parent), DirEnd(parent)) == OfParent(es, parent)
  {
    if es != [] {
      var last := es[|es| - 1];
      assert last in es;
      ListingEqual(es[..|es| - 1], parent);
      DirRangeOf(last.key, parent);
    }
  }

  /** Such names exist: anything that extends the sentinel. */
  lemma SentinelIsNotLast(rest: string)
    requires rest != ""
    ensures PastSentinel("\U{10FFFF}" + rest) && Precedes("\U{10FFFF}", "\U{10FFFF}" + rest)
  {
    PastSentinelIs("\U{10FFFF}" + rest);
    NameOrder("\U{10FFFF}", "\U{10FFFF}" + rest);
  }

  // ---- height ----

  function Pow4(n: nat): nat {
    if n == 0 then 1 else 4 * Pow4(n - 1)
  }

  lemma {:induction false} AllEntriesLength(ns: seq<Node>, each: nat)
    requires forall n :: n in ns ==> each <= |Entries(n)|
    ensures |ns| * each <= |AllEntries(ns)|
  {
    if ns != [] {
      AllEntriesLength(ns[1..], each);
      assert ns[0] in ns;
      assert |ns| * each == each + |ns[1..]| * each;
    }
  }

  lemma AtLeastTimes(a: nat, b: nat, c: nat)
    requires a <= b
    ensures a * c <= b * c
  {
  }

  lemma {:induction false} SubtreeSize(n: Node, lo: Option<Key>, hi: Option<Key>, h: nat)
    requires WF(n, lo, hi, h, false, 4)
    ensures 4 * Pow4(h) <= |Entries(n)|
    decreases n
  {
    hide SeparatorsOk, Increasing, Lt;
    match n
    case Leaf(_, _) =>
    case Internal(keys, children) =>
      forall c | c in children ensures 4 * Pow4(h - 1) <= |Entries(c)| {
        var i :| 0 <= i < |children| && children[i] == c;
        SubtreeSize(c, ChildLo(keys, lo, i), ChildHi(keys, hi, i), h - 1);
      }
      AllEntriesLength(children, 4 * Pow4(h - 1));
      AtLeastTimes(4, |children|, 4 * Pow4(h - 1));
  }

  /** A tree of height `h` that has only been inserted into holds at least 2 * 4^h entries. */
  lemma HeightBound(n: Node, h: nat)
    requires WF(n, None, None, h, true, 4) && h > 0
    ensures 2 * Pow4(h) <= |Entries(n)|
  {
    hide SeparatorsOk, Increasing, Lt;
    var keys, children := n.keys, n.children;
    forall c | c in children ensures 4 * Pow4(h - 1) <= |Entries(c)| {
      var i :| 0 <= i < |children| && children[i] == c;
      SubtreeSize(c, ChildLo(keys, None, i), ChildHi(keys, None, i), h - 1);
    }
    AllEntriesLength(children, 4 * Pow4(h - 1));
    AtLeastTimes(2, |children|, 4 * Pow4(h - 1));
  }

  function Pow8(n: nat): nat {
    if n == 0 then 1 else 8 * Pow8(n - 1)
  }

  lemma {:induction false} AllEntriesAtMost(ns: seq<Node>, each: nat)
    requires forall n :: n in ns ==> |Entries(n)| <= each
    ensures |AllEntries(ns)| <= |ns| * each
  {
    if ns != [] {
      AllEntriesAtMost(ns[1..], each);
      assert ns[0] in ns;
      assert |ns| * each == each + |ns[1..]| * each;
    }
  }

  /** Any tree of height `h`, after removals too, holds at most 7 * 8^h entries. */
  lemma {:induction false} SizeBound(n: Node, lo: Option<Key>, hi: Option<Key>, h: nat, root: bool, min: nat)
    requires WF(n, lo, hi, h, root, min)
    ensures |Entries(n)| <= 7 * Pow8(h)
    decreases n
  {
    hide SeparatorsOk, Increasing, Lt;
    match n
    case Leaf(_, _) =>
    case Internal(keys, children) =>
      forall c | c in children ensures |Entries(c)| <= 7 * Pow8(h - 1) {
        var i :| 0 <= i < |children| && children[i] == c;
        SizeBound(c, ChildLo(keys, lo, i), ChildHi(keys, hi, i), h - 1, false, min);
      }
      AllEntriesAtMost(children, 7 * Pow8(h - 1));
      AtLeastTimes(|children|, 8, 7 * Pow8(h - 1));
  }

  /** The nodes a lookup visits. */
  function Path(n: Node, key: Key): (p: seq<Node>)
    ensures |p| > 0
  {
    match n
    case Leaf(_, _) => [n]
    case Internal(keys, children) =>
      var pos := CountUpTo(keys, key);
      if pos < |children| then [n] + Path(children[pos], key) else [n]
  }

  /** A lookup visits one node on every level, ends in a leaf and answers what that leaf answers. */
  lemma {:induction false} PathLength(n: Node, key: Key, lo: Option<Key>, hi: Option<Key>, h: nat, root: bool, min: nat)
    requires WF(n, lo, hi, h, root, min)
    ensures |Path(n, key)| == h + 1
    ensures Path(n, key)[h].Leaf? && Tree.Get(Path(n, key)[h], key) == Tree.Get(n, key)
    decreases n
  {
    hide Increasing, Lt;
    match n
    case Leaf(_, _) =>
    case Internal(keys, children) =>
      var pos := CountUpTo(keys, key);
      PathLength(children[pos], key, ChildLo(keys, lo, pos), ChildHi(keys, hi, pos), h - 1, false, min);
  }

  /** So in a tree that has only been inserted into, a lookup of more than one node visits at most
      1 + log4(size / 2) nodes. */
  lemma LookupLogarithmic(n: Node, key: Key, h: nat)
    requires WF(n, None, None, h, true, 4)
    ensures |Path(n, key)| == 1 || 2 * Pow4(|Path(n, key)| - 1) <= |Entries(n)|
  {
    hide WF, Path;
    PathLength(n, key, None, None, h, true, 4);
    if h > 0 {
      HeightBound(n, h);
    }
  }

  // ---- the tree ----

  class BPlusTree {
    var root: Node
    var size: nat
    ghost var height: nat
    /** The least number of keys in a leaf below the root: 4 until something is removed, then 0. */
    ghost var fill: nat

    ghost predicate Valid()
      reads this
    {
      && WF(root, None, None, height, true, fill) && fill in {0, 4}
      && size == |Entries(root)|
    }

    /** The ordered map the tree stands for. */
    ghost function Contents(): map<Key, Value>
      reads this
    {
      ToMap(Entries(root))
    }

    constructor ()
      ensures Valid() && Contents() == map[] && size == 0 && fill == 4
    {
      root, size, height, fill := Leaf([], []), 0, 0, 4;
    }

    function Get(parent: nat, name: string): (r: Option<Value>)
      requires Valid()
      reads this
      ensures r == if Key(parent, name) in Contents() then Some(Contents()[Key(parent, name)]) else None
    {
      GetFinds(root, None, None, height, true, fill, Key(parent, name));
      Tree.Get(root, Key(parent, name))
    }

    method Insert(parent: nat, name: string, value: Value)
      requires Valid()
      modifies this
      ensures Valid() && Contents() == old(Contents())[Key(parent, name) := value]
      ensures size == |Contents()| && fill == old(fill)
    {
      var key := Key(parent, name);
      ghost var es := Entries(root);
      EntriesOk(root, None, None, height, true, fill);
      PutIsUpdate(es, key, value);
      var alreadyExists := Get(parent, name).Some?;
      var node, r := InsertInto(root, key, value, None, None, height, true, fill);
      match r {
        case Done =>
          root := node;
        case Split(promoted, right) =>
          NewRoot(node, promoted, right, height, fill);
          root := Internal([promoted], [node, right]);
          height := height + 1;
      }
      if !alreadyExists {
        size := size + 1;
      }
      MapEntriesOf(root, height, fill);
    }

    method Remove(parent: nat, name: string) returns (r: Option<Value>)
      requires Valid()
      modifies this
      ensures Valid() && Contents() == old(Contents()) - {Key(parent, name)}
      ensures r == old(Get(parent, name))
      ensures size == |Contents()|
    {
      var key := Key(parent, name);
      EntriesOk(root, None, None, height, true, fill);
      DropIsRemoval(Entries(root), key);
      MapEntriesOf(root, height, fill);
      WeakerMin(root, None, None, height, true, fill);
      var node;
      node, r := RemoveFrom(root, key, None, None, height, true);
      root := node;
      fill := 0;
      if r.Some? {
        size := size - 1;
      }
      MapEntriesOf(root, height, fill);
    }

    /** All entries in key order; as a map, exactly the contents. */
    method ListAll() returns (out: seq<Pair>)
      requires Valid()
      ensures Sorted(out) && ToMap(out) == Contents() && |out| == size && Alphabetical(out)
      ensures forall k :: k in Contents() <==> HasKey(out, k)
    {
      EntriesOk(root, None, None, height, true, fill);
      MapDomain(Entries(root));
      out := CollectAll(root, [], None, None, height, true, fill);
      assert out == Entries(root);
      SortedIsAlphabetical(out);
    }

    /** The in-order filter of `list_all` to [start, end]. */
    method RangeKeys(start: Key, end: Key) returns (out: seq<Pair>)
      requires Valid()
      ensures out == Filter(Entries(root), start, end) && Between(out, Contents(), start, end)
    {
      EntriesOk(root, None, None, height, true, fill);
      FilterIsBetween(Entries(root), start, end);
      out := CollectRange(root, start, end, [], None, None, height, true, fill);
    }

    /** The entries of a directory as in a dictionary, those left out whose names begin with U+10FFFF and go on; so all
        of them exactly when there is no such name in it. */
    method ListDir(parent: nat) returns (out: seq<Pair>)
      requires Valid()
      ensures out == Filter(Entries(root), DirStart(parent), DirEnd(parent)) && Alphabetical(out)
      ensures forall p :: p in out <==> p.key in Contents() && Contents()[p.key] == p.val
                                        && p.key.parent == parent && !PastSentinel(p.key.name)
      ensures out == OfParent(Entries(root), parent)
              <==> forall k :: k in Contents() && k.parent == parent ==> !PastSentinel(k.name)
      ensures out == [] <==> forall k :: k in Contents() && k.parent == parent ==> PastSentinel(k.name)
    {
      out := CollectRange(root, DirStart(parent), DirEnd(parent), [], None, None, height, true, fill);
      EntriesOk(root, None, None, height, true, fill);
      ListingSpec(Entries(root), parent, out);
    }
  }

  lemma {:induction false} ListingEmpty(es: seq<Pair>, parent: nat)
    ensures Filter(es, DirStart(parent), DirEnd(parent)) == []
            <==> forall e :: e in es && e.key.parent == parent ==> PastSentinel(e.key.name)
  {
    if es != [] {
      var last := es[|es| - 1];
      ListingEmpty(es[..|es| - 1], parent);
      DirRangeOf(last.key, parent);
      assert es == es[..|es| - 1] + [last];
      assert last in es && forall e :: e in es <==> e in es[..|es| - 1] || e == last;
      hide InRange, PastSentinel, DirStart, DirEnd;
    }
  }

  lemma ListingSpec(es: seq<Pair>, parent: nat, out: seq<Pair>)
    requires Sorted(es) && out == [] + Filter(es, DirStart(parent), DirEnd(parent))
    ensures out == OfParent(es, parent)
            <==> forall k :: k in ToMap(es) && k.parent == parent ==> !PastSentinel(k.name)
    ensures out == [] <==> forall k :: k in ToMap(es) && k.parent == parent ==> PastSentinel(k.name)
    ensures Alphabetical(out)
    ensures forall p :: p in out <==> p.key in ToMap(es) && ToMap(es)[p.key] == p.val
                                      && p.key.parent == parent && !PastSentinel(p.key.name)
  {
    ListingMembers(es, parent);
    hide Lt, ToMap, PastSentinel, Filter, DirStart, DirEnd, OfParent;
    ListingExact(es, parent);
    ListingEmpty(es, parent);
    ListingByMap(es, parent);
  }

  lemma ListingMembers(es: seq<Pair>, parent: nat)
    requires Sorted(es)
    ensures var out := Filter(es, DirStart(parent), DirEnd(parent));
            Alphabetical(out) && forall p :: p in out <==> p.key in ToMap(es) && ToMap(es)[p.key] == p.val
                                                           && p.key.parent == parent && !PastSentinel(p.key.name)
  {
    FilterKeeps(es, DirStart(parent), DirEnd(parent));
    MembersOfMap(es);
    SortedIsAlphabetical(Filter(es, DirStart(parent), DirEnd(parent)));
    hide Filter, ToMap, InRange, Alphabetical, Sorted, PastSentinel, DirStart, DirEnd;
    forall p: Pair
      ensures InRange(p.key, DirStart(parent), DirEnd(parent)) <==> p.key.parent == parent && !PastSentinel(p.key.name)
    {
      DirRangeOf(p.key, parent);
    }
  }

  lemma ListingByMap(es: seq<Pair>, parent: nat)
    requires Sorted(es)
    ensures (forall e :: e in es && e.key.parent == parent ==> PastSentinel(e.key.name))
            <==> forall k :: k in ToMap(es) && k.parent == parent ==> PastSentinel(k.name)
    ensures (forall e :: e in es && e.key.parent == parent ==> !PastSentinel(e.key.name))
            <==> forall k :: k in ToMap(es) && k.parent == parent ==> !PastSentinel(k.name)
  {
    hide Lt, ToMap, PastSentinel;
    MapDomain(es);
    forall e | e in es ensures e.key in ToMap(es) {
      assert HasKey(es, e.key);
    }
  }

  lemma MapEntriesOf(n: Node, h: nat, min: nat)
    requires WF(n, None, None, h, true, min)
    ensures |ToMap(Entries(n))| == |Entries(n)|
  {
    EntriesOk(n, None, None, h, true, min);
    MapEntries(Entries(n));
  }

  /** The new root above a split one. */
  lemma NewRoot(n: Node, p: Key, right: Node, h: nat, min: nat)
    requires Inserted(n, InsertResult.Split(p, right), None, None, h, true, min)
    ensures WF(Internal([p], [n, right]), None, None, h + 1, true, min)
    ensures Entries(Internal([p], [n, right])) == Entries(n) + Entries(right)
  {
    var keys, children := [p], [n, right];
    assert SeparatorsOk(keys, None, None);
    assert children == [n] + [right];
    AllEntriesConcat([n], [right]);
    AllEntriesOne(n);
    AllEntriesOne(right);
    forall i | 0 <= i < 2 ensures WF(children[i], ChildLo(keys, None, i), ChildHi(keys, None, i), h, false, min) {
    }
  }
}
