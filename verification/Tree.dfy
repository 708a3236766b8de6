/** B+ tree nodes (src/fs/btree.rs): order 8, separators in internal nodes, all entries in the leaves. */
module Tree {
  import opened Bytes
  import opened Keys

  const ORDER: nat := 8

  datatype Node =
    | Leaf(keys: seq<Key>, vals: seq<Value>)
    | Internal(keys: seq<Key>, children: seq<Node>)

  // ---- what a node stands for ----

  function Zip(keys: seq<Key>, vals: seq<Value>): (es: seq<Pair>)
    requires |keys| == |vals|
    ensures |es| == |keys| && forall i :: 0 <= i < |es| ==> es[i] == Pair(keys[i], vals[i])
  {
    seq(|keys|, i requires 0 <= i < |keys| => Pair(keys[i], vals[i]))
  }

  /** The entries in key order: `collect_all`. */
  function Entries(n: Node): seq<Pair>
    decreases n, 1
  {
    match n
    case Leaf(keys, vals) => if |keys| == |vals| then Zip(keys, vals) else []
    case Internal(_, children) => AllEntries(children)
  }

  function AllEntries(ns: seq<Node>): seq<Pair>
    decreases ns, 0
  {
    if ns == [] then [] else Entries(ns[0]) + AllEntries(ns[1..])
  }

  lemma {:induction false} AllEntriesConcat(a: seq<Node>, b: seq<Node>)
    ensures AllEntries(a + b) == AllEntries(a) + AllEntries(b)
  {
    if a == [] {
      assert a + b == b;
    } else {
      assert (a + b)[1..] == a[1..] + b;
      AllEntriesConcat(a[1..], b);
    }
  }

  lemma AllEntriesOne(n: Node)
    ensures AllEntries([n]) == Entries(n)
  {
    assert AllEntries([n]) == Entries(n) + AllEntries([n][1..]);
  }

  // ---- well-formed trees ----

  predicate AtLeast(k: Key, lo: Option<Key>) { lo.None? || Le(lo.value, k) }

  predicate Above(k: Key, lo: Option<Key>) { lo.None? || Lt(lo.value, k) }

  predicate Below(k: Key, hi: Option<Key>) { hi.None? || Lt(k, hi.value) }

  ghost predicate Increasing(keys: seq<Key>) {
    forall i, j :: 0 <= i < j < |keys| ==> Lt(keys[i], keys[j])
  }

  /** The bounds of child `i`: the separators around it. */
  function ChildLo(keys: seq<Key>, lo: Option<Key>, i: nat): Option<Key>
    requires i <= |keys|
  {
    if i == 0 then lo else Some(keys[i - 1])
  }

  function ChildHi(keys: seq<Key>, hi: Option<Key>, i: nat): Option<Key>
    requires i <= |keys|
  {
    if i == |keys| then hi else Some(keys[i])
  }

  ghost predicate LeafOk(keys: seq<Key>, vals: seq<Value>, lo: Option<Key>, hi: Option<Key>) {
    && |keys| == |vals| && Increasing(keys)
    && forall i :: 0 <= i < |keys| ==> AtLeast(keys[i], lo) && Below(keys[i], hi)
  }

  ghost predicate SeparatorsOk(keys: seq<Key>, lo: Option<Key>, hi: Option<Key>) {
    && Increasing(keys)
    && forall i :: 0 <= i < |keys| ==> Above(keys[i], lo) && Below(keys[i], hi)
  }

  /** Children sit between their separators, all at height `h`. */
  ghost predicate ChildrenOk(keys: seq<Key>, children: seq<Node>, lo: Option<Key>, hi: Option<Key>, h: nat, min: nat)
    decreases children, 1
  {
    && |children| == |keys| + 1
    && SeparatorsOk(keys, lo, hi)
    && forall i :: 0 <= i < |children| ==> WF(children[i], ChildLo(keys, lo, i), ChildHi(keys, hi, i), h, false, min)
  }

  /** A node at height `h` for keys in [lo, hi). Below the root, internal nodes have 4 to 8 children and leaves at
      least `min` keys; no node has more than 7 keys. */
  ghost predicate WF(n: Node, lo: Option<Key>, hi: Option<Key>, h: nat, root: bool, min: nat)
    decreases n, 0
  {
    match n
    case Leaf(keys, vals) =>
      h == 0 && |keys| < ORDER && LeafOk(keys, vals, lo, hi) && (!root ==> min <= |keys|)
    case Internal(keys, children) =>
      && h > 0 && |keys| < ORDER && (if root then 1 <= |keys| else 3 <= |keys|)
      && ChildrenOk(keys, children, lo, hi, h - 1, min)
  }

  ghost predicate Within(es: seq<Pair>, lo: Option<Key>, hi: Option<Key>) {
    forall i :: 0 <= i < |es| ==> AtLeast(es[i].key, lo) && Below(es[i].key, hi)
  }

  /** All entries between the outer bounds, in strict key order. */
  lemma {:induction false} EntriesOk(n: Node, lo: Option<Key>, hi: Option<Key>, h: nat, root: bool, min: nat)
    requires WF(n, lo, hi, h, root, min)
    ensures Within(Entries(n), lo, hi) && Sorted(Entries(n))
    decreases n, 1
  {
    match n
    case Leaf(keys, vals) =>
    case Internal(keys, children) =>
      ChildEntriesOk(keys, children, lo, hi, h - 1, min, 0);
      assert children[0..] == children;
  }

  /** The entries of the children from `i` on. */
  lemma {:induction false} ChildEntriesOk(keys: seq<Key>, children: seq<Node>, lo: Option<Key>, hi: Option<Key>,
                                          h: nat, min: nat, i: nat)
    requires ChildrenOk(keys, children, lo, hi, h, min) && i <= |children|
    ensures Sorted(AllEntries(children[i..]))
    ensures i < |children| ==> Within(AllEntries(children[i..]), ChildLo(keys, lo, i), hi)
    decreases children, |children| - i
  {
    if i < |children| {
      var rest := AllEntries(children[i + 1..]);
      EntriesOk(children[i], ChildLo(keys, lo, i), ChildHi(keys, hi, i), h, false, min);
      ChildEntriesOk(keys, children, lo, hi, h, min, i + 1);
      assert children[i..][1..] == children[i + 1..];
      JoinEntries(keys, lo, hi, i, Entries(children[i]), rest);
    }
  }

  lemma JoinEntries(keys: seq<Key>, lo: Option<Key>, hi: Option<Key>, i: nat, e: seq<Pair>, rest: seq<Pair>)
    requires SeparatorsOk(keys, lo, hi) && i <= |keys|
    requires Sorted(e) && Within(e, ChildLo(keys, lo, i), ChildHi(keys, hi, i))
    requires Sorted(rest) && (if i < |keys| then Within(rest, Some(keys[i]), hi) else rest == [])
    ensures Sorted(e + rest) && Within(e + rest, ChildLo(keys, lo, i), hi)
  {
    hide Lt;
    TotalOrder();
    if i < |keys| {
      assert i > 0 ==> Lt(keys[i - 1], keys[i]);
      forall x | 0 <= x < |e| ensures Below(e[x].key, hi) {
        assert Below(keys[i], hi);
      }
      forall y | 0 <= y < |rest| ensures AtLeast(rest[y].key, ChildLo(keys, lo, i)) {
        assert AtLeast(rest[y].key, Some(keys[i])) && Above(keys[i], lo);
      }
      forall x, y | 0 <= x < |e| && 0 <= y < |rest| ensures Lt(e[x].key, rest[y].key) {
        assert Lt(e[x].key, keys[i]) && Le(keys[i], rest[y].key);
      }
    } else {
      assert e + rest == e;
    }
  }

  // ---- partition_point ----

  /** `partition_point(|k| k < key)`. */
  function CountBelow(keys: seq<Key>, key: Key): (r: nat)
    ensures r <= |keys| && (forall i :: 0 <= i < r ==> Lt(keys[i], key)) && (r < |keys| ==> !Lt(keys[r], key))
  {
    if keys == [] || !Lt(keys[0], key) then 0 else 1 + CountBelow(keys[1..], key)
  }

  /** `partition_point(|k| k <= key)`: the child that covers `key`. */
  function CountUpTo(keys: seq<Key>, key: Key): (r: nat)
    ensures r <= |keys| && (forall i :: 0 <= i < r ==> Le(keys[i], key)) && (r < |keys| ==> !Le(keys[r], key))
  {
    if keys == [] || !Le(keys[0], key) then 0 else 1 + CountUpTo(keys[1..], key)
  }

  /** The child the search descends to covers the key; everything before it is smaller, everything behind larger. */
  lemma Descend(keys: seq<Key>, children: seq<Node>, lo: Option<Key>, hi: Option<Key>, h: nat, min: nat, key: Key)
    requires ChildrenOk(keys, children, lo, hi, h, min) && AtLeast(key, lo) && Below(key, hi)
    ensures var p := CountUpTo(keys, key);
            && p < |children| && AtLeast(key, ChildLo(keys, lo, p)) && Below(key, ChildHi(keys, hi, p))
            && AllEntries(children)
               == AllEntries(children[..p]) + Entries(children[p]) + AllEntries(children[p + 1..])
            && AllBelow(AllEntries(children[..p]), key) && AllAbove(AllEntries(children[p + 1..]), key)
  {
    var p := CountUpTo(keys, key);
    assert children == children[..p] + [children[p]] + children[p + 1..];
    AllEntriesConcat(children[..p] + [children[p]], children[p + 1..]);
    AllEntriesConcat(children[..p], [children[p]]);
    AllEntriesOne(children[p]);
    FirstChildren(keys, children, lo, hi, h, min, p);
    if p < |keys| {
      ChildEntriesOk(keys, children, lo, hi, h, min, p + 1);
    }
    DescendOrder(keys, lo, hi, p, key, AllEntries(children[..p]), AllEntries(children[p + 1..]));
  }

  lemma DescendOrder(keys: seq<Key>, lo: Option<Key>, hi: Option<Key>, p: nat, key: Key, a: seq<Pair>, b: seq<Pair>)
    requires p <= |keys| && (forall i :: 0 <= i < p ==> Le(keys[i], key)) && (p < |keys| ==> !Le(keys[p], key))
    requires AtLeast(key, lo) && Below(key, hi)
    requires if p > 0 then Within(a, lo, Some(keys[p - 1])) else a == []
    requires if p < |keys| then Within(b, Some(keys[p]), hi) else b == []
    ensures AtLeast(key, ChildLo(keys, lo, p)) && Below(key, ChildHi(keys, hi, p))
    ensures AllBelow(a, key) && AllAbove(b, key)
  {
    hide Lt;
    TotalOrder();
    if p < |keys| {
      assert Lt(key, keys[p]);
    }
    forall x | 0 <= x < |a| ensures Lt(a[x].key, key) {
      assert Lt(a[x].key, keys[p - 1]) && Le(keys[p - 1], key);
    }
    forall x | 0 <= x < |b| ensures Lt(key, b[x].key) {
      assert AtLeast(b[x].key, Some(keys[p]));
      assert Le(keys[p], b[x].key);
    }
  }

  /** The entries of the first `p` children lie below separator `p - 1`. */
  lemma {:induction false} FirstChildren(keys: seq<Key>, children: seq<Node>, lo: Option<Key>, hi: Option<Key>, h: nat,
                                         min: nat, p: nat)
    requires ChildrenOk(keys, children, lo, hi, h, min) && p <= |keys|
    ensures if p > 0 then Within(AllEntries(children[..p]), lo, Some(keys[p - 1])) else AllEntries(children[..p]) == []
  {
    if p > 0 {
      FirstChildren(keys, children, lo, hi, h, min, p - 1);
      assert children[..p] == children[..p - 1] + [children[p - 1]];
      AllEntriesConcat(children[..p - 1], [children[p - 1]]);
      AllEntriesOne(children[p - 1]);
      EntriesOk(children[p - 1], ChildLo(keys, lo, p - 1), ChildHi(keys, hi, p - 1), h, false, min);
      FirstChildrenStep(keys, lo, hi, p, AllEntries(children[..p - 1]), Entries(children[p - 1]));
    }
  }

  lemma FirstChildrenStep(keys: seq<Key>, lo: Option<Key>, hi: Option<Key>, p: nat, a: seq<Pair>, e: seq<Pair>)
    requires SeparatorsOk(keys, lo, hi) && 0 < p <= |keys|
    requires if p > 1 then Within(a, lo, Some(keys[p - 2])) else a == []
    requires Within(e, ChildLo(keys, lo, p - 1), ChildHi(keys, hi, p - 1))
    ensures Within(a + e, lo, Some(keys[p - 1]))
  {
    hide Lt;
    TotalOrder();
    if p > 1 {
      assert Lt(keys[p - 2], keys[p - 1]) && Above(keys[p - 2], lo);
      forall x | 0 <= x < |a| ensures Below(a[x].key, Some(keys[p - 1])) {
        assert Below(a[x].key, Some(keys[p - 2]));
      }
    }
  }

  // ---- get ----

  function Get(n: Node, key: Key): Option<Value> {
    match n
    case Leaf(keys, vals) =>
      var pos := CountBelow(keys, key);
      if pos < |keys| && pos < |vals| && keys[pos] == key then Some(vals[pos]) else None
    case Internal(keys, children) =>
      var pos := CountUpTo(keys, key);
      if pos < |children| then Get(children[pos], key) else None
  }

  function Find(es: seq<Pair>, key: Key): Option<Value> {
    if key in ToMap(es) then Some(ToMap(es)[key]) else None
  }

  lemma FindMiddle(a: seq<Pair>, e: seq<Pair>, b: seq<Pair>, key: Key)
    requires Sorted(a + e + b) && Sorted(e) && AllBelow(a, key) && AllAbove(b, key)
    ensures Find(a + e + b, key) == Find(e, key)
  {
    hide Lt, ToMap;
    StrictOrder();
    MembersOfMap(a + e + b);
    MembersOfMap(e);
    MapDomain(a + e + b);
    MapDomain(e);
    var all := a + e + b;
    if HasKey(all, key) {
      var x :| x in all && x.key == key;
      assert x !in a && x !in b by {
        assert forall i :: 0 <= i < |a| ==> Lt(a[i].key, key);
        assert forall i :: 0 <= i < |b| ==> Lt(key, b[i].key);
      }
      assert x in e;
    }
    if HasKey(e, key) {
      var x :| x in e && x.key == key;
      assert x in all;
    }
  }

  /** Lookup agrees with the ordered map. */
  lemma {:induction false} GetFinds(n: Node, lo: Option<Key>, hi: Option<Key>, h: nat, root: bool, min: nat, key: Key)
    requires WF(n, lo, hi, h, root, min) && AtLeast(key, lo) && Below(key, hi)
    ensures Get(n, key) == Find(Entries(n), key)
    decreases n
  {
    EntriesOk(n, lo, hi, h, root, min);
    match n
    case Leaf(keys, vals) =>
      LeafGet(keys, vals, key);
    case Internal(keys, children) =>
      var p := CountUpTo(keys, key);
      Descend(keys, children, lo, hi, h - 1, min, key);
      EntriesOk(children[p], ChildLo(keys, lo, p), ChildHi(keys, hi, p), h - 1, false, min);
      GetFinds(children[p], ChildLo(keys, lo, p), ChildHi(keys, hi, p), h - 1, false, min, key);
      FindMiddle(AllEntries(children[..p]), Entries(children[p]), AllEntries(children[p + 1..]), key);
  }

  /** The only place a key can stand in a leaf. */
  lemma OnlyPlace(keys: seq<Key>, key: Key)
    requires Increasing(keys)
    ensures var pos := CountBelow(keys, key); key in keys <==> pos < |keys| && keys[pos] == key
  {
    hide Lt, CountBelow;
    IrreflexiveAt(key);
    var pos := CountBelow(keys, key);
    forall i | 0 <= i < |keys| && i != pos ensures keys[i] != key {
      if i > pos {
        assert Lt(keys[pos], keys[i]);
      } else {
        assert Lt(keys[i], key);
      }
    }
  }

  lemma FindAt(es: seq<Pair>, key: Key, i: nat)
    requires Sorted(es) && i < |es| && es[i].key == key
    ensures Find(es, key) == Some(es[i].val)
  {
    hide Lt, ToMap;
    MapEntries(es);
    assert es[i] in es;
  }

  lemma LeafGet(keys: seq<Key>, vals: seq<Value>, key: Key)
    requires |keys| == |vals| && Increasing(keys) && Sorted(Zip(keys, vals))
    ensures var pos := CountBelow(keys, key);
            Find(Zip(keys, vals), key) == if pos < |keys| && keys[pos] == key then Some(vals[pos]) else None
  {
    hide Lt, ToMap, CountBelow, Sorted, Increasing;
    var es, pos := Zip(keys, vals), CountBelow(keys, key);
    OnlyPlace(keys, key);
    MapDomain(es);
    if pos < |keys| && keys[pos] == key {
      FindAt(es, key, pos);
    } else {
      assert forall e :: e in es ==> e.key in keys;
    }
  }

  // ---- insert ----

  datatype InsertResult = Done | Split(promoted: Key, right: Node)

  /** The entries of a node and, if it split, of its new right sibling. */
  function Both(n: Node, r: InsertResult): seq<Pair> {
    match r
    case Done => Entries(n)
    case Split(_, right) => Entries(n) + Entries(right)
  }

  /** The node is still well formed in its bounds, or it and its right sibling are on either side of the promoted
      key. */
  ghost predicate Inserted(n: Node, r: InsertResult, lo: Option<Key>, hi: Option<Key>, h: nat, root: bool, min: nat) {
    match r
    case Done => WF(n, lo, hi, h, root, min)
    case Split(p, right) =>
      && Above(p, lo) && Below(p, hi)
      && WF(n, lo, Some(p), h, false, min) && WF(right, Some(p), hi, h, false, min)
  }

  /** The place of a key among increasing keys: smaller ones before it, larger ones from it on. */
  lemma PlaceOf(keys: seq<Key>, key: Key)
    requires Increasing(keys)
    ensures IsPlace(keys, key, CountBelow(keys, key))
  {
    var pos := CountBelow(keys, key);
    hide Lt, CountBelow;
    TotalOrder();
    forall i | pos < i < |keys| ensures Lt(key, keys[i]) {
      assert Lt(keys[pos], keys[i]);
      assert keys[pos] == key || Lt(key, keys[pos]);
    }
  }

  /** `pos` is where `key` is among the keys, or belongs. */
  ghost predicate IsPlace(keys: seq<Key>, key: Key, pos: nat) {
    && pos <= |keys|
    && (forall i :: 0 <= i < pos ==> Lt(keys[i], key))
    && (forall i :: pos < i < |keys| ==> Lt(key, keys[i]))
    && (pos < |keys| && keys[pos] != key ==> Lt(key, keys[pos]))
  }

  lemma ZipPlace(keys: seq<Key>, vals: seq<Value>, key: Key, pos: nat)
    requires |keys| == |vals| && IsPlace(keys, key, pos)
    ensures var es := Zip(keys, vals);
            && es == es[..pos] + es[pos..] && AllBelow(es[..pos], key) && !Lt(key, key)
            && (pos < |keys| && keys[pos] == key ==> es[pos..] == [es[pos]] + es[pos + 1..])
            && (pos < |keys| && keys[pos] != key ==> Lt(key, es[pos].key))
            && (!(pos < |keys| && keys[pos] == key) ==> AllAbove(es[pos..], key))
  {
    IrreflexiveAt(key);
    hide Lt;
  }

  lemma LeafUpdate(keys: seq<Key>, vals: seq<Value>, key: Key, val: Value, pos: nat)
    requires |keys| == |vals| && IsPlace(keys, key, pos) && pos < |keys| && keys[pos] == key
    ensures Zip(keys, vals[pos := val]) == Put(Zip(keys, vals), key, val)
  {
    hide Lt;
    ZipPlace(keys, vals, key, pos);
    var es := Zip(keys, vals);
    PutBehind(es[..pos], es[pos..], key, val);
    assert es[pos..][1..] == es[pos + 1..];
    assert Zip(keys, vals[pos := val]) == es[..pos] + ([Pair(key, val)] + es[pos + 1..]);
  }

  lemma LeafInsert(keys: seq<Key>, vals: seq<Value>, key: Key, val: Value, pos: nat)
    requires |keys| == |vals| && IsPlace(keys, key, pos) && (pos < |keys| ==> keys[pos] != key)
    ensures Zip(keys[..pos] + [key] + keys[pos..], vals[..pos] + [val] + vals[pos..]) == Put(Zip(keys, vals), key, val)
  {
    hide Lt, Put, Zip;
    ZipPlace(keys, vals, key, pos);
    var es := Zip(keys, vals);
    PutBehind(es[..pos], es[pos..], key, val);
    PutFront(es[pos..], key, val);
    ZipInserted(keys, vals, key, val, pos);
  }

  lemma PutFront(es: seq<Pair>, key: Key, val: Value)
    requires AllAbove(es, key)
    ensures Put(es, key, val) == [Pair(key, val)] + es
  {
    IrreflexiveAt(key);
    hide Lt;
  }

  lemma ZipInserted(keys: seq<Key>, vals: seq<Value>, key: Key, val: Value, pos: nat)
    requires pos <= |keys| == |vals|
    ensures Zip(keys[..pos] + [key] + keys[pos..], vals[..pos] + [val] + vals[pos..])
            == Zip(keys, vals)[..pos] + ([Pair(key, val)] + Zip(keys, vals)[pos..])
  {
  }

  lemma KeyInserted(keys: seq<Key>, key: Key, pos: nat)
    requires Increasing(keys) && IsPlace(keys, key, pos) && (pos < |keys| ==> keys[pos] != key)
    ensures Increasing(keys[..pos] + [key] + keys[pos..])
  {
    hide Lt;
  }

  lemma LeafPut(keys: seq<Key>, vals: seq<Value>, key: Key, val: Value, lo: Option<Key>, hi: Option<Key>)
    requires LeafOk(keys, vals, lo, hi) && AtLeast(key, lo) && Below(key, hi)
    ensures var pos := CountBelow(keys, key);
            if pos < |keys| && keys[pos] == key then
              LeafOk(keys, vals[pos := val], lo, hi) && Zip(keys, vals[pos := val]) == Put(Zip(keys, vals), key, val)
            else
              LeafOk(keys[..pos] + [key] + keys[pos..], vals[..pos] + [val] + vals[pos..], lo, hi)
              && Zip(keys[..pos] + [key] + keys[pos..], vals[..pos] + [val] + vals[pos..])
                  == Put(Zip(keys, vals), key, val)
  {
    hide Lt, CountBelow, AtLeast, Below, Zip, Put;
    var pos := CountBelow(keys, key);
    PlaceOf(keys, key);
    if pos < |keys| && keys[pos] == key {
      LeafUpdate(keys, vals, key, val, pos);
    } else {
      LeafInsert(keys, vals, key, val, pos);
      KeyInserted(keys, key, pos);
    }
  }

  lemma IrreflexiveAt(key: Key)
    ensures !Lt(key, key)
  {
    NameTotal(key.name, key.name);
  }

  lemma LeafSplit(keys: seq<Key>, vals: seq<Value>, mid: nat, lo: Option<Key>, hi: Option<Key>)
    requires LeafOk(keys, vals, lo, hi) && 0 < mid < |keys|
    ensures Above(keys[mid], lo) && Below(keys[mid], hi)
    ensures LeafOk(keys[..mid], vals[..mid], lo, Some(keys[mid]))
            && LeafOk(keys[mid..], vals[mid..], Some(keys[mid]), hi)
    ensures Zip(keys[..mid], vals[..mid]) + Zip(keys[mid..], vals[mid..]) == Zip(keys, vals)
  {
    hide Lt;
    TotalOrder();
    assert Lt(keys[0], keys[mid]) && AtLeast(keys[0], lo);
  }

  /** Replacing child `p` keeps its siblings in place. */
  lemma ChildReplaced(keys: seq<Key>, children: seq<Node>, lo: Option<Key>, hi: Option<Key>, h: nat, min: nat, p: nat,
                      c: Node)
    requires ChildrenOk(keys, children, lo, hi, h, min) && p < |children|
    requires WF(c, ChildLo(keys, lo, p), ChildHi(keys, hi, p), h, false, min)
    ensures ChildrenOk(keys, children[p := c], lo, hi, h, min)
    ensures AllEntries(children[p := c]) == AllEntries(children[..p]) + Entries(c) + AllEntries(children[p + 1..])
  {
    assert children[p := c] == children[..p] + [c] + children[p + 1..];
    AllEntriesConcat(children[..p] + [c], children[p + 1..]);
    AllEntriesConcat(children[..p], [c]);
    AllEntriesOne(c);
  }

  /** Putting a split child and its sibling in its place, with the promoted key between them. */
  lemma ChildSplit(keys: seq<Key>, children: seq<Node>, lo: Option<Key>, hi: Option<Key>, h: nat, min: nat, p: nat,
                   c: Node, k: Key, right: Node)
    requires ChildrenOk(keys, children, lo, hi, h, min) && p < |children|
    requires Inserted(c, Split(k, right), ChildLo(keys, lo, p), ChildHi(keys, hi, p), h, false, min)
    ensures ChildrenOk(keys[..p] + [k] + keys[p..], children[..p] + [c, right] + children[p + 1..], lo, hi, h, min)
    ensures AllEntries(children[..p] + [c, right] + children[p + 1..])
            == AllEntries(children[..p]) + (Entries(c) + Entries(right)) + AllEntries(children[p + 1..])
  {
    hide Lt, Above, Below, Entries, AllEntries, SeparatorsOk, ChildLo, ChildHi;
    var keys', children' := keys[..p] + [k] + keys[p..], children[..p] + [c, right] + children[p + 1..];
    SplitEntries(children[..p], c, right, children[p + 1..]);
    SeparatorAdded(keys, lo, hi, p, k);
    forall i | 0 <= i < |children'|
      ensures WF(children'[i], ChildLo(keys', lo, i), ChildHi(keys', hi, i), h, false, min)
    {
      BoundsAdded(keys, lo, hi, p, k, i);
      if i < p {
        assert WF(children[i], ChildLo(keys, lo, i), ChildHi(keys, hi, i), h, false, min);
      } else if i > p + 1 {
        assert WF(children[i - 1], ChildLo(keys, lo, i - 1), ChildHi(keys, hi, i - 1), h, false, min);
      }
    }
  }

  /** With a separator added at `p`, child `p` is bounded by it on the right, and the next one on the left. */
  lemma BoundsAdded(keys: seq<Key>, lo: Option<Key>, hi: Option<Key>, p: nat, k: Key, i: nat)
    requires p <= |keys| && i <= |keys| + 1
    ensures var keys' := keys[..p] + [k] + keys[p..];
            && ChildLo(keys', lo, i)
               == (if i <= p then ChildLo(keys, lo, i) else if i == p + 1 then Some(k) else ChildLo(keys, lo, i - 1))
            && ChildHi(keys', hi, i)
               == (if i < p then ChildHi(keys, hi, i) else if i == p then Some(k) else ChildHi(keys, hi, i - 1))
  {
  }

  lemma SplitEntries(a: seq<Node>, c: Node, right: Node, b: seq<Node>)
    ensures AllEntries(a + [c, right] + b) == AllEntries(a) + (Entries(c) + Entries(right)) + AllEntries(b)
  {
    AllEntriesConcat(a + [c, right], b);
    AllEntriesConcat(a, [c, right]);
    assert [c, right] == [c] + [right];
    AllEntriesConcat([c], [right]);
    AllEntriesOne(c);
    AllEntriesOne(right);
  }

  lemma SeparatorAdded(keys: seq<Key>, lo: Option<Key>, hi: Option<Key>, p: nat, k: Key)
    requires SeparatorsOk(keys, lo, hi) && p <= |keys|
    requires Above(k, ChildLo(keys, lo, p)) && Below(k, ChildHi(keys, hi, p))
    ensures SeparatorsOk(keys[..p] + [k] + keys[p..], lo, hi)
  {
    hide Lt;
    TotalOrder();
    forall i | 0 <= i < p ensures Lt(keys[i], k) {
      assert i < p - 1 ==> Lt(keys[i], keys[p - 1]);
    }
    forall i | p <= i < |keys| ensures Lt(k, keys[i]) {
      assert p < i ==> Lt(keys[p], keys[i]);
    }
    if p > 0 {
      assert Above(keys[p - 1], lo);
    }
    if p < |keys| {
      assert Below(keys[p], hi);
    }
  }

  /** Splitting an internal node at separator `mid`, which moves up. */
  lemma InternalSplit(keys: seq<Key>, children: seq<Node>, mid: nat, lo: Option<Key>, hi: Option<Key>, h: nat, min: nat)
    requires ChildrenOk(keys, children, lo, hi, h, min) && mid < |keys|
    ensures Above(keys[mid], lo) && Below(keys[mid], hi)
    ensures ChildrenOk(keys[..mid], children[..mid + 1], lo, Some(keys[mid]), h, min)
    ensures ChildrenOk(keys[mid + 1..], children[mid + 1..], Some(keys[mid]), hi, h, min)
    ensures AllEntries(children[..mid + 1]) + AllEntries(children[mid + 1..]) == AllEntries(children)
  {
    hide Lt, Above, Below, Entries, Increasing;
    assert children == children[..mid + 1] + children[mid + 1..];
    AllEntriesConcat(children[..mid + 1], children[mid + 1..]);
    SeparatorsSplit(keys, mid, lo, hi);
    var l, r, cl, cr := keys[..mid], keys[mid + 1..], children[..mid + 1], children[mid + 1..];
    forall i | 0 <= i < |cl| ensures WF(cl[i], ChildLo(l, lo, i), ChildHi(l, Some(keys[mid]), i), h, false, min) {
      assert WF(children[i], ChildLo(keys, lo, i), ChildHi(keys, hi, i), h, false, min);
    }
    forall i | 0 <= i < |cr| ensures WF(cr[i], ChildLo(r, Some(keys[mid]), i), ChildHi(r, hi, i), h, false, min) {
      assert WF(children[mid + 1 + i], ChildLo(keys, lo, mid + 1 + i), ChildHi(keys, hi, mid + 1 + i), h, false, min);
    }
  }

  lemma SeparatorsSplit(keys: seq<Key>, mid: nat, lo: Option<Key>, hi: Option<Key>)
    requires SeparatorsOk(keys, lo, hi) && mid < |keys|
    ensures Above(keys[mid], lo) && Below(keys[mid], hi)
    ensures SeparatorsOk(keys[..mid], lo, Some(keys[mid])) && SeparatorsOk(keys[mid + 1..], Some(keys[mid]), hi)
  {
    hide Lt;
  }

  method InsertInto(n: Node, key: Key, val: Value, ghost lo: Option<Key>, ghost hi: Option<Key>, ghost h: nat,
                    ghost root: bool, ghost min: nat)
    returns (n': Node, r: InsertResult)
    requires WF(n, lo, hi, h, root, min) && min <= 4 && AtLeast(key, lo) && Below(key, hi)
    ensures Inserted(n', r, lo, hi, h, root, min)
    ensures Both(n', r) == Put(Entries(n), key, val)
    decreases n
  {
    match n
    case Leaf(keys, vals) =>
      n', r := InsertLeaf(keys, vals, key, val, lo, hi, root, min);
    case Internal(keys, children) =>
      var pos := CountUpTo(keys, key);
      Descend(keys, children, lo, hi, h - 1, min, key);
      var child, split := InsertInto(children[pos], key, val, ChildLo(keys, lo, pos), ChildHi(keys, hi, pos), h - 1,
                                     false, min);
      PutMiddle(AllEntries(children[..pos]), Entries(children[pos]), AllEntries(children[pos + 1..]), key, val);
      n', r := PlaceChild(keys, children, pos, child, split, lo, hi, h, root, min);
  }

  lemma SplitInserted(keys: seq<Key>, vals: seq<Value>, mid: nat, lo: Option<Key>, hi: Option<Key>, root: bool,
                      min: nat)
    requires LeafOk(keys, vals, lo, hi) && |keys| == ORDER && mid == 4 && min <= 4
    ensures var n, r := Leaf(keys[..mid], vals[..mid]), Split(keys[mid], Leaf(keys[mid..], vals[mid..]));
            Inserted(n, r, lo, hi, 0, root, min) && Both(n, r) == Zip(keys, vals)
  {
    hide Lt, Increasing, Zip;
    LeafSplit(keys, vals, mid, lo, hi);
  }

  lemma WholeInserted(keys: seq<Key>, vals: seq<Value>, lo: Option<Key>, hi: Option<Key>, root: bool, min: nat)
    requires LeafOk(keys, vals, lo, hi) && |keys| < ORDER && (!root ==> min <= |keys|)
    ensures Inserted(Leaf(keys, vals), Done, lo, hi, 0, root, min)
  {
  }

  method InsertLeaf(keys: seq<Key>, vals: seq<Value>, key: Key, val: Value, ghost lo: Option<Key>,
                    ghost hi: Option<Key>, ghost root: bool, ghost min: nat)
    returns (n': Node, r: InsertResult)
    requires WF(Leaf(keys, vals), lo, hi, 0, root, min) && min <= 4 && AtLeast(key, lo) && Below(key, hi)
    ensures Inserted(n', r, lo, hi, 0, root, min)
    ensures Both(n', r) == Put(Entries(Leaf(keys, vals)), key, val)
  {
    hide Lt, Put, CountBelow, Increasing, Zip, Inserted;
    var pos := CountBelow(keys, key);
    LeafPut(keys, vals, key, val, lo, hi);
    if pos < |keys| && keys[pos] == key {
      WholeInserted(keys, vals[pos := val], lo, hi, root, min);
      return Leaf(keys, vals[pos := val]), Done;
    }
    var keys', vals' := keys[..pos] + [key] + keys[pos..], vals[..pos] + [val] + vals[pos..];
    if |keys'| >= ORDER {
      var mid := |keys'| / 2;
      SplitInserted(keys', vals', mid, lo, hi, root, min);
      return Leaf(keys'[..mid], vals'[..mid]), Split(keys'[mid], Leaf(keys'[mid..], vals'[mid..]));
    }
    WholeInserted(keys', vals', lo, hi, root, min);
    return Leaf(keys', vals'), Done;
  }

  /** The way back up: takes over the child's split, and splits in turn at 8 separators. */
  method PlaceChild(keys: seq<Key>, children: seq<Node>, pos: nat, child: Node, split: InsertResult,
                    ghost lo: Option<Key>, ghost hi: Option<Key>, ghost h: nat, ghost root: bool, ghost min: nat)
    returns (n': Node, r: InsertResult)
    requires WF(Internal(keys, children), lo, hi, h, root, min) && pos <= |keys| && |children| == |keys| + 1
    requires Inserted(child, split, ChildLo(keys, lo, pos), ChildHi(keys, hi, pos), h - 1, false, min)
    ensures Inserted(n', r, lo, hi, h, root, min)
    ensures Both(n', r) == AllEntries(children[..pos]) + Both(child, split) + AllEntries(children[pos + 1..])
  {
    match split
    case Done =>
      ChildReplaced(keys, children, lo, hi, h - 1, min, pos, child);
      return Internal(keys, children[pos := child]), Done;
    case Split(promoted, right) =>
      ChildSplit(keys, children, lo, hi, h - 1, min, pos, child, promoted, right);
      var keys', children' :=
        keys[..pos] + [promoted] + keys[pos..], children[..pos] + [child, right] + children[pos + 1..];
      if |keys'| >= ORDER {
        var mid := |keys'| / 2;
        InternalSplit(keys', children', mid, lo, hi, h - 1, min);
        return Internal(keys'[..mid], children'[..mid + 1]),
               Split(keys'[mid], Internal(keys'[mid + 1..], children'[mid + 1..]));
      }
      return Internal(keys', children'), Done;
  }

  // ---- remove ----

  lemma LeafDelete(keys: seq<Key>, vals: seq<Value>, key: Key, pos: nat)
    requires |keys| == |vals| && IsPlace(keys, key, pos) && pos < |keys| && keys[pos] == key
    ensures Zip(keys[..pos] + keys[pos + 1..], vals[..pos] + vals[pos + 1..]) == Drop(Zip(keys, vals), key)
  {
    hide Lt;
    ZipPlace(keys, vals, key, pos);
    var es := Zip(keys, vals);
    DropBehind(es[..pos], es[pos..], key);
    assert es[pos..][1..] == es[pos + 1..];
    assert Zip(keys[..pos] + keys[pos + 1..], vals[..pos] + vals[pos + 1..]) == es[..pos] + es[pos + 1..];
  }

  lemma LeafKeep(keys: seq<Key>, vals: seq<Value>, key: Key, pos: nat)
    requires |keys| == |vals| && IsPlace(keys, key, pos) && (pos < |keys| ==> keys[pos] != key)
    ensures Drop(Zip(keys, vals), key) == Zip(keys, vals)
  {
    IrreflexiveAt(key);
    hide Lt;
    DropAbsent(Zip(keys, vals), key);
  }

  lemma LeafDrop(keys: seq<Key>, vals: seq<Value>, key: Key, lo: Option<Key>, hi: Option<Key>)
    requires LeafOk(keys, vals, lo, hi)
    ensures var pos := CountBelow(keys, key);
            if pos < |keys| && keys[pos] == key then
              LeafOk(keys[..pos] + keys[pos + 1..], vals[..pos] + vals[pos + 1..], lo, hi)
              && Zip(keys[..pos] + keys[pos + 1..], vals[..pos] + vals[pos + 1..]) == Drop(Zip(keys, vals), key)
            else Drop(Zip(keys, vals), key) == Zip(keys, vals)
  {
    hide Lt, CountBelow, AtLeast, Below, Zip, Drop;
    var pos := CountBelow(keys, key);
    PlaceOf(keys, key);
    if pos < |keys| && keys[pos] == key {
      LeafDelete(keys, vals, key, pos);
    } else {
      LeafKeep(keys, vals, key, pos);
    }
  }

  lemma {:induction false} WeakerMin(n: Node, lo: Option<Key>, hi: Option<Key>, h: nat, root: bool, min: nat)
    requires WF(n, lo, hi, h, root, min)
    ensures WF(n, lo, hi, h, root, 0)
    decreases n
  {
    match n
    case Leaf(_, _) =>
    case Internal(keys, children) =>
      forall i | 0 <= i < |children|
        ensures WF(children[i], ChildLo(keys, lo, i), ChildHi(keys, hi, i), h - 1, false, 0)
      {
        WeakerMin(children[i], ChildLo(keys, lo, i), ChildHi(keys, hi, i), h - 1, false, min);
      }
  }

  /** Removes from a leaf; nothing is rebalanced, so leaves may run empty while the shape of the tree stays. */
  method RemoveFrom(n: Node, key: Key, ghost lo: Option<Key>, ghost hi: Option<Key>, ghost h: nat, ghost root: bool)
    returns (n': Node, r: Option<Value>)
    requires WF(n, lo, hi, h, root, 0) && AtLeast(key, lo) && Below(key, hi)
    ensures WF(n', lo, hi, h, root, 0)
    ensures Entries(n') == Drop(Entries(n), key) && r == Find(Entries(n), key)
    ensures r.None? ==> n' == n
    decreases n, 1
  {
    match n
    case Leaf(keys, vals) =>
      GetFinds(n, lo, hi, h, root, 0, key);
      n', r := RemoveFromLeaf(keys, vals, key, lo, hi, root);
    case Internal(keys, children) =>
      n', r := RemoveFromChild(keys, children, key, lo, hi, h, root);
  }

  method RemoveFromChild(keys: seq<Key>, children: seq<Node>, key: Key, ghost lo: Option<Key>, ghost hi: Option<Key>,
                         ghost h: nat, ghost root: bool)
    returns (n': Node, r: Option<Value>)
    requires WF(Internal(keys, children), lo, hi, h, root, 0) && AtLeast(key, lo) && Below(key, hi)
    ensures WF(n', lo, hi, h, root, 0)
    ensures Entries(n') == Drop(Entries(Internal(keys, children)), key)
            && r == Find(Entries(Internal(keys, children)), key)
    ensures r.None? ==> n' == Internal(keys, children)
    decreases children, 0
  {
    hide *;
    var pos := CountUpTo(keys, key);
    ChildBelow(keys, children, lo, hi, h, root, key);
    var child;
    child, r := RemoveFrom(children[pos], key, ChildLo(keys, lo, pos), ChildHi(keys, hi, pos), h - 1, false);
    RemovedChild(keys, children, lo, hi, h, root, key, child);
    n' := Internal(keys, children[pos := child]);
  }

  lemma ChildBelow(keys: seq<Key>, children: seq<Node>, lo: Option<Key>, hi: Option<Key>, h: nat, root: bool, key: Key)
    requires WF(Internal(keys, children), lo, hi, h, root, 0) && AtLeast(key, lo) && Below(key, hi)
    ensures var pos := CountUpTo(keys, key);
            && h > 0 && pos <= |keys| && pos < |children| && children[pos] in children
            && WF(children[pos], ChildLo(keys, lo, pos), ChildHi(keys, hi, pos), h - 1, false, 0)
            && AtLeast(key, ChildLo(keys, lo, pos)) && Below(key, ChildHi(keys, hi, pos))
  {
    Descend(keys, children, lo, hi, h - 1, 0, key);
  }

  lemma RemovedChild(keys: seq<Key>, children: seq<Node>, lo: Option<Key>, hi: Option<Key>, h: nat, root: bool,
                     key: Key, child: Node)
    requires WF(Internal(keys, children), lo, hi, h, root, 0) && AtLeast(key, lo) && Below(key, hi)
    requires var pos := CountUpTo(keys, key);
             && h > 0 && pos <= |keys| && pos < |children|
             && WF(child, ChildLo(keys, lo, pos), ChildHi(keys, hi, pos), h - 1, false, 0)
             && Entries(child) == Drop(Entries(children[pos]), key)
    ensures var pos := CountUpTo(keys, key);
            && WF(Internal(keys, children[pos := child]), lo, hi, h, root, 0)
            && Entries(Internal(keys, children[pos := child])) == Drop(Entries(Internal(keys, children)), key)
            && Find(Entries(children[pos]), key) == Find(Entries(Internal(keys, children)), key)
            && (Find(Entries(children[pos]), key).None? && child == children[pos] ==>
                children[pos := child] == children)
  {
    var pos := CountUpTo(keys, key);
    hide Lt, CountUpTo, Find, AtLeast, Below;
    Descend(keys, children, lo, hi, h - 1, 0, key);
    var a, e, b := AllEntries(children[..pos]), Entries(children[pos]), AllEntries(children[pos + 1..]);
    EntriesOk(Internal(keys, children), lo, hi, h, root, 0);
    EntriesOk(children[pos], ChildLo(keys, lo, pos), ChildHi(keys, hi, pos), h - 1, false, 0);
    FindMiddle(a, e, b, key);
    DropMiddle(a, e, b, key);
    ChildReplaced(keys, children, lo, hi, h - 1, 0, pos, child);
  }

  method RemoveFromLeaf(keys: seq<Key>, vals: seq<Value>, key: Key, ghost lo: Option<Key>, ghost hi: Option<Key>,
                        ghost root: bool)
    returns (n': Node, r: Option<Value>)
    requires WF(Leaf(keys, vals), lo, hi, 0, root, 0) && AtLeast(key, lo) && Below(key, hi)
    ensures WF(n', lo, hi, 0, root, 0)
    ensures Entries(n') == Drop(Entries(Leaf(keys, vals)), key) && r == Get(Leaf(keys, vals), key)
    ensures r.None? ==> n' == Leaf(keys, vals)
  {
    hide Lt, AtLeast, Below;
    var pos := CountBelow(keys, key);
    LeafDrop(keys, vals, key, lo, hi);
    if pos < |keys| && keys[pos] == key {
      n', r := Leaf(keys[..pos] + keys[pos + 1..], vals[..pos] + vals[pos + 1..]), Some(vals[pos]);
    } else {
      n', r := Leaf(keys, vals), None;
    }
  }
}
