/** Project discovery (src/ai/workspace.rs): files that are often used together are grouped by a union-find forest
    with path compression. */
module Clustering {
  import opened Bytes

  /** How often two files must co-occur to belong to one project. */
  const CO_THRESHOLD: nat := 3

  type Edge = (nat, nat)

  ghost predicate Distinct(s: seq<nat>) {
    forall i, j :: 0 <= i < j < |s| ==> s[i] != s[j]
  }

  // ----- The graph of pairs that co-occur often -----

  function StrongPairs(coAccess: map<Edge, nat>): set<Edge> {
    set e | e in coAccess && coAccess[e] >= CO_THRESHOLD
  }

  predicate Adjacent(edges: set<Edge>, x: nat, y: nat) {
    (x, y) in edges || (y, x) in edges
  }

  ghost predicate Walk(edges: set<Edge>, p: seq<nat>, x: nat, y: nat) {
    && p != [] && p[0] == x && p[|p| - 1] == y
    && forall i :: 0 <= i < |p| - 1 ==> Adjacent(edges, p[i], p[i + 1])
  }

  ghost predicate Connected(edges: set<Edge>, x: nat, y: nat) {
    exists p :: Walk(edges, p, x, y)
  }

  lemma ConnectedReflexive(edges: set<Edge>, x: nat)
    ensures Connected(edges, x, x)
  {
    assert Walk(edges, [x], x, x);
  }

  lemma ConnectedTransitive(edges: set<Edge>, x: nat, y: nat, z: nat)
    requires Connected(edges, x, y) && Connected(edges, y, z)
    ensures Connected(edges, x, z)
  {
    var p :| Walk(edges, p, x, y);
    var q :| Walk(edges, q, y, z);
    var r := p + q[1..];
    forall i | 0 <= i < |r| - 1 ensures Adjacent(edges, r[i], r[i + 1]) {
      if i >= |p| - 1 {
        assert Adjacent(edges, q[i - (|p| - 1)], q[i - (|p| - 1) + 1]);
      }
    }
    assert Walk(edges, r, x, z);
  }

  lemma ConnectedByEdge(edges: set<Edge>, x: nat, y: nat)
    requires Adjacent(edges, x, y)
    ensures Connected(edges, x, y)
  {
    assert Walk(edges, [x, y], x, y);
  }

  lemma ConnectedMonotone(edges: set<Edge>, more: set<Edge>, x: nat, y: nat)
    requires edges <= more && Connected(edges, x, y)
    ensures Connected(more, x, y)
  {
    var p :| Walk(edges, p, x, y);
    assert Walk(more, p, x, y);
  }

  /** x and y are joined without the edge, or by crossing it once in one direction or the other. */
  ghost predicate Across(edges: set<Edge>, a: nat, b: nat, x: nat, y: nat) {
    || Connected(edges, x, y)
    || (Connected(edges, x, a) && Connected(edges, b, y))
    || (Connected(edges, x, b) && Connected(edges, a, y))
  }

  lemma {:induction false} WalkAcross(edges: set<Edge>, a: nat, b: nat, p: seq<nat>, x: nat, y: nat)
    requires Walk(edges + {(a, b)}, p, x, y)
    ensures Across(edges, a, b, x, y)
    decreases |p|
  {
    if |p| == 1 {
      ConnectedReflexive(edges, x);
    } else {
      var z := p[|p| - 2];
      assert Adjacent(edges + {(a, b)}, p[|p| - 2], p[|p| - 2 + 1]);
      WalkAcross(edges, a, b, p[..|p| - 1], x, z);
      StepAcross(edges, a, b, x, z, y);
    }
  }

  lemma StepAcross(edges: set<Edge>, a: nat, b: nat, x: nat, z: nat, y: nat)
    requires Across(edges, a, b, x, z) && Adjacent(edges + {(a, b)}, z, y)
    ensures Across(edges, a, b, x, y)
  {
    hide Connected;
    if Adjacent(edges, z, y) {
      ConnectedByEdge(edges, z, y);
      if Connected(edges, x, z) {
        ConnectedTransitive(edges, x, z, y);
      } else if Connected(edges, x, a) && Connected(edges, b, z) {
        ConnectedTransitive(edges, b, z, y);
      } else {
        ConnectedTransitive(edges, a, z, y);
      }
    } else {
      ConnectedReflexive(edges, y);
    }
  }

  /** Adding an edge joins exactly the two components of its ends. */
  lemma AddedEdge(edges: set<Edge>, a: nat, b: nat, x: nat, y: nat)
    ensures Connected(edges + {(a, b)}, x, y) <==> Across(edges, a, b, x, y)
  {
    var more := edges + {(a, b)};
    if Connected(more, x, y) {
      var p :| Walk(more, p, x, y);
      WalkAcross(edges, a, b, p, x, y);
    }
    if Across(edges, a, b, x, y) {
      AcrossIsConnected(edges, a, b, x, y);
    }
  }

  lemma AcrossIsConnected(edges: set<Edge>, a: nat, b: nat, x: nat, y: nat)
    requires Across(edges, a, b, x, y)
    ensures Connected(edges + {(a, b)}, x, y)
  {
    hide Connected;
    var more := edges + {(a, b)};
    ConnectedByEdge(more, a, b);
    ConnectedByEdge(more, b, a);
    if Connected(edges, x, y) {
      ConnectedMonotone(edges, more, x, y);
    } else if Connected(edges, x, a) && Connected(edges, b, y) {
      ConnectedMonotone(edges, more, x, a);
      ConnectedMonotone(edges, more, b, y);
      ConnectedTransitive(more, x, a, b);
      ConnectedTransitive(more, x, b, y);
    } else {
      ConnectedMonotone(edges, more, x, b);
      ConnectedMonotone(edges, more, a, y);
      ConnectedTransitive(more, x, b, a);
      ConnectedTransitive(more, x, a, y);
    }
  }

  // ----- The forest -----

  /** The parent of x is known, and unless it is x itself it has a smaller rank. */
  ghost predicate Hangs(parent: map<nat, nat>, rank: map<nat, nat>, x: nat)
    requires rank.Keys == parent.Keys && x in parent
  {
    parent[x] in parent && (parent[x] != x ==> rank[parent[x]] < rank[x])
  }

  /** Following parents ends at a root, because the rank falls. */
  ghost predicate Forest(parent: map<nat, nat>, rank: map<nat, nat>) {
    && rank.Keys == parent.Keys
    && forall x {:trigger Hangs(parent, rank, x)} :: x in parent ==> Hangs(parent, rank, x)
  }

  ghost function Root(parent: map<nat, nat>, rank: map<nat, nat>, x: nat): (r: nat)
    requires Forest(parent, rank) && x in parent
    ensures r in parent && parent[r] == r && rank[r] <= rank[x] && (r != x ==> rank[r] < rank[x])
    decreases rank[x]
  {
    assert Hangs(parent, rank, x);
    if parent[x] == x then x else Root(parent, rank, parent[x])
  }

  ghost function Roots(parent: map<nat, nat>, rank: map<nat, nat>): (r: map<nat, nat>)
    requires Forest(parent, rank)
    ensures r.Keys == parent.Keys
  {
    map x | x in parent :: Root(parent, rank, x)
  }

  ghost function Shorter(parent: map<nat, nat>, rank: map<nat, nat>, x: nat): map<nat, nat>
    requires Forest(parent, rank) && x in parent
  {
    parent[x := Root(parent, rank, x)]
  }

  lemma ShorterIsForest(parent: map<nat, nat>, rank: map<nat, nat>, x: nat)
    requires Forest(parent, rank) && x in parent
    ensures Forest(Shorter(parent, rank, x), rank)
  {
    var shorter := Shorter(parent, rank, x);
    assert shorter.Keys == parent.Keys;
    forall y | y in shorter ensures Hangs(shorter, rank, y) {
      assert Hangs(parent, rank, y);
    }
  }

  /** Pointing a node straight at its root changes no root. */
  lemma {:induction false} ShorterKeepsRoot(parent: map<nat, nat>, rank: map<nat, nat>, x: nat, y: nat)
    requires Forest(parent, rank) && x in parent && y in parent && Forest(Shorter(parent, rank, x), rank)
    ensures Root(Shorter(parent, rank, x), rank, y) == Root(parent, rank, y)
    decreases rank[y]
  {
    assert Hangs(parent, rank, y);
    if y != x && parent[y] != y {
      ShorterKeepsRoot(parent, rank, x, parent[y]);
    }
  }

  lemma Compression(parent: map<nat, nat>, rank: map<nat, nat>, x: nat)
    requires Forest(parent, rank) && x in parent
    ensures Forest(Shorter(parent, rank, x), rank)
    ensures Roots(Shorter(parent, rank, x), rank) == Roots(parent, rank)
  {
    ShorterIsForest(parent, rank, x);
    forall y | y in parent ensures Root(Shorter(parent, rank, x), rank, y) == Root(parent, rank, y) {
      ShorterKeepsRoot(parent, rank, x, y);
    }
  }

  /** Ranks under which the tree of `a` hangs below the root `b`. */
  ghost function Raised(parent: map<nat, nat>, rank: map<nat, nat>, a: nat, b: nat): (r: map<nat, nat>)
    requires Forest(parent, rank) && b in parent
    ensures r.Keys == parent.Keys
  {
    map x | x in parent :: if Root(parent, rank, x) == a then rank[x] + rank[b] + 1 else rank[x]
  }

  lemma LinkedIsForest(parent: map<nat, nat>, rank: map<nat, nat>, a: nat, b: nat)
    requires Forest(parent, rank) && a in parent && b in parent && parent[a] == a && parent[b] == b && a != b
    ensures Forest(parent[a := b], Raised(parent, rank, a, b))
  {
    var linked, raised := parent[a := b], Raised(parent, rank, a, b);
    assert linked.Keys == parent.Keys;
    forall x | x in linked ensures Hangs(linked, raised, x) {
      assert Hangs(parent, rank, x);
    }
  }

  /** Hanging one root below another moves exactly the nodes of the first tree. */
  lemma {:induction false} LinkedRoot(parent: map<nat, nat>, rank: map<nat, nat>, a: nat, b: nat, y: nat)
    requires Forest(parent, rank) && a in parent && b in parent && parent[a] == a && parent[b] == b && a != b
    requires y in parent && Forest(parent[a := b], Raised(parent, rank, a, b))
    ensures Root(parent[a := b], Raised(parent, rank, a, b), y)
            == if Root(parent, rank, y) == a then b else Root(parent, rank, y)
    decreases rank[y]
  {
    var linked, raised := parent[a := b], Raised(parent, rank, a, b);
    assert Hangs(parent, rank, y);
    if y == a {
      assert Root(linked, raised, b) == b;
    } else if parent[y] != y {
      LinkedRoot(parent, rank, a, b, parent[y]);
    }
  }

  ghost function Merged(roots: map<nat, nat>, a: nat, b: nat): (r: map<nat, nat>)
    requires a in roots && b in roots
    ensures r.Keys == roots.Keys
  {
    map x | x in roots :: if roots[x] == roots[a] then roots[b] else roots[x]
  }

  lemma LinkedAt(parent: map<nat, nat>, rank: map<nat, nat>, a: nat, b: nat, y: nat)
    requires Forest(parent, rank) && a in parent && b in parent && parent[a] == a && parent[b] == b && a != b
    requires y in parent && Forest(parent[a := b], Raised(parent, rank, a, b))
    ensures Roots(parent[a := b], Raised(parent, rank, a, b))[y] == Merged(Roots(parent, rank), a, b)[y]
  {
    LinkedRoot(parent, rank, a, b, y);
    assert Root(parent, rank, a) == a && Root(parent, rank, b) == b;
  }

  lemma Linking(parent: map<nat, nat>, rank: map<nat, nat>, a: nat, b: nat)
    requires Forest(parent, rank) && a in parent && b in parent && parent[a] == a && parent[b] == b && a != b
    ensures Forest(parent[a := b], Raised(parent, rank, a, b))
    ensures Roots(parent[a := b], Raised(parent, rank, a, b)) == Merged(Roots(parent, rank), a, b)
  {
    hide *;
    LinkedIsForest(parent, rank, a, b);
    var roots, merged := Roots(parent[a := b], Raised(parent, rank, a, b)), Merged(Roots(parent, rank), a, b);
    forall y | y in parent ensures roots[y] == merged[y] {
      LinkedAt(parent, rank, a, b, y);
    }
    assert roots.Keys == parent[a := b].Keys == merged.Keys;
  }

  /** Naming the two trees by their roots says the same. */
  lemma MergedByRoots(roots: map<nat, nat>, a: nat, b: nat)
    requires a in roots && b in roots && roots[a] in roots && roots[b] in roots
    requires roots[roots[a]] == roots[a] && roots[roots[b]] == roots[b]
    ensures Merged(roots, roots[a], roots[b]) == Merged(roots, a, b)
    ensures roots[a] == roots[b] ==> Merged(roots, a, b) == roots
  {
  }

  /** Two files have the same root exactly when the edges seen so far connect them. */
  ghost predicate Reflects(roots: map<nat, nat>, edges: set<Edge>) {
    forall x, y :: x in roots && y in roots ==> (roots[x] == roots[y] <==> Connected(edges, x, y))
  }

  lemma UnitesEdge(roots: map<nat, nat>, edges: set<Edge>, a: nat, b: nat)
    requires a in roots && b in roots && Reflects(roots, edges)
    ensures Reflects(Merged(roots, a, b), edges + {(a, b)})
  {
    hide Connected, Adjacent;
    var merged := Merged(roots, a, b);
    forall x, y | x in merged && y in merged
      ensures merged[x] == merged[y] <==> Connected(edges + {(a, b)}, x, y)
    {
      AddedEdge(edges, a, b, x, y);
      assert Connected(edges, x, y) <==> roots[x] == roots[y];
      assert Connected(edges, x, a) <==> roots[x] == roots[a];
      assert Connected(edges, b, y) <==> roots[b] == roots[y];
      assert Connected(edges, x, b) <==> roots[x] == roots[b];
      assert Connected(edges, a, y) <==> roots[a] == roots[y];
    }
  }

  lemma UnlinkedReflects(roots: map<nat, nat>)
    requires forall x :: x in roots ==> roots[x] == x
    ensures Reflects(roots, {})
  {
    forall x, y | x in roots && y in roots ensures roots[x] == roots[y] <==> Connected({}, x, y) {
      if Connected({}, x, y) {
        var p :| Walk({}, p, x, y);
        assert |p| > 1 ==> Adjacent({}, p[0], p[0 + 1]);
      } else {
        if x == y {
          ConnectedReflexive({}, x);
        }
      }
    }
  }

  class UnionFind {
    var parent: map<nat, nat>
    ghost var rank: map<nat, nat>

    ghost predicate Valid()
      reads this
    {
      Forest(parent, rank)
    }

    ghost function RootMap(): map<nat, nat>
      requires Valid()
      reads this
    {
      Roots(parent, rank)
    }

    constructor (inos: set<nat>)
      ensures Valid() && parent.Keys == inos && Reflects(RootMap(), {})
    {
      parent := map i | i in inos :: i;
      rank := map i | i in inos :: 0;
      new;
      UnlinkedReflects(RootMap());
    }

    /** The root of x; the whole path to it ends up pointing straight at it. */
    method Find(x: nat) returns (r: nat)
      requires Valid() && x in parent
      modifies this
      ensures Valid() && RootMap() == old(RootMap()) && r == RootMap()[x]
      ensures parent.Keys == old(parent.Keys) && rank == old(rank) && parent[x] == r
      ensures r in parent && RootMap()[r] == r
      decreases rank[x]
    {
      hide Roots;
      RootMapAt(x);
      if parent[x] == x {
        return x;
      }
      RootMapAt(parent[x]);
      var p := Find(parent[x]);
      RootMapAt(x);
      Compression(parent, rank, x);
      parent := parent[x := p];
      r := p;
    }

    lemma RootMapAt(x: nat)
      requires Valid() && x in parent
      ensures x in RootMap() && RootMap()[x] == Root(parent, rank, x)
      ensures parent[x] == x <==> RootMap()[x] == x
      ensures parent[x] != x ==> parent[x] in parent && rank[parent[x]] < rank[x]
      ensures parent[x] != x ==> RootMap()[x] == Root(parent, rank, parent[x])
    {
      assert Hangs(parent, rank, x);
    }

    /** Hangs the tree of a below the root of b. */
    method Union(a: nat, b: nat)
      requires Valid() && a in parent && b in parent
      modifies this
      ensures Valid() && RootMap() == Merged(old(RootMap()), a, b) && parent.Keys == old(parent.Keys)
    {
      hide Root, Roots, Merged, Forest, Raised, Hangs;
      var ra := Find(a);
      var rb := Find(b);
      MergedByRoots(RootMap(), a, b);
      if ra != rb {
        RootMapAt(ra);
        RootMapAt(rb);
        Linking(parent, rank, ra, rb);
        ghost var raised := Raised(parent, rank, ra, rb);
        parent := parent[ra := rb];
        rank := raised;
      }
    }
  }

  // ----- Projects -----

  /** Everything known that is connected with x. */
  ghost function Component(inos: set<nat>, edges: set<Edge>, x: nat): set<nat> {
    set y | y in inos && Connected(edges, x, y)
  }

  ghost function Projects(inos: set<nat>, edges: set<Edge>): set<set<nat>> {
    set x | x in inos && |Component(inos, edges, x)| >= 2 :: Component(inos, edges, x)
  }

  predicate Known(inos: set<nat>, e: Edge) {
    e.0 in inos && e.1 in inos
  }

  lemma ConnectedToKnown(inos: set<nat>, edges: set<Edge>, roots: map<nat, nat>, x: nat)
    requires roots.Keys == inos && Reflects(roots, edges) && x in inos
    ensures Component(inos, edges, x) == set y | y in inos && roots[y] == roots[x]
  {
    hide Connected;
  }

  /** The clusters formed so far: one for each root met, holding the files met under it, each once. */
  ghost predicate Grouped(clusters: map<nat, seq<nat>>, met: set<nat>, roots: map<nat, nat>) {
    && met <= roots.Keys
    && clusters.Keys == (set x | x in met :: roots[x])
    && forall r :: r in clusters ==>
         Distinct(clusters[r]) && SetOf(clusters[r]) == set x | x in met && roots[x] == r
  }

  /** The projects reported so far are the clusters of at least two files among the roots visited. */
  ghost predicate Reported(projects: seq<seq<nat>>, clusters: map<nat, seq<nat>>, visited: seq<nat>) {
    && Distinct(visited) && |projects| == |visited|
    && forall i :: 0 <= i < |visited| ==>
         visited[i] in clusters && projects[i] == clusters[visited[i]] && |projects[i]| >= 2
  }

  lemma {:induction false} DistinctSize(s: seq<nat>)
    requires Distinct(s)
    ensures |SetOf(s)| == |s|
  {
    if s != [] {
      var front, last := s[..|s| - 1], s[|s| - 1];
      DistinctSize(front);
      assert s == front + [last];
      assert SetOf(s) == SetOf(front) + {last};
    }
  }

  lemma OneMoreGrouped(clusters: map<nat, seq<nat>>, met: set<nat>, roots: map<nat, nat>, x: nat)
    requires Grouped(clusters, met, roots) && x in roots && x !in met
    ensures var r := roots[x];
            var group := if r in clusters then clusters[r] else [];
            Grouped(clusters[r := group + [x]], met + {x}, roots)
  {
    var r := roots[x];
    var group := if r in clusters then clusters[r] else [];
    assert SetOf(group) == set y | y in met && roots[y] == r;
    assert SetOf(group + [x]) == SetOf(group) + {x};
    assert x !in SetOf(group);
    var more := clusters[r := group + [x]];
    forall q | q in more && q != r
      ensures (set y | y in met + {x} && roots[y] == q) == set y | y in met && roots[y] == q
    {
    }
  }

  /** The cluster of a visited root is the component of any file under it. */
  lemma ClusterIsComponent(inos: set<nat>, edges: set<Edge>, roots: map<nat, nat>, clusters: map<nat, seq<nat>>, x: nat)
    requires roots.Keys == inos && Reflects(roots, edges) && Grouped(clusters, inos, roots) && x in inos
    ensures roots[x] in clusters && SetOf(clusters[roots[x]]) == Component(inos, edges, x)
    ensures |clusters[roots[x]]| == |Component(inos, edges, x)|
  {
    ConnectedToKnown(inos, edges, roots, x);
    DistinctSize(clusters[roots[x]]);
  }

  lemma ReportedAreComponents(inos: set<nat>, edges: set<Edge>, roots: map<nat, nat>, clusters: map<nat, seq<nat>>,
                              projects: seq<seq<nat>>, visited: seq<nat>)
    requires roots.Keys == inos && Reflects(roots, edges) && Grouped(clusters, inos, roots)
    requires Reported(projects, clusters, visited)
    requires forall r :: r in clusters && |clusters[r]| >= 2 ==> r in visited
    ensures (set g | g in projects :: SetOf(g)) == Projects(inos, edges)
  {
    hide Component, Reflects;
    var found := set g | g in projects :: SetOf(g);
    forall c | c in found ensures c in Projects(inos, edges) {
      var i :| 0 <= i < |projects| && SetOf(projects[i]) == c;
      var x :| x in inos && roots[x] == visited[i];
      ClusterIsComponent(inos, edges, roots, clusters, x);
    }
    forall c | c in Projects(inos, edges) ensures c in found {
      var x :| x in inos && |Component(inos, edges, x)| >= 2 && c == Component(inos, edges, x);
      ClusterIsComponent(inos, edges, roots, clusters, x);
      var i :| 0 <= i < |visited| && visited[i] == roots[x];
      assert projects[i] in projects;
    }
  }

  lemma ReportedAreDisjoint(inos: set<nat>, roots: map<nat, nat>, clusters: map<nat, seq<nat>>,
                            projects: seq<seq<nat>>, visited: seq<nat>)
    requires Grouped(clusters, inos, roots) && Reported(projects, clusters, visited)
    ensures forall g :: g in projects ==> Distinct(g)
    ensures forall i, j :: 0 <= i < j < |projects| ==> SetOf(projects[i]) !! SetOf(projects[j])
  {
    hide Distinct;
    forall i, j | 0 <= i < j < |projects| ensures SetOf(projects[i]) !! SetOf(projects[j]) {
      assert visited[i] != visited[j] by {
        DistinctAt(visited, i, j);
      }
    }
  }

  lemma DistinctAt(s: seq<nat>, i: nat, j: nat)
    requires Distinct(s) && i < j < |s|
    ensures s[i] != s[j]
  {
  }

  /** Unites the ends of every strong pair, unless one of them is unknown. */
  method UniteAll(forest: UnionFind, coAccess: map<Edge, nat>) returns (known: bool)
    requires forest.Valid() && Reflects(forest.RootMap(), {})
    modifies forest
    ensures forest.Valid() && forest.parent.Keys == old(forest.parent.Keys)
    ensures known <==> forall e :: e in StrongPairs(coAccess) ==> Known(forest.parent.Keys, e)
    ensures known ==> Reflects(forest.RootMap(), StrongPairs(coAccess))
  {
    hide Reflects, Merged, Roots, Forest;
    var todo := coAccess.Keys;
    ghost var done: set<Edge> := {};
    while todo != {}
      invariant todo <= coAccess.Keys && done == StrongPairs(coAccess) - todo
      invariant forest.Valid() && forest.parent.Keys == old(forest.parent.Keys)
      invariant Reflects(forest.RootMap(), done)
      invariant forall e :: e in done ==> Known(forest.parent.Keys, e)
      decreases |todo|
    {
      var e :| e in todo;
      if coAccess[e] >= CO_THRESHOLD {
        if !Known(forest.parent.Keys, e) {
          return false;
        }
        UnitesEdge(forest.RootMap(), done, e.0, e.1);
        forest.Union(e.0, e.1);
        done := done + {e};
      }
      todo := todo - {e};
    }
    assert done == StrongPairs(coAccess);
    known := true;
  }

  method GroupByRoot(forest: UnionFind) returns (clusters: map<nat, seq<nat>>)
    requires forest.Valid()
    modifies forest
    ensures forest.Valid() && forest.RootMap() == old(forest.RootMap())
    ensures Grouped(clusters, forest.parent.Keys, forest.RootMap()) && forest.parent.Keys == old(forest.parent.Keys)
  {
    hide Grouped, Roots, Forest;
    clusters := map[];
    var todo := forest.parent.Keys;
    ghost var met: set<nat> := {};
    NoneGrouped(forest.RootMap());
    while todo != {}
      invariant forest.Valid() && forest.RootMap() == old(forest.RootMap())
      invariant forest.parent.Keys == old(forest.parent.Keys) == met + todo && met !! todo
      invariant Grouped(clusters, met, forest.RootMap())
      decreases |todo|
    {
      var x :| x in todo;
      var root := forest.Find(x);
      OneMoreGrouped(clusters, met, forest.RootMap(), x);
      clusters := clusters[root := (if root in clusters then clusters[root] else []) + [x]];
      met, todo := met + {x}, todo - {x};
    }
    assert met == forest.parent.Keys;
  }

  lemma NoneGrouped(roots: map<nat, nat>)
    ensures Grouped(map[], {}, roots)
  {
  }

  /** Drops the clusters of a single file. */
  method KeepProjects(clusters: map<nat, seq<nat>>) returns (projects: seq<seq<nat>>, ghost visited: seq<nat>)
    ensures Reported(projects, clusters, visited)
    ensures forall r :: r in clusters && |clusters[r]| >= 2 ==> r in visited
  {
    projects, visited := [], [];
    var todo := clusters.Keys;
    while todo != {}
      invariant todo <= clusters.Keys && Reported(projects, clusters, visited)
      invariant forall r :: r in clusters && |clusters[r]| >= 2 ==> r in todo || r in visited
      invariant forall r :: r in visited ==> r !in todo
      decreases |todo|
    {
      var root :| root in todo;
      if |clusters[root]| >= 2 {
        projects, visited := projects + [clusters[root]], visited + [root];
      }
      todo := todo - {root};
    }
  }

  lemma SizeOfSet(g: seq<nat>)
    ensures |SetOf(g)| <= |g|
  {
    if g != [] {
      SizeOfSet(g[1..]);
      assert SetOf(g) == SetOf(g[1..]) + {g[0]};
    }
  }

  lemma AtLeastTwo(s: set<nat>, x: nat, y: nat)
    requires x in s && y in s && x != y
    ensures |s| >= 2
  {
    assert |s - {x}| >= 1 by {
      assert y in s - {x};
    }
  }

  /** Without a strong pair every file is alone. */
  lemma Alone(inos: set<nat>, x: nat)
    requires x in inos
    ensures Component(inos, {}, x) == {x}
  {
    hide Walk, Adjacent;
    ConnectedReflexive({}, x);
    forall y | Connected({}, x, y) ensures y == x {
      var p :| Walk({}, p, x, y);
      FirstStep({}, p, x, y);
      NoEdges();
    }
  }

  lemma FirstStep(edges: set<Edge>, p: seq<nat>, x: nat, y: nat)
    requires Walk(edges, p, x, y)
    ensures x == y || exists z :: Adjacent(edges, x, z)
  {
    if |p| > 1 {
      assert Adjacent(edges, p[0], p[0 + 1]);
    }
  }

  lemma NoEdges()
    ensures forall a, b :: !Adjacent({}, a, b)
  {
  }

  /** What the groups mean for single pairs. */
  lemma StrongMeet(inos: set<nat>, coAccess: map<Edge, nat>, groups: seq<seq<nat>>)
    requires (set g | g in groups :: SetOf(g)) == Projects(inos, StrongPairs(coAccess))
    ensures forall x, y :: x in inos && y in inos && x != y && (x, y) in coAccess && coAccess[(x, y)] >= 3 ==>
              exists g :: g in groups && x in g && y in g
    ensures (forall e :: e in coAccess ==> coAccess[e] < 3) ==> groups == []
    ensures forall g :: g in groups ==> |g| >= 2
  {
    var edges := StrongPairs(coAccess);
    hide Connected, Walk;
    forall x, y | x in inos && y in inos && x != y && (x, y) in coAccess && coAccess[(x, y)] >= 3
      ensures exists g :: g in groups && x in g && y in g
    {
      assert (x, y) in edges;
      ConnectedByEdge(edges, x, y);
      ConnectedReflexive(edges, x);
      AtLeastTwo(Component(inos, edges, x), x, y);
      assert Component(inos, edges, x) in Projects(inos, edges);
      var g :| g in groups && SetOf(g) == Component(inos, edges, x);
      assert x in SetOf(g) && y in SetOf(g);
    }
    forall g | g in groups ensures |g| >= 2 {
      assert SetOf(g) in Projects(inos, edges);
      SizeOfSet(g);
    }
    assert groups == [] || SetOf(groups[0]) in Projects(inos, edges);
    if forall e :: e in coAccess ==> coAccess[e] < 3 {
      assert edges == {};
      forall x | x in inos ensures |Component(inos, edges, x)| == 1 {
        Alone(inos, x);
      }
      assert Projects(inos, edges) == {};
    }
  }

  /** The projects are exactly the connected components of at least two files, whatever order the maps are walked
      in. None stands for the panic on a pair that names an unknown file. */
  method DiscoverProjects(coAccess: map<Edge, nat>, accessCounts: set<nat>) returns (r: Option<seq<seq<nat>>>)
    ensures r.None? <==> accessCounts != {} && exists e :: e in StrongPairs(coAccess) && !Known(accessCounts, e)
    ensures r.Some? ==> (set g | g in r.value :: SetOf(g)) == Projects(accessCounts, StrongPairs(coAccess))
    // Two known files that met three times are in one group; where no pair met three times there is none.
    ensures r.Some? ==> forall x, y :: x in accessCounts && y in accessCounts && x != y
                                       && (x, y) in coAccess && coAccess[(x, y)] >= 3 ==>
                          exists g :: g in r.value && x in g && y in g
    ensures (forall e :: e in coAccess ==> coAccess[e] < 3) ==> r == Some([])
    ensures r.Some? ==> forall g :: g in r.value ==> Distinct(g) && |g| >= 2
    ensures r.Some? ==> forall i, j :: 0 <= i < j < |r.value| ==> SetOf(r.value[i]) !! SetOf(r.value[j])
  {
    hide Grouped, Reported, Reflects, Connected, Component, Roots, Forest;
    if accessCounts == {} {
      return Some([]);
    }
    var forest := new UnionFind(accessCounts);
    var known := UniteAll(forest, coAccess);
    if !known {
      return None;
    }
    var clusters := GroupByRoot(forest);
    var projects, visited := KeepProjects(clusters);
    ReportedAreComponents(accessCounts, StrongPairs(coAccess), forest.RootMap(), clusters, projects, visited);
    ReportedAreDisjoint(accessCounts, forest.RootMap(), clusters, projects, visited);
    StrongMeet(accessCounts, coAccess, projects);
    r := Some(projects);
  }
}
