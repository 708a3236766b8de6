/** The namespace (src/fuse/mod.rs): create, mkdir, unlink, rmdir and rename over the index and the file table. */
module Namespace {
  import opened Bytes
  import opened Keys
  import opened BPlusTree

  const ROOT_INO: nat := 1

  /** A row of the file table. */
  datatype VexFile = VexFile(name: string, isDir: bool, diskIndex: nat, parentIno: nat)

  type Table = map<nat, VexFile>
  type Index = map<Key, Value>

  datatype Errno = ENOENT | ENOTDIR | EEXIST | ENOSPC | ENOTEMPTY
  datatype Reply = Done | Created(ino: nat) | Failed(error: Errno)

  // ----- What the index and the table agree on -----

  /** The table has the entry's inode, under the same name, parent, kind and disk slot. */
  predicate Recorded(k: Key, v: Value, files: Table) {
    && v.ino in files && files[v.ino].name == k.name && files[v.ino].parentIno == k.parent
    && files[v.ino].isDir == v.isDir && files[v.ino].diskIndex == v.diskIndex
  }

  ghost predicate Agree(index: Index, files: Table) {
    forall k :: k in index ==> Recorded(k, index[k], files)
  }

  /** Inode numbers are never the root's and lie below the next one to be given out. */
  ghost predicate Numbered(files: Table, next: nat) {
    next > ROOT_INO && forall i :: i in files ==> ROOT_INO < i < next
  }

  ghost predicate OwnSlots(files: Table) {
    forall i, j :: i in files && j in files && files[i].diskIndex == files[j].diskIndex ==> i == j
  }

  /** No record holds the disk slot. */
  ghost predicate Unheld(files: Table, slot: nat) {
    forall i :: i in files ==> files[i].diskIndex != slot
  }

  lemma NoInodeUnderTwoKeys(index: Index, files: Table, a: Key, b: Key)
    requires Agree(index, files) && a in index && b in index && index[a].ino == index[b].ino
    ensures a == b
  {
    assert Recorded(a, index[a], files) && Recorded(b, index[b], files);
  }

  // ----- The tree of directories -----

  /** The directories of the table, each with its parent. */
  function Dirs(files: Table): map<nat, nat> {
    map i | i in files && files[i].isDir :: files[i].parentIno
  }

  predicate IsDirectory(files: Table, d: nat) {
    d == ROOT_INO || (d in files && files[d].isDir)
  }

  /** Following parents from `d` meets the root within `n` steps. */
  ghost predicate Climbs(dirs: map<nat, nat>, d: nat, n: nat)
    decreases n
  {
    d == ROOT_INO || (n > 0 && d in dirs && Climbs(dirs, dirs[d], n - 1))
  }

  ghost predicate Arrives(dirs: map<nat, nat>, d: nat) {
    exists n: nat :: Climbs(dirs, d, n)
  }

  ghost predicate Rooted(dirs: map<nat, nat>) {
    forall d :: d in dirs ==> Arrives(dirs, d)
  }

  /** `d` is `m` or lies below it: following parents from `d` meets `m` within `n` steps. */
  ghost predicate Under(dirs: map<nat, nat>, d: nat, m: nat, n: nat)
    decreases n
  {
    d == m || (n > 0 && d in dirs && Under(dirs, dirs[d], m, n - 1))
  }

  ghost predicate Below(dirs: map<nat, nat>, d: nat, m: nat) {
    exists n: nat :: Under(dirs, d, m, n)
  }

  /** Every entry lies in the root or in a directory that leads to the root, and no directory has lost its entry. */
  ghost predicate IsTree(index: Index, files: Table) {
    && Rooted(Dirs(files))
    && (forall k :: k in index ==> IsDirectory(files, k.parent))
    && (forall d :: d in files && files[d].isDir ==>
          Key(files[d].parentIno, files[d].name) in index && index[Key(files[d].parentIno, files[d].name)].ino == d)
  }

  lemma {:induction false} ClimbsInMore(dirs: map<nat, nat>, more: map<nat, nat>, d: nat, n: nat)
    requires Climbs(dirs, d, n) && forall e :: e in dirs ==> e in more && more[e] == dirs[e]
    ensures Climbs(more, d, n)
    decreases n
  {
    if d != ROOT_INO {
      ClimbsInMore(dirs, more, dirs[d], n - 1);
    }
  }

  /** A climb that never meets `m` is not disturbed by what becomes of `m`. */
  lemma {:induction false} ClimbsAround(dirs: map<nat, nat>, other: map<nat, nat>, m: nat, d: nat, n: nat)
    requires Climbs(dirs, d, n) && !Below(dirs, d, m)
    requires forall e :: e in dirs && e != m ==> e in other && other[e] == dirs[e]
    ensures Climbs(other, d, n)
    decreases n
  {
    if d != ROOT_INO {
      assert !Under(dirs, d, m, 0);
      forall j: nat ensures !Under(dirs, dirs[d], m, j) {
        assert !Under(dirs, d, m, j + 1);
      }
      ClimbsAround(dirs, other, m, dirs[d], n - 1);
    }
  }

  /** Nothing that lies below `m` climbs to the root once `m` hangs below itself. */
  lemma {:induction false} CycleNeverClimbs(dirs: map<nat, nat>, m: nat, np: nat, d: nat, j: nat, n: nat)
    requires ROOT_INO !in dirs && m in dirs && Below(dirs, np, m) && Under(dirs, d, m, j)
    ensures !Climbs(dirs[m := np], d, n)
    decreases n
  {
    if n > 0 {
      if d == m {
        var i: nat :| Under(dirs, np, m, i);
        CycleNeverClimbs(dirs, m, np, np, i, n - 1);
      } else {
        CycleNeverClimbs(dirs, m, np, dirs[d], j - 1, n - 1);
      }
    }
  }

  lemma {:induction false} MovedClimbs(dirs: map<nat, nat>, m: nat, np: nat, d: nat, n: nat)
    requires Climbs(dirs, d, n) && m in dirs && Arrives(dirs[m := np], np)
    ensures Arrives(dirs[m := np], d)
    decreases n
  {
    var moved := dirs[m := np];
    if d == ROOT_INO {
      assert Climbs(moved, d, 0);
    } else if d == m {
      var i: nat :| Climbs(moved, np, i);
      assert Climbs(moved, d, i + 1);
    } else {
      MovedClimbs(dirs, m, np, dirs[d], n - 1);
      var i: nat :| Climbs(moved, dirs[d], i);
      assert Climbs(moved, d, i + 1);
    }
  }

  /** A directory can be hung elsewhere exactly when the new place does not lie below it. */
  lemma Reparented(dirs: map<nat, nat>, m: nat, np: nat)
    requires Rooted(dirs) && ROOT_INO !in dirs && m in dirs && (np == ROOT_INO || np in dirs)
    ensures Rooted(dirs[m := np]) <==> !Below(dirs, np, m)
  {
    var moved := dirs[m := np];
    if Below(dirs, np, m) {
      forall n: nat ensures !Climbs(moved, m, n) {
        CycleNeverClimbs(dirs, m, np, m, 0, n);
      }
      assert m in moved && !Arrives(moved, m);
    } else {
      assert Climbs(dirs, np, 0) || np in dirs;
      var n: nat :| Climbs(dirs, np, n);
      ClimbsAround(dirs, moved, m, np, n);
      forall d | d in moved ensures Arrives(moved, d) {
        var j: nat :| Climbs(dirs, d, j);
        MovedClimbs(dirs, m, np, d, j);
      }
    }
  }

  lemma {:induction false} ChildlessHasNoneBelow(dirs: map<nat, nat>, d: nat, m: nat, n: nat)
    requires Under(dirs, d, m, n) && forall e :: e in dirs ==> dirs[e] != m
    ensures d == m
    decreases n
  {
    if d != m {
      ChildlessHasNoneBelow(dirs, dirs[d], m, n - 1);
    }
  }

  lemma {:induction false} OwnParentNeverClimbs(dirs: map<nat, nat>, d: nat, n: nat)
    requires d != ROOT_INO && d in dirs && dirs[d] == d
    ensures !Climbs(dirs, d, n)
    decreases n
  {
    if n > 0 {
      OwnParentNeverClimbs(dirs, d, n - 1);
    }
  }

  // ----- What each operation does to index and table -----

  function NewFile(k: Key, isDir: bool, slot: nat): VexFile {
    VexFile(k.name, isDir, slot, k.parent)
  }

  lemma AddedStaysTree(index: Index, files: Table, next: nat, k: Key, isDir: bool, slot: nat)
    requires IsTree(index, files) && Agree(index, files) && Numbered(files, next)
    requires IsDirectory(files, k.parent) && k !in index
    ensures IsTree(index[k := Value(next, 0, isDir, slot)], files[next := NewFile(k, isDir, slot)])
  {
    hide Climbs, Agree;
    var index', files' := index[k := Value(next, 0, isDir, slot)], files[next := NewFile(k, isDir, slot)];
    assert next !in files;
    AddedStaysRooted(files, next, k, isDir, slot);
    assert Rooted(Dirs(files')) && (forall c :: c in index' ==> IsDirectory(files', c.parent));
    forall d | d in files' && files'[d].isDir
      ensures Key(files'[d].parentIno, files'[d].name) in index'
              && index'[Key(files'[d].parentIno, files'[d].name)].ino == d
    {
      assert d != next ==> Key(files[d].parentIno, files[d].name) in index;
    }
  }

  lemma AddedStaysRooted(files: Table, next: nat, k: Key, isDir: bool, slot: nat)
    requires Rooted(Dirs(files)) && next !in files && IsDirectory(files, k.parent)
    ensures Rooted(Dirs(files[next := NewFile(k, isDir, slot)]))
  {
    hide Climbs;
    var dirs, dirs' := Dirs(files), Dirs(files[next := NewFile(k, isDir, slot)]);
    assert forall e :: e in dirs ==> e in dirs' && dirs'[e] == dirs[e];
    forall d | d in dirs ensures Arrives(dirs', d) {
      var n: nat :| Climbs(dirs, d, n);
      ClimbsInMore(dirs, dirs', d, n);
    }
    if isDir {
      NewLeafClimbs(dirs', next);
    }
  }

  lemma NewLeafClimbs(dirs: map<nat, nat>, d: nat)
    requires d in dirs && (dirs[d] == ROOT_INO || Arrives(dirs, dirs[d]))
    ensures Arrives(dirs, d)
  {
    if dirs[d] == ROOT_INO {
      assert Climbs(dirs, dirs[d], 0);
    }
    var n: nat :| Climbs(dirs, dirs[d], n);
    assert Climbs(dirs, d, n + 1);
  }

  /** Removing an entry keeps the tree exactly when nothing lies in it. */
  lemma RemovedStaysTree(index: Index, files: Table, next: nat, k: Key)
    requires IsTree(index, files) && Agree(index, files) && Numbered(files, next) && k in index
    ensures IsTree(index - {k}, files - {index[k].ino}) <==> forall c :: c in index ==> c.parent != index[k].ino
  {
    hide Climbs;
    var ino := index[k].ino;
    assert Recorded(k, index[k], files);
    var dirs, dirs' := Dirs(files), Dirs(files - {ino});
    if c :| c in index && c.parent == ino {
      if c == k {
        assert ino in dirs && Arrives(dirs, ino);
        var n: nat :| Climbs(dirs, ino, n);
        OwnParentNeverClimbs(dirs, ino, n);
        assert false;
      } else {
        assert c in index - {k};
      }
    } else {
      assert forall e :: e in dirs ==> Key(files[e].parentIno, files[e].name) in index;
      forall d | d in dirs' ensures Arrives(dirs', d) {
        assert d in dirs && Arrives(dirs, d);
        var n: nat :| Climbs(dirs, d, n);
        forall j: nat ensures !Under(dirs, d, ino, j) {
          if Under(dirs, d, ino, j) {
            ChildlessHasNoneBelow(dirs, d, ino, j);
          }
        }
        ClimbsAround(dirs, dirs', ino, d, n);
      }
      RemovedEntries(index, files, k);
    }
  }

  lemma RemovedEntries(index: Index, files: Table, k: Key)
    requires IsTree(index, files) && Agree(index, files) && k in index
    requires forall c :: c in index ==> c.parent != index[k].ino
    ensures var rest := files - {index[k].ino};
            && (forall c :: c in index - {k} ==> IsDirectory(rest, c.parent))
            && (forall d :: d in rest && rest[d].isDir ==>
                 Key(rest[d].parentIno, rest[d].name) in index - {k}
                 && index[Key(rest[d].parentIno, rest[d].name)].ino == d)
  {
    hide Rooted;
  }

  function MovedIndex(index: Index, from: Key, to: Key): Index
    requires from in index
  {
    (index - {from})[to := index[from]]
  }

  function MovedTable(files: Table, ino: nat, to: Key): Table {
    if ino in files then files[ino := files[ino].(name := to.name, parentIno := to.parent)] else files
  }

  /** The target directory is one, does not lie in what is moved, and the target name does not hide a directory. */
  ghost predicate MoveFits(index: Index, files: Table, from: Key, to: Key)
    requires from in index
  {
    && IsDirectory(files, to.parent)
    && (index[from].isDir ==> !Below(Dirs(files), to.parent, index[from].ino))
    && (to in index && to != from ==> !index[to].isDir)
  }

  /** Renaming keeps the tree exactly when the move fits. */
  lemma MovedStaysTree(index: Index, files: Table, next: nat, from: Key, to: Key)
    requires IsTree(index, files) && Agree(index, files) && Numbered(files, next) && from in index
    ensures IsTree(MovedIndex(index, from, to), MovedTable(files, index[from].ino, to))
            <==> MoveFits(index, files, from, to)
  {
    hide Rooted, Below;
    var v := index[from];
    assert Recorded(from, v, files);
    var index', files' := MovedIndex(index, from, to), MovedTable(files, v.ino, to);
    assert to in index';
    if IsDirectory(files, to.parent) {
      MovedDirs(index, files, next, from, to);
    }
    MovedEntries(index, files, from, to);
  }

  lemma MovedDirs(index: Index, files: Table, next: nat, from: Key, to: Key)
    requires IsTree(index, files) && Agree(index, files) && Numbered(files, next) && from in index
    requires IsDirectory(files, to.parent)
    ensures Rooted(Dirs(MovedTable(files, index[from].ino, to)))
            <==> (index[from].isDir ==> !Below(Dirs(files), to.parent, index[from].ino))
  {
    var v := index[from];
    assert Recorded(from, v, files);
    var dirs, dirs' := Dirs(files), Dirs(MovedTable(files, v.ino, to));
    if v.isDir {
      assert dirs' == dirs[v.ino := to.parent];
      Reparented(dirs, v.ino, to.parent);
    } else {
      assert dirs' == dirs;
    }
  }

  lemma MovedEntries(index: Index, files: Table, from: Key, to: Key)
    requires IsTree(index, files) && Agree(index, files) && from in index
    ensures var index' := MovedIndex(index, from, to);
            var files' := MovedTable(files, index[from].ino, to);
            && ((forall k :: k in index' ==> IsDirectory(files', k.parent)) <==> IsDirectory(files, to.parent))
            && ((forall d :: d in files' && files'[d].isDir ==>
                  Key(files'[d].parentIno, files'[d].name) in index'
                  && index'[Key(files'[d].parentIno, files'[d].name)].ino == d)
                <==> (to in index && to != from ==> !index[to].isDir))
  {
    hide Rooted;
    var v := index[from];
    assert Recorded(from, v, files);
    var index', files' := MovedIndex(index, from, to), MovedTable(files, v.ino, to);
    assert to in index';
    if to in index && to != from && index[to].isDir {
      var d := index[to].ino;
      assert Recorded(to, index[to], files);
      assert d in files' && files'[d].isDir && d != v.ino;
    }
  }

  /** What every operation keeps: the index agrees with the table, and inode numbers are fresh. */
  ghost predicate Consistent(index: Index, files: Table, next: nat) {
    Agree(index, files) && Numbered(files, next)
  }

  lemma AddedStaysConsistent(index: Index, files: Table, next: nat, k: Key, isDir: bool, slot: nat)
    requires Consistent(index, files, next)
    ensures next !in files
    ensures Consistent(index[k := Value(next, 0, isDir, slot)], files[next := NewFile(k, isDir, slot)], next + 1)
    ensures OwnSlots(files) ==> (OwnSlots(files[next := NewFile(k, isDir, slot)]) <==> Unheld(files, slot))
  {
    var more := files[next := NewFile(k, isDir, slot)];
    if i :| i in files && files[i].diskIndex == slot {
      assert more[i].diskIndex == more[next].diskIndex && i != next;
    } else if OwnSlots(files) {
      forall i, j | i in more && j in more && more[i].diskIndex == more[j].diskIndex ensures i == j {
        assert i != next && j != next ==> files[i].diskIndex == files[j].diskIndex;
        assert i in files ==> files[i].diskIndex != slot;
        assert j in files ==> files[j].diskIndex != slot;
      }
    }
    forall c | c in index && c != k ensures Recorded(c, index[c], files[next := NewFile(k, isDir, slot)]) {
      assert Recorded(c, index[c], files);
    }
  }

  lemma RemovedStaysConsistent(index: Index, files: Table, next: nat, k: Key)
    requires Consistent(index, files, next) && k in index
    ensures Recorded(k, index[k], files) && Consistent(index - {k}, files - {index[k].ino}, next)
    ensures OwnSlots(files) ==>
              OwnSlots(files - {index[k].ino}) && Unheld(files - {index[k].ino}, files[index[k].ino].diskIndex)
  {
    assert Recorded(k, index[k], files);
    forall c | c in index && c != k ensures Recorded(c, index[c], files - {index[k].ino}) {
      assert Recorded(c, index[c], files);
    }
  }

  lemma MovedStaysConsistent(index: Index, files: Table, next: nat, from: Key, to: Key)
    requires Consistent(index, files, next) && from in index
    ensures Recorded(from, index[from], files)
    ensures Consistent(MovedIndex(index, from, to), MovedTable(files, index[from].ino, to), next)
    ensures OwnSlots(files) ==> OwnSlots(MovedTable(files, index[from].ino, to))
  {
    assert Recorded(from, index[from], files);
    var moved, table := MovedIndex(index, from, to), MovedTable(files, index[from].ino, to);
    forall c | c in moved ensures Recorded(c, moved[c], table) {
      if c != to {
        assert Recorded(c, index[c], files);
      }
    }
  }

  lemma KeepsOnAdding(index: Index, files: Table, next: nat, k: Key, isDir: bool, slot: nat)
    requires Consistent(index, files, next) && IsDirectory(files, k.parent) && k !in index
    ensures next !in files
    ensures OwnSlots(files) ==> (OwnSlots(files[next := NewFile(k, isDir, slot)]) <==> Unheld(files, slot))
    ensures var index', files' := index[k := Value(next, 0, isDir, slot)], files[next := NewFile(k, isDir, slot)];
            Consistent(index', files', next + 1) && (IsTree(index, files) ==> IsTree(index', files'))
  {
    hide IsTree;
    AddedStaysConsistent(index, files, next, k, isDir, slot);
    if IsTree(index, files) {
      AddedStaysTree(index, files, next, k, isDir, slot);
    }
  }

  lemma KeepsOnRemoving(index: Index, files: Table, next: nat, k: Key)
    requires Consistent(index, files, next)
    ensures k !in index ==> index - {k} == index
    ensures k in index ==>
              var ino := index[k].ino;
              && ino in files && files[ino].isDir == index[k].isDir
              && Consistent(index - {k}, files - {ino}, next)
              && (OwnSlots(files) ==> OwnSlots(files - {ino}) && Unheld(files - {ino}, files[ino].diskIndex))
              && (IsTree(index, files) ==>
                   (IsTree(index - {k}, files - {ino}) <==> forall c :: c in index ==> c.parent != ino))
  {
    hide IsTree;
    if k in index {
      RemovedStaysConsistent(index, files, next, k);
      if IsTree(index, files) {
        RemovedStaysTree(index, files, next, k);
      }
    }
  }

  lemma KeepsOnMoving(index: Index, files: Table, next: nat, from: Key, to: Key)
    requires Consistent(index, files, next)
    ensures from !in index ==> index - {from} == index
    ensures from in index ==>
              var index', files' := MovedIndex(index, from, to), MovedTable(files, index[from].ino, to);
              && index[from].ino in files && Consistent(index', files', next) && (OwnSlots(files) ==> OwnSlots(files'))
              && (IsTree(index, files) ==> (IsTree(index', files') <==> MoveFits(index, files, from, to)))
  {
    hide IsTree, MoveFits;
    if from in index {
      MovedStaysConsistent(index, files, next, from, to);
      if IsTree(index, files) {
        MovedStaysTree(index, files, next, from, to);
      }
    }
  }

  // ----- The handlers -----

  class VexFs {
    const index: BPlusTree
    var files: Table
    var nextInode: nat

    /** The entries (parent, name) -> inode. */
    ghost function Entries(): Index
      reads this, index
    {
      index.Contents()
    }

    ghost predicate Valid()
      reads this, index
    {
      && index.Valid() && Consistent(Entries(), files, nextInode)
    }

    constructor ()
      ensures Valid() && fresh(index) && Entries() == map[] && files == map[] && IsTree(Entries(), files)
              && OwnSlots(files)
      ensures nextInode == ROOT_INO + 1
    {
      index := new BPlusTree();
      files, nextInode := map[], ROOT_INO + 1;
    }

    /** The error a handler gives when `parent` cannot take a new entry. */
    function ParentError(parent: nat): (r: Option<Errno>)
      reads this
      ensures r.None? <==> IsDirectory(files, parent)
      ensures r == Some(ENOTDIR) <==> parent != ROOT_INO && parent in files && !files[parent].isDir
      ensures r == Some(ENOENT) <==> parent != ROOT_INO && parent !in files
    {
      if parent == ROOT_INO then None
      else if parent in files then if files[parent].isDir then None else Some(ENOTDIR)
      else Some(ENOENT)
    }

    /** Makes a file or a directory. `slot` is what the disk answers when asked for a free inode slot. */
    method Make(parent: nat, name: string, isDir: bool, slot: Option<nat>) returns (reply: Reply)
      requires Valid()
      modifies this, index
      ensures Valid()
      ensures reply == if old(ParentError(parent)).Some? then Failed(old(ParentError(parent)).value)
                       else if Key(parent, name) in old(Entries()) then Failed(EEXIST)
                       else if slot.None? then Failed(ENOSPC) else Created(old(nextInode))
      ensures reply.Failed? ==> Entries() == old(Entries()) && files == old(files) && nextInode == old(nextInode)
      ensures reply.Created? ==>
                && Entries() == old(Entries())[Key(parent, name) := Value(reply.ino, 0, isDir, slot.value)]
                && files == old(files)[reply.ino := NewFile(Key(parent, name), isDir, slot.value)]
                && reply.ino !in old(files) && nextInode == reply.ino + 1
      // No two records share a disk slot as long as the disk hands out none that a record holds.
      ensures reply.Created? && old(OwnSlots(files)) ==> (OwnSlots(files) <==> old(Unheld(files, slot.value)))
      ensures old(IsTree(Entries(), files)) ==> IsTree(Entries(), files)
    {
      hide Consistent, Recorded, Unheld, OwnSlots, IsTree, MoveFits, BPlusTree.Valid, BPlusTree.Contents, BPlusTree.Get;
      var problem := ParentError(parent);
      if problem.Some? {
        return Failed(problem.value);
      }
      if index.Get(parent, name).Some? {
        return Failed(EEXIST);
      }
      if slot.None? {
        return Failed(ENOSPC);
      }
      var ino := nextInode;
      nextInode := nextInode + 1;
      KeepsOnAdding(Entries(), files, ino, Key(parent, name), isDir, slot.value);
      index.Insert(parent, name, Value(ino, 0, isDir, slot.value));
      files := files[ino := NewFile(Key(parent, name), isDir, slot.value)];
      reply := Created(ino);
    }

    /** Removes the entry and its record, whatever its kind; answers with the disk slot given back. */
    method Unlink(parent: nat, name: string) returns (reply: Reply, freed: Option<nat>)
      requires Valid()
      modifies this, index
      ensures Valid() && Entries() == old(Entries()) - {Key(parent, name)} && nextInode == old(nextInode)
      ensures reply == if Key(parent, name) in old(Entries()) then Done else Failed(ENOENT)
      ensures reply == Done ==> var ino := old(Entries())[Key(parent, name)].ino;
                                files == old(files) - {ino} && freed == Some(old(files)[ino].diskIndex)
      ensures reply != Done ==> files == old(files) && freed == None
      ensures old(OwnSlots(files)) ==> OwnSlots(files) && (freed.Some? ==> Unheld(files, freed.value))
      ensures old(IsTree(Entries(), files)) && reply == Done ==>
                (IsTree(Entries(), files) <==>
                  forall c :: c in old(Entries()) ==> c.parent != old(Entries())[Key(parent, name)].ino)
    {
      hide Consistent, Recorded, Unheld, OwnSlots, IsTree, MoveFits, BPlusTree.Valid, BPlusTree.Contents, BPlusTree.Get;
      freed := None;
      KeepsOnRemoving(Entries(), files, nextInode, Key(parent, name));
      var removed := index.Remove(parent, name);
      if removed.Some? {
        if removed.value.ino in files {
          freed := Some(files[removed.value.ino].diskIndex);
          files := files - {removed.value.ino};
          return Done, freed;
        }
      }
      reply := Failed(ENOENT);
    }

    /** Removes a directory that lists as empty. */
    method Rmdir(parent: nat, name: string) returns (reply: Reply)
      requires Valid()
      modifies this, index
      ensures Valid() && nextInode == old(nextInode)
      ensures reply == RmdirReply(old(Entries()), Key(parent, name))
      ensures old(OwnSlots(files)) ==> OwnSlots(files)
      ensures reply == Done ==> Entries() == old(Entries()) - {Key(parent, name)}
                                && files == old(files) - {old(Entries())[Key(parent, name)].ino}
      ensures reply != Done ==> Entries() == old(Entries()) && files == old(files)
      ensures old(IsTree(Entries(), files)) && reply == Done ==>
                (IsTree(Entries(), files) <==>
                  forall c :: c in old(Entries()) ==> c.parent != old(Entries())[Key(parent, name)].ino)
    {
      hide Consistent, Recorded, Unheld, OwnSlots, IsTree, MoveFits, BPlusTree.Valid, BPlusTree.Contents, BPlusTree.Get;
      var found := index.Get(parent, name);
      if found.None? {
        return Failed(ENOENT);
      }
      if !found.value.isDir {
        return Failed(ENOTDIR);
      }
      var listed := index.ListDir(found.value.ino);
      if listed != [] {
        return Failed(ENOTEMPTY);
      }
      KeepsOnRemoving(Entries(), files, nextInode, Key(parent, name));
      var removed := index.Remove(parent, name);
      if found.value.ino in files {
        files := files - {found.value.ino};
        reply := Done;
      } else {
        reply := Failed(ENOENT);
      }
    }

    /** Moves an entry; an entry already at the target is overwritten in the index and its record stays behind. */
    method Rename(parent: nat, name: string, newParent: nat, newName: string) returns (reply: Reply)
      requires Valid()
      modifies this, index
      ensures Valid() && nextInode == old(nextInode)
      ensures reply == if (newParent != ROOT_INO && newParent !in old(files)) || Key(parent, name) !in old(Entries())
                       then Failed(ENOENT) else Done
      ensures old(OwnSlots(files)) ==> OwnSlots(files)
      ensures reply != Done ==> Entries() == old(Entries()) && files == old(files)
      ensures reply == Done ==>
                var from, to := Key(parent, name), Key(newParent, newName);
                && Entries() == MovedIndex(old(Entries()), from, to)
                && files == MovedTable(old(files), old(Entries())[from].ino, to)
                && (old(IsTree(Entries(), files)) ==>
                     (IsTree(Entries(), files) <==> old(MoveFits(Entries(), files, from, to))))
    {
      hide Consistent, Recorded, Unheld, OwnSlots, IsTree, MoveFits, BPlusTree.Valid, BPlusTree.Contents, BPlusTree.Get;
      if newParent != ROOT_INO && newParent !in files {
        return Failed(ENOENT);
      }
      ghost var from, to := Key(parent, name), Key(newParent, newName);
      KeepsOnMoving(Entries(), files, nextInode, from, to);
      var removed := index.Remove(parent, name);
      if removed.None? {
        return Failed(ENOENT);
      }
      index.Insert(newParent, newName, removed.value);
      if removed.value.ino in files {
        files := files[removed.value.ino := files[removed.value.ino].(name := newName, parentIno := newParent)];
      }
      reply := Done;
    }
  }

  /** A directory is removed exactly when each name in it sorts behind the listing's sentinel. */
  ghost function RmdirReply(index: Index, k: Key): Reply {
    if k !in index then Failed(ENOENT)
    else if !index[k].isDir then Failed(ENOTDIR)
    else if exists c :: c in index && c.parent == index[k].ino && !PastSentinel(c.name) then Failed(ENOTEMPTY)
    else Done
  }

  /** A directory can be renamed into itself, which cuts it off from the root. */
  method MovedIntoItself() returns (fs: VexFs, reply: Reply)
    ensures fresh(fs) && fs.Valid() && reply == Done && !IsTree(fs.Entries(), fs.files)
  {
    hide Consistent, IsTree, BPlusTree.Valid, BPlusTree.Contents;
    fs := new VexFs();
    var made := fs.Make(ROOT_INO, "a", true, Some(0));
    assert Under(Dirs(fs.files), made.ino, made.ino, 0);
    reply := fs.Rename(ROOT_INO, "a", made.ino, "b");
  }

  /** A directory that holds something can be unlinked, which leaves its contents without a parent. */
  method UnlinkedWhileFull() returns (fs: VexFs, reply: Reply)
    ensures fresh(fs) && fs.Valid() && reply == Done && !IsTree(fs.Entries(), fs.files)
  {
    hide Consistent, IsTree, BPlusTree.Valid, BPlusTree.Contents;
    fs := new VexFs();
    var dir := fs.Make(ROOT_INO, "a", true, Some(0));
    var file := fs.Make(dir.ino, "b", false, Some(1));
    assert Key(dir.ino, "b") in fs.Entries();
    var freed;
    reply, freed := fs.Unlink(ROOT_INO, "a");
  }

  /** A directory whose only name sorts behind the listing's sentinel is removed as if it were empty. */
  method RemovedWhileFull() returns (fs: VexFs, reply: Reply)
    ensures fresh(fs) && fs.Valid() && reply == Done && !IsTree(fs.Entries(), fs.files)
  {
    hide Consistent, IsTree, BPlusTree.Valid, BPlusTree.Contents, PastSentinel;
    fs := new VexFs();
    var dir := fs.Make(ROOT_INO, "a", true, Some(0));
    var name := "\U{10FFFF}" + "b";
    SentinelIsNotLast("b");
    var file := fs.Make(dir.ino, name, false, Some(1));
    assert Key(dir.ino, name) in fs.Entries() && fs.Entries()[Key(ROOT_INO, "a")].isDir;
    forall c | c in fs.Entries() && c.parent == dir.ino ensures PastSentinel(c.name) {
      assert c == Key(dir.ino, name);
    }
    reply := fs.Rmdir(ROOT_INO, "a");
  }
}
