/** All the directories of a file system, one object each, over one store. */
module Dirs {
  import opened Bytes
  import opened Keys
  import opened Store
  import opened DirCodec
  import opened DirView
  import opened Readdir
  import opened Partition
  import opened Directory

  type DirTable = map<nat, DirectoryFile>

  /** The name map of each directory. */
  type Tables = map<nat, NameMap>

  ghost function PartsOf(dirs: DirTable): set<LogFSDirectoryPartition>
  {
    (set h | h in dirs :: dirs[h].p0) + (set h | h in dirs :: dirs[h].p1)
  }

  lemma PartsIn(dirs: DirTable, h: nat)
    requires h in dirs
    ensures dirs[h].p0 in PartsOf(dirs) && dirs[h].p1 in PartsOf(dirs)
  {
  }

  lemma PartsOfMore(dirs: DirTable, dirs': DirTable, h: nat)
    requires dirs'.Keys == dirs.Keys + {h} && h !in dirs && forall g | g in dirs :: dirs'[g] == dirs[g]
    ensures PartsOf(dirs') == PartsOf(dirs) + {dirs'[h].p0, dirs'[h].p1}
  {
  }

  /** Directory `h` is loaded and agrees with store contents `d`. */
  ghost predicate DirIn(d: Contents, kv: KVStore, dir: DirectoryFile, h: nat)
    reads dir.p0, dir.p1
  {
    dir.kv == kv && dir.ino == h && dir.ValidIn(d)
  }

  ghost predicate DirsIn(d: Contents, kv: KVStore, dirs: DirTable)
    reads PartsOf(dirs)
  {
    forall h | h in dirs :: DirIn(d, kv, dirs[h], h)
  }

  /** All directories belong to one file system and route names by one hash. */
  ghost predicate OfVolume(dirs: DirTable, fsId: Inum, hash: Hash)
  {
    forall h | h in dirs :: dirs[h].fsId == fsId && dirs[h].hash == hash
  }

  ghost function NamesOf(dirs: DirTable): (t: Tables)
    reads PartsOf(dirs)
    ensures t.Keys == dirs.Keys
  {
    map h | h in dirs :: dirs[h].Names()
  }

  /** Chunks and partitions exist only for the inodes in `names`. */
  ghost predicate NoStrays(d: Contents, names: set<nat>)
  {
    forall g: nat, k: nat | g !in names :: Print(SubKey(g, k)) !in d
  }

  /** The inodes in `names` are stored. */
  ghost predicate InodesIn(d: Contents, names: set<nat>)
  {
    forall g | g in names :: Print(InodeKey(g)) in d
  }

  lemma InodesKept(d: Contents, d': Contents, names: set<nat>, h: nat)
    requires InodesIn(d, names) && SameElsewhere(d, d', h)
    ensures InodesIn(d', names - {h})
  {
    hide Print, SameElsewhere;
    ElsewhereIsOthers(d, d', h);
    forall g | g in names - {h} ensures Print(InodeKey(g)) in d' {
      assert SameInode(d, d', g);
    }
  }

  lemma NoStraysKept(d: Contents, d': Contents, names: set<nat>, changed: set<nat>)
    requires NoStrays(d, names) && OthersSame(d, d', changed)
    ensures NoStrays(d', names + changed)
  {
    hide Print;
    forall g: nat, k: nat | g !in names + changed ensures Print(SubKey(g, k)) !in d' {
      assert SameInode(d, d', g);
    }
  }

  /** What is stored for another inode leaves a directory as it was. */
  lemma DirKept(d: Contents, d': Contents, kv: KVStore, dir: DirectoryFile, g: nat)
    requires DirIn(d, kv, dir, g) && SameInode(d, d', g)
    ensures DirIn(d', kv, dir, g)
  {
    hide Print, StoredAs, Loadable, Covered, SameInode;
    PartitionUntouched(d, d', dir.p0.fsId, dir.ino, 0, dir.p0.names);
    PartitionUntouched(d, d', dir.p1.fsId, dir.ino, 1, dir.p1.names);
  }

  lemma DirsKept(d: Contents, d': Contents, kv: KVStore, dirs: DirTable, changed: set<nat>)
    requires DirsIn(d, kv, dirs) && OthersSame(d, d', changed) && dirs.Keys !! changed
    ensures DirsIn(d', kv, dirs)
  {
    hide DirIn, SameInode;
    forall g | g in dirs ensures DirIn(d', kv, dirs[g], g) {
      DirKept(d, d', kv, dirs[g], g);
    }
  }

  /** Different directories have different partition objects. */
  lemma PartsApart(d: Contents, kv: KVStore, dirs: DirTable, h: nat)
    requires DirsIn(d, kv, dirs) && h in dirs
    ensures forall g | g in dirs && g != h :: Apart(dirs[g], dirs[h])
  {
    hide StoredAs, Loadable, Covered, Print;
  }

  ghost predicate Apart(a: DirectoryFile, b: DirectoryFile)
  {
    a.p0 != b.p0 && a.p0 != b.p1 && a.p1 != b.p0 && a.p1 != b.p1
  }

  /** After a change to directory `h` alone. */
  lemma OneDirChanged(d: Contents, d': Contents, kv: KVStore, dirs: DirTable, h: nat)
    requires h in dirs && DirIn(d', kv, dirs[h], h) && SameElsewhere(d, d', h)
    requires forall g | g in dirs && g != h :: DirIn(d, kv, dirs[g], g)
    ensures DirsIn(d', kv, dirs)
  {
    hide DirIn, SameElsewhere, SameInode;
    ElsewhereIsOthers(d, d', h);
    forall g | g in dirs ensures DirIn(d', kv, dirs[g], g) {
      if g != h { DirKept(d, d', kv, dirs[g], g); }
    }
  }

  // ---- the operations, on the table of names ----------------------------------------------

  function Entered(t: Tables, h: nat, x: Str, child: Inum): Tables
    requires h in t
  {
    if x in t[h] then t else t[h := Bind(t[h], x, child)]
  }

  function Bind(m: NameMap, x: Str, child: Inum): NameMap
  {
    m[x := child]
  }

  /** The entries that every directory starts with: "." for itself and ".." for its parent. */
  lemma DotsAre(h: Inum, parent: Inum)
    ensures var m := Dots(h, parent);
            && (forall x :: x in m <==> x == [46] || x == [46, 46])
            && m[[46]] == h && m[[46, 46]] == parent
  {
  }

  function Dots(h: Inum, parent: Inum): NameMap
  {
    map[DOT := h, DOTDOT := parent]
  }

  function Removed(t: Tables, h: nat, x: Str): Tables
    requires h in t
  {
    t[h := t[h] - {x}]
  }

  method InsertIn(kv: KVStore, dirs: DirTable, h: nat, child: Inum, name: Str) returns (status: Status)
    requires DirsIn(kv.data, kv, dirs) && h in dirs
    modifies kv, dirs[h].p0, dirs[h].p1
    ensures DirsIn(kv.data, kv, dirs)
    ensures status == if name in old(NamesOf(dirs))[h] then InternalError else StatusOk
    ensures NamesOf(dirs) == Entered(old(NamesOf(dirs)), h, name, child)
    ensures SameElsewhere(old(kv.data), kv.data, h) && InodeKept(old(kv.data), kv.data, h)
  {
    hide Print, InodeKept, DirectoryFile.ValidIn, DirectoryFile.Names, DirectoryFile.Views, DirStep, SameElsewhere;
    ghost var d := kv.data;
    PartsApart(d, kv, dirs, h);
    status := dirs[h].InsertEntry(child, name);
    OneDirChanged(d, kv.data, kv, dirs, h);
    assert NamesOf(dirs) == old(NamesOf(dirs))[h := dirs[h].Names()];
  }

  method RemoveIn(kv: KVStore, dirs: DirTable, h: nat, child: Inum, name: Str) returns (status: Status)
    requires DirsIn(kv.data, kv, dirs) && h in dirs
    modifies kv, dirs[h].p0, dirs[h].p1
    ensures DirsIn(kv.data, kv, dirs)
    ensures status == if name in old(NamesOf(dirs))[h] then StatusOk else InternalError
    ensures NamesOf(dirs) == Removed(old(NamesOf(dirs)), h, name)
    ensures SameElsewhere(old(kv.data), kv.data, h) && InodeKept(old(kv.data), kv.data, h)
  {
    hide Print, InodeKept, DirectoryFile.ValidIn, DirectoryFile.Names, DirectoryFile.Views, DirStep, SameElsewhere;
    ghost var d := kv.data;
    PartsApart(d, kv, dirs, h);
    status := dirs[h].RemoveEntry(child, name);
    OneDirChanged(d, kv.data, kv, dirs, h);
    assert NamesOf(dirs) == old(NamesOf(dirs))[h := dirs[h].Names()];
  }

  method FindIn(kv: KVStore, dirs: DirTable, h: nat, name: Str) returns (child: Inum)
    requires DirsIn(kv.data, kv, dirs) && h in dirs
    modifies dirs[h].p0, dirs[h].p1
    ensures DirsIn(kv.data, kv, dirs) && NamesOf(dirs) == old(NamesOf(dirs))
    ensures child == if name in NamesOf(dirs)[h] then NamesOf(dirs)[h][name] else 0
  {
    hide Print, DirectoryFile.ValidIn, DirectoryFile.Names, DirectoryFile.Views;
    PartsApart(kv.data, kv, dirs, h);
    child := dirs[h].FindHandle(name);
  }

  lemma NothingStored(d: Contents, fsId: Inum, h: Inum, number: nat)
    requires Print(SubKey(h, number)) !in d
    ensures StoredAs(d, fsId, h, number, map[]) && Loadable(map[])
  {
    hide Print;
    assert Listing(map[]) == [];
  }

  /** Putting a directory's own inode does not touch its partitions. */
  lemma InodePutKeepsDir(d: Contents, d': Contents, dir: DirectoryFile, m: Meta)
    requires dir.ValidIn(d) && d' == d[Print(InodeKey(dir.ino)) := Inode(m)]
    ensures dir.ValidIn(d') && SameElsewhere(d, d', dir.ino)
  {
    hide Print, Loadable, Covered, Serialized;
    PrintInjective(SubKey(dir.ino, 0), InodeKey(dir.ino));
    PrintInjective(SubKey(dir.ino, 1), InodeKey(dir.ino));
  }

  method FreshDir(kv: KVStore, fsId: Inum, hash: Hash, h: Inum) returns (dir: DirectoryFile)
    requires forall k: nat :: Print(SubKey(h, k)) !in kv.data
    ensures DirIn(kv.data, kv, dir, h) && dir.Names() == map[] && dir.fsId == fsId && dir.hash == hash
    ensures fresh(dir) && fresh(dir.p0) && fresh(dir.p1)
  {
    hide Print, StoredAs, Loadable, Covered;
    NothingStored(kv.data, fsId, h, 0);
    NothingStored(kv.data, fsId, h, 1);
    dir := new DirectoryFile(kv, fsId, h, hash, map[], map[]);
  }

  /** A new directory object, with nothing in it yet. */
  method EmptyDir(kv: KVStore, dirs: DirTable, fsId: Inum, hash: Hash, h: Inum) returns (dirs': DirTable)
    requires DirsIn(kv.data, kv, dirs) && h !in dirs
    requires forall k: nat :: Print(SubKey(h, k)) !in kv.data
    ensures DirsIn(kv.data, kv, dirs') && dirs'.Keys == dirs.Keys + {h}
    ensures NamesOf(dirs') == old(NamesOf(dirs))[h := map[]]
    ensures fresh(dirs'[h].p0) && fresh(dirs'[h].p1) && dirs'[h].fsId == fsId && dirs'[h].hash == hash
    ensures forall g | g in dirs :: dirs'[g] == dirs[g]
    ensures forall p | p in PartsOf(dirs') :: p in PartsOf(dirs) || fresh(p)
  {
    hide Print, DirIn, DirectoryFile.Names;
    var dir := FreshDir(kv, fsId, hash, h);
    dirs' := dirs[h := dir];
  }

  /** A new directory with its dots, and its inode stored. */
  method NewDir(kv: KVStore, dirs: DirTable, fsId: Inum, hash: Hash, h: Inum, parent: Inum, chunkSize: nat)
    returns (dirs': DirTable)
    requires DirsIn(kv.data, kv, dirs) && h !in dirs
    requires forall k: nat :: Print(SubKey(h, k)) !in kv.data
    modifies kv
    ensures DirsIn(kv.data, kv, dirs')
    ensures NamesOf(dirs') == old(NamesOf(dirs))[h := Dots(h, parent)]
    ensures dirs'.Keys == dirs.Keys + {h} && fresh(dirs'[h].p0) && fresh(dirs'[h].p1)
    ensures dirs'[h].fsId == fsId && dirs'[h].hash == hash
    ensures forall g | g in dirs :: dirs'[g] == dirs[g]
    ensures SameElsewhere(old(kv.data), kv.data, h) && StoredInode(kv.data, h, chunkSize)
  {
    hide Print, DirsIn, SameElsewhere, InodeKept, NamesOf, Entered, Dots, PartsOf;
    ghost var d0 := kv.data;
    ghost var t := NamesOf(dirs);
    DotsEntered(t, h, parent);
    dirs' := EmptyDir(kv, dirs, fsId, hash, h);
    var _ := InsertIn(kv, dirs', h, h, DOT);
    ghost var d1 := kv.data;
    var _ := InsertIn(kv, dirs', h, parent, DOTDOT);
    ghost var d2 := kv.data;
    SameTwice(d0, d1, d2, h);
    WriteInode(kv, dirs', h, Meta(h, 0, chunkSize, Resident));
    SameTwice(d0, d2, kv.data, h);
  }

  lemma DotsEntered(t: Tables, h: Inum, parent: Inum)
    ensures var t0 := t[h := map[]];
            Entered(Entered(t0, h, DOT, h), h, DOTDOT, parent) == t[h := Dots(h, parent)]
  {
    var t1 := Entered(t[h := map[]], h, DOT, h);
    var one: NameMap := map[DOT := h];
    assert t1 == t[h := one];
    assert Bind(t1[h], DOTDOT, parent) == Dots(h, parent);
  }

  /** The inode of a new file or directory, as it is stored. */
  ghost predicate StoredInode(d: Contents, h: nat, chunkSize: nat)
  {
    var key := Print(InodeKey(h));
    key in d && d[key] == Inode(Meta(h, 0, chunkSize, Resident))
  }

  /** `writeToLog` of an inode: no directory changes. */
  method WriteInode(kv: KVStore, dirs: DirTable, h: nat, m: Meta)
    requires DirsIn(kv.data, kv, dirs)
    modifies kv
    ensures DirsIn(kv.data, kv, dirs) && NamesOf(dirs) == old(NamesOf(dirs))
    ensures SameElsewhere(old(kv.data), kv.data, h) && Print(InodeKey(h)) in kv.data
    ensures kv.data == old(kv.data)[Print(InodeKey(h)) := Inode(m)]
  {
    hide Print, SameElsewhere, DirectoryFile.ValidIn, DirectoryFile.Names;
    ghost var d := kv.data;
    kv.Put(Print(InodeKey(h)), Inode(m));
    OwnInodePut(d, kv.data, kv, dirs, h, m);
  }

  lemma OwnInodePut(d: Contents, d': Contents, kv: KVStore, dirs: DirTable, h: nat, m: Meta)
    requires DirsIn(d, kv, dirs) && d' == d[Print(InodeKey(h)) := Inode(m)]
    ensures DirsIn(d', kv, dirs) && SameElsewhere(d, d', h)
  {
    hide Print, SameElsewhere, DirectoryFile.ValidIn;
    PutInodeKey(d, d', h, m);
    if h in dirs {
      InodePutKeepsDir(d, d', dirs[h], m);
      OneDirChanged(d, d', kv, dirs, h);
    } else {
      ElsewhereIsOthers(d, d', h);
      DirsKept(d, d', kv, dirs, {h});
    }
  }
}
