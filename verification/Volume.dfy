/** Files and directories in one store, and how the directories agree with the recorded paths. */
module Volume {
  import opened Bytes
  import opened Keys
  import opened Store
  import opened FlatFile
  import opened File
  import opened FileRuns
  import opened Files
  import opened DirCodec
  import opened Readdir
  import opened Partition
  import opened Directory
  import opened Dirs
  import opened ChangeLog
  import opened Index
  import opened Paths
  import opened TieringOut
  import opened Eviction

  // ---- files and directories in one store -------------------------------------------------

  /** The directories agree with the store, and nothing but files and directories has data in it. */
  ghost predicate Housed(d: Contents, kv: KVStore, names: set<nat>, dirs: DirTable)
    reads PartsOf(dirs)
  {
    DirsIn(d, kv, dirs) && names !! dirs.Keys && NoStrays(d, names + dirs.Keys)
  }

  /** Operations on files leave the directories alone. */
  lemma HousedKept(d: Contents, d': Contents, kv: KVStore, names: set<nat>, dirs: DirTable, changed: set<nat>)
    requires Housed(d, kv, names, dirs) && OthersSame(d, d', changed) && changed <= names
    ensures Housed(d', kv, names, dirs)
  {
    hide DirIn, OthersSame, NoStrays;
    DirsKept(d, d', kv, dirs, changed);
    NoStraysKept(d, d', names + dirs.Keys, changed);
    assert names + dirs.Keys + changed == names + dirs.Keys;
  }

  lemma FilesUntouched(d: Contents, d': Contents, names: set<nat>, h: nat)
    requires FilesOK(d, names) && SameElsewhere(d, d', h) && h !in names
    ensures FilesOK(d', names) && StatesIn(d', names) == StatesIn(d, names)
    ensures forall g | g in names :: MetaOf(d', g) == MetaOf(d, g)
  {
    hide FileOK, SameElsewhere, OthersSame, StateIn, MetaOf;
    ElsewhereIsOthers(d, d', h);
    assert names * {h} == {};
    FilesKept(d, d', names, {h});
  }

  /** A directory operation leaves every file alone. */
  method EnterName(kv: KVStore, files: FileTable, dirs: DirTable, parent: Inum, h: Inum, name: Str)
    requires AllLoaded(kv, files) && DirsIn(kv.data, kv, dirs) && parent in dirs && parent !in files
    modifies kv, dirs[parent].p0, dirs[parent].p1
    ensures AllLoaded(kv, files) && FileStates(kv, files) == old(FileStates(kv, files))
    ensures DirsIn(kv.data, kv, dirs)
    ensures NamesOf(dirs) == Entered(old(NamesOf(dirs)), parent, name, h)
    ensures SameElsewhere(old(kv.data), kv.data, parent)
  {
    hide FileOK, DirIn, DirectoryFile.Names, SameElsewhere, InodeKept, Entered;
    ghost var d := kv.data;
    var _ := InsertIn(kv, dirs, parent, h, name);
    FilesUntouched(d, kv.data, files.Keys, parent);
  }

  method AddFile(kv: KVStore, files: FileTable, dirs: DirTable, h: Inum, chunkSize: nat) returns (files': FileTable)
    requires AllLoaded(kv, files) && Housed(kv.data, kv, files.Keys, dirs) && h !in files && h !in dirs
    requires 0 < chunkSize < TWO_32
    modifies kv
    ensures AllLoaded(kv, files') && Housed(kv.data, kv, files'.Keys, dirs)
    ensures FileStates(kv, files') == old(FileStates(kv, files))[h := FileState([], false)]
    ensures NamesOf(dirs) == old(NamesOf(dirs))
    ensures h in files' && fresh(files'[h]) && files'.Values <= files.Values + {files'[h]}
    ensures StoredInode(kv.data, h, chunkSize)
  {
    hide AllLoaded, FileStates, DirIn, DirectoryFile.Names, SameElsewhere, OthersSame, Print;
    ghost var d := kv.data;
    files' := NewFile(kv, files, h, chunkSize);
    LoadedInode(kv, files', h);
    ElsewhereIsOthers(d, kv.data, h);
    DirsKept(d, kv.data, kv, dirs, {h});
    OneMoreName(d, kv.data, files.Keys, dirs.Keys, h);
    assert forall g | g in files' :: g == h || files'[g] in files.Values;
  }

  method AddDir(kv: KVStore, files: FileTable, dirs: DirTable, fsId: Inum, hash: Hash, h: Inum, parent: Inum,
                chunkSize: nat) returns (dirs': DirTable)
    requires AllLoaded(kv, files) && Housed(kv.data, kv, files.Keys, dirs) && h !in files && h !in dirs
    modifies kv
    ensures AllLoaded(kv, files) && Housed(kv.data, kv, files.Keys, dirs')
    ensures FileStates(kv, files) == old(FileStates(kv, files))
    ensures NamesOf(dirs') == old(NamesOf(dirs))[h := Dots(h, parent)]
    ensures h in dirs' && fresh(dirs'[h].p0) && fresh(dirs'[h].p1)
    ensures PartsOf(dirs') == PartsOf(dirs) + {dirs'[h].p0, dirs'[h].p1}
    ensures StoredInode(kv.data, h, chunkSize) && (OfVolume(dirs, fsId, hash) ==> OfVolume(dirs', fsId, hash))
  {
    hide FileOK, DirIn, DirectoryFile.Names, SameElsewhere, OthersSame, Print, Dots, PartsOf, NoStrays,
         StoredInode, OfVolume;
    ghost var d := kv.data;
    FreshInode(d, files.Keys + dirs.Keys, h);
    dirs' := NewDir(kv, dirs, fsId, hash, h, parent, chunkSize);
    PartsOfMore(dirs, dirs', h);
    OfVolumeMore(dirs, dirs', fsId, hash, h);
    FilesUntouched(d, kv.data, files.Keys, h);
    ElsewhereIsOthers(d, kv.data, h);
    OneMoreName(d, kv.data, files.Keys, dirs.Keys, h);
  }

  lemma FreshInode(d: Contents, names: set<nat>, h: nat)
    requires NoStrays(d, names) && h !in names
    ensures forall k: nat :: Print(SubKey(h, k)) !in d
  {
    hide Print;
  }

  lemma OfVolumeMore(dirs: DirTable, dirs': DirTable, fsId: Inum, hash: Hash, h: nat)
    requires dirs'.Keys == dirs.Keys + {h} && dirs'[h].fsId == fsId && dirs'[h].hash == hash
    requires forall g | g in dirs :: dirs'[g] == dirs[g]
    ensures OfVolume(dirs, fsId, hash) ==> OfVolume(dirs', fsId, hash)
  {
  }

  lemma OneMoreName(d: Contents, d': Contents, a: set<nat>, b: set<nat>, h: nat)
    requires NoStrays(d, a + b) && OthersSame(d, d', {h})
    ensures NoStrays(d', a + (b + {h})) && NoStrays(d', (a + {h}) + b)
  {
    hide OthersSame, NoStrays;
    NoStraysKept(d, d', a + b, {h});
    assert a + b + {h} == a + (b + {h}) && a + b + {h} == (a + {h}) + b;
  }

  function WithFile(fs: map<nat, FileState>, h: nat, isDir: bool): map<nat, FileState>
  {
    if isDir then fs else fs[h := FileState([], false)]
  }

  /** The directories after a new inode was entered in its parent. */
  function WithEntry(t: Tables, parent: Inum, name: Str, h: Inum, isDir: bool): Tables
    requires parent in t
  {
    var t1 := Entered(t, parent, name, h);
    if isDir then t1[h := Dots(h, parent)] else t1
  }

  /** `LogFSFile::create`: the entry in the parent first, then the inode itself. */
  method CreateInode(kv: KVStore, files: FileTable, dirs: DirTable, fsId: Inum, hash: Hash, h: Inum, parent: Inum,
                     name: Str, isDir: bool, chunkSize: nat)
    returns (files': FileTable, dirs': DirTable, ghost more: set<object>)
    requires AllLoaded(kv, files) && Housed(kv.data, kv, files.Keys, dirs) && h !in files && h !in dirs
    requires parent in dirs && 0 < chunkSize < TWO_32
    modifies kv, dirs[parent].p0, dirs[parent].p1
    ensures AllLoaded(kv, files') && Housed(kv.data, kv, files'.Keys, dirs')
    ensures FileStates(kv, files') == WithFile(old(FileStates(kv, files)), h, isDir)
    ensures NamesOf(dirs') == WithEntry(old(NamesOf(dirs)), parent, name, h, isDir)
    ensures StoredInode(kv.data, h, chunkSize) && (OfVolume(dirs, fsId, hash) ==> OfVolume(dirs', fsId, hash))
    ensures fresh(more) && files'.Values <= files.Values + more && PartsOf(dirs') <= PartsOf(dirs) + more
    ensures forall o | o in more :: o is LogFSFile || o is LogFSDirectoryPartition
  {
    hide AllLoaded, FileStates, DirIn, NamesOf, SameElsewhere, OthersSame, NoStrays, Entered, PartsOf;
    files', dirs' := files, dirs;
    ghost var d := kv.data;
    EnterName(kv, files, dirs, parent, h, name);
    ParentChanged(d, kv.data, files.Keys + dirs.Keys, parent);
    if isDir {
      dirs' := AddDir(kv, files, dirs, fsId, hash, h, parent, chunkSize);
      more := {dirs'[h].p0, dirs'[h].p1};
    } else {
      files' := AddFile(kv, files, dirs, h, chunkSize);
      more := {files'[h]};
    }
  }

  lemma ParentChanged(d: Contents, d': Contents, names: set<nat>, h: nat)
    requires NoStrays(d, names) && SameElsewhere(d, d', h) && h in names
    ensures NoStrays(d', names)
  {
    hide SameElsewhere, OthersSame, NoStrays;
    ElsewhereIsOthers(d, d', h);
    NoStraysKept(d, d', names, {h});
    assert names + {h} == names;
  }

  /** The objects that make up a volume. */
  ghost predicate Owns(repr: set<object>, kv: KVStore, files: FileTable, dirs: DirTable)
  {
    && kv in repr && files.Values <= repr && PartsOf(dirs) <= repr
    && forall o | o in repr :: o is KVStore || o is LogFSFile || o is LogFSDirectoryPartition
  }

  lemma OwnsMore(repr: set<object>, more: set<object>, kv: KVStore, files: FileTable, files': FileTable,
                 dirs: DirTable, dirs': DirTable)
    requires Owns(repr, kv, files, dirs)
    requires files'.Values <= files.Values + more && PartsOf(dirs') <= PartsOf(dirs) + more
    requires forall o | o in more :: o is LogFSFile || o is LogFSDirectoryPartition
    ensures Owns(repr + more, kv, files', dirs')
  {
    hide PartsOf;
  }

  lemma OwnsDir(repr: set<object>, kv: KVStore, files: FileTable, dirs: DirTable, h: nat)
    requires Owns(repr, kv, files, dirs) && h in dirs
    ensures kv in repr && dirs[h].p0 in repr && dirs[h].p1 in repr
  {
    PartsIn(dirs, h);
  }

  class FileSystem {
    const kv: KVStore
    const fsId: Inum
    const hash: Hash
    var files: FileTable
    var dirs: DirTable
    ghost var repr: set<object>

    ghost predicate Valid()
      reads this, repr
    {
      Owns(repr, kv, files, dirs) && OfVolume(dirs, fsId, hash) && AllLoaded(kv, files) && Housed(kv.data, kv, files.Keys, dirs)
    }

    /** What the regular files stand for. */
    ghost function Data(): map<nat, FileState>
      requires Valid()
      reads this, repr
    {
      FileStates(kv, files)
    }

    /** What the directories stand for. */
    ghost function Names(): Tables
      requires Valid()
      reads this, repr
    {
      NamesOf(dirs)
    }

    /** An empty file system: the root directory, and nothing in it but its dots. */
    constructor (fsId: Inum, hash: Hash, chunkSize: nat)
      ensures Valid() && fresh(repr) && Data() == map[] && Names() == map[ROOT := Dots(ROOT, ROOT)]
      ensures this.fsId == fsId && this.hash == hash
    {
      hide DirIn, DirectoryFile.Names, NoStrays, Dots, Print;
      var store, table := MakeRoot(fsId, hash, chunkSize);
      this.fsId, this.hash, kv, files, dirs := fsId, hash, store, map[], table;
      repr := {store} + PartsOf(table);
      new;
      assert files.Keys == {};
    }

    /** No other kind of object belongs to the volume. */
    lemma Kinds()
      requires Valid()
      ensures forall o | o in repr :: o is KVStore || o is LogFSFile || o is LogFSDirectoryPartition
    {
    }

    /** `findHandle`: the inode entered in a directory under a name, or 0. */
    method Find(dir: nat, name: Str) returns (child: Inum)
      requires Valid() && dir in Names()
      modifies repr
      ensures Valid() && Data() == old(Data()) && Names() == old(Names())
      ensures child == if name in Names()[dir] then Names()[dir][name] else 0
    {
      hide FileOK, DirIn, DirectoryFile.Names, NoStrays;
      child := FindIn(kv, dirs, dir, name);
    }

    /** `create` of a file or directory: the entry in the parent's stored partition, then the inode. */
    method Create(h: Inum, parent: Inum, name: Str, isDir: bool, chunkSize: nat)
      requires Valid() && parent in Names() && h !in Data() && h !in Names() && 0 < chunkSize < TWO_32
      modifies this, repr
      ensures Valid() && Data() == WithFile(old(Data()), h, isDir)
      ensures Names() == WithEntry(old(Names()), parent, name, h, isDir)
      ensures StoredInode(kv.data, h, chunkSize)
      ensures fresh(repr - old(repr))
    {
      hide AllLoaded, FileStates, DirIn, DirectoryFile.Names, NoStrays, WithEntry, WithFile, PartsOf, Owns;
      OwnsDir(repr, kv, files, dirs, parent);
      var files', dirs', more := CreateInode(kv, files, dirs, fsId, hash, h, parent, name, isDir, chunkSize);
      OwnsMore(repr, more, kv, files, files', dirs, dirs');
      Install(files', dirs', more);
    }

    /** Take over new tables of objects. */
    method Install(files': FileTable, dirs': DirTable, ghost more: set<object>)
      requires Owns(repr + more, kv, files', dirs') && OfVolume(dirs', fsId, hash)
      requires AllLoaded(kv, files') && Housed(kv.data, kv, files'.Keys, dirs')
      modifies this
      ensures Valid() && Data() == old(FileStates(kv, files')) && Names() == old(NamesOf(dirs'))
      ensures repr == old(repr) + more
    {
      hide AllLoaded, FileStates, DirIn, DirectoryFile.Names, NoStrays, Owns, PartsOf;
      files, dirs, repr := files', dirs', repr + more;
    }

    /** `write` or `SetSize`. */
    method Change(h: nat, op: FileOp)
      requires Valid() && h in Data() && InRange(op) && !op.Read?
      modifies repr
      ensures Valid() && Data() == Changed(old(Data()), h, op) && Names() == old(Names())
      ensures h in Data() && ChunkSize(h) == old(ChunkSize(h))
    {
      hide AllLoaded, FileStates, DirIn, DirectoryFile.Names, NoStrays, SameElsewhere, OthersSame, Changed,
           InRange, Owns, PartsOf;
      OwnsFile(repr, kv, files, dirs, h);
      ghost var d := kv.data;
      ChangeFile(kv, files, h, op);
      ElsewhereIsOthers(d, kv.data, h);
      HousedKept(d, kv.data, kv, files.Keys, dirs, {h});
    }

    /** `read`, faulting the data in from `source` if it was evicted. */
    method Fetch(h: nat, source: Option<Str>, off: nat, len: nat, buf: array<byte>, pace: nat -> nat)
      returns (n: nat)
      requires Valid() && h in Data() && off + len <= OFF_MAX
      requires Data()[h].evicted && source.Some? ==> |source.value| == |Data()[h].raw|
      requires ReadExtent(|Data()[h].raw|, off, len, ChunkSize(h)) <= buf.Length
      modifies repr, buf
      ensures Valid() && Data() == Fetched(old(Data()), h, source) && Names() == old(Names())
      ensures ChunkSize(h) == old(ChunkSize(h))
      ensures n <= buf.Length && buf[n..] == old(buf[n..])
      ensures buf[..n] == FlatRead(Data()[h].raw, off, len, ChunkSize(h))
    {
      hide AllLoaded, FileStates, DirIn, DirectoryFile.Names, NoStrays, SameElsewhere, OthersSame, Fetched,
           FlatRead, ReadExtent, Owns, PartsOf;
      OwnsFile(repr, kv, files, dirs, h);
      OwnsNothingElse(repr, kv, files, dirs);
      ghost var d := kv.data;
      n := FetchFile(kv, files, h, source, off, len, buf, pace);
      ElsewhereIsOthers(d, kv.data, h);
      HousedKept(d, kv.data, kv, files.Keys, dirs, {h});
    }

    ghost function ChunkSize(h: nat): (c: nat)
      requires Valid() && h in Data()
      reads this, repr
      ensures c > 0
    {
      hide FileOK, DirIn, NoStrays;
      files[h].meta.fileChunkSize
    }

    /** The eviction pass. */
    method Evict(log: FsChangeLog, ready: nat -> bool) returns (handed: Log)
      requires Valid() && log.Valid()
      modifies log`evictionNextXid, repr
      ensures handed == ReadRange(log.deque, log.nextXid, old(log.evictionNextXid), log.tieredOutXid)
      ensures forall e :: e in handed ==> e.xid.Some?
      ensures log.evictionNextXid ==
                (if handed != [] then handed[|handed| - 1].xid.value else log.tieredOutXid) + 1
      ensures Valid() && Names() == old(Names())
      ensures Data() == Dropped(old(Data()), Chosen(old(Data()).Keys, handed, ready))
      ensures AllGone(kv.data, Chosen(old(Data()).Keys, handed, ready))
      ensures forall h | h in old(Data()) ::
                h in Data() && (Data()[h].evicted <==> old(Data())[h].evicted || (Mentions(handed, h) && ready(h)))
    {
      hide AllLoaded, FileStates, DirIn, DirectoryFile.Names, NoStrays, OthersSame, Dropped, Chosen, AllGone,
           ReadRange, Owns, PartsOf, Ordered, Mentions;
      OwnsFiles(repr, kv, files, dirs);
      OwnsNothingElse(repr, kv, files, dirs);
      ghost var d := kv.data;
      handed := ProcessEvictions(log, kv, files, ready);
      EvictedExactly(old(Data()), handed, ready);
      HousedKept(d, kv.data, kv, files.Keys, dirs, files.Keys);
    }

    /** The contents of all resident files. */
    method Snap() returns (contents: map<nat, Str>)
      requires Valid()
      modifies repr
      ensures Valid() && Data() == old(Data()) && Names() == old(Names())
      ensures HoldsResident(contents, Data())
    {
      hide AllLoaded, FileStates, DirIn, DirectoryFile.Names, NoStrays, HoldsResident, Owns, PartsOf;
      OwnsFiles(repr, kv, files, dirs);
      contents := Capture(kv, files);
    }
  }

  lemma OwnsFiles(repr: set<object>, kv: KVStore, files: FileTable, dirs: DirTable)
    requires Owns(repr, kv, files, dirs)
    ensures kv in repr && files.Values <= repr
  {
  }

  lemma OwnsNothingElse(repr: set<object>, kv: KVStore, files: FileTable, dirs: DirTable)
    requires Owns(repr, kv, files, dirs)
    ensures forall o | o in repr :: !(o is FsChangeLog) && !(o is array<byte>) && !(o is IndexManager)
    ensures forall o | o in repr :: !(o is FileSystem)
  {
  }

  lemma OwnsFile(repr: set<object>, kv: KVStore, files: FileTable, dirs: DirTable, h: nat)
    requires Owns(repr, kv, files, dirs) && h in files
    ensures kv in repr && files[h] in repr
  {
    assert files[h] in files.Values;
  }

  method MakeRoot(fsId: Inum, hash: Hash, chunkSize: nat) returns (kv: KVStore, dirs: DirTable)
    ensures Housed(kv.data, kv, {}, dirs) && NamesOf(dirs) == map[ROOT := Dots(ROOT, ROOT)]
    ensures fresh(kv) && fresh(PartsOf(dirs)) && OfVolume(dirs, fsId, hash)
    ensures StoredInode(kv.data, ROOT, chunkSize)
  {
    hide DirIn, DirectoryFile.Names, SameElsewhere, OthersSame, Print, Dots;
    kv := new KVStore();
    ghost var d := kv.data;
    dirs := NewDir(kv, map[], fsId, hash, ROOT, ROOT, chunkSize);
    PartsOfMore(map[], dirs, ROOT);
    ElsewhereIsOthers(d, kv.data, ROOT);
    NoStraysKept(d, kv.data, {}, {ROOT});
    assert {} + {ROOT} == {} + dirs.Keys;
  }

  // ---- the directories and the recorded paths ---------------------------------------------

  /** The directory entries are exactly what the inodes record: each inode's parent has an entry for
      it under its name, each directory has its dots, and there is nothing else. */
  ghost predicate Placed(tree: Tree, names: set<nat>, t: Tables, next: nat)
  {
    Numbered(tree, names, t, next) && AllEntered(tree, t) && AllDots(tree, t) && NothingElse(tree, t)
  }

  /** Inodes are numbered from the root up; what is not a file is a directory. */
  ghost predicate Numbered(tree: Tree, names: set<nat>, t: Tables, next: nat)
  {
    && names <= tree.Keys && t.Keys == {ROOT} + (tree.Keys - names)
    && ROOT < next && (forall i | i in tree :: ROOT < i < next)
  }

  ghost predicate AllEntered(tree: Tree, t: Tables)
  {
    forall i | i in tree :: HasEntry(t, tree[i], i)
  }

  ghost predicate HasEntry(t: Tables, info: PathInfo, i: nat)
  {
    info.parent in t && info.name in t[info.parent] && t[info.parent][info.name] == i
  }

  ghost predicate AllDots(tree: Tree, t: Tables)
  {
    forall g | g in t :: DotsOK(tree, t[g], g)
  }

  ghost predicate DotsOK(tree: Tree, m: NameMap, g: nat)
  {
    && DOT in m && m[DOT] == g && DOTDOT in m
    && m[DOTDOT] == if g in tree then tree[g].parent else ROOT
  }

  ghost predicate NothingElse(tree: Tree, t: Tables)
  {
    forall g | g in t :: OnlyRecorded(tree, t[g], g)
  }

  ghost predicate OnlyRecorded(tree: Tree, m: NameMap, g: nat)
  {
    forall x | x in m && x != DOT && x != DOTDOT :: m[x] in tree && tree[m[x]] == PathInfo(g, x)
  }

  lemma PlacedRoot()
    ensures Placed(map[], {}, map[ROOT := Dots(ROOT, ROOT)], 2)
  {
  }

  lemma NameIsFree(tree: Tree, names: set<nat>, t: Tables, next: nat, parent: nat, name: Str)
    requires Placed(tree, names, t, next) && parent in t
    ensures name !in t[parent] ==> forall i | i in tree :: tree[i] != PathInfo(parent, name)
    ensures name in t[parent] ==> t[parent][name] != 0
    ensures next !in names && next !in t && next !in tree
    ensures ROOT < next && forall i | i in tree :: i < next
    ensures parent == ROOT || parent in tree
    ensures DotsOK(tree, t[parent], parent)
  {
    if name !in t[parent] {
      forall i | i in tree ensures tree[i] != PathInfo(parent, name) {
        assert HasEntry(t, tree[i], i);
      }
    }
    assert DotsOK(tree, t[parent], parent) && OnlyRecorded(tree, t[parent], parent);
  }

  lemma WithEntryParts(t: Tables, parent: Inum, name: Str, h: Inum, isDir: bool)
    requires parent in t && h !in t && name !in t[parent]
    ensures var t' := WithEntry(t, parent, name, h, isDir);
            && t'.Keys == (if isDir then t.Keys + {h} else t.Keys)
            && (isDir ==> t'[h] == Dots(h, parent))
            && t'[parent] == Bind(t[parent], name, h)
            && (forall g | g in t && g != parent :: t'[g] == t[g])
  {
    hide Dots, Bind;
  }

  /** The same entry by entry: the new name in the parent, the dots of a new directory, and every other
      entry as it was. */
  lemma WithEntryExactly(t: Tables, parent: Inum, name: Str, h: Inum, isDir: bool, g: nat, x: Str)
    requires parent in t && h !in t && name !in t[parent]
    ensures var t' := WithEntry(t, parent, name, h, isDir);
            && name in t'[parent] && t'[parent][name] == h
            && (isDir ==> h in t' && (x in t'[h] <==> x == [46] || x == [46, 46])
                          && t'[h][[46]] == h && t'[h][[46, 46]] == parent)
            && (g != h && (g, x) != (parent, name) ==>
                  && (g in t' <==> g in t) && (g in t ==> (x in t'[g] <==> x in t[g]))
                  && (g in t && x in t[g] ==> t'[g][x] == t[g][x]))
  {
    DotsAre(h, parent);
  }

  lemma EnteredStill(tree: Tree, t: Tables, t': Tables, next: Inum, parent: Inum, name: Str)
    requires AllEntered(tree, t) && parent in t && parent in t' && name !in t[parent]
    requires t'[parent] == Bind(t[parent], name, next)
    requires forall g | g in t && g != parent :: g in t' && t'[g] == t[g]
    ensures AllEntered(tree[next := PathInfo(parent, name)], t')
  {
    var tree' := tree[next := PathInfo(parent, name)];
    forall i | i in tree' ensures HasEntry(t', tree'[i], i) {
      if i != next { assert HasEntry(t, tree[i], i); }
    }
  }

  /** One more entry in a directory, one more inode recorded there. */
  lemma OneMoreEntry(tree: Tree, m: NameMap, g: nat, next: Inum, parent: Inum, name: Str)
    requires next !in tree && g != next && DotsOK(tree, m, g) && OnlyRecorded(tree, m, g)
    requires g == parent ==> name !in m
    ensures var tree', m' := tree[next := PathInfo(parent, name)], if g == parent then Bind(m, name, next) else m;
            DotsOK(tree', m', g) && OnlyRecorded(tree', m', g)
  {
  }

  lemma NewDots(tree: Tree, next: Inum, parent: Inum, name: Str)
    ensures var tree' := tree[next := PathInfo(parent, name)];
            DotsOK(tree', Dots(next, parent), next) && OnlyRecorded(tree', Dots(next, parent), next)
  {
  }

  lemma PlacedCreate(tree: Tree, names: set<nat>, t: Tables, next: Inum, parent: Inum, name: Str, isDir: bool)
    requires Placed(tree, names, t, next) && parent in t && name !in t[parent]
    ensures Placed(tree[next := PathInfo(parent, name)], if isDir then names else names + {next},
                   WithEntry(t, parent, name, next, isDir), next + 1)
  {
    hide WithEntry, AllEntered, HasEntry, Bind, DotsOK, OnlyRecorded, Dots;
    NameIsFree(tree, names, t, next, parent, name);
    var tree', t' := tree[next := PathInfo(parent, name)], WithEntry(t, parent, name, next, isDir);
    WithEntryParts(t, parent, name, next, isDir);
    EnteredStill(tree, t, t', next, parent, name);
    forall g | g in t' ensures DotsOK(tree', t'[g], g) && OnlyRecorded(tree', t'[g], g) {
      if g == next {
        NewDots(tree, next, parent, name);
      } else {
        OneMoreEntry(tree, t[g], g, next, parent, name);
      }
    }
  }
}
