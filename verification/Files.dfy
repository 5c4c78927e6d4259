/** All the regular files of a file system, one object each, over one store. */
module Files {
  import opened Bytes
  import opened Keys
  import opened Store
  import opened FlatFile
  import opened File
  import opened FileRuns

  type FileTable = map<nat, LogFSFile>

  // ---- the files as they stand in the store -----------------------------------------------

  ghost function StateIn(d: Contents, h: nat): (f: FileState)
    requires FileOK(d, h)
    ensures |f.raw| == MetaOf(d, h).fileTotalSize <= OFF_MAX && 0 < MetaOf(d, h).fileChunkSize
  {
    FileState(Raw(d, h), MetaOf(d, h).evictionState == DataEvicted)
  }

  ghost predicate FilesOK(d: Contents, names: set<nat>)
  {
    forall h | h in names :: FileOK(d, h)
  }

  ghost function StatesIn(d: Contents, names: set<nat>): (fs: map<nat, FileState>)
    requires FilesOK(d, names)
  {
    map h | h in names :: StateIn(d, h)
  }

  /** What is stored for other inodes does not matter to a file. */
  lemma FileKept(d: Contents, d': Contents, h: nat)
    requires FileOK(d, h) && SameInode(d, d', h)
    ensures FileOK(d', h) && MetaOf(d', h) == MetaOf(d, h) && Raw(d', h) == Raw(d, h)
  {
    hide Print, Chunks.ByteAt, Chunks.Base, Chunks.WellChunked;
    assert TableOf(d', h) == TableOf(d, h);
    SameAsItself(d', h);
  }

  /** Only the files in `changed` can differ. */
  lemma FilesKept(d: Contents, d': Contents, names: set<nat>, changed: set<nat>)
    requires FilesOK(d, names) && OthersSame(d, d', changed) && FilesOK(d', names * changed)
    ensures FilesOK(d', names)
    ensures forall g | g in names - changed :: MetaOf(d', g) == MetaOf(d, g) && StateIn(d', g) == StateIn(d, g)
  {
    hide FileOK, Raw, SameInode, MetaOf;
    forall g | g in names
      ensures FileOK(d', g)
      ensures g !in changed ==> MetaOf(d', g) == MetaOf(d, g) && StateIn(d', g) == StateIn(d, g)
    {
      if g !in changed { FileKept(d, d', g); }
    }
  }

  // ---- the table of objects ---------------------------------------------------------------

  /** Every file has one loaded object, evicted or not. */
  ghost predicate AllLoaded(kv: KVStore, files: FileTable)
    reads kv, files.Values
  {
    forall h | h in files :: files[h].kv == kv && files[h].handle == h && files[h].Valid()
  }

  ghost function FileStates(kv: KVStore, files: FileTable): (fs: map<nat, FileState>)
    requires AllLoaded(kv, files)
    ensures fs.Keys == files.Keys
    ensures forall h | h in files ::
              && (fs[h].evicted <==> files[h].meta.evictionState == DataEvicted)
              && |fs[h].raw| == files[h].meta.fileTotalSize <= OFF_MAX && files[h].meta.fileChunkSize > 0
    reads kv, files.Values
  {
    hide FileOK, Raw;
    StatesIn(kv.data, files.Keys)
  }

  /** The table after a change to the stored data of file `h` alone. */
  lemma OneFileChanged(d: Contents, d': Contents, names: set<nat>, h: nat)
    requires FilesOK(d, names) && SameElsewhere(d, d', h) && FileOK(d', h)
    ensures FilesOK(d', names + {h})
    ensures forall g | g in names && g != h :: MetaOf(d', g) == MetaOf(d, g)
    ensures StatesIn(d', names + {h}) == StatesIn(d, names)[h := StateIn(d', h)]
  {
    hide FileOK, SameElsewhere, OthersSame, StateIn, MetaOf;
    ElsewhereIsOthers(d, d', h);
    FilesKept(d, d', names, {h});
  }

  method NewFile(kv: KVStore, files: FileTable, h: nat, chunkSize: nat) returns (files': FileTable)
    requires AllLoaded(kv, files) && h !in files && 0 < chunkSize < TWO_32
    requires forall k: nat :: Print(SubKey(h, k)) !in kv.data
    modifies kv
    ensures AllLoaded(kv, files') && files'.Keys == files.Keys + {h}
    ensures FileStates(kv, files') == old(FileStates(kv, files))[h := FileState([], false)]
    ensures SameElsewhere(old(kv.data), kv.data, h)
    ensures fresh(files'[h]) && forall g | g in files :: files'[g] == files[g]
    ensures files'[h].meta == Meta(h, 0, chunkSize, Resident)
  {
    hide Print, FileOK, Raw, SameElsewhere;
    ghost var d := kv.data;
    var f := new LogFSFile(h, kv, chunkSize);
    OneFileChanged(d, kv.data, files.Keys, h);
    files' := files[h := f];
    assert files'.Keys == files.Keys + {h};
  }

  /** A write or resize of one file, resident or evicted. */
  method ChangeFile(kv: KVStore, files: FileTable, h: nat, op: FileOp)
    requires AllLoaded(kv, files) && h in files && InRange(op) && !op.Read?
    modifies kv, files[h]
    ensures AllLoaded(kv, files)
    ensures FileStates(kv, files) == Changed(old(FileStates(kv, files)), h, op)
    ensures files[h].meta == old(files[h].meta).(fileTotalSize := files[h].meta.fileTotalSize)
    ensures SameElsewhere(old(kv.data), kv.data, h)
  {
    hide Print, FileOK, Raw, SameElsewhere, FlatStep, InRange;
    ghost var d := kv.data;
    DoChange(files[h], op);
    OneFileChanged(d, kv.data, files.Keys, h);
    assert files.Keys + {h} == files.Keys;
  }

  function Changed(fs: map<nat, FileState>, h: nat, op: FileOp): map<nat, FileState>
    requires h in fs
  {
    fs[h := FileState(FlatStep(fs[h].raw, op), fs[h].evicted)]
  }

  /** Evict one file: no chunk of it is left. */
  method EvictFile(kv: KVStore, files: FileTable, h: nat)
    requires AllLoaded(kv, files) && h in files
    modifies kv, files[h]
    ensures AllLoaded(kv, files)
    ensures FileStates(kv, files) == Dropped(old(FileStates(kv, files)), {h})
    ensures files[h].meta == old(files[h].meta).(evictionState := DataEvicted)
    ensures NoChunks(kv.data, h) && SameElsewhere(old(kv.data), kv.data, h)
  {
    hide Print, FileOK, Raw, SameElsewhere, NoChunks;
    ghost var d := kv.data;
    FileIsStored(d, h);
    var _ := files[h].Evict();
    NoneStored(kv.data, h);
    OneFileChanged(d, kv.data, files.Keys, h);
    assert files.Keys + {h} == files.Keys;
  }

  /** The files after those in `victims` were evicted. */
  ghost function Dropped(fs: map<nat, FileState>, victims: set<nat>): map<nat, FileState>
  {
    map h | h in fs :: if h in victims then FileState(Zeros(|fs[h].raw|), true) else fs[h]
  }

  lemma NoneStored(d: Contents, h: nat)
    requires forall k: nat :: Print(SubKey(h, k)) !in d
    ensures NoChunks(d, h)
  {
    hide Print;
  }

  ghost predicate NoChunks(d: Contents, h: nat)
  {
    forall k: nat :: Print(SubKey(h, k)) !in d
  }

  lemma LoadedInode(kv: KVStore, files: FileTable, h: nat)
    requires AllLoaded(kv, files) && h in files
    ensures Print(InodeKey(h)) in kv.data && kv.data[Print(InodeKey(h))] == Inode(files[h].meta)
  {
    hide Print, Raw, Chunks.WellChunked;
    assert files[h].Valid();
  }

  lemma FileIsStored(d: Contents, h: nat)
    requires FileOK(d, h)
    ensures Print(InodeKey(h)) in d
  {
    hide Print;
  }

  /** Read one file, faulting it back in from `source` if it was evicted. */
  method FetchFile(kv: KVStore, files: FileTable, h: nat, source: Option<Str>,
                   off: nat, len: nat, buf: array<byte>, pace: nat -> nat) returns (n: nat)
    requires AllLoaded(kv, files) && h in files && off + len <= OFF_MAX
    requires files[h].meta.evictionState == DataEvicted && source.Some? ==>
               |source.value| == files[h].meta.fileTotalSize
    requires files[h].meta.fileChunkSize > 0
    requires ReadExtent(files[h].meta.fileTotalSize, off, len, files[h].meta.fileChunkSize) <= buf.Length
    modifies kv, files[h], buf
    ensures AllLoaded(kv, files)
    ensures FileStates(kv, files) == Fetched(old(FileStates(kv, files)), h, source)
    ensures files[h].meta.fileChunkSize == old(files[h].meta.fileChunkSize)
    ensures n <= buf.Length && buf[n..] == old(buf[n..])
    ensures buf[..n] == FlatRead(FileStates(kv, files)[h].raw, off, len, files[h].meta.fileChunkSize)
    ensures SameElsewhere(old(kv.data), kv.data, h)
    ensures old(files[h].meta.evictionState) == Resident ==> kv.data == old(kv.data)
  {
    hide Print, FileOK, Raw, SameElsewhere, FlatRead, ReadExtent;
    ghost var d := kv.data;
    var _, m := files[h].Read(off, len, buf, source, pace);
    n := m;
    OneFileChanged(d, kv.data, files.Keys, h);
    assert files.Keys + {h} == files.Keys;
  }

  /** A file faulted back in, if it was evicted and there is a copy. */
  function Fetched(fs: map<nat, FileState>, h: nat, copy: Option<Str>): map<nat, FileState>
    requires h in fs
  {
    if fs[h].evicted && copy.Some? then fs[h := FileState(copy.value, false)] else fs
  }

  /** Read one resident file from start to end. */
  method ReadAll(kv: KVStore, files: FileTable, h: nat) returns (bytes: Str)
    requires AllLoaded(kv, files) && h in files && files[h].meta.evictionState == Resident
    modifies kv, files[h]
    ensures AllLoaded(kv, files) && FileStates(kv, files) == old(FileStates(kv, files))
    ensures kv.data == old(kv.data) && bytes == FileStates(kv, files)[h].raw
  {
    hide AllLoaded, FileStates;
    ghost var raw := FileStates(kv, files)[h].raw;
    var buf := new byte[files[h].meta.fileTotalSize];
    var n := FetchFile(kv, files, h, None, 0, buf.Length, buf, _ => 0);
    assert FlatRead(raw, 0, |raw|, files[h].meta.fileChunkSize) == raw;
    bytes := buf[..n];
  }

  /** The contents hold every resident file. */
  ghost predicate HoldsResident(contents: map<nat, Str>, files: map<nat, FileState>)
  {
    forall h | h in files && !files[h].evicted :: h in contents && contents[h] == files[h].raw
  }

  /** The live contents of every resident file, as the persister reads them. */
  method Capture(kv: KVStore, files: FileTable) returns (contents: map<nat, Str>)
    requires AllLoaded(kv, files)
    modifies kv, files.Values
    ensures AllLoaded(kv, files) && FileStates(kv, files) == old(FileStates(kv, files))
    ensures kv.data == old(kv.data) && HoldsResident(contents, FileStates(kv, files))
  {
    hide AllLoaded, FileStates;
    ghost var fs := FileStates(kv, files);
    contents := map[];
    var left := files.Keys;
    while left != {}
      invariant left <= files.Keys && AllLoaded(kv, files) && FileStates(kv, files) == fs
      invariant kv.data == old(kv.data)
      invariant forall h | h in fs && h !in left && !fs[h].evicted :: h in contents && contents[h] == fs[h].raw
      decreases left
    {
      var h :| h in left;
      if files[h].meta.evictionState == Resident {
        var bytes := ReadAll(kv, files, h);
        contents := contents[h := bytes];
      }
      left := left - {h};
    }
  }

  // ---- what the tables above mean, file by file -------------------------------------------

  lemma ChangedExactly(fs: map<nat, FileState>, h: nat, op: FileOp, g: nat)
    requires h in fs && g in fs
    ensures Changed(fs, h, op).Keys == fs.Keys
    ensures g != h ==> Changed(fs, h, op)[g] == fs[g]
    ensures Changed(fs, h, op)[h].evicted == fs[h].evicted
    ensures Changed(fs, h, op)[h].raw == FlatStep(fs[h].raw, op)
  {
  }

  lemma DroppedExactly(fs: map<nat, FileState>, victims: set<nat>, g: nat)
    requires g in fs
    ensures g in Dropped(fs, victims)
    ensures g !in victims ==> Dropped(fs, victims)[g] == fs[g]
    ensures g in victims ==>
              var f := Dropped(fs, victims)[g];
              f.evicted && |f.raw| == |fs[g].raw| && forall i | 0 <= i < |f.raw| :: f.raw[i] == 0
  {
    ZerosLaw(|fs[g].raw|);
  }

  lemma FetchedExactly(fs: map<nat, FileState>, h: nat, copy: Option<Str>, g: nat)
    requires h in fs && g in fs
    ensures Fetched(fs, h, copy).Keys == fs.Keys
    ensures g != h || !fs[h].evicted || copy == None ==> Fetched(fs, h, copy)[g] == fs[g]
    ensures fs[h].evicted && copy.Some? ==>
              !Fetched(fs, h, copy)[h].evicted && Fetched(fs, h, copy)[h].raw == copy.value
  {
  }
}
