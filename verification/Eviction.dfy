/** One pass of the eviction agent over the tiered-out part of the log. */
module Eviction {
  import opened Bytes
  import opened Keys
  import opened Store
  import opened FlatFile
  import opened Files
  import opened ChangeLog
  import opened TieringOut

  /** The files that a pass over `entries` evicts: those mentioned and `ready` (old enough). */
  ghost function Chosen(names: set<nat>, entries: Log, ready: nat -> bool): set<nat>
  {
    set h | h in names && h in InodeSet(entries) && ready(h)
  }

  /** The same, when `inodes` was listed so far. */
  ghost function ChosenSoFar(names: set<nat>, inodes: seq<nat>, ready: nat -> bool): set<nat>
  {
    set h | h in names && h in inodes && ready(h)
  }

  ghost predicate AllGone(d: Contents, victims: set<nat>)
  {
    forall h | h in victims :: NoChunks(d, h)
  }

  lemma OneMoreGone(d: Contents, d': Contents, victims: set<nat>, h: nat)
    requires AllGone(d, victims) && NoChunks(d', h) && SameElsewhere(d, d', h)
    ensures AllGone(d', victims + {h})
  {
    hide Print, SameElsewhere;
    ElsewhereIsOthers(d, d', h);
    forall g | g in victims && g != h ensures NoChunks(d', g) {
      assert SameInode(d, d', g);
    }
  }

  lemma ChosenOneMore(names: set<nat>, inodes: seq<nat>, n: nat, ready: nat -> bool)
    requires n < |inodes|
    ensures var h := inodes[n];
            ChosenSoFar(names, inodes[..n + 1], ready) ==
              ChosenSoFar(names, inodes[..n], ready) + (if h in names && ready(h) then {h} else {})
  {
    assert inodes[..n + 1] == inodes[..n] + [inodes[n]];
  }

  lemma DroppedMore(fs: map<nat, FileState>, victims: set<nat>, h: nat)
    ensures Dropped(Dropped(fs, victims), {h}) == Dropped(fs, victims + {h})
    ensures Dropped(fs, {}) == fs
  {
    if h in fs { assert |Zeros(|fs[h].raw|)| == |fs[h].raw|; }
  }

  /** The loop of the pass. */
  method EvictAll(kv: KVStore, files: FileTable, inodes: seq<nat>, ready: nat -> bool)
    requires AllLoaded(kv, files)
    modifies kv, files.Values
    ensures AllLoaded(kv, files)
    ensures FileStates(kv, files) ==
              Dropped(old(FileStates(kv, files)), ChosenSoFar(files.Keys, inodes, ready))
    ensures AllGone(kv.data, ChosenSoFar(files.Keys, inodes, ready))
    ensures OthersSame(old(kv.data), kv.data, files.Keys)
  {
    hide AllLoaded, FileStates, Dropped, SameElsewhere, OthersSame, NoChunks, AllGone;
    ghost var fs, d0 := FileStates(kv, files), kv.data;
    ghost var victims: set<nat> := {};
    DroppedMore(fs, {}, 0);
    AllSame(d0, files.Keys);
    var n := 0;
    while n < |inodes|
      invariant 0 <= n <= |inodes| && AllLoaded(kv, files)
      invariant victims == ChosenSoFar(files.Keys, inodes[..n], ready)
      invariant FileStates(kv, files) == Dropped(fs, victims) && AllGone(kv.data, victims)
      invariant OthersSame(d0, kv.data, files.Keys)
      modifies kv, files.Values
    {
      var h := inodes[n];
      ChosenOneMore(files.Keys, inodes, n, ready);
      if h in files && ready(h) {
        ghost var d := kv.data;
        EvictFile(kv, files, h);
        DroppedMore(fs, victims, h);
        OneMoreGone(d, kv.data, victims, h);
        SameForTable(d0, d, kv.data, files.Keys, h);
        victims := victims + {h};
      }
      n := n + 1;
    }
    assert inodes[..|inodes|] == inodes;
  }

  lemma AllSame(d: Contents, names: set<nat>)
    ensures OthersSame(d, d, names) && AllGone(d, {})
  {
  }

  lemma SameForTable(d: Contents, d': Contents, d'': Contents, names: set<nat>, h: nat)
    requires OthersSame(d, d', names) && SameElsewhere(d', d'', h) && h in names
    ensures OthersSame(d, d'', names)
  {
    hide Print, SameElsewhere;
    ElsewhereIsOthers(d', d'', h);
    forall g: nat | g !in names ensures SameInode(d, d'', g) {
      assert SameInode(d, d', g) && SameInode(d', d'', g);
    }
  }

  /** `ProcessEvictions`: read the log from the eviction cursor to the tiered-out cursor, evict the
      regular files in it that are `ready`, and move the cursor past what was read. */
  method ProcessEvictions(log: FsChangeLog, kv: KVStore, files: FileTable, ready: nat -> bool)
    returns (handed: Log)
    requires log.Valid() && AllLoaded(kv, files)
    modifies log`evictionNextXid, kv, files.Values
    ensures handed == ReadRange(log.deque, log.nextXid, old(log.evictionNextXid), log.tieredOutXid)
    ensures forall e :: e in handed ==> e.xid.Some?
    ensures log.evictionNextXid ==
              (if handed != [] then handed[|handed| - 1].xid.value else log.tieredOutXid) + 1
    ensures AllLoaded(kv, files)
    ensures FileStates(kv, files) ==
              Dropped(old(FileStates(kv, files)), Chosen(files.Keys, handed, ready))
    ensures AllGone(kv.data, Chosen(files.Keys, handed, ready))
    ensures OthersSame(old(kv.data), kv.data, files.Keys)
    ensures forall h | h in files ::
              FileStates(kv, files)[h].evicted <==>
                old(FileStates(kv, files))[h].evicted || (Mentions(handed, h) && ready(h))
  {
    hide AllLoaded, FileStates, Dropped, OthersSame, AllGone, InodeSet, ReadRange, Mentions, Chosen,
         ChosenSoFar;
    var last := log.tieredOutXid;
    var read, _ := log.Read(log.evictionNextXid, last);
    handed := read;
    ReadBounds(log.deque, log.nextXid, log.evictionNextXid, last);
    var inodes := GetInodes(handed);
    if |handed| > 0 {
      assert handed[|handed| - 1] in handed;
      last := handed[|handed| - 1].xid.value;
    }
    ListedAreChosen(files.Keys, inodes, handed, ready);
    EvictAll(kv, files, inodes, ready);
    EvictedExactly(old(FileStates(kv, files)), handed, ready);
    log.evictionNextXid := last + 1;
  }

  lemma ListedAreChosen(names: set<nat>, inodes: seq<nat>, entries: Log, ready: nat -> bool)
    requires forall n :: n in inodes <==> n in InodeSet(entries)
    ensures ChosenSoFar(names, inodes, ready) == Chosen(names, entries, ready)
  {
    hide InodeSet;
  }

  /** The files evicted after the pass: those that were before, and those mentioned and ready. */
  lemma EvictedExactly(fs: map<nat, FileState>, entries: Log, ready: nat -> bool)
    ensures var fs' := Dropped(fs, Chosen(fs.Keys, entries, ready));
            forall h | h in fs ::
              h in fs' && (fs'[h].evicted <==> fs[h].evicted || (Mentions(entries, h) && ready(h)))
  {
    hide InodeSet, Mentions;
    InodeSetExactly(entries);
  }
}
