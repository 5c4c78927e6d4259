/** The whole mounted system over one store: every call of the code is a step of the protocol, and
    every read returns what a file system that never evicts would return. */
module Mounted {
  import opened Bytes
  import opened Store
  import opened FlatFile
  import opened FileRuns
  import opened Files
  import opened DirCodec
  import opened Readdir
  import opened Dirs
  import opened Volume
  import opened ChangeLog
  import opened Index
  import opened Paths
  import opened Windows
  import opened TieringOut
  import opened TieringIn
  import opened Eviction
  import opened Tiering
  import opened Cursors

  // ---- the snapshot loop as protocol steps ------------------------------------------------

  /** The entries read by all windows, in order. */
  function Gathered(windows: seq<Window>): Log
  {
    if windows == [] then []
    else Gathered(windows[..|windows| - 1]) + windows[|windows| - 1].entries
  }

  /** The state after the snapshot loop has persisted `windows`, up to `to`. */
  ghost function AfterWindows(s: Sys, to: int, index: seq<IndexedSegment>, tars: seq<Tar>,
                              windows: seq<Window>): Sys
  {
    s.(tieredOut := to, index := index, tars := s.tars + tars, tiered := s.tiered + Gathered(windows))
  }

  /** `n` windows, each of them possible. */
  ghost predicate SnapshotSteps(s: Sys, end: int, n: nat, s': Sys)
  {
    if n == 0 then s' == s
    else exists m: Sys :: SnapshotSteps(s, end, n - 1, m)
                          && Possible(m, Op.Snapshot(end)) && Step(m, Op.Snapshot(end), s')
  }

  lemma NoSteps(s: Sys, end: int)
    ensures SnapshotSteps(s, end, 0, s)
  {
  }

  lemma OneMoreStep(s: Sys, end: int, n: nat, m: Sys, s': Sys)
    requires SnapshotSteps(s, end, n, m)
    requires Possible(m, Op.Snapshot(end)) && Step(m, Op.Snapshot(end), s')
    ensures SnapshotSteps(s, end, n + 1, s')
  {
    hide Possible, Step;
  }

  lemma SomePath(s: Sys, entries: Log)
    requires TreeInv(s) && entries != [] && entries[0] in s.log
    ensures Downward(s.tree) && PathsOf(s.tree, InodeSet(entries)) != map[]
  {
    hide Path;
    var i :| 0 <= i < |s.log| && s.log[i] == entries[0];
    var h := entries[0].inode.value;
    InSet(entries, entries[0], h);
    RootHasPath(s.tree);
    assert h in PathsOf(s.tree, InodeSet(entries));
  }

  lemma SamePaths(s: Sys, w: Window)
    requires TreeOK(s.tree) && forall i :: i in w.inodes <==> i in InodeSet(w.entries)
    ensures PathsOfList(s.tree, w.inodes) == PathsOf(s.tree, InodeSet(w.entries))
  {
    hide Path, InodeSet;
    assert (set i | i in w.inodes) == InodeSet(w.entries);
  }

  lemma ArchivesLive(s: Sys, inodes: set<nat>, contents: map<nat, Str>, tar: Tar)
    requires Downward(s.tree) && HoldsResident(contents, s.files)
    requires forall h | h in s.files && h in inodes :: !s.files[h].evicted
    requires Archives(tar, PathsOf(s.tree, inodes), contents)
    ensures Archives(tar, PathsOf(s.tree, inodes), Tiering.Contents(s))
  {
    hide Path;
  }

  lemma FirstOfWindow(s: Sys, end: int, w: Window)
    requires LogInv(s) && WindowOK(s.log, s.next, end, w) && w.from == s.tieredOut + 1
    ensures WindowEntries(s, end) == w.entries && w.entries != [] && w.entries[0] in s.log
    ensures LastXidOf(w.entries, s.tieredOut) == w.last
    ensures w.first == s.next - |s.log| + FirstIndex(s.log, s.next, s.tieredOut + 1)
  {
    hide InodeSet;
    assert w.entries[0] == s.log[FirstIndex(s.log, s.next, s.tieredOut + 1)];
    WindowCursor(s, end);
  }

  /** What the persister did for the next window is a protocol step. */
  lemma WindowIsStep(s: Sys, end: int, w: Window, contents: map<nat, Str>, after: seq<IndexedSegment>, tar: Tar)
    requires TreeInv(s) && LogInv(s) && ClearOfEvicted(s) && HoldsResident(contents, s.files)
    requires w.from == s.tieredOut + 1 && WindowOK(s.log, s.next, end, w)
    requires PersistedOne(s.tree, contents, s.index, after, w, tar)
    ensures Possible(s, Op.Snapshot(end))
    ensures Step(s, Op.Snapshot(end), AfterWindows(s, w.last, after, [tar], [w]))
    ensures PathsOfList(s.tree, w.inodes) != map[]
  {
    hide Path, Lists, Archives, WindowEntries, LastXidOf, InodeSet, PathsOf, NextCursor, WindowOf,
         ClearOfEvicted, Gathered;
    FirstOfWindow(s, end, w);
    SomePath(s, w.entries);
    SamePaths(s, w);
    ClearWindow(s, end);
    ArchivesLive(s, InodeSet(w.entries), contents, tar);
    assert after == s.index + [after[|s.index|]];
    GatherOne(w);
  }

  lemma GatherOne(w: Window)
    ensures Gathered([w]) == w.entries
  {
    assert [w][..0] == [];
    assert Gathered([]) + w.entries == w.entries;
  }

  lemma StillClear(s: Sys, m: Sys)
    requires HasXids(s.log) && ClearOfEvicted(s)
    requires m.log == s.log && m.next == s.next && m.files == s.files && s.tieredOut <= m.tieredOut
    ensures ClearOfEvicted(m)
  {
    hide Lag;
    forall k: nat | OfEvicted(m, k) ensures m.log[k].xid.value + Lag(m.log, m.next, k) <= m.tieredOut {
      assert OfEvicted(s, k);
    }
  }

  lemma TwoParts(s: Sys, a: int, b: int, i: seq<IndexedSegment>, j: seq<IndexedSegment>,
                 tars: seq<Tar>, windows: seq<Window>)
    requires windows != [] && |tars| == |windows|
    ensures var n := |windows| - 1;
            AfterWindows(AfterWindows(s, a, i, tars[..n], windows[..n]), b, j, [tars[n]], [windows[n]])
            == AfterWindows(s, b, j, tars, windows)
  {
    var n := |windows| - 1;
    assert s.tars + tars == (s.tars + tars[..n]) + [tars[n]];
    GatherOne(windows[n]);
    assert s.tiered + Gathered(windows) == (s.tiered + Gathered(windows[..n])) + windows[n].entries;
  }

  /** The whole loop, on a log with or without gaps, is a run of protocol steps, one for each
      window. */
  lemma {:induction false} WindowsAreSteps(s: Sys, ref: Reference, end: int, windows: seq<Window>, to: int,
                                           contents: map<nat, Str>, after: seq<IndexedSegment>, tars: seq<Tar>)
    requires Inv(s, ref) && HasXids(s.log) && ClearOfEvicted(s) && HoldsResident(contents, s.files)
    requires Tiles(s.log, s.next, end, windows, s.tieredOut + 1, to)
    requires TreeOK(s.tree) && |tars| == |windows|
    requires Persisted(s.tree, contents, s.index, after, windows, tars)
    ensures s.tieredOut <= to
    ensures var s' := AfterWindows(s, to, after, tars, windows);
            SnapshotSteps(s, end, |windows|, s') && Inv(s', ref)
    decreases |windows|
  {
    hide Possible, Step, WindowOK, PersistedOne, PathsOfList, Inv, TreeOK, HoldsResident, SnapshotSteps,
         LogInv, TreeInv, ClearOfEvicted, AfterWindows, Gathered;
    if windows == [] {
      NothingDone(s, to, tars, windows);
      NoSteps(s, end);
    } else {
      var n := |windows| - 1;
      var w := windows[n];
      var k := if PathsOfList(s.tree, w.inodes) == map[] || after == [] then |after| else |after| - 1;
      WindowsAreSteps(s, ref, end, windows[..n], w.from - 1, contents, after[..k], tars[..n]);
      var m := AfterWindows(s, w.from - 1, after[..k], tars[..n], windows[..n]);
      AfterParts(s, w.from - 1, after[..k], tars[..n], windows[..n]);
      LastWindowOK(s.log, s.next, end, w);
      StillClear(s, m);
      InvParts(m, ref);
      WindowIsStep(m, end, w, contents, after, tars[n]);
      TwoParts(s, w.from - 1, to, after[..k], after, tars, windows);
      var s' := AfterWindows(s, to, after, tars, windows);
      OneMoreStep(s, end, n, m, s');
      StepInv(m, ref, Op.Snapshot(end), s');
    }
  }

  lemma SnapshotCursorStep(s: Sys, end: int, s': Sys, k: nat)
    requires LogInv(s) && end < s.next && s.tieredOut < end && OfEvicted(s, k)
    requires FirstIndex(s.log, s.next, s.tieredOut + 1) <= k
    requires Possible(s, Op.Snapshot(end)) && Step(s, Op.Snapshot(end), s')
    ensures s'.log == s.log && s'.next == s.next && s'.files == s.files
    ensures FirstIndex(s.log, s.next, s'.tieredOut + 1) <= k
  {
    hide InodeSet, Captured, Lag;
    WindowEnd(s.log, s.next, end, s.tieredOut);
    var j := WindowIndex(s.log, s.next, end, s.tieredOut);
    MeetsNoEvictedExactly(s, end);
    BeforeWindow(s, k);
    WindowCursor(s, end);
    XidBelowIndex(s.log, s.next, j);
  }

  /** The second condition on a snapshot is needed, too: if an evicted file has an entry that the loop
      would still read, no number of windows reaches the end of the log. */
  lemma {:induction false} EvictedStopsLoop(s: Sys, n: nat, s': Sys, k: nat)
    requires LogInv(s) && s.log != [] && s.next == LastId(s.log) + 1
    requires OfEvicted(s, k) && s.log[k].xid.value + Lag(s.log, s.next, k) > s.tieredOut
    requires SnapshotSteps(s, LastId(s.log), n, s')
    ensures s'.log == s.log && s'.next == s.next && s'.files == s.files && LogInv(s')
    ensures s'.tieredOut < LastId(s.log) && FirstIndex(s.log, s.next, s'.tieredOut + 1) <= k
    decreases n
  {
    hide Possible, Step;
    var end := LastId(s.log);
    BeforeWindow(s, k);
    if n > 0 {
      var m: Sys :| SnapshotSteps(s, end, n - 1, m)
                    && Possible(m, Op.Snapshot(end)) && Step(m, Op.Snapshot(end), s');
      EvictedStopsLoop(s, n - 1, m, k);
      StepLogInv(m, Op.Snapshot(end), s');
      SnapshotCursorStep(m, end, s', k);
    }
  }

  // ---- exactly when a snapshot reaches the end of the log -------------------------------------

  /** A window that finds entries and no evicted file can be taken. */
  lemma WindowExists(s: Sys, ref: Reference, end: int) returns (s': Sys)
    requires Inv(s, ref) && Possible(s, Op.Snapshot(end))
    ensures Step(s, Op.Snapshot(end), s') && Inv(s', ref)
    ensures s'.log == s.log && s'.next == s.next && s'.files == s.files
    ensures NextCursor(s.log, s.next, end, s.tieredOut) == Some(s'.tieredOut)
  {
    hide Inv, Path, Lists, Archives, WindowEntries, InodeSet, PathsOf, LastXidOf, TreeOK;
    InvParts(s, ref);
    var entries := WindowEntries(s, end);
    assert Downward(s.tree) by { Rooted(s.tree); }
    WindowRooted(s, end);
    var paths := PathsOf(s.tree, InodeSet(entries));
    var inodes := ListsExist(paths);
    var tar := ArchiveExists(s.tree, InodeSet(entries), Tiering.Contents(s));
    var t, first := LastXidOf(entries, s.tieredOut), s.next - |s.log| + FirstIndex(s.log, s.next, s.tieredOut + 1);
    WindowCursor(s, end);
    s' := s.(tieredOut := t, index := s.index + [IndexedSegment(|s.tars|, first, t, inodes)],
             tars := s.tars + [tar], tiered := s.tiered + entries);
    StepInv(s, ref, Op.Snapshot(end), s');
  }

  lemma WindowRooted(s: Sys, end: int)
    requires TreeInv(s)
    ensures forall h | h in InodeSet(WindowEntries(s, end)) :: ROOT <= h
  {
    hide Path;
    var w := WindowEntries(s, end);
    forall h | h in InodeSet(w) ensures ROOT <= h {
      var n := FindInode(w, h);
      assert w[n] == s.log[FirstIndex(s.log, s.next, s.tieredOut + 1) + n];
    }
  }

  lemma {:induction false} ReachesEnd(s: Sys, n: nat, m: Sys, ref: Reference) returns (n': nat, s': Sys)
    requires Inv(m, ref) && HasXids(m.log) && m.log != [] && ClearOfEvicted(m)
    requires Completes(m.log, m.next, m.tieredOut) && SnapshotSteps(s, LastId(m.log), n, m)
    ensures n' > 0 && SnapshotSteps(s, LastId(m.log), n', s') && s'.tieredOut == LastId(m.log)
    decreases LastId(m.log) - m.tieredOut
  {
    hide Inv, Possible, Step, SnapshotSteps, Completes, ClearOfEvicted, NextCursor;
    var end := LastId(m.log);
    InvParts(m, ref);
    CompletesStep(m.log, m.next, m.tieredOut);
    CanTakeWindow(m, end);
    s' := WindowExists(m, ref, end);
    OneMoreStep(s, end, n, m, s');
    n' := n + 1;
    if s'.tieredOut < end {
      StillClear(m, s');
      n', s' := ReachesEnd(s, n + 1, s', ref);
    }
  }

  lemma CanTakeWindow(s: Sys, end: int)
    requires LogInv(s) && ClearOfEvicted(s) && NextCursor(s.log, s.next, end, s.tieredOut).Some?
    ensures Possible(s, Op.Snapshot(end))
  {
    hide InodeSet, ClearOfEvicted;
    ClearWindow(s, end);
  }

  /** Where the loop cannot end it stays short of the end, however many windows it takes. */
  lemma {:induction false} NeverReachesEnd(s: Sys, n: nat, s': Sys)
    requires LogInv(s) && s.log != [] && !Completes(s.log, s.next, s.tieredOut)
    requires SnapshotSteps(s, LastId(s.log), n, s')
    ensures s'.log == s.log && s'.next == s.next && LogInv(s')
    ensures !Completes(s.log, s.next, s'.tieredOut) && (n > 0 ==> s'.tieredOut < LastId(s.log))
    decreases n
  {
    hide Possible, Step, Completes;
    var end := LastId(s.log);
    if n > 0 {
      var m: Sys :| SnapshotSteps(s, end, n - 1, m)
                    && Possible(m, Op.Snapshot(end)) && Step(m, Op.Snapshot(end), s');
      NeverReachesEnd(s, n - 1, m);
      StepLogInv(m, Op.Snapshot(end), s');
      WindowMoves(m, end, s');
      StuckStays(m.log, m.next, m.tieredOut);
    }
  }

  lemma WindowMoves(s: Sys, end: int, s': Sys)
    requires LogInv(s) && Possible(s, Op.Snapshot(end)) && Step(s, Op.Snapshot(end), s')
    ensures s'.log == s.log && s'.next == s.next
    ensures NextCursor(s.log, s.next, end, s.tieredOut) == Some(s'.tieredOut)
  {
    hide Captured, InodeSet, LastXidOf;
    WindowCursor(s, end);
  }

  /** Some number of windows takes the cursor from here to the end of the log. */
  ghost predicate CanReachEnd(s: Sys)
    requires HasXids(s.log)
  {
    exists n: nat, s': Sys :: n > 0 && SnapshotSteps(s, LastId(s.log), n, s') && s'.tieredOut == LastId(s.log)
  }

  /** A snapshot can reach the end of the log if and only if the loop on that log ends and no evicted
      file has an entry that it would still read. */
  lemma SnapshotReachesEndExactly(s: Sys, ref: Reference)
    requires Inv(s, ref) && HasXids(s.log) && s.log != []
    ensures CanReachEnd(s) <==> Completes(s.log, s.next, s.tieredOut) && ClearOfEvicted(s)
  {
    hide Inv, SnapshotSteps, Advances, Lag, LogInv;
    InvParts(s, ref);
    if Completes(s.log, s.next, s.tieredOut) && ClearOfEvicted(s) {
      NoSteps(s, LastId(s.log));
      var n, s' := ReachesEnd(s, 0, s, ref);
    }
    if CanReachEnd(s) {
      var n: nat, s': Sys :| n > 0 && SnapshotSteps(s, LastId(s.log), n, s') && s'.tieredOut == LastId(s.log);
      if !Completes(s.log, s.next, s.tieredOut) {
        NeverReachesEnd(s, n, s');
      } else if !ClearOfEvicted(s) {
        var k: nat :| OfEvicted(s, k) && s.log[k].xid.value + Lag(s.log, s.next, k) > s.tieredOut;
        EvictedStopsLoop(s, n, s', k);
      }
    }
  }

  lemma LastWindowOK(q: Log, next: int, end: int, w: Window)
    requires HasXids(q) && WindowOK(q, next, end, w)
    ensures w.from <= w.last
  {
  }

  lemma NothingDone(s: Sys, to: int, tars: seq<Tar>, windows: seq<Window>)
    requires tars == [] && windows == [] && to == s.tieredOut
    ensures AfterWindows(s, to, s.index, tars, windows) == s
  {
  }

  lemma AfterParts(s: Sys, to: int, index: seq<IndexedSegment>, tars: seq<Tar>, windows: seq<Window>)
    ensures var m := AfterWindows(s, to, index, tars, windows);
            && m.log == s.log && m.next == s.next && m.files == s.files && m.tree == s.tree
            && m.tieredOut == to && m.index == index
  {
  }

  // ---- the mounted system -----------------------------------------------------------------

  class Mount {
    const vol: FileSystem
    const log: FsChangeLog
    const index: IndexManager
    var tree: Tree
    var nextIno: nat
    var tars: seq<Tar>
    ghost var tiered: Log
    ghost var handed: Log
    ghost var ref: Reference       // what a file system that never evicts would hold

    /** The objects agree with the store, and the directories with the recorded paths. */
    ghost predicate Stored()
      reads this, vol, vol.repr
    {
      && vol.Valid() && log as object !in vol.repr && index as object !in vol.repr
      && this as object !in vol.repr && vol as object !in vol.repr
      && Placed(tree, vol.Data().Keys, vol.Names(), nextIno)
    }

    /** The protocol state that the store, the log and the index stand for. */
    ghost function Abs(): Sys
      requires vol.Valid()
      reads this, log, index, vol, vol.repr
    {
      Sys(tree, vol.Data(), log.deque, log.nextXid, log.tieredOutXid, log.evictionNextXid,
          index.segments, tars, tiered, handed)
    }

    ghost predicate Valid()
      reads this, log, index, vol, vol.repr
    {
      Stored() && Inv(Abs(), ref)
    }

    /** A fresh mount: `createRoot` makes the root directory and logs it. */
    constructor (fsId: Inum, hash: Hash, chunkSize: nat)
      ensures Valid() && Abs() == INIT && ref == map[] && nextIno == 2
      ensures vol.Names() == map[ROOT := Dots(ROOT, ROOT)]
      ensures fresh(vol) && fresh(vol.repr) && fresh(log) && fresh(index)
    {
      hide FileSystem.Valid, FileSystem.Data, FileSystem.Names, Placed, Dots, Inv, Gapless;
      PlacedRoot();
      InitInv();
      index := new IndexManager();
      tree, nextIno, tars := map[], 2, [];
      tiered, handed, ref := [], [], map[];
      var changes := RootLog();
      log := changes;
      vol := new FileSystem(fsId, hash, chunkSize);
      new;
      vol.Kinds();
      assert vol.Data().Keys == {};
    }

    /** `Create` and `Mkdir`: a free name gets a new inode, entered in the parent's stored partition
        and logged; a name already there is an error without effect. */
    method Create(parent: nat, name: Str, isDir: bool, chunkSize: nat) returns (status: Status)
      requires Valid() && parent in vol.Names() && parent < TWO_64 && name != [] && SLASH !in name
      requires log.nextXid < XID_MAX && nextIno < TWO_64 && 0 < chunkSize < TWO_32
      modifies this, log, vol, vol.repr
      ensures Valid()
      ensures status == if name in old(vol.Names())[parent] then InternalError else StatusOk
      ensures status != StatusOk ==>
                Abs() == old(Abs()) && ref == old(ref) && vol.Names() == old(vol.Names())
      ensures status == StatusOk ==>
                var op := Op.Create(old(nextIno), PathInfo(parent, name), isDir);
                && Enabled(old(Abs()), op) && Step(old(Abs()), op, Abs()) && ref == RefStep(old(ref), op)
                && vol.Names() == WithEntry(old(vol.Names()), parent, name, old(nextIno), isDir)
                && log.deque == old(log.deque) + [LogEntry(Some(old(log.nextXid)), Some(old(nextIno)))]
                && vol.Data() == (if isDir then old(vol.Data()) else old(vol.Data())[old(nextIno) := FileState([], false)])
                && tree == old(tree)[old(nextIno) := PathInfo(parent, name)] && nextIno == old(nextIno) + 1
                && StoredInode(vol.kv.data, old(nextIno), chunkSize)
      ensures fresh(vol.repr - old(vol.repr))
    {
      hide FileSystem.Valid, FileSystem.Data, FileSystem.Names, Inv, Placed, Possible, Guarded, Step, RefStep,
           WithEntry, WithFile, Ordered, Gapless;
      NameIsFree(tree, vol.Data().Keys, vol.Names(), nextIno, parent, name);
      var child := vol.Find(parent, name);
      if child != 0 {
        return InternalError;
      }
      CreateAt(parent, name, isDir, chunkSize);
      WithFileIs(old(vol.Data()), old(nextIno), isDir);
      status := StatusOk;
    }

    /** The same for a name known to be free. */
    method CreateAt(parent: Inum, name: Str, isDir: bool, chunkSize: nat)
      requires Valid() && parent in vol.Names() && name !in vol.Names()[parent]
      requires name != [] && SLASH !in name
      requires log.nextXid < XID_MAX && nextIno < TWO_64 && 0 < chunkSize < TWO_32
      modifies this, log, vol, vol.repr
      ensures Valid()
      ensures var op := Op.Create(old(nextIno), PathInfo(parent, name), isDir);
              && Enabled(old(Abs()), op) && Step(old(Abs()), op, Abs()) && ref == RefStep(old(ref), op)
              && vol.Names() == WithEntry(old(vol.Names()), parent, name, old(nextIno), isDir)
      ensures log.deque == old(log.deque) + [LogEntry(Some(old(log.nextXid)), Some(old(nextIno)))]
      ensures vol.Data() == WithFile(old(vol.Data()), old(nextIno), isDir)
      ensures tree == old(tree)[old(nextIno) := PathInfo(parent, name)] && nextIno == old(nextIno) + 1
      ensures StoredInode(vol.kv.data, old(nextIno), chunkSize)
      ensures fresh(vol.repr - old(vol.repr))
    {
      hide FileSystem.Valid, FileSystem.Data, FileSystem.Names, Inv, Placed, Possible, Guarded, Step, RefStep,
           WithEntry, WithFile, Ordered, Gapless, StoredInode;
      var h: Inum := nextIno;
      ghost var s, op := Abs(), Op.Create(h, PathInfo(parent, name), isDir);
      NameIsFree(tree, s.files.Keys, vol.Names(), nextIno, parent, name);
      PlacedCreate(tree, s.files.Keys, vol.Names(), h, parent, name, isDir);
      CanCreate(s, ref, vol.Names(), h, parent, name, isDir);
      BelowNext(log.deque, log.nextXid);
      var xid := log.NextXid();
      tree, nextIno, ref := tree[h := PathInfo(parent, name)], nextIno + 1, RefStep(ref, op);
      vol.Create(h, parent, name, isDir, chunkSize);
      var _ := log.Append(LogEntry(Some(xid), Some(h)));
      CreateIsStep(s, op, Abs());
      StepInv(s, old(ref), op, Abs());
    }

    /** A logged `write` or `SetSize`.  On an evicted file it goes wrong unless it changes nothing. */
    method Change(h: nat, op: FileOp)
      requires Valid() && h in vol.Data() && !op.Read? && InRange(op) && log.nextXid < XID_MAX
      modifies this`ref, log`deque, log`nextXid, vol.repr
      ensures Stored() && vol.Names() == old(vol.Names()) && h in old(ref) && h in vol.Data()
      ensures vol.Data() == old(vol.Data())[h := old(vol.Data())[h].(raw := FlatStep(old(vol.Data())[h].raw, op))]
      ensures log.deque == old(log.deque) + [LogEntry(Some(old(log.nextXid)), Some(h))]
      ensures ref == old(ref)[h := FlatStep(old(ref)[h], op)]
      ensures Step(old(Abs()), Op.Change(h, op), Abs()) && ref == RefStep(old(ref), Op.Change(h, op))
      ensures Valid() <==> (old(vol.Data())[h].evicted ==> FlatStep(old(ref)[h], op) == old(ref)[h])
    {
      hide FileSystem.Valid, FileSystem.Data, FileSystem.Names, Inv, Placed, FlatStep, Step, RefStep, Ordered,
           Gapless, InRange, Possible;
      ghost var s := Abs();
      CanChange(s, ref, h, op);
      ref := RefStep(ref, Op.Change(h, op));
      vol.Change(h, op);
      var _ := log.Append(LogEntry(None, Some(h)));
      ChangeIsStep(s, h, op, Abs());
      RefChange(old(ref), h, op);
      ChangeKeepsInvExactly(s, old(ref), Op.Change(h, op), Abs());
    }

    /** An id that no entry carries. */
    method SkipXid()
      requires Valid() && log.nextXid < XID_MAX
      modifies log`nextXid
      ensures Valid() && vol.Names() == old(vol.Names()) && Step(old(Abs()), Op.SkipXid, Abs())
    {
      hide FileSystem.Valid, FileSystem.Data, FileSystem.Names, Inv, Placed, Ordered;
      ghost var s := Abs();
      LogIsOrdered(s, ref);
      var _ := log.NextXid();
      StepInv(s, ref, Op.SkipXid, Abs());
    }

    /** A read, faulting evicted data back in through the index: the buffer receives what a file
        system that never evicts would deliver, for every pace of the short reads. */
    method Read(h: nat, off: nat, len: nat, buf: array<byte>, pace: nat -> nat) returns (n: nat)
      requires Valid() && h in vol.Data() && off + len <= OFF_MAX
      requires ReadExtent(|vol.Data()[h].raw|, off, len, vol.ChunkSize(h)) <= buf.Length
      modifies vol.repr, buf
      ensures Valid() && vol.Names() == old(vol.Names())
      ensures Possible(old(Abs()), Op.Fetch(h, off, len)) && Step(old(Abs()), Op.Fetch(h, off, len), Abs())
      ensures n <= buf.Length && h in ref && h in vol.Data()
      ensures buf[..n] == FlatRead(ref[h], off, len, vol.ChunkSize(h))
      ensures off <= |ref[h]| ==>
                && n == (if off + len <= |ref[h]| then len else |ref[h]| - off)
                && buf[..n] == ref[h][off..off + n]
      ensures buf[n..] == old(buf[n..])
    {
      hide FileSystem.Valid, FileSystem.Data, FileSystem.Names, FileSystem.ChunkSize, Inv, Placed, FlatRead,
           Copy, ReadExtent;
      ghost var s := Abs();
      DeliversReference(s, ref, h);
      var source := Open(index, tars, h);
      vol.Kinds();
      n := vol.Fetch(h, source, off, len, buf, pace);
      assert vol.Data().Keys == s.files.Keys;
      FetchInv(s, ref, Op.Fetch(h, off, len), Abs());
      if off <= |ref[h]| {
        ReadDelivers(ref[h], off, len, vol.ChunkSize(h));
      }
    }

    /** One pass of the eviction agent, without any check that its victims are settled.  All is well
        afterwards if and only if the latest copy of each victim is its current contents, as it is
        for every settled one. */
    method EvictionPass(ready: nat -> bool) returns (ghost victims: set<nat>)
      requires Valid()
      modifies this`handed, log`evictionNextXid, vol.repr
      ensures victims == Chosen(old(vol.Data()).Keys, old(PassEntries(Abs())), ready)
      ensures victims <= ref.Keys
      ensures Stored() && vol.Names() == old(vol.Names()) && AllGone(vol.kv.data, victims)
      ensures forall h | h in old(vol.Data()) ::
                h in vol.Data() && (vol.Data()[h].evicted <==>
                  old(vol.Data())[h].evicted || (Mentions(old(PassEntries(Abs())), h) && ready(h)))
      ensures Possible(old(Abs()), Op.Evict(victims)) && Step(old(Abs()), Op.Evict(victims), Abs())
      ensures Valid() <==> forall h | h in victims :: Copy(index.segments, tars, h) == Some(ref[h])
      ensures (forall h | h in victims :: Settled(log.deque, log.tieredOutXid, h)) ==> Valid()
    {
      hide FileSystem.Valid, FileSystem.Data, FileSystem.Names, Inv, Placed, InodeSet, Settled, ReadRange,
           Possible, Step, Ordered, Dropped, LastXidOf, Chosen, Copy, AllGone, Mentions;
      ghost var s := Abs();
      LogIsOrdered(s, ref);
      victims := Chosen(s.files.Keys, PassEntries(s), ready);
      ChosenAreListed(s, ref, ready);
      var entries := vol.Evict(log, ready);
      handed := handed + entries;
      LastEntry(entries, s.tieredOut);
      EvictIsStep(s, victims, Abs());
      EvictKeepsInvExactly(s, ref, Op.Evict(victims), Abs());
      if forall h | h in victims :: Settled(s.log, s.tieredOut, h) {
        SettledCopies(s, ref, victims);
      }
    }

    /** A whole snapshot, on a log with or without gaps: one protocol step for each window, up to
        the end of the log. */
    method Snapshot() returns (windows: seq<Window>)
      requires Valid() && log.deque != [] && HasXids(log.deque)
      requires Completes(log.deque, log.nextXid, log.tieredOutXid) && ClearOfEvicted(Abs())
      modifies this`tars, this`tiered, log`tieredOutXid, index, vol.repr
      ensures Valid() && vol.Names() == old(vol.Names())
      ensures SnapshotSteps(old(Abs()), LastId(log.deque), |windows|, Abs())
      ensures log.tieredOutXid == LastId(log.deque)
      ensures forall h | h in vol.Data() :: h in ref && Copy(index.segments, tars, h) == Some(ref[h])
    {
      hide FileSystem.Valid, FileSystem.Data, FileSystem.Names, Inv, Placed, Tiles, Persisted, IndexedUpTo,
           SnapshotSteps, HoldsResident, Ordered, TreeOK, InodesRooted, Completes, ClearOfEvicted, Gathered,
           Copy;
      var contents := vol.Snap();
      ghost var s := Abs();
      SnapshotReady(s, ref);
      var more;
      windows, more := TieringOut.Snapshot(log, index, tree, contents);
      WindowsAreSteps(s, ref, LastId(s.log), windows, log.tieredOutXid, contents, index.segments, more);
      tars := tars + more;
      tiered := tiered + Gathered(windows);
      assert Abs() == AfterWindows(s, log.tieredOutXid, index.segments, more, windows);
      AllTieredOut(Abs(), ref);
    }
  }

  lemma WithFileIs(fs: map<nat, FileState>, h: nat, isDir: bool)
    ensures WithFile(fs, h, isDir) == if isDir then fs else fs[h := FileState([], false)]
  {
  }

  /** The change log once the root directory has been logged. */
  method RootLog() returns (log: FsChangeLog)
    ensures fresh(log) && log.deque == [ROOT_ENTRY] && log.nextXid == 2
    ensures log.tieredOutXid == log.evictionNextXid == 0
  {
    log := new FsChangeLog(0, 1);
    var _ := log.Append(LogEntry(None, Some(ROOT)));
  }

  lemma BelowNext(q: Log, next: int)
    requires Ordered(q, next)
    ensures HasXids(q) && forall i :: 0 <= i < |q| ==> q[i].xid.value < next
  {
  }

  lemma LogIsOrdered(s: Sys, ref: Reference)
    requires Inv(s, ref)
    ensures Ordered(s.log, s.next)
  {
  }

  lemma CanChange(s: Sys, ref: Reference, h: nat, op: FileOp)
    requires Inv(s, ref) && h in s.files && !op.Read? && s.next < XID_MAX
    ensures Possible(s, Op.Change(h, op)) && Ordered(s.log, s.next) && h in ref
  {
    hide Copy, Settled, Path;
  }

  lemma RefChange(ref: Reference, h: nat, op: FileOp)
    requires h in ref
    ensures RefStep(ref, Op.Change(h, op)) == ref[h := FlatStep(ref[h], op)]
  {
    hide FlatStep;
  }

  lemma ChangeIsStep(s: Sys, h: nat, op: FileOp, s': Sys)
    requires h in s.files && s' == Append(s, h).(files := Changed(s.files, h, op))
    ensures Step(s, Op.Change(h, op), s') && s'.files.Keys == s.files.Keys
  {
    hide FlatStep;
  }

  lemma DeliversReference(s: Sys, ref: Reference, h: nat)
    requires Inv(s, ref) && h in s.files
    ensures h in ref && Delivered(s, h) == Some(ref[h])
    ensures s.files[h].evicted ==> Copy(s.index, s.tars, h) == Some(ref[h]) && |ref[h]| == |s.files[h].raw|
  {
    hide Copy, Settled, TreeInv, LogInv;
    assert FileInv(s, ref, h);
  }

  lemma ChosenAreListed(s: Sys, ref: Reference, ready: nat -> bool)
    requires Inv(s, ref)
    ensures forall h | h in Chosen(s.files.Keys, PassEntries(s), ready) ::
              h in s.files && h in InodeSet(PassEntries(s)) && h in ref
  {
    hide InodeSet, PassEntries, TreeInv, LogInv, Copy, Settled;
  }

  lemma LastEntry(entries: Log, t: int)
    requires forall e :: e in entries ==> e.xid.Some?
    ensures LastXidOf(entries, t) == if entries != [] then entries[|entries| - 1].xid.value else t
  {
    if entries != [] { assert entries[|entries| - 1] in entries; }
  }

  lemma EvictIsStep(s: Sys, victims: set<nat>, s': Sys)
    requires forall h | h in victims :: h in s.files && h in InodeSet(PassEntries(s))
    requires s' == s.(files := Dropped(s.files, victims),
                      evictNext := LastXidOf(PassEntries(s), s.tieredOut) + 1,
                      handed := s.handed + PassEntries(s))
    ensures Possible(s, Op.Evict(victims)) && Step(s, Op.Evict(victims), s')
    ensures s'.files.Keys == s.files.Keys
  {
    hide InodeSet, PassEntries, LastXidOf;
  }

  /** Once the cursor is at the end of the log, every file has a current copy. */
  lemma AllTieredOut(s: Sys, ref: Reference)
    requires Inv(s, ref) && HasXids(s.log) && s.tieredOut == LastId(s.log)
    ensures forall h | h in s.files :: h in ref && Copy(s.index, s.tars, h) == Some(ref[h])
  {
    hide Copy, TreeInv;
    forall h | h in s.files ensures h in ref && Copy(s.index, s.tars, h) == Some(ref[h]) {
      assert FileInv(s, ref, h);
    }
  }

  lemma SettledCopies(s: Sys, ref: Reference, victims: set<nat>)
    requires Inv(s, ref) && victims <= s.files.Keys && forall h | h in victims :: Settled(s.log, s.tieredOut, h)
    ensures forall h | h in victims :: h in ref && Copy(s.index, s.tars, h) == Some(ref[h])
  {
    hide Copy, Settled, TreeInv, LogInv;
    forall h | h in victims ensures h in ref && Copy(s.index, s.tars, h) == Some(ref[h]) {
      assert FileInv(s, ref, h);
    }
  }

  lemma SnapshotReady(s: Sys, ref: Reference)
    requires Inv(s, ref)
    ensures Ordered(s.log, s.next) && InodesRooted(s.log) && TreeOK(s.tree)
  {
    hide Path, Settled, Copy;
  }

  lemma CanCreate(s: Sys, ref: Reference, t: Tables, h: nat, parent: nat, name: Str, isDir: bool)
    requires Inv(s, ref) && Placed(s.tree, s.files.Keys, t, h) && parent in t && name !in t[parent]
    requires name != [] && SLASH !in name && s.next < XID_MAX
    ensures Enabled(s, Op.Create(h, PathInfo(parent, name), isDir)) && Ordered(s.log, s.next)
  {
    hide Inv, Placed, Ordered;
    LogIsOrdered(s, ref);
    NameIsFree(s.tree, s.files.Keys, t, h, parent, name);
  }

  lemma CreateIsStep(s: Sys, op: Op, s': Sys)
    requires op.Create?
    requires s' == Append(s, op.h).(tree := s.tree[op.h := op.info],
                                    files := WithFile(s.files, op.h, op.isDir))
    ensures Step(s, op, s')
    ensures s'.files.Keys == if op.isDir then s.files.Keys else s.files.Keys + {op.h}
  {
  }
}
