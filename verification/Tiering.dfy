/** The tiering protocol as a state machine: changes, snapshot windows, evictions, fault-in reads. */
module Tiering {
  import opened Bytes
  import opened FlatFile
  import opened ChangeLog
  import opened Index
  import opened Paths
  import opened Windows
  import opened TieringOut

  const XID_MAX := 0x7FFF_FFFF_FFFF_FFFF

  type Tar = map<Str, Str>

  /** `tiered` and `handed` record the log entries covered by snapshot windows, and those given to
      eviction passes, in order; no step depends on them. */
  datatype Sys = Sys(
    tree: Tree,
    files: map<nat, FileState>,
    log: Log,
    next: int,
    tieredOut: int,
    evictNext: int,
    index: seq<IndexedSegment>,
    tars: seq<Tar>,
    tiered: Log,
    handed: Log)

  /** A fresh mount: the root directory was created, and logged, and that is all. */
  const INIT := Sys(map[], map[], [ROOT_ENTRY], 2, 0, 0, [], [], [], [])

  const ROOT_ENTRY := LogEntry(Some(1), Some(ROOT))

  /** The reference: a file system that never evicts. */
  type Reference = map<nat, Str>

  datatype Op =
    | Create(h: nat, info: PathInfo, isDir: bool)
    | Change(h: nat, op: FileOp)             // write or SetSize, logged
    | SkipXid                                // an id allocated and never logged
    | Snapshot(end: int)                     // one window of the snapshot loop
    | Evict(victims: set<nat>)               // one eviction pass
    | Fetch(h: nat, off: nat, len: nat)      // a read

  // ---- the steps --------------------------------------------------------------------------

  function Append(s: Sys, inode: nat): Sys
  {
    s.(log := s.log + [LogEntry(Some(s.next), Some(inode))], next := s.next + 1)
  }

  /** No change of `h` is newer than the tiered-out cursor. */
  ghost predicate Settled(log: Log, tieredOut: int, h: nat)
  {
    forall k | 0 <= k < |log| && log[k].inode == Some(h) && log[k].xid.Some? ::
      log[k].xid.value <= tieredOut
  }

  /** The copy that `TieringInAgent::Open` delivers: the latest indexed segment holding `h`, and in
      its tarball the file under the recorded path. */
  function Copy(index: seq<IndexedSegment>, tars: seq<Tar>, h: nat): Option<Str>
  {
    var k := Latest(index, h, XID_MAX);
    if k.None? then None
    else
      var path := OffsetIn(index[k.value].inodes, h).pathname;
      if index[k.value].id < |tars| && path in tars[index[k.value].id]
      then Some(tars[index[k.value].id][path]) else None
  }

  /** The log entries that the next window reads. */
  function WindowEntries(s: Sys, end: int): Log
  {
    WindowOf(s.log, s.next, end, s.tieredOut)
  }

  function PassEntries(s: Sys): Log
  {
    ReadRange(s.log, s.next, s.evictNext, s.tieredOut)
  }

  ghost function Contents(s: Sys): map<nat, Str>
  {
    map h | h in s.files :: s.files[h].raw
  }

  /** What a snapshot window may produce: a segment listing the paths of its inodes, and a tarball
      with the bytes of those that are files. */
  ghost predicate Captured(s: Sys, inodes: set<nat>, seg: IndexedSegment, tar: Tar)
  {
    && Downward(s.tree)
    && Lists(seg.inodes, PathsOf(s.tree, inodes))
    && Archives(tar, PathsOf(s.tree, inodes), Contents(s))
  }

  /** What a read delivers.  An evicted file comes from its copy, and the process stops (`None`) at
      an assertion if the copy has another size; without a copy the read goes on over the holes. */
  function Delivered(s: Sys, h: nat): Option<Str>
    requires h in s.files
  {
    var f, copy := s.files[h], Copy(s.index, s.tars, h);
    if !f.evicted || copy.None? then Some(f.raw)
    else if |copy.value| == |f.raw| then copy
    else None
  }

  /** What the code can do.  A window must find an entry, and no evicted file, which the snapshot
      mount cannot read; a read must get past the size assertion. */
  ghost predicate Possible(s: Sys, op: Op)
  {
    match op
    case Create(h, info, _) =>
      && h > ROOT && (forall i | i in s.tree :: i < h)
      && info.name != [] && SLASH !in info.name
      && (info.parent == ROOT || info.parent in s.tree)
      && (forall i | i in s.tree :: s.tree[i] != info)
      && s.next < XID_MAX
    case Change(h, op) => h in s.files && !op.Read? && s.next < XID_MAX
    case SkipXid => s.next < XID_MAX
    case Snapshot(end) =>
      && WindowEntries(s, end) != []
      && forall h | h in s.files && h in InodeSet(WindowEntries(s, end)) :: !s.files[h].evicted
    case Evict(victims) => forall h | h in victims :: h in s.files && h in InodeSet(PassEntries(s))
    case Fetch(h, _, _) => h in s.files && Delivered(s, h).Some?
  }

  /** What the code leaves to luck: a file is only evicted when nothing newer than the tiered-out
      cursor touched it, and an evicted file is read back before it is changed. */
  ghost predicate Guarded(s: Sys, op: Op)
  {
    match op
    case Change(h, _) => h in s.files && !s.files[h].evicted
    case Evict(victims) => forall h | h in victims :: Settled(s.log, s.tieredOut, h)
    case _ => true
  }

  ghost predicate Enabled(s: Sys, op: Op)
  {
    Possible(s, op) && Guarded(s, op)
  }

  function LastXidOf(entries: Log, default: int): int
  {
    if entries != [] && entries[|entries| - 1].xid.Some? then entries[|entries| - 1].xid.value
    else default
  }

  /** One step.  Only a snapshot leaves a choice: the tarball's layout. */
  ghost predicate Step(s: Sys, op: Op, s': Sys)
  {
    match op
    case Create(h, info, isDir) =>
      s' == Append(s, h).(tree := s.tree[h := info],
                          files := if isDir then s.files else s.files[h := FileState([], false)])
    case Change(h, op) =>
      h in s.files &&
      s' == Append(s, h).(files := s.files[h := FileState(FlatStep(s.files[h].raw, op), s.files[h].evicted)])
    case SkipXid => s' == s.(next := s.next + 1)
    case Snapshot(end) =>
      var entries := WindowEntries(s, end);
      && |s'.index| == |s.index| + 1 && |s'.tars| == |s.tars| + 1
      && var seg, tar := s'.index[|s.index|], s'.tars[|s.tars|];
      && seg.id == |s.tars| && seg.lastXid == LastXidOf(entries, s.tieredOut)
      && seg.firstXid == s.next - |s.log| + FirstIndex(s.log, s.next, s.tieredOut + 1)
      && Captured(s, InodeSet(entries), seg, tar)
      && s' == s.(tieredOut := LastXidOf(entries, s.tieredOut),
                  index := s.index + [seg], tars := s.tars + [tar], tiered := s.tiered + entries)
    case Evict(victims) =>
      s' == s.(files := map h | h in s.files ::
                          if h in victims then FileState(Zeros(|s.files[h].raw|), true) else s.files[h],
               evictNext := LastXidOf(PassEntries(s), s.tieredOut) + 1,
               handed := s.handed + PassEntries(s))
    case Fetch(h, _, _) =>
      h in s.files && Delivered(s, h).Some? &&
      s' == if s.files[h].evicted && Copy(s.index, s.tars, h).Some?
            then s.(files := s.files[h := FileState(Copy(s.index, s.tars, h).value, false)])
            else s
  }

  function RefStep(ref: Reference, op: Op): Reference
  {
    match op
    case Create(h, _, isDir) => if isDir then ref else ref[h := []]
    case Change(h, op) => if h in ref then ref[h := FlatStep(ref[h], op)] else ref
    case _ => ref
  }

  // ---- the invariant ----------------------------------------------------------------------

  ghost predicate TreeInv(s: Sys)
  {
    && TreeOK(s.tree)
    && (forall i | i in s.tree :: Path(s.tree, i).Some?)
    && s.files.Keys <= s.tree.Keys
    && (forall k | 0 <= k < |s.log| ::
          s.log[k].inode.Some? && (s.log[k].inode.value == ROOT || s.log[k].inode.value in s.tree))
  }

  ghost predicate LogInv(s: Sys)
  {
    && Ordered(s.log, s.next) && 0 <= s.tieredOut < s.next <= XID_MAX
    && (forall k | 0 <= k < |s.log| :: 1 <= s.log[k].xid.value)
    && |s.tars| == |s.index|
    && (forall k | 0 <= k < |s.index| :: s.index[k].id == k && s.index[k].lastXid <= XID_MAX)
    && s.tieredOut == if s.index == [] then 0 else s.index[|s.index| - 1].lastXid
  }

  /** A resident file's chunks, and the tiered copy of an evicted or settled file, are what the
      reference file system holds. */
  ghost predicate FileInv(s: Sys, ref: Reference, h: nat)
    requires h in s.files && h in ref
  {
    && (!s.files[h].evicted ==> s.files[h].raw == ref[h])
    && (s.files[h].evicted ==> |s.files[h].raw| == |ref[h]|)
    && (s.files[h].evicted || Settled(s.log, s.tieredOut, h) ==>
          Copy(s.index, s.tars, h) == Some(ref[h]))
  }

  ghost predicate Inv(s: Sys, ref: Reference)
  {
    && TreeInv(s) && LogInv(s) && s.files.Keys == ref.Keys
    && forall h | h in s.files :: FileInv(s, ref, h)
  }

  // ---- every step keeps the invariant -----------------------------------------------------

  lemma InitInv()
    ensures Inv(INIT, map[])
  {
  }

  lemma AppendKeepsLog(s: Sys, h: nat)
    requires LogInv(s) && s.next < XID_MAX
    ensures LogInv(Append(s, h))
  {
  }

  lemma SettledAfterAppend(s: Sys, h: nat, g: nat)
    requires LogInv(s)
    ensures var s' := Append(s, h);
            Settled(s'.log, s.tieredOut, g) <==> g != h && Settled(s.log, s.tieredOut, g)
  {
    var log' := Append(s, h).log;
    var n := |s.log|;
    assert log'[n] == LogEntry(Some(s.next), Some(h));
    if Settled(log', s.tieredOut, g) {
      forall k | 0 <= k < n && s.log[k].inode == Some(g) && s.log[k].xid.Some?
        ensures s.log[k].xid.value <= s.tieredOut
      {
        assert log'[k] == s.log[k];
      }
    }
    if g != h && Settled(s.log, s.tieredOut, g) {
      forall k | 0 <= k < |log'| && log'[k].inode == Some(g) && log'[k].xid.Some?
        ensures log'[k].xid.value <= s.tieredOut
      {
        assert k < n && log'[k] == s.log[k];
      }
    }
  }

  lemma CreateInv(s: Sys, ref: Reference, op: Op, s': Sys)
    requires op.Create? && Inv(s, ref) && Enabled(s, op) && Step(s, op, s')
    ensures Inv(s', RefStep(ref, op))
  {
    hide Copy, Settled, Path, TreeOK, LogInv;
    var ref' := RefStep(ref, op);
    AppendKeepsLog(s, op.h);
    CreateTree(s, op);
    assert LogInv(s') by { SameLogInv(Append(s, op.h), s'); }
    forall g | g in s'.files ensures FileInv(s', ref', g) {
      SettledAfterAppend(s, op.h, g);
      if g != op.h { assert FileInv(s, ref, g); }
    }
  }

  lemma SameLogInv(a: Sys, b: Sys)
    requires LogInv(a) && a.log == b.log && a.next == b.next && a.tieredOut == b.tieredOut
    requires a.index == b.index && a.tars == b.tars
    ensures LogInv(b)
  {
  }

  lemma CreateTree(s: Sys, op: Op)
    requires op.Create? && TreeInv(s) && Possible(s, op)
    ensures var tree := s.tree[op.h := op.info];
            TreeOK(tree) && op.h !in s.tree && forall i | i in tree :: Path(tree, i).Some?
  {
    var tree := s.tree[op.h := op.info];
    CreateKeepsTree(s.tree, op.h, op.info);
    forall i | i in tree ensures Path(tree, i).Some? {
      if i == op.h {
        if op.info.parent != ROOT {
          assert Path(s.tree, op.info.parent).Some?;
          PathKept(s.tree, op.h, op.info, op.info.parent);
        }
        assert Parts(tree, op.info.parent).Some?;
        assert tree[op.h] == op.info;
      } else {
        assert Path(s.tree, i).Some?;
        PathKept(s.tree, op.h, op.info, i);
      }
    }
  }

  lemma ChangeInv(s: Sys, ref: Reference, op: Op, s': Sys)
    requires op.Change? && Inv(s, ref) && Enabled(s, op) && Step(s, op, s')
    ensures Inv(s', RefStep(ref, op))
  {
    hide Copy, Settled, Path, TreeOK, LogInv, FlatStep;
    var ref' := RefStep(ref, op);
    AppendKeepsLog(s, op.h);
    assert LogInv(s') by { SameLogInv(Append(s, op.h), s'); }
    forall g | g in s'.files ensures FileInv(s', ref', g) {
      SettledAfterAppend(s, op.h, g);
      assert FileInv(s, ref, g);
    }
  }

  lemma SkipInv(s: Sys, ref: Reference, op: Op, s': Sys)
    requires op.SkipXid? && Inv(s, ref) && Enabled(s, op) && Step(s, op, s')
    ensures Inv(s', RefStep(ref, op))
  {
    hide Copy, Settled, Path, TreeOK;
    forall g | g in s'.files ensures FileInv(s', ref, g) {
      assert FileInv(s, ref, g);
    }
  }

  lemma EvictInv(s: Sys, ref: Reference, op: Op, s': Sys)
    requires op.Evict? && Inv(s, ref) && Enabled(s, op) && Step(s, op, s')
    ensures Inv(s', RefStep(ref, op))
  {
    hide Copy, Settled, Path, TreeOK, LogInv, PassEntries, LastXidOf, InodeSet;
    SameLogInv(s, s');
    forall g | g in s'.files ensures FileInv(s', ref, g) {
      assert FileInv(s, ref, g);
    }
  }

  lemma FetchInv(s: Sys, ref: Reference, op: Op, s': Sys)
    requires op.Fetch? && Inv(s, ref) && Enabled(s, op) && Step(s, op, s')
    ensures Inv(s', RefStep(ref, op))
    ensures Delivered(s, op.h) == Some(ref[op.h])
  {
    hide Copy, Settled, Path, TreeOK, LogInv;
    SameLogInv(s, s');
    assert FileInv(s, ref, op.h);
    forall g | g in s'.files ensures FileInv(s', ref, g) {
      assert FileInv(s, ref, g);
    }
  }

  // ---- the snapshot window ----------------------------------------------------------------

  /** The window's entries include every change from the old cursor to the new one. */
  lemma WindowCovers(s: Sys, end: int)
    requires LogInv(s) && WindowEntries(s, end) != []
    ensures forall k | 0 <= k < |s.log| && s.log[k].inode.Some? && s.log[k].xid.Some?
                       && s.tieredOut < s.log[k].xid.value <= LastXidOf(WindowEntries(s, end), s.tieredOut) ::
              s.log[k].inode.value in InodeSet(WindowEntries(s, end))
  {
    hide InodeSet, WindowOf;
    var entries := WindowEntries(s, end);
    WindowCursor(s, end);
    forall k | 0 <= k < |s.log| && s.log[k].inode.Some? && s.log[k].xid.Some?
               && s.tieredOut < s.log[k].xid.value <= LastXidOf(entries, s.tieredOut)
      ensures s.log[k].inode.value in InodeSet(entries)
    {
      WindowCatches(s.log, s.next, end, s.tieredOut, k);
      InSet(entries, s.log[k], s.log[k].inode.value);
    }
  }

  /** So an uncaptured file that is settled after the window was settled before it. */
  lemma UncapturedWasSettled(s: Sys, end: int, h: nat)
    requires LogInv(s) && WindowEntries(s, end) != []
    requires h !in InodeSet(WindowEntries(s, end))
    requires Settled(s.log, LastXidOf(WindowEntries(s, end), s.tieredOut), h)
    ensures Settled(s.log, s.tieredOut, h)
  {
    hide InodeSet, WindowEntries, LastXidOf;
    WindowCovers(s, end);
  }

  lemma InSet(entries: Log, e: LogEntry, h: nat)
    requires e in entries && e.inode == Some(h)
    ensures h in InodeSet(entries)
  {
    var i :| 0 <= i < |entries| && entries[i] == e;
    assert entries[i].inode.value == h;
  }

  /** The cursor moves to an id in the log. */
  lemma WindowCursor(s: Sys, end: int)
    requires LogInv(s) && WindowEntries(s, end) != []
    ensures var t := LastXidOf(WindowEntries(s, end), s.tieredOut);
            NextCursor(s.log, s.next, end, s.tieredOut) == Some(t) && 1 <= t < s.next
  {
    var entries := WindowEntries(s, end);
    var j := WindowIndex(s.log, s.next, end, s.tieredOut);
    assert entries[|entries| - 1] == s.log[j];
  }

  lemma ListedOnce(inodes: seq<InodeOffset>, paths: map<nat, Str>, h: nat)
    requires Lists(inodes, paths)
    ensures (exists i :: 0 <= i < |inodes| && inodes[i].inode == h) <==> h in paths
    ensures h in paths ==> OffsetIn(inodes, h) == InodeOffset(h, paths[h])
  {
    if h in paths {
      var i :| 0 <= i < |inodes| && inodes[i] == InodeOffset(h, paths[h]);
      var o := OffsetIn(inodes, h);
      var j :| 0 <= j < |inodes| && inodes[j] == o;
    }
  }

  lemma CopyAfterCapture(s: Sys, inodes: set<nat>, seg: IndexedSegment, tar: Tar, h: nat)
    requires TreeInv(s) && LogInv(s) && h in s.files
    requires seg.id == |s.tars| && seg.lastXid <= XID_MAX && Captured(s, inodes, seg, tar)
    ensures Copy(s.index + [seg], s.tars + [tar], h) ==
              if h in inodes then Some(s.files[h].raw) else Copy(s.index, s.tars, h)
  {
    hide TreeOK, Path, Lists, Latest;
    Rooted(s.tree);
    var paths := PathsOf(s.tree, inodes);
    ListedOnce(seg.inodes, paths, h);
    LatestAfterAppend(s.index, seg, h, XID_MAX);
    assert h in s.tree && Path(s.tree, h).Some?;
    assert h in paths <==> h in inodes;
    if h in inodes {
      assert Contents(s)[h] == s.files[h].raw;
    }
  }

  lemma SnapshotInv(s: Sys, ref: Reference, op: Op, s': Sys)
    requires op.Snapshot? && Inv(s, ref) && Enabled(s, op) && Step(s, op, s')
    ensures Inv(s', RefStep(ref, op))
  {
    hide Copy, Settled, Path, TreeOK, WindowEntries, LastXidOf, InodeSet, Captured;
    var entries := WindowEntries(s, op.end);
    var seg, tar := s'.index[|s.index|], s'.tars[|s.tars|];
    WindowCursor(s, op.end);
    forall h | h in s'.files ensures FileInv(s', ref, h) {
      assert FileInv(s, ref, h);
      CopyAfterCapture(s, InodeSet(entries), seg, tar, h);
      if h !in InodeSet(entries) && Settled(s.log, s'.tieredOut, h) {
        UncapturedWasSettled(s, op.end, h);
      }
    }
  }

  // ---- what the two guards are worth -----------------------------------------------------

  lemma SameSizes(a: Str, b: Str, op: FileOp)
    requires |a| == |b|
    ensures |FlatStep(a, op)| == |FlatStep(b, op)|
  {
  }

  /** Changing a file, evicted or not: nothing goes wrong exactly when it was resident or the change
      leaves the contents as they were.  Otherwise the next read of the evicted file returns the
      contents before the change or, if the size has changed, stops at the assertion. */
  lemma ChangeKeepsInvExactly(s: Sys, ref: Reference, op: Op, s': Sys)
    requires op.Change? && Inv(s, ref) && Possible(s, op) && Step(s, op, s')
    ensures Inv(s', RefStep(ref, op)) <==>
              (s.files[op.h].evicted ==> FlatStep(ref[op.h], op.op) == ref[op.h])
    ensures s.files[op.h].evicted ==>
              Delivered(s', op.h) ==
                if |FlatStep(ref[op.h], op.op)| == |ref[op.h]| then Some(ref[op.h]) else None
  {
    hide Copy, Settled, Path, TreeOK, LogInv, FlatStep;
    var ref', h := RefStep(ref, op), op.h;
    AppendKeepsLog(s, h);
    assert LogInv(s') by { SameLogInv(Append(s, h), s'); }
    SameSizes(s.files[h].raw, ref[h], op.op);
    assert FileInv(s, ref, h);
    SettledAfterAppend(s, h, h);
    assert TreeInv(s') && s'.files.Keys == ref'.Keys;
    assert FileInv(s', ref', h) <==> (s.files[h].evicted ==> FlatStep(ref[h], op.op) == ref[h]);
    forall g | g in s'.files && g != h ensures FileInv(s', ref', g) {
      SettledAfterAppend(s, h, g);
      assert FileInv(s, ref, g);
    }
  }

  /** Evicting files that a pass offers: nothing goes wrong exactly when the latest copy of each is
      its current contents. */
  lemma EvictKeepsInvExactly(s: Sys, ref: Reference, op: Op, s': Sys)
    requires op.Evict? && Inv(s, ref) && Possible(s, op) && Step(s, op, s')
    ensures Inv(s', ref) <==> forall h | h in op.victims :: Copy(s.index, s.tars, h) == Some(ref[h])
  {
    hide Copy, Settled, Path, TreeOK, LogInv, PassEntries, LastXidOf, InodeSet;
    SameLogInv(s, s');
    forall g | g in s'.files
      ensures FileInv(s', ref, g) <==>
                (g in op.victims ==> Copy(s.index, s.tars, g) == Some(ref[g]))
    {
      assert FileInv(s, ref, g);
    }
  }

  /** Every read of every file returns what the reference holds. */
  ghost predicate ReadsRight(s: Sys, ref: Reference)
  {
    forall h | h in s.files :: h in ref && Delivered(s, h) == Some(ref[h])
  }

  lemma InvReadsRight(s: Sys, ref: Reference)
    requires Inv(s, ref)
    ensures ReadsRight(s, ref)
  {
    hide Copy, Settled, TreeInv, LogInv;
    forall h | h in s.files ensures h in ref && Delivered(s, h) == Some(ref[h]) {
      assert FileInv(s, ref, h);
    }
  }

  /** What a change and an eviction need in the state they are made in: the file is resident or the
      change leaves it as it was; the latest copy of each victim is its contents. */
  ghost predicate Safe(s: Sys, ref: Reference, op: Op)
  {
    match op
    case Change(h, op) => h in s.files && h in ref && (s.files[h].evicted ==> FlatStep(ref[h], op) == ref[h])
    case Evict(victims) => forall h | h in victims :: h in ref && Copy(s.index, s.tars, h) == Some(ref[h])
    case _ => true
  }

  lemma SafeKeepsInv(s: Sys, ref: Reference, op: Op, s': Sys)
    requires Inv(s, ref) && Possible(s, op) && Step(s, op, s') && Safe(s, ref, op)
    ensures Inv(s', RefStep(ref, op))
  {
    hide Inv, Possible, Step, Copy, FlatStep;
    if op.Change? {
      ChangeKeepsInvExactly(s, ref, op, s');
    } else if op.Evict? {
      EvictKeepsInvExactly(s, ref, op, s');
    } else {
      StepInv(s, ref, op, s');
    }
  }

  // ---- every run --------------------------------------------------------------------------

  lemma StepInv(s: Sys, ref: Reference, op: Op, s': Sys)
    requires Inv(s, ref) && Enabled(s, op) && Step(s, op, s')
    ensures Inv(s', RefStep(ref, op))
  {
    hide Inv, Possible, Guarded, Step;
    match op
    case Create(_, _, _) => CreateInv(s, ref, op, s');
    case Change(_, _) => ChangeInv(s, ref, op, s');
    case SkipXid => SkipInv(s, ref, op, s');
    case Snapshot(_) => SnapshotInv(s, ref, op, s');
    case Evict(_) => EvictInv(s, ref, op, s');
    case Fetch(_, _, _) => FetchInv(s, ref, op, s');
  }

  /** Any run of the code from a fresh mount, guarded or not. */
  ghost predicate CanRun(states: seq<Sys>, ops: seq<Op>)
  {
    && |states| == |ops| + 1 && states[0] == INIT
    && forall k | 0 <= k < |ops| :: Possible(states[k], ops[k]) && Step(states[k], ops[k], states[k + 1])
  }

  lemma StepLogInv(s: Sys, op: Op, s': Sys)
    requires LogInv(s) && Possible(s, op) && Step(s, op, s')
    ensures LogInv(s')
  {
    hide Copy, Path, Captured, InodeSet, PassEntries, FlatStep;
    if op.Create? || op.Change? {
      AppendKeepsLog(s, op.h);
      SameLogInv(Append(s, op.h), s');
    } else if op.Snapshot? {
      hide WindowEntries, LastXidOf;
      WindowCursor(s, op.end);
    }
  }

  lemma {:induction false} RunLogInv(states: seq<Sys>, ops: seq<Op>, k: nat)
    requires CanRun(states, ops) && k <= |ops|
    ensures LogInv(states[k])
  {
    hide LogInv, Possible, Step;
    if k == 0 {
      InitInv();
      InvParts(INIT, map[]);
    } else {
      RunLogInv(states, ops, k - 1);
      StepLogInv(states[k - 1], ops[k - 1], states[k]);
    }
  }

  lemma InvParts(s: Sys, ref: Reference)
    requires Inv(s, ref)
    ensures LogInv(s) && TreeInv(s)
  {
  }

  lemma StepTreeInv(s: Sys, op: Op, s': Sys)
    requires TreeInv(s) && Possible(s, op) && Step(s, op, s')
    ensures TreeInv(s')
  {
    hide Copy, Path, TreeOK, Captured, InodeSet, PassEntries, FlatStep, WindowEntries, LastXidOf;
    if op.Create? { CreateTree(s, op); }
  }

  /** In any run of the code, the recorded tree is in order and the files are those of the reference. */
  lemma {:induction false} RunTreeInv(states: seq<Sys>, ops: seq<Op>, k: nat)
    requires CanRun(states, ops) && k <= |ops|
    ensures TreeInv(states[k]) && states[k].files.Keys == RefAfter(ops[..k]).Keys
  {
    hide TreeInv, Possible, Step, RefStep;
    if k == 0 {
      InitInv();
      InvParts(INIT, map[]);
    } else {
      RunTreeInv(states, ops, k - 1);
      assert ops[..k][..k - 1] == ops[..k - 1];
      StepTreeInv(states[k - 1], ops[k - 1], states[k]);
      StepKeys(states[k - 1], RefAfter(ops[..k - 1]), ops[k - 1], states[k]);
    }
  }

  lemma StepKeys(s: Sys, ref: Reference, op: Op, s': Sys)
    requires s.files.Keys == ref.Keys && Step(s, op, s')
    ensures s'.files.Keys == RefStep(ref, op).Keys
  {
    hide Copy, Captured, InodeSet, PassEntries, FlatStep, WindowEntries, LastXidOf;
  }

  /** A run from a fresh mount in which both guards are kept. */
  ghost predicate IsRun(states: seq<Sys>, ops: seq<Op>)
  {
    && |states| == |ops| + 1 && states[0] == INIT
    && forall k | 0 <= k < |ops| :: Enabled(states[k], ops[k]) && Step(states[k], ops[k], states[k + 1])
  }

  /** The never-evicting file system after the same operations. */
  function RefAfter(ops: seq<Op>): Reference
  {
    if ops == [] then map[] else RefStep(RefAfter(ops[..|ops| - 1]), ops[|ops| - 1])
  }

  lemma {:induction false} RunInv(states: seq<Sys>, ops: seq<Op>, k: nat)
    requires IsRun(states, ops) && k <= |ops|
    ensures Inv(states[k], RefAfter(ops[..k]))
  {
    hide Inv, Enabled, Step;
    if k == 0 {
      InitInv();
    } else {
      RunInv(states, ops, k - 1);
      assert ops[..k][..k - 1] == ops[..k - 1];
      StepInv(states[k - 1], RefAfter(ops[..k - 1]), ops[k - 1], states[k]);
    }
  }

  /** A run of the code in which nothing has gone wrong during the first `k` steps. */
  ghost predicate GoodTo(states: seq<Sys>, ops: seq<Op>, k: nat)
  {
    CanRun(states, ops) && k <= |ops| && forall i: nat | i <= k :: Inv(states[i], RefAfter(ops[..i]))
  }

  /** Nothing ever goes wrong in a run that keeps both guards. */
  lemma GuardedIsGood(states: seq<Sys>, ops: seq<Op>, k: nat)
    requires IsRun(states, ops) && k <= |ops|
    ensures GoodTo(states, ops, k)
  {
    hide Inv, Possible, Guarded, Step;
    RunsCan(states, ops);
    forall i: nat | i <= k ensures Inv(states[i], RefAfter(ops[..i])) {
      RunInv(states, ops, i);
    }
  }

  /** In every run and at every moment, a read of any file gets past the size assertion and returns
      what a file system that never evicts would return. */
  lemma EvictionIsInvisible(states: seq<Sys>, ops: seq<Op>, k: nat, h: nat, off: nat, len: nat, c: nat)
    requires IsRun(states, ops) && k <= |ops| && h in states[k].files && c > 0
    ensures h in RefAfter(ops[..k]) && Delivered(states[k], h).Some?
    ensures FlatRead(Delivered(states[k], h).value, off, len, c) == FlatRead(RefAfter(ops[..k])[h], off, len, c)
  {
    hide Copy, Settled, TreeInv, LogInv, FlatRead;
    RunInv(states, ops, k);
    assert FileInv(states[k], RefAfter(ops[..k]), h);
  }

  /** In every run, the latest indexed copy of an evicted file is its current contents, the same
      as at its eviction; and a file untouched since the tiered-out cursor has such a copy. */
  lemma EvictedCopyIsCurrent(states: seq<Sys>, ops: seq<Op>, k: nat, h: nat)
    requires IsRun(states, ops) && k <= |ops| && h in states[k].files
    requires states[k].files[h].evicted || Settled(states[k].log, states[k].tieredOut, h)
    ensures h in RefAfter(ops[..k])
    ensures Copy(states[k].index, states[k].tars, h) == Some(RefAfter(ops[..k])[h])
  {
    hide Copy, Settled, TreeInv, LogInv;
    RunInv(states, ops, k);
    assert FileInv(states[k], RefAfter(ops[..k]), h);
  }

  lemma RunsCan(states: seq<Sys>, ops: seq<Op>)
    requires IsRun(states, ops)
    ensures CanRun(states, ops)
  {
    hide Possible, Guarded, Step;
  }
}
