/** Runs of the code in which data is lost or a pass cannot go on: a write that eviction drops, a
    write to an evicted file, and, after a skipped id, a snapshot that meets an evicted file and
    eviction passes that are handed one entry again and again. */
module Failures {
  import opened Bytes
  import opened FlatFile
  import opened ChangeLog
  import opened Index
  import opened Paths
  import opened TieringOut
  import opened Tiering
  import opened Passes

  // Create file 2 ("a" in the root), write one byte, tier all out.
  const INFO := PathInfo(ROOT, [97])
  const CREATE := Op.Create(2, INFO, false)
  const WRITE := Op.Change(2, Write(0, [5]))
  const WINDOW := Op.Snapshot(3)
  const EVICT := Op.Evict({2})

  const E1 := ROOT_ENTRY
  const E2 := LogEntry(Some(2), Some(2))
  const E3 := LogEntry(Some(3), Some(2))
  const E4 := LogEntry(Some(4), Some(2))
  const SEGMENT := IndexedSegment(0, 1, 3, [InodeOffset(ROOT, []), InodeOffset(2, [97])])
  const TAR: Tar := map[[97] := [5]]

  const S1 := INIT.(tree := map[2 := INFO], files := map[2 := FileState([], false)], log := [E1, E2], next := 3)
  const S2 := S1.(files := map[2 := FileState([5], false)], log := [E1, E2, E3], next := 4)
  const S3 := S2.(tieredOut := 3, index := [SEGMENT], tars := [TAR], tiered := [E1, E2, E3])

  lemma FirstSteps()
    ensures Enabled(INIT, CREATE) && Step(INIT, CREATE, S1)
    ensures Enabled(S1, WRITE) && Step(S1, WRITE, S2)
  {
    assert INIT.log + [E2] == [E1, E2] && [E1, E2] + [E3] == [E1, E2, E3];
    assert FlatStep([], Write(0, [5])) == [5];
    assert S1.files[2 := FileState([5], false)] == S2.files;
  }

  lemma FirstPath()
    ensures Downward(S2.tree) && PathsOf(S2.tree, {ROOT, 2}) == map[ROOT := [], 2 := [97]]
  {
    assert [] + [INFO.name] == [[97]];
    assert Parts(S2.tree, ROOT) == Some([]);
    assert Parts(S2.tree, 2) == Some([[97]]);
    assert Slashed([[97]][1..]) == [];
    assert Slashed([[97]]) == [97, SLASH];
    assert [97, SLASH][..1] == [97];
    assert Path(S2.tree, 2) == Some([97]) && Path(S2.tree, ROOT) == Some([]);
  }

  lemma TheInodes(entries: Log)
    requires entries == [E1, E2, E3]
    ensures InodeSet(entries) == {ROOT, 2}
  {
    assert entries[0].inode.value == ROOT && entries[1].inode.value == 2;
  }

  lemma SegmentHolds()
    ensures Captured(S2, {ROOT, 2}, SEGMENT, TAR)
  {
    hide Path;
    FirstPath();
    assert SEGMENT.inodes[0] == InodeOffset(ROOT, []) && SEGMENT.inodes[1] == InodeOffset(2, [97]);
  }

  lemma WindowReads()
    ensures WindowEntries(S2, 3) == [E1, E2, E3]
  {
    assert FirstIndex(S2.log, 4, 1) == 0 && LastIndex(S2.log, 4, 3) == 2;
    assert S2.log[0..3] == [E1, E2, E3];
  }

  lemma WindowStep()
    ensures Enabled(S2, WINDOW) && Step(S2, WINDOW, S3)
  {
    hide Captured, WindowEntries, InodeSet;
    WindowReads();
    TheInodes([E1, E2, E3]);
    SegmentHolds();
    assert [] + [SEGMENT] == [SEGMENT] && [] + [TAR] == [TAR] && [] + [E1, E2, E3] == [E1, E2, E3];
  }

  lemma RunToWindow()
    ensures IsRun([INIT, S1, S2, S3], [CREATE, WRITE, WINDOW])
    ensures RefAfter([CREATE, WRITE, WINDOW]) == map[2 := [5]]
  {
    hide Possible, Guarded, Step, FlatWrite;
    FirstSteps();
    WindowStep();
    assert [CREATE][..0] == [] && [CREATE, WRITE][..1] == [CREATE];
    assert [CREATE, WRITE, WINDOW][..2] == [CREATE, WRITE];
    assert RefAfter([CREATE]) == map[2 := []];
    assert FlatWrite([], 0, [5]) == [5];
  }

  lemma CopyIsFive(s: Sys)
    requires s.index == [SEGMENT] && s.tars == [TAR]
    ensures Copy(s.index, s.tars, 2) == Some([5])
  {
    assert SEGMENT.inodes[1].inode == 2;
    LatestIs(s.index, 2, XID_MAX, 0);
  }

  // ---- eviction drops a write -------------------------------------------------------------

  // Overwrite the byte, then let an eviction pass run before the next snapshot.
  function Overwrite(b: byte): Op { Op.Change(2, Write(0, [b])) }

  function Overwritten(b: byte): Sys
  {
    S3.(files := map[2 := FileState([b], false)], log := [E1, E2, E3, E4], next := 5)
  }

  function Dropped(b: byte): Sys
  {
    Overwritten(b).(files := map[2 := FileState([0], true)], evictNext := 4, handed := [E1, E2, E3])
  }

  lemma OverwriteStep(b: byte)
    ensures Enabled(S3, Overwrite(b)) && Step(S3, Overwrite(b), Overwritten(b))
    ensures RefStep(map[2 := [5]], Overwrite(b)) == map[2 := [b]]
  {
    assert FlatStep([5], Write(0, [b])) == [b];
    assert [E1, E2, E3] + [E4] == [E1, E2, E3, E4];
    assert S3.files[2 := FileState([b], false)] == Overwritten(b).files;
  }

  lemma Offered(s: Sys)
    requires s.log == [E1, E2, E3] || s.log == [E1, E2, E3, E4]
    requires s.next == |s.log| + 1 && s.tieredOut == 3 && s.evictNext == 0
    ensures PassEntries(s) == [E1, E2, E3] && InodeSet(PassEntries(s)) == {ROOT, 2}
  {
    TheInodes([E1, E2, E3]);
  }

  /** The pass on a state in which file 2 is all there is. */
  lemma EvictTwo(s: Sys, s': Sys)
    requires s.files.Keys == {2} && |s.files[2].raw| == 1
    requires PassEntries(s) == [E1, E2, E3] && InodeSet(PassEntries(s)) == {ROOT, 2}
    requires s' == s.(files := map[2 := FileState([0], true)], evictNext := 4, handed := s.handed + [E1, E2, E3])
    ensures Possible(s, EVICT) && Step(s, EVICT, s')
  {
    hide PassEntries, InodeSet;
    assert Zeros(1) == [0];
  }

  lemma PassStep(b: byte)
    ensures Possible(Overwritten(b), EVICT) && Step(Overwritten(b), EVICT, Dropped(b))
    ensures !Settled(Overwritten(b).log, Overwritten(b).tieredOut, 2)
  {
    hide PassEntries, InodeSet, Possible, Step;
    var s := Overwritten(b);
    assert s.log[3].inode == Some(2) && s.log[3].xid.value > s.tieredOut;
    Offered(s);
    assert [] + [E1, E2, E3] == [E1, E2, E3];
    EvictTwo(s, Dropped(b));
  }

  /** Write 5, tier it out, overwrite it with `b`: the eviction pass is offered the file and evicts
      it without looking at the newer entry, and the next read returns 5 again, so nothing is lost
      exactly if `b` was 5. */
  lemma EvictionDropsWrite(b: byte)
    ensures CanRun([INIT, S1, S2, S3, Overwritten(b), Dropped(b)], [CREATE, WRITE, WINDOW, Overwrite(b), EVICT])
    ensures !Guarded(Overwritten(b), EVICT)
    ensures RefAfter([CREATE, WRITE, WINDOW, Overwrite(b), EVICT]) == map[2 := [b]]
    ensures Delivered(Dropped(b), 2) == Some([5])
  {
    hide Possible, Step, Copy, Settled, RefStep;
    FirstSteps();
    WindowStep();
    OverwriteStep(b);
    PassStep(b);
    CopyIsFive(Dropped(b));
    RunToWindow();
    var ops := [CREATE, WRITE, WINDOW, Overwrite(b), EVICT];
    assert ops[..4] == [CREATE, WRITE, WINDOW, Overwrite(b)] && ops[..4][..3] == [CREATE, WRITE, WINDOW];
    assert RefAfter(ops[..4]) == map[2 := [b]];
    EvictKeepsRef(map[2 := [b]], EVICT);
  }

  lemma EvictKeepsRef(ref: Reference, op: Op)
    requires op.Evict?
    ensures RefStep(ref, op) == ref
  {
  }

  // ---- a change to an evicted file --------------------------------------------------------

  const AWAY := S3.(files := map[2 := FileState([0], true)], evictNext := 4, handed := [E1, E2, E3])

  lemma EvictStep()
    ensures Enabled(S3, EVICT) && Step(S3, EVICT, AWAY)
  {
    hide PassEntries, InodeSet, Possible, Step;
    Offered(S3);
    assert [] + [E1, E2, E3] == [E1, E2, E3];
    EvictTwo(S3, AWAY);
  }

  lemma RunToAway()
    ensures IsRun([INIT, S1, S2, S3, AWAY], [CREATE, WRITE, WINDOW, EVICT])
    ensures RefAfter([CREATE, WRITE, WINDOW, EVICT]) == map[2 := [5]]
  {
    hide Possible, Guarded, Step, RefStep;
    FirstSteps();
    WindowStep();
    EvictStep();
    RunToWindow();
    assert [CREATE, WRITE, WINDOW, EVICT][..3] == [CREATE, WRITE, WINDOW];
    EvictKeepsRef(map[2 := [5]], EVICT);
  }

  function Patched(b: byte): Sys
  {
    AWAY.(files := map[2 := FileState([b], true)], log := [E1, E2, E3, E4], next := 5)
  }

  const GROWN := AWAY.(files := map[2 := FileState([0, 0], true)], log := [E1, E2, E3, E4], next := 5)

  lemma PatchStep(b: byte)
    ensures Possible(AWAY, Overwrite(b)) && !Guarded(AWAY, Overwrite(b))
    ensures Step(AWAY, Overwrite(b), Patched(b))
    ensures RefStep(map[2 := [5]], Overwrite(b)) == map[2 := [b]]
  {
    assert FlatStep([0], Write(0, [b])) == [b] && FlatStep([5], Write(0, [b])) == [b];
    assert [E1, E2, E3] + [E4] == [E1, E2, E3, E4];
    assert AWAY.files[2 := FileState([b], true)] == Patched(b).files;
  }

  /** A write to an evicted file goes into the chunk store, and the next read puts the tiered copy
      over it: it returns 5, whatever byte was written. */
  lemma WriteToEvictedIsLost(b: byte)
    ensures IsRun([INIT, S1, S2, S3, AWAY], [CREATE, WRITE, WINDOW, EVICT])
    ensures Possible(AWAY, Overwrite(b)) && Step(AWAY, Overwrite(b), Patched(b))
    ensures RefStep(RefAfter([CREATE, WRITE, WINDOW, EVICT]), Overwrite(b)) == map[2 := [b]]
    ensures Delivered(Patched(b), 2) == Some([5])
  {
    hide IsRun, Possible, Step, Copy, RefAfter, RefStep;
    RunToAway();
    PatchStep(b);
    CopyIsFive(Patched(b));
  }

  lemma GrowStep()
    ensures var op := Op.Change(2, SetSize(2)); Possible(AWAY, op) && Step(AWAY, op, GROWN)
  {
    assert FlatStep([0], SetSize(2)) == [0, 0];
    assert [E1, E2, E3] + [E4] == [E1, E2, E3, E4];
    assert AWAY.files[2 := FileState([0, 0], true)] == GROWN.files;
  }

  /** Growing an evicted file makes the next read stop at the size assertion. */
  lemma GrowingEvictedStopsRead()
    ensures IsRun([INIT, S1, S2, S3, AWAY], [CREATE, WRITE, WINDOW, EVICT])
    ensures Possible(AWAY, Op.Change(2, SetSize(2))) && Step(AWAY, Op.Change(2, SetSize(2)), GROWN)
    ensures Delivered(GROWN, 2) == None
  {
    hide IsRun, Possible, Step, Copy;
    RunToAway();
    GrowStep();
    CopyIsFive(GROWN);
  }

  // ---- a skipped id -----------------------------------------------------------------------

  const SKIPPED := AWAY.(next := 5)
  const INFO3 := PathInfo(ROOT, [98])
  const CREATE3 := Op.Create(3, INFO3, false)
  const E5 := LogEntry(Some(5), Some(3))
  const LATER := SKIPPED.(tree := map[2 := INFO, 3 := INFO3],
                          files := map[2 := FileState([0], true), 3 := FileState([], false)],
                          log := [E1, E2, E3, E5], next := 6)

  lemma LaterStep()
    ensures Enabled(AWAY, SkipXid) && Step(AWAY, SkipXid, SKIPPED)
    ensures Enabled(SKIPPED, CREATE3) && Step(SKIPPED, CREATE3, LATER)
  {
    assert [E1, E2, E3] + [E5] == [E1, E2, E3, E5];
    assert SKIPPED.tree[3 := INFO3] == LATER.tree;
    assert SKIPPED.files[3 := FileState([], false)] == LATER.files;
  }

  lemma WindowMeetsEvicted()
    ensures WindowEntries(LATER, 5) == [E3, E5] && !Possible(LATER, Op.Snapshot(5))
  {
    assert FirstIndex(LATER.log, 6, 4) == 2 && LastIndex(LATER.log, 6, 5) == 3;
    assert LATER.log[2..4] == [E3, E5];
    assert WindowEntries(LATER, 5) == [E3, E5];
    assert [E3, E5][0].inode.value in InodeSet([E3, E5]);
  }

  /** Evict file 2, skip one id, create file 3: the next window reads entry 3 again, finds the evicted
      file there, and the snapshot cannot be taken, though every step before kept both guards. */
  lemma SkippedIdStopsSnapshot()
    ensures IsRun([INIT, S1, S2, S3, AWAY, SKIPPED, LATER], [CREATE, WRITE, WINDOW, EVICT, SkipXid, CREATE3])
    ensures WindowEntries(LATER, 5) == [E3, E5] && !Possible(LATER, Op.Snapshot(5))
  {
    hide Possible, Guarded, Step, WindowEntries;
    FirstSteps();
    WindowStep();
    EvictStep();
    LaterStep();
    WindowMeetsEvicted();
  }

  // Skip one id after the snapshot, then run two passes that find nothing old enough to evict.
  const GAP := S3.(next := 5)
  const PASS := Op.Evict({})
  const ONCE := GAP.(evictNext := 3, handed := [E1, E2])
  const TWICE := GAP.(evictNext := 3, handed := [E1, E2, E2])

  lemma GapStep()
    ensures Enabled(S3, SkipXid) && Step(S3, SkipXid, GAP)
  {
  }

  lemma FirstPass()
    ensures PassEntries(GAP) == [E1, E2] && Enabled(GAP, PASS) && Step(GAP, PASS, ONCE)
  {
    assert FirstIndex(GAP.log, 5, 0) == 0 && LastIndex(GAP.log, 5, 3) == 1;
    assert GAP.log[0..2] == [E1, E2] && [] + [E1, E2] == [E1, E2];
    hide PassEntries;
    NoVictims(GAP, ONCE);
  }

  lemma SecondPass()
    ensures PassEntries(ONCE) == [E2] && Enabled(ONCE, PASS) && Step(ONCE, PASS, TWICE)
  {
    assert FirstIndex(ONCE.log, 5, 3) == 1 && LastIndex(ONCE.log, 5, 3) == 1;
    assert ONCE.log[1..2] == [E2] && [E1, E2] + [E2] == [E1, E2, E2];
    hide PassEntries;
    NoVictims(ONCE, TWICE);
  }

  lemma NoVictims(s: Sys, s': Sys)
    requires s' == s.(evictNext := LastXidOf(PassEntries(s), s.tieredOut) + 1, handed := s.handed + PassEntries(s))
    ensures Enabled(s, PASS) && Step(s, PASS, s')
  {
    hide PassEntries, LastXidOf;
    assert s.files == map h | h in s.files :: s.files[h];
  }

  /** After one skipped id both passes are handed entry 2, and neither is handed entry 3, although it
      was tiered out before; the second pass does not start behind what the first was handed. */
  lemma SkippedIdRepeatsEntry()
    ensures IsRun([INIT, S1, S2, S3, GAP, ONCE, TWICE], [CREATE, WRITE, WINDOW, SkipXid, PASS, PASS])
    ensures TWICE.handed == [E1, E2, E2] && E3 in TWICE.tiered && !InOrderOnce(TWICE) && !StartsRight(ONCE)
  {
    hide Possible, Guarded, Step, PassEntries, InOrderOnce, StartsRight;
    FirstSteps();
    WindowStep();
    GapStep();
    FirstPass();
    SecondPass();
    OutOfStep();
    assert E3 == TWICE.tiered[2];
  }

  lemma OutOfStep()
    requires PassEntries(ONCE) == [E2]
    ensures !InOrderOnce(TWICE) && !StartsRight(ONCE)
  {
    hide PassEntries;
    assert TWICE.log[..3][2] == E3 && TWICE.handed[2] == E2;
  }
}
