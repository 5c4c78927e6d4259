/** What the tiered copy of a file is: its contents at the last window that named it.  From this, for
    every run, exactly when evicting an offered file without the missing check loses nothing. */
module Captures {
  import opened Bytes
  import opened FlatFile
  import opened ChangeLog
  import opened Index
  import opened Paths
  import opened TieringOut
  import opened Tiering

  ghost predicate Names(s: Sys, op: Op, h: nat)
  {
    op.Snapshot? && h in InodeSet(WindowEntries(s, op.end))
  }

  /** The last of the first `k` steps that was a window naming `h`. */
  ghost function LastWindow(states: seq<Sys>, ops: seq<Op>, k: nat, h: nat): (j: Option<nat>)
    requires k <= |ops| < |states|
    ensures j.Some? ==> j.value < k && Names(states[j.value], ops[j.value], h)
    ensures forall i: nat | i < k && Names(states[i], ops[i], h) :: j.Some? && i <= j.value
  {
    if k == 0 then None
    else if Names(states[k - 1], ops[k - 1], h) then Some(k - 1)
    else LastWindow(states, ops, k - 1, h)
  }

  // ---- the copy ---------------------------------------------------------------------------

  lemma CopyStep(s: Sys, op: Op, s': Sys, h: nat)
    requires TreeInv(s) && LogInv(s) && h in s.files && Possible(s, op) && Step(s, op, s')
    ensures Copy(s'.index, s'.tars, h) ==
              if Names(s, op, h) then Some(s.files[h].raw) else Copy(s.index, s.tars, h)
    ensures Names(s, op, h) ==> !s.files[h].evicted
  {
    hide Copy, Path, Captured, InodeSet, PassEntries, FlatStep, WindowEntries, LastXidOf, TreeInv, LogInv;
    if op.Snapshot? {
      WindowCursor(s, op.end);
      var seg, tar := s'.index[|s.index|], s'.tars[|s.tars|];
      LastXidInRange(s, op.end);
      CopyAfterCapture(s, InodeSet(WindowEntries(s, op.end)), seg, tar, h);
    }
  }

  lemma LastXidInRange(s: Sys, end: int)
    requires LogInv(s) && WindowEntries(s, end) != []
    ensures LastXidOf(WindowEntries(s, end), s.tieredOut) <= XID_MAX
  {
    hide WindowEntries, LastXidOf;
    WindowCursor(s, end);
  }

  /** An inode that does not exist is in no window. */
  lemma UnknownNotNamed(s: Sys, op: Op, h: nat)
    requires TreeInv(s) && h !in s.tree && h != ROOT
    ensures !Names(s, op, h)
  {
    hide Path, TreeOK;
    if op.Snapshot? {
      var w := WindowEntries(s, op.end);
      forall n | 0 <= n < |w| ensures w[n].inode != Some(h) {
        assert w[n] == s.log[FirstIndex(s.log, s.next, s.tieredOut + 1) + n];
      }
    }
  }

  lemma StepTree(s: Sys, op: Op, s': Sys)
    requires Possible(s, op) && Step(s, op, s')
    ensures s.tree.Keys <= s'.tree.Keys && s.files.Keys <= s'.files.Keys
    ensures forall h | h in s'.files && h !in s.files :: h !in s.tree && op.Create?
    ensures op.Create? ==> op.h !in s.tree && op.h != ROOT
    ensures forall h | h in s'.files && h !in s.files :: h != ROOT
  {
    hide Copy, Captured, InodeSet, PassEntries, FlatStep, WindowEntries, LastXidOf;
  }

  lemma {:induction false} TreeGrows(states: seq<Sys>, ops: seq<Op>, j: nat, k: nat)
    requires CanRun(states, ops) && j <= k <= |ops|
    ensures states[j].tree.Keys <= states[k].tree.Keys && states[j].files.Keys <= states[k].files.Keys
    decreases k
  {
    hide Possible, Step;
    if j < k {
      TreeGrows(states, ops, j, k - 1);
      StepTree(states[k - 1], ops[k - 1], states[k]);
    }
  }

  lemma {:induction false} NotNamedBeforeCreate(states: seq<Sys>, ops: seq<Op>, k: nat, h: nat)
    requires CanRun(states, ops) && k <= |ops| && h !in states[k].tree && h != ROOT
    ensures LastWindow(states, ops, k, h) == None
  {
    hide Possible, Step, Names, TreeInv;
    if k > 0 {
      TreeGrows(states, ops, k - 1, k);
      NotNamedBeforeCreate(states, ops, k - 1, h);
      RunTreeInv(states, ops, k - 1);
      UnknownNotNamed(states[k - 1], ops[k - 1], h);
    }
  }

  lemma IndexedInodesExist(s: Sys, op: Op, s': Sys, h: nat)
    requires LogInv(s) && Possible(s, op) && Step(s, op, s') && !Names(s, op, h)
    requires Copy(s.index, s.tars, h) == None && Latest(s.index, h, XID_MAX) == None
    ensures Latest(s'.index, h, XID_MAX) == None
  {
    hide Path, PassEntries, FlatStep, WindowEntries, LastXidOf, LogInv, Latest, InodeSet, Copy;
    if op.Snapshot? {
      var seg := s'.index[|s.index|];
      LatestAfterAppend(s.index, seg, h, XID_MAX);
      ListedOnce(seg.inodes, PathsOf(s.tree, InodeSet(WindowEntries(s, op.end))), h);
    }
  }

  /** In every run, an inode that no window named so far is in no segment. */
  lemma {:induction false} NeverIndexed(states: seq<Sys>, ops: seq<Op>, k: nat, h: nat)
    requires CanRun(states, ops) && k <= |ops| && LastWindow(states, ops, k, h) == None
    ensures Latest(states[k].index, h, XID_MAX) == None && Copy(states[k].index, states[k].tars, h) == None
  {
    hide Possible, Step, Names, LogInv;
    if k > 0 {
      NeverIndexed(states, ops, k - 1, h);
      RunLogInv(states, ops, k - 1);
      IndexedInodesExist(states[k - 1], ops[k - 1], states[k], h);
    }
  }

  /** In every run that is good so far, the latest copy of a file is its contents at the last window
      that named it, as the reference file system had them then. */
  lemma {:induction false} CopyIsLastWindow(states: seq<Sys>, ops: seq<Op>, k: nat, h: nat)
    requires GoodTo(states, ops, k) && h in states[k].files
    ensures var j := LastWindow(states, ops, k, h);
            && (j.Some? ==> h in states[j.value].files && h in RefAfter(ops[..j.value]))
            && Copy(states[k].index, states[k].tars, h) ==
                 if j.None? then None else Some(RefAfter(ops[..j.value])[h])
    decreases k
  {
    hide Possible, Step, Names, LogInv, Copy, Inv, TreeInv;
    var j := LastWindow(states, ops, k, h);
    if j.None? {
      NeverIndexed(states, ops, k, h);
    } else {
      var s, s', op := states[k - 1], states[k], ops[k - 1];
      var ref := RefAfter(ops[..k - 1]);
      InvParts(s, ref);
      StepTree(s, op, s');
      if h !in s.files {
        NotNamedBeforeCreate(states, ops, k - 1, h);
        UnknownNotNamed(s, op, h);
      } else {
        CopyStep(s, op, s', h);
        if Names(s, op, h) {
          ResidentIsReference(s, ref, h);
        } else {
          CopyIsLastWindow(states, ops, k - 1, h);
        }
      }
    }
  }

  lemma ResidentIsReference(s: Sys, ref: Reference, h: nat)
    requires Inv(s, ref) && h in s.files && !s.files[h].evicted
    ensures h in ref && s.files[h].raw == ref[h]
  {
    hide Copy, Settled, TreeInv, LogInv;
    assert FileInv(s, ref, h);
  }

  // ---- changes since the copy was made ----------------------------------------------------

  /** The changes to `h` among `ops`, in order. */
  function ChangesOf(h: nat, ops: seq<Op>): seq<FileOp>
  {
    if ops == [] then []
    else
      var last := ops[|ops| - 1];
      ChangesOf(h, ops[..|ops| - 1]) + (if last.Change? && last.h == h then [last.op] else [])
  }

  lemma ChangesOneMore(h: nat, ops: seq<Op>, j: nat, k: nat)
    requires j < k <= |ops|
    ensures ChangesOf(h, ops[j..k]) ==
              ChangesOf(h, ops[j..k - 1])
              + (if ops[k - 1].Change? && ops[k - 1].h == h then [ops[k - 1].op] else [])
  {
    assert ops[j..k][..k - 1 - j] == ops[j..k - 1];
  }

  lemma NoOpsNoChanges(h: nat)
    ensures ChangesOf(h, []) == []
  {
  }

  predicate Changes(op: Op, h: nat)
  {
    op.Change? && op.h == h
  }

  lemma {:induction false} NoChangesMeans(h: nat, ops: seq<Op>, j: nat, k: nat)
    requires j <= k <= |ops|
    ensures ChangesOf(h, ops[j..k]) == [] <==>
              forall m | j <= m < k :: !Changes(ops[m], h)
    decreases k
  {
    hide ChangesOf;
    NoOpsNoChanges(h);
    assert ops[k..k] == [];
    if j < k {
      ChangesOneMore(h, ops, j, k);
      NoChangesMeans(h, ops, j, k - 1);
    }
  }

  lemma RefNotCreated(s: Sys, ref: Reference, op: Op, s': Sys, h: nat)
    requires s.files.Keys == ref.Keys && s.files.Keys <= s.tree.Keys && h in ref
    requires Possible(s, op) && Step(s, op, s')
    ensures h in RefStep(ref, op)
    ensures RefStep(ref, op)[h] == if op.Change? && op.h == h then FlatStep(ref[h], op.op) else ref[h]
  {
    hide Copy, Captured, FlatStep, Possible, Step;
    StepTree(s, op, s');
  }

  /** The reference contents are the captured ones with the changes since then applied. */
  lemma {:induction false} RefSince(states: seq<Sys>, ops: seq<Op>, j: nat, k: nat, h: nat)
    requires CanRun(states, ops) && j <= k <= |ops| && h in RefAfter(ops[..j])
    ensures h in RefAfter(ops[..k])
    ensures RefAfter(ops[..k])[h] == FlatRun(RefAfter(ops[..j])[h], ChangesOf(h, ops[j..k]))
    decreases k
  {
    hide Possible, Step, FlatStep, RefStep, TreeOK, Path;
    if j < k {
      RefSince(states, ops, j, k - 1, h);
      ChangesOneMore(h, ops, j, k);
      RunTreeInv(states, ops, k - 1);
      RefNotCreated(states[k - 1], RefAfter(ops[..k - 1]), ops[k - 1], states[k], h);
      assert ops[..k][..k - 1] == ops[..k - 1];
      var c, before := RefAfter(ops[..j])[h], ChangesOf(h, ops[j..k - 1]);
      if ops[k - 1].Change? && ops[k - 1].h == h {
        assert (before + [ops[k - 1].op])[..|before|] == before;
      } else {
        assert before + [] == before;
      }
    }
  }

  // ---- where log entries come from, and which window takes them ---------------------------

  predicate Logs(op: Op, h: nat)
  {
    (op.Create? || op.Change?) && op.h == h
  }

  lemma StepLog(s: Sys, op: Op, s': Sys)
    requires Possible(s, op) && Step(s, op, s')
    ensures s'.log == if op.Create? || op.Change?
                      then s.log + [LogEntry(Some(s.next), Some(op.h))] else s.log
    ensures !op.Snapshot? ==> s'.tieredOut == s.tieredOut
  {
    hide Copy, Captured, InodeSet, PassEntries, FlatStep, WindowEntries, LastXidOf;
  }

  lemma {:induction false} LogKeeps(states: seq<Sys>, ops: seq<Op>, j: nat, k: nat)
    requires CanRun(states, ops) && j <= k <= |ops|
    ensures states[j].log <= states[k].log
    decreases k
  {
    hide Possible, Step;
    if j < k {
      LogKeeps(states, ops, j, k - 1);
      StepLog(states[k - 1], ops[k - 1], states[k]);
    }
  }

  /** The step `m` that logged entry `i`; entry 0 is the root's, and was there before. */
  ghost predicate LoggedBy(states: seq<Sys>, ops: seq<Op>, k: nat, i: nat, m: nat)
    requires k <= |ops| < |states| && i < |states[k].log|
  {
    && m < k && |states[m].log| == i && (ops[m].Create? || ops[m].Change?)
    && states[k].log[i] == LogEntry(Some(states[m].next), Some(ops[m].h))
  }

  lemma {:induction false} EntryOrigin(states: seq<Sys>, ops: seq<Op>, k: nat, i: nat) returns (m: nat)
    requires CanRun(states, ops) && k <= |ops| && 1 <= i < |states[k].log|
    ensures LoggedBy(states, ops, k, i, m)
    decreases k
  {
    hide Possible, Step;
    StepLog(states[k - 1], ops[k - 1], states[k]);
    if i < |states[k - 1].log| {
      m := EntryOrigin(states, ops, k - 1, i);
    } else {
      m := k - 1;
    }
  }

  lemma LoggedStays(states: seq<Sys>, ops: seq<Op>, m: nat, k: nat, h: nat)
    requires CanRun(states, ops) && m < k <= |ops| && Logs(ops[m], h)
    ensures var i := |states[m].log|;
            i < |states[k].log| && states[k].log[i] == LogEntry(Some(states[m].next), Some(h))
  {
    hide Possible, Step;
    StepLog(states[m], ops[m], states[m + 1]);
    LogKeeps(states, ops, m + 1, k);
  }

  /** A window that moves the cursor over a logged change names its inode. */
  lemma CrossingNames(s: Sys, op: Op, s': Sys, i: nat, h: nat)
    requires LogInv(s) && Possible(s, op) && Step(s, op, s') && i < |s.log| && s.log[i].inode == Some(h)
    requires s.tieredOut < s.log[i].xid.value <= s'.tieredOut
    ensures Names(s, op, h)
  {
    hide Copy, Captured, InodeSet, PassEntries, FlatStep, WindowEntries, LastXidOf;
    if op.Snapshot? {
      WindowCovers(s, op.end);
    }
  }

  /** In any run, once the cursor has passed a change, a window after the change named its inode. */
  lemma {:induction false} CapturedAfter(states: seq<Sys>, ops: seq<Op>, m: nat, k: nat, h: nat)
    requires CanRun(states, ops) && m < k <= |ops| && Logs(ops[m], h)
    requires states[m].next <= states[k].tieredOut
    ensures LastWindow(states, ops, k, h).Some? && LastWindow(states, ops, k, h).value > m
    decreases k
  {
    hide Possible, Step, Names;
    RunLogInv(states, ops, m);
    StepLog(states[m], ops[m], states[m + 1]);
    if states[m].next <= states[k - 1].tieredOut {
      CapturedAfter(states, ops, m, k - 1, h);
    } else {
      RunLogInv(states, ops, k - 1);
      LoggedStays(states, ops, m, k - 1, h);
      CrossingNames(states[k - 1], ops[k - 1], states[k], |states[m].log|, h);
    }
  }

  /** A file that a pass is offered was named by a window. */
  lemma OfferedWasCaptured(states: seq<Sys>, ops: seq<Op>, k: nat, h: nat)
    requires CanRun(states, ops) && k <= |ops| && h in states[k].files && h in InodeSet(PassEntries(states[k]))
    ensures LastWindow(states, ops, k, h).Some?
  {
    hide Possible, Step, LastWindow;
    var s := states[k];
    RunLogInv(states, ops, k);
    var i := OfferedEntry(s, h);
    RootComesFirst(states, ops, k, h);
    var m := EntryOrigin(states, ops, k, i);
    CapturedAfter(states, ops, m, k, h);
  }

  lemma RootComesFirst(states: seq<Sys>, ops: seq<Op>, k: nat, h: nat)
    requires CanRun(states, ops) && k <= |ops|
    ensures states[k].log != [] && states[k].log[0] == ROOT_ENTRY
    ensures h in states[k].files ==> h != ROOT
  {
    hide Possible, Step, Path;
    LogKeeps(states, ops, 0, k);
    RunTreeInv(states, ops, k);
  }

  lemma OfferedEntry(s: Sys, h: nat) returns (i: nat)
    requires LogInv(s) && h in InodeSet(PassEntries(s))
    ensures i < |s.log| && s.log[i].inode == Some(h) && s.log[i].xid.value <= s.tieredOut
  {
    var r := PassEntries(s);
    var n :| 0 <= n < |r| && r[n].inode.Some? && r[n].inode.value == h;
    ReadBounds(s.log, s.next, s.evictNext, s.tieredOut);
    assert r[n] in r;
    i := FirstIndex(s.log, s.next, s.evictNext) + n;
    assert s.log[i] == r[n];
  }

  // ---- eviction without the check ---------------------------------------------------------

  lemma DeliveredAfterEvict(s: Sys, ref: Reference, victims: set<nat>, s': Sys, h: nat)
    requires Inv(s, ref) && h in s.files && h in victims && Step(s, Op.Evict(victims), s')
    ensures h in s'.files && h in ref
    ensures var copy := Copy(s.index, s.tars, h);
            copy.Some? ==> (Delivered(s', h) == Some(ref[h]) <==> copy.value == ref[h])
  {
    hide Copy, Settled, TreeInv, LogInv, PassEntries, LastXidOf;
    assert FileInv(s, ref, h);
  }

  /** In every run that is good so far, evict any files that the pass is offered, without any check.  Each had been
      captured by a window, the last of them at step `j`; and the next read returns the right
      contents if and only if the changes made since then leave the captured contents as they
      were. */
  lemma UncheckedEvictionExactly(states: seq<Sys>, ops: seq<Op>, k: nat, victims: set<nat>, s': Sys, h: nat)
    requires GoodTo(states, ops, k) && h in victims
    requires Possible(states[k], Op.Evict(victims)) && Step(states[k], Op.Evict(victims), s')
    ensures LastWindow(states, ops, k, h).Some? && h in s'.files && h in RefAfter(ops[..k])
    ensures var j := LastWindow(states, ops, k, h).value;
            && h in RefAfter(ops[..j])
            && var captured := RefAfter(ops[..j])[h];
            Delivered(s', h) == Some(RefAfter(ops[..k])[h]) <==>
              FlatRun(captured, ChangesOf(h, ops[j..k])) == captured
    ensures Settled(states[k].log, states[k].tieredOut, h) ==> Delivered(s', h) == Some(RefAfter(ops[..k])[h])
  {
    hide Step, LastWindow, Inv, Copy, Delivered, FlatRun, Settled;
    OfferedWasCaptured(states, ops, k, h);
    CopyIsLastWindow(states, ops, k, h);
    var j := LastWindow(states, ops, k, h).value;
    RefSince(states, ops, j, k, h);
    DeliveredAfterEvict(states[k], RefAfter(ops[..k]), victims, s', h);
    SettledExactly(states, ops, k, h);
    RunNothing(RefAfter(ops[..j])[h]);
  }

  /** What the missing check would have established: no change is newer than the cursor if and only
      if the file has not changed since its last window and nothing logged before that window is
      newer than the cursor. */
  lemma SettledExactly(states: seq<Sys>, ops: seq<Op>, k: nat, h: nat)
    requires CanRun(states, ops) && k <= |ops| && LastWindow(states, ops, k, h).Some?
    ensures var j := LastWindow(states, ops, k, h).value;
            Settled(states[k].log, states[k].tieredOut, h) <==>
              ChangesOf(h, ops[j..k]) == [] && Settled(states[j].log, states[k].tieredOut, h)
  {
    hide Possible, Step, ChangesOf, LastWindow;
    var s, j := states[k], LastWindow(states, ops, k, h).value;
    LogKeeps(states, ops, j, k);
    NoChangesMeans(h, ops, j, k);
    if Settled(s.log, s.tieredOut, h) {
      forall m | j <= m < k ensures !Changes(ops[m], h) {
        if Changes(ops[m], h) {
          LoggedStays(states, ops, m, k, h);
          CapturedAfter(states, ops, m, k, h);
        }
      }
      assert forall i | 0 <= i < |states[j].log| :: states[j].log[i] == s.log[i];
    } else if ChangesOf(h, ops[j..k]) == [] {
      var i :| 0 <= i < |s.log| && s.log[i].inode == Some(h) && s.log[i].xid.Some?
               && s.log[i].xid.value > s.tieredOut;
      RootComesFirst(states, ops, j, h);
      if i > 0 {
        var m := EntryOrigin(states, ops, k, i);
        if m < j {
          LoggedStays(states, ops, m, j, h);
        } else {
          NotCreatedAfterNamed(states, ops, j, m, h);
        }
      }
      if i < |states[j].log| { assert states[j].log[i] == s.log[i]; }
    }
  }

  lemma NotCreatedAfterNamed(states: seq<Sys>, ops: seq<Op>, j: nat, m: nat, h: nat)
    requires CanRun(states, ops) && j < |ops| && m < |ops| && Names(states[j], ops[j], h)
    requires Logs(ops[m], h) && j <= m
    ensures ops[m].Change?
  {
    hide Possible, Step, TreeInv;
    if j < m {
      RunTreeInv(states, ops, j);
      StepTree(states[m], ops[m], states[m + 1]);
      if ops[m].Create? {
        if h !in states[j].tree { UnknownNotNamed(states[j], ops[j], h); }
        TreeGrows(states, ops, j, m);
      }
    }
  }

  // ---- the reference, byte by byte --------------------------------------------------------

  /** No step from `m` on, up to `k`, writes byte `i` of file `h` or cuts it off. */
  ghost predicate SparedFrom(ops: seq<Op>, m: nat, k: nat, h: nat, i: nat)
    requires k <= |ops|
  {
    forall j | m <= j < k && Changes(ops[j], h) :: Spares(ops[j].op, i)
  }

  /** In any run of the code, a byte of the reference keeps its value until it is written or cut off. */
  lemma {:induction false} RefKeepsByte(states: seq<Sys>, ops: seq<Op>, m: nat, k: nat, h: nat, i: nat)
    requires CanRun(states, ops) && m <= k <= |ops| && SparedFrom(ops, m, k, h, i)
    requires h in RefAfter(ops[..m]) && i < |RefAfter(ops[..m])[h]|
    ensures h in RefAfter(ops[..k]) && i < |RefAfter(ops[..k])[h]|
    ensures RefAfter(ops[..k])[h][i] == RefAfter(ops[..m])[h][i]
    decreases k
  {
    hide Possible, Step, FlatStep, RefStep, TreeOK, Path;
    if m < k {
      RefKeepsByte(states, ops, m, k - 1, h, i);
      RunTreeInv(states, ops, k - 1);
      RefNotCreated(states[k - 1], RefAfter(ops[..k - 1]), ops[k - 1], states[k], h);
      assert ops[..k][..k - 1] == ops[..k - 1];
      if Changes(ops[k - 1], h) { StepBytes(RefAfter(ops[..k - 1])[h], ops[k - 1].op); }
    }
  }

  /** In any run of the code, a byte of the reference is the one last written to it, if it was not cut
      off since. */
  lemma RefLastWriteWins(states: seq<Sys>, ops: seq<Op>, m: nat, k: nat, h: nat, off: nat, buf: Str, i: nat)
    requires CanRun(states, ops) && m < k <= |ops| && ops[m] == Op.Change(h, Write(off, buf))
    requires off <= i < off + |buf| && SparedFrom(ops, m + 1, k, h, i)
    ensures h in RefAfter(ops[..k]) && i < |RefAfter(ops[..k])[h]| && RefAfter(ops[..k])[h][i] == buf[i - off]
  {
    hide Step, FlatStep, RefStep, TreeOK, Path;
    RunTreeInv(states, ops, m);
    RefNotCreated(states[m], RefAfter(ops[..m]), ops[m], states[m + 1], h);
    assert ops[..m + 1][..m] == ops[..m];
    StepBytes(RefAfter(ops[..m])[h], Write(off, buf));
    assert RefAfter(ops[..m + 1])[h][off + (i - off)] == buf[i - off];
    RefKeepsByte(states, ops, m + 1, k, h, i);
  }

  /** So, in every run that keeps both guards, whatever was tiered out, evicted and faulted in: a read
      returns at each place the byte last written there, if it was not cut off since. */
  lemma ReadsReturnLastWrite(states: seq<Sys>, ops: seq<Op>, m: nat, k: nat, h: nat, off: nat, buf: Str, i: nat)
    requires IsRun(states, ops) && m < k <= |ops| && ops[m] == Op.Change(h, Write(off, buf))
    requires off <= i < off + |buf| && SparedFrom(ops, m + 1, k, h, i)
    ensures h in states[k].files && Delivered(states[k], h).Some?
    ensures i < |Delivered(states[k], h).value| && Delivered(states[k], h).value[i] == buf[i - off]
  {
    hide Possible, Guarded, Step, Inv, Delivered, SparedFrom;
    RunsCan(states, ops);
    RunInv(states, ops, k);
    RunTreeInv(states, ops, k);
    InvReadsRight(states[k], RefAfter(ops[..k]));
    RefLastWriteWins(states, ops, m, k, h, off, buf, i);
  }

  // ---- every run, guarded or not ----------------------------------------------------------

  /** An unsafe change or eviction shows: some read is wrong in the very next state. */
  lemma UnsafeShows(s: Sys, ref: Reference, op: Op, s': Sys)
    requires Inv(s, ref) && Possible(s, op) && Step(s, op, s') && !Safe(s, ref, op)
    requires op.Evict? ==> forall h | h in op.victims :: Copy(s.index, s.tars, h).Some?
    ensures !ReadsRight(s', RefStep(ref, op))
  {
    hide Copy, FlatStep, Delivered, TreeInv, LogInv, FileInv;
    if op.Change? {
      ChangeKeepsInvExactly(s, ref, op, s');
      assert op.h in s'.files;
    } else {
      var h :| h in op.victims && !(h in ref && Copy(s.index, s.tars, h) == Some(ref[h]));
      DeliveredAfterEvict(s, ref, op.victims, s', h);
    }
  }

  /** The first unsafe step of a run is followed by a wrong read. */
  lemma FirstUnsafe(states: seq<Sys>, ops: seq<Op>, k: nat)
    requires GoodTo(states, ops, k) && k < |ops| && !Safe(states[k], RefAfter(ops[..k]), ops[k])
    ensures !ReadsRight(states[k + 1], RefAfter(ops[..k + 1]))
  {
    hide Inv, Step, Copy, Safe, ReadsRight, LastWindow;
    var s, op := states[k], ops[k];
    if op.Evict? {
      forall h | h in op.victims ensures Copy(s.index, s.tars, h).Some? {
        OfferedWasCaptured(states, ops, k, h);
        CopyIsLastWindow(states, ops, k, h);
      }
    }
    assert ops[..k + 1][..k] == ops[..k];
    UnsafeShows(s, RefAfter(ops[..k]), op, states[k + 1]);
  }

  lemma {:induction false} SafeIsGood(states: seq<Sys>, ops: seq<Op>, k: nat)
    requires CanRun(states, ops) && k <= |ops|
    requires forall j | 0 <= j < k :: Safe(states[j], RefAfter(ops[..j]), ops[j])
    ensures GoodTo(states, ops, k)
  {
    hide Inv, Possible, Step, Safe;
    if k == 0 {
      InitInv();
    } else {
      SafeIsGood(states, ops, k - 1);
      assert ops[..k][..k - 1] == ops[..k - 1];
      SafeKeepsInv(states[k - 1], RefAfter(ops[..k - 1]), ops[k - 1], states[k]);
    }
  }

  /** In any run of the code, all reads at all moments return what a file system that never evicts
      would return, if and only if each change is made to a resident file or leaves the file as it
      was, and each file is evicted only while its latest copy is its contents. */
  lemma AllReadsRightExactly(states: seq<Sys>, ops: seq<Op>)
    requires CanRun(states, ops)
    ensures (forall k: nat | k <= |ops| :: ReadsRight(states[k], RefAfter(ops[..k]))) <==>
            (forall k | 0 <= k < |ops| :: Safe(states[k], RefAfter(ops[..k]), ops[k]))
  {
    hide Inv, Possible, Step, Safe, ReadsRight;
    if forall k | 0 <= k < |ops| :: Safe(states[k], RefAfter(ops[..k]), ops[k]) {
      forall k: nat | k <= |ops| ensures ReadsRight(states[k], RefAfter(ops[..k])) {
        SafeIsGood(states, ops, k);
        InvReadsRight(states[k], RefAfter(ops[..k]));
      }
    } else {
      var k := FirstFailure(states, ops);
      SafeIsGood(states, ops, k);
      FirstUnsafe(states, ops, k);
    }
  }

  lemma FirstFailure(states: seq<Sys>, ops: seq<Op>) returns (k: nat)
    requires |states| == |ops| + 1
    requires !(forall k | 0 <= k < |ops| :: Safe(states[k], RefAfter(ops[..k]), ops[k]))
    ensures k < |ops| && !Safe(states[k], RefAfter(ops[..k]), ops[k])
    ensures forall j | 0 <= j < k :: Safe(states[j], RefAfter(ops[..j]), ops[j])
  {
    hide Safe;
    k := 0;
    while k < |ops| && Safe(states[k], RefAfter(ops[..k]), ops[k])
      invariant 0 <= k <= |ops|
      invariant forall j | 0 <= j < k :: Safe(states[j], RefAfter(ops[..j]), ops[j])
    {
      k := k + 1;
    }
  }
}
