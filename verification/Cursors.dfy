/** The cursors and the segment order: exactly when a window goes well, and what holds in every run
    that skips no id. */
module Cursors {
  import opened Bytes
  import opened FlatFile
  import opened ChangeLog
  import opened Index
  import opened Paths
  import opened Windows
  import opened TieringOut
  import opened Tiering

  // ---- one window, on any log -------------------------------------------------------------

  /** Entry `k` belongs to an evicted file. */
  ghost predicate OfEvicted(s: Sys, k: nat)
  {
    && k < |s.log| && s.log[k].inode.Some? && s.log[k].inode.value in s.files
    && s.files[s.log[k].inode.value].evicted
  }

  /** A window meets no evicted file exactly when every log entry of one, up to the entry where the
      window ends, has an id so low that even with the ids skipped after it added it is at most
      the tiered-out cursor. */
  lemma MeetsNoEvictedExactly(s: Sys, end: int)
    requires LogInv(s) && s.tieredOut < end < s.next && WindowIndex(s.log, s.next, end, s.tieredOut) >= 0
    ensures (forall h | h in s.files && h in InodeSet(WindowEntries(s, end)) :: !s.files[h].evicted) <==>
            (forall k: nat | OfEvicted(s, k) && k <= WindowIndex(s.log, s.next, end, s.tieredOut) ::
               s.log[k].xid.value + Lag(s.log, s.next, k) <= s.tieredOut)
  {
    hide WindowEntries, WindowIndex, FirstIndex, InodeSet, Lag;
    var w, j := WindowEntries(s, end), WindowIndex(s.log, s.next, end, s.tieredOut);
    var i := FirstIndex(s.log, s.next, s.tieredOut + 1);
    WindowIsSlice(s, end);
    if forall h | h in s.files && h in InodeSet(w) :: !s.files[h].evicted {
      forall k: nat | OfEvicted(s, k) && k <= j
        ensures s.log[k].xid.value + Lag(s.log, s.next, k) <= s.tieredOut
      {
        BeforeWindow(s, k);
        if i <= k {
          assert w[k - i] == s.log[k];
          InSet(w, s.log[k], s.log[k].inode.value);
        }
      }
    } else {
      var h :| h in s.files && h in InodeSet(w) && s.files[h].evicted;
      var n := FindInode(w, h);
      assert s.log[i + n] == w[n] && OfEvicted(s, i + n);
      BeforeWindow(s, i + n);
    }
  }

  lemma WindowIsSlice(s: Sys, end: int)
    requires LogInv(s) && s.tieredOut < end < s.next && WindowIndex(s.log, s.next, end, s.tieredOut) >= 0
    ensures var i, j := FirstIndex(s.log, s.next, s.tieredOut + 1), WindowIndex(s.log, s.next, end, s.tieredOut);
            i <= j < |s.log| && WindowEntries(s, end) == s.log[i..j + 1]
  {
    WindowEnd(s.log, s.next, end, s.tieredOut);
  }

  /** An entry lies before the next window exactly when its id and the ids skipped after it make at
      most the cursor. */
  lemma BeforeWindow(s: Sys, k: nat)
    requires HasXids(s.log) && k < |s.log|
    ensures k < FirstIndex(s.log, s.next, s.tieredOut + 1) <==>
              s.log[k].xid.value + Lag(s.log, s.next, k) <= s.tieredOut
  {
  }

  ghost function FindInode(entries: Log, h: nat): (n: nat)
    requires h in InodeSet(entries)
    ensures n < |entries| && entries[n].inode == Some(h)
  {
    var n :| 0 <= n < |entries| && entries[n].inode.Some? && entries[n].inode.value == h;
    n
  }

  /** No window from the cursor on meets an evicted file. */
  ghost predicate ClearOfEvicted(s: Sys)
    requires HasXids(s.log)
  {
    forall k: nat | OfEvicted(s, k) :: s.log[k].xid.value + Lag(s.log, s.next, k) <= s.tieredOut
  }

  lemma ClearWindow(s: Sys, end: int)
    requires LogInv(s) && ClearOfEvicted(s)
    ensures forall h | h in s.files && h in InodeSet(WindowEntries(s, end)) :: !s.files[h].evicted
  {
    hide InodeSet, Lag;
    var w := WindowEntries(s, end);
    forall h | h in s.files && h in InodeSet(w) ensures !s.files[h].evicted {
      var n := FindInode(w, h);
      var k: nat := FirstIndex(s.log, s.next, s.tieredOut + 1) + n;
      assert s.log[k] == w[n];
      assert OfEvicted(s, k) <==> s.files[h].evicted;
      BeforeWindow(s, k);
    }
  }

  /** A window finds entries, moves the cursor forward and meets no evicted file if and only if: it
      ends inside the log, fewer ids were skipped after its last entry than it asks for, and the
      entries of evicted files lie below it even with the skipped ids counted. */
  lemma WindowGoesWellExactly(s: Sys, end: int)
    requires LogInv(s) && s.tieredOut < end < s.next
    ensures var last := WindowLast(end, s.tieredOut);
            var j := last - (s.next - |s.log|);
            Possible(s, Op.Snapshot(end)) && LastXidOf(WindowEntries(s, end), s.tieredOut) > s.tieredOut <==>
              && 0 <= j < |s.log| && Lag(s.log, s.next, j) < last - s.tieredOut
              && forall k: nat | OfEvicted(s, k) && k <= j ::
                   s.log[k].xid.value + Lag(s.log, s.next, k) <= s.tieredOut
  {
    hide InodeSet, OfEvicted, Lag;
    AdvancesExactly(s.log, s.next, end, s.tieredOut);
    WindowEnd(s.log, s.next, end, s.tieredOut);
    if WindowIndex(s.log, s.next, end, s.tieredOut) >= 0 {
      MeetsNoEvictedExactly(s, end);
      WindowCursor(s, end);
    }
  }

  // ---- the order of the segments ----------------------------------------------------------

  /** Every window of the run so far was taken on a log on which it advances: it ended inside the log,
      at an id beyond the cursor. */
  ghost predicate AlwaysAdvances(states: seq<Sys>, ops: seq<Op>, k: nat)
    requires k <= |ops| < |states| && forall j | 0 <= j < k :: HasXids(states[j].log)
  {
    forall j | 0 <= j < k && ops[j].Snapshot? ::
      Advances(states[j].log, states[j].next, ops[j].end, states[j].tieredOut)
  }

  lemma AppendOrdered(index: seq<IndexedSegment>, seg: IndexedSegment)
    ensures InXidOrder(index + [seg]) <==>
              InXidOrder(index) && (index != [] ==> index[|index| - 1].lastXid < seg.lastXid)
  {
    var more := index + [seg];
    if InXidOrder(more) {
      assert forall j, k | 0 <= j < k < |index| :: more[j] == index[j] && more[k] == index[k];
      assert index != [] ==> more[|index| - 1] == index[|index| - 1] && more[|index|] == seg;
    }
  }

  /** Where a window leaves the cursor, in terms of the log it was taken on. */
  lemma WindowAdvances(s: Sys, end: int)
    requires LogInv(s) && WindowEntries(s, end) != []
    ensures LastXidOf(WindowEntries(s, end), s.tieredOut) > s.tieredOut <==>
              Advances(s.log, s.next, end, s.tieredOut)
  {
    var w, j := WindowEntries(s, end), WindowIndex(s.log, s.next, end, s.tieredOut);
    assert w[|w| - 1] == s.log[j];
  }

  lemma IndexStep(s: Sys, op: Op, s': Sys)
    requires LogInv(s) && Possible(s, op) && Step(s, op, s')
    ensures InXidOrder(s'.index) <==>
              InXidOrder(s.index) && (op.Snapshot? ==> Advances(s.log, s.next, op.end, s.tieredOut))
  {
    hide Copy, Path, Captured, InodeSet, PassEntries, FlatStep, WindowEntries, LastXidOf, InXidOrder, Advances;
    if op.Snapshot? {
      WindowCursor(s, op.end);
      WindowAdvances(s, op.end);
      AppendOrdered(s.index, s'.index[|s.index|]);
      if s.index == [] { assert InXidOrder(s.index) by { EmptyInOrder(); } }
    }
  }

  lemma EmptyInOrder()
    ensures InXidOrder([])
  {
  }

  lemma RunHasXids(states: seq<Sys>, ops: seq<Op>, k: nat)
    requires CanRun(states, ops) && k <= |ops|
    ensures forall j: nat | j <= k :: HasXids(states[j].log)
  {
    hide Possible, Step;
    forall j: nat | j <= k ensures HasXids(states[j].log) {
      RunLogInv(states, ops, j);
    }
  }

  /** In any run of the code, with or without skipped ids, the segments have increasing `last_xid` if
      and only if every window was taken on a log on which it advances, by `AdvancesExactly` one
      with fewer ids skipped after the window's last entry than the window asks for. */
  lemma {:induction false} SegmentsOrderedExactly(states: seq<Sys>, ops: seq<Op>, k: nat)
    requires CanRun(states, ops) && k <= |ops|
    ensures forall j: nat | j <= k :: HasXids(states[j].log)
    ensures InXidOrder(states[k].index) <==> AlwaysAdvances(states, ops, k)
  {
    hide LogInv, Possible, Step, InXidOrder, Advances;
    RunHasXids(states, ops, k);
    if k == 0 {
      EmptyInOrder();
    } else {
      SegmentsOrderedExactly(states, ops, k - 1);
      RunLogInv(states, ops, k - 1);
      IndexStep(states[k - 1], ops[k - 1], states[k]);
    }
  }

  // ---- runs that skip no id ---------------------------------------------------------------

  /** With a gapless log: the windows so far cover exactly the log up to the tiered-out cursor, the
      eviction passes exactly the log before the eviction cursor, each entry once and in order; the
      indexed segments end in increasing order, none beyond the tiered-out cursor; and an evicted
      file has no change beyond it. */
  ghost predicate CursorInv(s: Sys)
  {
    && Gapless(s.log, s.next) && s.next == |s.log| + 1
    && 0 <= s.evictNext <= s.tieredOut + 1 <= s.next && 0 <= s.tieredOut
    && s.tiered == s.log[..s.tieredOut]
    && s.handed == s.log[..Max(0, s.evictNext - 1)]
    && IndexedUpTo(s.index, s.tieredOut)
    && forall h | h in s.files && s.files[h].evicted :: Settled(s.log, s.tieredOut, h)
  }

  lemma AppendCursor(s: Sys, h: nat)
    requires CursorInv(s)
    ensures Gapless(Append(s, h).log, s.next + 1)
    ensures s.tiered == Append(s, h).log[..s.tieredOut]
    ensures s.handed == Append(s, h).log[..Max(0, s.evictNext - 1)]
  {
  }

  lemma ChangeCursor(s: Sys, op: Op, s': Sys)
    requires op.Create? || op.Change?
    requires CursorInv(s) && LogInv(s) && Enabled(s, op) && Step(s, op, s')
    requires s.files.Keys <= s.tree.Keys
    ensures CursorInv(s')
  {
    hide Settled, FlatStep, Gapless, IndexedUpTo;
    AppendCursor(s, op.h);
    forall g | g in s'.files && s'.files[g].evicted ensures Settled(s'.log, s'.tieredOut, g) {
      SettledAfterAppend(s, op.h, g);
    }
  }

  lemma WindowSlice(s: Sys, end: int)
    requires CursorInv(s) && WindowEntries(s, end) != []
    ensures var t := LastXidOf(WindowEntries(s, end), s.tieredOut);
            && s.tieredOut < t <= |s.log| && t - s.tieredOut <= MAX_XID_PER_SEGMENT + 1
            && WindowEntries(s, end) == s.log[s.tieredOut..t]
  {
    hide Settled, IndexedUpTo;
    var entries := WindowEntries(s, end);
    var j := WindowIndex(s.log, s.next, end, s.tieredOut);
    assert FirstIndex(s.log, s.next, s.tieredOut + 1) == s.tieredOut;
    assert entries == s.log[s.tieredOut..j + 1];
    assert entries[|entries| - 1] == s.log[j] && s.log[j].xid == Some(j + 1);
  }

  lemma PassSlice(s: Sys)
    requires CursorInv(s)
    ensures PassEntries(s) == s.log[Max(0, s.evictNext - 1)..s.tieredOut]
    ensures LastXidOf(PassEntries(s), s.tieredOut) == s.tieredOut
  {
    hide Settled;
  }

  lemma SettledLater(log: Log, t: int, t': int, h: nat)
    requires Settled(log, t, h) && t <= t'
    ensures Settled(log, t', h)
  {
  }

  lemma IndexGrows(index: seq<IndexedSegment>, seg: IndexedSegment, t: int)
    requires IndexedUpTo(index, t) && t < seg.lastXid
    ensures IndexedUpTo(index + [seg], seg.lastXid)
  {
  }

  lemma SnapshotCursor(s: Sys, op: Op, s': Sys)
    requires op.Snapshot? && CursorInv(s) && Enabled(s, op) && Step(s, op, s')
    ensures CursorInv(s') && s.tieredOut < s'.tieredOut <= s.tieredOut + MAX_XID_PER_SEGMENT + 1
  {
    hide Settled, Gapless, WindowEntries, LastXidOf, Captured, IndexedUpTo;
    WindowSlice(s, op.end);
    IndexGrows(s.index, s'.index[|s.index|], s.tieredOut);
    assert s.log[..s.tieredOut] + s.log[s.tieredOut..s'.tieredOut] == s.log[..s'.tieredOut];
    forall g | g in s'.files && s'.files[g].evicted ensures Settled(s'.log, s'.tieredOut, g) {
      SettledLater(s.log, s.tieredOut, s'.tieredOut, g);
    }
  }

  lemma EvictCursor(s: Sys, op: Op, s': Sys)
    requires op.Evict? && CursorInv(s) && Enabled(s, op) && Step(s, op, s')
    ensures CursorInv(s') && s'.evictNext == s.tieredOut + 1 && s'.handed == s.log[..s.tieredOut]
  {
    hide Settled, Gapless, PassEntries, LastXidOf, IndexedUpTo;
    PassSlice(s);
    var e := Max(0, s.evictNext - 1);
    assert s.log[..e] + s.log[e..s.tieredOut] == s.log[..s.tieredOut];
  }

  /** Every step but a skipped id keeps the cursors in order, and neither cursor ever goes back. */
  lemma CursorStep(s: Sys, op: Op, s': Sys)
    requires CursorInv(s) && LogInv(s) && TreeInv(s) && !op.SkipXid? && Enabled(s, op) && Step(s, op, s')
    ensures CursorInv(s') && s.tieredOut <= s'.tieredOut && s.evictNext <= s'.evictNext
  {
    if op.Create? || op.Change? {
      ChangeCursor(s, op, s');
    } else if op.Snapshot? {
      SnapshotCursor(s, op, s');
    } else if op.Evict? {
      EvictCursor(s, op, s');
    }
  }

  /** In every run that skips no id, at every moment: the cursors are ordered, each entry up to the
      tiered-out cursor was in exactly one window, and each before the eviction cursor was handed
      to exactly one pass. */
  lemma {:induction false} CursorsInEveryRun(states: seq<Sys>, ops: seq<Op>, k: nat)
    requires IsRun(states, ops) && k <= |ops| && forall j | 0 <= j < |ops| :: !ops[j].SkipXid?
    ensures CursorInv(states[k])
  {
    hide Inv, Enabled, Step;
    if k > 0 {
      CursorsInEveryRun(states, ops, k - 1);
      RunInv(states, ops, k - 1);
      assert LogInv(states[k - 1]) && TreeInv(states[k - 1]) by {
        InvParts(states[k - 1], RefAfter(ops[..k - 1]));
      }
      CursorStep(states[k - 1], ops[k - 1], states[k]);
    }
  }

  /** Progress: with a gapless log and an untiered entry, the next window can always be taken; in
      particular it never meets an evicted file. */
  lemma SnapshotNeverStuck(s: Sys, end: int)
    requires CursorInv(s) && s.tieredOut < |s.log| && s.tieredOut < end
    ensures Possible(s, Op.Snapshot(end))
  {
    var entries := WindowEntries(s, end);
    assert entries[0] == s.log[s.tieredOut];
    WindowSlice(s, end);
    forall h | h in s.files && h in InodeSet(entries) ensures !s.files[h].evicted {
      var i :| 0 <= i < |entries| && entries[i].inode.Some? && entries[i].inode.value == h;
      assert s.log[s.tieredOut + i] == entries[i];
    }
  }
}
