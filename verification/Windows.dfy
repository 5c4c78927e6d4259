/** The windows of the snapshot loop, on logs with or without gaps in their ids. */
module Windows {
  import opened Bytes
  import opened ChangeLog

  const MAX_XID_PER_SEGMENT := 1000

  /** The last id that a window starting after cursor `t` asks for. */
  function WindowLast(end: int, t: int): int
  {
    Min(t + 1 + MAX_XID_PER_SEGMENT, end)
  }

  /** The log entries that the window after cursor `t` reads. */
  function WindowOf(q: Log, next: int, end: int, t: int): Log
  {
    ReadRange(q, next, t + 1, WindowLast(end, t))
  }

  /** Where the window ends in the log; negative if it ends before the log starts. */
  function WindowIndex(q: Log, next: int, end: int, t: int): int
  {
    LastIndex(q, next, WindowLast(end, t))
  }

  /** The cursor after the window, the id of the last entry read; `None` if there is none. */
  function NextCursor(q: Log, next: int, end: int, t: int): Option<int>
    requires HasXids(q)
  {
    var w := WindowOf(q, next, end, t);
    if w == [] then None else Some(w[|w| - 1].xid.value)
  }

  /** The window ends inside the log, at an entry beyond the cursor. */
  predicate Advances(q: Log, next: int, end: int, t: int)
    requires HasXids(q)
  {
    WindowIndex(q, next, end, t) >= 0 && q[WindowIndex(q, next, end, t)].xid.value > t
  }

  /** A window below the last allocated id is empty exactly when it ends before the log starts;
      otherwise it ends with the entry at `WindowIndex`. */
  lemma WindowEnd(q: Log, next: int, end: int, t: int)
    requires HasXids(q) && t < end < next
    ensures var j := WindowIndex(q, next, end, t);
            && (WindowOf(q, next, end, t) != [] <==> j >= 0)
            && (j >= 0 ==> j == WindowLast(end, t) - (next - |q|)
                           && NextCursor(q, next, end, t) == Some(q[j].xid.value))
  {
  }

  /** With nothing left to read, the window is empty. */
  lemma WindowPastEnd(q: Log, next: int, end: int, t: int)
    requires HasXids(q) && end <= t
    ensures NextCursor(q, next, end, t) == None
  {
  }

  /** The window is not empty and moves the cursor forward exactly when it ends inside the log and
      fewer ids were skipped after its last entry than the window asks for. */
  lemma AdvancesExactly(q: Log, next: int, end: int, t: int)
    requires Ordered(q, next) && t < end < next
    ensures var c := NextCursor(q, next, end, t);
            (c.Some? && c.value > t) <==> Advances(q, next, end, t)
    ensures var last := WindowLast(end, t);
            var j := last - (next - |q|);
            Advances(q, next, end, t) <==> 0 <= j < |q| && Lag(q, next, j) < last - t
  {
    WindowEnd(q, next, end, t);
  }

  /** A window never goes beyond the id it asked for. */
  lemma CursorBelowEnd(q: Log, next: int, end: int, t: int)
    requires Ordered(q, next) && NextCursor(q, next, end, t).Some?
    ensures NextCursor(q, next, end, t).value <= WindowLast(end, t)
  {
    hide ReadRange, FirstIndex;
    var w := WindowOf(q, next, end, t);
    ReadBounds(q, next, t + 1, WindowLast(end, t));
    assert w[|w| - 1] in w;
  }

  /** The window holds every entry between the old cursor and the new one. */
  lemma WindowCatches(q: Log, next: int, end: int, t: int, k: nat)
    requires Ordered(q, next) && k < |q| && NextCursor(q, next, end, t).Some?
    requires t < q[k].xid.value <= NextCursor(q, next, end, t).value
    ensures q[k] in WindowOf(q, next, end, t)
  {
    hide ReadRange, FirstIndex;
    ReadCovers(q, next, t + 1, WindowLast(end, t), k);
  }

  // ---- when the snapshot loop ends --------------------------------------------------------

  /** The do-while loop, started at cursor `t`, reaches `end` within `n` windows. */
  ghost predicate LoopEnds(q: Log, next: int, end: int, t: int, n: nat)
    requires HasXids(q)
    decreases n
  {
    && n > 0
    && var c := NextCursor(q, next, end, t);
    c.Some? && (c.value >= end || LoopEnds(q, next, end, c.value, n - 1))
  }

  /** What the loop needs, all of it known before it starts: an untiered entry, a last entry that
      carries the last allocated id, and a first window that advances. */
  predicate Completes(q: Log, next: int, t: int)
    requires HasXids(q)
  {
    t < LastId(q) && next == LastId(q) + 1 && Advances(q, next, LastId(q), t)
  }

  /** Once the first window advances, so does every later one. */
  lemma CompletesStep(q: Log, next: int, t: int)
    requires Ordered(q, next) && q != [] && Completes(q, next, t)
    ensures var end := LastId(q);
            var c := NextCursor(q, next, end, t);
            c.Some? && t < c.value <= end && (c.value < end ==> Completes(q, next, c.value))
  {
    var end := LastId(q);
    AdvancesExactly(q, next, end, t);
    CursorBelowEnd(q, next, end, t);
    var t' := NextCursor(q, next, end, t).value;
    if t' < end {
      AdvancesExactly(q, next, end, t');
      var z := next - |q|;
      LagShrinks(q, next, WindowLast(end, t) - z, WindowLast(end, t') - z);
    }
  }

  /** Otherwise the loop reads an empty window, or comes no nearer to its end. */
  lemma StuckStays(q: Log, next: int, t: int)
    requires Ordered(q, next) && q != [] && !Completes(q, next, t)
    requires NextCursor(q, next, LastId(q), t).Some?
    ensures var t' := NextCursor(q, next, LastId(q), t).value;
            t' < LastId(q) && !Completes(q, next, t')
  {
    var end, z := LastId(q), next - |q|;
    var t' := NextCursor(q, next, end, t).value;
    if t >= end {
      WindowPastEnd(q, next, end, t);
    } else {
      WindowEnd(q, next, end, t);
      AdvancesExactly(q, next, end, t);
      if next == end + 1 {
        AdvancesExactly(q, next, end, t');
        if t' - t + WindowLast(end, t) >= z {
          LagShrinks(q, next, WindowLast(end, t') - z, WindowLast(end, t) - z);
        }
      }
    }
  }

  lemma {:induction false} LoopNeverEnds(q: Log, next: int, t: int, n: nat)
    requires Ordered(q, next) && q != [] && !Completes(q, next, t)
    ensures !LoopEnds(q, next, LastId(q), t, n)
    decreases n
  {
    hide NextCursor, Completes;
    var c := NextCursor(q, next, LastId(q), t);
    if n > 0 && c.Some? {
      StuckStays(q, next, t);
      LoopNeverEnds(q, next, c.value, n - 1);
    }
  }

  lemma {:induction false} LoopDoesEnd(q: Log, next: int, t: int)
    requires Ordered(q, next) && q != [] && Completes(q, next, t)
    ensures exists n: nat :: LoopEnds(q, next, LastId(q), t, n)
    decreases LastId(q) - t
  {
    hide NextCursor, Advances;
    var end := LastId(q);
    CompletesStep(q, next, t);
    var c := NextCursor(q, next, end, t).value;
    if c < end {
      LoopDoesEnd(q, next, c);
      var n: nat :| LoopEnds(q, next, end, c, n);
      assert LoopEnds(q, next, end, t, n + 1);
    } else {
      assert LoopEnds(q, next, end, t, 1);
    }
  }

  /** The snapshot loop ends, with every window read non-empty, if and only if there is an untiered
      entry, the last allocated id was logged, and the first window advances. */
  lemma LoopEndsExactly(q: Log, next: int, t: int)
    requires Ordered(q, next) && q != []
    ensures (exists n: nat :: LoopEnds(q, next, LastId(q), t, n)) <==> Completes(q, next, t)
  {
    hide LoopEnds, Completes;
    if Completes(q, next, t) {
      LoopDoesEnd(q, next, t);
    } else {
      forall n: nat ensures !LoopEnds(q, next, LastId(q), t, n) {
        LoopNeverEnds(q, next, t, n);
      }
    }
  }

  /** Without gaps, an untiered entry is all that the loop needs. */
  lemma GaplessCompletes(q: Log, next: int, t: int)
    requires Gapless(q, next) && q != [] && next - |q| - 1 <= t < LastId(q)
    ensures Completes(q, next, t)
  {
  }

  /** 1001 ids skipped after the first entry: the window after cursor 1 reads that entry again, and
      the loop stays where it is. */
  lemma SkippedThousandStalls()
    ensures var q := [LogEntry(Some(1), Some(2)), LogEntry(Some(1003), Some(3))];
            && Ordered(q, 1004) && WindowOf(q, 1004, 1003, 1) == [q[0]]
            && NextCursor(q, 1004, 1003, 1) == Some(1)
            && forall n: nat :: !LoopEnds(q, 1004, 1003, 1, n)
  {
    var q := [LogEntry(Some(1), Some(2)), LogEntry(Some(1003), Some(3))];
    forall n: nat ensures !LoopEnds(q, 1004, 1003, 1, n) {
      LoopNeverEnds(q, 1004, 1, n);
    }
  }

  /** One more, and the window is empty. */
  lemma SkippedThousandOneFindsNothing()
    ensures var q := [LogEntry(Some(1), Some(2)), LogEntry(Some(1004), Some(3))];
            Ordered(q, 1005) && WindowOf(q, 1005, 1004, 1) == []
  {
  }

  /** An id allocated after the last entry and never logged stops the loop short of its end. */
  lemma TrailingSkipStalls()
    ensures var q := [LogEntry(Some(1), Some(2)), LogEntry(Some(2), Some(3))];
            Ordered(q, 4) && forall n: nat :: !LoopEnds(q, 4, 2, 0, n)
  {
    var q := [LogEntry(Some(1), Some(2)), LogEntry(Some(2), Some(3))];
    forall n: nat ensures !LoopEnds(q, 4, 2, 0, n) {
      LoopNeverEnds(q, 4, 0, n);
    }
  }
}
