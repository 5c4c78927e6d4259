/** Which log entries the eviction passes are handed, on logs with or without gaps in their ids. */
module Passes {
  import opened Bytes
  import opened ChangeLog
  import opened Windows
  import opened Tiering
  import opened Cursors

  /** Where in the log the next pass starts to read. */
  function PassStart(s: Sys): nat
  {
    FirstIndex(s.log, s.next, s.evictNext)
  }

  /** Where it stops. */
  function PassEnd(s: Sys): int
  {
    s.tieredOut - (s.next - |s.log|)
  }

  lemma PassIsSlice(s: Sys)
    requires LogInv(s)
    ensures PassEnd(s) < |s.log|
    ensures PassEntries(s) ==
              if PassStart(s) <= PassEnd(s) then s.log[PassStart(s)..PassEnd(s) + 1] else []
  {
  }

  lemma SameEntry(s: Sys, i: nat, k: nat)
    requires LogInv(s) && i < |s.log| && k < |s.log| && s.log[i] == s.log[k]
    ensures i == k
  {
  }

  /** A pass is handed an entry if and only if its id, with the ids skipped after it added, lies
      between the two cursors. */
  lemma PassHandsExactly(s: Sys, k: nat)
    requires LogInv(s) && k < |s.log|
    ensures s.log[k] in PassEntries(s) <==>
              s.evictNext <= s.log[k].xid.value + Lag(s.log, s.next, k) <= s.tieredOut
  {
    ReadReturnsExactly(s.log, s.next, s.evictNext, s.tieredOut, k);
  }

  /** A pass moves the eviction cursor to just past the last entry it reads, or past the tiered-out
      cursor if it reads none; that is not back if and only if few enough ids were skipped after
      that entry. */
  lemma PassMovesForwardExactly(s: Sys, victims: set<nat>, s': Sys)
    requires LogInv(s) && Step(s, Op.Evict(victims), s')
    ensures s'.evictNext >= s.evictNext <==>
              if PassEntries(s) == [] then s.evictNext <= s.tieredOut + 1
              else 0 <= PassEnd(s) < |s.log|
                   && Lag(s.log, s.next, PassEnd(s)) <= s.tieredOut + 1 - s.evictNext
  {
    hide PassEntries;
    if PassEntries(s) != [] { LastRead(s); }
  }

  lemma LastRead(s: Sys)
    requires LogInv(s) && PassEntries(s) != []
    ensures 0 <= PassEnd(s) < |s.log|
    ensures LastXidOf(PassEntries(s), s.tieredOut) == s.log[PassEnd(s)].xid.value <= s.tieredOut
  {
    PassIsSlice(s);
    var r := PassEntries(s);
    assert r[|r| - 1] == s.log[PassEnd(s)];
    XidBelowIndex(s.log, s.next, PassEnd(s));
  }

  // ---- nothing that the cursor passes is lost ---------------------------------------------

  /** The eviction cursor is within the allocated ids, every entry before the place where the next
      pass starts was handed to some pass, and only log entries were handed. */
  ghost predicate HandedInv(s: Sys)
  {
    && 0 <= s.evictNext <= s.next
    && (forall k | 0 <= k < PassStart(s) :: k < |s.log| && s.log[k] in s.handed)
    && (forall e | e in s.handed :: e in s.log)
  }

  lemma PassKeepsHanded(s: Sys, op: Op, s': Sys)
    requires op.Evict? && LogInv(s) && HandedInv(s) && Step(s, op, s')
    ensures HandedInv(s')
  {
    hide LogInv, PassEntries, LastXidOf, FirstIndex;
    PassIsSlice(s);
    PassCursor(s);
    var i, j, r := PassStart(s), PassEnd(s), PassEntries(s);
    assert s'.handed == s.handed + r && PassStart(s') <= Max(0, j + 1);
    forall k | 0 <= k < PassStart(s') ensures k < |s'.log| && s'.log[k] in s'.handed {
      if k < i {
        assert s.log[k] in s.handed;
      } else {
        assert r[k - i] == s.log[k];
        assert s.log[k] in r;
      }
    }
    forall e | e in s'.handed ensures e in s'.log {
      if e !in s.handed {
        var n :| 0 <= n < |r| && r[n] == e;
        assert s.log[i + n] == e;
      }
    }
  }

  /** The new cursor stays within the ids, and at or before the end of what was read. */
  lemma PassCursor(s: Sys)
    requires LogInv(s)
    ensures var e := LastXidOf(PassEntries(s), s.tieredOut) + 1;
            && 0 <= e <= s.next && e <= s.tieredOut + 1
            && FirstIndex(s.log, s.next, e) <= Max(0, PassEnd(s) + 1)
  {
    if PassEntries(s) != [] {
      LastRead(s);
      XidBelowIndex(s.log, s.next, PassEnd(s));
    }
  }

  lemma HandedMore(s: Sys, s': Sys)
    requires HandedInv(s) && s.log <= s'.log && s.handed == s'.handed && s'.evictNext == s.evictNext
    requires s.next <= s'.next && s.next - |s.log| <= s'.next - |s'.log|
    ensures HandedInv(s')
  {
    assert PassStart(s') <= PassStart(s);
    forall k | 0 <= k < PassStart(s') ensures k < |s'.log| && s'.log[k] in s'.handed {
      assert s'.log[k] == s.log[k];
    }
    forall e | e in s'.handed ensures e in s'.log {
      var i :| 0 <= i < |s.log| && s.log[i] == e;
      assert s'.log[i] == e;
    }
  }

  lemma HandedStep(s: Sys, op: Op, s': Sys)
    requires LogInv(s) && HandedInv(s) && Possible(s, op) && Step(s, op, s')
    ensures HandedInv(s')
  {
    hide Copy, Captured, PassEntries, WindowEntries, LastXidOf, LogInv, Possible, HandedInv;
    if op.Evict? {
      PassKeepsHanded(s, op, s');
    } else {
      HandedMore(s, s');
    }
  }

  /** In any run of the code, with or without skipped ids: whatever the eviction cursor has passed was
      handed to a pass. */
  lemma {:induction false} NothingPassedIsLost(states: seq<Sys>, ops: seq<Op>, k: nat)
    requires CanRun(states, ops) && k <= |ops|
    ensures HandedInv(states[k])
  {
    hide LogInv, Possible, Step;
    if k > 0 {
      NothingPassedIsLost(states, ops, k - 1);
      RunLogInv(states, ops, k - 1);
      HandedStep(states[k - 1], ops[k - 1], states[k]);
    }
  }

  /** After a pass, every entry whose id, with the ids skipped after it, is at most the tiered-out
      cursor has been handed over. */
  lemma PassCatchesUp(s: Sys, op: Op, s': Sys, k: nat)
    requires op.Evict? && LogInv(s) && HandedInv(s) && Step(s, op, s') && k < |s.log|
    requires s.log[k].xid.value + Lag(s.log, s.next, k) <= s.tieredOut
    ensures s.log[k] in s'.handed
  {
    hide PassEntries, LastXidOf;
    PassHandsExactly(s, k);
  }

  // ---- each entry once --------------------------------------------------------------------

  /** The passes were handed a first part of the log, in order and each entry once. */
  ghost predicate InOrderOnce(s: Sys)
  {
    |s.handed| <= |s.log| && s.handed == s.log[..|s.handed|]
  }

  /** A pass that reads anything starts right behind what was handed over before. */
  ghost predicate StartsRight(s: Sys)
  {
    PassEntries(s) != [] ==> PassStart(s) == |s.handed|
  }

  /** The same in terms of ids: the cursor is one past the id of the last entry handed over, with the
      ids skipped after it added. */
  lemma StartsRightExactly(s: Sys)
    requires LogInv(s) && HandedInv(s) && InOrderOnce(s) && PassEntries(s) != []
    ensures StartsRight(s) <==>
              (s.handed != [] ==>
                 var n := |s.handed| - 1;
                 s.evictNext == s.log[n].xid.value + Lag(s.log, s.next, n) + 1)
  {
    hide PassEntries;
    assert 0 < PassStart(s) ==> 0 < |s.log| && s.log[0] in s.handed;
  }

  lemma PassOnce(s: Sys, op: Op, s': Sys)
    requires op.Evict? && LogInv(s) && Step(s, op, s')
    ensures InOrderOnce(s') <==> InOrderOnce(s) && StartsRight(s)
  {
    hide LogInv, PassEntries, LastXidOf;
    PassIsSlice(s);
    var i, j, r, n := PassStart(s), PassEnd(s), PassEntries(s), |s.handed|;
    if r == [] {
      assert s'.handed == s.handed;
    } else if InOrderOnce(s') {
      assert s.handed == s'.handed[..n] == s.log[..n];
      assert s.log[n] == s'.handed[n] == r[0] == s.log[i];
      SameEntry(s, i, n);
    }
    if i <= j {
      assert s.log[..i] + s.log[i..j + 1] == s.log[..j + 1];
    }
  }

  lemma AppendOnce(s: Sys, h: nat)
    requires LogInv(s) && HandedInv(s)
    ensures InOrderOnce(Append(s, h)) <==> InOrderOnce(s)
  {
    var s', n := Append(s, h), |s.log|;
    assert s'.log[n] !in s.handed;
    assert |s.handed| > n ==> s.handed[n] in s.handed;
    if |s.handed| <= n {
      assert s.log[..|s.handed|] == s'.log[..|s.handed|];
    }
  }

  lemma OnceStep(s: Sys, op: Op, s': Sys)
    requires LogInv(s) && HandedInv(s) && Possible(s, op) && Step(s, op, s')
    ensures InOrderOnce(s') <==> InOrderOnce(s) && (op.Evict? ==> StartsRight(s))
  {
    hide Copy, Captured, PassEntries, WindowEntries, LastXidOf, LogInv, HandedInv, Possible, StartsRight;
    if op.Evict? {
      PassOnce(s, op, s');
    } else if op.Create? || op.Change? {
      AppendOnce(s, op.h);
    }
  }

  /** In any run of the code, the passes were handed a first part of the log, each entry once, if and
      only if every pass that read anything started right behind what was handed over before. */
  lemma {:induction false} HandOverExactly(states: seq<Sys>, ops: seq<Op>, k: nat)
    requires CanRun(states, ops) && k <= |ops|
    ensures InOrderOnce(states[k]) <==> forall j | 0 <= j < k && ops[j].Evict? :: StartsRight(states[j])
  {
    hide LogInv, HandedInv, Possible, Step, StartsRight;
    if k > 0 {
      HandOverExactly(states, ops, k - 1);
      RunLogInv(states, ops, k - 1);
      NothingPassedIsLost(states, ops, k - 1);
      OnceStep(states[k - 1], ops[k - 1], states[k]);
    }
  }

  // ---- the order of the cursors -----------------------------------------------------------

  ghost predicate CursorsOrdered(s: Sys)
  {
    s.evictNext <= s.tieredOut + 1 <= s.next
  }

  /** The window's last entry is at or past the entries already handed over. */
  ghost predicate StaysAhead(s: Sys, end: int)
    requires HasXids(s.log)
  {
    var j := WindowIndex(s.log, s.next, end, s.tieredOut);
    0 <= j < |s.log| && s.evictNext <= s.log[j].xid.value + 1
  }

  lemma CursorsStep(s: Sys, op: Op, s': Sys)
    requires LogInv(s) && Possible(s, op) && Step(s, op, s') && CursorsOrdered(s)
    ensures CursorsOrdered(s') <==> (op.Snapshot? ==> StaysAhead(s, op.end))
  {
    hide Copy, Captured, PassEntries, LastXidOf, TieringOut.InodeSet;
    if op.Evict? {
      PassCursor(s);
    } else if op.Snapshot? {
      WindowCursor(s, op.end);
      var w, j := WindowEntries(s, op.end), WindowIndex(s.log, s.next, op.end, s.tieredOut);
      assert w[|w| - 1] == s.log[j];
    }
  }

  /** In any run of the code, the eviction cursor is at all moments at most one past the tiered-out
      cursor, if and only if every window ended at or past what the passes had been handed. */
  lemma {:induction false} CursorsOrderedExactly(states: seq<Sys>, ops: seq<Op>, k: nat)
    requires CanRun(states, ops) && k <= |ops|
    ensures forall i: nat | i <= k :: HasXids(states[i].log)
    ensures (forall i: nat | i <= k :: CursorsOrdered(states[i])) <==>
            (forall j | 0 <= j < k && ops[j].Snapshot? :: StaysAhead(states[j], ops[j].end))
  {
    hide LogInv, Possible, Step, StaysAhead;
    RunHasXids(states, ops, k);
    if k > 0 {
      CursorsOrderedExactly(states, ops, k - 1);
      RunLogInv(states, ops, k - 1);
      if CursorsOrdered(states[k - 1]) {
        CursorsStep(states[k - 1], ops[k - 1], states[k]);
      }
    }
  }
}
