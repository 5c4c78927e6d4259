/** The in-memory change log: a deque of numbered entries, and reads by transaction range. */
module ChangeLog {
  import opened Bytes

  /** The fields of `ChangeLogEntry` that the tiering code looks at. */
  datatype LogEntry = LogEntry(xid: Option<int>, inode: Option<nat>)

  type Log = seq<LogEntry>

  predicate HasXids(q: Log)
  {
    forall i :: 0 <= i < |q| ==> q[i].xid.Some?
  }

  /** Strictly increasing transaction ids below `next`; there may be gaps. */
  ghost predicate Ordered(q: Log, next: int)
  {
    && HasXids(q)
    && (forall i, j :: 0 <= i < j < |q| ==> q[i].xid.value < q[j].xid.value)
    && (forall i :: 0 <= i < |q| ==> q[i].xid.value < next)
  }

  /** Every id from the first entry up to `next` is used. */
  ghost predicate Gapless(q: Log, next: int)
  {
    HasXids(q) && forall i :: 0 <= i < |q| ==> q[i].xid.value == next - |q| + i
  }

  /** The entries whose id lies in `[first, last]`, in log order. */
  function Between(q: Log, first: int, last: int): Log
    requires HasXids(q)
  {
    if q == [] then []
    else
      var n := |q| - 1;
      Between(q[..n], first, last) + (if first <= q[n].xid.value <= last then [q[n]] else [])
  }

  /** `Read` assumes that the entry with id x sits at index x - zeroth, zeroth = next - size. */
  function FirstIndex(q: Log, next: int, first: int): nat
  {
    Max(0, first - (next - |q|))
  }

  function LastIndex(q: Log, next: int, last: int): int
  {
    Min(last - (next - |q|), |q| - 1)
  }

  function ReadRange(q: Log, next: int, first: int, last: int): Log
  {
    var i, j := FirstIndex(q, next, first), LastIndex(q, next, last);
    if i <= j then q[i..j + 1] else []
  }

  /** In an ordered log an entry never sits before the index that its id suggests. */
  lemma {:induction false} XidBelowIndex(q: Log, next: int, i: nat)
    requires Ordered(q, next) && i < |q|
    ensures q[i].xid.value <= next - |q| + i
    decreases |q| - i
  {
    if i + 1 < |q| {
      XidBelowIndex(q, next, i + 1);
    }
  }

  /** The ids allocated after entry `k` that no entry carries: by so much its index runs ahead of
      its id. */
  function Lag(q: Log, next: int, k: nat): int
    requires HasXids(q) && k < |q|
  {
    next - |q| + k - q[k].xid.value
  }

  /** Later entries have fewer skipped ids after them. */
  lemma {:induction false} LagShrinks(q: Log, next: int, i: nat, j: nat)
    requires Ordered(q, next) && i <= j < |q|
    ensures 0 <= Lag(q, next, j) <= Lag(q, next, i)
    decreases j - i
  {
    XidBelowIndex(q, next, j);
    if i < j {
      LagShrinks(q, next, i + 1, j);
    }
  }

  /** With gaps, `Read` still never returns an entry above `last`, and never leaves an entry at
      or above `first` before its start index. */
  lemma ReadBounds(q: Log, next: int, first: int, last: int)
    requires Ordered(q, next)
    ensures forall e :: e in ReadRange(q, next, first, last) ==> e.xid.Some? && e.xid.value <= last
    ensures forall k :: 0 <= k < |q| && k < FirstIndex(q, next, first) ==> q[k].xid.value < first
  {
    forall k | 0 <= k < |q| ensures q[k].xid.value <= next - |q| + k {
      XidBelowIndex(q, next, k);
    }
  }

  /** With gaps, a non-empty result still contains every entry from `first` up to the id of its
      own last entry. */
  lemma ReadCovers(q: Log, next: int, first: int, last: int, k: nat)
    requires Ordered(q, next) && k < |q|
    requires ReadRange(q, next, first, last) != []
    requires var r := ReadRange(q, next, first, last);
             first <= q[k].xid.value && (r[|r| - 1].xid.Some? ==> q[k].xid.value <= r[|r| - 1].xid.value)
    ensures q[k] in ReadRange(q, next, first, last)
  {
    var r := ReadRange(q, next, first, last);
    var i, j := FirstIndex(q, next, first), LastIndex(q, next, last);
    XidBelowIndex(q, next, k);
    assert r[|r| - 1] == q[j];
    assert i <= k <= j;
    assert r[k - i] == q[k];
  }

  lemma SameEntryAt(q: Log, next: int, i: nat, k: nat)
    requires Ordered(q, next) && i < |q| && k < |q| && q[i] == q[k]
    ensures i == k
  {
  }

  /** Which entries `Read` returns, on any log: those whose id, with the ids skipped after it added,
      lies in the range asked for. */
  lemma ReadReturnsExactly(q: Log, next: int, first: int, last: int, k: nat)
    requires Ordered(q, next) && k < |q|
    ensures q[k] in ReadRange(q, next, first, last) <==>
              first <= q[k].xid.value + Lag(q, next, k) <= last
  {
    var r, i, j := ReadRange(q, next, first, last), FirstIndex(q, next, first), LastIndex(q, next, last);
    if i <= k <= j { assert r[k - i] == q[k]; }
    if q[k] in r {
      var n :| 0 <= n < |r| && r[n] == q[k];
      assert q[i + n] == q[k];
      SameEntryAt(q, next, i + n, k);
    }
  }

  ghost predicate Rising(r: Log)
  {
    forall i, j :: 0 <= i < j < |r| ==> r[i].xid.Some? && r[j].xid.Some? && r[i].xid.value < r[j].xid.value
  }

  lemma RisingMore(r: Log, e: LogEntry)
    requires Rising(r) && e.xid.Some? && forall d | d in r :: d.xid.Some? && d.xid.value < e.xid.value
    ensures Rising(r + [e])
  {
  }

  predicate IdIn(e: LogEntry, first: int, last: int)
  {
    e.xid.Some? && first <= e.xid.value <= last
  }

  lemma {:induction false} BetweenMembers(q: Log, first: int, last: int, e: LogEntry)
    requires HasXids(q)
    ensures e in Between(q, first, last) <==> e in q && IdIn(e, first, last)
  {
    if q != [] {
      var n := |q| - 1;
      BetweenMembers(q[..n], first, last, e);
      assert q == q[..n] + [q[n]];
    }
  }

  /** The entries with ids in a range: all of them, no others, and in log order. */
  lemma {:induction false} BetweenExactly(q: Log, next: int, first: int, last: int)
    requires Ordered(q, next)
    ensures Rising(Between(q, first, last))
    ensures forall e :: e in Between(q, first, last) <==> e in q && IdIn(e, first, last)
  {
    forall e ensures e in Between(q, first, last) <==> e in q && IdIn(e, first, last) {
      BetweenMembers(q, first, last, e);
    }
    if q != [] {
      hide Rising, IdIn;
      var n := |q| - 1;
      BetweenExactly(q[..n], next, first, last);
      var r := Between(q[..n], first, last);
      forall e | e in r ensures e.xid.Some? && e.xid.value < q[n].xid.value {
        var i :| 0 <= i < |q[..n]| && q[..n][i] == e;
        assert q[i] == e;
      }
      RisingMore(r, q[n]);
      assert r + [] == r;
    }
  }

  function Slice(q: Log, i: nat, j: int): Log
  {
    var top := Min(j, |q| - 1);
    if i <= top then q[i..top + 1] else []
  }

  lemma SliceGrows(q: Log, i: nat, j: int)
    requires q != []
    ensures var n := |q| - 1;
            Slice(q, i, j) == Slice(q[..n], i, j) + (if i <= n <= j then [q[n]] else [])
  {
    var n := |q| - 1;
    var init := q[..n];
    if j < n {
      if i <= j { SliceOfPrefix(q, n, i, j + 1); }
    } else if i < n {
      SliceOfPrefix(q, n, i, n);
      assert q[i..n + 1] == q[i..n] + [q[n]];
    }
  }

  lemma SliceOfPrefix(q: Log, n: nat, i: nat, j: nat)
    requires i <= j <= n <= |q|
    ensures q[..n][i..j] == q[i..j]
  {
  }

  lemma {:induction false} BetweenIsSlice(q: Log, zeroth: int, i: nat, j: int)
    requires HasXids(q) && forall k :: 0 <= k < |q| ==> q[k].xid.value == zeroth + k
    ensures Between(q, zeroth + i, zeroth + j) == Slice(q, i, j)
  {
    if q != [] {
      hide Slice;
      BetweenIsSlice(q[..|q| - 1], zeroth, i, j);
      SliceGrows(q, i, j);
    }
  }

  lemma BetweenClamped(q: Log, zeroth: int, first: int, last: int)
    requires HasXids(q) && forall k :: 0 <= k < |q| ==> q[k].xid.value == zeroth + k
    requires first < zeroth
    ensures Between(q, first, last) == Between(q, zeroth, last)
  {
  }

  lemma GaplessReadIsExact(q: Log, next: int, first: int, last: int)
    requires Gapless(q, next)
    ensures ReadRange(q, next, first, last) == Between(q, first, last)
  {
    var zeroth := next - |q|;
    var i := FirstIndex(q, next, first);
    if first < zeroth { BetweenClamped(q, zeroth, first, last); }
    BetweenIsSlice(q, zeroth, i, last - zeroth);
  }

  lemma {:induction false} BetweenOne(q: Log, next: int, i: nat)
    requires Ordered(q, next) && i < |q|
    ensures Between(q, q[i].xid.value, q[i].xid.value) == [q[i]]
  {
    var n := |q| - 1;
    var init, x := q[..n], q[i].xid.value;
    if i < n {
      BetweenOne(init, next, i);
    } else {
      BetweenNone(init, x);
    }
  }

  lemma {:induction false} BetweenNone(q: Log, x: int)
    requires HasXids(q) && forall k :: 0 <= k < |q| ==> q[k].xid.value < x
    ensures Between(q, x, x) == []
  {
    if q != [] { BetweenNone(q[..|q| - 1], x); }
  }

  /** `Read` returns exactly the requested range, for every request, if and only if the log has
      no gaps. */
  lemma ReadExactIffGapless(q: Log, next: int)
    requires Ordered(q, next)
    ensures (forall first, last :: ReadRange(q, next, first, last) == Between(q, first, last))
            <==> Gapless(q, next)
  {
    if Gapless(q, next) {
      forall first, last ensures ReadRange(q, next, first, last) == Between(q, first, last) {
        GaplessReadIsExact(q, next, first, last);
      }
    } else {
      var i :| 0 <= i < |q| && q[i].xid.value != next - |q| + i;
      XidBelowIndex(q, next, i);
      BetweenOne(q, next, i);
      var x := q[i].xid.value;
      var r := ReadRange(q, next, x, x);
      var k := x - (next - |q|);
      if 0 <= k {
        assert r == [q[k]];
      }
      assert r != Between(q, x, x);
    }
  }

  function LastId(q: Log): int
    requires HasXids(q)
  {
    if q == [] then 0 else q[|q| - 1].xid.value
  }

  class FsChangeLog {
    var deque: Log
    var nextXid: int
    var evictionNextXid: int
    var tieredOutXid: int

    /** A fresh mount numbers its transactions from 1. */
    constructor (initialXid: int, nextXid: int)
      ensures deque == [] && this.nextXid == nextXid
      ensures evictionNextXid == initialXid && tieredOutXid == initialXid
    {
      deque, this.nextXid := [], nextXid;
      evictionNextXid, tieredOutXid := initialXid, initialXid;
    }

    ghost predicate Valid()
      reads this
    {
      Ordered(deque, nextXid)
    }

    /** `NextXid`: allocate an id; unless an entry with it follows, the log has a gap. */
    method NextXid() returns (xid: int)
      requires Valid()
      modifies this`nextXid
      ensures Valid() && xid == old(nextXid) && nextXid == old(nextXid) + 1
    {
      xid := nextXid;
      nextXid := nextXid + 1;
    }

    /** `Append`: number the entry unless it already carries an id allocated since the last one. */
    method Append(entry: LogEntry) returns (xid: int)
      requires Valid()
      requires entry.xid.Some? ==>
                 && entry.xid.value < nextXid
                 && forall i :: 0 <= i < |deque| ==> deque[i].xid.value < entry.xid.value
      modifies this`deque, this`nextXid
      ensures Valid()
      ensures xid == if entry.xid.Some? then entry.xid.value else old(nextXid)
      ensures deque == old(deque) + [entry.(xid := Some(xid))]
      ensures nextXid == if entry.xid.Some? then old(nextXid) else old(nextXid) + 1
      ensures old(Gapless(deque, nextXid)) && entry.xid.None? ==> Gapless(deque, nextXid)
    {
      var e := entry;
      if e.xid.None? {
        var x := NextXid();
        e := e.(xid := Some(x));
      }
      deque := deque + [e];
      xid := e.xid.value;
    }

    /** `get_last_xid`. */
    function LastXid(): int
      requires HasXids(deque)
      reads this
    {
      LastId(deque)
    }

    /** `Read`: copy a range of entries; `first'` is what the caller is told the range starts at. */
    method Read(first: int, last: int) returns (out: Log, first': int)
      ensures out == ReadRange(deque, nextXid, first, last)
      ensures first' == nextXid - |deque| + FirstIndex(deque, nextXid, first)
    {
      var zeroth := nextXid - |deque|;
      var firstIndex := first - zeroth;
      if firstIndex < 0 {
        firstIndex := 0;
      }
      var lastIndex := last - zeroth;
      if lastIndex >= |deque| {
        lastIndex := |deque| - 1;
      }
      first' := zeroth + firstIndex;
      out := [];
      var i := firstIndex;
      while i <= lastIndex
        invariant firstIndex <= i
        invariant firstIndex <= lastIndex ==> i <= lastIndex + 1 && out == deque[firstIndex..i]
        invariant firstIndex > lastIndex ==> out == []
      {
        out := out + [deque[i]];
        i := i + 1;
      }
    }
  }
}
