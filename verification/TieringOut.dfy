/** Tiering out: cut the untiered part of the log into windows, and persist each as a segment. */
module TieringOut {
  import opened Bytes
  import opened ChangeLog
  import opened Index
  import opened Paths
  import opened Windows

  /** The inodes that a batch of entries mentions. */
  ghost function InodeSet(entries: Log): set<nat>
  {
    set i | 0 <= i < |entries| && entries[i].inode.Some? :: entries[i].inode.value
  }

  /** `GetInodes`: collect into a set, then copy the set out in order. */
  method GetInodes(entries: Log) returns (inodes: seq<nat>)
    ensures Ascending(inodes)
    ensures forall n :: n in inodes <==> n in InodeSet(entries)
    ensures forall n: nat :: n in inodes <==> Mentions(entries, n)
  {
    var unique: set<nat> := {};
    for i := 0 to |entries|
      invariant unique == InodeSet(entries[..i])
    {
      InodeSetOneMore(entries, i);
      if entries[i].inode.Some? {
        unique := unique + {entries[i].inode.value};
      }
    }
    assert entries[..|entries|] == entries;
    inodes := Ascend(unique);
    InodeSetExactly(entries);
  }

  /** Some entry is about the inode. */
  ghost predicate Mentions(entries: Log, n: nat)
  {
    exists e :: e in entries && e.inode == Some(n)
  }

  lemma InodeSetExactly(entries: Log)
    ensures forall n: nat :: n in InodeSet(entries) <==> Mentions(entries, n)
  {
    forall n: nat ensures n in InodeSet(entries) <==> Mentions(entries, n) {
      if n in InodeSet(entries) {
        var i :| 0 <= i < |entries| && entries[i].inode.Some? && entries[i].inode.value == n;
        assert entries[i] in entries;
      }
      if Mentions(entries, n) {
        var e :| e in entries && e.inode == Some(n);
        var i :| 0 <= i < |entries| && entries[i] == e;
        assert entries[i].inode.value == n;
      }
    }
  }

  lemma InodeSetOneMore(entries: Log, i: nat)
    requires i < |entries|
    ensures InodeSet(entries[..i + 1]) ==
              InodeSet(entries[..i])
              + (if entries[i].inode.Some? then {entries[i].inode.value} else {})
  {
    var a, b := entries[..i], entries[..i + 1];
    assert b == a + [entries[i]];
    forall n | n in InodeSet(b)
      ensures n in InodeSet(a) || (entries[i].inode.Some? && n == entries[i].inode.value)
    {
      var k :| 0 <= k < |b| && b[k].inode.Some? && b[k].inode.value == n;
      if k < i { assert a[k] == b[k]; }
    }
    forall n | n in InodeSet(a) ensures n in InodeSet(b) {
      var k :| 0 <= k < |a| && a[k].inode.Some? && a[k].inode.value == n;
      assert b[k] == a[k];
    }
    if entries[i].inode.Some? { assert b[i].inode.value in InodeSet(b); }
  }

  // ---- the persister ----------------------------------------------------------------------

  /** The paths of those inodes of a batch that still exist. */
  ghost function PathsOf(tree: Tree, inodes: set<nat>): map<nat, Str>
    requires Downward(tree)
  {
    map i | i in inodes && Path(tree, i).Some? :: Path(tree, i).value
  }

  lemma PathsOfExactly(tree: Tree, inodes: set<nat>, i: nat)
    requires Downward(tree)
    ensures i in PathsOf(tree, inodes) <==> i in inodes && Path(tree, i).Some?
    ensures i in PathsOf(tree, inodes) ==> Path(tree, i) == Some(PathsOf(tree, inodes)[i])
  {
    hide Path;
  }

  /** A tarball holds the contents of every file among `paths`, under its path. */
  ghost predicate Archives(tar: map<Str, Str>, paths: map<nat, Str>, contents: map<nat, Str>)
  {
    forall i | i in paths && i in contents :: paths[i] in tar && tar[paths[i]] == contents[i]
  }

  /** `GetPaths`, then `Segment::Add` for each inode: distinct inodes have distinct paths, so no
      file overwrites another in the tarball. */
  method BuildSegment(tree: Tree, contents: map<nat, Str>, inodes: seq<nat>)
    returns (paths: map<nat, Str>, tar: map<Str, Str>)
    requires TreeOK(tree) && forall i | i in inodes :: ROOT <= i
    ensures paths == PathsOf(tree, set i | i in inodes)
    ensures Archives(tar, paths, contents)
  {
    hide Archives, Path;
    paths, tar := map[], map[];
    NothingArchived(contents);
    var k := 0;
    ghost var seen: set<nat> := {};
    while k < |inodes|
      invariant 0 <= k <= |inodes| && seen == set i | i in inodes[..k]
      invariant forall j | j in seen :: ROOT <= j
      invariant paths == PathsOf(tree, seen)
      invariant Archives(tar, paths, contents)
    {
      var i := inodes[k];
      assert i in inodes;
      var path := GetPath(tree, i);
      PathsOneMore(tree, seen, i);
      if path.Some? {
        if i in contents {
          AddFile(tree, tar, seen, contents, i);
          tar := tar[path.value := contents[i]];
        } else {
          AddDirectory(tree, tar, seen, contents, i);
        }
        paths := paths[i := path.value];
      }
      assert inodes[..k + 1] == inodes[..k] + [i];
      seen := seen + {i};
      k := k + 1;
    }
    assert inodes[..|inodes|] == inodes;
  }

  /** A tarball of any files exists, because their paths differ. */
  lemma ArchiveExists(tree: Tree, inodes: set<nat>, contents: map<nat, Str>) returns (tar: map<Str, Str>)
    requires TreeOK(tree) && forall i | i in inodes :: ROOT <= i
    ensures Archives(tar, PathsOf(tree, inodes), contents)
  {
    hide Path, TreeOK;
    Rooted(tree);
    var paths := PathsOf(tree, inodes);
    var ids := set i | i in paths && i in contents;
    forall i, j | i in ids && j in ids && paths[i] == paths[j] ensures i == j {
      PathsAreDistinct(tree, i, j);
    }
    tar := map i | i in ids :: paths[i] := contents[i];
  }

  lemma NothingArchived(contents: map<nat, Str>)
    ensures Archives(map[], map[], contents)
  {
  }

  lemma PathsOneMore(tree: Tree, s: set<nat>, i: nat)
    requires Downward(tree)
    ensures PathsOf(tree, s + {i}) ==
              if Path(tree, i).Some? then PathsOf(tree, s)[i := Path(tree, i).value] else PathsOf(tree, s)
  {
    hide Path;
  }

  lemma AddFile(tree: Tree, tar: map<Str, Str>, s: set<nat>, contents: map<nat, Str>, i: nat)
    requires TreeOK(tree) && ROOT <= i && Path(tree, i).Some? && i in contents
    requires forall j | j in s :: ROOT <= j
    requires Archives(tar, PathsOf(tree, s), contents)
    ensures var path := Path(tree, i).value;
            Archives(tar[path := contents[i]], PathsOf(tree, s)[i := path], contents)
  {
    hide Path, TreeOK;
    Rooted(tree);
    var paths, path := PathsOf(tree, s), Path(tree, i).value;
    forall j | j in paths && j != i ensures paths[j] != path {
      if paths[j] == path { PathsAreDistinct(tree, i, j); }
    }
  }

  lemma AddDirectory(tree: Tree, tar: map<Str, Str>, s: set<nat>, contents: map<nat, Str>, i: nat)
    requires Downward(tree) && Path(tree, i).Some? && i !in contents
    requires Archives(tar, PathsOf(tree, s), contents)
    ensures Archives(tar, PathsOf(tree, s)[i := Path(tree, i).value], contents)
  {
    hide Path;
  }

  lemma Rooted(tree: Tree)
    requires TreeOK(tree)
    ensures Downward(tree)
  {
  }

  /** `SnapshotPersister::Snapshot`: nothing to do is ENOENT, otherwise one indexed segment. */
  method Persist(index: IndexManager, tree: Tree, contents: map<nat, Str>, inodes: seq<nat>,
                 id: nat, first: int, last: int) returns (persisted: bool, tar: map<Str, Str>)
    requires TreeOK(tree) && forall i | i in inodes :: ROOT <= i
    modifies index
    ensures var paths := PathsOf(tree, set i | i in inodes);
            && (persisted <==> paths != map[])
            && Archives(tar, paths, contents)
            && (!persisted ==> index.segments == old(index.segments))
            && (persisted ==> Appended(old(index.segments), index.segments, id, first, last, paths))
  {
    var paths;
    paths, tar := BuildSegment(tree, contents, inodes);
    persisted := |paths.Keys| != 0;
    if persisted {
      index.Update(id, first, last, paths);
    }
  }

  ghost predicate Appended(before: seq<IndexedSegment>, after: seq<IndexedSegment>,
                           id: nat, first: int, last: int, paths: map<nat, Str>)
  {
    && |after| == |before| + 1 && after[..|before|] == before
    && var s := after[|before|];
    s.id == id && s.firstXid == first && s.lastXid == last && Lists(s.inodes, paths)
  }

  // ---- the snapshot loop ------------------------------------------------------------------

  /** One round of the loop: the ids `from..last` that it moves the cursor over, the first id that
      `Read` reported, the entries read and their inodes. */
  datatype Window = Window(from: int, first: int, last: int, entries: Log, inodes: seq<nat>)

  /** `w` is what the loop reads after cursor `w.from - 1`; its reported first id is the one that the
      place of its first entry in the log stands for. */
  ghost predicate WindowOK(q: Log, next: int, end: int, w: Window)
    requires HasXids(q)
  {
    && w.from <= w.last <= w.from + MAX_XID_PER_SEGMENT
    && w.entries == WindowOf(q, next, end, w.from - 1)
    && NextCursor(q, next, end, w.from - 1) == Some(w.last)
    && w.entries != [] && (forall k | 0 <= k < |q| && q[k] == w.entries[0] :: w.first == next - |q| + k)
    && (forall i :: i in w.inodes <==> i in InodeSet(w.entries))
  }

  /** Windows from `from` up to `to`: adjacent, disjoint, at most 1001 ids long, each with the
      entries read for it and their inodes. */
  ghost predicate Tiles(q: Log, next: int, end: int, windows: seq<Window>, from: int, to: int)
    requires HasXids(q)
  {
    if windows == [] then from == to + 1
    else
      var n := |windows| - 1;
      var w := windows[n];
      w.last == to && WindowOK(q, next, end, w) && Tiles(q, next, end, windows[..n], from, w.from - 1)
  }

  /** Every indexed segment ends at or before `xid`, later segments later. */
  ghost predicate IndexedUpTo(segments: seq<IndexedSegment>, xid: int)
  {
    InXidOrder(segments) && forall k :: 0 <= k < |segments| ==> segments[k].lastXid <= xid
  }

  ghost predicate InodesRooted(q: Log)
  {
    forall k :: 0 <= k < |q| && q[k].inode.Some? ==> ROOT <= q[k].inode.value
  }

  /** `TieringOutAgent::Snapshot`, on every log on which its loop ends. */
  method Snapshot(log: FsChangeLog, index: IndexManager, tree: Tree, contents: map<nat, Str>)
    returns (windows: seq<Window>, tars: seq<map<Str, Str>>)
    requires log.Valid() && Completes(log.deque, log.nextXid, log.tieredOutXid)
    requires log.deque != [] && InodesRooted(log.deque) && TreeOK(tree)
    modifies log`tieredOutXid, index
    ensures log.tieredOutXid == log.LastXid()
    ensures Tiles(log.deque, log.nextXid, log.LastXid(), windows, old(log.tieredOutXid) + 1, log.tieredOutXid)
    ensures IndexedUpTo(old(index.segments), old(log.tieredOutXid)) ==>
              IndexedUpTo(index.segments, log.tieredOutXid)
    ensures |tars| == |windows|
    ensures Persisted(tree, contents, old(index.segments), index.segments, windows, tars)
  {
    hide Persisted, Tiles, InodeSet, ReadRange, FirstIndex, TreeOK, InodesRooted, IndexedUpTo,
         Appended, PathsOf, Archives, Completes, WindowOf, NextCursor;
    var end := log.LastXid();
    windows, tars := [], [];
    NoWindows(log.deque, log.nextXid, end, log.tieredOutXid + 1);
    NonePersisted(tree, contents, index.segments);
    while true
      invariant Completes(log.deque, log.nextXid, log.tieredOutXid)
      invariant Tiles(log.deque, log.nextXid, end, windows, old(log.tieredOutXid) + 1, log.tieredOutXid)
      invariant IndexedUpTo(old(index.segments), old(log.tieredOutXid)) ==>
                  IndexedUpTo(index.segments, log.tieredOutXid)
      invariant |tars| == |windows|
      invariant Persisted(tree, contents, old(index.segments), index.segments, windows, tars)
      decreases end - log.tieredOutXid
    {
      ghost var t := log.tieredOutXid;
      var last := Min(log.tieredOutXid + 1 + MAX_XID_PER_SEGMENT, end);
      var entries, first := log.Read(log.tieredOutXid + 1, last);
      ReadsWindow(log.deque, log.nextXid, t);
      FirstReported(log.deque, log.nextXid, t);
      var inodes := GetInodes(entries);
      RootedRange(log.deque, log.nextXid, t + 1, last);
      last := entries[|entries| - 1].xid.value;
      ghost var segments := index.segments;
      ghost var paths := PathsOfList(tree, inodes);
      var _, tar := Persist(index, tree, contents, inodes, |index.segments|, first, last);
      if IndexedUpTo(old(index.segments), old(log.tieredOutXid)) {
        IndexedOneMore(segments, index.segments, t, first, last, paths);
      }
      var w := Window(log.tieredOutXid + 1, first, last, entries, inodes);
      OneMorePersisted(tree, contents, old(index.segments), segments, index.segments, windows, tars, w, tar);
      OneMoreWindow(log.deque, log.nextXid, end, windows, old(log.tieredOutXid) + 1, w);
      windows, tars := windows + [w], tars + [tar];
      log.tieredOutXid := last;
      if !(log.tieredOutXid < end) {
        break;
      }
    }
  }

  lemma FirstReported(q: Log, next: int, t: int)
    requires Ordered(q, next) && WindowOf(q, next, LastId(q), t) != []
    ensures var w := WindowOf(q, next, LastId(q), t);
            forall k | 0 <= k < |q| && q[k] == w[0] ::
              k == FirstIndex(q, next, t + 1)
  {
    var w, i := WindowOf(q, next, LastId(q), t), FirstIndex(q, next, t + 1);
    assert w[0] == q[i];
    forall k | 0 <= k < |q| && q[k] == w[0] ensures k == i {
      SameEntryAt(q, next, i, k);
    }
  }

  /** What one round of the loop reads, and where it leaves the cursor. */
  lemma ReadsWindow(q: Log, next: int, t: int)
    requires Ordered(q, next) && q != [] && Completes(q, next, t)
    ensures var end := LastId(q);
            var r := ReadRange(q, next, t + 1, Min(t + 1 + MAX_XID_PER_SEGMENT, end));
            && r == WindowOf(q, next, end, t) && r != [] && r[|r| - 1].xid.Some?
            && NextCursor(q, next, end, t) == Some(r[|r| - 1].xid.value)
            && t < r[|r| - 1].xid.value <= Min(t + 1 + MAX_XID_PER_SEGMENT, end)
            && (r[|r| - 1].xid.value < end ==> Completes(q, next, r[|r| - 1].xid.value))
  {
    hide Completes, ReadRange;
    var end := LastId(q);
    CompletesStep(q, next, t);
    CursorBelowEnd(q, next, end, t);
    var r := WindowOf(q, next, end, t);
    ReadBounds(q, next, t + 1, WindowLast(end, t));
    assert r[|r| - 1] in r;
  }

  /** What the persister did with one window: one new segment that lists exactly the paths of the
      window's inodes (none if they are all gone), and a tarball of their contents. */
  ghost predicate PersistedOne(tree: Tree, contents: map<nat, Str>, before: seq<IndexedSegment>,
                               after: seq<IndexedSegment>, w: Window, tar: map<Str, Str>)
    requires TreeOK(tree)
  {
    var paths := PathsOfList(tree, w.inodes);
    && Archives(tar, paths, contents)
    && if paths == map[] then after == before
       else Appended(before, after, |before|, w.first, w.last, paths)
  }

  ghost predicate Persisted(tree: Tree, contents: map<nat, Str>, before: seq<IndexedSegment>,
                            after: seq<IndexedSegment>, windows: seq<Window>, tars: seq<map<Str, Str>>)
    requires TreeOK(tree) && |tars| == |windows|
    decreases |windows|
  {
    if windows == [] then after == before
    else
      var n := |windows| - 1;
      var k := if PathsOfList(tree, windows[n].inodes) == map[] || after == [] then |after| else |after| - 1;
      && Persisted(tree, contents, before, after[..k], windows[..n], tars[..n])
      && PersistedOne(tree, contents, after[..k], after, windows[n], tars[n])
  }

  lemma NonePersisted(tree: Tree, contents: map<nat, Str>, before: seq<IndexedSegment>)
    requires TreeOK(tree)
    ensures Persisted(tree, contents, before, before, [], [])
  {
  }

  lemma OneMorePersisted(tree: Tree, contents: map<nat, Str>, before: seq<IndexedSegment>,
                         mid: seq<IndexedSegment>, after: seq<IndexedSegment>,
                         windows: seq<Window>, tars: seq<map<Str, Str>>, w: Window, tar: map<Str, Str>)
    requires TreeOK(tree) && |tars| == |windows|
    requires Persisted(tree, contents, before, mid, windows, tars)
    requires PersistedOne(tree, contents, mid, after, w, tar)
    ensures Persisted(tree, contents, before, after, windows + [w], tars + [tar])
  {
    hide TreeOK, PathsOfList, Archives, Lists;
    assert (windows + [w])[..|windows|] == windows;
    assert (tars + [tar])[..|tars|] == tars;
    assert after == mid ==> after[..|after|] == mid;
  }

  ghost function PathsOfList(tree: Tree, inodes: seq<nat>): map<nat, Str>
    requires TreeOK(tree)
  {
    PathsOf(tree, set i | i in inodes)
  }

  lemma RootedRange(q: Log, next: int, first: int, last: int)
    requires InodesRooted(q)
    ensures forall n :: n in InodeSet(ReadRange(q, next, first, last)) ==> ROOT <= n
  {
    var r := ReadRange(q, next, first, last);
    forall n | n in InodeSet(r) ensures ROOT <= n {
      var k :| 0 <= k < |r| && r[k].inode.Some? && r[k].inode.value == n;
      assert q[FirstIndex(q, next, first) + k] == r[k];
    }
  }

  lemma IndexedOneMore(before: seq<IndexedSegment>, after: seq<IndexedSegment>, xid: int,
                       first: int, last: int, paths: map<nat, Str>)
    requires IndexedUpTo(before, xid) && xid < last
    requires after == before || Appended(before, after, |before|, first, last, paths)
    ensures IndexedUpTo(after, last)
  {
    hide Lists;
    if after != before {
      assert forall k :: 0 <= k < |before| ==> after[k] == after[..|before|][k];
    }
  }

  lemma NoWindows(q: Log, next: int, end: int, from: int)
    requires HasXids(q)
    ensures Tiles(q, next, end, [], from, from - 1)
  {
  }

  lemma OneMoreWindow(q: Log, next: int, end: int, windows: seq<Window>, from: int, w: Window)
    requires HasXids(q) && Tiles(q, next, end, windows, from, w.from - 1)
    requires WindowOK(q, next, end, w)
    ensures Tiles(q, next, end, windows + [w], from, w.last)
  {
    hide WindowOK;
    assert (windows + [w])[..|windows|] == windows;
  }

  /** In a gapless log a window holds exactly the entries of its ids. */
  lemma WindowIsExact(q: Log, next: int, end: int, w: Window)
    requires Gapless(q, next) && WindowOK(q, next, end, w) && next - |q| <= w.from && end < next
    ensures w.entries == Between(q, w.from, w.last) && |w.entries| == w.last - w.from + 1
    ensures w.entries[0].xid == Some(w.first) && w.first == w.from
  {
    hide InodeSet, Between, ReadRange;
    FirstOfSlice(q, next, end, w);
    GaplessReadIsExact(q, next, w.from, w.last);
  }

  lemma FirstOfSlice(q: Log, next: int, end: int, w: Window)
    requires Gapless(q, next) && WindowOK(q, next, end, w) && next - |q| <= w.from && end < next
    ensures w.entries == ReadRange(q, next, w.from, w.last) && |w.entries| == w.last - w.from + 1
    ensures w.entries[0].xid == Some(w.first) && w.first == w.from
  {
    hide InodeSet;
    var i, j := FirstIndex(q, next, w.from), WindowIndex(q, next, end, w.from - 1);
    assert w.entries == q[i..j + 1];
    assert w.entries[0] == q[i] && w.entries[|w.entries| - 1] == q[j];
  }

  /** Every untiered entry falls in exactly one window by its id; that window read it, and its
      inode is on the window's list. */
  lemma {:induction false} EachEntryInOneWindow(q: Log, next: int, end: int, windows: seq<Window>,
                                                from: int, to: int, k: nat)
    requires Ordered(q, next) && Tiles(q, next, end, windows, from, to)
    requires k < |q| && from <= q[k].xid.value <= to
    ensures exists j :: 0 <= j < |windows| && Catches(windows[j], q[k])
                        && forall i | 0 <= i < |windows| && i != j :: !InWindow(windows[i], q[k])
    decreases |windows|
  {
    hide WindowOK;
    var n := |windows| - 1;
    var w := windows[n];
    var init := windows[..n];
    if w.from <= q[k].xid.value {
      CaughtByWindow(q, next, end, w, k);
      forall i | 0 <= i < n ensures !InWindow(windows[i], q[k]) {
        WindowsEndBefore(q, next, end, init, from, w.from - 1, i);
        assert init[i] == windows[i];
      }
    } else {
      EachEntryInOneWindow(q, next, end, init, from, w.from - 1, k);
      var j :| 0 <= j < |init| && Catches(init[j], q[k])
               && forall i | 0 <= i < |init| && i != j :: !InWindow(init[i], q[k]);
      assert windows[j] == init[j];
      forall i | 0 <= i < |windows| && i != j ensures !InWindow(windows[i], q[k]) {
        if i < n { assert windows[i] == init[i]; }
      }
    }
  }

  lemma CaughtByWindow(q: Log, next: int, end: int, w: Window, k: nat)
    requires Ordered(q, next) && WindowOK(q, next, end, w) && k < |q| && w.from <= q[k].xid.value <= w.last
    ensures Catches(w, q[k])
  {
    hide NextCursor, WindowOf;
    WindowCatches(q, next, end, w.from - 1, k);
    var i :| 0 <= i < |w.entries| && w.entries[i] == q[k];
  }

  /** No window is longer than 1001 ids. */
  lemma {:induction false} WindowsAreShort(q: Log, next: int, end: int, windows: seq<Window>, from: int, to: int, i: nat)
    requires HasXids(q) && Tiles(q, next, end, windows, from, to) && i < |windows|
    ensures 1 <= windows[i].last - windows[i].from + 1 <= 1001
    ensures i > 0 ==> windows[i].from == windows[i - 1].last + 1
    ensures i == 0 ==> windows[0].from == from
    decreases |windows|
  {
    hide NextCursor, WindowOf, InodeSet;
    var n := |windows| - 1;
    if i < n {
      WindowsAreShort(q, next, end, windows[..n], from, windows[n].from - 1, i);
    } else if n > 0 {
      assert windows[..n][n - 1] == windows[n - 1];
    }
  }

  predicate InWindow(w: Window, e: LogEntry)
    requires e.xid.Some?
  {
    w.from <= e.xid.value <= w.last
  }

  /** The entry is read with the window and its inode is persisted with it. */
  predicate Catches(w: Window, e: LogEntry)
    requires e.xid.Some?
  {
    InWindow(w, e) && e in w.entries && (e.inode.Some? ==> e.inode.value in w.inodes)
  }

  lemma {:induction false} WindowsEndBefore(q: Log, next: int, end: int, windows: seq<Window>,
                                            from: int, to: int, i: nat)
    requires HasXids(q) && Tiles(q, next, end, windows, from, to) && i < |windows|
    ensures windows[i].last <= to
    decreases |windows|
  {
    hide NextCursor, WindowOf, InodeSet;
    var n := |windows| - 1;
    if i < n {
      assert windows[..n][i] == windows[i];
      WindowsEndBefore(q, next, end, windows[..n], from, windows[n].from - 1, i);
    }
  }
}
