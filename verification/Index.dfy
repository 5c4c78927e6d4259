/** The segment index: which tarball holds the latest copy of an inode. */
module Index {
  import opened Bytes

  datatype InodeOffset = InodeOffset(inode: nat, pathname: Str)

  /** `proto::Segment`; `id` stands for the tarball's name. */
  datatype IndexedSegment =
    IndexedSegment(id: nat, firstXid: int, lastXid: int, inodes: seq<InodeOffset>)

  predicate Holds(s: IndexedSegment, inode: nat)
  {
    exists i :: 0 <= i < |s.inodes| && s.inodes[i].inode == inode
  }

  predicate Eligible(s: IndexedSegment, inode: nat, before: int)
  {
    s.lastXid <= before && Holds(s, inode)
  }

  /** Segments appended in transaction order. */
  predicate InXidOrder(segments: seq<IndexedSegment>)
  {
    forall j, k :: 0 <= j < k < |segments| ==> segments[j].lastXid < segments[k].lastXid
  }

  /** The position of the last eligible segment. */
  function Latest(segments: seq<IndexedSegment>, inode: nat, before: int): (r: Option<nat>)
    ensures r.None? <==> forall k :: 0 <= k < |segments| ==> !Eligible(segments[k], inode, before)
    ensures r.Some? ==>
              && r.value < |segments| && Eligible(segments[r.value], inode, before)
              && forall k :: r.value < k < |segments| ==> !Eligible(segments[k], inode, before)
  {
    if segments == [] then None
    else
      var n := |segments| - 1;
      if Eligible(segments[n], inode, before) then Some(n) else Latest(segments[..n], inode, before)
  }

  /** The segment lists the inode. */
  predicate ListsInode(s: IndexedSegment, inode: nat)
  {
    exists o :: o in s.inodes && o.inode == inode
  }

  /** What is found: the last segment that ends at or before the id and lists the inode; nothing if and
      only if there is none. */
  lemma LatestExactly(segments: seq<IndexedSegment>, inode: nat, before: int, k: nat)
    requires k < |segments| && segments[k].lastXid <= before && ListsInode(segments[k], inode)
    ensures var r := Latest(segments, inode, before);
            && r.Some? && k <= r.value < |segments|
            && segments[r.value].lastXid <= before && ListsInode(segments[r.value], inode)
  {
    var o :| o in segments[k].inodes && o.inode == inode;
    var i :| 0 <= i < |segments[k].inodes| && segments[k].inodes[i] == o;
    assert Eligible(segments[k], inode, before);
    var r := Latest(segments, inode, before).value;
    var j :| 0 <= j < |segments[r].inodes| && segments[r].inodes[j].inode == inode;
    assert segments[r].inodes[j] in segments[r].inodes;
  }

  lemma LatestIsReal(segments: seq<IndexedSegment>, inode: nat, before: int)
    ensures var r := Latest(segments, inode, before);
            r.Some? ==> r.value < |segments| && segments[r.value].lastXid <= before
                        && ListsInode(segments[r.value], inode)
  {
    var r := Latest(segments, inode, before);
    if r.Some? {
      var j :| 0 <= j < |segments[r.value].inodes| && segments[r.value].inodes[j].inode == inode;
      assert segments[r.value].inodes[j] in segments[r.value].inodes;
    }
  }

  /** In a single-mount run the position found is that of the greatest eligible `last_xid`. */
  lemma LatestHasGreatestXid(segments: seq<IndexedSegment>, inode: nat, before: int)
    requires InXidOrder(segments)
    ensures var r := Latest(segments, inode, before);
            r.Some? ==>
              forall k :: 0 <= k < |segments| && Eligible(segments[k], inode, before) ==>
                segments[k].lastXid <= segments[r.value].lastXid
  {
  }

  /** Appending a segment changes the answer exactly for the inodes it holds. */
  lemma LatestAfterAppend(segments: seq<IndexedSegment>, s: IndexedSegment, inode: nat, before: int)
    ensures Latest(segments + [s], inode, before) ==
              if Eligible(s, inode, before) then Some(|segments|) else Latest(segments, inode, before)
  {
    assert (segments + [s])[..|segments|] == segments;
  }

  /** The first offset recorded for an inode in a segment. */
  function OffsetIn(inodes: seq<InodeOffset>, inode: nat): (r: InodeOffset)
    requires exists i :: 0 <= i < |inodes| && inodes[i].inode == inode
    ensures r in inodes && r.inode == inode
  {
    if inodes[0].inode == inode then inodes[0] else OffsetIn(inodes[1..], inode)
  }

  class IndexManager {
    var segments: seq<IndexedSegment>

    constructor ()
      ensures segments == []
    {
      segments := [];
    }

    /** `GetSegment`: scan from the most recent segment back, inside each from the front. */
    method GetSegment(inode: nat, before: int) returns (seg: Option<nat>, offset: Option<InodeOffset>)
      ensures seg == Latest(segments, inode, before)
      ensures seg.Some? ==> offset == Some(OffsetIn(segments[seg.value].inodes, inode))
      ensures seg.None? ==> offset == None
    {
      var k := |segments|;
      while k > 0
        invariant 0 <= k <= |segments|
        invariant forall j :: k <= j < |segments| ==> !Eligible(segments[j], inode, before)
      {
        k := k - 1;
        var s := segments[k];
        if s.lastXid > before {
          continue;
        }
        var i := 0;
        while i < |s.inodes|
          invariant 0 <= i <= |s.inodes|
          invariant forall j :: 0 <= j < i ==> s.inodes[j].inode != inode
        {
          if s.inodes[i].inode == inode {
            FirstMatch(s.inodes, inode, i);
            LatestIs(segments, inode, before, k);
            return Some(k), Some(s.inodes[i]);
          }
          i := i + 1;
        }
      }
      return None, None;
    }

    /** `Update`: append a segment listing the inodes of `paths` in inode order. */
    method Update(id: nat, firstXid: int, lastXid: int, paths: map<nat, Str>)
      modifies this
      ensures |segments| == |old(segments)| + 1 && segments[..|old(segments)|] == old(segments)
      ensures var s := segments[|old(segments)|];
              && s.id == id && s.firstXid == firstXid && s.lastXid == lastXid
              && Lists(s.inodes, paths)
    {
      var inodes := ListPaths(paths);
      segments := segments + [IndexedSegment(id, firstXid, lastXid, inodes)];
    }
  }

  /** The list holds each pair of the map once, in increasing inode order. */
  ghost predicate Lists(inodes: seq<InodeOffset>, paths: map<nat, Str>)
  {
    && (forall i, j :: 0 <= i < j < |inodes| ==> inodes[i].inode < inodes[j].inode)
    && (forall i :: 0 <= i < |inodes| ==>
          inodes[i].inode in paths && inodes[i].pathname == paths[inodes[i].inode])
    && (forall n :: n in paths ==> InodeOffset(n, paths[n]) in inodes)
  }

  ghost predicate Ascending(s: seq<nat>)
  {
    forall i, j :: 0 <= i < j < |s| ==> s[i] < s[j]
  }

  lemma LeastNat(s: set<nat>) returns (n: nat)
    requires s != {}
    ensures n in s && forall m | m in s :: n <= m
  {
    var leq := (a: nat, b: nat) => a <= b;
    LeastExists(s, leq);
    n :| IsLeast(n, s, leq);
    assert forall m | m in s :: leq(n, m);
  }

  /** The elements of a `std::set`, in the order of iteration. */
  method Ascend(s: set<nat>) returns (r: seq<nat>)
    ensures Ascending(r) && forall n :: n in r <==> n in s
  {
    r := [];
    var left := s;
    while left != {}
      invariant SortedSoFar(s, left, r)
      decreases left
    {
      hide SortedSoFar;
      ghost var least := LeastNat(left);
      var n :| n in left && forall m | m in left :: n <= m;
      SortedMore(s, left, r, n);
      r := r + [n];
      left := left - {n};
    }
  }

  /** What is not `left` is in `r`, in order, and below everything that is. */
  ghost predicate SortedSoFar(s: set<nat>, left: set<nat>, r: seq<nat>)
  {
    && left <= s && Ascending(r)
    && (forall n :: n in r <==> n in s - left)
    && (forall m | m in left :: Above(m, r))
  }

  lemma SortedMore(s: set<nat>, left: set<nat>, r: seq<nat>, n: nat)
    requires SortedSoFar(s, left, r) && n in left && forall m | m in left :: n <= m
    ensures SortedSoFar(s, left - {n}, r + [n])
  {
    hide Ascending;
    AscendingMore(r, n);
    forall m ensures m in r + [n] <==> m in s - (left - {n}) {
    }
  }

  ghost predicate Above(m: nat, r: seq<nat>)
  {
    forall i :: 0 <= i < |r| ==> r[i] < m
  }

  lemma AscendingMore(r: seq<nat>, n: nat)
    requires Ascending(r) && Above(n, r)
    ensures Ascending(r + [n])
  {
  }

  /** Iteration over a `std::map` keyed by inode. */
  method ListPaths(paths: map<nat, Str>) returns (inodes: seq<InodeOffset>)
    ensures Lists(inodes, paths)
  {
    var order := Ascend(paths.Keys);
    inodes := [];
    for i := 0 to |order|
      invariant |inodes| == i
      invariant forall j :: 0 <= j < i ==> order[j] in paths && inodes[j] == InodeOffset(order[j], paths[order[j]])
    {
      assert order[i] in order;
      inodes := inodes + [InodeOffset(order[i], paths[order[i]])];
    }
    forall n | n in paths ensures InodeOffset(n, paths[n]) in inodes {
      var i :| 0 <= i < |order| && order[i] == n;
      assert inodes[i] == InodeOffset(n, paths[n]);
    }
  }

  /** Every map can be listed. */
  lemma {:induction false} ListsExist(paths: map<nat, Str>) returns (inodes: seq<InodeOffset>)
    ensures Lists(inodes, paths)
    decreases |paths.Keys|
  {
    inodes := [];
    if paths.Keys != {} {
      hide Lists;
      var n := LeastNat(paths.Keys);
      var rest := paths - {n};
      assert rest.Keys == paths.Keys - {n};
      var tail := ListsExist(rest);
      ListsMore(paths, n, tail);
      inodes := [InodeOffset(n, paths[n])] + tail;
    }
  }

  lemma ListsMore(paths: map<nat, Str>, n: nat, tail: seq<InodeOffset>)
    requires n in paths && (forall m | m in paths :: n <= m) && Lists(tail, paths - {n})
    ensures Lists([InodeOffset(n, paths[n])] + tail, paths)
  {
    var all, rest := [InodeOffset(n, paths[n])] + tail, paths - {n};
    assert all[0] == InodeOffset(n, paths[n]);
    forall i | 1 <= i < |all|
      ensures all[i] == tail[i - 1] && all[i].inode in paths && n < all[i].inode
      ensures all[i].pathname == paths[all[i].inode]
    {
      assert tail[i - 1].inode in rest;
    }
    forall i, j | 0 <= i < j < |all| ensures all[i].inode < all[j].inode {
      if i > 0 { assert tail[i - 1].inode < tail[j - 1].inode; }
    }
    forall m | m in paths ensures InodeOffset(m, paths[m]) in all {
      if m != n {
        assert m in rest && InodeOffset(m, rest[m]) in tail;
      }
    }
  }

  lemma FirstMatch(inodes: seq<InodeOffset>, inode: nat, i: nat)
    requires i < |inodes| && inodes[i].inode == inode
    requires forall j :: 0 <= j < i ==> inodes[j].inode != inode
    ensures OffsetIn(inodes, inode) == inodes[i]
  {
    if i > 0 {
      assert inodes[1..][i - 1] == inodes[i];
      FirstMatch(inodes[1..], inode, i - 1);
    }
  }

  lemma LatestIs(segments: seq<IndexedSegment>, inode: nat, before: int, k: nat)
    requires k < |segments| && Eligible(segments[k], inode, before)
    requires forall j :: k < j < |segments| ==> !Eligible(segments[j], inode, before)
    ensures Latest(segments, inode, before) == Some(k)
  {
  }
}
