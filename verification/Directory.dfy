/** The hashed, partitioned directory of `LogFSFile`. */
module Directory {
  import opened Bytes
  import opened Keys
  import opened Store
  import opened DirCodec
  import opened DirView
  import opened Readdir
  import opened Partition

  lemma StoredKept(d: Contents, d': Contents, fsId: Inum, ino: Inum, p: nat, q: nat, m: NameMap)
    requires StoredAs(d, fsId, ino, q, m) && p != q && OnlyKey(d, d', Print(SubKey(ino, p)))
    ensures StoredAs(d', fsId, ino, q, m)
  {
    hide Print, Serialized;
    PrintInjective(SubKey(ino, p), SubKey(ino, q));
  }

  class DirectoryFile {
    const kv: KVStore
    const fsId: Inum
    const ino: Inum
    const hash: Hash
    const p0: LogFSDirectoryPartition
    const p1: LogFSDirectoryPartition

    ghost predicate PartOK(p: LogFSDirectoryPartition, number: nat)
      reads p, kv
    {
      PartOKIn(kv.data, p, number)
    }

    ghost predicate PartOKIn(d: Contents, p: LogFSDirectoryPartition, number: nat)
      reads p
    {
      && p.kv == kv && p.fsId == fsId && p.dirIno == ino && p.number == number && p.ValidIn(d)
      && (forall x | x in p.names :: Route(hash, x) == number)
      && (forall i | 0 <= i < |p.entries| :: Route(hash, p.entries[i].name) == number)
    }

    ghost predicate Valid()
      reads p0, p1, kv
    {
      ValidIn(kv.data)
    }

    /** The directory agrees with store contents `d`. */
    ghost predicate ValidIn(d: Contents)
      reads p0, p1
    {
      p0 != p1 && PartOKIn(d, p0, 0) && PartOKIn(d, p1, 1)
    }

    /** The directory as one map. */
    ghost function Names(): NameMap
      reads p0, p1
    {
      p0.names + p1.names
    }

    ghost function Views(): Dir
      reads p0, p1
    {
      [p0.Effective(), p1.Effective()]
    }

    /** A fresh object over a store that holds the two partition maps. */
    constructor (kv: KVStore, fsId: Inum, ino: Inum, hash: Hash, ghost m0: NameMap, ghost m1: NameMap)
      requires StoredAs(kv.data, fsId, ino, 0, m0) && Loadable(m0)
      requires StoredAs(kv.data, fsId, ino, 1, m1) && Loadable(m1)
      requires forall x | x in m0 :: Route(hash, x) == 0
      requires forall x | x in m1 :: Route(hash, x) == 1
      ensures this.kv == kv && this.fsId == fsId && this.ino == ino && this.hash == hash
      ensures Valid() && Names() == m0 + m1 && fresh(p0) && fresh(p1)
      ensures p0.state == p1.state == Invalid
    {
      hide StoredAs, Loadable;
      this.kv, this.fsId, this.ino, this.hash := kv, fsId, ino, hash;
      p0 := new LogFSDirectoryPartition(0, fsId, ino, kv, m0);
      p1 := new LogFSDirectoryPartition(1, fsId, ino, kv, m1);
    }

    function Part(number: nat): LogFSDirectoryPartition
      requires number < NUM_PARTITIONS
    {
      if number == 0 then p0 else p1
    }

    /** The partitions refine one map: a name is looked up where it was put. */
    lemma RoutedLookup(x: Str)
      requires Valid()
      ensures x in Names() <==> x in Part(Route(hash, x)).names
      ensures x in Names() ==> Names()[x] == Part(Route(hash, x)).names[x]
      ensures x !in Part(1 - Route(hash, x)).names
    {
      hide StoredAs, Covered;
    }

    lemma ViewsAreOK()
      requires Valid()
      ensures DirOK(hash, Views())
    {
      hide StoredAs, Loadable, Listing;
      PartViewOK(p0, 0);
      PartViewOK(p1, 1);
    }

    lemma PartViewOK(p: LogFSDirectoryPartition, number: nat)
      requires PartOK(p, number)
      ensures Covered(p.Effective()) && p.Effective().byName == p.names
      ensures forall i | 0 <= i < |p.Effective().entries| ::
                Route(hash, p.Effective().entries[i].name) == number
    {
      hide StoredAs, Loadable, InOrder;
      ListingCovers(p.names);
    }

    method InsertInto(p: LogFSDirectoryPartition, q: LogFSDirectoryPartition, number: nat,
                      child: Inum, name: Str) returns (status: Status)
      requires p != q && number < NUM_PARTITIONS && PartOK(p, number) && PartOK(q, 1 - number)
      requires Route(hash, name) == number
      modifies kv, p
      ensures PartOK(p, number) && PartOK(q, 1 - number)
      ensures status == if name in old(p.names) then InternalError else StatusOk
      ensures p.names == if name in old(p.names) then old(p.names) else old(p.names)[name := child]
      ensures p.Effective() == ApplyOp(old(p.Effective()), Insert(name, child))
      ensures SameElsewhere(old(kv.data), kv.data, ino) && InodeKept(old(kv.data), kv.data, ino)
    {
      hide StoredAs, Loadable, Covered, Listing, Print, OnlyKey, SameElsewhere, ApplyOp, InodeKept;
      ghost var d := kv.data;
      PartViewOK(p, number);
      RouteKept(hash, p.Effective(), Insert(name, child), number);
      var err := p.InsertEntry(child, name);
      status := if err != 0 then InternalError else StatusOk;
      StoredKept(d, kv.data, fsId, ino, number, 1 - number, q.names);
      KeyIsOwn(d, kv.data, ino, number);
    }

    method RemoveFrom(p: LogFSDirectoryPartition, q: LogFSDirectoryPartition, number: nat,
                      child: Inum, name: Str) returns (status: Status)
      requires p != q && number < NUM_PARTITIONS && PartOK(p, number) && PartOK(q, 1 - number)
      requires Route(hash, name) == number
      modifies kv, p
      ensures PartOK(p, number) && PartOK(q, 1 - number)
      ensures status == if name in old(p.names) then StatusOk else InternalError
      ensures p.names == old(p.names) - {name}
      ensures p.Effective() == ApplyOp(old(p.Effective()), Remove(name))
      ensures SameElsewhere(old(kv.data), kv.data, ino) && InodeKept(old(kv.data), kv.data, ino)
    {
      hide StoredAs, Loadable, Covered, Listing, Print, OnlyKey, SameElsewhere, ApplyOp, InodeKept;
      ghost var d := kv.data;
      PartViewOK(p, number);
      RouteKept(hash, p.Effective(), Remove(name), number);
      var err := p.RemoveEntry(child, name);
      status := if err != 0 then InternalError else StatusOk;
      StoredKept(d, kv.data, fsId, ino, number, 1 - number, q.names);
      KeyIsOwn(d, kv.data, ino, number);
    }

    /** `insertEntry`: one binding added to the map, or an error if the name is taken. */
    method InsertEntry(child: Inum, name: Str) returns (status: Status)
      requires Valid()
      modifies kv, p0, p1
      ensures Valid()
      ensures status == if name in old(Names()) then InternalError else StatusOk
      ensures Names() == if name in old(Names()) then old(Names()) else old(Names())[name := child]
      ensures Views() == DirStep(hash, old(Views()), Insert(name, child))
      ensures SameElsewhere(old(kv.data), kv.data, ino) && InodeKept(old(kv.data), kv.data, ino)
    {
      hide PartOKIn, ApplyOp, InodeKept, SameElsewhere;
      RoutedLookup(name);
      ghost var m0, m1, e0, e1 := p0.names, p1.names, p0.Effective(), p1.Effective();
      if Route(hash, name) == 0 {
        status := InsertInto(p0, p1, 0, child, name);
        UnionInsert(m0, m1, name, child);
        assert Views() == [e0, e1][0 := p0.Effective()];
      } else {
        status := InsertInto(p1, p0, 1, child, name);
        UnionInsert(m0, m1, name, child);
        assert Views() == [e0, e1][1 := p1.Effective()];
      }
    }

    /** `removeEntry`: the binding dropped from the map, or an error if there is none. */
    method RemoveEntry(child: Inum, name: Str) returns (status: Status)
      requires Valid()
      modifies kv, p0, p1
      ensures Valid()
      ensures status == if name in old(Names()) then StatusOk else InternalError
      ensures Names() == old(Names()) - {name}
      ensures Views() == DirStep(hash, old(Views()), Remove(name))
      ensures SameElsewhere(old(kv.data), kv.data, ino) && InodeKept(old(kv.data), kv.data, ino)
    {
      hide PartOKIn, ApplyOp, InodeKept, SameElsewhere;
      RoutedLookup(name);
      ghost var m0, m1, e0, e1 := p0.names, p1.names, p0.Effective(), p1.Effective();
      if Route(hash, name) == 0 {
        status := RemoveFrom(p0, p1, 0, child, name);
        UnionRemove(m0, m1, name);
        assert Views() == [e0, e1][0 := p0.Effective()];
      } else {
        status := RemoveFrom(p1, p0, 1, child, name);
        UnionRemove(m0, m1, name);
        assert Views() == [e0, e1][1 := p1.Effective()];
      }
    }

    /** `findHandle`: the inode bound to the name, or 0. */
    method FindHandle(name: Str) returns (child: Inum)
      requires Valid()
      modifies p0, p1
      ensures Valid() && Names() == old(Names()) && Views() == old(Views())
      ensures child == if name in Names() then Names()[name] else 0
    {
      hide StoredAs, Loadable, Covered, Listing;
      RoutedLookup(name);
      if Route(hash, name) == 0 {
        PartViewOK(p0, 0);
        child := p0.FindEntry(name);
      } else {
        PartViewOK(p1, 1);
        child := p1.FindEntry(name);
      }
    }

    method IsPartEmpty(p: LogFSDirectoryPartition, number: nat) returns (empty: bool)
      requires PartOK(p, number)
      modifies p
      ensures PartOK(p, number) && p.names == old(p.names) && p.Effective() == old(p.Effective())
      ensures empty <==> p.names.Keys <= {DOT, DOTDOT}
    {
      hide StoredAs, Loadable, Covered, Listing;
      PartViewOK(p, number);
      empty := p.IsEmpty();
    }

    /** `isDirEmpty`: true exactly when only "." and ".." remain. */
    method IsDirEmpty() returns (empty: bool)
      requires Valid()
      modifies p0, p1
      ensures Valid() && Names() == old(Names()) && Views() == old(Views())
      ensures empty <==> Names().Keys <= {DOT, DOTDOT}
    {
      hide PartOKIn;
      empty := IsPartEmpty(p0, 0);
      if empty {
        empty := IsPartEmpty(p1, 1);
      }
    }

    /** One partition's share of a readdir page. */
    method ListPart(p: LogFSDirectoryPartition, number: nat, adder: DirEntryAdder, cur: nat,
                    ghost rest: seq<Listed>)
      requires PartOK(p, number) && cur >= number * MAX_ENTRIES && !adder.outOfSpace
      modifies p, adder
      ensures PartOK(p, number) && p.names == old(p.names) && p.Effective() == old(p.Effective())
      ensures adder.out + (if adder.outOfSpace then [] else Fit(rest, adder.room, adder.need))
              == old(adder.out)
                 + Fit(LiveFrom(p.Effective(), cur - number * MAX_ENTRIES, number * MAX_ENTRIES) + rest,
                       old(adder.room), adder.need)
    {
      hide StoredAs, Loadable, Covered, Listing, Fit, LiveFrom;
      PartViewOK(p, number);
      var _ := p.ListEntries(adder, cur, number * MAX_ENTRIES, rest);
    }

    /** `listDirectory`: the longest prefix of the live entries after the cookie that fits. */
    method ListDirectory(adder: DirEntryAdder, cookie: nat) returns (status: Status)
      requires Valid() && !adder.outOfSpace
      modifies p0, p1, adder
      ensures Valid() && Names() == old(Names()) && Views() == old(Views())
      ensures Print(InodeKey(ino)) !in kv.data ==>
                status == ObjectDoesntExist && adder.out == old(adder.out)
      ensures Print(InodeKey(ino)) in kv.data ==>
                && status == StatusOk
                && adder.out == old(adder.out) + PageOf(Views(), cookie, old(adder.room), adder.need)
    {
      hide Print, PartOKIn, Fit, LiveFrom;
      if Print(InodeKey(ino)) !in kv.data {
        return ObjectDoesntExist;
      }
      ghost var views, out0 := Views(), adder.out;
      var i := (cookie / MAX_ENTRIES) % 0x1_0000;
      var cur := cookie;
      ghost var goal := out0 + PageOf(views, cookie, adder.room, adder.need);
      while i < NUM_PARTITIONS && !adder.outOfSpace
        invariant Valid() && Names() == old(Names()) && Views() == views
        invariant cookie <= cur && (cur == cookie || cur <= i * MAX_ENTRIES)
        invariant goal == adder.out + if adder.outOfSpace then []
                                      else Fit(LiveFromPartition(views, i, cookie), adder.room, adder.need)
        decreases NUM_PARTITIONS - i
      {
        var base := i * MAX_ENTRIES;
        if cur < base {
          cur := base;
        }
        ghost var rest := LiveFromPartition(views, i + 1, cookie);
        assert LiveFromPartition(views, i, cookie) == LiveFrom(views[i], cur - base, base) + rest;
        if i == 0 {
          ListPart(p0, 0, adder, cur, rest);
        } else {
          ListPart(p1, 1, adder, cur, rest);
        }
        i := i + 1;
      }
      FitNothing(adder.room, adder.need);
      status := StatusOk;
    }
  }

  lemma RouteKept(hash: Hash, v: PartView, op: DirOp, number: nat)
    requires Route(hash, op.name) == number
    requires forall i | 0 <= i < |v.entries| :: Route(hash, v.entries[i].name) == number
    ensures forall i | 0 <= i < |ApplyOp(v, op).entries| ::
              Route(hash, ApplyOp(v, op).entries[i].name) == number
  {
  }

  lemma UnionInsert(m0: NameMap, m1: NameMap, x: Str, v: Inum)
    ensures x !in m1 ==> m0[x := v] + m1 == (m0 + m1)[x := v]
    ensures m0 + m1[x := v] == (m0 + m1)[x := v]
  {
  }

  lemma UnionRemove(m0: NameMap, m1: NameMap, x: Str)
    ensures x !in m1 ==> (m0 - {x}) + m1 == (m0 + m1) - {x}
    ensures x !in m0 ==> m0 + (m1 - {x}) == (m0 + m1) - {x}
  {
  }

  lemma FitNothing(room: nat, need: Need)
    ensures Fit([], room, need) == []
  {
  }

  /** A fresh object reading the store sees the same map, for every map with clean names. */
  method Reopen(dir: DirectoryFile) returns (again: DirectoryFile)
    requires dir.Valid() && Loadable(dir.p0.names) && Loadable(dir.p1.names)
    ensures fresh(again) && again.Valid() && again.Names() == dir.Names()
    ensures again.kv == dir.kv && again.ino == dir.ino && again.hash == dir.hash
    ensures again.p0.state == again.p1.state == Invalid
  {
    hide StoredAs, Loadable;
    again := new DirectoryFile(dir.kv, dir.fsId, dir.ino, dir.hash, dir.p0.names, dir.p1.names);
  }

  lemma KeyIsOwn(d: Contents, d': Contents, ino: nat, p: nat)
    requires OnlyKey(d, d', Print(SubKey(ino, p)))
    ensures SameElsewhere(d, d', ino) && InodeKept(d, d', ino)
  {
    hide Print;
    PrintInjective(SubKey(ino, p), InodeKey(ino));
  }

  /** No operation on another inode disturbs a stored partition. */
  lemma PartitionUntouched(d: Contents, d': Contents, fsId: Inum, ino: Inum, p: nat, m: NameMap)
    requires SameInode(d, d', ino) && StoredAs(d, fsId, ino, p, m)
    ensures StoredAs(d', fsId, ino, p, m)
  {
    hide Print, Serialized;
  }

  // ---- whole runs -------------------------------------------------------------------------

  datatype DirCall = Enter(name: Str, child: Inum) | Drop(name: Str, child: Inum) | Find(name: Str)

  /** The reference directory: one map from names to inodes. */
  function MapStep(m: NameMap, call: DirCall): NameMap
  {
    match call
    case Enter(x, child) => if x in m then m else m[x := child]
    case Drop(x, _) => m - {x}
    case Find(_) => m
  }

  datatype DirReply = Ok | Failed | Found(ino: Inum)

  function MapReply(m: NameMap, call: DirCall): DirReply
  {
    match call
    case Enter(x, _) => if x in m then Failed else Ok
    case Drop(x, _) => if x in m then Ok else Failed
    case Find(x) => Found(if x in m then m[x] else 0)
  }

  function MapRun(m: NameMap, calls: seq<DirCall>): NameMap
  {
    if calls == [] then m else MapStep(MapRun(m, calls[..|calls| - 1]), calls[|calls| - 1])
  }

  function MapReplies(m: NameMap, calls: seq<DirCall>): seq<DirReply>
  {
    if calls == [] then []
    else
      var n := |calls| - 1;
      MapReplies(m, calls[..n]) + [MapReply(MapRun(m, calls[..n]), calls[n])]
  }

  predicate About(call: DirCall, x: Str)
  {
    !call.Find? && call.name == x
  }

  /** Over any run, a name that no call enters or drops stays as it was. */
  lemma {:induction false} RunKeepsName(m: NameMap, calls: seq<DirCall>, x: Str)
    requires forall call | call in calls :: !About(call, x)
    ensures x in MapRun(m, calls) <==> x in m
    ensures x in m ==> MapRun(m, calls)[x] == m[x]
  {
    if calls != [] {
      assert calls[|calls| - 1] in calls;
      RunKeepsName(m, calls[..|calls| - 1], x);
    }
  }

  lemma {:induction false} MapRunInTwo(m: NameMap, a: seq<DirCall>, b: seq<DirCall>)
    ensures MapRun(m, a + b) == MapRun(MapRun(m, a), b)
    decreases |b|
  {
    hide MapStep;
    if b == [] {
      assert a + b == a;
    } else {
      var n := |b| - 1;
      assert (a + b)[..|a| + n] == a + b[..n];
      MapRunInTwo(m, a, b[..n]);
    }
  }

  /** What the replies mean: a lookup finds the inode with which a name was entered while it was free,
      and nothing once it was dropped, if no call on that name came in between. */
  lemma LookupsFindTheLast(m: NameMap, before: seq<DirCall>, call: DirCall, between: seq<DirCall>, after: seq<DirCall>)
    requires !call.Find? && forall c | c in between :: !About(c, call.name)
    ensures var calls := before + [call] + between + [Find(call.name)] + after;
            var n := |before| + 1 + |between|;
            && |MapReplies(m, calls)| == |calls|
            && (call.Drop? ==> MapReplies(m, calls)[n] == Found(0))
            && (call.Enter? && call.name !in MapRun(m, before) ==> MapReplies(m, calls)[n] == Found(call.child))
            && (call.Enter? && call.name in MapRun(m, before) ==>
                  && MapReplies(m, calls)[|before|] == Failed
                  && MapReplies(m, calls)[n] == Found(MapRun(m, before)[call.name]))
  {
    hide MapReplies, MapRun;
    var calls := before + [call] + between + [Find(call.name)] + after;
    var n := |before| + 1 + |between|;
    RepliesAt(m, calls, |before|);
    RepliesAt(m, calls, n);
    assert calls[..|before|] == before;
    assert calls[..n] == before + [call] + between;
    MapRunInTwo(m, before, [call]);
    MapRunInTwo(m, before + [call], between);
    MapRunOne(MapRun(m, before), call);
    RunKeepsName(MapRun(m, before + [call]), between, call.name);
  }

  lemma MapRunOne(m: NameMap, call: DirCall)
    ensures MapRun(m, [call]) == MapStep(m, call)
  {
    assert [call][..0] == [];
  }

  lemma {:induction false} RepliesAt(m: NameMap, calls: seq<DirCall>, n: nat)
    requires n < |calls|
    ensures |MapReplies(m, calls)| == |calls|
    ensures MapReplies(m, calls)[n] == MapReply(MapRun(m, calls[..n]), calls[n])
    decreases |calls|
  {
    hide MapReply, MapRun;
    var k := |calls| - 1;
    RepliesCount(m, calls[..k]);
    if n < k {
      RepliesAt(m, calls[..k], n);
      assert calls[..k][..n] == calls[..n];
    }
  }

  lemma {:induction false} RepliesCount(m: NameMap, calls: seq<DirCall>)
    ensures |MapReplies(m, calls)| == |calls|
  {
    hide MapReply, MapRun;
    if calls != [] { RepliesCount(m, calls[..|calls| - 1]); }
  }

  method DoDirCall(dir: DirectoryFile, call: DirCall) returns (reply: DirReply)
    requires dir.Valid()
    modifies dir.kv, dir.p0, dir.p1
    ensures dir.Valid()
    ensures dir.Names() == MapStep(old(dir.Names()), call)
    ensures reply == MapReply(old(dir.Names()), call)
  {
    match call {
      case Enter(x, child) =>
        var status := dir.InsertEntry(child, x);
        reply := if status == StatusOk then Ok else Failed;
      case Drop(x, child) =>
        var status := dir.RemoveEntry(child, x);
        reply := if status == StatusOk then Ok else Failed;
      case Find(x) =>
        var ino := dir.FindHandle(x);
        reply := Found(ino);
    }
  }

  /** Any sequence of inserts, removes and lookups on the partitioned directory answers as one
      plain map would, and ends as that map. */
  method RunDirectory(dir: DirectoryFile, calls: seq<DirCall>) returns (replies: seq<DirReply>)
    requires dir.Valid()
    modifies dir.kv, dir.p0, dir.p1
    ensures dir.Valid()
    ensures dir.Names() == MapRun(old(dir.Names()), calls)
    ensures replies == MapReplies(old(dir.Names()), calls)
  {
    hide MapStep, MapReply;
    ghost var m := dir.Names();
    replies := [];
    for n := 0 to |calls|
      invariant dir.Valid()
      invariant dir.Names() == MapRun(m, calls[..n])
      invariant replies == MapReplies(m, calls[..n])
    {
      var reply := DoDirCall(dir, calls[n]);
      assert calls[..n + 1][..n] == calls[..n];
      replies := replies + [reply];
    }
    assert calls[..|calls|] == calls;
  }

  // ---- a paged scan -----------------------------------------------------------------------

  /** The changes made between two pages. */
  method ApplyChanges(dir: DirectoryFile, ops: seq<DirOp>)
    requires dir.Valid()
    modifies dir.kv, dir.p0, dir.p1
    ensures dir.Valid() && dir.Views() == DirRun(dir.hash, old(dir.Views()), ops)
    ensures InodeKept(old(dir.kv.data), dir.kv.data, dir.ino)
  {
    hide DirectoryFile.ValidIn, DirectoryFile.Names, DirStep, InodeKept, SameElsewhere;
    ghost var goal := DirRun(dir.hash, dir.Views(), ops);
    SameInodeItself(dir.kv.data, dir.ino);
    ghost var d0 := dir.kv.data;
    for n := 0 to |ops|
      invariant dir.Valid() && InodeKept(d0, dir.kv.data, dir.ino)
      invariant goal == DirRun(dir.hash, dir.Views(), ops[n..])
    {
      ghost var d := dir.kv.data;
      assert ops[n..][1..] == ops[n + 1..];
      match ops[n] {
        case Insert(x, ino) => var _ := dir.InsertEntry(ino, x);
        case Remove(x) => var _ := dir.RemoveEntry(0, x);
      }
      InodeKeptTwice(d0, d, dir.kv.data, dir.ino);
    }
  }

  lemma SameInodeItself(d: Contents, h: nat)
    ensures InodeKept(d, d, h)
  {
  }

  lemma InodeKeptTwice(d: Contents, d': Contents, d'': Contents, h: nat)
    requires InodeKept(d, d', h) && InodeKept(d', d'', h)
    ensures InodeKept(d, d'', h)
  {
    hide Print;
  }

  /** A paged readdir of a stored directory, with changes before each page: it returns what the scan
      over values does, and so, for every name that each page finds present, an entry with it, and
      only one if no pair was ever re-inserted and the vectors stay within bounds. */
  method RunScan(dir: DirectoryFile, need: Need, script: seq<Page>) returns (out: seq<Listed>)
    requires dir.Valid() && Print(InodeKey(dir.ino)) in dir.kv.data
    modifies dir.kv, dir.p0, dir.p1
    ensures dir.Valid() && |old(dir.Views())| == NUM_PARTITIONS
    ensures out == Scan(dir.hash, need, old(dir.Views()), 0, script)
    ensures forall x | ScanSees(dir.hash, need, old(dir.Views()), 0, script, x) ::
              exists l :: l in out && l.entry.name == x
    ensures var final := After(dir.hash, old(dir.Views()), script);
            Bounded(final) && NoReinsertion(final) ==>
              forall e | ScanKeeps(dir.hash, need, old(dir.Views()), 0, script, e) :: ReturnedOnce(out, e)
  {
    hide Print, DirectoryFile.ValidIn, DirRun, PageOf, Bounded, NoReinsertion, ReturnedOnce;
    ghost var start := dir.Views();
    dir.ViewsAreOK();
    ghost var goal := Scan(dir.hash, need, start, 0, script);
    var cookie := 0;
    out := [];
    var n := 0;
    while n < |script|
      invariant 0 <= n <= |script| && dir.Valid() && Print(InodeKey(dir.ino)) in dir.kv.data
      invariant goal == out + Scan(dir.hash, need, dir.Views(), cookie, script[n..])
    {
      ApplyChanges(dir, script[n].ops);
      var adder := new DirEntryAdder(need, script[n].room);
      var _ := dir.ListDirectory(adder, cookie);
      var page := adder.out;
      assert page == PageOf(dir.Views(), cookie, script[n].room, need);
      assert script[n..][1..] == script[n + 1..];
      if page == [] {
        break;
      }
      ghost var rest := Scan(dir.hash, need, dir.Views(), page[|page| - 1].next, script[n + 1..]);
      assert out + (page + rest) == (out + page) + rest;
      out := out + page;
      cookie := page[|page| - 1].next;
      n := n + 1;
    }
    assert out == goal;
    forall x | ScanSees(dir.hash, need, start, 0, script, x)
      ensures exists l :: l in out && l.entry.name == x
    {
      ScanIsComplete(dir.hash, need, start, script, x);
    }
    ghost var final := After(dir.hash, start, script);
    if Bounded(final) && NoReinsertion(final) {
      forall e | ScanKeeps(dir.hash, need, start, 0, script, e) ensures ReturnedOnce(out, e) {
        ScanReturnsExactlyOnce(dir.hash, need, start, script, e);
      }
    }
  }
}
