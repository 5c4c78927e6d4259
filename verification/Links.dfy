/** Link counts: `createRoot`, `create`, `link` and `remove` over the stored directories, with one loaded
    object per inode. */
module Links {
  import opened Bytes
  import opened Keys
  import opened Store
  import opened DirCodec
  import opened Readdir
  import opened Partition
  import opened Directory
  import opened Dirs

  /** A stored directory entry is identified by its directory and its name. */
  type Slot = (nat, Str)

  type Entries = map<Slot, nat>

  /** All the entries of all directories. */
  ghost function Flat(t: Tables): Entries
  {
    map k | k in SlotsOf(t) :: t[k.0][k.1] as nat
  }

  ghost function SlotsOf(t: Tables): (r: set<Slot>)
    ensures forall k :: k in r <==> k.0 in t && k.1 in t[k.0]
  {
    set h, x | h in t && x in t[h] :: (h, x)
  }

  lemma FlatEnter(t: Tables, h: nat, x: Str, child: Inum)
    requires h in t && x !in t[h]
    ensures (h, x) !in Flat(t) && Flat(Entered(t, h, x, child)) == Flat(t)[(h, x) := child]
  {
    var e, e' := Flat(t), Flat(Entered(t, h, x, child));
    assert forall k :: k in e' <==> k in e || k == (h, x);
  }

  lemma FlatRemove(t: Tables, h: nat, x: Str)
    requires h in t && x in t[h]
    ensures (h, x) in Flat(t) && Flat(t)[(h, x)] == t[h][x]
    ensures Flat(Removed(t, h, x)) == Flat(t) - {(h, x)}
  {
    var e, e' := Flat(t), Flat(Removed(t, h, x));
    assert forall k :: k in e' <==> k in e && k != (h, x);
  }

  lemma FlatNew(t: Tables, h: nat)
    requires h !in t
    ensures Flat(t[h := map[]]) == Flat(t)
  {
    assert forall k :: k in SlotsOf(t[h := map[]]) <==> k in SlotsOf(t);
  }

  datatype Node = Node(isDir: bool, nLink: int)

  type Nodes = map<nat, Node>

  /** The stored entries that name inode `i`, "." and ".." included. */
  ghost function Refs(ents: Entries, i: nat): set<Slot>
  {
    set k | k in ents && ents[k] == i
  }

  /** Every entry sits in a loaded directory and names a loaded inode. */
  ghost predicate Closed(nodes: Nodes, ents: Entries)
  {
    forall k | k in ents :: k.0 in nodes && nodes[k.0].isDir && ents[k] in nodes
  }

  /** Each link count is the number of entries naming the inode. */
  ghost predicate Balanced(nodes: Nodes, ents: Entries)
  {
    forall i | i in nodes :: nodes[i].nLink == |Refs(ents, i)|
  }

  function Adjust(nodes: Nodes, i: nat, n: int): Nodes
    requires i in nodes
  {
    nodes[i := nodes[i].(nLink := nodes[i].nLink + n)]
  }

  /** Adding an entry and one link keeps every count right. */
  lemma InsertKeepsBalance(nodes: Nodes, ents: Entries, k: Slot, i: nat)
    requires Balanced(nodes, ents) && k !in ents && i in nodes
    ensures Balanced(Adjust(nodes, i, 1), ents[k := i])
  {
    var ents' := ents[k := i];
    forall j | j in nodes
      ensures Adjust(nodes, i, 1)[j].nLink == |Refs(ents', j)|
    {
      if j == i {
        assert Refs(ents', i) == Refs(ents, i) + {k};
      } else {
        assert Refs(ents', j) == Refs(ents, j);
      }
    }
  }

  /** Removing an entry and one link keeps every count right exactly when the link is taken from
      the inode that the entry names, that is, when the caller looked the name up. */
  lemma RemoveKeepsBalanceExactly(nodes: Nodes, ents: Entries, k: Slot, i: nat)
    requires Balanced(nodes, ents) && Closed(nodes, ents) && k in ents && i in nodes
    ensures Balanced(Adjust(nodes, i, -1), ents - {k}) <==> ents[k] == i
  {
    var ents', nodes' := ents - {k}, Adjust(nodes, i, -1);
    forall j | j in nodes
      ensures |Refs(ents', j)| == if j == ents[k] then nodes[j].nLink - 1 else nodes[j].nLink
    {
      if j == ents[k] {
        assert Refs(ents', j) == Refs(ents, j) - {k};
      } else {
        assert Refs(ents', j) == Refs(ents, j);
      }
    }
    if ents[k] != i {
      assert nodes'[i].nLink != |Refs(ents', i)|;
    }
  }

  ghost predicate Sound(nodes: Nodes, ents: Entries)
  {
    Closed(nodes, ents) && Balanced(nodes, ents)
  }

  lemma InsertSound(nodes: Nodes, ents: Entries, k: Slot, i: nat)
    requires Sound(nodes, ents) && k !in ents && i in nodes && k.0 in nodes && nodes[k.0].isDir
    ensures Sound(Adjust(nodes, i, 1), ents[k := i])
  {
    InsertKeepsBalance(nodes, ents, k, i);
  }

  lemma RemoveSoundExactly(nodes: Nodes, ents: Entries, k: Slot, i: nat)
    requires Sound(nodes, ents) && k in ents && i in nodes
    ensures Sound(Adjust(nodes, i, -1), ents - {k}) <==> ents[k] == i
  {
    hide Balanced;
    RemoveKeepsBalanceExactly(nodes, ents, k, i);
  }

  /** A new inode starts with no links, and nothing names it or lies in it. */
  lemma FreshSound(nodes: Nodes, ents: Entries, h: nat, isDir: bool)
    requires Sound(nodes, ents) && h !in nodes
    ensures Sound(nodes[h := Node(isDir, 0)], ents)
    ensures forall x: Str :: (h, x) !in ents
  {
    assert Refs(ents, h) == {};
  }

  lemma EmptySound(root: nat)
    ensures Sound(map[root := Node(true, 0)], map[])
  {
    var ents: Entries := map[];
    assert Refs(ents, root) == {};
  }

  // ---- the sum of all link counts ---------------------------------------------------------

  ghost function LinkSum(nodes: Nodes, s: set<nat>): int
    requires s <= nodes.Keys
  {
    if s == {} then 0 else var i :| i in s; nodes[i].nLink + LinkSum(nodes, s - {i})
  }

  /** It is a sum: each inode counts once, in whatever order. */
  lemma {:induction false} LinkSumAdds(nodes: Nodes, s: set<nat>, i: nat)
    requires s <= nodes.Keys && i in s
    ensures LinkSum(nodes, {}) == 0
    ensures LinkSum(nodes, s) == nodes[i].nLink + LinkSum(nodes, s - {i})
    decreases s
  {
    var j :| j in s && LinkSum(nodes, s) == nodes[j].nLink + LinkSum(nodes, s - {j});
    if i != j {
      LinkSumAdds(nodes, s - {j}, i);
      LinkSumAdds(nodes, s - {i}, j);
      assert s - {i} - {j} == s - {j} - {i};
    }
  }

  ghost function NamedIn(ents: Entries, s: set<nat>): set<Slot>
  {
    set k | k in ents && ents[k] in s
  }

  lemma NamedInSplit(ents: Entries, s: set<nat>, i: nat)
    requires i in s
    ensures |NamedIn(ents, s)| == |Refs(ents, i)| + |NamedIn(ents, s - {i})|
  {
    assert NamedIn(ents, s) == Refs(ents, i) + NamedIn(ents, s - {i});
    assert Refs(ents, i) !! NamedIn(ents, s - {i});
  }

  lemma {:induction false} LinkSumCounts(nodes: Nodes, ents: Entries, s: set<nat>)
    requires s <= nodes.Keys && Balanced(nodes, ents)
    ensures LinkSum(nodes, s) == |NamedIn(ents, s)|
  {
    hide Refs, NamedIn;
    if s == {} {
      NamedInNothing(ents);
    } else {
      var i :| i in s && LinkSum(nodes, s) == nodes[i].nLink + LinkSum(nodes, s - {i});
      LinkSumCounts(nodes, ents, s - {i});
      NamedInSplit(ents, s, i);
    }
  }

  lemma NamedInNothing(ents: Entries)
    ensures NamedIn(ents, {}) == {}
  {
  }

  lemma AllAreNamed(nodes: Nodes, ents: Entries)
    requires Closed(nodes, ents)
    ensures NamedIn(ents, nodes.Keys) == ents.Keys
  {
  }

  /** The sum of all link counts is the total number of directory entries. */
  lemma TotalLinks(nodes: Nodes, ents: Entries)
    requires Sound(nodes, ents)
    ensures LinkSum(nodes, nodes.Keys) == |ents|
  {
    hide LinkSum, Closed, Balanced, NamedIn;
    LinkSumCounts(nodes, ents, nodes.Keys);
    AllAreNamed(nodes, ents);
  }

  // ---- the specification ------------------------------------------------------------------

  /** The directories' name maps, the loaded inodes, and the next inode number. */
  datatype Ns = Ns(names: Tables, nodes: Nodes, next: nat)

  /** Directories are exactly the inodes that have a name map, every count is right, and inode
      numbers are handed out in order, from 1. */
  ghost predicate NsOK(s: Ns)
  {
    && s.names.Keys == (set i | i in s.nodes && s.nodes[i].isDir)
    && s.next <= TWO_64 && (forall i | i in s.nodes :: 0 < i < s.next)
    && Sound(s.nodes, Flat(s.names))
  }

  /** A call of the file system; `Unmake` looks the name up and removes what it finds. */
  datatype NsCall =
    | Make(parent: nat, name: Str, isDir: bool)
    | LinkTo(dir: nat, file: nat, name: Str)
    | Unmake(parent: nat, name: Str)

  predicate MakeOK(s: Ns, parent: nat, name: Str)
  {
    && parent in s.names && parent in s.nodes && parent < TWO_64 && name !in s.names[parent]
    && s.next < TWO_64 && s.next !in s.names && s.next !in s.nodes
  }

  predicate LinkOK(s: Ns, dir: nat, file: nat, name: Str)
  {
    && dir in s.names && file in s.nodes && !s.nodes[file].isDir && file < TWO_64
    && name !in s.names[dir]
  }

  predicate UnmakeOK(s: Ns, parent: nat, name: Str)
  {
    parent in s.names && name in s.names[parent] && s.names[parent][name] in s.nodes
  }

  function Linked(s: Ns, dir: nat, child: Inum, name: Str): Ns
    requires dir in s.names && child in s.nodes
  {
    s.(names := Entered(s.names, dir, name, child), nodes := Adjust(s.nodes, child, 1))
  }

  /** A new inode without links, and for a directory without entries. */
  function WithNode(s: Ns, isDir: bool): Ns
  {
    Ns(if isDir then s.names[s.next := map[]] else s.names, s.nodes[s.next := Node(isDir, 0)], s.next + 1)
  }

  /** `create`: the new inode, its entry in the parent, and for a directory its dots. */
  function Made(s: Ns, parent: nat, name: Str, isDir: bool): Ns
    requires MakeOK(s, parent, name)
  {
    Enrolled(WithNode(s, isDir), s.next, parent, name, isDir)
  }

  function Enrolled(s: Ns, h: Inum, parent: Inum, name: Str, isDir: bool): Ns
    requires parent in s.names && parent in s.nodes && h in s.nodes && (isDir ==> h in s.names)
  {
    var s1 := Linked(s, parent, h, name);
    if isDir then Linked(Linked(s1, h, h, DOT), h, parent, DOTDOT) else s1
  }

  function NsStep(s: Ns, call: NsCall): Ns
  {
    match call
    case Make(p, x, isDir) => if MakeOK(s, p, x) then Made(s, p, x, isDir) else s
    case LinkTo(d, f, x) => if LinkOK(s, d, f, x) then Linked(s, d, f, x) else s
    case Unmake(p, x) =>
      if UnmakeOK(s, p, x) then
        Unlinked(s, p, x, s.names[p][x])
      else s
  }

  function NsRun(s: Ns, calls: seq<NsCall>): Ns
  {
    if calls == [] then s else NsStep(NsRun(s, calls[..|calls| - 1]), calls[|calls| - 1])
  }

  lemma LinkedOK(s: Ns, dir: nat, child: Inum, name: Str)
    requires NsOK(s) && dir in s.names && child in s.nodes && name !in s.names[dir]
    ensures NsOK(Linked(s, dir, child, name))
  {
    hide Sound, Flat;
    FlatEnter(s.names, dir, name, child);
    InsertSound(s.nodes, Flat(s.names), (dir, name), child);
  }

  lemma WithNodeOK(s: Ns, isDir: bool)
    requires NsOK(s) && 0 < s.next < TWO_64
    ensures NsOK(WithNode(s, isDir))
  {
    hide Sound, Flat;
    FreshSound(s.nodes, Flat(s.names), s.next, isDir);
    FlatNew(s.names, s.next);
  }

  lemma MadeOK(s: Ns, parent: nat, name: Str, isDir: bool)
    requires NsOK(s) && MakeOK(s, parent, name)
    ensures NsOK(Made(s, parent, name, isDir))
  {
    hide Sound;
    var h: Inum := s.next;
    var s0 := WithNode(s, isDir);
    WithNodeOK(s, isDir);
    LinkedOK(s0, parent, h, name);
    if isDir {
      var s1 := Linked(s0, parent, h, name);
      assert DOT !in s1.names[h];
      LinkedOK(s1, h, h, DOT);
      var s2 := Linked(s1, h, h, DOT);
      assert DOTDOT !in s2.names[h];
      LinkedOK(s2, h, parent as Inum, DOTDOT);
    }
  }

  lemma StepOK(s: Ns, call: NsCall)
    requires NsOK(s)
    ensures NsOK(NsStep(s, call))
  {
    hide NsOK, Made, Linked, Unlinked;
    match call
    case Make(p, x, isDir) => if MakeOK(s, p, x) { MadeOK(s, p, x, isDir); }
    case LinkTo(d, f, x) => if LinkOK(s, d, f, x) { LinkedOK(s, d, f, x); }
    case Unmake(p, x) => if UnmakeOK(s, p, x) { UnlinkedOKExactly(s, p, x, s.names[p][x]); }
  }

  /** After any sequence of calls each link count is the number of entries naming the inode, and
      their sum is the number of all entries. */
  lemma {:induction false} CountsInEveryRun(s: Ns, calls: seq<NsCall>)
    requires NsOK(s)
    ensures var r := NsRun(s, calls);
            && NsOK(r) && Balanced(r.nodes, Flat(r.names))
            && LinkSum(r.nodes, r.nodes.Keys) == |Flat(r.names)|
  {
    hide NsStep, Flat, LinkSum, Balanced, Closed;
    if calls != [] {
      var init := calls[..|calls| - 1];
      CountsInEveryRun(s, init);
      StepOK(NsRun(s, init), calls[|calls| - 1]);
    }
    var r := NsRun(s, calls);
    TotalLinks(r.nodes, Flat(r.names));
  }

  // ---- what each call does, entry by entry ------------------------------------------------

  lemma EntryOfName(t: Tables, h: nat, x: Str)
    ensures (h, x) in Flat(t) <==> h in t && x in t[h]
    ensures h in t && x in t[h] ==> Flat(t)[(h, x)] == t[h][x]
  {
  }

  lemma NamesAreNodes(s: Ns)
    requires NsOK(s)
    ensures s.next !in s.nodes && s.next !in s.names
    ensures forall i | i in s.names :: i in s.nodes && s.nodes[i].isDir && i < s.next
    ensures forall i | i in s.nodes :: i < s.next
  {
    hide Sound;
  }

  lemma FlatLinked(s: Ns, dir: nat, child: Inum, name: Str)
    requires dir in s.names && child in s.nodes && name !in s.names[dir]
    ensures var r := Linked(s, dir, child, name);
            && Flat(r.names) == Flat(s.names)[(dir, name) := child] && r.names.Keys == s.names.Keys
            && r.nodes == s.nodes[child := s.nodes[child].(nLink := s.nodes[child].nLink + 1)] && r.next == s.next
            && (forall g | g in s.names && g != dir :: r.names[g] == s.names[g])
            && (forall x :: x in r.names[dir] <==> x in s.names[dir] || x == name)
  {
    hide Flat;
    FlatEnter(s.names, dir, name, child);
  }

  /** `create`: a free name in a directory gets the next inode number, with one entry in the parent
      and one link; a new directory also has "." naming itself and ".." naming the parent, hence two
      links, and the parent one more.  Any other call changes nothing. */
  lemma MakeExactly(s: Ns, p: nat, x: Str, isDir: bool)
    requires NsOK(s)
    ensures var r, h := NsStep(s, Make(p, x, isDir)), s.next;
            if !(p in s.names && x !in s.names[p] && h < 0x1_0000_0000_0000_0000) then r == s
            else if isDir then
              && Flat(r.names) == Flat(s.names)[(p, x) := h][(h, [46]) := h][(h, [46, 46]) := p]
              && r.nodes == s.nodes[p := s.nodes[p].(nLink := s.nodes[p].nLink + 1)][h := Node(true, 2)]
              && r.names.Keys == s.names.Keys + {h} && r.next == h + 1
            else
              && Flat(r.names) == Flat(s.names)[(p, x) := h] && r.nodes == s.nodes[h := Node(false, 1)]
              && r.names.Keys == s.names.Keys && r.next == h + 1
  {
    hide NsOK, Flat, Linked;
    NamesAreNodes(s);
    if p in s.names && x !in s.names[p] && s.next < TWO_64 {
      var h: Inum := s.next;
      var s0 := WithNode(s, isDir);
      FlatNew(s.names, h);
      FlatLinked(s0, p, h, x);
      var s1 := Linked(s0, p, h, x);
      if isDir {
        FlatLinked(s1, h, h, DOT);
        FlatLinked(Linked(s1, h, h, DOT), h, p, DOTDOT);
      }
    }
  }

  /** `link`: one more entry for a file and one more link, if the name is free; otherwise nothing. */
  lemma LinkToExactly(s: Ns, d: nat, f: nat, x: Str)
    requires NsOK(s)
    ensures var r := NsStep(s, LinkTo(d, f, x));
            if d in s.names && f in s.nodes && !s.nodes[f].isDir && x !in s.names[d] then
              && Flat(r.names) == Flat(s.names)[(d, x) := f] && r.names.Keys == s.names.Keys && r.next == s.next
              && r.nodes == s.nodes[f := s.nodes[f].(nLink := s.nodes[f].nLink + 1)]
            else r == s
  {
    hide Flat, Linked, Sound;
    if d in s.names && f in s.nodes && !s.nodes[f].isDir && x !in s.names[d] {
      FlatLinked(s, d, f, x);
    }
  }

  /** Looked-up `remove`: the entry is gone and the inode it named has one link fewer, if the name was
      there; otherwise nothing. */
  lemma UnmakeExactly(s: Ns, p: nat, x: Str)
    requires NsOK(s)
    ensures var r := NsStep(s, Unmake(p, x));
            if p in s.names && x in s.names[p] then
              var i := s.names[p][x];
              && i in s.nodes && Flat(r.names) == Flat(s.names) - {(p, x)}
              && r.names.Keys == s.names.Keys && r.next == s.next
              && r.nodes == s.nodes[i := s.nodes[i].(nLink := s.nodes[i].nLink - 1)]
            else r == s
  {
    hide Flat, Sound;
    if p in s.names && x in s.names[p] {
      FoundExactly(s, p, x);
      FlatRemove(s.names, p, x);
    }
  }

  // ---- the operations ---------------------------------------------------------------------

  /** What the store holds beside the partitions: the inodes of `names`, and no data of others. */
  ghost predicate Allocated(d: Contents, names: set<nat>)
  {
    NoStrays(d, names) && InodesIn(d, names)
  }

  lemma AllocatedKept(d: Contents, d': Contents, names: set<nat>, h: nat)
    requires Allocated(d, names) && h in names && SameElsewhere(d, d', h) && InodeKept(d, d', h)
    ensures Allocated(d', names)
  {
    hide Print, SameElsewhere;
    ElsewhereIsOthers(d, d', h);
    NoStraysKept(d, d', names, {h});
    InodesKept(d, d', names, h);
    assert names + {h} == names;
  }

  lemma AllocatedMore(d: Contents, d': Contents, names: set<nat>, h: nat)
    requires h in names && Allocated(d, names - {h})
    requires SameElsewhere(d, d', h) && Print(InodeKey(h)) in d'
    ensures Allocated(d', names)
  {
    hide Print, SameElsewhere;
    ElsewhereIsOthers(d, d', h);
    NoStraysKept(d, d', names - {h}, {h});
    InodesKept(d, d', names - {h}, h);
    assert names - {h} + {h} == names;
  }

  class Namespace {
    const kv: KVStore
    const fsId: Inum
    const hash: Hash
    const chunkSize: nat
    var dirs: DirTable
    var nodes: Nodes
    var next: nat

    ghost predicate Valid()
      reads this, kv, PartsOf(dirs)
    {
      DirsIn(kv.data, kv, dirs) && OfVolume(dirs, fsId, hash) && Allocated(kv.data, nodes.Keys) && NsOK(State())
    }

    ghost function State(): Ns
      reads this, PartsOf(dirs)
    {
      Ns(NamesOf(dirs), nodes, next)
    }

    /** An empty store, then `createRoot`. */
    constructor (fsId: Inum, hash: Hash, chunkSize: nat)
      ensures Valid() && fresh(kv) && dirs.Keys == {1} && fresh(dirs[1].p0) && fresh(dirs[1].p1)
      ensures State() == Ns(map[1 := Dots(1, 1)], map[1 := Node(true, 2)], 2)
    {
      this.fsId, this.hash, this.chunkSize := fsId, hash, chunkSize;
      kv := new KVStore();
      dirs, nodes, next := map[], map[], 1;
      new;
      hide NsOK, DirIn, Allocated, DirectoryFile.Names;
      CreateRoot();
    }

    /** `createRoot`: inode 1, with "." and ".." both naming it. */
    method CreateRoot()
      requires kv.data == map[] && dirs == map[]
      modifies this, kv
      ensures Valid() && dirs.Keys == {1} && fresh(dirs[1].p0) && fresh(dirs[1].p1)
      ensures State() == Ns(map[1 := Dots(1, 1)], map[1 := Node(true, 2)], 2)
      ensures StoredInode(kv.data, 1, chunkSize)
    {
      hide Print, DirIn, DirectoryFile.Names, SameElsewhere, InodeKept, NsOK, Entered, Allocated;
      ghost var d0 := kv.data;
      nodes, next := map[1 := Node(true, 0)], 2;
      dirs := EmptyDir(kv, dirs, fsId, hash, 1);
      assert State() == Ns(map[1 := map[]], map[1 := Node(true, 0)], 2);
      RootOK();
      var _ := ConnectDots(1, 1);
      ghost var s, d1 := State(), kv.data;
      WriteInode(kv, dirs, 1, Meta(1, 0, chunkSize, Resident));
      assert State() == s;
      SameTwice(d0, d1, kv.data, 1);
      AllocatedRoot(d0, kv.data);
      assert nodes.Keys == {1};
    }

    method NLinkAdjust(i: nat, n: int)
      requires i in nodes
      modifies this`nodes
      ensures nodes == Adjust(old(nodes), i, n)
    {
      nodes := nodes[i := nodes[i].(nLink := nodes[i].nLink + n)];
    }

    /** `insertEntry` on directory `dir`, and a link counted for the child if it succeeds. */
    method Attach(dir: nat, child: Inum, name: Str) returns (status: Status)
      requires DirsIn(kv.data, kv, dirs) && dir in dirs && child in nodes
      modifies kv, this`nodes, dirs[dir].p0, dirs[dir].p1
      ensures DirsIn(kv.data, kv, dirs)
      ensures status == if name in old(NamesOf(dirs))[dir] then InternalError else StatusOk
      ensures State() == if status == StatusOk then Linked(old(State()), dir, child, name) else old(State())
      ensures SameElsewhere(old(kv.data), kv.data, dir) && InodeKept(old(kv.data), kv.data, dir)
    {
      hide DirIn, DirectoryFile.Names, SameElsewhere, InodeKept, Bind;
      status := InsertIn(kv, dirs, dir, child, name);
      if status == StatusOk {
        NLinkAdjust(child, 1);
      }
    }

    /** `connectDots` in a directory that has none yet: enter "." and "..", counting a link for each. */
    method ConnectDots(dot: Inum, dotdot: Inum) returns (status: Status)
      requires DirsIn(kv.data, kv, dirs) && dot in dirs && dot in nodes && dotdot in nodes
      requires NamesOf(dirs)[dot] == map[]
      modifies kv, this`nodes, dirs[dot].p0, dirs[dot].p1
      ensures DirsIn(kv.data, kv, dirs) && status == StatusOk
      ensures State() == Linked(Linked(old(State()), dot, dot, DOT), dot, dotdot, DOTDOT)
      ensures SameElsewhere(old(kv.data), kv.data, dot) && InodeKept(old(kv.data), kv.data, dot)
    {
      hide DirsIn, NamesOf, SameElsewhere, InodeKept;
      ghost var d0 := kv.data;
      status := Attach(dot, dot, DOT);
      ghost var d1 := kv.data;
      status := Attach(dot, dotdot, DOTDOT);
      SameTwice(d0, d1, kv.data, dot);
      InodeKeptTwice(d0, d1, kv.data, dot);
    }

    /** The new inode object: no links yet, and for a directory no entries. */
    method InitMeta(isDir: bool)
      requires DirsIn(kv.data, kv, dirs) && next < TWO_64 && next !in dirs && next !in nodes
      requires forall k: nat :: Print(SubKey(next, k)) !in kv.data
      modifies this
      ensures DirsIn(kv.data, kv, dirs) && State() == WithNode(old(State()), isDir)
      ensures old(OfVolume(dirs, fsId, hash)) ==> OfVolume(dirs, fsId, hash)
      ensures forall g | g in old(dirs) :: g in dirs && dirs[g] == old(dirs)[g]
      ensures isDir ==> old(next) in dirs && fresh(dirs[old(next)].p0) && fresh(dirs[old(next)].p1)
      ensures forall p | p in PartsOf(dirs) :: p in PartsOf(old(dirs)) || fresh(p)
    {
      hide Print, DirIn, NamesOf, PartsOf;
      var dirs' := dirs;
      if isDir {
        dirs' := EmptyDir(kv, dirs, fsId, hash, next);
      }
      Install(dirs', nodes[next := Node(isDir, 0)], next + 1);
    }

    /** Take over new tables. */
    method Install(dirs': DirTable, nodes': Nodes, next': nat)
      requires DirsIn(kv.data, kv, dirs')
      modifies this
      ensures DirsIn(kv.data, kv, dirs) && dirs == dirs' && State() == Ns(old(NamesOf(dirs')), nodes', next')
    {
      hide DirIn, DirectoryFile.Names;
      dirs, nodes, next := dirs', nodes', next';
    }

    /** The last part of `create`: the dots of a directory, and the inode stored. */
    method Populate(h: Inum, parent: Inum, isDir: bool)
      requires DirsIn(kv.data, kv, dirs) && h in nodes && parent in nodes
      requires isDir ==> h in dirs && NamesOf(dirs)[h] == map[]
      modifies kv, this`nodes, if isDir then {dirs[h].p0, dirs[h].p1} else {}
      ensures DirsIn(kv.data, kv, dirs)
      ensures State() == if isDir then Linked(Linked(old(State()), h, h, DOT), h, parent, DOTDOT)
                         else old(State())
      ensures SameElsewhere(old(kv.data), kv.data, h) && StoredInode(kv.data, h, chunkSize)
    {
      hide Print, DirIn, DirectoryFile.Names, SameElsewhere, InodeKept, Linked;
      ghost var d0 := kv.data;
      SameAsItself(d0, h);
      if isDir {
        var _ := ConnectDots(h, parent);
      }
      ghost var d1 := kv.data;
      WriteInode(kv, dirs, h, Meta(h, 0, chunkSize, Resident));
      SameTwice(d0, d1, kv.data, h);
    }

    /** `create` after `initMeta`: an entry in the parent and, for a directory, its dots; then the
        inode is stored. */
    method Enroll(h: Inum, parent: Inum, name: Str, isDir: bool)
      requires DirsIn(kv.data, kv, dirs) && Allocated(kv.data, nodes.Keys - {h})
      requires h in nodes && parent in nodes && parent != h && parent in dirs && name !in NamesOf(dirs)[parent]
      requires isDir ==> h in dirs && NamesOf(dirs)[h] == map[]
      modifies kv, this`nodes, dirs[parent].p0, dirs[parent].p1, if isDir then {dirs[h].p0, dirs[h].p1} else {}
      ensures DirsIn(kv.data, kv, dirs) && Allocated(kv.data, nodes.Keys)
      ensures State() == Enrolled(old(State()), h, parent, name, isDir)
      ensures StoredInode(kv.data, h, chunkSize)
    {
      hide Print, DirsIn, NamesOf, SameElsewhere, InodeKept, Allocated, Linked;
      ghost var names, d0 := nodes.Keys, kv.data;
      LinkedParts(State(), parent, h, name);
      var _ := Attach(parent, h, name);
      ghost var s1, d1 := State(), kv.data;
      AllocatedKept(d0, d1, names - {h}, parent);
      Populate(h, parent, isDir);
      AllocatedMore(d1, kv.data, names, h);
      if isDir {
        LinkedParts(s1, h, h, DOT);
        LinkedParts(Linked(s1, h, h, DOT), h, parent, DOTDOT);
      }
    }

    /** `create` of a file or directory whose name is known to be free. */
    method CreateAt(parent: Inum, name: Str, isDir: bool)
      requires Valid() && MakeOK(State(), parent, name)
      modifies this, kv, dirs[parent].p0, dirs[parent].p1
      ensures Valid() && State() == Made(old(State()), parent, name, isDir)
      ensures StoredInode(kv.data, old(next), chunkSize)
      ensures forall p | p in PartsOf(dirs) :: p in PartsOf(old(dirs)) || fresh(p)
    {
      hide Print, DirsIn, NamesOf, NsOK, Allocated, Enrolled, PartsOf;
      ghost var s := State();
      MadeOK(s, parent, name, isDir);
      NothingUnder(kv.data, s.nodes.Keys, next);
      InitMeta(isDir);
      assert nodes.Keys - {s.next} == s.nodes.Keys;
      Enroll(next - 1, parent, name, isDir);
    }

    /** The lookup that comes before every create, link and removal. */
    method Lookup(dir: nat, name: Str) returns (child: Inum)
      requires Valid() && dir in dirs
      modifies dirs[dir].p0, dirs[dir].p1
      ensures Valid() && State() == old(State())
      ensures child != 0 <==> name in NamesOf(dirs)[dir]
      ensures child != 0 ==> child == NamesOf(dirs)[dir][name] && child in nodes
    {
      hide DirsIn, NamesOf, NsOK, Allocated;
      if name in NamesOf(dirs)[dir] { FoundExactly(State(), dir, name); }
      child := FindIn(kv, dirs, dir, name);
    }

    /** `Create` and `Mkdir`: a free name gets a new inode. */
    method Create(parent: nat, name: Str, isDir: bool) returns (status: Status)
      requires Valid()
      modifies this, kv, PartsOf(dirs)
      ensures Valid() && State() == NsStep(old(State()), Make(parent, name, isDir))
      ensures status == if MakeOK(old(State()), parent, name) then StatusOk else InternalError
      ensures forall p | p in PartsOf(dirs) :: p in PartsOf(old(dirs)) || fresh(p)
    {
      hide DirsIn, NsOK, Allocated, Made, PartsOf;
      NamesAreNodes(State());
      if parent in dirs { PartsIn(dirs, parent); }
      if parent !in dirs || next >= TWO_64 {
        return InternalError;
      }
      var child := Lookup(parent, name);
      if child != 0 {
        return InternalError;
      }
      CreateAt(parent, name, isDir);
      status := StatusOk;
    }

    /** `link`: a second name for a file. */
    method Link(dir: nat, file: nat, name: Str) returns (status: Status)
      requires Valid()
      modifies this`nodes, kv, PartsOf(dirs)
      ensures Valid() && State() == NsStep(old(State()), LinkTo(dir, file, name))
      ensures status == if LinkOK(old(State()), dir, file, name) then StatusOk else InternalError
    {
      hide DirsIn, NsOK, Allocated, Linked;
      NamesAreNodes(State());
      if dir !in dirs || file !in nodes || nodes[file].isDir || file >= TWO_64 {
        return InternalError;
      }
      ghost var s, d := State(), kv.data;
      LinkedParts(s, dir, file, name);
      status := Attach(dir, file, name);
      AllocatedKept(d, kv.data, s.nodes.Keys, dir);
      if status == StatusOk {
        LinkedOK(s, dir, file, name);
      }
    }

    /** `remove`: the entry goes by name alone, the link is taken from `handle`; the counts stay
        right exactly when the entry did name `handle`. */
    method Remove(handle: nat, parent: nat, name: Str) returns (status: Status)
      requires Valid() && parent in dirs && handle in nodes && handle < TWO_64
      modifies this`nodes, kv, dirs[parent].p0, dirs[parent].p1
      ensures DirsIn(kv.data, kv, dirs) && OfVolume(dirs, fsId, hash) && Allocated(kv.data, nodes.Keys)
      ensures status == if name in old(NamesOf(dirs))[parent] then StatusOk else InternalError
      ensures State() == if status == StatusOk then Unlinked(old(State()), parent, name, handle)
                         else old(State())
      ensures Valid() <==> (status == StatusOk ==> old(NamesOf(dirs))[parent][name] == handle)
    {
      hide DirIn, DirectoryFile.Names, NsOK, Allocated, Removed, SameElsewhere, InodeKept;
      ghost var s, d := State(), kv.data;
      NamesAreNodes(s);
      if name in s.names[parent] {
        UnlinkedOKExactly(s, parent, name, handle);
      } else {
        AlreadyRemoved(s.names, parent, name);
      }
      status := RemoveIn(kv, dirs, parent, handle, name);
      AllocatedKept(d, kv.data, s.nodes.Keys, parent);
      assert Adjust(s.nodes, handle, -1).Keys == s.nodes.Keys;
      if status == StatusOk {
        NLinkAdjust(handle, -1);
      }
    }

    /** `Unlink` and `Rmdir`: look the name up, remove what it names. */
    method Unlink(parent: nat, name: Str) returns (status: Status)
      requires Valid()
      modifies this`nodes, kv, PartsOf(dirs)
      ensures Valid() && State() == NsStep(old(State()), Unmake(parent, name))
      ensures status == if UnmakeOK(old(State()), parent, name) then StatusOk else ObjectDoesntExist
    {
      hide DirsIn, NsOK, Allocated;
      if parent !in dirs {
        return ObjectDoesntExist;
      }
      var child := Lookup(parent, name);
      if child == 0 {
        return ObjectDoesntExist;
      }
      status := Remove(child, parent, name);
    }

    method Do(call: NsCall) returns (status: Status)
      requires Valid()
      modifies this, kv, PartsOf(dirs)
      ensures Valid() && State() == NsStep(old(State()), call)
      ensures forall p | p in PartsOf(dirs) :: p in PartsOf(old(dirs)) || fresh(p)
    {
      hide DirsIn, NsOK, Allocated, NsStep, PartsOf;
      match call {
        case Make(p, x, isDir) => status := Create(p, x, isDir);
        case LinkTo(d, f, x) => status := Link(d, f, x);
        case Unmake(p, x) => status := Unlink(p, x);
      }
    }

    /** Any sequence of calls: the stored directories and the loaded inodes end as specified, each
        link count is the number of stored entries naming the inode, and the sum of the counts is
        the number of all stored entries. */
    method Run(calls: seq<NsCall>)
      requires Valid()
      modifies this, kv, PartsOf(dirs)
      ensures Valid() && State() == NsRun(old(State()), calls)
      ensures Balanced(nodes, Flat(NamesOf(dirs)))
      ensures LinkSum(nodes, nodes.Keys) == |Flat(NamesOf(dirs))|
    {
      hide DirsIn, NsOK, Allocated, NsStep, Balanced, LinkSum, Flat, PartsOf;
      ghost var s := State();
      CountsInEveryRun(s, calls);
      for n := 0 to |calls|
        invariant Valid() && State() == NsRun(s, calls[..n])
        invariant forall p | p in PartsOf(dirs) :: p in PartsOf(old(dirs)) || fresh(p)
      {
        var _ := Do(calls[n]);
        assert calls[..n + 1][..n] == calls[..n];
      }
      assert calls[..|calls|] == calls;
    }
  }

  lemma FoundExactly(s: Ns, dir: nat, x: Str)
    requires NsOK(s) && dir in s.names && x in s.names[dir]
    ensures s.names[dir][x] in s.nodes && s.names[dir][x] != 0
  {
    hide Balanced;
    assert (dir, x) in Flat(s.names);
  }

  function Unlinked(s: Ns, parent: nat, name: Str, handle: nat): Ns
    requires parent in s.names && handle in s.nodes
  {
    s.(names := Removed(s.names, parent, name), nodes := Adjust(s.nodes, handle, -1))
  }

  lemma UnlinkedOKExactly(s: Ns, parent: nat, name: Str, handle: nat)
    requires NsOK(s) && parent in s.names && name in s.names[parent] && handle in s.nodes
    ensures NsOK(Unlinked(s, parent, name, handle)) <==> s.names[parent][name] == handle
  {
    hide Sound, Flat;
    FlatRemove(s.names, parent, name);
    RemoveSoundExactly(s.nodes, Flat(s.names), (parent, name), handle);
  }

  lemma AlreadyRemoved(t: Tables, h: nat, x: Str)
    requires h in t && x !in t[h]
    ensures Removed(t, h, x) == t
  {
    assert t[h] - {x} == t[h];
  }

  /** From an empty store, over every sequence of calls. */
  method RunFromRoot(fsId: Inum, hash: Hash, chunkSize: nat, calls: seq<NsCall>) returns (ns: Namespace)
    ensures ns.Valid()
    ensures ns.State() == NsRun(Ns(map[1 := Dots(1, 1)], map[1 := Node(true, 2)], 2), calls)
    ensures Balanced(ns.nodes, Flat(NamesOf(ns.dirs)))
    ensures LinkSum(ns.nodes, ns.nodes.Keys) == |Flat(NamesOf(ns.dirs))|
  {
    hide DirsIn, NsOK, Allocated, NsStep, Balanced, LinkSum, Flat;
    ns := new Namespace(fsId, hash, chunkSize);
    assert PartsOf(ns.dirs) == {ns.dirs[1].p0, ns.dirs[1].p1};
    ns.Run(calls);
  }

  lemma NothingUnder(d: Contents, names: set<nat>, h: nat)
    requires Allocated(d, names) && h !in names
    ensures forall k: nat :: Print(SubKey(h, k)) !in d
  {
    hide Print;
  }

  lemma LinkedParts(s: Ns, dir: nat, child: Inum, name: Str)
    requires dir in s.names && child in s.nodes
    ensures var r := Linked(s, dir, child, name);
            && r.nodes.Keys == s.nodes.Keys && r.names.Keys == s.names.Keys && r.next == s.next
            && forall g | g in s.names && g != dir :: r.names[g] == s.names[g]
  {
  }

  lemma AllocatedRoot(d: Contents, d': Contents)
    requires d == map[] && SameElsewhere(d, d', 1) && Print(InodeKey(1)) in d'
    ensures Allocated(d', {1})
  {
    hide Print, SameElsewhere;
    ElsewhereIsOthers(d, d', 1);
    NoStraysKept(d, d', {}, {1});
    assert {} + {1} == {1};
  }

  lemma EmptyRootOK(s: Ns)
    requires s == Ns(map[1 := map[]], map[1 := Node(true, 0)], 2)
    ensures NsOK(s)
  {
    hide Sound;
    EmptySound(1);
    assert SlotsOf(s.names) == {};
    assert Flat(s.names) == map[];
  }

  lemma RootOK()
    ensures var s0 := Ns(map[1 := map[]], map[1 := Node(true, 0)], 2);
            var s := Linked(Linked(s0, 1, 1, DOT), 1, 1, DOTDOT);
            NsOK(s) && s == Ns(map[1 := Dots(1, 1)], map[1 := Node(true, 2)], 2)
  {
    var t: Tables := map[];
    var s0 := Ns(map[1 := map[]], map[1 := Node(true, 0)], 2);
    assert t[1 := map[]] == s0.names;
    EmptyRootOK(s0);
    hide NsOK, Dots;
    LinkedOK(s0, 1, 1, DOT);
    LinkedOK(Linked(s0, 1, 1, DOT), 1, 1, DOTDOT);
    DotsEntered(t, 1, 1);
    assert t[1 := Dots(1, 1)] == map[1 := Dots(1, 1)];
  }
}
