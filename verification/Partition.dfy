/** `LogFSDirectoryPartition`: an append-only entry vector, a name map, and their stored form. */
module Partition {
  import opened Bytes
  import opened Keys
  import opened Store
  import opened DirCodec
  import opened DirView

  const EEXIST := 17
  const ENOENT := 2
  const EIO := 5

  const HEADER_SIZE := 18

  const DOT: Str := [46]
  const DOTDOT: Str := [46, 46]

  function Header(fsId: Inum, dirIno: Inum, number: nat): (s: Str)
    ensures |s| == HEADER_SIZE
  {
    LittleEndian(fsId, 8) + LittleEndian(dirIno, 8) + LittleEndian(number, 2)
  }

  ghost function Serialized(fsId: Inum, dirIno: Inum, number: nat, m: NameMap): Str
  {
    Header(fsId, dirIno, number) + EncodeEntries(Listing(m))
  }

  /** What the store holds for a partition whose name map is `m`; an absent key is an empty map. */
  ghost predicate StoredAs(d: Contents, fsId: Inum, dirIno: Inum, number: nat, m: NameMap)
  {
    var key := Print(SubKey(dirIno, number));
    if key in d then d[key] == Data(Serialized(fsId, dirIno, number, m)) else m == map[]
  }

  /** A map that a fresh object can read back: clean names, and a buffer under 2^32 bytes. */
  ghost predicate Loadable(m: NameMap)
  {
    && (forall x :: x in m ==> Clean(x))
    && |EncodeEntries(Listing(m))| + HEADER_SIZE < TWO_32
  }

  ghost predicate OnlyKey(d: Contents, d': Contents, key: string)
  {
    forall k | k != key :: (k in d <==> k in d') && (k in d ==> d[k] == d'[k])
  }

  lemma HeaderRoundTrip(fsId: Inum, dirIno: Inum, number: nat, tail: Str)
    requires number < 0x1_0000
    ensures var s := Header(fsId, dirIno, number) + tail;
            && DecodeInum(s[..8]) == fsId && DecodeInum(s[8..16]) == dirIno
            && FromLittleEndian(s[16..18]) == number && s[HEADER_SIZE..] == tail
  {
    hide LittleEndian, FromLittleEndian, DecodeInum;
    var s := Header(fsId, dirIno, number) + tail;
    assert s[..8] == LittleEndian(fsId, 8);
    assert s[8..16] == LittleEndian(dirIno, 8);
    assert s[16..18] == LittleEndian(number, 2);
    InumRoundTrip(fsId);
    InumRoundTrip(dirIno);
    Widths();
    FitsBelowPower(number, 2);
    LittleEndianRoundTrip(number, 2);
  }

  datatype PState = Invalid | CleanState | Dirty

  /** The reply buffer of one readdir call. */
  class DirEntryAdder {
    const need: Need
    var room: nat
    var out: seq<Listed>
    var outOfSpace: bool

    constructor (need: Need, room: nat)
      ensures this.need == need && this.room == room && out == [] && !outOfSpace
    {
      this.need, this.room, this.out, this.outOfSpace := need, room, [], false;
    }

    method Add(e: Entry, next: nat) returns (ok: bool)
      modifies this
      ensures ok <==> need(e.name) <= old(room)
      ensures if ok
              then room == old(room) - need(e.name) && out == old(out) + [Listed(e, next)]
                   && outOfSpace == old(outOfSpace)
              else room == old(room) && out == old(out) && outOfSpace
    {
      ok := need(e.name) <= room;
      if !ok {
        outOfSpace := true;
      } else {
        room := room - need(e.name);
        out := out + [Listed(e, next)];
      }
    }
  }

  class LogFSDirectoryPartition {
    const kv: KVStore
    var number: nat
    var fsId: Inum
    var dirIno: Inum
    var entries: seq<Entry>
    var byName: NameMap
    var state: PState
    ghost var names: NameMap          // the map this partition stands for, loaded or not

    ghost function Key(): string
      reads this
    {
      Print(SubKey(dirIno, number))
    }

    ghost predicate Valid()
      reads this, kv
    {
      ValidIn(kv.data)
    }

    /** The object agrees with store contents `d`, and what it has not read yet can be read. */
    ghost predicate ValidIn(d: Contents)
      reads this
    {
      AttachedTo(d) && (state == Invalid ==> Loadable(names))
    }

    /** The store holds `names`, whether or not they can be read back. */
    ghost predicate AttachedTo(d: Contents)
      reads this
    {
      && number < 0x1_0000
      && StoredAs(d, fsId, dirIno, number, names)
      && state != Dirty
      && (state == Invalid ==> entries == [] && byName == map[])
      && (state == CleanState ==> byName == names && Covered(View()))
    }

    ghost function View(): PartView
      reads this
    {
      PartView(entries, byName)
    }

    /** The view that the next operation works on: a partition not yet loaded will come back as
        the listing of its stored map. */
    ghost function Effective(): (v: PartView)
      reads this
    {
      if state == Invalid then PartView(Listing(names), names) else View()
    }

    /** A fresh object, not yet read from the store. */
    constructor (number: nat, fsId: Inum, dirIno: Inum, kv: KVStore, ghost names: NameMap)
      requires number < 0x1_0000
      requires StoredAs(kv.data, fsId, dirIno, number, names) && Loadable(names)
      ensures Valid() && state == Invalid && this.names == names
      ensures this.kv == kv && this.number == number && this.fsId == fsId && this.dirIno == dirIno
    {
      this.kv, this.number, this.fsId, this.dirIno := kv, number, fsId, dirIno;
      this.entries, this.byName, this.state, this.names := [], map[], Invalid, names;
    }

    /** `Deserialize`: header, then entries up to the end of the buffer.  `ok` is false when the
        buffer is too short for a header or the entry loop runs off its end. */
    method Deserialize(buf: Str) returns (ok: bool)
      requires |buf| >= HEADER_SIZE ==> DecodeInum(buf[8..16]) == dirIno
      modifies this
      ensures dirIno == old(dirIno) && names == old(names)
      ensures |buf| >= HEADER_SIZE ==>
                fsId == DecodeInum(buf[..8]) && number == FromLittleEndian(buf[16..18])
      ensures ok <==> |buf| >= HEADER_SIZE
                      && DecodeEntries(buf[HEADER_SIZE..], (|buf| - HEADER_SIZE) % TWO_32).Some?
      ensures ok ==>
                var es := DecodeEntries(buf[HEADER_SIZE..], (|buf| - HEADER_SIZE) % TWO_32).value;
                && entries == old(entries) + es && byName == MapOf(es) && state == CleanState
    {
      hide DecodeInum, FromLittleEndian, MapOf, DecodeEntries;
      if |buf| < HEADER_SIZE {
        return false;
      }
      fsId := DecodeInum(buf[..8]);
      dirIno := DecodeInum(buf[8..16]);
      number := FromLittleEndian(buf[16..18]);
      var es, m;
      ok, es, m := DecodeLoop(buf, HEADER_SIZE);
      if ok {
        entries := entries + es;
        byName := m;
        state := CleanState;
      }
    }

    /** The first use of a partition: load whatever the store holds.  Names with '|' or NUL come
        back as other entries, or the loop leaves the buffer. */
    method Load() returns (err: int)
      requires AttachedTo(kv.data) && state == Invalid
      modifies this
      ensures names == old(names) && fsId == old(fsId) && dirIno == old(dirIno) && number == old(number)
      ensures var r := Reread(kv.data, Key(), names);
              if r.None? then err == EIO
              else err == 0 && state == CleanState && entries == r.value && byName == MapOf(r.value)
    {
      hide Print, DecodeInum, FromLittleEndian, MapOf, Listing, DecodeEntries, EncodeEntries, Header;
      err := 0;
      var found, buf := kv.GetBytes(Print(SubKey(dirIno, number)));
      if found {
        ghost var tail := EncodeEntries(Listing(names));
        HeaderRoundTrip(fsId, dirIno, number, tail);
        assert buf == Header(fsId, dirIno, number) + tail && buf[HEADER_SIZE..] == tail;
        var ok := Deserialize(buf);
        err := if ok then 0 else EIO;
      } else {
        MapOfNothing();
        byName := map[];
        state := CleanState;
      }
    }

    /** `Refresh`: load from the store on first use. */
    method Refresh() returns (err: int)
      requires Valid()
      modifies this
      ensures Valid() && err == 0 && state == CleanState && names == old(names)
      ensures number == old(number) && fsId == old(fsId) && dirIno == old(dirIno)
      ensures View() == old(Effective())
    {
      hide Print, MapOf, Listing, EncodeEntries, Covered, StoredAs, Reread, Clean;
      err := 0;
      if state == Invalid {
        RereadExactly(kv.data, fsId, dirIno, number, names);
        err := Load();
      }
    }

    /** `Serialize`: the header, then the entries in map order. */
    method Serialize() returns (buf: Str)
      ensures buf == Serialized(fsId, dirIno, number, byName)
    {
      hide Header;
      var body := EncodeMap(byName);
      buf := Header(fsId, dirIno, number) + body;
    }

    /** `writeToLog`, called with the partition dirty. */
    method WriteToLog()
      requires number < 0x1_0000 && state == Dirty
      modifies this, kv
      ensures state == CleanState && names == byName
      ensures number == old(number) && fsId == old(fsId) && dirIno == old(dirIno)
      ensures entries == old(entries) && byName == old(byName)
      ensures StoredAs(kv.data, fsId, dirIno, number, byName)
      ensures OnlyKey(old(kv.data), kv.data, Key())
    {
      hide Print;
      var buf := Serialize();
      kv.Put(Print(SubKey(dirIno, number)), Data(buf));
      state := CleanState;
      names := byName;
    }

    /** `insertEntry`: EEXIST, or a new slot at the end and the name bound. */
    method InsertEntry(ino: Inum, name: Str) returns (err: int)
      requires Valid()
      modifies this, kv
      ensures Valid() && state == CleanState
      ensures number == old(number) && fsId == old(fsId) && dirIno == old(dirIno)
      ensures err == if name in old(names) then EEXIST else 0
      ensures names == if name in old(names) then old(names) else old(names)[name := ino]
      ensures View() == ApplyOp(old(Effective()), Insert(name, ino))
      ensures OnlyKey(old(kv.data), kv.data, Key())
    {
      hide Print, Serialized, Listing, EncodeEntries, EncodeEntry;
      err := Refresh();
      if name in byName {
        return EEXIST;
      }
      entries := entries + [Entry(name, ino)];
      byName := byName[name := ino];
      state := Dirty;
      WriteToLog();
    }

    /** `removeEntry`: ENOENT, or the name unbound; its slot stays behind as a tombstone. */
    method RemoveEntry(handle: Inum, name: Str) returns (err: int)
      requires Valid()
      modifies this, kv
      ensures Valid() && state == CleanState
      ensures number == old(number) && fsId == old(fsId) && dirIno == old(dirIno)
      ensures err == if name in old(names) then 0 else ENOENT
      ensures names == old(names) - {name}
      ensures View() == ApplyOp(old(Effective()), Remove(name))
      ensures OnlyKey(old(kv.data), kv.data, Key())
    {
      hide Print, Serialized, Listing, EncodeEntries, EncodeEntry;
      err := Refresh();
      if name !in byName {
        assert byName - {name} == byName;
        return ENOENT;
      }
      byName := byName - {name};
      state := Dirty;
      WriteToLog();
    }

    /** `findEntry`: the inode, or 0. */
    method FindEntry(name: Str) returns (ino: Inum)
      requires Valid()
      modifies this
      ensures Valid() && state == CleanState && names == old(names)
      ensures View() == old(Effective())
      ensures number == old(number) && fsId == old(fsId) && dirIno == old(dirIno)
      ensures ino == if name in names then names[name] else 0
    {
      hide Print, Serialized, Listing, EncodeEntries;
      var _ := Refresh();
      ino := if name in byName then byName[name] else 0;
    }

    /** `isPartitionEmpty`: at most "." and ".." are left. */
    method IsEmpty() returns (empty: bool)
      requires Valid()
      modifies this
      ensures Valid() && state == CleanState && names == old(names)
      ensures View() == old(Effective())
      ensures number == old(number) && fsId == old(fsId) && dirIno == old(dirIno)
      ensures empty <==> names.Keys <= {DOT, DOTDOT}
    {
      hide Print, Serialized, Listing, EncodeEntries;
      var _ := Refresh();
      empty := OnlyDots(byName);
    }

    /** `listEntries`: add live entries from `cur` on until the buffer is full.  `rest` stands for
        whatever later partitions would add. */
    method ListEntries(adder: DirEntryAdder, cur: nat, base: nat, ghost rest: seq<Listed>) returns (err: int)
      requires Valid() && cur >= base && !adder.outOfSpace
      modifies this, adder
      ensures Valid() && state == CleanState && names == old(names) && err == 0
      ensures number == old(number) && fsId == old(fsId) && dirIno == old(dirIno)
      ensures View() == old(Effective())
      ensures adder.out + (if adder.outOfSpace then [] else Fit(rest, adder.room, adder.need))
              == old(adder.out)
                 + Fit(LiveFrom(View(), cur - base, base) + rest, old(adder.room), adder.need)
    {
      hide Print, Serialized, Listing, EncodeEntries, StoredAs, Covered, Loadable, Fit, LiveFrom;
      err := Refresh();
      ListLoop(adder, entries, byName, cur - base, base, rest);
    }
  }

  /** The checks of `isPartitionEmpty`. */
  method OnlyDots(byName: NameMap) returns (only: bool)
    ensures only <==> byName.Keys <= {DOT, DOTDOT}
  {
    OnlyDotsAreFew(byName.Keys);
    if |byName.Keys| > 2 {
      return false;
    }
    var left := byName.Keys;
    while left != {}
      invariant left <= byName.Keys
      invariant byName.Keys - left <= {DOT, DOTDOT}
      decreases left
    {
      var x :| x in left;
      if x != DOT && x != DOTDOT {
        return false;
      }
      left := left - {x};
    }
    return true;
  }

  /** The loop of `listEntries`. */
  method ListLoop(adder: DirEntryAdder, entries: seq<Entry>, byName: NameMap, start: nat, base: nat,
                  ghost rest: seq<Listed>)
    requires !adder.outOfSpace
    modifies adder
    ensures adder.out + (if adder.outOfSpace then [] else Fit(rest, adder.room, adder.need))
            == old(adder.out) + Fit(LiveFrom(PartView(entries, byName), start, base) + rest,
                                    old(adder.room), adder.need)
  {
    hide Fit, LiveFrom;
    ghost var view := PartView(entries, byName);
    var i := start;
    ghost var goal := adder.out + Fit(LiveFrom(view, start, base) + rest, adder.room, adder.need);
    while i < |entries|
      invariant !adder.outOfSpace
      invariant goal == adder.out + Fit(LiveFrom(view, i, base) + rest, adder.room, adder.need)
      decreases |entries| - i
    {
      var e := entries[i];
      FitStep(view, i, base, rest, adder.room, adder.need);
      if e.name in byName && byName[e.name] == e.ino {    // otherwise an unlinked entry: skip it
        ghost var out0 := adder.out;
        var ok := adder.Add(e, base + i + 1);
        if !ok {
          return;
        }
        Reassociate(out0, Listed(e, base + i + 1),
                    Fit(LiveFrom(view, i + 1, base) + rest, adder.room, adder.need));
      }
      i := i + 1;
    }
    LiveFromEnd(view, i, base);
    assert [] + rest == rest;
  }

  lemma Reassociate(a: seq<Listed>, l: Listed, b: seq<Listed>)
    ensures a + ([l] + b) == a + [l] + b
  {
  }

  lemma FitStep(v: PartView, i: nat, base: nat, rest: seq<Listed>, room: nat, need: Need)
    requires i < |v.entries|
    ensures var e := v.entries[i];
            var tail := LiveFrom(v, i + 1, base) + rest;
            Fit(LiveFrom(v, i, base) + rest, room, need) ==
              if !Live(v, e) then Fit(tail, room, need)
              else if need(e.name) > room then []
              else [Listed(e, base + i + 1)] + Fit(tail, room - need(e.name), need)
  {
    var e := v.entries[i];
    var tail := LiveFrom(v, i + 1, base) + rest;
    if Live(v, e) {
      var l := LiveFrom(v, i, base) + rest;
      assert l == [Listed(e, base + i + 1)] + tail;
      assert l[1..] == tail;
    } else {
      assert LiveFrom(v, i, base) == LiveFrom(v, i + 1, base);
    }
  }

  lemma LiveFromEnd(v: PartView, i: nat, base: nat)
    requires i >= |v.entries|
    ensures LiveFrom(v, i, base) == []
  {
  }

  lemma OnlyDotsAreFew(s: set<Str>)
    ensures s <= {DOT, DOTDOT} ==> |s| <= 2
  {
    var t := {DOT, DOTDOT};
    if s <= t {
      assert t == s + (t - s);
      assert |t| == |s| + |t - s|;
    }
  }

  /** What the entry loop finds in the buffer stored for the map `m`; an absent key is no entries. */
  ghost function Reread(d: Contents, key: string, m: NameMap): Option<seq<Entry>>
  {
    if key !in d then Some([])
    else
      var buf := EncodeEntries(Listing(m));
      DecodeEntries(buf, |buf| % TWO_32)
  }

  /** What a fresh object finds: for a buffer under 2^32 bytes it gets the stored map back, with its
      listing as the entry vector, if and only if every name is clean. */
  lemma RereadExactly(d: Contents, fsId: Inum, dirIno: Inum, number: nat, m: NameMap)
    requires StoredAs(d, fsId, dirIno, number, m) && |EncodeEntries(Listing(m))| + HEADER_SIZE < TWO_32
    ensures var r := Reread(d, Print(SubKey(dirIno, number)), m);
            && (r.Some? && MapOf(r.value) == m <==> forall x :: x in m ==> Clean(x))
            && (Loadable(m) ==> r == Some(Listing(m)))
    ensures Covered(PartView(Listing(m), m)) && MapOf(Listing(m)) == m
  {
    hide Print, DecodeEntries, EncodeEntries, InOrder, MapOf;
    NameMapRoundTrip(m);
    ListingIsTheMap(m);
    ListingCovers(m);
    MapOfNothing();
  }

  lemma ListingCovers(m: NameMap)
    ensures Covered(PartView(Listing(m), m))
    ensures m == map[] ==> Listing(m) == []
  {
    var es := Listing(m);
    forall x | x in m ensures Entry(x, m[x]) in es {
      var i :| 0 <= i < |es| && InOrder(m.Keys)[i] == x;
      assert es[i] == Entry(x, m[x]);
    }
  }
}
