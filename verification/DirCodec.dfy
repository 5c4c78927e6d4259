/** The byte serialisation of a directory partition.

    Header: file-system id, directory inode, partition number; then, for each name in map order,
    the inode (8 bytes, little-endian), the name, and an unstuffed '|'. */
module DirCodec {
  import opened Bytes

  const PIPE: byte := 124
  const NUL: byte := 0

  type Inum = n: int | 0 <= n < TWO_64     // uint64_t

  datatype Entry = Entry(name: Str, ino: Inum)

  type NameMap = map<Str, Inum>

  // ---- little-endian integers -------------------------------------------------------------

  predicate Fits(n: nat, width: nat)
  {
    if width == 0 then n == 0 else Fits(n / 256, width - 1)
  }

  function LittleEndian(n: nat, width: nat): (s: Str)
    ensures |s| == width
  {
    if width == 0 then [] else [n % 256] + LittleEndian(n / 256, width - 1)
  }

  function FromLittleEndian(s: Str): nat
  {
    if s == [] then 0 else s[0] + 256 * FromLittleEndian(s[1..])
  }

  lemma LittleEndianRoundTrip(n: nat, width: nat)
    requires Fits(n, width)
    ensures FromLittleEndian(LittleEndian(n, width)) == n
  {
    if width > 0 {
      LittleEndianRoundTrip(n / 256, width - 1);
      assert LittleEndian(n, width)[1..] == LittleEndian(n / 256, width - 1);
    }
  }

  /** Lowest byte first. */
  lemma LowByteFirst(n: nat, low: byte, width: nat)
    ensures LittleEndian(256 * n + low, width + 1) == [low] + LittleEndian(n, width)
  {
    assert (256 * n + low) % 256 == low && (256 * n + low) / 256 == n;
  }

  lemma BytesBelow(s: Str, n: nat)
    requires |s| == n
    ensures FromLittleEndian(s) < Power256(n)
  {
    if n > 0 { BytesBelow(s[1..], n - 1); }
  }

  function Power256(n: nat): nat
  {
    if n == 0 then 1 else 256 * Power256(n - 1)
  }

  lemma FitsBelowPower(n: nat, width: nat)
    requires n < Power256(width)
    ensures Fits(n, width)
  {
    if width > 0 { FitsBelowPower(n / 256, width - 1); }
  }

  lemma Widths()
    ensures Power256(2) == 0x1_0000 && Power256(8) == TWO_64
  {
    assert Power256(4) == TWO_32;
    assert Power256(6) == 0x1_0000_0000_0000;
  }

  // ---- names in map order -----------------------------------------------------------------

  /** `std::string` comparison. */
  predicate NameLeq(a: Str, b: Str)
  {
    a == [] || (b != [] && (a[0] < b[0] || (a[0] == b[0] && NameLeq(a[1..], b[1..]))))
  }

  lemma NameLeqTotal(a: Str, b: Str)
    ensures NameLeq(a, b) || NameLeq(b, a)
  {
  }

  lemma NameLeqAntisymmetric(a: Str, b: Str)
    requires NameLeq(a, b) && NameLeq(b, a)
    ensures a == b
  {
    if a != [] {
      NameLeqAntisymmetric(a[1..], b[1..]);
      assert a == [a[0]] + a[1..] && b == [b[0]] + b[1..];
    }
  }

  lemma NameLeqTransitive(a: Str, b: Str, c: Str)
    requires NameLeq(a, b) && NameLeq(b, c)
    ensures NameLeq(a, c)
  {
  }

  lemma LeastName(s: set<Str>)
    requires s != {}
    ensures exists x :: IsLeast(x, s, NameLeq)
  {
    forall a, b ensures NameLeq(a, b) || NameLeq(b, a) { NameLeqTotal(a, b); }
    forall a, b, c | NameLeq(a, b) && NameLeq(b, c) ensures NameLeq(a, c) { NameLeqTransitive(a, b, c); }
    LeastExists(s, NameLeq);
  }

  ghost function Least(s: set<Str>): (x: Str)
    requires s != {}
    ensures IsLeast(x, s, NameLeq)
  {
    LeastName(s);
    var x :| IsLeast(x, s, NameLeq);
    x
  }

  /** The names of a map in the order `std::map` iterates over them. */
  ghost function InOrder(s: set<Str>): (names: seq<Str>)
    ensures forall x :: x in names <==> x in s
    ensures forall i, j :: 0 <= i < j < |names| ==> names[i] != names[j]
  {
    if s == {} then [] else [Least(s)] + InOrder(s - {Least(s)})
  }

  // ---- serialisation ----------------------------------------------------------------------

  function EncodeEntry(e: Entry): (s: Str)
    ensures |s| == 9 + |e.name|
  {
    LittleEndian(e.ino, 8) + e.name + [PIPE]
  }

  function EncodeEntries(es: seq<Entry>): Str
  {
    if es == [] then [] else EncodeEntry(es[0]) + EncodeEntries(es[1..])
  }

  ghost function EntriesFor(m: NameMap, names: seq<Str>): (es: seq<Entry>)
    requires forall x :: x in names ==> x in m
    ensures |es| == |names|
    ensures forall i :: 0 <= i < |es| ==> es[i] == Entry(names[i], m[names[i]])
  {
    seq(|names|, i requires 0 <= i < |names| => Entry(names[i], m[names[i]]))
  }

  /** `a` comes before `b` in a `std::map` of strings: it is a proper prefix of `b`, or has the smaller
      byte where they first differ. */
  ghost predicate Precedes(a: Str, b: Str)
  {
    exists k :: DiffersAt(a, b, k)
  }

  ghost predicate DiffersAt(a: Str, b: Str, k: int)
  {
    && 0 <= k <= |a| && k < |b| && a[..k] == b[..k]
    && (k < |a| ==> a[k] < b[k])
  }

  lemma {:induction false} LeqPrecedes(a: Str, b: Str)
    requires NameLeq(a, b) && a != b
    ensures Precedes(a, b)
  {
    if a == [] || a[0] < b[0] {
      assert DiffersAt(a, b, 0);
    } else {
      assert a == [a[0]] + a[1..] && b == [b[0]] + b[1..];
      LeqPrecedes(a[1..], b[1..]);
      var k :| DiffersAt(a[1..], b[1..], k);
      assert a[..k + 1] == [a[0]] + a[1..][..k] && b[..k + 1] == [b[0]] + b[1..][..k];
      assert DiffersAt(a, b, k + 1);
    }
  }

  lemma {:induction false} InOrderAscends(s: set<Str>, i: nat, j: nat)
    requires i < j < |InOrder(s)|
    ensures Precedes(InOrder(s)[i], InOrder(s)[j])
    decreases s
  {
    hide NameLeq, Precedes;
    var least, rest := Least(s), InOrder(s - {Least(s)});
    assert InOrder(s) == [least] + rest;
    if i == 0 {
      assert InOrder(s)[j] in InOrder(s);
      assert NameLeq(least, InOrder(s)[j]);
      LeqPrecedes(least, InOrder(s)[j]);
    } else {
      InOrderAscends(s - {least}, i - 1, j - 1);
    }
  }

  /** The entries of a name map, in map order. */
  ghost function Listing(m: NameMap): (es: seq<Entry>)
    ensures |es| == |InOrder(m.Keys)|
    ensures forall i :: 0 <= i < |es| ==> es[i].name == InOrder(m.Keys)[i]
    ensures forall i :: 0 <= i < |es| ==> es[i].name in m && es[i].ino == m[es[i].name]
  {
    EntriesFor(m, InOrder(m.Keys))
  }

  // ---- deserialisation --------------------------------------------------------------------

  /** `strchr(name, '|')`: stops at a NUL, and the buffer is NUL-terminated. */
  function FindPipe(s: Str): (r: Option<nat>)
    ensures r.Some? ==> r.value < |s| && s[r.value] == PIPE && Clean(s[..r.value])
  {
    if s == [] || s[0] == NUL then None
    else if s[0] == PIPE then Some(0)
    else
      var rest := FindPipe(s[1..]);
      if rest.None? then None
      else
        assert s[..1 + rest.value] == [s[0]] + s[1..][..rest.value];
        Some(1 + rest.value)
  }

  /** A name that survives the format: no '|' and no NUL. */
  predicate Clean(name: Str)
  {
    PIPE !in name && NUL !in name
  }

  /** The entry loop: `total` is the 32-bit count of bytes left, `rest` the buffer from the
      moving pointer on.  `None` when the loop runs off the buffer or finds no '|'. */
  function DecodeEntries(rest: Str, total: nat): (r: Option<seq<Entry>>)
    decreases |rest|
  {
    if total == 0 then Some([])
    else if |rest| < 8 then None
    else
      var k := FindPipe(rest[8..]);
      if k.None? then None
      else
        Prepend([Entry(rest[8..8 + k.value], DecodeInum(rest[..8]))],
                DecodeEntries(rest[8 + k.value + 1..], (total - (8 + k.value + 1)) % TWO_32))
  }

  function Prepend(es: seq<Entry>, r: Option<seq<Entry>>): Option<seq<Entry>>
  {
    if r.None? then None else Some(es + r.value)
  }

  function DecodeInum(s: Str): Inum
    requires |s| == 8
  {
    BytesBelow(s, 8);
    Widths();
    FromLittleEndian(s)
  }

  /** `entries_by_name[name] = ino`, one entry after the other. */
  function MapOf(es: seq<Entry>): (m: NameMap)
    ensures m.Keys == set e | e in es :: e.name
  {
    if es == [] then map[]
    else
      var n := |es| - 1;
      assert es == es[..n] + [es[n]];
      MapOf(es[..n])[es[n].name := es[n].ino]
  }

  // ---- the round trip ---------------------------------------------------------------------

  lemma FindPipeAfterClean(name: Str, rest: Str)
    requires Clean(name)
    ensures FindPipe(name + [PIPE] + rest) == Some(|name|)
  {
    var s := name + [PIPE] + rest;
    if name != [] {
      assert s[1..] == name[1..] + [PIPE] + rest;
      assert Clean(name[1..]);
      FindPipeAfterClean(name[1..], rest);
    }
  }

  lemma SplitEntry(e: Entry, tail: Str)
    ensures var s := EncodeEntry(e) + tail;
            && s[..8] == LittleEndian(e.ino, 8) && s[8..] == e.name + [PIPE] + tail
            && s[8..8 + |e.name|] == e.name && s[9 + |e.name|..] == tail
  {
    hide LittleEndian;
  }

  lemma DecodeFirst(e: Entry, tail: Str, total: nat)
    requires Clean(e.name) && total > 0
    ensures DecodeEntries(EncodeEntry(e) + tail, total) ==
              var r := DecodeEntries(tail, (total - (9 + |e.name|)) % TWO_32);
              if r.None? then None else Some([e] + r.value)
  {
    hide LittleEndian, EncodeEntry, FindPipe, DecodeInum;
    SplitEntry(e, tail);
    FindPipeAfterClean(e.name, tail);
    InumRoundTrip(e.ino);
  }

  lemma {:induction false} EntriesRoundTrip(es: seq<Entry>)
    requires forall e :: e in es ==> Clean(e.name)
    requires |EncodeEntries(es)| < TWO_32
    ensures DecodeEntries(EncodeEntries(es), |EncodeEntries(es)|) == Some(es)
  {
    hide EncodeEntry, DecodeEntries;
    if es == [] {
      DecodeNothing();
    } else {
      DecodeFirst(es[0], EncodeEntries(es[1..]), |EncodeEntries(es)|);
      EntriesRoundTrip(es[1..]);
      assert es == [es[0]] + es[1..];
    }
  }

  lemma DecodeNothing()
    ensures DecodeEntries([], 0) == Some([])
  {
  }

  lemma InumRoundTrip(ino: Inum)
    ensures DecodeInum(LittleEndian(ino, 8)) == ino
  {
    Widths();
    FitsBelowPower(ino, 8);
    LittleEndianRoundTrip(ino, 8);
  }

  /** Whatever buffer is decoded, the names that come out are clean. */
  lemma {:induction false} DecodedNamesAreClean(rest: Str, total: nat)
    requires DecodeEntries(rest, total).Some?
    ensures forall e :: e in DecodeEntries(rest, total).value ==> Clean(e.name)
    decreases |rest|
  {
    if total != 0 {
      var used := 8 + FindPipe(rest[8..]).value + 1;
      assert rest[8..][..used - 9] == rest[8..used - 1];
      DecodedNamesAreClean(rest[used..], (total - used) % TWO_32);
    }
  }

  lemma MapOfOneMore(es: seq<Entry>, e: Entry)
    ensures MapOf(es + [e]) == MapOf(es)[e.name := e.ino]
  {
    assert (es + [e])[..|es|] == es;
  }

  lemma EncodeOneMore(es: seq<Entry>, e: Entry)
    ensures EncodeEntries(es + [e]) == EncodeEntries(es) + EncodeEntry(e)
  {
    hide EncodeEntry;
    var all := es + [e];
    if es == [] {
      assert all == [e] && all[1..] == [];
    } else {
      assert all[1..] == es[1..] + [e];
      EncodeOneMore(es[1..], e);
    }
  }

  lemma MapOfNothing()
    ensures MapOf([]) == map[]
  {
  }

  lemma MapOfDistinct(es: seq<Entry>)
    requires forall i, j :: 0 <= i < j < |es| ==> es[i].name != es[j].name
    ensures forall i :: 0 <= i < |es| ==> es[i].name in MapOf(es) && MapOf(es)[es[i].name] == es[i].ino
  {
    hide MapOf;
    if es != [] {
      var n := |es| - 1;
      var init := es[..n];
      MapOfDistinct(init);
      MapOfOneMore(init, es[n]);
      assert es == init + [es[n]];
      forall i | 0 <= i < |es| ensures es[i].name in MapOf(es) && MapOf(es)[es[i].name] == es[i].ino {
        if i < n { assert init[i] == es[i]; }
      }
    }
  }

  lemma ListingIsTheMap(m: NameMap)
    ensures MapOf(Listing(m)) == m
    ensures forall i, j :: 0 <= i < j < |Listing(m)| ==> Listing(m)[i].name != Listing(m)[j].name
  {
    hide MapOf, InOrder;
    var es := Listing(m);
    MapOfDistinct(es);
    forall x | x in m ensures x in MapOf(es) && MapOf(es)[x] == m[x] {
      var names := InOrder(m.Keys);
      var i :| 0 <= i < |names| && names[i] == x;
      assert es[i].name == x;
    }
  }

  /** Decoding an encoded partition gives back the whole name map exactly when every name is
      clean; then the entry vector is the listing of the map, without duplicates. */
  lemma NameMapRoundTrip(m: NameMap)
    requires |EncodeEntries(Listing(m))| < TWO_32
    ensures var buf := EncodeEntries(Listing(m));
            var r := DecodeEntries(buf, |buf|);
            && ((forall x :: x in m ==> Clean(x)) ==> r == Some(Listing(m)))
            && (r.Some? && MapOf(r.value) == m <==> forall x :: x in m ==> Clean(x))
  {
    var es := Listing(m);
    var buf := EncodeEntries(es);
    var r := DecodeEntries(buf, |buf|);
    ListingIsTheMap(m);
    if forall x :: x in m ==> Clean(x) {
      EntriesRoundTrip(es);
    }
    if r.Some? && MapOf(r.value) == m {
      DecodedNamesAreClean(buf, |buf|);
      forall x | x in m ensures Clean(x) {
        var e :| e in r.value && e.name == x;
      }
    }
  }

  // ---- the loops --------------------------------------------------------------------------

  lemma EntriesForFirst(m: NameMap, x: Str, names: seq<Str>)
    requires x in m && forall y :: y in names ==> y in m
    ensures EntriesFor(m, [x] + names) == [Entry(x, m[x])] + EntriesFor(m, names)
  {
  }

  /** The listing of a map, and so the serialised partition, is in ascending order of the names. */
  lemma ListingAscends(m: NameMap, i: nat, j: nat)
    requires i < j < |Listing(m)|
    ensures Precedes(Listing(m)[i].name, Listing(m)[j].name)
  {
    hide InOrder, Precedes;
    InOrderAscends(m.Keys, i, j);
  }

  /** An entry is the inode in eight bytes, the name, and a pipe character. */
  lemma EntryBytes(e: Entry)
    ensures var s := EncodeEntry(e);
            && |s| == 8 + |e.name| + 1 && s[..8] == LittleEndian(e.ino, 8)
            && s[8..8 + |e.name|] == e.name && s[8 + |e.name|] == 124
  {
    hide LittleEndian;
  }

  /** Looking for the pipe fails exactly when a NUL, or the end, comes first. */
  lemma {:induction false} FindPipeExactly(s: Str)
    ensures FindPipe(s).None? <==> forall i | 0 <= i < |s| && s[i] == 124 :: 0 in s[..i]
  {
    if s != [] && s[0] != NUL && s[0] != PIPE {
      FindPipeExactly(s[1..]);
      forall i | 1 <= i < |s| ensures 0 in s[..i] <==> 0 in s[1..][..i - 1] {
        assert s[..i] == [s[0]] + s[1..][..i - 1];
      }
      assert forall i | 1 <= i < |s| :: s[i] == s[1..][i - 1];
      if FindPipe(s).None? {
        forall i | 0 <= i < |s| && s[i] == 124 ensures 0 in s[..i] {
          assert s[1..][i - 1] == 124;
        }
      } else {
        var i :| 0 <= i < |s[1..]| && s[1..][i] == 124 && 0 !in s[1..][..i];
        assert s[i + 1] == 124;
      }
    } else if s != [] && s[0] == NUL {
      forall i | 0 <= i < |s| && s[i] == 124 ensures 0 in s[..i] {
        assert s[..i][0] == 0;
      }
    } else if s != [] {
      assert s[..0] == [];
    }
  }

  lemma {:induction false} DecodePrefix(es: seq<Entry>, tail: Str)
    requires forall e :: e in es ==> Clean(e.name)
    requires |EncodeEntries(es)| + |tail| < TWO_32
    ensures DecodeEntries(EncodeEntries(es) + tail, |EncodeEntries(es)| + |tail|) ==
              Prepend(es, DecodeEntries(tail, |tail|))
  {
    hide EncodeEntry, DecodeEntries;
    if es == [] {
      assert [] + tail == tail;
      PrependNothing(DecodeEntries(tail, |tail|));
    } else {
      var after := EncodeEntries(es[1..]) + tail;
      assert EncodeEntries(es) + tail == EncodeEntry(es[0]) + after;
      DecodeFirst(es[0], after, |EncodeEntries(es)| + |tail|);
      DecodePrefix(es[1..], tail);
      assert es == [es[0]] + es[1..];
      PrependTwice(es[0], es[1..], DecodeEntries(tail, |tail|));
    }
  }

  lemma PrependTwice(e: Entry, es: seq<Entry>, r: Option<seq<Entry>>)
    ensures Prepend([e] + es, r) == Prepend([e], Prepend(es, r))
  {
    if r.Some? { assert ([e] + es) + r.value == [e] + (es + r.value); }
  }

  /** A serialised partition cut inside an entry cannot be read. */
  lemma CutEntriesFail(es: seq<Entry>, e: Entry, n: nat)
    requires Clean(e.name) && forall d :: d in es ==> Clean(d.name)
    requires 0 < n < 9 + |e.name| && |EncodeEntries(es)| + n < TWO_32
    ensures DecodeEntries(EncodeEntries(es) + EncodeEntry(e)[..n], |EncodeEntries(es)| + n) == None
  {
    hide EncodeEntry, EncodeEntries, FindPipe, DecodeInum, Clean;
    var tail := EncodeEntry(e)[..n];
    DecodePrefix(es, tail);
    if n >= 8 {
      EntryBytes(e);
      assert tail[8..] == e.name[..n - 8] by {
        assert EncodeEntry(e)[8..8 + |e.name|] == e.name;
        assert tail[8..] == EncodeEntry(e)[8..n] == EncodeEntry(e)[8..8 + |e.name|][..n - 8];
      }
      NoPipeInClean(e.name, n - 8);
    }
  }

  lemma NoPipeInClean(name: Str, k: nat)
    requires Clean(name) && k <= |name|
    ensures FindPipe(name[..k]).None?
  {
    hide FindPipe;
    FindPipeExactly(name[..k]);
    forall i | 0 <= i < k ensures name[..k][i] != 124 {
      assert name[i] in name;
    }
  }

  /** Of several entries with one name the last counts. */
  lemma {:induction false} LastEntryCounts(es: seq<Entry>, i: nat)
    requires i < |es| && forall j | i < j < |es| :: es[j].name != es[i].name
    ensures es[i].name in MapOf(es) && MapOf(es)[es[i].name] == es[i].ino
  {
    hide MapOf;
    var n := |es| - 1;
    MapOfOneMore(es[..n], es[n]);
    assert es == es[..n] + [es[n]];
    if i < n { LastEntryCounts(es[..n], i); }
  }

  lemma EncodeStep(m: NameMap, left: set<Str>, name: Str, done: seq<Entry>)
    requires left <= m.Keys && IsLeast(name, left, NameLeq)
    requires Listing(m) == done + EntriesFor(m, InOrder(left))
    ensures Listing(m) == done + [Entry(name, m[name])] + EntriesFor(m, InOrder(left - {name}))
  {
    hide NameLeq, InOrder, Listing, EntriesFor;
    NameLeqAntisymmetric(name, Least(left));
    InOrderFirst(left);
    EntriesForFirst(m, name, InOrder(left - {name}));
    var e, tail := Entry(name, m[name]), EntriesFor(m, InOrder(left - {name}));
    assert done + ([e] + tail) == done + [e] + tail;
  }

  /** The loop of `Serialize`: append the entries in map order. */
  method EncodeMap(m: NameMap) returns (buf: Str)
    ensures buf == EncodeEntries(Listing(m))
  {
    hide EncodeEntry, NameLeq, EncodeEntries, InOrder, EntriesFor;
    buf := [];
    var left := m.Keys;
    ghost var done: seq<Entry> := [];
    EncodeNothing();
    assert Listing(m) == done + EntriesFor(m, InOrder(left));
    while left != {}
      invariant left <= m.Keys
      invariant buf == EncodeEntries(done)
      invariant Listing(m) == done + EntriesFor(m, InOrder(left))
      decreases left
    {
      hide Listing;
      LeastName(left);
      var name :| name in left && forall y | y in left :: NameLeq(name, y);
      var e := Entry(name, m[name]);
      EncodeStep(m, left, name, done);
      buf := buf + EncodeEntry(e);
      EncodeOneMore(done, e);
      done := done + [e];
      left := left - {name};
    }
    InOrderEmpty();
    assert Listing(m) == done;
  }

  lemma EncodeNothing()
    ensures EncodeEntries([]) == []
  {
  }

  lemma InOrderFirst(s: set<Str>)
    requires s != {}
    ensures InOrder(s) == [Least(s)] + InOrder(s - {Least(s)})
  {
  }

  lemma InOrderEmpty()
    ensures InOrder({}) == []
  {
  }

  /** The loop of `Deserialize`: a moving pointer and a shrinking 32-bit count.  `ok` is false
      when the loop runs off the buffer. */
  method DecodeLoop(buf: Str, start: nat) returns (ok: bool, es: seq<Entry>, m: NameMap)
    requires start <= |buf|
    ensures var r := DecodeEntries(buf[start..], (|buf| - start) % TWO_32);
            ok == r.Some? && (ok ==> es == r.value && m == MapOf(es))
  {
    hide DecodeInum, MapOf, FindPipe, DecodeEntries;
    es, m, ok := [], map[], true;
    var totalSize := (|buf| - start) % TWO_32;
    var pos := start;
    ghost var all := DecodeEntries(buf[pos..], totalSize);
    MapOfNothing();
    PrependNothing(all);
    while totalSize > 0
      invariant start <= pos <= |buf| && 0 <= totalSize
      invariant m == MapOf(es)
      invariant all == Prepend(es, DecodeEntries(buf[pos..], totalSize))
      decreases |buf| - pos
    {
      ghost var rest := buf[pos..];
      DecodeUnfold(rest, totalSize);
      if |buf| - pos < 8 {
        return false, [], map[];
      }
      var k := FindPipe(buf[pos + 8..]);
      assert rest[8..] == buf[pos + 8..];
      if k.None? {
        return false, [], map[];
      }
      var e := Entry(buf[pos + 8..pos + 8 + k.value], DecodeInum(buf[pos..pos + 8]));
      assert rest[8..8 + k.value] == e.name && rest[..8] == buf[pos..pos + 8];
      assert rest[8 + k.value + 1..] == buf[pos + 8 + k.value + 1..];
      m := m[e.name := e.ino];
      MapOfOneMore(es, e);
      pos := pos + 8 + k.value + 1;
      totalSize := (totalSize - (8 + k.value + 1)) % TWO_32;
      PrependOneMore(es, e, DecodeEntries(buf[pos..], totalSize));
      es := es + [e];
    }
    DecodeUnfold(buf[pos..], 0);
  }

  lemma PrependNothing(r: Option<seq<Entry>>)
    ensures Prepend([], r) == r
  {
    if r.Some? { assert [] + r.value == r.value; }
  }

  lemma PrependOneMore(es: seq<Entry>, e: Entry, r: Option<seq<Entry>>)
    ensures Prepend(es, Prepend([e], r)) == Prepend(es + [e], r)
  {
    if r.Some? { assert es + ([e] + r.value) == es + [e] + r.value; }
  }

  lemma DecodeUnfold(rest: Str, total: nat)
    ensures total == 0 ==> DecodeEntries(rest, total) == Some([])
    ensures total > 0 && (|rest| < 8 || FindPipe(rest[8..]).None?) ==> DecodeEntries(rest, total).None?
    ensures total > 0 && |rest| >= 8 && FindPipe(rest[8..]).Some? ==>
              var k := FindPipe(rest[8..]).value;
              DecodeEntries(rest, total) ==
                Prepend([Entry(rest[8..8 + k], DecodeInum(rest[..8]))],
                        DecodeEntries(rest[8 + k + 1..], (total - (8 + k + 1)) % TWO_32))
  {
    hide FindPipe, DecodeInum, Prepend;
  }
}
