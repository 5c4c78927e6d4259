/** Directory partitions as values: the entry vector with its tombstones, the name map, and what
    a readdir page contains. */
module DirView {
  import opened Bytes
  import opened DirCodec

  const MAX_ENTRIES := 1_000_000       // MAX_ENTRIES_PER_PARTITION
  const NUM_PARTITIONS := 2            // DEFAULT_PARTITIONS_PER_DIRECTORY

  datatype PartView = PartView(entries: seq<Entry>, byName: NameMap)

  /** Every name in the map has a slot in the vector. */
  ghost predicate Covered(v: PartView)
  {
    forall x :: x in v.byName ==> Entry(x, v.byName[x]) in v.entries
  }

  /** A slot whose name is still bound to its inode; anything else is a tombstone. */
  predicate Live(v: PartView, e: Entry)
  {
    e.name in v.byName && v.byName[e.name] == e.ino
  }

  datatype DirOp = Insert(name: Str, ino: Inum) | Remove(name: Str)

  function ApplyOp(v: PartView, op: DirOp): PartView
  {
    match op
    case Insert(x, ino) =>
      if x in v.byName then v
      else PartView(v.entries + [Entry(x, ino)], v.byName[x := ino])
    case Remove(x) => v.(byName := v.byName - {x})
  }

  /** A returned entry carries the cookie at which the next readdir call resumes. */
  datatype Listed = Listed(entry: Entry, next: nat)

  /** All live entries of a partition from index `i` on. */
  function LiveFrom(v: PartView, i: nat, base: nat): seq<Listed>
    decreases |v.entries| - i
  {
    if i >= |v.entries| then []
    else (if Live(v, v.entries[i]) then [Listed(v.entries[i], base + i + 1)] else [])
         + LiveFrom(v, i + 1, base)
  }

  /** Space that an entry takes in the reply buffer. */
  type Need = Str -> nat

  /** The longest prefix that fits in `room` bytes. */
  function Fit(l: seq<Listed>, room: nat, need: Need): (page: seq<Listed>)
    ensures page <= l
  {
    if l == [] || need(l[0].entry.name) > room then []
    else [l[0]] + Fit(l[1..], room - need(l[0].entry.name), need)
  }

  function TotalNeed(l: seq<Listed>, need: Need): nat
  {
    if l == [] then 0 else need(l[0].entry.name) + TotalNeed(l[1..], need)
  }

  /** A page is as long as it can be: its entries fit, and the next one would not. */
  lemma {:induction false} FitIsLongest(l: seq<Listed>, room: nat, need: Need)
    ensures var page := Fit(l, room, need);
            && page <= l && TotalNeed(page, need) <= room
            && (|page| < |l| ==> TotalNeed(page, need) + need(l[|page|].entry.name) > room)
  {
    if l != [] && need(l[0].entry.name) <= room {
      var left := room - need(l[0].entry.name);
      FitIsLongest(l[1..], left, need);
      var rest := Fit(l[1..], left, need);
      assert ([l[0]] + rest)[1..] == rest;
    }
  }

  /** Index in partition `p` at which a listing from offset `cur` starts. */
  function StartIndex(cur: nat, p: nat): nat
  {
    if cur < p * MAX_ENTRIES then 0 else cur - p * MAX_ENTRIES
  }

  /** All live entries at or after offset `cur`, from partition `p` on. */
  function LiveFromPartition(dir: seq<PartView>, p: nat, cur: nat): seq<Listed>
    decreases |dir| - p
  {
    if p >= |dir| then []
    else LiveFrom(dir[p], StartIndex(cur, p), p * MAX_ENTRIES) + LiveFromPartition(dir, p + 1, cur)
  }

  /** Decoding the cookie: its high part is the partition to start with, a `uint16_t`. */
  function LiveAfter(dir: seq<PartView>, cookie: nat): seq<Listed>
  {
    LiveFromPartition(dir, (cookie / MAX_ENTRIES) % 0x1_0000, cookie)
  }
}
