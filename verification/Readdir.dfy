/** A paged readdir scan with inserts and removes between the pages. */
module Readdir {
  import opened Bytes
  import opened DirCodec
  import opened DirView

  /** The partition a name belongs to. */
  type Hash = Str -> nat

  function Route(hash: Hash, x: Str): (p: nat)
    ensures p < NUM_PARTITIONS
  {
    hash(x) % NUM_PARTITIONS
  }

  type Dir = seq<PartView>

  /** A directory whose names sit where the hash sends them. */
  ghost predicate DirOK(hash: Hash, dir: Dir)
  {
    && |dir| == NUM_PARTITIONS
    && (forall p | 0 <= p < |dir| :: Covered(dir[p]))
    && (forall p, x | 0 <= p < |dir| && x in dir[p].byName :: Route(hash, x) == p)
    && (forall p, i | 0 <= p < |dir| && 0 <= i < |dir[p].entries| ::
          Route(hash, dir[p].entries[i].name) == p)
  }

  function DirStep(hash: Hash, dir: Dir, op: DirOp): Dir
    requires |dir| == NUM_PARTITIONS
  {
    var p := Route(hash, op.name);
    dir[p := ApplyOp(dir[p], op)]
  }

  function DirRun(hash: Hash, dir: Dir, ops: seq<DirOp>): (r: Dir)
    requires |dir| == NUM_PARTITIONS
    ensures |r| == NUM_PARTITIONS
    decreases |ops|
  {
    if ops == [] then dir else DirRun(hash, DirStep(hash, dir, ops[0]), ops[1..])
  }

  /** The vectors have not outgrown the range of one partition's cookies. */
  ghost predicate Bounded(dir: Dir)
  {
    forall p | 0 <= p < |dir| :: |dir[p].entries| <= MAX_ENTRIES
  }

  ghost predicate Present(hash: Hash, dir: Dir, x: Str)
    requires |dir| == NUM_PARTITIONS
  {
    x in dir[Route(hash, x)].byName
  }

  /** One readdir call: the changes made since the previous one, and the reply buffer. */
  datatype Page = Page(ops: seq<DirOp>, room: nat)

  function PageOf(dir: Dir, cookie: nat, room: nat, need: Need): seq<Listed>
  {
    Fit(LiveAfter(dir, cookie), room, need)
  }

  /** The scan: each page resumes at the cookie of the last entry returned; an empty page ends it. */
  function Scan(hash: Hash, need: Need, dir: Dir, cookie: nat, script: seq<Page>): seq<Listed>
    requires |dir| == NUM_PARTITIONS
    decreases |script|
  {
    if script == [] then []
    else
      var dir' := DirRun(hash, dir, script[0].ops);
      var page := PageOf(dir', cookie, script[0].room, need);
      if page == [] then [] else page + Scan(hash, need, dir', page[|page| - 1].next, script[1..])
  }

  /** The scan reaches an empty page; every page up to there can hold an entry if there is one
      left, sees vectors within bounds, and sees `x`. */
  ghost predicate ScanSees(hash: Hash, need: Need, dir: Dir, cookie: nat, script: seq<Page>, x: Str)
    requires |dir| == NUM_PARTITIONS
    decreases |script|
  {
    && script != []
    && var dir' := DirRun(hash, dir, script[0].ops);
    var page := PageOf(dir', cookie, script[0].room, need);
    && Bounded(dir') && Present(hash, dir', x)
    && (page == [] ==> LiveAfter(dir', cookie) == [])
    && (page != [] ==> ScanSees(hash, need, dir', page[|page| - 1].next, script[1..], x))
  }

  // ---- what a listing contains ------------------------------------------------------------

  lemma LiveFromHas(v: PartView, i: nat, base: nat, k: nat)
    requires i <= k < |v.entries| && Live(v, v.entries[k])
    ensures Listed(v.entries[k], base + k + 1) in LiveFrom(v, i, base)
    decreases |v.entries| - i
  {
    if i < k {
      LiveFromHas(v, i + 1, base, k);
    }
  }

  lemma LiveFromElements(v: PartView, i: nat, base: nat)
    ensures forall l :: l in LiveFrom(v, i, base) ==>
              && base + i < l.next <= base + |v.entries|
              && v.entries[l.next - base - 1] == l.entry && Live(v, l.entry)
    decreases |v.entries| - i
  {
    if i < |v.entries| {
      LiveFromElements(v, i + 1, base);
    }
  }

  ghost predicate Increasing(l: seq<Listed>)
  {
    forall a, b | 0 <= a < b < |l| :: l[a].next < l[b].next
  }

  lemma LiveFromIncreasing(v: PartView, i: nat, base: nat)
    ensures Increasing(LiveFrom(v, i, base))
    decreases |v.entries| - i
  {
    if i < |v.entries| {
      LiveFromIncreasing(v, i + 1, base);
      LiveFromElements(v, i + 1, base);
    }
  }

  /** The slot that a returned entry came from. */
  ghost predicate CameFrom(dir: Dir, l: Listed, p: nat)
  {
    && p < |dir|
    && p * MAX_ENTRIES < l.next <= p * MAX_ENTRIES + |dir[p].entries|
    && dir[p].entries[l.next - p * MAX_ENTRIES - 1] == l.entry
  }

  /** The same, while the entry is still live. */
  ghost predicate SlotOf(dir: Dir, l: Listed, p: nat)
  {
    CameFrom(dir, l, p) && Live(dir[p], l.entry)
  }

  lemma LiveFromPartitionElements(dir: Dir, p: nat, cur: nat)
    ensures forall l :: l in LiveFromPartition(dir, p, cur) ==>
              cur < l.next && p * MAX_ENTRIES < l.next && exists q :: p <= q && SlotOf(dir, l, q)
    decreases |dir| - p
  {
    if p < |dir| {
      LiveFromElements(dir[p], StartIndex(cur, p), p * MAX_ENTRIES);
      LiveFromPartitionElements(dir, p + 1, cur);
      forall l | l in LiveFromPartition(dir, p, cur)
        ensures cur < l.next && p * MAX_ENTRIES < l.next && exists q :: p <= q && SlotOf(dir, l, q)
      {
        if l in LiveFrom(dir[p], StartIndex(cur, p), p * MAX_ENTRIES) {
          assert SlotOf(dir, l, p);
        }
      }
    }
  }

  lemma LiveFromPartitionIncreasing(dir: Dir, p: nat, cur: nat)
    requires Bounded(dir)
    ensures Increasing(LiveFromPartition(dir, p, cur))
    decreases |dir| - p
  {
    if p < |dir| {
      LiveFromIncreasing(dir[p], StartIndex(cur, p), p * MAX_ENTRIES);
      LiveFromElements(dir[p], StartIndex(cur, p), p * MAX_ENTRIES);
      LiveFromPartitionIncreasing(dir, p + 1, cur);
      LiveFromPartitionElements(dir, p + 1, cur);
    }
  }

  lemma LiveFromPartitionHas(dir: Dir, p: nat, cur: nat, q: nat, k: nat)
    requires p <= q < |dir| && k < |dir[q].entries| && cur <= q * MAX_ENTRIES + k
    requires Live(dir[q], dir[q].entries[k])
    ensures Listed(dir[q].entries[k], q * MAX_ENTRIES + k + 1) in LiveFromPartition(dir, p, cur)
    decreases q - p
  {
    if p == q {
      LiveFromHas(dir[q], StartIndex(cur, q), q * MAX_ENTRIES, k);
    } else {
      LiveFromPartitionHas(dir, p + 1, cur, q, k);
    }
  }

  lemma CookieDecodes(dir: Dir, cookie: nat)
    requires cookie <= NUM_PARTITIONS * MAX_ENTRIES
    ensures var p := cookie / MAX_ENTRIES;
            && p * MAX_ENTRIES <= cookie < p * MAX_ENTRIES + MAX_ENTRIES
            && LiveAfter(dir, cookie) == LiveFromPartition(dir, p, cookie)
  {
  }

  /** Packing partition and index into one cookie is sound for vectors within bounds: the
      listing that resumes at a cookie has exactly the live slots at or after it, in order. */
  lemma CookieResumes(dir: Dir, cookie: nat)
    requires |dir| == NUM_PARTITIONS && Bounded(dir) && cookie <= NUM_PARTITIONS * MAX_ENTRIES
    ensures Increasing(LiveAfter(dir, cookie))
    ensures forall l :: l in LiveAfter(dir, cookie) ==> cookie < l.next && exists q :: SlotOf(dir, l, q)
    ensures forall q, k | 0 <= q < |dir| && 0 <= k < |dir[q].entries|
                          && Live(dir[q], dir[q].entries[k]) && cookie <= q * MAX_ENTRIES + k ::
              Listed(dir[q].entries[k], q * MAX_ENTRIES + k + 1) in LiveAfter(dir, cookie)
  {
    hide LiveAfter, LiveFromPartition, SlotOf, Live, Bounded;
    CookieDecodes(dir, cookie);
    var p := cookie / MAX_ENTRIES;
    LiveFromPartitionIncreasing(dir, p, cookie);
    LiveFromPartitionElements(dir, p, cookie);
    forall q, k | 0 <= q < |dir| && 0 <= k < |dir[q].entries|
                  && Live(dir[q], dir[q].entries[k]) && cookie <= q * MAX_ENTRIES + k
      ensures Listed(dir[q].entries[k], q * MAX_ENTRIES + k + 1) in LiveAfter(dir, cookie)
    {
      assert k < MAX_ENTRIES by { InBounds(dir, q); }
      LiveFromPartitionHas(dir, p, cookie, q, k);
    }
  }

  lemma InBounds(dir: Dir, q: nat)
    requires Bounded(dir) && q < |dir|
    ensures |dir[q].entries| <= MAX_ENTRIES
  {
  }

  /** Slot `k` of partition `q` is live. */
  ghost predicate LiveSlot(dir: Dir, q: nat, k: nat)
  {
    q < |dir| && k < |dir[q].entries| && Live(dir[q], dir[q].entries[k])
  }

  lemma SlotListed(dir: Dir, cookie: nat, q: nat, k: nat)
    requires |dir| == NUM_PARTITIONS && LiveSlot(dir, q, k) && k < MAX_ENTRIES
    requires cookie <= q * MAX_ENTRIES + k
    ensures Listed(dir[q].entries[k], q * MAX_ENTRIES + k + 1) in LiveAfter(dir, cookie)
  {
    CookieDecodes(dir, cookie);
    var p := cookie / MAX_ENTRIES;
    LiveFromPartitionHas(dir, p, cookie, q, k);
  }

  /** Exactly when cookies can be trusted: resuming at any cookie lists every live slot at or
      after it if and only if no live slot has index 1,000,000 or more. */
  lemma CookiesSoundExactly(hash: Hash, dir: Dir)
    requires DirOK(hash, dir)
    ensures (forall q: nat, k: nat | LiveSlot(dir, q, k) :: k < MAX_ENTRIES) <==>
            (forall cookie: nat, q: nat, k: nat | LiveSlot(dir, q, k) && cookie <= q * MAX_ENTRIES + k ::
               Listed(dir[q].entries[k], q * MAX_ENTRIES + k + 1) in LiveAfter(dir, cookie))
  {
    if forall q: nat, k: nat | LiveSlot(dir, q, k) :: k < MAX_ENTRIES {
      forall cookie: nat, q: nat, k: nat | LiveSlot(dir, q, k) && cookie <= q * MAX_ENTRIES + k
        ensures Listed(dir[q].entries[k], q * MAX_ENTRIES + k + 1) in LiveAfter(dir, cookie)
      {
        SlotListed(dir, cookie, q, k);
      }
    } else {
      var q: nat, k: nat :| LiveSlot(dir, q, k) && k >= MAX_ENTRIES;
      OversizeSlotMissed(hash, dir, q, k);
      var cookie := (q + 1) * MAX_ENTRIES;
      assert cookie <= q * MAX_ENTRIES + k;
    }
  }

  /** A slot past the millionth is skipped by the cookie that starts the next partition. */
  lemma OversizeSlotMissed(hash: Hash, dir: Dir, q: nat, k: nat)
    requires DirOK(hash, dir) && LiveSlot(dir, q, k) && k >= MAX_ENTRIES
    ensures Listed(dir[q].entries[k], q * MAX_ENTRIES + k + 1) !in LiveAfter(dir, (q + 1) * MAX_ENTRIES)
  {
    var cookie := (q + 1) * MAX_ENTRIES;
    CookieDecodes(dir, cookie);
    assert LiveAfter(dir, cookie) == LiveFromPartition(dir, q + 1, cookie);
    LiveFromPartitionElements(dir, q + 1, cookie);
    forall l | l in LiveAfter(dir, cookie) ensures l.entry != dir[q].entries[k] {
      var r :| q + 1 <= r && SlotOf(dir, l, r);
      assert Route(hash, l.entry.name) == r;
      assert Route(hash, dir[q].entries[k].name) == q;
    }
  }

  // ---- nothing that stays is missed -------------------------------------------------------

  /** If `x` is in the directory, some slot of it lies at or after the cookie; and a slot added
      for it from now on will, too. */
  ghost predicate Ahead(hash: Hash, dir: Dir, x: Str, cookie: nat)
    requires |dir| == NUM_PARTITIONS
  {
    var q := Route(hash, x);
    var v := dir[q];
    && cookie <= q * MAX_ENTRIES + |v.entries|
    && (x in v.byName ==> exists k :: 0 <= k < |v.entries| && cookie <= q * MAX_ENTRIES + k
                                      && v.entries[k] == Entry(x, v.byName[x]))
  }

  lemma AheadStep(hash: Hash, dir: Dir, op: DirOp, x: Str, cookie: nat)
    requires |dir| == NUM_PARTITIONS && Ahead(hash, dir, x, cookie)
    ensures Ahead(hash, DirStep(hash, dir, op), x, cookie)
  {
    var q := Route(hash, x);
    var v, v' := dir[q], DirStep(hash, dir, op)[q];
    assert v.entries <= v'.entries;
    if x in v'.byName {
      if x in v.byName {
        var k :| 0 <= k < |v.entries| && cookie <= q * MAX_ENTRIES + k
                 && v.entries[k] == Entry(x, v.byName[x]);
        assert v'.entries[k] == Entry(x, v'.byName[x]);
      } else {
        assert v'.entries[|v.entries|] == Entry(x, v'.byName[x]);
      }
    }
  }

  lemma AheadRun(hash: Hash, dir: Dir, ops: seq<DirOp>, x: Str, cookie: nat)
    requires |dir| == NUM_PARTITIONS && Ahead(hash, dir, x, cookie)
    ensures Ahead(hash, DirRun(hash, dir, ops), x, cookie)
    decreases |ops|
  {
    if ops != [] {
      AheadStep(hash, dir, ops[0], x, cookie);
      AheadRun(hash, DirStep(hash, dir, ops[0]), ops[1..], x, cookie);
    }
  }

  lemma BeyondPage(live: seq<Listed>, page: seq<Listed>, l: Listed)
    requires Increasing(live) && page <= live && page != [] && l in live && l !in page
    ensures page[|page| - 1].next < l.next
  {
    var a :| 0 <= a < |live| && live[a] == l;
    assert forall b | 0 <= b < |page| :: page[b] == live[b];
  }

  lemma PageStopsBefore(hash: Hash, need: Need, dir: Dir, cookie: nat, room: nat, x: Str)
    requires |dir| == NUM_PARTITIONS && Bounded(dir) && cookie <= NUM_PARTITIONS * MAX_ENTRIES
    requires Ahead(hash, dir, x, cookie) && Present(hash, dir, x)
    ensures LiveAfter(dir, cookie) != []
    ensures var page := PageOf(dir, cookie, room, need);
            page != [] && (forall l :: l in page ==> l.entry.name != x) ==>
              Ahead(hash, dir, x, page[|page| - 1].next)
  {
    hide LiveAfter, Fit, SlotOf, Bounded;
    var q := Route(hash, x);
    var v := dir[q];
    var live, page := LiveAfter(dir, cookie), PageOf(dir, cookie, room, need);
    CookieResumes(dir, cookie);
    var k :| 0 <= k < |v.entries| && cookie <= q * MAX_ENTRIES + k
             && v.entries[k] == Entry(x, v.byName[x]);
    var l := Listed(v.entries[k], q * MAX_ENTRIES + k + 1);
    assert l in live;
    if page != [] && forall l :: l in page ==> l.entry.name != x {
      BeyondPage(live, page, l);
    }
  }

  lemma PageCookieInRange(dir: Dir, cookie: nat, room: nat, need: Need)
    requires |dir| == NUM_PARTITIONS && Bounded(dir) && cookie <= NUM_PARTITIONS * MAX_ENTRIES
    ensures var page := PageOf(dir, cookie, room, need);
            page != [] ==> cookie < page[|page| - 1].next <= NUM_PARTITIONS * MAX_ENTRIES
  {
    CookieResumes(dir, cookie);
    var live, page := LiveAfter(dir, cookie), PageOf(dir, cookie, room, need);
    if page != [] {
      var l := live[|page| - 1];
      assert l in live;
      var q :| SlotOf(dir, l, q);
    }
  }

  lemma {:induction false} ScanFrom(hash: Hash, need: Need, dir: Dir, cookie: nat, script: seq<Page>, x: Str)
    requires |dir| == NUM_PARTITIONS && cookie <= NUM_PARTITIONS * MAX_ENTRIES
    requires Ahead(hash, dir, x, cookie)
    requires ScanSees(hash, need, dir, cookie, script, x)
    ensures exists l :: l in Scan(hash, need, dir, cookie, script) && l.entry.name == x
    decreases |script|
  {
    var dir' := DirRun(hash, dir, script[0].ops);
    var page := PageOf(dir', cookie, script[0].room, need);
    AheadRun(hash, dir, script[0].ops, x, cookie);
    PageStopsBefore(hash, need, dir', cookie, script[0].room, x);
    PageCookieInRange(dir', cookie, script[0].room, need);
    if l :| l in page && l.entry.name == x {
      assert l in Scan(hash, need, dir, cookie, script);
    } else {
      var next := page[|page| - 1].next;
      ScanFrom(hash, need, dir', next, script[1..], x);
      var l :| l in Scan(hash, need, dir', next, script[1..]) && l.entry.name == x;
      assert l in Scan(hash, need, dir, cookie, script);
    }
  }

  /** A complete scan, in pages of any size that hold at least one entry, with any inserts and
      removes in between, returns every name that each page finds present. */
  lemma ScanIsComplete(hash: Hash, need: Need, dir: Dir, script: seq<Page>, x: Str)
    requires DirOK(hash, dir)
    requires ScanSees(hash, need, dir, 0, script, x)
    ensures exists l :: l in Scan(hash, need, dir, 0, script) && l.entry.name == x
  {
    var v := dir[Route(hash, x)];
    if x in v.byName {
      assert Entry(x, v.byName[x]) in v.entries;
    }
    assert Ahead(hash, dir, x, 0);
    ScanFrom(hash, need, dir, 0, script, x);
  }

  // ---- nothing is returned twice ----------------------------------------------------------

  /** Vectors only ever grow at the end. */
  ghost predicate Grown(dir: Dir, dir': Dir)
  {
    |dir| == |dir'| && forall p | 0 <= p < |dir| :: dir[p].entries <= dir'[p].entries
  }

  lemma RunGrows(hash: Hash, dir: Dir, ops: seq<DirOp>)
    requires |dir| == NUM_PARTITIONS
    ensures Grown(dir, DirRun(hash, dir, ops))
    decreases |ops|
  {
    if ops != [] {
      var dir1 := DirStep(hash, dir, ops[0]);
      RunGrows(hash, dir1, ops[1..]);
      GrownTransitive(dir, dir1, DirRun(hash, dir1, ops[1..]));
    }
  }

  lemma GrownTransitive(a: Dir, b: Dir, c: Dir)
    requires Grown(a, b) && Grown(b, c)
    ensures Grown(a, c)
  {
  }

  /** The directory after every change of the script. */
  function After(hash: Hash, dir: Dir, script: seq<Page>): (r: Dir)
    requires |dir| == NUM_PARTITIONS
    ensures |r| == NUM_PARTITIONS
    decreases |script|
  {
    if script == [] then dir else After(hash, DirRun(hash, dir, script[0].ops), script[1..])
  }

  lemma AfterGrows(hash: Hash, dir: Dir, script: seq<Page>)
    requires |dir| == NUM_PARTITIONS
    ensures Grown(dir, After(hash, dir, script))
    decreases |script|
  {
    if script != [] {
      var dir1 := DirRun(hash, dir, script[0].ops);
      RunGrows(hash, dir, script[0].ops);
      AfterGrows(hash, dir1, script[1..]);
      GrownTransitive(dir, dir1, After(hash, dir1, script[1..]));
    }
  }

  lemma SlotStays(dir: Dir, dir': Dir, l: Listed, p: nat)
    requires Grown(dir, dir') && SlotOf(dir, l, p)
    ensures CameFrom(dir', l, p)
  {
    assert dir[p].entries <= dir'[p].entries;
  }

  lemma PageEntries(dir: Dir, final: Dir, cookie: nat, room: nat, need: Need)
    requires |dir| == NUM_PARTITIONS && Bounded(dir) && Grown(dir, final)
    requires cookie <= NUM_PARTITIONS * MAX_ENTRIES
    ensures var page := PageOf(dir, cookie, room, need);
            && Increasing(page)
            && forall l :: l in page ==> cookie < l.next && exists p :: CameFrom(final, l, p)
  {
    hide LiveAfter, Fit, SlotOf, CameFrom, Bounded;
    var live, page := LiveAfter(dir, cookie), PageOf(dir, cookie, room, need);
    CookieResumes(dir, cookie);
    forall l | l in page ensures cookie < l.next && exists p :: CameFrom(final, l, p) {
      assert l in live;
      var q :| SlotOf(dir, l, q);
      SlotStays(dir, final, l, q);
    }
    assert forall b | 0 <= b < |page| :: page[b] == live[b];
  }

  lemma {:induction false} ScanMovesForward(hash: Hash, need: Need, dir: Dir, cookie: nat, script: seq<Page>)
    requires |dir| == NUM_PARTITIONS && cookie <= NUM_PARTITIONS * MAX_ENTRIES
    requires Bounded(After(hash, dir, script))
    ensures var r := Scan(hash, need, dir, cookie, script);
            && Increasing(r)
            && forall l :: l in r ==>
                 cookie < l.next && exists p :: CameFrom(After(hash, dir, script), l, p)
    decreases |script|
  {
    hide LiveAfter, Fit, SlotOf, CameFrom, Bounded, PageOf, Grown;
    if script != [] {
      var final := After(hash, dir, script);
      var dir' := DirRun(hash, dir, script[0].ops);
      var page := PageOf(dir', cookie, script[0].room, need);
      AfterGrows(hash, dir', script[1..]);
      GrownBounded(dir', final);
      PageEntries(dir', final, cookie, script[0].room, need);
      PageCookieInRange(dir', cookie, script[0].room, need);
      if page != [] {
        ScanMovesForward(hash, need, dir', page[|page| - 1].next, script[1..]);
      }
    }
  }

  lemma GrownBounded(dir: Dir, final: Dir)
    requires Grown(dir, final) && Bounded(final)
    ensures Bounded(dir)
  {
    forall p | 0 <= p < |dir| ensures |dir[p].entries| <= MAX_ENTRIES {
      assert dir[p].entries <= final[p].entries;
    }
  }

  lemma DirOKStep(hash: Hash, dir: Dir, op: DirOp)
    requires DirOK(hash, dir)
    ensures DirOK(hash, DirStep(hash, dir, op))
  {
  }

  lemma DirOKRun(hash: Hash, dir: Dir, ops: seq<DirOp>)
    requires DirOK(hash, dir)
    ensures DirOK(hash, DirRun(hash, dir, ops))
    decreases |ops|
  {
    hide DirOK;
    if ops == [] {
    } else {
      DirLength(hash, dir);
      DirOKStep(hash, dir, ops[0]);
      DirOKRun(hash, DirStep(hash, dir, ops[0]), ops[1..]);
    }
  }

  lemma DirLength(hash: Hash, dir: Dir)
    requires DirOK(hash, dir)
    ensures |dir| == NUM_PARTITIONS
  {
  }

  lemma DirOKAfter(hash: Hash, dir: Dir, script: seq<Page>)
    requires DirOK(hash, dir)
    ensures DirOK(hash, After(hash, dir, script))
    decreases |script|
  {
    if script != [] {
      DirOKRun(hash, dir, script[0].ops);
      DirOKAfter(hash, DirRun(hash, dir, script[0].ops), script[1..]);
    }
  }

  /** No (name, inode) pair was ever inserted twice. */
  ghost predicate NoReinsertion(dir: Dir)
  {
    forall p, i, j | 0 <= p < |dir| && 0 <= i < j < |dir[p].entries| ::
      dir[p].entries[i] != dir[p].entries[j]
  }

  /** If no (name, inode) pair is ever re-inserted, a scan never returns a pair twice. */
  lemma ScanReturnsNoPairTwice(hash: Hash, need: Need, dir: Dir, script: seq<Page>)
    requires DirOK(hash, dir)
    requires Bounded(After(hash, dir, script)) && NoReinsertion(After(hash, dir, script))
    ensures var r := Scan(hash, need, dir, 0, script);
            forall a, b | 0 <= a < b < |r| :: r[a].entry != r[b].entry
  {
    var final := After(hash, dir, script);
    var r := Scan(hash, need, dir, 0, script);
    ScanMovesForward(hash, need, dir, 0, script);
    DirOKAfter(hash, dir, script);
    forall a, b | 0 <= a < b < |r|
      ensures r[a].entry != r[b].entry
    {
      assert r[a] in r && r[b] in r;
      var p :| CameFrom(final, r[a], p);
      var q :| CameFrom(final, r[b], q);
      DistinctSlots(hash, final, r[a], r[b], p, q);
    }
  }

  lemma DistinctSlots(hash: Hash, dir: Dir, k: Listed, l: Listed, p: nat, q: nat)
    requires DirOK(hash, dir) && NoReinsertion(dir)
    requires CameFrom(dir, k, p) && CameFrom(dir, l, q) && k.next < l.next
    ensures k.entry != l.entry
  {
  }

  /** Every page, up to the empty one, finds `x` bound to the same inode. */
  ghost predicate ScanKeeps(hash: Hash, need: Need, dir: Dir, cookie: nat, script: seq<Page>, e: Entry)
    requires |dir| == NUM_PARTITIONS
    decreases |script|
  {
    && script != []
    && var dir' := DirRun(hash, dir, script[0].ops);
    var page := PageOf(dir', cookie, script[0].room, need);
    && Live(dir'[Route(hash, e.name)], e)
    && (page == [] ==> LiveAfter(dir', cookie) == [])
    && (page != [] ==> ScanKeeps(hash, need, dir', page[|page| - 1].next, script[1..], e))
  }

  lemma {:induction false} KeptIsSeen(hash: Hash, need: Need, dir: Dir, cookie: nat, script: seq<Page>, e: Entry)
    requires DirOK(hash, dir) && cookie <= NUM_PARTITIONS * MAX_ENTRIES
    requires Bounded(After(hash, dir, script))
    requires ScanKeeps(hash, need, dir, cookie, script, e)
    ensures ScanSees(hash, need, dir, cookie, script, e.name)
    ensures forall l :: l in Scan(hash, need, dir, cookie, script) && l.entry.name == e.name ==> l.entry == e
    decreases |script|
  {
    hide LiveAfter, Fit, Bounded, Grown, DirOK, SlotOf;
    DirLength(hash, dir);
    var dir' := DirRun(hash, dir, script[0].ops);
    var page := PageOf(dir', cookie, script[0].room, need);
    DirOKRun(hash, dir, script[0].ops);
    AfterGrows(hash, dir', script[1..]);
    GrownBounded(dir', After(hash, dir, script));
    PageCookieInRange(dir', cookie, script[0].room, need);
    forall l | l in page && l.entry.name == e.name ensures l.entry == e {
      PageEntryIsLive(hash, dir', cookie, script[0].room, need, l);
    }
    if page != [] {
      KeptIsSeen(hash, need, dir', page[|page| - 1].next, script[1..], e);
    }
  }

  lemma PageEntryIsLive(hash: Hash, dir: Dir, cookie: nat, room: nat, need: Need, l: Listed)
    requires DirOK(hash, dir) && Bounded(dir) && cookie <= NUM_PARTITIONS * MAX_ENTRIES
    requires l in PageOf(dir, cookie, room, need)
    ensures Live(dir[Route(hash, l.entry.name)], l.entry)
  {
    hide LiveAfter, Fit;
    CookieResumes(dir, cookie);
    assert l in LiveAfter(dir, cookie);
    var q :| SlotOf(dir, l, q);
    assert Route(hash, l.entry.name) == q;
  }

  /** The entry is returned, and nothing else under its name. */
  ghost predicate ReturnedOnce(r: seq<Listed>, e: Entry)
  {
    exists a :: 0 <= a < |r| && r[a].entry == e
                && forall b | 0 <= b < |r| && b != a :: r[b].entry.name != e.name
  }

  /** A name that stays bound to its inode throughout a complete scan is returned exactly once,
      provided no (name, inode) pair is ever re-inserted. */
  lemma ScanReturnsExactlyOnce(hash: Hash, need: Need, dir: Dir, script: seq<Page>, e: Entry)
    requires DirOK(hash, dir)
    requires Bounded(After(hash, dir, script)) && NoReinsertion(After(hash, dir, script))
    requires ScanKeeps(hash, need, dir, 0, script, e)
    ensures ReturnedOnce(Scan(hash, need, dir, 0, script), e)
  {
    hide DirOK, Bounded, NoReinsertion, ScanKeeps, ScanSees;
    DirLength(hash, dir);
    var r := Scan(hash, need, dir, 0, script);
    KeptIsSeen(hash, need, dir, 0, script, e);
    ScanIsComplete(hash, need, dir, script, e.name);
    ScanReturnsNoPairTwice(hash, need, dir, script);
    var l :| l in r && l.entry.name == e.name;
    var a :| 0 <= a < |r| && r[a] == l;
    forall b | 0 <= b < |r| && b != a ensures r[b].entry.name != e.name {
      assert r[b] in r;
      if b < a { assert r[b].entry != r[a].entry; }
    }
  }

  /** Two partitions, chosen by the hash; and no cookie problem in a directory that never has more than
      a million entry slots in either: the scan returns every entry that stays, once. */
  lemma ScanOfUpToAMillion(hash: Hash, need: Need, dir: Dir, script: seq<Page>, e: Entry)
    requires DirOK(hash, dir)
    requires NoReinsertion(After(hash, dir, script))
    requires |After(hash, dir, script)[0].entries| <= 1_000_000 && |After(hash, dir, script)[1].entries| <= 1_000_000
    requires ScanKeeps(hash, need, dir, 0, script, e)
    ensures |dir| == 2 && Route(hash, e.name) == hash(e.name) % 2
    ensures ReturnedOnce(Scan(hash, need, dir, 0, script), e)
  {
    hide DirOK, NoReinsertion, ScanKeeps, ReturnedOnce;
    DirLength(hash, dir);
    ScanReturnsExactlyOnce(hash, need, dir, script, e);
  }

  /** The cookies: slot `k` of partition `q` is listed with `q` million plus `k`, plus one. */
  lemma CookieValues(dir: Dir, cookie: nat, l: Listed)
    requires |dir| == 2 && |dir[0].entries| <= 1_000_000 && |dir[1].entries| <= 1_000_000 && cookie <= 2_000_000
    requires l in LiveAfter(dir, cookie)
    ensures exists q, k :: SlotAt(dir, l, q, k)
  {
    hide LiveAfter;
    assert Bounded(dir);
    CookieResumes(dir, cookie);
    var q: nat :| SlotOf(dir, l, q);
    SlotIsAt(dir, l, q);
  }

  lemma SlotIsAt(dir: Dir, l: Listed, q: nat)
    requires CameFrom(dir, l, q)
    ensures SlotAt(dir, l, q, l.next - q * 1_000_000 - 1)
  {
  }

  ghost predicate SlotAt(dir: Dir, l: Listed, q: int, k: int)
  {
    0 <= q < |dir| && 0 <= k < |dir[q].entries| && dir[q].entries[k] == l.entry && l.next == q * 1_000_000 + k + 1
  }

  /** A page holds as much as fits of what is listed from the cookie on; so if every name fits into the
      buffer, a page is empty only when nothing is left. */
  lemma PageIsLongest(dir: Dir, cookie: nat, room: nat, need: Need)
    ensures var live, page := LiveAfter(dir, cookie), PageOf(dir, cookie, room, need);
            && page <= live && TotalNeed(page, need) <= room
            && (|page| < |live| ==> TotalNeed(page, need) + need(live[|page|].entry.name) > room)
            && ((forall l | l in live :: need(l.entry.name) <= room) ==> (page == [] <==> live == []))
  {
    hide LiveAfter, Fit;
    FitIsLongest(LiveAfter(dir, cookie), room, need);
  }

  /** The changes between pages: an insert binds a free name, a remove unbinds a name, and no other name
      is touched. */
  lemma ChangeOfNames(hash: Hash, dir: Dir, op: DirOp, x: Str)
    requires |dir| == NUM_PARTITIONS
    ensures var now, was := DirStep(hash, dir, op)[Route(hash, x)].byName, dir[Route(hash, x)].byName;
            && (op.Remove? && op.name == x ==> x !in now)
            && (op.Insert? && op.name == x ==> x in now && now[x] == if x in was then was[x] else op.ino)
            && (op.name != x ==> (x in now <==> x in was) && (x in was ==> now[x] == was[x]))
  {
  }

  lemma {:induction false} ChangesInOrder(hash: Hash, dir: Dir, a: seq<DirOp>, op: DirOp)
    requires |dir| == NUM_PARTITIONS
    ensures DirRun(hash, dir, []) == dir
    ensures DirRun(hash, dir, a + [op]) == DirStep(hash, DirRun(hash, dir, a), op)
    decreases |a|
  {
    var all := a + [op];
    if a == [] {
      assert all[1..] == [];
    } else {
      assert all[1..] == a[1..] + [op];
      ChangesInOrder(hash, DirStep(hash, dir, a[0]), a[1..], op);
    }
  }
}
