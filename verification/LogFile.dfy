/** `Flush` and `Refresh`: the change log as a byte stream of length-prefixed entries. */
module LogFile {
  import opened Bytes
  import opened DirCodec
  import opened ChangeLog

  const MAX_ENTRY := 1024            // size of Refresh's entry buffer

  /** The protobuf codec of one entry, taken as given. */
  datatype Codec = Codec(encode: LogEntry -> Str, decode: Str -> Option<LogEntry>)

  /** The codec gives back what it was given. */
  ghost predicate RoundTrips(codec: Codec, q: Log)
  {
    forall i :: 0 <= i < |q| ==>
      codec.decode(codec.encode(q[i])) == Some(q[i]) && |codec.encode(q[i])| < TWO_64
  }

  function Record(codec: Codec, e: LogEntry): Str
  {
    var bytes := codec.encode(e);
    LittleEndian(|bytes|, 8) + bytes
  }

  function Stream(codec: Codec, q: Log): Str
  {
    if q == [] then [] else Record(codec, q[0]) + Stream(codec, q[1..])
  }

  /** Outcome of reading a log file: the fatal exits, or the entries and the next id. */
  datatype LoadResult = Fatal | Loaded(q: Log, next: int)

  /** What `Refresh` makes of the bytes still to be read. */
  function Load(codec: Codec, bytes: Str, q: Log, next: int): LoadResult
    decreases |bytes|
  {
    if |bytes| < 8 then Loaded(q, next)                     // end of file
    else
      var size := FromLittleEndian(bytes[..8]);
      if size >= MAX_ENTRY || 8 + size > |bytes| then Fatal
      else
        var entry := codec.decode(bytes[8..8 + size]);
        var rest := bytes[8 + size..];
        if entry.Some? && entry.value.xid.Some?
        then Load(codec, rest, q + [entry.value], entry.value.xid.value + 1)
        else Load(codec, rest, q, next)                     // no id: the entry is skipped
  }

  lemma SplitRecord(codec: Codec, e: LogEntry, tail: Str)
    requires |codec.encode(e)| < TWO_64
    ensures var s := Record(codec, e) + tail;
            var n := |codec.encode(e)|;
            && |s| >= 8 + n && FromLittleEndian(s[..8]) == n
            && s[8..8 + n] == codec.encode(e) && s[8 + n..] == tail
  {
    hide LittleEndian, FromLittleEndian;
    var s, n := Record(codec, e) + tail, |codec.encode(e)|;
    assert s[..8] == LittleEndian(n, 8);
    Widths();
    FitsBelowPower(n, 8);
    LittleEndianRoundTrip(n, 8);
  }

  lemma LoadFirst(codec: Codec, e: LogEntry, tail: Str, q: Log, next: int)
    requires codec.decode(codec.encode(e)) == Some(e) && |codec.encode(e)| < TWO_64 && e.xid.Some?
    ensures Load(codec, Record(codec, e) + tail, q, next) ==
              if |codec.encode(e)| >= MAX_ENTRY then Fatal
              else Load(codec, tail, q + [e], e.xid.value + 1)
  {
    hide Record, FromLittleEndian;
    SplitRecord(codec, e, tail);
  }

  /** The id that follows the last entry. */
  function NextAfter(q: Log, next: int): int
    requires HasXids(q)
  {
    if q == [] then next else q[|q| - 1].xid.value + 1
  }

  lemma {:induction false} LoadStream(codec: Codec, q: Log, done: Log, next: int)
    requires RoundTrips(codec, q) && HasXids(q)
    ensures Load(codec, Stream(codec, q), done, next) ==
              if forall i :: 0 <= i < |q| ==> |codec.encode(q[i])| < MAX_ENTRY
              then Loaded(done + q, NextAfter(q, next)) else Fatal
    decreases |q|
  {
    hide Record, Load;
    if q == [] {
      LoadNothing(codec, done, next);
    } else {
      var e, rest := q[0], q[1..];
      LoadFirst(codec, e, Stream(codec, rest), done, next);
      LoadStream(codec, rest, done + [e], e.xid.value + 1);
      assert done + [e] + rest == done + q;
      if |codec.encode(e)| < MAX_ENTRY {
        SmallRest(codec, q);
      }
    }
  }

  lemma SmallRest(codec: Codec, q: Log)
    requires q != [] && |codec.encode(q[0])| < MAX_ENTRY
    ensures (forall i :: 0 <= i < |q| ==> |codec.encode(q[i])| < MAX_ENTRY) <==>
            (forall i :: 0 <= i < |q[1..]| ==> |codec.encode(q[1..][i])| < MAX_ENTRY)
  {
    if forall i :: 0 <= i < |q[1..]| ==> |codec.encode(q[1..][i])| < MAX_ENTRY {
      forall i | 0 <= i < |q| ensures |codec.encode(q[i])| < MAX_ENTRY {
        if i > 0 { assert q[i] == q[1..][i - 1]; }
      }
    }
  }

  lemma LoadNothing(codec: Codec, q: Log, next: int)
    ensures Load(codec, [], q, next) == Loaded(q, next)
    ensures q + [] == q
  {
  }

  /** Reading back a flushed, non-empty log into an empty one restores the entries and the next
      id exactly when every serialised entry is under 1024 bytes; otherwise the read is fatal. */
  lemma RefreshAfterFlush(codec: Codec, q: Log, next: int)
    requires q != [] && HasXids(q) && RoundTrips(codec, q)
    ensures (forall i :: 0 <= i < |q| ==> |codec.encode(q[i])| < 1024) <==>
            Load(codec, Stream(codec, q), [], next) == Loaded(q, q[|q| - 1].xid.value + 1)
    ensures (exists i :: 0 <= i < |q| && |codec.encode(q[i])| >= 1024) <==>
            Load(codec, Stream(codec, q), [], next) == Fatal
  {
    hide Load, Stream;
    LoadStream(codec, q, [], next);
    assert [] + q == q;
  }

  /** Reading goes on behind whatever was read before. */
  lemma {:induction false} LoadPrefix(codec: Codec, q: Log, tail: Str, done: Log, next: int)
    requires RoundTrips(codec, q) && HasXids(q)
    requires forall i :: 0 <= i < |q| ==> |codec.encode(q[i])| < MAX_ENTRY
    ensures Load(codec, Stream(codec, q) + tail, done, next) == Load(codec, tail, done + q, NextAfter(q, next))
    decreases |q|
  {
    hide Record, Load;
    if q == [] {
      assert [] + tail == tail && done + [] == done;
    } else {
      var e, rest := q[0], q[1..];
      var after := Stream(codec, rest) + tail;
      assert Stream(codec, q) + tail == Record(codec, e) + after;
      LoadFirst(codec, e, after, done, next);
      LoadPrefix(codec, rest, tail, done + [e], e.xid.value + 1);
      assert done + [e] + rest == done + q;
    }
  }

  /** A flushed stream cut short: inside an entry's bytes the read is fatal, inside its length it ends
      as if the file ended before the entry. */
  lemma CutStream(codec: Codec, q: Log, e: LogEntry, n: nat, next: int)
    requires RoundTrips(codec, q) && HasXids(q) && |codec.encode(e)| < TWO_64
    requires forall i :: 0 <= i < |q| ==> |codec.encode(q[i])| < 1024
    requires n < 8 + |codec.encode(e)|
    ensures |Record(codec, e)| == 8 + |codec.encode(e)|
    ensures Load(codec, Stream(codec, q) + Record(codec, e)[..n], [], next) ==
              if n < 8 then Loaded(q, NextAfter(q, next)) else Fatal
  {
    hide FromLittleEndian, LittleEndian, Stream;
    var part := Record(codec, e)[..n];
    LoadPrefix(codec, q, part, [], next);
    assert [] + q == q;
    if n >= 8 {
      SplitRecord(codec, e, []);
      assert Record(codec, e) + [] == Record(codec, e);
      assert part[..8] == Record(codec, e)[..8];
    }
  }

  /** A record whose entry carries no id is skipped. */
  lemma RecordWithoutId(codec: Codec, bytes: Str, tail: Str, q: Log, next: int)
    requires |bytes| < 1024 && (codec.decode(bytes).None? || codec.decode(bytes).value.xid.None?)
    ensures Load(codec, LittleEndian(|bytes|, 8) + bytes + tail, q, next) == Load(codec, tail, q, next)
  {
    hide FromLittleEndian, LittleEndian;
    var n, s := |bytes|, LittleEndian(|bytes|, 8) + bytes + tail;
    assert s[..8] == LittleEndian(n, 8) && s[8..8 + n] == bytes && s[8 + n..] == tail;
    Widths();
    FitsBelowPower(n, 8);
    LittleEndianRoundTrip(n, 8);
  }

  lemma StreamOneMore(codec: Codec, q: Log, e: LogEntry)
    ensures Stream(codec, q + [e]) == Stream(codec, q) + Record(codec, e)
  {
    hide Record;
    var all := q + [e];
    if q == [] {
      assert all == [e] && all[1..] == [];
    } else {
      assert all[1..] == q[1..] + [e];
      StreamOneMore(codec, q[1..], e);
    }
  }

  /** `Flush`: write every entry, length first. */
  method Flush(log: FsChangeLog, codec: Codec) returns (file: Str)
    requires log.deque != []
    ensures file == Stream(codec, log.deque)
  {
    hide Record, Stream;
    file := [];
    StreamNothing(codec);
    for i := 0 to |log.deque|
      invariant file == Stream(codec, log.deque[..i])
    {
      StreamOneMore(codec, log.deque[..i], log.deque[i]);
      assert log.deque[..i + 1] == log.deque[..i] + [log.deque[i]];
      file := file + Record(codec, log.deque[i]);
    }
    assert log.deque[..|log.deque|] == log.deque;
  }

  lemma StreamNothing(codec: Codec)
    ensures Stream(codec, []) == []
  {
  }

  /** `Refresh`: read entries until end of file. `ok` is false on a fatal exit. */
  method Refresh(log: FsChangeLog, codec: Codec, file: Str) returns (ok: bool)
    modifies log`deque, log`nextXid
    ensures var r := Load(codec, file, old(log.deque), old(log.nextXid));
            ok == r.Loaded? && (ok ==> log.deque == r.q && log.nextXid == r.next)
  {
    hide FromLittleEndian;
    var pos := 0;
    ok := true;
    ghost var goal := Load(codec, file, log.deque, log.nextXid);
    assert file[0..] == file;
    while true
      invariant pos <= |file|
      invariant goal == Load(codec, file[pos..], log.deque, log.nextXid)
      decreases |file| - pos
    {
      ghost var rest := file[pos..];
      if |file| - pos < 8 {
        return;
      }
      var size := FromLittleEndian(file[pos..pos + 8]);
      assert rest[..8] == file[pos..pos + 8];
      if size >= MAX_ENTRY || pos + 8 + size > |file| {
        return false;
      }
      var entry := codec.decode(file[pos + 8..pos + 8 + size]);
      assert rest[8..8 + size] == file[pos + 8..pos + 8 + size];
      assert rest[8 + size..] == file[pos + 8 + size..];
      if entry.Some? && entry.value.xid.Some? {
        log.deque := log.deque + [entry.value];
        log.nextXid := entry.value.xid.value + 1;
      }
      pos := pos + 8 + size;
    }
  }
}
