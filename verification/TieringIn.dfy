/** Tiering in: opening the tiered copy of a file, and reading an evicted file through it. */
module TieringIn {
  import opened Bytes
  import opened Keys
  import opened Store
  import opened FlatFile
  import opened File
  import opened FileRuns
  import opened Index
  import opened Tiering

  /** `TieringInAgent::Open`: the latest indexed segment that holds the inode, then the file under
      its recorded path in that segment's tarball. */
  method Open(index: IndexManager, tars: seq<Tar>, inode: nat) returns (source: Option<Str>)
    ensures source == Copy(index.segments, tars, inode)
  {
    var seg, offset := index.GetSegment(inode, XID_MAX);
    if seg.None? {
      return None;
    }
    var s := index.segments[seg.value];
    if s.id < |tars| && offset.value.pathname in tars[s.id] {
      return Some(tars[s.id][offset.value.pathname]);
    }
    return None;
  }

  /** A read of a file, evicted or not, through the segment index. */
  method ReadThrough(f: LogFSFile, index: IndexManager, tars: seq<Tar>, off: nat, len: nat,
                     buf: array<byte>, pace: nat -> nat) returns (n: nat)
    requires f.Valid() && off + len <= OFF_MAX
    requires var copy := Copy(index.segments, tars, f.handle);
             f.meta.evictionState == DataEvicted && copy.Some? ==> |copy.value| == f.meta.fileTotalSize
    requires ReadExtent(f.meta.fileTotalSize, off, len, f.meta.fileChunkSize) <= buf.Length
    modifies f, f.kv, buf
    ensures f.Valid() && n <= buf.Length
    ensures f.Bytes() == Visible(old(f.meta), old(f.Bytes()), Copy(index.segments, tars, f.handle))
    ensures f.meta == old(f.meta).(evictionState := StateAfterHold(old(f.meta), Copy(index.segments, tars, f.handle)))
    ensures buf[..n] == FlatRead(f.Bytes(), off, len, f.meta.fileChunkSize)
    ensures buf[n..] == old(buf[n..])
    ensures SameElsewhere(old(f.kv.data), f.kv.data, f.handle)
  {
    hide Copy, FlatRead, SameElsewhere, FileOK, Raw, ReadExtent;
    var source: Option<Str> := None;
    if f.meta.evictionState == DataEvicted {
      source := Open(index, tars, f.handle);
    }
    var _, m := f.Read(off, len, buf, source, pace);
    n := m;
  }

  /** Evict a file that has an indexed copy of its size: no data chunk is left, and the next read,
      for any way the copy is delivered in short reads, returns and restores the copy.  So nothing
      is lost if and only if the copy is current. */
  method EvictAndReadBack(f: LogFSFile, index: IndexManager, tars: seq<Tar>, off: nat, len: nat,
                          buf: array<byte>, pace: nat -> nat) returns (n: nat, ghost gone: bool)
    requires f.Valid() && f.meta.evictionState == Resident && off + len <= OFF_MAX
    requires var copy := Copy(index.segments, tars, f.handle);
             copy.Some? && |copy.value| == f.meta.fileTotalSize
    requires ReadExtent(f.meta.fileTotalSize, off, len, f.meta.fileChunkSize) <= buf.Length
    modifies f, f.kv, buf
    ensures gone && f.Valid() && f.meta == old(f.meta)
    ensures var copy := Copy(index.segments, tars, f.handle).value;
            && f.Bytes() == copy && n <= buf.Length
            && buf[..n] == FlatRead(copy, off, len, f.meta.fileChunkSize)
    ensures buf[n..] == old(buf[n..])
  {
    hide Copy, FlatRead, SameElsewhere, Raw, ReadExtent, Print;
    var _ := f.Evict();
    gone := forall k: nat :: Print(SubKey(f.handle, k)) !in f.kv.data;
    var source := Open(index, tars, f.handle);
    var _, m := f.Read(off, len, buf, source, pace);
    n := m;
  }

  /** Write or resize an evicted file with a copy, then fault it in as the next read would.  The
      fault-in stops at its size assertion if and only if the size has changed; otherwise the copy
      replaces what was written, so the change survives if and only if it changed nothing. */
  method ChangeEvicted(f: LogFSFile, index: IndexManager, tars: seq<Tar>, op: FileOp, pace: nat -> nat)
    returns (stops: bool)
    requires f.Valid() && f.meta.evictionState == DataEvicted && !op.Read? && InRange(op)
    requires var copy := Copy(index.segments, tars, f.handle);
             copy.Some? && |copy.value| == f.meta.fileTotalSize
    modifies f, f.kv
    ensures f.Valid()
    ensures var copy := Copy(index.segments, tars, f.handle).value;
            && (stops <==> |FlatStep(copy, op)| != |copy|)
            && (stops ==> f.Bytes() == FlatStep(old(f.Bytes()), op) && f.meta.evictionState == DataEvicted)
            && (!stops ==> f.Bytes() == copy && f.meta.evictionState == Resident)
            && (!stops && f.Bytes() == FlatStep(copy, op) <==> FlatStep(copy, op) == copy)
  {
    hide Copy, FlatStep, SameElsewhere, Raw, Print, FileOK, InRange;
    SameSizes(f.Bytes(), Copy(index.segments, tars, f.handle).value, op);
    DoChange(f, op);
    var source := Open(index, tars, f.handle);
    stops := |source.value| != f.meta.fileTotalSize;
    if !stops {
      f.HoldData(source, pace);
    }
  }
}
