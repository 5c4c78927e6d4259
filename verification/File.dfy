/** `LogFSFile`: read, write, resize, evict and un-evict over the chunk store. */
module File {
  import opened Bytes
  import opened Keys
  import opened Store
  import opened Chunks
  import opened FlatFile

  /** Inode `h` is stored, and its chunks respect its size and chunk size. */
  ghost predicate FileOK(d: Contents, h: nat)
  {
    var key := Print(InodeKey(h));
    && key in d && d[key].Inode?
    && MetaOK(d[key].meta, h)
    && ChunksOnly(d, d, h)
    && WellChunked(TableOf(d, h), d[key].meta.fileChunkSize, d[key].meta.fileTotalSize)
  }

  /** The ranges of the C++ field types. */
  predicate MetaOK(m: Meta, h: nat)
  {
    m.handle == h && 0 < m.fileChunkSize < TWO_32 && m.fileTotalSize <= OFF_MAX
  }

  ghost function MetaOf(d: Contents, h: nat): Meta
    requires FileOK(d, h)
  {
    d[Print(InodeKey(h))].meta
  }

  /** The flat byte array that the chunks of file `h` stand for. */
  ghost function Raw(d: Contents, h: nat): (s: Str)
    requires FileOK(d, h)
    ensures |s| == MetaOf(d, h).fileTotalSize
  {
    Flatten(TableOf(d, h), MetaOf(d, h).fileChunkSize, MetaOf(d, h).fileTotalSize)
  }

  /** No operation on one inode changes the metadata or the contents of another. */
  lemma OtherFileKept(d: Contents, d': Contents, h: nat, g: nat)
    requires SameElsewhere(d, d', h) && g != h && FileOK(d, g)
    ensures FileOK(d', g) && MetaOf(d', g) == MetaOf(d, g) && Raw(d', g) == Raw(d, g)
  {
    hide Print, ByteAt, Base;
    KeysOfOthersAreForeign(g, h);
    assert TableOf(d', g) == TableOf(d, g);
    assert SameElsewhere(d', d', g);
  }

  /** A store whose chunks are in order becomes a valid file once its inode is put. */
  lemma InodePut(d0: Contents, d: Contents, d': Contents, h: nat, m: Meta)
    requires ChunksOnly(d0, d, h) && MetaOK(m, h)
    requires WellChunked(TableOf(d, h), m.fileChunkSize, m.fileTotalSize)
    requires d' == d[Print(InodeKey(h)) := Inode(m)]
    ensures FileOK(d', h) && MetaOf(d', h) == m && TableOf(d', h) == TableOf(d, h)
    ensures SameElsewhere(d0, d', h)
  {
    hide Print, Base;
    PutInodeKey(d, d', h, m);
  }

  lemma WrittenBytes(t0: Table, t: Table, c: nat, size: nat, offset: nat, buf: Str)
    requires c > 0 && WellChunked(t0, c, size)
    requires WrittenTo(t0, t, c, size, offset, buf, offset + |buf|)
    ensures Flatten(t, c, Max(size, offset + |buf|)) == FlatWrite(Flatten(t0, c, size), offset, buf)
  {
    hide ByteAt, Base;
    var r := Flatten(t, c, Max(size, offset + |buf|));
    forall i | 0 <= i < |r|
      ensures r[i] == FlatWrite(Flatten(t0, c, size), offset, buf)[i]
    {
      if i >= size {
        ByteBeyondLimit(t0, c, size, i);
      }
    }
  }

  lemma ResizedBytes(t0: Table, t: Table, c: nat, size: nat, newSize: nat)
    requires c > 0 && WellChunked(t0, c, size)
    requires forall i: nat | i < newSize :: ByteAt(t, c, i) == ByteAt(t0, c, i)
    ensures Flatten(t, c, newSize) == Resize(Flatten(t0, c, size), newSize)
  {
    hide ByteAt, Base;
    forall i | 0 <= i < newSize
      ensures Flatten(t, c, newSize)[i] == Resize(Flatten(t0, c, size), newSize)[i]
    {
      if i >= size {
        ByteBeyondLimit(t0, c, size, i);
      }
    }
  }

  /** `read` has filled `out` with the bytes from `offset` on. */
  ghost predicate ReadSoFar(t: Table, c: nat, offset: nat, out: Str)
    requires c > 0
  {
    forall j :: 0 <= j < |out| ==> out[j] == ByteAt(t, c, offset + j)
  }

  lemma ReadBytes(t: Table, c: nat, size: nat, offset: nat, len: nat, out: Str)
    requires c > 0 && WellChunked(t, c, size) && ReadSoFar(t, c, offset, out)
    requires |out| == ReadExtent(size, offset, len, c)
    ensures out == FlatRead(Flatten(t, c, size), offset, len, c)
  {
    hide ByteAt, Base, ReadExtent, TruncDiv;
    var r := FlatRead(Flatten(t, c, size), offset, len, c);
    forall j | 0 <= j < |out|
      ensures out[j] == r[j]
    {
      if offset > size {
        ByteBeyondLimit(t, c, size, offset + j);
      }
    }
  }

  /** The clamp of `read`, with its unsigned wrap past end of file. */
  function ClampedLength(size: nat, offset: nat, len: nat): nat
  {
    if offset + len > size then ToUnsigned64(size - offset) else len
  }

  /** Where the chunk loop of `read` starts, and where it stops filling. */
  lemma ReadLoopRange(size: nat, offset: nat, len: nat, c: nat)
    requires 0 < c < TWO_32 && size <= OFF_MAX && offset + len <= OFF_MAX
    ensures var first := TruncDiv(offset, c);
            0 <= first && Base(first, c) <= offset < Base(first, c) + c
    ensures ClampedLength(size, offset, len) == 0 ==> ReadExtent(size, offset, len, c) == 0
    ensures ClampedLength(size, offset, len) > 0 ==>
              ReadLoop(size, offset, len, c, ClampedLength(size, offset, len))
  {
    hide Base;
    ChunkRange(offset, 0, c);
    var length := ClampedLength(size, offset, len);
    if offset <= size {
      if length > 0 { ChunkRange(offset, length, c); }
    } else {
      PastEnd(size, offset, c);
    }
  }

  /** The chunks `first..last` that the loop visits cover exactly the extent. */
  predicate ReadLoop(size: nat, offset: nat, len: nat, c: nat, length: nat)
    requires c > 0 && length > 0
  {
    var first := TruncDiv(offset, c);
    var last := TruncDiv(offset + ToSigned64(length - 1), c);
    var extent := ReadExtent(size, offset, len, c);
    if offset <= size then
      && first <= last && length == extent && offset + length <= size
      && Base(last, c) < offset + length <= Base(last + 1, c)
    else
      && last <= first && length > c
      && extent == if first <= last then Base(first, c) + c - offset else 0
  }

  lemma PastEnd(size: nat, offset: nat, c: nat)
    requires c > 0 && offset > size
    ensures TruncDiv(size - 1, c) <= TruncDiv(offset, c) == offset / c
    ensures c - offset % c == Base(offset / c, c) + c - offset
  {
    hide Base;
    BaseOfByte(offset, c);
    var q := offset / c;
    if size > 0 {
      BaseOfByte(size - 1, c);
      var l := (size - 1) / c;
      BaseNext(q, c);
      if l > q { BaseMonotone(q + 1, l, c); }
    } else {
      DivModLaw(1, c);
      NotNegative(1, c);
      NotNegative(offset, c);
    }
  }

  lemma NotNegative(n: nat, c: nat)
    requires c > 0
    ensures n / c >= 0
  {
  }

  /** What the length of the next `pread` from the tiered copy may be: short, but positive
      before end of file, and never more than the 8192-byte buffer. */
  function ShortRead(wanted: nat, remaining: nat): (n: nat)
    ensures n <= remaining && n <= 8192 && (n == 0 <==> remaining == 0)
    ensures 0 < wanted <= remaining && wanted <= 8192 ==> n == wanted
  {
    Min(remaining, Min(8192, Max(1, wanted)))
  }

  /** One more piece of the tiered copy written over the front of the file. */
  lemma OverwrittenPrefix(before: Str, src: Str, off: nat, n: nat)
    requires |before| == |src| && off + n <= |src| && before[..off] == src[..off]
    ensures |FlatWrite(before, off, src[off..off + n])| == |src|
    ensures FlatWrite(before, off, src[off..off + n])[..off + n] == src[..off + n]
  {
    var r := FlatWrite(before, off, src[off..off + n]);
    forall i | 0 <= i < off + n
      ensures r[i] == src[i]
    {
      if i < off { assert before[..off][i] == src[..off][i]; }
    }
  }

  class LogFSFile {
    const handle: nat
    const kv: KVStore
    var meta: Meta

    /** The object is loaded: its metadata is what the store holds. */
    ghost predicate Valid()
      reads this, kv
    {
      FileOK(kv.data, handle) && MetaOf(kv.data, handle) == meta
    }

    ghost predicate Absent()
      reads kv
    {
      Print(InodeKey(handle)) !in kv.data
    }

    ghost function Bytes(): Str
      requires Valid()
      reads this, kv
    {
      Raw(kv.data, handle)
    }

    /** A new, empty file: `initMeta` and the first `writeToLog` under a handle never used. */
    constructor (handle: nat, kv: KVStore, chunkSize: nat)
      requires 0 < chunkSize < TWO_32
      requires forall k: nat :: Print(SubKey(handle, k)) !in kv.data
      modifies kv
      ensures this.handle == handle && this.kv == kv
      ensures meta == Meta(handle, 0, chunkSize, Resident)
      ensures Valid() && Bytes() == []
      ensures SameElsewhere(old(kv.data), kv.data, handle)
    {
      hide Print, Base;
      this.handle := handle;
      this.kv := kv;
      meta := Meta(handle, 0, chunkSize, Resident);
      new;
      ghost var d := kv.data;
      Flush();
      PutInodeKey(d, kv.data, handle, meta);
    }

    /** Persist the in-memory metadata. */
    method Flush()
      modifies kv
      ensures kv.data == old(kv.data)[Print(InodeKey(handle)) := Inode(meta)]
    {
      kv.Put(Print(InodeKey(handle)), Inode(meta));
    }

    /** Load the metadata from the store (`open`, `stat`). */
    method Load() returns (ok: bool)
      requires Absent() || FileOK(kv.data, handle)
      modifies this`meta
      ensures ok <==> !Absent()
      ensures ok ==> Valid()
      ensures !ok ==> meta == old(meta)
    {
      hide Print, Base;
      var key := Print(InodeKey(handle));
      ok := key in kv.data;
      if ok {
        meta := kv.data[key].meta;
      }
    }

    /** One chunk of a write: fetch the old chunk unless it is completely overwritten or starts
        exactly at end of file, overlay the next piece of `buf`, and put it back. */
    method WriteChunk(ghost d0: Contents, offset: nat, buf: Str, off: nat, chunk: nat)
      returns (off': nat)
      requires MetaOK(meta, handle)
      requires ChunksOnly(d0, kv.data, handle)
      requires WrittenTo(TableOf(d0, handle), TableOf(kv.data, handle),
                         meta.fileChunkSize, meta.fileTotalSize, offset, buf, off)
      requires var base := Base(chunk, meta.fileChunkSize);
               base <= off < base + meta.fileChunkSize
      modifies kv
      ensures ChunksOnly(d0, kv.data, handle)
      ensures off' == Min(offset + |buf|, Base(chunk, meta.fileChunkSize) + meta.fileChunkSize)
      ensures WrittenTo(TableOf(d0, handle), TableOf(kv.data, handle),
                        meta.fileChunkSize, meta.fileTotalSize, offset, buf, off')
    {
      hide Print, ByteAt, Base, ChunksOnly, WellChunked, TableOf, Chunk, BytesAt, Overlay;
      var c, size := meta.fileChunkSize, meta.fileTotalSize;
      var end, base := offset + |buf|, Base(chunk, c);
      var chunkOff := off - base;
      var doGet := true;
      if chunkOff == 0 {
        if end - off >= c {
          doGet := false;               // nothing of the old chunk survives
        } else if off == size {
          doGet := false;               // at end of file: nothing is stored here yet
        }
      }
      var key := Print(SubKey(handle, chunk));
      var value: Str := [];
      if doGet {
        var _, stored := kv.GetBytes(key);
        value := stored;
      }
      off' := Min(end, base + c);
      if off' > off {
        ghost var d := kv.data;
        StoredChunk(d, handle, chunk);
        var newValue := Overlay(value, chunkOff, buf[off - offset..off' - offset]);
        kv.Put(key, Data(newValue));
        PutChunkKey(d0, d, kv.data, handle, chunk, newValue);
        WriteStep(TableOf(d0, handle), TableOf(d, handle), TableOf(kv.data, handle), c, size,
                  offset, buf, off, off', chunk, value);
      }
    }

    /** The chunk loop of `write`. */
    method WriteChunks(ghost d0: Contents, offset: nat, buf: Str) returns (off: nat)
      requires MetaOK(meta, handle)
      requires ChunksOnly(d0, kv.data, handle)
      requires WrittenTo(TableOf(d0, handle), TableOf(kv.data, handle),
                         meta.fileChunkSize, meta.fileTotalSize, offset, buf, offset)
      modifies kv
      ensures ChunksOnly(d0, kv.data, handle)
      ensures off == offset + |buf|
      ensures WrittenTo(TableOf(d0, handle), TableOf(kv.data, handle),
                        meta.fileChunkSize, meta.fileTotalSize, offset, buf, off)
    {
      hide Print, WrittenTo, ChunksOnly, Base, TruncDiv;
      var c := meta.fileChunkSize;
      var end := offset + |buf|;
      var chunk := TruncDiv(offset, c);
      var last := TruncDiv(end - 1, c);
      off := offset;
      ChunkRange(offset, |buf|, c);
      while chunk <= last
        invariant 0 <= chunk
        invariant offset <= off <= end
        invariant chunk <= last + 1 || |buf| == 0
        invariant off < Base(chunk, c) + c
        invariant off == end || Base(chunk, c) <= off
        invariant Base(chunk, c) <= off || chunk > last
        invariant ChunksOnly(d0, kv.data, handle)
        invariant WrittenTo(TableOf(d0, handle), TableOf(kv.data, handle),
                            c, meta.fileTotalSize, offset, buf, off)
        decreases last - chunk
      {
        off := WriteChunk(d0, offset, buf, off, chunk);
        BaseNext(chunk, c);
        chunk := chunk + 1;
        if chunk <= last { BaseMonotone(chunk, last, c); }
      }
    }

    /** `write`: overlay `buf` on the file, chunk by chunk. */
    method Write(offset: nat, buf: Str, updateMeta: bool) returns (status: Status, actualLen: nat)
      requires Valid()
      requires offset + |buf| <= OFF_MAX
      requires !updateMeta ==> offset + |buf| <= meta.fileTotalSize
      modifies this, kv
      ensures Valid()
      ensures status == StatusOk && actualLen == |buf|
      ensures Bytes() == FlatWrite(old(Bytes()), offset, buf)
      ensures meta == old(meta).(fileTotalSize := Max(old(meta.fileTotalSize), offset + |buf|))
      ensures SameElsewhere(old(kv.data), kv.data, handle)
    {
      hide Print, ByteAt, Base, WellChunked, FlatWrite;
      ghost var d0 := kv.data;
      var c, size := meta.fileChunkSize, meta.fileTotalSize;
      WriteStart(TableOf(d0, handle), c, size, offset, buf);
      var off := WriteChunks(d0, offset, buf);
      actualLen := off - offset;
      status := StatusOk;
      ghost var d1 := kv.data;
      WrittenBytes(TableOf(d0, handle), TableOf(d1, handle), c, size, offset, buf);
      if updateMeta {
        if off > meta.fileTotalSize {
          meta := meta.(fileTotalSize := off);
        }
        Flush();
        InodePut(d0, d1, kv.data, handle, meta);
      }
    }

    /** One chunk of a truncation: shorten the boundary chunk, remove any other. */
    method CutChunkAt(ghost d0: Contents, newSize: nat, size: nat, c: nat, chunk: nat, first: nat)
      requires c > 0 && first <= chunk && Base(first, c) <= newSize < Base(first, c) + c
      requires ChunksOnly(d0, kv.data, handle)
      requires TrimmedTo(TableOf(d0, handle), TableOf(kv.data, handle), c, size, newSize, chunk)
      modifies kv
      ensures ChunksOnly(d0, kv.data, handle)
      ensures TrimmedTo(TableOf(d0, handle), TableOf(kv.data, handle), c, size, newSize, chunk + 1)
    {
      hide Print, ByteAt, Base, ChunksOnly, WellChunked, TrimmedTo;
      var chunkOff := newSize - Base(chunk, c);
      var key := Print(SubKey(handle, chunk));
      ghost var d := kv.data;
      if chunk == first && chunkOff > 0 && chunkOff < c {
        var found, value := kv.GetBytes(key);
        if found && |value| > chunkOff {
          kv.Put(key, Data(Resize(value, chunkOff)));
          PutChunkKey(d0, d, kv.data, handle, chunk, Resize(value, chunkOff));
        }
        BoundaryChunk(d0, d, handle, c, size, newSize, chunk, value);
        TrimStep(TableOf(d0, handle), TableOf(d, handle), TableOf(kv.data, handle),
                 c, size, newSize, chunk, chunkOff);
      } else {
        kv.Remove(key);
        if chunk > first { BaseNext(first, c); BaseMonotone(first + 1, chunk, c); }
        RemoveChunkKey(d0, d, kv.data, handle, chunk);
        TrimStep(TableOf(d0, handle), TableOf(d, handle), TableOf(kv.data, handle),
                 c, size, newSize, chunk, 0);
      }
    }

    /** `ResizeData`: drop or shorten every chunk that holds a byte at or past `newSize`. */
    method ResizeData(newSize: nat, size: nat, c: nat)
      requires c > 0 && ChunksOnly(kv.data, kv.data, handle)
      requires WellChunked(TableOf(kv.data, handle), c, size)
      modifies kv
      ensures ChunksOnly(old(kv.data), kv.data, handle)
      ensures WellChunked(TableOf(kv.data, handle), c, newSize)
      ensures forall i: nat | i < newSize ::
                ByteAt(TableOf(kv.data, handle), c, i) == ByteAt(old(TableOf(kv.data, handle)), c, i)
    {
      hide Print, ByteAt, Base, ChunksOnly, TruncDiv, TableOf, WellChunked, TrimmedTo;
      ghost var d0 := kv.data;
      if newSize >= size {
        GrowLimit(TableOf(d0, handle), c, size, newSize);
      } else {
        var first := TruncDiv(newSize, c);
        var last := TruncDiv(size - 1, c);
        ChunkRange(newSize, size - newSize, c);
        TrimStart(TableOf(d0, handle), c, size, newSize, first);
        var chunk := first;
        while chunk <= last
          invariant first <= chunk <= last + 1
          invariant ChunksOnly(d0, kv.data, handle)
          invariant TrimmedTo(TableOf(d0, handle), TableOf(kv.data, handle), c, size, newSize, chunk)
          decreases last - chunk
        {
          CutChunkAt(d0, newSize, size, c, chunk, first);
          chunk := chunk + 1;
        }
        TrimDone(TableOf(d0, handle), TableOf(kv.data, handle), c, size, newSize, chunk);
      }
    }

    /** `SetSize`: cut, or extend with zeros; an inode that is not stored is an error. */
    method SetSize(newSize: nat) returns (status: Status)
      requires Absent() || Valid()
      requires newSize <= OFF_MAX
      modifies this, kv
      ensures old(Absent()) ==>
                status == InternalError && kv.data == old(kv.data) && meta == old(meta)
      ensures !old(Absent()) ==>
                && status == StatusOk && Valid()
                && meta == old(meta).(fileTotalSize := newSize)
                && Bytes() == Resize(old(Bytes()), newSize)
      ensures SameElsewhere(old(kv.data), kv.data, handle)
    {
      hide Print, ByteAt, Base, WellChunked, Resize;
      var ok := Load();
      if !ok {
        return InternalError;
      }
      ghost var d0 := kv.data;
      var c, size := meta.fileChunkSize, meta.fileTotalSize;
      ResizeData(newSize, size, c);
      ghost var d1 := kv.data;
      ResizedBytes(TableOf(d0, handle), TableOf(d1, handle), c, size, newSize);
      meta := meta.(fileTotalSize := newSize);
      Flush();
      InodePut(d0, d1, kv.data, handle, meta);
      status := StatusOk;
    }

    /** `Evict`: drop every data chunk, keep the inode and its size, mark it evicted. */
    method Evict() returns (status: Status)
      requires Absent() || Valid()
      modifies this, kv
      ensures old(Absent()) ==>
                status == ObjectDoesntExist && kv.data == old(kv.data) && meta == old(meta)
      ensures !old(Absent()) ==>
                && status == StatusOk && Valid()
                && meta == old(meta).(evictionState := DataEvicted)
                && (forall k: nat :: Print(SubKey(handle, k)) !in kv.data)
                && Bytes() == Zeros(old(meta.fileTotalSize))
      ensures SameElsewhere(old(kv.data), kv.data, handle)
    {
      hide Print, ByteAt, Base;
      var ok := Load();
      if !ok {
        return ObjectDoesntExist;
      }
      ghost var d0 := kv.data;
      ResizeData(0, meta.fileTotalSize, meta.fileChunkSize);
      ghost var d1 := kv.data;
      meta := meta.(evictionState := DataEvicted);
      Flush();
      EmptyHasNoChunks(TableOf(d1, handle), meta.fileChunkSize);
      InodePut(d0, d1, kv.data, handle, meta);
      NoChunksAreZeros(kv.data, handle, meta.fileChunkSize, meta.fileTotalSize);
      status := StatusOk;
    }

    /** `UnEvict`: rebuild the file from its tiered copy, `source`, through reads of any positive
        length (`pace` says how much each one delivers).  Without a copy the file stays evicted. */
    method UnEvict(source: Option<Str>, pace: nat -> nat) returns (status: Status)
      requires Valid()
      requires source.Some? ==> |source.value| == meta.fileTotalSize
      modifies this, kv
      ensures Valid()
      ensures source.None? ==>
                status == ObjectDoesntExist && kv.data == old(kv.data) && meta == old(meta)
      ensures source.Some? ==>
                && status == StatusOk && Bytes() == source.value
                && meta == old(meta).(evictionState := Resident)
      ensures SameElsewhere(old(kv.data), kv.data, handle)
    {
      hide Print, FileOK, Raw, FlatWrite, SameElsewhere;
      SameAsItself(kv.data, handle);
      if source.None? {
        return ObjectDoesntExist;
      }
      var src := source.value;
      ghost var d0 := kv.data;
      var off := 0;
      while true
        invariant off <= |src| == meta.fileTotalSize
        invariant Valid() && meta == old(meta)
        invariant Bytes()[..off] == src[..off]
        invariant SameElsewhere(d0, kv.data, handle)
        decreases |src| - off
      {
        var n := ShortRead(pace(off), |src| - off);
        if n == 0 {
          break;
        }
        ghost var d, before := kv.data, Bytes();
        MetaInRange(d, handle);
        var _, _ := Write(off, src[off..off + n], false);
        OverwrittenPrefix(before, src, off, n);
        SameTwice(d0, d, kv.data, handle);
        off := off + n;
      }
      ghost var d1 := kv.data;
      assert Bytes() == src;
      meta := meta.(evictionState := Resident);
      Flush();
      StatePut(d1, kv.data, handle, Resident);
      SameTwice(d0, d1, kv.data, handle);
      status := StatusOk;
    }

    /** One chunk of a read: copy what is stored, zero-fill the rest of the chunk. */
    method ReadChunk(buf: array<byte>, ghost t: Table, offset: nat, off: nat, end: nat, chunk: nat)
      returns (off': nat)
      requires MetaOK(meta, handle) && t == TableOf(kv.data, handle)
      requires WellChunked(t, meta.fileChunkSize, meta.fileTotalSize)
      requires var base := Base(chunk, meta.fileChunkSize);
               base <= off < base + meta.fileChunkSize
      requires offset <= off < end
      requires end <= meta.fileTotalSize || meta.fileTotalSize < off
      requires Min(end, Base(chunk, meta.fileChunkSize) + meta.fileChunkSize) - offset <= buf.Length
      requires ReadSoFar(t, meta.fileChunkSize, offset, buf[..off - offset])
      modifies buf
      ensures off' == Min(end, Base(chunk, meta.fileChunkSize) + meta.fileChunkSize)
      ensures ReadSoFar(t, meta.fileChunkSize, offset, buf[..off' - offset])
      ensures buf[off' - offset..] == old(buf[off' - offset..])
    {
      hide Print, ByteAt, Base;
      var c, base := meta.fileChunkSize, Base(chunk, meta.fileChunkSize);
      var _, value := kv.GetBytes(Print(SubKey(handle, chunk)));
      assert value == Chunk(t, chunk);
      var chunkOff := off - base;
      var availBytes := |value| - chunkOff;
      var copyBytes := Min(availBytes, ToSigned64(end - off));
      off' := off;
      if copyBytes > 0 {
        forall j | 0 <= j < copyBytes {
          buf[off - offset + j] := value[chunkOff + j];
        }
        off' := off + copyBytes;
      }
      ghost var mid := off';
      if end - off' > 0 {
        var zeroBytes := Min(end - off', base + c - off');
        forall j | 0 <= j < zeroBytes {
          buf[off' - offset + j] := 0;
        }
        off' := off' + zeroBytes;
      }
      forall j | 0 <= j < off' - offset
        ensures buf[j] == ByteAt(t, c, offset + j)
      {
        if off <= offset + j {
          ByteInChunk(t, c, chunk, offset + j);
        } else {
          assert buf[j] == old(buf[..off - offset])[j];
        }
      }
    }

    /** `HoldData`: fault evicted data back in. */
    method HoldData(source: Option<Str>, pace: nat -> nat)
      requires Valid()
      requires meta.evictionState == DataEvicted && source.Some? ==> |source.value| == meta.fileTotalSize
      modifies this, kv
      ensures Valid()
      ensures Bytes() == Visible(old(meta), old(Bytes()), source)
      ensures meta == old(meta).(evictionState := StateAfterHold(old(meta), source))
      ensures old(meta.evictionState) == Resident ==> kv.data == old(kv.data)
      ensures SameElsewhere(old(kv.data), kv.data, handle)
    {
      hide Print, ByteAt, Base, WellChunked;
      if meta.evictionState != Resident {
        var _ := UnEvict(source, pace);
      }
    }

    /** `read`: fault the data in if it was evicted, then copy out of the chunks, clamped to end
        of file.  `buf` must be able to hold what the loop writes. */
    method Read(offset: nat, len: nat, buf: array<byte>, source: Option<Str>, pace: nat -> nat)
      returns (status: Status, actualLen: nat)
      requires Valid()
      requires offset + len <= OFF_MAX
      requires meta.evictionState == DataEvicted && source.Some? ==> |source.value| == meta.fileTotalSize
      requires ReadExtent(meta.fileTotalSize, offset, len, meta.fileChunkSize) <= buf.Length
      modifies this, kv, buf
      ensures Valid() && status == StatusOk
      ensures old(meta.evictionState) == Resident ==> kv.data == old(kv.data)
      ensures Bytes() == Visible(old(meta), old(Bytes()), source)
      ensures meta == old(meta).(evictionState := StateAfterHold(old(meta), source))
      ensures actualLen <= buf.Length
      ensures buf[..actualLen] == FlatRead(Bytes(), offset, len, meta.fileChunkSize)
      ensures offset <= meta.fileTotalSize ==>
                && actualLen == (if offset + len <= meta.fileTotalSize then len else meta.fileTotalSize - offset)
                && buf[..actualLen] == Bytes()[offset..offset + actualLen]
      ensures buf[actualLen..] == old(buf[actualLen..])
      ensures SameElsewhere(old(kv.data), kv.data, handle)
    {
      hide Print, FileOK, Raw, ReadExtent, ToUnsigned64, FlatRead, SameElsewhere;
      var length := ClampedLength(meta.fileTotalSize, offset, len);
      HoldData(source, pace);
      actualLen := CopyOut(offset, len, length, buf);
      status := StatusOk;
    }

    /** The part of `read` after the data is held. */
    method CopyOut(offset: nat, ghost len: nat, length: nat, buf: array<byte>) returns (actualLen: nat)
      requires Valid() && offset + len <= OFF_MAX
      requires length == ClampedLength(meta.fileTotalSize, offset, len)
      requires ReadExtent(meta.fileTotalSize, offset, len, meta.fileChunkSize) <= buf.Length
      modifies buf
      ensures Valid() && actualLen <= buf.Length
      ensures buf[..actualLen] == FlatRead(Bytes(), offset, len, meta.fileChunkSize)
      ensures offset <= meta.fileTotalSize ==>
                && actualLen == (if offset + len <= meta.fileTotalSize then len else meta.fileTotalSize - offset)
                && buf[..actualLen] == Bytes()[offset..offset + actualLen]
      ensures buf[actualLen..] == old(buf[actualLen..])
    {
      hide Print, ByteAt, Base, WellChunked, ReadExtent, TruncDiv, ToSigned64, ToUnsigned64, FlatRead;
      var size, c := meta.fileTotalSize, meta.fileChunkSize;
      ghost var t := TableOf(kv.data, handle);
      ReadLoopRange(size, offset, len, c);
      var off := offset;
      if length > 0 {
        off := ReadChunks(buf, t, offset, len, length);
      }
      actualLen := off - offset;
      ReadBytes(t, c, size, offset, len, buf[..actualLen]);
      if offset <= size {
        ReadDelivers(Bytes(), offset, len, c);
      }
    }

    /** The chunk loop of `read`. */
    method ReadChunks(buf: array<byte>, ghost t: Table, offset: nat, ghost len: nat, length: nat)
      returns (off: nat)
      requires MetaOK(meta, handle) && t == TableOf(kv.data, handle)
      requires WellChunked(t, meta.fileChunkSize, meta.fileTotalSize)
      requires offset + len <= OFF_MAX
      requires length == ClampedLength(meta.fileTotalSize, offset, len) > 0
      requires ReadExtent(meta.fileTotalSize, offset, len, meta.fileChunkSize) <= buf.Length
      modifies buf
      ensures offset <= off
      ensures off - offset == ReadExtent(meta.fileTotalSize, offset, len, meta.fileChunkSize)
      ensures ReadSoFar(t, meta.fileChunkSize, offset, buf[..off - offset])
      ensures buf[off - offset..] == old(buf[off - offset..])
    {
      hide Print, ByteAt, Base, WellChunked, ReadExtent, TruncDiv, ToSigned64, ToUnsigned64, ReadSoFar;
      var size, c := meta.fileTotalSize, meta.fileChunkSize;
      ReadLoopRange(size, offset, len, c);
      var chunk := TruncDiv(offset, c);
      var last := TruncDiv(offset + ToSigned64(length - 1), c);
      ghost var first, extent := chunk, ReadExtent(size, offset, len, c);
      var end := offset + length;
      off := offset;
      ReadNothing(t, c, offset, buf[..0]);
      while chunk <= last
        invariant first <= chunk
        invariant offset <= off <= offset + extent
        invariant off < Base(chunk, c) + c
        invariant offset <= size ==> chunk <= last + 1 && (off == end || Base(chunk, c) <= off)
        invariant offset > size ==> chunk <= first + 1
        invariant chunk <= last ==> Base(chunk, c) <= off < offset + extent
        invariant chunk > last && last >= first ==> off == offset + extent
        invariant ReadSoFar(t, c, offset, buf[..off - offset])
        invariant buf[off - offset..] == old(buf[off - offset..])
        decreases last - chunk
      {
        assert offset > size ==> chunk == first;
        ghost var was := buf[off - offset..];
        ghost var off0 := off;
        off := ReadChunk(buf, t, offset, off, end, chunk);
        assert buf[off - offset..] == was[off - off0..];
        BaseNext(chunk, c);
        chunk := chunk + 1;
        if chunk <= last { BaseMonotone(chunk, last, c); }
      }
    }
  }

  /** What a read sees: the tiered copy if the data was evicted, the stored bytes otherwise. */
  function Visible(m: Meta, stored: Str, source: Option<Str>): Str
  {
    if m.evictionState == DataEvicted && source.Some? then source.value else stored
  }

  function StateAfterHold(m: Meta, source: Option<Str>): EvictionState
  {
    if m.evictionState == DataEvicted && source.None? then DataEvicted else Resident
  }

  lemma ReadNothing(t: Table, c: nat, offset: nat, out: Str)
    requires c > 0 && out == []
    ensures ReadSoFar(t, c, offset, out)
  {
  }

  /** Storing the inode with another eviction state changes nothing else. */
  lemma StatePut(d: Contents, d': Contents, h: nat, state: EvictionState)
    requires FileOK(d, h) && d' == d[Print(InodeKey(h)) := Inode(MetaOf(d, h).(evictionState := state))]
    ensures FileOK(d', h) && MetaOf(d', h) == MetaOf(d, h).(evictionState := state)
    ensures Raw(d', h) == Raw(d, h) && SameElsewhere(d, d', h)
  {
    hide Print, ByteAt, Base, WellChunked;
    InodePut(d, d, d', h, MetaOf(d, h).(evictionState := state));
  }

  lemma MetaInRange(d: Contents, h: nat)
    requires FileOK(d, h)
    ensures MetaOK(MetaOf(d, h), h)
  {
    hide Print, WellChunked, ChunksOnly;
  }

  /** Where the bytes of a file lie: chunk `k`, stored under the printed handle and number, holds the
      bytes from `k` times the chunk size on, and everything not stored is zero. */
  lemma ChunkHolds(d: Contents, h: nat, k: nat, j: nat, i: nat)
    requires FileOK(d, h) && j < MetaOf(d, h).fileChunkSize
    requires i == k * MetaOf(d, h).fileChunkSize + j < MetaOf(d, h).fileTotalSize
    ensures var key := Print(SubKey(h, k));
            Raw(d, h)[i] == if key in d && d[key].Data? && j < |d[key].bytes| then d[key].bytes[j] else 0
  {
    hide Print, WellChunked, ByteAt;
    ByteInChunk(TableOf(d, h), MetaOf(d, h).fileChunkSize, k, i);
    StoredChunk(d, h, k);
  }

  lemma StoredChunk(d: Contents, h: nat, k: nat)
    ensures BytesAt(d, Print(SubKey(h, k))) == Chunk(TableOf(d, h), k)
  {
    hide Print;
  }

  /** The chunk being shortened, as the truncation loop sees it. */
  lemma BoundaryChunk(d0: Contents, d: Contents, h: nat, c: nat, size: nat, newSize: nat, k: nat, value: Str)
    requires c > 0 && TrimmedTo(TableOf(d0, h), TableOf(d, h), c, size, newSize, k)
    requires value == BytesAt(d, Print(SubKey(h, k)))
    ensures value == Chunk(TableOf(d, h), k)
    ensures k in TableOf(d, h) ==> TableOf(d, h)[k] != []
  {
    hide Print, ByteAt, Base;
  }

  lemma NoChunksAreZeros(d: Contents, h: nat, c: nat, size: nat)
    requires c > 0 && forall k: nat :: k !in TableOf(d, h)
    ensures forall k: nat :: Print(SubKey(h, k)) !in d
    ensures Flatten(TableOf(d, h), c, size) == Zeros(size)
  {
    hide Print;
    forall k: nat ensures Print(SubKey(h, k)) !in d {
      assert k !in TableOf(d, h);
    }
  }
}
