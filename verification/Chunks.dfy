/** How sparse, variable-length chunks represent one flat byte array. */
module Chunks {
  import opened Bytes

  /** The chunks of one file, by chunk number. */
  type Table = imap<nat, Str>

  /** File offset of the first byte of chunk `k`. */
  function Base(k: int, c: nat): int
  {
    k * c
  }

  lemma BaseNext(k: int, c: nat)
    ensures Base(k + 1, c) == Base(k, c) + c
  {
  }

  lemma BaseMonotone(j: int, k: int, c: nat)
    requires j <= k
    ensures Base(j, c) <= Base(k, c)
  {
    MulMonotone(j, k, c);
  }

  lemma BaseOfByte(i: nat, c: nat)
    requires c > 0
    ensures Base(i / c, c) <= i < Base(i / c, c) + c
    ensures i % c == i - Base(i / c, c)
  {
    DivModLaw(i, c);
  }

  lemma ByteOfBase(i: nat, c: nat, k: nat)
    requires c > 0 && Base(k, c) <= i < Base(k, c) + c
    ensures i / c == k && i % c == i - Base(k, c)
  {
    DivModUnique(i, c, k, i - k * c);
  }

  ghost function Chunk(t: Table, k: nat): Str
  {
    if k in t then t[k] else []
  }

  /** Byte `i` of the file: a missing chunk and the missing tail of a short chunk are zeros. */
  ghost function ByteAt(t: Table, c: nat, i: nat): byte
    requires c > 0
  {
    var chunk := Chunk(t, i / c);
    if i % c < |chunk| then chunk[i % c] else 0
  }

  ghost function Flatten(t: Table, c: nat, size: nat): (s: Str)
    requires c > 0
    ensures |s| == size
    ensures forall i :: 0 <= i < size ==> s[i] == ByteAt(t, c, i)
  {
    seq(size, i requires 0 <= i < size => ByteAt(t, c, i))
  }

  /** The chunk invariant: stored chunks are non-empty, at most `c` long, and hold no byte at or
      past `limit`. */
  ghost predicate WellChunked(t: Table, c: nat, limit: nat)
  {
    forall k: nat | k in t :: 0 < |t[k]| <= c && Base(k, c) + |t[k]| <= limit
  }

  /** `resize` (only if too short) followed by `replace`. */
  function Overlay(value: Str, at: nat, piece: Str): (r: Str)
    ensures |r| == Max(|value|, at + |piece|)
    ensures forall j :: 0 <= j < |r| ==>
      r[j] == if at <= j < at + |piece| then piece[j - at] else if j < |value| then value[j] else 0
  {
    var long := if at + |piece| > |value| then Resize(value, at + |piece|) else value;
    long[..at] + piece + long[at + |piece|..]
  }

  lemma ByteBeyondLimit(t: Table, c: nat, limit: nat, i: nat)
    requires c > 0 && WellChunked(t, c, limit) && limit <= i
    ensures ByteAt(t, c, i) == 0
  {
    hide Base;
    BaseOfByte(i, c);
  }

  lemma OtherBytesKept(t: Table, t': Table, c: nat, k: nat, i: nat)
    requires c > 0 && !(Base(k, c) <= i < Base(k, c) + c)
    requires forall j: nat | j != k :: Chunk(t', j) == Chunk(t, j)
    ensures ByteAt(t', c, i) == ByteAt(t, c, i)
  {
    hide Base;
    BaseOfByte(i, c);
  }

  lemma ByteInChunk(t: Table, c: nat, k: nat, i: nat)
    requires c > 0 && Base(k, c) <= i < Base(k, c) + c
    ensures ByteAt(t, c, i) ==
              if i - Base(k, c) < |Chunk(t, k)| then Chunk(t, k)[i - Base(k, c)] else 0
  {
    hide Base;
    ByteOfBase(i, c, k);
  }

  /** Putting an overlaid chunk changes exactly the bytes of `piece`, provided the overlay
      started from the old chunk or covers the whole chunk. */
  lemma PutChunkByte(t: Table, t': Table, c: nat, k: nat, value: Str, at: nat, piece: Str, i: nat)
    requires c > 0 && at + |piece| <= c
    requires value == Chunk(t, k) || (value == [] && at == 0 && |piece| == c)
    requires t' == t[k := Overlay(value, at, piece)]
    ensures var from := Base(k, c) + at;
            ByteAt(t', c, i) ==
              if from <= i < from + |piece| then piece[i - from] else ByteAt(t, c, i)
  {
    hide ByteAt, Base;
    if Base(k, c) <= i < Base(k, c) + c {
      ByteInChunk(t, c, k, i);
      ByteInChunk(t', c, k, i);
    } else {
      OtherBytesKept(t, t', c, k, i);
    }
  }

  lemma PutChunkWellChunked(t: Table, t': Table, c: nat, limit: nat, limit': nat, k: nat, value: Str)
    requires WellChunked(t, c, limit) && 0 < |value| <= c
    requires limit <= limit' && Base(k, c) + |value| <= limit'
    requires t' == t[k := value]
    ensures WellChunked(t', c, limit')
  {
    hide Base;
  }

  /** Part-way through writing `buf` at `offset`: everything up to `off` is in `t`, everything
      else is as it was in `t0`. */
  ghost predicate WrittenTo(t0: Table, t: Table, c: nat, size: nat, offset: nat, buf: Str, off: nat)
    requires c > 0
  {
    && offset <= off <= offset + |buf|
    && WellChunked(t, c, Max(size, off))
    && forall i: nat :: ByteAt(t, c, i) ==
         if offset <= i < off then buf[i - offset] else ByteAt(t0, c, i)
  }

  lemma WriteStart(t: Table, c: nat, size: nat, offset: nat, buf: Str)
    requires c > 0 && WellChunked(t, c, size)
    ensures WrittenTo(t, t, c, size, offset, buf, offset)
  {
    hide ByteAt, Base;
  }

  /** Skipping the read of the old chunk is harmless: a chunk starting at end of file has no
      bytes yet, because nothing is ever stored at or past the file size. */
  lemma SkippedReadIsHarmless(t: Table, c: nat, size: nat, off: nat, k: nat)
    requires WellChunked(t, c, Max(size, off)) && off == size && off == Base(k, c)
    ensures Chunk(t, k) == []
  {
    hide Base;
  }

  /** The overlay of one iteration, byte by byte. */
  lemma WriteStepByte(t0: Table, t: Table, t': Table, c: nat, offset: nat, buf: Str,
                      off: nat, off': nat, k: nat, value: Str, i: nat)
    requires c > 0 && offset <= off < off' <= offset + |buf|
    requires ByteAt(t, c, i) == if offset <= i < off then buf[i - offset] else ByteAt(t0, c, i)
    requires Base(k, c) <= off && off' <= Base(k, c) + c
    requires value == Chunk(t, k) || (value == [] && off == Base(k, c) && off' == off + c)
    requires t' == t[k := Overlay(value, off - Base(k, c), buf[off - offset..off' - offset])]
    ensures ByteAt(t', c, i) == if offset <= i < off' then buf[i - offset] else ByteAt(t0, c, i)
  {
    hide ByteAt, Base, Overlay;
    PutChunkByte(t, t', c, k, value, off - Base(k, c), buf[off - offset..off' - offset], i);
  }

  lemma WriteStepWellChunked(t: Table, t': Table, c: nat, size: nat,
                             off: nat, off': nat, k: nat, value: Str, piece: Str)
    requires WellChunked(t, c, Max(size, off)) && |piece| == off' - off
    requires Base(k, c) <= off < off' <= Base(k, c) + c
    requires value == Chunk(t, k) || value == []
    requires t' == t[k := Overlay(value, off - Base(k, c), piece)]
    ensures WellChunked(t', c, Max(size, off'))
  {
    hide Base;
    PutChunkWellChunked(t, t', c, Max(size, off), Max(size, off'), k,
                        Overlay(value, off - Base(k, c), piece));
  }

  /** One iteration of the write loop, whichever way the old chunk was (or was not) fetched. */
  lemma WriteStep(t0: Table, t: Table, t': Table, c: nat, size: nat,
                  offset: nat, buf: Str, off: nat, off': nat, k: nat, value: Str)
    requires c > 0 && WrittenTo(t0, t, c, size, offset, buf, off)
    requires Base(k, c) <= off < off' <= Min(offset + |buf|, Base(k, c) + c)
    requires || value == Chunk(t, k)
             || (value == [] && off == Base(k, c) && (off' == off + c || off == size))
    requires t' == t[k := Overlay(value, off - Base(k, c), buf[off - offset..off' - offset])]
    ensures WrittenTo(t0, t', c, size, offset, buf, off')
  {
    hide ByteAt, Base, Overlay, WellChunked, Chunk;
    if value == [] && off == size && off == Base(k, c) {
      SkippedReadIsHarmless(t, c, size, off, k);
    }
    WriteStepWellChunked(t, t', c, size, off, off', k, value, buf[off - offset..off' - offset]);
    forall i: nat
      ensures ByteAt(t', c, i) == (if offset <= i < off' then buf[i - offset] else ByteAt(t0, c, i))
    {
      WriteStepByte(t0, t, t', c, offset, buf, off, off', k, value, i);
    }
  }

  /** Cutting chunk `k` to its first `at` bytes, or dropping it (`at` is 0), zeroes the rest. */
  lemma CutChunk(t: Table, t': Table, c: nat, limit: nat, k: nat, at: nat)
    requires c > 0 && WellChunked(t, c, limit)
    requires forall j: nat | j != k :: (j in t' <==> j in t) && (j in t ==> t'[j] == t[j])
    requires Chunk(t', k) == Chunk(t, k)[..Min(at, |Chunk(t, k)|)]
    requires k in t' ==> t'[k] != []
    ensures WellChunked(t', c, limit)
    ensures forall i: nat ::
              ByteAt(t', c, i) == if Base(k, c) + at <= i < Base(k, c) + c then 0 else ByteAt(t, c, i)
  {
    hide ByteAt, Base;
    forall i: nat
      ensures ByteAt(t', c, i) == if Base(k, c) + at <= i < Base(k, c) + c then 0 else ByteAt(t, c, i)
    {
      if Base(k, c) <= i < Base(k, c) + c {
        ByteInChunk(t, c, k, i);
        ByteInChunk(t', c, k, i);
      } else {
        OtherBytesKept(t, t', c, k, i);
      }
    }
  }

  /** Part-way through cutting a file of `size` bytes down to `newSize`: chunks before `k` are
      done, and no byte below `newSize` has changed. */
  ghost predicate TrimmedTo(t0: Table, t: Table, c: nat, size: nat, newSize: nat, k: nat)
    requires c > 0
  {
    && WellChunked(t, c, size)
    && (forall j: nat | j in t && j < k :: Base(j, c) + |t[j]| <= newSize)
    && (forall i: nat | i < newSize :: ByteAt(t, c, i) == ByteAt(t0, c, i))
  }

  lemma TrimStart(t: Table, c: nat, size: nat, newSize: nat, k: nat)
    requires c > 0 && WellChunked(t, c, size) && Base(k, c) <= newSize
    ensures TrimmedTo(t, t, c, size, newSize, k)
  {
    hide ByteAt, Base;
    forall j: nat | j in t && j < k
      ensures Base(j, c) + |t[j]| <= newSize
    {
      BaseNext(j, c);
      BaseMonotone(j + 1, k, c);
    }
  }

  /** One iteration of the truncation loop: shorten the boundary chunk, drop the others. */
  lemma TrimStep(t0: Table, t: Table, t': Table, c: nat, size: nat, newSize: nat, k: nat, at: nat)
    requires c > 0 && TrimmedTo(t0, t, c, size, newSize, k)
    requires newSize <= Base(k, c) + at && (at == 0 || Base(k, c) + at <= newSize)
    requires forall j: nat | j != k :: (j in t' <==> j in t) && (j in t ==> t'[j] == t[j])
    requires Chunk(t', k) == Chunk(t, k)[..Min(at, |Chunk(t, k)|)]
    requires k in t' ==> t'[k] != []
    ensures TrimmedTo(t0, t', c, size, newSize, k + 1)
  {
    hide ByteAt, Base;
    CutChunk(t, t', c, size, k, at);
  }

  lemma TrimDone(t0: Table, t: Table, c: nat, size: nat, newSize: nat, k: nat)
    requires c > 0 && newSize <= size && TrimmedTo(t0, t, c, size, newSize, k) && size <= Base(k, c)
    ensures WellChunked(t, c, newSize)
    ensures forall i: nat | i < newSize :: ByteAt(t, c, i) == ByteAt(t0, c, i)
  {
    hide ByteAt, Base;
    forall j: nat | j in t
      ensures Base(j, c) + |t[j]| <= newSize
    {
      if j >= k { BaseMonotone(k, j, c); }
    }
  }

  lemma GrowLimit(t: Table, c: nat, limit: nat, limit': nat)
    requires WellChunked(t, c, limit) && limit <= limit'
    ensures WellChunked(t, c, limit')
  {
    hide Base;
  }

  /** A file cut to nothing has no chunks at all. */
  lemma EmptyHasNoChunks(t: Table, c: nat)
    requires WellChunked(t, c, 0)
    ensures forall k: nat :: k !in t
  {
    forall k: nat ensures k !in t {
      assert Base(k, c) >= 0;
    }
  }

  /** The chunk loops run from the chunk of the first byte to the chunk of the last one. */
  lemma ChunkRange(offset: nat, len: nat, c: nat)
    requires c > 0
    ensures var first, last := TruncDiv(offset, c), TruncDiv(offset + len - 1, c);
            && 0 <= first
            && Base(first, c) <= offset < Base(first, c) + c
            && (len > 0 ==> first <= last && Base(last, c) < offset + len <= Base(last + 1, c))
            && (len == 0 ==> last <= first)
  {
    DivModLaw(offset, c);
    if offset + len > 0 {
      DivModLaw(offset + len - 1, c);
      var q, l := offset / c, (offset + len - 1) / c;
      BaseNext(l, c);
      BaseNext(q, c);
      if len > 0 {
        if q > l { BaseMonotone(l + 1, q, c); }
      } else {
        if l > q { BaseMonotone(q + 1, l, c); }
      }
    }
  }
}
