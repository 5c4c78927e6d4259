/** The reference: a file is one flat, zero-filled byte array. */
module FlatFile {
  import opened Bytes

  /** Old contents, zero-extended up to `off`, overlaid with `b`. */
  function FlatWrite(s: Str, off: nat, b: Str): (r: Str)
    ensures |r| == Max(|s|, off + |b|)
    ensures forall i :: 0 <= i < |r| ==>
      r[i] == if off <= i < off + |b| then b[i - off] else if i < |s| then s[i] else 0
  {
    var padded := Resize(s, Max(|s|, off + |b|));
    padded[..off] + b + padded[off + |b|..]
  }

  /** How many buffer bytes a `read` of `len` bytes at `off` fills, for a file of `size` bytes
      kept in chunks of `c` bytes.  Up to end of file this is the clamped length.  Past end of
      file the clamp subtracts unsigned values and wraps, and the chunk loop still runs when
      `off` lies in the chunk of the last byte: it then zero-fills to the end of that chunk. */
  function ReadExtent(size: nat, off: nat, len: nat, c: nat): nat
    requires c > 0
  {
    if off <= size then Min(len, size - off)
    else if off / c == TruncDiv(size - 1, c) then c - off % c
    else 0
  }

  function FlatRead(s: Str, off: nat, len: nat, c: nat): (r: Str)
    requires c > 0
    ensures |r| == ReadExtent(|s|, off, len, c)
  {
    if off <= |s| then s[off..off + Min(len, |s| - off)]
    else Zeros(ReadExtent(|s|, off, len, c))
  }

  /** Up to end of file a read delivers the bytes asked for, or those that there are. */
  lemma ReadDelivers(s: Str, off: nat, len: nat, c: nat)
    requires c > 0 && off <= |s|
    ensures var r := FlatRead(s, off, len, c);
            && |r| == (if off + len <= |s| then len else |s| - off) && r == s[off..off + |r|]
            && forall i | 0 <= i < |r| :: r[i] == s[off + i]
  {
  }

  /** Past end of file it delivers zeros, up to the end of the chunk, and only if that is the chunk of
      the last byte. */
  lemma ReadPastEnd(s: Str, off: nat, len: nat, c: nat)
    requires c > 0 && off > |s|
    ensures var r := FlatRead(s, off, len, c);
            && (forall i | 0 <= i < |r| :: r[i] == 0)
            && (|s| > 0 ==> |r| == if off / c == (|s| - 1) / c then c - off % c else 0)
  {
  }

  /** The read stays inside the caller's request exactly when it starts at or before end of
      file, or starts in a later chunk than the last byte, or asks for at least the rest of
      that chunk. */
  lemma ReadStaysInRequest(size: nat, off: nat, len: nat, c: nat)
    requires c > 0
    ensures ReadExtent(size, off, len, c) <= len <==>
            (off <= size || off / c != TruncDiv(size - 1, c) || len >= c - off % c)
  {
  }

  /** Reading one byte two past the end of a one-byte file fills six bytes. */
  lemma ReadPastEndOverfills()
    ensures ReadExtent(1, 2, 1, 8) == 6
  {
  }

  datatype FileOp =
    | Write(off: nat, buf: Str)
    | SetSize(size: nat)
    | Read(off: nat, len: nat)

  /** A regular file: the bytes its chunks stand for, and whether they were evicted. */
  datatype FileState = FileState(raw: Str, evicted: bool)

  function FlatStep(s: Str, op: FileOp): Str
  {
    match op
    case Write(off, buf) => FlatWrite(s, off, buf)
    case SetSize(n) => Resize(s, n)
    case Read(_, _) => s
  }

  /** What each operation leaves, byte by byte. */
  lemma StepBytes(s: Str, op: FileOp)
    ensures op.SetSize? ==>
              && |FlatStep(s, op)| == op.size
              && forall i | 0 <= i < op.size :: FlatStep(s, op)[i] == if i < |s| then s[i] else 0
    ensures op.Write? ==>
              && |FlatStep(s, op)| == (if op.off + |op.buf| <= |s| then |s| else op.off + |op.buf|)
              && (forall i | 0 <= i < |op.buf| :: FlatStep(s, op)[op.off + i] == op.buf[i])
              && (forall i | 0 <= i < |FlatStep(s, op)| && !(op.off <= i < op.off + |op.buf|) ::
                    FlatStep(s, op)[i] == if i < |s| then s[i] else 0)
    ensures op.Read? ==> FlatStep(s, op) == s
  {
  }

  /** The changes that leave a file as it was: writing the bytes that are there, and setting the size
      that it has. */
  lemma ChangesNothingExactly(s: Str, op: FileOp)
    ensures op.Write? ==> (FlatStep(s, op) == s <==>
              op.off + |op.buf| <= |s| && s[op.off..op.off + |op.buf|] == op.buf)
    ensures op.SetSize? ==> (FlatStep(s, op) == s <==> op.size == |s|)
  {
    hide FlatWrite;
    if op.Write? && op.off + |op.buf| <= |s| {
      SameBytesExactly(s, op.off, op.buf);
    }
  }

  lemma SameBytesExactly(s: Str, off: nat, b: Str)
    requires off + |b| <= |s|
    ensures FlatWrite(s, off, b) == s <==> s[off..off + |b|] == b
  {
    hide FlatWrite;
    var r := FlatWrite(s, off, b);
    assert r[off..off + |b|] == b;
    if s[off..off + |b|] == b {
      forall i | 0 <= i < |s| ensures r[i] == s[i] {
        if off <= i < off + |b| { assert s[off..off + |b|][i - off] == s[i]; }
      }
      assert r == s;
    }
  }

  function FlatRun(s: Str, ops: seq<FileOp>): Str
  {
    if ops == [] then s else FlatStep(FlatRun(s, ops[..|ops| - 1]), ops[|ops| - 1])
  }

  lemma RunNothing(s: Str)
    ensures FlatRun(s, []) == s
  {
  }

  predicate Avoids(op: FileOp, i: nat)
  {
    op.Write? ==> !(op.off <= i < op.off + |op.buf|)
  }

  /** The operation neither writes byte `i` nor cuts it off. */
  predicate Spares(op: FileOp, i: nat)
  {
    match op
    case Write(off, buf) => !(off <= i < off + |buf|)
    case SetSize(n) => i < n
    case Read(_, _) => true
  }

  /** A byte that no write touches and no resize cuts off keeps its value. */
  lemma {:induction false} RunKeepsByte(s: Str, ops: seq<FileOp>, i: nat)
    requires i < |s| && forall op | op in ops :: Spares(op, i)
    ensures i < |FlatRun(s, ops)| && FlatRun(s, ops)[i] == s[i]
  {
    if ops != [] {
      var n := |ops| - 1;
      assert Spares(ops[n], i);
      RunKeepsByte(s, ops[..n], i);
      hide FlatStep;
      StepBytes(FlatRun(s, ops[..n]), ops[n]);
    }
  }

  lemma {:induction false} RunInTwo(s: Str, a: seq<FileOp>, b: seq<FileOp>)
    ensures FlatRun(s, a + b) == FlatRun(FlatRun(s, a), b)
    decreases |b|
  {
    hide FlatStep;
    if b == [] {
      assert a + b == a;
    } else {
      var n := |b| - 1;
      assert (a + b)[..|a| + n] == a + b[..n];
      RunInTwo(s, a, b[..n]);
    }
  }

  /** A byte holds what was last written to it, if it was not cut off since. */
  lemma LastWriteWins(s: Str, before: seq<FileOp>, off: nat, buf: Str, after: seq<FileOp>, i: nat)
    requires off <= i < off + |buf| && forall op | op in after :: Spares(op, i)
    ensures var r := FlatRun(s, before + [Write(off, buf)] + after);
            i < |r| && r[i] == buf[i - off]
  {
    hide FlatRun, FlatStep;
    var mid := FlatRun(s, before + [Write(off, buf)]);
    RunInTwo(s, before + [Write(off, buf)], after);
    RunInTwo(s, before, [Write(off, buf)]);
    RunOne(FlatRun(s, before), Write(off, buf));
    StepBytes(FlatRun(s, before), Write(off, buf));
    assert mid[off + (i - off)] == buf[i - off];
    RunKeepsByte(mid, after, i);
  }

  lemma RunOne(s: Str, op: FileOp)
    ensures FlatRun(s, [op]) == FlatStep(s, op)
  {
    hide FlatStep;
    assert [op][..0] == [];
  }

  /** A byte beyond the end, or zero, stays so under any run that never writes it: growing a
      file, by `SetSize` or by a far write, only ever reveals zeros. */
  lemma {:induction false} UnwrittenStaysZero(s: Str, ops: seq<FileOp>, i: nat)
    requires i < |s| ==> s[i] == 0
    requires forall op :: op in ops ==> Avoids(op, i)
    ensures i < |FlatRun(s, ops)| ==> FlatRun(s, ops)[i] == 0
  {
    if ops != [] {
      assert Avoids(ops[|ops| - 1], i);
      UnwrittenStaysZero(s, ops[..|ops| - 1], i);
    }
  }

  /** Truncate to `n`, then do anything: every byte from `n` up that no later write touches
      reads as zero. */
  lemma TruncateThenExtendRevealsZeros(s: Str, n: nat, ops: seq<FileOp>, i: nat)
    requires n <= i
    requires forall op :: op in ops ==> Avoids(op, i)
    ensures var r := FlatRun(FlatStep(s, SetSize(n)), ops); i < |r| ==> r[i] == 0
  {
    UnwrittenStaysZero(Resize(s, n), ops, i);
  }
}
