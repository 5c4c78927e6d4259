/** Whole runs over any number of resident files that share one store. */
module FileRuns {
  import opened Bytes
  import opened Store
  import opened FlatFile
  import opened File

  datatype Call = Call(h: nat, op: FileOp)

  /** The reference file system: one flat byte array per inode. */
  type FlatFs = map<nat, Str>

  function FsStep(fs: FlatFs, call: Call): FlatFs
    requires call.h in fs
  {
    fs[call.h := FlatStep(fs[call.h], call.op)]
  }

  ghost predicate CallsKnown(names: set<nat>, calls: seq<Call>)
  {
    forall call | call in calls :: call.h in names
  }

  function FsRun(fs: FlatFs, calls: seq<Call>): (r: FlatFs)
    requires CallsKnown(fs.Keys, calls)
    ensures r.Keys == fs.Keys
  {
    if calls == [] then fs
    else
      var init := calls[..|calls| - 1];
      FsStep(FsRun(fs, init), calls[|calls| - 1])
  }

  /** What a call returns: the bytes of a read, nothing otherwise. */
  function FsOutput(fs: FlatFs, chunkSize: map<nat, nat>, call: Call): Str
    requires call.h in fs && call.h in chunkSize && chunkSize[call.h] > 0
  {
    if call.op.Read? then FlatRead(fs[call.h], call.op.off, call.op.len, chunkSize[call.h]) else []
  }

  /** The operations a run performs on one inode. */
  function OpsOf(h: nat, calls: seq<Call>): seq<FileOp>
  {
    if calls == [] then []
    else
      var last := calls[|calls| - 1];
      OpsOf(h, calls[..|calls| - 1]) + (if last.h == h then [last.op] else [])
  }

  /** In a run over many files, each file ends as if it had been alone. */
  lemma {:induction false} FilesAreIndependent(fs: FlatFs, calls: seq<Call>, h: nat)
    requires CallsKnown(fs.Keys, calls) && h in fs
    ensures FsRun(fs, calls)[h] == FlatRun(fs[h], OpsOf(h, calls))
  {
    hide FlatStep, FlatRun;
    if calls == [] {
      RunNothing(fs[h]);
    } else {
      var init, last := calls[..|calls| - 1], calls[|calls| - 1];
      FilesAreIndependent(fs, init, h);
      if last.h == h {
        RunLast(fs[h], OpsOf(h, init), last.op);
      } else {
        assert OpsOf(h, calls) == OpsOf(h, init);
      }
    }
  }

  lemma RunLast(s: Str, ops: seq<FileOp>, op: FileOp)
    ensures FlatRun(s, ops + [op]) == FlatStep(FlatRun(s, ops), op)
  {
    hide FlatStep;
    assert (ops + [op])[..|ops|] == ops;
  }

  /** No call of the list writes byte `i` of file `h` or cuts it off. */
  ghost predicate AllSpare(calls: seq<Call>, h: nat, i: nat)
  {
    forall call | call in calls && call.h == h :: Spares(call.op, i)
  }

  /** Over any run, a byte that no call writes or cuts off keeps its value. */
  lemma {:induction false} FsKeepsByte(fs: FlatFs, calls: seq<Call>, h: nat, i: nat)
    requires CallsKnown(fs.Keys, calls) && h in fs && i < |fs[h]| && AllSpare(calls, h, i)
    ensures i < |FsRun(fs, calls)[h]| && FsRun(fs, calls)[h][i] == fs[h][i]
  {
    if calls != [] {
      var n := |calls| - 1;
      assert calls[n] in calls;
      FsKeepsByte(fs, calls[..n], h, i);
      hide FlatStep;
      StepBytes(FsRun(fs, calls[..n])[h], calls[n].op);
    }
  }

  lemma {:induction false} FsRunInTwo(fs: FlatFs, a: seq<Call>, b: seq<Call>)
    requires CallsKnown(fs.Keys, a) && CallsKnown(fs.Keys, b)
    ensures CallsKnown(fs.Keys, a + b) && FsRun(fs, a + b) == FsRun(FsRun(fs, a), b)
    decreases |b|
  {
    hide FsStep;
    if b == [] {
      assert a + b == a;
    } else {
      var n := |b| - 1;
      assert (a + b)[..|a| + n] == a + b[..n];
      FsRunInTwo(fs, a, b[..n]);
    }
  }

  /** Over any run, a byte holds what was last written to it, if it was not cut off since. */
  lemma FsLastWriteWins(fs: FlatFs, before: seq<Call>, h: nat, off: nat, buf: Str, after: seq<Call>, i: nat)
    requires CallsKnown(fs.Keys, before) && CallsKnown(fs.Keys, after) && h in fs
    requires off <= i < off + |buf| && AllSpare(after, h, i)
    ensures var calls := before + [Call(h, Write(off, buf))] + after;
            && CallsKnown(fs.Keys, calls)
            && i < |FsRun(fs, calls)[h]| && FsRun(fs, calls)[h][i] == buf[i - off]
  {
    hide FlatStep;
    var call := Call(h, Write(off, buf));
    var start := FsRun(fs, before);
    FsRunInTwo(fs, before, [call]);
    FsRunInTwo(fs, before + [call], after);
    assert [call][..0] == [];
    assert FsRun(start, [call]) == FsStep(start, call);
    var mid := FsRun(fs, before + [call]);
    StepBytes(start[h], call.op);
    assert mid[h][off + (i - off)] == buf[i - off];
    FsKeepsByte(mid, after, h, i);
  }

  /** Every file is loaded and resident, and no two objects share an inode. */
  ghost predicate Loaded(kv: KVStore, files: map<nat, LogFSFile>)
    reads kv, files.Values
  {
    forall h | h in files ::
      && files[h].kv == kv && files[h].handle == h && files[h].Valid()
      && files[h].meta.evictionState == Resident
  }

  ghost function View(kv: KVStore, files: map<nat, LogFSFile>): (fs: FlatFs)
    requires Loaded(kv, files)
    ensures fs.Keys == files.Keys
    reads kv, files.Values
  {
    map h | h in files :: files[h].Bytes()
  }

  ghost function ChunkSizes(kv: KVStore, files: map<nat, LogFSFile>): (m: map<nat, nat>)
    requires Loaded(kv, files)
    ensures m.Keys == files.Keys && forall h | h in m :: m[h] > 0
    reads kv, files.Values
  {
    map h | h in files :: files[h].meta.fileChunkSize
  }

  /** The C++ argument ranges: offsets and lengths that an `off_t` can hold. */
  predicate InRange(op: FileOp)
  {
    match op
    case Write(off, buf) => off + |buf| <= OFF_MAX
    case SetSize(n) => n <= OFF_MAX
    case Read(off, len) => off + len <= OFF_MAX
  }

  /** A write or resize of a file, resident or evicted, as the chunk store sees it. */
  method DoChange(f: LogFSFile, op: FileOp)
    requires f.Valid() && InRange(op) && !op.Read?
    modifies f, f.kv
    ensures f.Valid() && f.meta == old(f.meta).(fileTotalSize := f.meta.fileTotalSize)
    ensures f.Bytes() == FlatStep(old(f.Bytes()), op)
    ensures SameElsewhere(old(f.kv.data), f.kv.data, f.handle)
  {
    hide Keys.Print, Chunks.ByteAt, Chunks.Base, Chunks.WellChunked, FlatWrite, Resize, Raw;
    match op {
      case Write(off, buf) =>
        var _, _ := f.Write(off, buf, true);
      case SetSize(n) =>
        var _ := f.SetSize(n);
    }
  }

  /** One call on one resident file is one step of the flat reference. */
  method DoOp(f: LogFSFile, op: FileOp) returns (out: Str)
    requires f.Valid() && f.meta.evictionState == Resident && InRange(op)
    modifies f, f.kv
    ensures f.Valid() && f.meta.evictionState == Resident
    ensures f.meta.fileChunkSize == old(f.meta.fileChunkSize)
    ensures f.Bytes() == FlatStep(old(f.Bytes()), op)
    ensures out == if op.Read? then FlatRead(old(f.Bytes()), op.off, op.len, f.meta.fileChunkSize)
                   else []
    ensures SameElsewhere(old(f.kv.data), f.kv.data, f.handle)
  {
    hide Keys.Print, Chunks.ByteAt, Chunks.Base, Chunks.WellChunked, FlatWrite, Resize, FlatRead, Raw;
    out := [];
    if op.Read? {
      var extent := ReadExtent(f.meta.fileTotalSize, op.off, op.len, f.meta.fileChunkSize);
      var buf := new byte[extent];
      var _, n := f.Read(op.off, op.len, buf, None, _ => 0);
      out := buf[..n];
    } else {
      DoChange(f, op);
    }
  }

  /** The same, seen from the whole file system: every other file is untouched. */
  method DoCall(kv: KVStore, files: map<nat, LogFSFile>, call: Call) returns (out: Str)
    requires Loaded(kv, files) && call.h in files && InRange(call.op)
    modifies kv, files.Values
    ensures Loaded(kv, files)
    ensures View(kv, files) == FsStep(old(View(kv, files)), call)
    ensures ChunkSizes(kv, files) == old(ChunkSizes(kv, files))
    ensures out == FsOutput(old(View(kv, files)), ChunkSizes(kv, files), call)
  {
    hide Keys.Print, Chunks.ByteAt, Chunks.Base, Chunks.WellChunked, FlatStep, FlatRead, FileOK,
         Raw, InRange, SameElsewhere;
    ghost var d0 := kv.data;
    ghost var view0 := View(kv, files);
    var f := files[call.h];
    out := DoOp(f, call.op);
    forall h | h in files && h != call.h
      ensures files[h].Valid() && files[h].Bytes() == view0[h]
    {
      OtherFileKept(d0, kv.data, call.h, h);
    }
  }

  /** The outputs of a run are those of the reference file system. */
  ghost predicate Answers(fs: FlatFs, sizes: map<nat, nat>, calls: seq<Call>, outs: seq<Str>)
    requires CallsKnown(fs.Keys, calls)
    requires fs.Keys <= sizes.Keys && forall h | h in sizes :: sizes[h] > 0
  {
    && |outs| == |calls|
    && (calls != [] ==>
          var n := |calls| - 1;
          && Answers(fs, sizes, calls[..n], outs[..n])
          && outs[n] == FsOutput(FsRun(fs, calls[..n]), sizes, calls[n]))
  }

  /** What the answers say: each read up to end of file returned the bytes that the calls before it
      had left, as many as were asked for or as there were. */
  lemma {:induction false} AnswersAreBytes(fs: FlatFs, sizes: map<nat, nat>, calls: seq<Call>, outs: seq<Str>, n: nat)
    requires CallsKnown(fs.Keys, calls)
    requires fs.Keys <= sizes.Keys && forall h | h in sizes :: sizes[h] > 0
    requires Answers(fs, sizes, calls, outs) && n < |calls| && calls[n].op.Read?
    ensures |outs| == |calls| && CallsKnown(fs.Keys, calls[..n])
    ensures var Call(h, Read(off, len)) := calls[n];
            var s := FsRun(fs, calls[..n])[h];
            off <= |s| ==>
              && |outs[n]| == (if off + len <= |s| then len else |s| - off)
              && forall i | 0 <= i < |outs[n]| :: outs[n][i] == s[off + i]
    decreases |calls|
  {
    hide FlatRead, FsRun;
    var m := |calls| - 1;
    assert forall call | call in calls[..n] :: call in calls;
    if n == m {
      var Call(h, Read(off, len)) := calls[n];
      var s := FsRun(fs, calls[..n])[h];
      if off <= |s| { ReadDelivers(s, off, len, sizes[h]); }
    } else {
      AnswersAreBytes(fs, sizes, calls[..m], outs[..m], n);
      assert calls[..m][..n] == calls[..n];
    }
  }

  lemma AnswerOneMore(fs: FlatFs, sizes: map<nat, nat>, calls: seq<Call>, outs: seq<Str>, call: Call)
    requires CallsKnown(fs.Keys, calls) && call.h in fs
    requires fs.Keys <= sizes.Keys && forall h | h in sizes :: sizes[h] > 0
    requires Answers(fs, sizes, calls, outs)
    ensures FsRun(fs, calls + [call]) == FsStep(FsRun(fs, calls), call)
    ensures Answers(fs, sizes, calls + [call], outs + [FsOutput(FsRun(fs, calls), sizes, call)])
  {
    hide FsStep, FsOutput;
    assert (calls + [call])[..|calls|] == calls;
    var out := FsOutput(FsRun(fs, calls), sizes, call);
    assert (outs + [out])[..|outs|] == outs;
  }

  /** Any sequence of `write`, `SetSize` and `read` calls over any number of files: the chunk
      store behaves as one flat byte array per inode, in every output and in the final state. */
  method RunCalls(kv: KVStore, files: map<nat, LogFSFile>, calls: seq<Call>) returns (outs: seq<Str>)
    requires Loaded(kv, files)
    requires CallsKnown(files.Keys, calls) && forall call | call in calls :: InRange(call.op)
    modifies kv, files.Values
    ensures Loaded(kv, files)
    ensures View(kv, files) == FsRun(old(View(kv, files)), calls)
    ensures Answers(old(View(kv, files)), old(ChunkSizes(kv, files)), calls, outs)
  {
    hide FsStep, FsOutput, Loaded, View, ChunkSizes, InRange, FsRun;
    ghost var view0, sizes := View(kv, files), ChunkSizes(kv, files);
    outs := [];
    RunStart(view0);
    ghost var done: seq<Call> := [];
    for n := 0 to |calls|
      invariant done == calls[..n]
      invariant Loaded(kv, files)
      invariant ChunkSizes(kv, files) == sizes
      invariant View(kv, files) == FsRun(view0, done)
      invariant Answers(view0, sizes, done, outs)
    {
      var out := DoCall(kv, files, calls[n]);
      AnswerOneMore(view0, sizes, done, outs, calls[n]);
      done := done + [calls[n]];
      outs := outs + [out];
    }
    assert done == calls;
  }

  lemma RunStart(fs: FlatFs)
    ensures FsRun(fs, []) == fs
  {
  }
}
