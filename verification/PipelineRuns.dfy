/** When every run of the threads leaves an archive from which every file can be restored. */
module PipelineRuns {
  import opened Bytes
  import opened BlockFormat
  import opened BlockOutput
  import opened CtrMode
  import opened ArchiveIndex
  import opened Pipeline
  import opened PipelineInvariant
  import opened PipelineStorage
  import opened PipelineResult
  import opened PipelineSizes

  // ---------- The writer's exit ----------

  lemma {:induction false} NothingCollected(c: Config, files: seq<FileState>, chunk: seq<Buffered>)
    requires WellFormed(c) && forall i :: 0 <= i < |chunk| ==> BufferGood(c, files, chunk[i])
    ensures Sum(chunk) == 0 <==> chunk == []
  {
    hide Restores;
    if chunk != [] {
      var b := chunk[|chunk| - 1];
      assert BufferGood(c, files, b);
      RestoresSize(c, b.handle.file, Info(files, b.handle.file, b.handle.slot), b.encrypted);
    }
  }

  lemma StoredBuffers(c: Config, s: State)
    requires WellFormed(c) && Stored(c, s.files, s.chunk, s.disk.parts)
    ensures forall i :: 0 <= i < |s.chunk| ==> BufferGood(c, s.files, s.chunk[i])
  {
    hide BufferGood;
  }

  /** When all is finished, the writer leaves data behind exactly if it holds a multiple of 2^32
      bytes, other than none: its counter has 32 bits. */
  lemma WriterExitsEmpty(c: Config, s: State)
    requires WellFormed(c) && Invariant(c, s) && s.phase.AllFinished? && Enabled(c, s, ExitWriter)
    ensures s.chunk == [] <==> Sum(s.chunk) < U32
  {
    hide BufferGood, Conserved, Working, Stored, Sum;
    StoredBuffers(c, s);
    NothingCollected(c, s.files, s.chunk);
  }

  /** A writer leaves only at the end, with nothing that its counter sees. */
  ghost predicate ExitedLate(s: State)
  {
    s.writerExited ==> (s.phase.AllFinished? || s.phase.Closed?) && Sum(s.chunk) % U32 == 0
  }

  lemma ExitedLateKept(c: Config, s: State, a: Action)
    requires WellFormed(c) && Invariant(c, s) && Enabled(c, s, a) && ExitedLate(s) && c.chunkSize > 0
    ensures ExitedLate(Apply(c, s, a))
  {
    hide Conserved, Working, Stored, WriteBlocks, AnyStale, Blocks, ReaderAgrees;
    match a
    case PushBlock(w) => assert !s.workers[w].Exited?;
    case ExitWriter =>
    case OpenPart =>
    case NextFile =>
    case PushJob =>
    case FinishReading =>
    case TakeJob(w) =>
    case Compress(w, _, _) =>
    case Exit(w) =>
    case FinishChunks =>
    case Close =>
    case WriteChunk =>
  }

  lemma {:induction false} ExitsLate(c: Config, run: seq<Action>)
    requires WellFormed(c) && c.chunkSize > 0 && After(c, run).Some?
    ensures ExitedLate(After(c, run).value)
  {
    hide Invariant, Enabled, Apply, Sum;
    if run != [] {
      var n := |run| - 1;
      ExitsLate(c, run[..n]);
      InvariantHolds(c, run[..n]);
      ExitedLateKept(c, After(c, run[..n]).value, run[n]);
    }
  }

  lemma {:induction false} ClosedHasExited(c: Config, run: seq<Action>)
    requires After(c, run).Some? && After(c, run).value.phase.Closed?
    ensures After(c, run).value.writerExited
  {
    var s, a := After(c, run[..|run| - 1]).value, run[|run| - 1];
    hide Apply, WriteBlocks, After;
    ClosedByClose(c, s, a);
  }

  lemma ClosedByClose(c: Config, s: State, a: Action)
    requires Enabled(c, s, a) && Apply(c, s, a).phase.Closed?
    ensures Apply(c, s, a).writerExited
  {
    hide WriteBlocks, IsBlock, AnyStale;
  }

  /** At the end, every file can be restored exactly if nothing is left in the chunk. */
  lemma RestoredExactly(c: Config, s: State)
    requires WellFormed(c) && Invariant(c, s) && (s.phase.AllFinished? || s.phase.Closed?)
    ensures AllRestored(c, s) <==> s.chunk == []
  {
    if s.chunk == [] {
      WrittenIsRestored(c, s);
    } else {
      StoredBuffers(c, s);
      hide Conserved, Working, Stored, Counted, Restores, OnDisk;
      var h := s.chunk[0].handle;
      assert BufferGood(c, s.files, s.chunk[0]);
      assert !FileRestored(c, s, h.file);
    }
  }

  /** A finished run with a chunk size has left behind a multiple of 2^32 bytes.  Every file can be
      restored exactly if that is none. */
  lemma FinishedRunExactly(c: Config, run: seq<Action>)
    requires WellFormed(c) && c.chunkSize > 0 && After(c, run).Some? && After(c, run).value.phase.Closed?
    ensures var s := After(c, run).value;
            Sum(s.chunk) % U32 == 0 && (AllRestored(c, s) <==> Sum(s.chunk) < U32)
  {
    hide Invariant, AllRestored, After, Sum, BufferGood, Stored;
    var s := After(c, run).value;
    ExitsLate(c, run);
    InvariantHolds(c, run);
    ClosedHasExited(c, run);
    RestoredExactly(c, s);
    InvariantBuffers(c, s);
    NothingCollected(c, s.files, s.chunk);
  }

  lemma InvariantBuffers(c: Config, s: State)
    requires WellFormed(c) && Invariant(c, s)
    ensures forall i :: 0 <= i < |s.chunk| ==> BufferGood(c, s.files, s.chunk[i])
  {
    hide Shape, Conserved, Working, Counted, Stored;
    StoredBuffers(c, s);
  }

  // ---------- Pointers into vectors ----------

  /** A vector has moved once when it got its first block, and again only when it has more blocks
      than its first allocation holds. */
  ghost predicate VectorGood(c: Config, v: FileState)
  {
    && |v.slots| <= v.capacity
    && (v.generation == 0 <==> v.slots == []) && (v.generation == 0 <==> v.capacity == 0)
    && (v.generation == 1 ==> v.capacity == c.grow(0))
    && (v.generation >= 2 ==> |v.slots| > c.grow(0))
  }

  /** A pointer was good once; the one to a file's first block was taken when the vector had moved once. */
  ghost predicate HandleGood(files: seq<FileState>, h: Handle)
  {
    && Has(files, h.file, h.slot) && 1 <= h.generation <= files[h.file].generation
    && (h.slot == 0 ==> h.generation == 1)
  }

  ghost predicate Vectors(c: Config, files: seq<FileState>, chunk: seq<Buffered>)
  {
    && (forall f :: 0 <= f < |files| ==> VectorGood(c, files[f]))
    && (forall i :: 0 <= i < |chunk| ==> HandleGood(files, chunk[i].handle))
  }

  lemma VectorsByPush(c: Config, files: seq<FileState>, chunk: seq<Buffered>, f: nat, info: BlockInfo, b: Buffered)
    requires WellFormed(c) && Vectors(c, files, chunk) && f < |files|
    requires b.handle == Handle(f, |files[f].slots|, Append(c, files[f], info).generation)
    ensures Vectors(c, files[f := Append(c, files[f], info)], chunk + [b])
  {
    assert VectorGood(c, files[f]);
    var files', chunk' := files[f := Append(c, files[f], info)], chunk + [b];
    assert VectorGood(c, files'[f]);
    forall i | 0 <= i < |chunk'| ensures HandleGood(files', chunk'[i].handle) {
      assert i < |chunk| ==> HandleGood(files, chunk[i].handle);
    }
  }

  lemma {:induction false} VectorsByWrite(c: Config, files: seq<FileState>, disk: Disk, chunk: seq<Buffered>)
    requires !AnyStale(files, chunk) && disk.parts != []
    requires forall f :: 0 <= f < |files| ==> VectorGood(c, files[f])
    ensures forall f :: 0 <= f < |WriteBlocks(c, files, disk, chunk).0| ==>
        VectorGood(c, WriteBlocks(c, files, disk, chunk).0[f])
    decreases chunk
  {
    hide AnyStale;
    if chunk != [] {
      WriteKeepsHandles(c, files, disk, chunk);
      var (files', disk') := WriteBlock(c, files, disk, chunk[0]);
      forall f | 0 <= f < |files'| ensures VectorGood(c, files'[f]) {
        assert VectorGood(c, files[f]);
      }
      VectorsByWrite(c, files', disk', chunk[1..]);
    }
  }

  lemma VectorsByFile(c: Config, files: seq<FileState>, chunk: seq<Buffered>)
    requires Vectors(c, files, chunk)
    ensures Vectors(c, files + [FileState([], 0, 0)], chunk)
  {
    var files' := files + [FileState([], 0, 0)];
    forall i | 0 <= i < |chunk| ensures HandleGood(files', chunk[i].handle) {
      assert HandleGood(files, chunk[i].handle);
    }
  }

  lemma VectorsKept(c: Config, s: State, a: Action)
    requires WellFormed(c) && Vectors(c, s.files, s.chunk) && Enabled(c, s, a)
    ensures Vectors(c, Apply(c, s, a).files, Apply(c, s, a).chunk)
  {
    hide WriteBlocks, AnyStale, IsBlock, VectorGood, HandleGood;
    match a
    case NextFile => VectorsByFile(c, s.files, s.chunk);
    case PushBlock(w) =>
      var f, info := s.workers[w].file, s.workers[w].info;
      VectorsByPush(c, s.files, s.chunk, f, info, Buffered(Handle(f, |s.files[f].slots|,
          Append(c, s.files[f], info).generation), s.workers[w].encrypted));
    case WriteChunk =>
      if !AnyStale(s.files, s.chunk) {
        VectorsByWrite(c, s.files, s.disk, s.chunk);
      }
    case OpenPart =>
    case PushJob =>
    case FinishReading =>
    case TakeJob(w) =>
    case Compress(w, _, _) =>
    case Exit(w) =>
    case FinishChunks =>
    case Close =>
    case ExitWriter =>
  }

  lemma {:induction false} VectorsHold(c: Config, run: seq<Action>)
    requires WellFormed(c) && After(c, run).Some?
    ensures Vectors(c, After(c, run).value.files, After(c, run).value.chunk)
  {
    hide Vectors, Enabled, Apply;
    if run == [] {
      NoVectors(c);
    } else {
      VectorsHold(c, run[..|run| - 1]);
      VectorsKept(c, After(c, run[..|run| - 1]).value, run[|run| - 1]);
    }
  }

  lemma NoVectors(c: Config)
    ensures Vectors(c, [], [])
  {
  }

  // ---------- How many blocks there are ----------

  lemma {:induction false} FileIdsSize(f: nat, slots: seq<Slot>)
    ensures |FileIds(f, slots)| == |slots|
  {
    if slots != [] { FileIdsSize(f, slots[..|slots| - 1]); }
  }

  lemma {:induction false} FirstIdsSize(f: nat, n: nat)
    ensures |FirstIds(f, n)| == n
  {
    if n > 0 { FirstIdsSize(f, n - 1); }
  }

  /** All blocks of the archive. */
  ghost function TotalBlocks(c: Config): nat
    requires WellFormed(c)
  {
    |AllIds(c, |c.files|)|
  }

  lemma FewerIds(a: multiset<Id>, b: multiset<Id>)
    requires forall f: nat, k: nat :: a[(f, k)] <= b[(f, k)]
    ensures a <= b && |a| <= |b|
  {
    forall x: Id ensures a[x] <= b[x] {
      assert a[(x.0, x.1)] <= b[(x.0, x.1)];
    }
    assert b == a + (b - a);
  }

  lemma PartOfAll(c: Config, p: Phase, f: nat, k: nat)
    requires WellFormed(c) && ReaderAgrees(c, p)
    ensures ReadIds(c, p)[(f, k)] <= AllIds(c, |c.files|)[(f, k)]
  {
    hide Blocks, Split, AllIds, FirstIds;
    AllIdsCount(c, |c.files|, f, k);
    if p.Reading? && p.next >= 1 {
      AllIdsCount(c, p.next - 1, f, k);
      FirstIdsCount(p.next - 1, p.index, f, k);
    }
  }

  lemma SomeOfAll(c: Config, s: State, f: nat, k: nat)
    requires WellFormed(c) && Invariant(c, s)
    ensures SlotIds(s.files)[(f, k)] <= AllIds(c, |c.files|)[(f, k)]
  {
    PartOfAll(c, s.phase, f, k);
    hide Shape, Working, Stored, Counted, ReadIds, AllIds, SlotIds, JobIds, WorkerIds;
    assert (JobIds(s.queue) + WorkerIds(s.workers) + SlotIds(s.files))[(f, k)] >= SlotIds(s.files)[(f, k)];
  }

  /** A file's metadata never has more blocks than the file. */
  lemma SlotsBounded(c: Config, s: State, f: nat)
    requires WellFormed(c) && Invariant(c, s) && f < |s.files| <= |c.files|
    ensures |s.files[f].slots| <= |Blocks(c, f)|
  {
    hide Invariant, AllIds, SlotIds, FileIds, FirstIds, Blocks;
    var n := |Blocks(c, f)|;
    forall g: nat, k: nat ensures FileIds(f, s.files[f].slots)[(g, k)] <= FirstIds(f, n)[(g, k)] {
      SomeOfAll(c, s, g, k);
      SlotIdsCount(s.files, g, k);
      AllIdsCount(c, |c.files|, g, k);
      FirstIdsCount(f, n, g, k);
      if g != f { FileIdsCount(f, s.files[f].slots, g, k); }
    }
    FewerIds(FileIds(f, s.files[f].slots), FirstIds(f, n));
    FileIdsSize(f, s.files[f].slots);
    FirstIdsSize(f, n);
  }

  /** What has been collected is part of the archive. */
  lemma ChunkBounded(c: Config, s: State)
    requires WellFormed(c) && Invariant(c, s)
    ensures |s.chunk| <= TotalBlocks(c)
  {
    forall f: nat, k: nat ensures SlotIds(s.files)[(f, k)] <= AllIds(c, |c.files|)[(f, k)] {
      SomeOfAll(c, s, f, k);
    }
    hide Conserved, Working, Stored, AllIds, SlotIds;
    FewerIds(SlotIds(s.files), AllIds(c, |c.files|));
  }

  // ---------- Undefined behaviour ----------

  /** Every file has at most as many blocks as the first allocation of its vector holds. */
  ghost predicate FilesFit(c: Config)
    requires WellFormed(c)
  {
    forall f :: 0 <= f < |c.files| ==> |Blocks(c, f)| <= c.grow(0)
  }

  lemma NoneStale(c: Config, s: State)
    requires WellFormed(c) && FilesFit(c) && Invariant(c, s) && Vectors(c, s.files, s.chunk)
    ensures !AnyStale(s.files, s.chunk)
  {
    hide Invariant, Blocks;
    InvariantFiles(c, s);
    forall i | 0 <= i < |s.chunk| ensures !Stale(s.files, s.chunk[i].handle) {
      var h := s.chunk[i].handle;
      assert HandleGood(s.files, h);
      assert VectorGood(c, s.files[h.file]);
      SlotsBounded(c, s, h.file);
    }
  }

  lemma InvariantFiles(c: Config, s: State)
    requires WellFormed(c) && Invariant(c, s)
    ensures |s.files| <= |c.files|
  {
    hide Conserved, Working, Stored, Counted, Blocks;
  }

  lemma NothingToCollect(c: Config, s: State)
    requires WellFormed(c) && TotalBlocks(c) == 0 && Invariant(c, s)
    ensures s.chunk == [] && !AnyStale(s.files, s.chunk)
  {
    hide Invariant, TotalBlocks;
    ChunkBounded(c, s);
  }

  /** No run becomes undefined. */
  lemma {:induction false} NeverUndefined(c: Config, run: seq<Action>)
    requires WellFormed(c) && (FilesFit(c) || TotalBlocks(c) == 0) && After(c, run).Some?
    ensures !After(c, run).value.undefined
  {
    hide Invariant, Vectors, Enabled, Apply, FilesFit, TotalBlocks, AnyStale;
    if run != [] {
      var run', a := run[..|run| - 1], run[|run| - 1];
      var s := After(c, run').value;
      NeverUndefined(c, run');
      InvariantHolds(c, run');
      VectorsHold(c, run');
      if TotalBlocks(c) == 0 { NothingToCollect(c, s); } else { NoneStale(c, s); }
      StepDefined(c, s, a);
    }
  }

  lemma StepDefined(c: Config, s: State, a: Action)
    requires Enabled(c, s, a) && !AnyStale(s.files, s.chunk)
    ensures !Apply(c, s, a).undefined
  {
    hide WriteBlocks, IsBlock, AnyStale;
  }

  /** A pointer to the first block of a file with more blocks than the first allocation holds. */
  lemma FirstIsStale(c: Config, s: State, f: nat)
    requires WellFormed(c) && Vectors(c, s.files, s.chunk) && f < |s.files| && |s.files[f].slots| > c.grow(0)
    requires InChunk(s.chunk, f, 0)
    ensures AnyStale(s.files, s.chunk)
  {
    var i :| 0 <= i < |s.chunk| && s.chunk[i].handle.file == f && s.chunk[i].handle.slot == 0;
    assert HandleGood(s.files, s.chunk[i].handle) && VectorGood(c, s.files[f]);
    assert Stale(s.files, s.chunk[i].handle);
  }

  // ---------- Getting on without the writer ----------

  function Rank(p: Phase): nat
  {
    match p
    case Starting => 3
    case Reading(_, _, _) => 2
    case JobsFinished => 1
    case _ => 0
  }

  function FilesLeft(c: Config, p: Phase): nat
  {
    if p.Reading? && p.next <= |c.files| then |c.files| - p.next else 0
  }

  function BytesLeft(p: Phase): nat
  {
    if p.Reading? then |p.rest| else 0
  }

  function Stage(w: Worker): nat
  {
    match w
    case Compressing(_) => 3
    case Finished(_, _, _) => 2
    case Idle => 1
    case Exited => 0
  }

  function Stages(ws: seq<Worker>): nat
  {
    if ws == [] then 0 else Stages(ws[..|ws| - 1]) + Stage(ws[|ws| - 1])
  }

  lemma {:induction false} StagesUpdate(ws: seq<Worker>, w: nat, x: Worker)
    requires w < |ws|
    ensures Stages(ws[w := x]) + Stage(ws[w]) == Stages(ws) + Stage(x)
  {
    var n := |ws| - 1;
    if w < n {
      StagesUpdate(ws[..n], w, x);
      assert ws[w := x][..n] == ws[..n][w := x];
    } else {
      assert ws[w := x][..n] == ws[..n];
    }
  }

  /** There is less left to do. */
  ghost predicate Less(c: Config, s': State, s: State)
  {
    || Rank(s'.phase) < Rank(s.phase)
    || (Rank(s'.phase) == Rank(s.phase) &&
        (|| FilesLeft(c, s'.phase) < FilesLeft(c, s.phase)
         || (FilesLeft(c, s'.phase) == FilesLeft(c, s.phase) &&
             (|| BytesLeft(s'.phase) < BytesLeft(s.phase)
              || (BytesLeft(s'.phase) == BytesLeft(s.phase) &&
                  (|| |s'.queue| < |s.queue|
                   || (|s'.queue| == |s.queue| && Stages(s'.workers) < Stages(s.workers))))))))
  }

  /** A step of the main thread or a worker. */
  predicate NotWriter(a: Action)
  {
    !a.WriteChunk? && !a.ExitWriter? && !a.Close?
  }

  lemma WorkerAdvances(c: Config, s: State, w: nat) returns (a: Action)
    requires WellFormed(c) && Shape(c, s) && Working(c, |s.files|, s.queue, s.workers)
    requires !s.undefined && s.phase.JobsFinished? && w < |s.workers| && !s.workers[w].Exited?
    ensures NotWriter(a) && Enabled(c, s, a) && Less(c, Apply(c, s, a), s)
  {
    hide IsBlock, Blocks, ReaderAgrees, Restores, JobGood, CryptCTR, Stages, Shape;
    assert WorkerGood(c, |s.files|, s.workers[w]);
    match s.workers[w]
    case Idle =>
      if s.queue != [] {
        a := TakeJob(w);
      } else {
        a := Exit(w);
        StagesUpdate(s.workers, w, Exited);
      }
    case Compressing(job) =>
      a := Compress(w, seq(KEYSIZE, _ => 0), seq(IVSIZE, _ => 0));
      StagesUpdate(s.workers, w, Apply(c, s, a).workers[w]);
    case Finished(_, _, _) =>
      a := PushBlock(w);
      StagesUpdate(s.workers, w, Idle);
    case Exited =>
  }

  /** Until all is finished, the main thread or a worker can make a step: nothing depends on the
      writer, and there is no deadlock. */
  lemma Advances(c: Config, s: State) returns (a: Action)
    requires WellFormed(c) && Invariant(c, s) && !s.undefined && Rank(s.phase) > 0
    ensures NotWriter(a) && Enabled(c, s, a) && Less(c, Apply(c, s, a), s)
  {
    hide IsBlock, Conserved, Working, Stored, Counted, Blocks, Split, WriteBlocks, Stages;
    match s.phase
    case Starting => a := OpenPart;
    case Reading(next, rest, index) =>
      a := if rest != [] then PushJob else if next < |c.files| then NextFile else FinishReading;
    case JobsFinished =>
      if w :| 0 <= w < |s.workers| && !s.workers[w].Exited? {
        a := WorkerAdvances(c, s, w);
      } else {
        a := FinishChunks;
      }
    case AllFinished =>
    case Closed =>
  }

  ghost predicate NoneSaved(files: seq<FileState>)
  {
    forall f, k :: Has(files, f, k) ==> !Saved(files, f, k)
  }

  lemma NotWriterSavesNothing(c: Config, s: State, a: Action)
    requires Enabled(c, s, a) && NotWriter(a)
    ensures var s' := Apply(c, s, a);
            && !s'.undefined && s'.writerExited == s.writerExited && !s'.phase.Closed?
            && (NoneSaved(s.files) ==> NoneSaved(s'.files))
  {
    hide IsBlock, CryptCTR, WriteBlocks, Compresses;
    var s' := Apply(c, s, a);
    if NoneSaved(s.files) && (a.NextFile? || a.PushBlock?) {
      forall f, k | Has(s'.files, f, k) ensures !Saved(s'.files, f, k) {
        assert Has(s.files, f, k) ==> !Saved(s.files, f, k);
      }
    }
  }

  /** The chunk holds the data of everything in the metadata. */
  ghost predicate AllCollected(s: State)
  {
    Sum(s.chunk) == SlotSizes(s.files)
  }

  lemma NotWriterCollectsAll(c: Config, run: seq<Action>, s: State, a: Action)
    requires WellFormed(c) && After(c, run) == Some(s) && Enabled(c, s, a) && NotWriter(a)
    ensures AllCollected(s) ==> AllCollected(Apply(c, s, a))
  {
    hide Invariant, Weighed, After, WriteBlocks, SlotSizes, Sum, Compresses;
    InvariantHolds(c, run);
    WeighedHolds(c, run);
    match a
    case NextFile => NewFileSize(s.files);
    case PushBlock(w) =>
      EncryptedSize(c, s, w);
      WeighedByPush(c, s, w);
    case OpenPart =>
    case PushJob =>
    case FinishReading =>
    case TakeJob(w) =>
    case Compress(w, _, _) =>
    case Exit(w) =>
    case FinishChunks =>
    case _ =>
  }

  lemma OneMore(c: Config, run: seq<Action>, a: Action)
    requires After(c, run).Some? && Enabled(c, After(c, run).value, a)
    ensures After(c, run + [a]) == Some(Apply(c, After(c, run).value, a))
  {
    hide Enabled, Apply;
    assert (run + [a])[..|run|] == run;
  }

  /** Any run can be continued, without the writer, until all jobs are finished. */
  lemma {:induction false} Drain(c: Config, run: seq<Action>) returns (run': seq<Action>)
    requires WellFormed(c) && After(c, run).Some? && !After(c, run).value.undefined
        && !After(c, run).value.phase.Closed?
    ensures run <= run' && After(c, run').Some?
    ensures var s, s' := After(c, run).value, After(c, run').value;
            && s'.phase.AllFinished? && !s'.undefined && s'.writerExited == s.writerExited
            && (NoneSaved(s.files) ==> NoneSaved(s'.files))
            && (AllCollected(s) ==> AllCollected(s'))
    decreases Rank(After(c, run).value.phase), FilesLeft(c, After(c, run).value.phase),
        BytesLeft(After(c, run).value.phase),
              |After(c, run).value.queue|, Stages(After(c, run).value.workers)
  {
    hide Invariant, Enabled, Apply, NoneSaved, AllCollected, After, Stages;
    var s := After(c, run).value;
    if Rank(s.phase) == 0 { return run; }
    InvariantHolds(c, run);
    var a := Advances(c, s);
    OneMore(c, run, a);
    NotWriterSavesNothing(c, s, a);
    NotWriterCollectsAll(c, run, s, a);
    run' := Drain(c, run + [a]);
  }

  // ---------- Exactly when the archive is right ----------

  /** Nothing undefined has happened, and when all is done every file can be restored. */
  ghost predicate Correct(c: Config, s: State)
    requires WellFormed(c)
  {
    !s.undefined && (s.phase.Closed? ==> AllRestored(c, s))
  }

  ghost predicate AlwaysCorrect(c: Config)
    requires WellFormed(c)
  {
    forall run :: After(c, run).Some? ==> Correct(c, After(c, run).value)
  }

  lemma SlotsComplete(c: Config, s: State, f: nat)
    requires WellFormed(c) && Invariant(c, s) && s.phase.AllFinished? && f < |c.files|
    ensures |s.files| == |c.files| && |s.files[f].slots| == |Blocks(c, f)|
  {
    hide Invariant, AllIds, SlotIds, Blocks, Ordered;
    NothingUnderway(c, s);
    FileInOrder(c, s, f);
    SortKeeps(Infos(s.files[f].slots));
    assert |multiset(SortBlocks(Infos(s.files[f].slots)))| == |SortBlocks(Infos(s.files[f].slots))|;
    assert |multiset(Infos(s.files[f].slots))| == |s.files[f].slots|;
  }

  /** With no chunk size, the writer may leave before the first part file is open. */
  lemma WriterMayLeave(c: Config, f: nat) returns (run: seq<Action>)
    requires WellFormed(c) && c.chunkSize == 0 && f < |c.files| && |Blocks(c, f)| > 0
    ensures After(c, run).Some? && !Correct(c, After(c, run).value)
    ensures After(c, run).value.phase.Closed? && NoneSaved(After(c, run).value.files)
  {
    hide Invariant, Enabled, Apply, Blocks, OnDisk, After;
    WriterLeaves(c);
    run := Drain(c, [ExitWriter]);
    var s := After(c, run).value;
    InvariantHolds(c, run);
    SlotsComplete(c, s, f);
    assert Has(s.files, f, 0) && !Saved(s.files, f, 0);
    CloseIsPossible(c, s);
    OneMore(c, run, Close);
    run := run + [Close];
    assert !FileRestored(c, s.(phase := Closed), f);
  }

  lemma WriterLeaves(c: Config)
    requires WellFormed(c) && c.chunkSize == 0
    ensures After(c, [ExitWriter]) == Some(Init(c).(writerExited := true))
  {
    hide Apply;
    assert After(c, []) == Some(Init(c));
    assert Apply(c, Init(c), ExitWriter) == Init(c).(writerExited := true) by { ExitIs(c, Init(c)); }
    OneMore(c, [], ExitWriter);
    assert [] + [ExitWriter] == [ExitWriter];
  }

  lemma ExitIs(c: Config, s: State)
    requires Enabled(c, s, ExitWriter)
    ensures Apply(c, s, ExitWriter) == s.(writerExited := true)
  {
  }

  lemma CloseIsPossible(c: Config, s: State)
    requires s.phase.AllFinished? && s.writerExited && !s.undefined
    ensures Enabled(c, s, Close) && Apply(c, s, Close) == s.(phase := Closed)
  {
  }

  /** All jobs are done, and the writer has not done anything. */
  lemma NothingWritten(c: Config) returns (run: seq<Action>)
    requires WellFormed(c)
    ensures After(c, run).Some?
    ensures var s := After(c, run).value;
            && s.phase.AllFinished? && !s.undefined && !s.writerExited && NoneSaved(s.files)
            && Invariant(c, s) && Vectors(c, s.files, s.chunk) && Sum(s.chunk) == TotalSize(c)
  {
    hide Invariant, Enabled, Apply, After, Vectors, NoneSaved, Weighed, TotalSize, SlotSizes, Sum;
    StartIsClean(c);
    run := Drain(c, []);
    InvariantHolds(c, run);
    VectorsHold(c, run);
    WeighedHolds(c, run);
    AllAccounted(c, After(c, run).value);
  }

  /** If what the writer finds at the end is a multiple of 2^32 bytes, and not none, it is lost. */
  lemma LeavesBehind(c: Config, run: seq<Action>) returns (run': seq<Action>)
    requires WellFormed(c) && After(c, run).Some?
    requires var s := After(c, run).value;
             s.phase.AllFinished? && !s.undefined && !s.writerExited && Sum(s.chunk) > 0 && Sum(s.chunk) % U32 == 0
    ensures After(c, run').Some? && !Correct(c, After(c, run').value)
  {
    hide Invariant, Enabled, Apply, After, AllRestored, Sum;
    var s := After(c, run).value;
    InvariantHolds(c, run);
    ExitIsPossible(c, s);
    OneMore(c, run, ExitWriter);
    CloseIsPossible(c, s.(writerExited := true));
    OneMore(c, run + [ExitWriter], Close);
    run' := run + [ExitWriter] + [Close];
    InvariantHolds(c, run');
    RestoredExactly(c, After(c, run').value);
    EmptySum(s.chunk);
  }

  lemma ExitIsPossible(c: Config, s: State)
    requires WellFormed(c) && Invariant(c, s) && s.phase.AllFinished? && !s.undefined && !s.writerExited
        && Sum(s.chunk) % U32 == 0
    ensures Enabled(c, s, ExitWriter) && Apply(c, s, ExitWriter) == s.(writerExited := true)
  {
    hide Shape, Conserved, Working, Stored;
  }

  lemma EmptySum(chunk: seq<Buffered>)
    ensures Sum(chunk) > 0 ==> chunk != []
  {
  }

  /** When the compressed blocks together are a multiple of 2^32 bytes, all may be lost. */
  lemma CounterMayWrap(c: Config, f: nat) returns (run: seq<Action>)
    requires WellFormed(c) && f < |c.files| && |Blocks(c, f)| > 0 && TotalSize(c) % U32 == 0
    ensures After(c, run).Some? && !Correct(c, After(c, run).value)
  {
    hide Invariant, Blocks, After, Vectors, NoneSaved, TotalSize, Sum, Correct, BufferGood;
    run := NothingWritten(c);
    var s := After(c, run).value;
    FirstCollected(c, s, f);
    InvariantBuffers(c, s);
    NothingCollected(c, s.files, s.chunk);
    run := LeavesBehind(c, run);
  }

  lemma FirstCollected(c: Config, s: State, f: nat)
    requires WellFormed(c) && Invariant(c, s) && s.phase.AllFinished? && NoneSaved(s.files) && f < |c.files|
        && |Blocks(c, f)| > 0
    ensures |s.files| == |c.files| && |s.files[f].slots| == |Blocks(c, f)| && InChunk(s.chunk, f, 0) && s.chunk != []
  {
    hide Invariant, Blocks;
    SlotsComplete(c, s, f);
    assert Has(s.files, f, 0) && !Saved(s.files, f, 0);
    Collected(c, s, f);
  }

  /** When a file's vector must move, the writer may use a pointer into where it was. */
  lemma PointerMayDangle(c: Config, f: nat) returns (run: seq<Action>)
    requires WellFormed(c) && f < |c.files| && |Blocks(c, f)| > c.grow(0)
    ensures After(c, run).Some? && !Correct(c, After(c, run).value)
  {
    hide Invariant, Enabled, Apply, Blocks, After, Vectors, NoneSaved, AnyStale, InChunk, TotalSize, Sum, BufferGood,
        AllRestored;
    run := NothingWritten(c);
    var s := After(c, run).value;
    FirstCollected(c, s, f);
    FirstIsStale(c, s, f);
    InvariantBuffers(c, s);
    NothingCollected(c, s.files, s.chunk);
    if Sum(s.chunk) % U32 == 0 {
      run := LeavesBehind(c, run);
    } else {
      WriteIsUndefined(c, s);
      OneMore(c, run, WriteChunk);
      run := run + [WriteChunk];
    }
  }

  lemma StartIsClean(c: Config)
    ensures After(c, []) == Some(Init(c)) && NoneSaved(Init(c).files) && AllCollected(Init(c))
  {
  }

  lemma Collected(c: Config, s: State, f: nat)
    requires WellFormed(c) && Invariant(c, s) && Has(s.files, f, 0) && !Saved(s.files, f, 0)
    ensures InChunk(s.chunk, f, 0)
  {
    hide Shape, Conserved, Working, Counted, InChunk;
  }

  lemma WriteIsUndefined(c: Config, s: State)
    requires WellFormed(c) && Invariant(c, s) && s.phase.AllFinished? && !s.undefined && !s.writerExited
    requires Sum(s.chunk) % U32 != 0 && AnyStale(s.files, s.chunk)
    ensures Enabled(c, s, WriteChunk) && Apply(c, s, WriteChunk).undefined
  {
    hide Conserved, Working, Stored, Sum, AnyStale, IsBlock;
  }

  // ---------- Runs that come to their end ----------

  /** With nothing stale in the chunk, what the writer finds at the end is written, unless its
      counter does not see it; then the archive is closed. */
  lemma Finish(c: Config, run: seq<Action>) returns (run': seq<Action>)
    requires WellFormed(c) && After(c, run).Some?
    requires var s := After(c, run).value;
             s.phase.AllFinished? && !s.undefined && !s.writerExited && !AnyStale(s.files, s.chunk)
    ensures run <= run' && After(c, run').Some?
    ensures var s, s' := After(c, run).value, After(c, run').value;
            s'.phase.Closed? && !s'.undefined && s'.chunk == if Sum(s.chunk) % U32 == 0 then s.chunk else []
  {
    hide Invariant, Enabled, Apply, After, AnyStale, Sum;
    run' := run;
    InvariantHolds(c, run');
    if Sum(After(c, run).value.chunk) % U32 != 0 {
      WriteIsPossible(c, After(c, run).value);
      OneMore(c, run, WriteChunk);
      run' := run + [WriteChunk];
      InvariantHolds(c, run');
      EmptySum(After(c, run').value.chunk);
    }
    var s := After(c, run').value;
    ExitIsPossible(c, s);
    OneMore(c, run', ExitWriter);
    CloseIsPossible(c, s.(writerExited := true));
    OneMore(c, run' + [ExitWriter], Close);
    run' := run' + [ExitWriter] + [Close];
  }

  lemma WriteIsPossible(c: Config, s: State)
    requires WellFormed(c) && Invariant(c, s) && s.phase.AllFinished? && !s.undefined && !s.writerExited
    requires Sum(s.chunk) % U32 != 0 && !AnyStale(s.files, s.chunk)
    ensures Enabled(c, s, WriteChunk)
    ensures var s' := Apply(c, s, WriteChunk);
            s'.phase.AllFinished? && !s'.undefined && !s'.writerExited && s'.chunk == []
  {
    hide WellFormed, Conserved, Working, Stored, Sum, AnyStale, WriteBlocks;
  }

  /** With a chunk size and no vector that must move, every run can come to its end. */
  lemma RunsEnd(c: Config, run: seq<Action>) returns (run': seq<Action>)
    requires WellFormed(c) && c.chunkSize > 0 && FilesFit(c) && After(c, run).Some?
    ensures run <= run' && After(c, run').Some?
    ensures After(c, run').value.phase.Closed? && !After(c, run').value.undefined
  {
    hide Invariant, Enabled, Apply, After, AnyStale, FilesFit, Vectors, NoneSaved, AllCollected, Sum;
    NeverUndefined(c, run);
    run' := run;
    if !After(c, run).value.phase.Closed? {
      run' := Drain(c, run);
      var s := After(c, run').value;
      InvariantHolds(c, run');
      VectorsHold(c, run');
      NoneStale(c, s);
      if s.writerExited {
        CloseIsPossible(c, s);
        OneMore(c, run', Close);
        run' := run' + [Close];
      } else {
        run' := Finish(c, run');
      }
    }
  }

  /** If no vector must move and the archive is no multiple of 2^32 bytes, some run restores it. */
  lemma SomeRunRestores(c: Config) returns (run: seq<Action>)
    requires WellFormed(c) && FilesFit(c) && TotalSize(c) % U32 != 0
    ensures After(c, run).Some?
    ensures var s := After(c, run).value; s.phase.Closed? && !s.undefined && s.chunk == [] && AllRestored(c, s)
  {
    hide Invariant, Enabled, Apply, After, AnyStale, FilesFit, Vectors, NoneSaved, TotalSize, Sum, AllRestored;
    run := NothingWritten(c);
    NoneStale(c, After(c, run).value);
    run := Finish(c, run);
    InvariantHolds(c, run);
    RestoredExactly(c, After(c, run).value);
  }

  lemma {:induction false} SomeFileHasBlocks(c: Config, n: nat)
    requires WellFormed(c) && n <= |c.files| && |AllIds(c, n)| > 0
    ensures exists f :: 0 <= f < n && |Blocks(c, f)| > 0
  {
    hide Blocks;
    FirstIdsSize(n - 1, |Blocks(c, n - 1)|);
    if |Blocks(c, n - 1)| == 0 {
      SomeFileHasBlocks(c, n - 1);
    }
  }

  /** Every finished run leaves an archive that is right, if nothing can be undefined and no more
      than the counter can tell from nothing is left behind. */
  lemma RunIsCorrect(c: Config, run: seq<Action>)
    requires WellFormed(c) && After(c, run).Some?
    requires TotalBlocks(c) == 0 || (c.chunkSize > 0 && FilesFit(c) && Sum(After(c, run).value.chunk) < U32)
    ensures Correct(c, After(c, run).value)
  {
    hide Invariant, After, TotalBlocks, FilesFit, AllRestored, Sum;
    var s := After(c, run).value;
    NeverUndefined(c, run);
    if s.phase.Closed? {
      if TotalBlocks(c) == 0 {
        InvariantHolds(c, run);
        NothingToCollect(c, s);
        WrittenIsRestored(c, s);
      } else {
        FinishedRunExactly(c, run);
      }
    }
  }

  /** If the archive is right after every run, whatever the threads do, there is nothing to archive,
      or a chunk size is set, no file has more blocks than the first allocation of its vector holds,
      and the compressed blocks together are no multiple of 2^32 bytes. */
  lemma CorrectOnlyIf(c: Config)
    requires WellFormed(c)
    ensures AlwaysCorrect(c) ==> TotalBlocks(c) == 0 || (c.chunkSize > 0 && FilesFit(c) && TotalSize(c) % U32 != 0)
  {
    hide Correct, After, Blocks, AllIds, TotalSize;
    if TotalBlocks(c) > 0 && !(c.chunkSize > 0 && FilesFit(c) && TotalSize(c) % U32 != 0) {
      var run;
      SomeFileHasBlocks(c, |c.files|);
      var f :| 0 <= f < |c.files| && |Blocks(c, f)| > 0;
      if c.chunkSize == 0 {
        run := WriterMayLeave(c, f);
      } else if TotalSize(c) % U32 == 0 {
        run := CounterMayWrap(c, f);
      } else {
        var g :| 0 <= g < |c.files| && |Blocks(c, g)| > c.grow(0);
        run := PointerMayDangle(c, g);
      }
      assert !Correct(c, After(c, run).value);
    }
  }

  /** For archives of less than 2^32 bytes, compressed, that is exactly when it is right. */
  lemma CorrectExactly(c: Config)
    requires WellFormed(c) && TotalSize(c) < U32
    ensures AlwaysCorrect(c) <==> TotalBlocks(c) == 0 || (c.chunkSize > 0 && FilesFit(c))
  {
    hide Correct, After, Blocks, AllIds, TotalSize, Weighed, Sum, FilesFit, TotalBlocks;
    CorrectOnlyIf(c);
    if TotalBlocks(c) == 0 || (c.chunkSize > 0 && FilesFit(c)) {
      forall run | After(c, run).Some? ensures Correct(c, After(c, run).value) {
        WeighedHolds(c, run);
        SumBounded(c, After(c, run).value);
        RunIsCorrect(c, run);
      }
    }
  }
}
