/** How many compressed bytes are where: what is read is queued, with a worker, or in the metadata,
    byte for byte, and what is collected for the writer is part of it. */
module PipelineSizes {
  import opened Bytes
  import opened ArchiveIndex
  import opened Pipeline
  import opened PipelineInvariant
  import opened PipelineStorage

  function JobSize(c: Config, job: Job): nat
  {
    |c.lz(job.data)|
  }

  ghost function JobSizes(c: Config, queue: seq<Job>): nat
  {
    if queue == [] then 0 else JobSize(c, queue[0]) + JobSizes(c, queue[1..])
  }

  function WorkerSize(c: Config, w: Worker): nat
  {
    match w
    case Compressing(job) => JobSize(c, job)
    case Finished(_, info, _) => info.compressedSize
    case _ => 0
  }

  ghost function WorkerSizes(c: Config, ws: seq<Worker>): nat
  {
    if ws == [] then 0 else WorkerSizes(c, ws[..|ws| - 1]) + WorkerSize(c, ws[|ws| - 1])
  }

  ghost function FileSizes(slots: seq<Slot>): nat
  {
    if slots == [] then 0 else FileSizes(slots[..|slots| - 1]) + slots[|slots| - 1].info.compressedSize
  }

  ghost function SlotSizes(files: seq<FileState>): nat
  {
    if files == [] then 0 else SlotSizes(files[..|files| - 1]) + FileSizes(files[|files| - 1].slots)
  }

  /** The first `n` blocks of a file, compressed. */
  ghost function FirstSizes(c: Config, blocks: seq<seq<byte>>, n: nat): nat
    requires n <= |blocks|
  {
    if n == 0 then 0 else FirstSizes(c, blocks, n - 1) + |c.lz(blocks[n - 1])|
  }

  /** All blocks of the first `n` files, compressed. */
  ghost function AllSizes(c: Config, n: nat): nat
    requires WellFormed(c) && n <= |c.files|
  {
    if n == 0 then 0 else AllSizes(c, n - 1) + FirstSizes(c, Blocks(c, n - 1), |Blocks(c, n - 1)|)
  }

  /** The whole archive, compressed. */
  ghost function TotalSize(c: Config): nat
    requires WellFormed(c)
  {
    AllSizes(c, |c.files|)
  }

  ghost function ReadSize(c: Config, p: Phase): nat
    requires WellFormed(c) && ReaderAgrees(c, p)
  {
    match p
    case Starting => 0
    case Reading(next, _, index) =>
      if next == 0 then 0 else AllSizes(c, next - 1) + FirstSizes(c, Blocks(c, next - 1), index)
    case _ => AllSizes(c, |c.files|)
  }

  /** No byte is lost or doubled on its way to the metadata, and what is collected is not more. */
  ghost predicate Weighed(c: Config, s: State)
    requires WellFormed(c)
  {
    && ReaderAgrees(c, s.phase)
    && JobSizes(c, s.queue) + WorkerSizes(c, s.workers) + SlotSizes(s.files) == ReadSize(c, s.phase)
    && Sum(s.chunk) <= SlotSizes(s.files)
  }

  // ---------- Changing one element ----------

  lemma {:induction false} JobSizesAppend(c: Config, queue: seq<Job>, job: Job)
    ensures JobSizes(c, queue + [job]) == JobSizes(c, queue) + JobSize(c, job)
  {
    hide JobSize;
    if queue != [] {
      JobSizesAppend(c, queue[1..], job);
      assert (queue + [job])[1..] == queue[1..] + [job];
    } else {
      assert (queue + [job])[1..] == [];
    }
  }

  lemma {:induction false} WorkerSizesUpdate(c: Config, ws: seq<Worker>, w: nat, x: Worker)
    requires w < |ws|
    ensures WorkerSizes(c, ws[w := x]) + WorkerSize(c, ws[w]) == WorkerSizes(c, ws) + WorkerSize(c, x)
  {
    hide WorkerSize;
    var n := |ws| - 1;
    if w < n {
      WorkerSizesUpdate(c, ws[..n], w, x);
      assert ws[w := x][..n] == ws[..n][w := x];
    } else {
      assert ws[w := x][..n] == ws[..n];
    }
  }

  lemma {:induction false} NobodyCarries(c: Config, ws: seq<Worker>)
    requires forall w :: 0 <= w < |ws| ==> ws[w].Idle? || ws[w].Exited?
    ensures WorkerSizes(c, ws) == 0
  {
    if ws != [] { NobodyCarries(c, ws[..|ws| - 1]); }
  }

  lemma {:induction false} SlotSizesUpdate(files: seq<FileState>, f: nat, v: FileState)
    requires f < |files|
    ensures SlotSizes(files[f := v]) + FileSizes(files[f].slots) == SlotSizes(files) + FileSizes(v.slots)
  {
    hide FileSizes;
    var n := |files| - 1;
    if f < n {
      SlotSizesUpdate(files[..n], f, v);
      assert files[f := v][..n] == files[..n][f := v];
    } else {
      assert files[f := v][..n] == files[..n];
    }
  }

  lemma {:induction false} FileSizesUpdate(slots: seq<Slot>, k: nat, x: Slot)
    requires k < |slots| && x.info.compressedSize == slots[k].info.compressedSize
    ensures FileSizes(slots[k := x]) == FileSizes(slots)
  {
    var n := |slots| - 1;
    if k < n {
      FileSizesUpdate(slots[..n], k, x);
      assert slots[k := x][..n] == slots[..n][k := x];
    } else {
      assert slots[k := x][..n] == slots[..n];
    }
  }

  lemma {:induction false} WriteKeepsSizes(c: Config, files: seq<FileState>, disk: Disk, chunk: seq<Buffered>)
    requires !AnyStale(files, chunk) && disk.parts != []
    ensures SlotSizes(WriteBlocks(c, files, disk, chunk).0) == SlotSizes(files)
    decreases chunk
  {
    hide SlotSizes, FileSizes, AnyStale;
    if chunk != [] {
      WriteKeepsHandles(c, files, disk, chunk);
      var (files', disk') := WriteBlock(c, files, disk, chunk[0]);
      WriteKeepsSizes(c, files', disk', chunk[1..]);
      var f, k := chunk[0].handle.file, chunk[0].handle.slot;
      FileSizesUpdate(files[f].slots, k, files'[f].slots[k]);
      SlotSizesUpdate(files, f, files'[f]);
    }
  }

  // ---------- Every step ----------

  lemma WeighedByNextFile(c: Config, s: State)
    requires WellFormed(c) && Weighed(c, s) && Enabled(c, s, NextFile)
    requires ReaderAgrees(c, Apply(c, s, NextFile).phase)
    ensures Weighed(c, Apply(c, s, NextFile))
  {
    hide Blocks, Split, JobSizes, WorkerSizes, SlotSizes, ReadSize, Sum, ReaderAgrees, Compresses, WriteBlocks,
        AnyStale;
    NewFileSize(s.files);
    NextFileSize(c, s.phase);
  }

  lemma NewFileSize(files: seq<FileState>)
    ensures SlotSizes(files + [FileState([], 0, 0)]) == SlotSizes(files)
  {
    assert (files + [FileState([], 0, 0)])[..|files|] == files;
  }

  lemma NextFileSize(c: Config, p: Phase)
    requires WellFormed(c) && ReaderAgrees(c, p) && p.Reading? && p.rest == [] && p.next < |c.files|
    requires ReaderAgrees(c, Reading(p.next + 1, c.files[p.next], 0))
    ensures ReadSize(c, Reading(p.next + 1, c.files[p.next], 0)) == ReadSize(c, p)
  {
    hide Blocks, Split, FirstSizes, Compresses;
    if p.next >= 1 { NothingLeft(c, p); }
    NoneRead(c, Blocks(c, p.next));
  }

  lemma NoneRead(c: Config, blocks: seq<seq<byte>>)
    ensures FirstSizes(c, blocks, 0) == 0
  {
  }

  lemma WeighedByPushJob(c: Config, s: State)
    requires WellFormed(c) && Weighed(c, s) && Enabled(c, s, PushJob)
    ensures Weighed(c, Apply(c, s, PushJob))
  {
    hide Blocks, Split, JobSizes, WorkerSizes, SlotSizes, AllSizes;
    var s' := Apply(c, s, PushJob);
    NextBlock(c, s.phase);
    var job := s'.queue[|s.queue|];
    JobSizesAppend(c, s.queue, job);
    assert s'.queue == s.queue + [job];
    assert ReadSize(c, s'.phase) == ReadSize(c, s.phase) + JobSize(c, job);
  }

  lemma WeighedByFinish(c: Config, s: State)
    requires WellFormed(c) && Weighed(c, s) && Enabled(c, s, FinishReading)
    ensures Weighed(c, Apply(c, s, FinishReading))
  {
    hide Blocks, Split, JobSizes, WorkerSizes, SlotSizes, FirstSizes;
    if s.phase.next >= 1 { NothingLeft(c, s.phase); }
  }

  lemma WeighedByWorker(c: Config, s: State, a: Action)
    requires WellFormed(c) && Weighed(c, s) && Enabled(c, s, a)
    requires a.TakeJob? || a.Compress? || a.Exit?
    ensures Weighed(c, Apply(c, s, a))
  {
    hide ReadSize, WorkerSizes, SlotSizes, ReaderAgrees;
    WorkerSizesUpdate(c, s.workers, a.w, Apply(c, s, a).workers[a.w]);
  }

  lemma WeighedByPush(c: Config, s: State, w: nat)
    requires WellFormed(c) && Weighed(c, s) && Enabled(c, s, PushBlock(w))
    requires |s.workers[w].encrypted| == s.workers[w].info.compressedSize
    ensures Weighed(c, Apply(c, s, PushBlock(w)))
    ensures Sum(s.chunk) == SlotSizes(s.files) ==>
              Sum(Apply(c, s, PushBlock(w)).chunk) == SlotSizes(Apply(c, s, PushBlock(w)).files)
  {
    hide WellFormed, JobSizes, ReadSize, WorkerSizes, SlotSizes, FileSizes, ReaderAgrees, WriteBlocks, AnyStale, Sum;
    var s' := Apply(c, s, PushBlock(w));
    var f := s.workers[w].file;
    WorkerSizesUpdate(c, s.workers, w, Idle);
    SlotSizesUpdate(s.files, f, s'.files[f]);
    FileSizesPush(s.files[f].slots, s.workers[w].info);
    SumPush(s.chunk, s'.chunk[|s.chunk|]);
  }

  lemma FileSizesPush(slots: seq<Slot>, info: BlockInfo)
    ensures FileSizes(slots + [Slot(info, false)]) == FileSizes(slots) + info.compressedSize
  {
    assert (slots + [Slot(info, false)])[..|slots|] == slots;
  }

  lemma WeighedKept(c: Config, s: State, a: Action)
    requires WellFormed(c) && Invariant(c, s) && Weighed(c, s) && Enabled(c, s, a)
    ensures Weighed(c, Apply(c, s, a))
  {
    hide Invariant, Blocks, Split, JobSizes, WorkerSizes, SlotSizes, WriteBlocks, AnyStale, ReaderAgrees, ReadSize;
    match a
    case NextFile =>
      ReaderStillAgrees(c, s, a);
      WeighedByNextFile(c, s);
    case PushJob => WeighedByPushJob(c, s);
    case FinishReading => WeighedByFinish(c, s);
    case TakeJob(w) => WeighedByWorker(c, s, a);
    case Compress(w, _, _) => WeighedByWorker(c, s, a);
    case Exit(w) => WeighedByWorker(c, s, a);
    case PushBlock(w) =>
      EncryptedSize(c, s, w);
      WeighedByPush(c, s, w);
    case WriteChunk =>
      if !AnyStale(s.files, s.chunk) {
        WriteKeepsSizes(c, s.files, s.disk, s.chunk);
      }
    case OpenPart => NothingYet(c, s);
    case FinishChunks => SamePhaseSize(c, s.phase);
    case Close => SamePhaseSize(c, s.phase);
    case ExitWriter =>
  }

  lemma ReaderStillAgrees(c: Config, s: State, a: Action)
    requires WellFormed(c) && Invariant(c, s) && Enabled(c, s, a)
    ensures ReaderAgrees(c, Apply(c, s, a).phase)
  {
    hide Enabled, Apply, ReaderAgrees;
    InvariantKept(c, s, a);
  }

  lemma EncryptedSize(c: Config, s: State, w: nat)
    requires WellFormed(c) && Invariant(c, s) && Enabled(c, s, PushBlock(w))
    ensures |s.workers[w].encrypted| == s.workers[w].info.compressedSize
  {
    hide Shape, Conserved, Stored, Counted, Restores;
    FinishedSize(c, |s.files|, s.workers[w]);
  }

  lemma NothingYet(c: Config, s: State)
    requires WellFormed(c) && Weighed(c, s) && s.phase.Starting?
    ensures ReaderAgrees(c, Reading(0, [], 0)) && ReadSize(c, Reading(0, [], 0)) == ReadSize(c, s.phase)
  {
  }

  lemma SamePhaseSize(c: Config, p: Phase)
    requires WellFormed(c) && ReaderAgrees(c, p) && (p.JobsFinished? || p.AllFinished?)
    ensures ReaderAgrees(c, AllFinished) && ReaderAgrees(c, Closed)
    ensures ReadSize(c, AllFinished) == ReadSize(c, Closed) == ReadSize(c, p)
  {
  }

  /** Nothing is lost in any run. */
  lemma {:induction false} WeighedHolds(c: Config, run: seq<Action>)
    requires WellFormed(c) && After(c, run).Some?
    ensures Weighed(c, After(c, run).value)
  {
    hide Weighed, Invariant, Enabled, Apply;
    if run == [] {
      InitWeighed(c);
    } else {
      WeighedHolds(c, run[..|run| - 1]);
      InvariantHolds(c, run[..|run| - 1]);
      WeighedKept(c, After(c, run[..|run| - 1]).value, run[|run| - 1]);
    }
  }

  lemma InitWeighed(c: Config)
    requires WellFormed(c)
    ensures Weighed(c, Init(c))
  {
    NobodyCarries(c, Init(c).workers);
  }

  // ---------- The whole archive ----------

  lemma {:induction false} FirstSizesGrow(c: Config, blocks: seq<seq<byte>>, n: nat)
    requires n <= |blocks|
    ensures FirstSizes(c, blocks, n) <= FirstSizes(c, blocks, |blocks|)
    decreases |blocks| - n
  {
    if n < |blocks| { FirstSizesGrow(c, blocks, n + 1); }
  }

  lemma {:induction false} AllSizesGrow(c: Config, n: nat)
    requires WellFormed(c) && n <= |c.files|
    ensures AllSizes(c, n) <= TotalSize(c)
    decreases |c.files| - n
  {
    hide Blocks, FirstSizes;
    if n < |c.files| { AllSizesGrow(c, n + 1); }
  }

  /** Nothing larger than the archive is ever collected. */
  lemma SumBounded(c: Config, s: State)
    requires WellFormed(c) && Weighed(c, s)
    ensures Sum(s.chunk) <= TotalSize(c)
  {
    hide Split;
    var p := s.phase;
    if p.Reading? && p.next >= 1 {
      FirstSizesGrow(c, Blocks(c, p.next - 1), p.index);
      AllSizesGrow(c, p.next);
    }
  }

  /** When all jobs are done, the metadata accounts for the whole archive. */
  lemma AllAccounted(c: Config, s: State)
    requires WellFormed(c) && Invariant(c, s) && Weighed(c, s) && s.phase.AllFinished?
    ensures SlotSizes(s.files) == TotalSize(c)
  {
    hide Conserved, Working, Stored, Counted, AllSizes, SlotSizes;
    NobodyCarries(c, s.workers);
    assert s.workers[0].Exited?;
  }
}
