/** What every step of the threads keeps. */
module PipelineInvariant {
  import opened Bytes
  import opened BlockFormat
  import opened BlockOutput
  import opened CtrMode
  import opened ArchiveIndex
  import opened Pipeline

  // ---------- Every block is in exactly one place ----------

  /** A block: its file and its number in the file. */
  type Id = (nat, nat)

  ghost function JobIds(queue: seq<Job>): multiset<Id>
  {
    if queue == [] then multiset{} else multiset{(queue[0].file, queue[0].index)} + JobIds(queue[1..])
  }

  ghost function WorkerId(w: Worker): multiset<Id>
  {
    match w
    case Compressing(job) => multiset{(job.file, job.index)}
    case Finished(file, info, _) => multiset{(file, info.blockIndex)}
    case _ => multiset{}
  }

  ghost function WorkerIds(ws: seq<Worker>): multiset<Id>
  {
    if ws == [] then multiset{} else WorkerIds(ws[..|ws| - 1]) + WorkerId(ws[|ws| - 1])
  }

  ghost function FileIds(f: nat, slots: seq<Slot>): multiset<Id>
  {
    if slots == [] then multiset{}
    else FileIds(f, slots[..|slots| - 1]) + multiset{(f, slots[|slots| - 1].info.blockIndex)}
  }

  ghost function SlotIds(files: seq<FileState>): multiset<Id>
  {
    if files == [] then multiset{}
    else SlotIds(files[..|files| - 1]) + FileIds(|files| - 1, files[|files| - 1].slots)
  }

  /** The first `n` blocks of a file. */
  ghost function FirstIds(f: nat, n: nat): multiset<Id>
  {
    if n == 0 then multiset{} else FirstIds(f, n - 1) + multiset{(f, n - 1)}
  }

  /** All blocks of the first `n` files. */
  ghost function AllIds(c: Config, n: nat): multiset<Id>
    requires WellFormed(c) && n <= |c.files|
  {
    if n == 0 then multiset{} else AllIds(c, n - 1) + FirstIds(n - 1, |Blocks(c, n - 1)|)
  }

  /** All blocks read so far. */
  ghost function ReadIds(c: Config, p: Phase): multiset<Id>
    requires WellFormed(c)
  {
    match p
    case Starting => multiset{}
    case Reading(next, _, index) =>
      if next == 0 || next > |c.files| then multiset{} else AllIds(c, next - 1) + FirstIds(next - 1, index)
    case _ => AllIds(c, |c.files|)
  }

  /** Each block read is in the queue, with a worker, or in the metadata of its file, and nowhere twice. */
  ghost predicate Conserved(c: Config, s: State)
    requires WellFormed(c)
  {
    JobIds(s.queue) + WorkerIds(s.workers) + SlotIds(s.files) == ReadIds(c, s.phase)
  }

  lemma Exchange(a: multiset<Id>, b: multiset<Id>, u: multiset<Id>, v: multiset<Id>, more: multiset<Id>)
    requires a + u == b + v
    ensures (a + more) + u == (b + more) + v
  {
    assert (a + more) + u == (a + u) + more;
    assert (b + more) + v == (b + v) + more;
  }

  lemma Cancel(a: multiset<Id>, b: multiset<Id>, u: multiset<Id>)
    requires a + u == b + u
    ensures a == b
  {
    assert a == (a + u) - u && b == (b + u) - u;
  }

  lemma {:induction false} JobIdsAppend(queue: seq<Job>, job: Job)
    ensures JobIds(queue + [job]) == JobIds(queue) + multiset{(job.file, job.index)}
  {
    if queue != [] {
      JobIdsAppend(queue[1..], job);
      assert (queue + [job])[1..] == queue[1..] + [job];
    } else {
      assert (queue + [job])[1..] == [];
    }
  }

  lemma {:induction false} WorkerIdsUpdate(ws: seq<Worker>, w: nat, x: Worker)
    requires w < |ws|
    ensures WorkerIds(ws[w := x]) + WorkerId(ws[w]) == WorkerIds(ws) + WorkerId(x)
  {
    hide WorkerId;
    var n := |ws| - 1;
    if w < n {
      WorkerIdsUpdate(ws[..n], w, x);
      assert ws[w := x][..n] == ws[..n][w := x];
      Exchange(WorkerIds(ws[..n][w := x]), WorkerIds(ws[..n]), WorkerId(ws[w]), WorkerId(x), WorkerId(ws[n]));
    } else {
      assert ws[w := x][..n] == ws[..n];
    }
  }

  lemma {:induction false} NobodyHolds(ws: seq<Worker>)
    requires forall w :: 0 <= w < |ws| ==> ws[w].Idle? || ws[w].Exited?
    ensures WorkerIds(ws) == multiset{}
  {
    if ws != [] {
      NobodyHolds(ws[..|ws| - 1]);
    }
  }

  lemma {:induction false} SlotIdsUpdate(files: seq<FileState>, f: nat, v: FileState)
    requires f < |files|
    ensures SlotIds(files[f := v]) + FileIds(f, files[f].slots) == SlotIds(files) + FileIds(f, v.slots)
  {
    hide FileIds;
    var n := |files| - 1;
    if f < n {
      SlotIdsUpdate(files[..n], f, v);
      assert files[f := v][..n] == files[..n][f := v];
      Exchange(SlotIds(files[..n][f := v]), SlotIds(files[..n]), FileIds(f, files[f].slots), FileIds(f, v.slots),
          FileIds(n, files[n].slots));
    } else {
      assert files[f := v][..n] == files[..n];
    }
  }

  lemma {:induction false} FileIdsUpdate(f: nat, slots: seq<Slot>, k: nat, x: Slot)
    requires k < |slots| && x.info.blockIndex == slots[k].info.blockIndex
    ensures FileIds(f, slots[k := x]) == FileIds(f, slots)
  {
    var n := |slots| - 1;
    if k < n {
      FileIdsUpdate(f, slots[..n], k, x);
      assert slots[k := x][..n] == slots[..n][k := x];
    } else {
      assert slots[k := x][..n] == slots[..n];
    }
  }

  /** Writing changes no block's place. */
  lemma {:induction false} WriteKeepsIds(c: Config, files: seq<FileState>, disk: Disk, chunk: seq<Buffered>)
    requires !AnyStale(files, chunk) && disk.parts != []
    ensures SlotIds(WriteBlocks(c, files, disk, chunk).0) == SlotIds(files)
    decreases chunk
  {
    hide SlotIds, FileIds, AnyStale;
    if chunk != [] {
      WriteKeepsHandles(c, files, disk, chunk);
      var (files', disk') := WriteBlock(c, files, disk, chunk[0]);
      WriteKeepsIds(c, files', disk', chunk[1..]);
      var f, k := chunk[0].handle.file, chunk[0].handle.slot;
      FileIdsUpdate(f, files[f].slots, k, files'[f].slots[k]);
      SlotIdsUpdate(files, f, files'[f]);
      Cancel(SlotIds(files'), SlotIds(files), FileIds(f, files[f].slots));
    }
  }

  // ---------- The main thread and the others agree ----------

  /** What remains of the file read last is what has not become jobs. */
  ghost predicate ReaderAgrees(c: Config, p: Phase)
    requires WellFormed(c)
  {
    p.Reading? ==>
      && p.next <= |c.files|
      && (if p.next == 0 then p.rest == [] && p.index == 0
          else p.index <= |Blocks(c, p.next - 1)| && Split(p.rest, c.blockSize) == Blocks(c, p.next - 1)[p.index..])
  }

  ghost predicate Shape(c: Config, s: State)
    requires WellFormed(c)
  {
    && |s.workers| == c.threadCount && ReaderAgrees(c, s.phase)
    && |s.files| == (if s.phase.Starting? then 0 else if s.phase.Reading? then s.phase.next else |c.files|)
    && (s.phase.Starting? <==> s.disk.parts == [])
    && (s.phase.Starting? ==> s.queue == [] && s.chunk == [] && forall w :: 0 <= w < |s.workers| ==> s.workers[w].Idle?)
    && (forall w :: 0 <= w < |s.workers| && s.workers[w].Exited? ==> s.queue == [] && !s.phase.Reading?)
    && (s.phase.AllFinished? || s.phase.Closed? ==> forall w :: 0 <= w < |s.workers| ==> s.workers[w].Exited?)
    && (s.disk.parts != [] ==> s.disk.currentPartFileSize == |s.disk.parts[|s.disk.parts| - 1]|)
    && (s.disk.parts == [] ==> s.disk.currentPartFileSize == 0)
  }

  lemma SplitStep(content: seq<byte>, blockSize: nat)
    requires blockSize >= 1 && content != []
    ensures var toRead := Min(blockSize, |content|);
            Split(content, blockSize) == [content[..toRead]] + Split(content[toRead..], blockSize)
  {
  }

  /** The next block of the file. */
  lemma NextBlock(c: Config, p: Phase)
    requires WellFormed(c) && p.Reading? && ReaderAgrees(c, p) && p.rest != [] && p.next >= 1
    ensures var toRead := Min(c.blockSize, |p.rest|);
            && p.index < |Blocks(c, p.next - 1)| && p.rest[..toRead] == Blocks(c, p.next - 1)[p.index]
            && ReaderAgrees(c, Reading(p.next, p.rest[toRead..], p.index + 1))
  {
    hide Split;
    SplitStep(p.rest, c.blockSize);
    var bs := Blocks(c, p.next - 1);
    assert bs[p.index..][0] == bs[p.index] && bs[p.index..][1..] == bs[p.index + 1..];
  }

  lemma NothingLeft(c: Config, p: Phase)
    requires WellFormed(c) && p.Reading? && ReaderAgrees(c, p) && p.rest == [] && p.next >= 1
    ensures p.index == |Blocks(c, p.next - 1)|
  {
    assert Split(p.rest, c.blockSize) == [];
  }

  lemma AllIdle(n: nat)
    ensures WorkerIds(seq(n, _ => Idle)) == multiset{}
  {
    NobodyHolds(seq(n, _ => Idle));
  }

  lemma InitConserved(c: Config)
    requires WellFormed(c)
    ensures Conserved(c, Init(c)) && Shape(c, Init(c))
  {
    AllIdle(c.threadCount);
  }

  /** When nothing is left of a file, all of it has been read. */
  lemma WholeFileRead(c: Config, p: Phase)
    requires WellFormed(c) && p.Reading? && ReaderAgrees(c, p) && p.rest == []
    ensures ReadIds(c, p) == AllIds(c, p.next)
  {
    if p.next >= 1 { NothingLeft(c, p); }
    hide Blocks, FirstIds;
  }

  lemma ShapeOfReader(c: Config, s: State)
    requires WellFormed(c) && Shape(c, s)
    ensures ReaderAgrees(c, s.phase) && (s.phase.Reading? ==> |s.files| == s.phase.next)
  {
    hide ReaderAgrees;
  }

  lemma ConservedByNextFile(c: Config, s: State)
    requires WellFormed(c) && Shape(c, s) && Conserved(c, s) && Enabled(c, s, NextFile)
    ensures Conserved(c, Apply(c, s, NextFile))
  {
    hide Shape, ReaderAgrees, JobIds, WorkerIds, SlotIds, AllIds, Blocks, IsBlock;
    ShapeOfReader(c, s);
    WholeFileRead(c, s.phase);
    NewFileIds(s.files);
    NothingRead(c, s.phase.next, c.files[s.phase.next]);
  }

  lemma NewFileIds(files: seq<FileState>)
    ensures SlotIds(files + [FileState([], 0, 0)]) == SlotIds(files)
  {
    assert (files + [FileState([], 0, 0)])[..|files|] == files;
    assert SlotIds(files + [FileState([], 0, 0)]) == SlotIds(files) + FileIds(|files|, []);
  }

  lemma NothingRead(c: Config, n: nat, content: seq<byte>)
    requires WellFormed(c) && n < |c.files|
    ensures ReadIds(c, Reading(n + 1, content, 0)) == AllIds(c, n)
  {
    hide AllIds;
    assert FirstIds(n, 0) == multiset{};
  }

  lemma ConservedByPushJob(c: Config, s: State)
    requires WellFormed(c) && Shape(c, s) && Conserved(c, s) && Enabled(c, s, PushJob)
    ensures Conserved(c, Apply(c, s, PushJob))
  {
    hide Blocks, Split, JobIds, WorkerIds, SlotIds, AllIds;
    var s' := Apply(c, s, PushJob);
    NextBlock(c, s.phase);
    var job := s'.queue[|s.queue|];
    JobIdsAppend(s.queue, job);
    var id := multiset{(job.file, job.index)};
    assert s'.queue == s.queue + [job];
    assert ReadIds(c, s'.phase) == ReadIds(c, s.phase) + id;
    assert (JobIds(s.queue) + id) + WorkerIds(s.workers) + SlotIds(s.files)
        == (JobIds(s.queue) + WorkerIds(s.workers) + SlotIds(s.files)) + id;
  }

  lemma ConservedByFinish(c: Config, s: State)
    requires WellFormed(c) && Shape(c, s) && Conserved(c, s) && Enabled(c, s, FinishReading)
    ensures Conserved(c, Apply(c, s, FinishReading))
  {
    hide Shape, ReaderAgrees, JobIds, WorkerIds, AllIds, SlotIds, IsBlock;
    ShapeOfReader(c, s);
    WholeFileRead(c, s.phase);
  }

  lemma ConservedByTake(c: Config, s: State, w: nat)
    requires WellFormed(c) && Conserved(c, s) && Enabled(c, s, TakeJob(w))
    ensures Conserved(c, Apply(c, s, TakeJob(w)))
  {
    hide WellFormed, JobIds, ReadIds, WorkerIds, SlotIds, WriteBlocks, AnyStale;
    var s' := Apply(c, s, TakeJob(w));
    var x := s'.workers[w];
    WorkerIdsUpdate(s.workers, w, x);
    Dequeue(s.queue);
    var id := WorkerId(x);
    assert WorkerIds(s'.workers) == WorkerIds(s.workers) + id;
    assert JobIds(s'.queue) + (WorkerIds(s.workers) + id) == (id + JobIds(s'.queue)) + WorkerIds(s.workers);
  }

  /** A worker goes on with the same block, or still has none. */
  lemma ConservedByWorker(c: Config, s: State, a: Action)
    requires WellFormed(c) && Conserved(c, s) && Enabled(c, s, a) && (a.Compress? || a.Exit?)
    ensures Conserved(c, Apply(c, s, a))
  {
    hide WellFormed, JobIds, ReadIds, WorkerIds, SlotIds, WriteBlocks, AnyStale;
    var x := Apply(c, s, a).workers[a.w];
    WorkerIdsUpdate(s.workers, a.w, x);
    Cancel(WorkerIds(s.workers[a.w := x]), WorkerIds(s.workers), WorkerId(x));
  }

  /** The main thread before the first and after the last file, and a writer that leaves. */
  lemma ConservedByOthers(c: Config, s: State, a: Action)
    requires WellFormed(c) && Conserved(c, s) && Enabled(c, s, a)
    requires a.OpenPart? || a.FinishChunks? || a.Close? || a.ExitWriter?
    ensures Conserved(c, Apply(c, s, a))
  {
    hide WellFormed, JobIds, WorkerIds, SlotIds, AllIds, FirstIds, WriteBlocks, AnyStale;
    assert ReadIds(c, Apply(c, s, a).phase) == ReadIds(c, s.phase);
  }

  lemma ConservedByWrite(c: Config, s: State)
    requires WellFormed(c) && Conserved(c, s) && Enabled(c, s, WriteChunk)
    ensures Conserved(c, Apply(c, s, WriteChunk))
  {
    hide WellFormed, JobIds, WorkerIds, SlotIds, ReadIds, WriteBlocks, AnyStale;
    if !AnyStale(s.files, s.chunk) {
      WriteKeepsIds(c, s.files, s.disk, s.chunk);
    }
  }

  lemma Dequeue(queue: seq<Job>)
    requires queue != []
    ensures JobIds(queue) == multiset{(queue[0].file, queue[0].index)} + JobIds(queue[1..])
  {
  }

  lemma ConservedByPush(c: Config, s: State, w: nat)
    requires WellFormed(c) && Conserved(c, s) && Enabled(c, s, PushBlock(w))
    ensures Conserved(c, Apply(c, s, PushBlock(w)))
  {
    hide JobIds, ReadIds, WorkerIds, SlotIds, IsBlock;
    var s' := Apply(c, s, PushBlock(w));
    var f := s.workers[w].file;
    WorkerIdsUpdate(s.workers, w, Idle);
    SlotIdsUpdate(s.files, f, s'.files[f]);
    var id := WorkerId(s.workers[w]);
    assert s'.files[f].slots[..|s.files[f].slots|] == s.files[f].slots;
    assert FileIds(f, s'.files[f].slots) == FileIds(f, s.files[f].slots) + id;
    assert SlotIds(s'.files) + FileIds(f, s.files[f].slots) == (SlotIds(s.files) + id) + FileIds(f, s.files[f].slots);
    Cancel(SlotIds(s'.files), SlotIds(s.files) + id, FileIds(f, s.files[f].slots));
    assert WorkerIds(s'.workers) + id == WorkerIds(s.workers);
    assert JobIds(s.queue) + WorkerIds(s'.workers) + (SlotIds(s.files) + id) == JobIds(s.queue)
        + (WorkerIds(s'.workers) + id) + SlotIds(s.files);
  }

  /** Conservation over every step. */
  lemma ConservedKept(c: Config, s: State, a: Action)
    requires WellFormed(c) && Shape(c, s) && Conserved(c, s) && Enabled(c, s, a)
    ensures Conserved(c, Apply(c, s, a))
  {
    hide WellFormed, Conserved, Shape, Enabled, Apply;
    match a
    case NextFile => ConservedByNextFile(c, s);
    case PushJob => ConservedByPushJob(c, s);
    case FinishReading => ConservedByFinish(c, s);
    case TakeJob(w) => ConservedByTake(c, s, w);
    case Compress(w, _, _) => ConservedByWorker(c, s, a);
    case Exit(w) => ConservedByWorker(c, s, a);
    case PushBlock(w) => ConservedByPush(c, s, w);
    case WriteChunk => ConservedByWrite(c, s);
    case _ => ConservedByOthers(c, s, a);
  }

  // ---------- Shape over every step ----------

  /** Writing keeps the number of files and of their blocks, and m_currentPartFileSize the length
      of the part that is open. */
  lemma {:induction false} WriteKeepsShape(c: Config, files: seq<FileState>, disk: Disk, chunk: seq<Buffered>)
    requires !AnyStale(files, chunk) && disk.parts != [] && disk.currentPartFileSize == |disk.parts[|disk.parts| - 1]|
    requires forall i :: 0 <= i < |chunk| ==> SizeAgrees(files, chunk[i])
    ensures var (files', disk') := WriteBlocks(c, files, disk, chunk);
            && |files'| == |files| && disk'.parts != [] && disk'.currentPartFileSize == |disk'.parts[|disk'.parts| - 1]|
    decreases chunk
  {
    hide AnyStale;
    if chunk != [] {
      WriteKeepsHandles(c, files, disk, chunk);
      var (files', disk') := WriteBlock(c, files, disk, chunk[0]);
      assert SizeAgrees(files, chunk[0]);
      forall i | 0 <= i < |chunk| - 1 ensures SizeAgrees(files', chunk[1..][i]) {
        assert SizeAgrees(files, chunk[i + 1]);
      }
      WriteKeepsShape(c, files', disk', chunk[1..]);
    }
  }

  /** The pointer leads to a block whose size is that of the data. */
  ghost predicate SizeAgrees(files: seq<FileState>, b: Buffered)
  {
    && b.handle.file < |files| && b.handle.slot < |files[b.handle.file].slots|
    && files[b.handle.file].slots[b.handle.slot].info.compressedSize == |b.encrypted|
  }

  lemma ShapeKept(c: Config, s: State, a: Action)
    requires WellFormed(c) && Shape(c, s) && Enabled(c, s, a)
    requires forall i :: 0 <= i < |s.chunk| ==> SizeAgrees(s.files, s.chunk[i])
    ensures Shape(c, Apply(c, s, a))
  {
    hide Blocks, Split, WriteBlocks, AnyStale, IsBlock, SizeAgrees;
    match a
    case OpenPart =>
    case NextFile => assert Blocks(c, s.phase.next)[0..] == Blocks(c, s.phase.next);
      BlocksAre(c, s.phase.next);
    case PushJob => NextBlock(c, s.phase);
    case FinishReading =>
    case TakeJob(w) =>
    case Compress(w, _, _) =>
    case Exit(w) =>
    case PushBlock(w) =>
    case WriteChunk =>
      if !AnyStale(s.files, s.chunk) {
        WriteKeepsShape(c, s.files, s.disk, s.chunk);
      }
    case FinishChunks =>
    case Close =>
    case ExitWriter =>
  }

  lemma BlocksAre(c: Config, f: nat)
    requires WellFormed(c) && f < |c.files|
    ensures Blocks(c, f) == Split(c.files[f], c.blockSize)
  {
  }

  // ---------- Everything holds the right bytes ----------

  ghost predicate JobGood(c: Config, n: nat, job: Job)
    requires WellFormed(c)
  {
    && job.file < n <= |c.files| && job.index < |Blocks(c, job.file)|
    && job.data == Blocks(c, job.file)[job.index]
  }

  /** What is known of a block in memory: its size is that of its compressed form. */
  ghost predicate InfoGood(c: Config, f: nat, info: BlockInfo)
    requires WellFormed(c)
  {
    && f < |c.files| && info.blockIndex < |Blocks(c, f)| && info.originalSize == |Blocks(c, f)[info.blockIndex]|
    && info.compressedSize == |c.lz(Blocks(c, f)[info.blockIndex])|
    && 0 < info.compressedSize <= CompressBound(c.blockSize) && |info.key| == KEYSIZE && |info.iv| == IVSIZE
  }

  /** Decrypted, the bytes are a compressed form of the block. */
  ghost predicate Restores(c: Config, f: nat, info: BlockInfo, encrypted: seq<byte>)
    requires WellFormed(c)
  {
    && InfoGood(c, f, info) && |encrypted| == info.compressedSize
    && IsBlock(CryptCTR(c.aes, encrypted, info.key, info.iv), Blocks(c, f)[info.blockIndex])
  }

  ghost predicate WorkerGood(c: Config, n: nat, w: Worker)
    requires WellFormed(c)
  {
    match w
    case Compressing(job) => JobGood(c, n, job)
    case Finished(file, info, encrypted) => file < n && Restores(c, file, info, encrypted)
    case _ => true
  }

  /** All jobs, those of the workers too, are about the blocks they name. */
  ghost predicate Working(c: Config, n: nat, queue: seq<Job>, workers: seq<Worker>)
    requires WellFormed(c)
  {
    && (forall i :: 0 <= i < |queue| ==> JobGood(c, n, queue[i]))
    && (forall w :: 0 <= w < |workers| ==> WorkerGood(c, n, workers[w]))
  }

  /** The record of a block: its size, and then its data. */
  ghost predicate OnDisk(c: Config, f: nat, info: BlockInfo, parts: seq<seq<byte>>)
    requires WellFormed(c)
  {
    && info.partIndex < |parts| && 8 <= info.offset && info.offset + info.compressedSize <= |parts[info.partIndex]|
    && parts[info.partIndex][info.offset - 8..info.offset] == LE(info.compressedSize, 8)
    && Restores(c, f, info, parts[info.partIndex][info.offset..info.offset + info.compressedSize])
  }

  ghost predicate SlotGood(c: Config, f: nat, slot: Slot, parts: seq<seq<byte>>)
    requires WellFormed(c)
  {
    InfoGood(c, f, slot.info) && (slot.written ==> OnDisk(c, f, slot.info, parts))
  }

  /** The block at a place that may have been written, or only been collected. */
  ghost predicate Has(files: seq<FileState>, f: int, k: int)
  {
    0 <= f < |files| && 0 <= k < |files[f].slots|
  }

  ghost predicate Saved(files: seq<FileState>, f: int, k: int)
  {
    Has(files, f, k) && files[f].slots[k].written
  }

  ghost function Info(files: seq<FileState>, f: int, k: int): BlockInfo
    requires Has(files, f, k)
  {
    files[f].slots[k].info
  }

  ghost predicate BufferGood(c: Config, files: seq<FileState>, b: Buffered)
    requires WellFormed(c)
  {
    && Has(files, b.handle.file, b.handle.slot) && !Saved(files, b.handle.file, b.handle.slot)
    && Restores(c, b.handle.file, Info(files, b.handle.file, b.handle.slot), b.encrypted)
  }

  ghost predicate InChunk(chunk: seq<Buffered>, f: int, k: int)
  {
    exists i :: 0 <= i < |chunk| && chunk[i].handle.file == f && chunk[i].handle.slot == k
  }

  ghost predicate SamePlace(a: Handle, b: Handle)
  {
    a.file == b.file && a.slot == b.slot
  }

  /** Two records do not overlap. */
  ghost predicate Apart(a: BlockInfo, b: BlockInfo)
  {
    || a.partIndex != b.partIndex
    || a.offset + a.compressedSize + 8 <= b.offset
    || b.offset + b.compressedSize + 8 <= a.offset
  }

  ghost predicate AllSlotsGood(c: Config, files: seq<FileState>, parts: seq<seq<byte>>)
    requires WellFormed(c)
  {
    forall f, k :: Has(files, f, k) ==> SlotGood(c, f, files[f].slots[k], parts)
  }

  /** The chunk holds the data of exactly the blocks that are not written, each once. */
  ghost predicate ChunkGood(c: Config, files: seq<FileState>, chunk: seq<Buffered>)
    requires WellFormed(c)
  {
    && (forall i :: 0 <= i < |chunk| ==> BufferGood(c, files, chunk[i]))
    && (forall i, j :: 0 <= i < j < |chunk| ==> !SamePlace(chunk[i].handle, chunk[j].handle))
    && (forall f, k :: Has(files, f, k) && !Saved(files, f, k) ==> InChunk(chunk, f, k))
  }

  ghost predicate AllApart(files: seq<FileState>)
  {
    forall f, k, g, l :: Saved(files, f, k) && Saved(files, g, l) && (f, k) != (g, l) ==>
        Apart(Info(files, f, k), Info(files, g, l))
  }

  /** Only one block is in the part. */
  ghost predicate Lone(files: seq<FileState>, p: int, size: int)
  {
    forall f, k :: Saved(files, f, k) && Info(files, f, k).partIndex == p ==>
      Info(files, f, k).offset == 8 && 8 + Info(files, f, k).compressedSize == size
  }

  /** A part is larger than it may be only if it holds a single block. */
  ghost predicate PartsFit(c: Config, files: seq<FileState>, parts: seq<seq<byte>>)
  {
    forall p :: 0 <= p < |parts| ==> |parts[p]| <= c.maxPartSize || Lone(files, p, |parts[p]|)
  }

  /** The block begins a part that is not the first. */
  ghost predicate Begins(files: seq<FileState>, f: int, k: int)
  {
    Saved(files, f, k) && Info(files, f, k).partIndex >= 1 && Info(files, f, k).offset == 8
  }

  ghost predicate Begun(files: seq<FileState>, p: int)
  {
    exists f, k :: Begins(files, f, k) && Info(files, f, k).partIndex == p
  }

  /** Each part but the first was opened for a block, which did not fit the part before. */
  ghost predicate PartsNeeded(c: Config, files: seq<FileState>, parts: seq<seq<byte>>)
  {
    && (forall f, k :: Begins(files, f, k) ==>
          var info := Info(files, f, k);
          info.partIndex < |parts| && |parts[info.partIndex - 1]| + 8 + info.compressedSize > c.maxPartSize)
    && (forall p :: 1 <= p < |parts| ==> Begun(files, p))
  }

  ghost predicate Stored(c: Config, files: seq<FileState>, chunk: seq<Buffered>, parts: seq<seq<byte>>)
    requires WellFormed(c)
  {
    && AllSlotsGood(c, files, parts) && ChunkGood(c, files, chunk)
    && AllApart(files) && PartsFit(c, files, parts) && PartsNeeded(c, files, parts)
  }
}
