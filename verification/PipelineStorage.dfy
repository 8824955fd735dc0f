/** What every step keeps about the bytes in memory and on disk. */
module PipelineStorage {
  import opened Bytes
  import opened BlockFormat
  import opened BlockOutput
  import opened CtrMode
  import opened ArchiveIndex
  import opened Pipeline
  import opened PipelineInvariant

  // ---------- Jobs ----------

  /** A job is small enough to be compressed. */
  lemma JobCompresses(c: Config, n: nat, job: Job)
    requires WellFormed(c) && JobGood(c, n, job)
    ensures Compressed(c.blockSize, job.data, c.lz(job.data))
  {
    hide IsBlock, Split;
    BlocksAre(c, job.file);
    SplitConcat(c.files[job.file], c.blockSize);
  }

  /** Encrypted, the block can be restored. */
  lemma CompressRestores(c: Config, n: nat, job: Job, key: seq<byte>, iv: seq<byte>)
    requires WellFormed(c) && JobGood(c, n, job) && |key| == KEYSIZE && |iv| == IVSIZE
    ensures var comp := c.lz(job.data);
            Restores(c, job.file, BlockInfo(0, 0, |comp|, |job.data|, job.index, key, iv),
                CryptCTR(c.aes, comp, key, iv))
  {
    hide IsBlock, CryptCTR, Blocks, Compresses;
    JobCompresses(c, n, job);
    CryptTwice(c.aes, c.lz(job.data), key, iv);
  }

  lemma WorkingKept(c: Config, s: State, a: Action)
    requires WellFormed(c) && Shape(c, s) && Working(c, |s.files|, s.queue, s.workers) && Enabled(c, s, a)
    requires |Apply(c, s, a).files| >= |s.files| && |Apply(c, s, a).files| <= |c.files|
    ensures var s' := Apply(c, s, a); Working(c, |s'.files|, s'.queue, s'.workers)
  {
    hide Blocks, IsBlock, Split, CryptCTR, WriteBlocks, AnyStale, Restores, JobGood, WorkerGood, ReaderAgrees;
    var s' := Apply(c, s, a);
    match a
    case NextFile => MoreFiles(c, |s.files|, |s'.files|, s.queue, s.workers);
    case PushJob => NextJobGood(c, s);
    case TakeJob(w) => TakenGood(c, |s.files|, s.queue[0]);
    case Compress(w, key, iv) => FinishedGood(c, |s.files|, s.workers[w], key, iv);
    case PushBlock(w) => IdleGood(c, |s.files|);
    case Exit(w) => IdleGood(c, |s.files|);
    case WriteChunk => MoreFiles(c, |s.files|, |s'.files|, s.queue, s.workers);
    case OpenPart =>
    case FinishReading =>
    case FinishChunks =>
    case Close =>
    case ExitWriter =>
  }

  lemma MoreFiles(c: Config, n: nat, n': nat, queue: seq<Job>, workers: seq<Worker>)
    requires WellFormed(c) && Working(c, n, queue, workers) && n <= n' <= |c.files|
    ensures Working(c, n', queue, workers)
  {
    hide Blocks, Restores;
    forall w | 0 <= w < |workers| ensures WorkerGood(c, n', workers[w]) {
      assert WorkerGood(c, n, workers[w]);
    }
  }

  lemma NextJobGood(c: Config, s: State)
    requires WellFormed(c) && Shape(c, s) && Enabled(c, s, PushJob)
    ensures JobGood(c, |s.files|, Job(s.phase.next - 1, s.phase.index,
        s.phase.rest[..Min(c.blockSize, |s.phase.rest|)]))
  {
    hide Blocks;
    NextBlock(c, s.phase);
  }

  lemma TakenGood(c: Config, n: nat, job: Job)
    requires WellFormed(c) && JobGood(c, n, job)
    ensures WorkerGood(c, n, Compressing(job))
  {
    hide JobGood;
  }

  lemma FinishedGood(c: Config, n: nat, w: Worker, key: seq<byte>, iv: seq<byte>)
    requires WellFormed(c) && WorkerGood(c, n, w) && w.Compressing? && |key| == KEYSIZE && |iv| == IVSIZE
    ensures var comp := c.lz(w.job.data);
            WorkerGood(c, n, Finished(w.job.file, BlockInfo(0, 0, |comp|, |w.job.data|, w.job.index, key, iv),
                CryptCTR(c.aes, comp, key, iv)))
  {
    CompressRestores(c, n, w.job, key, iv);
    hide Restores, CryptCTR, Blocks, Compresses;
  }

  lemma IdleGood(c: Config, n: nat)
    requires WellFormed(c)
    ensures WorkerGood(c, n, Idle) && WorkerGood(c, n, Exited)
  {
  }

  // ---------- A new file, a new block ----------

  lemma NewFileStored(c: Config, files: seq<FileState>, chunk: seq<Buffered>, parts: seq<seq<byte>>)
    requires WellFormed(c) && Stored(c, files, chunk, parts)
    ensures Stored(c, files + [FileState([], 0, 0)], chunk, parts)
  {
    hide SlotGood, Restores, Apart, InChunk;
    var files' := files + [FileState([], 0, 0)];
    assert forall f, k :: Has(files', f, k) <==> Has(files, f, k);
    assert forall f, k :: Saved(files', f, k) <==> Saved(files, f, k);
    assert forall f, k :: Has(files, f, k) ==> Info(files', f, k) == Info(files, f, k);
    forall p | 0 <= p < |parts| && Lone(files, p, |parts[p]|) ensures Lone(files', p, |parts[p]|) {
    }
    forall i | 0 <= i < |chunk| ensures BufferGood(c, files', chunk[i]) {
      assert BufferGood(c, files, chunk[i]);
    }
    StillNeeded(c, files, files', parts);
  }

  /** Whatever is not written yet begins no part. */
  lemma StillNeeded(c: Config, files: seq<FileState>, files': seq<FileState>, parts: seq<seq<byte>>)
    requires PartsNeeded(c, files, parts)
    requires forall f, k :: Saved(files', f, k) <==> Saved(files, f, k)
    requires forall f, k :: Saved(files, f, k) && Saved(files', f, k) ==> Info(files', f, k) == Info(files, f, k)
    ensures PartsNeeded(c, files', parts)
  {
    forall p | 1 <= p < |parts| ensures Begun(files', p) {
      assert Begun(files, p);
      var f, k :| Begins(files, f, k) && Info(files, f, k).partIndex == p;
      assert Begins(files', f, k);
    }
    forall f, k | Begins(files', f, k) ensures Begins(files, f, k) {
    }
  }

  /** A block joins the metadata and the chunk. */
  lemma PushStored(c: Config, files: seq<FileState>, chunk: seq<Buffered>, parts: seq<seq<byte>>, f: nat,
          info: BlockInfo, b: Buffered)
    requires WellFormed(c) && Stored(c, files, chunk, parts)
    requires f < |files| && Restores(c, f, info, b.encrypted) && b.handle.file == f && b.handle.slot == |files[f].slots|
    ensures Stored(c, files[f := Append(c, files[f], info)], chunk + [b], parts)
  {
    hide Stored, AllSlotsGood, ChunkGood, AllApart, PartsFit, PartsNeeded, Restores;
    StoredParts(c, files, chunk, parts);
    PushSlots(c, files, parts, f, info, b.encrypted);
    PushChunk(c, files, chunk, parts, f, info, b);
    PushApart(c, files, chunk, parts, f, info);
    PushNeeded(c, files, parts, f, info);
    StoredParts(c, files[f := Append(c, files[f], info)], chunk + [b], parts);
  }

  lemma StoredParts(c: Config, files: seq<FileState>, chunk: seq<Buffered>, parts: seq<seq<byte>>)
    requires WellFormed(c)
    ensures Stored(c, files, chunk, parts) <==>
              && AllSlotsGood(c, files, parts) && ChunkGood(c, files, chunk)
              && AllApart(files) && PartsFit(c, files, parts) && PartsNeeded(c, files, parts)
  {
    hide AllSlotsGood, ChunkGood, AllApart, PartsFit, PartsNeeded;
  }

  lemma PushNeeded(c: Config, files: seq<FileState>, parts: seq<seq<byte>>, f: nat, info: BlockInfo)
    requires PartsNeeded(c, files, parts) && f < |files|
    ensures PartsNeeded(c, files[f := Append(c, files[f], info)], parts)
  {
    hide PartsNeeded;
    StillNeeded(c, files, files[f := Append(c, files[f], info)], parts);
  }

  lemma PushSlots(c: Config, files: seq<FileState>, parts: seq<seq<byte>>, f: nat, info: BlockInfo,
          encrypted: seq<byte>)
    requires WellFormed(c) && AllSlotsGood(c, files, parts) && f < |files| && Restores(c, f, info, encrypted)
    ensures AllSlotsGood(c, files[f := Append(c, files[f], info)], parts)
  {
    var files' := files[f := Append(c, files[f], info)];
    assert SlotGood(c, f, Slot(info, false), parts);
    hide SlotGood, Restores;
    forall g, l | Has(files', g, l) ensures SlotGood(c, g, files'[g].slots[l], parts) {
      if Has(files, g, l) {
        assert SlotGood(c, g, files[g].slots[l], parts);
      }
    }
  }

  lemma PushChunk(c: Config, files: seq<FileState>, chunk: seq<Buffered>, parts: seq<seq<byte>>, f: nat,
          info: BlockInfo, b: Buffered)
    requires WellFormed(c) && ChunkGood(c, files, chunk)
    requires f < |files| && Restores(c, f, info, b.encrypted) && b.handle.file == f && b.handle.slot == |files[f].slots|
    ensures ChunkGood(c, files[f := Append(c, files[f], info)], chunk + [b])
  {
    hide Restores;
    var files', chunk' := files[f := Append(c, files[f], info)], chunk + [b];
    forall i | 0 <= i < |chunk'| ensures BufferGood(c, files', chunk'[i])
        && (i < |chunk| ==> !SamePlace(chunk'[i].handle, b.handle)) {
      assert i < |chunk| ==> BufferGood(c, files, chunk[i]);
    }
    forall g, l | Has(files', g, l) && !Saved(files', g, l) ensures InChunk(chunk', g, l) {
      if Has(files, g, l) {
        assert InChunk(chunk, g, l);
        var i :| 0 <= i < |chunk| && chunk[i].handle.file == g && chunk[i].handle.slot == l;
        assert chunk'[i] == chunk[i];
      } else {
        assert chunk'[|chunk|] == b;
      }
    }
  }

  lemma PushApart(c: Config, files: seq<FileState>, chunk: seq<Buffered>, parts: seq<seq<byte>>, f: nat,
          info: BlockInfo)
    requires WellFormed(c) && AllApart(files) && PartsFit(c, files, parts) && f < |files|
    ensures AllApart(files[f := Append(c, files[f], info)]) && PartsFit(c, files[f := Append(c, files[f], info)], parts)
  {
    hide Apart;
    var files' := files[f := Append(c, files[f], info)];
    assert forall g, l :: Saved(files', g, l) ==> Saved(files, g, l) && Info(files', g, l) == Info(files, g, l);
    forall p | 0 <= p < |parts| && Lone(files, p, |parts[p]|) ensures Lone(files', p, |parts[p]|) {
    }
  }

  // ---------- Writing ----------

  /** What is on disk stays there when parts only get longer. */
  lemma OnDiskStays(c: Config, f: nat, info: BlockInfo, parts: seq<seq<byte>>, parts': seq<seq<byte>>)
    requires WellFormed(c) && OnDisk(c, f, info, parts)
    requires info.partIndex < |parts'| && parts[info.partIndex] <= parts'[info.partIndex]
    ensures OnDisk(c, f, info, parts')
  {
    hide Restores;
    var part, part' := parts[info.partIndex], parts'[info.partIndex];
    assert part'[..|part|] == part;
    assert part'[info.offset - 8..info.offset] == part[info.offset - 8..info.offset];
    assert part'[info.offset..info.offset + info.compressedSize]
        == part[info.offset..info.offset + info.compressedSize];
  }

  /** The record of `b` behind what is in the last part, or at the start of a new one. */
  ghost predicate Recorded(c: Config, parts: seq<seq<byte>>, parts': seq<seq<byte>>, before: seq<byte>, data: seq<byte>)
  {
    && |parts'| >= 1 && |parts| <= |parts'| <= |parts| + 1
    && before == (if |parts'| == |parts| then parts[|parts| - 1] else [])
    && parts' == parts[..|parts'| - 1] + [before + LE(|data|, 8) + data]
    && (if |parts'| == |parts| then |before| + 8 + |data| <= c.maxPartSize
        else parts != [] && |parts[|parts| - 1]| + 8 + |data| > c.maxPartSize)
  }

  /** The metadata of a block that is written now. */
  function Placed(info: BlockInfo, p: nat, offset: nat): Slot
  {
    Slot(info.(partIndex := p, offset := offset), true)
  }

  function PlaceIn(files: seq<FileState>, f: nat, k: nat, p: nat, offset: nat): seq<FileState>
    requires f < |files| && k < |files[f].slots|
  {
    files[f := files[f].(slots := files[f].slots[k := Placed(files[f].slots[k].info, p, offset)])]
  }

  /** What WriteBlock does, when the size is that of the data. */
  lemma WriteBlockIs(c: Config, files: seq<FileState>, disk: Disk, b: Buffered) returns (before: seq<byte>)
    requires !Stale(files, b.handle) && Open(disk) && SizeAgrees(files, b)
    ensures var (files', disk') := WriteBlock(c, files, disk, b);
            && Recorded(c, disk.parts, disk'.parts, before, b.encrypted)
            && files' == PlaceIn(files, b.handle.file, b.handle.slot, |disk'.parts| - 1, |before| + 8)
            && Open(disk') && |disk'.parts| <= |disk.parts| + 1
  {
    var disk' := WriteBlock(c, files, disk, b).1;
    before := if |disk'.parts| == |disk.parts| then disk.parts[|disk.parts| - 1] else [];
    assert b.encrypted[..|b.encrypted|] == b.encrypted;
  }

  lemma RecordedKeeps(c: Config, parts: seq<seq<byte>>, parts': seq<seq<byte>>, before: seq<byte>, data: seq<byte>)
    requires Recorded(c, parts, parts', before, data)
    ensures forall p :: 0 <= p < |parts| ==> parts[p] <= parts'[p]
    ensures forall p :: 0 <= p < |parts'| - 1 ==> parts[p] == parts'[p]
  {
    hide LE;
  }

  lemma RecordedOnDisk(c: Config, f: nat, info: BlockInfo, parts: seq<seq<byte>>, parts': seq<seq<byte>>,
          before: seq<byte>, data: seq<byte>)
    requires WellFormed(c) && Recorded(c, parts, parts', before, data) && Restores(c, f, info, data)
    ensures SlotGood(c, f, Placed(info, |parts'| - 1, |before| + 8), parts')
  {
    hide IsBlock, Blocks, CryptCTR, LE;
    var part, offset := parts'[|parts'| - 1], |before| + 8;
    RecordSlices(before, LE(|data|, 8), data);
  }

  lemma RecordSlices(before: seq<byte>, size: seq<byte>, data: seq<byte>)
    ensures (before + size + data)[|before|..|before| + |size|] == size
    ensures (before + size + data)[|before| + |size|..|before| + |size| + |data|] == data
  {
  }

  lemma WriteSlots(c: Config, files: seq<FileState>, parts: seq<seq<byte>>, parts': seq<seq<byte>>,
          before: seq<byte>, b: Buffered)
    requires WellFormed(c) && AllSlotsGood(c, files, parts) && BufferGood(c, files, b)
    requires Recorded(c, parts, parts', before, b.encrypted)
    ensures AllSlotsGood(c, PlaceIn(files, b.handle.file, b.handle.slot, |parts'| - 1, |before| + 8), parts')
  {
    var f, k := b.handle.file, b.handle.slot;
    RecordedOnDisk(c, f, files[f].slots[k].info, parts, parts', before, b.encrypted);
    RecordedKeeps(c, parts, parts', before, b.encrypted);
    hide Restores, Recorded, OnDisk, Placed, InfoGood;
    var files' := PlaceIn(files, f, k, |parts'| - 1, |before| + 8);
    forall g, l | Has(files', g, l) ensures SlotGood(c, g, files'[g].slots[l], parts') {
      if (g, l) != (f, k) {
        assert Has(files, g, l) && SlotGood(c, g, files[g].slots[l], parts);
        SlotStays(c, g, files[g].slots[l], parts, parts');
      }
    }
  }

  lemma SlotStays(c: Config, f: nat, slot: Slot, parts: seq<seq<byte>>, parts': seq<seq<byte>>)
    requires WellFormed(c) && SlotGood(c, f, slot, parts) && |parts| <= |parts'|
    requires forall p :: 0 <= p < |parts| ==> parts[p] <= parts'[p]
    ensures SlotGood(c, f, slot, parts')
  {
    hide Restores, InfoGood;
    if slot.written {
      OnDiskStays(c, f, slot.info, parts, parts');
    }
  }

  /** The block leaves the chunk. */
  lemma WriteChunkGood(c: Config, files: seq<FileState>, chunk: seq<Buffered>, p: nat, offset: nat)
    requires WellFormed(c) && ChunkGood(c, files, chunk) && chunk != []
    ensures ChunkGood(c, PlaceIn(files, chunk[0].handle.file, chunk[0].handle.slot, p, offset), chunk[1..])
  {
    hide Restores;
    var f, k := chunk[0].handle.file, chunk[0].handle.slot;
    var files', rest := PlaceIn(files, f, k, p, offset), chunk[1..];
    forall i | 0 <= i < |rest| ensures BufferGood(c, files', rest[i]) {
      assert BufferGood(c, files, chunk[i + 1]) && !SamePlace(chunk[0].handle, chunk[i + 1].handle);
    }
    forall g, l | Has(files', g, l) && !Saved(files', g, l) ensures InChunk(rest, g, l) {
      assert Has(files, g, l) && !Saved(files, g, l) && InChunk(chunk, g, l);
      var i :| 0 <= i < |chunk| && chunk[i].handle.file == g && chunk[i].handle.slot == l;
      assert rest[i - 1] == chunk[i];
    }
  }

  lemma SavedFits(c: Config, files: seq<FileState>, parts: seq<seq<byte>>, g: int, l: int)
    requires WellFormed(c) && AllSlotsGood(c, files, parts) && Saved(files, g, l)
    ensures var info := Info(files, g, l);
            info.partIndex < |parts| && info.offset + info.compressedSize <= |parts[info.partIndex]|
  {
    assert Has(files, g, l) && SlotGood(c, g, files[g].slots[l], parts);
  }

  /** The record lies behind all others in its part. */
  lemma WriteApart(c: Config, files: seq<FileState>, parts: seq<seq<byte>>, parts': seq<seq<byte>>,
          before: seq<byte>, b: Buffered)
    requires WellFormed(c) && AllSlotsGood(c, files, parts) && AllApart(files)
        && Has(files, b.handle.file, b.handle.slot)
    requires Recorded(c, parts, parts', before, b.encrypted)
    ensures AllApart(PlaceIn(files, b.handle.file, b.handle.slot, |parts'| - 1, |before| + 8))
  {
    hide AllSlotsGood, LE;
    var f, k := b.handle.file, b.handle.slot;
    var files' := PlaceIn(files, f, k, |parts'| - 1, |before| + 8);
    forall g, l | Saved(files', g, l) && (g, l) != (f, k) ensures Saved(files, g, l)
        && Info(files', g, l) == Info(files, g, l) && Apart(Info(files', g, l), Info(files', f, k)) {
      SavedFits(c, files, parts, g, l);
    }
    forall g, l, g', l' | Saved(files', g, l) && Saved(files', g', l') && (g, l) != (g', l')
        ensures Apart(Info(files', g, l), Info(files', g', l')) {
    }
  }

  /** The part is not too large with the record, or has nothing else in it. */
  lemma WriteParts(c: Config, files: seq<FileState>, parts: seq<seq<byte>>, parts': seq<seq<byte>>,
          before: seq<byte>, b: Buffered)
    requires WellFormed(c) && AllSlotsGood(c, files, parts) && PartsFit(c, files, parts)
    requires SizeAgrees(files, b) && !Saved(files, b.handle.file, b.handle.slot)
    requires Recorded(c, parts, parts', before, b.encrypted)
    ensures PartsFit(c, PlaceIn(files, b.handle.file, b.handle.slot, |parts'| - 1, |before| + 8), parts')
  {
    RecordedKeeps(c, parts, parts', before, b.encrypted);
    hide AllSlotsGood, LE;
    var f, k, last := b.handle.file, b.handle.slot, |parts'| - 1;
    var files' := PlaceIn(files, f, k, last, |before| + 8);
    forall g, l | Saved(files', g, l) && (g, l) != (f, k) ensures Saved(files, g, l)
        && Info(files', g, l) == Info(files, g, l) && Info(files, g, l).partIndex < |parts| {
      SavedFits(c, files, parts, g, l);
    }
    forall p | 0 <= p < last ensures |parts'[p]| <= c.maxPartSize || Lone(files', p, |parts'[p]|) {
      assert |parts[p]| <= c.maxPartSize || Lone(files, p, |parts[p]|);
    }
  }

  /** A new part is opened for a record that does not fit the last one. */
  lemma WriteNeeded(c: Config, files: seq<FileState>, parts: seq<seq<byte>>, parts': seq<seq<byte>>,
          before: seq<byte>, b: Buffered)
    requires WellFormed(c) && AllSlotsGood(c, files, parts) && PartsNeeded(c, files, parts)
    requires SizeAgrees(files, b) && !Saved(files, b.handle.file, b.handle.slot)
    requires Recorded(c, parts, parts', before, b.encrypted)
    ensures PartsNeeded(c, PlaceIn(files, b.handle.file, b.handle.slot, |parts'| - 1, |before| + 8), parts')
  {
    RecordedKeeps(c, parts, parts', before, b.encrypted);
    if |parts'| == |parts| && |parts| >= 2 { LastIsBegun(c, files, parts); }
    var f, k, last := b.handle.file, b.handle.slot, |parts'| - 1;
    var files' := PlaceIn(files, f, k, last, |before| + 8);
    OthersBegin(files, files', f, k);
    NewBegins(files, f, k, last, |before| + 8);
    hide AllSlotsGood, LE, WellFormed, Begins, PlaceIn, PartsNeeded;
    NeededAfter(c, files, files', parts, parts', f, k);
  }

  lemma NeededAfter(c: Config, files: seq<FileState>, files': seq<FileState>, parts: seq<seq<byte>>,
          parts': seq<seq<byte>>, f: nat, k: nat)
    requires PartsNeeded(c, files, parts) && Has(files', f, k)
    requires 1 <= |parts| <= |parts'| <= |parts| + 1 && forall p :: 0 <= p < |parts'| - 1 ==> parts[p] == parts'[p]
    requires forall g, l :: Begins(files, g, l) ==>
               (g, l) != (f, k) && Begins(files', g, l) && Info(files', g, l) == Info(files, g, l)
    requires forall g, l :: Begins(files', g, l) && (g, l) != (f, k) ==>
               Begins(files, g, l) && Info(files', g, l) == Info(files, g, l)
    requires Begins(files', f, k) <==> |parts'| > |parts|
    requires Begins(files', f, k) ==>
               var info := Info(files', f, k);
               info.partIndex == |parts| && |parts[|parts| - 1]| + 8 + info.compressedSize > c.maxPartSize
    ensures PartsNeeded(c, files', parts')
  {
    forall p | 1 <= p < |parts'| ensures Begun(files', p) {
      if p < |parts| {
        assert Begun(files, p);
        var g, l :| Begins(files, g, l) && Info(files, g, l).partIndex == p;
        assert Begins(files', g, l);
      } else {
        assert Begins(files', f, k);
      }
    }
  }

  lemma OthersBegin(files: seq<FileState>, files': seq<FileState>, f: nat, k: nat)
    requires Has(files, f, k) && !Saved(files, f, k) && |files'| == |files|
    requires files' == files[f := files'[f]] && |files'[f].slots| == |files[f].slots|
    requires files'[f].slots == files[f].slots[k := files'[f].slots[k]]
    ensures forall g, l :: Begins(files, g, l) ==>
              (g, l) != (f, k) && Begins(files', g, l) && Info(files', g, l) == Info(files, g, l)
    ensures forall g, l :: Begins(files', g, l) && (g, l) != (f, k) ==>
              Begins(files, g, l) && Info(files', g, l) == Info(files, g, l)
  {
  }

  lemma NewBegins(files: seq<FileState>, f: nat, k: nat, p: nat, offset: nat)
    requires Has(files, f, k)
    ensures var files' := PlaceIn(files, f, k, p, offset);
            && (Begins(files', f, k) <==> p >= 1 && offset == 8) && Has(files', f, k)
            && Info(files', f, k) == files[f].slots[k].info.(partIndex := p, offset := offset)
  {
  }

  /** A part that is not the first has a record in it. */
  lemma LastIsBegun(c: Config, files: seq<FileState>, parts: seq<seq<byte>>)
    requires WellFormed(c) && AllSlotsGood(c, files, parts) && PartsNeeded(c, files, parts) && |parts| >= 2
    ensures parts[|parts| - 1] != []
  {
    hide AllSlotsGood, WellFormed;
    assert Begun(files, |parts| - 1);
    var f, k :| Begins(files, f, k) && Info(files, f, k).partIndex == |parts| - 1;
    SavedFits(c, files, parts, f, k);
  }

  lemma FirstBuffered(c: Config, files: seq<FileState>, chunk: seq<Buffered>)
    requires WellFormed(c) && ChunkGood(c, files, chunk) && chunk != []
    ensures BufferGood(c, files, chunk[0]) && SizeAgrees(files, chunk[0])
        && Has(files, chunk[0].handle.file, chunk[0].handle.slot)
    ensures !Saved(files, chunk[0].handle.file, chunk[0].handle.slot)
  {
    assert BufferGood(c, files, chunk[0]);
  }

  lemma RecordStored(c: Config, files: seq<FileState>, parts: seq<seq<byte>>, chunk: seq<Buffered>,
          parts': seq<seq<byte>>, before: seq<byte>)
    requires WellFormed(c) && Stored(c, files, chunk, parts) && chunk != []
    requires Recorded(c, parts, parts', before, chunk[0].encrypted)
    requires Has(files, chunk[0].handle.file, chunk[0].handle.slot)
    ensures Stored(c, PlaceIn(files, chunk[0].handle.file, chunk[0].handle.slot, |parts'| - 1, |before| + 8),
        chunk[1..], parts')
  {
    StoredParts(c, files, chunk, parts);
    hide Stored, AllSlotsGood, ChunkGood, AllApart, PartsFit, PartsNeeded, BufferGood, Saved, Recorded, PlaceIn,
        SizeAgrees;
    FirstBuffered(c, files, chunk);
    var b := chunk[0];
    WriteSlots(c, files, parts, parts', before, b);
    WriteChunkGood(c, files, chunk, |parts'| - 1, |before| + 8);
    WriteApart(c, files, parts, parts', before, b);
    WriteParts(c, files, parts, parts', before, b);
    WriteNeeded(c, files, parts, parts', before, b);
    StoredParts(c, PlaceIn(files, b.handle.file, b.handle.slot, |parts'| - 1, |before| + 8), chunk[1..], parts');
  }

  /** The part that is open is as long as m_currentPartFileSize says. */
  ghost predicate Open(disk: Disk)
  {
    disk.parts != [] && disk.currentPartFileSize == |disk.parts[|disk.parts| - 1]|
  }

  lemma WriteOneStored(c: Config, files: seq<FileState>, disk: Disk, chunk: seq<Buffered>)
    requires WellFormed(c) && Stored(c, files, chunk, disk.parts) && chunk != [] && !Stale(files, chunk[0].handle)
    requires Open(disk)
    ensures Stored(c, WriteBlock(c, files, disk, chunk[0]).0, chunk[1..], WriteBlock(c, files, disk, chunk[0]).1.parts)
    ensures var disk' := WriteBlock(c, files, disk, chunk[0]).1; Open(disk') && |disk'.parts| <= |disk.parts| + 1
  {
    hide Stored, BufferGood, WriteBlock, Recorded, PlaceIn, SizeAgrees, Stale, Saved;
    StoredParts(c, files, chunk, disk.parts);
    FirstBuffered(c, files, chunk);
    var before := WriteBlockIs(c, files, disk, chunk[0]);
    RecordStored(c, files, disk.parts, chunk, WriteBlock(c, files, disk, chunk[0]).1.parts, before);
  }

  lemma {:induction false} WriteStored(c: Config, files: seq<FileState>, disk: Disk, chunk: seq<Buffered>)
    requires WellFormed(c) && Stored(c, files, chunk, disk.parts) && !AnyStale(files, chunk)
    requires Open(disk)
    ensures var (files', disk') := WriteBlocks(c, files, disk, chunk);
            Stored(c, files', [], disk'.parts) && |disk'.parts| <= |disk.parts| + |chunk|
    decreases chunk
  {
    hide Stored, WriteBlock, AnyStale;
    if chunk != [] {
      WriteKeepsHandles(c, files, disk, chunk);
      var (files', disk') := WriteBlock(c, files, disk, chunk[0]);
      WriteOneStored(c, files, disk, chunk);
      WriteStored(c, files', disk', chunk[1..]);
    } else {
      assert chunk == [];
    }
  }

  /** What a chunk looks like on disk: for every block its size in 8 bytes and its data, in order. */
  function Records(chunk: seq<Buffered>): seq<byte>
  {
    if chunk == [] then []
    else LE(|chunk[0].encrypted|, 8) + chunk[0].encrypted + Records(chunk[1..])
  }

  lemma {:induction false} ConcatAppend(parts: seq<seq<byte>>, part: seq<byte>)
    ensures Concat(parts + [part]) == Concat(parts) + part
  {
    if parts != [] {
      ConcatAppend(parts[1..], part);
      assert (parts + [part])[1..] == parts[1..] + [part];
    } else {
      assert (parts + [part])[1..] == [];
    }
  }

  lemma RecordAppends(c: Config, parts: seq<seq<byte>>, parts': seq<seq<byte>>, before: seq<byte>, data: seq<byte>)
    requires Recorded(c, parts, parts', before, data) && parts != []
    ensures Concat(parts') == Concat(parts) + (LE(|data|, 8) + data)
  {
    hide LE, Concat;
    var n := |parts'| - 1;
    var record := LE(|data|, 8) + data;
    ConcatAppend(parts[..n], before + LE(|data|, 8) + data);
    if |parts'| == |parts| {
      assert parts == parts[..n] + [before];
      ConcatAppend(parts[..n], before);
    } else {
      assert parts[..n] == parts;
    }
    assert Concat(parts[..n]) + (before + LE(|data|, 8) + data) == Concat(parts[..n]) + before + record;
  }

  /** Writing a chunk adds its records, in order and nothing else, to what the parts hold together. */
  lemma {:induction false} WriteAppends(c: Config, files: seq<FileState>, disk: Disk, chunk: seq<Buffered>)
    requires WellFormed(c) && Stored(c, files, chunk, disk.parts) && !AnyStale(files, chunk)
    requires Open(disk)
    ensures Concat(WriteBlocks(c, files, disk, chunk).1.parts) == Concat(disk.parts) + Records(chunk)
    decreases chunk
  {
    hide Stored, WriteBlock, AnyStale, Recorded, LE, Concat, SizeAgrees;
    if chunk != [] {
      WriteKeepsHandles(c, files, disk, chunk);
      var (files', disk') := WriteBlock(c, files, disk, chunk[0]);
      WriteOneStored(c, files, disk, chunk);
      ChunkSizesAgree(c, files, chunk, disk.parts);
      var before := WriteBlockIs(c, files, disk, chunk[0]);
      RecordAppends(c, disk.parts, disk'.parts, before, chunk[0].encrypted);
      WriteAppends(c, files', disk', chunk[1..]);
      assert Concat(disk.parts) + (LE(|chunk[0].encrypted|, 8) + chunk[0].encrypted) + Records(chunk[1..])
          == Concat(disk.parts) + Records(chunk);
    }
  }

  lemma NoPartsStored(c: Config)
    requires WellFormed(c)
    ensures Stored(c, [], [], []) && Stored(c, [], [], [[]])
  {
  }

  lemma ChunkSizesAgree(c: Config, files: seq<FileState>, chunk: seq<Buffered>, parts: seq<seq<byte>>)
    requires WellFormed(c) && Stored(c, files, chunk, parts)
    ensures forall i :: 0 <= i < |chunk| ==> SizeAgrees(files, chunk[i])
  {
    forall i | 0 <= i < |chunk| ensures SizeAgrees(files, chunk[i]) {
      assert BufferGood(c, files, chunk[i]);
    }
  }

  lemma StoredKept(c: Config, s: State, a: Action)
    requires WellFormed(c) && Shape(c, s) && Working(c, |s.files|, s.queue, s.workers) && Enabled(c, s, a)
    requires Stored(c, s.files, s.chunk, s.disk.parts)
    ensures var s' := Apply(c, s, a); Stored(c, s'.files, s'.chunk, s'.disk.parts)
  {
    hide Blocks, IsBlock, Split, CryptCTR, WriteBlocks, AnyStale, Restores, JobGood, ReaderAgrees, Stored;
    match a
    case OpenPart => NoPartsStored(c);
    case NextFile => NewFileStored(c, s.files, s.chunk, s.disk.parts);
    case PushBlock(w) =>
      assert WorkerGood(c, |s.files|, s.workers[w]);
      var f := s.workers[w].file;
      var b := Buffered(Handle(f, |s.files[f].slots|, Append(c, s.files[f], s.workers[w].info).generation),
          s.workers[w].encrypted);
      PushStored(c, s.files, s.chunk, s.disk.parts, f, s.workers[w].info, b);
    case WriteChunk =>
      if !AnyStale(s.files, s.chunk) {
        WriteStored(c, s.files, s.disk, s.chunk);
      }
    case PushJob =>
    case FinishReading =>
    case TakeJob(w) =>
    case Compress(w, _, _) =>
    case Exit(w) =>
    case FinishChunks =>
    case Close =>
    case ExitWriter =>
  }

  // ---------- Sizes ----------

  /** How many bytes have been collected. */
  ghost function Sum(chunk: seq<Buffered>): nat
  {
    if chunk == [] then 0 else Sum(chunk[..|chunk| - 1]) + |chunk[|chunk| - 1].encrypted|
  }

  /** The counter m_currentChunkSize has 32 bits; every part but the first began with a block. */
  ghost predicate Counted(s: State)
  {
    && s.currentChunkSize == Sum(s.chunk) % U32
    && (s.disk.parts != [] ==> |s.disk.parts| + |s.chunk| <= 1 + |SlotIds(s.files)|)
  }

  lemma CountedByPush(c: Config, s: State, w: nat)
    requires WellFormed(c) && Counted(s) && Enabled(c, s, PushBlock(w))
    requires |s.workers[w].encrypted| == s.workers[w].info.compressedSize
    ensures Counted(Apply(c, s, PushBlock(w)))
  {
    hide SlotIds, FileIds, WellFormed, WriteBlocks, AnyStale, Sum;
    var s' := Apply(c, s, PushBlock(w));
    var f := s.workers[w].file;
    SumPush(s.chunk, s'.chunk[|s.chunk|]);
    SlotIdsPush(s.files, f, s'.files[f]);
    ModAdd(Sum(s.chunk), s.workers[w].info.compressedSize);
  }

  lemma SumPush(chunk: seq<Buffered>, b: Buffered)
    ensures Sum(chunk + [b]) == Sum(chunk) + |b.encrypted|
  {
    assert (chunk + [b])[..|chunk|] == chunk;
  }

  lemma RestoresSize(c: Config, f: nat, info: BlockInfo, encrypted: seq<byte>)
    requires WellFormed(c) && Restores(c, f, info, encrypted)
    ensures 0 < |encrypted| == info.compressedSize <= CompressBound(c.blockSize)
  {
  }

  lemma FinishedSize(c: Config, n: nat, w: Worker)
    requires WellFormed(c) && WorkerGood(c, n, w) && w.Finished?
    ensures |w.encrypted| == w.info.compressedSize
  {
    hide Restores, WellFormed;
    RestoresSize(c, w.file, w.info, w.encrypted);
  }

  lemma SlotIdsPush(files: seq<FileState>, f: nat, v: FileState)
    requires f < |files| && |v.slots| == |files[f].slots| + 1 && v.slots[..|files[f].slots|] == files[f].slots
    ensures |SlotIds(files[f := v])| == |SlotIds(files)| + 1
  {
    hide SlotIds, FileIds;
    var old', new' := FileIds(f, files[f].slots), FileIds(f, v.slots);
    SlotIdsUpdate(files, f, v);
    FileIdsPush(f, files[f].slots, v.slots);
    assert |SlotIds(files[f := v]) + old'| == |SlotIds(files[f := v])| + |old'|;
    assert |SlotIds(files) + new'| == |SlotIds(files)| + |new'|;
  }

  lemma FileIdsPush(f: nat, slots: seq<Slot>, slots': seq<Slot>)
    requires |slots'| == |slots| + 1 && slots'[..|slots|] == slots
    ensures |FileIds(f, slots')| == |FileIds(f, slots)| + 1
  {
  }

  lemma ModAdd(x: nat, y: nat)
    ensures (x % U32 + y) % U32 == (x + y) % U32
  {
  }

  lemma CountedKept(c: Config, s: State, a: Action)
    requires WellFormed(c) && Shape(c, s) && Working(c, |s.files|, s.queue, s.workers) && Enabled(c, s, a)
    requires Stored(c, s.files, s.chunk, s.disk.parts) && Counted(s)
    ensures Counted(Apply(c, s, a))
  {
    hide Blocks, IsBlock, Split, CryptCTR, WriteBlocks, AnyStale, Restores, JobGood, WorkerGood, ReaderAgrees,
        Stored, SlotIds;
    match a
    case NextFile =>
      assert Apply(c, s, a).files[..|s.files|] == s.files;
      NewFileIds(s.files);
    case OpenPart => NoIds(s.files);
    case PushBlock(w) =>
      FinishedSize(c, |s.files|, s.workers[w]);
      CountedByPush(c, s, w);
    case WriteChunk =>
      if !AnyStale(s.files, s.chunk) {
        WriteStored(c, s.files, s.disk, s.chunk);
        WriteKeepsIds(c, s.files, s.disk, s.chunk);
      }
    case PushJob =>
    case FinishReading =>
    case TakeJob(w) =>
    case Compress(w, _, _) =>
    case Exit(w) =>
    case FinishChunks =>
    case Close =>
    case ExitWriter =>
  }

  lemma NoIds(files: seq<FileState>)
    ensures 1 <= 1 + |SlotIds(files)|
  {
  }

  // ---------- The invariant ----------

  ghost predicate Invariant(c: Config, s: State)
    requires WellFormed(c)
  {
    && Shape(c, s) && Conserved(c, s) && Working(c, |s.files|, s.queue, s.workers)
    && Stored(c, s.files, s.chunk, s.disk.parts) && Counted(s)
  }

  /** Every step of every thread keeps the invariant. */
  lemma InvariantKept(c: Config, s: State, a: Action)
    requires WellFormed(c) && Invariant(c, s) && Enabled(c, s, a)
    ensures Invariant(c, Apply(c, s, a))
  {
    hide Shape, Conserved, Working, Stored, Counted, Enabled, Apply;
    ChunkSizesAgree(c, s.files, s.chunk, s.disk.parts);
    ShapeKept(c, s, a);
    ConservedKept(c, s, a);
    FilesGrow(c, s, a);
    WorkingKept(c, s, a);
    StoredKept(c, s, a);
    CountedKept(c, s, a);
  }

  lemma FilesGrow(c: Config, s: State, a: Action)
    requires WellFormed(c) && Shape(c, s) && Enabled(c, s, a)
    requires forall i :: 0 <= i < |s.chunk| ==> SizeAgrees(s.files, s.chunk[i])
    ensures |s.files| <= |Apply(c, s, a).files| <= |c.files|
  {
    hide Blocks, IsBlock, Split, WriteBlocks, AnyStale, SizeAgrees;
    if a.WriteChunk? && !AnyStale(s.files, s.chunk) {
      WriteKeepsShape(c, s.files, s.disk, s.chunk);
    }
  }

  /** The invariant holds in every state of every run. */
  lemma {:induction false} InvariantHolds(c: Config, run: seq<Action>)
    requires WellFormed(c) && After(c, run).Some?
    ensures Invariant(c, After(c, run).value)
  {
    hide Invariant, Enabled, Apply;
    if run == [] {
      InitHolds(c);
    } else {
      InvariantHolds(c, run[..|run| - 1]);
      InvariantKept(c, After(c, run[..|run| - 1]).value, run[|run| - 1]);
    }
  }

  lemma InitHolds(c: Config)
    requires WellFormed(c)
    ensures Invariant(c, Init(c))
  {
    InitConserved(c);
    NoPartsStored(c);
    IdleGood(c, 0);
    hide Conserved, Shape, Stored;
  }
}
