/** The threads of FileStorage::CompressAll as a state machine: the reader cuts files into blocks,
    workers compress and encrypt them, and the writer puts what has been collected into part files.
    A step is what one thread does under a lock, or what no other thread can see. */
module Pipeline {
  import opened Bytes
  import opened BlockFormat
  import opened BlockOutput
  import opened CtrMode
  import opened ArchiveIndex

  /** The input, the settings, and what runs depend on but is defined elsewhere: the compressor,
      the cipher, and how a full std::vector grows. */
  datatype Config = Config(files: seq<seq<byte>>, blockSize: nat, maxPartSize: nat, chunkSize: nat, threadCount: nat,
                           lz: seq<byte> -> seq<byte>, aes: BlockCipher, grow: nat -> nat)

  /** What LZ4_compress_HC may leave in a buffer for a whole block. */
  ghost predicate Compressed(blockSize: nat, data: seq<byte>, comp: seq<byte>)
  {
    0 < |comp| <= CompressBound(blockSize) && IsBlock(comp, data)
  }

  /** The compressor, which always gives the same for the same data, never fails on a block. */
  ghost predicate Compresses(blockSize: nat, lz: seq<byte> -> seq<byte>)
  {
    forall data {:trigger Compressed(blockSize, data, lz(data))} :: 1 <= |data| <= blockSize ==>
        Compressed(blockSize, data, lz(data))
  }

  /** There are such compressors: writing everything as literals is one. */
  lemma CompressorExists(blockSize: nat)
    requires blockSize <= LZ4_MAX_INPUT_SIZE
    ensures Compresses(blockSize, data => LastBytes(data))
  {
    hide Compressed;
    forall data: seq<byte> | 1 <= |data| <= blockSize ensures Compressed(blockSize, data, LastBytes(data)) {
      LiteralsCompress(blockSize, data);
    }
  }

  lemma LiteralsCompress(blockSize: nat, data: seq<byte>)
    requires 1 <= |data| <= blockSize <= LZ4_MAX_INPUT_SIZE
    ensures Compressed(blockSize, data, LastBytes(data))
  {
    hide LastBytes, ExtraBytes;
    ExtraSize(|data|);
    NoSequences();
    assert data[0..] == data;
    assert BlockOf([], LastBytes(data), data) by { hide Text, Emit; }
  }

  ghost predicate WellFormed(c: Config)
  {
    && 1 <= c.blockSize <= LZ4_MAX_INPUT_SIZE && c.threadCount > 1
    && c.maxPartSize < U32 && c.chunkSize < U32 && Compresses(c.blockSize, c.lz)
    && forall n :: c.grow(n) > n
  }

  /** A file cut into blocks, as the loop of CompressDirectory does it. */
  function Split(content: seq<byte>, blockSize: nat): (blocks: seq<seq<byte>>)
    requires blockSize >= 1
  {
    if content == [] then []
    else
      var toRead := Min(blockSize, |content|);
      [content[..toRead]] + Split(content[toRead..], blockSize)
  }

  function Blocks(c: Config, f: nat): seq<seq<byte>>
    requires WellFormed(c) && f < |c.files|
  {
    Split(c.files[f], c.blockSize)
  }

  function Concat(blocks: seq<seq<byte>>): seq<byte>
  {
    if blocks == [] then [] else blocks[0] + Concat(blocks[1..])
  }

  /** The blocks of a file make up the file; none is empty, and none is larger than a block. */
  lemma {:induction false} SplitConcat(content: seq<byte>, blockSize: nat)
    requires blockSize >= 1
    ensures Concat(Split(content, blockSize)) == content
    ensures forall k :: 0 <= k < |Split(content, blockSize)| ==> 1 <= |Split(content, blockSize)[k]| <= blockSize
    decreases |content|
  {
    if content != [] {
      var toRead := Min(blockSize, |content|);
      SplitConcat(content[toRead..], blockSize);
      assert content == content[..toRead] + content[toRead..];
    }
  }

  /** Every block but the last is as large as a block may be, and they stand one behind the other. */
  lemma {:induction false} SplitAt(content: seq<byte>, blockSize: nat, k: nat)
    requires blockSize >= 1 && k < |Split(content, blockSize)|
    ensures k * blockSize < |content|
    ensures Split(content, blockSize)[k] == content[k * blockSize..Min(k * blockSize + blockSize, |content|)]
    ensures k == |Split(content, blockSize)| - 1 <==> k * blockSize + blockSize >= |content|
    decreases k
  {
    var toRead := Min(blockSize, |content|);
    var rest := content[toRead..];
    FirstBlock(content, blockSize);
    hide Split;
    if k > 0 {
      SplitAt(rest, blockSize, k - 1);
      NextPlace(k, blockSize);
      var i, j := (k - 1) * blockSize, Min((k - 1) * blockSize + blockSize, |rest|);
      SliceOfRest(content, toRead, i, j);
    }
  }

  lemma SliceOfRest(content: seq<byte>, n: nat, i: nat, j: nat)
    requires n + j <= |content| && i <= j
    ensures content[n..][i..j] == content[n + i..n + j]
  {
  }

  lemma FirstBlock(content: seq<byte>, blockSize: nat)
    requires blockSize >= 1 && content != []
    ensures var toRead := Min(blockSize, |content|);
            && Split(content, blockSize) == [content[..toRead]] + Split(content[toRead..], blockSize)
            && (Split(content[toRead..], blockSize) == [] <==> toRead == |content|)
  {
  }

  lemma NextPlace(k: nat, blockSize: nat)
    requires k > 0
    ensures k * blockSize == (k - 1) * blockSize + blockSize
  {
  }

  // ---------- The state ----------

  /** JobInfo: a block that waits to be compressed. */
  datatype Job = Job(file: nat, index: nat, data: seq<byte>)

  /** What a worker thread is doing. */
  datatype Worker = Idle | Compressing(job: Job) | Finished(file: nat, info: BlockInfo, encrypted: seq<byte>) | Exited

  /** An element of m_blocks; its part and offset count only once it is written. */
  datatype Slot = Slot(info: BlockInfo, written: bool)

  /** The vector m_blocks of a file.  It moves to another place, in the next generation, when it
      must grow. */
  datatype FileState = FileState(slots: seq<Slot>, capacity: nat, generation: nat)

  /** The pointer &m_blocks.back(), good only as long as the vector stays where it is. */
  datatype Handle = Handle(file: nat, slot: nat, generation: nat)

  /** An element of m_chunk. */
  datatype Buffered = Buffered(handle: Handle, encrypted: seq<byte>)

  /** What the main thread is doing: the threads run before the first part file is open; `rest` is
      what remains of the file read last, `next` the file to be read next. */
  datatype Phase = Starting | Reading(next: nat, rest: seq<byte>, index: nat) | JobsFinished | AllFinished | Closed

  datatype State = State(phase: Phase, queue: seq<Job>, workers: seq<Worker>, files: seq<FileState>,
                         chunk: seq<Buffered>, currentChunkSize: nat, writerExited: bool,
                         disk: Disk, undefined: bool)

  /** The part files, of which the last is the one that is open, and m_currentPartFileSize. */
  datatype Disk = Disk(parts: seq<seq<byte>>, currentPartFileSize: nat)

  function Init(c: Config): State
  {
    State(Starting, [], seq(c.threadCount, _ => Idle), [], [], 0, false, Disk([], 0), false)
  }

  // ---------- The steps ----------

  datatype Action =
    | OpenPart | NextFile | PushJob | FinishReading        // main thread
    | TakeJob(w: nat) | Compress(w: nat, key: seq<byte>, iv: seq<byte>) | PushBlock(w: nat) | Exit(w: nat)
    | FinishChunks | Close                                 // main thread
    | WriteChunk | ExitWriter

  /** The condition the writer waits for. */
  predicate Awake(c: Config, s: State)
  {
    s.phase.AllFinished? || c.chunkSize <= s.currentChunkSize
  }

  predicate NothingToWrite(s: State)
  {
    (s.phase.AllFinished? && s.currentChunkSize == 0) || s.disk.parts == []
  }

  ghost predicate Enabled(c: Config, s: State, a: Action)
  {
    && !s.undefined && !s.phase.Closed?
    && match a
       case OpenPart => s.phase.Starting?
       case NextFile => s.phase.Reading? && s.phase.rest == [] && s.phase.next < |c.files|
       case PushJob => s.phase.Reading? && s.phase.rest != [] && s.phase.next >= 1 && c.blockSize >= 1
       case FinishReading => s.phase.Reading? && s.phase.rest == [] && s.phase.next == |c.files|
       case TakeJob(w) => w < |s.workers| && s.workers[w].Idle? && s.queue != []
       case Compress(w, key, iv) =>
         w < |s.workers| && s.workers[w].Compressing? && |key| == KEYSIZE && |iv| == IVSIZE
       case PushBlock(w) => w < |s.workers| && s.workers[w].Finished? && s.workers[w].file < |s.files|
       case Exit(w) => w < |s.workers| && s.workers[w].Idle? && s.queue == [] && s.phase.JobsFinished?
       case FinishChunks => s.phase.JobsFinished? && forall w :: 0 <= w < |s.workers| ==> s.workers[w].Exited?
       case Close => s.phase.AllFinished? && s.writerExited
       case WriteChunk => !s.writerExited && Awake(c, s) && !NothingToWrite(s)
       case ExitWriter => !s.writerExited && Awake(c, s) && NothingToWrite(s)
  }

  /** CompressDirectory: put a block of what remains into the queue. */
  function ApplyPushJob(c: Config, s: State): State
    requires Enabled(c, s, PushJob)
  {
    var p := s.phase;
    var toRead := Min(c.blockSize, |p.rest|);
    s.(queue := s.queue + [Job(p.next - 1, p.index, p.rest[..toRead])],
       phase := Reading(p.next, p.rest[toRead..], p.index + 1))
  }

  /** CompressWithThread, from compression to the metadata. */
  function ApplyCompress(c: Config, s: State, w: nat, key: seq<byte>, iv: seq<byte>): State
    requires Enabled(c, s, Compress(w, key, iv))
  {
    var job := s.workers[w].job;
    var comp := c.lz(job.data);
    var info := BlockInfo(0, 0, |comp|, |job.data|, job.index, key, iv);
    s.(workers := s.workers[w := Finished(job.file, info, CryptCTR(c.aes, comp, key, iv))])
  }

  /** push_back: a full vector moves. */
  function Append(c: Config, v: FileState, info: BlockInfo): FileState
  {
    var moved := |v.slots| == v.capacity;
    FileState(v.slots + [Slot(info, false)],
              if moved then c.grow(v.capacity) else v.capacity, if moved then v.generation + 1 else v.generation)
  }

  /** CompressWithThread, under the lock of the chunk. */
  function ApplyPushBlock(c: Config, s: State, w: nat): State
    requires Enabled(c, s, PushBlock(w))
  {
    var f, info := s.workers[w].file, s.workers[w].info;
    var v := Append(c, s.files[f], info);
    s.(workers := s.workers[w := Idle],
       files := s.files[f := v],
       currentChunkSize := (s.currentChunkSize + info.compressedSize) % U32,
       chunk := s.chunk + [Buffered(Handle(f, |s.files[f].slots|, v.generation), s.workers[w].encrypted)])
  }

  /** The pointer leads to a place that the vector has left, or to none. */
  predicate Stale(files: seq<FileState>, h: Handle)
  {
    h.file >= |files| || h.slot >= |files[h.file].slots| || h.generation != files[h.file].generation
  }

  ghost predicate AnyStale(files: seq<FileState>, chunk: seq<Buffered>)
  {
    exists i :: 0 <= i < |chunk| && Stale(files, chunk[i].handle)
  }

  /** WriteChunkToFile, for one block: open the next part if this one is full, then write the size,
      the data, and where they are. */
  function WriteBlock(c: Config, files: seq<FileState>, disk: Disk, b: Buffered): (seq<FileState>, Disk)
    requires !Stale(files, b.handle) && disk.parts != []
  {
    var (f, k) := (b.handle.file, b.handle.slot);
    var info := files[f].slots[k].info;
    var full := disk.currentPartFileSize + |b.encrypted| + 8 > c.maxPartSize;
    var parts := if full then disk.parts + [[]] else disk.parts;
    var last := |parts| - 1;
    var data := b.encrypted[..Min(info.compressedSize, |b.encrypted|)];
    var placed := info.(partIndex := last, offset := |parts[last]| + 8);
    (files[f := files[f].(slots := files[f].slots[k := Slot(placed, true)])],
     Disk(parts[last := parts[last] + LE(info.compressedSize, 8) + data],
          (if full then 0 else disk.currentPartFileSize) + 8 + info.compressedSize))
  }

  /** Writing moves no vector. */
  lemma WriteKeepsHandles(c: Config, files: seq<FileState>, disk: Disk, chunk: seq<Buffered>)
    requires chunk != [] && !AnyStale(files, chunk) && disk.parts != []
    ensures !Stale(files, chunk[0].handle)
    ensures !AnyStale(WriteBlock(c, files, disk, chunk[0]).0, chunk[1..])
  {
    var files' := WriteBlock(c, files, disk, chunk[0]).0;
    forall i | 0 <= i < |chunk[1..]| ensures !Stale(files', chunk[1..][i].handle) {
      assert chunk[1..][i] == chunk[i + 1] && !Stale(files, chunk[i + 1].handle);
    }
  }

  /** WriteChunkToFile, for all that has been collected. */
  function WriteBlocks(c: Config, files: seq<FileState>, disk: Disk, chunk: seq<Buffered>): (r: (seq<FileState>, Disk))
    requires !AnyStale(files, chunk) && disk.parts != []
    decreases chunk
  {
    if chunk == [] then (files, disk)
    else
      WriteKeepsHandles(c, files, disk, chunk);
      var (files', disk') := WriteBlock(c, files, disk, chunk[0]);
      WriteBlocks(c, files', disk', chunk[1..])
  }

  ghost function ApplyWriteChunk(c: Config, s: State): State
    requires s.disk.parts != []
  {
    if AnyStale(s.files, s.chunk) then s.(undefined := true)
    else
      var (files, disk) := WriteBlocks(c, s.files, s.disk, s.chunk);
      s.(files := files, disk := disk, chunk := [], currentChunkSize := 0)
  }

  ghost function Apply(c: Config, s: State, a: Action): State
    requires Enabled(c, s, a)
  {
    match a
    case OpenPart => s.(disk := s.disk.(parts := [[]]), phase := Reading(0, [], 0))
    case NextFile => s.(phase := Reading(s.phase.next + 1, c.files[s.phase.next], 0), files := s.files
        + [FileState([], 0, 0)])
    case PushJob => ApplyPushJob(c, s)
    case FinishReading => s.(phase := JobsFinished)
    case TakeJob(w) => s.(workers := s.workers[w := Compressing(s.queue[0])], queue := s.queue[1..])
    case Compress(w, key, iv) => ApplyCompress(c, s, w, key, iv)
    case PushBlock(w) => ApplyPushBlock(c, s, w)
    case Exit(w) => s.(workers := s.workers[w := Exited])
    case FinishChunks => s.(phase := AllFinished)
    case Close => s.(phase := Closed)
    case WriteChunk => ApplyWriteChunk(c, s)
    case ExitWriter => s.(writerExited := true)
  }

  // ---------- Runs ----------

  /** The state after the steps `run`, if each is enabled when it is made. */
  ghost function After(c: Config, run: seq<Action>): Option<State>
  {
    if run == [] then Some(Init(c))
    else match After(c, run[..|run| - 1])
      case None => None
      case Some(s) => if Enabled(c, s, run[|run| - 1]) then Some(Apply(c, s, run[|run| - 1])) else None
  }
}
