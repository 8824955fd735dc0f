/** The code around the threads: the loops of the reader, the worker and the writer, OpenFile, and
    the way of a file into the archive and back. */
module Archive {
  import opened Bytes
  import opened BlockFormat
  import opened BlockOutput
  import opened CtrMode
  import opened ArchiveIndex
  import opened Pipeline
  import opened PipelineInvariant
  import opened PipelineStorage
  import opened PipelineResult
  import opened PipelineSizes
  import opened PipelineRuns
  import opened HcCompress
  import DecoderApi

  // ---------- The loops of the threads ----------

  /** The loop of CompressDirectory over one file: all its jobs, in order. */
  method SplitFile(content: seq<byte>, blockSize: nat, file: nat) returns (jobs: seq<Job>)
    requires blockSize >= 1
    ensures |jobs| == |Split(content, blockSize)|
    ensures forall k :: 0 <= k < |jobs| ==> jobs[k] == Job(file, k, Split(content, blockSize)[k])
  {
    jobs := [];
    var remaining: nat, pos: nat, blockIndex: nat := |content|, 0, 0;
    assert content[0..] == content;
    while remaining > 0
      invariant pos + remaining == |content| && blockIndex == |jobs| <= |Split(content, blockSize)|
      invariant Split(content, blockSize)[blockIndex..] == Split(content[pos..], blockSize)
      invariant forall k :: 0 <= k < |jobs| ==> jobs[k] == Job(file, k, Split(content, blockSize)[k])
    {
      var toRead := Min(blockSize, remaining);
      ghost var all, rest := Split(content, blockSize), content[pos..];
      SplitStep(rest, blockSize);
      assert rest[..toRead] == content[pos..pos + toRead] && rest[toRead..] == content[pos + toRead..];
      assert all[blockIndex..][0] == all[blockIndex] && all[blockIndex..][1..] == all[blockIndex + 1..];
      jobs := jobs + [Job(file, blockIndex, content[pos..pos + toRead])];
      remaining, pos, blockIndex := remaining - toRead, pos + toRead, blockIndex + 1;
    }
    assert content[pos..] == [];
  }

  /** What a worker does with a job: level 9, into a buffer for a whole block.  The compression cannot
      fail, what it leaves as literals has no match with 256 candidates, and the outcome is that of a step
      of the model. */
  method CompressJob(c: Config, job: Job, key: seq<byte>, iv: seq<byte>)
    returns (info: BlockInfo, encrypted: seq<byte>, comp: seq<byte>, ghost ss: seq<Sequence>)
    requires WellFormed(c) && |job.data| <= c.blockSize
    ensures Compressed(c.blockSize, job.data, comp) && BlockOf(ss, comp, job.data)
    ensures Parsed(ss, job.data, 9, false, false)
    ensures info == BlockInfo(0, 0, |comp|, |job.data|, job.index, key, iv)
    ensures encrypted == CryptCTR(c.aes, comp, key, iv)
  {
    hide BlockOf, CryptCTR, Parsed, TooLong;
    var outBuffer := new byte[CompressBound(c.blockSize)];
    var compressedSize;
    compressedSize, ss := CompressHC(job.data, outBuffer, 9);
    comp := outBuffer[..compressedSize];
    assert IsBlock(comp, job.data);
    info := BlockInfo(0, 0, compressedSize, |job.data|, job.index, key, iv);
    encrypted := CryptCTR(c.aes, outBuffer[..compressedSize], key, iv);
  }

  /** The compressor that gives `comp` for `data`, and what c's gives for anything else. */
  function Giving(c: Config, data: seq<byte>, comp: seq<byte>): Config
  {
    c.(lz := d => if d == data then comp else c.lz(d))
  }

  /** What a worker has made of its job is a step of the model, with a compressor that gives just that. */
  lemma CompressIsStep(c: Config, s: State, w: nat, key: seq<byte>, iv: seq<byte>, comp: seq<byte>)
    requires WellFormed(c) && Enabled(c, s, Compress(w, key, iv))
    requires Compressed(c.blockSize, s.workers[w].job.data, comp)
    ensures var job := s.workers[w].job;
            var c', a := Giving(c, job.data, comp), Compress(w, key, iv);
            && WellFormed(c') && Enabled(c', s, a)
            && Apply(c', s, a) == s.(workers := s.workers[w := Finished(job.file,
                 BlockInfo(0, 0, |comp|, |job.data|, job.index, key, iv), CryptCTR(c.aes, comp, key, iv))])
  {
    hide CryptCTR, IsBlock;
    var data := s.workers[w].job.data;
    var c' := Giving(c, data, comp);
    forall d | 1 <= |d| <= c.blockSize ensures Compressed(c.blockSize, d, c'.lz(d)) {
      assert d != data ==> Compressed(c.blockSize, d, c.lz(d));
    }
  }

  /** The fields the writer thread updates. */
  class PartWriter {
    var files: seq<FileState>
    var disk: Disk

    constructor (files: seq<FileState>, disk: Disk)
      ensures this.files == files && this.disk == disk
    {
      this.files, this.disk := files, disk;
    }

    /** The loop of WriteChunkToFile over what has been collected. */
    method WriteChunk(c: Config, chunk: seq<Buffered>)
      requires !AnyStale(files, chunk) && disk.parts != []
      modifies this
      ensures (files, disk) == WriteBlocks(c, old(files), old(disk), chunk)
    {
      hide AnyStale, WriteBlock;
      var i := 0;
      assert chunk[0..] == chunk;
      while i < |chunk|
        invariant i <= |chunk| && !AnyStale(files, chunk[i..]) && disk.parts != []
        invariant WriteBlocks(c, files, disk, chunk[i..]) == WriteBlocks(c, old(files), old(disk), chunk)
      {
        WriteKeepsHandles(c, files, disk, chunk[i..]);
        assert chunk[i..][1..] == chunk[i + 1..] && chunk[i..][0] == chunk[i];
        WriteKeepsParts(c, files, disk, chunk[i]);
        var (files', disk') := WriteBlock(c, files, disk, chunk[i]);
        files, disk, i := files', disk', i + 1;
      }
      assert chunk[i..] == [];
    }
  }

  lemma WriteKeepsParts(c: Config, files: seq<FileState>, disk: Disk, b: Buffered)
    requires !Stale(files, b.handle) && disk.parts != []
    ensures WriteBlock(c, files, disk, b).1.parts != []
  {
  }

  // ---------- Opening a file ----------

  /** `n` bytes of a part file; what lies behind its end stays zero, as in a fresh buffer. */
  function ReadAt(part: seq<byte>, offset: nat, n: nat): (s: seq<byte>)
    ensures |s| == n
    ensures offset + n <= |part| ==> s == part[offset..offset + n]
  {
    seq(n, i requires 0 <= i < n => if offset + i < |part| then part[offset + i] else 0)
  }

  /** The bytes of a block as the decoder gets them. */
  function Decrypted(aes: BlockCipher, parts: seq<seq<byte>>, b: BlockInfo): seq<byte>
    requires b.partIndex < |parts|
  {
    CryptCTR(aes, ReadAt(parts[b.partIndex], b.offset, b.compressedSize), b.key, b.iv)
  }

  /** The block opens to `text`. */
  ghost predicate Opens(aes: BlockCipher, parts: seq<seq<byte>>, b: BlockInfo, text: seq<byte>)
  {
    && b.partIndex < |parts| && text != []
    && Decode(Decrypted(aes, parts, b), 0, [], Strict(b.originalSize)) == Some(text)
  }

  /** All that can be got out of the blocks. */
  ghost function Contents(aes: BlockCipher, parts: seq<seq<byte>>, bs: seq<BlockInfo>): Option<seq<byte>>
  {
    if bs == [] then Some([])
    else
      var n := |bs| - 1;
      match Contents(aes, parts, bs[..n])
      case None => None
      case Some(before) =>
        if bs[n].partIndex >= |parts| then None
        else match Decode(Decrypted(aes, parts, bs[n]), 0, [], Lenient)
          case None => None
          case Some(text) => Some(before + text)
  }

  /** FileStorage::OpenFile, for the map that was read from the index. */
  method OpenFile(aes: BlockCipher, parts: seq<seq<byte>>, infos: map<seq<wchar>, CompressInfo>, name: seq<wchar>,
          ghost texts: seq<seq<byte>>)
    returns (r: Option<seq<byte>>)
    ensures name !in infos ==> r == None
    ensures r.Some? ==> name in infos && r == Contents(aes, parts, infos[name].blocks)
    ensures name in infos && |texts| == |infos[name].blocks|
            && (forall k :: 0 <= k < |texts| ==> Opens(aes, parts, infos[name].blocks[k], texts[k]))
            ==> r == Some(Concat(texts))
  {
    hide Decode, Decrypted, Opens, Contents, Concat;
    if name !in infos { return None; }
    var blocks, data, k := infos[name].blocks, [], 0;
    NothingOpened(aes, parts, texts);
    ghost var opens := |texts| == |blocks| && forall k :: 0 <= k < |texts| ==> Opens(aes, parts, blocks[k], texts[k]);
    while k < |blocks|
      invariant k <= |blocks| && Contents(aes, parts, blocks[..k]) == Some(data)
      invariant opens ==> Concat(texts) == data + Concat(texts[k..])
    {
      var text := OpenBlock(aes, parts, blocks[k], if opens then texts[k] else []);
      if text.None? { return None; }
      ContentsStep(aes, parts, blocks, k, data, text.value);
      if opens { ConcatStep(texts, k, data); }
      data, k := data + text.value, k + 1;
    }
    assert blocks[..k] == blocks;
    if opens { assert texts[k..] == [] && data + [] == data; }
    return Some(data);
  }

  lemma NothingOpened(aes: BlockCipher, parts: seq<seq<byte>>, texts: seq<seq<byte>>)
    ensures Contents(aes, parts, []) == Some([]) && Concat([]) == [] && Concat(texts) == [] + Concat(texts[0..])
  {
    assert texts[0..] == texts;
  }

  lemma ContentsStep(aes: BlockCipher, parts: seq<seq<byte>>, blocks: seq<BlockInfo>, k: nat, data: seq<byte>,
          text: seq<byte>)
    requires k < |blocks| && Contents(aes, parts, blocks[..k]) == Some(data) && blocks[k].partIndex < |parts|
    requires Decode(Decrypted(aes, parts, blocks[k]), 0, [], Lenient) == Some(text)
    ensures Contents(aes, parts, blocks[..k + 1]) == Some(data + text)
  {
    hide Decode, Decrypted;
    assert blocks[..k + 1][..k] == blocks[..k];
  }

  lemma ConcatStep(texts: seq<seq<byte>>, k: nat, data: seq<byte>)
    requires k < |texts| && Concat(texts) == data + Concat(texts[k..])
    ensures Concat(texts) == (data + texts[k]) + Concat(texts[k + 1..])
  {
    assert texts[k..][0] == texts[k] && texts[k..][1..] == texts[k + 1..];
  }

  /** One block of OpenFile: read, decrypt, decompress. */
  method OpenBlock(aes: BlockCipher, parts: seq<seq<byte>>, b: BlockInfo, ghost text: seq<byte>)
    returns (r: Option<seq<byte>>)
    ensures r.Some? ==> b.partIndex < |parts| && Decode(Decrypted(aes, parts, b), 0, [], Lenient) == r
    ensures Opens(aes, parts, b, text) ==> r == Some(text)
  {
    hide Decode, CryptCTR;
    if b.partIndex >= |parts| { return None; }
    var decryptFile := Decrypted(aes, parts, b);
    var decomFile := new byte[b.originalSize];
    var decSize := DecoderApi.DecompressSafe(decryptFile, decomFile);
    if decSize <= 0 { return None; }
    return Some(decomFile[..decSize]);
  }

  // ---------- Into the archive and back ----------

  /** What is on disk of a block opens to the block. */
  lemma OnDiskOpens(c: Config, f: nat, info: BlockInfo, parts: seq<seq<byte>>)
    requires WellFormed(c) && OnDisk(c, f, info, parts)
    ensures Opens(c.aes, parts, info, Blocks(c, f)[info.blockIndex])
  {
    var text := Blocks(c, f)[info.blockIndex];
    NotEmpty(c, f, info.blockIndex);
    hide IsBlock, Decode, CryptCTR, Blocks, WellFormed, LE;
    BlockDecodes(Decrypted(c.aes, parts, info), text, info.originalSize);
  }

  lemma NotEmpty(c: Config, f: nat, k: nat)
    requires WellFormed(c) && f < |c.files| && k < |Blocks(c, f)|
    ensures 1 <= |Blocks(c, f)[k]|
  {
    hide Split;
    SplitConcat(c.files[f], c.blockSize);
  }

  /** What the index says about a file. */
  ghost function EntryOf(c: Config, s: State, names: seq<seq<wchar>>, f: nat): Entry
    requires f < |c.files| && f < |names| && f < |s.files|
  {
    Entry(names[f], CompressInfo(|c.files[f]|, Infos(s.files[f].slots)))
  }

  /** The entries of the map m_compressInfoMap, in whatever order it keeps them. */
  ghost predicate IsIndex(c: Config, s: State, names: seq<seq<wchar>>, es: seq<Entry>)
  {
    && |names| == |c.files| == |s.files| == |es| && DistinctNames(es)
    && (forall f :: 0 <= f < |names| ==> EntryOf(c, s, names, f) in es)
    && (forall k :: 0 <= k < |es| ==> exists f :: 0 <= f < |names| && es[k] == EntryOf(c, s, names, f))
  }

  /** Numbers, sizes and names fit the fields of the index. */
  ghost predicate Nameable(c: Config, names: seq<seq<wchar>>)
    requires WellFormed(c)
  {
    && |names| == |c.files| < 0x8000_0000 && TotalBlocks(c) < U32
    && (forall f :: 0 <= f < |names| ==> 2 * |names[f]| < U32)
    && (forall f :: 0 <= f < |c.files| ==> |c.files[f]| < U64)
  }

  /** Parts are few, and none is so large that an offset would not fit. */
  lemma PartsSmall(c: Config, s: State, f: nat, k: nat)
    requires WellFormed(c) && TotalBlocks(c) < U32 && Invariant(c, s) && Saved(s.files, f, k)
    ensures var info := Info(s.files, f, k); info.partIndex < U32 && info.offset < U64
  {
    hide Shape, Conserved, Working, BufferGood, Restores, TotalBlocks, SlotIds, Blocks;
    var info := Info(s.files, f, k);
    assert Has(s.files, f, k) && SlotGood(c, f, s.files[f].slots[k], s.disk.parts);
    assert OnDisk(c, f, info, s.disk.parts) && info.partIndex < |s.disk.parts|;
    SlotsFew(c, s);
    assert Lone(s.files, info.partIndex, |s.disk.parts[info.partIndex]|) ==> info.offset == 8;
  }

  lemma SlotsFew(c: Config, s: State)
    requires WellFormed(c) && Invariant(c, s)
    ensures |SlotIds(s.files)| <= TotalBlocks(c)
  {
    forall f: nat, k: nat ensures SlotIds(s.files)[(f, k)] <= AllIds(c, |c.files|)[(f, k)] {
      SomeOfAll(c, s, f, k);
    }
    hide Invariant, AllIds, SlotIds;
    FewerIds(SlotIds(s.files), AllIds(c, |c.files|));
  }

  lemma SlotStorable(c: Config, s: State, f: nat, k: nat)
    requires WellFormed(c) && TotalBlocks(c) < U32 && Invariant(c, s) && Saved(s.files, f, k) && f < |c.files|
    ensures StorableBlock(Info(s.files, f, k))
  {
    hide Invariant, TotalBlocks, InfoGood, StorableBlock;
    PartsSmall(c, s, f, k);
    SavedInfo(c, s, f, k);
    InfoStorable(c, f, Info(s.files, f, k));
  }

  lemma SavedInfo(c: Config, s: State, f: nat, k: nat)
    requires WellFormed(c) && Invariant(c, s) && Saved(s.files, f, k)
    ensures InfoGood(c, f, Info(s.files, f, k))
  {
    hide Shape, Conserved, Working, Counted, ChunkGood, AllApart, PartsFit, OnDisk, InfoGood;
    assert Has(s.files, f, k) && SlotGood(c, f, s.files[f].slots[k], s.disk.parts);
  }

  lemma InfoStorable(c: Config, f: nat, info: BlockInfo)
    requires WellFormed(c) && TotalBlocks(c) < U32 && InfoGood(c, f, info) && info.partIndex < U32 && info.offset < U64
    ensures StorableBlock(info)
  {
    hide Split, TotalBlocks;
    BlocksFew(c, f);
    SplitConcat(c.files[f], c.blockSize);
    BlocksAre(c, f);
  }

  lemma BlocksFew(c: Config, f: nat)
    requires WellFormed(c) && f < |c.files|
    ensures |Blocks(c, f)| <= TotalBlocks(c)
  {
    var n := |Blocks(c, f)|;
    FirstIdsSize(f, n);
    forall g: nat, k: nat ensures FirstIds(f, n)[(g, k)] <= AllIds(c, |c.files|)[(g, k)] {
      FirstIdsCount(f, n, g, k);
      AllIdsCount(c, |c.files|, g, k);
    }
    hide Blocks, AllIds, FirstIds;
    FewerIds(FirstIds(f, n), AllIds(c, |c.files|));
  }

  lemma EntryStorable(c: Config, s: State, names: seq<seq<wchar>>, f: nat)
    requires WellFormed(c) && Invariant(c, s) && Nameable(c, names)
    requires f < |c.files| == |s.files| && FileRestored(c, s, f)
    ensures Storable(EntryOf(c, s, names, f))
  {
    hide Invariant, TotalBlocks, Blocks, OnDisk, StorableBlock, Saved;
    var slots := s.files[f].slots;
    forall k | 0 <= k < |slots| ensures StorableBlock(slots[k].info) {
      assert Saved(s.files, f, k);
      SavedHas(s.files, f, k);
      SlotStorable(c, s, f, k);
    }
    SlotsBounded(c, s, f);
    BlocksFew(c, f);
  }

  lemma SavedHas(files: seq<FileState>, f: int, k: int)
    requires Saved(files, f, k)
    ensures Has(files, f, k)
  {
  }

  /** The whole way: whatever the threads did, if all is on disk, writing the index, reading it
      and opening a file gives the file's bytes. */
  method OpenArchived(c: Config, ghost s: State, names: seq<seq<wchar>>, es: seq<Entry>, parts: seq<seq<byte>>, f: nat,
          sort: Sort)
    returns (r: Option<seq<byte>>)
    requires Sorts(sort) && WellFormed(c) && Nameable(c, names) && f < |c.files|
    requires Invariant(c, s) && AllRestored(c, s) && s.disk.parts == parts
    requires IsIndex(c, s, names, es)
    ensures r == Some(c.files[f])
  {
    hide Invariant, TotalBlocks, ParseIndex, MapOf, IndexBytes, Storable, Blocks, Opens, OnDisk;
    forall k | 0 <= k < |es| ensures Storable(es[k]) {
      var g :| 0 <= g < |names| && es[k] == EntryOf(c, s, names, g);
      EntryStorable(c, s, names, g);
    }
    IndexRoundTrip(sort, es);
    MapHolds(sort, es, map[]);
    var indexFile := WriteIndex(es);
    var infos := ReadIndex(sort, indexFile);
    assert EntryOf(c, s, names, f) in es;
    AnySort(c, s, f, sort);
    RestoredOpens(c, s, f);
    SplitConcat(c.files[f], c.blockSize);
    BlocksAre(c, f);
    r := OpenFile(c.aes, parts, infos.value, names[f], Blocks(c, f));
  }

  lemma RestoredOpens(c: Config, s: State, f: nat)
    requires WellFormed(c) && FileRestored(c, s, f)
    ensures var sorted := SortBlocks(Infos(s.files[f].slots));
            |sorted| == |Blocks(c, f)| && forall k :: 0 <= k < |sorted| ==>
                Opens(c.aes, s.disk.parts, sorted[k], Blocks(c, f)[k])
  {
    hide Opens, OnDisk, Blocks;
    var sorted := SortBlocks(Infos(s.files[f].slots));
    forall k | 0 <= k < |sorted| ensures Opens(c.aes, s.disk.parts, sorted[k], Blocks(c, f)[k]) {
      OnDiskOpens(c, f, sorted[k], s.disk.parts);
    }
  }

  /** Every file that went into the archive comes out again, whatever the threads did, if a chunk
      size is set and less than 2^32 bytes are left behind, which means none. */
  method ArchiveRoundTrip(c: Config, ghost run: seq<Action>, names: seq<seq<wchar>>, es: seq<Entry>,
          parts: seq<seq<byte>>, f: nat, sort: Sort)
    returns (r: Option<seq<byte>>)
    requires Sorts(sort) && WellFormed(c) && Nameable(c, names) && f < |c.files|
    requires After(c, run).Some? && After(c, run).value.phase.Closed? && After(c, run).value.disk.parts == parts
    requires c.chunkSize > 0 && Sum(After(c, run).value.chunk) < U32
    requires IsIndex(c, After(c, run).value, names, es)
    ensures r == Some(c.files[f])
  {
    hide Invariant, TotalBlocks, IsIndex, AllRestored, After, Sum;
    InvariantHolds(c, run);
    FinishedRunExactly(c, run);
    r := OpenArchived(c, After(c, run).value, names, es, parts, f, sort);
  }

  /** That is so for every archive of less than 2^32 bytes, compressed. */
  lemma SmallArchive(c: Config, run: seq<Action>)
    requires WellFormed(c) && TotalSize(c) < U32 && After(c, run).Some?
    ensures Sum(After(c, run).value.chunk) < U32
  {
    hide Weighed, After, TotalSize, Sum;
    WeighedHolds(c, run);
    SumBounded(c, After(c, run).value);
  }
}
