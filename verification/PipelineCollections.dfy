/** When the sizes of blocks cannot deceive the writer's counter, whatever it has collected. */
module PipelineCollections {
  import opened Bytes
  import opened ArchiveIndex
  import opened Pipeline
  import opened PipelineInvariant
  import opened PipelineStorage
  import opened PipelineResult
  import opened PipelineSizes
  import opened PipelineRuns

  ghost predicate IsId(c: Config, id: Id)
    requires WellFormed(c)
  {
    id.0 < |c.files| && id.1 < |Blocks(c, id.0)|
  }

  /** Blocks of the archive, none twice. */
  ghost predicate Collection(c: Config, ids: seq<Id>)
    requires WellFormed(c)
  {
    && (forall i :: 0 <= i < |ids| ==> IsId(c, ids[i]))
    && (forall i, j :: 0 <= i < j < |ids| ==> ids[i] != ids[j])
  }

  /** Their size, compressed. */
  ghost function Sizes(c: Config, ids: seq<Id>): nat
    requires WellFormed(c) && forall i :: 0 <= i < |ids| ==> IsId(c, ids[i])
  {
    if ids == [] then 0
    else
      var id := ids[|ids| - 1];
      assert IsId(c, id);
      Sizes(c, ids[..|ids| - 1]) + |c.lz(Blocks(c, id.0)[id.1])|
  }

  /** No blocks add up to a multiple of 2^32 bytes. */
  ghost predicate NeverFull(c: Config)
    requires WellFormed(c)
  {
    forall ids :: Collection(c, ids) && ids != [] ==> Sizes(c, ids) % U32 != 0
  }

  // ---------- What is collected is a collection ----------

  ghost function IdOf(files: seq<FileState>, h: Handle): Id
  {
    (h.file, if Has(files, h.file, h.slot) then Info(files, h.file, h.slot).blockIndex else 0)
  }

  ghost function ChunkIds(files: seq<FileState>, chunk: seq<Buffered>): (ids: seq<Id>)
    ensures |ids| == |chunk| && forall i :: 0 <= i < |ids| ==> ids[i] == IdOf(files, chunk[i].handle)
  {
    seq(|chunk|, i requires 0 <= i < |chunk| => IdOf(files, chunk[i].handle))
  }

  lemma BufferSize(c: Config, files: seq<FileState>, b: Buffered)
    requires WellFormed(c) && BufferGood(c, files, b)
    ensures var id := IdOf(files, b.handle); IsId(c, id) && |b.encrypted| == |c.lz(Blocks(c, id.0)[id.1])|
  {
    hide WellFormed;
  }

  lemma {:induction false} SumIsSizes(c: Config, files: seq<FileState>, chunk: seq<Buffered>)
    requires WellFormed(c) && forall i :: 0 <= i < |chunk| ==> BufferGood(c, files, chunk[i])
    ensures forall i :: 0 <= i < |chunk| ==> IsId(c, ChunkIds(files, chunk)[i])
    ensures Sum(chunk) == Sizes(c, ChunkIds(files, chunk))
  {
    hide WellFormed, BufferGood, IsId, IdOf, ChunkIds;
    if chunk != [] {
      var n := |chunk| - 1;
      SumIsSizes(c, files, chunk[..n]);
      assert ChunkIds(files, chunk)[..n] == ChunkIds(files, chunk[..n]);
      BufferSize(c, files, chunk[n]);
    }
  }

  lemma {:induction false} CountedOnce(f: nat, slots: seq<Slot>, k: nat)
    requires k < |slots|
    ensures FileIds(f, slots)[(f, slots[k].info.blockIndex)] >= 1
  {
    if k < |slots| - 1 { CountedOnce(f, slots[..|slots| - 1], k); }
  }

  lemma {:induction false} CountedTwice(f: nat, slots: seq<Slot>, k: nat, l: nat)
    requires k < l < |slots| && slots[k].info.blockIndex == slots[l].info.blockIndex
    ensures FileIds(f, slots)[(f, slots[k].info.blockIndex)] >= 2
  {
    var n := |slots| - 1;
    if l < n { CountedTwice(f, slots[..n], k, l); } else { CountedOnce(f, slots[..n], k); }
  }

  /** No block is in the metadata twice. */
  lemma NumbersDiffer(c: Config, s: State, f: nat, k: nat, l: nat)
    requires WellFormed(c) && Invariant(c, s) && f < |s.files| && k < l < |s.files[f].slots|
    ensures Info(s.files, f, k).blockIndex != Info(s.files, f, l).blockIndex
  {
    hide Invariant, WellFormed, Blocks, AllIds, SlotIds, FileIds;
    var slots := s.files[f].slots;
    if slots[k].info.blockIndex == slots[l].info.blockIndex {
      var i := slots[k].info.blockIndex;
      CountedTwice(f, slots, k, l);
      SlotIdsCount(s.files, f, i);
      SomeOfAll(c, s, f, i);
      AllIdsCount(c, |c.files|, f, i);
    }
  }

  lemma InvariantChunk(c: Config, s: State)
    requires WellFormed(c) && Invariant(c, s)
    ensures forall i :: 0 <= i < |s.chunk| ==> BufferGood(c, s.files, s.chunk[i])
    ensures forall i, j :: 0 <= i < j < |s.chunk| ==> !SamePlace(s.chunk[i].handle, s.chunk[j].handle)
  {
    hide WellFormed, Shape, Conserved, Working, Counted, BufferGood, AllSlotsGood, AllApart, PartsFit;
  }

  lemma CollectedIsCollection(c: Config, s: State)
    requires WellFormed(c) && Invariant(c, s)
    ensures Collection(c, ChunkIds(s.files, s.chunk)) && Sum(s.chunk) == Sizes(c, ChunkIds(s.files, s.chunk))
  {
    hide Invariant, WellFormed, Sum, Sizes, Restores, IsId;
    InvariantChunk(c, s);
    SumIsSizes(c, s.files, s.chunk);
    var ids := ChunkIds(s.files, s.chunk);
    forall i, j | 0 <= i < j < |ids| ensures ids[i] != ids[j] {
      var a, b := s.chunk[i].handle, s.chunk[j].handle;
      assert BufferGood(c, s.files, s.chunk[i]) && BufferGood(c, s.files, s.chunk[j]);
      if a.file == b.file {
        if a.slot < b.slot { NumbersDiffer(c, s, a.file, a.slot, b.slot); }
        else { NumbersDiffer(c, s, a.file, b.slot, a.slot); }
      }
    }
  }

  // ---------- Archives of any size ----------

  /** If no blocks add up to a multiple of 2^32 bytes, the counter is never wrong about a chunk. */
  lemma CounterTellsTruth(c: Config, run: seq<Action>)
    requires WellFormed(c) && NeverFull(c) && After(c, run).Some?
    ensures After(c, run).value.currentChunkSize == 0 <==> After(c, run).value.chunk == []
  {
    hide Invariant, WellFormed, Sum, Sizes, After, BufferGood, Collection;
    var s := After(c, run).value;
    InvariantHolds(c, run);
    CollectedIsCollection(c, s);
    CounterIs(c, s);
    EmptySum(s.chunk);
  }

  lemma CounterIs(c: Config, s: State)
    requires WellFormed(c) && Invariant(c, s)
    ensures s.currentChunkSize == Sum(s.chunk) % U32
  {
    hide WellFormed, Shape, Conserved, Working, Stored, Sum;
  }

  /** Then, however large the archive is, every run is right exactly if there is nothing to archive,
      or a chunk size is set and no vector must move. */
  lemma LargeCorrectExactly(c: Config)
    requires WellFormed(c) && NeverFull(c)
    ensures AlwaysCorrect(c) <==> TotalBlocks(c) == 0 || (c.chunkSize > 0 && FilesFit(c))
  {
    hide Invariant, WellFormed, FilesFit, NeverFull, Correct, After, Sum, BufferGood, TotalBlocks, TotalSize;
    CorrectOnlyIf(c);
    if TotalBlocks(c) == 0 || (c.chunkSize > 0 && FilesFit(c)) {
      forall run | After(c, run).Some? ensures Correct(c, After(c, run).value) {
        if TotalBlocks(c) == 0 { RunIsCorrect(c, run); } else { LargeRunIsCorrect(c, run); }
      }
    }
  }

  lemma LargeRunIsCorrect(c: Config, run: seq<Action>)
    requires WellFormed(c) && c.chunkSize > 0 && FilesFit(c) && NeverFull(c) && After(c, run).Some?
    ensures Correct(c, After(c, run).value)
  {
    hide Invariant, WellFormed, FilesFit, NeverFull, After, Sum, BufferGood, TotalBlocks, AllRestored;
    var s := After(c, run).value;
    NeverUndefined(c, run);
    if s.phase.Closed? {
      FinishedRunExactly(c, run);
      CounterTellsTruth(c, run);
      InvariantHolds(c, run);
      CounterIs(c, s);
      EmptySum(s.chunk);
    }
  }
}
