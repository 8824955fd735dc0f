/** What a finished run has left on disk. */
module PipelineResult {
  import opened ArchiveIndex
  import opened Pipeline
  import opened PipelineInvariant
  import opened PipelineStorage

  // ---------- From all files to one ----------

  lemma {:induction false} FileIdsCount(f: nat, slots: seq<Slot>, g: nat, k: nat)
    requires f != g
    ensures FileIds(f, slots)[(g, k)] == 0
  {
    if slots != [] { FileIdsCount(f, slots[..|slots| - 1], g, k); }
  }

  lemma {:induction false} SlotIdsCount(files: seq<FileState>, f: nat, k: nat)
    ensures SlotIds(files)[(f, k)] == if f < |files| then FileIds(f, files[f].slots)[(f, k)] else 0
  {
    if files != [] {
      var n := |files| - 1;
      SlotIdsCount(files[..n], f, k);
      if f != n { FileIdsCount(n, files[n].slots, f, k); }
    }
  }

  lemma {:induction false} FirstIdsCount(f: nat, n: nat, g: nat, k: nat)
    ensures FirstIds(f, n)[(g, k)] == if f == g && k < n then 1 else 0
  {
    if n > 0 { FirstIdsCount(f, n - 1, g, k); }
  }

  lemma {:induction false} AllIdsCount(c: Config, n: nat, f: nat, k: nat)
    requires WellFormed(c) && n <= |c.files|
    ensures AllIds(c, n)[(f, k)] == if f < n && k < |Blocks(c, f)| then 1 else 0
  {
    hide Blocks, FirstIds, WellFormed;
    if n > 0 {
      AllIdsCount(c, n - 1, f, k);
      FirstIdsCount(n - 1, |Blocks(c, n - 1)|, f, k);
    }
  }

  // ---------- From the blocks of a file to their order ----------

  function Infos(slots: seq<Slot>): (infos: seq<BlockInfo>)
    ensures |infos| == |slots|
  {
    seq(|slots|, i requires 0 <= i < |slots| => slots[i].info)
  }

  /** The numbers of the blocks. */
  ghost function Indices(bs: seq<BlockInfo>): multiset<nat>
  {
    if bs == [] then multiset{} else Indices(bs[..|bs| - 1]) + multiset{bs[|bs| - 1].blockIndex}
  }

  ghost function Range(a: nat, n: nat): multiset<nat>
    decreases n
  {
    if n == 0 then multiset{} else multiset{a} + Range(a + 1, n - 1)
  }

  lemma {:induction false} RangeCount(a: nat, n: nat, k: nat)
    ensures Range(a, n)[k] == if a <= k < a + n then 1 else 0
    decreases n
  {
    if n > 0 { RangeCount(a + 1, n - 1, k); }
  }

  lemma {:induction false} IndicesCount(f: nat, slots: seq<Slot>, k: nat)
    ensures Indices(Infos(slots))[k] == FileIds(f, slots)[(f, k)]
  {
    if slots != [] {
      IndicesCount(f, slots[..|slots| - 1], k);
      assert Infos(slots)[..|slots| - 1] == Infos(slots[..|slots| - 1]);
    }
  }

  lemma {:induction false} IndicesCons(b: BlockInfo, bs: seq<BlockInfo>)
    ensures Indices([b] + bs) == multiset{b.blockIndex} + Indices(bs)
  {
    if bs == [] {
      assert ([b] + bs)[..0] == [];
    } else {
      IndicesCons(b, bs[..|bs| - 1]);
      assert ([b] + bs)[..|bs|] == [b] + bs[..|bs| - 1];
    }
  }

  lemma {:induction false} InsertIndices(b: BlockInfo, bs: seq<BlockInfo>)
    ensures Indices(InsertBlock(b, bs)) == multiset{b.blockIndex} + Indices(bs)
  {
    if bs == [] || b.blockIndex <= bs[0].blockIndex {
      IndicesCons(b, bs);
    } else {
      InsertIndices(b, bs[1..]);
      IndicesCons(bs[0], InsertBlock(b, bs[1..]));
      IndicesCons(bs[0], bs[1..]);
      assert bs == [bs[0]] + bs[1..];
    }
  }

  lemma {:induction false} SortIndices(bs: seq<BlockInfo>)
    ensures Indices(SortBlocks(bs)) == Indices(bs)
  {
    if bs != [] {
      SortIndices(bs[1..]);
      InsertIndices(bs[0], SortBlocks(bs[1..]));
      IndicesCons(bs[0], bs[1..]);
      assert bs == [bs[0]] + bs[1..];
    }
  }

  lemma {:induction false} IndicesSize(bs: seq<BlockInfo>)
    ensures |Indices(bs)| == |bs|
  {
    if bs != [] { IndicesSize(bs[..|bs| - 1]); }
  }

  lemma {:induction false} FindIndex(bs: seq<BlockInfo>, k: nat) returns (i: nat)
    requires k in Indices(bs)
    ensures i < |bs| && bs[i].blockIndex == k
  {
    var n := |bs| - 1;
    if bs[n].blockIndex == k { return n; }
    i := FindIndex(bs[..n], k);
  }

  lemma {:induction false} OrderedMeans(bs: seq<BlockInfo>, i: nat)
    requires Ordered(bs) && i < |bs|
    ensures Ordered(bs[1..]) && bs[0].blockIndex <= bs[i].blockIndex
  {
    assert i > 0 ==> bs[1..][i - 1] == bs[i];
  }

  lemma HeadCounts(bs: seq<BlockInfo>)
    requires bs != []
    ensures Indices(bs) == multiset{bs[0].blockIndex} + Indices(bs[1..])
  {
    assert bs == [bs[0]] + bs[1..];
    IndicesCons(bs[0], bs[1..]);
  }

  lemma RangeStep(a: nat, n: nat)
    requires n > 0
    ensures Range(a, n) == multiset{a} + Range(a + 1, n - 1)
  {
  }

  lemma LeastFirst(bs: seq<BlockInfo>, a: nat, n: nat)
    requires Ordered(bs) && Indices(bs) == Range(a, n) && n > 0
    ensures bs != [] && bs[0].blockIndex == a && Ordered(bs[1..]) && Indices(bs[1..]) == Range(a + 1, n - 1)
  {
    hide Range, Indices, Ordered;
    RangeCount(a, n, a);
    var i := FindIndex(bs, a);
    OrderedMeans(bs, i);
    HeadCounts(bs);
    RangeCount(a, n, bs[0].blockIndex);
    assert bs[0].blockIndex in Indices(bs);
    RangeStep(a, n);
    assert Indices(bs[1..]) == Indices(bs) - multiset{a};
    assert Range(a + 1, n - 1) == Range(a, n) - multiset{a};
  }

  /** Sorted, blocks with the numbers from `a` on stand in their places. */
  lemma {:induction false} InPlace(bs: seq<BlockInfo>, a: nat, n: nat)
    requires Ordered(bs) && Indices(bs) == Range(a, n)
    ensures |bs| == n && forall k :: 0 <= k < n ==> bs[k].blockIndex == a + k
    decreases n
  {
    hide Ordered;
    if n == 0 {
      IndicesSize(bs);
    } else {
      hide Range, Indices;
      LeastFirst(bs, a, n);
      InPlace(bs[1..], a + 1, n - 1);
      forall k | 0 <= k < n ensures bs[k].blockIndex == a + k {
        assert k > 0 ==> bs[k] == bs[1..][k - 1];
      }
    }
  }

  // ---------- The result ----------

  /** Every block of the file is on disk, and sorting finds them in order. */
  ghost predicate FileRestored(c: Config, s: State, f: nat)
    requires WellFormed(c)
  {
    && f < |s.files| && f < |c.files|
    && (forall k :: 0 <= k < |s.files[f].slots| ==> Saved(s.files, f, k))
    && var sorted := SortBlocks(Infos(s.files[f].slots));
       && |sorted| == |Blocks(c, f)|
       && forall k :: 0 <= k < |sorted| ==> sorted[k].blockIndex == k && OnDisk(c, f, sorted[k], s.disk.parts)
  }

  ghost predicate AllRestored(c: Config, s: State)
    requires WellFormed(c)
  {
    forall f :: 0 <= f < |c.files| ==> FileRestored(c, s, f)
  }

  lemma NothingUnderway(c: Config, s: State)
    requires WellFormed(c) && Invariant(c, s) && (s.phase.AllFinished? || s.phase.Closed?)
    ensures |s.files| == |c.files| && SlotIds(s.files) == AllIds(c, |c.files|)
  {
    hide Working, Stored, Counted, SlotIds, AllIds;
    NobodyHolds(s.workers);
    if |s.workers| > 0 {
      assert s.workers[0].Exited?;
    }
  }

  lemma FileInOrder(c: Config, s: State, f: nat)
    requires WellFormed(c) && f < |c.files| == |s.files| && SlotIds(s.files) == AllIds(c, |c.files|)
    ensures var sorted := SortBlocks(Infos(s.files[f].slots));
            |sorted| == |Blocks(c, f)| && forall k :: 0 <= k < |sorted| ==> sorted[k].blockIndex == k
  {
    hide Blocks, SlotIds, FileIds, AllIds, Range, Indices, Ordered, Infos;
    var bs, n := Infos(s.files[f].slots), |Blocks(c, f)|;
    forall k: nat ensures Indices(bs)[k] == Range(0, n)[k] {
      IndicesCount(f, s.files[f].slots, k);
      SlotIdsCount(s.files, f, k);
      AllIdsCount(c, |c.files|, f, k);
      RangeCount(0, n, k);
    }
    assert Indices(bs) == Range(0, n);
    SortKeeps(bs);
    SortIndices(bs);
    InPlace(SortBlocks(bs), 0, n);
  }

  /** When all has been written, every file can be restored. */
  lemma WrittenIsRestored(c: Config, s: State)
    requires WellFormed(c) && Invariant(c, s) && (s.phase.AllFinished? || s.phase.Closed?) && s.chunk == []
    ensures AllRestored(c, s)
  {
    NothingUnderway(c, s);
    forall f | 0 <= f < |c.files| ensures FileRestored(c, s, f) {
      FileInOrder(c, s, f);
      FileOnDisk(c, s, f);
    }
  }

  lemma FileOnDisk(c: Config, s: State, f: nat)
    requires WellFormed(c) && Stored(c, s.files, s.chunk, s.disk.parts) && s.chunk == [] && f < |s.files|
    ensures forall k :: 0 <= k < |s.files[f].slots| ==> Saved(s.files, f, k)
    ensures var sorted := SortBlocks(Infos(s.files[f].slots));
            forall k :: 0 <= k < |sorted| ==> OnDisk(c, f, sorted[k], s.disk.parts)
  {
    hide OnDisk, Ordered;
    var slots := s.files[f].slots;
    forall k | 0 <= k < |slots| ensures Saved(s.files, f, k) && OnDisk(c, f, slots[k].info, s.disk.parts) {
      assert Has(s.files, f, k) && SlotGood(c, f, s.files[f].slots[k], s.disk.parts);
      assert !InChunk(s.chunk, f, k);
    }
    var infos := Infos(slots);
    var sorted := SortBlocks(infos);
    SortKeeps(infos);
    forall k | 0 <= k < |sorted| ensures OnDisk(c, f, sorted[k], s.disk.parts) {
      assert sorted[k] in multiset(sorted);
      assert sorted[k] in infos;
      var i :| 0 <= i < |infos| && infos[i] == sorted[k];
      assert infos[i] == slots[i].info;
    }
  }

  lemma {:induction false} PlacesDistinct(bs: seq<BlockInfo>, a: nat)
    requires forall k :: 0 <= k < |bs| ==> bs[k].blockIndex == a + k
    ensures Distinct(bs)
  {
    if bs != [] {
      PlacesDistinct(bs[1..], a + 1);
    }
  }

  /** Whatever routine sorts the blocks of a file, it finds them in the same order. */
  lemma AnySort(c: Config, s: State, f: nat, sort: Sort)
    requires WellFormed(c) && FileRestored(c, s, f) && Sorts(sort)
    ensures sort(Infos(s.files[f].slots)) == SortBlocks(Infos(s.files[f].slots))
  {
    hide OnDisk, Ordered, Distinct, Infos;
    var infos := Infos(s.files[f].slots);
    SortKeeps(infos);
    PlacesDistinct(SortBlocks(infos), 0);
    assert Sorted(infos, sort(infos));
    SortIsUnique(SortBlocks(infos), sort(infos));
  }
}
