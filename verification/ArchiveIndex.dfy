/** The index of an archive: what CompressAll writes about every file and block, and what
    ResetCompressInfoMap makes of it. */
module ArchiveIndex {
  import opened Bytes
  import opened BlockFormat

  type wchar = u16

  const U32 := 0x1_0000_0000
  const U64 := 0x1_0000_0000_0000_0000
  const KEYSIZE := 32
  const IVSIZE := 16

  datatype BlockInfo = BlockInfo(partIndex: nat, offset: nat, compressedSize: nat, originalSize: nat, blockIndex: nat,
                                 key: seq<byte>, iv: seq<byte>)

  datatype CompressInfo = CompressInfo(totalOriginalSize: nat, blocks: seq<BlockInfo>)

  /** One node of the map: a file name and what is known about the file. */
  datatype Entry = Entry(name: seq<wchar>, info: CompressInfo)

  // ---------- Numbers ----------

  /** The lowest `width` bytes of a number, lowest first. */
  function LE(n: nat, width: nat): (s: seq<byte>)
    ensures |s| == width
  {
    if width == 0 then [] else [n % 256] + LE(n / 256, width - 1)
  }

  function FromLE(s: seq<byte>): nat
  {
    if s == [] then 0 else s[0] + 256 * FromLE(s[1..])
  }

  function Pow256(width: nat): (p: nat)
    ensures p >= 1
  {
    if width == 0 then 1 else 256 * Pow256(width - 1)
  }

  lemma Pow256Values()
    ensures Pow256(4) == U32 && Pow256(8) == U64 && Pow256(2) == 0x1_0000
  {
    assert Pow256(2) == 256 * Pow256(1) && Pow256(1) == 256 * Pow256(0);
    assert Pow256(4) == 256 * Pow256(3) && Pow256(3) == 256 * Pow256(2);
    assert Pow256(8) == 256 * Pow256(7) && Pow256(7) == 256 * Pow256(6) && Pow256(6) == 256 * Pow256(5)
        && Pow256(5) == 256 * Pow256(4);
  }

  /** A number that fits is read back. */
  lemma {:induction false} FromToLE(n: nat, width: nat)
    requires n < Pow256(width)
    ensures FromLE(LE(n, width)) == n
  {
    if width > 0 {
      FromToLE(n / 256, width - 1);
      assert LE(n, width)[1..] == LE(n / 256, width - 1);
    }
  }

  /** A field that was written is read. */
  lemma Field(file: seq<byte>, i: nat, n: nat, width: nat, rest: seq<byte>)
    requires At(file, i, LE(n, width) + rest) && n < Pow256(width)
    ensures i + width <= |file| && FromLE(file[i..i + width]) == n && At(file, i + width, rest)
  {
    FromToLE(n, width);
    AtSplit(file, i, LE(n, width), rest);
  }

  // ---------- Writing ----------

  function BlockBytes(b: BlockInfo): seq<byte>
  {
    LE(b.partIndex, 4) + (LE(b.offset, 8) + (LE(b.compressedSize, 8)
        + (LE(b.originalSize, 8) + (LE(b.blockIndex, 8) + (b.key + b.iv)))))
  }

  function BlocksBytes(bs: seq<BlockInfo>): seq<byte>
  {
    if bs == [] then [] else BlockBytes(bs[0]) + BlocksBytes(bs[1..])
  }

  function NameBytes(name: seq<wchar>): (s: seq<byte>)
    ensures |s| == 2 * |name|
  {
    if name == [] then [] else LE16(name[0]) + NameBytes(name[1..])
  }

  /** The counts are cut to 32 bits. */
  function EntryBytes(e: Entry): seq<byte>
  {
    LE(2 * |e.name| % U32, 4) + (NameBytes(e.name) + (LE(e.info.totalOriginalSize, 8)
        + (LE(|e.info.blocks| % U32, 4) + BlocksBytes(e.info.blocks))))
  }

  function EntriesBytes(es: seq<Entry>): seq<byte>
  {
    if es == [] then [] else EntryBytes(es[0]) + EntriesBytes(es[1..])
  }

  /** The index file, for the map entries in the order of the map. */
  function IndexBytes(es: seq<Entry>): seq<byte>
  {
    LE(|es| % U32, 4) + EntriesBytes(es)
  }

  // ---------- Reading ----------

  /** The 84 bytes of a block; nothing when the file ends before. */
  function ReadBlock(file: seq<byte>, i: nat): Option<BlockInfo>
  {
    if i + 84 > |file| then None
    else Some(BlockInfo(FromLE(file[i..i + 4]), FromLE(file[i + 4..i + 12]), FromLE(file[i + 12..i + 20]),
                        FromLE(file[i + 20..i + 28]), FromLE(file[i + 28..i + 36]), file[i + 36..i + 68],
                            file[i + 68..i + 84]))
  }

  function ReadBlocks(file: seq<byte>, i: nat, n: nat): Option<seq<BlockInfo>>
    decreases n
  {
    if n == 0 then Some([])
    else match (ReadBlock(file, i), ReadBlocks(file, i + 84, n - 1))
      case (Some(b), Some(bs)) => Some([b] + bs)
      case _ => None
  }

  /** The wide characters of `s`; an odd byte at the end is not one. */
  function Name(s: seq<byte>): seq<wchar>
  {
    if |s| < 2 then [] else [ReadLE16(s, 0)] + Name(s[2..])
  }

  /** Where an entry ends and what it says; the blocks are in the order of the file. */
  function ReadEntry(file: seq<byte>, i: nat): Option<(Entry, nat)>
  {
    if i + 4 > |file| then None
    else
      var j := i + 4 + FromLE(file[i..i + 4]);
      if j + 12 > |file| then None
      else
        var count := FromLE(file[j + 8..j + 12]);
        match ReadBlocks(file, j + 12, count)
        case None => None
        case Some(bs) =>
          var info := CompressInfo(FromLE(file[j..j + 8]), bs);
          Some((Entry(Name(file[i + 4..j]), info), j + 12 + 84 * count))
  }

  // ---------- Sorting ----------

  ghost predicate AllFrom(n: nat, bs: seq<BlockInfo>)
  {
    forall i :: 0 <= i < |bs| ==> n <= bs[i].blockIndex
  }

  /** Sorted by BlockInfo::operator<, which looks at the block index only. */
  ghost predicate Ordered(bs: seq<BlockInfo>)
  {
    bs != [] ==> AllFrom(bs[0].blockIndex, bs[1..]) && Ordered(bs[1..])
  }

  /** `cs` is what sorting `bs` may give. */
  ghost predicate Sorted(bs: seq<BlockInfo>, cs: seq<BlockInfo>)
  {
    Ordered(cs) && multiset(cs) == multiset(bs)
  }

  /** std::sort: any routine that sorts. */
  ghost predicate Sorts(sort: seq<BlockInfo> -> seq<BlockInfo>)
  {
    forall bs {:trigger Sorted(bs, sort(bs))} :: Sorted(bs, sort(bs))
  }

  function InsertBlock(b: BlockInfo, bs: seq<BlockInfo>): seq<BlockInfo>
  {
    if bs == [] || b.blockIndex <= bs[0].blockIndex then [b] + bs else [bs[0]] + InsertBlock(b, bs[1..])
  }

  /** One routine that sorts: insertion. */
  function SortBlocks(bs: seq<BlockInfo>): seq<BlockInfo>
  {
    if bs == [] then [] else InsertBlock(bs[0], SortBlocks(bs[1..]))
  }

  lemma {:induction false} InsertOrdered(b: BlockInfo, bs: seq<BlockInfo>, n: nat)
    requires Ordered(bs) && n <= b.blockIndex && AllFrom(n, bs)
    ensures Ordered(InsertBlock(b, bs)) && AllFrom(n, InsertBlock(b, bs))
  {
    if bs != [] {
      if bs[0].blockIndex < b.blockIndex {
        InsertOrdered(b, bs[1..], bs[0].blockIndex);
        assert InsertBlock(b, bs)[1..] == InsertBlock(b, bs[1..]);
      } else {
        assert InsertBlock(b, bs)[1..] == bs;
      }
    }
  }

  lemma {:induction false} InsertKeeps(b: BlockInfo, bs: seq<BlockInfo>)
    ensures multiset(InsertBlock(b, bs)) == multiset{b} + multiset(bs)
  {
    if bs != [] && bs[0].blockIndex < b.blockIndex {
      assert bs == [bs[0]] + bs[1..];
      InsertKeeps(b, bs[1..]);
    }
  }

  /** Sorting gives an ordered permutation. */
  lemma {:induction false} SortKeeps(bs: seq<BlockInfo>)
    ensures Sorted(bs, SortBlocks(bs))
  {
    if bs != [] {
      SortKeeps(bs[1..]);
      InsertOrdered(bs[0], SortBlocks(bs[1..]), 0);
      InsertKeeps(bs[0], SortBlocks(bs[1..]));
      assert bs == [bs[0]] + bs[1..];
    }
  }

  /** No block of `bs` has index `n`. */
  ghost predicate NoneHas(n: nat, bs: seq<BlockInfo>)
  {
    forall i :: 0 <= i < |bs| ==> bs[i].blockIndex != n
  }

  /** No two blocks have the same index. */
  ghost predicate Distinct(bs: seq<BlockInfo>)
  {
    bs != [] ==> NoneHas(bs[0].blockIndex, bs[1..]) && Distinct(bs[1..])
  }

  /** When no two blocks have the same index, there is only one ordered permutation: every sort
      gives the same. */
  lemma {:induction false} SortIsUnique(bs: seq<BlockInfo>, cs: seq<BlockInfo>)
    requires Ordered(bs) && Ordered(cs) && Distinct(bs) && multiset(bs) == multiset(cs)
    ensures bs == cs
  {
    assert |multiset(bs)| == |bs| && |multiset(cs)| == |cs|;
    if bs != [] {
      assert bs == [bs[0]] + bs[1..] && cs == [cs[0]] + cs[1..];
      SameHead(bs, cs);
      assert multiset(bs[1..]) == multiset(bs) - multiset{bs[0]};
      assert multiset(cs[1..]) == multiset(cs) - multiset{cs[0]};
      SortIsUnique(bs[1..], cs[1..]);
    }
  }

  lemma SameHead(bs: seq<BlockInfo>, cs: seq<BlockInfo>)
    requires bs != [] && cs != [] && Ordered(bs) && Ordered(cs) && Distinct(bs) && multiset(bs) == multiset(cs)
    ensures bs[0] == cs[0]
  {
    hide Ordered, Distinct;
    FirstIsLeast(bs, cs[0]);
    FirstIsLeast(cs, bs[0]);
    SameIndexSame(bs, cs[0]);
  }

  lemma FirstIsLeast(bs: seq<BlockInfo>, b: BlockInfo)
    requires bs != [] && Ordered(bs) && b in multiset(bs)
    ensures bs[0].blockIndex <= b.blockIndex
  {
    var i :| 0 <= i < |bs| && bs[i] == b;
    if i > 0 {
      assert bs[1..][i - 1] == b;
    }
  }

  lemma SameIndexSame(bs: seq<BlockInfo>, b: BlockInfo)
    requires bs != [] && Distinct(bs) && b in multiset(bs)
    ensures b.blockIndex == bs[0].blockIndex ==> b == bs[0]
  {
    var i :| 0 <= i < |bs| && bs[i] == b;
    if i > 0 {
      assert bs[1..][i - 1] == b;
    }
  }

  // ---------- The whole index ----------

  type Sort = seq<BlockInfo> -> seq<BlockInfo>

  /** What is kept of an entry: its blocks are sorted. */
  function Kept(sort: Sort, info: CompressInfo): CompressInfo
  {
    info.(blocks := sort(info.blocks))
  }

  function ReadEntries(sort: Sort, file: seq<byte>, i: nat, n: nat,
          m: map<seq<wchar>, CompressInfo>): Option<map<seq<wchar>, CompressInfo>>
    decreases n
  {
    if n == 0 then Some(m)
    else match ReadEntry(file, i)
      case None => None
      case Some((e, j)) => ReadEntries(sort, file, j, n - 1, m[e.name := Kept(sort, e.info)])
  }

  /** The number of files is read into an `int`: from 2^31 on it is negative, and an error. */
  function ParseIndex(sort: Sort, file: seq<byte>): Option<map<seq<wchar>, CompressInfo>>
  {
    if |file| < 4 then None
    else if FromLE(file[..4]) >= 0x8000_0000 then None
    else ReadEntries(sort, file, 4, FromLE(file[..4]), map[])
  }

  /** The map that holds the entries, with their blocks sorted. */
  function MapOf(sort: Sort, es: seq<Entry>, m: map<seq<wchar>, CompressInfo>): map<seq<wchar>, CompressInfo>
  {
    if es == [] then m else MapOf(sort, es[1..], m[es[0].name := Kept(sort, es[0].info)])
  }

  /** What fits the fields of the index. */
  ghost predicate StorableBlock(b: BlockInfo)
  {
    && b.partIndex < U32 && b.offset < U64 && b.compressedSize < U64 && b.originalSize < U64 && b.blockIndex < U64
    && |b.key| == KEYSIZE && |b.iv| == IVSIZE
  }

  ghost predicate Storable(e: Entry)
  {
    && 2 * |e.name| < U32 && e.info.totalOriginalSize < U64 && |e.info.blocks| < U32
    && forall i :: 0 <= i < |e.info.blocks| ==> StorableBlock(e.info.blocks[i])
  }

  lemma ReadBlockBytes(file: seq<byte>, i: nat, b: BlockInfo, rest: seq<byte>)
    requires At(file, i, BlockBytes(b) + rest) && StorableBlock(b)
    ensures ReadBlock(file, i) == Some(b) && At(file, i + 84, rest)
  {
    AtSplit(file, i, BlockBytes(b), rest);
    hide LE, FromLE, At, Pow256;
    Pow256Values();
    var r5 := b.key + b.iv;
    var r4 := LE(b.blockIndex, 8) + r5;
    var r3 := LE(b.originalSize, 8) + r4;
    var r2 := LE(b.compressedSize, 8) + r3;
    var r1 := LE(b.offset, 8) + r2;
    Field(file, i, b.partIndex, 4, r1);
    Field(file, i + 4, b.offset, 8, r2);
    Field(file, i + 12, b.compressedSize, 8, r3);
    Field(file, i + 20, b.originalSize, 8, r4);
    Field(file, i + 28, b.blockIndex, 8, r5);
    AtSplit(file, i + 36, b.key, b.iv);
    AtMeans(file, i + 36, b.key);
    AtMeans(file, i + 68, b.iv);
  }

  lemma AtMeans(file: seq<byte>, i: nat, e: seq<byte>)
    requires At(file, i, e)
    ensures i + |e| <= |file| && file[i..i + |e|] == e
  {
  }

  lemma {:induction false} ReadBlocksBytes(file: seq<byte>, i: nat, bs: seq<BlockInfo>, rest: seq<byte>)
    requires At(file, i, BlocksBytes(bs) + rest)
    requires forall k :: 0 <= k < |bs| ==> StorableBlock(bs[k])
    ensures ReadBlocks(file, i, |bs|) == Some(bs) && At(file, i + 84 * |bs|, rest)
    decreases |bs|
  {
    hide ReadBlock, BlockBytes, StorableBlock, At;
    if bs == [] {
      assert BlocksBytes(bs) + rest == rest;
    } else {
      assert BlocksBytes(bs) + rest == BlockBytes(bs[0]) + (BlocksBytes(bs[1..]) + rest);
      ReadBlockBytes(file, i, bs[0], BlocksBytes(bs[1..]) + rest);
      ReadBlocksBytes(file, i + 84, bs[1..], rest);
      assert bs == [bs[0]] + bs[1..];
    }
  }

  lemma {:induction false} NameIsRead(name: seq<wchar>)
    ensures Name(NameBytes(name)) == name
  {
    if name != [] {
      NameIsRead(name[1..]);
      assert NameBytes(name)[2..] == NameBytes(name[1..]);
      assert ReadLE16(NameBytes(name), 0) == name[0];
      assert name == [name[0]] + name[1..];
    }
  }

  lemma ReadEntryBytes(file: seq<byte>, i: nat, e: Entry, rest: seq<byte>)
    requires At(file, i, EntryBytes(e) + rest) && Storable(e)
    ensures ReadEntry(file, i) == Some((e, i + |EntryBytes(e)|)) && At(file, i + |EntryBytes(e)|, rest)
  {
    hide LE, FromLE, At, Pow256, BlocksBytes, ReadBlocks, StorableBlock, NameBytes, Name;
    Pow256Values();
    var n := |e.info.blocks|;
    var j := i + 4 + 2 * |e.name|;
    var r3 := BlocksBytes(e.info.blocks);
    var r2 := LE(n % U32, 4) + r3;
    var r1 := LE(e.info.totalOriginalSize, 8) + r2;
    var r0 := NameBytes(e.name) + r1;
    AtSplit(file, i, EntryBytes(e), rest);
    Field(file, i, 2 * |e.name| % U32, 4, r0);
    AtSplit(file, i + 4, NameBytes(e.name), r1);
    AtMeans(file, i + 4, NameBytes(e.name));
    NameIsRead(e.name);
    Field(file, j, e.info.totalOriginalSize, 8, r2);
    Field(file, j + 8, n % U32, 4, r3);
    assert r3 + [] == r3;
    ReadBlocksBytes(file, j + 12, e.info.blocks, []);
    BlocksLength(e.info.blocks);
  }

  lemma {:induction false} BlocksLength(bs: seq<BlockInfo>)
    requires forall k :: 0 <= k < |bs| ==> StorableBlock(bs[k])
    ensures |BlocksBytes(bs)| == 84 * |bs|
  {
    if bs != [] {
      assert StorableBlock(bs[0]);
      BlocksLength(bs[1..]);
    }
  }

  lemma {:induction false} ReadEntriesBytes(sort: Sort, file: seq<byte>, i: nat, es: seq<Entry>, rest: seq<byte>,
          m: map<seq<wchar>, CompressInfo>)
    requires At(file, i, EntriesBytes(es) + rest)
    requires forall k :: 0 <= k < |es| ==> Storable(es[k])
    ensures ReadEntries(sort, file, i, |es|, m) == Some(MapOf(sort, es, m))
    decreases |es|
  {
    hide ReadEntry, EntryBytes, Storable, At, Kept;
    if es != [] {
      assert EntriesBytes(es) + rest == EntryBytes(es[0]) + (EntriesBytes(es[1..]) + rest);
      ReadEntryBytes(file, i, es[0], EntriesBytes(es[1..]) + rest);
      ReadEntriesBytes(sort, file, i + |EntryBytes(es[0])|, es[1..], rest, m[es[0].name := Kept(sort, es[0].info)]);
    }
  }

  /** No name comes twice, as in any map. */
  ghost predicate DistinctNames(es: seq<Entry>)
  {
    forall i, j :: 0 <= i < j < |es| ==> es[i].name != es[j].name
  }

  /** What the map says about each file. */
  lemma {:induction false} MapHolds(sort: Sort, es: seq<Entry>, m: map<seq<wchar>, CompressInfo>)
    requires DistinctNames(es)
    ensures forall k :: 0 <= k < |es| ==>
              es[k].name in MapOf(sort, es, m) && MapOf(sort, es, m)[es[k].name] == Kept(sort, es[k].info)
    ensures forall name :: name in MapOf(sort, es, m) ==> name in m || exists k :: 0 <= k < |es| && es[k].name == name
    ensures forall name :: name in m && (forall k :: 0 <= k < |es| ==> es[k].name != name) ==>
        name in MapOf(sort, es, m) && MapOf(sort, es, m)[name] == m[name]
  {
    hide Kept;
    if es != [] {
      MapHolds(sort, es[1..], m[es[0].name := Kept(sort, es[0].info)]);
      forall k | 0 <= k < |es| ensures es[k].name in MapOf(sort, es, m)
          && MapOf(sort, es, m)[es[k].name] == Kept(sort, es[k].info) {
        assert k > 0 ==> es[1..][k - 1] == es[k];
      }
    }
  }

  /** Reading the index gives back the map that was written, exactly if there are fewer than 2^31
      files: of more, either the count is taken for negative or some are lost. */
  lemma IndexRoundTrip(sort: Sort, es: seq<Entry>)
    requires DistinctNames(es) && forall k :: 0 <= k < |es| ==> Storable(es[k])
    ensures ParseIndex(sort, IndexBytes(es)) == Some(MapOf(sort, es, map[])) <==> |es| < 0x8000_0000
  {
    hide FromLE, Storable, IndexBytes, EntriesBytes, ReadEntries, MapOf, DistinctNames, At;
    var n := |es| % U32;
    CountIsRead(es);
    if n < 0x8000_0000 {
      ReadFirst(sort, IndexBytes(es), es, n);
      if n < |es| {
        FewerEntries(sort, es, n);
      } else {
        assert es[..n] == es;
      }
    }
  }

  lemma CountIsRead(es: seq<Entry>)
    ensures var file := IndexBytes(es);
            |file| >= 4 && FromLE(file[..4]) == |es| % U32 && At(file, 4, EntriesBytes(es))
  {
    hide LE, FromLE, EntriesBytes, Pow256;
    Pow256Values();
    var file := IndexBytes(es);
    Whole(file);
    Field(file, 0, |es| % U32, 4, EntriesBytes(es));
    assert file[..4] == file[0..4];
  }

  lemma Whole(file: seq<byte>)
    ensures At(file, 0, file)
  {
  }

  lemma ReadFirst(sort: Sort, file: seq<byte>, es: seq<Entry>, n: nat)
    requires n <= |es| && At(file, 4, EntriesBytes(es)) && forall k :: 0 <= k < |es| ==> Storable(es[k])
    ensures ReadEntries(sort, file, 4, n, map[]) == Some(MapOf(sort, es[..n], map[]))
  {
    hide ReadEntries, Storable, EntriesBytes;
    EntriesSplit(es, n);
    ReadEntriesBytes(sort, file, 4, es[..n], EntriesBytes(es[n..]), map[]);
  }

  lemma {:induction false} EntriesSplit(es: seq<Entry>, n: nat)
    requires n <= |es|
    ensures EntriesBytes(es) == EntriesBytes(es[..n]) + EntriesBytes(es[n..])
    decreases n
  {
    hide EntryBytes;
    if n == 0 {
      assert es[n..] == es;
    } else {
      EntriesSplit(es[1..], n - 1);
      assert es[1..][..n - 1] == es[..n][1..] && es[1..][n - 1..] == es[n..];
      assert EntriesBytes(es) == EntryBytes(es[0]) + (EntriesBytes(es[..n][1..]) + EntriesBytes(es[n..]));
      assert EntriesBytes(es[..n]) == EntryBytes(es[0]) + EntriesBytes(es[..n][1..]);
    }
  }

  lemma FewerEntries(sort: Sort, es: seq<Entry>, n: nat)
    requires n < |es| && DistinctNames(es)
    ensures MapOf(sort, es[..n], map[]) != MapOf(sort, es, map[])
  {
    hide MapOf;
    MapHolds(sort, es, map[]);
    MapHolds(sort, es[..n], map[]);
    assert es[n].name in MapOf(sort, es, map[]);
    assert forall k :: 0 <= k < n ==> es[..n][k] == es[k];
  }

  // ---------- The code ----------

  /** The end of CompressAll: write the entries one after the other. */
  method WriteIndex(es: seq<Entry>) returns (file: seq<byte>)
    ensures file == IndexBytes(es)
  {
    hide EntryBytes, LE;
    file := LE(|es| % U32, 4);
    var k := 0;
    while k < |es|
      invariant k <= |es| && file + EntriesBytes(es[k..]) == IndexBytes(es)
    {
      var e := WriteEntry(es[k]);
      ghost var rest := EntriesBytes(es[k + 1..]);
      assert es[k..][1..] == es[k + 1..];
      assert file + (e + rest) == file + e + rest;
      file, k := file + e, k + 1;
    }
    assert file + [] == file;
  }

  method WriteEntry(e: Entry) returns (bytes: seq<byte>)
    ensures bytes == EntryBytes(e)
  {
    hide LE, BlockBytes, NameBytes;
    bytes := LE(2 * |e.name| % U32, 4) + NameBytes(e.name) + LE(e.info.totalOriginalSize, 8)
        + LE(|e.info.blocks| % U32, 4);
    var bs, j := e.info.blocks, 0;
    assert bs[0..] == bs;
    while j < |bs|
      invariant j <= |bs| && bytes + BlocksBytes(bs[j..]) == EntryBytes(e)
    {
      ghost var b, rest := BlockBytes(bs[j]), BlocksBytes(bs[j + 1..]);
      assert bs[j..][1..] == bs[j + 1..];
      assert bytes + (b + rest) == bytes + b + rest;
      bytes, j := bytes + BlockBytes(bs[j]), j + 1;
    }
    assert bytes + [] == bytes;
  }

  /** ResetCompressInfoMap: read the entries into the map, and sort the blocks of each. */
  method ReadIndex(sort: Sort, file: seq<byte>) returns (r: Option<map<seq<wchar>, CompressInfo>>)
    ensures r == ParseIndex(sort, file)
  {
    hide ReadEntry, FromLE, Kept;
    if |file| < 4 { return None; }
    var fileCount := FromLE(file[..4]);
    if fileCount >= 0x8000_0000 { return None; }
    var infos: map<seq<wchar>, CompressInfo>, i, k := map[], 4, 0;
    while k < fileCount
      invariant k <= fileCount && ReadEntries(sort, file, i, fileCount - k, infos) == ParseIndex(sort, file)
    {
      match ReadEntry(file, i)
      case None => return None;
      case Some((e, j)) =>
        infos, i, k := infos[e.name := Kept(sort, e.info)], j, k + 1;
    }
    return Some(infos);
  }
}
