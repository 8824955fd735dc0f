/** Which byte of the index file holds what, without regard to how it is written or read. */
module IndexLayout {
  import opened Bytes
  import opened BlockFormat
  import opened ArchiveIndex

  // ---------- The layout ----------

  /** The `width` bytes at `i` are those of `n`, lowest first. */
  ghost predicate FieldAt(file: seq<byte>, i: nat, width: nat, n: nat)
  {
    i + width <= |file| && forall m :: 0 <= m < width ==> file[i + m] == n / Pow256(m) % 256
  }

  /** The 84 bytes of a block. */
  ghost predicate BlockAt(file: seq<byte>, i: nat, b: BlockInfo)
  {
    && FieldAt(file, i, 4, b.partIndex)
    && FieldAt(file, i + 4, 8, b.offset)
    && FieldAt(file, i + 12, 8, b.compressedSize)
    && FieldAt(file, i + 20, 8, b.originalSize)
    && FieldAt(file, i + 28, 8, b.blockIndex)
    && i + 84 <= |file| && file[i + 36..i + 68] == b.key && file[i + 68..i + 84] == b.iv
  }

  /** A file: the length of its name in bytes, the name, its size, how many blocks it has, and these. */
  ghost predicate EntryAt(file: seq<byte>, i: nat, e: Entry)
  {
    var j := i + 4 + 2 * |e.name|;
    && FieldAt(file, i, 4, 2 * |e.name|)
    && (forall k :: 0 <= k < |e.name| ==> FieldAt(file, i + 4 + 2 * k, 2, e.name[k]))
    && FieldAt(file, j, 8, e.info.totalOriginalSize)
    && FieldAt(file, j + 8, 4, |e.info.blocks|)
    && (forall k :: 0 <= k < |e.info.blocks| ==> BlockAt(file, j + 12 + 84 * k, e.info.blocks[k]))
  }

  function EntrySize(e: Entry): nat
  {
    16 + 2 * |e.name| + 84 * |e.info.blocks|
  }

  /** Files from the byte `i` on, up to the end. */
  ghost predicate EntriesAt(file: seq<byte>, i: nat, es: seq<Entry>)
    decreases |es|
  {
    if es == [] then i == |file| else EntryAt(file, i, es[0]) && EntriesAt(file, i + EntrySize(es[0]), es[1..])
  }

  /** The index: how many files there are, and then all of them. */
  ghost predicate IndexAt(file: seq<byte>, es: seq<Entry>)
  {
    FieldAt(file, 0, 4, |es|) && EntriesAt(file, 4, es)
  }

  // ---------- Numbers ----------

  lemma Quotient(n: nat, d: nat, q: nat, r: nat)
    requires d > 0 && n == d * q + r && r < d
    ensures n / d == q
  {
    Multiple(d, q, n / d, r, n % d);
  }

  lemma Multiple(d: nat, q: int, q': int, r: nat, r': nat)
    requires r < d && r' < d && d * q + r == d * q' + r'
    ensures q == q'
  {
    assert d * (q - q') == r' - r;
    if q > q' { Least(d, q - q'); }
    if q < q' { Least(d, q' - q); }
  }

  lemma Least(d: nat, k: int)
    requires k >= 1
    ensures d * k >= d
  {
  }

  lemma DivTwice(n: nat, p: nat)
    requires p > 0
    ensures n / 256 / p == n / (256 * p)
  {
    var a, q := n / 256, n / 256 / p;
    var r := a % p;
    assert a == p * q + r;
    assert n == (256 * p) * q + (256 * r + n % 256);
    Quotient(n, 256 * p, q, 256 * r + n % 256);
  }

  lemma {:induction false} LEDigits(n: nat, width: nat, m: nat)
    requires m < width
    ensures LE(n, width)[m] == n / Pow256(m) % 256
  {
    if m > 0 {
      LEDigits(n / 256, width - 1, m - 1);
      DivTwice(n, Pow256(m - 1));
    }
  }

  lemma FieldIs(file: seq<byte>, i: nat, width: nat, n: nat)
    ensures FieldAt(file, i, width, n) <==> At(file, i, LE(n, width))
  {
    hide LE, Pow256;
    forall m | 0 <= m < width ensures LE(n, width)[m] == n / Pow256(m) % 256 {
      LEDigits(n, width, m);
    }
    if i + width <= |file| {
      assert |file[i..i + width]| == |LE(n, width)|;
    }
  }

  // ---------- From the layout to the bytes, and back ----------

  lemma AtJoin(file: seq<byte>, i: nat, a: seq<byte>, b: seq<byte>)
    ensures At(file, i, a + b) <==> At(file, i, a) && At(file, i + |a|, b)
  {
    if i + |a| + |b| <= |file| {
      var s := file[i..i + |a| + |b|];
      assert s[..|a|] == file[i..i + |a|] && s[|a|..] == file[i + |a|..i + |a| + |b|];
      assert s == s[..|a|] + s[|a|..];
      assert (a + b)[..|a|] == a && (a + b)[|a|..] == b;
    }
  }

  lemma BlockIs(file: seq<byte>, i: nat, b: BlockInfo)
    requires |b.key| == 32 && |b.iv| == 16
    ensures BlockAt(file, i, b) <==> At(file, i, BlockBytes(b))
  {
    hide LE, FieldAt, At;
    var r5 := b.key + b.iv;
    var r4 := LE(b.blockIndex, 8) + r5;
    var r3 := LE(b.originalSize, 8) + r4;
    var r2 := LE(b.compressedSize, 8) + r3;
    var r1 := LE(b.offset, 8) + r2;
    AtJoin(file, i, LE(b.partIndex, 4), r1);
    AtJoin(file, i + 4, LE(b.offset, 8), r2);
    AtJoin(file, i + 12, LE(b.compressedSize, 8), r3);
    AtJoin(file, i + 20, LE(b.originalSize, 8), r4);
    AtJoin(file, i + 28, LE(b.blockIndex, 8), r5);
    AtJoin(file, i + 36, b.key, b.iv);
    FieldIs(file, i, 4, b.partIndex);
    FieldIs(file, i + 4, 8, b.offset);
    FieldIs(file, i + 12, 8, b.compressedSize);
    FieldIs(file, i + 20, 8, b.originalSize);
    FieldIs(file, i + 28, 8, b.blockIndex);
    AtIs(file, i + 36, b.key);
    AtIs(file, i + 68, b.iv);
  }

  lemma AtIs(file: seq<byte>, i: nat, e: seq<byte>)
    ensures At(file, i, e) <==> i + |e| <= |file| && file[i..i + |e|] == e
  {
  }

  lemma {:induction false} BlocksAre(file: seq<byte>, i: nat, bs: seq<BlockInfo>)
    requires i <= |file| && forall k :: 0 <= k < |bs| ==> StorableBlock(bs[k])
    ensures (forall k :: 0 <= k < |bs| ==> BlockAt(file, i + 84 * k, bs[k])) <==> At(file, i, BlocksBytes(bs))
    decreases |bs|
  {
    hide BlockAt, BlockBytes, At;
    if bs != [] {
      assert StorableBlock(bs[0]);
      BlockIs(file, i, bs[0]);
      BlockLength(bs[0]);
      AtJoin(file, i, BlockBytes(bs[0]), BlocksBytes(bs[1..]));
      if i + 84 <= |file| {
        BlocksAre(file, i + 84, bs[1..]);
        BlocksSplit(file, i, bs);
      } else {
        NoBlock(file, i, bs[0]);
      }
    } else {
      AtIs(file, i, []);
    }
  }

  lemma BlocksSplit(file: seq<byte>, i: nat, bs: seq<BlockInfo>)
    requires bs != []
    ensures (forall k :: 0 <= k < |bs| ==> BlockAt(file, i + 84 * k, bs[k])) <==>
              BlockAt(file, i, bs[0]) && forall k :: 0 <= k < |bs[1..]| ==> BlockAt(file, i + 84 + 84 * k, bs[1..][k])
  {
    hide BlockAt;
    if BlockAt(file, i, bs[0]) && forall k :: 0 <= k < |bs[1..]| ==> BlockAt(file, i + 84 + 84 * k, bs[1..][k]) {
      forall k | 0 <= k < |bs| ensures BlockAt(file, i + 84 * k, bs[k]) {
        assert k > 0 ==> bs[k] == bs[1..][k - 1];
      }
    }
    if forall k :: 0 <= k < |bs| ==> BlockAt(file, i + 84 * k, bs[k]) {
      assert BlockAt(file, i + 84 * 0, bs[0]);
      forall k | 0 <= k < |bs[1..]| ensures BlockAt(file, i + 84 + 84 * k, bs[1..][k]) {
        assert BlockAt(file, i + 84 * (k + 1), bs[k + 1]);
      }
    }
  }

  lemma NoBlock(file: seq<byte>, i: nat, b: BlockInfo)
    requires |file| < i + 84
    ensures !BlockAt(file, i, b)
  {
  }

  lemma BlockLength(b: BlockInfo)
    requires StorableBlock(b)
    ensures |BlockBytes(b)| == 84
  {
  }

  lemma {:induction false} NameIs(file: seq<byte>, i: nat, name: seq<wchar>)
    requires i <= |file|
    ensures (forall k :: 0 <= k < |name| ==> FieldAt(file, i + 2 * k, 2, name[k])) <==> At(file, i, NameBytes(name))
    decreases |name|
  {
    hide FieldAt, At, LE;
    if name != [] {
      CharIs(name[0]);
      FieldIs(file, i, 2, name[0]);
      AtJoin(file, i, LE16(name[0]), NameBytes(name[1..]));
      if i + 2 <= |file| {
        NameIs(file, i + 2, name[1..]);
        NameSplit(file, i, name);
      } else {
        NoField(file, i, 2, name[0]);
        assert FieldAt(file, i + 2 * 0, 2, name[0]) == FieldAt(file, i, 2, name[0]);
      }
    } else {
      AtIs(file, i, []);
    }
  }

  lemma NameSplit(file: seq<byte>, i: nat, name: seq<wchar>)
    requires name != []
    ensures var rest := name[1..];
            (forall k :: 0 <= k < |name| ==> FieldAt(file, i + 2 * k, 2, name[k])) <==>
              FieldAt(file, i, 2, name[0]) && forall k :: 0 <= k < |rest| ==> FieldAt(file, i + 2 + 2 * k, 2, rest[k])
  {
    hide FieldAt;
    var rest := name[1..];
    if FieldAt(file, i, 2, name[0]) && forall k :: 0 <= k < |rest| ==> FieldAt(file, i + 2 + 2 * k, 2, rest[k]) {
      forall k | 0 <= k < |name| ensures FieldAt(file, i + 2 * k, 2, name[k]) {
        assert k > 0 ==> name[k] == name[1..][k - 1];
      }
    }
    if forall k :: 0 <= k < |name| ==> FieldAt(file, i + 2 * k, 2, name[k]) {
      assert FieldAt(file, i + 2 * 0, 2, name[0]);
      forall k | 0 <= k < |name[1..]| ensures FieldAt(file, i + 2 + 2 * k, 2, name[1..][k]) {
        assert FieldAt(file, i + 2 * (k + 1), 2, name[k + 1]);
      }
    }
  }

  lemma CharIs(c: wchar)
    ensures LE16(c) == LE(c, 2)
  {
    assert LE(c, 2) == [c % 256] + LE(c / 256, 1) && LE(c / 256, 1) == [c / 256 % 256] + LE(c / 256 / 256, 0);
  }

  lemma NoField(file: seq<byte>, i: nat, width: nat, n: nat)
    requires |file| < i + width
    ensures !FieldAt(file, i, width, n)
  {
  }

  lemma EntryIs(file: seq<byte>, i: nat, e: Entry)
    requires Storable(e)
    ensures |EntryBytes(e)| == EntrySize(e)
    ensures EntryAt(file, i, e) <==> At(file, i, EntryBytes(e))
  {
    hide FieldAt, BlockAt, At, LE, NameBytes, BlocksBytes, StorableBlock;
    var n := |e.info.blocks|;
    var j := i + 4 + 2 * |e.name|;
    var r3 := BlocksBytes(e.info.blocks);
    var r2 := LE(n % U32, 4) + r3;
    var r1 := LE(e.info.totalOriginalSize, 8) + r2;
    var r0 := NameBytes(e.name) + r1;
    BlocksLength(e.info.blocks);
    AtJoin(file, i, LE(2 * |e.name| % U32, 4), r0);
    AtJoin(file, i + 4, NameBytes(e.name), r1);
    AtJoin(file, j, LE(e.info.totalOriginalSize, 8), r2);
    AtJoin(file, j + 8, LE(n % U32, 4), r3);
    FieldIs(file, i, 4, 2 * |e.name|);
    FieldIs(file, j, 8, e.info.totalOriginalSize);
    FieldIs(file, j + 8, 4, n);
    if j + 12 <= |file| {
      NameIs(file, i + 4, e.name);
      BlocksAre(file, j + 12, e.info.blocks);
    } else {
      NoField(file, j + 8, 4, n);
    }
  }

  lemma {:induction false} EntriesAre(file: seq<byte>, i: nat, es: seq<Entry>)
    requires i <= |file| && forall k :: 0 <= k < |es| ==> Storable(es[k])
    ensures EntriesAt(file, i, es) <==> file[i..] == EntriesBytes(es)
    decreases |es|
  {
    hide EntryAt, EntryBytes, EntrySize, Storable;
    if es != [] {
      var a, b := EntryBytes(es[0]), EntriesBytes(es[1..]);
      EntryIs(file, i, es[0]);
      if i + |a| <= |file| {
        EntriesAre(file, i + |a|, es[1..]);
        assert file[i..] == file[i..i + |a|] + file[i + |a|..];
        assert (a + b)[..|a|] == a && (a + b)[|a|..] == b;
      } else {
        assert !At(file, i, a);
      }
    }
  }

  /** Exactly one file has the layout: the one that CompressAll writes. */
  lemma LayoutIsIndex(file: seq<byte>, es: seq<Entry>)
    requires |es| < 0x1_0000_0000 && forall k :: 0 <= k < |es| ==> Storable(es[k])
    ensures IndexAt(file, es) <==> file == IndexBytes(es)
  {
    hide LE, FieldAt, EntriesAt, EntriesBytes, Storable;
    FieldIs(file, 0, 4, |es|);
    if |file| >= 4 {
      EntriesAre(file, 4, es);
      assert file == file[0..4] + file[4..];
      assert |LE(|es|, 4)| == 4;
      assert IndexBytes(es)[..4] == LE(|es|, 4) && IndexBytes(es)[4..] == EntriesBytes(es);
    }
  }

  // ---------- An index in bytes ----------

  function SomeBlock(): BlockInfo
  {
    BlockInfo(1, 8, 259, 70000, 2, Times(32, 7), Times(16, 9))
  }

  function SomeEntry(): Entry
  {
    Entry([97, 0x3042], CompressInfo(70000, [SomeBlock()]))
  }

  lemma {:induction false} Zeros(width: nat)
    ensures LE(0, width) == Times(width, 0)
  {
    if width > 0 { Zeros(width - 1); }
  }

  /** The bytes of a number below 2^24. */
  lemma ThreeBytes(a: byte, b: byte, c: byte, width: nat)
    requires width >= 3
    ensures LE(a + 256 * b + 65536 * c, width) == [a, b, c] + Times(width - 3, 0)
  {
    Zeros(width - 3);
    hide Times;
    var n: nat := a + 256 * b + 65536 * c;
    assert n / 256 == b + 256 * c && n % 256 == a;
    LEStep(n, width);
    LEStep(b + 256 * c, width - 1);
    LEStep(c, width - 2);
  }

  lemma LEStep(n: nat, width: nat)
    requires width >= 1
    ensures LE(n, width) == [n % 256] + LE(n / 256, width - 1)
  {
  }

  lemma SomeNumbers()
    ensures LE(1, 4) == [1, 0, 0, 0] && LE(4, 4) == [4, 0, 0, 0]
    ensures LE(8, 8) == [8, 0, 0, 0, 0, 0, 0, 0] && LE(2, 8) == [2, 0, 0, 0, 0, 0, 0, 0]
    ensures LE(259, 8) == [3, 1, 0, 0, 0, 0, 0, 0] && LE(70000, 8) == [112, 17, 1, 0, 0, 0, 0, 0]
  {
    hide LE;
    ThreeBytes(1, 0, 0, 4);
    ThreeBytes(4, 0, 0, 4);
    ThreeBytes(8, 0, 0, 8);
    ThreeBytes(2, 0, 0, 8);
    ThreeBytes(3, 1, 0, 8);
    ThreeBytes(112, 17, 1, 8);
  }

  lemma SomeBlockBytes()
    ensures BlockBytes(SomeBlock()) ==
              [1, 0, 0, 0] + [8, 0, 0, 0, 0, 0, 0, 0] + [3, 1, 0, 0, 0, 0, 0, 0] + [112, 17, 1, 0, 0, 0, 0, 0]
              + [2, 0, 0, 0, 0, 0, 0, 0] + Times(32, 7) + Times(16, 9)
  {
    SomeNumbers();
    hide LE, Times;
  }

  lemma SomeEntryBytes()
    ensures EntryBytes(SomeEntry()) ==
              [4, 0, 0, 0] + [97, 0, 0x42, 0x30] + [112, 17, 1, 0, 0, 0, 0, 0] + [1, 0, 0, 0] + BlockBytes(SomeBlock())
  {
    SomeNumbers();
    hide LE, BlockBytes, SomeBlock;
    var name: seq<wchar> := [97, 0x3042];
    assert name[1..] == [0x3042] && name[1..][1..] == [];
    assert NameBytes(name) == LE16(97) + (LE16(0x3042) + NameBytes([]));
    assert BlocksBytes([SomeBlock()]) == BlockBytes(SomeBlock()) + [];
  }

  /** The index of a file with a name of two characters and one block of 259 bytes. */
  lemma SomeIndex()
    ensures IndexBytes([SomeEntry()]) ==
              [1, 0, 0, 0] + ([4, 0, 0, 0] + [97, 0, 0x42, 0x30] + [112, 17, 1, 0, 0, 0, 0, 0] + [1, 0, 0, 0]
              + ([1, 0, 0, 0] + [8, 0, 0, 0, 0, 0, 0, 0] + [3, 1, 0, 0, 0, 0, 0, 0] + [112, 17, 1, 0, 0, 0, 0, 0]
              + [2, 0, 0, 0, 0, 0, 0, 0] + Times(32, 7) + Times(16, 9)))
  {
    SomeNumbers();
    SomeBlockBytes();
    SomeEntryBytes();
    hide LE, Times, BlockBytes, EntryBytes, SomeEntry, SomeBlock;
    assert EntriesBytes([SomeEntry()]) == EntryBytes(SomeEntry()) + EntriesBytes([]);
  }

  // ---------- The code ----------

  /** What is written has the layout. */
  method WriteLaidOut(es: seq<Entry>) returns (file: seq<byte>)
    requires |es| < 0x1_0000_0000 && forall k :: 0 <= k < |es| ==> Storable(es[k])
    ensures IndexAt(file, es)
  {
    hide IndexAt, IndexBytes, Storable;
    file := WriteIndex(es);
    LayoutIsIndex(file, es);
  }

  /** What has the layout is read, if there are fewer than 2^31 files. */
  method ReadLaidOut(sort: Sort, file: seq<byte>, ghost es: seq<Entry>)
    returns (r: Option<map<seq<wchar>, CompressInfo>>)
    requires |es| < 0x8000_0000 && DistinctNames(es) && forall k :: 0 <= k < |es| ==> Storable(es[k])
    requires IndexAt(file, es)
    ensures r == Some(MapOf(sort, es, map[]))
  {
    hide IndexAt, IndexBytes, Storable, ParseIndex, MapOf;
    LayoutIsIndex(file, es);
    IndexRoundTrip(sort, es);
    r := ReadIndex(sort, file);
  }
}
