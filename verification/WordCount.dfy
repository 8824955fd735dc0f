/** Counting equal bytes a machine word at a time, with the software bit tricks, exactly. */
module WordCount {
  import opened Bytes
  import opened BlockFormat

  // ---------- Words ----------

  function Word(b0: bv8, b1: bv8, b2: bv8, b3: bv8, b4: bv8, b5: bv8, b6: bv8, b7: bv8): bv64
  {
    b0 as bv64 | (b1 as bv64 << 8) | (b2 as bv64 << 16) | (b3 as bv64 << 24)
    | (b4 as bv64 << 32) | (b5 as bv64 << 40) | (b6 as bv64 << 48) | (b7 as bv64 << 56)
  }

  /** LZ4_read_ARCH on a 64-bit little-endian machine. */
  function Read64(s: seq<byte>, i: nat): bv64
    requires i + 8 <= |s|
  {
    Word(ToBits(s[i]), ToBits(s[i + 1]), ToBits(s[i + 2]), ToBits(s[i + 3]),
         ToBits(s[i + 4]), ToBits(s[i + 5]), ToBits(s[i + 6]), ToBits(s[i + 7]))
  }

  /** The byte of a word at `k`, counted from the lowest. */
  function ByteAt(v: bv64, k: nat): bv8
    requires k < 8
  {
    match k
    case 0 => (v & 0xFF) as bv8
    case 1 => ((v >> 8) & 0xFF) as bv8
    case 2 => ((v >> 16) & 0xFF) as bv8
    case 3 => ((v >> 24) & 0xFF) as bv8
    case 4 => ((v >> 32) & 0xFF) as bv8
    case 5 => ((v >> 40) & 0xFF) as bv8
    case 6 => ((v >> 48) & 0xFF) as bv8
    case _ => ((v >> 56) & 0xFF) as bv8
  }

  lemma WordByte(b0: bv8, b1: bv8, b2: bv8, b3: bv8, b4: bv8, b5: bv8, b6: bv8, b7: bv8)
    ensures var v := Word(b0, b1, b2, b3, b4, b5, b6, b7);
            && ByteAt(v, 0) == b0 && ByteAt(v, 1) == b1 && ByteAt(v, 2) == b2 && ByteAt(v, 3) == b3
            && ByteAt(v, 4) == b4 && ByteAt(v, 5) == b5 && ByteAt(v, 6) == b6 && ByteAt(v, 7) == b7
  {
  }

  lemma XorWord(a0: bv8, a1: bv8, a2: bv8, a3: bv8, a4: bv8, a5: bv8, a6: bv8, a7: bv8,
                b0: bv8, b1: bv8, b2: bv8, b3: bv8, b4: bv8, b5: bv8, b6: bv8, b7: bv8)
    ensures Word(a0, a1, a2, a3, a4, a5, a6, a7) ^ Word(b0, b1, b2, b3, b4, b5, b6, b7)
         == Word(a0 ^ b0, a1 ^ b1, a2 ^ b2, a3 ^ b3, a4 ^ b4, a5 ^ b5, a6 ^ b6, a7 ^ b7)
  {
  }

  /** The byte at `k` of the difference of two words. */
  lemma XorWordByte(a0: bv8, a1: bv8, a2: bv8, a3: bv8, a4: bv8, a5: bv8, a6: bv8, a7: bv8,
                    b0: bv8, b1: bv8, b2: bv8, b3: bv8, b4: bv8, b5: bv8, b6: bv8, b7: bv8)
    ensures var v := Diff(Word(a0, a1, a2, a3, a4, a5, a6, a7), Word(b0, b1, b2, b3, b4, b5, b6, b7));
            && (ByteAt(v, 0) == 0 <==> a0 == b0) && (ByteAt(v, 1) == 0 <==> a1 == b1)
            && (ByteAt(v, 2) == 0 <==> a2 == b2) && (ByteAt(v, 3) == 0 <==> a3 == b3)
            && (ByteAt(v, 4) == 0 <==> a4 == b4) && (ByteAt(v, 5) == 0 <==> a5 == b5)
            && (ByteAt(v, 6) == 0 <==> a6 == b6) && (ByteAt(v, 7) == 0 <==> a7 == b7)
  {
    XorWord(a0, a1, a2, a3, a4, a5, a6, a7, b0, b1, b2, b3, b4, b5, b6, b7);
    hide Word, ByteAt;
    WordByte(a0 ^ b0, a1 ^ b1, a2 ^ b2, a3 ^ b3, a4 ^ b4, a5 ^ b5, a6 ^ b6, a7 ^ b7);
  }

  function Diff(v: bv64, w: bv64): bv64
  {
    v ^ w
  }

  lemma ZeroWord(v: bv64)
    ensures v == 0 <==>
              && ByteAt(v, 0) == ByteAt(v, 1) == ByteAt(v, 2) == ByteAt(v, 3) == 0
              && ByteAt(v, 4) == ByteAt(v, 5) == ByteAt(v, 6) == ByteAt(v, 7) == 0
  {
  }

  // ---------- LZ4_NbCommonBytes ----------

  /** The multiply-and-shift of LZ4_NbCommonBytes. */
  function Gather(v: bv64): bv64
  {
    var m: bv64 := 0x0101010101010101;
    (((v ^ (v - 1)) & (m - 1)) * m) >> 56
  }

  lemma Gather0(v: bv64) requires v & 0xFF != 0 ensures Gather(v) == 0
  {
    assert (v ^ (v - 1)) & 0x0101010101010100 == 0;
  }
  lemma Gather1(v: bv64) requires v & 0xFF == 0 && (v >> 8) & 0xFF != 0 ensures Gather(v) == 1
  {
    assert (v ^ (v - 1)) & 0x0101010101010100 == 0x100;
  }
  lemma Gather2(v: bv64) requires v & 0xFFFF == 0 && (v >> 16) & 0xFF != 0 ensures Gather(v) == 2
  {
    assert (v ^ (v - 1)) & 0x0101010101010100 == 0x10100;
  }
  lemma Gather3(v: bv64) requires v & 0xFFFFFF == 0 && (v >> 24) & 0xFF != 0 ensures Gather(v) == 3
  {
    assert (v ^ (v - 1)) & 0x0101010101010100 == 0x1010100;
  }
  lemma Gather4(v: bv64) requires v & 0xFFFFFFFF == 0 && (v >> 32) & 0xFF != 0 ensures Gather(v) == 4
  {
    assert (v ^ (v - 1)) & 0x0101010101010100 == 0x101010100;
  }
  lemma Gather5(v: bv64) requires v & 0xFFFFFFFFFF == 0 && (v >> 40) & 0xFF != 0 ensures Gather(v) == 5
  {
    assert (v ^ (v - 1)) & 0x0101010101010100 == 0x10101010100;
  }
  lemma Gather6(v: bv64) requires v & 0xFFFFFFFFFFFF == 0 && (v >> 48) & 0xFF != 0 ensures Gather(v) == 6
  {
    assert (v ^ (v - 1)) & 0x0101010101010100 == 0x1010101010100;
  }
  lemma Gather7(v: bv64) requires v & 0xFFFFFFFFFFFFFF == 0 && (v >> 56) & 0xFF != 0 ensures Gather(v) == 7
  {
    assert (v ^ (v - 1)) & 0x0101010101010100 == 0x101010101010100;
  }

  /** LZ4_NbCommonBytes. */
  function NbCommonBytes(v: bv64): int
  {
    Gather(v) as int
  }

  /** `k` is the lowest byte of `v` that is not zero. */
  predicate FirstNonZero(v: bv64, k: nat)
  {
    k < 8 && ByteAt(v, k) != 0 && forall i :: 0 <= i < k ==> ByteAt(v, i) == 0
  }

  lemma NbCommonBytesIsFirst(v: bv64, k: nat)
    requires FirstNonZero(v, k)
    ensures NbCommonBytes(v) == k
  {
    LowBytes(v, k);
    hide Gather, FirstNonZero;
    match k
    case 0 => Gather0(v);
    case 1 => Gather1(v);
    case 2 => Gather2(v);
    case 3 => Gather3(v);
    case 4 => Gather4(v);
    case 5 => Gather5(v);
    case 6 => Gather6(v);
    case _ => Gather7(v);
  }

  function LowMask(k: nat): bv64
    requires k < 8
  {
    match k
    case 0 => 0
    case 1 => 0xFF
    case 2 => 0xFFFF
    case 3 => 0xFFFFFF
    case 4 => 0xFFFFFFFF
    case 5 => 0xFFFFFFFFFF
    case 6 => 0xFFFFFFFFFFFF
    case _ => 0xFFFFFFFFFFFFFF
  }

  lemma LowBytes(v: bv64, k: nat)
    requires FirstNonZero(v, k)
    ensures v & LowMask(k) == 0
  {
    assert k > 0 ==> ByteAt(v, 0) == 0;
    assert k > 1 ==> ByteAt(v, 1) == 0;
    assert k > 2 ==> ByteAt(v, 2) == 0;
    assert k > 3 ==> ByteAt(v, 3) == 0;
    assert k > 4 ==> ByteAt(v, 4) == 0;
    assert k > 5 ==> ByteAt(v, 5) == 0;
    assert k > 6 ==> ByteAt(v, 6) == 0;
  }

  // ---------- Comparing 8 bytes ----------

  /** The byte at `k` of the difference of the words at `i` and `j` is zero. */
  predicate SameByte(s: seq<byte>, i: nat, t: seq<byte>, j: nat, k: nat)
    requires i + 8 <= |s| && j + 8 <= |t| && k < 8
  {
    ByteAt(Diff(Read64(s, i), Read64(t, j)), k) == 0
  }

  lemma DiffBytes(s: seq<byte>, i: nat, t: seq<byte>, j: nat)
    requires i + 8 <= |s| && j + 8 <= |t|
    ensures SameByte(s, i, t, j, 0) <==> s[i] == t[j]
    ensures SameByte(s, i, t, j, 1) <==> s[i + 1] == t[j + 1]
    ensures SameByte(s, i, t, j, 2) <==> s[i + 2] == t[j + 2]
    ensures SameByte(s, i, t, j, 3) <==> s[i + 3] == t[j + 3]
    ensures SameByte(s, i, t, j, 4) <==> s[i + 4] == t[j + 4]
    ensures SameByte(s, i, t, j, 5) <==> s[i + 5] == t[j + 5]
    ensures SameByte(s, i, t, j, 6) <==> s[i + 6] == t[j + 6]
    ensures SameByte(s, i, t, j, 7) <==> s[i + 7] == t[j + 7]
  {
    hide ToBits, Word, ByteAt, Diff;
    XorWordByte(ToBits(s[i]), ToBits(s[i + 1]), ToBits(s[i + 2]), ToBits(s[i + 3]),
                ToBits(s[i + 4]), ToBits(s[i + 5]), ToBits(s[i + 6]), ToBits(s[i + 7]),
                ToBits(t[j]), ToBits(t[j + 1]), ToBits(t[j + 2]), ToBits(t[j + 3]),
                ToBits(t[j + 4]), ToBits(t[j + 5]), ToBits(t[j + 6]), ToBits(t[j + 7]));
    SameBits(s[i], t[j]);
    SameBits(s[i + 1], t[j + 1]);
    SameBits(s[i + 2], t[j + 2]);
    SameBits(s[i + 3], t[j + 3]);
    SameBits(s[i + 4], t[j + 4]);
    SameBits(s[i + 5], t[j + 5]);
    SameBits(s[i + 6], t[j + 6]);
    SameBits(s[i + 7], t[j + 7]);
  }

  lemma SameByteMeans(s: seq<byte>, i: nat, t: seq<byte>, j: nat, k: nat)
    requires i + 8 <= |s| && j + 8 <= |t| && k < 8
    ensures SameByte(s, i, t, j, k) <==> s[i + k] == t[j + k]
  {
    hide SameByte;
    DiffBytes(s, i, t, j);
    match k
    case 0 => case 1 => case 2 => case 3 => case 4 => case 5 => case 6 => case _ =>
  }

  /** What the code gets out of two words: all 8 bytes, or as many as LZ4_NbCommonBytes says. */
  function CommonBytes(s: seq<byte>, i: nat, t: seq<byte>, j: nat): int
    requires i + 8 <= |s| && j + 8 <= |t|
  {
    var diff := Diff(Read64(s, i), Read64(t, j));
    if diff == 0 then 8 else NbCommonBytes(diff)
  }

  lemma CommonBytesAll(s: seq<byte>, i: nat, t: seq<byte>, j: nat)
    requires i + 8 <= |s| && j + 8 <= |t|
    requires forall k :: 0 <= k < 8 ==> SameByte(s, i, t, j, k)
    ensures CommonBytes(s, i, t, j) == 8
  {
    var d := Diff(Read64(s, i), Read64(t, j));
    assert SameByte(s, i, t, j, 0) && SameByte(s, i, t, j, 1) && SameByte(s, i, t, j, 2) && SameByte(s, i, t, j, 3);
    assert SameByte(s, i, t, j, 4) && SameByte(s, i, t, j, 5) && SameByte(s, i, t, j, 6) && SameByte(s, i, t, j, 7);
    hide Read64, Diff, ByteAt, NbCommonBytes;
    ZeroWord(d);
  }

  lemma CommonBytesFirst(s: seq<byte>, i: nat, t: seq<byte>, j: nat, k: nat)
    requires i + 8 <= |s| && j + 8 <= |t| && k < 8 && !SameByte(s, i, t, j, k)
    requires forall m :: 0 <= m < k ==> SameByte(s, i, t, j, m)
    ensures CommonBytes(s, i, t, j) == k
  {
    var d := Diff(Read64(s, i), Read64(t, j));
    assert forall m :: 0 <= m < k ==> SameByte(s, i, t, j, m) ==> ByteAt(d, m) == 0;
    assert ByteAt(d, k) != 0;
    hide Read64, Diff, NbCommonBytes;
    ZeroWord(d);
    NbCommonBytesIsFirst(d, k);
  }

  /** The bit tricks find the first byte that differs. */
  lemma CommonBytesExact(s: seq<byte>, i: nat, t: seq<byte>, j: nat)
    requires i + 8 <= |s| && j + 8 <= |t|
    ensures var n := CommonBytes(s, i, t, j);
            && 0 <= n <= 8 && s[i..i + n] == t[j..j + n]
            && (n < 8 ==> s[i + n] != t[j + n])
  {
    hide SameByte, CommonBytes;
    var k := 0;
    while k < 8 && SameByte(s, i, t, j, k)
      invariant 0 <= k <= 8
      invariant forall m :: 0 <= m < k ==> SameByte(s, i, t, j, m)
      invariant s[i..i + k] == t[j..j + k]
    {
      SameByteMeans(s, i, t, j, k);
      assert s[i..i + k + 1] == s[i..i + k] + [s[i + k]];
      assert t[j..j + k + 1] == t[j..j + k] + [t[j + k]];
      k := k + 1;
    }
    if k < 8 {
      CommonBytesFirst(s, i, t, j, k);
      SameByteMeans(s, i, t, j, k);
    } else {
      CommonBytesAll(s, i, t, j);
    }
  }

  // ---------- LZ4_count ----------

  /** `n` bytes from `p` on repeat those `off` before them, and the next below `limit` does not. */
  ghost predicate LongestRepeat(s: seq<byte>, p: int, off: int, n: int, limit: int)
  {
    && 0 <= n && 1 <= off <= p && p + n <= Max(p, limit)
    && Periodic(s, p, p + n, off)
    && (p + n < limit ==> !Copied(s, off, p + n))
  }

  lemma PeriodicBySlices(s: seq<byte>, p: int, off: nat, n: nat)
    requires 1 <= off <= p && p + n <= |s| && s[p..p + n] == s[p - off..p - off + n]
    ensures Periodic(s, p, p + n, off)
  {
    forall k | p <= k < p + n ensures Copied(s, off, k) {
      assert s[p..p + n][k - p] == s[p - off..p - off + n][k - p];
    }
  }

  /** LZ4_count: the length of the common prefix, up to `pInLimit`. */
  method Count(s: seq<byte>, pIn: nat, pMatch: nat, pInLimit: int) returns (n: nat)
    requires pMatch < pIn && pInLimit <= |s|
    ensures LongestRepeat(s, pIn, pIn - pMatch, n, pInLimit)
  {
    hide CommonBytes;
    var p, m := pIn, pMatch;
    while p < pInLimit - 7
      invariant pIn <= p <= Max(pIn, pInLimit) && p - m == pIn - pMatch
      invariant Periodic(s, pIn, p, pIn - pMatch)
    {
      var common := CommonBytes(s, m, s, p);
      CommonBytesExact(s, m, s, p);
      PeriodicBySlices(s, p, p - m, common);
      p, m := p + common, m + common;
      if common < 8 { return p - pIn; }
    }
    var tail := CountTail(s, p, m, pInLimit);
    return p + tail - pIn;
  }

  /** LZ4_read32 and LZ4_read16 compare 4 and 2 bytes at once. */
  predicate Same4(s: seq<byte>, p: nat, m: nat)
    requires m <= p && p + 4 <= |s|
  {
    s[p] == s[m] && s[p + 1] == s[m + 1] && s[p + 2] == s[m + 2] && s[p + 3] == s[m + 3]
  }

  predicate Same2(s: seq<byte>, p: nat, m: nat)
    requires m <= p && p + 2 <= |s|
  {
    s[p] == s[m] && s[p + 1] == s[m + 1]
  }

  /** The last 7 bytes at most: 4, then 2, then 1. */
  method CountTail(s: seq<byte>, pIn: nat, pMatch: nat, pInLimit: int) returns (n: nat)
    requires pMatch < pIn && pInLimit <= |s| && pInLimit - 7 <= pIn
    ensures LongestRepeat(s, pIn, pIn - pMatch, n, pInLimit)
  {
    var p, m := pIn, pMatch;
    if p < pInLimit - 3 && Same4(s, p, m) {
      p, m := p + 4, m + 4;
    }
    if p < pInLimit - 1 && Same2(s, p, m) {
      p, m := p + 2, m + 2;
    }
    if p < pInLimit && s[m] == s[p] {
      p := p + 1;
    }
    return p - pIn;
  }

  // ---------- Comparing 4 bytes backwards ----------

  function Word32(b0: bv8, b1: bv8, b2: bv8, b3: bv8): bv32
  {
    b0 as bv32 | (b1 as bv32 << 8) | (b2 as bv32 << 16) | (b3 as bv32 << 24)
  }

  function Read32(s: seq<byte>, i: nat): bv32
    requires i + 4 <= |s|
  {
    Word32(ToBits(s[i]), ToBits(s[i + 1]), ToBits(s[i + 2]), ToBits(s[i + 3]))
  }

  /** The additions of LZ4HC_NbCommonBytes32, before the last step. */
  function Gather32(v: bv32): bv32
  {
    var w := v >> 8;
    (((((w + 0x00FFFF00) | 0x00FFFFFF) + w) | (w + 0x00FF0000)) >> 24) ^ 3
  }

  /** How many of the highest bytes are zero, for a difference that is not. */
  lemma Gather32Counts(b0: bv8, b1: bv8, b2: bv8, b3: bv8)
    ensures b3 != 0 ==> Gather32(Word32(b0, b1, b2, b3)) == 0
    ensures b3 == 0 && b2 != 0 ==> Gather32(Word32(b0, b1, b2, b3)) == 1
    ensures b3 == 0 && b2 == 0 && b1 != 0 ==> Gather32(Word32(b0, b1, b2, b3)) == 2
    ensures b3 == 0 && b2 == 0 && b1 == 0 && b0 != 0 ==> Gather32(Word32(b0, b1, b2, b3)) == 3
  {
  }

  lemma Word32Xor(a0: bv8, a1: bv8, a2: bv8, a3: bv8, b0: bv8, b1: bv8, b2: bv8, b3: bv8)
    ensures Word32(a0, a1, a2, a3) ^ Word32(b0, b1, b2, b3) == Word32(a0 ^ b0, a1 ^ b1, a2 ^ b2, a3 ^ b3)
    ensures Word32(a0, a1, a2, a3) ^ Word32(b0, b1, b2, b3) == 0 <==> a0 == b0 && a1 == b1 && a2 == b2 && a3 == b3
  {
  }

  /** What the code gets out of 4 bytes at `i` and `j`: all of them, or as many as
      LZ4HC_NbCommonBytes32 says. */
  function CommonBack(s: seq<byte>, i: nat, j: nat): int
    requires i + 4 <= |s| && j + 4 <= |s|
  {
    var v := Read32(s, i) ^ Read32(s, j);
    if v == 0 then 4 else Gather32(v) as int
  }

  lemma CommonBackBits(a0: bv8, a1: bv8, a2: bv8, a3: bv8, b0: bv8, b1: bv8, b2: bv8, b3: bv8)
    ensures var v := Word32(a0, a1, a2, a3) ^ Word32(b0, b1, b2, b3);
            (if v == 0 then 4 else Gather32(v) as int)
            == if a3 != b3 then 0 else if a2 != b2 then 1 else if a1 != b1 then 2 else if a0 != b0 then 3 else 4
  {
    Word32Xor(a0, a1, a2, a3, b0, b1, b2, b3);
    Gather32Counts(a0 ^ b0, a1 ^ b1, a2 ^ b2, a3 ^ b3);
    hide Word32, Gather32;
  }

  /** The bit trick counts equal bytes from the end. */
  lemma CommonBackExact(s: seq<byte>, i: nat, j: nat)
    requires i + 4 <= |s| && j + 4 <= |s|
    ensures CommonBack(s, i, j)
         == if s[i + 3] != s[j + 3] then 0 else if s[i + 2] != s[j + 2] then 1
            else if s[i + 1] != s[j + 1] then 2 else if s[i] != s[j] then 3 else 4
  {
    hide ToBits, Word32, Gather32;
    CommonBackBits(ToBits(s[i]), ToBits(s[i + 1]), ToBits(s[i + 2]), ToBits(s[i + 3]),
                   ToBits(s[j]), ToBits(s[j + 1]), ToBits(s[j + 2]), ToBits(s[j + 3]));
    SameBits(s[i], s[j]);
    SameBits(s[i + 1], s[j + 1]);
    SameBits(s[i + 2], s[j + 2]);
    SameBits(s[i + 3], s[j + 3]);
  }

  /** LZ4HC_countBack: minus the length of the common suffix, as far as both floors allow. */
  method CountBack(s: seq<byte>, ip: nat, m: nat, iMin: int, mMin: int) returns (back: int)
    requires m < ip <= |s| && 0 <= iMin <= ip && 0 <= mMin <= m
    ensures back <= 0 && ip + back >= iMin && m + back >= mMin
    ensures Periodic(s, ip + back, ip, ip - m)
    ensures ip + back > iMin && m + back > mMin ==> s[ip + back - 1] != s[m + back - 1]
  {
    hide CommonBack;
    back := 0;
    var low := Max(iMin - ip, mMin - m);
    while back - low > 3
      invariant low <= back <= 0
      invariant Periodic(s, ip + back, ip, ip - m)
    {
      var common := CommonBack(s, ip + back - 4, m + back - 4);
      CommonBackExact(s, ip + back - 4, m + back - 4);
      back := back - common;
      if common < 4 { return; }
    }
    while back > low && s[ip + back - 1] == s[m + back - 1]
      invariant low <= back <= 0
      invariant Periodic(s, ip + back, ip, ip - m)
    {
      back := back - 1;
    }
  }

  // ---------- Counting a pattern ----------

  /** The byte at `k` continues the 4-byte pattern that starts at `p`. */
  predicate InPattern(s: seq<byte>, p: int, pattern: seq<byte>, k: int)
    requires |pattern| == 4
  {
    p <= k && 0 <= k < |s| && s[k] == pattern[(k - p) % 4]
  }

  /** LZ4HC_countPattern: how far the pattern goes on from `ip`. */
  method CountPattern(s: seq<byte>, ip: nat, iEnd: int, pattern: seq<byte>) returns (n: nat)
    requires |pattern| == 4 && iEnd <= |s|
    ensures ip + n <= Max(ip, iEnd)
    ensures forall k :: ip <= k < ip + n ==> InPattern(s, ip, pattern, k)
    ensures ip + n < iEnd ==> !InPattern(s, ip, pattern, ip + n)
  {
    hide CommonBytes, InPattern;
    var p, word := ip, pattern + pattern;
    while p < iEnd - 7
      invariant ip <= p <= Max(ip, iEnd) && (p - ip) % 4 == 0
      invariant forall k :: ip <= k < p ==> InPattern(s, ip, pattern, k)
    {
      var common := CommonBytes(s, p, word, 0);
      CommonBytesExact(s, p, word, 0);
      PatternBySlices(s, ip, p, pattern, common);
      p := p + common;
      if common < 8 { return p - ip; }
    }
    var tail := CountPatternTail(s, ip, p, iEnd, pattern);
    return p + tail - ip;
  }

  /** The last 7 bytes at most, one by one. */
  method CountPatternTail(s: seq<byte>, ghost ip: nat, p0: nat, iEnd: int, pattern: seq<byte>) returns (n: nat)
    requires |pattern| == 4 && iEnd <= |s| && ip <= p0 && (p0 - ip) % 4 == 0 && iEnd - p0 <= 7
    ensures p0 + n <= Max(p0, iEnd)
    ensures forall k :: p0 <= k < p0 + n ==> InPattern(s, ip, pattern, k)
    ensures p0 + n < iEnd ==> !InPattern(s, ip, pattern, p0 + n)
  {
    hide InPattern;
    var p, word, patternByte := p0, pattern + pattern, 0;
    while p < iEnd
      invariant p0 <= p <= Max(p0, iEnd) && patternByte == p - p0
      invariant forall k :: p0 <= k < p ==> InPattern(s, ip, pattern, k)
    {
      PatternAt(s, ip, p0, pattern, patternByte);
      if s[p] != word[patternByte] { break; }
      p, patternByte := p + 1, patternByte + 1;
    }
    return p - p0;
  }

  lemma PatternAt(s: seq<byte>, ip: nat, p: int, pattern: seq<byte>, n: nat)
    requires |pattern| == 4 && n < 8 && ip <= p && (p - ip) % 4 == 0 && p + n < |s|
    ensures InPattern(s, ip, pattern, p + n) <==> s[p + n] == (pattern + pattern)[n]
  {
    assert (p + n - ip) % 4 == n % 4;
  }

  lemma PatternBySlices(s: seq<byte>, ip: nat, p: int, pattern: seq<byte>, n: nat)
    requires |pattern| == 4 && n <= 8 && ip <= p && (p - ip) % 4 == 0 && p + n <= |s|
    requires s[p..p + n] == (pattern + pattern)[0..n]
    ensures forall k :: p <= k < p + n ==> InPattern(s, ip, pattern, k)
    ensures n < 8 && p + n < |s| && s[p + n] != (pattern + pattern)[n] ==> !InPattern(s, ip, pattern, p + n)
  {
    hide InPattern;
    forall k | p <= k < p + n ensures InPattern(s, ip, pattern, k) {
      assert s[p..p + n][k - p] == (pattern + pattern)[0..n][k - p];
      PatternAt(s, ip, p, pattern, k - p);
    }
    if n < 8 && p + n < |s| {
      PatternAt(s, ip, p, pattern, n);
    }
  }

  /** The byte at `k` belongs to the 4-byte pattern that ends at `p`. */
  predicate InPatternBack(s: seq<byte>, p: int, pattern: seq<byte>, k: int)
    requires |pattern| == 4
  {
    0 <= k < p <= |s| && s[k] == pattern[3 - (p - 1 - k) % 4]
  }

  lemma PatternBackAt(s: seq<byte>, ip: nat, p: int, pattern: seq<byte>, n: nat)
    requires |pattern| == 4 && n < 4 && p <= ip <= |s| && (ip - p) % 4 == 0 && n < p
    ensures InPatternBack(s, ip, pattern, p - 1 - n) <==> s[p - 1 - n] == pattern[3 - n]
  {
    assert (ip - 1 - (p - 1 - n)) % 4 == n;
  }

  /** LZ4HC_reverseCountPattern: how far the pattern goes back from `ip`. */
  method ReverseCountPattern(s: seq<byte>, ip: nat, iLow: nat, pattern: seq<byte>) returns (n: nat)
    requires |pattern| == 4 && iLow <= ip <= |s|
    ensures ip - n >= iLow
    ensures forall k :: ip - n <= k < ip ==> InPatternBack(s, ip, pattern, k)
    ensures ip - n > iLow ==> !InPatternBack(s, ip, pattern, ip - n - 1)
  {
    hide InPatternBack;
    var p := ip;
    while p >= iLow + 4
      invariant iLow <= p <= ip && (ip - p) % 4 == 0
      invariant forall k :: p <= k < ip ==> InPatternBack(s, ip, pattern, k)
    {
      PatternBackAt(s, ip, p, pattern, 0);
      PatternBackAt(s, ip, p, pattern, 1);
      PatternBackAt(s, ip, p, pattern, 2);
      PatternBackAt(s, ip, p, pattern, 3);
      if !(s[p - 4] == pattern[0] && s[p - 3] == pattern[1] && s[p - 2] == pattern[2]
          && s[p - 1] == pattern[3]) { break; }
      p := p - 4;
    }
    var tail := ReverseTail(s, ip, p, iLow, pattern);
    return ip - (p - tail);
  }

  /** The last 3 bytes at most, or the 4 of which one is known to differ. */
  method ReverseTail(s: seq<byte>, ghost ip: nat, q: nat, iLow: nat, pattern: seq<byte>) returns (n: nat)
    requires |pattern| == 4 && iLow <= q <= ip <= |s| && (ip - q) % 4 == 0
    requires q >= iLow + 4 ==>
               !(s[q - 4] == pattern[0] && s[q - 3] == pattern[1] && s[q - 2] == pattern[2] && s[q - 1] == pattern[3])
    ensures q - n >= iLow
    ensures forall k :: q - n <= k < q ==> InPatternBack(s, ip, pattern, k)
    ensures q - n > iLow ==> !InPatternBack(s, ip, pattern, q - n - 1)
  {
    hide InPatternBack;
    var bytePtr, p := 3, q;
    while p > iLow
      invariant iLow <= p <= q && bytePtr == 3 - (q - p)
      invariant q - p > 0 ==> s[q - 1] == pattern[3]
      invariant q - p > 1 ==> s[q - 2] == pattern[2]
      invariant q - p > 2 ==> s[q - 3] == pattern[1]
      invariant q - p > 3 ==> s[q - 4] == pattern[0]
      invariant q - p <= 4
      invariant forall k :: p <= k < q ==> InPatternBack(s, ip, pattern, k)
    {
      PatternBackAt(s, ip, q, pattern, q - p);
      if s[p - 1] != pattern[bytePtr] { break; }
      p, bytePtr := p - 1, bytePtr - 1;
    }
    return q - p;
  }
}
