/** The copy routines of the decoder: plain, "wild" (writing past the requested end in whole
    strides) and overlapping.  A buffer is an array, a pointer an index into it.  Every source
    lies before its destination, so a copy is described by its distance: what it leaves behind
    is `Periodic`. */
module Copies {
  import opened Bytes
  import opened BlockFormat

  // ---------- Periods ----------

  lemma PeriodicPrefix(r: seq<byte>, r': seq<byte>, lo: int, hi: int, off: nat)
    requires Periodic(r, lo, hi, off) && 0 <= hi <= |r| && hi <= |r'| && r[..hi] == r'[..hi]
    ensures Periodic(r', lo, hi, off)
  {
    forall k | lo <= k < hi ensures Copied(r', off, k) {
      assert Copied(r, off, k);
      assert r[..hi][k] == r'[..hi][k];
      if off > 0 { assert r[..hi][k - off] == r'[..hi][k - off]; }
    }
  }

  /** `d` is a whole number of steps of `off`. */
  predicate Multiple(d: nat, off: nat)
    requires off > 0
  {
    d == 0 || (d >= off && Multiple(d - off, off))
  }

  /** Going back several periods is going back any multiple of the period. */
  lemma {:induction false} PeriodChain(r: seq<byte>, lo: int, hi: int, off: nat, d: nat, k: int)
    requires off > 0 && Multiple(d, off) && Periodic(r, lo, hi, off)
    requires lo + d - off <= k < hi && 0 <= k < |r| && d <= k
    ensures r[k] == r[k - d]
    decreases d
  {
    if d > 0 {
      assert Copied(r, off, k);
      if d > off {
        PeriodChain(r, lo, hi, off, d - off, k - off);
      }
    }
  }

  /** A copy at distance `d` may continue one at distance `off` that is `done` bytes under way. */
  ghost predicate Continues(off: nat, d: nat, done: int)
  {
    if off == 0 then 0 < d <= done else d > 0 && Multiple(d, off) && d - off <= done
  }

  /** What was begun with period `off` and continued from a `d` that `Continues` it has period
      `off` throughout. */
  lemma PeriodGrows(r: seq<byte>, lo: int, mid: int, hi: int, off: nat, d: nat)
    requires lo <= mid && Continues(off, d, mid - lo)
    requires Periodic(r, lo, mid, off) && Periodic(r, mid, hi, d)
    ensures Periodic(r, lo, hi, off)
  {
    var n := mid;
    while n < hi
      invariant mid <= n && (n <= hi || n == mid)
      invariant Periodic(r, lo, n, off)
    {
      assert Copied(r, d, n);
      if off == 0 {
        assert Copied(r, off, n - d);
      } else if d > off {
        PeriodChain(r, lo, n, off, d - off, n - off);
      }
      assert Copied(r, off, n);
      n := n + 1;
    }
  }

  // ---------- Copies inside the output ----------

  /** memcpy from `s` to `d`; the regions must not overlap. */
  method Memcpy(dst: array<byte>, d: int, s: int, n: nat)
    requires 0 <= s && s + n <= d && d + n <= dst.Length
    modifies dst
    ensures dst[..d] == old(dst[..d]) && dst[d + n..] == old(dst[d + n..])
    ensures Periodic(dst[..], d, d + n, d - s)
  {
    forall k | 0 <= k < n { dst[d + k] := dst[s + k]; }
    ghost var r, off := dst[..], d - s;
    forall k | d <= k < d + n ensures Copied(r, off, k) {
      assert r[k] == dst[d + (k - d)];
    }
  }

  /** One more memcpy at the same distance. */
  method AppendCopy(dst: array<byte>, ghost d0: int, d: int, s: int, n: nat)
    requires 0 <= s && s + n <= d && d + n <= dst.Length && 0 <= d0 <= d
    requires Periodic(dst[..], d0, d, d - s)
    modifies dst
    ensures dst[..d0] == old(dst[..d0]) && dst[d + n..] == old(dst[d + n..])
    ensures Periodic(dst[..], d0, d + n, d - s)
  {
    ghost var r := dst[..];
    Memcpy(dst, d, s, n);
    assert r[..d] == dst[..][..d];
    assert r[..d0] == r[..d][..d0] == dst[..d0];
    PeriodicPrefix(r, dst[..], d0, d, d - s);
  }

  lemma SameBehind(r: seq<byte>, r': seq<byte>, m: int, end: int)
    requires |r| == |r'| && 0 <= m <= end <= |r| && r[m..] == r'[m..]
    ensures r[end..] == r'[end..]
  {
    assert r[end..] == r[m..][end - m..] && r'[end..] == r'[m..][end - m..];
  }

  /** LZ4_wildCopy8: whole strides of 8, so up to 7 bytes past `e`. */
  method WildCopy8(dst: array<byte>, d0: int, s0: int, e: int)
    requires 0 <= s0 && s0 + 8 <= d0 && d0 + 8 <= dst.Length && e + 7 <= dst.Length
    modifies dst
    ensures dst[..d0] == old(dst[..d0]) && dst[Max(e + 7, d0 + 8)..] == old(dst[Max(e + 7, d0 + 8)..])
    ensures Periodic(dst[..], d0, Max(e, d0 + 8), d0 - s0)
  {
    ghost var was, end := dst[..d0], Max(e + 7, d0 + 8);
    ghost var behind := dst[end..];
    var d, s, more := d0, s0, true;
    while more
      invariant d0 <= d && d - s == d0 - s0
      invariant more ==> d + 8 <= end
      invariant !more ==> Max(e, d0 + 8) <= d <= end
      invariant dst[..d0] == was && dst[end..] == behind
      invariant Periodic(dst[..], d0, d, d0 - s0)
      decreases more, e - d
    {
      ghost var r := dst[..];
      AppendCopy(dst, d0, d, s, 8);
      SameBehind(r, dst[..], d + 8, end);
      d, s := d + 8, s + 8;
      more := d < e;
    }
  }

  /** LZ4_wildCopy32: strides of two 16-byte copies, so up to 31 bytes past `e`. */
  method WildCopy32(dst: array<byte>, d0: int, s0: int, e: int)
    requires 0 <= s0 && s0 + 16 <= d0 && d0 + 32 <= dst.Length && e + 31 <= dst.Length
    modifies dst
    ensures dst[..d0] == old(dst[..d0]) && dst[Max(e + 31, d0 + 32)..] == old(dst[Max(e + 31, d0 + 32)..])
    ensures Periodic(dst[..], d0, Max(e, d0 + 32), d0 - s0)
  {
    ghost var was, end := dst[..d0], Max(e + 31, d0 + 32);
    ghost var behind := dst[end..];
    var d, s, more := d0, s0, true;
    while more
      invariant d0 <= d && d - s == d0 - s0
      invariant more ==> d + 32 <= end
      invariant !more ==> Max(e, d0 + 32) <= d <= end
      invariant dst[..d0] == was && dst[end..] == behind
      invariant Periodic(dst[..], d0, d, d0 - s0)
      decreases more, e - d
    {
      ghost var r := dst[..];
      AppendCopy(dst, d0, d, s, 16);
      SameBehind(r, dst[..], d + 16, end);
      r := dst[..];
      AppendCopy(dst, d0, d + 16, s + 16, 16);
      SameBehind(r, dst[..], d + 32, end);
      d, s := d + 32, s + 32;
      more := d < e;
    }
  }

  // ---------- Overlapping copies ----------

  /** inc32table, FMS/lz4.c. */
  function Inc32(off: nat): int
    requires off < 8
  {
    [0, 1, 2, 1, 0, 4, 4, 4][off]
  }

  /** dec64table, FMS/lz4.c. */
  function Dec64(off: nat): int
    requires off < 8
  {
    [0, 0, 0, -1, -4, 1, 2, 3][off]
  }

  /** The two tables move the source so that the next copies go a multiple of `off` back, first
      at least 4 and then at least 8 bytes, and not further than what is already written allows. */
  lemma TablesAgree(off: nat)
    requires off < 8
    ensures off + 4 - Inc32(off) >= 4 && Continues(off, off + 4 - Inc32(off), 4)
    ensures off + 8 - Inc32(off) + Dec64(off) >= 8 && Continues(off, off + 8 - Inc32(off) + Dec64(off), 8)
    ensures 0 <= Inc32(off) <= off || off == 0
  {
  }

  /** Begin an overlapping copy: the first 8 bytes, then the source for the rest. */
  method CopyHead(dst: array<byte>, op: int, off: nat) returns (match': int)
    requires off <= op && op + 8 <= dst.Length
    modifies dst
    ensures dst[..op] == old(dst[..op])
    ensures Periodic(dst[..], op, op + 8, off)
    ensures 0 <= match' && match' + 8 <= op + 8 && Continues(off, op + 8 - match', 8)
    ensures off >= 8 ==> match' == op + 8 - off
    ensures op + 8 - match' >= 8
  {
    match' := op - off;
    if off < 8 {
      ghost var was := dst[..op];
      TablesAgree(off);
      CopyFour(dst, op, off);
      match' := match' + Inc32(off);
      ghost var r := dst[..];
      Memcpy(dst, op + 4, match', 4);
      assert r[..op + 4] == dst[..][..op + 4];
      assert dst[..op] == r[..op + 4][..op];
      PeriodicPrefix(r, dst[..], op, op + 4, off);
      PeriodGrows(dst[..], op, op + 4, op + 8, off, op + 4 - match');
      match' := match' - Dec64(off);
    } else {
      Memcpy(dst, op, match', 8);
      match' := match' + 8;
      assert Multiple(off, off) by { assert Multiple(0, off); }
    }
  }

  /** Four bytes one by one, after clearing them: at distance 0 they stay zero. */
  method CopyFour(dst: array<byte>, op: int, off: nat)
    requires off <= op && op + 4 <= dst.Length
    modifies dst
    ensures dst[..op] == old(dst[..op])
    ensures Periodic(dst[..], op, op + 4, off)
  {
    var m := op - off;
    dst[op], dst[op + 1], dst[op + 2], dst[op + 3] := 0, 0, 0, 0;
    dst[op] := dst[m];
    dst[op + 1] := dst[m + 1];
    dst[op + 2] := dst[m + 2];
    dst[op + 3] := dst[m + 3];
  }

  /** LZ4_memcpy_using_offset_base. */
  method CopyUsingOffsetBase(dst: array<byte>, op: int, off: nat, e: int)
    requires off <= op && op + 16 <= dst.Length && e + 7 <= dst.Length
    modifies dst
    ensures dst[..op] == old(dst[..op])
    ensures Periodic(dst[..], op, Max(e, op + 16), off)
  {
    var m := CopyHead(dst, op, off);
    ghost var r := dst[..];
    WildCopy8(dst, op + 8, m, e);
    assert r[..op + 8] == dst[..][..op + 8];
    assert dst[..op] == r[..op + 8][..op];
    PeriodicPrefix(r, dst[..], op, op + 8, off);
    PeriodGrows(dst[..], op, op + 8, Max(e, op + 16), off, op + 8 - m);
  }

  /** The 8-byte pattern of a match at distance 1, 2 or 4. */
  function Pattern(dst: seq<byte>, m: nat, off: nat): (v: seq<byte>)
    requires off == 1 || off == 2 || off == 4
    requires m + off <= |dst|
    ensures |v| == 8
    ensures forall k :: 0 <= k < 8 ==> v[k] == dst[m + k % off]
  {
    if off == 1 then seq(8, _ => dst[m])
    else if off == 2 then
      var w := dst[m..m + 2] + dst[m..m + 2];
      w + w
    else dst[m..m + 4] + dst[m..m + 4]
  }

  method Store8(dst: array<byte>, d: int, v: seq<byte>)
    requires |v| == 8 && 0 <= d && d + 8 <= dst.Length
    modifies dst
    ensures dst[..d] == old(dst[..d]) && dst[d..d + 8] == v
  {
    forall k | 0 <= k < 8 { dst[d + k] := v[k]; }
  }

  /** LZ4_memcpy_using_offset: a match of at least 4 bytes at a distance below 16. */
  method CopyUsingOffset(dst: array<byte>, op: int, off: nat, e: int)
    requires off <= op && op + 16 <= dst.Length && e + 7 <= dst.Length
    modifies dst
    ensures dst[..op] == old(dst[..op])
    ensures Periodic(dst[..], op, e, off)
  {
    if off == 1 || off == 2 || off == 4 {
      var v := Pattern(dst[..], op - off, off);
      Store8(dst, op, v);
      PatternIsPeriodic(dst[..], op, off, v);
      FillPattern(dst, op, off, v, e);
    } else {
      CopyUsingOffsetBase(dst, op, off, e);
    }
  }

  lemma PatternIsPeriodic(r: seq<byte>, op: nat, off: nat, v: seq<byte>)
    requires off == 1 || off == 2 || off == 4
    requires off <= op && op + 8 <= |r| && r[op..op + 8] == v && v == Pattern(r, op - off, off)
    ensures Periodic(r, op, op + 8, off)
  {
    forall k | op <= k < op + 8 ensures Copied(r, off, k) {
      assert r[k] == r[op..op + 8][k - op] == v[k - op];
      assert k - off >= op ==> r[k - off] == r[op..op + 8][k - off - op] == v[k - off - op];
    }
  }

  /** The pattern again and again, 8 bytes at a time. */
  method FillPattern(dst: array<byte>, op: int, off: nat, v: seq<byte>, e: int)
    requires off == 1 || off == 2 || off == 4
    requires off <= op && op + 8 <= dst.Length && e + 7 <= dst.Length && |v| == 8
    requires dst[op..op + 8] == v && Periodic(dst[..], op, op + 8, off)
    modifies dst
    ensures dst[..op] == old(dst[..op])
    ensures Periodic(dst[..], op, e, off)
  {
    ghost var was := dst[..op];
    var d := op + 8;
    while d < e
      invariant op + 8 <= d <= Max(op + 8, e + 7)
      invariant dst[..op] == was && dst[d - 8..d] == v
      invariant Periodic(dst[..], op, d, off)
    {
      ghost var r := dst[..];
      Store8(dst, d, v);
      assert r[..d] == dst[..][..d];
      assert dst[..op] == r[..d][..op];
      PeriodicPrefix(r, dst[..], op, d, off);
      PeriodicStride(r, dst[..], d, v);
      PeriodGrows(dst[..], op, d, d + 8, off, 8);
      d := d + 8;
    }
    assert Periodic(dst[..], op, e, off);
  }

  lemma PeriodicStride(r: seq<byte>, r': seq<byte>, d: nat, v: seq<byte>)
    requires |v| == 8 && 8 <= d && d + 8 <= |r'| && d <= |r|
    requires r[d - 8..d] == v && r'[d..d + 8] == v && r[..d] == r'[..d]
    ensures Periodic(r', d, d + 8, 8)
  {
    forall k | d <= k < d + 8 ensures Copied(r', 8, k) {
      assert r'[k] == r'[d..d + 8][k - d];
      assert r[k - 8] == r[d - 8..d][k - d];
      assert r[..d][k - 8] == r'[..d][k - 8];
    }
  }

  // ---------- Literals ----------

  /** memcpy from the block. */
  method CopyIn(dst: array<byte>, d: int, src: seq<byte>, s: int, n: nat)
    requires 0 <= s && s + n <= |src| && 0 <= d && d + n <= dst.Length
    modifies dst
    ensures dst[..d] == old(dst[..d]) && dst[d..d + n] == src[s..s + n] && dst[d + n..] == old(dst[d + n..])
  {
    forall k | 0 <= k < n { dst[d + k] := src[s + k]; }
  }

  /** One more memcpy behind what was copied from the block before. */
  method AppendIn(dst: array<byte>, ghost d0: int, d: int, src: seq<byte>, ghost s0: int, s: int, n: nat)
    requires 0 <= s0 <= s && s + n <= |src| && 0 <= d0 <= d && d + n <= dst.Length
    requires dst[d0..d] == src[s0..s]
    modifies dst
    ensures dst[..d0] == old(dst[..d0]) && dst[d0..d + n] == src[s0..s + n] && dst[d + n..] == old(dst[d + n..])
  {
    ghost var r := dst[..d];
    CopyIn(dst, d, src, s, n);
    assert dst[..d0] == dst[..d][..d0] == r[..d0];
    assert dst[d0..d] == dst[..d][d0..] == r[d0..];
    assert dst[d0..d + n] == dst[d0..d] + dst[d..d + n];
    assert src[s0..s + n] == src[s0..s] + src[s..s + n];
  }

  /** LZ4_wildCopy8 (`stride` 8) and LZ4_wildCopy32 (`stride` 32) from the block: whole strides
      are read and written, up to `stride - 1` bytes past the end. */
  method WildCopyIn(dst: array<byte>, d0: int, src: seq<byte>, s0: int, e: int, stride: nat)
    requires stride > 0 && 0 <= s0 && 0 <= d0 <= e
    requires d0 + stride <= dst.Length && e + stride - 1 <= dst.Length
    requires s0 + stride <= |src| && s0 + (e - d0) + stride - 1 <= |src|
    modifies dst
    ensures dst[..d0] == old(dst[..d0]) && dst[d0..e] == src[s0..s0 + (e - d0)]
    ensures dst[Max(e + stride - 1, d0 + stride)..] == old(dst[Max(e + stride - 1, d0 + stride)..])
  {
    ghost var was, end := dst[..d0], Max(e + stride - 1, d0 + stride);
    ghost var behind := dst[end..];
    var d, s, more := d0, s0, true;
    while more
      invariant d0 <= d && d - s == d0 - s0 && s <= |src|
      invariant more ==> d + stride <= end
      invariant !more ==> e <= d <= end
      invariant dst[..d0] == was && dst[d0..d] == src[s0..s] && dst[end..] == behind
      decreases more, e - d
    {
      ghost var r := dst[..];
      AppendIn(dst, d0, d, src, s0, s, stride);
      SameBehind(r, dst[..], d + stride, end);
      d, s := d + stride, s + stride;
      more := d < e;
    }
    assert dst[d0..e] == dst[d0..d][..e - d0];
  }
}
