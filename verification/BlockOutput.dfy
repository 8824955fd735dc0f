/** What all compressors keep true of the output they have written so far, and how they end: the
    last literals, and for the HC parsers the last sequence when the output is full. */
module BlockOutput {
  import opened Bytes
  import opened BlockFormat
  import opened SequenceWriter

  const LZ4_MAX_INPUT_SIZE := 0x7E000000

  /** LZ4_compressBound. */
  function CompressBound(n: int): int
  {
    if n < 0 || n > LZ4_MAX_INPUT_SIZE then 0 else n + n / 255 + 16
  }

  /** `d` is what the sequences `ss` are written as, and they stand for the first `anchor` bytes
      of `src`, within the end-of-block conditions of the whole of it. */
  ghost predicate Written(d: seq<byte>, ss: seq<Sequence>, src: seq<byte>, anchor: nat)
  {
    && d == Emit(ss)
    && Fits(ss, |src|)
    && anchor <= |src| && Text(ss) == src[..anchor]
  }

  lemma NothingWritten(src: seq<byte>)
    ensures Written([], [], src, 0)
  {
  }

  /** A real match, with the literals before it, is one more sequence. */
  lemma WrittenMore(d: seq<byte>, ss: seq<Sequence>, src: seq<byte>, anchor: nat, ip: nat, off: nat, len: nat)
    requires Written(d, ss, src, anchor) && anchor <= ip <= |src| - MFLIMIT
    requires RealMatch(src, ip, off, len) && len >= MINMATCH && ip + len <= |src| - LASTLITERALS
    ensures var s := Sequence(src[anchor..ip], off, len);
            Written(d + SequenceBytes(s), ss + [s], src, ip + len)
  {
    hide SequenceBytes;
    var s := Sequence(src[anchor..ip], off, len);
    var ss' := ss + [s];
    assert ss'[..|ss'| - 1] == ss;
    assert src[..anchor] + s.lit == src[..ip];
    PeriodicIsRepeat(src, ip, off, len);
  }

  /** Sequences take up little more than the text they stand for. */
  lemma {:induction false} EmitSize(ss: seq<Sequence>, n: int)
    requires Fits(ss, n)
    ensures |Emit(ss)| <= |Text(ss)| + |Text(ss)| / 255
  {
    if ss != [] {
      var pre, s := ss[..|ss| - 1], ss[|ss| - 1];
      EmitSize(pre, n);
      SequenceSize(s);
    }
  }

  lemma SequenceSize(s: Sequence)
    ensures |SequenceBytes(s)| <= |s.lit| + s.len + |s.lit| / 255
  {
    ExtraSize(|s.lit|);
    ExtraSize(s.len - MINMATCH);
  }

  /** A block of LZ4_compressBound bytes has room for any sequence, the wild copy included. */
  lemma BoundIsRoomy(d: seq<byte>, ss: seq<Sequence>, src: seq<byte>, anchor: nat, ip: nat, len: nat, end: int)
    requires Written(d, ss, src, anchor) && anchor <= ip <= |src| - MFLIMIT
    requires len >= MINMATCH && ip + len <= |src| - LASTLITERALS
    requires end >= |src| + |src| / 255 + 16
    ensures Roomy(|d|, ip - anchor, len - MINMATCH, end)
  {
    EmitSize(ss, |src|);
    ExtraSize(ip - anchor);
    ExtraSize(len - MINMATCH);
  }

  /** ... and for the last literals. */
  lemma BoundIsRoomyAtEnd(d: seq<byte>, ss: seq<Sequence>, src: seq<byte>, anchor: nat, end: int)
    requires Written(d, ss, src, anchor)
    requires end >= |src| + |src| / 255 + 16
    ensures |d| + 1 + |ExtraBytes(|src| - anchor)| + (|src| - anchor) <= end
  {
    EmitSize(ss, |src|);
    ExtraSize(|src| - anchor);
  }

  /** No block is larger than LZ4_compressBound says, however it was made. */
  lemma BlockSize(block: seq<byte>, text: seq<byte>)
    requires IsBlock(block, text)
    ensures |block| <= |text| + |text| / 255 + 16
  {
    hide Fits, Emit, Text;
    var ss :| BlockOf(ss, block, text);
    EmitSize(ss, |text|);
    ExtraSize(|text| - |Text(ss)|);
  }

  // ---------- The end of a full output ----------

  /** How many literals fit into `room` bytes together with their token and length bytes. */
  function FittingLiterals(room: nat): int
    requires room >= 1
  {
    var lastRun := room - 1;
    lastRun - (lastRun + 256 - RUN_MASK) / 256
  }

  /** What is left of the room by its last literals: nothing, unless one more literal would need one more
      length byte, too. */
  function Slack(room: int): nat
  {
    if room % 256 == 16 then 1 else 0
  }

  /** They do fit, there are no more of them than what did not fit before, and together with their length
      they fill the room. */
  lemma FittingLiteralsFit(room: nat, rest: nat)
    requires room >= 1 && 1 + (rest + 255 - RUN_MASK) / 255 + rest > room
    ensures 0 <= FittingLiterals(room) <= rest
    ensures 1 + |ExtraBytes(FittingLiterals(room))| + FittingLiterals(room) == room - Slack(room)
    ensures FittingLiterals(room) >= Min(room - 1, 8)
  {
    var m := room - 1;
    var k := (m + 241) / 256;
    ExtraSize(m - k);
    FittingSize(m, k, (m + 241) % 256);
    FittingAreLeft(m, k, rest, (rest + 240) / 255);
  }

  lemma FittingSize(m: nat, k: nat, r: nat)
    requires m + 241 == 256 * k + r && r < 256
    ensures m - k >= Min(m, 8)
    ensures (m - k + 240) / 255 == if r == 0 then k - 1 else k
    ensures (m + 1) % 256 == 16 <==> r == 0
  {
    assert m - k + 240 == 255 * k + r - 1;
  }

  lemma FittingAreLeft(m: nat, k: nat, rest: nat, a: nat)
    requires m + 241 < 256 * (k + 1) && 255 * a <= rest + 240 && m < a + rest
    ensures m - k <= rest
  {
    if k < a { assert m - k <= 255 * k + 14 <= 255 * (a - 1) + 14; }
  }

  /** What the last match needs behind it when the text may be cut off. */
  predicate EndRoom(limit: Limit, ss: seq<Sequence>, room: int)
  {
    limit.FillOutput? ==>
      && room >= 1
      && (ss != [] ==> room - 1 >= LASTLITERALS && ss[|ss| - 1].len + Min(room - 1, 8) >= MFLIMIT)
  }

  /** Cutting the text off behind `lastRun` more literals keeps the end-of-block conditions. */
  lemma CutOff(d: seq<byte>, ss: seq<Sequence>, src: seq<byte>, anchor: nat, lastRun: nat)
    requires Written(d, ss, src, anchor) && anchor + lastRun <= |src|
    requires anchor + lastRun < |src| && ss != [] ==>
               lastRun >= LASTLITERALS && ss[|ss| - 1].len + Min(lastRun, 8) >= MFLIMIT
    ensures BlockOf(ss, d + LastBytes(src[anchor..anchor + lastRun]), src[..anchor + lastRun])
  {
    hide LastBytes, Emit, Text, Fits;
    var n := anchor + lastRun;
    StillFits(ss, |src|, anchor, lastRun);
    assert src[..n][anchor..] == src[anchor..n] && src[..n][..anchor] == src[..anchor];
  }

  lemma StillFits(ss: seq<Sequence>, n0: nat, anchor: nat, lastRun: nat)
    requires Fits(ss, n0) && |Text(ss)| == anchor && anchor + lastRun <= n0
    requires anchor + lastRun < n0 && ss != [] ==>
               lastRun >= LASTLITERALS && ss[|ss| - 1].len + Min(lastRun, 8) >= MFLIMIT
    ensures Fits(ss, anchor + lastRun)
  {
    var n := anchor + lastRun;
    if n < n0 {
      if ss != [] {
        var pre, s := ss[..|ss| - 1], ss[|ss| - 1];
        assert |Text(ss)| == |Text(pre)| + |s.lit| + s.len;
        assert SequenceFits(s, |Text(pre)|, n);
      }
      FitsShorter(ss, n0, n);
    }
  }

  /** The empty text is written as a single zero byte. */
  lemma EmptyBlock(d: seq<byte>)
    requires d == [0]
    ensures BlockOf([], d, [])
  {
    NoSequences();
  }

  // ---------- What a parser leaves as literals ----------

  /** Pairs of a position among some literals and the sequences that come before these. */
  type Places = iset<(seq<Sequence>, int)>

  /** Of the literals before each match, all but the last `gap` are at these places. */
  ghost predicate RunsIn(ss: seq<Sequence>, gap: nat, places: Places)
  {
    ss != [] ==>
      var pre, s := ss[..|ss| - 1], ss[|ss| - 1];
      && RunsIn(pre, gap, places)
      && forall p :: |Text(pre)| <= p < |Text(pre)| + |s.lit| - gap ==> (pre, p) in places
  }

  /** The last literals are, as far as a match could begin there. */
  ghost predicate RestIn(ss: seq<Sequence>, n: nat, places: Places)
  {
    forall p :: |Text(ss)| <= p <= n - 12 ==> (ss, p) in places
  }

  /** In each run of literals the same holds, whatever sequence it belongs to. */
  lemma {:induction false} RunsAre(ss: seq<Sequence>, gap: nat, places: Places, k: nat, p: int)
    requires RunsIn(ss, gap, places) && k < |ss|
    requires |Text(ss[..k])| <= p < |Text(ss[..k])| + |ss[k].lit| - gap
    ensures (ss[..k], p) in places
  {
    hide Text;
    var m := |ss| - 1;
    if k < m {
      assert ss[..m][..k] == ss[..k];
      RunsAre(ss[..m], gap, places, k, p);
    }
  }

  lemma RunsMore(ss: seq<Sequence>, gap: nat, places: Places, s: Sequence)
    requires RunsIn(ss, gap, places)
    requires forall p :: |Text(ss)| <= p < |Text(ss)| + |s.lit| - gap ==> (ss, p) in places
    ensures RunsIn(ss + [s], gap, places)
  {
    hide Text;
    assert (ss + [s])[..|ss|] == ss;
  }

  // ---------- Too little room ----------

  /** No block of `src` that begins with these sequences fits: they leave less than the 6 bytes that
      follow every match, or, with nothing but literals behind them, too little for those. */
  ghost predicate TooLong(ss: seq<Sequence>, src: seq<byte>, room: int)
  {
    && Fits(ss, |src|) && Text(ss) <= src
    && ((ss != [] && |Emit(ss)| + 6 > room) || |Emit(ss)| + |LastBytes(src[|Text(ss)|..])| > room)
  }

  /** The block that goes on with literals does not fit, and in the first case none that goes on in
      another way. */
  lemma TooLongMeans(ss: seq<Sequence>, src: seq<byte>, room: int, ss': seq<Sequence>, block: seq<byte>)
    requires TooLong(ss, src, room) && BlockOf(ss', block, src)
    requires ss' == ss || (ss != [] && |Emit(ss)| + 6 > room && ss <= ss')
    ensures |block| > room
  {
    hide Emit, Text, Fits, LastBytes;
    if ss != [] {
      EmitGrows(ss, ss');
      SixMore(ss', src);
    }
  }

  lemma {:induction false} EmitGrows(ss: seq<Sequence>, ss': seq<Sequence>)
    requires ss <= ss'
    ensures |Emit(ss)| <= |Emit(ss')|
  {
    if ss != ss' { EmitGrows(ss, ss'[..|ss'| - 1]); }
  }

  lemma SixMore(ss: seq<Sequence>, src: seq<byte>)
    requires Fits(ss, |src|) && ss != [] && Text(ss) <= src
    ensures |LastBytes(src[|Text(ss)|..])| >= 6
  {
    FitsLength(ss, |src|);
  }

  // ---------- The output of a parser ----------

  /** The variables op, anchor and optr of a parser, with its output buffer and limit.  The array
      holds exactly the capacity. */
  class Output {
    const src: seq<byte>
    const dst: array<byte>
    const limit: Limit
    const oend: int
    var op: nat
    var anchor: nat
    var optr: nat
    ghost var ss: seq<Sequence>

    constructor (src: seq<byte>, dst: array<byte>, limit: Limit)
      requires limit.FillOutput? ==> dst.Length >= 1
      requires limit.NotLimited? ==> dst.Length >= |src| + |src| / 255 + 16
      ensures Valid() && this.src == src && this.dst == dst && this.limit == limit
      ensures anchor == 0 && ss == []
    {
      this.src, this.dst, this.limit := src, dst, limit;
      oend := if limit.FillOutput? then dst.Length - LASTLITERALS else dst.Length;
      op, anchor, optr, ss := 0, 0, 0, [];
      new;
      NothingWritten(src);
      assert dst[..0] == [];
    }

    ghost predicate Sizes()
    {
      && oend == (if limit.FillOutput? then dst.Length - LASTLITERALS else dst.Length)
      && (limit.NotLimited? ==> dst.Length >= |src| + |src| / 255 + 16)
    }

    /** All is written up to `op`, with room for the end. */
    ghost predicate Valid()
      reads this, dst
    {
      && Sizes() && op <= dst.Length
      && Written(dst[..op], ss, src, anchor)
      && EndRoom(limit, ss, dst.Length - op)
    }

    /** A sequence did not fit: all is written up to `optr`. */
    ghost predicate Overflowed()
      reads this, dst
    {
      && Sizes() && optr <= dst.Length && !limit.NotLimited?
      && Written(dst[..optr], ss, src, anchor)
      && EndRoom(limit, ss, dst.Length - optr)
    }

    /** Behind what is written there is no room for this match and the least that must follow it. */
    ghost predicate NoRoomFor(ip: nat, len: nat)
      reads this
    {
      anchor <= ip && len >= 4 && optr + SizeOf(ip - anchor, len - 4) + 6 > oend
    }

    /** A match that may be written next. */
    ghost predicate Encodable(ip: nat, len: nat, off: nat)
      reads this`anchor
    {
      && anchor <= ip <= |src| - MFLIMIT
      && RealMatch(src, ip, off, len) && len >= MINMATCH && ip + len <= |src| - LASTLITERALS
    }

    /** LZ4HC_encodeSequence on the variables of the parser, optr set before. */
    method Encode(ip: nat, len: nat, off: nat) returns (overflow: bool, ip': nat)
      requires Valid() && Encodable(ip, len, off)
      modifies this, dst
      ensures overflow ==> Overflowed() && NoRoomFor(ip, len) && ip' == ip && anchor == old(anchor) && ss == old(ss)
      ensures !overflow ==> Valid() && ip' == ip + len == anchor
      ensures !overflow ==> ss == old(ss) + [Sequence(old(src[anchor..ip]), off, len)]
    {
      hide Written, Roomy, SequenceBytes, Periodic, SizeOf;
      optr := op;
      ghost var d := dst[..op];
      if limit.NotLimited? {
        BoundIsRoomy(d, ss, src, anchor, ip, len, dst.Length);
      }
      ghost var s := Sequence(src[anchor..ip], off, len);
      WrittenMore(d, ss, src, anchor, ip, off, len);
      overflow, ip', op, anchor := EncodeSequence(src, dst, ip, op, anchor, len, off, limit, oend);
      if !overflow {
        ss := ss + [s];
      }
    }

    /** What a finished compression has produced: nothing, for lack of room, or a block that
        stands for the first `consumed` bytes of the input, and for all of it unless the buffer is
        full. */
    ghost predicate Finished(r: nat, consumed: nat)
      reads this, dst
    {
      if r == 0 then limit.LimitedOutput? && TooLong(ss, src, dst.Length)
      else
        && r <= dst.Length && consumed <= |src|
        && (consumed < |src| ==> limit.FillOutput? && r == dst.Length - Slack(dst.Length - |Emit(ss)|))
        && (limit.NotLimited? ==> r <= |src| + |src| / 255 + 16)
        && BlockOf(ss, dst[..r], src[..consumed])
    }

    /** Encode last literals. */
    method LastLiterals() returns (r: nat, consumed: nat)
      requires Valid()
      modifies this`op, dst
      ensures Finished(r, consumed)
    {
      hide Written, LastBytes, ExtraBytes, BlockOf, TooLong;
      ValidAnchor();
      ghost var d := dst[..op];
      var fits, lastRun := LastRun();
      if !fits { return 0, 0; }
      CutOff(d, ss, src, anchor, lastRun);
      LastSize(src[anchor..anchor + lastRun]);
      op := WriteLastLiterals(src, dst, op, anchor, lastRun);
      r, consumed := op, anchor + lastRun;
    }

    /** How many literals to end with. */
    method LastRun() returns (fits: bool, lastRun: nat)
      requires Valid() && anchor <= |src|
      ensures !fits ==> limit.LimitedOutput? && TooLong(ss, src, dst.Length)
      ensures fits ==>
                && anchor + lastRun <= |src| && op + 1 + |ExtraBytes(lastRun)| + lastRun <= dst.Length
                && (limit.NotLimited? ==> op + 1 + |ExtraBytes(lastRun)| + lastRun <= |src| + |src| / 255 + 16)
                && (anchor + lastRun < |src| ==>
                      && limit.FillOutput?
                      && op + 1 + |ExtraBytes(lastRun)| + lastRun == dst.Length - Slack(dst.Length - op))
                && (anchor + lastRun < |src| && ss != [] ==>
                      lastRun >= LASTLITERALS && ss[|ss| - 1].len + Min(lastRun, 8) >= MFLIMIT)
    {
      hide Written, ExtraBytes, TooLong;
      fits, lastRun := true, |src| - anchor;
      var llAdd := (lastRun + 255 - RUN_MASK) / 255;
      var totalSize := 1 + llAdd + lastRun;
      ExtraSize(lastRun);
      if limit.NotLimited? {
        BoundIsRoomyAtEnd(dst[..op], ss, src, anchor, |src| + |src| / 255 + 16);
      } else if op + totalSize > dst.Length {
        if limit.LimitedOutput? {
          RestTooLong(dst[..op], ss, src, anchor, dst.Length);
          return false, 0;
        }
        FittingLiteralsFit(dst.Length - op, lastRun);
        lastRun := FittingLiterals(dst.Length - op);
      }
    }

    lemma ValidAnchor()
      requires Valid()
      ensures anchor <= |src| && |Emit(ss)| == op
    {
    }

    /** _dest_overflow: with fillOutput, as much of the sequence as still fits, then literals. */
    method DestOverflow(ip: nat, len0: nat, off: nat) returns (r: nat, consumed: nat)
      requires Overflowed() && Encodable(ip, len0, off) && NoRoomFor(ip, len0)
      modifies this, dst
      ensures Finished(r, consumed) && (r > 0 ==> limit.FillOutput?)
      ensures ss == old(ss) || (exists len :: 4 <= len <= len0 && ss == old(ss + [Sequence(src[anchor..ip], off, len)]))
      ensures r > 0 ==>
                NoneLonger(old(optr), ip - old(anchor), len0, if ss == old(ss) then 0 else ss[|ss| - 1].len)
    {
      hide Written, TooLong, BlockOf, Periodic, SizeOf;
      if limit.LimitedOutput? {
        ghost var s := Sequence(src[anchor..ip], off, len0);
        SizeOfBytes(s);
        WrittenMore(dst[..optr], ss, src, anchor, ip, off, len0);
        MatchTooLong(dst[..optr], ss, src, anchor, s, ip + len0, dst.Length);
        ss := ss + [s];
        return 0, 0;
      }
      op := optr;
      var len := FinalLength(ip, len0);
      if len > 0 {
        WriteFinal(ip, len0, len, off);
      }
      r, consumed := LastLiterals();
    }

    /** How long the final match can be, or 0 when there is no room for it. */
    method FinalLength(ip: nat, len0: nat) returns (len: nat)
      requires Sizes() && limit.FillOutput? && anchor <= ip && len0 >= MINMATCH
      ensures len == 0 || FinalFits(op, ip - anchor, len0, len)
      ensures NoneLonger(op, ip - anchor, len0, len)
    {
      var ll := ip - anchor;
      var llTotalCost := 1 + (ll + 240) / 255 + ll;
      var maxLitPos := oend - 3;
      len := 0;
      if op + llTotalCost <= maxLitPos {
        var bytesLeftForMl := maxLitPos - (op + llTotalCost);
        var maxMlSize := MINMATCH + (ML_MASK - 1) + bytesLeftForMl * 255;
        len := Min(len0, maxMlSize);
        ExtraSize(ll);
        ExtraSize(len - MINMATCH);
        NoLonger(ll, len0, maxMlSize);
        if oend + LASTLITERALS - (op + llTotalCost + 2) - 1 + len < MFLIMIT {
          len := 0;
        }
      }
    }

    lemma NoLonger(ll: nat, len0: nat, max: nat)
      requires Sizes() && limit.FillOutput?
      requires var room := oend - 3 - (op + 1 + (ll + 240) / 255 + ll); room >= 0 && max == 18 + room * 255
      ensures NoneLonger(op, ll, len0, max)
    {
      ExtraSize(ll);
      forall n | n > max ensures !FinalFits(op, ll, len0, n) {
        if n >= 4 { ExtraSize(n - 4); }
      }
    }

    /** The final match is long enough, and fits with the literals it needs behind it. */
    ghost predicate FinalFits(start: nat, ll: nat, len0: nat, len: nat)
    {
      && MINMATCH <= len <= len0
      && Roomy(start, ll, len - MINMATCH, dst.Length)
      && var opAfter := start + 1 + |ExtraBytes(ll)| + ll + 2 + |ExtraBytes(len - MINMATCH)|;
        && dst.Length - opAfter - 1 >= LASTLITERALS
        && len + Min(dst.Length - opAfter - 1, 8) >= MFLIMIT
    }

    ghost predicate NoneLonger(start: nat, ll: nat, len0: nat, len: nat)
    {
      forall n :: n > len ==> !FinalFits(start, ll, len0, n)
    }

    /** The final match, written without looking at the limit. */
    method WriteFinal(ip: nat, len0: nat, len: nat, off: nat)
      requires Valid() && limit.FillOutput? && Encodable(ip, len0, off)
      requires len > 0 && FinalFits(op, ip - anchor, len0, len)
      modifies this, dst
      ensures Valid() && ss == old(ss + [Sequence(src[anchor..ip], off, len)])
    {
      hide Written, SequenceBytes, Periodic, ExtraBytes;
      ghost var d := dst[..op];
      ghost var s := Sequence(src[anchor..ip], off, len);
      SequenceBytesLength(s);
      RealMatchPart(src, ip, off, len0, ip, len);
      WrittenMore(d, ss, src, anchor, ip, off, len);
      var overflow, ip';
      overflow, ip', op, anchor := EncodeSequence(src, dst, ip, op, anchor, len, off, NotLimited, oend);
      ss := ss + [s];
    }
  }

  lemma LastSize(lit: seq<byte>)
    ensures |LastBytes(lit)| == 1 + |ExtraBytes(|lit|)| + |lit|
  {
  }

  lemma RestTooLong(d: seq<byte>, ss: seq<Sequence>, src: seq<byte>, anchor: nat, room: int)
    requires Written(d, ss, src, anchor) && |d| + 1 + |ExtraBytes(|src| - anchor)| + |src| - anchor > room
    ensures TooLong(ss, src, room)
  {
    hide Emit, Text, Fits, ExtraBytes;
  }

  lemma MatchTooLong(d: seq<byte>, ss: seq<Sequence>, src: seq<byte>, anchor: nat, s: Sequence, ip: nat, room: int)
    requires Written(d, ss, src, anchor) && Written(d + SequenceBytes(s), ss + [s], src, ip)
    requires |d| + |SequenceBytes(s)| + 6 > room
    ensures TooLong(ss + [s], src, room)
  {
    hide Emit, Text, Fits, SequenceBytes, LastBytes;
  }

  lemma SequenceBytesLength(s: Sequence)
    ensures |SequenceBytes(s)| == 1 + |ExtraBytes(|s.lit|)| + |s.lit| + 2 + |ExtraBytes(s.len - MINMATCH)|
  {
  }
}
