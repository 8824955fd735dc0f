/** Writing sequences into the output buffer, as LZ4HC_encodeSequence and the ends of both
    compressors do, within the three kinds of output limit. */
module SequenceWriter {
  import opened Bytes
  import opened BlockFormat
  import opened Copies

  /** limitedOutput_directive. */
  datatype Limit = NotLimited | LimitedOutput | FillOutput

  /** The bytes of a length, one at a time. */
  method WriteLength(dst: array<byte>, op0: nat, n: nat) returns (op: nat)
    requires op0 + n / 255 + 1 <= dst.Length
    modifies dst
    ensures op == op0 + n / 255 + 1
    ensures dst[..op] == old(dst[..op0]) + LengthBytes(n) && dst[op..] == old(dst[op0 + n / 255 + 1..])
  {
    op := op0;
    var len: nat := n;
    while len >= 255
      invariant op0 <= op <= dst.Length && len <= n && op + len / 255 == op0 + n / 255
      invariant dst[..op] + LengthBytes(len) == old(dst[..op0]) + LengthBytes(n)
      invariant dst[op0 + n / 255 + 1..] == old(dst[op0 + n / 255 + 1..])
    {
      ghost var before := dst[..op];
      dst[op] := 255;
      op, len := op + 1, len - 255;
      Push(before, dst[..op], 255, LengthBytes(len));
    }
    ghost var before := dst[..op];
    dst[op] := len;
    op := op + 1;
    assert dst[..op] == before + [len];
  }

  lemma Push(before: seq<byte>, after: seq<byte>, b: byte, rest: seq<byte>)
    requires after == before + [b]
    ensures after + rest == before + ([b] + rest)
  {
  }

  /** The bytes of a match length in LZ4HC_encodeSequence, two at a time. */
  method WriteLengthPairs(dst: array<byte>, op0: nat, n: nat) returns (op: nat)
    requires op0 + n / 255 + 1 <= dst.Length
    modifies dst
    ensures op == op0 + n / 255 + 1
    ensures dst[..op] == old(dst[..op0]) + LengthBytes(n) && dst[op..] == old(dst[op0 + n / 255 + 1..])
  {
    op := op0;
    var code: nat := n;
    while code >= 510
      invariant op0 <= op <= dst.Length && code <= n && op + code / 255 == op0 + n / 255
      invariant dst[..op] + LengthBytes(code) == old(dst[..op0]) + LengthBytes(n)
      invariant dst[op0 + n / 255 + 1..] == old(dst[op0 + n / 255 + 1..])
    {
      ghost var before := dst[..op];
      dst[op], dst[op + 1] := 255, 255;
      Push(before, dst[..op + 1], 255, LengthBytes(code - 255));
      Push(dst[..op + 1], dst[..op + 2], 255, LengthBytes(code - 510));
      op, code := op + 2, code - 510;
    }
    if code >= 255 {
      ghost var before := dst[..op];
      dst[op] := 255;
      op, code := op + 1, code - 255;
      Push(before, dst[..op], 255, LengthBytes(code));
    }
    ghost var before := dst[..op];
    dst[op] := code;
    op := op + 1;
    assert dst[..op] == before + [code];
  }

  /** The token, with the literal length and no match length yet, and the extra length bytes. */
  method WriteLiteralLength(dst: array<byte>, token: nat, ll: nat) returns (op: nat)
    requires token + 1 + |ExtraBytes(ll)| <= dst.Length
    modifies dst
    ensures op == token + 1 + |ExtraBytes(ll)|
    ensures dst[..op] == old(dst[..token]) + ([Token(ll, 0)] + ExtraBytes(ll))
    ensures dst[op..] == old(dst[token + 1 + |ExtraBytes(ll)|..])
  {
    hide LengthBytes, Token, ExtraBytes;
    ghost var before := dst[..token];
    ExtraBytesAre(ll);
    TokenIs(ll);
    op := token + 1;
    if ll >= RUN_MASK {
      dst[token] := RUN_MASK * 16;
      assert dst[..op] == before + [Token(ll, 0)];
      op := WriteLength(dst, op, ll - RUN_MASK);
    } else {
      dst[token] := ll * 16;
    }
    assert dst[..op] == before + [Token(ll, 0)] + ExtraBytes(ll);
  }

  lemma ExtraBytesAre(n: nat)
    ensures ExtraBytes(n) == if n < RUN_MASK then [] else LengthBytes(n - RUN_MASK)
  {
  }

  lemma TokenIs(ll: nat)
    ensures Token(ll, 0) == Min(ll, RUN_MASK) * 16
  {
  }

  /** The match distance. */
  method WriteOffset(dst: array<byte>, op: nat, off: u16)
    requires op + 2 <= dst.Length
    modifies dst
    ensures dst[..op + 2] == old(dst[..op]) + LE16(off) && dst[op + 2..] == old(dst[op + 2..])
  {
    dst[op], dst[op + 1] := off % 256, off / 256;
  }

  /** The match length joins the token that has been waiting. */
  lemma JoinToken(before: seq<byte>, lit: seq<byte>, off: u16, code: nat)
    ensures var d := before + LiteralBytes(lit, 0) + LE16(off) + ExtraBytes(code);
            d[|before| := Token(|lit|, code)] == before + (LiteralBytes(lit, code) + LE16(off) + ExtraBytes(code))
  {
    hide ExtraBytes, Token;
    assert LiteralBytes(lit, code) == LiteralBytes(lit, 0)[0 := Token(|lit|, code)];
  }

  /** How many bytes a sequence takes up. */
  function SizeOf(ll: nat, code: nat): nat
  {
    1 + |ExtraBytes(ll)| + ll + 2 + |ExtraBytes(code)|
  }

  lemma SizeOfBytes(s: Sequence)
    ensures |SequenceBytes(s)| == SizeOf(|s.lit|, s.len - 4)
  {
  }

  lemma SequenceBytesAre(s: Sequence)
    ensures SequenceBytes(s) == LiteralBytes(s.lit, s.len - MINMATCH) + LE16(s.off) + ExtraBytes(s.len - MINMATCH)
  {
  }

  /** Room for a sequence written without looking at the limit, wild copy included. */
  predicate Roomy(op: nat, ll: nat, code: nat, end: int)
  {
    var op1 := op + 1 + |ExtraBytes(ll)| + ll;
    op1 + 8 <= end && op1 + 2 + |ExtraBytes(code)| <= end
  }

  /** The first half of LZ4HC_encodeSequence: token and literals. */
  method WriteLiterals(dst: array<byte>, token: nat, src: seq<byte>, anchor: nat, ip: nat) returns (op: nat)
    requires anchor <= ip && ip + 8 <= |src|
    requires token + 1 + |ExtraBytes(ip - anchor)| + (ip - anchor) + 7 <= dst.Length
    requires token + 1 + |ExtraBytes(ip - anchor)| + 8 <= dst.Length
    modifies dst
    ensures op == token + |LiteralBytes(src[anchor..ip], 0)|
    ensures dst[..op] == old(dst[..token]) + LiteralBytes(src[anchor..ip], 0)
    ensures var end := token + 1 + |ExtraBytes(ip - anchor)| + Max(ip - anchor + 7, 8);
            dst[end..] == old(dst[end..])
  {
    hide ExtraBytes, Token;
    ghost var was := dst[..];
    var ll := ip - anchor;
    ghost var before := dst[..token];
    op := WriteLiteralLength(dst, token, ll);
    ghost var d := dst[..op];
    ghost var end := op + Max(ll + 7, 8);
    SameBehind(was, dst[..], op, end);
    WildCopyIn(dst, op, src, anchor, op + ll, 8);
    LiteralsBehind(before, d, dst[..], src[anchor..ip], 0);
    op := op + ll;
  }

  lemma LiteralsBehind(before: seq<byte>, d: seq<byte>, d': seq<byte>, lit: seq<byte>, code: nat)
    requires d == before + ([Token(|lit|, code)] + ExtraBytes(|lit|))
    requires |d| + |lit| <= |d'| && d'[..|d|] == d && d'[|d|..|d| + |lit|] == lit
    ensures d'[..|d| + |lit|] == before + LiteralBytes(lit, code)
  {
    hide ExtraBytes, Token;
    assert d'[..|d| + |lit|] == d'[..|d|] + d'[|d|..|d| + |lit|];
    Assoc(before, [Token(|lit|, code)] + ExtraBytes(|lit|), lit);
  }

  lemma Assoc(a: seq<byte>, b: seq<byte>, c: seq<byte>)
    ensures (a + b) + c == a + (b + c)
  {
  }

  /** The same and the distance. */
  method WriteStart(dst: array<byte>, token: nat, src: seq<byte>, anchor: nat, ip: nat, off: u16) returns (op: nat)
    requires anchor <= ip && ip + 8 <= |src|
    requires token + 1 + |ExtraBytes(ip - anchor)| + (ip - anchor) + 7 <= dst.Length
    requires token + 1 + |ExtraBytes(ip - anchor)| + 8 <= dst.Length
    modifies dst
    ensures op == token + |LiteralBytes(src[anchor..ip], 0)| + 2
    ensures dst[..op] == old(dst[..token]) + LiteralBytes(src[anchor..ip], 0) + LE16(off)
    ensures var end := token + 1 + |ExtraBytes(ip - anchor)| + Max(ip - anchor + 7, 8);
            dst[end..] == old(dst[end..])
  {
    hide ExtraBytes;
    op := WriteLiterals(dst, token, src, anchor, ip);
    ghost var d := dst[..];
    WriteOffset(dst, op, off);
    op := op + 2;
    SameBehind(d, dst[..], op, token + 1 + |ExtraBytes(ip - anchor)| + Max(ip - anchor + 7, 8));
  }

  /** The end of the second half: the match length, and the token completed. */
  method WriteMatchLength(dst: array<byte>, token: nat, op0: nat, code: nat, ghost before: seq<byte>,
          ghost lit: seq<byte>, ghost off: u16)
    returns (op: nat)
    requires |before| == token && op0 == token + |LiteralBytes(lit, 0)| + 2
    requires op0 + |ExtraBytes(code)| <= dst.Length
    requires dst[..op0] == before + LiteralBytes(lit, 0) + LE16(off)
    modifies dst
    ensures op == op0 + |ExtraBytes(code)|
    ensures dst[..op] == before + (LiteralBytes(lit, code) + LE16(off) + ExtraBytes(code))
    ensures dst[op..] == old(dst[op0 + |ExtraBytes(code)|..])
  {
    hide LiteralBytes, LengthBytes, LE16, Token;
    op := op0;
    if code >= ML_MASK {
      op := WriteLengthPairs(dst, op, code - ML_MASK);
    }
    ghost var d := dst[..op];
    assert d == before + LiteralBytes(lit, 0) + LE16(off) + ExtraBytes(code);
    JoinToken(before, lit, off, code);
    TokenAt(before, lit, d);
    dst[token] := dst[token] + Min(code, ML_MASK);
    assert dst[..op] == d[token := Token(|lit|, code)];
  }

  lemma TokenAt(before: seq<byte>, lit: seq<byte>, d: seq<byte>)
    requires before + LiteralBytes(lit, 0) <= d
    ensures |before| < |d| && d[|before|] == Token(|lit|, 0) <= 15 * 16
    ensures forall code: nat :: Token(|lit|, 0) + Min(code, ML_MASK) == Token(|lit|, code)
  {
    assert (before + LiteralBytes(lit, 0))[|before|] == Token(|lit|, 0);
  }

  /** LZ4HC_encodeSequence.  With a limit it reports an overflow rather than write past `oend`, but only
      if the sequence and the least that must follow it, 6 bytes, do not fit; it leaves at least
      LASTLITERALS bytes free, and changes nothing behind `oend`.  Without a limit the caller provides
      the room. */
  method EncodeSequence(src: seq<byte>, dst: array<byte>, ip: nat, op: nat, anchor: nat, matchLength: nat, offset: nat,
          limit: Limit, oend: int)
    returns (overflow: bool, ip': nat, op': nat, anchor': nat)
    requires anchor <= ip && ip + 8 <= |src| && MINMATCH <= matchLength && 1 <= offset <= DISTANCE_MAX
    requires op <= dst.Length
    requires limit.NotLimited? ==> Roomy(op, ip - anchor, matchLength - MINMATCH, dst.Length)
    requires !limit.NotLimited? ==> oend <= dst.Length
    modifies dst
    ensures !limit.NotLimited? && 0 <= oend ==> dst[oend..] == old(dst[oend..])
    ensures overflow ==> !limit.NotLimited? && op + SizeOf(ip - anchor, matchLength - 4) + 6 > oend
    ensures overflow ==> dst[..op] == old(dst[..op]) && (ip', anchor') == (ip, anchor)
    ensures !overflow ==>
              && ip' == anchor' == ip + matchLength
              && op <= op' <= dst.Length && (!limit.NotLimited? ==> op' + LASTLITERALS <= oend)
              && dst[..op'] == old(dst[..op]) + SequenceBytes(Sequence(src[anchor..ip], offset, matchLength))
  {
    hide LiteralBytes, ExtraBytes, LE16, SequenceBytes;
    var token, litLen, code := op, ip - anchor, matchLength - MINMATCH;
    ExtraSize(litLen);
    ExtraSize(code);
    ghost var before := dst[..op];
    overflow, ip', op', anchor' := false, ip, op + 1, anchor;
    if !limit.NotLimited? && op' + litLen / 255 + litLen + (2 + 1 + LASTLITERALS) > oend {
      return true, ip, op', anchor;
    }
    ghost var d := dst[..];
    op' := WriteStart(dst, token, src, anchor, ip, offset);
    if !limit.NotLimited? { SameBehind(d, dst[..], token + 1 + |ExtraBytes(litLen)| + Max(litLen + 7, 8), oend); }
    overflow, op' := FinishSequence(dst, token, op', code, before, src[anchor..ip], offset, limit, oend);
    if overflow { return true, ip, op', anchor; }
    ip' := ip + matchLength;
    anchor' := ip';
  }

  /** The second half, when literals and distance are written. */
  method FinishSequence(dst: array<byte>, token: nat, op0: nat, code: nat, ghost before: seq<byte>,
          ghost lit: seq<byte>, ghost off: u16, limit: Limit, oend: int)
    returns (overflow: bool, op: nat)
    requires |before| == token && op0 == token + |LiteralBytes(lit, 0)| + 2 && 1 <= off
    requires op0 <= dst.Length && dst[..op0] == before + LiteralBytes(lit, 0) + LE16(off)
    requires limit.NotLimited? ==> op0 + |ExtraBytes(code)| <= dst.Length
    requires !limit.NotLimited? ==> oend <= dst.Length
    modifies dst
    ensures !limit.NotLimited? && op0 <= oend ==> dst[oend..] == old(dst[oend..])
    ensures overflow ==> !limit.NotLimited? && op0 + |ExtraBytes(code)| + 6 > oend && dst[..token] == before
    ensures !overflow ==>
              && op0 <= op <= dst.Length && (!limit.NotLimited? ==> op + LASTLITERALS <= oend)
              && dst[..op] == before + SequenceBytes(Sequence(lit, off, code + 4))
  {
    hide LiteralBytes, ExtraBytes, LE16, SequenceBytes;
    ExtraSize(code);
    SequenceBytesAre(Sequence(lit, off, code + 4));
    if !limit.NotLimited? && op0 + code / 255 + (1 + LASTLITERALS) > oend {
      assert dst[..op0][..token] == before;
      return true, op0;
    }
    ghost var d := dst[..];
    op := WriteMatchLength(dst, token, op0, code, before, lit, off);
    if !limit.NotLimited? { SameBehind(d, dst[..], op, oend); }
    return false, op;
  }

  /** The last literals, with `lastRun` of them. */
  method WriteLastLiterals(src: seq<byte>, dst: array<byte>, op: nat, anchor: nat, lastRun: nat) returns (op': nat)
    requires anchor + lastRun <= |src| && op + 1 + |ExtraBytes(lastRun)| + lastRun <= dst.Length
    modifies dst
    ensures op' == op + |LastBytes(src[anchor..anchor + lastRun])|
    ensures dst[..op'] == old(dst[..op]) + LastBytes(src[anchor..anchor + lastRun])
  {
    hide ExtraBytes, Token;
    ghost var before := dst[..op];
    op' := WriteLiteralLength(dst, op, lastRun);
    ghost var d := dst[..op'];
    CopyIn(dst, op', src, anchor, lastRun);
    LiteralsBehind(before, d, dst[..], src[anchor..anchor + lastRun], 0);
    op' := op' + lastRun;
  }
}
