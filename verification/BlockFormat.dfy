/** The LZ4 block format: what a block means, which blocks obey the end-of-block
    conditions, and how a list of sequences is written down.  It is stated in numbers; the names are
    those of the code.

    A block is a list of sequences.  Each has a token, literals, and a match given as a
    distance into the text produced so far and a length; the last one has literals only. */
module BlockFormat {
  import opened Bytes

  const MINMATCH := 4
  const LASTLITERALS := 5
  const MFLIMIT := 12
  const LZ4_minLength := MFLIMIT + 1
  const RUN_MASK := 15
  const ML_MASK := 15
  const DISTANCE_MAX := 65535

  // ---------- Matches ----------

  /** `text` followed by a match of `n` bytes at distance `off`, one byte at a time, so that
      a match may overlap itself.  Distance 0 stands for zeros, as in the decoder. */
  function Repeat(text: seq<byte>, off: nat, n: nat): (r: seq<byte>)
    requires off <= |text|
    ensures |r| == |text| + n
    ensures text <= r
  {
    if n == 0 then text
    else
      var prev := Repeat(text, off, n - 1);
      prev + [if off == 0 then 0 else prev[|prev| - off]]
  }

  /** The byte at `k` is the one `off` before it (zero, for distance 0). */
  predicate Copied(r: seq<byte>, off: nat, k: int)
  {
    off <= k < |r| && r[k] == if off == 0 then 0 else r[k - off]
  }

  /** `r` repeats itself at distance `off` from `lo` up to `hi`. */
  ghost predicate Periodic(r: seq<byte>, lo: int, hi: int, off: nat)
  {
    forall k :: lo <= k < hi ==> Copied(r, off, k)
  }

  /** A decoded match repeats what comes before it. */
  lemma {:induction false} RepeatIsPeriodic(text: seq<byte>, off: nat, n: nat)
    requires off <= |text|
    ensures Periodic(Repeat(text, off, n), |text|, |text| + n, off)
  {
    if n > 0 {
      RepeatIsPeriodic(text, off, n - 1);
      var r, prev := Repeat(text, off, n), Repeat(text, off, n - 1);
      forall k | |text| <= k < |text| + n ensures Copied(r, off, k) {
        assert k < |prev| ==> Copied(prev, off, k);
      }
    }
  }

  /** The only text that starts with `r[..m]` and is periodic afterwards is `Repeat`. */
  lemma {:induction false} PeriodicIsRepeat(r: seq<byte>, m: nat, off: nat, n: nat)
    requires off <= m && m + n <= |r|
    requires Periodic(r, m, m + n, off)
    ensures r[..m + n] == Repeat(r[..m], off, n)
  {
    if n > 0 {
      PeriodicIsRepeat(r, m, off, n - 1);
      assert Copied(r, off, m + n - 1);
      assert r[..m + n] == r[..m + n - 1] + [r[m + n - 1]];
    }
  }

  /** A match may be decoded in two parts. */
  lemma {:induction false} RepeatSplit(text: seq<byte>, off: nat, a: nat, b: nat)
    requires off <= |text|
    ensures Repeat(text, off, a + b) == Repeat(Repeat(text, off, a), off, b)
  {
    if b > 0 {
      RepeatSplit(text, off, a, b - 1);
    }
  }

  /** `len` bytes of `s` at `pos` are the bytes `off` before them. */
  ghost predicate RealMatch(s: seq<byte>, pos: int, off: int, len: int)
  {
    && 1 <= off <= pos
    && off <= 65535
    && pos + len <= |s|
    && Periodic(s, pos, pos + len, off)
  }

  /** Dropping the front, the back, or both of a match leaves a match. */
  lemma RealMatchPart(s: seq<byte>, pos: int, off: int, len: int, pos': int, len': int)
    requires RealMatch(s, pos, off, len)
    requires pos <= pos' && pos' + len' <= pos + len
    ensures RealMatch(s, pos', off, len')
  {
  }

  // ---------- The byte-at-a-time decoder ----------

  /** Lenient asks only that the block can be read, Plain that no distance is 0; Strict also asks for
      the end-of-block conditions, in a text that may not grow beyond `limit` bytes. */
  datatype Rules = Lenient | Plain | Strict(limit: int)

  /** A length continued in extra bytes: their sum, up to and including the first that is not 255. */
  function ReadLength(src: seq<byte>, i: nat): (r: Option<(nat, nat)>)
    ensures r.Some? ==> i < r.value.1 <= |src|
    decreases |src| - i
  {
    if i >= |src| then None
    else if src[i] != 255 then Some((src[i], i + 1))
    else match ReadLength(src, i + 1)
      case None => None
      case Some((n, j)) => Some((255 + n, j))
  }

  /** Decode from the token at `i`; `text` is the history and everything decoded before. */
  function Decode(src: seq<byte>, i: nat, text: seq<byte>, rules: Rules): Option<seq<byte>>
    decreases |src| - i, 0
  {
    if i >= |src| then None
    else if src[i] / 16 != 15 then DecodeLiterals(src, i + 1, text, src[i] / 16, src[i] % 16, rules)
    else match ReadLength(src, i + 1)
      case None => None
      case Some((n, j)) => DecodeLiterals(src, j, text, 15 + n, src[i] % 16, rules)
  }

  /** Decode from the `ll` literals at `i`; `nibble` is the low half of the token. */
  function DecodeLiterals(src: seq<byte>, i: nat, text: seq<byte>, ll: nat, nibble: nat,
          rules: Rules): Option<seq<byte>>
    decreases |src| - i, 4
  {
    if i + ll > |src| then None
    else if i + ll == |src| then
      if rules.Strict? && !(nibble == 0 && |text| + ll <= rules.limit) then None
      else Some(text + src[i..])
    else if rules.Strict? && |text| + ll + 12 > rules.limit then None
    else DecodeOffset(src, i + ll, text + src[i..i + ll], nibble, rules)
  }

  /** Decode from the match distance at `i`. */
  function DecodeOffset(src: seq<byte>, i: nat, text: seq<byte>, nibble: nat, rules: Rules): Option<seq<byte>>
    decreases |src| - i, 3
  {
    if i + 2 > |src| then None
    else DecodeMatchLength(src, i + 2, text, ReadLE16(src, i), nibble, rules)
  }

  /** Decode from behind the match distance. */
  function DecodeMatchLength(src: seq<byte>, i: nat, text: seq<byte>, off: nat, nibble: nat,
          rules: Rules): Option<seq<byte>>
    decreases |src| - i, 2
  {
    if nibble != 15 then DecodeMatch(src, i, text, off, nibble + 4, rules)
    else match ReadLength(src, i)
      case None => None
      case Some((n, j)) => DecodeMatch(src, j, text, off, 19 + n, rules)
  }

  /** Decode a match of known distance and length; `i` is behind the whole sequence. */
  function DecodeMatch(src: seq<byte>, i: nat, text: seq<byte>, off: nat, len: nat, rules: Rules): Option<seq<byte>>
    decreases |src| - i, 1
  {
    if off > |text| || (rules.Plain? && off == 0) then None
    else if rules.Strict? && !(off > 0 && |text| + len + 5 <= rules.limit && i + 6 <= |src|) then None
    else Decode(src, i, Repeat(text, off, len), rules)
  }

  /** A block that obeys the end-of-block conditions means the same without them. */
  lemma {:induction false} StrictIsLenient(src: seq<byte>, i: nat, text: seq<byte>, limit: int)
    ensures Decode(src, i, text, Strict(limit)).Some? ==>
              Decode(src, i, text, Lenient) == Decode(src, i, text, Strict(limit))
    decreases |src| - i
  {
    if Decode(src, i, text, Strict(limit)).Some? {
      var (ll, j) := if src[i] / 16 != RUN_MASK then (src[i] / 16, i + 1)
        else (RUN_MASK + ReadLength(src, i + 1).value.0, ReadLength(src, i + 1).value.1);
      StrictIsLenientLiterals(src, j, text, ll, src[i] % 16, limit);
    }
  }

  lemma {:induction false} StrictIsLenientLiterals(src: seq<byte>, i: nat, text: seq<byte>, ll: nat, nibble: nat,
          limit: int)
    requires DecodeLiterals(src, i, text, ll, nibble, Strict(limit)).Some?
    ensures DecodeLiterals(src, i, text, ll, nibble, Lenient) == DecodeLiterals(src, i, text, ll, nibble, Strict(limit))
    decreases |src| - i
  {
    if i + ll < |src| {
      var t := text + src[i..i + ll];
      var k := i + ll + 2;
      assert DecodeOffset(src, i + ll, t, nibble, Strict(limit)).Some?;
      var off := ReadLE16(src, i + ll);
      assert DecodeMatchLength(src, k, t, off, nibble, Strict(limit)).Some?;
      var (len, m) := if nibble != ML_MASK then (nibble + MINMATCH, k)
        else (ML_MASK + ReadLength(src, k).value.0 + MINMATCH, ReadLength(src, k).value.1);
      assert DecodeMatch(src, m, t, off, len, Strict(limit)).Some?;
      StrictIsLenient(src, m, Repeat(t, off, len), limit);
      assert DecodeMatch(src, m, t, off, len, Lenient) == DecodeMatch(src, m, t, off, len, Strict(limit));
      assert DecodeMatchLength(src, k, t, off, nibble, Lenient)
          == DecodeMatchLength(src, k, t, off, nibble, Strict(limit));
      assert DecodeOffset(src, i + ll, t, nibble, Lenient) == DecodeOffset(src, i + ll, t, nibble, Strict(limit));
    }
  }

  // ---------- Writing sequences ----------

  datatype AnySequence = Sequence(lit: seq<byte>, off: nat, len: nat)

  /** Only matches of at least 4 bytes at distances of 1 to 65535 can be written down. */
  type Sequence = s: AnySequence | s.len >= 4 && 1 <= s.off <= 65535 witness Sequence([], 1, 4)

  /** The extra bytes of a length that does not fit its half of the token. */
  function LengthBytes(n: nat): (b: seq<byte>)
    ensures |b| == n / 255 + 1
  {
    if n < 255 then [n] else [255] + LengthBytes(n - 255)
  }

  /** The extra bytes for a length whose half of the token holds at most 15. */
  function ExtraBytes(n: nat): seq<byte>
  {
    if n < 15 then [] else LengthBytes(n - 15)
  }

  lemma ExtraSize(n: nat)
    ensures |ExtraBytes(n)| <= n / 255 + 1
    ensures n < RUN_MASK ==> |ExtraBytes(n)| == 0
    ensures |ExtraBytes(n)| == (n + 240) / 255
  {
  }

  function Token(ll: nat, code: nat): byte
  {
    16 * Min(ll, 15) + Min(code, 15)
  }

  function LiteralBytes(lit: seq<byte>, code: nat): (b: seq<byte>)
    ensures |b| == 1 + |ExtraBytes(|lit|)| + |lit|
  {
    [Token(|lit|, code)] + ExtraBytes(|lit|) + lit
  }

  /** The bytes of one sequence. */
  function SequenceBytes(s: Sequence): seq<byte>
  {
    LiteralBytes(s.lit, s.len - 4) + LE16(s.off) + ExtraBytes(s.len - 4)
  }

  /** The bytes of the last sequence. */
  function LastBytes(lit: seq<byte>): (b: seq<byte>)
    ensures |b| == 1 + |ExtraBytes(|lit|)| + |lit|
  {
    LiteralBytes(lit, 0)
  }

  /** The text after one more sequence. */
  function Extend(text: seq<byte>, s: Sequence): (t: seq<byte>)
    ensures text + s.lit <= t
    ensures s.off <= |text| + |s.lit| ==> |t| == |text| + |s.lit| + s.len
  {
    var t := text + s.lit;
    if s.off <= |t| then Repeat(t, s.off, s.len) else t
  }

  /** The text a list of sequences stands for. */
  function Text(ss: seq<Sequence>): seq<byte>
  {
    if ss == [] then [] else Extend(Text(ss[..|ss| - 1]), ss[|ss| - 1])
  }

  /** One more sequence keeps the end-of-block conditions of a text of `n` bytes, when `m` bytes
      come before it: a match starts at least 12 and ends at least 5 bytes early. */
  ghost predicate SequenceFits(s: Sequence, m: nat, n: int)
  {
    && s.off <= m + |s.lit|
    && m + |s.lit| + 12 <= n
    && m + |s.lit| + s.len + 5 <= n
  }

  /** A list of sequences that may begin a text of `n` bytes. */
  ghost predicate Fits(ss: seq<Sequence>, n: int)
  {
    ss != [] ==>
      && Fits(ss[..|ss| - 1], n)
      && SequenceFits(ss[|ss| - 1], |Text(ss[..|ss| - 1])|, n)
  }

  /** The bytes of a list of sequences. */
  function Emit(ss: seq<Sequence>): seq<byte>
  {
    if ss == [] then [] else Emit(ss[..|ss| - 1]) + SequenceBytes(ss[|ss| - 1])
  }

  /** A list of sequences may begin every text that is long enough for its last match. */
  lemma {:induction false} FitsShorter(ss: seq<Sequence>, n: int, n': int)
    requires Fits(ss, n)
    requires ss != [] ==> SequenceFits(ss[|ss| - 1], |Text(ss[..|ss| - 1])|, n')
    ensures Fits(ss, n')
  {
    if ss != [] {
      var pre := ss[..|ss| - 1];
      if pre != [] {
        assert |Text(pre)| == |Text(pre[..|pre| - 1])| + |pre[|pre| - 1].lit| + pre[|pre| - 1].len;
      }
      FitsShorter(pre, n, n');
    }
  }

  /** A whole block: the sequences, then the rest of the text as literals. */
  ghost predicate BlockOf(ss: seq<Sequence>, block: seq<byte>, text: seq<byte>)
  {
    && Fits(ss, |text|) && Text(ss) <= text
    && block == Emit(ss) + LastBytes(text[|Text(ss)|..])
  }

  ghost predicate IsBlock(block: seq<byte>, text: seq<byte>)
  {
    exists ss: seq<Sequence> :: BlockOf(ss, block, text)
  }

  // ---------- The format in numbers ----------

  /** The end-of-block conditions, sequence by sequence: every match has at least 4 bytes at a distance
      of 1 to 65535 inside the text, begins at least 12 bytes before its end, and ends at least 5. */
  ghost predicate MatchInLimits(ss: seq<Sequence>, n: int, k: nat)
    requires k < |ss|
  {
    var start := |Text(ss[..k])| + |ss[k].lit|;
    && 4 <= ss[k].len && 1 <= ss[k].off <= Min(start, 65535)
    && start <= n - 12 && start + ss[k].len <= n - 5
  }

  lemma {:induction false} MatchLimits(ss: seq<Sequence>, n: int)
    ensures Fits(ss, n) <==> forall k :: 0 <= k < |ss| ==> MatchInLimits(ss, n, k)
  {
    hide Text;
    if ss != [] {
      var m := |ss| - 1;
      MatchLimits(ss[..m], n);
      forall k | 0 <= k < m ensures MatchInLimits(ss[..m], n, k) <==> MatchInLimits(ss, n, k) {
        assert ss[..m][..k] == ss[..k];
      }
      assert MatchInLimits(ss, n, m) <==> SequenceFits(ss[m], |Text(ss[..m])|, n);
    }
  }

  /** A text of at most 12 bytes has no room for a match: its block is a token and the text. */
  lemma ShortText(block: seq<byte>, text: seq<byte>)
    requires IsBlock(block, text) && |text| <= 12
    ensures block == [16 * |text|] + text
  {
    hide Text, Emit;
    var ss :| BlockOf(ss, block, text);
    if ss != [] { FirstMatchFits(ss, |text|); }
    NoSequences();
    assert LastBytes(text) == [16 * |text|] + [] + text;
    assert text[0..] == text;
  }

  lemma FirstMatchFits(ss: seq<Sequence>, n: int)
    requires Fits(ss, n) && ss != []
    ensures |ss[0].lit| + 12 <= n
  {
    hide Text;
    MatchLimits(ss, n);
    assert MatchInLimits(ss, n, 0);
  }

  lemma NoSequences()
    ensures Text([]) == [] && Emit([]) == []
  {
  }

  function Times(n: nat, b: byte): seq<byte>
  {
    seq(n, _ => b)
  }

  /** The extra bytes of a length: as many times 255 as fit, and the rest. */
  lemma {:induction false} LengthLayout(n: nat)
    ensures LengthBytes(n) == Times(n / 255, 255) + [n % 255]
  {
    if n >= 255 {
      LengthLayout(n - 255);
      assert Times(n / 255, 255) == [255] + Times((n - 255) / 255, 255);
    }
  }

  /** The extra bytes of a value of which a half-byte holds up to 14. */
  lemma ExtraLayout(n: nat)
    ensures ExtraBytes(n) == if n < 15 then [] else Times((n - 15) / 255, 255) + [(n - 15) % 255]
  {
    hide LengthBytes;
    if n >= 15 { LengthLayout(n - 15); }
  }

  /** Which byte of a sequence is what. */
  lemma SequenceLayout(s: Sequence)
    ensures var l, m := |s.lit|, s.len - 4;
            SequenceBytes(s) ==
              [16 * (if l < 15 then l else 15) + (if m < 15 then m else 15)]
              + (if l < 15 then [] else Times((l - 15) / 255, 255) + [(l - 15) % 255])
              + s.lit + [s.off % 256, s.off / 256]
              + (if m < 15 then [] else Times((m - 15) / 255, 255) + [(m - 15) % 255])
  {
    hide ExtraBytes, Times;
    ExtraLayout(|s.lit|);
    ExtraLayout(s.len - 4);
  }

  // ---------- Decoding what was written ----------

  /** The bytes `e` stand at `i`. */
  ghost predicate At(src: seq<byte>, i: nat, e: seq<byte>)
  {
    i + |e| <= |src| && src[i..i + |e|] == e
  }

  lemma AtSplit(src: seq<byte>, i: nat, a: seq<byte>, b: seq<byte>)
    requires At(src, i, a + b)
    ensures At(src, i, a) && At(src, i + |a|, b)
    ensures i + |a| + |b| <= |src|
  {
    assert src[i..i + |a|] == src[i..i + |a + b|][..|a|];
    assert src[i + |a|..i + |a| + |b|] == src[i..i + |a + b|][|a|..];
  }

  lemma AtFirst(src: seq<byte>, i: nat, e: seq<byte>)
    requires At(src, i, e) && e != []
    ensures i < |src| && src[i] == e[0]
  {
    assert src[i] == src[i..i + |e|][0];
  }

  lemma {:induction false} ReadLengthBytes(src: seq<byte>, i: nat, n: nat)
    requires At(src, i, LengthBytes(n))
    ensures ReadLength(src, i) == Some((n, i + |LengthBytes(n)|))
    decreases n
  {
    AtFirst(src, i, LengthBytes(n));
    if n >= 255 {
      AtSplit(src, i, [255], LengthBytes(n - 255));
      ReadLengthBytes(src, i + 1, n - 255);
    }
  }

  /** The token and the literal length read back. */
  lemma DecodeLiteralHeader(src: seq<byte>, i: nat, text: seq<byte>, lit: seq<byte>, code: nat, rules: Rules)
    requires At(src, i, LiteralBytes(lit, code))
    ensures var j := i + 1 + |ExtraBytes(|lit|)|;
            && At(src, j, lit)
            && Decode(src, i, text, rules) == DecodeLiterals(src, j, text, |lit|, Min(code, ML_MASK), rules)
  {
    ReadLiteralHeader(src, i, lit, code);
    DecodeToken(src, i, text, rules);
  }

  lemma TokenNibbles(ll: nat, code: nat)
    ensures Token(ll, code) / 16 == Min(ll, RUN_MASK) && Token(ll, code) % 16 == Min(code, ML_MASK)
  {
  }

  lemma ReadLiteralHeader(src: seq<byte>, i: nat, lit: seq<byte>, code: nat)
    requires At(src, i, LiteralBytes(lit, code))
    ensures i < |src| && src[i] / 16 == Min(|lit|, RUN_MASK) && src[i] % 16 == Min(code, ML_MASK)
    ensures var j := i + 1 + |ExtraBytes(|lit|)|;
            && At(src, j, lit)
            && (|lit| >= RUN_MASK ==> ReadLength(src, i + 1) == Some((|lit| - RUN_MASK, j)))
  {
    hide At, LengthBytes, ReadLength, Token;
    var x := ExtraBytes(|lit|);
    var t := [Token(|lit|, code)];
    AtSplit(src, i, t + x, lit);
    AtSplit(src, i, t, x);
    AtFirst(src, i, t);
    TokenNibbles(|lit|, code);
    if |lit| >= RUN_MASK {
      ReadLengthBytes(src, i + 1, |lit| - RUN_MASK);
    }
  }

  /** Where `Decode` goes from a token. */
  lemma DecodeToken(src: seq<byte>, i: nat, text: seq<byte>, rules: Rules)
    requires i < |src|
    ensures src[i] / 16 != RUN_MASK ==>
              Decode(src, i, text, rules) == DecodeLiterals(src, i + 1, text, src[i] / 16, src[i] % 16, rules)
    ensures src[i] / 16 == RUN_MASK ==>
              Decode(src, i, text, rules) == match ReadLength(src, i + 1)
                                             case None => None
                                             case Some((n, j)) => DecodeLiterals(src, j, text, RUN_MASK
                                                 + n, src[i] % 16, rules)
  {
    hide DecodeLiterals, ReadLength;
  }

  /** The match distance and length read back. */
  lemma DecodeMatchHeader(src: seq<byte>, i: nat, text: seq<byte>, off: u16, code: nat, rules: Rules)
    requires At(src, i, LE16(off) + ExtraBytes(code))
    ensures DecodeOffset(src, i, text, Min(code, ML_MASK), rules)
         == DecodeMatch(src, i + 2 + |ExtraBytes(code)|, text, off, code + MINMATCH, rules)
  {
    AtSplit(src, i, LE16(off), ExtraBytes(code));
    AtSplit(src, i, [off % 256], [off / 256]);
    AtFirst(src, i, [off % 256]);
    AtFirst(src, i + 1, [off / 256]);
    assert ReadLE16(src, i) == off;
    if code >= ML_MASK {
      ReadLengthBytes(src, i + 2, code - ML_MASK);
    }
  }

  /** One written sequence is decoded as one step. */
  lemma DecodeSequence(src: seq<byte>, i: nat, text: seq<byte>, s: Sequence, n: int, rules: Rules)
    requires SequenceFits(s, |text|, n)
    requires At(src, i, SequenceBytes(s))
    requires rules.Strict? ==> n <= rules.limit && i + |SequenceBytes(s)| + 1 + LASTLITERALS <= |src|
    ensures Decode(src, i, text, rules) == Decode(src, i + |SequenceBytes(s)|, Extend(text, s), rules)
  {
    hide At, LiteralBytes, ExtraBytes, Decode, DecodeLiterals, DecodeOffset, DecodeMatch, Extend, Repeat;
    var code := s.len - MINMATCH;
    var a := LiteralBytes(s.lit, code);
    var b := LE16(s.off) + ExtraBytes(code);
    assert SequenceBytes(s) == a + b;
    AtSplit(src, i, a, b);
    var j := i + 1 + |ExtraBytes(|s.lit|)|;
    calc {
      Decode(src, i, text, rules);
      { DecodeLiteralHeader(src, i, text, s.lit, code, rules); }
      DecodeLiterals(src, j, text, |s.lit|, Min(code, ML_MASK), rules);
      { DecodeLiteralHeader(src, i, text, s.lit, code, rules); DecodeBetween(src, j, text, s.lit, code, rules); }
      DecodeOffset(src, i + |a|, text + s.lit, Min(code, ML_MASK), rules);
      { DecodeMatchHeader(src, i + |a|, text + s.lit, s.off, code, rules); }
      DecodeMatch(src, i + |a| + |b|, text + s.lit, s.off, s.len, rules);
      { DecodeMatchStep(src, i + |a| + |b|, text, s, n, rules); }
      Decode(src, i + |a| + |b|, Extend(text, s), rules);
    }
  }

  lemma DecodeMatchStep(src: seq<byte>, i: nat, text: seq<byte>, s: Sequence, n: int, rules: Rules)
    requires SequenceFits(s, |text|, n)
    requires rules.Strict? ==> n <= rules.limit && i + 1 + LASTLITERALS <= |src|
    ensures DecodeMatch(src, i, text + s.lit, s.off, s.len, rules) == Decode(src, i, Extend(text, s), rules)
  {
  }

  /** The literals of a sequence that is not the last one. */
  lemma DecodeBetween(src: seq<byte>, j: nat, text: seq<byte>, lit: seq<byte>, code: nat, rules: Rules)
    requires At(src, j, lit) && j + |lit| < |src|
    requires rules.Strict? ==> |text| + |lit| + MFLIMIT <= rules.limit
    ensures DecodeLiterals(src, j, text, |lit|, Min(code, ML_MASK), rules)
         == DecodeOffset(src, j + |lit|, text + lit, Min(code, ML_MASK), rules)
  {
  }

  /** Written sequences are decoded one after the other. */
  lemma {:induction false} DecodeSequences(src: seq<byte>, ss: seq<Sequence>, n: int, rules: Rules)
    requires Fits(ss, n)
    requires At(src, 0, Emit(ss))
    requires rules.Strict? && ss != [] ==> n <= rules.limit && |Emit(ss)| + 1 + LASTLITERALS <= |src|
    ensures Decode(src, 0, [], rules) == Decode(src, |Emit(ss)|, Text(ss), rules)
  {
    hide At, Decode, SequenceBytes, Extend, Repeat;
    if ss != [] {
      var pre, s := ss[..|ss| - 1], ss[|ss| - 1];
      AtSplit(src, 0, Emit(pre), SequenceBytes(s));
      DecodeSequences(src, pre, n, rules);
      DecodeSequence(src, |Emit(pre)|, Text(pre), s, n, rules);
    }
  }

  lemma FitsLength(ss: seq<Sequence>, n: int)
    requires Fits(ss, n) && ss != []
    ensures |Text(ss)| + LASTLITERALS <= n
  {
  }

  /** The last literals are decoded as the end of the block. */
  lemma DecodeLast(src: seq<byte>, i: nat, text: seq<byte>, last: seq<byte>, rules: Rules)
    requires At(src, i, LastBytes(last)) && i + |LastBytes(last)| == |src|
    requires rules.Strict? ==> |text| + |last| <= rules.limit
    ensures Decode(src, i, text, rules) == Some(text + last)
  {
    DecodeLiteralHeader(src, i, text, last, 0, rules);
    assert src[i + 1 + |ExtraBytes(|last|)|..] == last;
  }

  /** A block decodes to its text, under the strict rules, wherever the text fits. */
  lemma BlockDecodes(block: seq<byte>, text: seq<byte>, limit: int)
    requires IsBlock(block, text)
    requires |text| <= limit
    ensures Decode(block, 0, [], Strict(limit)) == Some(text)
    ensures Decode(block, 0, [], Lenient) == Some(text)
  {
    hide Text, Emit, Fits, Decode, LastBytes;
    var ss :| BlockOf(ss, block, text);
    var last := text[|Text(ss)|..];
    assert text == Text(ss) + last;
    WrittenDecodes(block, ss, last, |text|, limit);
    StrictIsLenient(block, 0, [], limit);
  }

  lemma WrittenDecodes(block: seq<byte>, ss: seq<Sequence>, last: seq<byte>, n: nat, limit: int)
    requires Fits(ss, n) && n == |Text(ss)| + |last| && n <= limit
    requires At(block, 0, Emit(ss) + LastBytes(last)) && |block| == |Emit(ss)| + |LastBytes(last)|
    ensures Decode(block, 0, [], Strict(limit)) == Some(Text(ss) + last)
  {
    hide Fits, At, Decode, Emit, ExtraBytes, LengthBytes, Text;
    AtSplit(block, 0, Emit(ss), LastBytes(last));
    if ss != [] {
      FitsLength(ss, n);
    }
    DecodeSequences(block, ss, n, Strict(limit));
    DecodeLast(block, |Emit(ss)|, Text(ss), last, Strict(limit));
  }
}
