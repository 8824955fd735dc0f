/** The entry points of the decoder, and what their callers may rely on. */
module DecoderApi {
  import opened Bytes
  import opened BlockFormat
  import opened Decoder

  /** Where a full decoding of a block ends, or nothing if it is refused: the beginning of the
      output decides which loop is first. */
  function FullDecoding(src: seq<byte>, b: Bounds, start: nat): Option<int>
  {
    if b.size - start == 0 then
      if src == [0] then Some(start) else None
    else if |src| == 0 then None
    else
      match Verdict(src, b, if b.size - start < FASTLOOP_SAFE_DISTANCE then SafeLoop(0, start) else FastLoop(0, start))
      case Decoded(_, op) => Some(op)
      case _ => None
  }

  /** The value returned is the number of bytes decoded, or negative. */
  predicate Answers(r: int, start: nat, end: Option<int>)
  {
    match end
    case None => r < 0
    case Some(op) => r == op - start && 0 <= r
  }

  /** `text` is what there is room for of the `whole`, if there is one. */
  predicate Cut(text: seq<byte>, whole: Option<seq<byte>>, room: int)
  {
    whole.Some? ==> |text| == Min(room, |whole.value|) && text <= whole.value
  }

  /** What a call of a partial decoding may be given: the block, the beginning of it, or the block and
      something behind it. */
  predicate Given(src: seq<byte>, full: seq<byte>)
  {
    src <= full || full <= src
  }

  /** What a decoding of the block `full`, of which `src` is given, must have left in the buffer: of a
      block within the end-of-block conditions, all there is room for, if nothing is given behind it that
      could be taken for more; of any other block that can be read, has no distance 0 and is accepted, all
      there is room for, or a beginning if only a beginning is given. */
  ghost predicate PartOf(z: Stream, history: seq<byte>, accepted: bool, text: seq<byte>)
  {
    && (Counts(z, SafeLoop(0, 0), history) ==>
          accepted && Cut(text, Decode(z.full, 0, history, Strict(z.limit)), z.room))
    && (accepted && z.src <= z.full ==>
          var whole := Decode(z.full, 0, history, Plain);
          if z.src == z.full then Cut(text, whole, z.room) else whole.Some? ==> text <= whole.value)
  }

  /** LZ4_decompress_generic.  The array holds `start` bytes of earlier output and then exactly the
      capacity of this call; of the earlier output, what stands from `low` on is history, preceded
      by the external dictionary `ext`.  For a partial decoding, `limit` says how long history and
      text of the block `full` may be. */
  method DecompressGeneric(src: seq<byte>, dst: array<byte>, start: nat, low: nat, ext: seq<byte>, dict: Dict,
          partialDecoding: bool, ghost full: seq<byte>, ghost limit: int)
    returns (r: int)
    requires low <= start <= dst.Length
    requires dict != UsingExtDict ==> ext == []
    requires dict == WithPrefix64k ==> start - low >= DISTANCE_MAX
    requires Given(src, full) && (!partialDecoding ==> full == src && limit == |ext| + dst.Length - low)
    modifies dst
    ensures r <= dst.Length - start
    ensures dst[..start] == old(dst[..start])
    ensures !partialDecoding && r >= 0 ==>
              Decode(src, 0, ext + old(dst[low..start]), Lenient) == Some(ext + dst[low..start + r])
    ensures !partialDecoding ==>
              Answers(r, start, FullDecoding(src, Bounds(dst.Length, low, |ext|, dict), start))
    ensures PartOf(Stream(src, full, limit, |ext| + dst.Length - low), ext + old(dst[low..start]), r >= 0,
                   if r >= 0 then ext + dst[low..start + r] else [])
  {
    hide Decode, Goes, Rest, Agrees, Verdict, Cut, PartOf;
    ghost var history, z := ext + dst[low..start], Stream(src, full, limit, |ext| + dst.Length - low);
    if dst.Length - start == 0 {
      EmptyOutput(src, history);
      NoRoom(z, history, if partialDecoding then history else []);
      if partialDecoding {
        return 0;
      }
      assert |src| == 1 && src[0] == 0 ==> src == [0];
      assert ext + dst[low..start] == history;
      return if |src| == 1 && src[0] == 0 then 0 else -1;
    }
    if |src| == 0 {
      NothingDecodes(z, history);
      return -1;
    }
    var d := new BlockDecoder(src, dst, low, ext, dict, partialDecoding, z);
    var l := if dst.Length - start < FASTLOOP_SAFE_DISTANCE then SafeLoop(0, start) else FastLoop(0, start);
    var l' := d.Run(l);
    Outcome(z, l, history, l', ext + dst[low..l'.op], partialDecoding);
    return if l'.OutputError? then -l'.ip - 1 else l'.op - start;
  }

  /** What a run that `Goes` from the first token to the end has achieved. */
  lemma Outcome(z: Stream, l: Label, history: seq<byte>, l': Label, text: seq<byte>, partialDecoding: bool)
    requires (l.FastLoop? || l.SafeLoop?) && l.ip == 0 && Final(l')
    requires Goes(z, l, history, l', text, partialDecoding) && Given(z.src, z.full)
    requires |text| <= z.room && (l'.Stopped? ==> |text| == z.room)
    ensures !partialDecoding && !l'.OutputError? ==> l'.Decoded? && Decode(z.src, 0, history, Lenient) == Some(text)
    ensures PartOf(z, history, !l'.OutputError?, if l'.OutputError? then [] else text)
  {
    hide Decode;
  }

  lemma PrefixOfWhole(src: seq<byte>, text: seq<byte>, rules: Rules)
    ensures Cut(text, Decode(src, 0, text, rules), |text|)
  {
    hide Decode;
    if Decode(src, 0, text, rules).Some? {
      TextIsPrefix(src, 0, text, rules);
    }
  }

  /** Nothing fits, and nothing is what there is. */
  lemma NoRoom(z: Stream, history: seq<byte>, text: seq<byte>)
    requires |history| == z.room && Given(z.src, z.full)
    ensures PartOf(z, history, true, history)
    ensures z.full == z.src && Decode(z.src, 0, history, Strict(z.limit)).None? ==> PartOf(z, history, false, text)
  {
    hide Decode;
    PrefixOfWhole(z.full, history, Plain);
    PrefixOfWhole(z.full, history, Strict(z.limit));
  }

  lemma NothingDecodes(z: Stream, history: seq<byte>)
    requires z.src == []
    ensures PartOf(z, history, false, [])
  {
  }

  /** With no room at all, only the block that is a single zero byte decodes. */
  lemma EmptyOutput(src: seq<byte>, text: seq<byte>)
    ensures src == [0] ==>
              Decode(src, 0, text, Lenient) == Some(text) && Decode(src, 0, text, Strict(|text|)) == Some(text)
    ensures Decode(src, 0, text, Strict(|text|)).Some? ==> src == [0]
  {
    if src == [0] {
      assert text + src[1..] == text;
      assert DecodeLiterals(src, 1, text, 0, 0, Lenient) == Some(text);
      assert DecodeLiterals(src, 1, text, 0, 0, Strict(|text|)) == Some(text);
    } else if Decode(src, 0, text, Strict(|text|)).Some? {
      DecodeToken(src, 0, text, Strict(|text|));
    }
  }

  // ---------- Entry points ----------

  /** LZ4_decompress_safe: the array is the output buffer. */
  method DecompressSafe(src: seq<byte>, dst: array<byte>) returns (r: int)
    modifies dst
    ensures r <= dst.Length
    ensures r >= 0 ==> Decode(src, 0, [], Lenient) == Some(dst[..r])
    ensures Answers(r, 0, FullDecoding(src, Bounds(dst.Length, 0, 0, NoDict), 0))
    ensures var whole := Decode(src, 0, [], Strict(dst.Length));
            whole.Some? ==> r == |whole.value| && dst[..r] == whole.value
  {
    hide Decode;
    r := DecompressGeneric(src, dst, 0, 0, [], NoDict, false, src, dst.Length);
    assert old([] + dst[0..0]) == [];
    if r >= 0 {
      assert [] + dst[0..0 + r] == dst[..r];
      StrictIsLenient(src, 0, [], dst.Length);
    }
  }

  /** A block whose match ends where its text ends, against the end-of-block conditions. */
  const MATCH_AT_END: seq<byte> := [0xEE, 0, 1, 2, 3, 4, 5, 6, 7, 8, 9, 10, 11, 12, 13, 14, 0, 0]

  lemma MatchAtEndIsRefused()
    ensures Decode(MATCH_AT_END, 0, [], Strict(32)).None?
  {
    var text := [] + MATCH_AT_END[1..15];
    assert DecodeMatch(MATCH_AT_END, 17, text, 14, 18, Strict(32)).None?;
    assert DecodeMatchLength(MATCH_AT_END, 17, text, 14, 14, Strict(32)).None?;
    assert DecodeOffset(MATCH_AT_END, 15, text, 14, Strict(32)).None?;
    assert DecodeLiterals(MATCH_AT_END, 1, [], 14, 14, Strict(32)).None?;
  }

  lemma MatchAtEndIsDecoded()
    ensures FullDecoding(MATCH_AT_END, Bounds(32, 0, 0, NoDict), 0) == Some(32)
  {
    var b := Bounds(32, 0, 0, NoDict);
    assert TakesShortcut(MATCH_AT_END, b, SafeLoop(0, 0));
    assert SafeTokenLabel(MATCH_AT_END, b, SafeLoop(0, 0)) == SafeLoop(17, 32);
    assert SafeTokenLabel(MATCH_AT_END, b, SafeLoop(17, 32)) == LiteralCopy(18, 32, 0, 0);
    assert SafeLiteralsLabel(MATCH_AT_END, b, LiteralCopy(18, 32, 0, 0)) == Decoded(18, 32);
    VerdictFinal(MATCH_AT_END, b, Decoded(18, 32));
    VerdictNext(MATCH_AT_END, b, LiteralCopy(18, 32, 0, 0));
    VerdictNext(MATCH_AT_END, b, SafeLoop(17, 32));
    VerdictNext(MATCH_AT_END, b, SafeLoop(0, 0));
  }

  /** The same without the shortcut, from the first token to the last: where the literals of the first
      sequence end, where its match ends, and where the last literals do. */
  lemma TwoSequences(src: seq<byte>, size: nat, k: nat)
    requires 1 <= k <= 11 && |src| == 5 + k && 0 < size < 64
    requires src[0] / 16 == 1 && src[0] % 16 < 15 && ReadLE16(src, 2) == 1 && src[4] / 16 == k
    ensures var n := src[0] % 16 + 4;
            FullDecoding(src, Bounds(size, 0, 0, NoDict), 0) ==
              if k >= 5 && 1 <= size - 12 && 1 + n <= size - 5 && 1 + n + k <= size then Some(1 + n + k) else None
  {
    hide Verdict;
    var b, n := Bounds(size, 0, 0, NoDict), src[0] % 16 + 4;
    VerdictNext(src, b, SafeLoop(0, 0));
    VerdictNext(src, b, LiteralCopy(1, 0, 1, n - 4));
    VerdictFinal(src, b, OutputError(1, 0));
    if k >= 5 && 1 <= size - 12 {
      VerdictNext(src, b, Offset(2, 1, n - 4));
      VerdictNext(src, b, CopyMatch(4, 1, 1, n - 4));
      VerdictNext(src, b, MatchCopy(4, 1, 1, n));
      VerdictFinal(src, b, OutputError(4, 1));
      if 1 + n <= size - 5 {
        VerdictNext(src, b, SafeLoop(4, 1 + n));
        VerdictNext(src, b, LiteralCopy(5, 1 + n, k, src[4] % 16));
        VerdictFinal(src, b, OutputError(5, 1 + n));
        if 1 + n + k <= size { VerdictFinal(src, b, Decoded(|src|, 1 + n + k)); }
      }
    }
  }

  /** A match may begin 12 bytes before the end and end 5 bytes before it, but not later. */
  lemma LimitsOfDecoder()
    ensures FullDecoding([0x13, 97, 1, 0, 0x50, 97, 97, 97, 97, 97], Bounds(13, 0, 0, NoDict), 0) == Some(13)
    ensures FullDecoding([0x12, 97, 1, 0, 0x50, 97, 97, 97, 97, 97], Bounds(12, 0, 0, NoDict), 0) == None
    ensures FullDecoding([0x14, 97, 1, 0, 0x40, 97, 97, 97, 97], Bounds(13, 0, 0, NoDict), 0) == None
  {
    TwoSequences([0x13, 97, 1, 0, 0x50, 97, 97, 97, 97, 97], 13, 5);
    TwoSequences([0x12, 97, 1, 0, 0x50, 97, 97, 97, 97, 97], 12, 5);
    TwoSequences([0x14, 97, 1, 0, 0x40, 97, 97, 97, 97], 13, 4);
  }

  lemma VerdictNext(src: seq<byte>, b: Bounds, l: Label)
    requires InBlock(src, l) && !Final(l) && l.ip <= |src|
    ensures Verdict(src, b, l) == Verdict(src, b, NextLabel(src, b, l))
  {
    hide NextLabel;
  }

  /** The shortcut accepts a block that breaks the end-of-block conditions. */
  method ShortcutAcceptsMore() returns (r: int)
    ensures r == 32 && Decode(MATCH_AT_END, 0, [], Strict(32)).None?
  {
    hide Decode, FullDecoding;
    var dst := new byte[32];
    r := DecompressSafe(MATCH_AT_END, dst);
    MatchAtEndIsDecoded();
    MatchAtEndIsRefused();
  }

  /** LZ4_decompress_safe_partial: the array is what may be used of the output buffer.  Of a block
      `full` whose text has at most `limit` bytes, exactly what fits is decoded, also if `src` goes on
      behind the block, provided that no more is asked for than the block has.  Of any other block that
      can be read, has no distance 0 and is accepted, it is the same, or a beginning of the text if `src`
      is only a beginning of the block. */
  method DecompressSafePartial(src: seq<byte>, dst: array<byte>, targetOutputSize: nat, dstCapacity: nat,
          ghost full: seq<byte>, ghost limit: int)
    returns (r: int)
    requires dst.Length == Min(targetOutputSize, dstCapacity) && Given(src, full)
    modifies dst
    ensures r <= dst.Length
    ensures var whole := Decode(full, 0, [], Strict(limit));
            full <= src && whole.Some? && (full == src || dst.Length <= |whole.value|) ==>
              r == Min(dst.Length, |whole.value|) && dst[..r] == whole.value[..r]
    ensures var whole := Decode(full, 0, [], Plain);
            r >= 0 && src <= full && whole.Some? ==>
              && r <= |whole.value| && dst[..r] == whole.value[..r]
              && (full == src ==> r == Min(dst.Length, |whole.value|))
  {
    hide Decode;
    r := DecompressGeneric(src, dst, 0, 0, [], NoDict, true, full, limit);
    assert old([] + dst[0..0]) == [];
    assert r >= 0 ==> [] + dst[0..0 + r] == dst[..r];
  }

  // ---------- The 64 KB window ----------

  function Shift(rules: Rules, n: nat): Rules
  {
    match rules
    case Lenient => Lenient
    case Plain => Plain
    case Strict(limit) => Strict(limit + n)
  }

  function Prepend(pre: seq<byte>, r: Option<seq<byte>>): Option<seq<byte>>
  {
    match r
    case None => None
    case Some(text) => Some(pre + text)
  }

  lemma {:induction false} RepeatInWindow(pre: seq<byte>, text: seq<byte>, off: nat, n: nat)
    requires off <= |text|
    ensures Repeat(pre + text, off, n) == pre + Repeat(text, off, n)
  {
    if n > 0 {
      RepeatInWindow(pre, text, off, n - 1);
    }
  }

  /** No block can look further back than 64 KB: older history changes nothing. */
  lemma {:induction false} OldHistoryIsIgnored(src: seq<byte>, i: nat, pre: seq<byte>, text: seq<byte>, rules: Rules)
    requires |text| >= DISTANCE_MAX
    ensures Decode(src, i, pre + text, Shift(rules, |pre|)) == Prepend(pre, Decode(src, i, text, rules))
    decreases |src| - i, 0
  {
    if i < |src| {
      DecodeToken(src, i, text, rules);
      DecodeToken(src, i, pre + text, Shift(rules, |pre|));
      hide Decode;
      if src[i] / 16 != RUN_MASK {
        OldHistoryLiterals(src, i + 1, pre, text, src[i] / 16, src[i] % 16, rules);
      } else if ReadLength(src, i + 1).Some? {
        var (n, j) := ReadLength(src, i + 1).value;
        OldHistoryLiterals(src, j, pre, text, RUN_MASK + n, src[i] % 16, rules);
      }
    }
  }

  lemma {:induction false} OldHistoryLiterals(src: seq<byte>, i: nat, pre: seq<byte>, text: seq<byte>, ll: nat,
          nibble: nat, rules: Rules)
    requires |text| >= DISTANCE_MAX
    ensures DecodeLiterals(src, i, pre + text, ll, nibble, Shift(rules, |pre|))
        == Prepend(pre, DecodeLiterals(src, i, text, ll, nibble, rules))
    decreases |src| - i, 3
  {
    hide Decode, DecodeOffset;
    if i + ll < |src| {
      var t := text + src[i..i + ll];
      assert pre + text + src[i..i + ll] == pre + t;
      OldHistoryOffset(src, i + ll, pre, t, nibble, rules);
    } else if i + ll == |src| {
      assert pre + text + src[i..] == pre + (text + src[i..]);
    }
  }

  lemma {:induction false} OldHistoryOffset(src: seq<byte>, i: nat, pre: seq<byte>, text: seq<byte>, nibble: nat,
          rules: Rules)
    requires |text| >= DISTANCE_MAX
    ensures DecodeOffset(src, i, pre + text, nibble, Shift(rules, |pre|))
        == Prepend(pre, DecodeOffset(src, i, text, nibble, rules))
    decreases |src| - i, 2
  {
    hide Decode, DecodeMatch;
    if i + 2 <= |src| {
      var off := ReadLE16(src, i);
      if nibble != ML_MASK {
        OldHistoryMatch(src, i + 2, pre, text, off, nibble + MINMATCH, rules);
      } else if ReadLength(src, i + 2).Some? {
        var (n, j) := ReadLength(src, i + 2).value;
        OldHistoryMatch(src, j, pre, text, off, ML_MASK + n + MINMATCH, rules);
      }
    }
  }

  lemma {:induction false} OldHistoryMatch(src: seq<byte>, i: nat, pre: seq<byte>, text: seq<byte>, off: u16,
          len: nat, rules: Rules)
    requires |text| >= DISTANCE_MAX
    ensures DecodeMatch(src, i, pre + text, off, len, Shift(rules, |pre|))
        == Prepend(pre, DecodeMatch(src, i, text, off, len, rules))
    decreases |src| - i, 1
  {
    hide Decode;
    RepeatInWindow(pre, text, off, len);
    OldHistoryIsIgnored(src, i, pre, Repeat(text, off, len), rules);
  }

  /** The part of a dictionary that the decoder looks at is enough. */
  lemma WindowSuffices(src: seq<byte>, dictionary: seq<byte>, k: nat, rules: Rules)
    requires k <= |dictionary| && (k == 0 || |dictionary| - k >= DISTANCE_MAX)
    ensures Decode(src, 0, dictionary, Shift(rules, k))
         == Prepend(dictionary[..k], Decode(src, 0, dictionary[k..], rules))
  {
    hide Decode;
    var pre, text := dictionary[..k], dictionary[k..];
    assert dictionary == pre + text;
    if k == 0 {
      assert text == dictionary;
      assert forall t: seq<byte> :: pre + t == t;
    } else {
      OldHistoryIsIgnored(src, 0, pre, text, rules);
    }
  }

  /** Where a dictionary counts as history: in front of the output, of which the last 64 KB are
      enough, or outside. */
  function Place(start: nat, dictionary: seq<byte>, inFront: bool): (p: (nat, seq<byte>, Dict))
    requires inFront ==> |dictionary| <= start
    ensures p.0 <= start && (p.2 != UsingExtDict ==> p.1 == [])
    ensures p.2 == WithPrefix64k ==> start - p.0 >= DISTANCE_MAX
  {
    if |dictionary| == 0 then (start, [], NoDict)
    else if inFront && |dictionary| >= 0x1_0000 - 1 then
      (Max(start - 0x1_0000, start - |dictionary|), [], WithPrefix64k)
    else if inFront then (start - |dictionary|, [], NoDict)
    else (start, dictionary, UsingExtDict)
  }

  /** The history is the dictionary, or at least its last 64 KB. */
  lemma Placed(d: seq<byte>, start: nat, dictionary: seq<byte>, inFront: bool)
    requires start <= |d|
    requires inFront ==> |dictionary| <= start && d[start - |dictionary|..start] == dictionary
    ensures var (low, ext, _) := Place(start, dictionary, inFront);
            var k := |dictionary| - |ext| - (start - low);
            && 0 <= k && (k == 0 || |dictionary| - k >= DISTANCE_MAX)
            && ext + d[low..start] == dictionary[k..]
  {
  }

  /** What was decoded behind the part of the dictionary that matters is right behind all of it. */
  lemma PartWithDictionary(src: seq<byte>, dictionary: seq<byte>, k: nat, rules: Rules, part: seq<byte>, room: nat)
    requires k <= |dictionary| && (k == 0 || |dictionary| - k >= DISTANCE_MAX)
    ensures var whole, whole' := Decode(src, 0, dictionary, Shift(rules, k)), Decode(src, 0, dictionary[k..], rules);
            && (whole.Some? <==> whole'.Some?)
            && (whole' == Some(dictionary[k..] + part) ==> whole == Some(dictionary + part))
            && (Cut(dictionary[k..] + part, whole', |dictionary| - k + room) ==>
                  Cut(dictionary + part, whole, |dictionary| + room))
            && (whole.Some? ==> |whole.value| == k + |whole'.value|)
            && (whole.Some? && dictionary[k..] + part <= whole'.value ==> dictionary + part <= whole.value)
  {
    hide Decode;
    WindowSuffices(src, dictionary, k, rules);
    assert dictionary[..k] + (dictionary[k..] + part) == dictionary + part;
  }

  /** The same for what is left in the buffer. */
  lemma PartOfWithDictionary(z: Stream, dictionary: seq<byte>, k: nat, accepted: bool, part: seq<byte>)
    requires k <= |dictionary| && (k == 0 || |dictionary| - k >= DISTANCE_MAX) && z.room >= |dictionary|
    requires PartOf(z.(limit := z.limit - k, room := z.room - k), dictionary[k..], accepted,
                    if accepted then dictionary[k..] + part else [])
    ensures PartOf(z, dictionary, accepted, if accepted then dictionary + part else [])
  {
    hide Decode, Cut;
    PartWithDictionary(z.full, dictionary, k, Strict(z.limit - k), part, z.room - |dictionary|);
    PartWithDictionary(z.full, dictionary, k, Plain, part, z.room - |dictionary|);
  }

  /** LZ4_decompress_safe_usingDict: the dictionary either stands in front of the output, in
      the same array, or somewhere else.  What is decoded depends on its bytes only. */
  method DecompressSafeUsingDict(src: seq<byte>, dst: array<byte>, start: nat, dictionary: seq<byte>, inFront: bool)
    returns (r: int)
    requires start <= dst.Length
    requires inFront ==> |dictionary| <= start && dst[start - |dictionary|..start] == dictionary
    modifies dst
    ensures r <= dst.Length - start
    ensures dst[..start] == old(dst[..start])
    ensures r >= 0 ==> Decode(src, 0, dictionary, Lenient) == Some(dictionary + dst[start..start + r])
    ensures var whole := Decode(src, 0, dictionary, Strict(|dictionary| + dst.Length - start));
            whole.Some? ==> r >= 0 && whole.value == dictionary + dst[start..start + r]
  {
    hide Decode, FullDecoding, Cut, Place, PartOf;
    var (low, ext, mode) := Place(start, dictionary, inFront);
    Placed(dst[..], start, dictionary, inFront);
    ghost var n, room := |dictionary|, dst.Length - start;
    ghost var k := n - |ext| - (start - low);
    r := DecompressGeneric(src, dst, start, low, ext, mode, false, src, |ext| + dst.Length - low);
    SameHistory(old(dst[..]), dst[..], low, start, ext, if r >= 0 then r else 0);
    ghost var part := if r >= 0 then dst[start..start + r] else [];
    PartWithDictionary(src, dictionary, k, Lenient, part, room);
    PartOfWithDictionary(Stream(src, src, n + room, n + room), dictionary, k, r >= 0, part);
    StrictIsAccepted(src, dictionary, n + room, r >= 0, if r >= 0 then dictionary + part else []);
    StrictIsLenient(src, 0, dictionary, n + room);
  }

  lemma StrictIsAccepted(src: seq<byte>, history: seq<byte>, room: int, accepted: bool, text: seq<byte>)
    requires PartOf(Stream(src, src, room, room), history, accepted, text)
    ensures Decode(src, 0, history, Strict(room)).Some? ==> accepted
  {
    hide Decode;
  }

  lemma SameHistory(d: seq<byte>, d': seq<byte>, low: nat, start: nat, ext: seq<byte>, r: nat)
    requires low <= start && start <= |d| && start + r <= |d'| && d[..start] == d'[..start]
    ensures ext + d'[low..start + r] == (ext + d[low..start]) + d'[start..start + r]
  {
    assert d[low..start] == d[..start][low..] == d'[..start][low..];
  }

  /** LZ4_decompress_safe_partial_usingDict: the same for a part of the text. */
  method DecompressSafePartialUsingDict(src: seq<byte>, dst: array<byte>, start: nat, dictionary: seq<byte>,
          inFront: bool, targetOutputSize: nat, dstCapacity: nat, ghost full: seq<byte>, ghost limit: int)
    returns (r: int)
    requires start <= dst.Length && dst.Length - start == Min(targetOutputSize, dstCapacity) && Given(src, full)
    requires inFront ==> |dictionary| <= start && dst[start - |dictionary|..start] == dictionary
    modifies dst
    ensures r <= dst.Length - start
    ensures dst[..start] == old(dst[..start])
    ensures PartOf(Stream(src, full, limit, |dictionary| + dst.Length - start), dictionary, r >= 0,
                   if r >= 0 then dictionary + dst[start..start + r] else [])
  {
    hide Decode, FullDecoding, Cut, Place, PartOf;
    var (low, ext, mode) := Place(start, dictionary, inFront);
    Placed(dst[..], start, dictionary, inFront);
    ghost var n, room := |dictionary|, dst.Length - start;
    ghost var k := n - |ext| - (start - low);
    r := DecompressGeneric(src, dst, start, low, ext, mode, true, full, limit - k);
    SameHistory(old(dst[..]), dst[..], low, start, ext, if r >= 0 then r else 0);
    ghost var part := if r >= 0 then dst[start..start + r] else [];
    PartOfWithDictionary(Stream(src, full, limit, n + room), dictionary, k, r >= 0, part);
  }
}
