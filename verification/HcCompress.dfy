/** LZ4 HC as its callers see it: the level table, the entry points, and the round trip with
    the decoder. */
module HcCompress {
  import opened Bytes
  import opened BlockFormat
  import opened DecoderApi
  import opened HcSearch
  import opened BlockOutput
  import HcLazyParser
  import HcOptimalParser
  import HcMidParser
  import SequenceWriter

  const LZ4HC_CLEVEL_DEFAULT := 9
  const LZ4HC_CLEVEL_MAX := 12

  datatype Strategy = Lz4Mid | Lz4Hc | Lz4Opt

  datatype CParams = CParams(strat: Strategy, nbSearches: nat, targetLength: nat)

  /** LZ4HC_getCLevelParams, with k_clTable. */
  function GetCLevelParams(cLevel: int): CParams
  {
    var level := Min(if cLevel < 1 then LZ4HC_CLEVEL_DEFAULT else cLevel, LZ4HC_CLEVEL_MAX);
    if level <= 2 then CParams(Lz4Mid, 2, 16)
    else if level == 3 then CParams(Lz4Hc, 4, 16)
    else if level == 4 then CParams(Lz4Hc, 8, 16)
    else if level == 5 then CParams(Lz4Hc, 16, 16)
    else if level == 6 then CParams(Lz4Hc, 32, 16)
    else if level == 7 then CParams(Lz4Hc, 64, 16)
    else if level == 8 then CParams(Lz4Hc, 128, 16)
    else if level == 9 then CParams(Lz4Hc, 256, 16)
    else if level == 10 then CParams(Lz4Opt, 96, 64)
    else if level == 11 then CParams(Lz4Opt, 512, 128)
    else CParams(Lz4Opt, 16384, HcOptimalParser.LZ4_OPT_NUM)
  }

  /** The rows of the table that levels outside of it mean, and how those of the optimal parser differ. */
  lemma LevelTable(cLevel: int)
    ensures cLevel < 1 || cLevel == 9 ==> GetCLevelParams(cLevel) == CParams(Lz4Hc, 256, 16)
    ensures cLevel >= 12 ==> GetCLevelParams(cLevel) == CParams(Lz4Opt, 16384, 4096)
    ensures cLevel == 10 ==> GetCLevelParams(cLevel) == CParams(Lz4Opt, 96, 64)
    ensures cLevel == 11 ==> GetCLevelParams(cLevel) == CParams(Lz4Opt, 512, 128)
    ensures 3 <= cLevel < 9 ==> GetCLevelParams(cLevel + 1).nbSearches == 2 * GetCLevelParams(cLevel).nbSearches
    ensures 1 <= cLevel <= 2 ==> GetCLevelParams(cLevel) == CParams(Lz4Mid, 2, 16)
  {
  }

  // ---------- What the levels promise ----------

  /** How many candidates the levels from 3 on try: twice as many from each level to the next up to 9,
      which is also what a level below 1 means. */
  function Attempts(cLevel: int): nat
  {
    if cLevel < 1 || cLevel == 9 then 256
    else if cLevel == 3 then 4
    else if cLevel == 4 then 8
    else if cLevel == 5 then 16
    else if cLevel == 6 then 32
    else if cLevel == 7 then 64
    else if cLevel == 8 then 128
    else if cLevel == 10 then 96
    else if cLevel == 11 then 512
    else 16384
  }

  /** What is known about the literals of a block, unless it had to end early because the output was
      full.  Levels 1 and 2: all that were looked at were new, but for the last one before a match.
      Levels 3 to 9: all but the last 4 have no match with the candidates tried.  Levels 10 to 12: that
      is so for all but the last 3, before the first match, and from 4096 bytes behind a match on. */
  ghost predicate Parsed(ss: seq<Sequence>, src: seq<byte>, cLevel: int, favorDecSpeed: bool, full: bool)
  {
    if 1 <= cLevel <= 2 then
      var places := HcMidParser.NewPlaces(src);
      RunsIn(ss, 1, places) && (!full ==> RestIn(ss, |src|, places))
    else if cLevel <= 9 then
      var places := HcLazyParser.SilentPlaces(src, Attempts(cLevel));
      RunsIn(ss, 4, places) && (!full ==> RestIn(ss, |src|, places))
    else
      var places := HcOptimalParser.SilentPlaces(src, Attempts(cLevel), if favorDecSpeed then 8 else 1);
      RunsIn(ss, 3, places) && (!full ==> RestIn(ss, |src|, places))
  }

  lemma NothingParsed(cLevel: int, favorDecSpeed: bool, full: bool)
    ensures Parsed([], [], cLevel, favorDecSpeed, full)
  {
    NoSequences();
  }

  // ---------- Compression ----------

  /** LZ4HC_compress_generic_internal on a fresh state, without dictionary.  The result is 0 when
      nothing could be written, and `consumed` says how much of the input the block holds.  `ss` are the
      sequences that are written, or, when nothing is, that begin no block that fits. */
  method CompressGeneric(src: seq<byte>, dst: array<byte>, cLevel: int, favorDecSpeed: bool,
          limit: SequenceWriter.Limit)
    returns (r: nat, consumed: nat, ghost ss: seq<Sequence>)
    requires limit.NotLimited? ==> dst.Length >= CompressBound(|src|)
    modifies dst
    ensures r <= dst.Length && consumed <= |src|
    ensures r > 0 ==> BlockOf(ss, dst[..r], src[..consumed])
    ensures r > 0 ==> Parsed(ss, src, cLevel, favorDecSpeed, limit.FillOutput?)
    ensures r > 0 && consumed < |src| ==> limit.FillOutput? && r == dst.Length - Slack(dst.Length - |Emit(ss)|)
    ensures r == 0 && |src| <= 0x7E000000 && dst.Length >= 1 ==> limit.LimitedOutput? && TooLong(ss, src, dst.Length)
    ensures limit.NotLimited? && |src| <= 0x7E000000 ==> 0 < r <= CompressBound(|src|)
  {
    hide BlockOf, TooLong, Parsed, Output.Valid;
    if |src| > LZ4_MAX_INPUT_SIZE || dst.Length < 1 { return 0, 0, []; }
    if |src| == 0 {
      dst[0] := 0;
      EmptyBlock(dst[..1]);
      assert src == [] && src[..0] == [];
      NothingParsed(cLevel, favorDecSpeed, limit.FillOutput?);
      return 1, 0, [];
    }
    var out := new Output(src, dst, limit);
    r, consumed := Parse(out, cLevel, favorDecSpeed);
    ss := out.ss;
    if r == 0 { consumed := 0; }
  }

  /** The parser of the level. */
  method Parse(out: Output, cLevel: int, favorDecSpeed: bool) returns (r: nat, consumed: nat)
    requires out.Valid() && out.anchor == 0 && out.ss == []
    modifies out, out.dst
    ensures out.Finished(r, consumed)
    ensures r > 0 ==> Parsed(out.ss, out.src, cLevel, favorDecSpeed, out.limit.FillOutput?)
  {
    hide RunsIn, RestIn, HcMidParser.NewPlaces, HcLazyParser.SilentPlaces, HcOptimalParser.SilentPlaces, Output.Valid,
        Output.Finished;
    var cParam := GetCLevelParams(cLevel);
    if cParam.strat.Lz4Mid? {
      var parser := new HcMidParser.MidParser(out);
      r, consumed := parser.Run();
    } else {
      var ctx := new HcContext(out.src);
      if cParam.strat.Lz4Hc? {
        var parser := new HcLazyParser.LazyParser(out, ctx, cParam.nbSearches);
        r, consumed := parser.Run();
      } else {
        var parser := new HcOptimalParser.OptimalParser(out, ctx, cParam.nbSearches, cParam.targetLength,
            cLevel >= LZ4HC_CLEVEL_MAX, favorDecSpeed);
        r, consumed := parser.Run();
      }
    }
  }

  /** LZ4_compress_HC: the limit is only looked at when the buffer is smaller than the bound. */
  method CompressHC(src: seq<byte>, dst: array<byte>, cLevel: int) returns (r: nat, ghost ss: seq<Sequence>)
    modifies dst
    ensures r <= dst.Length
    ensures r > 0 ==> BlockOf(ss, dst[..r], src) && Parsed(ss, src, cLevel, false, false)
    ensures r == 0 && |src| <= 0x7E000000 && dst.Length >= 1 ==> TooLong(ss, src, dst.Length)
    ensures |src| <= 0x7E000000 && dst.Length >= CompressBound(|src|) ==> 0 < r <= CompressBound(|src|)
  {
    hide BlockOf, TooLong, Parsed;
    var consumed;
    r, consumed, ss := CompressGeneric(src, dst, cLevel, false, if dst.Length < CompressBound(|src|)
        then SequenceWriter.LimitedOutput else SequenceWriter.NotLimited);
    assert consumed == |src| ==> src[..consumed] == src;
  }

  /** LZ4_compress_HC_destSize: as much of the input as fits the output, which is full then. */
  method CompressHCDestSize(src: seq<byte>, dst: array<byte>, cLevel: int)
    returns (r: nat, consumed: nat, ghost ss: seq<Sequence>)
    modifies dst
    ensures r <= dst.Length && consumed <= |src|
    ensures |src| <= 0x7E000000 && dst.Length >= 1 ==> r > 0
    ensures r > 0 ==> BlockOf(ss, dst[..r], src[..consumed]) && Parsed(ss, src, cLevel, false, true)
    ensures r > 0 && consumed < |src| ==> r == dst.Length - Slack(dst.Length - |Emit(ss)|)
  {
    hide BlockOf, TooLong, Parsed;
    r, consumed, ss := CompressGeneric(src, dst, cLevel, false, SequenceWriter.FillOutput);
  }

  /** Round trip: whatever the level, a buffer of LZ4_compressBound bytes is enough, and the
      block decodes to the input in a buffer of exactly its size. */
  method RoundTrip(src: seq<byte>, cLevel: int) returns (text: seq<byte>)
    requires |src| <= LZ4_MAX_INPUT_SIZE
    ensures text == src
  {
    hide BlockOf, Decode, Parsed, TooLong;
    var comp := new byte[CompressBound(|src|)];
    var r;
    ghost var ss;
    r, ss := CompressHC(src, comp, cLevel);
    assert BlockOf(ss, comp[..r], src);
    BlockDecodes(comp[..r], src, |src|);
    var dec := new byte[|src|];
    var n := DecompressSafe(comp[..r], dec);
    text := dec[..n];
  }

  /** The same for a full output: the prefix that was consumed comes back. */
  method RoundTripDestSize(src: seq<byte>, target: nat, cLevel: int) returns (text: seq<byte>, consumed: nat)
    requires |src| <= LZ4_MAX_INPUT_SIZE && target >= 1
    ensures consumed <= |src| && text == src[..consumed]
  {
    hide BlockOf, Decode, Parsed, TooLong;
    var comp := new byte[target];
    var r;
    ghost var ss;
    r, consumed, ss := CompressHCDestSize(src, comp, cLevel);
    assert BlockOf(ss, comp[..r], src[..consumed]);
    BlockDecodes(comp[..r], src[..consumed], consumed);
    var dec := new byte[consumed];
    var n := DecompressSafe(comp[..r], dec);
    text := dec[..n];
  }

  /** Decoding only a part gives that part: as much as was asked for, or all there is; with something
      else behind the block, no more may be asked for than there is. */
  method RoundTripPartial(src: seq<byte>, cLevel: int, target: nat, capacity: nat, behind: seq<byte>)
    returns (text: seq<byte>)
    requires |src| <= LZ4_MAX_INPUT_SIZE && (behind == [] || Min(target, capacity) <= |src|)
    ensures text == src[..Min(Min(target, capacity), |src|)]
  {
    hide BlockOf, Decode, Parsed, TooLong;
    var comp := new byte[CompressBound(|src|)];
    var r;
    ghost var ss;
    r, ss := CompressHC(src, comp, cLevel);
    assert BlockOf(ss, comp[..r], src);
    BlockDecodes(comp[..r], src, |src|);
    var dec := new byte[Min(target, capacity)];
    var block := comp[..r] + behind;
    var n := DecompressSafePartial(block, dec, target, capacity, comp[..r], |src|);
    text := dec[..n];
  }
}
