# An LZ4 archive, verified

FMS keeps many files in a few large part files.  It embeds the LZ4 block codec, compresses every block
with LZ4 HC at level 9, encrypts it in counter mode, and writes the part files and an index with several
threads.  This project models the codec and the archive in Dafny 4.11 and proves that what goes in comes
out again.  `dafny verify dfyconfig.toml` checks everything.

## What is modelled

- **Block format** (`BlockFormat`): the meaning of a block as a byte-at-a-time decoder, once with and
  once without the end-of-block conditions, and which blocks obey them.
- **Decoder** (`Copies`, `Decoder`, `DecoderApi`): the fast loop, the two-stage shortcut and the safe
  loop of `LZ4_decompress_generic`, with their over-writing copies, over an array of exactly the
  capacity.  A jump target of the C function is a label with the variables live there; every passage
  from label to label is proved to agree with the format.  Full and partial decoding, no dictionary, a
  dictionary in front of the output, and an external one.
- **Counting** (`Bytes`, `WordCount`): comparing a machine word at a time with the software bit tricks,
  on bit vectors.
- **LZ4 HC** (`HcSearch`, `SequenceWriter`, `BlockOutput`, `HcLazyParser`, `HcOptimalParser`,
  `HcMidParser`, `HcCompress`): the hash chains, the search with its shortcuts, the byte-exact encoder
  with three kinds of output limit, and the three parsers of levels 1 to 12, down to the round trip with
  the decoder.
- **Fast compressor** (`FastCompressor`): both table types, acceleration, the three kinds of limit, and
  the round trip.
- **Archive** (`CtrMode`, `ArchiveIndex`, `IndexLayout`, `Pipeline`, `PipelineInvariant`, `PipelineStorage`,
  `PipelineSizes`, `PipelineResult`, `PipelineRuns`, `PipelineCollections`, `Archive`): a state machine
  over all interleavings of the reader, the workers and the writer, the index, and `OpenFile`.

One configuration is fixed: 64-bit little-endian, `LZ4_FAST_DEC_LOOP` 1, `LZ4_DISTANCE_MAX` 65535,
`LZ4_MEMORY_USAGE` 14, software bit counting, pointers as array indices.  Bytes are integers below 256;
where the code computes with bits they are converted to bit vectors and back.  The keys and counter
blocks the workers draw, the block cipher, the compressor's choice among the blocks that decode to the
data, the sorting routine, and how a `std::vector` grows are parameters.

## What the code does, against what it says

- `LZ4HC_compress_hashChain` notes "Here, start0==ip" (FMS/lz4hc.c:1236).  That is not so: the first
  match may have been replaced and not restored.  The invariant of `_Search2` allows it to begin up to 2
  bytes earlier, and `HcLazyParser.StartsApart` is a run on a block of 57 bytes, with the attempts of
  level 7, that comes to `_Search3` with start0 < ip.
- The shortcut of the decoder (FMS/lz4.c:2232-2258) does not look at the last 5 bytes, so a block whose
  last match ends there may be accepted against the end-of-block conditions; one of 18 bytes is in
  `DecoderApi.ShortcutAcceptsMore`.  A distance of 0, which the format does not allow, is not refused
  but gives zeros (FMS/lz4.c:501-509, FMS/lz4.c:2408-2416).  The contracts therefore bound the decoder
  from both sides: every block within the conditions is decoded to its text, and whatever is accepted
  decodes to the text reported when the conditions are not checked.  Between the two, what is accepted
  depends on the loop that happens to read a token; `DecoderApi.FullDecoding` follows the jumps over
  lengths and distances alone, and `DecoderApi.DecompressSafe` accepts exactly what it accepts.
- `LZ4_compress_destSize` should fill the buffer completely when not all of the input fits
  (FMS/lz4.h:251-252).  One byte is left over if and only if the last literals, with their token, have
  16 modulo 256 bytes of room: one more literal would then need one more length byte
  (`BlockOutput.FittingLiteralsFit`; `FastCompressor.NotQuiteFull` is the smallest case).
- `LZ4MID_compress` enters positions under hashes of others after it has moved back
  (FMS/lz4hc.c:706-709).  Table entries are hints there, and every candidate is compared before it is
  used.
- `WriteChunkToFile` keeps pointers to elements of `m_blocks`, a `std::vector` (FMS/FileStorage.h:49,
  FMS/FileStorage.cpp:236), while workers append to it.  When the vector grows, the pointers collected
  before lead nowhere.  Every run is right only if no file has more blocks than the first allocation of
  its vector holds (`PipelineRuns.CorrectOnlyIf`), and with a chunk size that is also enough for
  archives below 2^32 bytes (`PipelineRuns.CorrectExactly`) and for larger ones of which no blocks add
  up to a multiple of 2^32 bytes (`PipelineCollections.LargeCorrectExactly`).  For a vector that grows
  from 0 to 1 these are the files of a single block.  The round trip does not need it: it is about the
  runs that come to their end with no such pointer used.
- With `m_chunkSize` 0, its initial value, the writer may leave before the first part file is open
  (FMS/FileStorage.cpp:267-271), and all blocks are lost (`PipelineRuns.WriterMayLeave`).
- `m_currentChunkSize` has 32 bits: a writer that finds it 0 at the end leaves even if it has collected
  a positive multiple of 2^32 bytes, which are lost (`PipelineRuns.LeavesBehind`).  That can happen
  whenever the compressed blocks of an archive that is not empty add up to a multiple of 2^32 bytes
  (`PipelineRuns.CounterMayWrap`), and a finished run with a chunk size restores everything if and only
  if it has not happened (`PipelineRuns.FinishedRunExactly`).
- The number of files is written as an unsigned and read as a signed number: from 2^31 files on the
  index is refused or cut short (`ArchiveIndex.IndexRoundTrip`).

## Model

| member | source | states |
|---|---|---|
| BlockFormat.RepeatIsPeriodic | FMS/lz4.c:2408-2436 | a decoded match of any length and distance, overlapping itself or not, repeats byte for byte what stands that distance before it; distance 0 gives zeros |
| BlockFormat.PeriodicIsRepeat | FMS/lz4.c:2408-2436 | and nothing else does: bytes that repeat at a distance are what decoding that match produces |
| BlockFormat.RepeatSplit | FMS/lz4.c:2394-2406 | a match may be decoded in two parts |
| BlockFormat.RealMatchPart | FMS/lz4hc.c:1287-1315 | dropping the front, the back or both of a real match leaves a real match at the same distance |
| BlockFormat.StrictIsLenient | FMS/lz4.c:245-246 | a block that obeys the end-of-block conditions means the same when they are not checked |
| BlockFormat.ReadLengthBytes | FMS/lz4.c:1980-2016 | the extra length bytes that a compressor writes are read back as the same length |
| BlockFormat.DecodeSequence | FMS/lz4.c:2217-2437 | the bytes of a written sequence decode to its literals and then its match, under both rule sets |
| BlockFormat.BlockDecodes | FMS/lz4.c:245-246 | a block made of sequences that fit a text decodes to exactly that text, with the end-of-block conditions checked for any capacity from the size of the text on, and without |
| BlockFormat.MatchLimits | FMS/lz4.c:245-246 | a list of sequences may make up a text of n bytes if and only if every match has at least 4 bytes at a distance of 1 to 65535 inside the text, begins at least 12 bytes before its end, and ends at least 5 bytes before it |
| BlockFormat.ShortText | FMS/lz4.c:249 | a text of at most 12 bytes has only one block: the token 16 * n and the text |
| BlockFormat.LengthLayout | FMS/lz4hc.c:336-339 | the extra bytes of a length are n / 255 times 255, and then n % 255 |
| BlockFormat.SequenceLayout | FMS/lz4hc.c:327-369 | which byte of a sequence is what, in numbers: token, literal length, literals, distance in two bytes, match length |
| Copies.PeriodChain | FMS/lz4.c:474-518 | bytes periodic at a distance are periodic at every multiple of it |
| Copies.PeriodGrows | FMS/lz4.c:497-518 | a copy begun at a distance and continued from a multiple of it that is already written is periodic at the distance throughout |
| Copies.TablesAgree | FMS/lz4.c:474-475 | inc32table and dec64table move the source so that the following copies go back a multiple of the distance, at least 4 and then at least 8 bytes, and never read what is not written yet |
| Copies.WildCopy8 | FMS/lz4.c:465-472 | copies up to the end asked for and up to 7 bytes more; what stands before the start, and what stands behind those 7 bytes, is as before |
| Copies.WildCopy32 | FMS/lz4.c:523-531 | the same in strides of two 16-byte copies, up to 31 bytes more, for distances of 16 or more |
| Copies.CopyHead | FMS/lz4.c:2408-2421 | the first 8 bytes of an overlapping match are right, and the source stands a usable multiple of the distance behind |
| Copies.CopyUsingOffsetBase | FMS/lz4.c:497-518 | the whole match up to its end is what byte-at-a-time copying gives |
| Copies.CopyUsingOffset | FMS/lz4.c:536-574 | the same with the 8-byte patterns for distances 1, 2 and 4 |
| Copies.FillPattern | FMS/lz4.c:568-573 | storing an 8-byte pattern again and again continues the period |
| Copies.WildCopyIn | FMS/lz4.c:2107-2108 | literals copied in strides from the block are right up to their end, and reads and writes stay inside both buffers |
| Decoder.ReadVariableLength | FMS/lz4.c:1980-2016 | reads the length the format says, or fails exactly when the bytes run past the limit given |
| Decoder.TextIsPrefix | FMS/lz4.c:2287-2332 | the text decoded so far is a beginning of whatever the whole block decodes to |
| Decoder.ReadLengthLonger | FMS/lz4.c:1980-2016 | a length read from the beginning of a block is the length in the whole block |
| Decoder.LiteralsMustEnd | FMS/lz4.c:2281-2321 | literals too near either end can only be the last of a block that obeys the end-of-block conditions |
| Decoder.TokenFails | FMS/lz4.c:2094-2099 | refusing a literal length that runs into the last 15 bytes refuses no block that obeys the conditions |
| Decoder.MatchFails | FMS/lz4.c:2356-2364 | refusing distances outside the history, and matches that reach the last 5 bytes, refuses no block that obeys the conditions |
| Decoder.RepeatFromHistory | FMS/lz4.c:2163-2198 | the first bytes of a match that begins in the history are a copy of the history |
| Decoder.BlockDecoder.FastLiterals | FMS/lz4.c:2094-2117 | the over-writing literal copies of the fast loop carry on with the rest the format says, or hand over to the safe loop with nothing lost |
| Decoder.BlockDecoder.FastMatch | FMS/lz4.c:2126-2210 | 18-byte, 32-byte and pattern copies of the fast loop leave the text byte-at-a-time decoding gives |
| Decoder.BlockDecoder.ShortcutLiterals | FMS/lz4.c:2232-2245 | the 16-byte copy of the shortcut changes no byte of the text |
| Decoder.BlockDecoder.ShortcutMatch | FMS/lz4.c:2247-2262 | the 18-byte copy of the shortcut, or the jump to the match copy, agrees with the format |
| Decoder.BlockDecoder.SafeToken | FMS/lz4.c:2217-2272 | a token of the safe loop, with or without the shortcut, agrees with the format |
| Decoder.BlockDecoder.SafeLiterals | FMS/lz4.c:2275-2336 | literals of the safe loop: at the end of the block they complete the text, otherwise the distance follows |
| Decoder.BlockDecoder.PartialLiterals | FMS/lz4.c:2287-2332 | a partial decoding copies as many literals as both ends allow, and what it has is a beginning of the text, also of a block of which only a beginning is given |
| Decoder.BlockDecoder.MatchOffset | FMS/lz4.c:2338-2340 | reads the distance the format says |
| Decoder.BlockDecoder.MatchLength | FMS/lz4.c:2346-2353 | reads the match length the format says, or fails only on blocks that break the conditions |
| Decoder.BlockDecoder.SafeMatch | FMS/lz4.c:2356-2436 | a match of the safe loop, up to the last bytes of the buffer, agrees with the format |
| Decoder.BlockDecoder.PartialMatch | FMS/lz4.c:2392-2406 | a match near the end of a partial decoding is cut to what fits |
| Decoder.BlockDecoder.DictionaryMatch | FMS/lz4.c:2359-2386 | a match that begins in the external dictionary, ends there or goes on in the buffer, overlapping itself or not, agrees with the format on dictionary and output put together; one that reaches the last 5 bytes is refused |
| Decoder.BlockDecoder.DictionaryPartial | FMS/lz4.c:2362-2386 | in a partial decoding such a match is cut to what fits, and the decoding ends or goes on as the format says |
| Decoder.DictionaryCopy | FMS/lz4.c:2367-2384 | the bytes such a match leaves in the buffer |
| Decoder.Copy18 | FMS/lz4.c:2156-2158 | two 8-byte copies and one of 2 make a match of up to 18 bytes at distance 8 or more |
| Decoder.CopyTail | FMS/lz4.c:2423-2435 | the rest of a match behind its first 8 bytes |
| Decoder.CopyNearEnd | FMS/lz4.c:2423-2431 | whole strides while they fit, then single bytes, write nothing outside the buffer |
| Decoder.PartialCopy | FMS/lz4.c:2394-2403 | a cut match, in one piece or byte by byte |
| Decoder.BlockDecoder.FastSequence | FMS/lz4.c:2085-2211 | a whole round of the fast loop agrees with the format, wherever it leaves the loop |
| Decoder.BlockDecoder.Step | FMS/lz4.c:2073-2437 | every passage from one jump target to the next keeps what remains to be decoded, and moves on; in a full decoding it goes exactly where the lengths and distances read send it |
| Decoder.VerdictStep | FMS/lz4.c:2073-2446 | following the jumps one passage further does not change where they end |
| Decoder.BlockDecoder.Run | FMS/lz4.c:2073-2446 | the whole decoding ends, and from the first token to the end agrees with the format; a full one is refused, or ends, exactly where following the jumps does; a partial one agrees with the block that is meant, whether it is given exactly, cut short, or with something behind it; all accesses are inside both buffers for every input |
| DecoderApi.EmptyOutput | FMS/lz4.c:2064-2071 | into no space only the block that is a single zero byte decodes, which is what the special case accepts |
| DecoderApi.DecompressGeneric | FMS/lz4.c:2024-2447 | whatever mode: a full decoding that reports success has produced what the byte-at-a-time decoder produces from the history; every block within the conditions succeeds; of all others exactly those succeed, with that many bytes, for which following the jumps over lengths and distances alone does (FullDecoding); what stood before is untouched; a partial decoding that reports success gives what fits of every block that can be read and has no distance 0, and a beginning of its text if only a beginning of the block is given, also behind an external dictionary |
| DecoderApi.DecompressSafe | FMS/lz4.c:2453-2458 | success means the text of the block; a block within the conditions that fits gives exactly its text; which blocks are accepted, and the size returned, is exact for all |
| DecoderApi.TwoSequences | FMS/lz4.c:2275-2364 | for blocks of two sequences too short for the shortcut: they are accepted if and only if the first match begins at least 12 bytes before the end of the buffer and ends at least 5 before it, and at least 5 literals follow |
| DecoderApi.LimitsOfDecoder | FMS/lz4.c:2281-2364 | three blocks in literal bytes: a match that begins 12 bytes before the end and ends 5 before it is decoded to 13 bytes; one byte later it is refused at either limit |
| DecoderApi.MatchAtEndIsDecoded | FMS/lz4.c:2232-2258 | for a block of 18 bytes whose match ends with its text, following the jumps ends with 32 bytes decoded |
| DecoderApi.ShortcutAcceptsMore | FMS/lz4.c:2232-2258 | LZ4_decompress_safe returns 32 for that block, although it breaks the end-of-block conditions |
| DecoderApi.DecompressSafePartial | FMS/lz4.c:2461-2467 | of a block within the conditions: exactly min(target, capacity, size) bytes, the beginning of its text, also with other bytes behind the block, as long as no more is asked for than the block has; of any other block that is accepted, can be read and has no distance 0, the same; of a block cut short, a beginning of its text |
| DecoderApi.OldHistoryIsIgnored | FMS/lz4.c:253-255 | history further back than 65535 bytes changes nothing in what a block decodes to |
| DecoderApi.WindowSuffices | FMS/lz4.c:2721-2734 | the last 64 KB of a dictionary are as good as all of it |
| DecoderApi.Placed | FMS/lz4.c:2721-2748 | wherever the dictionary stands, the history the decoder is given is the dictionary, or its last 65535 bytes at least |
| DecoderApi.DecompressSafeUsingDict | FMS/lz4.c:2721-2734 | the text depends on the bytes of the dictionary only: the same whether it stands in front of the output or elsewhere |
| DecoderApi.DecompressSafePartialUsingDict | FMS/lz4.c:2736-2748 | the same on a dictionary, wherever it stands |
| DecoderApi.PartWithDictionary | FMS/lz4.c:2736-2748 | what is decoded behind the last 64 KB of a dictionary, all of it or a beginning, is right behind the whole dictionary |
| DecoderApi.PartOfWithDictionary | FMS/lz4.c:2736-2748 | and so is everything a partial decoding promises, for a block given exactly, cut short, or with something behind it |
| WordCount.NbCommonBytesIsFirst | FMS/lz4.c:608-612 | the multiply-and-shift gives the number of the lowest byte that is not zero |
| WordCount.CommonBytesExact | FMS/lz4.c:682-705 | comparing two words counts exactly the equal bytes before the first that differs |
| WordCount.Count | FMS/lz4.c:682-705 | LZ4_count is the length of the longest common run up to the limit, neither less nor more |
| WordCount.CountTail | FMS/lz4.c:700-704 | the tail of 4, 2 and 1 bytes is exact |
| WordCount.CommonBackExact | FMS/lz4hc.c:168-200 | the software bit trick counts exactly the equal bytes from the end of 4 |
| WordCount.CountBack | FMS/lz4hc.c:205-225 | LZ4HC_countBack goes back as far as the bytes agree and both floors allow, no further and no less |
| WordCount.CountPattern | FMS/lz4hc.c:850-878 | counts exactly how far a 4-byte pattern goes on |
| WordCount.ReverseCountPattern | FMS/lz4hc.c:883-898 | counts exactly how far a 4-byte pattern goes back; the byte pointer never leaves the pattern |
| HcSearch.MatchSameHash | FMS/lz4hc.c:121-122 | positions that match in 4 bytes have the same hash |
| HcSearch.HashValues | FMS/lz4hc.c:116-122 | the hash in numbers, for five inputs |
| HcSearch.CoveredFurther | FMS/lz4hc.c:952-1096 | positions with another hash, at the position searched or some bytes behind it, cannot hide a longer match |
| HcSearch.NearestIsAll | FMS/lz4hc.c:952-1096 | with as many attempts as the window has positions with that hash, no match in the whole window is longer |
| HcSearch.HcContext.SearchEnds | FMS/lz4hc.c:953-1096 | when the search ends, however it does, it has covered the nearest position with the same hash; without a run of one byte also as many of them as it had attempts, and with enough attempts the whole window |
| HcSearch.HcContext.constructor | FMS/lz4hc.c:236-259 | a fresh state satisfies the chain invariant |
| HcSearch.HcContext.Insert | FMS/lz4hc.c:811-832 | after inserting, every table head is the last position with its hash, and the links of the last 64 K positions lead to the position before with the same hash, cut to 16 bits; going back moves nextToUpdate only and leaves both tables as they are |
| HcSearch.Slots | FMS/lz4hc.c:822-829 | indices less than 64 K apart never share a slot of the wrapped chain table |
| HcSearch.HcContext.FirstLink | FMS/lz4hc.c:948-952 | the search begins with nothing nearer than the head of the chain left untried |
| HcSearch.HcContext.FollowLink | FMS/lz4hc.c:1093-1094 | following a link, of the position or of a later one of the match, leaves no longer match behind |
| HcSearch.HcContext.LinkPasses | FMS/lz4hc.c:1093-1094 | a link passes over no position of its chain, and is 1 to 65535 |
| HcSearch.FilterIsSafe | FMS/lz4hc.c:963-966 | the 2-byte pre-check rejects only candidates that cannot be longer, however far back they reach |
| HcSearch.WholeMatch | FMS/lz4hc.c:968-974 | 4 equal bytes, what LZ4_count adds behind them and LZ4HC_countBack before them, are the longest match at that distance |
| HcSearch.HcContext.TryCandidate | FMS/lz4hc.c:955-974 | a candidate within the prefix gives the exact length of the longest match at its distance around the position, between the limits on both sides, and replaces the best one only if longer |
| HcSearch.HcContext.PatternJump | FMS/lz4hc.c:1036-1089 | the repeated-byte shortcut: a match it records without comparing is real, inside the limits, at a distance of at most 65535; the index it goes on with stays below the position |
| HcSearch.RunsMatch | FMS/lz4hc.c:1074-1084 | two runs of the same byte match each other over the shorter of both |
| HcSearch.HcContext.LeaveRun | FMS/lz4hc.c:1067-1089 | moving to the start of a run, or out of it, keeps the answer sound |
| HcSearch.HcContext.SwapChain | FMS/lz4hc.c:996-1017 | the chain swap leaves no longer match behind, wherever it goes on, and stops only when none is left |
| HcSearch.HcContext.SwapCovers | FMS/lz4hc.c:996-1017 | behind a match, every longer one is also on the chain of each of its positions, so that the chain with the longest link may be followed instead |
| HcSearch.HcContext.Search | FMS/lz4hc.c:946-1136 | every answer longer than asked for is a real match within the limits at distance 1 to 65535; nothing longer is left with the nearest position of the same hash, at any level; nor, unless the pattern analysis is on and the 4 bytes at the position are equal, with the nearest maxNbAttempts positions (without chain swap), nor in the whole window when maxNbAttempts reaches its size (with or without); with favorDecSpeed this is about distances from 8 on |
| HcSearch.HcContext.InsertAndGetWiderMatch | FMS/lz4hc.c:914-1136 | the same, with the table filled up to the position searched |
| SequenceWriter.WriteLength | FMS/lz4hc.c:336-339 | the extra bytes of a literal length |
| SequenceWriter.WriteLengthPairs | FMS/lz4hc.c:361-366 | the extra bytes of a match length, two at a time, are the same bytes |
| SequenceWriter.WriteMatchLength | FMS/lz4hc.c:361-369 | the match length completes the token that has been waiting and nothing else before it changes |
| SequenceWriter.EncodeSequence | FMS/lz4hc.c:292-380 | appends exactly the bytes of the sequence; with a limit it leaves 5 bytes free before it, reports an overflow only if the sequence and the 6 bytes that must follow do not fit, keeps then everything before, and in any case changes nothing behind the limit, wild copy included |
| SequenceWriter.WriteLastLiterals | FMS/lz4hc.c:1369-1379 | appends exactly the bytes of the last literals |
| BlockOutput.WrittenMore | FMS/lz4hc.c:1222-1228 | one more real match within the end-of-block conditions, with the literals before it, extends what is written |
| BlockOutput.EmitSize | FMS/lz4.h:215 | sequences take up at most n + n/255 bytes for n bytes of text |
| BlockOutput.BlockSize | FMS/lz4.h:215 | no block, however made, is larger than n + n/255 + 16 |
| BlockOutput.TooLongMeans | FMS/lz4hc.c:1353-1360 | where a limited output is given up, no block that goes on like this fits |
| BlockOutput.BoundIsRoomy | FMS/lz4hc.c:327-369 | without a limit, a buffer of the bound has room for every sequence and its 8-byte overrun |
| BlockOutput.FittingLiteralsFit | FMS/lz4hc.c:1361-1365 | the literals kept when the output is full fit with their length bytes, are not more than there are, and fill the room, but for one byte if and only if it is 16 modulo 256 |
| BlockOutput.CutOff | FMS/lz4hc.c:1353-1383 | ending early behind enough literals keeps the end-of-block conditions on the shortened text |
| BlockOutput.RunsAre | FMS/lz4hc.c:1353-1383 | what is known of the literals before each match is known of each position among them |
| BlockOutput.Output.Encode | FMS/lz4hc.c:1222-1228 | on success the output stands for the text up to the end of the match; on overflow it is as before, and there is no room for the match and what must follow |
| BlockOutput.Output.LastLiterals | FMS/lz4hc.c:1353-1383 | the finished output is a block of the whole input, or with fillOutput of the prefix consumed, and then full, but for one byte where the last literals have 16 modulo 256 bytes of room; 0 only with limitedOutput, and only if the block does not fit |
| BlockOutput.Output.FinalLength | FMS/lz4hc.c:1385-1400 | the shortened last match is the longest that fits with the 12 and 5 bytes it needs behind its start and its end; without one, none fits |
| BlockOutput.Output.DestOverflow | FMS/lz4hc.c:1385-1404 | a full output ends in a block of a prefix of the input, with the longest last match that fits, and full but for one byte in the case above; a limited one is given up only if no block that goes on like this fits |
| HcLazyParser.LazyParser.Find | FMS/lz4hc.c:1204-1220 | every search is at a position behind all searched before, so the insertion never goes back; it misses no longer match with the nearest maxNbAttempts positions of the same hash, or at level 9, in a run of one byte, with the nearest |
| HcLazyParser.LazyParser.Encode | FMS/lz4hc.c:1222-1228 | only real matches within the limits, behind the anchor, are written |
| HcLazyParser.LazyParser.Step | FMS/lz4hc.c:1203-1208 | the top of the main loop: one position further if the search finds no match of 4 bytes, so that the position has none, otherwise _Search2 with the match it finds |
| HcLazyParser.LazyParser.Search2Step | FMS/lz4hc.c:1210-1241 | _Search2 reaches its next label in that label's invariant, having searched further, or having written and gone back to the main loop; which label, and with which first match, kept, restored or replaced, is as the comparisons say |
| HcLazyParser.StartsApart | FMS/lz4hc.c:1231-1241 | a run on a block of 57 bytes with 64 attempts, as at level 7, comes to _Search3 with start0 one byte before ip, so start0==ip does not hold behind line 1236 |
| HcLazyParser.LazyParser.CorrectSecond | FMS/lz4hc.c:1243-1255 | the correction leaves both matches real and at least 4 bytes of the first |
| HcLazyParser.LazyParser.EncodeBoth | FMS/lz4hc.c:1267-1285 | without a third match both are written, the first cut at the second |
| HcLazyParser.LazyParser.DropSecond | FMS/lz4hc.c:1287-1310 | the second match is removed, or what is left of it kept, and the third becomes the first |
| HcLazyParser.LazyParser.CutFirst | FMS/lz4hc.c:1322-1336 | deciding where the first of three matches ends keeps all three real and in order |
| HcLazyParser.LazyParser.EncodeFirst | FMS/lz4hc.c:1317-1350 | the first of three is written and the others move up |
| HcLazyParser.LazyParser.Search3Step | FMS/lz4hc.c:1243-1350 | _Search3 reaches its next label in that label's invariant, having searched further or written |
| HcLazyParser.LazyParser.Run | FMS/lz4hc.c:1159-1404 | the goto machine ends, and its output is a block of the input or of the prefix consumed; of the literals before each match all but the last 4, and all behind the last match, have no match of 4 bytes with the candidates tried |
| HcOptimalParser.PricesAreSizes | FMS/lz4hc.c:1826-1849 | the prices are the sizes of what the encoder writes |
| HcOptimalParser.BackwardPathGood | FMS/lz4hc.c:2089-2103 | the path back from any position consists of literals and real matches |
| HcOptimalParser.ReversePath | FMS/lz4hc.c:2089-2103 | the in-place reverse traversal leaves, read forwards, exactly the path it went back along, in order |
| HcOptimalParser.ReversedIsWritable | FMS/lz4hc.c:2089-2119 | every step of that path is a literal or a real match that may be written at its place |
| HcOptimalParser.NextStep | FMS/lz4hc.c:2105-2119 | the forward walk finds the next step of the path where it stands |
| HcOptimalParser.PathStartsEarly | FMS/lz4hc.c:1947-2083 | every path back from a position behind the first match has a match within its first 4 positions, as 4 literals cost more than a match of 4 bytes |
| HcOptimalParser.NextIsEarly | FMS/lz4hc.c:2105-2119 | so the forward walk comes to a match within 3 literals |
| HcOptimalParser.OptimalParser.FindLongerMatch | FMS/lz4hc.c:1851-1869 | nothing, or a real match within the limits that is longer than asked for or, favoring decoding, cut to 18 bytes, even if more than that were asked for; nothing only where there is none with the nearest position of the same hash, and none at all with enough attempts |
| HcOptimalParser.OptimalParser.InitialPrices | FMS/lz4hc.c:1947-1981 | every position priced holds a step of length 1, or a real match that ends there |
| HcOptimalParser.OptimalParser.Update | FMS/lz4hc.c:2019-2077 | entering a match of every length keeps that |
| HcOptimalParser.OptimalParser.Explore | FMS/lz4hc.c:1983-2083 | the best path found leads from ip on by literals and real matches, with a match within its first 4 positions |
| HcOptimalParser.OptimalParser.EncodePath | FMS/lz4hc.c:2105-2119 | the path is written sequence by sequence up to its end, and what it leaves as literals was passed over, or is near a match before it |
| HcOptimalParser.OptimalParser.Run | FMS/lz4hc.c:1879-2186 | the parser ends, and its output is a block of the input or of the prefix consumed; of the literals before each match all but the last 3, and all behind the last match, have no match with the nearest position of the same hash (with enough attempts none at all), but for the first 4096 behind a match |
| HcMidParser.MidParser.Candidate | FMS/lz4hc.c:608-618 | a table entry, whatever it says, is used only after the bytes were compared, and passed over only if it is too far away, or its 4 bytes differ |
| HcMidParser.MidParser.FindMatch | FMS/lz4hc.c:602-680 | a match found is real; if none is, the candidate of the short hash has other bytes; the position is entered under its hash, and entries stay below the positions to come |
| HcMidParser.MidParser.OneMoreNew | FMS/lz4hc.c:639-680 | where nothing is found, the last position with the same hash, if it was entered and is at most 65535 bytes before, has 4 other bytes, although some entries were made under the hashes of others |
| HcMidParser.FirstLooks | FMS/lz4hc.c:697 | the first 512 bytes behind a match are all looked at, the next one is not |
| HcMidParser.MidParser.CatchBack | FMS/lz4hc.c:701-704 | a match extended backwards is real |
| HcMidParser.MidParser.FillBeginning | FMS/lz4hc.c:706-709 | entries made for shifted positions still point before the positions to come, and replace none of a literal |
| HcMidParser.MidParser.EncodeMatch | FMS/lz4hc.c:700-734 | the match is written and the tables stay usable |
| HcMidParser.MidParser.Run | FMS/lz4hc.c:554-806 | the parser of levels 1 and 2 ends, and its output is a block of the input or of the prefix consumed; of what it looks at, in steps that grow every 512 bytes, it leaves as literals, but for one before a match, only what is new |
| HcCompress.CompressGeneric | FMS/lz4hc.c:1418-1466 | for every level and limit: the result is a block of what was consumed, of everything without fillOutput, and otherwise full but for one byte where the last literals have 16 modulo 256 bytes of room; its literals are as the level promises (Parsed); 0 only for too large inputs, no space, or with limitedOutput when no block that goes on like this fits |
| HcCompress.LevelTable | FMS/lz4hc.c:92-116 | how many candidates each level tries, and what levels outside of the table mean |
| HcCompress.CompressHC | FMS/lz4hc.c:1568-1584 | a buffer of the bound is always enough, at every level; in a smaller one 0 means that the block does not fit; the literals are as the level promises |
| HcCompress.CompressHCDestSize | FMS/lz4hc.c:1587-1594 | any target of at least one byte holds a block of the prefix consumed, and unless that is everything is full, but for one byte where the last literals have 16 modulo 256 bytes of room |
| HcCompress.RoundTrip | FMS/lz4hc.c:1568-1584 | compress at any level, decompress at exactly the size of the input: the input comes back |
| HcCompress.RoundTripDestSize | FMS/lz4hc.c:1587-1594 | compress into any target, decompress at exactly the size consumed: that prefix comes back |
| HcCompress.RoundTripPartial | FMS/lz4.h:276-309 | partial decompression of a compressed input gives exactly the beginning asked for, also with other bytes behind the block (Note 5 of the header) |
| FastCompressor.FastCompressor.Put | FMS/lz4.c:822-833 | an index is entered unchanged: those of the 16-bit table fit 16 bits |
| FastCompressor.FastCompressor.Exchange | FMS/lz4.c:1042-1085 | every candidate index read is below the current position, and not before any position that was entered under this hash |
| FastCompressor.FastCompressor.MatchesRepeats | FMS/lz4.c:1087-1099 | a candidate taken matches in 4 bytes at a distance of at most 65535, in the 16-bit table without a distance test |
| FastCompressor.FastCompressor.OneMoreNew | FMS/lz4.c:1037-1103 | where nothing is found, the last position with the same hash, if it was entered and is at most 65535 bytes before, has 4 other bytes |
| FastCompressor.FirstLooks | FMS/lz4.c:1037-1062 | without acceleration the first 66 positions behind a match are all looked at, the next one is not |
| FastCompressor.FastCompressor.FindMatch | FMS/lz4.c:1037-1103 | the accelerating search ends at a real match, or at the end of the block with everything it looked at new |
| FastCompressor.FastCompressor.CatchUp | FMS/lz4.c:1105-1110 | a match extended backwards is real |
| FastCompressor.FastCompressor.EncodeLiterals | FMS/lz4.c:1112-1143 | the limits checked make room for the literals, the 8-byte overrun and, with fillOutput, for what a last match needs; a limited output is given up only if no block that goes on like this fits |
| FastCompressor.CountedMatch | FMS/lz4.c:1188-1192 | the counted match covers at least what was already compared |
| FastCompressor.FastCompressor.MatchCode | FMS/lz4.c:1173-1223 | the match is as long as the bytes agree; one cut to fill the output is real and still long enough, fills it, and all positions entered stay behind it; a limited output is given up only if the match and what must follow do not fit |
| FastCompressor.FastCompressor.ClearPositions | FMS/lz4.c:1199-1210 | after clearing, no entry points at or behind the new position |
| FastCompressor.WriteMatchCode | FMS/lz4.c:1224-1236 | the 4-byte writes, up to 3 bytes too far, leave the right length bytes |
| FastCompressor.FastCompressor.EncodeMatch | FMS/lz4.c:1145-1239 | _next_match writes the match, or rewinds to the token and ends the block |
| FastCompressor.FastCompressor.TestNext | FMS/lz4.c:1241-1297 | behind a match: the end, another match at once, or the search again, with the end of the match new, each in its invariant |
| FastCompressor.FastCompressor.Run | FMS/lz4.c:932-1340 | the goto machine ends, and its output is a block of the input or of the prefix consumed; of what it looks at, in steps set by the acceleration that grow every 64 times, it leaves as literals only what is new |
| FastCompressor.CompressGeneric | FMS/lz4.c:1346-1382 | the result is a block of what was consumed, which unless that is everything is full but for one byte where the last literals have 16 modulo 256 bytes of room; what was looked at among its literals was new (Parsed); 0 only for too large inputs, no space, or with limitedOutput when no block that goes on like this fits |
| FastCompressor.CompressFast | FMS/lz4.c:1384-1405 | a buffer of the bound is always enough, for every acceleration; in a smaller one 0 means that the block does not fit |
| FastCompressor.CompressDestSize | FMS/lz4.c:1483-1497 | any target of at least one byte holds a block of the prefix consumed, and unless that is everything is full, but for one byte where the last literals have 16 modulo 256 bytes of room; a large one holds everything |
| FastCompressor.NotQuiteFull | FMS/lz4.h:248-252 | a buffer of 16 bytes is not filled completely by 15 different bytes: 15 bytes are written, for 14 of them |
| FastCompressor.RoundTrip | FMS/lz4.c:1455-1471 | compress with any acceleration, decompress at exactly the size of the input: the input comes back |
| FastCompressor.RoundTripDestSize | FMS/lz4.c:1508-1524 | compress into any target, decompress at exactly the size consumed: that prefix comes back |
| FastCompressor.RoundTripPartial | FMS/lz4.h:276-309 | partial decompression of an input compressed with any acceleration gives exactly the beginning asked for, also with other bytes behind the block (Note 5 of the header) |
| CtrMode.CryptTwice | FMS/FileStorage.cpp:217-221 | encrypting twice with the same key and counter block gives back the data, of the same length, whatever the block cipher (section 6.5 of NIST SP 800-38A) |
| CtrMode.KeyStreamStarts | FMS/FileStorage.cpp:217-221 | the first 16 bytes are combined with the cipher of the counter block itself |
| CtrMode.KeyStreamSteps | FMS/FileStorage.cpp:217-221 | 16 bytes further the counter is 1 more; the last counter block is followed by zero |
| CtrMode.CryptInPieces | FMS/FileStorage.cpp:217-221 | what is encrypted in two pieces, at a 16-byte border, is what is encrypted at once |
| CtrMode.CounterTells | FMS/FileStorage.cpp:217-221 | different counter blocks are different numbers, big-endian |
| Bytes.XorDigits | FMS/FileStorage.cpp:217-221 | exclusive or of two bytes, digit by digit |
| ArchiveIndex.SortKeeps | FMS/FileStorage.cpp:689 | sorting gives an ordered permutation |
| ArchiveIndex.SortIsUnique | FMS/FileStorage.cpp:689 | when block numbers differ, every sorting routine gives the same order |
| ArchiveIndex.ReadBlockBytes | FMS/FileStorage.cpp:669-686 | a block entry is read back field by field |
| ArchiveIndex.ReadEntryBytes | FMS/FileStorage.cpp:646-690 | a file entry is read back with its name and blocks, and the next one follows |
| ArchiveIndex.MapHolds | FMS/FileStorage.cpp:657-659 | the map read, with any sorting routine, holds every file written, with its blocks sorted, and no other |
| ArchiveIndex.IndexRoundTrip | FMS/FileStorage.cpp:628-693 | reading the index gives back the map written if and only if there are fewer than 2^31 files, with any sorting routine |
| ArchiveIndex.WriteIndex | FMS/FileStorage.cpp:497-541 | the loops of CompressAll write that file |
| ArchiveIndex.ReadIndex | FMS/FileStorage.cpp:628-693 | the loop of ResetCompressInfoMap reads that map |
| IndexLayout.LEDigits | FMS/FileStorage.cpp:497-541 | byte m of a number is its m-th digit to the base 256 |
| IndexLayout.LayoutIsIndex | FMS/FileStorage.cpp:497-541 | one file, and no other, has the layout: counts, names and sizes where they belong, and of each block the part at byte 0, the offset at 4, the compressed size at 12, the original size at 20, the number at 28, the key at 36 and the counter block at 68, each lowest byte first |
| IndexLayout.SomeIndex | FMS/FileStorage.cpp:497-541 | an index of one file with one block, in literal bytes |
| IndexLayout.WriteLaidOut | FMS/FileStorage.cpp:497-541 | what CompressAll writes has the layout |
| IndexLayout.ReadLaidOut | FMS/FileStorage.cpp:628-693 | from a file of that layout, with fewer than 2^31 files, the map is read |
| Pipeline.SplitConcat | FMS/FileStorage.cpp:114-153 | the blocks of a file put together are the file; none is empty or larger than a block |
| Pipeline.SplitAt | FMS/FileStorage.cpp:116-153 | block k begins at k times the block size, and only the last one is shorter |
| Pipeline.CompressorExists | FMS/lz4hc.c:1568-1584 | every block has a compressed form of at most the bound, so a compressor as the workers need it exists |
| PipelineInvariant.NextBlock | FMS/FileStorage.cpp:116-153 | what the reader queues is the next block of its file |
| PipelineInvariant.ConservedKept | FMS/FileStorage.cpp:116-312 | every step of every thread keeps each block read in exactly one of queue, worker and metadata |
| PipelineInvariant.WriteKeepsIds | FMS/FileStorage.cpp:273-308 | writing moves no block |
| PipelineInvariant.ShapeKept | FMS/FileStorage.cpp:165-317 | the phases of the threads agree, and m_currentPartFileSize is the length of the open part |
| PipelineStorage.CompressRestores | FMS/FileStorage.cpp:188-229 | a block compressed and encrypted can be restored from what the worker hands on |
| PipelineStorage.JobCompresses | FMS/FileStorage.cpp:188-210 | the compressor gives a block that decompresses to the job's data, for every job in the queue or with a worker |
| PipelineStorage.PushStored | FMS/FileStorage.cpp:228-240 | a block joins the metadata and the chunk together |
| PipelineStorage.WriteSlots | FMS/FileStorage.cpp:293-307 | the record written holds the size and the data of its block at the offset noted, and older records stay |
| PipelineStorage.WriteChunkGood | FMS/FileStorage.cpp:273-311 | the chunk holds the data of exactly the blocks not yet written, each once |
| PipelineStorage.WriteApart | FMS/FileStorage.cpp:293-307 | no two records overlap |
| PipelineStorage.WriteParts | FMS/FileStorage.cpp:275-292 | a part is larger than m_maxPartSize only if it holds a single block |
| PipelineStorage.WriteNeeded | FMS/FileStorage.cpp:275-292 | a new part is opened only for a block that does not fit the part before, and every part but the first was |
| PipelineStorage.WriteAppends | FMS/FileStorage.cpp:273-308 | writing what is collected adds its records to what the parts hold together, in order, and nothing else |
| PipelineStorage.WriteStored | FMS/FileStorage.cpp:273-312 | all of that over the whole loop of the writer |
| PipelineStorage.CountedKept | FMS/FileStorage.cpp:232-312 | m_currentChunkSize is the sum of the sizes collected, modulo 2^32 |
| PipelineStorage.InvariantKept | FMS/FileStorage.cpp:114-317 | every step of every thread, in every interleaving, keeps the whole invariant |
| PipelineStorage.InvariantHolds | FMS/FileStorage.cpp:408-490 | the invariant holds in every state of every run |
| PipelineSizes.WeighedKept | FMS/FileStorage.cpp:116-312 | every step conserves the compressed size of what has been read: queue, workers and metadata together have it all, and what is collected is not more than the metadata |
| PipelineSizes.WeighedHolds | FMS/FileStorage.cpp:408-490 | that is so in every state of every run |
| PipelineSizes.SumBounded | FMS/FileStorage.cpp:232-312 | what is collected is never more than the whole archive, compressed |
| PipelineSizes.AllAccounted | FMS/FileStorage.cpp:472-490 | when all is finished and the writer has written nothing, what is collected is the whole archive |
| PipelineResult.InPlace | FMS/FileStorage.cpp:689 | block numbers 0 to n-1, sorted, stand in their places |
| PipelineResult.WrittenIsRestored | FMS/FileStorage.cpp:472-490 | when all is finished and nothing is collected, every block of every file is on disk, and sorting finds them in order |
| PipelineResult.AnySort | FMS/FileStorage.cpp:689 | the block numbers of a restored file differ, so every sorting routine, std::sort included, puts its blocks in the order of the file |
| PipelineRuns.WriterExitsEmpty | FMS/FileStorage.cpp:260-265 | when all is finished, the writer leaves data behind if and only if it holds a positive multiple of 2^32 bytes |
| PipelineRuns.ExitsLate | FMS/FileStorage.cpp:247-317 | with a chunk size, a writer leaves only at the end, and then holds a multiple of 2^32 bytes: its counter shows 0 |
| PipelineRuns.RestoredExactly | FMS/FileStorage.cpp:472-490 | at the end, all files can be restored if and only if nothing is left collected |
| PipelineRuns.FinishedRunExactly | FMS/FileStorage.cpp:408-490 | every finished run with a chunk size leaves a multiple of 2^32 bytes behind, and all files can be restored if and only if that is 0 |
| PipelineRuns.SlotsBounded | FMS/FileStorage.cpp:231 | the metadata of a file never has more blocks than the file |
| PipelineRuns.VectorsHold | FMS/FileStorage.cpp:231-239 | a vector has moved more than once exactly when it has more blocks than its first allocation holds |
| PipelineRuns.NeverUndefined | FMS/FileStorage.cpp:234-304 | if no file has more blocks than that, no pointer into a vector is used after the vector moved |
| PipelineRuns.Advances | FMS/FileStorage.cpp:165-187 | until all is finished, the main thread or a worker can always make a step |
| PipelineRuns.Drain | FMS/FileStorage.cpp:472-482 | any run can be continued, with the compressor as given, until all jobs are done, whatever the writer does |
| PipelineRuns.NothingWritten | FMS/FileStorage.cpp:408-490 | some run finishes all jobs before the writer does anything, and then everything, compressed, is collected |
| PipelineRuns.WriterMayLeave | FMS/FileStorage.cpp:267-271 | without a chunk size, the default, some run loses every block: it comes to its end with nothing written, as the writer leaves before the first part file is open |
| PipelineRuns.LeavesBehind | FMS/FileStorage.cpp:260-265 | whenever all is finished and the writer holds a positive multiple of 2^32 bytes, it can leave, and the archive is not right |
| PipelineRuns.CounterMayWrap | FMS/FileStorage.cpp:232-265 | if the compressed blocks add up to a multiple of 2^32 bytes and a file is not empty, some run loses data |
| PipelineRuns.Finish | FMS/FileStorage.cpp:260-312 | when all jobs are done and no pointer is stale, the writer can write what it finds, unless its counter shows 0, and the archive can be closed |
| PipelineRuns.RunsEnd | FMS/FileStorage.cpp:408-490 | with a chunk size and no file of more blocks than the first allocation holds, every run can be continued to its end |
| PipelineRuns.SomeRunRestores | FMS/FileStorage.cpp:408-490 | if no file has more blocks than that, and the compressed size is not a multiple of 2^32, some run comes to its end with every file restored |
| PipelineRuns.PointerMayDangle | FMS/FileStorage.cpp:234-304 | if a file has more blocks than the first allocation of its vector holds, some run uses a pointer into where the vector was, or loses data to the counter; archives of any size |
| PipelineRuns.RunIsCorrect | FMS/FileStorage.cpp:408-490 | if a chunk size is set, and no file has more blocks than the first allocation holds, a run is right that leaves less than 2^32 bytes behind |
| PipelineRuns.CorrectOnlyIf | FMS/FileStorage.cpp:408-490 | for archives of any size: if every run is right, there is nothing to archive, or a chunk size is set, no file has more blocks than the first allocation holds, and the compressed size is not a multiple of 2^32 |
| PipelineRuns.CorrectExactly | FMS/FileStorage.cpp:408-490 | below 2^32 bytes, compressed: the archive is right after every run if and only if there is nothing to archive, or a chunk size is set and no file has more blocks than the first allocation holds |
| PipelineCollections.NumbersDiffer | FMS/FileStorage.cpp:116-240 | no block is in the metadata of its file twice |
| PipelineCollections.CollectedIsCollection | FMS/FileStorage.cpp:228-240 | what the writer has collected are blocks of the archive, each once, and its size is the sum of theirs, compressed |
| PipelineCollections.CounterTellsTruth | FMS/FileStorage.cpp:232-265 | if no blocks of the archive add up to a multiple of 2^32 bytes, the counter is 0 exactly if nothing is collected, in every state of every run |
| PipelineCollections.LargeCorrectExactly | FMS/FileStorage.cpp:408-490 | then, for archives of any size, the archive is right after every run if and only if there is nothing to archive, or a chunk size is set and no file has more blocks than the first allocation holds |
| Archive.SplitFile | FMS/FileStorage.cpp:114-153 | the loop over a file makes the jobs of its blocks, in order |
| Archive.CompressJob | FMS/FileStorage.cpp:188-229 | the compression cannot fail, as its buffer is the bound of a block; it gives some compressed form of the data whose literals have no match with the candidates of level 9, encrypted |
| Archive.CompressIsStep | FMS/FileStorage.cpp:188-229 | that is a step of the model, with a compressor that gives this form for this data |
| Archive.PartWriter.WriteChunk | FMS/FileStorage.cpp:273-308 | the loop of the writer writes what the model's step says |
| Archive.OpenBlock | FMS/FileStorage.cpp:579-620 | one block read, decrypted and decompressed: success means the text the bytes stand for, and a good record always succeeds |
| Archive.OpenFile | FMS/FileStorage.cpp:548-626 | an unknown name is refused; success means all blocks in order, and good records always succeed |
| Archive.OpenArchived | FMS/FileStorage.cpp:497-693 | if every block is on disk, index written, read and sorted by any sorting routine, opening a file gives its bytes |
| Archive.ArchiveRoundTrip | FMS/FileStorage.cpp:408-693 | for every finished run of the threads with a chunk size that leaves less than 2^32 bytes behind, every file that went in, of any number of blocks, comes out again byte for byte |
| Archive.SmallArchive | FMS/FileStorage.cpp:232-312 | every run of an archive of less than 2^32 bytes, compressed, is of that kind |

## Left out

- DecoderApi.DecompressSafePartial: of a block that cannot be read, or has a distance 0, a partial decoding may leave some text; only that it stays in its buffer is said.  Which blocks a partial decoding accepts beyond those within the conditions is not said, nor how much it leaves of a block cut short.  The same holds for DecoderApi.DecompressSafePartialUsingDict.
- DecoderApi.DecompressGeneric: the error code is a negative number without a meaning beyond that.
- BlockFormat.Decode: under Strict, the end-of-block conditions ask for a zero match length in the last token, as the compressors write it. The decoder ignores it when there is room in the output, so a block with another value there is outside of what Strict promises; DecoderApi.FullDecoding says which of these are accepted, and Lenient what they decode to.
- HcSearch.HcContext.Search: with pattern analysis, where the 4 bytes at the position are equal, only the nearest position of the same hash is covered for sure; with chain swap and fewer attempts than the window has positions, too.  With favorDecSpeed nothing is said about distances below 8, which it passes over.
- PipelineRuns.CorrectExactly: is about archives of less than 2^32 bytes, compressed; for larger ones PipelineRuns.CorrectOnlyIf says what is necessary, and PipelineCollections.LargeCorrectExactly what is exact when no blocks add up to a multiple of 2^32 bytes.  If some do, but not all, it depends on the number of threads and on the chunk size whether a run can come to its end with just these collected; that is not said, and PipelineRuns.FinishedRunExactly judges each run.
- Archive.ArchiveRoundTrip: takes file names to be different, as files of the same name in different directories replace each other in the map; CompressDirectory's walk over directories, file streams and their errors are left out.
- ArchiveIndex.ReadIndex: reports an error for an index file that ends early or was not written by CompressAll, where the code goes on with what it has.
- Streaming compression and decompression, dictionaries on the side of the compressors, states used again without a reset, `LZ4_renormDictT`, and `LZ4_decoderRingBufferSize`.
- `LZ4_decompress_fast` and `LZ4_decompress_unsafe_generic`, which trust their input.
- The table of pointers of the fast compressor, which 64-bit builds do not use, and big-endian or 32-bit variants.
- Wrap-around of pointers at the end of the address space, and lengths beyond an `int`.
- Output buffers larger than the capacity given: the arrays here have exactly the capacity, so that a write behind it cannot go unnoticed.
- Compression ratio and speed: what is proved of the compressors, beyond that a block is right, is which positions they may leave as literals, and that they use up the room of a full output.  Nothing is said about how they choose among several matches, about positions that levels 1 and 2 and the fast compressor pass over or that levels 10 to 12 leave within 4096 bytes behind a match, about the long hash of levels 1 and 2, and about speed.
- The single-threaded way of FileStorage, which never sets the block number that the index is sorted by, and its 4-byte size field.
- Failures of compression, encryption or file access in a thread, and development mode.
- Wake-ups lost because flags are set outside the mutexes: a step of the model may happen whenever its condition holds.
- The inside of AES and the random numbers; the cipher is any function.
