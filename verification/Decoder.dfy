/** LZ4_decompress_generic for full blocks, in all its dictionary modes: the fast loop, the
    shortcut and the safe loop, which jump into each other.

    A position in the C function that can be jumped to is a `Label`, holding the local variables
    that are live there.  Each step below runs from one label to the next, over-writing as the
    C code does, and is proved to agree with what the block format says remains to be decoded. */
module Decoder {
  import opened Bytes
  import opened BlockFormat
  import opened Copies

  const FASTLOOP_SAFE_DISTANCE := 64
  const MATCH_SAFEGUARD_DISTANCE := 12

  datatype Dict = NoDict | WithPrefix64k | UsingExtDict

  datatype Label =
    | FastLoop(ip: int, op: int)
    | SafeLoop(ip: int, op: int)
    | LiteralCopy(ip: int, op: int, length: nat, nibble: nat)
    | Offset(ip: int, op: int, nibble: nat)
    | CopyMatch(ip: int, op: int, offset: nat, nibble: nat)
    | MatchCopy(ip: int, op: int, offset: nat, length: nat)
    | Decoded(ip: int, op: int)
    | Stopped(ip: int, op: int)
    | OutputError(ip: int, op: int)

  /** What the format says the rest of the block decodes to, from a label on. */
  function Rest(src: seq<byte>, l: Label, text: seq<byte>, rules: Rules): Option<seq<byte>>
    requires 0 <= l.ip
  {
    match l
    case FastLoop(ip, _) => Decode(src, ip, text, rules)
    case SafeLoop(ip, _) => Decode(src, ip, text, rules)
    case LiteralCopy(ip, _, length, nibble) => DecodeLiterals(src, ip, text, length, nibble, rules)
    case Offset(ip, _, nibble) => DecodeOffset(src, ip, text, nibble, rules)
    case CopyMatch(ip, _, offset, nibble) => DecodeMatchLength(src, ip, text, offset, nibble, rules)
    case MatchCopy(ip, _, offset, length) => DecodeMatch(src, ip, text, offset, length, rules)
    case Decoded(_, _) => Some(text)
    case Stopped(_, _) => None
    case OutputError(_, _) => None
  }

  /** A block, how long history and text may be for the end-of-block conditions, and how long they can be
      in the buffer.  A partial decoding may be given less or more than the `full` block: the beginning
      of it, or something else behind it. */
  datatype Stream = Stream(src: seq<byte>, full: seq<byte>, limit: int, room: int)

  /** The full block obeys the end-of-block conditions, and what stands behind it is not reached, because
      its text fills the buffer. */
  ghost predicate Counts(z: Stream, l: Label, text: seq<byte>)
    requires 0 <= l.ip
  {
    && z.full <= z.src && Rest(z.full, l, text, Strict(z.limit)).Some?
    && (z.full == z.src || z.room <= |Rest(z.full, l, text, Strict(z.limit)).value|)
  }

  /** The full block can be read, of which this is the beginning. */
  ghost predicate Reads(z: Stream, l: Label, text: seq<byte>)
    requires 0 <= l.ip
  {
    z.src <= z.full && Rest(z.full, l, text, Plain).Some?
  }

  /** Going from `l` to `l'` loses nothing: unless an error is reported the same text results,
      and a block within the end-of-block conditions is carried on with. */
  ghost predicate Agrees(z: Stream, l: Label, text: seq<byte>, l': Label, text': seq<byte>)
  {
    && 0 <= l.ip && 0 <= l'.ip
    && (!l'.OutputError? ==> Rest(z.src, l', text', Lenient) == Rest(z.src, l, text, Lenient))
    && (!l'.OutputError? && Reads(z, l, text) ==> Rest(z.full, l', text', Plain) == Rest(z.full, l, text, Plain))
    && (Counts(z, l, text) ==>
          Rest(z.full, l', text', Strict(z.limit)) == Rest(z.full, l, text, Strict(z.limit)))
  }

  lemma AgreesTwice(z: Stream, l: Label, t: seq<byte>, l': Label, t': seq<byte>, l'': Label, t'': seq<byte>)
    requires Agrees(z, l, t, l', t') && Agrees(z, l', t', l'', t'')
    requires l'.OutputError? ==> l''.OutputError?
    ensures Agrees(z, l, t, l'', t'')
  {
    hide Rest;
  }

  /** What a step promises.  When only a part of the text is wanted, decoding may stop with
      the output full and a beginning of the text in it, or at the end of what there is of the block. */
  ghost predicate Goes(z: Stream, l: Label, text: seq<byte>, l': Label, text': seq<byte>, partialDecoding: bool)
  {
    && 0 <= l.ip && 0 <= l'.ip
    && (!partialDecoding ==> !l'.Stopped? && Agrees(z, l, text, l', text'))
    && (Counts(z, l, text) ==>
          if l'.Stopped? then text' <= Rest(z.full, l, text, Strict(z.limit)).value
          else Rest(z.full, l', text', Strict(z.limit)) == Rest(z.full, l, text, Strict(z.limit)))
    && (!l'.OutputError? && Reads(z, l, text) ==>
          if l'.Stopped? || (l'.Decoded? && z.src != z.full) then text' <= Rest(z.full, l, text, Plain).value
          else Rest(z.full, l', text', Plain) == Rest(z.full, l, text, Plain))
  }

  lemma AgreesGoes(z: Stream, l: Label, text: seq<byte>, l': Label, text': seq<byte>, partialDecoding: bool)
    requires Agrees(z, l, text, l', text') && !l'.Stopped? && (l'.Decoded? ==> z.src == z.full)
    ensures Goes(z, l, text, l', text', partialDecoding)
  {
    hide Rest;
  }

  lemma GoesTwice(z: Stream, l: Label, t: seq<byte>, l': Label, t': seq<byte>, l'': Label, t'': seq<byte>, p: bool)
    requires Goes(z, l, t, l', t', p) && Goes(z, l', t', l'', t'', p)
    requires !Final(l')
    ensures Goes(z, l, t, l'', t'', p)
  {
    hide Rest, Counts, Reads, Agrees;
    if Counts(z, l, t) { CountsOn(z, l, t, l', t'); }
    if Reads(z, l, t) && !l''.OutputError? { ReadsOn(z, l, t, l', t'); }
    if !p { AgreesTwice(z, l, t, l', t', l'', t''); }
  }

  lemma CountsOn(z: Stream, l: Label, t: seq<byte>, l': Label, t': seq<byte>)
    requires 0 <= l.ip && 0 <= l'.ip && Counts(z, l, t)
    requires Rest(z.full, l', t', Strict(z.limit)) == Rest(z.full, l, t, Strict(z.limit))
    ensures Counts(z, l', t')
  {
    hide Rest;
  }

  lemma ReadsOn(z: Stream, l: Label, t: seq<byte>, l': Label, t': seq<byte>)
    requires 0 <= l.ip && 0 <= l'.ip && Reads(z, l, t)
    requires Rest(z.full, l', t', Plain) == Rest(z.full, l, t, Plain)
    ensures Reads(z, l', t')
  {
    hide Rest;
  }

  /** Labels where decoding has ended. */
  predicate Final(l: Label)
  {
    l.Decoded? || l.Stopped? || l.OutputError?
  }

  /** Within one position of the block, labels are passed in this order. */
  function Rank(l: Label): nat
  {
    match l
    case LiteralCopy(_, _, _, _) => 5
    case Offset(_, _, _) => 4
    case CopyMatch(_, _, _, _) => 3
    case MatchCopy(_, _, _, _) => 2
    case FastLoop(_, _) => 1
    case SafeLoop(_, _) => 1
    case _ => 0
  }

  /** The text so far is the beginning of what a block decodes to. */
  lemma {:induction false} TextIsPrefix(src: seq<byte>, i: nat, text: seq<byte>, rules: Rules)
    requires Decode(src, i, text, rules).Some?
    ensures text <= Decode(src, i, text, rules).value
    decreases |src| - i
  {
    var (ll, j) := if src[i] / 16 != RUN_MASK then (src[i] / 16, i + 1)
      else (RUN_MASK + ReadLength(src, i + 1).value.0, ReadLength(src, i + 1).value.1);
    TextIsPrefixLiterals(src, j, text, ll, src[i] % 16, rules);
  }

  lemma {:induction false} TextIsPrefixLiterals(src: seq<byte>, i: nat, text: seq<byte>, ll: nat, nibble: nat,
          rules: Rules)
    requires DecodeLiterals(src, i, text, ll, nibble, rules).Some?
    ensures text + src[i..i + ll] <= DecodeLiterals(src, i, text, ll, nibble, rules).value
    decreases |src| - i
  {
    if i + ll < |src| {
      var t, k := text + src[i..i + ll], i + ll + 2;
      assert DecodeOffset(src, i + ll, t, nibble, rules).Some?;
      var off := ReadLE16(src, i + ll);
      assert DecodeMatchLength(src, k, t, off, nibble, rules).Some?;
      var (len, m) := if nibble != ML_MASK then (nibble + MINMATCH, k)
        else (ML_MASK + ReadLength(src, k).value.0 + MINMATCH, ReadLength(src, k).value.1);
      assert DecodeMatch(src, m, t, off, len, rules).Some?;
      TextIsPrefix(src, m, Repeat(t, off, len), rules);
    }
  }

  lemma AgreesWithItself(z: Stream, l: Label, t: seq<byte>)
    requires 0 <= l.ip
    ensures Agrees(z, l, t, l, t)
  {
    hide Rest;
  }

  /** Both loops decode the same way. */
  lemma SameLoop(z: Stream, l: Label, t: seq<byte>, l': Label, t': seq<byte>)
    requires l'.SafeLoop? && Agrees(z, l, t, l', t')
    ensures Agrees(z, l, t, FastLoop(l'.ip, l'.op), t')
  {
    hide Decode;
  }

  // ---------- Lengths ----------

  /** read_variable_length: it gives up once it has read past `ilimit`. */
  method ReadVariableLength(src: seq<byte>, ip0: nat, ilimit: int, initialCheck: bool)
    returns (length: Option<nat>, ip: int)
    requires ilimit < |src| && (initialCheck || ip0 < |src|)
    ensures length.Some? <==> ReadLength(src, ip0).Some? && ReadLength(src, ip0).value.1 <= ilimit
    ensures length.Some? ==> ReadLength(src, ip0).value == (length.value, ip)
    ensures ip0 <= ip
  {
    ip := ip0;
    if initialCheck && ip >= ilimit {
      return None, ip;
    }
    var s := src[ip];
    ip := ip + 1;
    var n := s;
    if ip > ilimit { return None, ip; }
    if s != 255 { return Some(n), ip; }
    while true
      invariant ip0 < ip <= ilimit
      invariant ReadLength(src, ip0) == match ReadLength(src, ip)
                                        case None => None
                                        case Some((k, j)) => Some((n + k, j))
      decreases ilimit - ip
    {
      s := src[ip];
      ip := ip + 1;
      n := n + s;
      if ip > ilimit { return None, ip; }
      if s != 255 { break; }
    }
    return Some(n), ip;
  }

  // ---------- Which way decoding goes ----------

  /** The bounds of one call: the end of the output buffer, the start of the history kept in it,
      and how much external dictionary there is. */
  datatype Bounds = Bounds(size: nat, low: nat, extLen: nat, dict: Dict)

  /** What the code at a label reads without looking is in the block. */
  predicate InBlock(src: seq<byte>, l: Label)
  {
    && 0 <= l.ip
    && (l.FastLoop? || l.SafeLoop? || l.CopyMatch? || l.MatchCopy? ==> l.ip < |src|)
    && (l.Offset? ==> l.ip + 3 <= |src|)
  }

  /** Behind the token and the literal length. */
  function TokenLabel(src: seq<byte>, l: Label): (n: Label)
    requires (l.FastLoop? || l.SafeLoop?) && InBlock(src, l)
    ensures InBlock(src, n) && n.ip > l.ip && (n.LiteralCopy? || n.OutputError?)
  {
    if src[l.ip] / 16 != 15 then LiteralCopy(l.ip + 1, l.op, src[l.ip] / 16, src[l.ip] % 16)
    else match ReadLength(src, l.ip + 1)
      case None => OutputError(|src|, l.op)
      case Some((n, j)) =>
        if j > |src| - 15 then OutputError(j, l.op) else LiteralCopy(j, l.op, 15 + n, src[l.ip] % 16)
  }

  /** Behind the literals in the fast loop, or still in front of them. */
  function FastLiteralsLabel(src: seq<byte>, b: Bounds, l: Label): (n: Label)
    requires l.LiteralCopy? && InBlock(src, l)
    ensures InBlock(src, n) && n.ip >= l.ip && (n == l || n.Offset?)
  {
    var next := Offset(l.ip + l.length, l.op + l.length, l.nibble);
    if l.length >= 15 then
      if l.op + l.length > b.size - 32 || l.ip + l.length > |src| - 32 then l else next
    else if l.ip <= |src| - 17 then next else l
  }

  function OffsetLabel(src: seq<byte>, l: Label): (n: Label)
    requires l.Offset? && InBlock(src, l)
    ensures InBlock(src, n) && n.ip > l.ip && n.CopyMatch?
  {
    CopyMatch(l.ip + 2, l.op, ReadLE16(src, l.ip), l.nibble)
  }

  function LengthLabel(src: seq<byte>, l: Label): (n: Label)
    requires l.CopyMatch? && InBlock(src, l)
    ensures InBlock(src, n) && n.ip >= l.ip && (n.MatchCopy? || n.OutputError?)
  {
    if l.nibble != 15 then MatchCopy(l.ip, l.op, l.offset, l.nibble + 4)
    else match ReadLength(src, l.ip)
      case None => OutputError(|src|, l.op)
      case Some((n, j)) =>
        if j > |src| - 4 then OutputError(j, l.op) else MatchCopy(j, l.op, l.offset, 19 + n)
  }

  /** A distance that leaves the history is an error; a long enough history needs no test. */
  predicate TooFar(b: Bounds, l: Label)
    requires l.MatchCopy?
  {
    b.extLen < 0x1_0000 && l.op - l.offset + b.extLen < b.low
  }

  function FastMatchLabel(src: seq<byte>, b: Bounds, l: Label): (n: Label)
    requires l.MatchCopy? && InBlock(src, l)
    ensures InBlock(src, n) && n.ip == l.ip && (n == l || n.FastLoop? || n.OutputError?)
  {
    if l.op + l.length >= b.size - 64 then l
    else if l.length < 19 && (b.dict == WithPrefix64k || l.op - l.offset >= b.low) && l.offset >= 8 then
      FastLoop(l.ip, l.op + l.length)
    else if TooFar(b, l) then OutputError(l.ip, l.op)
    else FastLoop(l.ip, l.op + l.length)
  }

  /** One sequence of the fast loop, or as far as it gets. */
  function FastSequenceLabel(src: seq<byte>, b: Bounds, l: Label): (n: Label)
    requires l.FastLoop? && InBlock(src, l)
    ensures InBlock(src, n) && n.ip > l.ip
  {
    var m := TokenLabel(src, l);
    if m.OutputError? then m
    else
      var o := FastLiteralsLabel(src, b, m);
      if o.LiteralCopy? then o else FastRestLabel(src, b, o)
  }

  function FastRestLabel(src: seq<byte>, b: Bounds, l: Label): (n: Label)
    requires l.Offset? && InBlock(src, l)
    ensures InBlock(src, n) && n.ip > l.ip
  {
    var m := LengthLabel(src, OffsetLabel(src, l));
    if m.OutputError? then m else FastMatchLabel(src, b, m)
  }

  /** The shortcut is taken for short literals far enough from both ends; its second stage for
      short matches that do not overlap and lie in the buffer. */
  predicate TakesShortcut(src: seq<byte>, b: Bounds, l: Label)
    requires l.SafeLoop? && InBlock(src, l)
  {
    src[l.ip] / 16 != 15 && l.ip + 1 < |src| - 16 && l.op <= b.size - 32
  }

  function SafeTokenLabel(src: seq<byte>, b: Bounds, l: Label): (n: Label)
    requires l.SafeLoop? && InBlock(src, l)
    ensures InBlock(src, n) && n.ip > l.ip
  {
    if !TakesShortcut(src, b, l) then TokenLabel(src, l)
    else
      var length := src[l.ip] / 16;
      var m := OffsetLabel(src, Offset(l.ip + 1 + length, l.op + length, src[l.ip] % 16));
      if m.nibble != 15 && m.offset >= 8 && (b.dict == WithPrefix64k || m.op - m.offset >= b.low) then
        SafeLoop(m.ip, m.op + m.nibble + 4)
      else m
  }

  function SafeLiteralsLabel(src: seq<byte>, b: Bounds, l: Label): (n: Label)
    requires l.LiteralCopy? && InBlock(src, l)
    ensures InBlock(src, n) && n.ip >= l.ip && (n.Offset? || n.Decoded? || n.OutputError?)
  {
    var cpy := l.op + l.length;
    if cpy > b.size - 12 || l.ip + l.length > |src| - 8 then
      if l.ip + l.length != |src| || cpy > b.size then OutputError(l.ip, l.op) else Decoded(|src|, cpy)
    else Offset(l.ip + l.length, cpy, l.nibble)
  }

  function SafeMatchLabel(src: seq<byte>, b: Bounds, l: Label): (n: Label)
    requires l.MatchCopy? && InBlock(src, l)
    ensures InBlock(src, n) && n.ip == l.ip && (n.SafeLoop? || n.OutputError?)
  {
    if TooFar(b, l) || l.op + l.length > b.size - 5 then OutputError(l.ip, l.op)
    else SafeLoop(l.ip, l.op + l.length)
  }

  function NextLabel(src: seq<byte>, b: Bounds, l: Label): (n: Label)
    requires InBlock(src, l) && !Final(l)
    ensures InBlock(src, n) && (n.ip > l.ip || (n.ip == l.ip && Rank(n) < Rank(l)))
  {
    match l
    case FastLoop(_, _) => FastSequenceLabel(src, b, l)
    case SafeLoop(_, _) => SafeTokenLabel(src, b, l)
    case LiteralCopy(_, _, _, _) => SafeLiteralsLabel(src, b, l)
    case Offset(_, _, _) => OffsetLabel(src, l)
    case CopyMatch(_, _, _, _) => LengthLabel(src, l)
    case MatchCopy(_, _, _, _) => SafeMatchLabel(src, b, l)
  }

  /** Where a full decoding ends: it depends on the block and the bounds, not on what is decoded. */
  function Verdict(src: seq<byte>, b: Bounds, l: Label): Label
    requires InBlock(src, l)
    decreases |src| - l.ip, Rank(l)
  {
    if Final(l) || l.ip > |src| then l else Verdict(src, b, NextLabel(src, b, l))
  }

  /** The label `n`, but for what an error reports. */
  predicate Reaches(l: Label, n: Label)
  {
    if n.OutputError? then l.OutputError? else l == n
  }

  lemma VerdictStep(src: seq<byte>, b: Bounds, l: Label, l': Label)
    requires InBlock(src, l) && InBlock(src, l') && !Final(l) && l.ip <= |src| && Reaches(l', NextLabel(src, b, l))
    ensures Reaches(Verdict(src, b, l'), Verdict(src, b, l))
  {
    hide NextLabel;
  }

  lemma VerdictFinal(src: seq<byte>, b: Bounds, l: Label)
    requires InBlock(src, l) && Final(l)
    ensures Verdict(src, b, l) == l
  {
  }

  // ---------- What the format says about each step ----------

  /** A length that can be read in the beginning of a block is the same in all of it. */
  lemma {:induction false} ReadLengthLonger(a: seq<byte>, b: seq<byte>, i: nat)
    requires a <= b && ReadLength(a, i).Some?
    ensures ReadLength(b, i) == ReadLength(a, i)
    decreases |a| - i
  {
    if a[i] == 255 { ReadLengthLonger(a, b, i + 1); }
  }

  /** What is read at `i`, in the full block or in what there is of it. */
  lemma SameLength(z: Stream, i: nat)
    requires (z.src <= z.full && ReadLength(z.src, i).Some?) || (z.full <= z.src && ReadLength(z.full, i).Some?)
    ensures ReadLength(z.full, i) == ReadLength(z.src, i)
  {
    if z.src <= z.full && ReadLength(z.src, i).Some? {
      ReadLengthLonger(z.src, z.full, i);
    } else {
      ReadLengthLonger(z.full, z.src, i);
    }
  }

  /** Reading a token whose literal length ends at `j`. */
  lemma TokenAgrees(z: Stream, l: Label, text: seq<byte>, j: int, length: nat)
    requires (l.FastLoop? || l.SafeLoop?) && 0 <= l.ip < |z.src|
    requires z.src[l.ip] / 16 != RUN_MASK ==> j == l.ip + 1 && length == z.src[l.ip] / 16
    requires z.src[l.ip] / 16 == RUN_MASK ==>
               length >= RUN_MASK && ReadLength(z.src, l.ip + 1) == Some((length - RUN_MASK, j))
    ensures Agrees(z, l, text, LiteralCopy(j, l.op, length, z.src[l.ip] % 16), text)
  {
    TokenRead(z.src, l, text, j, length, Lenient);
    if Reads(z, l, text) || Counts(z, l, text) {
      TokenInBlock(z, l, text);
      hide Rest, ReadLength;
      if z.src[l.ip] / 16 == RUN_MASK { SameLength(z, l.ip + 1); }
      TokenRead(z.full, l, text, j, length, Plain);
      TokenRead(z.full, l, text, j, length, Strict(z.limit));
    }
  }

  lemma TokenRead(src: seq<byte>, l: Label, text: seq<byte>, j: int, length: nat, rules: Rules)
    requires (l.FastLoop? || l.SafeLoop?) && 0 <= l.ip < |src|
    requires src[l.ip] / 16 != RUN_MASK ==> j == l.ip + 1 && length == src[l.ip] / 16
    requires src[l.ip] / 16 == RUN_MASK ==>
               length >= RUN_MASK && ReadLength(src, l.ip + 1) == Some((length - RUN_MASK, j))
    ensures Rest(src, LiteralCopy(j, l.op, length, src[l.ip] % 16), text, rules) == Rest(src, l, text, rules)
  {
    hide DecodeLiterals, ReadLength;
    DecodeToken(src, l.ip, text, rules);
  }

  /** A token of the full block is the one that is read. */
  lemma TokenInBlock(z: Stream, l: Label, text: seq<byte>)
    requires (l.FastLoop? || l.SafeLoop?) && 0 <= l.ip < |z.src| && (Reads(z, l, text) || Counts(z, l, text))
    ensures l.ip < |z.full| && z.full[l.ip] == z.src[l.ip]
    ensures z.src[l.ip] / 16 == RUN_MASK && z.full <= z.src ==> ReadLength(z.full, l.ip + 1).Some?
  {
    hide DecodeLiterals, ReadLength;
  }

  /** A literal length that runs into the last 15 bytes of the block fits no text. */
  lemma TokenFails(z: Stream, l: Label, text: seq<byte>, e: Label, text': seq<byte>)
    requires (l.FastLoop? || l.SafeLoop?) && 0 <= l.ip < |z.src| && e.OutputError? && 0 <= e.ip
    requires z.src[l.ip] / 16 == RUN_MASK
    requires ReadLength(z.src, l.ip + 1).None? || ReadLength(z.src, l.ip + 1).value.1 > |z.src| - RUN_MASK
    ensures Agrees(z, l, text, e, text')
  {
    if Counts(z, l, text) {
      TokenMustRead(z.src, z.full, l.ip, text, z.limit);
    }
  }

  lemma TokenMustRead(src: seq<byte>, full: seq<byte>, i: nat, text: seq<byte>, limit: int)
    requires full <= src && i < |src| && src[i] / 16 == RUN_MASK
    requires ReadLength(src, i + 1).None? || ReadLength(src, i + 1).value.1 > |src| - RUN_MASK
    ensures Decode(full, i, text, Strict(limit)).None?
  {
    if i < |full| {
      DecodeToken(full, i, text, Strict(limit));
      if ReadLength(full, i + 1).Some? {
        ReadLengthLonger(full, src, i + 1);
        hide ReadLength;
      }
    }
  }

  /** Behind a match that obeys the conditions, the rest of the block obeys them. */
  lemma NextToken(full: seq<byte>, l: Label, text: seq<byte>, limit: int)
    requires l.MatchCopy? && 0 <= l.ip && l.offset <= |text|
    ensures Rest(full, l, text, Strict(limit)).Some? ==>
              Decode(full, l.ip, Repeat(text, l.offset, l.length), Strict(limit)).Some?
  {
    hide Decode;
  }

  /** Literals with something behind them, that do not fill the buffer. */
  lemma LiteralsAgree(z: Stream, l: Label, text: seq<byte>)
    requires l.LiteralCopy? && 0 <= l.ip && l.ip + l.length < |z.src|
    requires z.full == z.src || |text| + l.length < z.room
    ensures Agrees(z, l, text, Offset(l.ip + l.length, l.op + l.length, l.nibble), text
        + z.src[l.ip..l.ip + l.length])
  {
    hide DecodeOffset;
    if Reads(z, l, text) || Counts(z, l, text) {
      assert l.ip + l.length < |z.full|;
      assert z.full[l.ip..l.ip + l.length] == z.src[l.ip..l.ip + l.length];
    }
  }

  /** Literals in the last 8 bytes, or too near the end of the text, must be the last. */
  lemma LiteralsMustEnd(src: seq<byte>, l: Label, text: seq<byte>, limit: int)
    requires l.LiteralCopy? && 0 <= l.ip && l.ip + l.length != |src|
    requires |text| + l.length > limit - MFLIMIT || l.ip + l.length > |src| - 8
    ensures Rest(src, l, text, Strict(limit)).None?
  {
    if l.ip + l.length < |src| {
      NoMatchNearEnd(src, l.ip + l.length, text + src[l.ip..l.ip + l.length], l.nibble, limit);
    }
  }

  lemma NoMatchNearEnd(src: seq<byte>, i: nat, text: seq<byte>, nibble: nat, limit: int)
    ensures i > |src| - 8 ==> DecodeOffset(src, i, text, nibble, Strict(limit)).None?
  {
    if |src| - 8 < i <= |src| - 2 {
      if nibble != ML_MASK {
        assert DecodeMatch(src, i + 2, text, ReadLE16(src, i), nibble + MINMATCH, Strict(limit)).None?;
      } else if ReadLength(src, i + 2).Some? {
        var (n, j) := ReadLength(src, i + 2).value;
        assert DecodeMatch(src, j, text, ReadLE16(src, i), ML_MASK + n + MINMATCH, Strict(limit)).None?;
      }
    }
  }

  lemma LiteralsFail(z: Stream, l: Label, text: seq<byte>, e: Label, text': seq<byte>)
    requires l.LiteralCopy? && 0 <= l.ip && e.OutputError? && 0 <= e.ip && z.full == z.src
    requires |text| + l.length > z.limit - MFLIMIT || l.ip + l.length > |z.src| - 8
    requires l.ip + l.length != |z.src| || |text| + l.length > z.limit
    ensures Agrees(z, l, text, e, text')
  {
    if l.ip + l.length != |z.src| {
      LiteralsMustEnd(z.src, l, text, z.limit);
    }
  }

  /** Literals up to the end of the block are its end. */
  lemma LastLiteralsAgree(z: Stream, l: Label, text: seq<byte>)
    requires l.LiteralCopy? && 0 <= l.ip && l.ip + l.length == |z.src| && z.full == z.src
    ensures Agrees(z, l, text, Decoded(|z.src|, l.op + l.length), text + z.src[l.ip..])
  {
  }

  /** The first literals are the beginning of the rest. */
  lemma LiteralsBegun(src: seq<byte>, l: Label, text: seq<byte>, n: nat, rules: Rules)
    requires l.LiteralCopy? && 0 <= l.ip && n <= l.length && l.ip + n <= |src|
    ensures Rest(src, l, text, rules).Some? ==>
              && l.ip + l.length <= |src|
              && text + src[l.ip..l.ip + n] <= Rest(src, l, text, rules).value
              && (n == l.length && l.ip + n == |src| ==>
                    Rest(src, Decoded(l.ip + n, l.op + n), text + src[l.ip..l.ip + n], rules)
                    == Rest(src, l, text, rules))
              && (n == l.length && l.ip + n < |src| ==>
                    && l.ip + n + 3 <= |src|
                    && Rest(src, Offset(l.ip + n, l.op + n, l.nibble), text + src[l.ip..l.ip + n], rules)
                       == Rest(src, l, text, rules))
  {
    hide DecodeOffset, Decode;
    if Rest(src, l, text, rules).Some? {
      TextIsPrefixLiterals(src, l.ip, text, l.length, l.nibble, rules);
      assert src[l.ip..l.ip + n] <= src[l.ip..l.ip + l.length];
      assert l.ip + n == |src| ==> src[l.ip..l.ip + n] == src[l.ip..];
      OffsetNeeds(src, l.ip + l.length, text + src[l.ip..Min(l.ip + l.length, |src|)], l.nibble, rules);
    }
  }

  lemma LiteralsInside(full: seq<byte>, l: Label, text: seq<byte>, limit: int)
    requires l.LiteralCopy? && 0 <= l.ip && Rest(full, l, text, Strict(limit)).Some?
    ensures l.ip + l.length <= |full|
  {
  }

  /** Behind a distance there is another token. */
  lemma OffsetNeeds(src: seq<byte>, i: nat, text: seq<byte>, nibble: nat, rules: Rules)
    ensures DecodeOffset(src, i, text, nibble, rules).Some? ==> i + 3 <= |src|
  {
    if DecodeOffset(src, i, text, nibble, rules).Some? {
      var off := ReadLE16(src, i);
      assert DecodeMatchLength(src, i + 2, text, off, nibble, rules).Some?;
      var (len, j) := if nibble != ML_MASK then (nibble + MINMATCH, i + 2)
        else (ML_MASK + ReadLength(src, i + 2).value.0 + MINMATCH, ReadLength(src, i + 2).value.1);
      assert DecodeMatch(src, j, text, off, len, rules).Some?;
      NextTokenInside(src, j, text, off, len, rules);
    }
  }

  lemma NextTokenInside(src: seq<byte>, i: nat, text: seq<byte>, off: nat, len: nat, rules: Rules)
    requires DecodeMatch(src, i, text, off, len, rules).Some?
    ensures i < |src|
  {
    assert Decode(src, i, Repeat(text, off, len), rules).Some?;
  }

  lemma OffsetAgrees(z: Stream, l: Label, text: seq<byte>)
    requires l.Offset? && 0 <= l.ip && l.ip + 2 <= |z.src|
    ensures Agrees(z, l, text, CopyMatch(l.ip + 2, l.op, ReadLE16(z.src, l.ip), l.nibble), text)
  {
    hide DecodeMatchLength;
  }

  lemma MatchLengthAgrees(z: Stream, l: Label, text: seq<byte>, j: int, length: nat)
    requires l.CopyMatch? && 0 <= l.ip
    requires l.nibble != ML_MASK ==> j == l.ip && length == l.nibble + MINMATCH
    requires l.nibble == ML_MASK ==>
               length >= ML_MASK + MINMATCH && ReadLength(z.src, l.ip) == Some((length - ML_MASK - MINMATCH, j))
    ensures Agrees(z, l, text, MatchCopy(j, l.op, l.offset, length), text)
  {
    hide DecodeMatch, ReadLength;
    if l.nibble == ML_MASK && (Reads(z, l, text) || Counts(z, l, text)) { SameLength(z, l.ip); }
  }

  lemma MatchLengthFails(z: Stream, l: Label, text: seq<byte>, e: Label, text': seq<byte>)
    requires l.CopyMatch? && 0 <= l.ip && e.OutputError? && 0 <= e.ip
    requires l.nibble == ML_MASK
    requires ReadLength(z.src, l.ip).None? || ReadLength(z.src, l.ip).value.1 > |z.src| - LASTLITERALS + 1
    ensures Agrees(z, l, text, e, text')
  {
    hide ReadLength, Decode;
    if Counts(z, l, text) {
      SameLength(z, l.ip);
      LengthTooLate(z.full, l.ip, text, l.offset, z.limit);
    }
  }

  lemma LengthTooLate(src: seq<byte>, i: nat, text: seq<byte>, off: nat, limit: int)
    ensures ReadLength(src, i).None? || ReadLength(src, i).value.1 > |src| - 4 ==>
              DecodeMatchLength(src, i, text, off, ML_MASK, Strict(limit)).None?
  {
    hide ReadLength, Decode;
    if ReadLength(src, i).Some? && ReadLength(src, i).value.1 > |src| - 4 {
      var (n, j) := ReadLength(src, i).value;
      assert DecodeMatch(src, j, text, off, 19 + n, Strict(limit)).None?;
    }
  }

  lemma MatchAgrees(z: Stream, l: Label, text: seq<byte>, next: Label)
    requires l.MatchCopy? && 0 <= l.ip && l.offset <= |text|
    requires (next.FastLoop? || next.SafeLoop?) && next.ip == l.ip
    ensures Agrees(z, l, text, next, Repeat(text, l.offset, l.length))
  {
    hide Decode, Repeat;
  }

  /** The beginning of a match is the beginning of the rest. */
  lemma MatchBegun(src: seq<byte>, l: Label, text: seq<byte>, n: nat, rules: Rules)
    requires l.MatchCopy? && 0 <= l.ip && l.offset <= |text| && n <= l.length
    ensures Rest(src, l, text, rules).Some? ==>
              && Repeat(text, l.offset, n) <= Rest(src, l, text, rules).value
              && (n == l.length ==>
                   Rest(src, SafeLoop(l.ip, l.op + n), Repeat(text, l.offset, n), rules)
                       == Rest(src, l, text, rules))
  {
    hide Decode;
    if Rest(src, l, text, rules).Some? {
      TextIsPrefix(src, l.ip, Repeat(text, l.offset, l.length), rules);
      RepeatSplit(text, l.offset, n, l.length - n);
    }
  }

  /** Distances outside the history, distance 0 and matches that reach the last 5 bytes are refused. */
  lemma MatchFails(z: Stream, l: Label, text: seq<byte>, e: Label, text': seq<byte>)
    requires l.MatchCopy? && 0 <= l.ip && e.OutputError? && 0 <= e.ip
    requires l.offset == 0 || l.offset > |text| || |text| + l.length > z.limit - LASTLITERALS
    ensures Rest(z.full, l, text, Strict(z.limit)).None? && (l.offset == 0 ==> Rest(z.full, l, text, Plain).None?)
    ensures Agrees(z, l, text, e, text')
  {
  }

  // ---------- How the text grows ----------

  /** The history in front of the output is an external dictionary, then what stands in the
      output buffer from `low` on. */
  function View(ext: seq<byte>, d: seq<byte>, low: nat, op: int): (v: seq<byte>)
    requires low <= op <= |d|
    ensures |v| == |ext| + op - low
  {
    ext + d[low..op]
  }

  lemma ViewLiterals(ext: seq<byte>, d: seq<byte>, d': seq<byte>, low: nat, op: int, lit: seq<byte>)
    requires low <= op && op <= |d| && op + |lit| <= |d'|
    requires d[..op] == d'[..op] && d'[op..op + |lit|] == lit
    ensures View(ext, d', low, op + |lit|) == View(ext, d, low, op) + lit
  {
    assert d'[low..op + |lit|] == d'[..op][low..] + d'[op..op + |lit|];
    assert d[low..op] == d[..op][low..];
  }

  lemma PartOfStripe(d: seq<byte>, op: int, src: seq<byte>, ip: int, n: nat, m: nat)
    requires 0 <= op && op + n <= |d| && 0 <= ip && ip + n <= |src| && m <= n
    requires d[op..op + n] == src[ip..ip + n]
    ensures d[op..op + m] == src[ip..ip + m]
  {
    assert d[op..op + m] == d[op..op + n][..m] && src[ip..ip + m] == src[ip..ip + n][..m];
  }

  /** A match inside the buffer. */
  lemma ViewMatch(ext: seq<byte>, d: seq<byte>, d': seq<byte>, low: nat, op: int, off: nat, len: nat)
    requires low + off <= op <= |d| && op + len <= |d'|
    requires d[..op] == d'[..op] && Periodic(d', op, op + len, off)
    ensures View(ext, d', low, op + len) == Repeat(View(ext, d, low, op), off, len)
  {
    var r, shift := View(ext, d', low, op + len), |ext| - low;
    var m := op + shift;
    forall k | m <= k < m + len ensures Copied(r, off, k) {
      assert Copied(d', off, k - shift);
    }
    assert d[low..op] == d[..op][low..] == d'[..op][low..];
    assert r[..m] == View(ext, d, low, op);
    PeriodicIsRepeat(r, m, off, len);
    assert r[..m + len] == r;
  }

  /** Copied literals take the decoder on to the match. */
  lemma LiteralsCopied(z: Stream, ext: seq<byte>, d: seq<byte>, d': seq<byte>, low: nat, l: Label)
    requires l.LiteralCopy? && 0 <= l.ip && l.ip + l.length < |z.src|
    requires low <= l.op <= |d| && l.op + l.length <= |d'|
    requires z.full == z.src || |ext| + l.op - low + l.length < z.room
    requires d[..l.op] == d'[..l.op] && d'[l.op..l.op + l.length] == z.src[l.ip..l.ip + l.length]
    ensures Agrees(z, l, View(ext, d, low, l.op),
                   Offset(l.ip + l.length, l.op + l.length, l.nibble), View(ext, d', low, l.op + l.length))
  {
    hide Rest, Agrees, View;
    var lit := z.src[l.ip..l.ip + l.length];
    ViewLiterals(ext, d, d', low, l.op, lit);
    LiteralsAgree(z, l, View(ext, d, low, l.op));
  }

  /** A match copied inside the buffer takes the decoder on to the next token. */
  lemma MatchCopied(z: Stream, ext: seq<byte>, d: seq<byte>, d': seq<byte>, low: nat, l: Label, next: Label)
    requires l.MatchCopy? && 0 <= l.ip
    requires low + l.offset <= l.op <= |d| && l.op + l.length <= |d'|
    requires d[..l.op] == d'[..l.op] && Periodic(d', l.op, l.op + l.length, l.offset)
    requires (next.FastLoop? || next.SafeLoop?) && next.ip == l.ip
    ensures Agrees(z, l, View(ext, d, low, l.op), next, View(ext, d', low, l.op + l.length))
  {
    hide Rest, Agrees;
    ViewMatch(ext, d, d', low, l.op, l.offset, l.length);
    MatchAgrees(z, l, View(ext, d, low, l.op), next);
  }

  lemma OneByteMore(text: seq<byte>, i: nat, n: nat)
    requires n >= 1 && i + n <= |text|
    ensures (text + text[i..i + n - 1]) + [text[i + n - 1]] == text + text[i..i + n]
  {
    assert text[i..i + n] == text[i..i + n - 1] + [text[i + n - 1]];
  }

  lemma {:induction false} RepeatFromHistory(text: seq<byte>, off: nat, n: nat)
    requires 0 < off <= |text| && n <= off
    ensures Repeat(text, off, n) == text + text[|text| - off..|text| - off + n]
  {
    if n > 0 {
      RepeatFromHistory(text, off, n - 1);
      var i, prev := |text| - off, Repeat(text, off, n - 1);
      assert |prev| - off == i + n - 1 < |text| && prev[..|text|] == text;
      assert prev[|prev| - off] == prev[..|text|][i + n - 1];
      OneByteMore(text, i, n);
    }
  }

  /** The part of a match that lies in the external dictionary. */
  lemma ViewDictionary(ext: seq<byte>, d: seq<byte>, d': seq<byte>, low: nat, op: int, off: nat, n: nat)
    requires low <= op <= |d| && op + n <= |d'|
    requires op - low < off <= |ext| + op - low && n <= off - (op - low)
    requires d[..op] == d'[..op]
    requires d'[op..op + n] == ext[|ext| - (off - (op - low))..][..n]
    ensures View(ext, d', low, op + n) == Repeat(View(ext, d, low, op), off, n)
  {
    var text, s := View(ext, d, low, op), ext[|ext| - (off - (op - low))..][..n];
    ViewLiterals(ext, d, d', low, op, s);
    RepeatFromHistory(text, off, n);
    assert text[|text| - off..|text| - off + n] == s;
  }

  // ---------- The steps ----------

  /** What does not change during one call: the block, the output buffer from the start of the
      history kept in it, and the external dictionary. */
  class BlockDecoder {
    const src: seq<byte>
    const dst: array<byte>
    const low: nat        // lowPrefix
    const ext: seq<byte>  // the external dictionary
    const dict: Dict
    const partialDecoding: bool
    ghost const z: Stream  // the block, which is all of `src` unless a part is decoded

    constructor (src: seq<byte>, dst: array<byte>, low: nat, ext: seq<byte>, dict: Dict, partialDecoding: bool,
            ghost z: Stream)
      requires low <= dst.Length && |src| > 0
      requires dict != UsingExtDict ==> ext == []
      ensures this.src == src && this.dst == dst && this.low == low && this.ext == ext && this.dict == dict
      ensures this.partialDecoding == partialDecoding && this.z == z
    {
      this.src, this.dst, this.low, this.ext, this.dict := src, dst, low, ext, dict;
      this.partialDecoding, this.z := partialDecoding, z;
    }

    function Here(): Bounds
    {
      Bounds(dst.Length, low, |ext|, dict)
    }

    /** History and output up to `op`. */
    ghost function Now(op: int): seq<byte>
      requires low <= op <= dst.Length
      reads dst
    {
      View(ext, dst[..], low, op)
    }

    /** In the 64 KB prefix mode no distance reaches below the history. */
    ghost predicate Valid(op: int)
    {
      && low <= op <= dst.Length
      && |src| > 0
      && (dict != UsingExtDict ==> ext == [])
      && (dict == WithPrefix64k ==> op - low >= DISTANCE_MAX)
      && z.src == src && z.room == |ext| + dst.Length - low && (z.src <= z.full || z.full <= z.src)
      && (!partialDecoding ==> z.full == src && z.limit == z.room)
    }

    /** Room for what the code at a label reads and writes without looking. */
    ghost predicate Room(l: Label)
    {
      && Valid(l.op)
      && 0 <= l.ip
      && (l.Stopped? ==> partialDecoding && l.op == dst.Length)
      && (l.FastLoop? ==> l.ip < |src| && l.op + FASTLOOP_SAFE_DISTANCE <= dst.Length)
      && (l.SafeLoop? ==> l.ip < |src|)
      && (l.LiteralCopy? ==> l.ip <= |src|)
      && (l.Offset? ==> l.ip + 3 <= |src|)
      && (l.CopyMatch? ==> l.ip < |src| && l.offset <= DISTANCE_MAX)
      && (l.MatchCopy? ==> l.ip < |src| && l.offset <= DISTANCE_MAX && l.length >= MINMATCH)
      && (!partialDecoding && (l.Offset? || l.CopyMatch? || l.MatchCopy?) ==> l.op + MFLIMIT <= dst.Length)
    }

    /** The token and the literal length, as both loops read them. */
    method LiteralLength(l: Label) returns (l': Label)
      requires (l.FastLoop? || l.SafeLoop?) && Room(l)
      ensures Room(l') && l'.ip > l.ip && l'.op == l.op && (l'.LiteralCopy? || l'.OutputError?)
      ensures l'.LiteralCopy? && l'.length < RUN_MASK ==> l'.ip == l.ip + 1
      ensures Reaches(l', TokenLabel(src, l))
      ensures Agrees(z, l, Now(l.op), l', Now(l.op))
    {
      hide Rest, Agrees, ReadLength, View;
      ghost var text := Now(l.op);
      var token, ip := src[l.ip], l.ip + 1;
      var length: nat := token / 16;
      if length == RUN_MASK {
        var addl;
        addl, ip := ReadVariableLength(src, ip, |src| - RUN_MASK, true);
        if addl.None? {
          l' := OutputError(ip, l.op);
          TokenFails(z, l, text, l', text);
          return;
        }
        length := length + addl.value;
      }
      l' := LiteralCopy(ip, l.op, length, token % 16);
      TokenAgrees(z, l, text, ip, length);
    }

    /** The literals of a sequence in the fast loop: whole stripes, unless that leads too near
        an end, which the safe loop then deals with. */
    method FastLiterals(l: Label) returns (l': Label)
      requires l.LiteralCopy? && Room(l) && l.op + FASTLOOP_SAFE_DISTANCE <= dst.Length
      modifies dst
      ensures Room(l') && l'.ip >= l.ip && l.op <= l'.op
      ensures l' == l || (l'.Offset? && l'.op + 32 <= dst.Length)
      ensures l' == FastLiteralsLabel(src, Here(), l)
      ensures dst[..l.op] == old(dst[..l.op])
      ensures Agrees(z, l, old(Now(l.op)), l', Now(l'.op))
    {
      hide Rest, View;
      ghost var d := dst[..];
      var ip, op, length := l.ip, l.op, l.length;
      if length >= RUN_MASK {
        if op + length > dst.Length - 32 || ip + length > |src| - 32 {
          return l;
        }
        WildCopyIn(dst, op, src, ip, op + length, 32);
      } else if ip <= |src| - 17 {
        CopyIn(dst, op, src, ip, 16);
        PartOfStripe(dst[..], op, src, ip, 16, length);
      } else {
        return l;
      }
      l' := Offset(ip + length, op + length, l.nibble);
      LiteralsCopied(z, ext, d, dst[..], low, l);
    }

    /** The match distance. */
    method MatchOffset(l: Label) returns (l': Label)
      requires l.Offset? && Room(l)
      ensures Room(l') && l'.CopyMatch? && l'.ip > l.ip && l'.op == l.op && l'.nibble == l.nibble
      ensures l' == OffsetLabel(src, l)
      ensures Agrees(z, l, Now(l.op), l', Now(l.op))
    {
      hide Rest, Agrees;
      l' := CopyMatch(l.ip + 2, l.op, ReadLE16(src, l.ip), l.nibble);
      OffsetAgrees(z, l, Now(l.op));
    }

    /** The match length. */
    method MatchLength(l: Label) returns (l': Label)
      requires l.CopyMatch? && Room(l)
      ensures Room(l') && l'.ip >= l.ip && l'.op == l.op && (l'.MatchCopy? || l'.OutputError?)
      ensures Reaches(l', LengthLabel(src, l))
      ensures Agrees(z, l, Now(l.op), l', Now(l.op))
    {
      hide Rest, Agrees, ReadLength;
      ghost var text := Now(l.op);
      var length, ip := l.nibble, l.ip;
      if length == ML_MASK {
        var addl;
        addl, ip := ReadVariableLength(src, ip, |src| - LASTLITERALS + 1, false);
        if addl.None? {
          l' := OutputError(ip, l.op);
          MatchLengthFails(z, l, text, l', text);
          return;
        }
        length := length + addl.value;
      }
      l' := MatchCopy(ip, l.op, l.offset, length + MINMATCH);
      MatchLengthAgrees(z, l, text, ip, length + MINMATCH);
    }

    /** A match in the fast loop: stripes of 18 or 32 bytes, or by its pattern when it is
        nearer than 16; matches that end near the end are left to the safe loop. */
    method FastMatch(l: Label) returns (l': Label)
      requires l.MatchCopy? && Room(l) && l.op + 32 <= dst.Length
      modifies dst
      ensures Room(l') && l'.ip == l.ip && l.op <= l'.op
      ensures l' == l || l'.FastLoop? || l'.OutputError?
      ensures Reaches(l', FastMatchLabel(src, Here(), l))
      ensures dst[..l.op] == old(dst[..l.op])
      ensures Agrees(z, l, old(Now(l.op)), l', Now(l'.op))
    {
      hide Rest, Agrees, View;
      ghost var d := dst[..];
      var op, offset, length := l.op, l.offset, l.length;
      if op + length >= dst.Length - FASTLOOP_SAFE_DISTANCE {
        AgreesWithItself(z, l, Now(op));
        return l;
      }
      l' := FastLoop(l.ip, op + length);
      if length < ML_MASK + MINMATCH && (dict == WithPrefix64k || op - offset >= low) && offset >= 8 {
        Copy18(dst, op, offset, length);
        MatchCopied(z, ext, d, dst[..], low, l, l');
        return;
      }
      if TooFar(Here(), l) {
        l' := OutputError(l.ip, op);
        MatchFails(z, l, Now(op), l', Now(op));
        return;
      }
      if dict == UsingExtDict && op - offset < low {
        var s := DictionaryMatch(l);
        if s.OutputError? { return s; }
        SameLoop(z, l, View(ext, d, low, op), s, Now(s.op));
        return;
      }
      if offset < 16 {
        CopyUsingOffset(dst, op, offset, op + length);
      } else {
        WildCopy32(dst, op, op - offset, op + length);
      }
      MatchCopied(z, ext, d, dst[..], low, l, l');
    }

    /** A match near the end of the output when only a part of the text is wanted. */
    method PartialMatch(l: Label) returns (l': Label)
      requires l.MatchCopy? && Room(l) && partialDecoding && l.op - l.offset >= low
      modifies dst
      ensures Room(l') && l'.ip == l.ip && l.op <= l'.op
      ensures l'.SafeLoop? || l'.OutputError? || l'.Stopped?
      ensures dst[..l.op] == old(dst[..l.op])
      ensures Goes(z, l, old(Now(l.op)), l', Now(l'.op), partialDecoding)
    {
      hide Rest, View;
      ghost var d, text := dst[..], Now(l.op);
      var mlen := Min(l.length, dst.Length - l.op);
      PartialCopy(dst, l.op, l.offset, mlen);
      l' := if l.op + mlen == dst.Length then Stopped(l.ip, l.op + mlen) else SafeLoop(l.ip, l.op + mlen);
      if l.offset == 0 {
        MatchFails(z, l, text, OutputError(l.ip, l.op), text);
      } else {
        ViewMatch(ext, d, dst[..], low, l.op, l.offset, mlen);
        MatchBegun(z.full, l, text, mlen, Plain);
        MatchBegun(z.full, l, text, mlen, Strict(z.limit));
      }
    }

    /** A match in the safe loop. */
    method SafeMatch(l: Label) returns (l': Label)
      requires l.MatchCopy? && Room(l)
      modifies dst
      ensures Room(l') && l'.ip >= l.ip && l.op <= l'.op
      ensures l'.SafeLoop? || l'.OutputError? || l'.Stopped?
      ensures l'.SafeLoop? ==> l'.ip == l.ip
      ensures !partialDecoding ==> Reaches(l', SafeMatchLabel(src, Here(), l))
      ensures dst[..l.op] == old(dst[..l.op])
      ensures Goes(z, l, old(Now(l.op)), l', Now(l'.op), partialDecoding)
    {
      hide Rest, Agrees, Goes, View;
      ghost var d, text := dst[..], Now(l.op);
      var op, cpy := l.op, l.op + l.length;
      if TooFar(Here(), l) {
        l' := OutputError(l.ip, op);
        MatchFails(z, l, text, l', text);
        AgreesGoes(z, l, text, l', text, partialDecoding);
        return;
      }
      if dict == UsingExtDict && op - l.offset < low {
        if partialDecoding && cpy > dst.Length - LASTLITERALS {
          l' := DictionaryPartial(l);
          return;
        }
        l' := DictionaryMatch(l);
        AgreesGoes(z, l, text, l', Now(l'.op), partialDecoding);
        return;
      }
      if partialDecoding && cpy > dst.Length - MATCH_SAFEGUARD_DISTANCE {
        l' := PartialMatch(l);
        return;
      }
      var match' := CopyHead(dst, op, l.offset);
      if cpy > dst.Length - MATCH_SAFEGUARD_DISTANCE {
        if cpy > dst.Length - LASTLITERALS {
          l' := OutputError(l.ip, op);
          MatchFails(z, l, text, l', Now(op));
          AgreesGoes(z, l, text, l', Now(op), partialDecoding);
          return;
        }
        CopyNearEnd(dst, op, match', l.offset, cpy);
      } else {
        CopyTail(dst, op, match', l.offset, cpy);
      }
      l' := SafeLoop(l.ip, cpy);
      MatchCopied(z, ext, d, dst[..], low, l, l');
      AgreesGoes(z, l, text, l', Now(cpy), partialDecoding);
    }

    /** The literals of a sequence in the safe loop. */
    method SafeLiterals(l: Label) returns (l': Label)
      requires l.LiteralCopy? && Room(l)
      modifies dst
      ensures Room(l') && l'.ip >= l.ip && l.op <= l'.op
      ensures l'.Offset? || l'.Decoded? || l'.OutputError? || l'.Stopped?
      ensures !partialDecoding ==> Reaches(l', SafeLiteralsLabel(src, Here(), l))
      ensures dst[..l.op] == old(dst[..l.op])
      ensures Goes(z, l, old(Now(l.op)), l', Now(l'.op), partialDecoding)
    {
      hide Rest, Agrees, Goes, View;
      ghost var d, text := dst[..], Now(l.op);
      var ip, cpy := l.ip, l.op + l.length;
      if cpy > dst.Length - MFLIMIT || ip + l.length > |src| - (2 + 1 + LASTLITERALS) {
        if partialDecoding {
          l' := PartialLiterals(l);
          return;
        }
        if ip + l.length != |src| || cpy > dst.Length {
          l' := OutputError(ip, l.op);
          LiteralsFail(z, l, text, l', text);
          AgreesGoes(z, l, text, l', text, partialDecoding);
          return;
        }
        CopyIn(dst, l.op, src, ip, l.length);
        assert src[ip..] == src[ip..ip + l.length];
        l' := Decoded(ip + l.length, cpy);
        ViewLiterals(ext, d, dst[..], low, l.op, src[ip..]);
        LastLiteralsAgree(z, l, text);
      } else {
        WildCopyIn(dst, l.op, src, ip, cpy, 8);
        l' := Offset(ip + l.length, cpy, l.nibble);
        LiteralsCopied(z, ext, d, dst[..], low, l);
      }
      AgreesGoes(z, l, text, l', Now(cpy), partialDecoding);
    }

    /** The first literals, in the full block. */
    lemma PartBegun(l: Label, text: seq<byte>, n: nat)
      requires l.LiteralCopy? && 0 <= l.ip && n <= l.length && l.ip + n <= |src|
      requires z.src == src && (z.src <= z.full || z.full <= z.src)
      ensures Reads(z, l, text) ==> Begun(l, text, n, Plain)
      ensures Counts(z, l, text) ==> Begun(l, text, n, Strict(z.limit))
    {
      hide Decode, DecodeOffset;
      if Reads(z, l, text) {
        LiteralsBegun(z.full, l, text, n, Plain);
        assert z.full[l.ip..l.ip + n] == src[l.ip..l.ip + n];
      }
      if Counts(z, l, text) {
        LiteralsInside(z.full, l, text, z.limit);
        LiteralsBegun(z.full, l, text, n, Strict(z.limit));
        assert z.full[l.ip..l.ip + n] == src[l.ip..l.ip + n];
      }
    }

    /** The literals copied are a beginning of the rest; behind all of them there is another sequence, or
        the end. */
    ghost predicate Begun(l: Label, text: seq<byte>, n: nat, rules: Rules)
      requires l.LiteralCopy? && 0 <= l.ip && n <= l.length && l.ip + n <= |src|
    {
      var text', whole := text + src[l.ip..l.ip + n], Rest(z.full, l, text, rules);
      && whole.Some? && l.ip + l.length <= |z.full| && text' <= whole.value
      && (n == l.length && l.ip + n == |z.full| ==> whole == Some(text'))
      && (n == l.length && l.ip + n < |z.full| ==>
            && l.ip + n + 3 <= |z.full|
            && Rest(z.full, Offset(l.ip + n, l.op + n, l.nibble), text', rules) == whole)
    }

    /** Where literals of which `n` are copied lead. */
    lemma PartGoes(l: Label, text: seq<byte>, n: nat, l': Label)
      requires l.LiteralCopy? && 0 <= l.ip && n <= l.length && l.ip + n <= |src| && partialDecoding
      requires z.src == src && (z.src <= z.full || z.full <= z.src)
      requires l'.ip == l.ip + n && (n < l.length ==> |text| + n == z.room || l.ip + n == |src|)
      requires if l'.Stopped? then true
               else if l'.Decoded? then
                 || (|text| + n < z.room && l.ip + n >= |src| - 2)
                 || (|text| + n == z.room && n == l.length && l.ip + n == |src|)
               else |text| + n < z.room && l.ip + n < |src| - 2 && l' == Offset(l.ip + n, l.op + n, l.nibble)
      ensures Goes(z, l, text, l', text + src[l.ip..l.ip + n], partialDecoding)
    {
      PartBegun(l, text, n);
      hide DecodeOffset, DecodeLiterals, Decode;
    }

    /** Literals near an end when only a part of the text is wanted: as many as both ends allow. */
    method PartialLiterals(l: Label) returns (l': Label)
      requires l.LiteralCopy? && Room(l) && partialDecoding
      modifies dst
      ensures Room(l') && l'.ip >= l.ip && l.op <= l'.op
      ensures l'.Offset? || l'.Decoded? || l'.OutputError? || l'.Stopped?
      ensures dst[..l.op] == old(dst[..l.op])
      ensures Goes(z, l, old(Now(l.op)), l', Now(l'.op), partialDecoding)
    {
      hide Rest, View, Goes;
      ghost var d, text := dst[..], Now(l.op);
      var ip, op, length, cpy := l.ip, l.op, l.length, l.op + l.length;
      if ip + length > |src| {
        length := |src| - ip;
        cpy := op + length;
      }
      if cpy > dst.Length {
        cpy := dst.Length;
        length := dst.Length - op;
      }
      CopyIn(dst, op, src, ip, length);
      ViewLiterals(ext, d, dst[..], low, op, src[ip..ip + length]);
      if cpy == dst.Length && !(ip + length == |src| && length == l.length) {
        l' := Stopped(ip + length, cpy);
      } else if cpy == dst.Length || ip + length >= |src| - 2 {
        l' := Decoded(ip + length, cpy);
      } else {
        l' := Offset(ip + length, cpy, l.nibble);
      }
      PartGoes(l, text, length, l');
    }

    /** A token in the safe loop, and whatever the shortcut makes of it. */
    method SafeToken(l: Label) returns (l': Label)
      requires l.SafeLoop? && Room(l)
      modifies dst
      ensures Room(l') && l'.ip > l.ip && l.op <= l'.op
      ensures l'.LiteralCopy? || l'.OutputError? || l'.CopyMatch? || l'.SafeLoop?
      ensures Reaches(l', SafeTokenLabel(src, Here(), l))
      ensures dst[..l.op] == old(dst[..l.op])
      ensures Agrees(z, l, old(Now(l.op)), l', Now(l'.op))
    {
      hide Rest, Agrees, View;
      var shortiend, shortoend := |src| - 14 - 2, dst.Length - 14 - 18;
      if src[l.ip] / 16 == RUN_MASK || l.ip + 1 >= shortiend || l.op > shortoend {
        l' := LiteralLength(l);
        return;
      }
      ghost var d, text := dst[..], Now(l.op);
      l' := ShortcutLiterals(l);
      if l'.nibble != ML_MASK && l'.offset >= 8 && (dict == WithPrefix64k || l'.op - l'.offset >= low) {
        var l1 := l';
        ghost var text1 := Now(l1.op);
        l' := ShortcutMatch(l1);
        assert dst[..l.op] == dst[..l1.op][..l.op];
        AgreesTwice(z, l, text, l1, text1, l', Now(l'.op));
      }
    }

    /** The shortcut, first stage: 16 bytes on behalf of the literals, and the distance. */
    method ShortcutLiterals(l: Label) returns (l': Label)
      requires l.SafeLoop? && Room(l) && src[l.ip] / 16 != RUN_MASK
      requires l.ip + 1 < |src| - 16 && l.op + 32 <= dst.Length
      modifies dst
      ensures Room(l') && l'.CopyMatch? && l'.ip > l.ip && l.op <= l'.op && l'.op + 18 <= dst.Length
      ensures l'.nibble <= ML_MASK
      ensures l' == OffsetLabel(src, Offset(l.ip + 1 + src[l.ip] / 16, l.op + src[l.ip] / 16, src[l.ip] % 16))
      ensures dst[..l.op] == old(dst[..l.op])
      ensures Agrees(z, l, old(Now(l.op)), l', Now(l'.op))
    {
      hide Rest, Agrees, View;
      ghost var d, text := dst[..], Now(l.op);
      var ip, length := l.ip + 1, src[l.ip] / 16;
      var m := LiteralCopy(ip, l.op, length, src[l.ip] % 16);
      TokenAgrees(z, l, text, ip, length);
      CopyIn(dst, l.op, src, ip, 16);
      PartOfStripe(dst[..], l.op, src, ip, 16, length);
      LiteralsCopied(z, ext, d, dst[..], low, m);
      var n := Offset(ip + length, l.op + length, m.nibble);
      AgreesTwice(z, l, text, m, text, n, Now(n.op));
      l' := MatchOffset(n);
      AgreesTwice(z, l, text, n, Now(n.op), l', Now(n.op));
    }

    /** The shortcut, second stage: 18 bytes on behalf of a short match at distance 8 or more.
        Nothing here keeps the match out of the last bytes of the output. */
    method ShortcutMatch(l: Label) returns (l': Label)
      requires l.CopyMatch? && Room(l) && l.nibble < ML_MASK && 8 <= l.offset && low <= l.op - l.offset
      requires l.op + 18 <= dst.Length
      modifies dst
      ensures Room(l') && l'.SafeLoop? && l'.ip == l.ip && l.op <= l'.op
      ensures l' == SafeLoop(l.ip, l.op + l.nibble + MINMATCH)
      ensures dst[..l.op] == old(dst[..l.op])
      ensures Agrees(z, l, old(Now(l.op)), l', Now(l'.op))
    {
      hide Rest, Agrees, View;
      ghost var d, text := dst[..], Now(l.op);
      var length := l.nibble + MINMATCH;
      ghost var m := MatchCopy(l.ip, l.op, l.offset, length);
      MatchLengthAgrees(z, l, text, l.ip, length);
      Copy18(dst, l.op, l.offset, length);
      l' := SafeLoop(l.ip, l.op + length);
      MatchCopied(z, ext, d, dst[..], low, m, l');
      AgreesTwice(z, l, text, m, text, l', Now(l'.op));
    }

    /** One whole sequence of the fast loop, or as far as it gets. */
    method FastSequence(l: Label) returns (l': Label)
      requires l.FastLoop? && Room(l)
      modifies dst
      ensures Room(l') && l'.ip > l.ip && l.op <= l'.op
      ensures l'.FastLoop? || l'.LiteralCopy? || l'.MatchCopy? || l'.OutputError?
      ensures Reaches(l', FastSequenceLabel(src, Here(), l))
      ensures dst[..l.op] == old(dst[..l.op])
      ensures Agrees(z, l, old(Now(l.op)), l', Now(l'.op))
    {
      hide Rest, Agrees, View;
      ghost var text := Now(l.op);
      var m := LiteralLength(l);
      if m.OutputError? { return m; }
      l' := FastLiterals(m);
      AgreesTwice(z, l, text, m, text, l', Now(l'.op));
      if l'.LiteralCopy? { return; }
      var n := l';
      ghost var text1, d1 := Now(n.op), dst[..];
      l' := FastRest(n);
      assert dst[..l.op] == dst[..n.op][..l.op] == d1[..l.op];
      AgreesTwice(z, l, text, n, text1, l', Now(l'.op));
    }

    /** The match of a sequence in the fast loop. */
    method FastRest(l: Label) returns (l': Label)
      requires l.Offset? && Room(l) && l.op + 32 <= dst.Length
      modifies dst
      ensures Room(l') && l'.ip > l.ip && l.op <= l'.op
      ensures l'.FastLoop? || l'.MatchCopy? || l'.OutputError?
      ensures Reaches(l', FastRestLabel(src, Here(), l))
      ensures dst[..l.op] == old(dst[..l.op])
      ensures Agrees(z, l, old(Now(l.op)), l', Now(l'.op))
    {
      hide Rest, Agrees, View;
      ghost var text := Now(l.op);
      var m := MatchOffset(l);
      var n := MatchLength(m);
      AgreesTwice(z, l, text, m, text, n, text);
      if n.OutputError? { return n; }
      l' := FastMatch(n);
      AgreesTwice(z, l, text, n, text, l', Now(l'.op));
    }

    /** Run from one label to the next. */
    method Step(l: Label) returns (l': Label)
      requires Room(l) && !Final(l)
      modifies dst
      ensures Room(l') && l.op <= l'.op
      ensures l'.ip > l.ip || (l'.ip == l.ip && Rank(l') < Rank(l))
      ensures !partialDecoding ==> Reaches(l', NextLabel(src, Here(), l))
      ensures dst[..l.op] == old(dst[..l.op])
      ensures Goes(z, l, old(Now(l.op)), l', Now(l'.op), partialDecoding)
    {
      hide Rest, Agrees, Goes, View;
      ghost var text := Now(l.op);
      if l.LiteralCopy? {
        l' := SafeLiterals(l);
        return;
      } else if l.MatchCopy? {
        l' := SafeMatch(l);
        return;
      } else if l.FastLoop? {
        l' := FastSequence(l);
      } else if l.SafeLoop? {
        l' := SafeToken(l);
      } else if l.Offset? {
        l' := MatchOffset(l);
      } else {
        l' := MatchLength(l);
      }
      AgreesGoes(z, l, text, l', Now(l'.op), partialDecoding);
    }

    /** Decode everything from the first token, which is at `l`, on. */
    method Run(l: Label) returns (l': Label)
      requires (l.FastLoop? || l.SafeLoop?) && Room(l)
      modifies dst
      ensures Final(l') && Room(l') && l.op <= l'.op
      ensures !partialDecoding ==> Reaches(l', Verdict(src, Here(), l))
      ensures dst[..l.op] == old(dst[..l.op])
      ensures Goes(z, l, old(Now(l.op)), l', Now(l'.op), partialDecoding)
    {
      hide Rest, Agrees, Goes, View, NextLabel, Verdict;
      ghost var text := Now(l.op);
      l' := l;
      AgreesWithItself(z, l, text);
      AgreesGoes(z, l, text, l, text, partialDecoding);
      while !Final(l')
        invariant Room(l') && l.op <= l'.op
        invariant !partialDecoding ==> Reaches(Verdict(src, Here(), l'), Verdict(src, Here(), l))
        invariant dst[..l.op] == old(dst[..l.op])
        invariant Goes(z, l, text, l', Now(l'.op), partialDecoding)
        decreases |src| - l'.ip, Rank(l')
      {
        var m := l';
        ghost var text1, d1 := Now(m.op), dst[..];
        l' := Step(m);
        assert dst[..l.op] == dst[..m.op][..l.op] == d1[..l.op];
        GoesTwice(z, l, text, m, text1, l', Now(l'.op), partialDecoding);
        if !partialDecoding { VerdictStep(src, Here(), m, l'); }
      }
      VerdictFinal(src, Here(), l');
    }

    /** A match that begins in the external dictionary. */
    method DictionaryMatch(l: Label) returns (l': Label)
      requires l.MatchCopy? && Room(l)
      requires l.op - l.offset < low <= l.op - l.offset + |ext|
      requires partialDecoding ==> l.op + l.length <= dst.Length - LASTLITERALS
      modifies dst
      ensures Room(l') && l'.ip == l.ip && l.op <= l'.op && (l'.SafeLoop? || l'.OutputError?)
      ensures l'.SafeLoop? <==> l.op + l.length <= dst.Length - LASTLITERALS
      ensures l'.SafeLoop? ==> l'.op == l.op + l.length
      ensures dst[..l.op] == old(dst[..l.op])
      ensures Agrees(z, l, old(Now(l.op)), l', Now(l'.op))
    {
      hide Rest, Agrees, View;
      ghost var text := Now(l.op);
      if l.op + l.length > dst.Length - LASTLITERALS {
        l' := OutputError(l.ip, l.op);
        MatchFails(z, l, text, l', text);
        return;
      }
      l' := SafeLoop(l.ip, l.op + l.length);
      DictionaryCopy(dst, low, ext, l.op, l.offset, l.length);
      MatchAgrees(z, l, text, l');
    }

    /** The same near the end of the output, when only a part of the text is wanted. */
    method DictionaryPartial(l: Label) returns (l': Label)
      requires l.MatchCopy? && Room(l) && partialDecoding
      requires l.op - l.offset < low <= l.op - l.offset + |ext|
      modifies dst
      ensures Room(l') && l'.ip >= l.ip && l.op <= l'.op
      ensures l'.SafeLoop? || l'.OutputError? || l'.Stopped?
      ensures l'.SafeLoop? ==> l'.ip == l.ip
      ensures dst[..l.op] == old(dst[..l.op])
      ensures Goes(z, l, old(Now(l.op)), l', Now(l'.op), partialDecoding)
    {
      hide Rest, View;
      ghost var text := Now(l.op);
      var length := Min(l.length, dst.Length - l.op);
      DictionaryCopy(dst, low, ext, l.op, l.offset, length);
      MatchBegun(z.full, l, text, length, Plain);
      MatchBegun(z.full, l, text, length, Strict(z.limit));
      if length == l.length {
        return SafeLoop(l.ip, l.op + length);
      }
      l' := FullToken(l.ip, Repeat(text, l.offset, l.length));
      if l'.OutputError? {
        NextToken(z.full, l, text, z.limit);
      }
    }

    /** The output is full, but the next token is still looked at: its literals do not fit, and
        if its length can be read at all, decoding ends there.  `text` is all the text before it. */
    method FullToken(ip0: int, ghost text: seq<byte>) returns (l': Label)
      requires 0 <= ip0 < |src| && partialDecoding && Room(Stopped(ip0, dst.Length))
      ensures Room(l') && l'.ip > ip0 && l'.op == dst.Length && (l'.OutputError? || l'.Stopped?)
      ensures l'.OutputError? && z.full <= z.src ==> Decode(z.full, ip0, text, Strict(z.limit)).None?
    {
      hide Rest, Decode, ReadLength;
      var length, ip := src[ip0] / 16, ip0 + 1;
      if length == RUN_MASK {
        var addl;
        addl, ip := ReadVariableLength(src, ip, |src| - RUN_MASK, true);
        if addl.None? {
          if z.full <= z.src { TokenMustRead(src, z.full, ip0, text, z.limit); }
          return OutputError(ip, dst.Length);
        }
      }
      return Stopped(ip, dst.Length);
    }
  }

  /** Copy a match that begins in the dictionary and may go on at the start of the buffer. */
  method DictionaryCopy(dst: array<byte>, low: nat, ext: seq<byte>, op: int, off: nat, length: nat)
    requires low <= op && op + length <= dst.Length
    requires op - off < low <= op - off + |ext|
    modifies dst
    ensures dst[..op] == old(dst[..op])
    ensures View(ext, dst[..], low, op + length) == Repeat(old(View(ext, dst[..], low, op)), off, length)
  {
    hide View, Repeat, Periodic;
    ghost var d := dst[..];
    var copySize := low - (op - off);
    if length <= copySize {
      CopyIn(dst, op, ext, |ext| - copySize, length);
      assert ext[|ext| - copySize..][..length] == ext[|ext| - copySize..|ext| - copySize + length];
      ViewDictionary(ext, d, dst[..], low, op, off, length);
    } else {
      var restSize := length - copySize;
      CopyIn(dst, op, ext, |ext| - copySize, copySize);
      ghost var d1 := dst[..];
      assert ext[|ext| - copySize..][..copySize] == ext[|ext| - copySize..|ext| - copySize + copySize];
      ViewDictionary(ext, d, d1, low, op, off, copySize);
      CopyRest(dst, op + copySize, low, restSize);
      assert dst[..op] == d1[..op + copySize][..op];
      ViewMatch(ext, d1, dst[..], low, op + copySize, off, restSize);
      RepeatSplit(View(ext, d, low, op), off, copySize, restSize);
    }
  }

  /** The part of a match that follows a dictionary begins at the start of the buffer. */
  method CopyRest(dst: array<byte>, op: int, low: nat, n: nat)
    requires low < op && op + n <= dst.Length
    modifies dst
    ensures dst[..op] == old(dst[..op])
    ensures Periodic(dst[..], op, op + n, op - low)
  {
    if n > op - low {
      var o, copyFrom := op, low;
      while o < op + n
        invariant op <= o <= op + n && o - copyFrom == op - low
        invariant dst[..op] == old(dst[..op])
        invariant Periodic(dst[..], op, o, op - low)
      {
        ghost var r, off := dst[..], op - low;
        dst[o] := dst[copyFrom];
        PeriodicPrefix(r, dst[..], op, o, off);
        assert Copied(dst[..], off, o);
        o, copyFrom := o + 1, copyFrom + 1;
      }
    } else {
      Memcpy(dst, op, low, n);
    }
  }

  /** 18 bytes of a match at distance 8 or more. */
  method Copy18(dst: array<byte>, op: int, off: nat, length: nat)
    requires 8 <= off <= op && length <= 18 && op + 18 <= dst.Length
    modifies dst
    ensures dst[..op] == old(dst[..op])
    ensures Periodic(dst[..], op, op + length, off)
  {
    Memcpy(dst, op, op - off, 8);
    AppendCopy(dst, op, op + 8, op - off + 8, 8);
    AppendCopy(dst, op, op + 16, op - off + 16, 2);
  }

  /** The rest of a match whose first 8 bytes are there, up to 7 bytes past its end. */
  method CopyTail(dst: array<byte>, op: int, match': int, off: nat, cpy: int)
    requires off <= op && op + MINMATCH <= cpy <= dst.Length - MATCH_SAFEGUARD_DISTANCE
    requires 0 <= match' <= op && Continues(off, op + 8 - match', 8)
    requires Periodic(dst[..], op, op + 8, off)
    modifies dst
    ensures dst[..op] == old(dst[..op])
    ensures Periodic(dst[..], op, cpy, off)
  {
    ghost var r, dist := dst[..], op + 8 - match';
    Memcpy(dst, op + 8, match', 8);
    if cpy - op > 16 {
      ghost var r1 := dst[..];
      WildCopy8(dst, op + 16, match' + 8, cpy);
      assert r1[..op + 16] == dst[..][..op + 16];
      PeriodicPrefix(r1, dst[..], op + 8, op + 16, dist);
    }
    assert r[..op + 8] == dst[..][..op + 8];
    assert dst[..op] == r[..op + 8][..op];
    PeriodicPrefix(r, dst[..], op, op + 8, off);
    PeriodGrows(dst[..], op, op + 8, Max(cpy, op + 8), off, dist);
  }

  /** The rest of a match that ends near the end of the output: whole strides while they fit,
      then single bytes. */
  method CopyNearEnd(dst: array<byte>, op: int, match': int, off: nat, cpy: int)
    requires off <= op && op + 8 <= dst.Length && op <= cpy <= dst.Length - LASTLITERALS
    requires 0 <= match' <= op && Continues(off, op + 8 - match', 8)
    requires Periodic(dst[..], op, op + 8, off)
    modifies dst
    ensures dst[..op] == old(dst[..op])
    ensures Periodic(dst[..], op, cpy, off)
  {
    ghost var r, dist := dst[..], op + 8 - match';
    var m, o, oCopyLimit := match', op + 8, dst.Length - 7;
    if o < oCopyLimit {
      WildCopy8(dst, o, m, oCopyLimit);
      m, o := m + (oCopyLimit - o), oCopyLimit;
    }
    while o < cpy
      invariant op + 8 <= o <= dst.Length && o - m == dist
      invariant dst[..op + 8] == r[..op + 8]
      invariant Periodic(dst[..], op + 8, o, dist)
    {
      ghost var q := dst[..];
      dst[o] := dst[m];
      PeriodicPrefix(q, dst[..], op + 8, o, dist);
      assert Copied(dst[..], dist, o);
      m, o := m + 1, o + 1;
    }
    assert r[..op + 8] == dst[..][..op + 8];
    assert dst[..op] == r[..op + 8][..op];
    PeriodicPrefix(r, dst[..], op, op + 8, off);
    PeriodGrows(dst[..], op, op + 8, o, off, dist);
  }

  /** A match in single bytes when it overlaps itself, in one piece when it does not. */
  method PartialCopy(dst: array<byte>, op: int, off: nat, n: nat)
    requires off <= op && op + n <= dst.Length
    modifies dst
    ensures dst[..op] == old(dst[..op])
    ensures off > 0 ==> Periodic(dst[..], op, op + n, off)
  {
    var m, o := op - off, op;
    if m + n > op {
      while o < op + n
        invariant op <= o <= op + n && o - m == off
        invariant dst[..op] == old(dst[..op])
        invariant off > 0 ==> Periodic(dst[..], op, o, off)
      {
        ghost var r := dst[..];
        dst[o] := dst[m];
        if off > 0 {
          PeriodicPrefix(r, dst[..], op, o, off);
          assert Copied(dst[..], off, o);
        }
        m, o := m + 1, o + 1;
      }
    } else {
      Memcpy(dst, op, m, n);
    }
  }
}
