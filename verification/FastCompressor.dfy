/** The fast compressor, LZ4_compress_generic_validated, for a block compressed on its own with a
    fresh state: one hash table with one candidate each, accelerating steps, and three kinds of
    output limit.  Its gotos are labels here; each label's state is an invariant. */
module FastCompressor {
  import opened Bytes
  import opened BlockFormat
  import opened WordCount
  import opened SequenceWriter
  import opened BlockOutput
  import opened DecoderApi

  const LZ4_64Klimit := 0x1_0000 + MFLIMIT - 1
  const LZ4_ACCELERATION_MAX := 65537

  /** How many entries the table has: 16 KB of 16-bit or 32-bit indices. */
  function TableSize(byU16: bool): nat
  {
    if byU16 then 0x2000 else 0x1000
  }

  /** LZ4_hashPosition: LZ4_hash4 for the 16-bit table, LZ4_hash5 for the 32-bit one. */
  function HashPosition(s: seq<byte>, p: nat, byU16: bool): (h: nat)
    requires p + 8 <= |s|
    ensures h < TableSize(byU16)
  {
    var v := s[p] as int + 0x100 * s[p + 1] as int + 0x1_0000 * s[p + 2] as int + 0x100_0000 * s[p + 3] as int;
    if byU16 then (v * 2654435761 % 0x1_0000_0000) / 0x8_0000
    else
      var v5 := v + 0x1_0000_0000 * s[p + 4] as int;
      (v5 * 0x100_0000 * 889523592379 % 0x1_0000_0000_0000_0000) / 0x10_0000_0000_0000
  }

  lemma HashValues()
    ensures HashPosition([97, 98, 99, 100, 0, 0, 0, 0], 0, true) == 3169
    ensures HashPosition([1, 0, 0, 0, 0, 0, 0, 0], 0, true) == 5062
  {
  }

  lemma LongHashValue(s: seq<byte>)
    requires |s| == 8 && s[0] == 1 && s[1] == s[2] == s[3] == s[4] == 0
    ensures HashPosition(s, 0, false) == 3313
  {
  }

  // ---------- What is new among the literals ----------

  /** How far behind a match the search looks the `k`-th time: at the first positions, then in steps of
      the acceleration that get longer by 1 every 64 times. */
  function Probe(acceleration: nat, k: nat): (n: nat)
    ensures k >= 1 ==> n >= 1
  {
    if k == 0 then 0 else Probe(acceleration, k - 1) + if k <= 2 then 1 else acceleration + (k - 3) / 64
  }

  /** Without acceleration the first positions that are not looked at are those behind the 66th. */
  lemma {:induction false} FirstLooks(k: nat)
    ensures k <= 66 ==> Probe(1, k) == k
    ensures k == 67 ==> Probe(1, k) == 68
  {
    if 0 < k <= 67 { FirstLooks(k - 1); }
  }

  lemma {:induction false} ProbesGrow(acceleration: nat, j: nat, k: nat)
    requires 1 <= acceleration && j <= k
    ensures Probe(acceleration, j) + (k - j) <= Probe(acceleration, k)
  {
    if j < k { ProbesGrow(acceleration, j, k - 1); }
  }

  /** The positions from `lo` on that were looked at, the first one of them in any case and further ones
      up to `hi`. */
  ghost function Looked(acceleration: nat, lo: int, hi: int): iset<int>
  {
    iset q: int | LookedAt(acceleration, lo, hi, q)
  }

  ghost predicate LookedAt(acceleration: nat, lo: int, hi: int, q: int)
  {
    exists k: nat :: q == lo + Probe(acceleration, k) && (k == 0 || q < hi)
  }

  /** What is in the table behind these sequences, if nothing with the same hash followed: positions that
      were looked at, and those 2 bytes before the end of each match. */
  ghost function Seen(ss: seq<Sequence>, acceleration: nat): iset<int>
    decreases |ss|, 1
  {
    if ss == [] then iset{} else Almost(ss, acceleration) + iset{|Text(ss)| - 2}
  }

  /** The same without the last of these. */
  ghost function Almost(ss: seq<Sequence>, acceleration: nat): iset<int>
    requires ss != []
    decreases |ss|, 0
  {
    var pre, lo := ss[..|ss| - 1], |Text(ss[..|ss| - 1])|;
    Seen(pre, acceleration) + Looked(acceleration, lo, lo + |ss[|ss| - 1].lit|)
  }

  /** The same with the positions behind the sequences that were looked at before `hi`. */
  ghost function Entering(ss: seq<Sequence>, acceleration: nat, hi: int): iset<int>
  {
    Seen(ss, acceleration) + Looked(acceleration, |Text(ss)|, hi)
  }

  /** The bytes at `p` are new, at the `k`-th look behind the sequences `pre`: the last position with the
      same hash, if it is in the table and at most 65535 bytes before, has 4 other bytes. */
  ghost predicate New(s: seq<byte>, byU16: bool, acceleration: nat, pre: seq<Sequence>, k: nat, p: int)
  {
    0 <= p <= |s| - 12 && (k == 0 || |Text(pre)| + Probe(acceleration, k + 1) <= |s| - 11) ==>
      forall q :: q in Entering(pre, acceleration, p) && p - 65535 <= q && LastWithHash(s, byU16, q, p) ==>
        !Same4(s, p, q)
  }

  /** `q` has the hash of `p`, and no position between them. */
  ghost predicate LastWithHash(s: seq<byte>, byU16: bool, q: int, p: int)
    requires p + 8 <= |s|
  {
    && 0 <= q < p
    && HashPosition(s, q, byU16) == HashPosition(s, p, byU16)
    && forall r :: q < r < p ==> HashPosition(s, r, byU16) != HashPosition(s, p, byU16)
  }

  /** What is looked at is new. */
  ghost function NewPlaces(s: seq<byte>, acceleration: nat): Places
  {
    iset q: (seq<Sequence>, int) | forall k: nat :: q.1 == |Text(q.0)| + Probe(acceleration, k) ==>
      New(s, |s| < 65547, acceleration, q.0, k, q.1)
  }

  /** Where the compressor goes next. */
  datatype Label = MainLoop | NextMatch | EndOfBlock | CannotCompress

  class FastCompressor {
    const src: seq<byte>
    const out: Output
    const byU16: bool
    const hashTable: array<u32>
    const acceleration: nat
    var ip: nat
    var from: nat       // the variable `match`
    var token: nat
    var filledIp: nat
    var forwardH: nat
    ghost var full: bool  // the last match was cut because the output is full

    constructor (out: Output, byU16: bool, acceleration: nat)
      requires out.Valid() && out.anchor == 0 && out.ss == []
      requires LZ4_minLength <= |out.src| <= LZ4_MAX_INPUT_SIZE && 1 <= acceleration
      requires byU16 <==> |out.src| < LZ4_64Klimit
      ensures AtMain() && Parts() && this.out == out && this.acceleration == acceleration && fresh(hashTable)
    {
      hide HashPosition, Output.Valid;
      src, this.out, this.byU16, this.acceleration := out.src, out, byU16, acceleration;
      hashTable := new u32[TableSize(byU16)](_ => 0);
      from, token, filledIp := 0, 0, 0;
      ip := 1;
      forwardH := HashPosition(out.src, 1, byU16);
      full := false;
      new;
      Put(0, HashPosition(src, 0, byU16), iset{});
      NothingSeen();
    }

    lemma NothingSeen()
      requires Parts() && Held(iset{} + iset{0}) && out.ss == []
      ensures Held(Entering(out.ss, acceleration, 1)) && Clean(1)
    {
      hide HashPosition, Probe;
      NoSequences();
      FirstProbes();
      forall j: nat ensures Probe(acceleration, j) >= j {
        ProbesGrow(acceleration, 0, j);
      }
    }

    /** What never changes. */
    ghost predicate Parts()
    {
      && out.src == src && hashTable.Length == TableSize(byU16)
      && hashTable as object != out.dst
      && LZ4_minLength <= |src| <= LZ4_MAX_INPUT_SIZE && 1 <= acceleration
      && (byU16 <==> |src| < LZ4_64Klimit)
    }

    /** What was looked at before all matches written was new, and so is what comes behind the last match
        up to `e`, unless the output is full. */
    ghost predicate Clean(e: int)
      reads this`full, out`ss, out`anchor
    {
      && RunsIn(out.ss, 0, NewPlaces(src, acceleration))
      && (!full ==> forall p :: out.anchor <= p < e ==> (out.ss, p) in NewPlaces(src, acceleration))
    }

    /** These positions are in the table, if none behind them replaced them. */
    ghost predicate Held(held: iset<int>)
      reads hashTable
    {
      forall q :: q in held && 0 <= q && q + 8 <= |src| ==>
        HashPosition(src, q, byU16) < hashTable.Length && hashTable[HashPosition(src, q, byU16)] >= q
    }

    /** What was looked at up to `hi` is, unless the output is full. */
    ghost predicate Entered(hi: int)
      reads this`full, out`ss, hashTable
    {
      !full ==> Held(Entering(out.ss, acceleration, hi))
    }

    /** The entry is free (or position 0), or a position that was entered under its own hash. */
    ghost predicate Entry(h: nat, bound: nat)
      requires h < hashTable.Length
      reads hashTable
    {
      hashTable[h] == 0 || (hashTable[h] < bound && hashTable[h] <= |src| - MFLIMIT
          && HashPosition(src, hashTable[h], byU16) == h)
    }

    /** Every entry is a position before `bound`. */
    ghost predicate Table(bound: nat)
      reads hashTable
    {
      forall h :: 0 <= h < hashTable.Length ==> Entry(h, bound)
    }

    /** LZ4_putIndexOnHash: an index of the 16-bit table is cut to 16 bits, which loses nothing. */
    method Put(index: nat, h: nat, ghost held: iset<int>)
      requires Parts() && index <= |src| - MFLIMIT && h == HashPosition(src, index, byU16)
      requires Held(held) && (held == iset{} || Table(index))
      modifies hashTable
      ensures hashTable[h] == index
      ensures forall k :: 0 <= k < hashTable.Length && k != h ==> hashTable[k] == old(hashTable[k])
      ensures forall bound: nat :: old(Table(bound)) && index < bound ==> Table(bound)
      ensures Held(held + iset{index})
    {
      hide HashPosition;
      hashTable[h] := if byU16 then index % 0x1_0000 else index;
      assert Entry(h, index + 1);
      forall bound: nat | old(Table(bound)) && index < bound ensures Table(bound) {
        forall k | 0 <= k < hashTable.Length ensures Entry(k, bound) {
          assert old(Entry(k, bound));
        }
      }
      assert held != iset{} ==> old(Entry(h, index));
    }

    ghost predicate AtMain()
      reads this, out, out.dst, hashTable
    {
      && Parts() && out.Valid()
      && out.anchor + 1 == ip <= |src| - MFLIMIT + 1
      && forwardH == HashPosition(src, ip, byU16)
      && Table(ip) && Entered(ip) && Clean(ip) && (full ==> Filled(out.op))
    }

    /** The output is full: no sequence fits any more. */
    ghost predicate Filled(op: nat)
    {
      out.limit.FillOutput? && op + 6 == out.dst.Length
    }

    /** A match: 4 bytes at `top` and everything from `ip` on repeat what is `ip - from` before. */
    ghost predicate Repeats(top: nat)
      reads this
    {
      && from < ip <= top <= |src| - MFLIMIT
      && ip - from <= DISTANCE_MAX
      && Periodic(src, ip, top + MINMATCH, ip - from)
    }

    /** A match is known that begins at `ip`; nothing behind `filledIp` has been entered. */
    ghost predicate Found()
      reads this, out, out.dst, hashTable
    {
      && Parts() && out.Valid() && Clean(ip)
      && out.anchor <= ip && Repeats(filledIp) && Table(filledIp + 1) && Entered(ip) && (full ==> Filled(out.op))
    }

    lemma LaterTable(bound: nat, bound': nat)
      requires Table(bound) && bound <= bound'
      ensures Table(bound')
    {
      hide HashPosition;
      forall k | 0 <= k < hashTable.Length ensures Entry(k, bound') {
        assert Entry(k, bound);
      }
    }

    /** What the table holds under a hash, and what is entered there now. */
    method Exchange(current: nat, h: nat, ghost held: iset<int>) returns (index: nat)
      requires Parts() && Table(current) && 1 <= current <= |src| - MFLIMIT && h == HashPosition(src, current, byU16)
      requires Held(held)
      modifies hashTable
      ensures index < current && Table(current + 1) && Held(held + iset{current})
      ensures index == 0 || HashPosition(src, index, byU16) == h
      ensures forall q :: q in held && 0 <= q < current && HashPosition(src, q, byU16) == h ==> index >= q
    {
      hide HashPosition;
      assert Entry(h, current);
      index := hashTable[h];
      LaterTable(current, current + 1);
      Put(current, h, held);
    }

    /** Is the candidate near enough and the same in 4 bytes?  Nothing is too far for the 16-bit table. */
    predicate Matches(index: nat, current: nat)
      requires index < current && current + 4 <= |src|
    {
      (byU16 || index + DISTANCE_MAX >= current) && Same4(src, current, index)
    }

    lemma MatchesRepeats(index: nat, current: nat)
      requires Parts() && index < current <= |src| - MFLIMIT && Matches(index, current)
      ensures current - index <= DISTANCE_MAX && Periodic(src, current, current + MINMATCH, current - index)
    {
    }

    /** A position where nothing is found is new. */
    lemma OneMoreNew(index: nat, k: nat)
      requires Parts() && Clean(ip) && |Text(out.ss)| == out.anchor && ip == out.anchor + Probe(acceleration, k)
      requires ip <= |src| - MFLIMIT && index < ip && !Matches(index, ip)
      requires index == 0 || HashPosition(src, index, byU16) == HashPosition(src, ip, byU16)
      requires !full ==> forall q | q in Entering(out.ss, acceleration, ip) && 0 <= q < ip
                 && HashPosition(src, q, byU16) == HashPosition(src, ip, byU16) :: index >= q
      ensures Clean(ip + 1)
    {
      hide HashPosition, RunsIn, Entering, Text, Probe;
      if !full {
        forall q | q in Entering(out.ss, acceleration, ip) && ip - 65535 <= q && LastWithHash(src, byU16, q, ip)
            ensures !Same4(src, ip, q) {
          assert index == q;
        }
        assert forall j: nat :: New(src, byU16, acceleration, out.ss, j, ip);
      }
    }

    /** What is not looked at need not be new. */
    lemma PassedOver(k: nat, e: int)
      requires Parts() && Clean(e) && |Text(out.ss)| == out.anchor && k >= 1
      requires out.anchor + Probe(acceleration, k - 1) < e <= out.anchor + Probe(acceleration, k)
      ensures Clean(out.anchor + Probe(acceleration, k))
    {
      hide HashPosition, RunsIn, New, Text, Probe;
      forall j: nat | e <= out.anchor + Probe(acceleration, j) < out.anchor + Probe(acceleration, k) ensures false {
        if j < k { ProbesGrow(acceleration, j, k - 1); } else { ProbesGrow(acceleration, k, j); }
      }
    }

    /** Nor what is looked at last, when the step behind it is too long. */
    lemma RestPassedOver(k: nat)
      requires Parts() && |Text(out.ss)| == out.anchor && k >= 1 && Clean(out.anchor + Probe(acceleration, k))
      requires out.anchor + Probe(acceleration, k + 1) > |src| - MFLIMIT + 1
      ensures Clean(|src| - MFLIMIT + 1)
    {
      hide HashPosition, RunsIn, Entering, LastWithHash, Text, Probe;
      forall j: nat | Probe(acceleration, k) <= Probe(acceleration, j)
          ensures New(src, byU16, acceleration, out.ss, j, out.anchor + Probe(acceleration, j)) {
        if j < k { ProbesGrow(acceleration, j, k); } else { ProbesGrow(acceleration, k + 1, j + 1); }
      }
    }

    lemma CleanLess(e: int, e': int)
      requires Clean(e) && e' <= e
      ensures Clean(e')
    {
    }

    lemma EnteredLess(hi: int, hi': int)
      requires hi' <= hi && Entered(hi)
      ensures Entered(hi')
    {
      hide HashPosition, Text, Probe;
    }

    /** The next position that is looked at joins the others. */
    lemma LookedFurther(k: nat, hi: int)
      requires Parts() && |Text(out.ss)| == out.anchor && hi == out.anchor + Probe(acceleration, k + 1)
      requires !full ==> Held(Entering(out.ss, acceleration, out.anchor + Probe(acceleration, k))
                              + iset{out.anchor + Probe(acceleration, k)})
      ensures Entered(hi)
    {
      hide HashPosition, Text, Probe;
      forall j: nat | Probe(acceleration, j) < Probe(acceleration, k + 1)
          ensures Probe(acceleration, j) <= Probe(acceleration, k) {
        if j <= k { ProbesGrow(acceleration, j, k); } else { ProbesGrow(acceleration, k + 1, j); }
      }
    }

    /** Find a match, in steps that get longer. */
    method FindMatch() returns (found: bool)
      requires AtMain()
      modifies this`ip, this`from, this`filledIp, this`forwardH, hashTable
      ensures Parts() && out.Valid()
      ensures found ==> Found() && filledIp == ip
      ensures !found ==> Clean(|src| - MFLIMIT + 1)
    {
      hide HashPosition, Output.Valid, Matches, Clean, Entered, Probe, Text, Table, Periodic;
      var forwardIp, step, searchMatchNb := ip, 1, acceleration * 64;
      ghost var k: nat := 1;
      FirstProbes();
      WrittenSoFar();
      while true
        invariant Parts() && out.Valid() && out.anchor < forwardIp <= |src| - MFLIMIT + 1
        invariant forwardH == HashPosition(src, forwardIp, byU16) && Table(forwardIp)
        invariant Clean(forwardIp) && Entered(forwardIp)
        invariant k >= 1 && searchMatchNb == acceleration * 64 + k - 1
        invariant forwardIp == out.anchor + Probe(acceleration, k)
        invariant forwardIp + step == out.anchor + Probe(acceleration, k + 1)
        decreases |src| - forwardIp
      {
        var h := forwardH;
        ip := forwardIp;
        forwardIp, step, searchMatchNb := forwardIp + step, searchMatchNb / 64, searchMatchNb + 1;
        NextProbe(k);
        if forwardIp > |src| - MFLIMIT + 1 {
          RestPassedOver(k);
          return false;
        }
        forwardH := HashPosition(src, forwardIp, byU16);
        from := TryPosition(h, k);
        if Matches(from, ip) { break; }
        PassedOver(k + 1, ip + 1);
        LaterTable(ip + 1, forwardIp);
        k := k + 1;
      }
      EnteredLess(forwardIp, ip);
      filledIp := ip;
      MatchesRepeats(from, ip);
      return true;
    }

    lemma FirstProbes()
      ensures Probe(acceleration, 0) == 0 && Probe(acceleration, 1) == 1 && Probe(acceleration, 2) == 2
    {
    }

    lemma NextProbe(k: nat)
      requires 1 <= k && 1 <= acceleration
      ensures Probe(acceleration, k + 2) == Probe(acceleration, k + 1) + (acceleration * 64 + k - 1) / 64
      ensures Probe(acceleration, k) < Probe(acceleration, k + 1) < Probe(acceleration, k + 2)
    {
    }

    lemma WrittenSoFar()
      requires out.Valid()
      ensures |Text(out.ss)| == out.anchor
    {
    }

    /** The candidate for `ip`, which is entered itself. */
    method TryPosition(h: nat, ghost k: nat) returns (index: nat)
      requires Parts() && out.anchor < ip <= |src| - MFLIMIT && h == HashPosition(src, ip, byU16)
      requires |Text(out.ss)| == out.anchor && ip == out.anchor + Probe(acceleration, k)
      requires Table(ip) && Clean(ip) && Entered(ip)
      modifies hashTable
      ensures index < ip && Table(ip + 1) && Clean(ip) && Entered(out.anchor + Probe(acceleration, k + 1))
      ensures !Matches(index, ip) ==> Clean(ip + 1)
    {
      hide HashPosition, Matches, Clean, Entering, Text, Probe;
      ghost var held := if full then iset{} else Entering(out.ss, acceleration, ip);
      index := Exchange(ip, h, held);
      if !Matches(index, ip) { OneMoreNew(index, k); }
      LookedFurther(k, out.anchor + Probe(acceleration, k + 1));
    }

    /** Catch up: the match may begin earlier. */
    method CatchUp()
      requires Found()
      modifies this`ip, this`from
      ensures Found() && ip <= old(ip)
    {
      hide Output.Valid, Table, Clean, Entered;
      while ip > out.anchor && from > 0 && src[ip - 1] == src[from - 1]
        invariant Found() && ip <= old(ip)
        decreases ip
      {
        assert Copied(src, ip - from, ip - 1);
        CleanLess(ip, ip - 1);
        EnteredLess(ip, ip - 1);
        ip, from := ip - 1, from - 1;
      }
    }

    /** At _next_match: the literals, if any, are written behind the token; the match may be
        written behind them. */
    ghost predicate Begun()
      reads this, out, out.dst
    {
      && Parts() && out.Sizes() && Clean(ip) && token <= out.op <= out.dst.Length
      && out.anchor <= ip && ip <= |src| - MFLIMIT
      && Written(out.dst[..token], out.ss, src, out.anchor)
      && EndRoom(out.limit, out.ss, out.dst.Length - token)
      && out.dst[..out.op] == out.dst[..token] + LiteralBytes(src[out.anchor..ip], 0)
      && (out.limit.LimitedOutput? ==> out.op + 2 <= out.dst.Length)
    }

    /** Where the last literals are written: what is left is new, unless the output is full. */
    ghost predicate AtEnd()
      reads this, out, out.dst
    {
      && out.Valid() && out.src == src && (full ==> out.limit.FillOutput?)
      && Clean(if out.limit.FillOutput? then 0 else |src| - MFLIMIT + 1)
    }

    /** No block that begins like this fits. */
    ghost predicate AtFailure()
      reads out
    {
      out.src == src && out.limit.LimitedOutput? && TooLong(out.ss, src, out.dst.Length)
    }

    /** Encode literals, or go to the end of the block when the output is nearly full. */
    method EncodeLiterals() returns (l: Label)
      requires Found()
      modifies this`token, out`op, out`ss, out.dst
      ensures l.NextMatch? || l.EndOfBlock? || l.CannotCompress?
      ensures l.NextMatch? ==> Begun() && !full && out.ss == old(out.ss)
      ensures l.EndOfBlock? ==> AtEnd()
      ensures l.CannotCompress? ==> AtFailure()
    {
      hide Written, Periodic, Table, LiteralBytes, ExtraBytes, EndRoom, Clean, TooLong, Entered;
      var litLength := ip - out.anchor;
      token := out.op;
      ExtraSize(litLength);
      if out.limit.LimitedOutput? && token + 1 + litLength + (2 + 1 + LASTLITERALS) + litLength / 255 > out.dst.Length {
        NoRoomForLiterals();
        ghost var s: Sequence := Sequence(src[out.anchor..ip], ip - from, 4);
        out.ss := out.ss + [s];
        return CannotCompress;
      }
      if out.limit.FillOutput? && token + 1 + (litLength + 240) / 255 + litLength + 2 + 1
          + MFLIMIT - MINMATCH > out.dst.Length {
        CleanLess(ip, 0);
        return EndOfBlock;
      }
      BeginSequence();
      return NextMatch;
    }

    /** Token and literals, when there is room for them. */
    method BeginSequence()
      requires Found() && token == out.op
      requires !out.limit.NotLimited? ==>
                 token + 1 + (ip - out.anchor) + (2 + 1 + LASTLITERALS) + (ip - out.anchor) / 255 <= out.dst.Length
      modifies out`op, out.dst
      ensures Begun()
    {
      hide Written, Periodic, Table, LiteralBytes, ExtraBytes, EndRoom, Clean, Entered;
      ExtraSize(ip - out.anchor);
      if out.limit.NotLimited? {
        BoundIsRoomy(out.dst[..token], out.ss, src, out.anchor, ip, MINMATCH, out.dst.Length);
      }
      out.op := WriteLiterals(out.dst, token, src, out.anchor, ip);
      assert out.dst[..out.op][..token] == out.dst[..token];
    }

    lemma NoRoomForLiterals()
      requires Found() && out.limit.LimitedOutput?
      requires out.op + 1 + (ip - out.anchor) + 8 + (ip - out.anchor) / 255 > out.dst.Length
      ensures TooLong(out.ss + [Sequence(src[out.anchor..ip], ip - from, 4)], src, out.dst.Length)
    {
      hide Written, TooLong, Clean, Table, SequenceBytes;
      var s := Sequence(src[out.anchor..ip], ip - from, 4);
      SizeOfBytes(s);
      ExtraSize(ip - out.anchor);
      RealMatchPart(src, ip, ip - from, filledIp + 4 - ip, ip, 4);
      WrittenMore(out.dst[..out.op], out.ss, src, out.anchor, ip, ip - from, 4);
      MatchTooLong(out.dst[..out.op], out.ss, src, out.anchor, s, ip + 4, out.dst.Length);
    }

    /** At _next_match.  `top` is the last position that may have been entered: it is `filledIp` or `ip`,
        except when the output is so full that the match will not be written anyway. */
    ghost predicate AtMatch(top: nat)
      reads this, out, out.dst, hashTable
    {
      && Begun() && Repeats(top) && Table(top + 1) && Entered(ip)
      && if full then out.limit.FillOutput? && out.op + 2 + 1 + MFLIMIT - MINMATCH > out.dst.Length
         else filledIp <= top && (top == filledIp || top == ip)
    }

    /** The match is counted, and cut down if the output is nearly full; `code` is its length
        without the first 4 bytes, and `ip` moves behind it. */
    method MatchCode(ghost top: nat, ghost held: iset<int>) returns (ok: bool, code: nat)
      requires Parts() && Repeats(top) && Table(top + 1) && filledIp <= top && (top == filledIp || top == ip)
      requires out.op <= out.dst.Length && (out.limit.FillOutput? ==> out.op + 1 + MFLIMIT - MINMATCH <= out.dst.Length)
      requires !full && Held(held)
      modifies this`ip, this`full, hashTable
      ensures !ok ==>
                && out.limit.LimitedOutput? && old(ip) + MINMATCH + code <= |src| - LASTLITERALS
                && RealMatch(src, old(ip), old(ip) - from, MINMATCH + code)
                && out.op + (1 + LASTLITERALS) + (code + 240) / 255 > out.dst.Length
      ensures ok ==>
                && ip == old(ip) + MINMATCH + code <= |src| - LASTLITERALS && Table(ip)
                && RealMatch(src, old(ip), old(ip) - from, MINMATCH + code)
                && (!out.limit.NotLimited? ==> out.op + (1 + LASTLITERALS) + (code + 240) / 255 <= out.dst.Length)
      ensures ok && full ==> out.limit.FillOutput? && out.op + (1 + LASTLITERALS) + (code + 240) / 255 == out.dst.Length
      ensures ok && !full ==> filledIp + 4 <= ip && 3 <= ip && Table(ip - 3) && Held(held)
    {
      hide Table, HashPosition;
      ghost var start := ip;
      code := Count(src, ip + MINMATCH, from + MINMATCH, |src| - LASTLITERALS);
      CountedMatch(src, ip, from, top, code, |src| - LASTLITERALS);
      ip := ip + MINMATCH + code;
      LaterTable(top + 1, ip - 3);
      LaterTable(top + 1, ip);
      if !out.limit.NotLimited? && out.op + (1 + LASTLITERALS) + (code + 240) / 255 > out.dst.Length {
        if out.limit.LimitedOutput? { return false, code; }
        code := CutMatch(start, top, code);
      }
      return true, code;
    }

    /** Cut the match to what the output can take; what was entered behind its new end is taken out of the
        table. */
    method CutMatch(ghost start: nat, ghost top: nat, code0: nat) returns (code: nat)
      requires Parts() && out.limit.FillOutput?
      requires from < start && ip == start + MINMATCH + code0 <= |src| - LASTLITERALS
      requires RealMatch(src, start, start - from, MINMATCH + code0)
      requires out.op + 9 <= out.dst.Length < out.op + (1 + LASTLITERALS) + (code0 + 240) / 255
      requires Table(top + 1) && start <= top <= |src| - MFLIMIT && filledIp <= top && (top == filledIp || top == start)
      modifies this`ip, this`full, hashTable
      ensures full && ip == start + MINMATCH + code <= |src| - LASTLITERALS && Table(ip)
      ensures RealMatch(src, start, start - from, MINMATCH + code)
      ensures out.op + (1 + LASTLITERALS) + (code + 240) / 255 == out.dst.Length
    {
      hide Table, HashPosition;
      full := true;
      code := ML_MASK - 1 + (out.dst.Length - out.op - 1 - LASTLITERALS) * 255;
      RealMatchPart(src, start, start - from, MINMATCH + code0, start, MINMATCH + code);
      ip := ip - (code0 - code);
      if ip <= filledIp {
        LaterTable(top + 1, filledIp + 1);
        ClearPositions();
      } else {
        LaterTable(top + 1, ip);
      }
    }

    /** Take the positions from `ip` on out of the table. */
    method ClearPositions()
      requires Parts() && 1 <= ip <= filledIp <= |src| - MFLIMIT && Table(filledIp + 1)
      modifies hashTable
      ensures Table(ip)
    {
      hide HashPosition;
      var ptr := ip;
      ghost var end := filledIp + 1;
      while ptr <= filledIp
        invariant ip <= ptr <= filledIp + 1
        invariant Table(end)
        invariant forall h :: 0 <= h < hashTable.Length ==> Cleared(h, ptr)
      {
        var h := HashPosition(src, ptr, byU16);
        ghost var next := ptr + 1;
        forall k | 0 <= k < hashTable.Length && k != h ensures Cleared(k, next) {
          assert Entry(k, end) && Cleared(k, ptr);
        }
        label Before:
        hashTable[h] := 0;
        forall k | 0 <= k < hashTable.Length ensures Entry(k, end) && Cleared(k, next) {
          assert k != h ==> old@Before(Entry(k, end) && Cleared(k, next));
        }
        ptr := ptr + 1;
      }
      forall h | 0 <= h < hashTable.Length ensures Entry(h, ip) {
        assert Entry(h, end) && Cleared(h, ptr);
      }
    }

    /** The entry is not one of the positions from `ip` to `ptr`. */
    ghost predicate Cleared(h: nat, ptr: nat)
      requires h < hashTable.Length
      reads this, hashTable
    {
      hashTable[h] < ip || ptr <= hashTable[h]
    }

    /** A match is written. */
    ghost predicate AfterMatch()
      reads this, out, out.dst, hashTable
    {
      && Parts() && out.Valid() && Clean(ip) && out.anchor == ip && MINMATCH <= ip <= |src| - LASTLITERALS && Table(ip)
      && (out.limit.LimitedOutput? ==> out.op + 1 + LASTLITERALS <= out.dst.Length)
      && if full then Filled(out.op)
         else filledIp < ip && Table(ip - 3) && out.ss != [] && Held(Almost(out.ss, acceleration))
    }

    /** _next_match: write the match, behind the literals that are written already. */
    method EncodeMatch(ghost top: nat) returns (l: Label)
      requires AtMatch(top)
      modifies this`ip, this`full, out, out.dst, hashTable
      ensures l.MainLoop? || l.EndOfBlock? || l.CannotCompress?
      ensures l.MainLoop? ==> AfterMatch() && ip > old(ip)
      ensures l.EndOfBlock? ==> AtEnd()
      ensures l.CannotCompress? ==> AtFailure()
    {
      hide Written, Periodic, Table, LiteralBytes, LongestRepeat, Clean, Entered;
      if out.limit.FillOutput? && out.op + 2 + 1 + MFLIMIT - MINMATCH > out.dst.Length {
        CleanLess(ip, 0);
        out.op := token;
        return EndOfBlock;
      }
      l := WriteMatch(top);
    }

    /** The same, when the match is not too close to the end of the output. */
    method WriteMatch(ghost top: nat) returns (l: Label)
      requires AtMatch(top) && (out.limit.FillOutput? ==> out.op + 2 + 1 + MFLIMIT - MINMATCH <= out.dst.Length)
      modifies this`ip, this`full, out, out.dst, hashTable
      ensures l.MainLoop? || l.CannotCompress?
      ensures l.MainLoop? ==> AfterMatch() && ip > old(ip)
      ensures l.CannotCompress? ==> AtFailure()
    {
      hide Written, Periodic, Table, LiteralBytes, SequenceBytes, EndRoom, ExtraBytes, Output.Valid, RealMatch, Clean,
          TooLong, Held, Entering, Almost;
      ghost var before, lit, start := out.dst[..token], src[out.anchor..ip], ip;
      ghost var held := Entering(out.ss, acceleration, ip);
      NotFull();
      var off := ip - from;
      MatchRoom();
      WriteOffset(out.dst, out.op, off);
      out.op := out.op + 2;
      var ok, code := MatchCode(top, held);
      if !ok {
        NoRoomForMatch(before, start, off, code);
        ghost var s: Sequence := Sequence(lit, off, MINMATCH + code);
        out.ss := out.ss + [s];
        return CannotCompress;
      }
      ExtraSize(code);
      AlmostIs(before, start, Sequence(lit, off, MINMATCH + code));
      FinishMatch(before, start, off, code);
      return MainLoop;
    }

    lemma NotFull()
      requires Begun() && Entered(ip) && !full
      ensures Held(Entering(out.ss, acceleration, ip)) && RunsIn(out.ss, 0, NewPlaces(src, acceleration))
      ensures forall p :: out.anchor <= p < ip ==> (out.ss, p) in NewPlaces(src, acceleration)
    {
    }

    /** What was looked at before the match is what is in the table behind it. */
    lemma AlmostIs(before: seq<byte>, start: nat, s: Sequence)
      requires Written(before, out.ss, src, out.anchor)
      requires out.anchor <= start <= |src| && s.lit == src[out.anchor..start]
      ensures Almost(out.ss + [s], acceleration) == Entering(out.ss, acceleration, start)
    {
      hide HashPosition, Looked;
      WrittenUpTo(before);
      assert (out.ss + [s])[..|out.ss|] == out.ss;
    }

    lemma NoRoomForMatch(before: seq<byte>, start: nat, off: nat, code: nat)
      requires Written(before, out.ss, src, out.anchor) && out.src == src
      requires out.anchor <= start <= |src| - MFLIMIT && start + MINMATCH + code <= |src| - LASTLITERALS
      requires RealMatch(src, start, off, MINMATCH + code)
      requires |before| + |LiteralBytes(src[out.anchor..start], 0)| + 2 + 6 + (code + 240) / 255 > out.dst.Length
      ensures TooLong(out.ss + [Sequence(src[out.anchor..start], off, MINMATCH + code)], src, out.dst.Length)
    {
      hide Written, TooLong, SequenceBytes;
      var s := Sequence(src[out.anchor..start], off, MINMATCH + code);
      SizeOfBytes(s);
      ExtraSize(code);
      WrittenMore(before, out.ss, src, out.anchor, start, off, MINMATCH + code);
      MatchTooLong(before, out.ss, src, out.anchor, s, start + MINMATCH + code, out.dst.Length);
    }

    /** Write the length of the match; then it is one more sequence. */
    method FinishMatch(ghost before: seq<byte>, ghost start: nat, ghost off: nat, code: nat)
      requires Parts() && out.Sizes() && token <= out.op <= out.dst.Length && before == out.dst[..token]
      requires RunsIn(out.ss, 0, NewPlaces(src, acceleration))
      requires forall p :: out.anchor <= p < start ==> (out.ss, p) in NewPlaces(src, acceleration)
      requires Written(before, out.ss, src, out.anchor)
      requires out.anchor <= start <= |src| - MFLIMIT && ip == start + MINMATCH + code <= |src| - LASTLITERALS
      requires RealMatch(src, start, off, MINMATCH + code)
      requires out.dst[..out.op] == before + LiteralBytes(src[out.anchor..start], 0) + LE16(off)
      requires !out.limit.NotLimited? ==> out.op + (1 + LASTLITERALS) + (code + 240) / 255 <= out.dst.Length
      requires out.limit.FillOutput? ==> out.op + 1 + MFLIMIT - MINMATCH <= out.dst.Length
      modifies out, out.dst
      ensures out.Valid() && out.anchor == ip && Clean(ip)
      ensures out.op == old(out.op) + |ExtraBytes(code)|
      ensures out.ss == old(out.ss + [Sequence(src[out.anchor..start], off, MINMATCH + code)])
    {
      hide Written, Periodic, LiteralBytes, SequenceBytes, RunsIn, NewPlaces;
      ghost var lit := src[out.anchor..start];
      ghost var s := Sequence(lit, off, MINMATCH + code);
      SequenceBytesLength(s);
      SequenceBytesAre(s);
      ExtraSize(code);
      WrittenMore(before, out.ss, src, out.anchor, start, off, MINMATCH + code);
      WrittenSize(before + SequenceBytes(s), out.ss + [s], src, ip);
      WrittenUpTo(before);
      RunsMore(out.ss, 0, NewPlaces(src, acceleration), s);
      out.op := WriteMatchCode(out.dst, token, out.op, code, before, lit, off);
      out.ss, out.anchor := out.ss + [s], ip;
    }

    lemma WrittenUpTo(before: seq<byte>)
      requires Written(before, out.ss, src, out.anchor)
      ensures |Text(out.ss)| == out.anchor
    {
    }

    lemma MatchRoom()
      requires Begun() && (out.limit.FillOutput? ==> out.op + 2 + 1 + MFLIMIT - MINMATCH <= out.dst.Length)
      ensures out.op + 2 <= out.dst.Length
    {
      hide Written;
      if out.limit.NotLimited? {
        BoundIsRoomy(out.dst[..token], out.ss, src, out.anchor, ip, MINMATCH, out.dst.Length);
      }
    }

    /** Behind a match: is it the end of the block, does another match follow at once, or is it
        back to the search? */
    method TestNext() returns (l: Label)
      requires AfterMatch()
      modifies this`ip, this`from, this`token, this`forwardH, out`op, out.dst, hashTable
      ensures l.MainLoop? || l.NextMatch? || l.EndOfBlock?
      ensures l.MainLoop? ==> AtMain()
      ensures l.NextMatch? ==> AtMatch(ip)
      ensures l.EndOfBlock? ==> AtEnd()
      ensures out.anchor <= ip
    {
      hide Written, Periodic, HashPosition, EndRoom, Matches, Clean, Entered, Table, Output.Valid, Held, Almost;
      if ip >= |src| - MFLIMIT + 1 {
        CleanLess(ip, if out.limit.FillOutput? then 0 else |src| - MFLIMIT + 1);
        return EndOfBlock;
      }
      NextCandidate();
      if Matches(from, ip) {
        MatchesRepeats(from, ip);
        EnteredLess(ip + 1, ip);
        BeginWithoutLiterals();
        return NextMatch;
      }
      SearchAgain();
      return MainLoop;
    }

    /** Back to the search, from the position behind. */
    method SearchAgain()
      requires Parts() && out.Valid() && Clean(ip + 1) && out.anchor == ip <= |src| - MFLIMIT
      requires Table(ip + 1) && Entered(ip + 1) && (full ==> Filled(out.op))
      modifies this`ip, this`forwardH
      ensures AtMain() && ip == old(ip) + 1
    {
      hide Written, HashPosition, EndRoom, Clean, Entered, Table, Output.Valid;
      ip := ip + 1;
      forwardH := HashPosition(src, ip, byU16);
    }

    /** The candidate at the end of a match; the position 2 bytes before and the end itself are entered. */
    method NextCandidate()
      requires AfterMatch() && ip <= |src| - MFLIMIT
      modifies this`from, hashTable
      ensures from < ip && Table(ip + 1) && Entered(ip + 1)
      ensures !Matches(from, ip) ==> Clean(ip + 1)
    {
      hide HashPosition, Table, Held, Almost, Text, Clean, Matches, Output.Valid, Probe, Looked;
      WrittenSoFar();
      FirstProbes();
      ghost var held := if full then iset{} else Almost(out.ss, acceleration);
      NothingHeld();
      if !full { LaterTable(ip - 3, ip - 2); }
      Put(ip - 2, HashPosition(src, ip - 2, byU16), held);
      held := if full then iset{} else Seen(out.ss, acceleration);
      NothingHeld();
      from := Exchange(ip, HashPosition(src, ip, byU16), held);
      FirstLooked();
      if !Matches(from, ip) { OneMoreNew(from, 0); }
    }

    lemma NothingHeld()
      ensures Held(iset{})
    {
    }

    /** Behind a match its end is looked at first. */
    lemma FirstLooked()
      requires |Text(out.ss)| == out.anchor == ip && 1 <= acceleration
      requires !full ==> Held(Seen(out.ss, acceleration) + iset{ip})
      ensures Entered(ip + 1)
      ensures forall q :: q in Entering(out.ss, acceleration, ip) && q < ip ==> q in Seen(out.ss, acceleration)
    {
      hide HashPosition, Seen, Text, Probe;
      forall j: nat ensures Probe(acceleration, j) >= j {
        FirstProbes();
        ProbesGrow(acceleration, 0, j);
      }
      FirstProbes();
    }

    /** A token for a sequence without literals. */
    method BeginWithoutLiterals()
      requires Parts() && out.Valid() && Clean(ip) && out.anchor == ip <= |src| - MFLIMIT
      requires out.limit.LimitedOutput? ==> out.op + 1 + LASTLITERALS <= out.dst.Length
      requires Repeats(ip) && Table(ip + 1) && Entered(ip)
      requires if full then Filled(out.op) else filledIp < ip
      modifies this`token, out`op, out.dst
      ensures AtMatch(ip)
    {
      hide Written, Clean, Table, Periodic, Entered;
      token := out.op;
      ghost var before := out.dst[..token];
      WrittenSize(before, out.ss, src, out.anchor);
      out.dst[token] := 0;
      out.op := token + 1;
      assert out.dst[..token] == before && src[ip..ip] == [];
      assert out.dst[..out.op] == before + [0];
    }

    /** From the search to a match whose literals are written. */
    method Search() returns (l: Label)
      requires AtMain()
      modifies this`ip, this`from, this`filledIp, this`token, this`forwardH, out`op, out`ss, out.dst, hashTable
      ensures l.NextMatch? || l.EndOfBlock? || l.CannotCompress?
      ensures l.NextMatch? ==> AtMatch(filledIp)
      ensures l.EndOfBlock? ==> AtEnd()
      ensures l.CannotCompress? ==> AtFailure()
    {
      hide Written, Periodic, HashPosition, EndRoom, LiteralBytes, Output.Valid, Table, Clean, Entered, TooLong;
      var found := FindMatch();
      if !found {
        CleanLess(|src| - MFLIMIT + 1, if out.limit.FillOutput? then 0 else |src| - MFLIMIT + 1);
        return EndOfBlock;
      }
      CatchUp();
      l := EncodeLiterals();
    }

    /** The whole compressor.  As far as it gets, all literals that were looked at were new. */
    method Run() returns (r: nat, consumed: nat)
      requires AtMain()
      modifies this, out, out.dst, hashTable
      ensures out.Finished(r, consumed)
      ensures r > 0 ==> RunsIn(out.ss, 0, NewPlaces(src, acceleration))
      ensures r > 0 && !out.limit.FillOutput? ==> RestIn(out.ss, |src|, NewPlaces(src, acceleration))
    {
      hide Written, Periodic, HashPosition, EndRoom, LiteralBytes, Output.Valid, Table, RealMatch, Parts, Clean,
          Entered, TooLong, RunsIn, NewPlaces, Output.Finished;
      var l := MainLoop;
      ghost var top := 0;
      while l.MainLoop? || l.NextMatch?
        invariant l.MainLoop? ==> AtMain()
        invariant l.NextMatch? ==> AtMatch(top)
        invariant l.EndOfBlock? ==> AtEnd()
        invariant l.CannotCompress? ==> AtFailure()
        decreases if l.MainLoop? || l.NextMatch? then 1 else 0, |src| - out.anchor, if l.MainLoop? then 1 else 0
      {
        if l.MainLoop? {
          l := Search();
          top := filledIp;
        } else {
          l := EncodeMatch(top);
          if l.MainLoop? {
            l := TestNext();
            top := ip;
          }
        }
      }
      if l.CannotCompress? {
        Failed();
        return 0, 0;
      }
      NewAtEnd();
      r, consumed := out.LastLiterals();
    }

    lemma Failed()
      requires AtFailure()
      ensures out.Finished(0, 0)
    {
    }

    lemma NewAtEnd()
      requires AtEnd()
      ensures RunsIn(out.ss, 0, NewPlaces(src, acceleration))
      ensures !out.limit.FillOutput? ==> RestIn(out.ss, |src|, NewPlaces(src, acceleration))
    {
      hide RunsIn, NewPlaces;
      WrittenUpTo(out.dst[..out.op]);
    }
  }

  /** A block of which all literals that were looked at were new; when the output is full, all but the last
      literals. */
  ghost predicate Parsed(ss: seq<Sequence>, src: seq<byte>, acceleration: nat, full: bool)
  {
    RunsIn(ss, 0, NewPlaces(src, acceleration)) && (!full ==> RestIn(ss, |src|, NewPlaces(src, acceleration)))
  }

  /** LZ4_compress_generic on a fresh state, without dictionary.  `ss` are the sequences that are
      written, or, when nothing is, that begin no block that fits. */
  method CompressGeneric(src: seq<byte>, dst: array<byte>, limit: Limit, acceleration: nat)
    returns (r: nat, consumed: nat, ghost ss: seq<Sequence>)
    requires limit.NotLimited? ==> dst.Length >= CompressBound(|src|)
    requires 1 <= acceleration
    modifies dst
    ensures r <= dst.Length && consumed <= |src|
    ensures r > 0 ==> BlockOf(ss, dst[..r], src[..consumed]) && Parsed(ss, src, acceleration, limit.FillOutput?)
    ensures r > 0 && consumed < |src| ==> limit.FillOutput? && r == dst.Length - Slack(dst.Length - |Emit(ss)|)
    ensures r == 0 && |src| <= 0x7E000000 && dst.Length >= 1 ==> limit.LimitedOutput? && TooLong(ss, src, dst.Length)
    ensures limit.NotLimited? && |src| <= 0x7E000000 ==> 0 < r <= CompressBound(|src|)
  {
    hide BlockOf, TooLong, Parsed, Output.Valid;
    ss := [];
    if |src| > LZ4_MAX_INPUT_SIZE { return 0, 0, []; }
    if |src| == 0 {
      if !limit.NotLimited? && dst.Length <= 0 { return 0, 0, []; }
      dst[0] := 0;
      EmptyBlock(dst[..1]);
      assert src[..0] == [];
      ShortIsNew(src, acceleration, limit.FillOutput?);
      return 1, 0, [];
    }
    if limit.FillOutput? && dst.Length < 1 { return 0, 0, []; }
    var out := new Output(src, dst, limit);
    r, consumed := Parse(out, acceleration);
    ss := out.ss;
    if r == 0 { consumed := 0; }
  }

  /** Everything from the first byte on, with the table for the size of the input. */
  method Parse(out: Output, acceleration: nat) returns (r: nat, consumed: nat)
    requires out.Valid() && out.anchor == 0 && out.ss == [] && |out.src| <= LZ4_MAX_INPUT_SIZE && 1 <= acceleration
    modifies out, out.dst
    ensures out.Finished(r, consumed)
    ensures r > 0 ==> Parsed(out.ss, out.src, acceleration, out.limit.FillOutput?)
  {
    hide RunsIn, RestIn, NewPlaces, Output.Valid, Output.Finished;
    if |out.src| < LZ4_minLength {
      r, consumed := out.LastLiterals();
      ShortIsNew(out.src, acceleration, out.limit.FillOutput?);
    } else {
      var compressor := new FastCompressor(out, |out.src| < LZ4_64Klimit, acceleration);
      r, consumed := compressor.Run();
    }
  }

  lemma ShortIsNew(src: seq<byte>, acceleration: nat, full: bool)
    requires |src| < LZ4_minLength
    ensures Parsed([], src, acceleration, full)
  {
    hide HashPosition, Entering;
    NoSequences();
    assert forall p, k: nat :: 0 <= p <= |src| - 12 ==> New(src, true, acceleration, [], k, p);
  }

  /** LZ4_compress_fast: the limit is only looked at when the buffer is smaller than the bound. */
  method CompressFast(src: seq<byte>, dst: array<byte>, acceleration: int) returns (r: nat, ghost ss: seq<Sequence>)
    modifies dst
    ensures r <= dst.Length
    ensures r > 0 ==> BlockOf(ss, dst[..r], src) && Parsed(ss, src, Min(Max(acceleration, 1), 65537), false)
    ensures r == 0 && |src| <= 0x7E000000 && dst.Length >= 1 ==> TooLong(ss, src, dst.Length)
    ensures |src| <= 0x7E000000 && dst.Length >= CompressBound(|src|) ==> 0 < r <= CompressBound(|src|)
  {
    hide BlockOf, TooLong, Parsed;
    var limit := if dst.Length >= CompressBound(|src|) then NotLimited else LimitedOutput;
    var consumed;
    r, consumed, ss := CompressGeneric(src, dst, limit, Min(Max(acceleration, 1), LZ4_ACCELERATION_MAX));
    assert consumed == |src| ==> src[..consumed] == src;
  }

  /** LZ4_compress_destSize: as much of the input as fits the output, which is full then. */
  method CompressDestSize(src: seq<byte>, dst: array<byte>) returns (r: nat, consumed: nat, ghost ss: seq<Sequence>)
    modifies dst
    ensures r <= dst.Length && consumed <= |src|
    ensures |src| <= 0x7E000000 && dst.Length >= 1 ==> r > 0
    ensures r > 0 ==> BlockOf(ss, dst[..r], src[..consumed]) && Parsed(ss, src, 1, dst.Length < CompressBound(|src|))
    ensures r > 0 && consumed < |src| ==> r == dst.Length - Slack(dst.Length - |Emit(ss)|)
    ensures |src| <= 0x7E000000 && dst.Length >= CompressBound(|src|) ==> consumed == |src|
  {
    hide BlockOf, TooLong, Parsed;
    if dst.Length >= CompressBound(|src|) {
      r, ss := CompressFast(src, dst, 1);
      assert src[..|src|] == src;
      return r, |src|, ss;
    }
    r, consumed, ss := CompressGeneric(src, dst, FillOutput, 1);
  }

  /** Fifteen different bytes do not fill a buffer of 16: with 14 of them the token has no length byte, and
      with 15 the length byte does not fit. */
  method NotQuiteFull(src: seq<byte>) returns (r: nat, consumed: nat)
    requires |src| == 15 && forall i, j :: 0 <= i < j < 15 ==> src[i] != src[j]
    ensures r == 15 && consumed == 14
  {
    hide Parsed, TooLong, BlockOf;
    var dst := new byte[16];
    ghost var ss;
    r, consumed, ss := CompressDestSize(src, dst);
    FifteenBytes(src, ss, dst[..r], consumed);
  }

  lemma FifteenBytes(src: seq<byte>, ss: seq<Sequence>, block: seq<byte>, consumed: nat)
    requires |src| == 15 && forall i, j :: 0 <= i < j < 15 ==> src[i] != src[j]
    requires consumed <= 15 && BlockOf(ss, block, src[..consumed]) && |block| <= 16
    requires consumed < 15 ==> |block| == 16 - Slack(16 - |Emit(ss)|)
    ensures |block| == 15 && consumed == 14
  {
    hide Text, Emit, Fits, LastBytes, ExtraBytes;
    NothingRepeats(ss, src[..consumed]);
    NoSequences();
    LastSize(src[..consumed]);
    ExtraSize(consumed);
    assert src[..consumed][0..] == src[..consumed];
  }

  /** A text in which no byte comes twice has no matches. */
  lemma NothingRepeats(ss: seq<Sequence>, text: seq<byte>)
    requires Fits(ss, |text|) && Text(ss) <= text
    requires forall i, j :: 0 <= i < j < |text| ==> text[i] != text[j]
    ensures ss == []
  {
    hide Text, Fits;
    if ss != [] { LastMatchRepeats(ss, text); }
  }

  lemma LastMatchRepeats(ss: seq<Sequence>, text: seq<byte>)
    requires Fits(ss, |text|) && ss != [] && Text(ss) <= text
    ensures exists i, j :: 0 <= i < j < |text| && text[i] == text[j]
  {
    var s := ss[|ss| - 1];
    var t := Text(ss[..|ss| - 1]) + s.lit;
    RepeatIsPeriodic(t, s.off, s.len);
    assert Copied(Text(ss), s.off, |t|);
    assert text[|t| - s.off] == text[|t|];
  }

  /** Round trip: a buffer of LZ4_compressBound bytes is enough, and the block decodes to the
      input in a buffer of exactly its size. */
  method RoundTrip(src: seq<byte>, acceleration: int) returns (text: seq<byte>)
    requires |src| <= LZ4_MAX_INPUT_SIZE
    ensures text == src
  {
    hide BlockOf, Decode, Parsed;
    var comp := new byte[CompressBound(|src|)];
    var r;
    ghost var ss;
    r, ss := CompressFast(src, comp, acceleration);
    assert BlockOf(ss, comp[..r], src);
    BlockDecodes(comp[..r], src, |src|);
    var dec := new byte[|src|];
    var n := DecompressSafe(comp[..r], dec);
    text := dec[..n];
  }

  /** The same for a full output: the prefix that was consumed comes back. */
  method RoundTripDestSize(src: seq<byte>, target: nat) returns (text: seq<byte>, consumed: nat)
    requires |src| <= LZ4_MAX_INPUT_SIZE && target >= 1
    ensures consumed <= |src| && text == src[..consumed]
  {
    hide BlockOf, Decode, Parsed;
    var comp := new byte[target];
    var r;
    ghost var ss;
    r, consumed, ss := CompressDestSize(src, comp);
    assert BlockOf(ss, comp[..r], src[..consumed]);
    BlockDecodes(comp[..r], src[..consumed], consumed);
    var dec := new byte[consumed];
    var n := DecompressSafe(comp[..r], dec);
    text := dec[..n];
  }

  /** Decoding only a part gives that part: as much as was asked for, or all there is; with something
      else behind the block, no more may be asked for than there is. */
  method RoundTripPartial(src: seq<byte>, acceleration: int, target: nat, capacity: nat, behind: seq<byte>)
    returns (text: seq<byte>)
    requires |src| <= LZ4_MAX_INPUT_SIZE && (behind == [] || Min(target, capacity) <= |src|)
    ensures text == src[..Min(Min(target, capacity), |src|)]
  {
    hide BlockOf, Decode, Parsed;
    var comp := new byte[CompressBound(|src|)];
    var r;
    ghost var ss;
    r, ss := CompressFast(src, comp, acceleration);
    assert BlockOf(ss, comp[..r], src);
    BlockDecodes(comp[..r], src, |src|);
    var dec := new byte[Min(target, capacity)];
    var block := comp[..r] + behind;
    var n := DecompressSafePartial(block, dec, target, capacity, comp[..r], |src|);
    text := dec[..n];
  }

  /** The bytes of a match length as the fast compressor writes them: 4 at a time, all 255, and
      then the last one over them.  Up to 3 bytes behind the last one are overwritten. */
  method WriteMatchCode(dst: array<byte>, token: nat, op0: nat, code: nat, ghost before: seq<byte>,
          ghost lit: seq<byte>, ghost off: u16)
    returns (op: nat)
    requires |before| == token && op0 == token + |LiteralBytes(lit, 0)| + 2
    requires op0 <= dst.Length && (code >= ML_MASK ==> op0 + |ExtraBytes(code)| + 3 <= dst.Length)
    requires dst[..op0] == before + LiteralBytes(lit, 0) + LE16(off)
    modifies dst
    ensures op == op0 + |ExtraBytes(code)|
    ensures dst[..op] == before + (LiteralBytes(lit, code) + LE16(off) + ExtraBytes(code))
  {
    op := op0;
    if code >= ML_MASK {
      op := WriteLengthFours(dst, op, code - ML_MASK);
    }
    hide LiteralBytes, LengthBytes;
    ghost var d := dst[..op];
    assert d == before + LiteralBytes(lit, 0) + LE16(off) + ExtraBytes(code);
    JoinToken(before, lit, off, code);
    TokenAt(before, lit, d);
    dst[token] := dst[token] + Min(code, ML_MASK);
    assert dst[..op] == d[token := Token(|lit|, code)];
  }

  method WriteLengthFours(dst: array<byte>, op0: nat, n: nat) returns (op: nat)
    requires op0 + n / 255 + 4 <= dst.Length
    modifies dst
    ensures op == op0 + n / 255 + 1
    ensures dst[..op] == old(dst[..op0]) + LengthBytes(n)
  {
    hide LengthBytes;
    op := op0;
    var code: nat := n;
    Write32(dst, op);
    while code >= 4 * 255
      invariant op0 <= op && op + 4 <= dst.Length && code <= n && op + code / 255 == op0 + n / 255
      invariant dst[..op] + LengthBytes(code) == old(dst[..op0]) + LengthBytes(n)
      invariant dst[op..op + 4] == [255, 255, 255, 255]
    {
      FourMore(dst[..op], dst[..op + 4], code);
      op := op + 4;
      Write32(dst, op);
      code := code - 4 * 255;
    }
    LastOf(dst[..op], dst[..], op, code);
    ghost var d := dst[..];
    op := op + code / 255;
    dst[op] := code % 255;
    op := op + 1;
    assert dst[..op] == d[..op - 1] + [code % 255];
  }

  /** LZ4_write32 of 0xFFFFFFFF. */
  method Write32(dst: array<byte>, op: nat)
    requires op + 4 <= dst.Length
    modifies dst
    ensures dst[..op] == old(dst[..op]) && dst[op..op + 4] == [255, 255, 255, 255]
  {
    dst[op], dst[op + 1], dst[op + 2], dst[op + 3] := 255, 255, 255, 255;
  }

  lemma FourMore(before: seq<byte>, after: seq<byte>, code: nat)
    requires code >= 4 * 255 && |after| == |before| + 4 && after[..|before|] == before
        && after[|before|..] == [255, 255, 255, 255]
    ensures before + LengthBytes(code) == after + LengthBytes(code - 4 * 255)
  {
    assert LengthBytes(code) == [255] + LengthBytes(code - 255);
    assert LengthBytes(code - 255) == [255] + LengthBytes(code - 510);
    assert LengthBytes(code - 510) == [255] + LengthBytes(code - 765);
    assert LengthBytes(code - 765) == [255] + LengthBytes(code - 1020);
  }

  /** Fewer than 4 times 255 are left: that many of the 4 bytes stay, and one with the rest. */
  lemma LastOf(before: seq<byte>, d: seq<byte>, op: nat, code: nat)
    requires code < 4 * 255 && op + 4 <= |d| && before == d[..op] && d[op..op + 4] == [255, 255, 255, 255]
    ensures d[..op + code / 255] + [code % 255] == before + LengthBytes(code)
  {
    var k := code / 255;
    assert d[..op + k] == d[..op] + d[op..op + 4][..k];
    if k >= 1 { assert LengthBytes(code) == [255] + LengthBytes(code - 255); }
    if k >= 2 { assert LengthBytes(code - 255) == [255] + LengthBytes(code - 510); }
    if k >= 3 { assert LengthBytes(code - 510) == [255] + LengthBytes(code - 765); }
  }

  /** What LZ4_count finds behind the first 4 bytes makes the match as long as can be; it covers
      everything that is known to repeat. */
  lemma CountedMatch(s: seq<byte>, ip: nat, from: nat, top: nat, code: nat, limit: nat)
    requires from < ip <= top && top + MINMATCH <= limit <= |s| && ip - from <= DISTANCE_MAX
    requires Periodic(s, ip, top + MINMATCH, ip - from)
    requires LongestRepeat(s, ip + MINMATCH, ip - from, code, limit)
    ensures RealMatch(s, ip, ip - from, MINMATCH + code)
    ensures top + MINMATCH <= ip + MINMATCH + code <= limit
  {
    var off: nat := ip - from;
    assert ip + code < top ==> Copied(s, off, ip + MINMATCH + code);
  }

  /** Whatever is written takes up little more than the text it stands for. */
  lemma WrittenSize(d: seq<byte>, ss: seq<Sequence>, src: seq<byte>, anchor: nat)
    requires Written(d, ss, src, anchor)
    ensures |d| <= anchor + anchor / 255 <= |src| + |src| / 255
  {
    EmitSize(ss, |src|);
  }
}
