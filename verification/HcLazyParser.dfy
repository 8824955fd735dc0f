/** LZ4HC_compress_hashChain: the lazy parser, which looks for up to three overlapping matches
    before it writes one.  Its gotos are labels here; each label's state is an invariant. */
module HcLazyParser {
  import opened Bytes
  import opened BlockFormat
  import opened HcSearch
  import opened BlockOutput
  import SequenceWriter

  const OPTIMAL_ML := (ML_MASK - 1) + MINMATCH

  /** Where the parser goes next. */
  datatype Label = MainLoop | Search2 | Search3 | DestOverflow

  /** How many of the nearest positions with the same hash are tried for sure: in a run of one byte the
      pattern analysis of level 9 may jump after the first. */
  function Sure(s: seq<byte>, p: nat, n: nat): nat
  {
    if n > 128 && Equal4(s, p) then 1 else n
  }

  /** No match of 4 bytes at `p` with the nearest of `n` positions that have its hash. */
  ghost predicate Silent(s: seq<byte>, p: nat, n: nat)
  {
    p + 12 <= |s| ==> NearestCovered(s, Task(p, p, |s| - 5, 1), Sure(s, p, n), 3)
  }

  ghost function SilentPlaces(s: seq<byte>, n: nat): Places
  {
    iset q: (seq<Sequence>, int) | 0 <= q.1 && Silent(s, q.1, n)
  }

  class LazyParser {
    const src: seq<byte>
    const out: Output
    const ctx: HcContext
    const maxNbAttempts: nat
    const patternAnalysis: bool
    var ip: nat
    var start0: nat
    var start2: nat
    var start3: nat
    var m0: Match
    var m1: Match
    var m2: Match
    var m3: Match
    ghost var searched: int  // the position searched last, or -1

    constructor (out: Output, ctx: HcContext, maxNbAttempts: nat)
      requires out.Valid() && out.anchor == 0 && out.ss == [] && maxNbAttempts >= 1
      requires ctx.Valid() && ctx.src == out.src && ctx.nextToUpdate == ctx.base
      requires out.dst as object != ctx.hashTable && out.dst as object != ctx.chainTable
      ensures AtMain() && this.out == out && this.ctx == ctx && ip == 0
      ensures this.maxNbAttempts == maxNbAttempts && (patternAnalysis <==> maxNbAttempts > 128)
    {
      src, this.out, this.ctx := out.src, out, ctx;
      this.maxNbAttempts := maxNbAttempts;
      patternAnalysis := maxNbAttempts > 128;
      ip, start0, start2, start3 := 0, 0, 0, 0;
      m0, m1, m2, m3 := NOMATCH, NOMATCH, NOMATCH, NOMATCH;
      searched := -1;
    }

    ghost function Footprint(): set<object>
      reads this
    {
      {this, out, out.dst, ctx, ctx.hashTable, ctx.chainTable}
    }

    /** The parts fit together, and the tables are filled up to the position searched last. */
    ghost predicate Parts()
      reads this, ctx, ctx.hashTable, ctx.chainTable
    {
      && out.src == src && ctx.src == src && maxNbAttempts >= 1 && (patternAnalysis <==> maxNbAttempts > 128)
      && out.dst as object != ctx.hashTable && out.dst as object != ctx.chainTable
      && ctx.Valid() && -1 <= searched
      && ctx.nextToUpdate == ctx.base + (if searched == -1 then 0 else searched)
    }

    /** The literals before all matches written, but the last 4 of them, are places without a match, and
        so is what comes behind the last match up to `e`. */
    ghost predicate Clean(e: int)
      reads out
    {
      && RunsIn(out.ss, 4, SilentPlaces(src, maxNbAttempts))
      && forall p :: out.anchor <= p < e ==> (out.ss, p) in SilentPlaces(src, maxNbAttempts)
    }

    ghost predicate Base()
      reads this, out, out.dst, ctx, ctx.hashTable, ctx.chainTable
    {
      Parts() && out.Valid() && out.anchor <= ip
    }

    /** `m` is a real match at `pos` that may be written. */
    ghost predicate Real(m: Match, pos: nat)
    {
      RealMatch(src, pos, m.off, m.len) && m.len >= MINMATCH && pos + m.len <= |src| - LASTLITERALS
    }

    ghost predicate AtMain()
      reads this, out, out.dst, ctx, ctx.hashTable, ctx.chainTable
    {
      Base() && Clean(ip) && searched < ip
    }

    /** One match is known, at `ip`.  The one it replaced, if any, began at most 2 bytes earlier
        and was shorter; it may still be used. */
    ghost predicate AtSearch2()
      reads this, out, out.dst, ctx, ctx.hashTable, ctx.chainTable
    {
      && Base() && Clean(start0 - 2) && ip <= |src| - MFLIMIT
      && Real(m1, ip) && searched + MINMATCH <= ip + m1.len
      && Real(m0, start0) && out.anchor <= start0 <= ip <= start0 + 2
      && m0.len <= m1.len && (start0 < ip ==> m0.len < m1.len)
    }

    /** Two matches are known.  There is room to cut the first one at the second, or the second
        where the first one ends; between them is at most one byte. */
    ghost predicate AtSearch3()
      reads this, out, out.dst, ctx, ctx.hashTable, ctx.chainTable
    {
      && Base() && Clean(ip - 4)
      && Real(m1, ip) && ip + m1.len <= |src| - MFLIMIT
      && Real(m2, start2) && searched + MINMATCH <= start2 + m2.len
      && ip <= start2 <= |src| - MFLIMIT
      && start2 - ip + m2.len >= 2 * MINMATCH
      && (start2 <= ip + m1.len || (start2 == ip + m1.len + 1 && m2.len >= MINMATCH + 2))
    }

    /** The sequence (m1 at ip) did not fit. */
    ghost predicate AtOverflow()
      reads this, out, out.dst, ctx, ctx.hashTable, ctx.chainTable
    {
      && Parts() && out.Overflowed() && Clean(ip - 4) && out.anchor <= ip <= |src| - MFLIMIT
      && Real(m1, ip) && out.NoRoomFor(ip, m1.len)
    }

    ghost predicate At(l: Label)
      reads this, out, out.dst, ctx, ctx.hashTable, ctx.chainTable
    {
      match l
      case MainLoop => AtMain()
      case Search2 => AtSearch2()
      case Search3 => AtSearch3()
      case DestOverflow => AtOverflow()
    }

    /** No match around `pos` with the nearest positions that are tried for sure is longer than `n`. */
    ghost predicate Best(pos: nat, iLow: nat, n: nat)
    {
      pos + 4 <= |src| ==> NearestCovered(src, Task(pos, iLow, |src| - 5, 1), Sure(src, pos, maxNbAttempts), n)
    }

    /** Search at `pos`, which must lie behind every position searched before. */
    method Find(pos: nat, iLow: nat, longest: nat) returns (m: Match)
      requires Parts() && out.Valid() && searched < pos && iLow <= pos <= |src| - MFLIMIT
      requires 1 <= longest && pos - iLow < longest && iLow + longest <= |src| - LASTLITERALS
      modifies this`searched, ctx`nextToUpdate, ctx.hashTable, ctx.chainTable
      ensures Parts() && out.Valid() && searched == pos
      ensures Answers(src, pos, iLow, |src| - LASTLITERALS, longest, m)
      ensures Best(pos, iLow, m.len)
    {
      hide RealMatch, NearestCovered;
      m := ctx.InsertAndGetWiderMatch(pos, iLow, |src| - LASTLITERALS, longest, maxNbAttempts, patternAnalysis,
          false, false);
      searched := pos;
    }

    /** LZ4HC_encodeSequence on the variables of the parser. */
    method Encode() returns (overflow: bool)
      requires Base() && Clean(ip - 4) && Real(m1, ip) && ip <= |src| - MFLIMIT
      modifies this`ip, out, out.dst
      ensures overflow ==> AtOverflow()
      ensures !overflow ==> Base() && ip == out.anchor == old(ip) + m1.len && forall e :: e <= ip ==> Clean(e)
    {
      hide Answers, RunsIn, SilentPlaces, Periodic, HcContext.Valid, Output.Valid, Output.Overflowed;
      WrittenUpTo();
      ghost var ss, lit := out.ss, src[out.anchor..ip];
      overflow, ip := out.Encode(ip, m1.len, m1.off);
      if !overflow {
        RunsMore(ss, 4, SilentPlaces(src, maxNbAttempts), Sequence(lit, m1.off, m1.len));
      }
    }

    lemma WrittenUpTo()
      requires out.Valid()
      ensures |Text(out.ss)| == out.anchor
    {
    }

    lemma CleanUpTo(e: int, e': int)
      requires Clean(e) && (e' <= e || e' <= out.anchor)
      ensures Clean(e')
    {
      hide SilentPlaces;
    }

    /** A search in the main loop that finds nothing. */
    lemma OneMoreSilent()
      requires Clean(ip) && out.anchor <= ip && Best(ip, ip, 3)
      ensures Clean(ip + 1)
    {
      hide NearestCovered, RunsIn;
      assert Silent(src, ip, maxNbAttempts);
    }

    /** The top of the main loop: look for a first match. */
    method Step() returns (l: Label)
      requires AtMain() && ip <= |src| - MFLIMIT
      modifies this, ctx`nextToUpdate, ctx.hashTable, ctx.chainTable
      ensures searched <= |src|
      ensures At(l) && searched > old(searched) && (l.MainLoop? || l.Search2?)
      ensures l.MainLoop? ==> ip == old(ip) + 1 && Best(old(ip), old(ip), MINMATCH - 1)
      ensures l.Search2? ==> ip == start0 == old(ip) && m0 == m1 && Best(ip, ip, m1.len)
    {
      hide Best, Clean, RealMatch, HcContext.Valid, Output.Valid;
      m1 := Find(ip, ip, MINMATCH - 1);
      if m1.len < MINMATCH {
        OneMoreSilent();
        ip := ip + 1;
        return MainLoop;
      }
      CleanUpTo(ip, ip - 2);
      start0, m0 := ip, m1;
      return Search2;
    }

    /** Look for a longer match that overlaps the end of the first one. */
    method FindSecond()
      requires AtSearch2()
      modifies this`searched, this`start2, this`m2, ctx`nextToUpdate, ctx.hashTable, ctx.chainTable
      ensures AtSearch2Found() && searched >= old(searched)
      ensures m2.len > m1.len ==> searched > old(searched)
      ensures ip + m1.len <= |src| - MFLIMIT ==> m2.len >= m1.len && Best(ip + m1.len - 2, ip, m2.len)
    {
      hide Best, Clean, RealMatch, HcContext.Valid, Output.Valid;
      if ip + m1.len <= |src| - MFLIMIT {
        start2 := ip + m1.len - 2;
        m2 := Find(start2, ip, m1.len);
        start2 := start2 + m2.back;
      } else {
        m2 := NOMATCH;
      }
    }

    /** After the search for a second match. */
    ghost predicate AtSearch2Found()
      reads this, out, out.dst, ctx, ctx.hashTable, ctx.chainTable
    {
      && Base() && Clean(start0 - 2) && ip <= |src| - MFLIMIT
      && Real(m1, ip) && searched < ip + m1.len
      && Real(m0, start0) && out.anchor <= start0 <= ip <= start0 + 2
      && m0.len <= m1.len && (start0 < ip ==> m0.len < m1.len)
      && (m2.len > m1.len ==>
            && ip + m1.len <= |src| - MFLIMIT && searched == ip + m1.len - 2
            && Real(m2, start2) && ip <= start2 <= searched && searched + MINMATCH <= start2 + m2.len)
    }

    /** _Search2. */
    method Search2Step() returns (l: Label)
      requires AtSearch2()
      modifies Footprint()
      ensures searched <= |src|
      ensures At(l) && (searched > old(searched) || (searched == old(searched) && (l.MainLoop? || l.DestOverflow?)))
      ensures start0 == old(start0) && m0 == old(m0)
      ensures l.Search2? || l.Search3? ==>
                && searched == old(ip) + old(m1).len - 2 && m2.len > old(m1).len && Best(searched, old(ip), m2.len)
                && old(ip) <= start2 <= searched
      ensures var restored := start0 < old(ip) && start2 < old(ip) + m0.len;
              var (first, m) := if restored then (start0, m0) else (old(ip), old(m1));
              && (l.Search2? ==> start2 - first < 3 && ip == start2 && m1 == m2)
              && (l.Search3? ==> start2 - first >= 3 && ip == first && m1 == m && Real(m2, start2))
      ensures (l.MainLoop? || l.DestOverflow?) && old(ip) + old(m1).len <= |src| - MFLIMIT ==>
                Best(old(ip) + old(m1).len - 2, old(ip), old(m1).len)
    {
      hide RealMatch, HcContext.Valid, Output.Valid, Output.Overflowed, Best, Clean;
      FindSecond();
      CleanUpTo(start0 - 2, ip - 4);
      CleanUpTo(start0 - 2, start0 - 4);
      if m2.len <= m1.len {
        var overflow := Encode();
        return if overflow then DestOverflow else MainLoop;
      }
      if start0 < ip && start2 < ip + m0.len {
        ip, m1 := start0, m0;
      }
      if start2 - ip < 3 {
        ip, m1 := start2, m2;
        return Search2;
      }
      return Search3;
    }

    /** Move the start of the second match so far that the first one can be written. */
    method CorrectSecond()
      requires AtSearch3()
      modifies this`start2, this`m2
      ensures AtSearch3() && start2 - ip >= MINMATCH
    {
      hide Clean, HcContext.Valid, Output.Valid;
      var start, m := start2, m2;
      if start2 - ip < OPTIMAL_ML {
        var newMl := Min(m1.len, OPTIMAL_ML);
        if ip + newMl > start2 + m2.len - MINMATCH {
          newMl := start2 - ip + m2.len - MINMATCH;
        }
        var correction := newMl - (start2 - ip);
        if correction > 0 {
          start2, m2 := start2 + correction, m2.(len := m2.len - correction);
          RealMatchPart(src, start, m.off, m.len, start2, m2.len);
        }
      }
    }

    /** Three matches are known, in order; the third is longer than the second and overlaps its end. */
    ghost predicate AtThree()
      reads this, out, out.dst, ctx, ctx.hashTable, ctx.chainTable
    {
      && AtSearch2And3() && start2 + m2.len <= |src| - MFLIMIT
      && Real(m3, start3) && m3.len > m2.len
      && start2 <= start3 <= searched == start2 + m2.len - 3 && searched + MINMATCH <= start3 + m3.len
    }

    /** Two matches after the correction. */
    ghost predicate AtSearch2And3()
      reads this, out, out.dst, ctx, ctx.hashTable, ctx.chainTable
    {
      && Base() && Clean(ip - 4)
      && Real(m1, ip) && ip + m1.len <= |src| - MFLIMIT
      && Real(m2, start2) && searched < start2 + m2.len
      && ip + MINMATCH <= start2 <= |src| - MFLIMIT
      && (start2 <= ip + m1.len || (start2 == ip + m1.len + 1 && m2.len >= MINMATCH + 2))
    }

    /** Look for a longer match that overlaps the end of the second one. */
    method FindThird()
      requires AtSearch3() && start2 - ip >= MINMATCH
      modifies this`searched, this`start3, this`m3, ctx`nextToUpdate, ctx.hashTable, ctx.chainTable
      ensures AtSearch2And3() && searched >= old(searched)
      ensures m3.len > m2.len ==> AtThree() && searched > old(searched)
    {
      hide Clean, Best, HcContext.Valid, Output.Valid;
      if start2 + m2.len <= |src| - MFLIMIT {
        start3 := start2 + m2.len - 3;
        m3 := Find(start3, start2, m2.len);
        start3 := start3 + m3.back;
      } else {
        m3 := NOMATCH;
      }
    }

    /** No third match: write both. */
    method EncodeBoth() returns (l: Label)
      requires AtSearch2And3()
      modifies this`ip, this`m1, out, out.dst
      ensures At(l) && (l.MainLoop? || l.DestOverflow?)
    {
      hide RealMatch, HcContext.Valid, Output.Valid, Output.Overflowed, Clean;
      if start2 < ip + m1.len {
        Shorten(start2 - ip);
      }
      var overflow := Encode();
      if overflow { return DestOverflow; }
      CleanUpTo(ip, start2 - 4);
      ip, m1 := start2, m2;
      overflow := Encode();
      return if overflow then DestOverflow else MainLoop;
    }

    /** Write less of the first match. */
    method Shorten(len: nat)
      requires Real(m1, ip) && MINMATCH <= len <= m1.len
      modifies this`m1
      ensures Real(m1, ip) && m1 == old(m1).(len := len)
    {
      RealMatchPart(src, ip, m1.off, m1.len, ip, len);
      m1 := m1.(len := len);
    }

    /** Not enough space for the second match, but for the first: write it; the third becomes
        the first, and what is left of the second is kept in case it is still useful. */
    method DropSecond() returns (l: Label)
      requires AtThree() && ip + m1.len <= start3 < ip + m1.len + 3
      modifies this, out, out.dst
      ensures At(l) && (l.Search2? || l.DestOverflow?) && searched == old(searched)
    {
      hide RealMatch, HcContext.Valid, Output.Valid, Output.Overflowed, Clean;
      LeaveSecond();
      var overflow := Encode();
      if overflow { return DestOverflow; }
      CleanUpTo(ip, start2 - 2);
      ip, m1 := start3, m3;
      start0, m0 := start2, m2;
      return Search2;
    }

    /** What is left of the second match behind the first, or the third if that is too little. */
    method LeaveSecond()
      requires AtThree() && ip + m1.len <= start3 < ip + m1.len + 3
      modifies this`start2, this`m2
      ensures Base() && Clean(ip - 4) && ip <= |src| - MFLIMIT && start2 <= ip + m1.len + 2
      ensures Real(m1, ip) && Real(m3, start3) && searched + MINMATCH <= start3 + m3.len && start3 <= |src| - MFLIMIT
      ensures Real(m2, start2) && ip + m1.len <= start2 <= start3
      ensures m2.len <= m3.len && (start2 < start3 ==> m2.len < m3.len)
    {
      hide HcContext.Valid, Output.Valid, Output.Overflowed, Clean;
      var start, m := start2, m2;
      if start2 < ip + m1.len {
        var correction := ip + m1.len - start2;
        start2 := start2 + correction;
        if m2.len - correction < MINMATCH {
          start2, m2 := start3, m3;
        } else {
          m2 := m2.(len := m2.len - correction);
          RealMatchPart(src, start, m.off, m.len, start2, m2.len);
        }
      }
    }

    /** Three matches with enough space: write the first, the others move up. */
    method EncodeFirst() returns (l: Label)
      requires AtThree() && start3 >= ip + m1.len + 3
      modifies this, out, out.dst
      ensures At(l) && (l.Search3? || l.DestOverflow?) && searched == old(searched)
    {
      hide RealMatch, HcContext.Valid, Output.Valid, Output.Overflowed, Clean;
      if start2 < ip + m1.len {
        CutFirst();
      }
      var overflow := Encode();
      if overflow { return DestOverflow; }
      CleanUpTo(ip, start2 - 4);
      ip, m1 := start2, m2;
      start2, m2 := start3, m3;
      return Search3;
    }

    /** Decide where the first match ends and the second begins. */
    method CutFirst()
      requires AtThree() && start2 < ip + m1.len && start3 >= ip + m1.len + 3
      modifies this`m1, this`m2, this`start2
      ensures AtThree() && m1.len <= old(m1).len && ip + m1.len == start2 && start3 >= start2 + 3
    {
      hide Clean, HcContext.Valid, Output.Valid, Output.Overflowed;
      if start2 - ip < OPTIMAL_ML {
        var start, m, len := start2, m2, Min(m1.len, OPTIMAL_ML);
        if ip + len > start2 + m2.len - MINMATCH {
          len := start2 - ip + m2.len - MINMATCH;
        }
        Shorten(len);
        var correction := m1.len - (start2 - ip);
        if correction > 0 {
          start2, m2 := start2 + correction, m2.(len := m2.len - correction);
          RealMatchPart(src, start, m.off, m.len, start2, m2.len);
        }
      } else {
        Shorten(start2 - ip);
      }
    }

    /** _Search3. */
    method Search3Step() returns (l: Label)
      requires AtSearch3()
      modifies Footprint()
      ensures searched <= |src|
      ensures At(l) && (searched > old(searched) || (searched == old(searched) && (l.MainLoop? || l.DestOverflow?)))
    {
      hide RealMatch, HcContext.Valid, Output.Valid, Output.Overflowed, Clean;
      CorrectSecond();
      FindThird();
      if m3.len <= m2.len {
        l := EncodeBoth();
      } else if start3 < ip + m1.len + 3 {
        if start3 >= ip + m1.len {
          l := DropSecond();
        } else {
          start2, m2 := start3, m3;
          l := Search3;
        }
      } else {
        l := EncodeFirst();
      }
    }

    /** The whole parser.  As far as it gets, no literal but the last 4 before a match has a match. */
    method Run() returns (r: nat, consumed: nat)
      requires AtMain() && ip == 0 && out.ss == []
      modifies Footprint()
      ensures out.Finished(r, consumed)
      ensures r > 0 ==> RunsIn(out.ss, 4, SilentPlaces(src, maxNbAttempts))
      ensures r > 0 && !out.limit.FillOutput? ==> RestIn(out.ss, |src|, SilentPlaces(src, maxNbAttempts))
    {
      hide RealMatch, AtSearch2, AtSearch3, Clean, Output.Valid, Output.Finished, HcContext.Valid, RunsIn, SilentPlaces;
      var l := MainLoop;
      if |src| >= LZ4_minLength {
        while l != DestOverflow && (l.MainLoop? ==> ip <= |src| - MFLIMIT)
          invariant At(l) && searched <= |src|
          decreases |src| - searched, if l.MainLoop? || l.DestOverflow? then 0 else 1
        {
          match l
          case MainLoop => l := Step();
          case Search2 => l := Search2Step();
          case Search3 => l := Search3Step();
        }
      } else {
        FirstIsSilent();
      }
      if l.DestOverflow? {
        r, consumed := Overflow();
      } else {
        CleanRest();
        r, consumed := out.LastLiterals();
      }
    }

    /** Nothing stands before the first byte that it could match. */
    lemma FirstIsSilent()
      requires |src| < LZ4_minLength && out.ss == [] && out.anchor == 0
      ensures Clean(|src| - MFLIMIT + 1)
    {
    }

    lemma CleanRest()
      requires Clean(Max(ip, |src| - MFLIMIT + 1)) || (Clean(ip) && ip > |src| - MFLIMIT)
      requires out.Valid() && out.src == src
      ensures RunsIn(out.ss, 4, SilentPlaces(src, maxNbAttempts))
      ensures RestIn(out.ss, |src|, SilentPlaces(src, maxNbAttempts))
    {
      hide RunsIn, SilentPlaces;
      WrittenUpTo();
    }

    /** _dest_overflow, in the state it is entered with. */
    method Overflow() returns (r: nat, consumed: nat)
      requires AtOverflow()
      modifies out, out.dst
      ensures out.Finished(r, consumed)
      ensures r > 0 ==> out.limit.FillOutput? && RunsIn(out.ss, 4, SilentPlaces(src, maxNbAttempts))
    {
      hide RunsIn, SilentPlaces, Periodic, Output.Finished;
      OverflowedUpTo();
      ghost var ss, lit := out.ss, src[out.anchor..ip];
      r, consumed := out.DestOverflow(ip, m1.len, m1.off);
      if out.ss != ss {
        var len :| 4 <= len <= m1.len && out.ss == ss + [Sequence(lit, m1.off, len)];
        RunsMore(ss, 4, SilentPlaces(src, maxNbAttempts), Sequence(lit, m1.off, len));
      }
    }

    lemma OverflowedUpTo()
      requires out.Overflowed()
      ensures |Text(out.ss)| == out.anchor
    {
    }
  }

  // ---------- Two matches that do not begin together ----------

  /** Three beginnings of what stands from 27 on: its first 4 bytes, its 2nd to 10th, its 9th to last. */
  function ApartByte(i: int): byte
  {
    if 0 <= i < 4 then i + 1
    else if 6 <= i < 15 then i - 4
    else if 17 <= i < 27 then i - 8
    else if 27 <= i < 45 then i - 26
    else 100 + i % 100
  }

  function Apart(): (s: seq<byte>)
    ensures |s| == 57 && forall i :: 0 <= i < 57 ==> s[i] == ApartByte(i)
  {
    seq(57, i => ApartByte(i))
  }

  /** No 4 bytes occur twice before the position 27. */
  lemma NoMatchBefore(pos: int, off: int, n: int)
    requires RealMatch(Apart(), pos, off, n) && n >= MINMATCH
    ensures pos >= 27
  {
    assert Copied(Apart(), off, pos) && Copied(Apart(), off, pos + 1) && Copied(Apart(), off, pos + 2)
        && Copied(Apart(), off, pos + 3);
  }

  lemma FirstMatch()
    ensures RealMatch(Apart(), 27, 27, 4)
    ensures forall off: int, n: int :: RealMatch(Apart(), 27, off, n) ==> n <= 4
  {
    forall off: int, n: int | RealMatch(Apart(), 27, off, n) ensures n <= 4 {
      assert n > 4 ==> Copied(Apart(), off, 27) && Copied(Apart(), off, 31);
    }
  }

  lemma SecondMatch()
    ensures RealMatch(Apart(), 28, 22, 9)
    ensures forall start: int, off: int, n: int ::
              RealMatch(Apart(), start, off, n) && 27 <= start <= 29 && start + n >= 33 ==>
                n <= 9 && (n == 9 ==> start == 28)
  {
    forall start: int, off: int, n: int | RealMatch(Apart(), start, off, n) && 27 <= start <= 29 && start + n >= 33
        ensures n <= 9 && (n == 9 ==> start == 28) {
      assert Copied(Apart(), off, 29) && Copied(Apart(), off, 32);
      assert start == 27 ==> Copied(Apart(), off, 27);
      assert start + n > 37 ==> Copied(Apart(), off, 37);
    }
  }

  lemma ThirdMatch()
    ensures RealMatch(Apart(), 35, 18, 10)
    ensures forall start: int, off: int, n: int ::
              RealMatch(Apart(), start, off, n) && 28 <= start <= 35 && start + n >= 39 ==>
                n <= 10 && (n == 10 ==> start == 35)
  {
    forall start: int, off: int, n: int | RealMatch(Apart(), start, off, n) && 28 <= start <= 35 && start + n >= 39
        ensures n <= 10 && (n == 10 ==> start == 35) {
      assert Copied(Apart(), off, 35) && Copied(Apart(), off, 38);
      assert start < 35 ==> Copied(Apart(), off, 34);
      assert start + n > 45 ==> Copied(Apart(), off, 45);
    }
  }

  /** 64 attempts, as many as level 7 has, leave out no position of so short a block. */
  lemma LongestFound(ip: nat, iLow: nat, n: nat, start: int, off: int, len: int)
    requires ip + 4 <= 57 && NearestCovered(Apart(), Task(ip, iLow, 52, 1), 64, n)
    requires RealMatch(Apart(), start, off, len) && off < 64 && Around(Task(ip, iLow, 52, 1), start, len)
    ensures n >= len
  {
    SameHashFew(Apart(), ip, off);
  }

  ghost predicate Tries64(p: LazyParser)
  {
    p.src == Apart() && p.maxNbAttempts == 64 && !p.patternAnalysis
  }

  /** The parser at the position 27, before which it finds nothing. */
  method BeforeApart() returns (p: LazyParser)
    ensures fresh(p.Footprint()) && p.AtMain() && Tries64(p) && p.ip == 27
  {
    hide RealMatch, HcContext.Valid, Output.Valid, Output.Overflowed, LazyParser.Best, LazyParser.Clean;
    var dst := new byte[CompressBound(57)];
    var out := new Output(Apart(), dst, SequenceWriter.NotLimited);
    var ctx := new HcContext(Apart());
    p := new LazyParser(out, ctx, 64);
    while p.ip < 27
      invariant fresh(p.Footprint()) && p.AtMain() && p.ip <= 27 && Tries64(p)
      decreases 27 - p.ip
    {
      var l := p.Step();
      if l.Search2? { NoMatchBefore(p.ip, p.m1.off, p.m1.len); }
    }
  }

  /** From there on: a match of 4 bytes, which one of 9 bytes replaces. */
  method FirstReplaced() returns (p: LazyParser)
    ensures fresh(p.Footprint()) && p.AtSearch2() && Tries64(p)
    ensures p.start0 == 27 && p.m0.len == 4 && p.ip == 28 && p.m1.len == 9
  {
    hide RealMatch, HcContext.Valid, Output.Valid, Output.Overflowed, NearestCovered, LazyParser.Clean;
    p := BeforeApart();
    var l := p.Step();
    FirstMatch();
    LongestFound(27, 27, if l.MainLoop? then 3 else p.m1.len, 27, 27, 4);
    l := p.Search2Step();
    SecondMatch();
    LongestFound(29, 27, if l.Search2? || l.Search3? then p.m2.len else 4, 28, 22, 9);
  }

  /** A run that comes to _Search3 with a first match that begins before `ip`: it was replaced, and
      is not restored. */
  method StartsApart() returns (p: LazyParser, l: Label)
    ensures l.Search3? && p.At(l) && Tries64(p) && p.start0 == 27 && p.ip == 28 && p.start2 == 35
  {
    hide RealMatch, HcContext.Valid, Output.Valid, Output.Overflowed, NearestCovered, LazyParser.Clean;
    p := FirstReplaced();
    l := p.Search2Step();
    ThirdMatch();
    LongestFound(35, 28, if l.Search2? || l.Search3? then p.m2.len else 9, 35, 18, 10);
  }
}
