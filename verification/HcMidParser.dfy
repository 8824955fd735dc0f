/** LZ4MID_compress, the parser of levels 1 and 2, without dictionary: two hash tables, one
    candidate each.  The tables only give hints, and some entries are even made for another
    position than they say; every match is compared before it is used. */
module HcMidParser {
  import opened Bytes
  import opened BlockFormat
  import opened WordCount
  import opened BlockOutput

  const MIDTABLESIZE := 0x4000
  const MIDBASE := 0x1_0000

  /** LZ4MID_hash4Ptr. */
  function Hash4(s: seq<byte>, p: nat): (h: nat)
    requires p + 4 <= |s|
    ensures h < MIDTABLESIZE
  {
    var v := s[p] as int + 0x100 * s[p + 1] as int + 0x1_0000 * s[p + 2] as int + 0x100_0000 * s[p + 3] as int;
    (v * 2654435761 % 0x1_0000_0000) / 0x4_0000
  }

  /** LZ4MID_hash8Ptr, which uses 7 of the 8 bytes. */
  function Hash8(s: seq<byte>, p: nat): (h: nat)
    requires p + 8 <= |s|
    ensures h < MIDTABLESIZE
  {
    var v := s[p] as int + 0x100 * s[p + 1] as int + 0x1_0000 * s[p + 2] as int + 0x100_0000 * s[p + 3] as int
             + 0x1_0000_0000 * s[p + 4] as int + 0x100_0000_0000 * s[p + 5] as int
             + 0x1_0000_0000_0000 * s[p + 6] as int;
    (v * 0x100 % 0x1_0000_0000_0000_0000 * 58295818150454627 % 0x1_0000_0000_0000_0000) / 0x4_0000_0000_0000
  }

  lemma HashValues()
    ensures Hash4([1, 0, 0, 0], 0) == 10125 && Hash4([0, 1, 0, 0], 0) == 3550 && Hash4([97, 98, 99, 100], 0) == 6339
  {
  }

  lemma LongHashValue(s: seq<byte>)
    requires |s| == 8 && s[0] == 1 && s[1] == s[2] == s[3] == s[4] == s[5] == s[6] == 0
    ensures Hash8(s, 0) == 13254
  {
  }

  // ---------- What is new among the literals ----------

  /** How far behind a match the parser looks the `k`-th time: steps get longer by 1 every 512 bytes. */
  function Probe(k: nat): nat
  {
    if k == 0 then 0 else Probe(k - 1) + 1 + Probe(k - 1) / 512
  }

  /** The first position that is not looked at is the one behind the 512th. */
  lemma {:induction false} FirstLooks(k: nat)
    ensures k <= 512 ==> Probe(k) == k
    ensures k == 513 ==> Probe(k) == 514
  {
    if 0 < k <= 513 { FirstLooks(k - 1); }
  }

  lemma {:induction false} ProbesGrow(j: nat, k: nat)
    requires j <= k
    ensures Probe(j) + (k - j) <= Probe(k)
  {
    if j < k { ProbesGrow(j, k - 1); }
  }

  ghost predicate LookedAt(lo: int, hi: int, q: int)
  {
    q < hi && exists k: nat :: q == lo + Probe(k)
  }

  /** The positions from `lo` on that were looked at before `hi`. */
  ghost function Looked(lo: int, hi: int): iset<int>
  {
    iset q: int | LookedAt(lo, hi, q)
  }

  /** What is in the table of the short hash behind these sequences, if nothing with the same hash
      followed: what was looked at before each match, and the last 2 positions of each match. */
  ghost function Seen(ss: seq<Sequence>): iset<int>
    decreases |ss|, 1
  {
    if ss == [] then iset{} else Almost(ss) + iset{|Text(ss)| - 2} + iset{|Text(ss)| - 1}
  }

  /** The same without the last two of these. */
  ghost function Almost(ss: seq<Sequence>): iset<int>
    requires ss != []
    decreases |ss|, 0
  {
    var pre, lo := ss[..|ss| - 1], |Text(ss[..|ss| - 1])|;
    Seen(pre) + Looked(lo, lo + |ss[|ss| - 1].lit|)
  }

  /** The same with the positions behind the sequences that were looked at before `hi`. */
  ghost function Entering(ss: seq<Sequence>, hi: int): iset<int>
  {
    Seen(ss) + Looked(|Text(ss)|, hi)
  }

  lemma {:induction false} SeenBefore(ss: seq<Sequence>, hi: int)
    requires |Text(ss)| <= hi
    ensures forall q :: q in Entering(ss, hi) ==> q < hi
  {
    if ss != [] {
      var pre, s := ss[..|ss| - 1], ss[|ss| - 1];
      assert Text(ss) == Extend(Text(pre), s);
      SeenBefore(pre, |Text(pre)| + |s.lit|);
      assert Almost(ss) == Entering(pre, |Text(pre)| + |s.lit|);
    }
  }

  /** The bytes at `p` are new behind the sequences `pre`: the last position with the same hash, if it is in
      the table and at most 65535 bytes before, has 4 other bytes. */
  ghost predicate New(s: seq<byte>, pre: seq<Sequence>, p: int)
  {
    0 <= p <= |s| - 12 ==>
      forall q :: q in Entering(pre, p) && p - 65535 <= q && LastWithHash(s, q, p) ==> !Same4(s, p, q)
  }

  /** `q` has the hash of `p`, and no position between them. */
  ghost predicate LastWithHash(s: seq<byte>, q: int, p: int)
    requires p + 4 <= |s|
  {
    0 <= q < p && Hash4(s, q) == Hash4(s, p) && forall r :: q < r < p ==> Hash4(s, r) != Hash4(s, p)
  }

  /** What is looked at is new. */
  ghost function NewPlaces(s: seq<byte>): Places
  {
    iset q: (seq<Sequence>, int) | LookedAt(|Text(q.0)|, q.1 + 1, q.1) ==> New(s, q.0, q.1)
  }

  class MidParser {
    const src: seq<byte>
    const out: Output
    const hash4Table: array<nat>
    const hash8Table: array<nat>
    var ip: nat
    ghost var owner: seq<int>  // for each short hash, the last position it was entered for, or -1

    constructor (out: Output)
      requires out.Valid() && out.anchor == 0 && out.ss == []
      ensures AtMain() && Separate() && this.out == out && ip == 0 && fresh(hash4Table) && fresh(hash8Table)
    {
      src, this.out := out.src, out;
      hash4Table := new nat[MIDTABLESIZE](_ => 0);
      hash8Table := new nat[MIDTABLESIZE](_ => 0);
      ip, owner := 0, seq(MIDTABLESIZE, _ => -1);
      new;
      NothingSeen();
      assert ip == out.anchor + Probe(0);
    }

    lemma NothingSeen()
      requires out.ss == []
      ensures forall q :: q !in Entering(out.ss, 0)
      ensures Probe(0) == 0
    {
      hide Hash4;
      NoSequences();
    }

    ghost predicate Separate()
    {
      && hash4Table != hash8Table && hash4Table as object != out.dst && hash8Table as object != out.dst
      && hash4Table.Length == MIDTABLESIZE && hash8Table.Length == MIDTABLESIZE
      && out.src == src
    }

    /** Every table entry is the index of a position before `p`, or 0. */
    ghost predicate Hints(p: nat)
      reads hash4Table, hash8Table
    {
      && (forall h :: 0 <= h < hash4Table.Length ==> hash4Table[h] < MIDBASE + p)
      && (forall h :: 0 <= h < hash8Table.Length ==> hash8Table[h] < MIDBASE + p)
    }

    ghost predicate AtMain()
      reads this, out, out.dst, hash4Table, hash8Table
    {
      Separate() && out.Valid() && out.anchor <= ip && Hints(ip) && Clean(ip) && AtProbe()
      && (ip <= |src| - MFLIMIT ==> Owned(Entering(out.ss, ip), ip))
    }

    ghost predicate AtProbe()
      reads this`ip, out`anchor
    {
      exists k: nat :: ip == out.anchor + Probe(k)
    }

    /** What was looked at before all matches written was new, but for the last literal before a match, and
        so is what comes behind the last match up to `e`. */
    ghost predicate Clean(e: int)
      reads out
    {
      && RunsIn(out.ss, 1, NewPlaces(src))
      && forall p :: out.anchor <= p < e ==> (out.ss, p) in NewPlaces(src)
    }

    /** These positions are in the table of the short hash, if none behind them replaced them; each entry
        was made for a position with that hash, before `bound`, and leads to it if it is one of these. */
    ghost predicate Owned(held: iset<int>, bound: int)
      reads this`owner, hash4Table
    {
      && |owner| == hash4Table.Length == MIDTABLESIZE
      && (forall h :: 0 <= h < |owner| ==> Owner(h, owner[h], hash4Table[h], held, bound))
      && (forall q :: q in held && 0 <= q && q + 4 <= |src| ==> owner[Hash4(src, q)] >= q)
    }

    ghost predicate Owner(h: nat, q: int, index: nat, held: iset<int>, bound: int)
    {
      q == -1 || (0 <= q < bound && q + 4 <= |src| && Hash4(src, q) == h && (q in held ==> index == MIDBASE + q))
    }

    /** The match at `pos` may be written. */
    ghost predicate Usable(pos: nat, len: nat, off: nat)
    {
      && MINMATCH <= len && pos <= |src| - MFLIMIT
      && RealMatch(src, pos, off, len) && pos + len <= |src| - LASTLITERALS
    }

    /** How much the bytes at `pos` agree with those an index points to: 0 when it is too far
        away or points to nothing. */
    method Candidate(pos: nat, index: nat) returns (len: nat)
      requires index < MIDBASE + pos && pos <= |src| - MFLIMIT
      ensures len >= MINMATCH ==> Usable(pos, len, MIDBASE + pos - index)
      ensures len < MINMATCH && index >= MIDBASE && MIDBASE + pos - index <= 65535 ==> !Same4(src, pos, index - MIDBASE)
    {
      len := 0;
      if MIDBASE + pos - index <= DISTANCE_MAX && index >= MIDBASE {
        len := Count(src, pos, index - MIDBASE, |src| - LASTLITERALS);
        NotSame4(pos, MIDBASE + pos - index, len, |src| - LASTLITERALS);
      }
    }

    lemma NotSame4(pos: nat, off: nat, n: nat, limit: int)
      requires LongestRepeat(src, pos, off, n, limit) && pos + 4 <= limit <= |src|
      ensures n < 4 ==> !Same4(src, pos, pos - off)
    {
    }

    /** Look for a match at `ip`: the long hash first, then the short one, and then the long
        one at the next position.  `len` is 0 when there is none. */
    method FindMatch(ghost held: iset<int>) returns (pos: nat, len: nat, off: nat)
      requires Separate() && Hints(ip) && ip <= |src| - MFLIMIT
      requires Owned(held, ip) && forall q :: q in held ==> q < ip
      modifies this`owner, hash4Table, hash8Table
      ensures Hints(ip + 2) && (len == 0 ==> Hints(ip + 1))
      ensures len == 0 ==> Misses(old(hash4Table[Hash4(src, ip)]))
      ensures Owned(if len == 0 || pos == ip + 1 then held + iset{ip} else held, ip + 1)
      ensures len != 0 ==> ip <= pos <= ip + 1 && Usable(pos, len, off)
    {
      hide Hash4, Hash8, Owned;
      pos := ip;
      MoreOwned(held, held, ip, ip + 1);
      var h8 := Hash8(src, ip);
      var pos8 := hash8Table[h8];
      hash8Table[h8] := MIDBASE + ip;
      len := Candidate(ip, pos8);
      off := MIDBASE + ip - pos8;
      if len >= MINMATCH { return; }
      var h4 := Hash4(src, ip);
      var pos4 := hash4Table[h4];
      AddPos4(ip, MIDBASE + ip, ip + 1, held, held + iset{ip});
      len := Candidate(ip, pos4);
      off := MIDBASE + ip - pos4;
      if len < MINMATCH { return ip, 0, 0; }
      MoreOwned(held + iset{ip}, held, ip + 1, ip + 1);
      h8 := Hash8(src, ip + 1);
      pos8 := hash8Table[h8];
      if ip < |src| - MFLIMIT {
        var len2 := Candidate(ip + 1, pos8);
        if len2 > len {
          hash8Table[h8] := MIDBASE + ip + 1;
          pos, len, off := ip + 1, len2, MIDBASE + ip + 1 - pos8;
        }
      }
    }

    /** What the index points to, if it is near enough, are other bytes than those at `ip`. */
    ghost predicate Misses(index: nat)
      requires ip + 4 <= |src|
      reads this`ip
    {
      MIDBASE <= index < MIDBASE + ip && MIDBASE + ip - index <= 65535 ==> !Same4(src, ip, index - MIDBASE)
    }

    /** A position where nothing is found is new. */
    lemma OneMoreNew(index: nat, q0: int)
      requires out.Valid() && Clean(ip) && out.anchor <= ip <= |src| - MFLIMIT && Misses(index)
      requires Owner(Hash4(src, ip), q0, index, Entering(out.ss, ip), ip)
      requires forall q | q in Entering(out.ss, ip) && 0 <= q < ip && Hash4(src, q) == Hash4(src, ip) :: q0 >= q
      ensures Clean(ip + 1)
    {
      hide Hash4, RunsIn, Entering;
      forall q | q in Entering(out.ss, ip) && ip - 65535 <= q && LastWithHash(src, q, ip) ensures !Same4(src, ip, q) {
        assert q0 == q;
      }
      assert New(src, out.ss, ip);
    }

    /** Catch back: the match may begin earlier. */
    method CatchBack(pos: nat, len: nat, off: nat) returns (pos': nat, len': nat)
      requires out.src == src && out.anchor <= pos && Usable(pos, len, off)
      ensures out.anchor <= pos' <= pos && pos' + len' == pos + len && Usable(pos', len', off)
    {
      pos', len' := pos, len;
      while pos' > out.anchor && pos' > off && src[pos' - 1] == src[pos' - off - 1]
        invariant out.anchor <= pos' <= pos && pos' + len' == pos + len && Usable(pos', len', off)
      {
        pos', len' := pos' - 1, len' + 1;
        assert Copied(src, off, pos');
      }
    }

    /** Enter an index under the short hash of `p`, for which it is one of those held, or not. */
    method AddPos4(p: nat, index: nat, ghost bound: nat, ghost held: iset<int>, ghost held': iset<int>)
      requires Separate() && p + 4 <= |src| && index < MIDBASE + bound && Hints(bound) && p < bound
      requires Owned(held, bound) && forall q :: q in held ==> q < p
      requires held' == held || (held' == held + iset{p} && index == MIDBASE + p)
      modifies this`owner, hash4Table
      ensures Hints(bound) && Owned(held', bound)
    {
      hide Hash4;
      hash4Table[Hash4(src, p)] := index;
      owner := owner[Hash4(src, p) := p];
    }

    method AddPos8(p: nat, index: nat, ghost bound: nat)
      requires Separate() && p + 8 <= |src| && index < MIDBASE + bound && Hints(bound)
      modifies hash8Table
      ensures Hints(bound)
    {
      hide Hash8;
      hash8Table[Hash8(src, p)] := index;
    }

    /** Fill the tables with the beginning of a match that was found at `found` and begins at
        `ip`: the hashes are of positions behind `ip`, the indices of positions behind `found`. */
    method FillBeginning(found: nat, ghost held: iset<int>)
      requires Separate() && ip <= found + 1 && ip <= |src| - MFLIMIT && Hints(found + 2)
      requires Owned(held, found + 1) && forall q :: q in held ==> q < ip
      modifies this`owner, hash4Table, hash8Table
      ensures Hints(found + 3) && Owned(held, found + 3)
    {
      hide Hash4, Hash8, Hints, Owned;
      MoreHints(found + 2, found + 3);
      MoreOwned(held, held, found + 1, found + 3);
      AddPos8(ip + 1, MIDBASE + found + 1, found + 3);
      AddPos8(ip + 2, MIDBASE + found + 2, found + 3);
      AddPos4(ip + 1, MIDBASE + found + 1, found + 3, held, held);
    }

    /** Fill the tables with the end of a match. */
    method FillEnd(ghost held: iset<int>)
      requires Separate() && MINMATCH <= ip <= |src| - LASTLITERALS && Hints(ip)
      requires Owned(held, ip) && forall q :: q in held ==> q < ip - 2
      modifies this`owner, hash4Table, hash8Table
      ensures Hints(ip)
      ensures ip <= |src| - MFLIMIT ==> Owned(held + iset{ip - 2} + iset{ip - 1}, ip)
    {
      hide Hash4, Hash8, Hints, Owned;
      if ip - 2 < |src| - 8 {
        if ip > 5 {
          AddPos8(ip - 5, MIDBASE + ip - 5, ip);
        }
        AddPos8(ip - 3, MIDBASE + ip - 3, ip);
        AddPos8(ip - 2, MIDBASE + ip - 2, ip);
        AddPos4(ip - 2, MIDBASE + ip - 2, ip, held, held + iset{ip - 2});
        AddPos4(ip - 1, MIDBASE + ip - 1, ip, held + iset{ip - 2}, held + iset{ip - 2} + iset{ip - 1});
      }
    }

    /** Write a match that was found at `pos`, when the search was at `found`. */
    method EncodeMatch(found: nat, pos: nat, len: nat, off: nat) returns (overflow: bool, len': nat)
      requires Separate() && out.Valid() && Hints(found + 2) && Usable(pos, len, off)
      requires out.anchor <= found <= pos <= found + 1 && found <= |src| - MFLIMIT && Clean(found)
      requires Owned(Entering(out.ss, pos), found + 1)
      modifies this`ip, this`owner, out, out.dst, hash4Table, hash8Table
      ensures !overflow ==> AtMain() && ip == pos + len
      ensures overflow ==> out.Overflowed() && out.Encodable(ip, len', off) && out.NoRoomFor(ip, len') && Clean(ip - 1)
    {
      hide RealMatch, Hints, Output.Valid, Output.Overflowed, RunsIn, NewPlaces, Owned, Entering, Almost, Seen, Probe;
      WrittenUpTo();
      ip, len' := CatchBack(pos, len, off);
      ghost var held := Entering(out.ss, ip);
      LessOwned(out.ss, ip, pos, found + 1);
      SeenBefore(out.ss, ip);
      FillBeginning(found, held);
      RealOffset(ip, off, len');
      ghost var ss, lit := out.ss, src[out.anchor..ip];
      overflow, ip := out.Encode(ip, len', off);
      if !overflow {
        RunsMore(ss, 1, NewPlaces(src), Sequence(lit, off, len'));
        MoreHints(found + 3, ip);
        MoreOwned(held, held, found + 3, ip);
        FillEnd(held);
        WrittenUpTo();
        EndSeen(ss, Sequence(lit, off, len'), held);
      }
    }

    lemma WrittenUpTo()
      requires out.Valid()
      ensures |Text(out.ss)| == out.anchor
    {
    }

    lemma RealOffset(pos: nat, off: nat, len: nat)
      requires Usable(pos, len, off)
      ensures 1 <= off <= 65535
    {
    }

    /** Behind a match there is what was there before it, and its end. */
    lemma EndSeen(ss: seq<Sequence>, s: Sequence, held: iset<int>)
      requires out.ss == ss + [s] && |Text(out.ss)| == out.anchor == ip && held == Entering(ss, |Text(ss)| + |s.lit|)
      requires ip <= |src| - MFLIMIT ==> Owned(held + iset{ip - 2} + iset{ip - 1}, ip)
      ensures ip <= |src| - MFLIMIT ==> Owned(Entering(out.ss, ip), ip)
      ensures AtProbe()
    {
      hide Hash4, Text, Owned, LookedAt;
      assert out.ss[..|out.ss| - 1] == ss && out.ss[|out.ss| - 1] == s;
      assert ip == out.anchor + Probe(0);
      NoneLookedAt(ip);
      assert Almost(out.ss) == held;
      assert Entering(out.ss, ip) == held + iset{ip - 2} + iset{ip - 1};
    }

    lemma NoneLookedAt(lo: int)
      ensures forall q :: !LookedAt(lo, lo, q)
    {
    }

    lemma MoreOwned(held: iset<int>, held': iset<int>, bound: int, bound': int)
      requires Owned(held, bound) && bound <= bound' && held' <= held
      ensures Owned(held', bound')
    {
      hide Hash4;
      forall h | 0 <= h < |owner| ensures Owner(h, owner[h], hash4Table[h], held', bound') {
        assert Owner(h, owner[h], hash4Table[h], held, bound);
      }
    }

    lemma LessOwned(ss: seq<Sequence>, hi: int, hi': int, bound: int)
      requires hi <= hi' && Owned(Entering(ss, hi'), bound)
      ensures Owned(Entering(ss, hi), bound)
    {
      hide Hash4, Owned, Text, Seen;
      MoreOwned(Entering(ss, hi'), Entering(ss, hi), bound, bound);
    }

    lemma MoreHints(p: nat, p': nat)
      requires Hints(p) && p <= p'
      ensures Hints(p')
    {
    }

    /** Go on behind a position where nothing was found. */
    method StepOn()
      requires Separate() && out.Valid() && out.anchor <= ip <= |src| - MFLIMIT && Hints(ip + 1)
      requires Clean(ip + 1) && AtProbe() && Owned(Entering(out.ss, ip) + iset{ip}, ip + 1)
      modifies this`ip
      ensures AtMain() && ip > old(ip)
    {
      hide Hash4, RunsIn, Output.Valid, Owned, Entering, Text, Probe;
      WrittenUpTo();
      ghost var found := ip;
      ghost var k: nat :| ip == out.anchor + Probe(k);
      NextProbe(k);
      ip := ip + 1 + (ip - out.anchor) / 512;
      MoreHints(found + 1, ip);
      NotLookedAt(k);
      MoreOwned(Entering(out.ss, found) + iset{found}, Entering(out.ss, ip), found + 1, ip);
    }

    lemma NextProbe(k: nat)
      ensures Probe(k + 1) == Probe(k) + 1 + Probe(k) / 512
    {
    }

    /** Between two probes nothing is looked at. */
    lemma NotLookedAt(k: nat)
      requires |Text(out.ss)| == out.anchor && ip == out.anchor + Probe(k + 1)
      requires Clean(out.anchor + Probe(k) + 1)
      ensures Clean(ip)
      ensures Entering(out.ss, ip) <= Entering(out.ss, out.anchor + Probe(k)) + iset{out.anchor + Probe(k)}
    {
      hide Hash4, RunsIn, New, Text, Seen, Probe;
      forall j: nat | Probe(j) < Probe(k + 1) ensures Probe(j) <= Probe(k) {
        if j <= k { ProbesGrow(j, k); } else { ProbesGrow(k + 1, j); }
      }
    }

    /** One round of the main loop. */
    method Round() returns (overflow: bool, len: nat, off: nat)
      requires AtMain() && Separate() && ip <= |src| - MFLIMIT
      modifies this, out, out.dst, hash4Table, hash8Table
      ensures !overflow ==> AtMain() && ip > old(ip)
      ensures overflow ==> out.Overflowed() && out.Encodable(ip, len, off) && out.NoRoomFor(ip, len) && Clean(ip - 1)
    {
      hide RealMatch, Hash4, Output.Valid, Output.Overflowed, Clean, Owned, Owner, Entering, Probe;
      var found := ip;
      ghost var held := Entering(out.ss, ip);
      ghost var h := Hash4(src, ip);
      ghost var index, q0 := OwnerOf(h, held);
      WrittenUpTo();
      SeenBefore(out.ss, ip);
      var pos;
      pos, len, off := FindMatch(held);
      if len == 0 {
        OneMoreNew(index, q0);
        StepOn();
        return false, 0, 0;
      }
      FoundLooked(held, pos);
      overflow, len := EncodeMatch(found, pos, len, off);
    }

    lemma OwnerOf(h: nat, held: iset<int>) returns (index: nat, q0: int)
      requires Owned(held, ip) && ip + 4 <= |src| && h == Hash4(src, ip)
      ensures index == hash4Table[h] && Owner(h, q0, index, held, ip)
      ensures forall q | q in held && 0 <= q < ip && Hash4(src, q) == Hash4(src, ip) :: q0 >= q
    {
      hide Hash4;
      index, q0 := hash4Table[h], owner[h];
    }

    lemma FoundLooked(held: iset<int>, pos: nat)
      requires held == Entering(out.ss, ip) && ip <= pos <= ip + 1
      requires Owned(if pos == ip + 1 then held + iset{ip} else held, ip + 1)
      ensures Owned(Entering(out.ss, pos), ip + 1)
    {
      hide Hash4, Owned, Text, Seen, Probe;
      MoreOwned(if pos == ip + 1 then held + iset{ip} else held, Entering(out.ss, pos), ip + 1, ip + 1);
    }

    /** The whole parser.  As far as it gets, all but the last literal before a match were new. */
    method Run() returns (r: nat, consumed: nat)
      requires AtMain() && Separate() && ip == 0 && out.ss == []
      modifies this, out, out.dst, hash4Table, hash8Table
      ensures out.Finished(r, consumed)
      ensures r > 0 ==> RunsIn(out.ss, 1, NewPlaces(src))
      ensures r > 0 && !out.limit.FillOutput? ==> RestIn(out.ss, |src|, NewPlaces(src))
    {
      hide RealMatch, Hints, Owned, AtProbe, Output.Valid, Output.Overflowed, Output.Finished, RunsIn, NewPlaces;
      if |src| < LZ4_minLength { FirstIsNew(); }
      while |src| >= LZ4_minLength && ip <= |src| - MFLIMIT
        invariant AtMain() && (|src| < LZ4_minLength ==> ip == 0 && Clean(|src| - MFLIMIT + 1))
        decreases |src| - ip
      {
        var overflow, len, off := Round();
        if overflow {
          r, consumed := Overflow(len, off);
          return;
        }
      }
      WrittenUpTo();
      r, consumed := out.LastLiterals();
    }

    /** Nothing stands before the first byte. */
    lemma FirstIsNew()
      requires |src| < LZ4_minLength && out.ss == [] && out.anchor == 0
      ensures Clean(|src| - MFLIMIT + 1)
    {
    }

    /** _lz4mid_dest_overflow, in the state it is entered with. */
    method Overflow(len: nat, off: nat) returns (r: nat, consumed: nat)
      requires out.src == src && out.Overflowed() && out.Encodable(ip, len, off) && out.NoRoomFor(ip, len)
      requires Clean(ip - 1)
      modifies out, out.dst
      ensures out.Finished(r, consumed)
      ensures r > 0 ==> out.limit.FillOutput? && RunsIn(out.ss, 1, NewPlaces(src))
    {
      hide RunsIn, NewPlaces, Periodic, Output.Finished;
      OverflowedUpTo();
      ghost var ss, lit := out.ss, src[out.anchor..ip];
      r, consumed := out.DestOverflow(ip, len, off);
      if out.ss != ss {
        var len' :| 4 <= len' <= len && out.ss == ss + [Sequence(lit, off, len')];
        RunsMore(ss, 1, NewPlaces(src), Sequence(lit, off, len'));
      }
    }

    lemma OverflowedUpTo()
      requires out.Overflowed()
      ensures |Text(out.ss)| == out.anchor
    {
    }
  }
}
