/** The hash-chain match finder of LZ4 HC, for a block compressed on its own (no dictionary). */
module HcSearch {
  import opened Bytes
  import opened BlockFormat
  import opened WordCount

  const HASHTABLESIZE := 0x8000
  const MAXD := 0x1_0000

  /** LZ4HC_hashPtr. */
  function Hash(s: seq<byte>, p: nat): (h: nat)
    requires p + 4 <= |s|
    ensures h < HASHTABLESIZE
  {
    var v := s[p] as int + 0x100 * s[p + 1] as int + 0x1_0000 * s[p + 2] as int + 0x100_0000 * s[p + 3] as int;
    (v * 2654435761 % 0x1_0000_0000) / 0x2_0000
  }

  /** The 15 highest bits of the low 32 of the product, for some 4 bytes. */
  lemma HashValues()
    ensures Hash([1, 0, 0, 0], 0) == 20251 && Hash([0, 1, 0, 0], 0) == 7100 && Hash([0, 0, 1, 0], 0) == 15576
    ensures Hash([97, 98, 99, 100], 0) == 12678 && Hash([255, 255, 255, 255], 0) == 12516
  {
  }

  /** The last position before `p` whose hash is `h`, or -1. */
  function Previous(s: seq<byte>, p: nat, h: nat): (q: int)
    requires p + 3 <= |s|
    ensures -1 <= q < p
    ensures q >= 0 ==> Hash(s, q) == h
    ensures forall k :: q < k < p && 0 <= k ==> Hash(s, k) != h
  {
    if p == 0 then -1 else if Hash(s, p - 1) == h then p - 1 else Previous(s, p - 1, h)
  }

  /** What the tables hold for position `q` (-1: nothing, index 0). */
  function IndexOf(base: nat, q: int): nat
    requires q >= -1
  {
    if q == -1 then 0 else base + q
  }

  /** LZ4HC_match_t: the match starts `back` (at most 0) behind the position searched. */
  datatype Match = Match(off: nat, len: nat, back: int)

  const NOMATCH := Match(0, 0, 0)

  /** What a search from `ip` may answer: either nothing longer than asked for, or a real match
      between the limits that covers at least the first 4 bytes at `ip`. */
  ghost predicate Answers(s: seq<byte>, ip: nat, iLow: int, iHigh: int, longest: nat, m: Match)
  {
    if m.len == longest then m.off == 0 && m.back == 0
    else
      && m.len > longest && m.back <= 0 && iLow <= ip + m.back
      && RealMatch(s, ip + m.back, m.off, m.len)
      && ip + MINMATCH <= ip + m.back + m.len <= iHigh
  }

  /** What is searched: matches of `ip` between the limits, at distances of at least `near`. */
  datatype Task = Task(ip: nat, iLow: int, iHigh: int, near: int)

  /** The match lies between the limits and has the first 4 bytes at `ip`. */
  predicate Around(t: Task, start: int, n: int)
  {
    t.iLow <= start <= t.ip && t.ip + 4 <= start + n <= t.iHigh
  }

  /** No match around `ip` with a distance below `d` is longer than `longest`. */
  ghost predicate Covered(s: seq<byte>, t: Task, d: int, longest: nat)
  {
    forall start: int, off: int, n: int ::
      RealMatch(s, start, off, n) && t.near <= off < d && Around(t, start, n) ==> n <= longest
  }

  /** How many positions with the hash of `ip` are nearer than `d`. */
  function SameHash(s: seq<byte>, ip: nat, d: int): nat
    requires ip + 4 <= |s|
    decreases d
  {
    if d <= 1 then 0
    else SameHash(s, ip, d - 1) + if d - 1 <= ip && Hash(s, ip - (d - 1)) == Hash(s, ip) then 1 else 0
  }

  /** No match of `ip` with one of the nearest `n` positions that have its hash is longer than
      `longest`. */
  ghost predicate NearestCovered(s: seq<byte>, t: Task, n: nat, longest: nat)
    requires t.ip + 4 <= |s|
  {
    forall start: int, off: int, len: int ::
      RealMatch(s, start, off, len) && t.near <= off && SameHash(s, t.ip, off) < n && Around(t, start, len) ==>
        len <= longest
  }

  lemma {:induction false} SameHashGrows(s: seq<byte>, ip: nat, d: int, d': int)
    requires ip + 4 <= |s| && d <= d'
    ensures SameHash(s, ip, d) <= SameHash(s, ip, d')
    decreases d'
  {
    hide Hash;
    if 1 < d' && d < d' { SameHashGrows(s, ip, d, d' - 1); }
  }

  lemma {:induction false} SameHashStays(s: seq<byte>, ip: nat, d: int, d': int)
    requires ip + 4 <= |s| && 1 <= d <= d'
    requires forall k :: 0 <= k && ip - d' < k <= ip - d ==> Hash(s, k) != Hash(s, ip)
    ensures SameHash(s, ip, d') == SameHash(s, ip, d)
    decreases d'
  {
    hide Hash;
    if d < d' { SameHashStays(s, ip, d, d' - 1); }
  }

  lemma {:induction false} SameHashFew(s: seq<byte>, ip: nat, d: int)
    requires ip + 4 <= |s|
    ensures SameHash(s, ip, d) <= if d <= 1 then 0 else d - 1
    decreases d
  {
    hide Hash;
    if d > 1 { SameHashFew(s, ip, d - 1); }
  }

  /** Whatever has been tried is nearest. */
  lemma CoveredNearest(s: seq<byte>, t: Task, d: int, n: nat, longest: nat)
    requires t.ip + 4 <= |s| && Covered(s, t, d, longest)
    requires d > t.ip || d > DISTANCE_MAX || SameHash(s, t.ip, d) >= n
    ensures NearestCovered(s, t, n, longest)
  {
    forall start: int, off: int, len: int | RealMatch(s, start, off, len) && t.near <= off
        && SameHash(s, t.ip, off) < n && Around(t, start, len) ensures len <= longest {
      if off >= d { SameHashGrows(s, t.ip, d, off); }
    }
  }

  /** With as many attempts as there are positions with the same hash in the window, there is no
      longer match at all. */
  lemma NearestIsAll(s: seq<byte>, t: Task, n: nat, longest: nat)
    requires t.ip + 4 <= |s| && NearestCovered(s, t, n, longest)
    requires SameHash(s, t.ip, Min(t.ip, DISTANCE_MAX) + 1) <= n
    ensures Covered(s, t, t.ip + 1, longest)
  {
    hide Hash;
    forall start: int, off: int, len: int | RealMatch(s, start, off, len) && t.near <= off < t.ip + 1
        && Around(t, start, len) ensures len <= longest {
      MatchSameHash(s, t.ip, start, off, len, 0);
      SameHashGrows(s, t.ip, off + 1, Min(t.ip, DISTANCE_MAX) + 1);
    }
  }

  /** A match has the same hash wherever 4 of its bytes are left. */
  lemma MatchSameHash(s: seq<byte>, ip: nat, start: int, off: int, n: int, pos: nat)
    requires RealMatch(s, start, off, n) && start <= ip && ip + pos + 4 <= start + n
    ensures Hash(s, ip + pos - off) == Hash(s, ip + pos)
  {
    var p := ip + pos;
    assert Copied(s, off, p) && Copied(s, off, p + 1) && Copied(s, off, p + 2) && Copied(s, off, p + 3);
  }

  /** Positions that have another hash, `pos` bytes into the match, need not be tried. */
  lemma CoveredFurther(s: seq<byte>, t: Task, d: int, d': int, longest: nat, pos: nat)
    requires t.ip + pos + 4 <= |s| && Covered(s, t, d, longest)
    requires pos == 0 || (t.iLow == t.ip && pos + 4 <= longest)
    requires 0 <= d && forall k :: 0 <= k - pos && t.ip - d' < k - pos <= t.ip - d ==> Hash(s, k) != Hash(s, t.ip + pos)
    ensures Covered(s, t, d', longest)
  {
    hide Hash;
    forall start: int, off: int, n: int | RealMatch(s, start, off, n) && t.near <= off < d' && Around(t, start, n)
        ensures n <= longest {
      if n > longest && off >= d { MatchSameHash(s, t.ip, start, off, n, pos); }
    }
  }

  /** One search: its task, the lowest index of the window, the length asked for, and its shortcuts. */
  datatype Setup = Setup(t: Task, lowest: nat, longest: nat, patternAnalysis: bool, chainSwap: bool)

  /** LZ4HC_CCtx_internal.  Positions are relative to the start of the block, indices are
      `base` more (dictLimit, which LZ4HC_init_internal sets to 64 KB). */
  class HcContext {
    const src: seq<byte>
    const base: nat
    const hashTable: array<nat>
    const chainTable: array<nat>
    var nextToUpdate: nat

    /** LZ4_initStreamHC clears the state, LZ4HC_init_internal opens it for a block. */
    constructor (src: seq<byte>)
      ensures Valid() && this.src == src && nextToUpdate == base
      ensures fresh(hashTable) && fresh(chainTable)
    {
      this.src, base := src, MAXD;
      hashTable, chainTable := new nat[HASHTABLESIZE](_ => 0), new nat[MAXD](_ => 0);
      nextToUpdate := MAXD;
    }

    ghost predicate Shape()
      reads this
    {
      && hashTable.Length == HASHTABLESIZE && chainTable.Length == MAXD && hashTable != chainTable
      && base >= MAXD
      && base <= nextToUpdate
      && (nextToUpdate == base || nextToUpdate - base + 3 <= |src|)
    }

    /** The head of each chain is the last position with that hash. */
    ghost predicate Head(h: nat)
      requires Shape() && h < HASHTABLESIZE && |src| >= 3
      reads this, hashTable
    {
      hashTable[h] == IndexOf(base, Previous(src, nextToUpdate - base, h))
    }

    /** The link at index `i` leads to the position before with the same hash, cut to 16 bits. */
    ghost predicate Link(i: int)
      requires Shape()
      reads this, chainTable
    {
      base <= i < nextToUpdate ==>
        chainTable[i % MAXD] == Min(DISTANCE_MAX, i - IndexOf(base, Previous(src, i - base, Hash(src, i - base))))
    }

    /** All heads, the links of the last 64 K positions, and links of 16 bits everywhere. */
    ghost predicate Valid()
      reads this, hashTable, chainTable
    {
      && Shape()
      && (|src| >= 3 ==> forall h :: 0 <= h < HASHTABLESIZE ==> Head(h))
      && (forall i :: nextToUpdate - MAXD <= i < nextToUpdate ==> Link(i))
      && (forall k :: 0 <= k < MAXD ==> chainTable[k] <= DISTANCE_MAX)
    }

    /** LZ4HC_Insert: enter all positions before `ip`.  Going backwards undoes no entries and only
        moves nextToUpdate back, so that the tables no longer fit it. */
    method Insert(ip: nat)
      requires Valid() && ip + 3 <= |src|
      modifies this`nextToUpdate, hashTable, chainTable
      ensures nextToUpdate == base + ip
      ensures old(nextToUpdate) <= base + ip ==> Valid()
      ensures base + ip <= old(nextToUpdate) ==>
                hashTable[..] == old(hashTable[..]) && chainTable[..] == old(chainTable[..])
    {
      var idx, target := nextToUpdate, base + ip;
      while idx < target
        invariant old(nextToUpdate) <= idx && Valid() && nextToUpdate == idx
        invariant idx <= target || idx == old(nextToUpdate)
        invariant idx == old(nextToUpdate) ==>
                    hashTable[..] == old(hashTable[..]) && chainTable[..] == old(chainTable[..])
      {
        InsertOne();
        idx := idx + 1;
      }
      nextToUpdate := target;
    }

    /** Compare the candidate at distance `off`, as the search within the prefix does. */
    method TryCandidate(ip: nat, iLow: nat, iHigh: nat, off: nat, best: Match, ghost t: Task, ghost longest0: nat)
      returns (matchLength: nat, best': Match)
      requires iLow <= ip && ip + MINMATCH <= iHigh < |src| && 1 <= off <= ip && off <= DISTANCE_MAX
      requires (t.ip, t.iLow, t.iHigh) == (ip, iLow, iHigh)
      requires 1 <= best.len && ip - iLow < best.len && iLow + best.len <= iHigh
      requires Answers(src, ip, iLow, iHigh, longest0, best)
      ensures Answers(src, ip, iLow, iHigh, longest0, best') && best'.len >= best.len
      ensures iLow + best'.len <= iHigh
      ensures matchLength != 0 ==> matchLength >= MINMATCH && LongestAround(src, t, off, matchLength)
      ensures matchLength > best.len ==> best'.off == off && best'.len == matchLength
      ensures matchLength <= best.len ==> best' == best
      ensures Covered(src, t, off, best.len) ==> Covered(src, t, off + 1, best'.len)
    {
      hide Covered, LongestAround, RealMatch;
      var m, lookBack := ip - off, ip - iLow;
      matchLength, best' := 0, best;
      if !Same2(src, iLow + best.len - 1, m - lookBack + best.len - 1) {
        FilterIsSafe(src, t, off, best.len);
        return;
      }
      if !Same4(src, ip, m) {
        NoMatchOf4(src, t, off, best.len);
        return;
      }
      var back := 0;
      if lookBack > 0 {
        back := CountBack(src, ip, m, iLow, 0);
      }
      var n := Count(src, ip + MINMATCH, m + MINMATCH, iHigh);
      matchLength := MINMATCH + n - back;
      WholeMatch(src, t, off, back, n);
      if matchLength > best.len {
        best' := Match(off, matchLength, back);
      }
      CoveredMore(t, off, best.len, best'.len);
      LongestCovers(src, t, off, matchLength, best'.len);
    }

    lemma CoveredMore(t: Task, d: int, longest: nat, longest': nat)
      requires longest <= longest'
      ensures Covered(src, t, d, longest) ==> Covered(src, t, d, longest')
    {
    }

    /** What a search with `n` attempts promises: the table is filled up to `ip`, and an answer longer
        than `longest` is a real match.  No match with the nearest position of the same hash is longer
        than the answer; and unless the pattern analysis finds `ip` in a run of one byte, none with the
        nearest `n` such positions, however far it reaches back.  The chain swap may use up attempts on
        other positions, but with enough of them for the window nothing longer is left in it. */
    ghost predicate Searched(t: Task, longest: nat, patternAnalysis: bool, chainSwap: bool, n: nat, m: Match)
      reads this, hashTable, chainTable
    {
      && Valid() && nextToUpdate == base + t.ip && t.ip + 4 <= |src|
      && Answers(src, t.ip, t.iLow, t.iHigh, longest, m)
      && (n >= 1 ==> NearestCovered(src, t, 1, m.len))
      && (!(patternAnalysis && Equal4(src, t.ip)) ==>
            && (!chainSwap ==> NearestCovered(src, t, n, m.len))
            && (n >= Min(t.ip, 65535) ==> Covered(src, t, t.ip + 1, m.len)))
    }

    /** LZ4HC_InsertAndGetWiderMatch, without dictionary. */
    method InsertAndGetWiderMatch(ip: nat, iLow: nat, iHigh: nat, longest: nat, maxNbAttempts: nat,
            patternAnalysis: bool, chainSwap: bool, favorDecSpeed: bool)
      returns (best: Match)
      requires Valid() && nextToUpdate <= base + ip
      requires iLow <= ip && ip + MINMATCH <= iHigh < |src|
      requires 1 <= longest && ip - iLow < longest && iLow + longest <= iHigh
      requires chainSwap ==> ip == iLow
      modifies this`nextToUpdate, hashTable, chainTable
      ensures Searched(Task(ip, iLow, iHigh, if favorDecSpeed then 8 else 1), longest, patternAnalysis, chainSwap,
                       maxNbAttempts, best)
    {
      Insert(ip);
      best := Search(ip, iLow, iHigh, longest, maxNbAttempts, patternAnalysis, chainSwap, favorDecSpeed);
    }

    /** The search itself, which only reads the tables. */
    method Search(ip: nat, iLow: nat, iHigh: nat, longest: nat, maxNbAttempts: nat, patternAnalysis: bool,
            chainSwap: bool, favorDecSpeed: bool)
      returns (best: Match)
      requires Valid() && nextToUpdate == base + ip
      requires iLow <= ip && ip + MINMATCH <= iHigh < |src|
      requires 1 <= longest && ip - iLow < longest && iLow + longest <= iHigh
      requires chainSwap ==> ip == iLow
      ensures Searched(Task(ip, iLow, iHigh, if favorDecSpeed then 8 else 1), longest, patternAnalysis, chainSwap,
                       maxNbAttempts, best)
    {
      hide Hash, Answers, Covered, NearestCovered, RunKnown, Head, Link, OnChain, Progress, Searching;
      ghost var t := Task(ip, iLow, iHigh, if favorDecSpeed then 8 else 1);
      var ipIndex := base + ip;
      var withinStartDistance := base + DISTANCE_MAX + 1 > ipIndex;
      var lowestMatchIndex := if withinStartDistance then base else ipIndex - DISTANCE_MAX;
      best := Match(0, longest, 0);
      NothingFound(ip, iLow, iHigh, longest);
      var matchIndex, nbAttempts, chainPos: nat := hashTable[Hash(src, ip)], maxNbAttempts, 0;
      ghost var w := Setup(t, lowestMatchIndex, longest, patternAnalysis, chainSwap);
      ghost var d, jumped := ipIndex - matchIndex, false;
      FirstLink(w, best);
      var run := Untested;
      while matchIndex >= lowestMatchIndex && nbAttempts > 0
        invariant 0 <= nbAttempts <= maxNbAttempts && RunKnown(src, ip, iHigh, run)
        invariant Searching(w, matchIndex, chainPos, d, maxNbAttempts - nbAttempts, jumped, best)
        invariant 0 <= matchIndex < ipIndex && (!jumped ==> d == ipIndex - matchIndex)
        decreases nbAttempts
      {
        nbAttempts := nbAttempts - 1;
        ghost var used := maxNbAttempts - nbAttempts;
        var matchLength, stop, taken;
        matchLength, best, d := TryIndex(ip, iLow, iHigh, matchIndex, chainPos, favorDecSpeed, best, w, d, used,
            jumped);
        if chainSwap && matchLength == best.len {
          taken, stop, matchIndex, chainPos, d := SwapChain(ipIndex, matchIndex, best, chainPos, w, d, used, jumped);
          if stop { break; }
          if taken { continue; }
        }
        if patternAnalysis && Delta(matchIndex) == 1 && chainPos == 0 {
          taken, stop, matchIndex, run, best, jumped := TryPattern(ip, iLow, iHigh, lowestMatchIndex, matchIndex, run,
              best, w, d, used, jumped);
          if stop { break; }
          if taken { continue; }
        }
        d := FollowLink(w, matchIndex, chainPos, d, used, jumped, best);
        matchIndex := matchIndex - Delta(matchIndex + chainPos);
      }
      SearchEnds(w, matchIndex, chainPos, d, maxNbAttempts - nbAttempts, maxNbAttempts, jumped, best);
    }

    /** The candidate at `matchIndex`, unless it is too near for a match that decodes fast. */
    method TryIndex(ip: nat, iLow: nat, iHigh: nat, matchIndex: nat, chainPos: nat, favorDecSpeed: bool, best0: Match,
            ghost w: Setup, ghost d0: int, ghost used: nat, ghost jumped: bool)
      returns (matchLength: nat, best: Match, ghost d: int)
      requires Valid() && InWindow(w) && w.lowest <= matchIndex && ip + MINMATCH <= iHigh < |src| && used >= 1
      requires w.t == Task(ip, iLow, iHigh, if favorDecSpeed then 8 else 1)
      requires Searching(w, matchIndex, chainPos, d0, used - 1, jumped, best0)
      requires !jumped ==> d0 == base + ip - matchIndex
      ensures Searching(w, matchIndex, chainPos, d, used, jumped, best)
      ensures !jumped ==> d == base + ip - matchIndex + 1
      ensures matchLength <= best.len && 1 <= best.len
      ensures matchLength != 0 ==>
                matchLength >= MINMATCH && LongestAround(src, w.t, base + ip - matchIndex, matchLength)
    {
      hide Hash, SameHash, Answers, Covered, LongestAround, OnChain;
      matchLength, best, d := 0, best0, d0;
      var off := base + ip - matchIndex;
      if !(favorDecSpeed && off < 8) {
        matchLength, best := TryCandidate(ip, iLow, iHigh, off, best, w.t, w.longest);
      } else {
        TooNear(w.t, off, best.len);
      }
      if !jumped { d := d + 1; }
      OneTried(w, matchIndex, chainPos, d0, used, jumped, best0.len, best.len);
    }

    /** After an improvement, go on along the chain that leads furthest, if there is one. */
    method SwapChain(ipIndex: nat, matchIndex0: nat, best: Match, chainPos0: nat, ghost w: Setup, ghost d0: int,
            ghost used: nat, ghost jumped: bool)
      returns (taken: bool, stop: bool, matchIndex: nat, chainPos: nat, ghost d: int)
      requires Valid() && InWindow(w) && ipIndex == base + w.t.ip && w.lowest <= matchIndex0 && w.chainSwap
      requires Searching(w, matchIndex0, chainPos0, d0, used, jumped, best) && used >= 1 && best.len >= MINMATCH
      requires !jumped ==> d0 == ipIndex - matchIndex0 + 1
      requires LongestAround(src, w.t, ipIndex - matchIndex0, best.len)
      ensures !taken && !stop ==> matchIndex == matchIndex0 && chainPos == chainPos0 && d == d0
      ensures taken ==> !stop && Searching(w, matchIndex, chainPos, d, used, jumped, best)
      ensures matchIndex < ipIndex && (taken && !jumped ==> d == ipIndex - matchIndex)
      ensures stop ==> SearchOver(w, d, used, jumped, best)
    {
      hide Hash, SameHash, Answers, Covered, LongestAround, OnChain, Progress;
      taken, stop, matchIndex, chainPos, d := false, false, matchIndex0, chainPos0, d0;
      if matchIndex + best.len <= ipIndex {
        var distance;
        distance, chainPos := LongestLink(matchIndex, best.len, chainPos);
        if distance > 1 {
          if !jumped {
            SwapCovers(w, matchIndex, chainPos, used, best.len);
            d := ipIndex - (matchIndex - distance);
          }
          if distance > matchIndex { stop := true; return; }
          taken, matchIndex := true, matchIndex - distance;
        }
      }
    }

    /** A link to the position right before may mean a run of one byte. */
    method TryPattern(ip: nat, iLow: nat, iHigh: nat, lowest: nat, matchIndex0: nat, run0: Repeat, best0: Match,
            ghost w: Setup, ghost d: int, ghost used: nat, ghost jumped0: bool)
      returns (taken: bool, stop: bool, matchIndex: nat, run: Repeat, best: Match, ghost jumped: bool)
      requires Valid() && InWindow(w) && iLow <= ip && ip + MINMATCH <= iHigh < |src|
      requires w.lowest == lowest <= matchIndex0 && (w.t.ip, w.t.iLow, w.t.iHigh) == (ip, iLow, iHigh)
      requires RunKnown(src, ip, iHigh, run0)
      requires w.patternAnalysis && Searching(w, matchIndex0, 0, d, used, jumped0, best0) && used >= 1
      ensures RunKnown(src, ip, iHigh, run)
      ensures !taken && !stop ==> matchIndex == matchIndex0 && best == best0 && jumped == jumped0
      ensures matchIndex < base + ip
      ensures taken || stop ==> jumped && Searching(w, matchIndex, 0, d, used, jumped, best)
    {
      hide Answers, Progress, OnChain;
      taken, stop, matchIndex, run, best, jumped := false, false, matchIndex0, run0, best0, jumped0;
      var candidate := matchIndex - 1;
      if run == Untested {
        run := TestRun(ip, iHigh);
      }
      if run.Confirmed? && candidate >= lowest && ProtectDictEnd(candidate) && Same4(src, ip, candidate - base) {
        taken := true;
        SameRun(src, ip, candidate - base);
        stop, matchIndex, best := PatternJump(ip, iLow, iHigh, lowest, candidate, run.length, best, w.longest);
        Jumped(w.t, d, used, w.chainSwap, jumped, best0.len, best.len);
        jumped := true;
      }
    }

    lemma NothingFound(ip: nat, iLow: nat, iHigh: nat, longest: nat)
      ensures Answers(src, ip, iLow, iHigh, longest, Match(0, longest, 0))
      ensures ip < |src| ==> RunKnown(src, ip, iHigh, Untested)
    {
    }

    /** `matchIndex` is on the chain of the position `pos` bytes behind `ip`, or outside the window. */
    ghost predicate OnChain(t: Task, lowest: nat, matchIndex: int, pos: nat, longest: nat)
    {
      && matchIndex < base + t.ip && t.ip + 4 <= |src|
      && (pos > 0 ==> t.iLow == t.ip && pos + 4 <= longest)
      && (matchIndex >= lowest ==>
            && base <= lowest && matchIndex + pos < base + t.ip && t.ip + pos + 4 <= |src|
            && Hash(src, matchIndex - base + pos) == Hash(src, t.ip + pos))
    }

    /** What has been done with `used` attempts: nothing longer than `longest` is left nearer than `d`,
        and without shortcuts each attempt was one of the nearest positions with the same hash. */
    ghost predicate Progress(t: Task, d: int, used: nat, chainSwap: bool, jumped: bool, longest: nat)
    {
      && t.ip + 4 <= |src| && 1 <= d && Covered(src, t, d, longest)
      && (used >= 1 ==> d > t.ip || d > DISTANCE_MAX || SameHash(src, t.ip, d) >= 1)
      && (!jumped ==> d > used)
      && (!jumped && !chainSwap ==> d > t.ip || d > DISTANCE_MAX || SameHash(src, t.ip, d) >= used)
    }

    /** The state of a search after `used` attempts; `jumped` says that the pattern analysis has left
        the chains. */
    ghost predicate Searching(w: Setup, matchIndex: int, chainPos: nat, d: int, used: nat, jumped: bool, best: Match)
    {
      && 0 <= matchIndex < base + w.t.ip
      && Answers(src, w.t.ip, w.t.iLow, w.t.iHigh, w.longest, best)
      && best.len >= w.longest && w.t.iLow + best.len <= w.t.iHigh
      && (jumped ==> w.patternAnalysis && Equal4(src, w.t.ip) && used >= 1)
      && Progress(w.t, d, used, w.chainSwap, jumped, best.len)
      && (!jumped ==> base + w.t.ip - matchIndex <= d <= base + w.t.ip - matchIndex + 1
                        && OnChain(w.t, w.lowest, matchIndex, chainPos, best.len))
      && (!w.chainSwap || used == 0 ==> chainPos == 0)
    }

    /** What has been done when a search breaks off. */
    ghost predicate SearchOver(w: Setup, d: int, used: nat, jumped: bool, best: Match)
    {
      && Answers(src, w.t.ip, w.t.iLow, w.t.iHigh, w.longest, best)
      && (jumped ==> w.patternAnalysis && Equal4(src, w.t.ip) && used >= 1)
      && Progress(w.t, d, used, w.chainSwap, jumped, best.len)
      && (!jumped ==> d > w.t.ip)
    }

    /** The table is filled up to the position searched, and the window reaches back 64 KB. */
    ghost predicate InWindow(w: Setup)
      reads this
    {
      && nextToUpdate == base + w.t.ip && w.t.ip + 4 <= |src| && 0 <= w.t.iLow <= w.t.ip
      && w.t.ip - w.t.iLow < w.longest && 1 <= w.longest && (w.chainSwap ==> w.t.ip == w.t.iLow)
      && w.lowest == (if base + 65536 > base + w.t.ip then base else base + w.t.ip - 65535)
    }

    /** The head of the chain passes over no position with the hash of `ip`. */
    lemma FirstLink(w: Setup, best: Match)
      requires Valid() && InWindow(w) && best == Match(0, w.longest, 0) && w.t.iLow + w.longest <= w.t.iHigh
      requires Answers(src, w.t.ip, w.t.iLow, w.t.iHigh, w.longest, best)
      ensures var i := hashTable[Hash(src, w.t.ip)];
              i < base + w.t.ip && Searching(w, i, 0, base + w.t.ip - i, 0, false, best)
    {
      hide Hash, Answers;
      assert Head(Hash(src, w.t.ip));
      CoveredFurther(src, w.t, 1, base + w.t.ip - hashTable[Hash(src, w.t.ip)], w.longest, 0);
    }

    /** The candidate on the chain is done with. */
    lemma OneTried(w: Setup, matchIndex: nat, pos: nat, d: int, used: nat, jumped: bool, longest: nat, longest': nat)
      requires w.lowest <= matchIndex && longest <= longest' && used >= 1
      requires Progress(w.t, d, used - 1, w.chainSwap, jumped, longest)
      requires !jumped ==> d == base + w.t.ip - matchIndex && OnChain(w.t, w.lowest, matchIndex, pos, longest)
      requires !jumped && Covered(src, w.t, d, longest) ==> Covered(src, w.t, d + 1, longest')
      requires used == 1 || !w.chainSwap ==> pos == 0
      requires jumped ==> used >= 2
      ensures Progress(w.t, if jumped then d else d + 1, used, w.chainSwap, jumped, longest')
      ensures !jumped ==> OnChain(w.t, w.lowest, matchIndex, pos, longest')
    {
      hide Hash;
      if !jumped {
        assert SameHash(src, w.t.ip, d + 1) == SameHash(src, w.t.ip, d)
            + if Hash(src, w.t.ip - d) == Hash(src, w.t.ip) then 1 else 0;
      }
    }

    /** After a jump along a run nothing more is known. */
    lemma Jumped(t: Task, d: int, used: nat, chainSwap: bool, jumped: bool, longest: nat, longest': nat)
      requires Progress(t, d, used, chainSwap, jumped, longest) && longest <= longest' && used >= 1
      ensures Progress(t, d, used, chainSwap, true, longest')
    {
      hide Hash, SameHash;
    }

    lemma TooNear(t: Task, off: int, longest: nat)
      ensures off < t.near && Covered(src, t, off, longest) ==> Covered(src, t, off + 1, longest)
    {
    }

    /** A link passes over no position of its chain. */
    lemma LinkPasses(w: Setup, matchIndex: nat, pos: nat, used: nat, longest: nat)
      requires Valid() && InWindow(w) && w.lowest <= matchIndex && OnChain(w.t, w.lowest, matchIndex, pos, longest)
      requires Progress(w.t, base + w.t.ip - matchIndex + 1, used, w.chainSwap, false, longest)
      ensures 1 <= Delta(matchIndex + pos) <= DISTANCE_MAX
      ensures var next := matchIndex - Delta(matchIndex + pos);
              && Progress(w.t, base + w.t.ip - next, used, w.chainSwap, false, longest)
              && OnChain(w.t, w.lowest, next, pos, longest)
    {
      hide Hash, SameHash;
      assert Link(matchIndex + pos);
      var d, d' := base + w.t.ip - matchIndex + 1, base + w.t.ip - (matchIndex - Delta(matchIndex + pos));
      CoveredFurther(src, w.t, d, d', longest, pos);
      SameHashGrows(src, w.t.ip, d, d');
    }

    /** Following the link of the position `chainPos` bytes into the match. */
    lemma FollowLink(w: Setup, matchIndex: nat, chainPos: nat, d0: int, used: nat, jumped: bool, best: Match)
      returns (d: int)
      requires Valid() && InWindow(w) && w.lowest <= matchIndex && w.lowest >= base
      requires Searching(w, matchIndex, chainPos, d0, used, jumped, best)
      requires !jumped ==> d0 == base + w.t.ip - matchIndex + 1
      ensures 0 <= matchIndex - Delta(matchIndex + chainPos) < base + w.t.ip
      ensures Searching(w, matchIndex - Delta(matchIndex + chainPos), chainPos, d, used, jumped, best)
      ensures !jumped ==> d == base + w.t.ip - (matchIndex - Delta(matchIndex + chainPos))
    {
      hide Hash, SameHash, Covered, OnChain, Progress, Answers;
      d := d0;
      if !jumped {
        LinkPasses(w, matchIndex, chainPos, used, best.len);
        d := base + w.t.ip - (matchIndex - Delta(matchIndex + chainPos));
      }
    }

    /** After a match of `longest` bytes at `matchIndex`, every longer one is on the chain of each of its
        positions too. */
    lemma SwapCovers(w: Setup, matchIndex: nat, pos: nat, used: nat, longest: nat)
      requires Valid() && InWindow(w) && w.lowest <= matchIndex && matchIndex + longest <= base + w.t.ip
      requires w.chainSwap && pos + 4 <= longest && LongestAround(src, w.t, base + w.t.ip - matchIndex, longest)
      requires Progress(w.t, base + w.t.ip - matchIndex + 1, used, true, false, longest)
      ensures var next := matchIndex - Delta(matchIndex + pos);
              && Progress(w.t, base + w.t.ip - next, used, true, false, longest)
              && OnChain(w.t, w.lowest, next, pos, longest)
    {
      hide Hash, SameHash, Covered, OnChain;
      SameOnChain(w, matchIndex, pos, longest);
      LinkPasses(w, matchIndex, pos, used, longest);
    }

    lemma SameOnChain(w: Setup, matchIndex: nat, pos: nat, longest: nat)
      requires InWindow(w) && w.lowest <= matchIndex && matchIndex + longest <= base + w.t.ip
      requires w.t.iLow == w.t.ip && pos + 4 <= longest
      requires LongestAround(src, w.t, base + w.t.ip - matchIndex, longest)
      ensures OnChain(w.t, w.lowest, matchIndex, pos, longest)
    {
      hide Hash, RealMatch;
      var off := base + w.t.ip - matchIndex;
      var start: int :| RealMatch(src, start, off, longest) && Around(w.t, start, longest);
      RealEnds(start, off, longest);
      MatchSameHash(src, w.t.ip, start, off, longest, pos);
    }

    lemma RealEnds(start: int, off: int, len: int)
      requires RealMatch(src, start, off, len)
      ensures start + len <= |src|
    {
    }

    /** When the search ends, the attempts are used up or the window is. */
    lemma SearchEnds(w: Setup, matchIndex: int, chainPos: nat, d: int, used: nat, n: nat, jumped: bool, best: Match)
      requires Valid() && InWindow(w) && used <= n
      requires SearchOver(w, d, used, jumped, best) || (Searching(w, matchIndex, chainPos, d, used, jumped, best)
          && (jumped || ((used == n || matchIndex < w.lowest) && d == base + w.t.ip - matchIndex)))
      ensures Searched(w.t, w.longest, w.patternAnalysis, w.chainSwap, n, best)
    {
      hide Hash, SameHash, NearestCovered, RealMatch, Answers, Covered, HcContext.Valid;
      if n >= 1 { CoveredNearest(src, w.t, d, 1, best.len); }
      if !jumped && !w.chainSwap { CoveredNearest(src, w.t, d, n, best.len); }
      if !jumped && n >= Min(w.t.ip, 65535) { WholeWindow(w.t, d, best.len); }
    }

    /** Past the window, and past the start of the block, there is nothing to find. */
    lemma WholeWindow(t: Task, d: int, longest: nat)
      requires Covered(src, t, d, longest) && (d > t.ip || d > DISTANCE_MAX)
      ensures Covered(src, t, t.ip + 1, longest)
    {
    }

    /** The pattern test: is `ip` the start of a run of one byte, and how long is it. */
    method TestRun(ip: nat, iHigh: nat) returns (run: Repeat)
      requires ip + MINMATCH <= iHigh < |src|
      ensures run != Untested && RunKnown(src, ip, iHigh, run)
    {
      if src[ip] == src[ip + 2] && src[ip + 1] == src[ip + 3] && src[ip] == src[ip + 3] {
        var n := CountPattern(src, ip + 4, iHigh, src[ip..ip + 4]);
        PatternRun(src, src[ip..ip + 4], src[ip], ip, ip + 4, n, 0);
        return Confirmed(n + 4);
      }
      return NotRepeated;
    }

    /** DELTANEXTU16. */
    function Delta(index: nat): nat
      requires chainTable.Length == MAXD
      reads chainTable
    {
      chainTable[index % MAXD]
    }

    /** The chain-swap scan: which of the positions inside the match has the longest link.
        Which one it is matters for speed only. */
    method LongestLink(matchIndex: nat, longest: nat, chainPos0: nat) returns (distance: nat, chainPos: nat)
      requires chainTable.Length == MAXD && longest >= MINMATCH - 1
      requires forall k :: 0 <= k < MAXD ==> chainTable[k] <= DISTANCE_MAX
      ensures 1 <= distance <= DISTANCE_MAX
      ensures distance == 1 ==> chainPos == chainPos0
      ensures distance > 1 ==> chainPos + MINMATCH <= longest && distance == Delta(matchIndex + chainPos)
    {
      distance, chainPos := 1, chainPos0;
      var end, pos, step, accel := longest - MINMATCH + 1, 0, 1, 16;
      while pos < end
        invariant 0 <= pos && accel >= 16 && 1 <= distance <= DISTANCE_MAX
        invariant distance == 1 ==> chainPos == chainPos0
        invariant distance > 1 ==> chainPos + MINMATCH <= longest && distance == Delta(matchIndex + chainPos)
        decreases end - pos
      {
        var candidateDist := Delta(matchIndex + pos);
        step := accel / 16;
        accel := accel + 1;
        if candidateDist > distance {
          distance, chainPos, accel := candidateDist, pos, 16;
        }
        pos := pos + step;
      }
    }

    /** LZ4HC_protectDictEnd, in unsigned arithmetic. */
    predicate ProtectDictEnd(index: nat)
    {
      (base - 1 - index) % 0x1_0000_0000 >= 3
    }

    /** The repeated-byte shortcut, entered when the candidate before `matchIndex` begins a run
        of the byte that `ip` begins a run of, `srcPattern` bytes long.  It moves along or out
        of the run, and may record a match without comparing it. */
    method PatternJump(ip: nat, iLow: nat, iHigh: nat, lowest: nat, candidate: nat, srcPattern: nat, best: Match,
            ghost longest0: nat)
      returns (stop: bool, matchIndex: nat, best': Match)
      requires chainTable.Length == MAXD && base >= MAXD && iLow <= ip && iHigh < |src|
      requires base <= lowest <= candidate < base + ip - 1 && base + ip - lowest <= DISTANCE_MAX
      requires ip < |src| && srcPattern >= MINMATCH && ip + srcPattern <= iHigh
          && Run(src, ip, ip + srcPattern, src[ip])
      requires Run(src, candidate - base, candidate - base + MINMATCH, src[ip])
      requires Answers(src, ip, iLow, iHigh, longest0, best) && iLow + best.len <= iHigh
      ensures Answers(src, ip, iLow, iHigh, longest0, best') && best'.len >= best.len && iLow + best'.len <= iHigh
      ensures matchIndex < base + ip
    {
      var pattern := src[ip..ip + 4];
      stop, matchIndex, best' := false, candidate, best;
      var m := candidate - base;
      var n := CountPattern(src, m + 4, iHigh, pattern);
      var forward := n + 4;
      var backLength := ReverseCountPattern(src, m, 0, pattern);
      PatternRun(src, pattern, src[ip], m, m + 4, n, backLength);
      backLength := candidate - Max(candidate - backLength, lowest);
      var segment := backLength + forward;
      if segment >= srcPattern && forward <= srcPattern {
        var newMatchIndex := candidate + forward - srcPattern;
        matchIndex := if ProtectDictEnd(newMatchIndex) then newMatchIndex else base;
      } else {
        stop, matchIndex, best' := LeaveRun(ip, iLow, iHigh, lowest, candidate, backLength, forward, srcPattern,
            best, longest0);
      }
    }

    /** Go to the start of the run that `candidate` is in, or, when there is no looking back, to
        the next link before it. */
    method LeaveRun(ip: nat, iLow: nat, iHigh: nat, lowest: nat, candidate: nat, backLength: nat, forward: nat,
            srcPattern: nat, best: Match, ghost longest0: nat)
      returns (stop: bool, matchIndex: nat, best': Match)
      requires chainTable.Length == MAXD && base >= MAXD && iLow <= ip && iHigh < |src|
      requires base <= lowest <= candidate - backLength && candidate < base + ip - 1
          && base + ip - lowest <= DISTANCE_MAX
      requires forward >= MINMATCH && srcPattern >= MINMATCH && ip + srcPattern <= iHigh
          && Run(src, ip, ip + srcPattern, src[ip])
      requires Run(src, candidate - base - backLength, candidate - base + forward, src[ip])
      requires Answers(src, ip, iLow, iHigh, longest0, best) && iLow + best.len <= iHigh
      ensures Answers(src, ip, iLow, iHigh, longest0, best') && best'.len >= best.len && iLow + best'.len <= iHigh
      ensures matchIndex < base + ip
    {
      stop, matchIndex, best' := false, candidate - backLength, best;
      var segment := backLength + forward;
      if !ProtectDictEnd(matchIndex) {
        matchIndex := base;
      } else if ip == iLow {
        var maxML := Min(segment, srcPattern);
        if best.len < maxML {
          if ip + base - matchIndex > DISTANCE_MAX { return true, matchIndex, best; }
          RunsMatch(src, ip, matchIndex - base, maxML);
          best' := Match(ip + base - matchIndex, maxML, 0);
        }
        var distToNextPattern := Delta(matchIndex);
        if distToNextPattern > matchIndex { return true, matchIndex, best'; }
        matchIndex := matchIndex - distToNextPattern;
      }
    }

    /** One round of the loop of LZ4HC_Insert. */
    method InsertOne()
      requires Valid() && nextToUpdate - base + 4 <= |src|
      modifies this`nextToUpdate, hashTable, chainTable
      ensures Valid() && nextToUpdate == old(nextToUpdate) + 1
    {
      hide Hash;
      var idx := nextToUpdate;
      var h := Hash(src, idx - base);
      assert Head(h);
      var delta := idx - hashTable[h];
      if delta > DISTANCE_MAX { delta := DISTANCE_MAX; }
      chainTable[idx % MAXD] := delta;
      hashTable[h] := idx;
      nextToUpdate := idx + 1;
      forall i | nextToUpdate - MAXD <= i < nextToUpdate ensures Link(i) {
        if i < idx {
          assert old(Link(i));
          Slots(i, idx);
        }
      }
      forall k | 0 <= k < HASHTABLESIZE ensures Head(k) {
        assert old(Head(k));
      }
    }
  }

  /** Indices less than 64 K apart have different slots in the chain table. */
  lemma Slots(i: int, j: int)
    requires 0 <= i < j < i + MAXD
    ensures i % MAXD != j % MAXD
  {
  }

  /** A candidate that differs in the last byte that the best match so far would have from `iLow`
      on, or in the one behind it, gives none that is longer. */
  lemma FilterIsSafe(s: seq<byte>, t: Task, off: nat, longest: nat)
    requires 1 <= off <= t.ip && 0 <= t.iLow <= t.ip < t.iLow + longest && t.iLow + longest + 1 <= |s|
    requires off <= t.iLow + longest - 1 && !Same2(s, t.iLow + longest - 1, t.iLow + longest - 1 - off)
    ensures Covered(s, t, off, longest) ==> Covered(s, t, off + 1, longest)
  {
    assert !Copied(s, off, t.iLow + longest - 1) || !Copied(s, off, t.iLow + longest);
  }

  lemma NoMatchOf4(s: seq<byte>, t: Task, off: nat, longest: nat)
    requires 1 <= off <= t.ip && t.ip + 4 <= |s| && !Same4(s, t.ip, t.ip - off)
    ensures Covered(s, t, off, longest) ==> Covered(s, t, off + 1, longest)
  {
    var ip := t.ip;
    assert !Copied(s, off, ip) || !Copied(s, off, ip + 1) || !Copied(s, off, ip + 2) || !Copied(s, off, ip + 3);
  }

  /** The longest match around `ip` at distance `off` has `n` bytes. */
  ghost predicate LongestAround(s: seq<byte>, t: Task, off: int, n: int)
  {
    && (exists start: int :: RealMatch(s, start, off, n) && Around(t, start, n))
    && (forall start: int, k: int :: RealMatch(s, start, off, k) && Around(t, start, k) ==> k <= n)
  }

  /** 4 equal bytes, what LZ4_count adds behind them and LZ4HC_countBack before them. */
  lemma WholeMatch(s: seq<byte>, t: Task, off: nat, back: int, n: nat)
    requires 1 <= off <= t.ip + back && off <= DISTANCE_MAX && back <= 0
    requires t.iLow <= t.ip + back && t.ip + 4 <= t.iHigh <= |s|
    requires Same4(s, t.ip, t.ip - off)
    requires Periodic(s, t.ip + back, t.ip, off)
    requires t.ip + back > t.iLow && t.ip + back > off ==> s[t.ip + back - 1] != s[t.ip + back - off - 1]
    requires LongestRepeat(s, t.ip + MINMATCH, off, n, t.iHigh)
    ensures RealMatch(s, t.ip + back, off, MINMATCH + n - back)
    ensures LongestAround(s, t, off, MINMATCH + n - back)
  {
    assert Copied(s, off, t.ip) && Copied(s, off, t.ip + 1) && Copied(s, off, t.ip + 2) && Copied(s, off, t.ip + 3);
    assert Around(t, t.ip + back, MINMATCH + n - back);
    forall start: int, k: int | RealMatch(s, start, off, k) && Around(t, start, k)
        ensures k <= MINMATCH + n - back {
      assert start < t.ip + back ==> Copied(s, off, t.ip + back - 1);
      assert t.ip + MINMATCH + n < start + k ==> Copied(s, off, t.ip + MINMATCH + n);
    }
  }

  lemma LongestCovers(s: seq<byte>, t: Task, off: int, n: int, longest: nat)
    requires LongestAround(s, t, off, n) && n <= longest
    ensures Covered(s, t, off, longest) ==> Covered(s, t, off + 1, longest)
  {
  }

  // ---------- Runs of one byte ----------

  /** A run of one byte begins at `ip`, or goes on there. */
  predicate Equal4(s: seq<byte>, ip: nat)
  {
    ip + 4 <= |s| && s[ip] == s[ip + 1] == s[ip + 2] == s[ip + 3]
  }

  /** repeat_state_e, with srcPatternLength. */
  datatype Repeat = Untested | NotRepeated | Confirmed(length: nat)

  ghost predicate RunKnown(s: seq<byte>, ip: nat, iHigh: nat, r: Repeat)
    requires ip < |s|
  {
    r.Confirmed? ==> r.length >= MINMATCH && ip + r.length <= iHigh && Run(s, ip, ip + r.length, s[ip])
  }

  lemma SameRun(s: seq<byte>, ip: nat, m: nat)
    requires m <= ip && ip + 4 <= |s| && Run(s, ip, ip + 4, s[ip]) && Same4(s, ip, m)
    ensures Run(s, m, m + 4, s[ip])
  {
  }

  /** Every byte from `lo` up to `hi` is `b`. */
  ghost predicate Run(s: seq<byte>, lo: int, hi: int, b: byte)
  {
    0 <= lo && hi <= |s| && forall k :: lo <= k < hi ==> s[k] == b
  }

  /** What the two pattern counts say when the pattern is one byte four times. */
  lemma PatternRun(s: seq<byte>, pattern: seq<byte>, b: byte, m: nat, m4: nat, n: nat, backLength: nat)
    requires |pattern| == 4 && forall j :: 0 <= j < 4 ==> pattern[j] == b
    requires m4 == m + 4 && m4 + n <= |s| && backLength <= m && Run(s, m, m4, b)
    requires forall k :: m4 <= k < m4 + n ==> InPattern(s, m4, pattern, k)
    requires forall k :: m - backLength <= k < m ==> InPatternBack(s, m, pattern, k)
    ensures Run(s, m - backLength, m4 + n, b)
  {
    forall k | m - backLength <= k < m4 + n ensures s[k] == b {
      if k < m {
        assert InPatternBack(s, m, pattern, k);
      } else if k >= m4 {
        assert InPattern(s, m4, pattern, k);
      }
    }
  }

  /** Two runs of the same byte match each other. */
  lemma RunsMatch(s: seq<byte>, ip: nat, m: nat, n: nat)
    requires m < ip && ip - m <= DISTANCE_MAX && n > 0 && ip + n <= |s|
    requires Run(s, ip, ip + n, s[ip]) && Run(s, m, m + n, s[ip])
    ensures RealMatch(s, ip, ip - m, n)
  {
  }
}
