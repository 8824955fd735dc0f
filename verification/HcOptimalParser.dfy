/** LZ4HC_compress_optimal: the parser of the highest levels.  It prices every position ahead of
    a first match, remembering how each was reached best, turns that path around in place, and
    writes it.  Prices steer it, but whatever they are every step is a literal or a real match. */
module HcOptimalParser {
  import opened Bytes
  import opened BlockFormat
  import opened HcSearch
  import opened BlockOutput

  const LZ4_OPT_NUM := 0x1000
  const TRAILING_LITERALS := 3

  /** LZ4HC_optimal_t: the last step to a position, a literal (`mlen` 1) or a match. */
  datatype Optimal = Optimal(price: int, off: nat, mlen: nat, litlen: nat)

  /** A step of a path: `len` bytes at `pos`. */
  datatype Edge = Edge(pos: nat, len: nat, off: nat)

  /** LZ4HC_literalsPrice. */
  function LiteralsPrice(litlen: nat): int
  {
    litlen + if litlen >= RUN_MASK then 1 + (litlen - RUN_MASK) / 255 else 0
  }

  /** LZ4HC_sequencePrice. */
  function SequencePrice(litlen: nat, mlen: nat): int
    requires mlen >= MINMATCH
  {
    1 + 2 + LiteralsPrice(litlen) + if mlen >= ML_MASK + MINMATCH then 1 + (mlen - (ML_MASK + MINMATCH)) / 255 else 0
  }

  /** The prices are what the encoder really writes. */
  lemma PricesAreSizes(s: Sequence, last: seq<byte>)
    ensures |SequenceBytes(s)| == SequencePrice(|s.lit|, s.len)
    ensures |LastBytes(last)| == 1 + LiteralsPrice(|last|)
  {
  }

  /** A literal, or a match that may be written. */
  ghost predicate GoodEdge(src: seq<byte>, ip: nat, e: Edge)
  {
    e.len == 1 ||
    (&& e.len >= MINMATCH && ip + e.pos <= |src| - MFLIMIT && ip + e.pos + e.len <= |src| - LASTLITERALS
     && RealMatch(src, ip + e.pos, e.off, e.len))
  }

  /** The last step to position `p` is a good one that begins at 0 or later. */
  ghost predicate Good(src: seq<byte>, ip: nat, p: nat, o: Optimal)
  {
    if p == 0 then o.mlen == 1
    else 1 <= o.mlen <= p && GoodEdge(src, ip, Edge(p - o.mlen, o.mlen, o.off))
  }

  ghost predicate AllGood(src: seq<byte>, ip: nat, opt: seq<Optimal>, n: nat)
  {
    n <= |opt| && forall p :: 0 <= p < n ==> Good(src, ip, p, opt[p])
  }

  // ---------- Paths ----------

  /** The steps that lead to position `c`, from the start. */
  ghost function BackwardPath(opt: seq<Optimal>, c: nat): seq<Edge>
  {
    if c >= |opt| || opt[c].mlen > c || opt[c].mlen == 0 then []
    else BackwardPath(opt, c - opt[c].mlen) + [Edge(c - opt[c].mlen, opt[c].mlen, opt[c].off)]
  }

  /** The steps stored at the positions where they begin, from `r` up to `e`. */
  ghost function ForwardPath(opt: seq<Optimal>, r: nat, e: nat): seq<Edge>
    decreases e - r
  {
    if r >= e || r >= |opt| || opt[r].mlen == 0 then []
    else [Edge(r, opt[r].mlen, opt[r].off)] + ForwardPath(opt, r + opt[r].mlen, e)
  }

  /** A forward path does not depend on what is stored before it. */
  lemma {:induction false} ForwardPathLocal(opt: seq<Optimal>, opt': seq<Optimal>, r: nat, e: nat)
    requires |opt| == |opt'| && forall k :: r <= k < |opt| ==> opt[k] == opt'[k]
    ensures ForwardPath(opt, r, e) == ForwardPath(opt', r, e)
    decreases e - r
  {
    if r < e && r < |opt| && opt[r].mlen > 0 {
      ForwardPathLocal(opt, opt', r + opt[r].mlen, e);
    }
  }

  /** A backward path does not depend on what is stored behind it. */
  lemma {:induction false} BackwardPathLocal(opt: seq<Optimal>, opt': seq<Optimal>, c: nat)
    requires |opt| == |opt'| && c < |opt| && forall k :: 0 <= k <= c ==> opt[k] == opt'[k]
    ensures BackwardPath(opt, c) == BackwardPath(opt', c)
  {
    if 0 < opt[c].mlen <= c {
      BackwardPathLocal(opt, opt', c - opt[c].mlen);
    }
  }

  lemma {:induction false} BackwardPathGood(src: seq<byte>, ip: nat, opt: seq<Optimal>, c: nat)
    requires c < |opt| && AllGood(src, ip, opt, c + 1)
    ensures forall e :: e in BackwardPath(opt, c) ==> GoodEdge(src, ip, e)
  {
    assert Good(src, ip, c, opt[c]);
    if c > 0 {
      BackwardPathGood(src, ip, opt, c - opt[c].mlen);
    }
  }

  /** Storing a step in front of a forward path extends it. */
  lemma ForwardPathExtends(opt: seq<Optimal>, opt': seq<Optimal>, r: nat, len: nat, off: nat, e: nat)
    requires r < |opt| == |opt'| && len >= 1 && r + len <= e
    requires opt' == opt[r := opt'[r]] && opt'[r].mlen == len && opt'[r].off == off
    ensures ForwardPath(opt', r, e) == [Edge(r, len, off)] + ForwardPath(opt, r + len, e)
  {
    ForwardPathLocal(opt, opt', r + len, e);
  }

  /** Taking the last step off a backward path. */
  lemma BackwardPathShrinks(opt: seq<Optimal>, c: nat)
    requires c < |opt|
    ensures 1 <= opt[c].mlen <= c ==>
              BackwardPath(opt, c) == BackwardPath(opt, c - opt[c].mlen)
                  + [Edge(c - opt[c].mlen, opt[c].mlen, opt[c].off)]
    ensures opt[c].mlen > c ==> BackwardPath(opt, c) == []
  {
  }

  /** The reverse traversal: afterwards the path stands in its positions in order, with the
      step (`bestLen`, `bestOff`) at `cur` behind it. */
  method ReversePath(opt: array<Optimal>, cur: nat, bestLen: nat, bestOff: nat)
    requires cur < opt.Length && bestLen >= 1 && opt[0].mlen == 1
    requires forall p :: 1 <= p <= cur ==> 1 <= opt[p].mlen <= p
    modifies opt
    ensures ForwardPath(opt[..], 0, cur + bestLen) == old(BackwardPath(opt[..], cur)) + [Edge(cur, bestLen, bestOff)]
  {
    ghost var o, e := opt[..], cur + bestLen;
    var candidatePos, selectedLength, selectedOff := cur, bestLen, bestOff;
    ghost var rest: seq<Edge> := [];
    assert ForwardPath(o, e, e) == [];
    hide ForwardPath, BackwardPath;
    while true
      invariant 0 <= candidatePos <= cur && selectedLength >= 1 && candidatePos + selectedLength <= e
      invariant forall k :: 0 <= k <= candidatePos ==> opt[k] == o[k]
      invariant ForwardPath(opt[..], candidatePos + selectedLength, e) == rest
      invariant BackwardPath(o, candidatePos) + [Edge(candidatePos, selectedLength, selectedOff)] + rest
             == BackwardPath(o, cur) + [Edge(cur, bestLen, bestOff)]
      decreases candidatePos
    {
      var nextLength, nextOff := opt[candidatePos].mlen, opt[candidatePos].off;
      ghost var before := opt[..];
      opt[candidatePos] := opt[candidatePos].(mlen := selectedLength, off := selectedOff);
      ForwardPathExtends(before, opt[..], candidatePos, selectedLength, selectedOff, e);
      rest := [Edge(candidatePos, selectedLength, selectedOff)] + rest;
      BackwardPathShrinks(o, candidatePos);
      selectedLength, selectedOff := nextLength, nextOff;
      if nextLength > candidatePos { break; }
      candidatePos := candidatePos - nextLength;
    }
  }

  /** The steps of `path` follow each other from `r` to `e`. */
  ghost predicate Leads(path: seq<Edge>, r: nat, e: nat)
  {
    if path == [] then r == e
    else path[0].pos == r && path[0].len >= 1 && Leads(path[1..], r + path[0].len, e)
  }

  lemma {:induction false} LeadsFurther(path: seq<Edge>, r: nat, c: nat, f: Edge)
    requires Leads(path, r, c) && f.pos == c && f.len >= 1
    ensures Leads(path + [f], r, c + f.len)
  {
    if path == [] {
      assert Leads([], c + f.len, c + f.len);
    } else {
      LeadsFurther(path[1..], r + path[0].len, c, f);
      assert (path + [f])[1..] == path[1..] + [f];
    }
  }

  lemma {:induction false} BackwardPathLeads(src: seq<byte>, ip: nat, opt: seq<Optimal>, c: nat)
    requires c < |opt| && AllGood(src, ip, opt, c + 1)
    ensures Leads(BackwardPath(opt, c), 0, c)
  {
    assert Good(src, ip, c, opt[c]);
    if c > 0 {
      var m := opt[c].mlen;
      BackwardPathLeads(src, ip, opt, c - m);
      LeadsFurther(BackwardPath(opt, c - m), 0, c - m, Edge(c - m, m, opt[c].off));
    }
  }

  lemma {:induction false} LeadsForward(path: seq<Edge>, r: nat, e: nat)
    requires Leads(path, r, e) && path != []
    ensures r <= path[|path| - 1].pos < e
  {
    if |path| > 1 {
      LeadsForward(path[1..], r + path[0].len, e);
    } else {
      assert path[1..] == [];
    }
  }

  /** A path that may be written: connected, of good steps, the last one at `cur`. */
  ghost predicate Writable(src: seq<byte>, ip: nat, path: seq<Edge>, r: nat, cur: nat, e: nat)
  {
    && Leads(path, r, e)
    && (forall f :: f in path ==> GoodEdge(src, ip, f))
    && (path != [] ==> path[|path| - 1].pos == cur)
  }

  /** The path that the reverse traversal leaves behind is writable. */
  lemma ReversedIsWritable(src: seq<byte>, ip: nat, opt: seq<Optimal>, cur: nat, last: Edge)
    requires cur < |opt| && AllGood(src, ip, opt, cur + 1) && last.pos == cur && last.len >= 1
        && GoodEdge(src, ip, last)
    ensures Writable(src, ip, BackwardPath(opt, cur) + [last], 0, cur, cur + last.len)
  {
    BackwardPathGood(src, ip, opt, cur);
    BackwardPathLeads(src, ip, opt, cur);
    LeadsFurther(BackwardPath(opt, cur), 0, cur, last);
  }

  /** The next step of a writable path that stands in `opt`. */
  lemma NextStep(src: seq<byte>, ip: nat, opt: seq<Optimal>, r: nat, cur: nat, e: nat)
    requires Writable(src, ip, ForwardPath(opt, r, e), r, cur, e)
    ensures r <= cur || r == e
    ensures r < e ==>
              && r < |opt| && opt[r].mlen >= 1 && GoodEdge(src, ip, Edge(r, opt[r].mlen, opt[r].off))
              && Writable(src, ip, ForwardPath(opt, r + opt[r].mlen, e), r + opt[r].mlen, cur, e)
  {
    var path := ForwardPath(opt, r, e);
    if path != [] {
      LeadsForward(path, r, e);
      assert path[0] in path;
      var rest := ForwardPath(opt, r + opt[r].mlen, e);
      assert rest == path[1..];
      assert forall f :: f in rest ==> f in path;
    }
  }

  // ---------- The first match of a path ----------

  /** A match begins within the first 4 positions. */
  ghost predicate Early(path: seq<Edge>)
  {
    exists f :: f in path && f.len >= 4 && f.pos <= 3
  }

  /** Where a first match was found with `llen` literals before it: literals cost one byte each, and
      position 4 is reached by that match. */
  ghost predicate Started(opt: seq<Optimal>, llen: nat)
  {
    && |opt| > 4
    && (forall k :: 0 <= k < 4 ==> opt[k] == Optimal(LiteralsPrice(llen + k), 0, 1, llen + k))
    && opt[4].mlen == 4 && opt[4].price == SequencePrice(llen, 4)
  }

  /** Four literals cost more than a match of 4 bytes. */
  lemma LiteralsCostMore(llen: nat)
    ensures LiteralsPrice(llen + 4) > SequencePrice(llen, 4)
  {
  }

  /** So every path that leads that far begins with a match, but for 3 literals at most. */
  lemma {:induction false} PathStartsEarly(src: seq<byte>, ip: nat, opt: seq<Optimal>, c: nat)
    requires 4 <= c < |opt| && AllGood(src, ip, opt, c + 1) && opt[4].mlen == 4
    ensures Early(BackwardPath(opt, c))
  {
    assert Good(src, ip, c, opt[c]);
    var m := opt[c].mlen;
    var e := Edge(c - m, m, opt[c].off);
    BackwardPathShrinks(opt, c);
    if m == 1 || c - m > 3 {
      PathStartsEarly(src, ip, opt, c - m);
      var f :| f in BackwardPath(opt, c - m) && f.len >= 4 && f.pos <= 3;
      assert f in BackwardPath(opt, c);
    } else {
      assert e in BackwardPath(opt, c);
    }
  }

  lemma {:induction false} LeadsBehind(path: seq<Edge>, r: nat, e: nat, f: Edge)
    requires Leads(path, r, e) && f in path
    ensures f.pos >= r
  {
    if f != path[0] { LeadsBehind(path[1..], r + path[0].len, e, f); }
  }

  /** The first step of a path that has an early match: it is that match, or another one, or a literal
      before it. */
  lemma NextIsEarly(src: seq<byte>, ip: nat, opt: seq<Optimal>, r: nat, cur: nat, e: nat)
    requires Writable(src, ip, ForwardPath(opt, r, e), r, cur, e) && r < e && Early(ForwardPath(opt, r, e))
    ensures r <= 3 && r < |opt| && (opt[r].mlen == 1 ==> Early(ForwardPath(opt, r + 1, e)))
  {
    hide GoodEdge, Leads;
    var path := ForwardPath(opt, r, e);
    var f :| f in path && f.len >= 4 && f.pos <= 3;
    LeadsBehind(path, r, e, f);
    assert path == [Edge(r, opt[r].mlen, opt[r].off)] + ForwardPath(opt, r + opt[r].mlen, e);
    if opt[r].mlen == 1 { assert f in ForwardPath(opt, r + 1, e); }
  }

  lemma NothingIsEarly(opt: seq<Optimal>, e: nat)
    ensures !Early(ForwardPath(opt, e, e))
  {
  }

  // ---------- What is passed over ----------

  /** No match of 4 bytes at `p` with the nearest position that has its hash; and, with as many attempts
      as the window has positions, none at all, unless `p` is in a run of one byte. */
  ghost predicate Silent(s: seq<byte>, p: nat, n: nat, near: int)
  {
    p + 12 <= |s| ==>
      && NearestCovered(s, Task(p, p, |s| - 5, near), 1, 3)
      && (n >= Min(p, 65535) && !Equal4(s, p) ==> Covered(s, Task(p, p, |s| - 5, near), p + 1, 3))
  }

  /** Positions that are silent, or among the first 4096 behind a match: there a path may lead by prices
      only. */
  ghost function SilentPlaces(s: seq<byte>, n: nat, near: int): Places
  {
    iset q: (seq<Sequence>, int) | 0 <= q.1 && (Silent(s, q.1, n, near) || 0 < |Text(q.0)| <= q.1 < |Text(q.0)| + 4096)
  }

  // ---------- The parser ----------

  /** How writing ends: all is written, or a match did not fit (ovml and ovoff). */
  datatype Outcome = Encoded | Overflow(len: nat, off: nat)

  class OptimalParser {
    const src: seq<byte>
    const out: Output
    const ctx: HcContext
    const opt: array<Optimal>
    const nbSearches: nat
    const sufficientLen: nat
    const fullUpdate: bool
    const favorDecSpeed: bool
    var ip: nat
    ghost var searched: int  // the position searched last, or -1

    constructor (out: Output, ctx: HcContext, nbSearches: nat, sufficientLen: nat, fullUpdate: bool,
            favorDecSpeed: bool)
      requires out.Valid() && out.anchor == 0 && out.ss == [] && nbSearches >= 1
      requires ctx.Valid() && ctx.src == out.src && ctx.nextToUpdate == ctx.base
      requires out.dst as object != ctx.hashTable && out.dst as object != ctx.chainTable
      ensures AtMain() && Separate() && this.out == out && this.ctx == ctx && ip == 0 && fresh(opt)
      ensures this.nbSearches == nbSearches && this.favorDecSpeed == favorDecSpeed
    {
      src, this.out, this.ctx := out.src, out, ctx;
      opt := new Optimal[LZ4_OPT_NUM + TRAILING_LITERALS](_ => Optimal(0, 0, 0, 0));
      this.nbSearches, this.fullUpdate, this.favorDecSpeed := nbSearches, fullUpdate, favorDecSpeed;
      this.sufficientLen := if sufficientLen >= LZ4_OPT_NUM then LZ4_OPT_NUM - 1 else sufficientLen;
      ip, searched := 0, -1;
    }

    ghost predicate Parts()
      reads this, ctx, ctx.hashTable, ctx.chainTable
    {
      && out.src == src && ctx.src == src && nbSearches >= 1
      && out.dst as object != ctx.hashTable && out.dst as object != ctx.chainTable
      && opt.Length == LZ4_OPT_NUM + TRAILING_LITERALS && sufficientLen < LZ4_OPT_NUM
      && ctx.Valid() && -1 <= searched
      && ctx.nextToUpdate == ctx.base + (if searched == -1 then 0 else searched)
    }

    /** The array of prices is no other buffer. */
    ghost predicate Separate()
    {
      opt as object != out.dst && opt as object != ctx.hashTable && opt as object != ctx.chainTable
    }

    ghost predicate Base()
      reads this, out, out.dst, ctx, ctx.hashTable, ctx.chainTable
    {
      Parts() && out.Valid() && out.anchor <= ip
    }

    ghost function Passed(): Places
    {
      SilentPlaces(src, nbSearches, if favorDecSpeed then 8 else 1)
    }

    /** All literals up to `e` were passed over, but for the last 3 before each match. */
    ghost predicate Clean(e: int)
      reads out`ss, out`anchor
    {
      && RunsIn(out.ss, 3, Passed())
      && forall p :: out.anchor <= p < e ==> (out.ss, p) in Passed()
    }

    ghost predicate AtMain()
      reads this, out, out.dst, ctx, ctx.hashTable, ctx.chainTable
    {
      Base() && Clean(ip) && searched < ip
    }

    ghost predicate AtOverflow(o: Outcome)
      reads this, out, out.dst, ctx, ctx.hashTable, ctx.chainTable
    {
      && Parts() && out.Overflowed() && o.Overflow? && out.Encodable(ip, o.len, o.off) && out.NoRoomFor(ip, o.len)
      && Clean(ip - 3)
    }

    /** LZ4HC_FindLongerMatch, at a position behind all searched before: what is found is longer than
        `minLen`, but may then be cut to 18 bytes. */
    method FindLongerMatch(pos: nat, minLen: nat) returns (m: Match)
      requires Parts() && out.Valid() && searched < pos <= |src| - MFLIMIT
      requires 1 <= minLen && pos + minLen <= |src| - LASTLITERALS
      modifies this`searched, ctx`nextToUpdate, ctx.hashTable, ctx.chainTable
      ensures Parts() && out.Valid() && searched == pos
      ensures m.len == 0 || (m.len >= MINMATCH && RealMatch(src, pos, m.off, m.len)
          && pos + m.len <= |src| - LASTLITERALS && (m.len > minLen || (favorDecSpeed && m.len == 18)))
      ensures m.len == 0 && minLen == 3 ==> (out.ss, pos) in Passed()
    {
      hide NearestCovered, Covered;
      m := ctx.InsertAndGetWiderMatch(pos, pos, |src| - LASTLITERALS, minLen, nbSearches, true, true, favorDecSpeed);
      searched := pos;
      if m.len <= minLen { return NOMATCH; }
      if favorDecSpeed && 18 < m.len <= 36 {
        RealMatchPart(src, pos, m.off, m.len, pos, 18);
        m := m.(len := 18);
      }
    }

    /** The steps to the first positions behind `ip` are known. */
    ghost predicate Known(n: nat)
      reads this`ip, opt
    {
      AllGood(src, ip, opt[..], n)
    }

    /** Store one step. */
    method Store(pos: nat, o: Optimal, ghost n: nat)
      requires pos < opt.Length && Known(n) && Good(src, ip, pos, o)
      modifies opt
      ensures Known(n) && (pos == n ==> Known(n + 1))
      ensures opt[..] == old(opt[..])[pos := o]
    {
      opt[pos] := o;
    }

    /** Literals after position `last`. */
    method CompleteLiterals(last: nat, ghost n: nat)
      requires 1 <= last && last + TRAILING_LITERALS < opt.Length && last < n <= opt.Length && Known(n)
      modifies opt
      ensures Known(n) && Known(Max(n, last + TRAILING_LITERALS + 1))
      ensures opt[..last + 1] == old(opt[..last + 1])
    {
      ghost var n' := n;
      for addLit := 1 to TRAILING_LITERALS + 1
        invariant n <= n' && n' == Max(n, last + addLit) && Known(n')
        invariant opt[..last + 1] == old(opt[..last + 1])
      {
        Store(last + addLit, Optimal(opt[last].price + LiteralsPrice(addLit), 0, 1, addLit), n');
        n' := Max(n', last + addLit + 1);
      }
    }

    /** Set the prices of the first positions, and of those the first match reaches. */
    method InitialPrices(m: Match, llen: nat)
      requires opt.Length == LZ4_OPT_NUM + TRAILING_LITERALS
      requires MINMATCH <= m.len < LZ4_OPT_NUM && RealMatch(src, ip, m.off, m.len)
      requires ip <= |src| - MFLIMIT && ip + m.len <= |src| - LASTLITERALS
      modifies opt
      ensures Known(m.len + TRAILING_LITERALS + 1) && Started(opt[..], llen)
    {
      hide GoodEdge, RealMatch;
      for rPos := 0 to MINMATCH
        invariant Known(rPos)
        invariant forall k :: 0 <= k < rPos ==> opt[k] == Optimal(LiteralsPrice(llen + k), 0, 1, llen + k)
      {
        Store(rPos, Optimal(LiteralsPrice(llen + rPos), 0, 1, llen + rPos), rPos);
      }
      for mlen := MINMATCH to m.len + 1
        invariant Known(mlen)
        invariant forall k :: 0 <= k < 4 ==> opt[k] == Optimal(LiteralsPrice(llen + k), 0, 1, llen + k)
        invariant mlen > 4 ==> opt[4].mlen == 4 && opt[4].price == SequencePrice(llen, 4)
      {
        RealMatchPart(src, ip, m.off, m.len, ip, mlen);
        Store(mlen, Optimal(SequencePrice(llen, mlen), m.off, mlen, llen), mlen);
      }
      ghost var before := opt[..];
      CompleteLiterals(m.len, m.len + 1);
      StillStarted(before, opt[..], m.len, llen);
    }

    /** Before a match at `cur`: literals from there, where they are cheaper. */
    method LiteralsFrom(cur: nat, ghost n: nat, ghost llen: nat)
      requires 1 <= cur && cur + MINMATCH <= n <= opt.Length && Known(n) && Started(opt[..], llen)
      modifies opt
      ensures Known(n) && Started(opt[..], llen)
    {
      hide Good;
      LiteralsCostMore(llen);
      var baseLitlen := opt[cur].litlen;
      for litlen := 1 to MINMATCH
        invariant Known(n) && Started(opt[..], llen)
        invariant opt[cur] == old(opt[cur])
      {
        var price := opt[cur].price - LiteralsPrice(baseLitlen) + LiteralsPrice(baseLitlen + litlen);
        var pos := cur + litlen;
        if price < opt[pos].price {
          Store(pos, Optimal(price, 0, 1, baseLitlen + litlen), n);
        }
      }
    }

    /** What reaching `cur + ml` by a match at `cur` costs, and the literals before that match. */
    method MatchPrice(cur: nat, ml: nat) returns (price: int, ll: nat)
      requires cur < opt.Length && ml >= MINMATCH
    {
      if opt[cur].mlen == 1 {
        ll := opt[cur].litlen;
        price := (if cur > ll then opt[cur - ll].price else 0) + SequencePrice(ll, ml);
      } else {
        ll := 0;
        price := opt[cur].price + SequencePrice(0, ml);
      }
    }

    /** Set prices using the match at `cur`, of every length. */
    method MatchesFrom(cur: nat, m: Match, last: nat, ghost llen: nat) returns (last': nat)
      requires 1 <= cur < last < LZ4_OPT_NUM && opt.Length == LZ4_OPT_NUM + TRAILING_LITERALS
          && Known(last + TRAILING_LITERALS + 1) && Started(opt[..], llen)
      requires MINMATCH <= m.len && cur + m.len < LZ4_OPT_NUM
      requires ip + cur <= |src| - MFLIMIT && RealMatch(src, ip + cur, m.off, m.len)
          && ip + cur + m.len <= |src| - LASTLITERALS
      requires ip + last <= |src| - LASTLITERALS
      modifies opt
      ensures last <= last' < LZ4_OPT_NUM && ip + last' <= |src| - LASTLITERALS
      ensures Known(Max(last + TRAILING_LITERALS, cur + m.len) + 1) && last' <= Max(last, cur + m.len)
      ensures Started(opt[..], llen)
    {
      last' := last;
      for ml := MINMATCH to m.len + 1
        invariant last' == last || (ml == m.len + 1 && last' == Max(last, cur + m.len))
        invariant Known(Max(last + TRAILING_LITERALS, cur + ml - 1) + 1) && Started(opt[..], llen)
      {
        ghost var n := Max(last + TRAILING_LITERALS, cur + ml - 1) + 1;
        var pos := cur + ml;
        var price, ll := MatchPrice(cur, ml);
        if pos > last' + TRAILING_LITERALS || price <= opt[pos].price - (if favorDecSpeed then 1 else 0) {
          if ml == m.len && last' < pos {
            last' := pos;
          }
          RealMatchPart(src, ip + cur, m.off, m.len, ip + cur, ml);
          Store(pos, Optimal(price, m.off, ml, ll), n);
        }
      }
    }

    /** Whether the position need not be searched, because the next one costs no more. */
    method NotUseful(cur: nat) returns (skip: bool)
      requires cur + MINMATCH < opt.Length
    {
      if fullUpdate {
        skip := opt[cur + 1].price <= opt[cur].price && opt[cur + MINMATCH].price < opt[cur].price + 3;
      } else {
        skip := opt[cur + 1].price <= opt[cur].price;
      }
    }

    /** Between positions: prices are known up to `last` and a little further. */
    ghost predicate Ready(last: nat)
      reads this, out, out.dst, ctx, ctx.hashTable, ctx.chainTable, opt
    {
      && Base()
      && Separate()
      && Clean(ip) && ip <= searched && MINMATCH <= last < LZ4_OPT_NUM && Started(opt[..], ip - out.anchor)
      && Known(last + TRAILING_LITERALS + 1) && ip + last <= |src| - LASTLITERALS
    }

    /** A match found at `cur`. */
    ghost predicate MatchAt(cur: nat, m: Match)
      reads this`ip
    {
      && MINMATCH <= m.len && ip + cur <= |src| - MFLIMIT
      && RealMatch(src, ip + cur, m.off, m.len) && ip + cur + m.len <= |src| - LASTLITERALS
    }

    /** Search at `cur`, unless that is not useful. */
    method SearchAhead(cur: nat, last: nat) returns (m: Match)
      requires Ready(last) && 1 <= cur < last && searched < ip + cur <= |src| - MFLIMIT
      modifies this`searched, ctx`nextToUpdate, ctx.hashTable, ctx.chainTable
      ensures Ready(last) && searched <= ip + cur && (m.len == 0 || MatchAt(cur, m))
    {
      hide RealMatch, Known, HcContext.Valid, Output.Valid, Answers, Clean, Started;
      var skip := NotUseful(cur);
      if skip { return NOMATCH; }
      m := FindLongerMatch(ip + cur, if fullUpdate then MINMATCH - 1 else last - cur);
    }

    /** Check one position: a match that is good enough, or reaches too far, is taken at once. */
    method ExploreAt(cur: nat, last: nat) returns (done: bool, last': nat, bestLen: nat, bestOff: nat)
      requires Ready(last) && 1 <= cur < last && searched < ip + cur <= |src| - MFLIMIT
      modifies this`searched, ctx`nextToUpdate, ctx.hashTable, ctx.chainTable, opt
      ensures done ==> Base() && Clean(ip) && searched <= ip + cur && last' == cur + 1 && Known(cur + 1)
      ensures done ==> Started(opt[..], ip - out.anchor)
      ensures done ==> bestLen >= MINMATCH && GoodEdge(src, ip, Edge(cur, bestLen, bestOff))
      ensures !done ==> Ready(last') && searched <= ip + cur && last <= last'
    {
      hide RealMatch, Known, HcContext.Valid, Output.Valid, Clean, Started;
      done, last', bestLen, bestOff := false, last, 0, 0;
      var m := SearchAhead(cur, last);
      if m.len == 0 { return; }
      if m.len > sufficientLen || m.len + cur >= LZ4_OPT_NUM {
        KnownLess(last + TRAILING_LITERALS + 1, cur + 1);
        return true, cur + 1, m.len, m.off;
      }
      last' := Update(cur, m, last, ip - out.anchor);
    }

    /** Enter a match into the prices. */
    method Update(cur: nat, m: Match, last: nat, ghost llen: nat) returns (last': nat)
      requires 1 <= cur < last < LZ4_OPT_NUM && opt.Length == LZ4_OPT_NUM + TRAILING_LITERALS && MINMATCH <= last
      requires Known(last + TRAILING_LITERALS + 1) && Started(opt[..], llen)
      requires MatchAt(cur, m) && cur + m.len < LZ4_OPT_NUM
      requires ip + last <= |src| - LASTLITERALS
      modifies opt
      ensures last <= last' < LZ4_OPT_NUM && Known(last' + TRAILING_LITERALS + 1) && ip + last' <= |src| - LASTLITERALS
      ensures Started(opt[..], llen)
    {
      hide RealMatch, Good;
      LiteralsFrom(cur, last + TRAILING_LITERALS + 1, llen);
      ghost var n := Max(last + TRAILING_LITERALS, cur + m.len) + 1;
      last' := MatchesFrom(cur, m, last, llen);
      ghost var before := opt[..];
      CompleteLiterals(last', n);
      StillStarted(before, opt[..], last', llen);
      KnownLess(Max(n, last' + TRAILING_LITERALS + 1), last' + TRAILING_LITERALS + 1);
    }

    lemma StillStarted(o: seq<Optimal>, o': seq<Optimal>, last: nat, llen: nat)
      requires Started(o, llen) && 4 <= last < |o| == |o'| && o[..last + 1] == o'[..last + 1]
      ensures Started(o', llen)
    {
      assert forall k :: 0 <= k <= last ==> o[k] == o[..last + 1][k] && o'[k] == o'[..last + 1][k];
    }

    lemma KnownLess(n: nat, n': nat)
      requires Known(n) && n' <= n
      ensures Known(n')
    {
    }

    /** Check further positions, from the one behind `ip` on.  The best path leads to `cur`, and
        from there by the step (`bestLen`, `bestOff`) at least to `last`. */
    method Explore(last0: nat) returns (cur: nat, last: nat, bestLen: nat, bestOff: nat)
      requires Ready(last0) && searched == ip <= |src| - MFLIMIT
      modifies this`searched, ctx`nextToUpdate, ctx.hashTable, ctx.chainTable, opt
      ensures Base() && Clean(ip) && searched < ip + cur + bestLen
      ensures cur < last <= cur + bestLen && cur < opt.Length && Known(cur + 1)
      ensures bestLen >= 1 && GoodEdge(src, ip, Edge(cur, bestLen, bestOff))
      ensures last == cur + bestLen || last == cur + 1
      ensures Early(BackwardPath(opt[..], cur) + [Edge(cur, bestLen, bestOff)])
    {
      hide RealMatch, Clean, HcContext.Valid, Output.Valid, BackwardPath;
      last, cur := last0, 1;
      while cur < last && ip + cur <= |src| - MFLIMIT
        invariant Ready(last) && searched < ip + cur
        invariant 1 <= cur <= last
        decreases LZ4_OPT_NUM - cur
      {
        var done;
        done, last, bestLen, bestOff := ExploreAt(cur, last);
        if done {
          MatchIsEarly(cur, Edge(cur, bestLen, bestOff));
          return;
        }
        cur := cur + 1;
      }
      bestLen, bestOff := opt[last].mlen, opt[last].off;
      assert Good(src, ip, last, opt[last]);
      cur := last - bestLen;
      PathStartsEarly(src, ip, opt[..], last);
      BackwardPathShrinks(opt[..], last);
    }

    /** A match taken at once, or the path that leads to it, begins early. */
    lemma MatchIsEarly(cur: nat, e: Edge)
      requires cur < opt.Length && Known(cur + 1) && e.pos == cur && e.len >= 4 && (cur >= 4 ==> opt[4].mlen == 4)
      ensures Early(BackwardPath(opt[..], cur) + [e])
    {
      hide BackwardPath;
      var path := BackwardPath(opt[..], cur) + [e];
      if cur >= 4 {
        PathStartsEarly(src, ip, opt[..], cur);
        var f :| f in BackwardPath(opt[..], cur) && f.len >= 4 && f.pos <= 3;
        assert f in path;
      } else {
        assert e in path;
      }
    }

    /** Encode all recorded sequences in order. */
    method EncodePath(last: nat, ghost cur: nat, ghost e: nat) returns (o: Outcome)
      requires Base() && cur < last <= e && cur < opt.Length && searched < ip + e
      requires Separate() && Clean(ip) && Early(ForwardPath(opt[..], 0, e))
      requires Writable(src, ip, ForwardPath(opt[..], 0, e), 0, cur, e)
      modifies this`ip, out, out.dst
      ensures o.Encoded? ==> AtMain() && ip == old(ip) + e
      ensures o.Overflow? ==> AtOverflow(o)
    {
      hide RealMatch, Leads, ForwardPath, HcContext.Valid, Writable, Output.Valid, Output.Overflowed, Clean, Early;
      ghost var ip0, path := ip, opt[..];
      var rPos := 0;
      NextStep(src, ip0, path, rPos, cur, e);
      while rPos < last
        invariant Base() && ip == ip0 + rPos && opt[..] == path
        invariant Writable(src, ip0, ForwardPath(path, rPos, e), rPos, cur, e)
        invariant rPos <= cur || rPos == e
        invariant if out.anchor <= ip0 then Clean(ip0) && Early(ForwardPath(path, rPos, e))
                  else ip0 + MINMATCH <= out.anchor && ip <= out.anchor + LZ4_OPT_NUM && Clean(out.anchor)
        decreases e - rPos
      {
        NextStep(src, ip0, path, rPos, cur, e);
        if out.anchor <= ip0 { NextIsEarly(src, ip0, path, rPos, cur, e); }
        var ml, offset := opt[rPos].mlen, opt[rPos].off;
        NextStep(src, ip0, path, rPos + ml, cur, e);
        if ml == 1 {
          ip, rPos := ip + 1, rPos + 1;
        } else {
          CleanBehind(ip0, ip - 3);
          rPos := rPos + ml;
          o := EncodeNow(ml, offset);
          if o.Overflow? { return; }
        }
      }
      NothingIsEarly(path, e);
      CleanBehind(ip0, ip);
      return Encoded;
    }

    lemma CleanLess(e: int, e': int)
      requires Clean(e) && e' <= e
      ensures Clean(e')
    {
    }

    /** Behind a match of a path everything on it is near enough to that match. */
    lemma CleanBehind(ip0: nat, e: int)
      requires out.Valid()
      requires if out.anchor <= ip0 then Clean(ip0) && e <= ip0 else Clean(out.anchor) && e <= out.anchor + LZ4_OPT_NUM
      ensures Clean(e)
    {
      hide Silent, RunsIn;
      WrittenUpTo();
    }

    /** One round of the main loop: a match at `ip` and everything that is written because of it. */
    method Round() returns (o: Outcome)
      requires AtMain() && ip <= |src| - MFLIMIT
      requires Separate()
      modifies this, ctx`nextToUpdate, ctx.hashTable, ctx.chainTable, opt, out, out.dst
      ensures o.Encoded? ==> AtMain() && ip > old(ip)
      ensures o.Overflow? ==> AtOverflow(o)
    {
      hide RealMatch, HcContext.Valid, Output.Valid, Output.Overflowed, Clean, Passed;
      var first := FindLongerMatch(ip, MINMATCH - 1);
      if first.len == 0 {
        OneMoreSilent();
        ip := ip + 1;
        return Encoded;
      }
      if first.len > sufficientLen {
        CleanLess(ip, ip - 3);
        o := EncodeNow(first.len, first.off);
      } else {
        InitialPrices(first, ip - out.anchor);
        o := RoundFrom(first.len);
      }
    }

    lemma OneMoreSilent()
      requires Clean(ip) && (out.ss, ip) in Passed()
      ensures Clean(ip + 1)
    {
      hide Passed, RunsIn;
    }

    /** Write a match at `ip`. */
    method EncodeNow(len: nat, off: nat) returns (o: Outcome)
      requires Base() && Clean(ip - 3) && out.Encodable(ip, len, off)
      modifies this`ip, out, out.dst
      ensures o.Encoded? ==> Base() && ip == out.anchor == old(ip) + len && Clean(ip)
      ensures o.Overflow? ==> AtOverflow(o) && ip == old(ip)
    {
      hide Periodic, HcContext.Valid, RunsIn, Passed, Output.Valid, Output.Overflowed;
      var overflow;
      WrittenUpTo();
      ghost var ss, lit := out.ss, src[out.anchor..ip];
      overflow, ip := out.Encode(ip, len, off);
      if !overflow { RunsMore(ss, 3, Passed(), Sequence(lit, off, len)); }
      return if overflow then Overflow(len, off) else Encoded;
    }

    lemma WrittenUpTo()
      requires out.Valid()
      ensures |Text(out.ss)| == out.anchor
    {
    }

    /** The same, after the prices of the first match are set. */
    method RoundFrom(firstLen: nat) returns (o: Outcome)
      requires Ready(firstLen) && searched == ip <= |src| - MFLIMIT
      modifies this, ctx`nextToUpdate, ctx.hashTable, ctx.chainTable, opt, out, out.dst
      ensures o.Encoded? ==> AtMain() && ip > old(ip)
      ensures o.Overflow? ==> AtOverflow(o)
    {
      hide RealMatch, HcContext.Valid, Output.Valid, Known, Writable, Clean, Started, Early;
      var cur, last, bestLen, bestOff := Explore(firstLen);
      Reverse(cur, bestLen, bestOff);
      o := EncodePath(last, cur, cur + bestLen);
    }

    /** The reverse traversal, on what is known. */
    method Reverse(cur: nat, bestLen: nat, bestOff: nat)
      requires cur < opt.Length && Known(cur + 1) && bestLen >= 1 && GoodEdge(src, ip, Edge(cur, bestLen, bestOff))
      modifies opt
      ensures Writable(src, ip, ForwardPath(opt[..], 0, cur + bestLen), 0, cur, cur + bestLen)
      ensures ForwardPath(opt[..], 0, cur + bestLen) == old(BackwardPath(opt[..], cur)) + [Edge(cur, bestLen, bestOff)]
    {
      hide RealMatch, Writable, GoodEdge;
      ReversedIsWritable(src, ip, opt[..], cur, Edge(cur, bestLen, bestOff));
      assert Good(src, ip, 0, opt[0]);
      forall p | 1 <= p <= cur ensures 1 <= opt[p].mlen <= p {
        assert Good(src, ip, p, opt[p]);
      }
      ReversePath(opt, cur, bestLen, bestOff);
    }

    /** The whole parser.  All literals are passed over, but for the last 3 before each match. */
    method Run() returns (r: nat, consumed: nat)
      requires AtMain() && ip == 0 && out.ss == []
      requires Separate()
      modifies this, ctx`nextToUpdate, ctx.hashTable, ctx.chainTable, opt, out, out.dst
      ensures out.Finished(r, consumed)
      ensures r > 0 ==> RunsIn(out.ss, 3, Passed())
      ensures r > 0 && !out.limit.FillOutput? ==> RestIn(out.ss, |src|, Passed())
    {
      hide RealMatch, HcContext.Valid, RunsIn, Passed, Output.Valid, Output.Overflowed, Output.Finished;
      while ip <= |src| - MFLIMIT
        invariant AtMain()
        decreases |src| - ip
      {
        var o := Round();
        if o.Overflow? {
          r, consumed := FillUp(o);
          return;
        }
      }
      WrittenUpTo();
      r, consumed := out.LastLiterals();
    }

    /** _dest_overflow, in the state it is entered with. */
    method FillUp(o: Outcome) returns (r: nat, consumed: nat)
      requires AtOverflow(o)
      modifies out, out.dst
      ensures out.Finished(r, consumed)
      ensures r > 0 ==> out.limit.FillOutput? && RunsIn(out.ss, 3, Passed())
    {
      hide RunsIn, Passed, Periodic, Output.Finished;
      OverflowedUpTo();
      ghost var ss, lit := out.ss, src[out.anchor..ip];
      r, consumed := out.DestOverflow(ip, o.len, o.off);
      if out.ss != ss {
        var len :| 4 <= len <= o.len && out.ss == ss + [Sequence(lit, o.off, len)];
        RunsMore(ss, 3, Passed(), Sequence(lit, o.off, len));
      }
    }

    lemma OverflowedUpTo()
      requires out.Overflowed()
      ensures |Text(out.ss)| == out.anchor
    {
    }
  }
}
