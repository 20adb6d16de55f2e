/** UpdateNodes and the loops in it (contrib/brotli/enc/backward_references_hq.c). */
module ZopfliSearch {
  import opened Common
  import opened Distances
  import opened Commands
  import opened ZopfliNodes
  import opened ZopfliQueue
  import opened Zopfli
  import opened ZopfliCopies

  /** UpdateZopfliNode. */
  method UpdateZopfliNode(nodes: array<Node>, pos: nat, start: nat, len: nat, lenCode: nat, dist: nat, shortCode: nat,
                          cost: real)
    requires lenCode <= len + 9 < lenCode + 256 && dist < 0x200_0000 && shortCode <= 16
    requires start <= pos && pos + len < nodes.Length
    modifies nodes
    ensures nodes[..] == old(nodes[..])[pos + len := Packed(len, lenCode, dist, shortCode, pos - start, cost)]
  {
    nodes[pos + len] := Packed(len, lenCode, dist, shortCode, pos - start, cost);
  }

  /** Takes the copy if it reaches its end at less cost. */
  method TryCopy(pos: nat, c: Copy, nodes: array<Node>) returns (taken: bool)
    requires Possible(nodes[..], pos, c)
    modifies nodes
    ensures nodes[..] == Take(old(nodes[..]), pos, c) && taken == Taken(old(nodes[..]), pos, c)
  {
    taken := c.cost < nodes[pos + c.len].u.cost;
    if taken {
      UpdateZopfliNode(nodes, pos, c.start, c.len, c.lenCode, c.dist, c.shortCode, c.cost);
    }
  }

  lemma TakeCostly(ns: seq<Node>, pos: nat, c: Copy)
    requires Costly(ns, pos)
    ensures Costly(Take(ns, pos, c), pos)
  {
  }

  lemma TakeOne(ns: seq<Node>, pos: nat, c: Copy, cs: seq<Copy>)
    ensures TakeAll(ns, pos, [c] + cs) == TakeAll(Take(ns, pos, c), pos, cs)
    ensures Longest(ns, pos, [c] + cs) ==
            Max(if Taken(ns, pos, c) then c.len else 0, Longest(Take(ns, pos, c), pos, cs))
  {
    assert ([c] + cs)[1..] == cs;
  }

  /** The copies lead from nodes ns to ms, and the longest taken has r bytes. */
  ghost predicate Takes(ns: seq<Node>, ms: seq<Node>, r: nat, pos: nat, cs: seq<Copy>) {
    ms == TakeAll(ns, pos, cs) && r == Longest(ns, pos, cs) && Costly(ms, pos)
  }

  /** What a loop over copies has still to do: nodes ns and the longest copy r so far. */
  ghost predicate Leads(ns: seq<Node>, r: nat, pos: nat, cs: seq<Copy>, end: seq<Node>, longest: nat) {
    TakeAll(ns, pos, cs) == end && Max(r, Longest(ns, pos, cs)) == longest && Costly(ns, pos)
  }

  lemma LeadsOn(ns: seq<Node>, r: nat, pos: nat, c: Copy, cs: seq<Copy>, end: seq<Node>, longest: nat)
    requires Leads(ns, r, pos, [c] + cs, end, longest)
    ensures Leads(Take(ns, pos, c), if Taken(ns, pos, c) then Max(r, c.len) else r, pos, cs, end, longest)
  {
    TakeOne(ns, pos, c, cs);
    TakeCostly(ns, pos, c);
  }

  /** Some copies done: the rest leads to the end. */
  lemma LeadsFrom(ns: seq<Node>, r: nat, pos: nat, a: seq<Copy>, b: seq<Copy>, end: seq<Node>, longest: nat,
                  ms: seq<Node>, s: nat)
    requires Leads(ns, r, pos, a + b, end, longest) && Takes(ns, ms, s, pos, a)
    ensures Leads(ms, Max(r, s), pos, b, end, longest)
  {
    TakeBoth(ns, pos, a, b);
  }

  lemma LeadsDone(ns0: seq<Node>, ns: seq<Node>, r: nat, pos: nat, cs: seq<Copy>, end: seq<Node>, longest: nat)
    requires Leads(ns, r, pos, [], end, longest) && end == TakeAll(ns0, pos, cs) && longest == Longest(ns0, pos, cs)
    ensures Takes(ns0, ns, r, pos, cs)
  {
  }

  lemma LeadsStart(ns: seq<Node>, pos: nat, cs: seq<Copy>)
    requires Costly(ns, pos)
    ensures Leads(ns, 0, pos, cs, TakeAll(ns, pos, cs), Longest(ns, pos, cs))
  {
  }

  lemma LeadsLast(pr: Prices, pos: nat, start: nat, j: nat, back: nat, l: nat, n: nat, base: real, c: Copy,
                  ns: seq<Node>, r: nat, end: seq<Node>, longest: nat)
    requires start <= pos && l <= n && c == Copy(start, l, l, back, j + 1, pr.last(pos - start, j, l, base))
    requires Leads(ns, r, pos, LastRun(pr, pos, start, j, back, l, n, base), end, longest)
    ensures Leads(Take(ns, pos, c), if Taken(ns, pos, c) then Max(r, l) else r, pos,
                  LastRun(pr, pos, start, j, back, l + 1, n, base), end, longest)
  {
    LeadsOn(ns, r, pos, c, LastRun(pr, pos, start, j, back, l + 1, n, base), end, longest);
  }

  lemma LeadsCode(pos: nat, sc: Scan, j: nat, best: nat, ns: seq<Node>, r: nat, end: seq<Node>, longest: nat,
                  ms: seq<Node>, s: nat)
    requires j < 16 && best < sc.room && Leads(ns, r, pos, OfCodes(sc, j, best), end, longest)
    requires Takes(ns, ms, s, pos, sc.code(j, best))
    ensures Leads(ms, Max(r, s), pos, OfCodes(sc, j + 1, Max(best, sc.lens(j, best))), end, longest)
  {
    LeadsFrom(ns, r, pos, sc.code(j, best), OfCodes(sc, j + 1, Max(best, sc.lens(j, best))), end, longest, ms, s);
  }

  lemma LeadsMatch(e: Env, pr: Prices, pos: nat, start: nat, t: Match, l: nat, base: real, c: Copy, ns: seq<Node>,
                   r: nat, end: seq<Node>, longest: nat)
    requires start <= pos && l <= t.len
    requires var code := LenCode(e, pos, t, l);
      c == Copy(start, l, code, t.distance, 0, pr.far(pos - start, t.distance, code, base))
    requires Leads(ns, r, pos, OfMatch(e, pr, pos, start, t, l, base), end, longest)
    ensures Leads(Take(ns, pos, c), if Taken(ns, pos, c) then Max(r, l) else r, pos,
                  OfMatch(e, pr, pos, start, t, l + 1, base), end, longest)
  {
    LeadsOn(ns, r, pos, c, OfMatch(e, pr, pos, start, t, l + 1, base), end, longest);
  }

  /** Tries all lengths of a match with the last-distance code j. */
  method TryLast(pr: Prices, pos: nat, start: nat, j: nat, back: nat, len: nat, bestLen0: nat, base: real,
                 nodes: array<Node>)
    returns (bestLen: nat, result: nat)
    requires start <= pos && j < 16 && back < 0x200_0000 && pos + len < nodes.Length && Costly(nodes[..], pos)
    modifies nodes
    ensures Takes(old(nodes[..]), nodes[..], result, pos, LastRun(pr, pos, start, j, back, bestLen0 + 1, len, base))
    ensures bestLen == Max(bestLen0, len)
  {
    bestLen, result := bestLen0, 0;
    var l: nat := bestLen0 + 1;
    ghost var ns, cs := nodes[..], LastRun(pr, pos, start, j, back, l, len, base);
    ghost var ns0, rest, end, longest := ns, cs, TakeAll(ns, pos, cs), Longest(ns, pos, cs);
    LeadsStart(ns, pos, cs);
    while l <= len
      invariant bestLen0 < l && bestLen == l - 1 && (l <= len + 1 || l == bestLen0 + 1)
      invariant ns == nodes[..] && rest == LastRun(pr, pos, start, j, back, l, len, base)
      invariant Leads(ns, result, pos, rest, end, longest)
    {
      var c := Copy(start, l, l, back, j + 1, pr.last(pos - start, j, l, base));
      LeadsLast(pr, pos, start, j, back, l, len, base, c, ns, result, end, longest);
      var taken := TryCopy(pos, c, nodes);
      if taken {
        result := Max(result, l);
      }
      ns, rest := Take(ns, pos, c), LastRun(pr, pos, start, j, back, l + 1, len, base);
      bestLen := l;
      l := l + 1;
    }
    LeadsDone(ns0, ns, result, pos, cs, end, longest);
  }

  lemma CodeIs(e: Env, pr: Prices, pos: nat, pd: PosData, j: nat, best: nat, base: real)
    requires e.start + e.numBytes <= |e.st.text| && j < 16 && pos + best < e.numBytes && pd.pos <= pos
    ensures var back := Decode(j, pd.cache);
      if Near(e, e.start + pos, back, best) then
        var n := MatchLength(e.st.text, e.start + pos, back, e.numBytes - pos);
        LastLen(e, pos, pd, j, best) == n &&
        OfCode(e, pr, pos, pd, j, best, base) == LastRun(pr, pos, pd.pos, j, back, best + 1, n, base)
      else LastLen(e, pos, pd, j, best) == 0 && OfCode(e, pr, pos, pd, j, best, base) == []
  {
  }

  lemma CodeTold(e: Env, pr: Prices, pos: nat, pd: PosData, j: nat, best: nat, base: real, sc: Scan, back: int)
    requires e.start + e.numBytes <= |e.st.text| && j < 16 && best < sc.room && Tells(e, pr, pos, pd, base, sc)
    requires back == Decode(j, pd.cache)
    ensures pos + best < e.numBytes && pd.pos <= pos
    ensures if Near(e, e.start + pos, back, best) then
        sc.lens(j, best) == MatchLength(e.st.text, e.start + pos, back, e.numBytes - pos) &&
        sc.code(j, best) == LastRun(pr, pos, pd.pos, j, back, best + 1, sc.lens(j, best), base)
      else sc.lens(j, best) == 0 && sc.code(j, best) == []
  {
    CodeIs(e, pr, pos, pd, j, best, base);
  }

  lemma TakesNone(ns: seq<Node>, pos: nat)
    requires Costly(ns, pos)
    ensures Takes(ns, ns, 0, pos, [])
  {
  }

  /** One last-distance code. */
  method TryCode(e: Env, pr: Prices, pos: nat, pd: PosData, j: nat, bestLen0: nat, base: real, nodes: array<Node>,
                 ghost sc: Scan)
    returns (bestLen: nat, result: nat)
    requires Sound(e) && InRange(pd.cache) && j < 16 && bestLen0 < sc.room && Tells(e, pr, pos, pd, base, sc)
    requires e.st.maxBackward < 0x200_0000 && nodes.Length == e.numBytes + 1 && Costly(nodes[..], pos)
    modifies nodes
    ensures Takes(old(nodes[..]), nodes[..], result, pos, sc.code(j, bestLen0))
    ensures bestLen == Max(bestLen0, sc.lens(j, bestLen0))
  {
    LastBounded(pd.cache, j);
    var back := Decode(j, pd.cache);
    bestLen, result := bestLen0, 0;
    var near := IsNear(e, e.start + pos, back, bestLen0);
    CodeTold(e, pr, pos, pd, j, bestLen0, base, sc, back);
    if near {
      var len := MatchLength(e.st.text, e.start + pos, back, e.numBytes - pos);
      bestLen, result := TryLast(pr, pos, pd.pos, j, back, len, bestLen0, base, nodes);
    } else {
      TakesNone(nodes[..], pos);
    }
  }

  /** One code of the scan. */
  method NextCode(e: Env, pr: Prices, pos: nat, pd: PosData, j: nat, bestLen0: nat, base: real, result0: nat,
                  nodes: array<Node>, ghost sc: Scan, ghost end: seq<Node>, ghost longest: nat)
    returns (bestLen: nat, result: nat)
    requires Sound(e) && InRange(pd.cache) && j < 16 && bestLen0 < sc.room && Tells(e, pr, pos, pd, base, sc)
    requires e.st.maxBackward < 0x200_0000 && nodes.Length == e.numBytes + 1
    requires Leads(nodes[..], result0, pos, OfCodes(sc, j, bestLen0), end, longest)
    modifies nodes
    ensures Leads(nodes[..], result, pos, OfCodes(sc, j + 1, bestLen), end, longest)
  {
    ghost var ns := nodes[..];
    var r;
    bestLen, r := TryCode(e, pr, pos, pd, j, bestLen0, base, nodes, sc);
    LeadsCode(pos, sc, j, bestLen0, ns, result0, end, longest, nodes[..], r);
    result := Max(result0, r);
  }

  /** The scan over the sixteen last-distance codes. */
  method ScanCodes(e: Env, pr: Prices, pos: nat, pd: PosData, minLen: nat, base: real, nodes: array<Node>,
                   ghost sc: Scan)
    returns (result: nat)
    requires Sound(e) && InRange(pd.cache) && pd.pos <= pos && 2 <= minLen && Tells(e, pr, pos, pd, base, sc)
    requires e.st.maxBackward < 0x200_0000 && nodes.Length == e.numBytes + 1 && Costly(nodes[..], pos)
    modifies nodes
    ensures Takes(old(nodes[..]), nodes[..], result, pos, OfCodes(sc, 0, minLen - 1))
  {
    var bestLen: nat, j: nat := minLen - 1, 0;
    result := 0;
    ghost var ns, cs := nodes[..], OfCodes(sc, 0, bestLen);
    ghost var end, longest := TakeAll(ns, pos, cs), Longest(ns, pos, cs);
    LeadsStart(ns, pos, cs);
    while j < SHORT_CODES && bestLen < e.numBytes - pos
      invariant j <= 16 && Leads(nodes[..], result, pos, OfCodes(sc, j, bestLen), end, longest)
      decreases 16 - j
    {
      bestLen, result := NextCode(e, pr, pos, pd, j, bestLen, base, result, nodes, sc, end, longest);
      j := j + 1;
    }
    LeadsDone(ns, nodes[..], result, pos, cs, end, longest);
  }

  /** The scan as a whole. */
  method LastDistances(e: Env, pr: Prices, pos: nat, pd: PosData, minLen: nat, base: real, nodes: array<Node>)
    returns (result: nat)
    requires Sound(e) && InRange(pd.cache) && pd.pos <= pos <= e.numBytes && 2 <= minLen
    requires e.st.maxBackward < 0x200_0000 && nodes.Length == e.numBytes + 1 && Costly(nodes[..], pos)
    modifies nodes
    ensures Takes(old(nodes[..]), nodes[..], result, pos, OfLast(e, pr, pos, pd, minLen - 1, base))
  {
    ScanTells(e, pr, pos, pd, base);
    result := ScanCodes(e, pr, pos, pd, minLen, base, nodes, ScanOf(e, pr, pos, pd, base));
  }

  /** Tries lengths from len0 up to that of a match; a dictionary word only as a whole. */
  method TryMatch(e: Env, pr: Prices, pos: nat, start: nat, t: Match, len0: nat, base: real, nodes: array<Node>)
    returns (len: nat, result: nat)
    requires start <= pos && Plausible(e, pos, t) && 2 <= len0
    requires nodes.Length == e.numBytes + 1 && Costly(nodes[..], pos)
    modifies nodes
    ensures Takes(old(nodes[..]), nodes[..], result, pos,
                  OfMatch(e, pr, pos, start, t, FirstLen(e, pos, t, len0), base))
    ensures len == NextLen(t, len0)
  {
    var dictionary := t.distance > MinNat(e.start + pos, e.st.maxBackward);
    len, result := len0, 0;
    if len < t.len && (dictionary || t.len > e.maxZopfliLen) {
      len := t.len;
    }
    ghost var ns, cs := nodes[..], OfMatch(e, pr, pos, start, t, len, base);
    ghost var ns0, rest, end, longest := ns, cs, TakeAll(ns, pos, cs), Longest(ns, pos, cs);
    LeadsStart(ns, pos, cs);
    while len <= t.len
      invariant 2 <= len && (dictionary ==> len >= t.len) && (len <= t.len + 1 || len == len0)
      invariant ns == nodes[..] && rest == OfMatch(e, pr, pos, start, t, len, base)
      invariant Leads(ns, result, pos, rest, end, longest)
      decreases t.len + 1 - len
    {
      var lenCode := if dictionary then t.lenCode else len;
      var c := Copy(start, len, lenCode, t.distance, 0, pr.far(pos - start, t.distance, lenCode, base));
      LeadsMatch(e, pr, pos, start, t, len, base, c, ns, result, end, longest);
      var taken := TryCopy(pos, c, nodes);
      if taken {
        result := Max(result, len);
      }
      ns, rest := Take(ns, pos, c), OfMatch(e, pr, pos, start, t, len + 1, base);
      len := len + 1;
    }
    LeadsDone(ns0, ns, result, pos, cs, end, longest);
  }

  method TryMatches(e: Env, pr: Prices, pos: nat, start: nat, ts: seq<Match>, minLen: nat, base: real,
                    nodes: array<Node>)
    returns (result: nat)
    requires start <= pos && (forall j :: 0 <= j < |ts| ==> Plausible(e, pos, ts[j])) && 2 <= minLen
    requires nodes.Length == e.numBytes + 1 && Costly(nodes[..], pos)
    modifies nodes
    ensures Takes(old(nodes[..]), nodes[..], result, pos, OfMatches(e, pr, pos, start, ts, minLen, base))
  {
    var len := minLen;
    result := 0;
    ghost var ns, cs := nodes[..], OfMatches(e, pr, pos, start, ts, minLen, base);
    ghost var ns0, rest, end, longest := ns, cs, TakeAll(ns, pos, cs), Longest(ns, pos, cs);
    LeadsStart(ns, pos, cs);
    assert ts[0..] == ts;
    for j := 0 to |ts|
      invariant 2 <= len && ns == nodes[..] && rest == OfMatches(e, pr, pos, start, ts[j..], len, base)
      invariant Leads(ns, result, pos, rest, end, longest)
    {
      assert ts[j..][0] == ts[j] && ts[j..][1..] == ts[j + 1..];
      ghost var len0 := len;
      var r;
      len, r := TryMatch(e, pr, pos, start, ts[j], len, base, nodes);
      LeadsFrom(ns, result, pos, OfMatch(e, pr, pos, start, ts[j], FirstLen(e, pos, ts[j], len0), base),
                OfMatches(e, pr, pos, start, ts[j + 1..], len, base), end, longest, nodes[..], r);
      ns, rest := nodes[..], OfMatches(e, pr, pos, start, ts[j + 1..], len, base);
      result := Max(result, r);
    }
    LeadsDone(ns0, ns, result, pos, cs, end, longest);
  }

  /** The extra bits of a copy length, as in section 5 of RFC 7932. */
  function ExtraBits(len: nat): nat {
    if len < 10 then 0 else 1 + ExtraBits((len - 6) / 2 + 6)
  }

  lemma {:induction false} ExtraBitsIs(len: nat, n: nat)
    requires len < 6 + 4 * Pow2(n) && (n == 0 || 6 + 2 * Pow2(n) <= len)
    ensures ExtraBits(len) == n
  {
    if n > 0 {
      ExtraBitsIs((len - 6) / 2 + 6, n - 1);
    }
  }

  /** A copy of length l from pos ends at a node already reached at no more than the
      start cost and the extra bits of the copy length. */
  predicate Useless(ns: seq<Node>, pos: nat, l: nat, startCost: real) {
    pos + l < |ns| && ns[pos + l].u.Cost? && ns[pos + l].u.cost <= startCost + ExtraBits(l) as real
  }

  /** The first copy length that is not useless. */
  ghost predicate Shortest(ns: seq<Node>, pos: nat, len: nat, startCost: real) {
    2 <= len && !Useless(ns, pos, len, startCost) && forall l :: 2 <= l < len ==> Useless(ns, pos, l, startCost)
  }

  /** ComputeMinimumCopyLength. */
  method ComputeMinimumCopyLength(startCost: real, nodes: array<Node>, numBytes: nat, pos: nat) returns (len: nat)
    requires nodes.Length == numBytes + 1 && Costly(nodes[..], pos)
    ensures Shortest(nodes[..], pos, len, startCost)
  {
    var minCost, bucket, offset := startCost, 4, 10;
    len := 2;
    ghost var n: nat := 0;
    while pos + len <= numBytes && (assert nodes[..][pos + len].u.Cost?; nodes[pos + len].u.cost <= minCost)
      invariant 2 <= len && (n == 0 || 6 + 2 * Pow2(n) <= len) && len < offset == 6 + bucket
      invariant bucket == 4 * Pow2(n) && ExtraBits(len) == n
      invariant minCost == startCost + ExtraBits(len) as real
      invariant forall l :: 2 <= l < len ==> Useless(nodes[..], pos, l, startCost)
      decreases numBytes - len
    {
      len := len + 1;
      if len == offset {
        minCost, n := minCost + 1.0, n + 1;
        offset, bucket := offset + bucket, bucket * 2;
      }
      ExtraBitsIs(len, n);
    }
  }

  lemma TakesBoth(ns: seq<Node>, ms: seq<Node>, ks: seq<Node>, a: nat, b: nat, pos: nat, x: seq<Copy>, y: seq<Copy>)
    requires Takes(ns, ms, a, pos, x) && Takes(ms, ks, b, pos, y)
    ensures Takes(ns, ks, Max(a, b), pos, x + y)
  {
    TakeBoth(ns, pos, x, y);
  }

  /** One command start: its last distances and, for the first two, the matches. */
  method SearchFrom(e: Env, pr: Prices, pos: nat, pd: PosData, ts: seq<Match>, minLen: nat, base: real, matches: bool,
                    nodes: array<Node>)
    returns (result: nat)
    requires Sound(e) && InRange(pd.cache) && pd.pos <= pos <= e.numBytes && 2 <= minLen
    requires e.st.maxBackward < 0x200_0000 && forall j :: 0 <= j < |ts| ==> Plausible(e, pos, ts[j])
    requires nodes.Length == e.numBytes + 1 && Costly(nodes[..], pos)
    modifies nodes
    ensures Takes(old(nodes[..]), nodes[..], result, pos, OfStart(e, pr, pos, pd, ts, minLen, matches, base))
  {
    ghost var ns := nodes[..];
    result := LastDistances(e, pr, pos, pd, minLen, base, nodes);
    ghost var ms, a, cs := nodes[..], result, OfLast(e, pr, pos, pd, minLen - 1, base);
    if matches {
      var r := TryMatches(e, pr, pos, pd.pos, ts, minLen, base, nodes);
      TakesBoth(ns, ms, nodes[..], a, r, pos, cs, OfMatches(e, pr, pos, pd.pos, ts, minLen, base));
      result := Max(result, r);
    } else {
      assert cs + [] == cs;
    }
  }

  ghost predicate Comes(e: Env, m: Model, pos: nat, ps: seq<PosData>, ts: seq<Match>, minLen: nat,
                        from: nat -> seq<Copy>) {
    e.start + e.numBytes <= |e.st.text| && pos <= e.numBytes && 2 <= minLen &&
    forall k {:trigger BaseCost(m, pos, ps[k])} :: 0 <= k < |ps| ==>
      ps[k].pos <= pos && InRange(ps[k].cache) &&
      from(k) == OfStart(e, PricesOf(m), pos, ps[k], ts, minLen, k < 2, BaseCost(m, pos, ps[k]))
  }

  /** Command start number k. */
  method TryStart(e: Env, m: Model, pos: nat, ts: seq<Match>, minLen: nat, pd: PosData, k: nat, nodes: array<Node>,
                  ghost ps: seq<PosData>, ghost from: nat -> seq<Copy>)
    returns (result: nat)
    requires Sound(e) && Comes(e, m, pos, ps, ts, minLen, from) && k < |ps| && pd == ps[k] && pd.pos <= pos
    requires e.st.maxBackward < 0x200_0000 && forall j :: 0 <= j < |ts| ==> Plausible(e, pos, ts[j])
    requires nodes.Length == e.numBytes + 1 && Costly(nodes[..], pos)
    modifies nodes
    ensures Takes(old(nodes[..]), nodes[..], result, pos, from(k))
  {
    result := SearchFrom(e, PricesOf(m), pos, pd, ts, minLen, BaseCost(m, pos, pd), k < 2, nodes);
  }

  lemma LeadsChain(pos: nat, from: nat -> seq<Copy>, k: nat, n: nat, ns: seq<Node>, r: nat, end: seq<Node>,
                   longest: nat, ms: seq<Node>, s: nat)
    requires k < n && Leads(ns, r, pos, Chained(from, k, n), end, longest) && Takes(ns, ms, s, pos, from(k))
    ensures Leads(ms, Max(r, s), pos, Chained(from, k + 1, n), end, longest)
  {
    LeadsFrom(ns, r, pos, from(k), Chained(from, k + 1, n), end, longest, ms, s);
  }

  /** Goes over the command starts in the queue, cheapest first. */
  method Search(e: Env, m: Model, pos: nat, ts: seq<Match>, minLen: nat, queue: StartPosQueue, nodes: array<Node>,
                ghost from: nat -> seq<Copy>)
    returns (result: nat)
    requires Sound(e) && queue.Valid() && Comes(e, m, pos, queue.View(), ts, minLen, from)
    requires forall k :: 0 <= k < |queue.View()| ==> queue.View()[k].pos <= pos
    requires e.st.maxBackward < 0x200_0000 && forall j :: 0 <= j < |ts| ==> Plausible(e, pos, ts[j])
    requires nodes.Length == e.numBytes + 1 && Costly(nodes[..], pos)
    modifies nodes
    ensures Takes(old(nodes[..]), nodes[..], result, pos, Chained(from, 0, MinNat(e.maxIters, |queue.View()|)))
  {
    result := 0;
    var k: nat := 0;
    ghost var ns, ps := nodes[..], queue.View();
    ghost var n: nat := MinNat(e.maxIters, |ps|);
    ghost var cs := Chained(from, 0, n);
    ghost var end, longest := TakeAll(ns, pos, cs), Longest(ns, pos, cs);
    LeadsStart(ns, pos, cs);
    while k < e.maxIters && k < queue.Size()
      invariant k <= n && Leads(nodes[..], result, pos, Chained(from, k, n), end, longest)
      decreases n - k
    {
      var pd := queue.At(k);
      assert pd == queue.View()[k] == ps[k];
      ghost var before := nodes[..];
      var r := TryStart(e, m, pos, ts, minLen, pd, k, nodes, ps, from);
      LeadsChain(pos, from, k, n, before, result, end, longest, nodes[..], r);
      result := Max(result, r);
      k := k + 1;
    }
    LeadsDone(ns, nodes[..], result, pos, cs, end, longest);
  }

  // ---------------------------------------------------------------- UpdateNodes

  lemma HoldsCostly(e: Env, f: seq<Node>, ns: seq<Node>, pos: nat)
    requires Holds(e, f, ns) && |f| == pos + 1
    ensures Costly(ns, pos)
  {
    forall i | pos < i < |ns|
      ensures ns[i].u.Cost?
    {
      assert Pending(e, f, ns[i], i);
    }
  }

  lemma StateCostly(e: Env, f: seq<Node>, nodes: array<Node>, pos: nat)
    requires State(e, f, nodes) && |f| == pos + 1
    ensures Holds(e, f, nodes[..]) && Costly(nodes[..], pos)
  {
    StateIs(e, f, nodes);
    HoldsCostly(e, f, nodes[..], pos);
  }

  lemma QueueComes(e: Env, f: seq<Node>, m: Model, pos: nat, ps: seq<PosData>, ts: seq<Match>, minLen: nat)
    requires Sound(e) && AllStartable(e, f, ps) && pos + 1 == |f| && pos < e.numBytes && 2 <= minLen
    ensures forall k :: 0 <= k < |ps| ==> ps[k].pos <= pos
    ensures Comes(e, m, pos, ps, ts, minLen, FromOf(e, m, pos, ps, ts, minLen))
  {
    forall k | 0 <= k < |ps|
      ensures ps[k].pos <= pos && InRange(ps[k].cache)
    {
      assert Startable(e, f, ps[k]);
      CacheBounded(e, f, ps[k].pos);
    }
  }

  /** The cost at which a copy would have to start to be of use, from the cheapest start. */
  function StartCost(m: Model, pos: nat, ps: seq<PosData>): real
    requires ps != []
  {
    ps[0].cost + m.minCommand + (m.literal(pos) - m.literal(ps[0].pos))
  }

  /** The queue after node pos is evaluated: it enters if its cost is not above that of
      literals up to it. */
  ghost predicate Queued(e: Env, f: seq<Node>, m: Model, pos: nat, n: Node, was: seq<PosData>, ps: seq<PosData>) {
    n.u.Cost? &&
    ps == if n.u.cost <= m.literal(pos)
          then Pushed(PosData(pos, CacheAt(e, f, pos), n.u.cost - m.literal(pos), n.u.cost), was) else was
  }

  /** What UpdateNodes does to the nodes at pos: the copies of all lengths from minLen on
      are tried from the queue, and r is the longest taken. */
  ghost predicate Updates(e: Env, m: Model, pos: nat, ps: seq<PosData>, ts: seq<Match>, minLen: nat, ns: seq<Node>,
                          ms: seq<Node>, r: nat) {
    e.start + e.numBytes <= |e.st.text| && pos <= e.numBytes && ps != [] &&
    (forall i :: 0 <= i < |ps| ==> ps[i].pos <= pos) &&
    Shortest(ns, pos, minLen, StartCost(m, pos, ps)) && Takes(ns, ms, r, pos, Tried(e, m, pos, ps, ts, minLen))
  }

  /** The part of UpdateNodes before the search. */
  method Prepare(e: Env, m: Model, pos: nat, queue: StartPosQueue, nodes: array<Node>, ghost f: seq<Node>)
    returns (minLen: nat, ghost x: Node)
    requires State(e, f, nodes) && pos == |f| && pos < e.numBytes && Cheap(m)
    requires queue.Valid() && AllStartable(e, f, queue.View()) && (pos == 0 || queue.idx > 0)
    modifies nodes, queue, queue.q
    ensures State(e, f + [x], nodes) && pos < |old(nodes[..])| && nodes[..] == old(nodes[..])[pos := x]
    ensures SameCommand(x, old(nodes[pos]))
    ensures queue.Valid() && AllStartable(e, f + [x], queue.View()) && queue.idx > 0
    ensures Queued(e, f + [x], m, pos, old(nodes[pos]), old(queue.View()), queue.View())
    ensures queue.View() != [] && Shortest(nodes[..], pos, minLen, StartCost(m, pos, queue.View()))
  {
    assert Pending(e, f, nodes[pos], pos);
    ghost var ns := nodes[..];
    x := EvaluateNode(e, m, pos, queue, nodes, f);
    assert nodes[..] == ns[pos := x];
    var first := queue.At(0);
    assert first == queue.View()[0];
    StateCostly(e, f + [x], nodes, pos);
    var minCost := first.cost + m.minCommand + (m.literal(pos) - m.literal(first.pos));
    minLen := ComputeMinimumCopyLength(minCost, nodes, e.numBytes, pos);
  }

  lemma Concludes(e: Env, f: seq<Node>, m: Model, pos: nat, ps: seq<PosData>, ts: seq<Match>, minLen: nat,
                  ns: seq<Node>, ms: seq<Node>, r: nat)
    requires Sound(e) && Holds(e, f, ns) && |f| == pos + 1 && pos < e.numBytes && AllStartable(e, f, ps)
    requires e.st.maxBackward < 0x200_0000 && forall j :: 0 <= j < |ts| ==> Plausible(e, pos, ts[j])
    requires Updates(e, m, pos, ps, ts, minLen, ns, ms, r)
    ensures Holds(e, f, ms) && Lawful(ns, ms, r, pos, Tried(e, m, pos, ps, ts, minLen))
  {
    TriedFine(e, f, m, pos, ps, ts, minLen);
    TakeAllHolds(e, f, ns, pos, Tried(e, m, pos, ps, ts, minLen));
    UpdateLaw(e, f, m, pos, ps, ts, minLen, ns, ms, r);
  }

  /** UpdateNodes: the node at pos is evaluated, and then the copies are tried.  Every node
      behind it ends with the least of its cost and those of the copies that end there. */
  method UpdateNodes(e: Env, m: Model, pos: nat, ts: seq<Match>, queue: StartPosQueue, nodes: array<Node>,
                     ghost f: seq<Node>)
    returns (result: nat, ghost x: Node, ghost minLen: nat)
    requires Sound(e) && State(e, f, nodes) && pos == |f| && pos < e.numBytes && Cheap(m)
    requires e.st.maxBackward < 0x200_0000 && forall j :: 0 <= j < |ts| ==> Plausible(e, pos, ts[j])
    requires queue.Valid() && AllStartable(e, f, queue.View()) && (pos == 0 || queue.idx > 0)
    modifies nodes, queue, queue.q
    ensures State(e, f + [x], nodes) && pos < |old(nodes[..])| && SameCommand(x, old(nodes[pos]))
    ensures queue.Valid() && AllStartable(e, f + [x], queue.View()) && queue.idx > 0
    ensures Queued(e, f + [x], m, pos, old(nodes[pos]), old(queue.View()), queue.View())
    ensures Holds(e, f + [x], old(nodes[..])[pos := x])
    ensures Updates(e, m, pos, queue.View(), ts, minLen, old(nodes[..])[pos := x], nodes[..], result)
    ensures Lawful(old(nodes[..])[pos := x], nodes[..], result, pos, Tried(e, m, pos, queue.View(), ts, minLen))
  {
    var len;
    len, x := Prepare(e, m, pos, queue, nodes, f);
    minLen := len;
    ghost var g, ns, ps := f + [x], nodes[..], queue.View();
    StateCostly(e, g, nodes, pos);
    QueueComes(e, g, m, pos, ps, ts, len);
    result := Search(e, m, pos, ts, len, queue, nodes, FromOf(e, m, pos, ps, ts, len));
    Concludes(e, g, m, pos, ps, ts, len, ns, nodes[..], result);
    StateIs(e, g, nodes);
  }

  // ---------------------------------------------------------------- what that means

  /** No cost grows, and each copy tried costs no less than its end does now; the longest
      taken, of r bytes, made its end cheaper, and nothing behind it has changed. */
  ghost predicate Lawful(ns: seq<Node>, ms: seq<Node>, r: nat, pos: nat, cs: seq<Copy>) {
    |ns| == |ms| && (forall i :: pos < i < |ns| ==> Least(ms[i], ns[i], pos, cs, i - pos)) &&
    (forall i :: 0 <= i < |ns| && (i <= pos || pos + r < i) ==> ms[i] == ns[i]) &&
    (r == 0 || (pos + r < |ns| && ns[pos + r].u.Cost? && ms[pos + r].u.Cost? &&
                ms[pos + r].u.cost < ns[pos + r].u.cost))
  }

  lemma TakesLawful(ns: seq<Node>, ms: seq<Node>, r: nat, pos: nat, cs: seq<Copy>)
    requires Takes(ns, ms, r, pos, cs) && AllPossible(ns, pos, cs) && Costly(ns, pos)
    ensures Lawful(ns, ms, r, pos, cs)
  {
    forall i | pos < i < |ns|
      ensures Least(ms[i], ns[i], pos, cs, i - pos)
    {
      TakeLeast(ns, pos, cs, i - pos);
    }
    forall i | 0 <= i < |ns| && (i <= pos || pos + r < i)
      ensures ms[i] == ns[i]
    {
      TakeKeeps(ns, pos, cs, i);
    }
    LongestTaken(ns, pos, cs);
  }

  /** That is what UpdateNodes does. */
  lemma UpdateLaw(e: Env, f: seq<Node>, m: Model, pos: nat, ps: seq<PosData>, ts: seq<Match>, minLen: nat,
                  ns: seq<Node>, ms: seq<Node>, r: nat)
    requires Sound(e) && Holds(e, f, ns) && |f| == pos + 1 && pos < e.numBytes && AllStartable(e, f, ps)
    requires e.st.maxBackward < 0x200_0000 && forall j :: 0 <= j < |ts| ==> Plausible(e, pos, ts[j])
    requires Updates(e, m, pos, ps, ts, minLen, ns, ms, r)
    ensures Lawful(ns, ms, r, pos, Tried(e, m, pos, ps, ts, minLen))
  {
    var cs := Tried(e, m, pos, ps, ts, minLen);
    TriedFine(e, f, m, pos, ps, ts, minLen);
    FinePossible(e, f, ns, pos, cs);
    HoldsCostly(e, f, ns, pos);
    TakesLawful(ns, ms, r, pos, cs);
  }

  lemma {:induction false} RunHas(pr: Prices, pos: nat, start: nat, j: nat, dist: nat, l: nat, n: nat, base: real,
                                  h: nat)
    requires start <= pos && l <= h <= n
    ensures Copy(start, h, h, dist, j + 1, pr.last(pos - start, j, h, base)) in
            LastRun(pr, pos, start, j, dist, l, n, base)
    decreases n + 1 - l
  {
    if l < h {
      RunHas(pr, pos, start, j, dist, l + 1, n, base, h);
    }
  }

  /** The longest copy tried before code i, when the scan stands at code j. */
  function Reached(sc: Scan, j: nat, best: nat, i: nat): nat
    decreases i - j
  {
    if j >= i then best else Reached(sc, j + 1, Max(best, sc.lens(j, best)), i)
  }

  lemma {:induction false} ReachedGrows(sc: Scan, j: nat, best: nat, i: nat)
    ensures Reached(sc, j, best, i) >= best
    decreases i - j
  {
    if j < i {
      ReachedGrows(sc, j + 1, Max(best, sc.lens(j, best)), i);
    }
  }

  lemma {:induction false} CodesHave(sc: Scan, j: nat, best: nat, i: nat, c: Copy)
    requires j <= i < 16 && Reached(sc, j, best, i) < sc.room && c in sc.code(i, Reached(sc, j, best, i))
    ensures c in OfCodes(sc, j, best)
    decreases i - j
  {
    ReachedGrows(sc, j, best, i);
    if j < i {
      CodesHave(sc, j + 1, Max(best, sc.lens(j, best)), i, c);
    }
  }

  lemma {:induction false} ChainHas(from: nat -> seq<Copy>, k: nat, n: nat, i: nat, c: Copy)
    requires k <= i < n && c in from(i)
    ensures c in Chained(from, k, n)
    decreases n - k
  {
    if k < i {
      ChainHas(from, k + 1, n, i, c);
    }
  }

  lemma LastHas(e: Env, pr: Prices, pos: nat, pd: PosData, minLen: nat, j: nat, l: nat, base: real, c: Copy)
    requires e.start + e.numBytes <= |e.st.text| && pd.pos <= pos <= e.numBytes && 0 < minLen && j < 16
    requires var best := Reached(ScanOf(e, pr, pos, pd, base), 0, minLen - 1, j);
      pos + best < e.numBytes && best < l <= LastLen(e, pos, pd, j, best)
    requires Decode(j, pd.cache) > 0 ==>
      c == Copy(pd.pos, l, l, Decode(j, pd.cache), j + 1, pr.last(pos - pd.pos, j, l, base))
    ensures Decode(j, pd.cache) > 0 && c in OfLast(e, pr, pos, pd, minLen - 1, base)
  {
    var sc, back := ScanOf(e, pr, pos, pd, base), Decode(j, pd.cache);
    var best := Reached(sc, 0, minLen - 1, j);
    RunHas(pr, pos, pd.pos, j, back, best + 1, LastLen(e, pos, pd, j, best), base, l);
    assert sc.code(j, best) == OfCode(e, pr, pos, pd, j, best, base);
    CodesHave(sc, 0, minLen - 1, j, c);
  }

  /** The longest copy tried from a command start before last-distance code j. */
  function Before(e: Env, m: Model, pos: nat, pd: PosData, minLen: nat, j: nat): nat
    requires e.start + e.numBytes <= |e.st.text| && pd.pos <= pos <= e.numBytes && 0 < minLen
  {
    Reached(ScanOf(e, PricesOf(m), pos, pd, BaseCost(m, pos, pd)), 0, minLen - 1, j)
  }

  /** From each of the first maxIters command starts, each last distance is tried with each
      length that no earlier one had. */
  lemma LastTried(e: Env, m: Model, pos: nat, ps: seq<PosData>, ts: seq<Match>, minLen: nat, k: nat, j: nat, l: nat)
    requires e.start + e.numBytes <= |e.st.text| && pos <= e.numBytes && 0 < minLen
    requires (forall i :: 0 <= i < |ps| ==> ps[i].pos <= pos) && k < e.maxIters && k < |ps| && j < 16
    requires var best := Before(e, m, pos, ps[k], minLen, j);
      pos + best < e.numBytes && best < l <= LastLen(e, pos, ps[k], j, best)
    ensures Decode(j, ps[k].cache) > 0
    ensures Copy(ps[k].pos, l, l, Decode(j, ps[k].cache), j + 1,
                 LastCost(m, pos - ps[k].pos, j, l, BaseCost(m, pos, ps[k]))) in Tried(e, m, pos, ps, ts, minLen)
  {
    var pd, base := ps[k], BaseCost(m, pos, ps[k]);
    var c := Copy(pd.pos, l, l, Decode(j, pd.cache), j + 1, LastCost(m, pos - pd.pos, j, l, base));
    LastHas(e, PricesOf(m), pos, pd, minLen, j, l, base, c);
    ChainHas(FromOf(e, m, pos, ps, ts, minLen), 0, MinNat(e.maxIters, |ps|), k, c);
  }

  lemma {:induction false} MatchHas(e: Env, pr: Prices, pos: nat, start: nat, t: Match, l: nat, base: real, h: nat)
    requires start <= pos && l <= h <= t.len
    ensures var code := LenCode(e, pos, t, h);
      Copy(start, h, code, t.distance, 0, pr.far(pos - start, t.distance, code, base)) in
      OfMatch(e, pr, pos, start, t, l, base)
    decreases t.len + 1 - l
  {
    if l < h {
      MatchHas(e, pr, pos, start, t, l + 1, base, h);
    }
  }

  /** The first length not covered by the first i matches. */
  function After(ts: seq<Match>, len: nat, i: nat): nat
    requires i <= |ts|
    decreases i
  {
    if i == 0 then len else After(ts[1..], NextLen(ts[0], len), i - 1)
  }

  lemma {:induction false} MatchesHave(e: Env, pr: Prices, pos: nat, start: nat, ts: seq<Match>, len: nat, base: real,
                                       i: nat, c: Copy)
    requires start <= pos && i < |ts|
    requires c in OfMatch(e, pr, pos, start, ts[i], FirstLen(e, pos, ts[i], After(ts, len, i)), base)
    ensures c in OfMatches(e, pr, pos, start, ts, len, base)
    decreases |ts|
  {
    if i > 0 {
      assert ts[1..][i - 1] == ts[i];
      MatchesHave(e, pr, pos, start, ts[1..], NextLen(ts[0], len), base, i - 1, c);
    }
  }

  /** From the first two command starts, each match is tried with each length that no
      earlier one had; a dictionary word and a very long match only as a whole. */
  lemma MatchTried(e: Env, m: Model, pos: nat, ps: seq<PosData>, ts: seq<Match>, minLen: nat, k: nat, i: nat, l: nat)
    requires e.start + e.numBytes <= |e.st.text| && pos <= e.numBytes && 0 < minLen
    requires (forall i :: 0 <= i < |ps| ==> ps[i].pos <= pos) && k < 2 && k < e.maxIters && k < |ps| && i < |ts|
    requires FirstLen(e, pos, ts[i], After(ts, minLen, i)) <= l <= ts[i].len
    ensures var code := LenCode(e, pos, ts[i], l);
      Copy(ps[k].pos, l, code, ts[i].distance, 0,
           MatchCost(m, pos - ps[k].pos, ts[i].distance, code, BaseCost(m, pos, ps[k]))) in
      Tried(e, m, pos, ps, ts, minLen)
  {
    var pd, pr, base, code := ps[k], PricesOf(m), BaseCost(m, pos, ps[k]), LenCode(e, pos, ts[i], l);
    var c := Copy(pd.pos, l, code, ts[i].distance, 0, MatchCost(m, pos - pd.pos, ts[i].distance, code, base));
    MatchHas(e, pr, pos, pd.pos, ts[i], FirstLen(e, pos, ts[i], After(ts, minLen, i)), base, l);
    MatchesHave(e, pr, pos, pd.pos, ts, minLen, base, i, c);
    ChainHas(FromOf(e, m, pos, ps, ts, minLen), 0, MinNat(e.maxIters, |ps|), k, c);
  }

  // ---------------------------------------------------------------- a block copied whole

  /** What the queue holds at the block start. */
  function First(e: Env): PosData { PosData(0, e.cache, 0.0, 0.0) }

  /** The shortest copy tried there: no node is reached yet. */
  function FirstMin(m: Model): nat { if m.minCommand < INFINITY then 2 else WIDE + 1 }

  /** A copy of the whole block is taken at its start.  This can be known before the
      call, and it takes a block of 2^24 bytes. */
  predicate FullCopy(e: Env, m: Model, ts: seq<Match>)
    requires e.start + e.numBytes <= |e.st.text|
  {
    e.numBytes == WIDE &&
    exists c :: c in Tried(e, m, 0, [First(e)], ts, FirstMin(m)) && c.len == WIDE && c.cost < INFINITY
  }

  lemma FirstLengths(e: Env, m: Model, ns: seq<Node>, len: nat)
    requires |ns| == e.numBytes + 1 && e.numBytes == WIDE && forall i :: 0 < i < |ns| ==> ns[i] == STUB
    requires Shortest(ns, 0, len, m.minCommand)
    ensures len == FirstMin(m)
  {
    assert ExtraBits(2) == 0;
    assert ns[2] == STUB;
    if len > 2 {
      assert Useless(ns, 0, 2, m.minCommand);
    }
    if len <= WIDE {
      assert ns[len] == STUB;
    }
    assert !Useless(ns, 0, WIDE + 1, m.minCommand);
  }

  /** The end of the block is broken by the copies at its start exactly if one of them is
      such a copy. */
  lemma BrokenIff(e: Env, f: seq<Node>, m: Model, ts: seq<Match>, minLen: nat, ns: seq<Node>, ms: seq<Node>, r: nat)
    requires Sound(e) && Holds(e, f, ns) && |f| == 1 && 0 < e.numBytes && AllStartable(e, f, [First(e)])
    requires e.st.maxBackward < 0x200_0000 && forall j :: 0 <= j < |ts| ==> Plausible(e, 0, ts[j])
    requires Updates(e, m, 0, [First(e)], ts, minLen, ns, ms, r) && forall i :: 0 < i < |ns| ==> ns[i] == STUB
    ensures Broken(e, ms) <==> FullCopy(e, m, ts)
  {
    if e.numBytes == WIDE {
      FirstLengths(e, m, ns, minLen);
      UpdateLaw(e, f, m, 0, [First(e)], ts, minLen, ns, ms, r);
      assert ns[WIDE] == STUB;
      VoidIff(e, ms[WIDE], Tried(e, m, 0, [First(e)], ts, minLen));
    }
  }

  lemma VoidIff(e: Env, n: Node, cs: seq<Copy>)
    requires e.numBytes == WIDE && Least(n, STUB, 0, cs, WIDE)
    ensures Void(e, n, WIDE) <==> exists c :: c in cs && c.len == WIDE && c.cost < INFINITY
  {
    if n != STUB {
      var c :| c in cs && c.len == WIDE && Packable(c) && c.start <= 0 && n == EndOf(0, c) && c.cost < STUB.u.cost;
      NewVoid(e, c.lenCode, c.dist, c.shortCode, c.cost);
    }
  }
}
