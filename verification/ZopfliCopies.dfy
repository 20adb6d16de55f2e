/** The copies that the Zopfli parser tries at a position, and what they do to the nodes
    (contrib/brotli/enc/backward_references_hq.c). */
module ZopfliCopies {
  import opened Common
  import opened Distances
  import opened Commands
  import opened ZopfliNodes
  import opened ZopfliQueue
  import opened Zopfli

  // ---------------------------------------------------------------- taking copies

  /** A command that starts at node 'start' and copies len bytes. */
  datatype Copy = Copy(start: nat, len: nat, lenCode: nat, dist: nat, shortCode: nat, cost: real)

  predicate Packable(c: Copy) {
    c.lenCode <= c.len + 9 < c.lenCode + 256 && c.dist < 0x200_0000 && c.shortCode <= 16
  }

  /** The node a copy at pos leaves at its end. */
  function EndOf(pos: nat, c: Copy): Node
    requires Packable(c) && c.start <= pos
  {
    Packed(c.len, c.lenCode, c.dist, c.shortCode, pos - c.start, c.cost)
  }

  /** The copy can be written, and its end has a cost. */
  predicate Possible(ns: seq<Node>, pos: nat, c: Copy) {
    Packable(c) && c.start <= pos && 0 < c.len && pos + c.len < |ns| && ns[pos + c.len].u.Cost?
  }

  /** The copy reaches its end at less cost than before. */
  predicate Taken(ns: seq<Node>, pos: nat, c: Copy) {
    Possible(ns, pos, c) && c.cost < ns[pos + c.len].u.cost
  }

  function Take(ns: seq<Node>, pos: nat, c: Copy): (r: seq<Node>)
    ensures |r| == |ns|
  {
    if Taken(ns, pos, c) then ns[pos + c.len := EndOf(pos, c)] else ns
  }

  /** The nodes after some copies are tried in order. */
  function TakeAll(ns: seq<Node>, pos: nat, cs: seq<Copy>): (r: seq<Node>)
    ensures |r| == |ns|
    decreases |cs|
  {
    if cs == [] then ns else TakeAll(Take(ns, pos, cs[0]), pos, cs[1..])
  }

  function Max(a: nat, b: nat): nat { if a < b then b else a }

  /** The longest copy taken, or 0. */
  function Longest(ns: seq<Node>, pos: nat, cs: seq<Copy>): nat
    decreases |cs|
  {
    if cs == [] then 0
    else Max(if Taken(ns, pos, cs[0]) then cs[0].len else 0, Longest(Take(ns, pos, cs[0]), pos, cs[1..]))
  }

  lemma {:induction false} TakeBoth(ns: seq<Node>, pos: nat, a: seq<Copy>, b: seq<Copy>)
    ensures TakeAll(ns, pos, a + b) == TakeAll(TakeAll(ns, pos, a), pos, b)
    ensures Longest(ns, pos, a + b) == Max(Longest(ns, pos, a), Longest(TakeAll(ns, pos, a), pos, b))
    decreases |a|
  {
    if a == [] {
      assert a + b == b;
    } else {
      assert (a + b)[1..] == a[1..] + b;
      TakeBoth(Take(ns, pos, a[0]), pos, a[1..], b);
    }
  }

  /** Nodes behind pos have costs. */
  predicate Costly(ns: seq<Node>, pos: nat) {
    forall i :: pos < i < |ns| ==> ns[i].u.Cost?
  }

  /** Every copy can be written. */
  predicate AllPossible(ns: seq<Node>, pos: nat, cs: seq<Copy>) {
    forall i :: 0 <= i < |cs| ==> Possible(ns, pos, cs[i])
  }

  /** What taking copies does to the node at pos + l: its cost becomes the least of its own
      and those of the copies of l bytes, and with it goes the copy. */
  ghost predicate Least(n: Node, old_: Node, pos: nat, cs: seq<Copy>, l: nat) {
    old_.u.Cost? && n.u.Cost? && n.u.cost <= old_.u.cost &&
    (forall c :: c in cs && c.len == l ==> n.u.cost <= c.cost) &&
    (n == old_ ||
     exists c :: c in cs && c.len == l && Packable(c) && c.start <= pos && n == EndOf(pos, c) && c.cost < old_.u.cost)
  }

  lemma {:induction false} TakeLeast(ns: seq<Node>, pos: nat, cs: seq<Copy>, l: nat)
    requires AllPossible(ns, pos, cs) && 0 < l && pos + l < |ns| && ns[pos + l].u.Cost?
    ensures Least(TakeAll(ns, pos, cs)[pos + l], ns[pos + l], pos, cs, l)
    decreases |cs|
  {
    if cs != [] {
      var ms := Take(ns, pos, cs[0]);
      assert Possible(ns, pos, cs[0]);
      assert forall i :: 0 <= i < |cs[1..]| ==> cs[1..][i] == cs[i + 1];
      TakeLeast(ms, pos, cs[1..], l);
      assert cs == [cs[0]] + cs[1..];
    }
  }

  /** Nothing else changes, and nothing behind the longest copy. */
  lemma {:induction false} TakeKeeps(ns: seq<Node>, pos: nat, cs: seq<Copy>, i: nat)
    requires i < |ns|
    ensures i <= pos || i > pos + Longest(ns, pos, cs) ==> TakeAll(ns, pos, cs)[i] == ns[i]
    ensures Longest(ns, pos, cs) == 0 ==> TakeAll(ns, pos, cs) == ns
    decreases |cs|
  {
    if cs != [] {
      TakeKeeps(Take(ns, pos, cs[0]), pos, cs[1..], i);
    }
  }

  /** The longest copy taken made its end cheaper. */
  lemma {:induction false} LongestTaken(ns: seq<Node>, pos: nat, cs: seq<Copy>)
    requires AllPossible(ns, pos, cs)
    ensures var r, ms := Longest(ns, pos, cs), TakeAll(ns, pos, cs);
      r == 0 ||
      (pos + r < |ns| && ns[pos + r].u.Cost? && ms[pos + r].u.Cost? && ms[pos + r].u.cost < ns[pos + r].u.cost)
    decreases |cs|
  {
    if cs != [] {
      var ms := Take(ns, pos, cs[0]);
      assert Possible(ns, pos, cs[0]);
      assert forall i :: 0 <= i < |cs[1..]| ==> cs[1..][i] == cs[i + 1];
      LongestTaken(ms, pos, cs[1..]);
      if Longest(ns, pos, cs) > 0 {
        TakeLeast(ms, pos, cs[1..], Longest(ns, pos, cs));
      }
    }
  }

  // ---------------------------------------------------------------- copies that are right

  lemma NewGood(e: Env, f: seq<Node>, pos: nat, start: nat, len: nat, lenCode: nat, dist: nat, shortCode: nat,
                cost: real)
    requires pos + 1 == |f| && start <= pos && Live(f, start) && 2 <= len < WIDE
    requires lenCode <= len + 9 < lenCode + 256 && dist < 0x200_0000 && shortCode <= 16
    requires Decode(if shortCode == 0 then dist + 15 else shortCode - 1, CacheAt(e, f, start)) == dist
    requires Copies(e.st, e.start + pos, dist, len, lenCode)
    ensures Good(e, f, Packed(len, lenCode, dist, shortCode, pos - start, cost), pos + len)
  {
  }

  lemma NewVoid(e: Env, lenCode: nat, dist: nat, shortCode: nat, cost: real)
    requires e.numBytes == WIDE && lenCode <= WIDE + 9 < lenCode + 256 && dist < 0x200_0000 && shortCode <= 16
    ensures Void(e, Packed(WIDE, lenCode, dist, shortCode, 0, cost), WIDE)
  {
  }

  lemma NewPending(e: Env, f: seq<Node>, pos: nat, start: nat, len: nat, lenCode: nat, dist: nat, shortCode: nat,
                   cost: real)
    requires pos + 1 == |f| && start <= pos && Live(f, start) && 2 <= len && pos + len <= e.numBytes <= WIDE
    requires cost < INFINITY
    requires lenCode <= len + 9 < lenCode + 256 && dist < 0x200_0000 && shortCode <= 16
    requires Decode(if shortCode == 0 then dist + 15 else shortCode - 1, CacheAt(e, f, start)) == dist
    requires Copies(e.st, e.start + pos, dist, len, lenCode)
    ensures Pending(e, f, Packed(len, lenCode, dist, shortCode, pos - start, cost), pos + len)
  {
    if len < WIDE {
      NewGood(e, f, pos, start, len, lenCode, dist, shortCode, cost);
    } else {
      NewVoid(e, lenCode, dist, shortCode, cost);
    }
  }

  /** The command extends a live node by a true copy that its distance code means there. */
  ghost predicate Fine(e: Env, f: seq<Node>, pos: nat, c: Copy) {
    Packable(c) && pos + 1 == |f| && c.start <= pos && Live(f, c.start) && 2 <= c.len && pos + c.len <= e.numBytes &&
    Decode(if c.shortCode == 0 then c.dist + 15 else c.shortCode - 1, CacheAt(e, f, c.start)) == c.dist &&
    Copies(e.st, e.start + pos, c.dist, c.len, c.lenCode)
  }

  ghost predicate AllFine(e: Env, f: seq<Node>, pos: nat, cs: seq<Copy>) {
    forall i :: 0 <= i < |cs| ==> Fine(e, f, pos, cs[i])
  }

  /** State on a sequence. */
  ghost predicate Holds(e: Env, f: seq<Node>, ns: seq<Node>) {
    |f| <= |ns| == e.numBytes + 1 && Frozen(e, f) && (forall i :: 0 <= i < |f| ==> ns[i] == f[i]) &&
    (forall i {:trigger Pending(e, f, ns[i], i)} :: |f| <= i < |ns| ==> Pending(e, f, ns[i], i))
  }

  lemma StateIs(e: Env, f: seq<Node>, nodes: array<Node>)
    ensures State(e, f, nodes) <==> Holds(e, f, nodes[..])
  {
    var ns := nodes[..];
    if State(e, f, nodes) {
      forall i | |f| <= i < |ns|
        ensures Pending(e, f, ns[i], i)
      {
        assert Pending(e, f, nodes[i], i);
      }
    }
    if Holds(e, f, ns) {
      forall i | |f| <= i < nodes.Length
        ensures Pending(e, f, nodes[i], i)
      {
        assert Pending(e, f, ns[i], i);
      }
    }
  }

  lemma FinePossible(e: Env, f: seq<Node>, ns: seq<Node>, pos: nat, cs: seq<Copy>)
    requires Holds(e, f, ns) && AllFine(e, f, pos, cs)
    ensures AllPossible(ns, pos, cs)
  {
    forall i | 0 <= i < |cs|
      ensures Possible(ns, pos, cs[i])
    {
      assert Fine(e, f, pos, cs[i]);
      assert Pending(e, f, ns[pos + cs[i].len], pos + cs[i].len);
    }
  }

  lemma PutHolds(e: Env, f: seq<Node>, ns: seq<Node>, i: nat, n: Node)
    requires Holds(e, f, ns) && |f| <= i < |ns| && Pending(e, f, n, i)
    ensures Holds(e, f, ns[i := n])
  {
    var ms := ns[i := n];
    forall k | |f| <= k < |ms|
      ensures Pending(e, f, ms[k], k)
    {
      assert Pending(e, f, ns[k], k);
    }
  }

  lemma FinePending(e: Env, f: seq<Node>, pos: nat, c: Copy)
    requires Fine(e, f, pos, c) && e.numBytes <= WIDE && c.cost < INFINITY
    ensures Pending(e, f, EndOf(pos, c), pos + c.len)
  {
    NewPending(e, f, pos, c.start, c.len, c.lenCode, c.dist, c.shortCode, c.cost);
  }

  lemma TakeHolds(e: Env, f: seq<Node>, ns: seq<Node>, pos: nat, c: Copy)
    requires Holds(e, f, ns) && Fine(e, f, pos, c) && e.numBytes <= WIDE
    ensures Holds(e, f, Take(ns, pos, c))
  {
    if Taken(ns, pos, c) {
      assert Pending(e, f, ns[pos + c.len], pos + c.len);
      FinePending(e, f, pos, c);
      PutHolds(e, f, ns, pos + c.len, EndOf(pos, c));
    }
  }

  /** The nodes stay as documented, whatever copies are tried. */
  lemma {:induction false} TakeAllHolds(e: Env, f: seq<Node>, ns: seq<Node>, pos: nat, cs: seq<Copy>)
    requires Holds(e, f, ns) && AllFine(e, f, pos, cs) && e.numBytes <= WIDE
    ensures Holds(e, f, TakeAll(ns, pos, cs))
    decreases |cs|
  {
    if cs != [] {
      assert Fine(e, f, pos, cs[0]);
      TakeHolds(e, f, ns, pos, cs[0]);
      assert forall i :: 0 <= i < |cs[1..]| ==> cs[1..][i] == cs[i + 1];
      TakeAllHolds(e, f, Take(ns, pos, cs[0]), pos, cs[1..]);
    }
  }

  /** The end of the block holds a command of length 0. */
  ghost predicate Broken(e: Env, ns: seq<Node>)
    requires |ns| == e.numBytes + 1
  {
    Void(e, ns[e.numBytes], e.numBytes)
  }

  /** Only a copy of 2^24 bytes at the block start can leave such a command. */
  lemma BrokenBy(e: Env, f: seq<Node>, ns: seq<Node>, pos: nat, cs: seq<Copy>)
    requires Holds(e, f, ns) && AllFine(e, f, pos, cs) && e.numBytes <= WIDE && pos < e.numBytes
    ensures Broken(e, TakeAll(ns, pos, cs)) ==> Broken(e, ns) || (pos == 0 && Longest(ns, pos, cs) == WIDE)
  {
    FinePossible(e, f, ns, pos, cs);
    var l := e.numBytes - pos;
    if pos < e.numBytes && |f| == pos + 1 {
      assert Pending(e, f, ns[pos + l], pos + l);
      TakeLeast(ns, pos, cs, l);
      TakeKeeps(ns, pos, cs, e.numBytes);
      LongestShort(e, f, ns, pos, cs);
    } else {
      assert cs == [] || Fine(e, f, pos, cs[0]);
    }
  }

  lemma {:induction false} LongestShort(e: Env, f: seq<Node>, ns: seq<Node>, pos: nat, cs: seq<Copy>)
    requires AllFine(e, f, pos, cs)
    ensures Longest(ns, pos, cs) == 0 || pos + Longest(ns, pos, cs) <= e.numBytes
    decreases |cs|
  {
    if cs != [] {
      assert Fine(e, f, pos, cs[0]);
      assert forall i :: 0 <= i < |cs[1..]| ==> cs[1..][i] == cs[i + 1];
      LongestShort(e, f, Take(ns, pos, cs[0]), pos, cs[1..]);
    }
  }

  // ---------------------------------------------------------------- the copies that are tried

  /** The cost of copying l bytes with the last-distance code j. */
  function LastCost(m: Model, insert: nat, j: nat, l: nat, base: real): real {
    var copyCode := m.copyCode(l);
    var commandCode := m.combine(m.insertCode(insert), copyCode, j == 0);
    (if commandCode < 128 then base else base + m.distance(j)) + m.copyExtra(copyCode) + m.command(commandCode)
  }

  predicate InRange(c: Cache) {
    forall k :: 0 <= k < 4 ==> 0 <= c[k] < 0x8000_0000
  }

  lemma {:induction false} CacheBounded(e: Env, f: seq<Node>, i: nat)
    requires Distances.Sane(e.cache)
    ensures InRange(CacheAt(e, f, i))
    decreases i
  {
    if Inner(f, i) && CopyLength(f[i]) <= e.start + i {
      CacheBounded(e, f, Prev(f, i));
    }
  }

  lemma LastBounded(c: Cache, j: nat)
    requires InRange(c) && j < 16
    ensures -4 < Decode(j, c) < 0x8000_0004
  {
    assert INDEX[j] < 4 && -4 < OFFSET[j] < 4;
  }

  /** The tests before a last distance is tried. */
  predicate Near(e: Env, cur: nat, back: int, bestLen: nat)
    requires cur + bestLen < |e.st.text|
  {
    0 < back && !InDictionary(back, cur, e.st.maxBackward) &&
    InRing(e, cur, bestLen) && InRing(e, cur - back, bestLen) &&
    e.st.text[cur + bestLen] == e.st.text[cur + bestLen - back]
  }

  /** The place of position i in a ring buffer of mask + 1 bytes. */
  function Masked(i: nat, mask: nat): nat {
    if i <= mask then i else Masked(i - mask - 1, mask)
  }

  /** n bytes after position i lie before the end of the ring buffer. */
  predicate InRing(e: Env, i: nat, n: nat) {
    Masked(i, e.ringMask) + n <= e.ringMask
  }

  lemma Wrapped(cur: nat, back: int)
    requires cur < 0x8000_0000_0000_0000 && -4 < back < 0x8000_0004
    ensures (cur - back) % SIZE_MAX < cur <==> 0 < back <= cur
    ensures 0 < back <= cur ==> (cur - back) % SIZE_MAX == cur - back && back % SIZE_MAX == back
  {
  }

  /** The tests before a last distance is tried, on 64-bit unsigned indices into a
      ring buffer that holds the text. */
  method IsNear(e: Env, cur: nat, back: int, bestLen: nat) returns (near: bool)
    requires cur + bestLen < |e.st.text| < 0x8000_0000_0000_0000 && -4 < back < 0x8000_0004
    ensures near <==> Near(e, cur, back, bestLen)
  {
    Wrapped(cur, back);
    var prev := (cur - back) % SIZE_MAX;
    if prev >= cur || back % SIZE_MAX > MinNat(cur, e.st.maxBackward) {
      near := false;
    } else {
      near := InRing(e, cur, bestLen) && InRing(e, prev, bestLen) &&
        e.st.text[cur + bestLen] == e.st.text[prev + bestLen];
    }
  }

  /** A match found by the hasher. */
  datatype Match = Match(distance: nat, len: nat, lenCode: nat)

  ghost predicate Plausible(e: Env, pos: nat, t: Match) {
    0 < t.distance < 0x200_0000 && pos + t.len <= e.numBytes && t.lenCode <= t.len + 9 < t.lenCode + 256 &&
    Copies(e.st, e.start + pos, t.distance, t.len, t.lenCode)
  }

  /** The cost of a copy with the length code at a distance. */
  function MatchCost(m: Model, insert: nat, distance: nat, lenCode: nat, base: real): real {
    var copyCode := m.copyCode(lenCode);
    base + m.distanceExtra(distance + SHORT_CODES - 1) + m.distance(m.distanceSymbol(distance + SHORT_CODES - 1)) +
    m.copyExtra(copyCode) + m.command(m.combine(m.insertCode(insert), copyCode, false))
  }

  predicate Word(e: Env, pos: nat, t: Match) { t.distance > MinNat(e.start + pos, e.st.maxBackward) }

  /** The length of the match at the last distance of code j, or 0 if the tests fail. */
  function LastLen(e: Env, pos: nat, pd: PosData, j: nat, best: nat): (n: nat)
    requires e.start + e.numBytes <= |e.st.text| && j < 16 && pos + best < e.numBytes
    ensures pos + n <= e.numBytes
  {
    var back := Decode(j, pd.cache);
    if Near(e, e.start + pos, back, best) then MatchLength(e.st.text, e.start + pos, back, e.numBytes - pos) else 0
  }

  /** What copies cost: with a last-distance code, and with a distance. */
  datatype Prices = Prices(last: (nat, nat, nat, real) -> real, far: (nat, nat, nat, real) -> real)

  function PricesOf(m: Model): Prices {
    Prices((insert: nat, j: nat, l: nat, base: real) => LastCost(m, insert, j, l, base),
           (insert: nat, distance: nat, code: nat, base: real) => MatchCost(m, insert, distance, code, base))
  }

  /** Copies of l to n bytes with last-distance code j. */
  function LastRun(pr: Prices, pos: nat, start: nat, j: nat, dist: nat, l: nat, n: nat, base: real): seq<Copy>
    requires start <= pos
    decreases n + 1 - l
  {
    if l > n then []
    else [Copy(start, l, l, dist, j + 1, pr.last(pos - start, j, l, base))] +
         LastRun(pr, pos, start, j, dist, l + 1, n, base)
  }

  /** What code j adds when copies up to 'best' bytes were tried before it. */
  function OfCode(e: Env, pr: Prices, pos: nat, pd: PosData, j: nat, best: nat, base: real): seq<Copy>
    requires e.start + e.numBytes <= |e.st.text| && j < 16 && pos + best < e.numBytes && pd.pos <= pos
  {
    var back := Decode(j, pd.cache);
    if back <= 0 then []
    else LastRun(pr, pos, pd.pos, j, back, best + 1, LastLen(e, pos, pd, j, best), base)
  }

  /** What each code adds and how long its match is, after copies of some length, with
      'room' bytes left in the block. */
  datatype Scan = Scan(code: (nat, nat) -> seq<Copy>, lens: (nat, nat) -> nat, room: nat)

  function ScanOf(e: Env, pr: Prices, pos: nat, pd: PosData, base: real): Scan
    requires e.start + e.numBytes <= |e.st.text| && pd.pos <= pos <= e.numBytes
  {
    Scan((j: nat, best: nat) => if j < 16 && pos + best < e.numBytes then OfCode(e, pr, pos, pd, j, best, base) else [],
         (j: nat, best: nat) => if j < 16 && pos + best < e.numBytes then LastLen(e, pos, pd, j, best) else 0,
         e.numBytes - pos)
  }

  ghost predicate Tells(e: Env, pr: Prices, pos: nat, pd: PosData, base: real, sc: Scan) {
    e.start + e.numBytes <= |e.st.text| && pd.pos <= pos && pos + sc.room == e.numBytes &&
    forall j, best {:trigger LastLen(e, pos, pd, j, best)} :: 0 <= j < 16 && 0 <= best < sc.room ==>
      sc.code(j, best) == OfCode(e, pr, pos, pd, j, best, base) && sc.lens(j, best) == LastLen(e, pos, pd, j, best)
  }

  lemma ScanTells(e: Env, pr: Prices, pos: nat, pd: PosData, base: real)
    requires e.start + e.numBytes <= |e.st.text| && pd.pos <= pos <= e.numBytes
    ensures Tells(e, pr, pos, pd, base, ScanOf(e, pr, pos, pd, base))
  {
  }

  /** The copies with the last distances from code j on. */
  function OfCodes(sc: Scan, j: nat, best: nat): seq<Copy>
    decreases 16 - j
  {
    if j >= 16 || best >= sc.room then [] else sc.code(j, best) + OfCodes(sc, j + 1, Max(best, sc.lens(j, best)))
  }

  function OfLast(e: Env, pr: Prices, pos: nat, pd: PosData, best: nat, base: real): seq<Copy>
    requires e.start + e.numBytes <= |e.st.text| && pd.pos <= pos <= e.numBytes
  {
    OfCodes(ScanOf(e, pr, pos, pd, base), 0, best)
  }

  function LenCode(e: Env, pos: nat, t: Match, l: nat): nat { if Word(e, pos, t) then t.lenCode else l }

  /** Copies of l bytes and more of a match. */
  function OfMatch(e: Env, pr: Prices, pos: nat, start: nat, t: Match, l: nat, base: real): seq<Copy>
    requires start <= pos
    decreases t.len + 1 - l
  {
    if l > t.len then []
    else [Copy(start, l, LenCode(e, pos, t, l), t.distance, 0,
               pr.far(pos - start, t.distance, LenCode(e, pos, t, l), base))] +
         OfMatch(e, pr, pos, start, t, l + 1, base)
  }

  /** A dictionary word and a very long match are tried as a whole only. */
  function FirstLen(e: Env, pos: nat, t: Match, len: nat): nat {
    if len < t.len && (Word(e, pos, t) || t.len > e.maxZopfliLen) then t.len else len
  }

  function NextLen(t: Match, len: nat): nat { if len <= t.len then t.len + 1 else len }

  /** The copies with the matches: each length from len on with the first that has it. */
  function OfMatches(e: Env, pr: Prices, pos: nat, start: nat, ts: seq<Match>, len: nat, base: real): seq<Copy>
    requires start <= pos
    decreases |ts|
  {
    if ts == [] then []
    else OfMatch(e, pr, pos, start, ts[0], FirstLen(e, pos, ts[0], len), base) +
         OfMatches(e, pr, pos, start, ts[1..], NextLen(ts[0], len), base)
  }

  /** The cost of a command from pd before its distance and its copy. */
  function BaseCost(m: Model, pos: nat, pd: PosData): real
    requires pd.pos <= pos
  {
    pd.costdiff + m.insertExtra(m.insertCode(pos - pd.pos)) + (m.literal(pos) - m.literal(0))
  }

  /** One command start: its last distances and perhaps the matches. */
  function OfStart(e: Env, pr: Prices, pos: nat, pd: PosData, ts: seq<Match>, minLen: nat, matches: bool, base: real)
    : seq<Copy>
    requires e.start + e.numBytes <= |e.st.text| && pd.pos <= pos <= e.numBytes && 0 < minLen
  {
    OfLast(e, pr, pos, pd, minLen - 1, base) +
    if matches then OfMatches(e, pr, pos, pd.pos, ts, minLen, base) else []
  }

  /** The copies from command start number k. */
  function FromOf(e: Env, m: Model, pos: nat, ps: seq<PosData>, ts: seq<Match>, minLen: nat): nat -> seq<Copy>
    requires e.start + e.numBytes <= |e.st.text| && pos <= e.numBytes && 0 < minLen
    requires forall i :: 0 <= i < |ps| ==> ps[i].pos <= pos
  {
    (k: nat) =>
      if k < |ps| then OfStart(e, PricesOf(m), pos, ps[k], ts, minLen, k < 2, BaseCost(m, pos, ps[k])) else []
  }

  function Chained(from: nat -> seq<Copy>, k: nat, n: nat): seq<Copy>
    decreases n - k
  {
    if k >= n then [] else from(k) + Chained(from, k + 1, n)
  }

  /** All copies tried at pos: from the first maxIters command starts, and with the matches
      from the first two of them. */
  function Tried(e: Env, m: Model, pos: nat, ps: seq<PosData>, ts: seq<Match>, minLen: nat): seq<Copy>
    requires e.start + e.numBytes <= |e.st.text| && pos <= e.numBytes && 0 < minLen
    requires forall i :: 0 <= i < |ps| ==> ps[i].pos <= pos
  {
    Chained(FromOf(e, m, pos, ps, ts, minLen), 0, MinNat(e.maxIters, |ps|))
  }

  // ---------------------------------------------------------------- all of them are right

  lemma FineBoth(e: Env, f: seq<Node>, pos: nat, a: seq<Copy>, b: seq<Copy>, both: seq<Copy>)
    requires AllFine(e, f, pos, a) && AllFine(e, f, pos, b) && both == a + b
    ensures AllFine(e, f, pos, both)
  {
  }

  lemma FineIf(e: Env, f: seq<Node>, pos: nat, a: seq<Copy>, b: seq<Copy>, more: bool)
    requires AllFine(e, f, pos, a) && AllFine(e, f, pos, b)
    ensures AllFine(e, f, pos, a + if more then b else [])
  {
  }

  lemma {:induction false} LastRunFine(e: Env, f: seq<Node>, pr: Prices, pos: nat, pd: PosData, j: nat, dist: nat,
                                       l: nat, n: nat, base: real)
    requires Startable(e, f, pd) && pos + 1 == |f| && j < 16 && 2 <= l && pos + n <= e.numBytes && 0 < dist < 0x200_0000
    requires Decode(j, pd.cache) == dist && !InDictionary(dist, e.start + pos, e.st.maxBackward)
    requires Copies(e.st, e.start + pos, dist, n, n)
    ensures AllFine(e, f, pos, LastRun(pr, pos, pd.pos, j, dist, l, n, base))
    decreases n + 1 - l
  {
    if l <= n {
      LastRunFine(e, f, pr, pos, pd, j, dist, l + 1, n, base);
      var c := Copy(pd.pos, l, l, dist, j + 1, pr.last(pos - pd.pos, j, l, base));
      assert Fine(e, f, pos, c);
      FineBoth(e, f, pos, [c], LastRun(pr, pos, pd.pos, j, dist, l + 1, n, base),
               LastRun(pr, pos, pd.pos, j, dist, l, n, base));
    }
  }

  lemma OfCodeFine(e: Env, f: seq<Node>, pr: Prices, pos: nat, pd: PosData, j: nat, best: nat, base: real)
    requires Sound(e) && Startable(e, f, pd) && pos + 1 == |f| && j < 16 && 0 < best && pos + best < e.numBytes
    requires e.st.maxBackward < 0x200_0000
    ensures AllFine(e, f, pos, OfCode(e, pr, pos, pd, j, best, base))
  {
    var back, n := Decode(j, pd.cache), LastLen(e, pos, pd, j, best);
    if back > 0 && n > best {
      MatchCopies(e.st, e.start + pos, back, e.numBytes - pos);
      LastRunFine(e, f, pr, pos, pd, j, back, best + 1, n, base);
    }
  }

  lemma {:induction false} OfCodesFine(e: Env, f: seq<Node>, pos: nat, sc: Scan, j: nat, best: nat)
    requires 0 < best && forall j: nat, best: nat :: 0 < best ==> AllFine(e, f, pos, sc.code(j, best))
    ensures AllFine(e, f, pos, OfCodes(sc, j, best))
    decreases 16 - j
  {
    if j < 16 && best < sc.room {
      var next := Max(best, sc.lens(j, best));
      OfCodesFine(e, f, pos, sc, j + 1, next);
      FineBoth(e, f, pos, sc.code(j, best), OfCodes(sc, j + 1, next), OfCodes(sc, j, best));
    }
  }

  lemma OfLastFine(e: Env, f: seq<Node>, pr: Prices, pos: nat, pd: PosData, best: nat, base: real)
    requires Sound(e) && Startable(e, f, pd) && pos + 1 == |f| && pos < e.numBytes && 0 < best
    requires e.st.maxBackward < 0x200_0000
    ensures AllFine(e, f, pos, OfLast(e, pr, pos, pd, best, base))
  {
    var sc := ScanOf(e, pr, pos, pd, base);
    forall j: nat, best: nat | 0 < best
      ensures AllFine(e, f, pos, sc.code(j, best))
    {
      if j < 16 && pos + best < e.numBytes {
        OfCodeFine(e, f, pr, pos, pd, j, best, base);
      }
    }
    OfCodesFine(e, f, pos, sc, 0, best);
  }

  lemma {:induction false} OfMatchFine(e: Env, f: seq<Node>, pr: Prices, pos: nat, pd: PosData, t: Match, l: nat,
                                       base: real)
    requires Startable(e, f, pd) && pos + 1 == |f| && Plausible(e, pos, t) && 2 <= l && (Word(e, pos, t) ==> l >= t.len)
    ensures AllFine(e, f, pos, OfMatch(e, pr, pos, pd.pos, t, l, base))
    decreases t.len + 1 - l
  {
    if l <= t.len {
      OfMatchFine(e, f, pr, pos, pd, t, l + 1, base);
      var code := LenCode(e, pos, t, l);
      var c := Copy(pd.pos, l, code, t.distance, 0, pr.far(pos - pd.pos, t.distance, code, base));
      assert Fine(e, f, pos, c);
      FineBoth(e, f, pos, [c], OfMatch(e, pr, pos, pd.pos, t, l + 1, base), OfMatch(e, pr, pos, pd.pos, t, l, base));
    }
  }

  lemma {:induction false} OfMatchesFine(e: Env, f: seq<Node>, pr: Prices, pos: nat, pd: PosData, ts: seq<Match>,
                                         len: nat, base: real)
    requires Startable(e, f, pd) && pos + 1 == |f| && 2 <= len && forall j :: 0 <= j < |ts| ==> Plausible(e, pos, ts[j])
    ensures AllFine(e, f, pos, OfMatches(e, pr, pos, pd.pos, ts, len, base))
    decreases |ts|
  {
    if ts != [] {
      var first := OfMatch(e, pr, pos, pd.pos, ts[0], FirstLen(e, pos, ts[0], len), base);
      OfMatchFine(e, f, pr, pos, pd, ts[0], FirstLen(e, pos, ts[0], len), base);
      OfMatchesFine(e, f, pr, pos, pd, ts[1..], NextLen(ts[0], len), base);
      FineBoth(e, f, pos, first, OfMatches(e, pr, pos, pd.pos, ts[1..], NextLen(ts[0], len), base),
               OfMatches(e, pr, pos, pd.pos, ts, len, base));
    }
  }

  lemma OfStartFine(e: Env, f: seq<Node>, pr: Prices, pos: nat, pd: PosData, ts: seq<Match>, minLen: nat, matches: bool,
                    base: real)
    requires Sound(e) && Startable(e, f, pd) && pos + 1 == |f| && pos < e.numBytes && 2 <= minLen
    requires e.st.maxBackward < 0x200_0000
    requires forall j :: 0 <= j < |ts| ==> Plausible(e, pos, ts[j])
    ensures AllFine(e, f, pos, OfStart(e, pr, pos, pd, ts, minLen, matches, base))
  {
    OfLastFine(e, f, pr, pos, pd, minLen - 1, base);
    OfMatchesFine(e, f, pr, pos, pd, ts, minLen, base);
    FineIf(e, f, pos, OfLast(e, pr, pos, pd, minLen - 1, base), OfMatches(e, pr, pos, pd.pos, ts, minLen, base),
           matches);
  }

  lemma {:induction false} ChainedFine(e: Env, f: seq<Node>, pos: nat, from: nat -> seq<Copy>, k: nat, n: nat)
    requires forall k: nat :: k < n ==> AllFine(e, f, pos, from(k))
    ensures AllFine(e, f, pos, Chained(from, k, n))
    decreases n - k
  {
    if k < n {
      ChainedFine(e, f, pos, from, k + 1, n);
      FineBoth(e, f, pos, from(k), Chained(from, k + 1, n), Chained(from, k, n));
    }
  }

  /** Every copy tried is a true one. */
  lemma TriedFine(e: Env, f: seq<Node>, m: Model, pos: nat, ps: seq<PosData>, ts: seq<Match>, minLen: nat)
    requires Sound(e) && AllStartable(e, f, ps) && pos + 1 == |f| && pos < e.numBytes && 2 <= minLen
    requires e.st.maxBackward < 0x200_0000 && forall j :: 0 <= j < |ts| ==> Plausible(e, pos, ts[j])
    ensures forall i :: 0 <= i < |ps| ==> ps[i].pos <= pos
    ensures AllFine(e, f, pos, Tried(e, m, pos, ps, ts, minLen))
  {
    assert forall i :: 0 <= i < |ps| ==> Startable(e, f, ps[i]);
    var from := FromOf(e, m, pos, ps, ts, minLen);
    forall k: nat | k < |ps|
      ensures AllFine(e, f, pos, from(k))
    {
      OfStartFine(e, f, PricesOf(m), pos, ps[k], ts, minLen, k < 2, BaseCost(m, pos, ps[k]));
    }
    ChainedFine(e, f, pos, from, 0, MinNat(e.maxIters, |ps|));
  }
}
