/** Merging of histograms, best pair first (contrib/brotli/enc/cluster_inc.h). */
module Cluster {
  import opened Common

  /** The counts of a histogram are a multiset of symbols. */
  datatype Histogram = Histogram(data: multiset<nat>, total: nat, bitCost: real)

  /** A pair of clusters, the cost of the merged histogram, and what merging saves
      when negative. */
  datatype Pair = Pair(idx1: nat, idx2: nat, combo: real, diff: real)

  /** ClusterCostDiff and BrotliPopulationCost: any functions. */
  datatype Costs = Costs(clusterDiff: (nat, nat) -> real, population: (multiset<nat>, nat) -> real)

  /** HistogramPairIsLess. */
  predicate Less(p: Pair, q: Pair) {
    if p.diff != q.diff then p.diff > q.diff else p.idx2 - p.idx1 > q.idx2 - q.idx1
  }

  function Combo(k: Costs, a: Histogram, b: Histogram): real {
    if a.total == 0 then b.bitCost
    else if b.total == 0 then a.bitCost
    else k.population(a.data + b.data, a.total + b.total)
  }

  function Diff(k: Costs, a: Histogram, sizeA: nat, b: Histogram, sizeB: nat): real {
    0.5 * k.clusterDiff(sizeA, sizeB) - a.bitCost - b.bitCost + Combo(k, a, b)
  }

  /** The histogram of two merged clusters. */
  function Merge(k: Costs, a: Histogram, b: Histogram): Histogram {
    Histogram(a.data + b.data, a.total + b.total, Combo(k, a, b))
  }

  /** The pair (i, j) as it costs now. */
  function PairOf(k: Costs, o: seq<Histogram>, sz: seq<nat>, i: nat, j: nat): Pair
    requires i < |o| == |sz| && j < |o|
  {
    Pair(i, j, Combo(k, o[i], o[j]), Diff(k, o[i], sz[i], o[j], sz[j]))
  }

  /** A queued pair joins two live clusters and its costs are up to date. */
  ghost predicate Current(k: Costs, o: seq<Histogram>, sz: seq<nat>, live: set<nat>, p: Pair) {
    p.idx1 < p.idx2 < |o| == |sz| && p.idx1 in live && p.idx2 in live && p == PairOf(k, o, sz, p.idx1, p.idx2)
  }

  /** A pair saves at least as much as another, and is the closer one if they save the same. */
  predicate AtLeast(p: Pair, q: Pair) {
    p.diff < q.diff || (p.diff == q.diff && p.idx2 - p.idx1 <= q.idx2 - q.idx1)
  }

  /** The best pair is first. */
  ghost predicate Topped(q: seq<Pair>) {
    forall i :: 0 <= i < |q| ==> AtLeast(q[0], q[i])
  }

  ghost predicate Queue(k: Costs, o: seq<Histogram>, sz: seq<nat>, live: set<nat>, q: seq<Pair>) {
    Topped(q) && forall i :: 0 <= i < |q| ==> Current(k, o, sz, live, q[i])
  }

  /** Whether CompareAndPushToQueue takes the pair (i, j), i < j, into a queue. */
  predicate Wanted(k: Costs, o: seq<Histogram>, sz: seq<nat>, i: nat, j: nat, q: seq<Pair>)
    requires i < |o| == |sz| && j < |o|
  {
    o[i].total == 0 || o[j].total == 0 ||
    PairOf(k, o, sz, i, j).diff < if q == [] then HUGE else if q[0].diff > 0.0 then q[0].diff else 0.0
  }

  /** The queue after p is taken: a better pair becomes the first. */
  function Offer(q: seq<Pair>, p: Pair, maxPairs: nat): seq<Pair> {
    if q != [] && Less(q[0], p) then [p] + q[1..] + if |q| < maxPairs then [q[0]] else []
    else if |q| < maxPairs then q + [p]
    else q
  }

  lemma OfferQueue(k: Costs, o: seq<Histogram>, sz: seq<nat>, live: set<nat>, q: seq<Pair>, p: Pair, maxPairs: nat)
    requires Queue(k, o, sz, live, q) && Current(k, o, sz, live, p)
    ensures Queue(k, o, sz, live, Offer(q, p, maxPairs))
  {
    var r := Offer(q, p, maxPairs);
    forall i | 0 <= i < |r|
      ensures (r[i] == p || r[i] in q) && AtLeast(r[0], r[i])
    {
    }
  }

  // ---------------------------------------------------------------- which pairs are queued

  function Ordered(a: nat, b: nat): (nat, nat) { if a < b then (a, b) else (b, a) }

  /** No two queued pairs join the same clusters. */
  ghost predicate NoTwice(q: seq<Pair>) {
    forall i, j :: 0 <= i < j < |q| ==> (q[i].idx1, q[i].idx2) != (q[j].idx1, q[j].idx2)
  }

  /** Of the pairs offered, each is queued at most once, and those that save are queued
      if the queue never was too full. */
  ghost predicate Tracked(k: Costs, o: seq<Histogram>, sz: seq<nat>, q: seq<Pair>, offered: set<(nat, nat)>,
                          room: bool)
  {
    |o| == |sz| && NoTwice(q) && (forall p :: p in q ==> (p.idx1, p.idx2) in offered) &&
    (forall x :: x in offered ==> x.0 < x.1 < |o|) &&
    (room ==> forall x :: x in offered && PairOf(k, o, sz, x.0, x.1).diff < 0.0 ==> PairOf(k, o, sz, x.0, x.1) in q)
  }

  /** The pair is wanted and the queue has no place for it. */
  predicate Overflows(k: Costs, o: seq<Histogram>, sz: seq<nat>, i: nat, j: nat, q: seq<Pair>, maxPairs: nat)
    requires i < |o| == |sz| && j < |o|
  {
    Wanted(k, o, sz, i, j, q) && |q| >= maxPairs
  }

  /** The queue after the pair (i, j) is offered. */
  function Offered(k: Costs, o: seq<Histogram>, sz: seq<nat>, i: nat, j: nat, q: seq<Pair>, maxPairs: nat): seq<Pair>
    requires i < |o| == |sz| && j < |o|
  {
    if Wanted(k, o, sz, i, j, q) then Offer(q, PairOf(k, o, sz, i, j), maxPairs) else q
  }

  lemma OfferHas(q: seq<Pair>, p: Pair, maxPairs: nat)
    ensures forall x :: x in Offer(q, p, maxPairs) ==> x == p || x in q
    ensures |q| < maxPairs ==> forall x :: x == p || x in q ==> x in Offer(q, p, maxPairs)
  {
    if q != [] {
      assert q == [q[0]] + q[1..];
    }
  }

  lemma OfferOnce(q: seq<Pair>, p: Pair, maxPairs: nat)
    requires NoTwice(q) && forall x :: x in q ==> (x.idx1, x.idx2) != (p.idx1, p.idx2)
    ensures NoTwice(Offer(q, p, maxPairs))
  {
  }

  lemma OfferTracked(k: Costs, o: seq<Histogram>, sz: seq<nat>, q: seq<Pair>, offered: set<(nat, nat)>, room: bool,
                     i: nat, j: nat, maxPairs: nat)
    requires Tracked(k, o, sz, q, offered, room) && i < j < |o| && (i, j) !in offered
    ensures Tracked(k, o, sz, Offered(k, o, sz, i, j, q, maxPairs), offered + {(i, j)},
                    room && !Overflows(k, o, sz, i, j, q, maxPairs))
  {
    OfferHas(q, PairOf(k, o, sz, i, j), maxPairs);
    OfferOnce(q, PairOf(k, o, sz, i, j), maxPairs);
  }

  /** The queue after the pair of a and c is offered, unless they are the same. */
  function PushOne(k: Costs, o: seq<Histogram>, sz: seq<nat>, a: nat, c: nat, q: seq<Pair>, maxPairs: nat): seq<Pair>
    requires a < |o| == |sz| && c < |o|
  {
    if a == c then q else Offered(k, o, sz, Ordered(a, c).0, Ordered(a, c).1, q, maxPairs)
  }

  lemma PushOneQueue(k: Costs, o: seq<Histogram>, sz: seq<nat>, live: set<nat>, a: nat, c: nat, q: seq<Pair>,
                     maxPairs: nat)
    requires a < |o| == |sz| && c < |o| && a in live && c in live && Queue(k, o, sz, live, q) && |q| <= maxPairs
    ensures Queue(k, o, sz, live, PushOne(k, o, sz, a, c, q, maxPairs))
    ensures |q| <= |PushOne(k, o, sz, a, c, q, maxPairs)| <= maxPairs
    ensures var (i, j) := Ordered(a, c);
      a != c && 0 < maxPairs && PairOf(k, o, sz, i, j).diff < HUGE ==> PushOne(k, o, sz, a, c, q, maxPairs) != []
  {
    if a != c {
      var (i, j) := Ordered(a, c);
      OfferQueue(k, o, sz, live, q, PairOf(k, o, sz, i, j), maxPairs);
    }
  }

  /** CompareAndPushToQueue. */
  method CompareAndPushToQueue(k: Costs, out: array<Histogram>, size: array<nat>, a: nat, b: nat, maxPairs: nat,
                               pairs: array<Pair>, n0: nat)
    returns (n: nat)
    requires a < out.Length == size.Length && b < out.Length && n0 <= maxPairs <= pairs.Length
    modifies pairs
    ensures n <= maxPairs && pairs[..n] == PushOne(k, out[..], size[..], a, b, old(pairs[..n0]), maxPairs)
  {
    n := n0;
    if a == b {
      return;
    }
    ghost var q := pairs[..n0];
    var i, j := if a < b then a else b, if a < b then b else a;
    var base := 0.5 * k.clusterDiff(size[i], size[j]) - out[i].bitCost - out[j].bitCost;
    var combo, good := Combo(k, out[i], out[j]), true;
    if out[i].total != 0 && out[j].total != 0 {
      var threshold := if n0 == 0 then HUGE else if pairs[0].diff > 0.0 then pairs[0].diff else 0.0;
      good := combo < threshold - base;
    }
    if good {
      var p := Pair(i, j, combo, base + combo);
      assert p == PairOf(k, out[..], size[..], i, j);
      n := Put(p, maxPairs, pairs, n0);
    }
  }

  method Put(p: Pair, maxPairs: nat, pairs: array<Pair>, n0: nat) returns (n: nat)
    requires n0 <= maxPairs <= pairs.Length
    modifies pairs
    ensures n <= maxPairs && pairs[..n] == Offer(old(pairs[..n0]), p, maxPairs)
  {
    n := n0;
    if n > 0 && Less(pairs[0], p) {
      if n < maxPairs {
        pairs[n] := pairs[0];
        n := n + 1;
      }
      pairs[0] := p;
    } else if n < maxPairs {
      pairs[n] := p;
      n := n + 1;
    }
  }

  predicate Touches(p: Pair, a: nat, b: nat) {
    p.idx1 == a || p.idx2 == a || p.idx1 == b || p.idx2 == b
  }

  /** One pair more: a better one becomes the first. */
  function Kept(r: seq<Pair>, p: Pair): seq<Pair> {
    if r != [] && Less(r[0], p) then [p] + r[1..] + [r[0]] else r + [p]
  }

  /** The pairs of q that touch neither a nor b, in the order the compaction leaves. */
  function Untouched(q: seq<Pair>, a: nat, b: nat): (r: seq<Pair>)
    ensures |r| <= |q|
  {
    if q == [] then []
    else
      var r, p := Untouched(q[..|q| - 1], a, b), q[|q| - 1];
      if Touches(p, a, b) then r else Kept(r, p)
  }

  /** The compaction loses and adds nothing else, and keeps the best pair first. */
  lemma {:induction false} UntouchedKeeps(q: seq<Pair>, a: nat, b: nat)
    ensures Topped(Untouched(q, a, b))
    ensures forall p :: p in Untouched(q, a, b) <==> p in q && !Touches(p, a, b)
    decreases |q|
  {
    if q != [] {
      var r0, p := Untouched(q[..|q| - 1], a, b), q[|q| - 1];
      UntouchedKeeps(q[..|q| - 1], a, b);
      assert q == q[..|q| - 1] + [p];
      if !Touches(p, a, b) && r0 != [] && Less(r0[0], p) {
        assert r0 == [r0[0]] + r0[1..];
        assert forall x :: x in r0 <==> x == r0[0] || x in r0[1..];
      }
    }
  }

  lemma UntouchedNext(q: seq<Pair>, i: nat, a: nat, b: nat)
    requires i < |q|
    ensures var r, p := Untouched(q[..i], a, b), q[i];
      Untouched(q[..i + 1], a, b) == if Touches(p, a, b) then r else Kept(r, p)
  {
    assert q[..i + 1][..i] == q[..i];
  }

  method Keep(p: Pair, pairs: array<Pair>, n: nat)
    requires n < pairs.Length && (n == 0 ==> !Less(pairs[0], p))
    modifies pairs
    ensures pairs[..n + 1] == Kept(old(pairs[..n]), p)
    ensures forall j :: n < j < pairs.Length ==> pairs[j] == old(pairs[j])
  {
    if Less(pairs[0], p) {
      var front := pairs[0];
      pairs[0] := p;
      pairs[n] := front;
    } else {
      pairs[n] := p;
    }
  }

  /** Removes the pairs that touch the two clusters just merged.  The first pair is
      one of them and is the best, so the comparison with a first entry that is not
      yet overwritten moves nothing. */
  method RemovePairs(pairs: array<Pair>, n0: nat, a: nat, b: nat) returns (n: nat)
    requires 0 < n0 <= pairs.Length && Topped(pairs[..n0]) && Touches(pairs[0], a, b)
    modifies pairs
    ensures n <= n0 && pairs[..n] == Untouched(old(pairs[..n0]), a, b)
  {
    ghost var q := pairs[..n0];
    n := 0;
    var i := 0;
    while i < n0
      invariant 0 <= n <= i <= n0 && (i > 0 ==> n < i)
      invariant pairs[..n] == Untouched(q[..i], a, b)
      invariant forall j :: i <= j < n0 ==> pairs[j] == q[j]
      invariant n == 0 ==> pairs[0] == q[0]
    {
      var p := pairs[i];
      UntouchedNext(q, i, a, b);
      if !Touches(p, a, b) {
        assert AtLeast(q[0], q[i]);
        Keep(p, pairs, n);
        n := n + 1;
      }
      i := i + 1;
    }
    assert q[..n0] == q;
  }
}
