/** BrotliHistogramCombine: which clusters have been merged into which, and the loop
    (contrib/brotli/enc/cluster_inc.h). */
module ClusterCombine {
  import opened Common
  import opened Cluster

  /** s with every b replaced by a. */
  function Redirect(s: seq<nat>, b: nat, a: nat): (r: seq<nat>)
    ensures |r| == |s|
  {
    seq(|s|, i requires 0 <= i < |s| => if s[i] == b then a else s[i])
  }

  /** How a cluster came about: a cluster of the start, or two clusters merged. */
  datatype Tree = Leaf(x: nat) | Join(l: Tree, r: Tree)

  ghost function Leaves(t: Tree): set<nat> {
    match t
    case Leaf(x) => {x}
    case Join(l, r) => Leaves(l) + Leaves(r)
  }

  /** No cluster of the start is counted twice. */
  ghost predicate Once(t: Tree) {
    match t
    case Leaf(x) => true
    case Join(l, r) => Once(l) && Once(r) && Leaves(l) !! Leaves(r)
  }

  /** The state before any merge, which nothing changes. */
  datatype Start = Start(k: Costs, init: seq<Histogram>, size: seq<nat>, from: set<nat>)

  /** The sum of the histograms and sizes at the leaves. */
  function Sum(st: Start, t: Tree): (Histogram, nat)
    requires |st.init| == |st.size|
  {
    match t
    case Leaf(x) => if x < |st.init| then (st.init[x], st.size[x]) else (Histogram(multiset{}, 0, 0.0), 0)
    case Join(l, r) => (Merge(st.k, Sum(st, l).0, Sum(st, r).0), Sum(st, l).1 + Sum(st, r).1)
  }

  ghost predicate Disjoint(t: Tree, u: Tree) { Leaves(t) !! Leaves(u) }

  /** Merging any two of the clusters that can come up costs less than 1e99. */
  ghost predicate Affordable(st: Start)
    requires |st.init| == |st.size|
  {
    forall t, u {:trigger Disjoint(t, u)} ::
      Leaves(t) <= st.from && Leaves(u) <= st.from && Once(t) && Once(u) && Disjoint(t, u) ==>
      Diff(st.k, Sum(st, t).0, Sum(st, t).1, Sum(st, u).0, Sum(st, u).1) < HUGE
  }

  ghost predicate Usable(st: Start) {
    |st.init| == |st.size| && (forall x :: x in st.from ==> x < |st.init|) && Affordable(st)
  }

  function Set(cl: seq<nat>): set<nat> { set c | c in cl }

  /** The clusters of the start that went to c. */
  ghost function Owned(st: Start, owner: seq<nat>, c: nat): set<nat> {
    set x | x in st.from && x < |owner| && owner[x] == c
  }

  /** Cluster c is the sum of exactly the clusters merged into it, each once. */
  ghost predicate Whole(st: Start, owner: seq<nat>, h: Histogram, s: nat, c: nat)
    requires |st.init| == |st.size|
  {
    exists t :: Once(t) && Leaves(t) == Owned(st, owner, c) && Sum(st, t) == (h, s)
  }

  ghost predicate Clustering(st: Start, owner: seq<nat>, o: seq<Histogram>, sz: seq<nat>, live: set<nat>) {
    |st.init| == |st.size| == |owner| == |o| == |sz| && live <= st.from &&
    (forall c :: c in live ==> c < |o| && owner[c] == c && Whole(st, owner, o[c], sz[c], c)) &&
    (forall x :: 0 <= x < |o| ==>
      if x in st.from then owner[x] in live else owner[x] == x && o[x] == st.init[x] && sz[x] == st.size[x])
  }

  lemma Starts(st: Start)
    requires Usable(st)
    ensures Clustering(st, Identity(|st.init|), st.init, st.size, st.from)
  {
    var owner := Identity(|st.init|);
    forall c | c in st.from
      ensures Whole(st, owner, st.init[c], st.size[c], c)
    {
      assert Owned(st, owner, c) == {c};
      assert Once(Leaf(c)) && Leaves(Leaf(c)) == {c} && Sum(st, Leaf(c)) == (st.init[c], st.size[c]);
    }
  }

  /** Two live clusters are affordable. */
  lemma LiveAffordable(st: Start, owner: seq<nat>, o: seq<Histogram>, sz: seq<nat>, live: set<nat>, a: nat, b: nat)
    requires Usable(st) && Clustering(st, owner, o, sz, live) && a in live && b in live && a != b
    ensures Diff(st.k, o[a], sz[a], o[b], sz[b]) < HUGE
  {
    var t :| Once(t) && Leaves(t) == Owned(st, owner, a) && Sum(st, t) == (o[a], sz[a]);
    var u :| Once(u) && Leaves(u) == Owned(st, owner, b) && Sum(st, u) == (o[b], sz[b]);
    assert Disjoint(t, u);
  }

  ghost predicate Cheap(k: Costs, o: seq<Histogram>, sz: seq<nat>, live: set<nat>) {
    |o| == |sz| && (forall c :: c in live ==> c < |o|) &&
    forall a, b :: a in live && b in live && a != b ==> Diff(k, o[a], sz[a], o[b], sz[b]) < HUGE
  }

  lemma LiveCheap(k: Costs, st: Start, owner: seq<nat>, o: seq<Histogram>, sz: seq<nat>, live: set<nat>)
    requires Usable(st) && Clustering(st, owner, o, sz, live) && st.k == k
    ensures Cheap(k, o, sz, live)
  {
    forall a, b | a in live && b in live && a != b
      ensures Diff(k, o[a], sz[a], o[b], sz[b]) < HUGE
    {
      LiveAffordable(st, owner, o, sz, live, a, b);
    }
  }

  lemma WholeTogether(st: Start, owner: seq<nat>, h: Histogram, s: nat, a: nat, h': Histogram, s': nat, b: nat)
    requires |st.init| == |st.size| && a != b && Whole(st, owner, h, s, a) && Whole(st, owner, h', s', b)
    ensures Whole(st, Redirect(owner, b, a), Merge(st.k, h, h'), s + s', a)
  {
    var t :| Once(t) && Leaves(t) == Owned(st, owner, a) && Sum(st, t) == (h, s);
    var u :| Once(u) && Leaves(u) == Owned(st, owner, b) && Sum(st, u) == (h', s');
    assert Owned(st, Redirect(owner, b, a), a) == Owned(st, owner, a) + Owned(st, owner, b);
    assert Once(Join(t, u)) && Sum(st, Join(t, u)) == (Merge(st.k, h, h'), s + s');
  }

  /** Merging b into a. */
  lemma Merges(st: Start, owner: seq<nat>, o: seq<Histogram>, sz: seq<nat>, live: set<nat>, a: nat, b: nat)
    requires Clustering(st, owner, o, sz, live) && a in live && b in live && a != b
    ensures Clustering(st, Redirect(owner, b, a), o[a := Merge(st.k, o[a], o[b])], sz[a := sz[a] + sz[b]], live - {b})
  {
    var owner' := Redirect(owner, b, a);
    WholeTogether(st, owner, o[a], sz[a], a, o[b], sz[b], b);
    forall c | c in live && c != b && c != a
      ensures Whole(st, owner', o[c], sz[c], c)
    {
      assert Owned(st, owner', c) == Owned(st, owner, c);
    }
  }

  /** The pairs left after the merge are still current. */
  lemma QueueMerges(k: Costs, o: seq<Histogram>, sz: seq<nat>, live: set<nat>, q: seq<Pair>, a: nat, b: nat)
    requires Queue(k, o, sz, live, q) && a < |o| == |sz| && b < |o|
    ensures Queue(k, o[a := Merge(k, o[a], o[b])], sz[a := sz[a] + sz[b]], live - {b}, Untouched(q, a, b))
  {
    UntouchedKeeps(q, a, b);
    var r := Untouched(q, a, b);
    forall i | 0 <= i < |r|
      ensures Current(k, o[a := Merge(k, o[a], o[b])], sz[a := sz[a] + sz[b]], live - {b}, r[i])
    {
      assert r[i] in q && !Touches(r[i], a, b);
    }
  }

  // ---------------------------------------------------------------- all pairs

  ghost function AllPairs(live: set<nat>): set<(nat, nat)> {
    set i, j | i in live && j in live && i < j :: (i, j)
  }

  /** The pairs of a with clusters of cl. */
  ghost function Row(a: nat, cl: seq<nat>): set<(nat, nat)> {
    set c | c in cl && c != a :: Ordered(a, c)
  }

  /** The pairs of the first i clusters with those behind them. */
  ghost function Rows(cl: seq<nat>, i: nat): set<(nat, nat)>
    requires i <= |cl|
  {
    set u, v | 0 <= u < i && u < v < |cl| :: Ordered(cl[u], cl[v])
  }

  ghost function Apart(s: set<(nat, nat)>, a: nat, b: nat): set<(nat, nat)> {
    set x | x in s && x.0 != a && x.0 != b && x.1 != a && x.1 != b
  }

  lemma RowIs(cl: seq<nat>, i: nat, x: (nat, nat)) returns (v: nat)
    requires Distinct(cl) && i < |cl| && x in Row(cl[i], cl[i + 1..])
    ensures i < v < |cl| && x == Ordered(cl[i], cl[v])
  {
    var c :| c in cl[i + 1..] && c != cl[i] && x == Ordered(cl[i], c);
    var w :| 0 <= w < |cl[i + 1..]| && cl[i + 1..][w] == c;
    v := i + 1 + w;
  }

  lemma RowsNext(cl: seq<nat>, i: nat)
    requires Distinct(cl) && i < |cl|
    ensures Rows(cl, i) !! Row(cl[i], cl[i + 1..])
    ensures Rows(cl, i + 1) == Rows(cl, i) + Row(cl[i], cl[i + 1..]) <= AllPairs(Set(cl))
  {
    forall x | x in Row(cl[i], cl[i + 1..])
      ensures x !in Rows(cl, i) && x in Rows(cl, i + 1)
    {
      var v := RowIs(cl, i, x);
    }
    forall x | x in Rows(cl, i + 1) && x !in Rows(cl, i)
      ensures x in Row(cl[i], cl[i + 1..])
    {
      var u, v :| 0 <= u < i + 1 && u < v < |cl| && x == Ordered(cl[u], cl[v]);
      assert cl[i + 1..][v - i - 1] == cl[v];
    }
  }

  lemma RowsAll(cl: seq<nat>)
    requires Distinct(cl)
    ensures Rows(cl, |cl|) == AllPairs(Set(cl))
  {
    forall x | x in AllPairs(Set(cl))
      ensures x in Rows(cl, |cl|)
    {
      var u :| 0 <= u < |cl| && cl[u] == x.0;
      var v :| 0 <= v < |cl| && cl[v] == x.1;
      assert x == if u < v then Ordered(cl[u], cl[v]) else Ordered(cl[v], cl[u]);
    }
  }

  lemma RowRest(live: set<nat>, cl: seq<nat>, a: nat, b: nat)
    requires a in live && b in live && a != b && Set(cl) == live - {b}
    ensures Apart(AllPairs(live), a, b) !! Row(a, cl)
    ensures Apart(AllPairs(live), a, b) + Row(a, cl) == AllPairs(live - {b})
  {
    forall x | x in AllPairs(live - {b}) && x !in Apart(AllPairs(live), a, b)
      ensures x in Row(a, cl)
    {
      var c := if x.0 == a then x.1 else x.0;
      assert c in Set(cl) && x == Ordered(a, c);
    }
    forall x | x in Row(a, cl)
      ensures x in AllPairs(live - {b}) && x !in Apart(AllPairs(live), a, b)
    {
      var c :| c in cl && c != a && x == Ordered(a, c);
      assert c in Set(cl) && a in live - {b};
    }
  }

  lemma {:induction false} SetSize(cl: seq<nat>)
    requires Distinct(cl)
    ensures |Set(cl)| == |cl|
    decreases |cl|
  {
    if cl != [] {
      var r, c := cl[..|cl| - 1], cl[|cl| - 1];
      SetSize(r);
      assert Set(cl) == Set(r) + {c} && c !in Set(r);
    }
  }

  lemma {:induction false} RowSize(a: nat, cl: seq<nat>)
    ensures |Row(a, cl)| <= |cl|
    decreases |cl|
  {
    if cl != [] {
      var r, c := cl[..|cl| - 1], cl[|cl| - 1];
      RowSize(a, r);
      assert cl == r + [c];
      if c != a {
        assert Row(a, cl) == Row(a, r) + {Ordered(a, c)};
      } else {
        assert Row(a, cl) == Row(a, r);
      }
    }
  }

  /** n - 1, n - 2, ... pairs in the first i rows of n clusters. */
  function Count(n: nat, i: nat): nat
    requires i <= n
  {
    if i == 0 then 0 else Count(n, i - 1) + (n - i)
  }

  lemma {:induction false} CountIs(n: nat, i: nat)
    requires i <= n
    ensures 2 * Count(n, i) == i * (2 * n - i - 1)
    decreases i
  {
    if i > 0 {
      CountIs(n, i - 1);
      assert i * (2 * n - i - 1) == (i - 1) * (2 * n - (i - 1) - 1) + 2 * (n - i);
    }
  }

  lemma UnionSize(a: set<(nat, nat)>, b: set<(nat, nat)>, c: set<(nat, nat)>)
    requires c == a + b
    ensures |c| <= |a| + |b|
  {
    assert |a + b| == |a| + |b| - |a * b|;
  }

  lemma NextSize(cl: seq<nat>, i: nat)
    requires Distinct(cl) && i < |cl|
    ensures |Rows(cl, i + 1)| <= |Rows(cl, i)| + (|cl| - i - 1)
  {
    RowsNext(cl, i);
    RowSize(cl[i], cl[i + 1..]);
    UnionSize(Rows(cl, i), Row(cl[i], cl[i + 1..]), Rows(cl, i + 1));
  }

  lemma {:induction false} RowsSize(cl: seq<nat>, i: nat)
    requires Distinct(cl) && i <= |cl|
    ensures |Rows(cl, i)| <= Count(|cl|, i)
    decreases i
  {
    if i == 0 {
      assert Rows(cl, 0) == {};
    } else {
      RowsSize(cl, i - 1);
      NextSize(cl, i - 1);
    }
  }

  /** n clusters have n (n - 1) / 2 pairs at most. */
  lemma PairCount(cl: seq<nat>)
    requires Distinct(cl)
    ensures |AllPairs(Set(cl))| <= |cl| * (|cl| - 1) / 2
  {
    RowsAll(cl);
    RowsSize(cl, |cl|);
    CountIs(|cl|, |cl|);
  }

  /** A queue is not longer than the set of pairs offered. */
  lemma {:induction false} OnceBound(q: seq<Pair>, offered: set<(nat, nat)>)
    requires NoTwice(q) && forall p :: p in q ==> (p.idx1, p.idx2) in offered
    ensures |q| <= |offered|
    decreases |q|
  {
    if q != [] {
      var r, p := q[..|q| - 1], q[|q| - 1];
      assert q == r + [p];
      forall x | x in r
        ensures (x.idx1, x.idx2) in offered - {(p.idx1, p.idx2)}
      {
        var i :| 0 <= i < |r| && r[i] == x;
        assert q[i] == x;
      }
      assert p in q;
      OnceBound(r, offered - {(p.idx1, p.idx2)});
    }
  }

  lemma {:induction false} UntouchedOnce(q: seq<Pair>, a: nat, b: nat)
    requires NoTwice(q)
    ensures NoTwice(Untouched(q, a, b))
    decreases |q|
  {
    if q != [] {
      var s, p := q[..|q| - 1], q[|q| - 1];
      UntouchedOnce(s, a, b);
      UntouchedKeeps(s, a, b);
      var r := Untouched(s, a, b);
      forall x | x in r
        ensures (x.idx1, x.idx2) != (p.idx1, p.idx2)
      {
        var i :| 0 <= i < |s| && s[i] == x;
        assert q[i] == x;
      }
    }
  }

  /** What is known of the pairs left after a merge. */
  lemma UntouchedTracked(k: Costs, o: seq<Histogram>, sz: seq<nat>, q: seq<Pair>, offered: set<(nat, nat)>, room: bool,
                         a: nat, b: nat)
    requires Tracked(k, o, sz, q, offered, room) && a < |o| && b < |o|
    ensures Tracked(k, o[a := Merge(k, o[a], o[b])], sz[a := sz[a] + sz[b]], Untouched(q, a, b), Apart(offered, a, b),
                    room)
  {
    UntouchedOnce(q, a, b);
    UntouchedKeeps(q, a, b);
    var o', sz' := o[a := Merge(k, o[a], o[b])], sz[a := sz[a] + sz[b]];
    forall x | x in Apart(offered, a, b)
      ensures PairOf(k, o', sz', x.0, x.1) == PairOf(k, o, sz, x.0, x.1)
    {
    }
  }

  predicate Distinct(cl: seq<nat>) {
    forall i, j :: 0 <= i < j < |cl| ==> cl[i] != cl[j]
  }

  /** Each symbol sent to the cluster that now owns its cluster. */
  function Renamed(sy: seq<nat>, owner: seq<nat>): (r: seq<nat>)
    requires forall i :: 0 <= i < |sy| ==> sy[i] < |owner|
    ensures |r| == |sy|
  {
    seq(|sy|, i requires 0 <= i < |sy| => owner[sy[i]])
  }

  method RenameSymbols(symbols: array<nat>, b: nat, a: nat)
    modifies symbols
    ensures symbols[..] == Redirect(old(symbols[..]), b, a)
  {
    var i := 0;
    while i < symbols.Length
      invariant 0 <= i <= symbols.Length
      invariant forall j :: 0 <= j < i ==> symbols[j] == if old(symbols[j]) == b then a else old(symbols[j])
      invariant forall j :: i <= j < symbols.Length ==> symbols[j] == old(symbols[j])
    {
      if symbols[i] == b {
        symbols[i] := a;
      }
      i := i + 1;
    }
  }

  method RemoveCluster(clusters: array<nat>, n: nat, b: nat)
    requires n <= clusters.Length && Distinct(clusters[..n]) && b in clusters[..n]
    modifies clusters
    ensures Distinct(clusters[..n - 1]) && Set(clusters[..n - 1]) == old(Set(clusters[..n])) - {b}
  {
    ghost var cl := clusters[..n];
    var i := 0;
    while i < n && clusters[i] != b
      invariant 0 <= i <= n && b !in cl[..i]
    {
      i := i + 1;
    }
    assert i < n;
    var j := i;
    while j + 1 < n
      invariant i <= j < n
      invariant forall h :: 0 <= h < i ==> clusters[h] == cl[h]
      invariant forall h :: i <= h < j ==> clusters[h] == cl[h + 1]
      invariant forall h :: j < h < n ==> clusters[h] == cl[h]
    {
      clusters[j] := clusters[j + 1];
      j := j + 1;
    }
    Removed(cl, i);
    assert clusters[..n - 1] == cl[..i] + cl[i + 1..];
  }

  lemma Removed(cl: seq<nat>, i: nat)
    requires i < |cl| && Distinct(cl)
    ensures Distinct(cl[..i] + cl[i + 1..]) && Set(cl[..i] + cl[i + 1..]) == Set(cl) - {cl[i]}
  {
    var r := cl[..i] + cl[i + 1..];
    forall h | 0 <= h < |r|
      ensures r[h] == cl[if h < i then h else h + 1]
    {
    }
    forall c | c in cl && c != cl[i]
      ensures c in r
    {
      var h :| 0 <= h < |cl| && cl[h] == c;
      assert r[if h < i then h else h - 1] == c;
    }
  }

  /** The queue after the pairs of a with the clusters cl are offered. */
  function Pushed(k: Costs, o: seq<Histogram>, sz: seq<nat>, a: nat, cl: seq<nat>, q: seq<Pair>, maxPairs: nat)
    : seq<Pair>
    requires a < |o| == |sz| && forall i :: 0 <= i < |cl| ==> cl[i] < |o|
  {
    if cl == [] then q
    else
      PushOne(k, o, sz, a, cl[|cl| - 1], Pushed(k, o, sz, a, cl[..|cl| - 1], q, maxPairs), maxPairs)
  }

  lemma PushedNext(k: Costs, o: seq<Histogram>, sz: seq<nat>, a: nat, cl: seq<nat>, i: nat, q: seq<Pair>,
                   maxPairs: nat)
    requires a < |o| == |sz| && (forall i :: 0 <= i < |cl| ==> cl[i] < |o|) && i < |cl|
    ensures Pushed(k, o, sz, a, cl[..i + 1], q, maxPairs) ==
            PushOne(k, o, sz, a, cl[i], Pushed(k, o, sz, a, cl[..i], q, maxPairs), maxPairs)
  {
    assert cl[..i + 1][..i] == cl[..i];
  }

  /** There was room for all of them that were wanted. */
  predicate Roomy(k: Costs, o: seq<Histogram>, sz: seq<nat>, a: nat, cl: seq<nat>, q: seq<Pair>, maxPairs: nat)
    requires a < |o| == |sz| && forall i :: 0 <= i < |cl| ==> cl[i] < |o|
  {
    cl == [] ||
    var q', c := Pushed(k, o, sz, a, cl[..|cl| - 1], q, maxPairs), cl[|cl| - 1];
    Roomy(k, o, sz, a, cl[..|cl| - 1], q, maxPairs) &&
    (a == c || !Overflows(k, o, sz, Ordered(a, c).0, Ordered(a, c).1, q', maxPairs))
  }

  lemma RowLast(a: nat, cl: seq<nat>)
    requires cl != [] && Distinct(cl)
    ensures var r, c := cl[..|cl| - 1], cl[|cl| - 1];
      if c == a then Row(a, cl) == Row(a, r)
      else Row(a, cl) == Row(a, r) + {Ordered(a, c)} && Ordered(a, c) !in Row(a, r)
  {
    assert cl == cl[..|cl| - 1] + [cl[|cl| - 1]];
  }

  lemma {:induction false} PushedTracked(k: Costs, o: seq<Histogram>, sz: seq<nat>, a: nat, cl: seq<nat>, q: seq<Pair>,
                                         maxPairs: nat, offered: set<(nat, nat)>, room: bool)
    requires a < |o| == |sz| && (forall i :: 0 <= i < |cl| ==> cl[i] < |o|) && Distinct(cl)
    requires Tracked(k, o, sz, q, offered, room) && offered !! Row(a, cl)
    ensures Tracked(k, o, sz, Pushed(k, o, sz, a, cl, q, maxPairs), offered + Row(a, cl),
                    room && Roomy(k, o, sz, a, cl, q, maxPairs))
    ensures |offered + Row(a, cl)| <= maxPairs ==> Roomy(k, o, sz, a, cl, q, maxPairs)
    decreases |cl|
  {
    if cl == [] {
      assert offered + Row(a, cl) == offered;
    } else {
      var r, c := cl[..|cl| - 1], cl[|cl| - 1];
      RowLast(a, cl);
      PushedTracked(k, o, sz, a, r, q, maxPairs, offered, room);
      if c != a {
        OneMore(k, o, sz, Pushed(k, o, sz, a, r, q, maxPairs), offered + Row(a, r),
                room && Roomy(k, o, sz, a, r, q, maxPairs), Ordered(a, c), maxPairs);
        assert offered + Row(a, r) + {Ordered(a, c)} == offered + Row(a, cl);
      }
    }
  }

  lemma OneMore(k: Costs, o: seq<Histogram>, sz: seq<nat>, q: seq<Pair>, offered: set<(nat, nat)>, room: bool,
                x: (nat, nat), maxPairs: nat)
    requires Tracked(k, o, sz, q, offered, room) && x.0 < x.1 < |o| && x !in offered
    ensures Tracked(k, o, sz, Offered(k, o, sz, x.0, x.1, q, maxPairs), offered + {x},
                    room && !Overflows(k, o, sz, x.0, x.1, q, maxPairs))
    ensures |offered + {x}| <= maxPairs ==> |offered| <= maxPairs && !Overflows(k, o, sz, x.0, x.1, q, maxPairs)
  {
    assert x == (x.0, x.1);
    OfferTracked(k, o, sz, q, offered, room, x.0, x.1, maxPairs);
    OnceBound(q, offered);
  }

  lemma {:induction false} Smaller(a: set<(nat, nat)>, b: set<(nat, nat)>)
    requires a <= b
    ensures |a| <= |b|
    decreases a
  {
    if x :| x in a {
      Smaller(a - {x}, b - {x});
    }
  }

  /** The queue after all pairs of the first i clusters with those behind them are offered. */
  function PushedRows(k: Costs, o: seq<Histogram>, sz: seq<nat>, cl: seq<nat>, i: nat, maxPairs: nat): seq<Pair>
    requires |o| == |sz| && (forall i :: 0 <= i < |cl| ==> cl[i] < |o|) && i <= |cl|
  {
    if i == 0 then []
    else Pushed(k, o, sz, cl[i - 1], cl[i..], PushedRows(k, o, sz, cl, i - 1, maxPairs), maxPairs)
  }

  lemma PushedRow(k: Costs, o: seq<Histogram>, sz: seq<nat>, cl: seq<nat>, i: nat, maxPairs: nat)
    requires |o| == |sz| && (forall i :: 0 <= i < |cl| ==> cl[i] < |o|) && i < |cl|
    ensures PushedRows(k, o, sz, cl, i + 1, maxPairs) ==
            Pushed(k, o, sz, cl[i], cl[i + 1..], PushedRows(k, o, sz, cl, i, maxPairs), maxPairs)
  {
  }

  predicate RoomyRows(k: Costs, o: seq<Histogram>, sz: seq<nat>, cl: seq<nat>, i: nat, maxPairs: nat)
    requires |o| == |sz| && (forall i :: 0 <= i < |cl| ==> cl[i] < |o|) && i <= |cl|
  {
    i == 0 ||
    (RoomyRows(k, o, sz, cl, i - 1, maxPairs) &&
     Roomy(k, o, sz, cl[i - 1], cl[i..], PushedRows(k, o, sz, cl, i - 1, maxPairs), maxPairs))
  }

  lemma {:induction false} RowsTracked(k: Costs, o: seq<Histogram>, sz: seq<nat>, cl: seq<nat>, i: nat, maxPairs: nat)
    requires |o| == |sz| && (forall i :: 0 <= i < |cl| ==> cl[i] < |o|) && i <= |cl| && Distinct(cl)
    ensures Tracked(k, o, sz, PushedRows(k, o, sz, cl, i, maxPairs), Rows(cl, i), RoomyRows(k, o, sz, cl, i, maxPairs))
    ensures |AllPairs(Set(cl))| <= maxPairs ==> RoomyRows(k, o, sz, cl, i, maxPairs)
    decreases i
  {
    if i == 0 {
      assert Rows(cl, 0) == {};
    } else {
      RowsTracked(k, o, sz, cl, i - 1, maxPairs);
      NextRow(k, o, sz, cl, i - 1, PushedRows(k, o, sz, cl, i - 1, maxPairs), maxPairs,
              RoomyRows(k, o, sz, cl, i - 1, maxPairs));
    }
  }

  lemma NextRow(k: Costs, o: seq<Histogram>, sz: seq<nat>, cl: seq<nat>, i: nat, q: seq<Pair>, maxPairs: nat,
                room: bool)
    requires |o| == |sz| && (forall i :: 0 <= i < |cl| ==> cl[i] < |o|) && i < |cl| && Distinct(cl)
    requires Tracked(k, o, sz, q, Rows(cl, i), room)
    ensures Tracked(k, o, sz, Pushed(k, o, sz, cl[i], cl[i + 1..], q, maxPairs), Rows(cl, i + 1),
                    room && Roomy(k, o, sz, cl[i], cl[i + 1..], q, maxPairs))
    ensures |AllPairs(Set(cl))| <= maxPairs ==> Roomy(k, o, sz, cl[i], cl[i + 1..], q, maxPairs)
  {
    RowsNext(cl, i);
    PushedTracked(k, o, sz, cl[i], cl[i + 1..], q, maxPairs, Rows(cl, i), room);
    Smaller(Rows(cl, i + 1), AllPairs(Set(cl)));
  }

  lemma {:induction false} PushedQueue(k: Costs, o: seq<Histogram>, sz: seq<nat>, live: set<nat>, a: nat, cl: seq<nat>,
                                       q: seq<Pair>, maxPairs: nat)
    requires Cheap(k, o, sz, live) && a in live && forall i :: 0 <= i < |cl| ==> cl[i] in live
    requires Queue(k, o, sz, live, q) && |q| <= maxPairs
    ensures var r := Pushed(k, o, sz, a, cl, q, maxPairs);
      Queue(k, o, sz, live, r) && |q| <= |r| <= maxPairs &&
      (r != [] || maxPairs == 0 || forall i :: 0 <= i < |cl| ==> cl[i] == a)
    decreases |cl|
  {
    if cl != [] {
      var r, c := cl[..|cl| - 1], cl[|cl| - 1];
      PushedQueue(k, o, sz, live, a, r, q, maxPairs);
      PushOneQueue(k, o, sz, live, a, c, Pushed(k, o, sz, a, r, q, maxPairs), maxPairs);
      assert forall i :: 0 <= i < |r| ==> cl[i] == r[i];
    }
  }

  lemma {:induction false} RowsQueue(k: Costs, o: seq<Histogram>, sz: seq<nat>, cl: seq<nat>, i: nat, maxPairs: nat)
    requires Cheap(k, o, sz, Set(cl)) && Distinct(cl) && i <= |cl|
    ensures forall j :: 0 <= j < |cl| ==> cl[j] in Set(cl)
    ensures var r := PushedRows(k, o, sz, cl, i, maxPairs);
      Queue(k, o, sz, Set(cl), r) && |r| <= maxPairs && (i > 0 && |cl| > 1 && 0 < maxPairs ==> r != [])
    decreases i
  {
    if i > 0 {
      RowsQueue(k, o, sz, cl, i - 1, maxPairs);
      PushedQueue(k, o, sz, Set(cl), cl[i - 1], cl[i..], PushedRows(k, o, sz, cl, i - 1, maxPairs), maxPairs);
      if i == 1 && |cl| > 1 {
        assert cl[1..][0] != cl[0];
      }
    }
  }

  /** Offers the pairs of cluster a with clusters[from..n]. */
  method ConsiderAll(k: Costs, out: array<Histogram>, size: array<nat>, a: nat, clusters: array<nat>, from: nat, n: nat,
                     maxPairs: nat, pairs: array<Pair>, np0: nat)
    returns (np: nat)
    requires a < out.Length == size.Length && from <= n <= clusters.Length && np0 <= maxPairs <= pairs.Length
    requires forall i :: 0 <= i < n - from ==> clusters[from..n][i] < out.Length
    modifies pairs
    ensures np <= maxPairs
    ensures pairs[..np] == Pushed(k, out[..], size[..], a, clusters[from..n], old(pairs[..np0]), maxPairs)
  {
    np := np0;
    ghost var cl, q, o, sz := clusters[from..n], pairs[..np0], out[..], size[..];
    ghost var cur, j: nat := q, 0;
    var i := from;
    while i < n
      invariant from <= i <= n && i == from + j && np <= maxPairs && out[..] == o && size[..] == sz
      invariant pairs[..np] == cur && cur == Pushed(k, o, sz, a, cl[..j], q, maxPairs)
    {
      PushedNext(k, o, sz, a, cl, j, q, maxPairs);
      assert clusters[i] == cl[j];
      np := CompareAndPushToQueue(k, out, size, a, clusters[i], maxPairs, pairs, np);
      cur, j := PushOne(k, o, sz, a, cl[j], cur, maxPairs), j + 1;
      i := i + 1;
    }
    assert cl[..j] == cl;
  }

  lemma RenamedRedirect(sy: seq<nat>, owner: seq<nat>, b: nat, a: nat)
    requires forall i :: 0 <= i < |sy| ==> sy[i] < |owner|
    ensures Renamed(sy, Redirect(owner, b, a)) == Redirect(Renamed(sy, owner), b, a)
  {
  }

  /** Adds histogram b to histogram a. */
  method Absorb(out: array<Histogram>, size: array<nat>, a: nat, b: nat, combo: real, ghost o: seq<Histogram>,
                ghost sz: seq<nat>)
    requires out[..] == o && size[..] == sz && a < |o| == |sz| && b < |o|
    modifies out, size
    ensures out[..] == o[a := Histogram(o[a].data + o[b].data, o[a].total + o[b].total, combo)]
    ensures size[..] == sz[a := sz[a] + sz[b]]
  {
    out[a] := Histogram(out[a].data + out[b].data, out[a].total + out[b].total, combo);
    size[a] := size[a] + size[b];
  }

  /** Where the loop stands: the clusters cl are live and the pairs q are queued. */
  ghost predicate Status(st: Start, sy: seq<nat>, owner: seq<nat>, o: seq<Histogram>, sz: seq<nat>, symb: seq<nat>,
                         cl: seq<nat>, q: seq<Pair>)
  {
    Distinct(cl) && Clustering(st, owner, o, sz, Set(cl)) && Queue(st.k, o, sz, Set(cl), q) &&
    (forall i :: 0 <= i < |sy| ==> sy[i] < |owner|) && symb == Renamed(sy, owner)
  }

  lemma StatusMerges(st: Start, sy: seq<nat>, owner: seq<nat>, o: seq<Histogram>, sz: seq<nat>, symb: seq<nat>,
                     cl: seq<nat>, q: seq<Pair>, cl': seq<nat>, a: nat, b: nat)
    requires Status(st, sy, owner, o, sz, symb, cl, q) && a in cl && b in cl && a != b
    requires Distinct(cl') && Set(cl') == Set(cl) - {b}
    ensures a < |o| == |sz| && b < |o|
    ensures Status(st, sy, Redirect(owner, b, a), o[a := Merge(st.k, o[a], o[b])], sz[a := sz[a] + sz[b]],
                   Redirect(symb, b, a), cl', Untouched(q, a, b))
  {
    assert a in Set(cl) && b in Set(cl);
    Merges(st, owner, o, sz, Set(cl), a, b);
    QueueMerges(st.k, o, sz, Set(cl), q, a, b);
    RenamedRedirect(sy, owner, b, a);
  }

  /** Histograms, sizes and live clusters. */
  datatype State = State(o: seq<Histogram>, sz: seq<nat>, live: set<nat>)

  /** The pair p joins two live clusters of s, and s' is what merging them gives. */
  ghost predicate Merging(k: Costs, s: State, p: Pair, s': State) {
    p.idx1 in s.live && p.idx2 in s.live && p.idx1 < p.idx2 < |s.o| == |s.sz| && s' == Merged(k, s, p.idx1, p.idx2)
  }

  ghost function Merged(k: Costs, s: State, a: nat, b: nat): State {
    if a < |s.o| == |s.sz| && b < |s.o|
    then State(s.o[a := Merge(k, s.o[a], s.o[b])], s.sz[a := s.sz[a] + s.sz[b]], s.live - {b})
    else s
  }

  lemma MergingIs(k: Costs, s: State, p: Pair, s': State)
    requires p.idx1 in s.live && p.idx2 in s.live && p.idx1 < p.idx2 < |s.o| == |s.sz| && s'.live == s.live - {p.idx2}
    requires s'.o == s.o[p.idx1 := Merge(k, s.o[p.idx1], s.o[p.idx2])]
    requires s'.sz == s.sz[p.idx1 := s.sz[p.idx1] + s.sz[p.idx2]]
    ensures Merging(k, s, p, s')
  {
  }

  /** Merges the first pair of the queue. */
  method MergeBest(ghost st: Start, out: array<Histogram>, size: array<nat>, symbols: array<nat>, clusters: array<nat>,
                   n: nat, pairs: array<Pair>, np0: nat, ghost sy: seq<nat>, ghost owner0: seq<nat>)
    returns (best: nat, np: nat, ghost owner: seq<nat>)
    requires 0 < np0 <= pairs.Length && 0 < n <= clusters.Length
    requires Status(st, sy, owner0, out[..], size[..], symbols[..], clusters[..n], pairs[..np0])
    requires size != symbols && size != clusters && symbols != clusters
    modifies out, size, symbols, clusters, pairs
    ensures np <= np0 && best in clusters[..n - 1]
    ensures Merging(st.k, State(old(out[..]), old(size[..]), old(Set(clusters[..n]))), old(pairs[..np0])[0],
                    State(out[..], size[..], Set(clusters[..n - 1])))
    ensures var q := old(pairs[..np0]); best == q[0].idx1 && pairs[..np] == Untouched(q, q[0].idx1, q[0].idx2)
    ensures Status(st, sy, owner, out[..], size[..], symbols[..], clusters[..n - 1], pairs[..np])
  {
    ghost var cl, o, sz, symb, q := clusters[..n], out[..], size[..], symbols[..], pairs[..np0];
    assert Current(st.k, o, sz, Set(cl), q[0]);
    var a, b, combo := pairs[0].idx1, pairs[0].idx2, pairs[0].combo;
    Absorb(out, size, a, b, combo, o, sz);
    assert Merge(st.k, o[a], o[b]) == Histogram(o[a].data + o[b].data, o[a].total + o[b].total, combo);
    ghost var o', sz' := out[..], size[..];
    assert symbols[..] == symb && clusters[..n] == cl && pairs[..np0] == q;
    RenameSymbols(symbols, b, a);
    ghost var symb' := symbols[..];
    assert clusters[..n] == cl && pairs[..np0] == q;
    RemoveCluster(clusters, n, b);
    ghost var cl' := clusters[..n - 1];
    assert pairs[..np0] == q && Set(cl') == Set(cl) - {b};
    MergingIs(st.k, State(o, sz, Set(cl)), q[0], State(o', sz', Set(cl')));
    np := RemovePairs(pairs, np0, a, b);
    assert out[..] == o' && size[..] == sz' && symbols[..] == symb' && clusters[..n - 1] == cl';
    StatusMerges(st, sy, owner0, o, sz, symb, cl, q, cl', a, b);
    owner := Redirect(owner0, b, a);
    best := a;
    assert best in Set(clusters[..n - 1]);
  }

  /** All pairs of the clusters at the start. */
  method InitPairs(k: Costs, out: array<Histogram>, size: array<nat>, clusters: array<nat>, n: nat, maxPairs: nat,
                   pairs: array<Pair>)
    returns (np: nat)
    requires n <= clusters.Length && out.Length == size.Length && maxPairs <= pairs.Length
    requires forall i :: 0 <= i < n ==> clusters[..n][i] < out.Length
    modifies pairs
    ensures np <= maxPairs && pairs[..np] == PushedRows(k, out[..], size[..], clusters[..n], n, maxPairs)
  {
    np := 0;
    ghost var cl, o, sz := clusters[..n], out[..], size[..];
    ghost var cur := [];
    var i := 0;
    while i < n
      invariant 0 <= i <= n && np <= maxPairs && out[..] == o && size[..] == sz
      invariant pairs[..np] == cur && cur == PushedRows(k, o, sz, cl, i, maxPairs)
    {
      assert clusters[i + 1..n] == cl[i + 1..] && clusters[i] == cl[i];
      PushedRow(k, o, sz, cl, i, maxPairs);
      np := ConsiderAll(k, out, size, clusters[i], clusters, i + 1, n, maxPairs, pairs, np);
      cur := Pushed(k, o, sz, cl[i], cl[i + 1..], cur, maxPairs);
      i := i + 1;
    }
  }

  /** The state and the queue after the best pair p is merged and the pairs of the grown
      cluster are offered. */
  ghost predicate Rounds(k: Costs, s: State, q: seq<Pair>, s': State, cl: seq<nat>, q': seq<Pair>, maxPairs: nat) {
    q != [] && Merging(k, s, q[0], s') && Set(cl) == s'.live && Distinct(cl) && |s'.o| == |s'.sz| &&
    q[0].idx1 < |s'.o| && (forall i :: 0 <= i < |cl| ==> cl[i] < |s'.o|) &&
    q' == Pushed(k, s'.o, s'.sz, q[0].idx1, cl, Untouched(q, q[0].idx1, q[0].idx2), maxPairs)
  }

  lemma AfterRound(k: Costs, st: Start, sy: seq<nat>, owner: seq<nat>, o: seq<Histogram>, sz: seq<nat>, symb: seq<nat>,
                   cl: seq<nat>, q: seq<Pair>, best: nat, maxPairs: nat)
    requires Usable(st) && st.k == k && Status(st, sy, owner, o, sz, symb, cl, q) && best in cl && |q| <= maxPairs
    ensures best < |o| == |sz| && forall i :: 0 <= i < |cl| ==> cl[i] < |o|
    ensures var r := Pushed(k, o, sz, best, cl, q, maxPairs);
      Status(st, sy, owner, o, sz, symb, cl, r) && |r| <= maxPairs && (|cl| > 1 && 0 < maxPairs ==> r != [])
  {
    LiveCheap(k, st, owner, o, sz, Set(cl));
    assert forall i :: 0 <= i < |cl| ==> cl[i] in Set(cl);
    PushedQueue(k, o, sz, Set(cl), best, cl, q, maxPairs);
    assert |cl| > 1 ==> cl[0] != cl[1];
  }

  lemma RoundsIs(k: Costs, s: State, q: seq<Pair>, s': State, cl: seq<nat>, q': seq<Pair>, maxPairs: nat)
    requires q != [] && Merging(k, s, q[0], s') && Set(cl) == s'.live && Distinct(cl) && |s'.o| == |s'.sz|
    requires q[0].idx1 < |s'.o| && forall i :: 0 <= i < |cl| ==> cl[i] < |s'.o|
    requires q' == Pushed(k, s'.o, s'.sz, q[0].idx1, cl, Untouched(q, q[0].idx1, q[0].idx2), maxPairs)
    ensures Rounds(k, s, q, s', cl, q', maxPairs)
  {
  }

  /** Offers the pairs of the cluster just grown. */
  method Refill(k: Costs, ghost st: Start, out: array<Histogram>, size: array<nat>, best: nat, symbols: array<nat>,
                clusters: array<nat>, n: nat, maxPairs: nat, pairs: array<Pair>, np0: nat, ghost sy: seq<nat>,
                ghost owner: seq<nat>)
    returns (np: nat)
    requires st.k == k && Usable(st) && np0 <= maxPairs <= pairs.Length && n <= clusters.Length && 0 < maxPairs
    requires Status(st, sy, owner, out[..], size[..], symbols[..], clusters[..n], pairs[..np0]) && best in clusters[..n]
    modifies pairs
    ensures np <= maxPairs && (n > 1 ==> np > 0)
    ensures Status(st, sy, owner, out[..], size[..], symbols[..], clusters[..n], pairs[..np])
    ensures best < out.Length == size.Length && forall i :: 0 <= i < n ==> clusters[..n][i] < out.Length
    ensures pairs[..np] == Pushed(k, out[..], size[..], best, clusters[..n], old(pairs[..np0]), maxPairs)
  {
    ghost var o, sz, cl, q, symb := out[..], size[..], clusters[..n], pairs[..np0], symbols[..];
    AfterRound(k, st, sy, owner, o, sz, symb, cl, q, best, maxPairs);
    ghost var r := Pushed(k, o, sz, best, cl, q, maxPairs);
    assert clusters[0..n] == cl;
    np := ConsiderAll(k, out, size, best, clusters, 0, n, maxPairs, pairs, np0);
    assert out[..] == o && size[..] == sz && symbols[..] == symb && clusters[..n] == cl && pairs[..np] == r;
    assert |r| == np;
  }

  /** One round: the best pair is merged and the pairs of the grown cluster are offered. */
  method Round(k: Costs, ghost st: Start, out: array<Histogram>, size: array<nat>, symbols: array<nat>,
               clusters: array<nat>, n: nat, maxPairs: nat, pairs: array<Pair>, np0: nat, ghost sy: seq<nat>,
               ghost owner0: seq<nat>)
    returns (np: nat, ghost owner: seq<nat>)
    requires st.k == k && Usable(st) && 0 < np0 <= maxPairs <= pairs.Length && 0 < n <= clusters.Length
    requires Status(st, sy, owner0, out[..], size[..], symbols[..], clusters[..n], pairs[..np0])
    requires size != symbols && size != clusters && symbols != clusters
    modifies out, size, symbols, clusters, pairs
    ensures np <= maxPairs && (n - 1 > 1 ==> np > 0) && n > 1
    ensures Status(st, sy, owner, out[..], size[..], symbols[..], clusters[..n - 1], pairs[..np])
    ensures Rounds(k, State(old(out[..]), old(size[..]), old(Set(clusters[..n]))), old(pairs[..np0]),
                   State(out[..], size[..], Set(clusters[..n - 1])), clusters[..n - 1], pairs[..np], maxPairs)
  {
    ghost var s, q := State(out[..], size[..], Set(clusters[..n])), pairs[..np0];
    var best;
    best, np, owner := MergeBest(st, out, size, symbols, clusters, n, pairs, np0, sy, owner0);
    ghost var s', cl := State(out[..], size[..], Set(clusters[..n - 1])), clusters[..n - 1];
    assert Merging(k, s, q[0], s') && Distinct(cl);
    np := Refill(k, st, out, size, best, symbols, clusters, n - 1, maxPairs, pairs, np, sy, owner);
    RoundsIs(k, s, q, s', cl, pairs[..np], maxPairs);
  }

  // ---------------------------------------------------------------- which pairs are merged

  /** The state after some merges. */
  ghost function Replay(st: Start, tr: seq<(nat, nat)>): State {
    if tr == [] then State(st.init, st.size, st.from)
    else Merged(st.k, Replay(st, tr[..|tr| - 1]), tr[|tr| - 1].0, tr[|tr| - 1].1)
  }

  /** Merging some two clusters saves. */
  ghost predicate Saving(k: Costs, s: State) {
    |s.o| == |s.sz| &&
    exists i, j :: i in s.live && j in s.live && i < j < |s.o| && PairOf(k, s.o, s.sz, i, j).diff < 0.0
  }

  /** Of all pairs of live clusters this one saves most, and is the closest of those. */
  ghost predicate Best(k: Costs, s: State, a: nat, b: nat) {
    |s.o| == |s.sz| && a in s.live && b in s.live && a < b < |s.o| &&
    forall i, j :: i in s.live && j in s.live && i < j < |s.o| ==>
      AtLeast(PairOf(k, s.o, s.sz, a, b), PairOf(k, s.o, s.sz, i, j))
  }

  /** There was a time when no merge saved. */
  ghost predicate Stalled(st: Start, tr: seq<(nat, nat)>) {
    !Saving(st.k, Replay(st, tr)) || (tr != [] && Stalled(st, tr[..|tr| - 1]))
  }

  /** Every merge was of the best pair while any saved, and since none saved there were
      too many clusters before each merge. */
  ghost predicate Greedy(st: Start, maxClusters: nat, tr: seq<(nat, nat)>) {
    tr == [] ||
    var before, (a, b) := tr[..|tr| - 1], tr[|tr| - 1];
    var s := Replay(st, before);
    Greedy(st, maxClusters, before) && a in s.live && b in s.live && a < b &&
    (Saving(st.k, s) ==> Best(st.k, s, a, b)) &&
    (Stalled(st, before) ==> |s.live| > maxClusters)
  }

  /** What greedy merging can lead to. */
  ghost predicate Greedily(st: Start, maxClusters: nat, s: State) {
    exists tr :: Greedy(st, maxClusters, tr) && Replay(st, tr) == s &&
      (|s.live| <= 1 || (Stalled(st, tr) && |s.live| <= maxClusters))
  }

  /** Where the loop stands; 'late' is when it goes on only for the number of clusters. */
  ghost predicate Course(st: Start, maxClusters: nat, tr: seq<(nat, nat)>, room: bool, s: State, q: seq<Pair>,
                         late: bool)
  {
    Replay(st, tr) == s && Tracked(st.k, s.o, s.sz, q, AllPairs(s.live), room) &&
    (room ==>
      Greedy(st, maxClusters, tr) && if late then Stalled(st, tr) else tr == [] || !Stalled(st, tr[..|tr| - 1]))
  }

  /** The first pair of the queue is the best of all if any saves. */
  lemma TopIsBest(k: Costs, s: State, q: seq<Pair>)
    requires Queue(k, s.o, s.sz, s.live, q) && Tracked(k, s.o, s.sz, q, AllPairs(s.live), true) && q != []
    ensures Saving(k, s) <==> q[0].diff < 0.0
    ensures Saving(k, s) ==> Best(k, s, q[0].idx1, q[0].idx2)
  {
    assert Current(k, s.o, s.sz, s.live, q[0]);
    forall i, j | i in s.live && j in s.live && i < j < |s.o|
      ensures PairOf(k, s.o, s.sz, i, j).diff < 0.0 ==> AtLeast(q[0], PairOf(k, s.o, s.sz, i, j))
    {
      assert (i, j) in AllPairs(s.live);
    }
  }

  lemma StillTracked(k: Costs, s: State, p: Pair, s': State, q: seq<Pair>, cl: seq<nat>, room: bool)
    returns (rest: set<(nat, nat)>)
    requires Merging(k, s, p, s') && Tracked(k, s.o, s.sz, q, AllPairs(s.live), room) && Set(cl) == s'.live
    ensures Tracked(k, s'.o, s'.sz, Untouched(q, p.idx1, p.idx2), rest, room) && rest !! Row(p.idx1, cl)
    ensures rest + Row(p.idx1, cl) == AllPairs(s'.live) && |AllPairs(s'.live)| <= |AllPairs(s.live)|
  {
    rest := Apart(AllPairs(s.live), p.idx1, p.idx2);
    UntouchedTracked(k, s.o, s.sz, q, AllPairs(s.live), room, p.idx1, p.idx2);
    RowRest(s.live, cl, p.idx1, p.idx2);
    Smaller(AllPairs(s'.live), AllPairs(s.live));
  }

  /** The pairs after a round, if there was room for them. */
  lemma RoundTracked(k: Costs, s: State, q: seq<Pair>, s': State, cl: seq<nat>, q': seq<Pair>, maxPairs: nat,
                     room: bool)
    returns (room': bool)
    requires Rounds(k, s, q, s', cl, q', maxPairs) && Tracked(k, s.o, s.sz, q, AllPairs(s.live), room)
    ensures Tracked(k, s'.o, s'.sz, q', AllPairs(s'.live), room') && (room' ==> room)
    ensures |AllPairs(s'.live)| <= |AllPairs(s.live)|
    ensures room && |AllPairs(s.live)| <= maxPairs ==> room'
  {
    var rest := StillTracked(k, s, q[0], s', q, cl, room);
    var r := Untouched(q, q[0].idx1, q[0].idx2);
    PushedTracked(k, s'.o, s'.sz, q[0].idx1, cl, r, maxPairs, rest, room);
    room' := room && Roomy(k, s'.o, s'.sz, q[0].idx1, cl, r, maxPairs);
  }

  lemma CourseGoesOn(st: Start, maxClusters: nat, tr: seq<(nat, nat)>, room: bool, s: State, q: seq<Pair>, late: bool,
                     s': State, room': bool, q': seq<Pair>)
    requires Course(st, maxClusters, tr, room, s, q, late) && Queue(st.k, s.o, s.sz, s.live, q) && q != []
    requires Merging(st.k, s, q[0], s') && Tracked(st.k, s'.o, s'.sz, q', AllPairs(s'.live), room')
    requires (room' ==> room) && if late then |s.live| > maxClusters else q[0].diff < 0.0
    ensures Course(st, maxClusters, tr + [(q[0].idx1, q[0].idx2)], room', s', q', late)
  {
    var tr' := tr + [(q[0].idx1, q[0].idx2)];
    assert tr'[..|tr'| - 1] == tr;
    if room' {
      TopIsBest(st.k, s, q);
    }
  }

  lemma CourseStarts(st: Start, maxClusters: nat, cl: seq<nat>, maxPairs: nat) returns (room: bool)
    requires |st.init| == |st.size| && Set(cl) == st.from && Distinct(cl)
    requires forall i :: 0 <= i < |cl| ==> cl[i] < |st.init|
    ensures Course(st, maxClusters, [], room, State(st.init, st.size, st.from),
                   PushedRows(st.k, st.init, st.size, cl, |cl|, maxPairs), false)
    ensures |cl| * (|cl| - 1) / 2 <= maxPairs ==> room && |AllPairs(st.from)| <= maxPairs
  {
    room := RoomyRows(st.k, st.init, st.size, cl, |cl|, maxPairs);
    RowsTracked(st.k, st.init, st.size, cl, |cl|, maxPairs);
    RowsAll(cl);
    PairCount(cl);
  }

  lemma TopAffordable(st: Start, owner: seq<nat>, o: seq<Histogram>, sz: seq<nat>, live: set<nat>, q: seq<Pair>)
    requires Usable(st) && Clustering(st, owner, o, sz, live) && Queue(st.k, o, sz, live, q) && q != []
    ensures q[0].diff < HUGE
  {
    assert Current(st.k, o, sz, live, q[0]);
    LiveAffordable(st, owner, o, sz, live, q[0].idx1, q[0].idx2);
  }

  /** The loop goes on only for the number of clusters: no merge saves now. */
  lemma CourseStalls(st: Start, maxClusters: nat, tr: seq<(nat, nat)>, room: bool, owner: seq<nat>, s: State,
                     q: seq<Pair>, late: bool)
    requires Course(st, maxClusters, tr, room, s, q, late) && Queue(st.k, s.o, s.sz, s.live, q) && q != []
    requires Usable(st) && Clustering(st, owner, s.o, s.sz, s.live)
    ensures q[0].diff < HUGE && (q[0].diff >= 0.0 ==> Course(st, maxClusters, tr, room, s, q, true))
  {
    TopAffordable(st, owner, s.o, s.sz, s.live, q);
    if room {
      TopIsBest(st.k, s, q);
    }
  }

  lemma NextCourse(k: Costs, st: Start, maxClusters: nat, tr: seq<(nat, nat)>, room: bool, s: State, q: seq<Pair>,
                   late: bool, s': State, cl: seq<nat>, q': seq<Pair>, maxPairs: nat)
    returns (tr': seq<(nat, nat)>, room': bool)
    requires st.k == k && Course(st, maxClusters, tr, room, s, q, late) && Queue(st.k, s.o, s.sz, s.live, q)
    requires Rounds(k, s, q, s', cl, q', maxPairs) && if late then |s.live| > maxClusters else q[0].diff < 0.0
    ensures Course(st, maxClusters, tr', room', s', q', late)
    ensures |AllPairs(s'.live)| <= |AllPairs(s.live)| && (room && |AllPairs(s.live)| <= maxPairs ==> room')
  {
    room' := RoundTracked(k, s, q, s', cl, q', maxPairs, room);
    tr' := tr + [(q[0].idx1, q[0].idx2)];
    CourseGoesOn(st, maxClusters, tr, room, s, q, late, s', room', q');
  }

  /** The main loop. */
  method MergeAll(k: Costs, ghost st: Start, out: array<Histogram>, size: array<nat>, symbols: array<nat>,
                  clusters: array<nat>, pairs: array<Pair>, numClusters: nat, maxClusters: nat, maxPairs: nat, np0: nat,
                  ghost sy: seq<nat>, ghost owner0: seq<nat>, ghost room0: bool)
    returns (n: nat, ghost owner: seq<nat>, ghost room: bool, ghost tr: seq<(nat, nat)>, ghost q: seq<Pair>,
             ghost late: bool)
    requires st.k == k && Usable(st) && np0 <= maxPairs <= pairs.Length && numClusters <= clusters.Length
    requires Status(st, sy, owner0, out[..], size[..], symbols[..], clusters[..numClusters], pairs[..np0])
    requires Course(st, maxClusters, [], room0, State(out[..], size[..], Set(clusters[..numClusters])), pairs[..np0],
                    false)
    requires size != symbols && size != clusters && symbols != clusters && 1 <= maxClusters
    requires numClusters > 1 ==> np0 > 0
    modifies out, size, symbols, clusters, pairs
    ensures n <= numClusters && (numClusters > 0 ==> n > 0) && n <= maxClusters
    ensures Status(st, sy, owner, out[..], size[..], symbols[..], clusters[..n], q)
    ensures Course(st, maxClusters, tr, room, State(out[..], size[..], Set(clusters[..n])), q, late) && (n <= 1 || late)
    ensures room0 && |AllPairs(old(Set(clusters[..numClusters])))| <= maxPairs ==> room
  {
    n, owner, room, tr := numClusters, owner0, room0, [];
    var np: nat, threshold, minSize := np0, 0.0, 1;
    ghost var s, cl := State(out[..], size[..], Set(clusters[..n])), clusters[..n];
    ghost var fits := room0 && |AllPairs(s.live)| <= maxPairs;
    q := pairs[..np];
    while n > minSize
      invariant np <= maxPairs && (n > 1 ==> np > 0) && n <= numClusters && (numClusters > 0 ==> n > 0)
      invariant cl == clusters[..n] && s == State(out[..], size[..], Set(cl)) && q == pairs[..np]
      invariant Status(st, sy, owner, out[..], size[..], symbols[..], cl, q)
      invariant (threshold == 0.0 && minSize == 1) || (threshold == HUGE && minSize == maxClusters)
      invariant Course(st, maxClusters, tr, room, s, q, threshold == HUGE)
      invariant fits ==> room && |AllPairs(s.live)| <= maxPairs
      decreases n, HUGE - threshold
    {
      CourseStalls(st, maxClusters, tr, room, owner, s, q, threshold == HUGE);
      if pairs[0].diff >= threshold {
        threshold, minSize := HUGE, maxClusters;
      } else {
        SetSize(cl);
        np, owner := Round(k, st, out, size, symbols, clusters, n, maxPairs, pairs, np, sy, owner);
        n := n - 1;
        cl := clusters[..n];
        ghost var s' := State(out[..], size[..], Set(cl));
        tr, room := NextCourse(k, st, maxClusters, tr, room, s, q, threshold == HUGE, s', cl, pairs[..np], maxPairs);
        s, q := s', pairs[..np];
      }
    }
    late := threshold == HUGE;
  }

  lemma EndsGreedily(st: Start, maxClusters: nat, tr: seq<(nat, nat)>, s: State, cl: seq<nat>, q: seq<Pair>,
                     late: bool)
    requires Course(st, maxClusters, tr, true, s, q, late) && Distinct(cl) && s.live == Set(cl)
    requires |cl| <= maxClusters && (|cl| <= 1 || late)
    ensures Greedily(st, maxClusters, s)
  {
    SetSize(cl);
  }

  /** BrotliHistogramCombine.  Each cluster that is left is the sum of exactly the
      clusters merged into it, each symbol is on the cluster that absorbed its own,
      and no more than maxClusters are left.  That must be at least one: for none the
      loop would go on with one cluster and take a pair from an empty queue.  While the
      queue has room, the pair that is merged is the best of all if any saves; it has
      room throughout if it has for the pairs of the clusters at the start. */
  method HistogramCombine(k: Costs, out: array<Histogram>, size: array<nat>, symbols: array<nat>, clusters: array<nat>,
                          pairs: array<Pair>, numClusters: nat, maxClusters: nat, maxPairs: nat)
    returns (n: nat, ghost owner: seq<nat>, ghost room: bool)
    requires numClusters <= clusters.Length && Distinct(clusters[..numClusters])
    requires Usable(Start(k, out[..], size[..], Set(clusters[..numClusters])))
    requires forall i :: 0 <= i < symbols.Length ==> symbols[i] < out.Length
    requires size != symbols && size != clusters && symbols != clusters
    requires 1 <= maxClusters && maxPairs <= pairs.Length && (numClusters > 1 ==> 0 < maxPairs)
    modifies out, size, symbols, clusters, pairs
    ensures n <= numClusters && (numClusters > 0 ==> n > 0) && n <= maxClusters
    ensures Distinct(clusters[..n])
    ensures Clustering(old(Start(k, out[..], size[..], Set(clusters[..numClusters]))), owner, out[..], size[..],
                       Set(clusters[..n]))
    ensures symbols[..] == Renamed(old(symbols[..]), owner)
    ensures room ==> Greedily(old(Start(k, out[..], size[..], Set(clusters[..numClusters]))), maxClusters,
                              State(out[..], size[..], Set(clusters[..n])))
    ensures numClusters * (numClusters - 1) / 2 <= maxPairs ==> room
    ensures forall i :: 0 <= i < symbols.Length && old(symbols[i] in clusters[..numClusters]) ==>
      symbols[i] in clusters[..n]
  {
    ghost var cl := clusters[..numClusters];
    ghost var st, sy := Start(k, out[..], size[..], Set(cl)), symbols[..];
    owner := Identity(out.Length);
    Starts(st);
    LiveCheap(k, st, owner, st.init, st.size, st.from);
    RowsQueue(k, st.init, st.size, cl, numClusters, maxPairs);
    var np := InitPairs(k, out, size, clusters, numClusters, maxPairs, pairs);
    assert clusters[..numClusters] == cl && out[..] == st.init && size[..] == st.size && symbols[..] == sy;
    assert |pairs[..np]| == np;
    room := CourseStarts(st, maxClusters, cl, maxPairs);
    ghost var tr, q, late;
    n, owner, room, tr, q, late := MergeAll(k, st, out, size, symbols, clusters, pairs, numClusters, maxClusters,
                                            maxPairs, np, sy, owner, room);
    if room {
      EndsGreedily(st, maxClusters, tr, State(out[..], size[..], Set(clusters[..n])), clusters[..n], q, late);
    }
    SymbolsLive(st, sy, owner, out[..], size[..], symbols[..], clusters[..n], q);
  }

  /** Symbols of the clusters at the start are on live clusters. */
  lemma SymbolsLive(st: Start, sy: seq<nat>, owner: seq<nat>, o: seq<Histogram>, sz: seq<nat>, symb: seq<nat>,
                    cl: seq<nat>, q: seq<Pair>)
    requires Status(st, sy, owner, o, sz, symb, cl, q)
    ensures |symb| == |sy| && forall i :: 0 <= i < |sy| && sy[i] in st.from ==> symb[i] in cl
  {
  }
}
