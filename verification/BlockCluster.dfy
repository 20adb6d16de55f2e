/** The clustering of blocks in batches and all together, and the block splitter as a
    whole (contrib/brotli/enc/block_splitter_inc.h). */
module BlockCluster {
  import opened Common
  import opened Cluster
  import opened ClusterCombine
  import opened BlockSplit
  import Renumber
  import FindBlocks

  // ---------------------------------------------------------------- costs

  /** Costs of histograms are neither negative nor 1e99, and the sizes of merged clusters
      never cost extra. */
  ghost predicate Moderate(k: Costs) {
    (forall d, n: nat :: 0.0 <= k.population(d, n) < HUGE) && forall a: nat, b: nat :: k.clusterDiff(a, b) <= 0.0
  }

  predicate Modest(h: Histogram) { 0.0 <= h.bitCost < HUGE }

  lemma {:induction false} SumModest(st: Start, t: Tree)
    requires |st.init| == |st.size| && Moderate(st.k) && forall x :: 0 <= x < |st.init| ==> Modest(st.init[x])
    ensures Modest(Sum(st, t).0)
    decreases t
  {
    match t {
      case Leaf(x) =>
      case Join(l, r) =>
        SumModest(st, l);
        SumModest(st, r);
    }
  }

  /** So every merge is affordable. */
  lemma ModerateUsable(st: Start)
    requires |st.init| == |st.size| && Moderate(st.k) && forall x :: 0 <= x < |st.init| ==> Modest(st.init[x])
    requires forall x :: x in st.from ==> x < |st.init|
    ensures Usable(st)
  {
    forall t, u
      ensures Diff(st.k, Sum(st, t).0, Sum(st, t).1, Sum(st, u).0, Sum(st, u).1) < HUGE
    {
      SumModest(st, t);
      SumModest(st, u);
    }
  }

  lemma ClustersModest(st: Start, owner: seq<nat>, o: seq<Histogram>, sz: seq<nat>, live: set<nat>, c: nat)
    requires Clustering(st, owner, o, sz, live) && c in live
    requires Moderate(st.k) && forall x :: 0 <= x < |st.init| ==> Modest(st.init[x])
    ensures c < |o| && Modest(o[c])
  {
    assert Whole(st, owner, o[c], sz[c], c);
    var t :| Once(t) && Leaves(t) == Owned(st, owner, c) && Sum(st, t) == (o[c], sz[c]);
    SumModest(st, t);
  }

  // ---------------------------------------------------------------- one call of the combiner

  /** A cluster for every symbol, all of them of modest cost. */
  ghost predicate Combined(out: seq<Histogram>, symbols: seq<nat>, cl: seq<nat>) {
    Distinct(cl) && (forall j :: 0 <= j < |cl| ==> cl[j] < |out| && Modest(out[cl[j]])) &&
    forall i :: 0 <= i < |symbols| ==> symbols[i] in cl
  }

  /** BrotliHistogramCombine on all clusters, with every symbol on one of them. */
  method CombineAll(k: Costs, out: array<Histogram>, size: array<nat>, symbols: array<nat>, maxClusters: nat,
                    maxPairs: nat)
    returns (clusters: array<nat>, n: nat)
    requires Moderate(k) && out.Length == size.Length && forall x :: 0 <= x < out.Length ==> Modest(out[x])
    requires forall i :: 0 <= i < symbols.Length ==> symbols[i] < out.Length
    requires size != symbols && 1 <= maxClusters && (out.Length > 1 ==> 0 < maxPairs)
    modifies out, size, symbols
    ensures fresh(clusters) && n <= clusters.Length == out.Length && n <= maxClusters
    ensures Combined(out[..], symbols[..], clusters[..n])
  {
    clusters := new nat[out.Length](i => i);
    var pairs := new Pair[maxPairs](_ => Pair(0, 0, 0.0, 0.0));
    ghost var st := Start(k, out[..], size[..], Set(clusters[..out.Length]));
    assert forall i :: 0 <= i < symbols.Length ==> clusters[..out.Length][symbols[i]] == symbols[i];
    ModerateUsable(st);
    ghost var owner, room;
    n, owner, room := HistogramCombine(k, out, size, symbols, clusters, pairs, out.Length, maxClusters, maxPairs);
    forall j | 0 <= j < n
      ensures clusters[j] < out.Length && Modest(out[clusters[j]])
    {
      assert clusters[..n][j] in Set(clusters[..n]);
      ClustersModest(st, owner, out[..], size[..], Set(clusters[..n]), clusters[j]);
    }
  }

  // ---------------------------------------------------------------- batches

  /** The symbols of block i. */
  function BlockData(data: seq<nat>, lens: seq<nat>, i: nat): multiset<nat>
    requires i < |lens| && Total(lens) == |data|
  {
    TotalPrefix(lens, i);
    multiset(data[Total(lens[..i])..Total(lens[..i]) + lens[i]])
  }

  function BlockHistogram(k: Costs, data: seq<nat>, lens: seq<nat>, i: nat): Histogram
    requires i < |lens| && Total(lens) == |data|
  {
    var d := BlockData(data, lens, i);
    Histogram(d, |d|, k.population(d, |d|))
  }

  lemma BlockModest(k: Costs, data: seq<nat>, lens: seq<nat>, i: nat)
    requires i < |lens| && Total(lens) == |data| && Moderate(k)
    ensures Modest(BlockHistogram(k, data, lens, i))
  {
    var d := BlockData(data, lens, i);
    assert 0.0 <= k.population(d, |d|) < HUGE;
  }

  const BATCH: nat := 64

  /** The clusters found so far: their histograms, their sizes, and for each block so far
      one of them. */
  ghost predicate Gathered(all: seq<Histogram>, sizes: seq<nat>, symbols: seq<nat>) {
    |all| == |sizes| <= |symbols| && (forall x :: 0 <= x < |all| ==> Modest(all[x])) &&
    forall i :: 0 <= i < |symbols| ==> symbols[i] < |all|
  }

  /** One batch: the histograms of up to 64 blocks are combined among themselves. */
  method Batch(k: Costs, data: seq<nat>, lens: seq<nat>, from: nat, num: nat)
    returns (hs: seq<Histogram>, sizes: seq<nat>, symbols: seq<nat>)
    requires Moderate(k) && from + num <= |lens| && Total(lens) == |data|
    ensures Gathered(hs, sizes, symbols) && |symbols| == num
  {
    var histograms := new Histogram[num](j requires 0 <= j < num => BlockHistogram(k, data, lens, from + j));
    var size := new nat[num](_ => 1);
    var symb := new nat[num](j => j);
    forall j | 0 <= j < num
      ensures Modest(histograms[j])
    {
      BlockModest(k, data, lens, from + j);
    }
    var clusters, n := CombineAll(k, histograms, size, symb, BATCH, BATCH * BATCH / 2);
    hs, sizes, symbols := Picked(histograms[..], size[..], symb[..], clusters[..n]);
  }

  /** The clusters that are left, in a row, and the symbols by their places there. */
  method Picked(out: seq<Histogram>, sz: seq<nat>, symb: seq<nat>, cl: seq<nat>)
    returns (hs: seq<Histogram>, sizes: seq<nat>, symbols: seq<nat>)
    requires Combined(out, symb, cl) && |sz| == |out| && |cl| <= |symb|
    ensures Gathered(hs, sizes, symbols) && |symbols| == |symb|
  {
    hs := seq(|cl|, j requires 0 <= j < |cl| && cl[j] < |out| => out[cl[j]]);
    sizes := seq(|cl|, j requires 0 <= j < |cl| && cl[j] < |sz| => sz[cl[j]]);
    symbols := Renumbered(symb, cl, |out|);
  }

  /** remap: each cluster by its place among those that are left. */
  method Renumbered(symb: seq<nat>, cl: seq<nat>, size: nat) returns (r: seq<nat>)
    requires Distinct(cl) && (forall j :: 0 <= j < |cl| ==> cl[j] < size)
    requires forall i :: 0 <= i < |symb| ==> symb[i] in cl
    ensures |r| == |symb| && forall i :: 0 <= i < |r| ==> r[i] < |cl| && cl[r[i]] == symb[i]
  {
    var remap := new nat[size](_ => 0);
    for j := 0 to |cl|
      invariant forall h :: 0 <= h < j ==> remap[cl[h]] == h
    {
      remap[cl[j]] := j;
    }
    r := [];
    for i := 0 to |symb|
      invariant |r| == i && forall j :: 0 <= j < i ==> r[j] < |cl| && cl[r[j]] == symb[j]
    {
      assert symb[i] in cl;
      r := r + [remap[symb[i]]];
    }
  }

  lemma GatheredPlus(all: seq<Histogram>, sizes: seq<nat>, symbols: seq<nat>, hs: seq<Histogram>, sz: seq<nat>,
                     sy: seq<nat>, shifted: seq<nat>)
    requires Gathered(all, sizes, symbols) && Gathered(hs, sz, sy)
    requires |shifted| == |sy| && forall i :: 0 <= i < |sy| ==> shifted[i] == |all| + sy[i]
    ensures Gathered(all + hs, sizes + sz, symbols + shifted)
  {
  }

  /** All batches. */
  method Batches(k: Costs, data: seq<nat>, lens: seq<nat>)
    returns (all: seq<Histogram>, sizes: seq<nat>, symbols: seq<nat>)
    requires Moderate(k) && Total(lens) == |data|
    ensures Gathered(all, sizes, symbols) && |symbols| == |lens|
  {
    all, sizes, symbols := [], [], [];
    var i := 0;
    while i < |lens|
      invariant i == |symbols| <= |lens| && Gathered(all, sizes, symbols)
      decreases |lens| - i
    {
      var num := if |lens| - i < BATCH then |lens| - i else BATCH;
      var hs, sz, sy := Batch(k, data, lens, i, num);
      var base := |all|;
      var shifted := seq(num, j requires 0 <= j < |sy| => base + sy[j]);
      GatheredPlus(all, sizes, symbols, hs, sz, sy, shifted);
      all, sizes, symbols, i := all + hs, sizes + sz, symbols + shifted, i + num;
    }
  }

  /** The batches and the clustering of what they leave, into at most 256 clusters. */
  method CombineBlocks(k: Costs, data: seq<nat>, lens: seq<nat>)
    returns (out: array<Histogram>, symbols: array<nat>, clusters: seq<nat>)
    requires Moderate(k) && Total(lens) == |data|
    ensures fresh(out) && fresh(symbols) && out.Length <= symbols.Length == |lens| && |clusters| <= 256
    ensures Combined(out[..], symbols[..], clusters)
  {
    var all, sizes, sy := Batches(k, data, lens);
    out := new Histogram[|all|](i requires 0 <= i < |all| => all[i]);
    var size := new nat[|all|](i requires 0 <= i < |sizes| => sizes[i]);
    symbols := new nat[|sy|](i requires 0 <= i < |sy| => sy[i]);
    var m := |all|;
    var maxPairs := if 64 * m < m / 2 * m then 64 * m else m / 2 * m;
    PairsEnough(m);
    var cl, n := CombineAll(k, out, size, symbols, 256, maxPairs);
    clusters := cl[..n];
  }

  lemma PairsEnough(m: nat)
    ensures m > 1 ==> 0 < m / 2 * m
  {
    if m > 1 {
      assert m / 2 >= 1;
      assert m / 2 * m >= 1 * m;
    }
  }

  // ---------------------------------------------------------------- the whole

  /** ClusterBlocks, for any distance of a block to a cluster: the split covers the data
      and switches only where the block ids do. */
  method ClusterBlocks(k: Costs, distance: (multiset<nat>, Histogram) -> real, data: seq<nat>, ids: array<nat>,
                       numBlocks: nat)
    returns (types: seq<nat>, lens: seq<nat>, numTypes: nat)
    requires Moderate(k) && 0 < ids.Length == |data| <= 0xFFFF_FFFF && numBlocks == FindBlocks.RunsFrom(ids[..], 0)
    ensures Proper(types, lens) && Total(lens) == |Expand(types, lens)| == |data|
    ensures Renumber.Firsts(types) == Identity(numTypes) && 0 < numTypes <= 256
    ensures forall t :: 0 <= t < ids.Length - 1 && ids[t] == ids[t + 1] ==>
      Expand(types, lens)[t] == Expand(types, lens)[t + 1]
  {
    var lengths, heads := MeasureBlocks(ids, numBlocks);
    var ls := lengths[..];
    ExpandLength(heads, ls);
    TotalAtLeast(ls);
    var out, symbols, clusters := CombineBlocks(k, data, ls);
    var hs := out[..];
    var dist := (i: nat, c: nat) =>
      if i < |ls| && c < |hs| && Total(ls) == |data| then distance(BlockData(data, ls, i), hs[c]) else 0.0;
    types, lens, numTypes := TypeBlocks(lengths, symbols, clusters, out.Length, dist, ids[..], heads);
  }

  lemma {:induction false} TotalAtLeast(lens: seq<nat>)
    requires forall i :: 0 <= i < |lens| ==> lens[i] > 0
    ensures |lens| <= Total(lens)
    decreases |lens|
  {
    if lens != [] {
      TotalAtLeast(lens[..|lens| - 1]);
    }
  }

  /** SplitByteVector, for any costs of symbols and of histograms. */
  method SplitByteVector(data: seq<nat>, perHistogram: nat, maxHistograms: nat, bitcost: real, iters: nat,
                         insert: nat -> ((nat, nat) -> real), k: Costs, distance: (multiset<nat>, Histogram) -> real)
    returns (types: seq<nat>, lens: seq<nat>, numTypes: nat)
    requires 0 < perHistogram && 0 < maxHistograms <= 256 && 0.0 <= bitcost && 0 < iters && |data| <= 0xFFFF_FFFF
    requires Moderate(k) && forall n: nat, x: nat, c: nat :: insert(n)(x, c) + bitcost < HUGE
    ensures Proper(types, lens) && Total(lens) == |data| && 0 < numTypes <= 256
    ensures if data == [] then types == [] && numTypes == 1 else Renumber.Firsts(types) == Identity(numTypes)
  {
    var codes := |data| / perHistogram + 1;
    if codes > maxHistograms {
      codes := maxHistograms;
    }
    if |data| == 0 {
      types, lens, numTypes := [], [], 1;
    } else if |data| < 128 {
      types, lens, numTypes := [0], [|data|], 1;
      OneBlock(|data|);
    } else {
      var ids := new nat[|data|];
      var numBlocks := 0;
      for i := 0 to iters
        invariant 0 < codes <= 256 && (i > 0 ==> numBlocks == FindBlocks.RunsFrom(ids[..], 0))
      {
        var q := FindBlocks.Problem(data, codes, insert(i), bitcost);
        numBlocks, codes := FindIds(q, ids);
      }
      types, lens, numTypes := ClusterBlocks(k, distance, data, ids, numBlocks);
    }
  }

  lemma OneBlock(n: nat)
    ensures Total([n]) == n && Renumber.Firsts([0]) == Identity(1)
  {
    var lens: seq<nat>, types: seq<nat> := [n], [0];
    assert lens[..0] == [] && types[..0] == [];
    assert Renumber.Firsts([]) == [] && Identity(1) == [0];
  }
}
