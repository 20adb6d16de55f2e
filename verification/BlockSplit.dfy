/** From block ids to a block split: block lengths, clusters as block types and the
    joining of neighbours of one type (contrib/brotli/enc/block_splitter_inc.h). */
module BlockSplit {
  import opened Common
  import opened Renumber
  import FindBlocks

  function Repeat(x: nat, n: nat): (r: seq<nat>)
    ensures |r| == n && forall i :: 0 <= i < n ==> r[i] == x
  {
    seq(n, _ => x)
  }

  /** The type of every symbol of a split. */
  function Expand(types: seq<nat>, lens: seq<nat>): seq<nat>
    requires |types| == |lens|
  {
    if types == [] then []
    else
      var n := |types| - 1;
      Expand(types[..n], lens[..n]) + Repeat(types[n], lens[n])
  }

  function Total(lens: seq<nat>): nat {
    if lens == [] then 0 else Total(lens[..|lens| - 1]) + lens[|lens| - 1]
  }

  lemma {:induction false} TotalPrefix(lens: seq<nat>, n: nat)
    requires n < |lens|
    ensures Total(lens[..n]) + lens[n] <= Total(lens)
    decreases |lens|
  {
    if n + 1 < |lens| {
      TotalPrefix(lens[..|lens| - 1], n);
      assert lens[..|lens| - 1][..n] == lens[..n];
    }
  }

  lemma {:induction false} ExpandLength(types: seq<nat>, lens: seq<nat>)
    requires |types| == |lens|
    ensures |Expand(types, lens)| == Total(lens)
    decreases |lens|
  {
    if types != [] {
      ExpandLength(types[..|types| - 1], lens[..|lens| - 1]);
    }
  }

  lemma ExpandMore(types: seq<nat>, lens: seq<nat>, t: nat, n: nat)
    requires |types| == |lens|
    ensures Expand(types + [t], lens + [n]) == Expand(types, lens) + Repeat(t, n)
  {
    assert (types + [t])[..|types|] == types && (lens + [n])[..|lens|] == lens;
  }

  /** Blocks are not empty and neighbours differ in type. */
  predicate Proper(types: seq<nat>, lens: seq<nat>) {
    |types| == |lens| && (forall i :: 0 <= i < |lens| ==> lens[i] > 0) &&
    forall i :: 0 < i < |types| ==> types[i - 1] != types[i]
  }

  /** Complete blocks, and the symbols so far in the next one. */
  datatype Meter = Meter(heads: seq<nat>, lens: seq<nat>, open: nat)

  predicate Ends(ids: seq<nat>, i: nat)
    requires i < |ids|
  {
    i + 1 == |ids| || ids[i] != ids[i + 1]
  }

  /** Takes in w symbols of ids[i], which completes a block where the ids change. */
  function Advance(ids: seq<nat>, i: nat, w: nat, m: Meter): Meter
    requires i < |ids|
  {
    if Ends(ids, i) then Meter(m.heads + [ids[i]], m.lens + [m.open + w], 0) else m.(open := m.open + w)
  }

  /** The symbols of the first i pieces that 'ids' and 'ws' describe. */
  function Taken(ids: seq<nat>, ws: seq<nat>, i: nat): seq<nat>
    requires i <= |ids| == |ws|
  {
    Expand(ids[..i], ws[..i])
  }

  /** The symbols of the open block. */
  function Tail(ids: seq<nat>, i: nat, open: nat): seq<nat> {
    if i < |ids| then Repeat(ids[i], open) else []
  }

  /** The blocks found in the first i pieces. */
  ghost predicate Measured(ids: seq<nat>, ws: seq<nat>, i: nat, m: Meter) {
    i <= |ids| == |ws| && Proper(m.heads, m.lens) && (i == |ids| ==> m.open == 0) &&
    Expand(m.heads, m.lens) + Tail(ids, i, m.open) == Taken(ids, ws, i) &&
    (i < |ids| && m.heads != [] ==> m.heads[|m.heads| - 1] != ids[i])
  }

  lemma OpenMore(e: seq<nat>, x: nat, a: nat, b: nat)
    ensures e + Repeat(x, a) + Repeat(x, b) == e + Repeat(x, a + b)
  {
  }

  lemma TakenMore(ids: seq<nat>, ws: seq<nat>, i: nat, e: seq<nat>, open: nat)
    requires i < |ids| == |ws| && e + Tail(ids, i, open) == Taken(ids, ws, i)
    ensures e + Repeat(ids[i], open + ws[i]) == Taken(ids, ws, i + 1)
  {
    OpenMore(e, ids[i], open, ws[i]);
    ExpandMore(ids[..i], ws[..i], ids[i], ws[i]);
    assert ids[..i + 1] == ids[..i] + [ids[i]] && ws[..i + 1] == ws[..i] + [ws[i]];
  }

  lemma NoTail(e: seq<nat>, ids: seq<nat>, i: nat)
    ensures e + Tail(ids, i, 0) == e
  {
  }

  lemma ProperMore(types: seq<nat>, lens: seq<nat>, t: nat, n: nat)
    requires Proper(types, lens) && n > 0 && (types != [] ==> types[|types| - 1] != t)
    ensures Proper(types + [t], lens + [n])
  {
  }

  lemma MeasureNext(ids: seq<nat>, ws: seq<nat>, i: nat, m: Meter)
    requires Measured(ids, ws, i, m) && i < |ids| && ws[i] > 0
    ensures Measured(ids, ws, i + 1, Advance(ids, i, ws[i], m))
  {
    TakenMore(ids, ws, i, Expand(m.heads, m.lens), m.open);
    if Ends(ids, i) {
      ProperMore(m.heads, m.lens, ids[i], m.open + ws[i]);
      ExpandMore(m.heads, m.lens, ids[i], m.open + ws[i]);
      NoTail(Taken(ids, ws, i + 1), ids, i + 1);
    }
  }

  lemma MeasuredAll(ids: seq<nat>, ws: seq<nat>, m: Meter)
    requires Measured(ids, ws, |ids|, m)
    ensures Proper(m.heads, m.lens) && Expand(m.heads, m.lens) == Expand(ids, ws)
  {
    assert ids[..|ids|] == ids && ws[..|ws|] == ws;
    NoTail(Expand(m.heads, m.lens), ids, |ids|);
  }

  lemma {:induction false} ExpandOnes(ids: seq<nat>)
    ensures Expand(ids, Repeat(1, |ids|)) == ids
    decreases |ids|
  {
    if ids != [] {
      var n := |ids| - 1;
      ExpandOnes(ids[..n]);
      assert Repeat(1, |ids|)[..n] == Repeat(1, n) && ids == ids[..n] + [ids[n]];
    }
  }

  function Left(ids: seq<nat>, i: nat): nat
    requires i <= |ids|
  {
    if i < |ids| then FindBlocks.RunsFrom(ids, i) else 0
  }

  lemma LeftNext(ids: seq<nat>, i: nat)
    requires i < |ids|
    ensures Left(ids, i) == Left(ids, i + 1) + (if Ends(ids, i) then 1 else 0) && Left(ids, i) > 0
  {
    RunsPositive(ids, i);
  }

  /** The array holds the lengths of the complete blocks and of the open one. */
  ghost predicate Holds(lengths: seq<nat>, m: Meter) {
    |m.heads| == |m.lens| <= |lengths| &&
    forall k :: 0 <= k < |lengths| ==>
      lengths[k] == if k < |m.lens| then m.lens[k] else if k == |m.lens| then m.open else 0
  }

  /** Where the first loop of ClusterBlocks stands. */
  ghost predicate Measuring(ids: seq<nat>, i: nat, m: Meter, lengths: seq<nat>) {
    Measured(ids, Repeat(1, |ids|), i, m) && Holds(lengths, m) && |m.lens| + Left(ids, i) == |lengths|
  }

  lemma MeasuringNext(ids: seq<nat>, i: nat, m: Meter, lengths: seq<nat>)
    requires Measuring(ids, i, m, lengths) && i < |ids|
    ensures |m.lens| < |lengths| && lengths[|m.lens|] == m.open
    ensures Measuring(ids, i + 1, Advance(ids, i, 1, m), lengths[|m.lens| := m.open + 1])
  {
    LeftNext(ids, i);
    MeasureNext(ids, Repeat(1, |ids|), i, m);
  }

  lemma MeasuringEnds(ids: seq<nat>, m: Meter, lengths: seq<nat>)
    requires Measuring(ids, |ids|, m, lengths)
    ensures Proper(m.heads, lengths) && Expand(m.heads, lengths) == ids
  {
    ExpandOnes(ids);
    MeasuredAll(ids, Repeat(1, |ids|), m);
    assert lengths == m.lens;
  }

  /** The first loop of ClusterBlocks: the lengths of the blocks, and its assertion
      that their number is the one FindBlocks counted. */
  method MeasureBlocks(ids: array<nat>, numBlocks: nat) returns (lengths: array<nat>, ghost heads: seq<nat>)
    requires 0 < ids.Length && numBlocks == FindBlocks.RunsFrom(ids[..], 0)
    ensures fresh(lengths) && lengths.Length == numBlocks
    ensures Proper(heads, lengths[..]) && Expand(heads, lengths[..]) == ids[..]
  {
    ghost var s, m := ids[..], Meter([], [], 0);
    lengths := new nat[numBlocks](_ => 0);
    var b, i := 0, 0;
    assert Measuring(s, 0, m, lengths[..]);
    while i < ids.Length
      invariant 0 <= i <= |s| && ids[..] == s && |m.lens| == b && Measuring(s, i, m, lengths[..])
    {
      MeasuringNext(s, i, m, lengths[..]);
      ghost var was: seq<nat> := lengths[..];
      lengths[b] := lengths[b] + 1;
      assert lengths[..] == was[b := m.open + 1];
      if i + 1 == ids.Length || ids[i] != ids[i + 1] {
        b := b + 1;
      }
      m := Advance(s, i, 1, m);
      i := i + 1;
    }
    assert b == numBlocks;
    MeasuringEnds(s, m, lengths[..]);
    heads := m.heads;
  }

  lemma {:induction false} RunsPositive(l: seq<nat>, b: nat)
    requires b < |l|
    ensures FindBlocks.RunsFrom(l, b) > 0
    decreases |l| - b
  {
    if b + 1 < |l| {
      RunsPositive(l, b + 1);
    }
  }

  // ---------------------------------------------------------------- block types

  /** The heads of the blocks first occur in the order of the pieces. */
  ghost predicate InOrder(ids: seq<nat>, i: nat, m: Meter) {
    i <= |ids| &&
    if i == |ids| then Firsts(m.heads) == Firsts(ids[..i]) else Met(Firsts(m.heads), ids[i]) == Firsts(ids[..i + 1])
  }

  function Met(f: seq<nat>, x: nat): seq<nat> {
    if x in f then f else f + [x]
  }

  lemma FirstsMore(s: seq<nat>, x: nat)
    ensures Firsts(s + [x]) == Met(Firsts(s), x)
  {
    assert (s + [x])[..|s|] == s;
  }

  lemma InOrderNext(ids: seq<nat>, i: nat, w: nat, m: Meter)
    requires InOrder(ids, i, m) && i < |ids|
    ensures InOrder(ids, i + 1, Advance(ids, i, w, m))
  {
    if Ends(ids, i) {
      FirstsMore(m.heads, ids[i]);
    }
    if i + 1 < |ids| {
      FirstsNext(ids, i + 1);
    }
  }

  function MaxOf(s: seq<nat>): nat {
    if s == [] then 0
    else
      var m := MaxOf(s[..|s| - 1]);
      if m < s[|s| - 1] then s[|s| - 1] else m
  }

  lemma {:induction false} MaxIs(s: seq<nat>)
    ensures forall x :: x in s ==> x <= MaxOf(s)
    ensures s != [] ==> MaxOf(s) in s
    decreases |s|
  {
    if s != [] {
      MaxIs(s[..|s| - 1]);
      assert s == s[..|s| - 1] + [s[|s| - 1]];
    }
  }

  lemma TypesCount(types: seq<nat>, n: nat)
    requires Firsts(types) == Identity(n) && types != []
    ensures MaxOf(types) + 1 == n
  {
    MaxIs(types);
    FirstsMembers(types);
    assert types[0] in types;
    assert n > 0 ==> Identity(n)[n - 1] == n - 1;
  }

  /** Where the last loop of ClusterBlocks stands. */
  ghost predicate Joining(labels: seq<nat>, lengths: seq<nat>, i: nat, m: Meter) {
    Measured(labels, lengths, i, m) && InOrder(labels, i, m)
  }

  lemma JoiningNext(labels: seq<nat>, lengths: seq<nat>, i: nat, m: Meter)
    requires Joining(labels, lengths, i, m) && i < |labels| && lengths[i] > 0
    ensures Joining(labels, lengths, i + 1, Advance(labels, i, lengths[i], m))
  {
    MeasureNext(labels, lengths, i, m);
    InOrderNext(labels, i, lengths[i], m);
  }

  lemma JoiningStarts(labels: seq<nat>, lengths: seq<nat>)
    requires 0 < |labels| == |lengths|
    ensures Joining(labels, lengths, 0, Meter([], [], 0))
  {
    assert labels[..1] == [labels[0]];
    assert Taken(labels, lengths, 0) == [];
  }

  lemma JoiningEnds(labels: seq<nat>, lengths: seq<nat>, m: Meter)
    requires Joining(labels, lengths, |labels|, m)
    ensures Proper(m.heads, m.lens) && Expand(m.heads, m.lens) == Expand(labels, lengths)
    ensures Firsts(m.heads) == Firsts(labels)
  {
    MeasuredAll(labels, lengths, m);
    assert labels[..|labels|] == labels;
  }

  lemma MaxMore(s: seq<nat>, x: nat)
    ensures MaxOf(s + [x]) == if MaxOf(s) < x then x else MaxOf(s)
  {
    assert (s + [x])[..|s|] == s;
  }

  /** The block labels as bytes. */
  ghost predicate Labelled(symbols: seq<nat>, newIndex: seq<nat>, labels: seq<nat>) {
    |symbols| == |labels| &&
    forall i :: 0 <= i < |symbols| ==>
      symbols[i] < |newIndex| && newIndex[symbols[i]] % 256 == labels[i] && (Ends(symbols, i) <==> Ends(labels, i))
  }

  /** One round of the last loop of ClusterBlocks. */
  method JoinOne(symbols: array<nat>, newIndex: array<nat>, length: nat, i: nat, m0: Meter, max0: nat,
                 ghost labels: seq<nat>)
    returns (m: Meter, maxType: nat)
    requires Labelled(symbols[..], newIndex[..], labels) && i < symbols.Length && max0 == MaxOf(m0.heads)
    ensures m == Advance(labels, i, length, m0) && maxType == MaxOf(m.heads)
  {
    m, maxType := m0.(open := m0.open + length), max0;
    assert symbols[..][i] == symbols[i] && (Ends(symbols[..], i) <==> Ends(labels, i));
    if i + 1 == symbols.Length || symbols[i] != symbols[i + 1] {
      var id := newIndex[symbols[i]] % 256;
      MaxMore(m.heads, id);
      m := Meter(m.heads + [id], m.lens + [m.open], 0);
      maxType := if maxType < id then id else maxType;
    }
  }

  /** The last loop of ClusterBlocks: neighbours of one type are joined. */
  method JoinBlocks(symbols: array<nat>, newIndex: array<nat>, lengths: array<nat>, ghost labels: seq<nat>)
    returns (types: seq<nat>, lens: seq<nat>, numTypes: nat)
    requires 0 < symbols.Length == lengths.Length && forall i :: 0 <= i < lengths.Length ==> lengths[i] > 0
    requires Labelled(symbols[..], newIndex[..], labels)
    ensures Proper(types, lens) && Expand(types, lens) == Expand(labels, lengths[..])
    ensures Firsts(types) == Firsts(labels) && numTypes == MaxOf(types) + 1
  {
    ghost var ls := lengths[..];
    var m, maxType, i := Meter([], [], 0), 0, 0;
    JoiningStarts(labels, ls);
    while i < symbols.Length
      invariant 0 <= i <= |labels| && Joining(labels, ls, i, m) && maxType == MaxOf(m.heads)
    {
      JoiningNext(labels, ls, i, m);
      m, maxType := JoinOne(symbols, newIndex, lengths[i], i, m, maxType, labels);
      i := i + 1;
    }
    types, lens, numTypes := m.heads, m.lens, maxType + 1;
    JoiningEnds(labels, ls, m);
  }

  /** No cluster costs block i less than c. */
  ghost predicate Best(i: nat, c: nat, clusters: seq<nat>, dist: (nat, nat) -> real) {
    c in clusters && forall h :: 0 <= h < |clusters| ==> dist(i, c) <= dist(i, clusters[h])
  }

  /** The best cluster for block i, starting from 'first'. */
  method BestCluster(i: nat, first: nat, clusters: seq<nat>, dist: (nat, nat) -> real) returns (best: nat)
    requires first in clusters
    ensures Best(i, best, clusters, dist)
  {
    best := first;
    var bits := dist(i, first);
    for j := 0 to |clusters|
      invariant best in clusters && bits == dist(i, best)
      invariant forall h :: 0 <= h < j ==> bits <= dist(i, clusters[h])
    {
      var cur := dist(i, clusters[j]);
      if cur < bits {
        best, bits := clusters[j], cur;
      }
    }
  }

  method Clear(newIndex: array<nat>)
    requires newIndex.Length <= 0xFFFF_FFFF
    modifies newIndex
    ensures Table(newIndex[..], [], 0xFFFF_FFFF)
  {
    for i := 0 to newIndex.Length
      invariant forall j :: 0 <= j < i ==> newIndex[j] == 0xFFFF_FFFF
    {
      newIndex[i] := 0xFFFF_FFFF;
    }
  }

  /** The loop of ClusterBlocks that gives each block its best cluster and numbers
      the clusters as they are met. */
  method AssignClusters(symbols: array<nat>, clusters: seq<nat>, newIndex: array<nat>, dist: (nat, nat) -> real)
    requires symbols != newIndex && 0 < symbols.Length && newIndex.Length <= 0xFFFF_FFFF && symbols[0] in clusters
    requires forall j :: 0 <= j < |clusters| ==> clusters[j] < newIndex.Length
    modifies symbols, newIndex
    ensures forall i :: 0 <= i < symbols.Length ==> Best(i, symbols[i], clusters, dist)
    ensures Table(newIndex[..], Firsts(symbols[..]), 0xFFFF_FFFF)
  {
    Clear(newIndex);
    var next, last, i := 0, symbols[0], 0;
    ghost var s: seq<nat> := [];
    while i < symbols.Length
      invariant 0 <= i == |s| <= symbols.Length && last in clusters
      invariant forall j :: 0 <= j < i ==> symbols[j] == s[j] && Best(j, s[j], clusters, dist)
      invariant last == if i == 0 then symbols[0] else symbols[i - 1]
      invariant Numbered(newIndex[..], s, next)
    {
      var best := BestCluster(i, last, clusters, dist);
      next := MeetNext(newIndex, best, next, s);
      symbols[i] := best;
      s, last, i := s + [best], best, i + 1;
    }
    assert symbols[..] == s;
  }

  ghost predicate Numbered(newIndex: seq<nat>, s: seq<nat>, next: nat) {
    Table(newIndex, Firsts(s), 0xFFFF_FFFF) && next == |Firsts(s)|
  }

  method MeetNext(newIndex: array<nat>, v: nat, next0: nat, ghost s: seq<nat>) returns (next: nat)
    requires Numbered(newIndex[..], s, next0) && v < newIndex.Length
    modifies newIndex
    ensures Numbered(newIndex[..], s + [v], next)
  {
    FirstsMore(s, v);
    assert Firsts(s + [v]) == if v in Firsts(s) then Firsts(s) else Firsts(s) + [v];
    next := Meet(newIndex, v, next0, 0xFFFF_FFFF, Firsts(s));
  }

  /** Distinct members of cl are no more than cl has. */
  lemma {:induction false} NoMore(f: seq<nat>, cl: seq<nat>)
    requires Distinct(f) && forall x :: x in f ==> x in cl
    ensures |f| <= |cl|
    decreases |f|
  {
    if f != [] {
      var n := |f| - 1;
      assert f[n] in cl;
      var k :| 0 <= k < |cl| && cl[k] == f[n];
      var rest := cl[..k] + cl[k + 1..];
      forall x | x in f[..n]
        ensures x in rest
      {
        assert x in f;
        var h :| 0 <= h < |cl| && cl[h] == x;
        assert rest[if h < k then h else h - 1] == x;
      }
      NoMore(f[..n], rest);
    }
  }

  lemma FewValues(s: seq<nat>, cl: seq<nat>)
    requires forall i :: 0 <= i < |s| ==> s[i] in cl
    ensures |Firsts(s)| <= |cl|
  {
    FirstsMembers(s);
    FirstsDistinct(s);
    NoMore(Firsts(s), cl);
  }

  lemma PlacesEnds(s: seq<nat>, t: seq<nat>, f: seq<nat>, i: nat)
    requires Places(s, t, f) && Distinct(f) && i < |s|
    ensures Ends(s, i) <==> Ends(t, i)
  {
    if i + 1 < |s| {
      assert f[t[i]] == s[i] && f[t[i + 1]] == s[i + 1];
    }
  }

  lemma LabelsAre(symbols: seq<nat>, newIndex: seq<nat>, clusters: seq<nat>) returns (labels: seq<nat>)
    requires Table(newIndex, Firsts(symbols), 0xFFFF_FFFF) && |clusters| <= 256
    requires forall i :: 0 <= i < |symbols| ==> symbols[i] in clusters
    ensures Labelled(symbols, newIndex, labels) && Firsts(labels) == Identity(|Firsts(symbols)|)
    ensures |Firsts(symbols)| <= 256
  {
    TableSends(newIndex, symbols, 0xFFFF_FFFF);
    FewValues(symbols, clusters);
    labels := seq(|symbols|, i requires 0 <= i < |symbols| => newIndex[symbols[i]]);
    assert Places(symbols, labels, Firsts(symbols));
    forall i | 0 <= i < |symbols|
      ensures Ends(symbols, i) <==> Ends(labels, i)
    {
      FirstsDistinct(symbols);
      PlacesEnds(symbols, labels, Firsts(symbols), i);
    }
    FirstsCanonical(symbols, labels);
  }

  /** Another labelling of the same blocks changes only where the blocks do. */
  lemma {:induction false} Coarser(heads: seq<nat>, labels: seq<nat>, lens: seq<nat>, t: nat)
    requires Proper(heads, lens) && |labels| == |heads|
    requires t + 1 < |Expand(heads, lens)| && Expand(heads, lens)[t] == Expand(heads, lens)[t + 1]
    ensures |Expand(labels, lens)| == |Expand(heads, lens)| && Expand(labels, lens)[t] == Expand(labels, lens)[t + 1]
    decreases |heads|
  {
    var n := |heads| - 1;
    ExpandLength(heads, lens);
    ExpandLength(labels, lens);
    ExpandLength(heads[..n], lens[..n]);
    ExpandLength(labels[..n], lens[..n]);
    if n > 0 {
      LastIs(heads[..n], lens[..n]);
      assert heads[n - 1] != heads[n];
    }
    if t + 1 < Total(lens[..n]) {
      Coarser(heads[..n], labels[..n], lens[..n], t);
    }
  }

  lemma LastIs(types: seq<nat>, lens: seq<nat>)
    requires Proper(types, lens) && types != []
    ensures Expand(types, lens) != [] && Expand(types, lens)[|Expand(types, lens)| - 1] == types[|types| - 1]
  {
  }

  /** ClusterBlocks after its clustering.  'symbols' holds a cluster for each block
      and 'clusters' the clusters that are left, at most 256. */
  method TypeBlocks(lengths: array<nat>, symbols: array<nat>, clusters: seq<nat>, numClusters: nat,
                    dist: (nat, nat) -> real, ghost ids: seq<nat>, ghost heads: seq<nat>)
    returns (types: seq<nat>, lens: seq<nat>, numTypes: nat)
    requires 0 < |ids| && Proper(heads, lengths[..]) && Expand(heads, lengths[..]) == ids
    requires symbols.Length == lengths.Length && lengths != symbols && |clusters| <= 256 && numClusters <= 0xFFFF_FFFF
    requires forall j :: 0 <= j < |clusters| ==> clusters[j] < numClusters
    requires forall i :: 0 <= i < symbols.Length ==> symbols[i] in clusters
    modifies symbols
    ensures Proper(types, lens) && Total(lens) == |Expand(types, lens)| == |ids|
    ensures Firsts(types) == Identity(numTypes) && 0 < numTypes <= 256
    ensures forall t :: 0 <= t < |ids| - 1 && ids[t] == ids[t + 1] ==>
      Expand(types, lens)[t] == Expand(types, lens)[t + 1]
  {
    ghost var ls: seq<nat> := lengths[..];
    var newIndex := new nat[numClusters];
    AssignClusters(symbols, clusters, newIndex, dist);
    assert lengths[..] == ls;
    ghost var labels := LabelsAre(symbols[..], newIndex[..], clusters);
    types, lens, numTypes := JoinBlocks(symbols, newIndex, lengths, labels);
    TypesCount(types, |Firsts(symbols[..])|);
    TypedLike(types, lens, labels, heads, ls, ids);
  }

  lemma TypedLike(types: seq<nat>, lens: seq<nat>, labels: seq<nat>, heads: seq<nat>, ls: seq<nat>, ids: seq<nat>)
    requires Proper(heads, ls) && Expand(heads, ls) == ids && |types| == |lens|
    requires |labels| == |ls| && Expand(types, lens) == Expand(labels, ls)
    ensures Total(lens) == |Expand(types, lens)| == |ids|
    ensures forall t :: 0 <= t < |ids| - 1 && ids[t] == ids[t + 1] ==>
      Expand(types, lens)[t] == Expand(types, lens)[t + 1]
  {
    ExpandLength(types, lens);
    ExpandLength(labels, ls);
    ExpandLength(heads, ls);
    forall t | 0 <= t < |ids| - 1 && ids[t] == ids[t + 1]
      ensures Expand(types, lens)[t] == Expand(types, lens)[t + 1]
    {
      Coarser(heads, labels, ls, t);
    }
  }

  // ---------------------------------------------------------------- the whole

  lemma {:induction false} RunsSame(s: seq<nat>, t: seq<nat>, b: nat)
    requires |s| == |t| && b < |s| && forall i :: 0 <= i < |s| ==> (Ends(s, i) <==> Ends(t, i))
    ensures FindBlocks.RunsFrom(s, b) == FindBlocks.RunsFrom(t, b)
    decreases |s| - b
  {
    assert Ends(s, b) <==> Ends(t, b);
    if b + 1 < |s| {
      RunsSame(s, t, b + 1);
    }
  }

  /** FindBlocks and RemapBlockIds: the number of blocks still matches the ids after
      they are renumbered. */
  method FindIds(q: FindBlocks.Problem, ids: array<nat>) returns (numBlocks: nat, codes: nat)
    requires FindBlocks.Sane(q) && ids.Length == |q.data|
    modifies ids
    ensures 0 < codes <= q.codes && Firsts(ids[..]) == Identity(codes) && numBlocks == FindBlocks.RunsFrom(ids[..], 0)
  {
    var cost := new real[q.codes];
    var sig := new bv8[|q.data|, (q.codes + 7) / 8];
    numBlocks := FindBlocks.FindBlocks(q, cost, sig, ids);
    ghost var s := ids[..];
    var newId := new nat[q.codes];
    assert ids[..] == s;
    codes := RemapBlockIds(ids, newId);
    FirstsDistinct(s);
    FirstsMembers(s);
    assert s[0] in Firsts(s);
    forall i | 0 <= i < |s|
      ensures Ends(s, i) <==> Ends(ids[..], i)
    {
      PlacesEnds(s, ids[..], Firsts(s), i);
    }
    RunsSame(s, ids[..], 0);
  }
}
