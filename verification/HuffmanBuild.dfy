/** One round of BrotliBuildAndStoreHuffmanTreeFast: leaves from a histogram, sorted
    and merged (contrib/brotli/enc/brotli_bit_stream.c). */
module HuffmanBuild {
  import opened Huffman
  import TreeSort

  /** The leaf of symbol l, whose count is raised to the limit. */
  function Leaf(count: nat, limit: nat, l: nat): Node {
    Node(if count >= limit then count else limit, -1, l)
  }

  /** The leaves of the symbols below l that occur, the last symbol first. */
  function Leaves(h: seq<nat>, l: nat, limit: nat): seq<Node>
    requires l <= |h|
  {
    if l == 0 then []
    else (if h[l - 1] != 0 then [Leaf(h[l - 1], limit, l - 1)] else []) + Leaves(h, l - 1, limit)
  }

  /** The leaf of a symbol below l that occurs, with the greater of its count and the limit. */
  ghost predicate LeafOf(h: seq<nat>, l: nat, limit: nat, x: Node)
    requires l <= |h|
  {
    0 <= x.right < l && h[x.right] != 0 && x.left == -1 && x.count >= limit && x.count >= h[x.right] &&
    (x.count == limit || x.count == h[x.right])
  }

  /** Such leaves, the last symbol first. */
  ghost predicate LeavesOf(h: seq<nat>, l: nat, limit: nat, xs: seq<Node>)
    requires l <= |h|
  {
    (forall i :: 0 <= i < |xs| ==> LeafOf(h, l, limit, xs[i])) &&
    forall i, j :: 0 <= i < j < |xs| ==> xs[j].right < xs[i].right
  }

  lemma {:induction false} LeavesAre(h: seq<nat>, l: nat, limit: nat)
    requires l <= |h|
    ensures LeavesOf(h, l, limit, Leaves(h, l, limit))
  {
    if l > 0 {
      LeavesAre(h, l - 1, limit);
      FirstLeaf(h, l - 1, limit, Leaves(h, l - 1, limit));
    }
  }

  lemma FirstLeaf(h: seq<nat>, l: nat, limit: nat, low: seq<Node>)
    requires l < |h| && LeavesOf(h, l, limit, low)
    ensures LeavesOf(h, l + 1, limit, (if h[l] != 0 then [Leaf(h[l], limit, l)] else []) + low)
  {
    var xs := (if h[l] != 0 then [Leaf(h[l], limit, l)] else []) + low;
    var n := if h[l] != 0 then 1 else 0;
    forall i | 0 <= i < |xs|
      ensures LeafOf(h, l + 1, limit, xs[i])
    {
      if i >= n { assert xs[i] == low[i - n] && LeafOf(h, l, limit, low[i - n]); }
    }
  }

  /** Every symbol that occurs has one. */
  lemma {:induction false} EverySymbol(h: seq<nat>, l: nat, limit: nat, s: nat) returns (i: nat)
    requires s < l <= |h| && h[s] != 0
    ensures i < |Leaves(h, l, limit)| && Leaves(h, l, limit)[i].right == s
    decreases l
  {
    if s == l - 1 {
      i := 0;
    } else {
      i := EverySymbol(h, l - 1, limit, s);
      i := if h[l - 1] != 0 then i + 1 else i;
    }
  }

  predicate Less(a: Node, b: Node) { a.count < b.count }

  lemma OneLeaf(done: seq<Node>, h: seq<nat>, l: nat, limit: nat)
    requires l < |h|
    ensures done + Leaves(h, l + 1, limit) ==
            (if h[l] != 0 then done + [Leaf(h[l], limit, l)] else done) + Leaves(h, l, limit)
  {
    assert done + ([] + Leaves(h, l, limit)) == done + Leaves(h, l, limit);
  }

  method FillLeaves(h: seq<nat>, limit: nat) returns (leaves: seq<Node>)
    ensures leaves == Leaves(h, |h|, limit)
  {
    leaves := [];
    var l := |h|;
    while l != 0
      invariant 0 <= l <= |h| && leaves + Leaves(h, l, limit) == Leaves(h, |h|, limit)
    {
      l := l - 1;
      OneLeaf(leaves, h, l, limit);
      if h[l] != 0 {
        leaves := leaves + [Leaf(h[l], limit, l)];
      }
    }
  }

  lemma SortedAscends(s: seq<Node>, t: seq<Node>)
    requires TreeSort.Sorted(s, Less) && |s| <= |t| && forall x :: 0 <= x < |s| ==> t[x] == s[x]
    ensures Ascending(t, 0, |s|)
  {
    forall x, y | 0 <= x < y < |s|
      ensures AtMost(t, x, y)
    {
      assert !Less(s[y], s[x]);
    }
  }

  /** The sum of the counts. */
  function Weight(s: seq<Node>): nat {
    if s == [] then 0 else Weight(s[..|s| - 1]) + s[|s| - 1].count
  }

  lemma {:induction false} WeightIsSum(t: seq<Node>, n: nat)
    requires n <= |t|
    ensures Sum(t, 0, n) == Weight(t[..n])
    decreases n
  {
    if n > 0 {
      WeightIsSum(t, n - 1);
      SumMore(t, 0, n - 1);
      assert t[..n][..n - 1] == t[..n - 1];
    }
  }

  lemma {:induction false} WeightPlus(a: seq<Node>, b: seq<Node>)
    ensures Weight(a + b) == Weight(a) + Weight(b)
    decreases |b|
  {
    if b == [] {
      assert a + b == a;
    } else {
      WeightPlus(a, b[..|b| - 1]);
      assert (a + b)[..|a + b| - 1] == a + b[..|b| - 1];
    }
  }

  lemma WeightMiddle(l: seq<Node>, x: Node, r: seq<Node>)
    ensures Weight(l + [x] + r) == Weight(l + r) + x.count
  {
    WeightPlus(l + [x], r);
    WeightPlus(l, [x]);
    WeightPlus(l, r);
    WeightOne(x);
  }

  lemma WeightOne(x: Node)
    ensures Weight([x]) == x.count
  {
    assert [x][..0] == [];
  }

  /** A sequence cut around an element. */
  lemma Around(a: seq<Node>, k: nat) returns (l: seq<Node>, r: seq<Node>)
    requires k < |a|
    ensures a == l + [a[k]] + r && |l| + |r| + 1 == |a| && multiset(l + r) == multiset(a) - multiset{a[k]}
  {
    l, r := a[..k], a[k + 1..];
    assert a == l + [a[k]] + r;
  }

  lemma {:induction false} WeightPermutes(a: seq<Node>, b: seq<Node>)
    requires multiset(a) == multiset(b)
    ensures Weight(a) == Weight(b) && |a| == |b|
    decreases |a|
  {
    assert |a| == |multiset(a)| && |b| == |multiset(b)|;
    if a != [] {
      var x := a[0];
      assert x in multiset(b);
      var k :| 0 <= k < |b| && b[k] == x;
      var l, r := Around(a, 0);
      var l', r' := Around(b, k);
      WeightMiddle(l, x, r);
      WeightMiddle(l', x, r');
      WeightPermutes(l + r, l' + r');
    }
  }

  /** One round: the tree over the leaves of the histogram, if their raised counts add
      up to less than UINT32_MAX. */
  method BuildTree(h: seq<nat>, limit: nat) returns (tree: array<Node>, n: nat)
    requires 2 <= |Leaves(h, |h|, limit)| < 0x4000 && Weight(Leaves(h, |h|, limit)) < UINT32_MAX
    ensures n == |Leaves(h, |h|, limit)| && tree.Length == 2 * n + 1 && Built(tree[..], n)
    ensures multiset(tree[..n]) == multiset(Leaves(h, |h|, limit))
    ensures tree[2 * n - 1].count == Weight(Leaves(h, |h|, limit))
  {
    var leaves := FillLeaves(h, limit);
    n := |leaves|;
    var items := new Node[n](i requires 0 <= i < n => leaves[i]);
    assert items[..] == leaves;
    TreeSort.SortHuffmanTreeItems(items, Less);
    ghost var s := items[..];
    WeightPermutes(s, leaves);
    tree := Spread(items);
    LeavesReady(s, tree[..]);
    MergeTrees(tree, n);
    assert tree[..n] == s;
    WeightIsSum(tree[..], n);
    assert tree[..][..n] == s;
  }

  /** The leaves at the front of an array with room for the parents. */
  method Spread(items: array<Node>) returns (tree: array<Node>)
    ensures fresh(tree) && tree.Length == 2 * items.Length + 1 && tree[..items.Length] == items[..]
  {
    tree := new Node[2 * items.Length + 1](_ => SENTINEL);
    for i := 0 to items.Length
      invariant forall j :: 0 <= j < i ==> tree[j] == items[j]
    {
      tree[i] := items[i];
    }
  }

  lemma LeavesReady(s: seq<Node>, t: seq<Node>)
    requires TreeSort.Sorted(s, Less) && |s| <= |t| && t[..|s|] == s
    ensures Ascending(t, 0, |s|) && Sum(t, 0, |s|) == Weight(s)
  {
    forall x | 0 <= x < |s|
      ensures t[x] == s[x]
    {
      assert t[..|s|][x] == t[x];
    }
    SortedAscends(s, t);
    WeightIsSum(t, |s|);
  }
}
