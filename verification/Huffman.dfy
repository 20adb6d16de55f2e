/** The two-queue merge of BrotliBuildAndStoreHuffmanTreeFast
    (contrib/brotli/enc/brotli_bit_stream.c). */
module Huffman {

  const UINT32_MAX: nat := 0xFFFF_FFFF

  datatype Node = Node(count: nat, left: int, right: int)

  const SENTINEL: Node := Node(UINT32_MAX, -1, -1)

  /** The sum of the counts of t[a..b]. */
  function Sum(t: seq<Node>, a: nat, b: nat): nat
    requires a <= b <= |t|
    decreases b - a
  {
    if a == b then 0 else t[a].count + Sum(t, a + 1, b)
  }

  lemma {:induction false} SumMore(t: seq<Node>, a: nat, b: nat)
    requires a <= b < |t|
    ensures Sum(t, a, b + 1) == Sum(t, a, b) + t[b].count
    decreases b - a
  {
    if a < b {
      SumMore(t, a + 1, b);
    }
  }

  lemma {:induction false} SumSame(t: seq<Node>, u: seq<Node>, a: nat, b: nat)
    requires a <= b <= |t| && |t| == |u| && forall x :: a <= x < b ==> t[x] == u[x]
    ensures Sum(t, a, b) == Sum(u, a, b)
    decreases b - a
  {
    if a < b {
      SumSame(t, u, a + 1, b);
    }
  }

  predicate AtMost(t: seq<Node>, x: nat, y: nat)
    requires x < |t| && y < |t|
  {
    t[x].count <= t[y].count
  }

  predicate Ascending(t: seq<Node>, a: nat, b: nat)
    requires a <= b <= |t|
  {
    forall x, y {:trigger AtMost(t, x, y)} :: a <= x < y < b ==> AtMost(t, x, y)
  }

  predicate ChildOf(t: seq<Node>, x: int, q: nat)
    requires q < |t|
  {
    t[q].left == x || t[q].right == x
  }

  /** Node x is a child of a parent before p. */
  ghost predicate Used(t: seq<Node>, n: nat, x: int, p: nat)
    requires p <= |t|
  {
    exists q :: n < q < p && ChildOf(t, x, q)
  }

  /** Node x, a leaf or a parent before p, has no parent before p. */
  ghost predicate Live(t: seq<Node>, n: nat, x: int, p: nat)
    requires p <= |t|
  {
    0 <= x < p && x != n && !Used(t, n, x, p)
  }

  /** Parent p joins two roots that are live then, of least count. */
  ghost predicate JoinsLeast(t: seq<Node>, n: nat, p: nat)
    requires p < |t|
  {
    var l, r := t[p].left, t[p].right;
    l != r && Live(t, n, l, p) && Live(t, n, r, p) && t[p].count == t[l].count + t[r].count &&
    (forall x :: Live(t, n, x, p) ==> t[l].count <= t[x].count && (x != l ==> t[r].count <= t[x].count))
  }

  /** The whole tree: leaves, a sentinel, and the parents from n + 1 to the root. */
  ghost predicate Built(t: seq<Node>, n: nat)
    requires 2 <= n && |t| == 2 * n + 1
  {
    (forall p :: n < p < 2 * n ==> JoinsLeast(t, n, p)) && Ascending(t, n + 1, 2 * n) &&
    (forall x :: 0 <= x < 2 * n - 1 && x != n ==> Used(t, n, x, 2 * n)) &&
    !Used(t, n, 2 * n - 1, 2 * n) && t[2 * n - 1].count == Sum(t, 0, n)
  }

  /** Every node but the root is a child, and of one parent only. */
  lemma ChildOnce(t: seq<Node>, n: nat, x: nat)
    requires 2 <= n && |t| == 2 * n + 1 && Built(t, n) && x < 2 * n - 1 && x != n
    ensures exists p :: n < p < 2 * n && ChildOf(t, x, p)
    ensures forall p, q :: n < p < 2 * n && n < q < 2 * n && ChildOf(t, x, p) && ChildOf(t, x, q) ==> p == q
  {
    assert Used(t, n, x, 2 * n);
    forall p, q | n < p < q < 2 * n && ChildOf(t, x, p)
      ensures !ChildOf(t, x, q)
    {
      assert JoinsLeast(t, n, q) && Used(t, n, x, q);
    }
  }

  predicate Taken(n: nat, i: nat, j: nat, x: int) {
    0 <= x < i || n < x < j
  }

  /** Where the merge stands after m parents: i leaves and the parents before j are
      used. */
  ghost predicate Sizes(t: seq<Node>, n: nat, m: nat, i: nat, j: nat) {
    2 <= n && |t| == 2 * n + 1 && m < n && i <= n < j <= n + 1 + m && i + (j - n - 1) == 2 * m &&
    (m > 0 ==> j <= n + m) && t[n] == SENTINEL && t[n + 1 + m] == SENTINEL
  }

  /** b is the greatest count used; no node that waits has less. */
  ghost predicate Rising(t: seq<Node>, n: nat, m: nat, i: nat, j: nat, b: nat)
    requires Sizes(t, n, m, i, j)
  {
    Ascending(t, 0, n) && Ascending(t, n + 1, n + 1 + m) && (m > 0 ==> t[n + m].count <= 2 * b) &&
    forall x :: Waiting(n, n + 1 + m, i, j, x) ==> b <= t[x].count
  }

  /** The counts that wait add up to those of the leaves. */
  ghost predicate Summed(t: seq<Node>, n: nat, m: nat, i: nat, j: nat)
    requires Sizes(t, n, m, i, j)
  {
    Sum(t, i, n) + Sum(t, j, n + 1 + m) == Sum(t, 0, n) < UINT32_MAX
  }

  ghost predicate Marked(t: seq<Node>, n: nat, m: nat, i: nat, j: nat)
    requires Sizes(t, n, m, i, j)
  {
    forall x :: Used(t, n, x, n + 1 + m) == Taken(n, i, j, x)
  }

  ghost predicate AllJoin(t: seq<Node>, n: nat, m: nat)
    requires n + m < |t|
  {
    forall p {:trigger JoinsLeast(t, n, p)} :: n < p <= n + m ==> JoinsLeast(t, n, p)
  }

  ghost predicate Counts(t: seq<Node>, n: nat, m: nat, i: nat, j: nat, b: nat) {
    Sizes(t, n, m, i, j) && Rising(t, n, m, i, j, b) && Summed(t, n, m, i, j)
  }

  ghost predicate Links(t: seq<Node>, n: nat, m: nat, i: nat, j: nat) {
    Sizes(t, n, m, i, j) && Marked(t, n, m, i, j) && AllJoin(t, n, m)
  }

  lemma {:induction false} SumAtLeast(t: seq<Node>, a: nat, b: nat, x: nat)
    requires a <= x < b <= |t|
    ensures t[x].count <= Sum(t, a, b)
    decreases b - a
  {
    if a < x {
      SumAtLeast(t, a + 1, b, x);
    }
  }

  /** The two queues: leaves from i, parents from j to e, each behind a sentinel. */
  ghost predicate Queues(t: seq<Node>, n: nat, e: nat, i: nat, j: nat) {
    i <= n < j <= e < |t| && t[n] == SENTINEL && t[e] == SENTINEL &&
    Ascending(t, 0, n) && Ascending(t, n + 1, e) &&
    (forall x :: i <= x < n ==> t[x].count < UINT32_MAX) && (forall x :: j <= x < e ==> t[x].count < UINT32_MAX)
  }

  predicate Waiting(n: nat, e: nat, i: nat, j: nat, x: int) {
    i <= x < n || j <= x < e
  }

  /** The next node to take. */
  function Head(t: seq<Node>, i: nat, j: nat): nat
    requires i < |t| && j < |t|
  {
    if t[i].count <= t[j].count then i else j
  }

  /** It waits, and none that waits has a lesser count. */
  lemma HeadLeast(t: seq<Node>, n: nat, e: nat, i: nat, j: nat)
    requires Queues(t, n, e, i, j) && (i < n || j < e)
    ensures Waiting(n, e, i, j, Head(t, i, j))
    ensures forall x :: Waiting(n, e, i, j, x) ==> t[Head(t, i, j)].count <= t[x].count
  {
    forall x | Waiting(n, e, i, j, x)
      ensures t[Head(t, i, j)].count <= t[x].count
    {
      if x < n {
        assert i < x ==> AtMost(t, i, x);
      } else {
        assert j < x ==> AtMost(t, j, x);
      }
    }
  }

  lemma StateQueues(t: seq<Node>, n: nat, m: nat, i: nat, j: nat, b: nat)
    requires Counts(t, n, m, i, j, b)
    ensures Queues(t, n, n + 1 + m, i, j)
  {
    forall x | i <= x < n
      ensures t[x].count < UINT32_MAX
    {
      SumAtLeast(t, i, n, x);
    }
    forall x | j <= x < n + 1 + m
      ensures t[x].count < UINT32_MAX
    {
      SumAtLeast(t, j, n + 1 + m, x);
    }
  }

  /** The queues after their node h is taken. */
  function Next(i: nat, j: nat, h: nat): (nat, nat) {
    if h == i then (i + 1, j) else (i, j + 1)
  }

  /** Taking the head of a queue takes its count from the sum. */
  lemma SumTake(t: seq<Node>, n: nat, e: nat, i: nat, j: nat, h: nat)
    requires i <= n < j <= e <= |t| && (h == i < n || h == j < e)
    ensures Sum(t, i, n) + Sum(t, j, e) == t[h].count + Sum(t, Next(i, j, h).0, n) + Sum(t, Next(i, j, h).1, e)
  {
  }

  /** t with a new parent at e. */
  function Joined(t: seq<Node>, e: nat, l: nat, r: nat): (u: seq<Node>)
    requires e + 1 < |t| && l < |t| && r < |t|
    ensures |u| == |t|
  {
    t[e := Node(t[l].count + t[r].count, l, r)][e + 1 := SENTINEL]
  }

  lemma UsedBefore(t: seq<Node>, n: nat, e: nat, l: nat, r: nat, x: int, p: nat)
    requires e + 1 < |t| && l < |t| && r < |t| && p <= e
    ensures Used(Joined(t, e, l, r), n, x, p) == Used(t, n, x, p)
  {
    var u := Joined(t, e, l, r);
    forall q | n < q < p
      ensures ChildOf(u, x, q) == ChildOf(t, x, q)
    {
    }
  }

  lemma UsedNow(t: seq<Node>, n: nat, e: nat, l: nat, r: nat, x: int)
    requires e + 1 < |t| && l < |t| && r < |t| && n < e
    ensures Used(Joined(t, e, l, r), n, x, e + 1) == (Used(t, n, x, e) || x == l || x == r)
  {
    var u := Joined(t, e, l, r);
    UsedBefore(t, n, e, l, r, x, e);
    assert ChildOf(u, x, e) == (x == l || x == r);
  }

  lemma JoinsBefore(t: seq<Node>, n: nat, e: nat, l: nat, r: nat, p: nat)
    requires e + 1 < |t| && l < |t| && r < |t| && p < e && JoinsLeast(t, n, p)
    ensures JoinsLeast(Joined(t, e, l, r), n, p)
  {
    var u := Joined(t, e, l, r);
    forall x
      ensures Live(u, n, x, p) == Live(t, n, x, p)
    {
      UsedBefore(t, n, e, l, r, x, p);
    }
  }

  /** The two nodes taken for parent number m: they wait, the first is least and the
      second is least among the others. */
  ghost predicate Picked(t: seq<Node>, n: nat, e: nat, i: nat, j: nat, l: nat, r: nat, i2: nat, j2: nat) {
    i <= i2 <= n < j <= j2 <= e < |t| && l != r && Waiting(n, e, i, j, l) && Waiting(n, e, i, j, r) &&
    i2 + j2 == i + j + 2 && (forall x :: Waiting(n, e, i, j, x) == (Waiting(n, e, i2, j2, x) || x == l || x == r)) &&
    (forall x :: x == l || x == r ==> !Waiting(n, e, i2, j2, x)) &&
    (forall x :: Waiting(n, e, i, j, x) ==> t[l].count <= t[x].count && (x != l ==> t[r].count <= t[x].count)) &&
    Sum(t, i, n) + Sum(t, j, e) == t[l].count + t[r].count + Sum(t, i2, n) + Sum(t, j2, e)
  }

  lemma Picks(t: seq<Node>, n: nat, e: nat, i: nat, j: nat)
    requires Queues(t, n, e, i, j) && n - i + e - j >= 2
    ensures var l := Head(t, i, j); var (i1, j1) := Next(i, j, l);
      i1 < |t| && j1 < |t| &&
      var r := Head(t, i1, j1); Picked(t, n, e, i, j, l, r, Next(i1, j1, r).0, Next(i1, j1, r).1)
  {
    HeadLeast(t, n, e, i, j);
    var l := Head(t, i, j);
    var (i1, j1) := Next(i, j, l);
    assert Queues(t, n, e, i1, j1);
    HeadLeast(t, n, e, i1, j1);
    SumTake(t, n, e, i, j, l);
    SumTake(t, n, e, i1, j1, Head(t, i1, j1));
  }

  lemma JoinsNow(t: seq<Node>, n: nat, m: nat, i: nat, j: nat, l: nat, r: nat, i2: nat, j2: nat)
    requires Sizes(t, n, m, i, j) && Marked(t, n, m, i, j) && m + 1 < n && Picked(t, n, n + 1 + m, i, j, l, r, i2, j2)
    ensures JoinsLeast(Joined(t, n + 1 + m, l, r), n, n + 1 + m)
  {
    var e := n + 1 + m;
    var u := Joined(t, e, l, r);
    forall x
      ensures Live(u, n, x, e) == Waiting(n, e, i, j, x)
    {
      UsedBefore(t, n, e, l, r, x, e);
      assert Used(t, n, x, e) == Taken(n, i, j, x);
    }
    assert Live(u, n, l, e) && Live(u, n, r, e);
  }

  lemma SumsNow(t: seq<Node>, n: nat, e: nat, l: nat, r: nat, i: nat, j: nat)
    requires e + 1 < |t| && l < e && r < e && i <= n < j <= e
    ensures var u := Joined(t, e, l, r);
      Sum(u, i, n) == Sum(t, i, n) && Sum(u, 0, n) == Sum(t, 0, n) &&
      Sum(u, j, e + 1) == Sum(t, j, e) + t[l].count + t[r].count
  {
    var u := Joined(t, e, l, r);
    SumSame(t, u, i, n);
    SumSame(t, u, 0, n);
    SumSame(t, u, j, e);
    SumMore(u, j, e);
  }

  lemma SizesNow(t: seq<Node>, n: nat, m: nat, i: nat, j: nat, l: nat, r: nat, i2: nat, j2: nat)
    requires Sizes(t, n, m, i, j) && m + 1 < n && Picked(t, n, n + 1 + m, i, j, l, r, i2, j2)
    ensures Sizes(Joined(t, n + 1 + m, l, r), n, m + 1, i2, j2)
  {
  }

  lemma MarkedNow(t: seq<Node>, n: nat, m: nat, i: nat, j: nat, l: nat, r: nat, i2: nat, j2: nat)
    requires Sizes(t, n, m, i, j) && Marked(t, n, m, i, j) && m + 1 < n && Picked(t, n, n + 1 + m, i, j, l, r, i2, j2)
    requires Sizes(Joined(t, n + 1 + m, l, r), n, m + 1, i2, j2)
    ensures Marked(Joined(t, n + 1 + m, l, r), n, m + 1, i2, j2)
  {
    var e := n + 1 + m;
    var u := Joined(t, e, l, r);
    forall x
      ensures Used(u, n, x, e + 1) == Taken(n, i2, j2, x)
    {
      UsedNow(t, n, e, l, r, x);
      assert Used(t, n, x, e) == Taken(n, i, j, x);
      assert Waiting(n, e, i, j, x) == (Waiting(n, e, i2, j2, x) || x == l || x == r);
    }
  }

  lemma RisingNow(t: seq<Node>, n: nat, m: nat, i: nat, j: nat, b: nat, l: nat, r: nat, i2: nat, j2: nat)
    requires Sizes(t, n, m, i, j) && Rising(t, n, m, i, j, b) && m + 1 < n
    requires Picked(t, n, n + 1 + m, i, j, l, r, i2, j2)
    requires Sizes(Joined(t, n + 1 + m, l, r), n, m + 1, i2, j2)
    ensures Rising(Joined(t, n + 1 + m, l, r), n, m + 1, i2, j2, t[r].count)
  {
    var e := n + 1 + m;
    var u := Joined(t, e, l, r);
    assert b <= t[l].count && b <= t[r].count && t[l].count <= t[r].count;
    forall x, y | n < x < y <= e
      ensures AtMost(u, x, y)
    {
      assert y < e ==> AtMost(t, x, y);
      assert x < n + m ==> AtMost(t, x, n + m);
    }
    forall x, y | 0 <= x < y < n
      ensures AtMost(u, x, y)
    {
      assert AtMost(t, x, y);
    }
    forall x | Waiting(n, e + 1, i2, j2, x)
      ensures t[r].count <= u[x].count
    {
      assert x != e ==> Waiting(n, e, i2, j2, x) && Waiting(n, e, i, j, x);
    }
  }

  lemma AllJoinBefore(t: seq<Node>, n: nat, m: nat, l: nat, r: nat, u: seq<Node>)
    requires n + 2 + m < |t| && l < |t| && r < |t| && AllJoin(t, n, m) && u == Joined(t, n + 1 + m, l, r)
    ensures AllJoin(u, n, m)
  {
    forall p | n < p <= n + m
      ensures JoinsLeast(u, n, p)
    {
      assert JoinsLeast(t, n, p);
      JoinsBefore(t, n, n + 1 + m, l, r, p);
    }
  }

  lemma AllJoinNow(u: seq<Node>, n: nat, m: nat)
    requires n + 1 + m < |u| && AllJoin(u, n, m) && JoinsLeast(u, n, n + 1 + m)
    ensures AllJoin(u, n, m + 1)
  {
  }

  lemma CountsNext(t: seq<Node>, n: nat, m: nat, i: nat, j: nat, b: nat, l: nat, r: nat, i2: nat, j2: nat)
    requires Counts(t, n, m, i, j, b) && m + 1 < n && Picked(t, n, n + 1 + m, i, j, l, r, i2, j2)
    ensures Counts(Joined(t, n + 1 + m, l, r), n, m + 1, i2, j2, t[r].count)
  {
    SizesNow(t, n, m, i, j, l, r, i2, j2);
    RisingNow(t, n, m, i, j, b, l, r, i2, j2);
    SumsNow(t, n, n + 1 + m, l, r, i2, j2);
  }

  lemma LinksNext(t: seq<Node>, n: nat, m: nat, i: nat, j: nat, l: nat, r: nat, i2: nat, j2: nat)
    requires Links(t, n, m, i, j) && m + 1 < n && Picked(t, n, n + 1 + m, i, j, l, r, i2, j2)
    ensures Links(Joined(t, n + 1 + m, l, r), n, m + 1, i2, j2)
  {
    SizesNow(t, n, m, i, j, l, r, i2, j2);
    MarkedNow(t, n, m, i, j, l, r, i2, j2);
    JoinsNow(t, n, m, i, j, l, r, i2, j2);
    AllJoinBefore(t, n, m, l, r, Joined(t, n + 1 + m, l, r));
    AllJoinNow(Joined(t, n + 1 + m, l, r), n, m);
  }

  /** The end: one node waits, the last parent. */
  lemma Ends(t: seq<Node>, n: nat, i: nat, j: nat, b: nat)
    requires 2 <= n && Counts(t, n, n - 1, i, j, b) && Links(t, n, n - 1, i, j)
    ensures Built(t, n)
  {
    assert i == n && j == 2 * n - 1;
    assert Sum(t, 2 * n - 1, 2 * n) == t[2 * n - 1].count;
    forall x | 0 <= x < 2 * n - 1 && x != n
      ensures Used(t, n, x, 2 * n)
    {
      assert Used(t, n, x, 2 * n) == Taken(n, i, j, x);
    }
    assert Used(t, n, 2 * n - 1, 2 * n) == Taken(n, i, j, 2 * n - 1);
  }

  /** Takes the next node. */
  method Take(tree: array<Node>, i0: nat, j0: nat) returns (x: nat, i: nat, j: nat)
    requires i0 < tree.Length && j0 < tree.Length
    ensures x == Head(tree[..], i0, j0) && (i, j) == Next(i0, j0, x)
  {
    if tree[i0].count <= tree[j0].count {
      x, i, j := i0, i0 + 1, j0;
    } else {
      x, i, j := j0, i0, j0 + 1;
    }
  }

  /** Makes parent number m. */
  method MergeOne(tree: array<Node>, n: nat, m: nat, i: nat, j: nat, ghost b: nat)
    returns (i2: nat, j2: nat, ghost b2: nat)
    requires m + 1 < n && Counts(tree[..], n, m, i, j, b) && Links(tree[..], n, m, i, j)
    modifies tree
    ensures Counts(tree[..], n, m + 1, i2, j2, b2) && Links(tree[..], n, m + 1, i2, j2)
    ensures forall x :: 0 <= x < n ==> tree[x] == old(tree[x])
  {
    ghost var t := tree[..];
    var left, right;
    left, right, i2, j2 := TakeTwo(tree, n, m, i, j, b);
    CountsNext(t, n, m, i, j, b, left, right, i2, j2);
    LinksNext(t, n, m, i, j, left, right, i2, j2);
    b2 := t[right].count;
    AddParent(tree, n + 1 + m, left, right, t);
  }

  /** Takes the two nodes for parent number m. */
  method TakeTwo(tree: array<Node>, n: nat, m: nat, i: nat, j: nat, ghost b: nat)
    returns (left: nat, right: nat, i2: nat, j2: nat)
    requires m + 1 < n && Counts(tree[..], n, m, i, j, b)
    ensures Picked(tree[..], n, n + 1 + m, i, j, left, right, i2, j2)
  {
    StateQueues(tree[..], n, m, i, j, b);
    Picks(tree[..], n, n + 1 + m, i, j);
    var i1, j1;
    left, i1, j1 := Take(tree, i, j);
    right, i2, j2 := Take(tree, i1, j1);
  }

  /** The merge of n sorted leaves whose counts add up to less than UINT32_MAX. */
  method MergeTrees(tree: array<Node>, n: nat)
    requires 2 <= n < 0x4000 && tree.Length == 2 * n + 1 && Ascending(tree[..], 0, n)
    requires Sum(tree[..], 0, n) < UINT32_MAX
    modifies tree
    ensures Built(tree[..], n) && forall x :: 0 <= x < n ==> tree[x] == old(tree[x])
  {
    tree[n] := SENTINEL;
    tree[n + 1] := SENTINEL;
    var i: nat, j: nat, k: nat := 0, n + 1, n - 1;
    ghost var b: nat := 0;
    Starts(old(tree[..]), tree[..], n);
    while k > 0
      invariant 0 <= k <= n - 1 && Counts(tree[..], n, n - 1 - k, i, j, b) && Links(tree[..], n, n - 1 - k, i, j)
      invariant forall x :: 0 <= x < n ==> tree[x] == old(tree[x])
    {
      i, j, b := MergeOne(tree, n, n - 1 - k, i, j, b);
      k := k - 1;
    }
    Ends(tree[..], n, i, j, b);
  }

  /** The last sentinel becomes a parent, and a sentinel is added back. */
  method AddParent(tree: array<Node>, e: nat, left: nat, right: nat, ghost t: seq<Node>)
    requires tree[..] == t && e + 1 < tree.Length && left < e && right < e
    modifies tree
    ensures tree[..] == Joined(t, e, left, right)
    ensures forall x :: 0 <= x < e ==> tree[x] == t[x]
  {
    tree[e] := Node(tree[left].count + tree[right].count, left, right);
    tree[e + 1] := SENTINEL;
  }

  lemma Starts(t: seq<Node>, u: seq<Node>, n: nat)
    requires 2 <= n && |t| == |u| == 2 * n + 1 && Ascending(t, 0, n) && Sum(t, 0, n) < UINT32_MAX
    requires u[n] == SENTINEL && u[n + 1] == SENTINEL && forall x :: 0 <= x < n ==> t[x] == u[x]
    ensures Counts(u, n, 0, 0, n + 1, 0) && Links(u, n, 0, 0, n + 1)
  {
    SumSame(t, u, 0, n);
    forall x, y | 0 <= x < y < n
      ensures AtMost(u, x, y)
    {
      assert AtMost(t, x, y);
    }
  }
}
