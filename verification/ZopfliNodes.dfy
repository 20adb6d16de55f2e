/** Nodes of the Zopfli parser, the distance cache along a path of nodes and the
    shortcut chain that rebuilds it (contrib/brotli/enc/backward_references_hq.c). */
module ZopfliNodes {
  import opened Common
  import opened Distances
  import opened Commands

  /** kInfinity. */
  const INFINITY: real := 1.7e38

  /** The union of a node: which member it holds is part of the value, so reading a
      member other than the one written last is an error here. */
  datatype Slot = Cost(cost: real) | Shortcut(shortcut: nat) | Next(next: nat)

  datatype Node = Node(length: nat, distance: nat, insertLength: nat, u: Slot)

  const STUB: Node := Node(1, 0, 0, Cost(INFINITY))

  function CopyLength(n: Node): nat { n.length % WIDE }

  function LengthCode(n: Node): nat { (CopyLength(n) + 9 - n.length / WIDE) % 0x1_0000_0000 }

  function CopyDistance(n: Node): nat { n.distance % 0x200_0000 }

  function DistanceCode(n: Node): nat {
    if n.distance / 0x200_0000 == 0 then CopyDistance(n) + SHORT_CODES - 1 else n.distance / 0x200_0000 - 1
  }

  function CommandLength(n: Node): nat { CopyLength(n) + n.insertLength }

  predicate IsStub(n: Node) { n.insertLength == 0 && n.length == 1 }

  /** The block being parsed, the cache before it, and the parameters. */
  datatype Env = Env(st: Stream, start: nat, numBytes: nat, cache: Cache, ringMask: nat,
                     maxZopfliLen: nat, maxIters: nat)

  /** Blocks have at most 2^24 bytes. */
  ghost predicate Sound(e: Env) {
    e.start + e.numBytes <= |e.st.text| < 0x8000_0000_0000_0000 && e.numBytes <= WIDE && Distances.Sane(e.cache)
  }

  predicate Live(f: seq<Node>, i: nat)
    requires i < |f|
  {
    i == 0 || !IsStub(f[i])
  }

  /** Whether node i has a predecessor in f. */
  predicate Inner(f: seq<Node>, i: nat) {
    0 < i < |f| && 0 < CommandLength(f[i]) <= i
  }

  function Prev(f: seq<Node>, i: nat): (p: nat)
    requires Inner(f, i)
    ensures p < i
  {
    i - CommandLength(f[i])
  }

  /** The last four distances at node i: the commands on its path are replayed. */
  function CacheAt(e: Env, f: seq<Node>, i: nat): Cache
    decreases i
  {
    if !Inner(f, i) || CopyLength(f[i]) > e.start + i then e.cache
    else Distances.After(CacheAt(e, f, Prev(f, i)), DistanceCode(f[i]), CopyDistance(f[i]),
                         e.start + i - CopyLength(f[i]), e.st.maxBackward)
  }

  /** Node n, to stand at position i, extends a live node of f by a command whose
      distance code means its distance there, and the text has that copy. */
  ghost predicate Good(e: Env, f: seq<Node>, n: Node, i: nat) {
    2 <= CopyLength(n) && CommandLength(n) <= i && i - CommandLength(n) < |f| && Live(f, i - CommandLength(n)) &&
    Decode(DistanceCode(n), CacheAt(e, f, i - CommandLength(n))) == CopyDistance(n) &&
    Copies(e.st, e.start + i - CopyLength(n), CopyDistance(n), CopyLength(n), LengthCode(n))
  }

  predicate Root(n: Node) { n.length == 0 && n.insertLength == 0 }

  predicate Pushes(e: Env, n: Node, i: nat) {
    CopyDistance(n) + CopyLength(n) <= e.start + i && CopyDistance(n) <= e.st.maxBackward && DistanceCode(n) > 0
  }

  /** The latest node on the path to i that pushes a distance, or 0. */
  function Short(e: Env, f: seq<Node>, i: nat): (s: nat)
    ensures s <= i
    decreases i
  {
    if !Inner(f, i) || CopyLength(f[i]) > e.start + i then 0
    else if Pushes(e, f[i], i) then i
    else Short(e, f, Prev(f, i))
  }

  /** The n distances read by following shortcuts from p. */
  function Gather(e: Env, f: seq<Node>, p: nat, n: nat): seq<int>
    requires n <= 4
    decreases p
  {
    if n == 0 then []
    else if !Inner(f, p) then e.cache[..n]
    else [CopyDistance(f[p])] + Gather(e, f, Short(e, f, Prev(f, p)), n - 1)
  }

  /** Following the shortcuts is replaying the commands. */
  lemma {:induction false} GatherRight(e: Env, f: seq<Node>, i: nat, n: nat)
    requires n <= 4
    ensures CacheAt(e, f, i)[..n] == Gather(e, f, Short(e, f, i), n)
    decreases i
  {
    if Inner(f, i) && CopyLength(f[i]) <= e.start + i {
      GatherRight(e, f, Prev(f, i), n);
      if Pushes(e, f[i], i) && n > 0 {
        GatherRight(e, f, Prev(f, i), n - 1);
        var c := CacheAt(e, f, Prev(f, i));
        assert Push(c, CopyDistance(f[i]))[..n] == [CopyDistance(f[i])] + c[..n - 1];
      }
    }
  }

  /** Nodes already evaluated: stubs, or good nodes that hold their shortcut. */
  ghost predicate Frozen(e: Env, f: seq<Node>) {
    forall i {:trigger Settled(e, f, f[i], i)} :: 0 <= i < |f| ==> Settled(e, f, f[i], i)
  }

  ghost predicate Settled(e: Env, f: seq<Node>, n: Node, i: nat) {
    n.u.Shortcut? && (if i == 0 then Root(n) else IsStub(n) || Good(e, f, n, i)) &&
    (i == 0 || !IsStub(n) ==> n.u.shortcut == Short(e, f, i))
  }

  /** What a copy of a whole block of 2^24 bytes leaves at its end: a command of length 0. */
  predicate Void(e: Env, n: Node, i: nat) {
    i == e.numBytes == WIDE && n.insertLength == 0 && CopyLength(n) == 0
  }

  /** A node not yet evaluated. */
  ghost predicate Pending(e: Env, f: seq<Node>, n: Node, i: nat) {
    n.u.Cost? &&
    if i == 0 then Root(n) && n.u.cost == 0.0
    else if IsStub(n) then n.distance == 0 && n.u.cost == INFINITY
    else n.u.cost < INFINITY && (Good(e, f, n, i) || Void(e, n, i))
  }

  predicate SameCommand(a: Node, b: Node) {
    a.length == b.length && a.distance == b.distance && a.insertLength == b.insertLength
  }

  predicate Agree(f: seq<Node>, g: seq<Node>) {
    |f| <= |g| && forall k :: 0 <= k < |f| ==> SameCommand(f[k], g[k])
  }

  lemma {:induction false} CacheAgrees(e: Env, f: seq<Node>, g: seq<Node>, i: nat)
    requires Agree(f, g) && i < |f|
    ensures CacheAt(e, f, i) == CacheAt(e, g, i) && Short(e, f, i) == Short(e, g, i)
    decreases i
  {
    assert SameCommand(f[i], g[i]);
    if Inner(f, i) {
      CacheAgrees(e, f, g, Prev(f, i));
    }
  }

  lemma GoodAgrees(e: Env, f: seq<Node>, g: seq<Node>, n: Node, m: Node, i: nat)
    requires Agree(f, g) && SameCommand(n, m) && Good(e, f, n, i)
    ensures Good(e, g, m, i)
  {
    var p := i - CommandLength(n);
    assert SameCommand(f[p], g[p]);
    CacheAgrees(e, f, g, p);
  }

  /** Evaluating one more node keeps what is known of the earlier ones. */
  lemma FrozenGrows(e: Env, f: seq<Node>, x: Node)
    requires Frozen(e, f) && Settled(e, f + [x], x, |f|)
    ensures Frozen(e, f + [x])
  {
    var g := f + [x];
    assert Agree(f, g);
    forall i | 0 <= i < |g|
      ensures Settled(e, g, g[i], i)
    {
      if i < |f| {
        assert Settled(e, f, f[i], i);
        CacheAgrees(e, f, g, i);
        if i > 0 && !IsStub(f[i]) {
          GoodAgrees(e, f, g, f[i], g[i], i);
        }
      }
    }
  }

  lemma PendingGrows(e: Env, f: seq<Node>, x: Node, n: Node, i: nat)
    requires Pending(e, f, n, i)
    ensures Pending(e, f + [x], n, i)
  {
    assert Agree(f, f + [x]);
    if i > 0 && !IsStub(n) && !Void(e, n, i) {
      GoodAgrees(e, f, f + [x], n, n, i);
    }
  }

  /** Shortcuts of live nodes lead to live nodes. */
  lemma {:induction false} ShortLive(e: Env, f: seq<Node>, i: nat)
    requires Frozen(e, f) && i < |f| && Live(f, i)
    ensures Live(f, Short(e, f, i))
    decreases i
  {
    assert Settled(e, f, f[i], i);
    if Inner(f, i) {
      ShortLive(e, f, Prev(f, i));
    }
  }

  /** UpdateZopfliNode's packing into 32-bit words.  The accessors undo it exactly when
      the copy length has 24 bits. */
  function Packed(len: nat, lenCode: nat, dist: nat, shortCode: nat, insertLength: nat, cost: real): (n: Node)
    requires lenCode <= len + 9 < lenCode + 256 && dist < 0x200_0000 && shortCode <= 16
    ensures CopyLength(n) == len <==> len < WIDE
    ensures len < WIDE ==> LengthCode(n) == lenCode && CommandLength(n) == len + insertLength
    ensures CopyDistance(n) == dist && DistanceCode(n) == if shortCode == 0 then dist + 15 else shortCode - 1
  {
    Node(len % WIDE + Or(len / WIDE, len + 9 - lenCode) % 256 * WIDE, dist + shortCode * 0x200_0000, insertLength,
         Cost(cost))
  }

  /** A copy of 2^24 bytes without literals reads back as a command of length 0. */
  lemma WholeLost(dist: nat, shortCode: nat, cost: real)
    requires dist < 0x200_0000 && shortCode <= 16
    ensures var n := Packed(WIDE, WIDE, dist, shortCode, 0, cost);
      n.length == 9 * WIDE && CopyLength(n) == 0 && CommandLength(n) == 0 && LengthCode(n) == 0 && !IsStub(n)
  {
    assert Or(1, 9) == 2 * Or(0, 4) + 1;
  }
}
