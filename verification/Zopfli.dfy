/** The Zopfli parser: the evaluation of nodes (contrib/brotli/enc/backward_references_hq.c). */
module Zopfli {
  import opened Common
  import opened Distances
  import opened Commands
  import opened ZopfliNodes
  import opened ZopfliQueue

  /** Costs are arbitrary, except that a run of literals costs less than infinity. */
  datatype Model = Model(literal: nat -> real, insertCode: nat -> nat, insertExtra: nat -> real,
                         copyCode: nat -> nat, copyExtra: nat -> real, combine: (nat, nat, bool) -> nat,
                         command: nat -> real, distance: nat -> real, distanceSymbol: nat -> nat,
                         distanceExtra: nat -> real, minCommand: real)

  ghost predicate Cheap(m: Model) {
    m.literal(0) == 0.0 && forall i: nat :: m.literal(i) < INFINITY
  }

  /** The nodes hold the evaluated prefix f, and pending nodes after it. */
  ghost predicate State(e: Env, f: seq<Node>, nodes: array<Node>)
    reads nodes
  {
    |f| <= nodes.Length == e.numBytes + 1 && Frozen(e, f) &&
    (forall i :: 0 <= i < |f| ==> nodes[i] == f[i]) &&
    (forall i {:trigger Pending(e, f, nodes[i], i)} :: |f| <= i < nodes.Length ==> Pending(e, f, nodes[i], i))
  }

  /** A queue entry is a live node with the distances of its path. */
  ghost predicate Startable(e: Env, f: seq<Node>, p: PosData) {
    p.pos < |f| && Live(f, p.pos) && p.cache == CacheAt(e, f, p.pos)
  }

  ghost predicate AllStartable(e: Env, f: seq<Node>, ps: seq<PosData>) {
    forall k :: 0 <= k < |ps| ==> Startable(e, f, ps[k])
  }

  lemma ShortOfNew(e: Env, f: seq<Node>, n: Node)
    requires Frozen(e, f) && 0 < |f| && Good(e, f, n, |f|)
    ensures 0 <= |f| - CommandLength(n) < |f| && f[|f| - CommandLength(n)].u.Shortcut?
    ensures Short(e, f + [n], |f|) == if Pushes(e, n, |f|) then |f| else f[|f| - CommandLength(n)].u.shortcut
  {
    var g, p := f + [n], |f| - CommandLength(n);
    assert g[|f|] == n && Agree(f, g);
    CacheAgrees(e, f, g, p);
    assert Settled(e, f, f[p], p);
  }

  lemma ChainStart(e: Env, f: seq<Node>, i: nat)
    requires Frozen(e, f) && i < |f| && Live(f, i)
    ensures f[i].u.Shortcut? && f[i].u.shortcut < |f| && Live(f, f[i].u.shortcut)
    ensures Gather(e, f, f[i].u.shortcut, 4) == CacheAt(e, f, i)
  {
    assert Settled(e, f, f[i], i);
    GatherRight(e, f, i, 4);
    ShortLive(e, f, i);
    var c := CacheAt(e, f, i);
    assert c[..4] == c;
  }

  lemma ChainStep(e: Env, f: seq<Node>, p: nat, n: nat)
    requires Frozen(e, f) && 0 < p < |f| && Live(f, p) && 0 < n <= 4
    ensures 0 <= p - CommandLength(f[p]) < p && f[p - CommandLength(f[p])].u.Shortcut?
    ensures f[p - CommandLength(f[p])].u.shortcut < p && Live(f, f[p - CommandLength(f[p])].u.shortcut)
    ensures Gather(e, f, p, n) == [CopyDistance(f[p])] + Gather(e, f, f[p - CommandLength(f[p])].u.shortcut, n - 1)
  {
    assert Settled(e, f, f[p], p);
    var q := p - CommandLength(f[p]);
    assert Settled(e, f, f[q], q);
    ShortLive(e, f, q);
  }

  /** ComputeDistanceShortcut. */
  method ComputeDistanceShortcut(e: Env, pos: nat, nodes: array<Node>, ghost f: seq<Node>) returns (s: nat)
    requires State(e, f, nodes) && pos == |f| < e.numBytes
    ensures pos == 0 || !IsStub(nodes[pos]) ==> s == Short(e, f + [nodes[pos]], pos)
  {
    assert Pending(e, f, nodes[pos], pos);
    if pos == 0 {
      s := 0;
    } else {
      if !IsStub(nodes[pos]) {
        ShortOfNew(e, f, nodes[pos]);
      }
      if Pushes(e, nodes[pos], pos) {
        s := pos;
      } else {
        s := nodes[pos - CommandLength(nodes[pos])].u.shortcut;
      }
    }
  }

  /** The distances on the shortcut chain from p0, at most four. */
  method FollowShortcuts(e: Env, p0: nat, nodes: array<Node>, ghost f: seq<Node>) returns (c: seq<int>)
    requires Frozen(e, f) && |f| <= nodes.Length && forall i :: 0 <= i < |f| ==> nodes[i] == f[i]
    requires p0 < |f| && Live(f, p0)
    ensures |c| <= 4 && c + e.cache[..4 - |c|] == Gather(e, f, p0, 4)
  {
    var p := p0;
    c := [];
    ghost var rest := Gather(e, f, p0, 4);
    while |c| < 4 && p > 0
      invariant |c| <= 4 && 0 <= p < |f| && Live(f, p)
      invariant rest == Gather(e, f, p, 4 - |c|) && c + rest == Gather(e, f, p0, 4)
      decreases p
    {
      ChainStep(e, f, p, 4 - |c|);
      var d := CopyDistance(nodes[p]);
      p := nodes[p - CommandLength(nodes[p])].u.shortcut;
      rest := Gather(e, f, p, 3 - |c|);
      Regroup(c, d, rest);
      c := c + [d];
    }
  }

  /** ComputeDistanceCache: the shortcut chain gives the replayed distances. */
  method ComputeDistanceCache(e: Env, pos: nat, nodes: array<Node>, ghost f: seq<Node>) returns (c: seq<int>)
    requires Frozen(e, f) && |f| <= nodes.Length && forall i :: 0 <= i < |f| ==> nodes[i] == f[i]
    requires pos < |f| && Live(f, pos)
    ensures c == CacheAt(e, f, pos)
  {
    ChainStart(e, f, pos);
    var got := FollowShortcuts(e, nodes[pos].u.shortcut, nodes, f);
    c := Fill(got, e.cache);
  }

  method Fill(got: seq<int>, start: Cache) returns (c: seq<int>)
    requires |got| <= 4
    ensures c == got + start[..4 - |got|]
  {
    var from := 0;
    c := got;
    while |c| < 4
      invariant |got| <= |c| <= 4 && from == |c| - |got|
      invariant c == got + start[..from]
    {
      c, from := c + [start[from]], from + 1;
    }
  }

  lemma Regroup(a: seq<int>, x: int, b: seq<int>)
    ensures (a + [x]) + b == a + ([x] + b)
  {
  }

  lemma Evaluated(e: Env, f: seq<Node>, n: Node, s: nat)
    requires Frozen(e, f) && Pending(e, f, n, |f|) && |f| < e.numBytes
    requires |f| == 0 || !IsStub(n) ==> s == Short(e, f + [n], |f|)
    ensures Frozen(e, f + [n.(u := Shortcut(s))])
  {
    var x := n.(u := Shortcut(s));
    var a, b := f + [n], f + [x];
    assert Agree(a, b) && Agree(f, b);
    CacheAgrees(e, a, b, |f|);
    if |f| > 0 && !IsStub(n) {
      GoodAgrees(e, f, b, n, x, |f|);
    }
    FrozenGrows(e, f, x);
  }

  lemma StartableGrows(e: Env, f: seq<Node>, x: Node, ps: seq<PosData>)
    requires AllStartable(e, f, ps)
    ensures AllStartable(e, f + [x], ps)
  {
    var g := f + [x];
    assert Agree(f, g);
    forall k | 0 <= k < |ps|
      ensures Startable(e, g, ps[k])
    {
      assert Startable(e, f, ps[k]);
      CacheAgrees(e, f, g, ps[k].pos);
    }
  }

  lemma {:induction false} StartableInserts(e: Env, f: seq<Node>, p: PosData, ps: seq<PosData>)
    requires Startable(e, f, p) && AllStartable(e, f, ps)
    ensures AllStartable(e, f, Insert(p, ps))
    decreases |ps|
  {
    if ps != [] {
      assert forall k :: 0 <= k < |ps[1..]| ==> ps[1..][k] == ps[k + 1];
      StartableInserts(e, f, p, ps[1..]);
    }
  }

  /** Writes the shortcut of node 'pos', which makes it evaluated. */
  method Settle(e: Env, pos: nat, nodes: array<Node>, ghost f: seq<Node>) returns (ghost x: Node)
    requires State(e, f, nodes) && pos == |f| < e.numBytes
    modifies nodes
    ensures State(e, f + [x], nodes) && SameCommand(x, old(nodes[pos]))
    ensures forall i :: 0 <= i < nodes.Length && i != pos ==> nodes[i] == old(nodes[i])
  {
    assert Pending(e, f, nodes[pos], pos);
    var s := ComputeDistanceShortcut(e, pos, nodes, f);
    Evaluated(e, f, nodes[pos], s);
    x := nodes[pos].(u := Shortcut(s));
    forall i | pos < i < nodes.Length
      ensures Pending(e, f + [x], nodes[i], i)
    {
      assert Pending(e, f, nodes[i], i);
      PendingGrows(e, f, x, nodes[i], i);
    }
    nodes[pos] := nodes[pos].(u := Shortcut(s));
  }

  /** The part of EvaluateNode that queues a node as a command start. */
  method PushNode(e: Env, m: Model, pos: nat, cost: real, queue: StartPosQueue, nodes: array<Node>, ghost f: seq<Node>)
    requires Frozen(e, f) && |f| <= nodes.Length && (forall i :: 0 <= i < |f| ==> nodes[i] == f[i])
    requires pos < |f| && Live(f, pos) && m.literal(0) == 0.0
    requires queue.Valid() && AllStartable(e, f, queue.View())
    modifies queue, queue.q
    ensures queue.Valid() && AllStartable(e, f, queue.View()) && queue.idx > 0
    ensures queue.View() ==
      Pushed(PosData(pos, CacheAt(e, f, pos), cost - m.literal(pos), cost), old(queue.View()))
  {
    var c := ComputeDistanceCache(e, pos, nodes, f);
    var p := PosData(pos, c, cost - (m.literal(pos) - m.literal(0)), cost);
    ghost var view := queue.View();
    StartableInserts(e, f, p, if |view| < 8 then view else view[..7]);
    queue.Push(p);
  }

  /** EvaluateNode. */
  method EvaluateNode(e: Env, m: Model, pos: nat, queue: StartPosQueue, nodes: array<Node>, ghost f: seq<Node>)
    returns (ghost x: Node)
    requires State(e, f, nodes) && pos == |f| < e.numBytes && Cheap(m)
    requires queue.Valid() && AllStartable(e, f, queue.View())
    modifies nodes, queue, queue.q
    ensures State(e, f + [x], nodes) && forall i :: 0 <= i < nodes.Length && i != pos ==> nodes[i] == old(nodes[i])
    ensures SameCommand(x, old(nodes[pos])) && queue.Valid() && AllStartable(e, f + [x], queue.View())
    ensures old(nodes[pos].u.Cost?) && queue.View() ==
      if old(nodes[pos].u.cost) <= m.literal(pos) then
        Pushed(PosData(pos, CacheAt(e, f + [x], pos), old(nodes[pos].u.cost) - m.literal(pos), old(nodes[pos].u.cost)),
               old(queue.View()))
      else old(queue.View())
    ensures pos == 0 || old(queue.idx) > 0 ==> queue.idx > 0
  {
    assert Pending(e, f, nodes[pos], pos);
    var cost := nodes[pos].u.cost;
    ghost var view := queue.View();
    x := Settle(e, pos, nodes, f);
    assert queue.View() == view;
    StartableGrows(e, f, x, view);
    if cost <= m.literal(pos) - m.literal(0) {
      PushNode(e, m, pos, cost, queue, nodes, f + [x]);
    }
  }

  /** FindMatchLengthWithLimit: the longest run from b that repeats what is d before. */
  function MatchLength(text: seq<nat>, b: nat, d: nat, limit: nat): (n: nat)
    requires d <= b && b + limit <= |text|
    ensures n <= limit
    decreases limit
  {
    if limit == 0 || text[b] != text[b - d] then 0
    else 1 + MatchLength(text, b + 1, d, limit - 1)
  }

  /** What it finds is a copy, and a longer one would not be. */
  lemma {:induction false} MatchRepeats(text: seq<nat>, b: nat, d: nat, limit: nat)
    requires 0 < d <= b && b + limit <= |text|
    ensures forall k :: b <= k < b + MatchLength(text, b, d, limit) ==> Repeats(text, k, d)
    ensures var n := MatchLength(text, b, d, limit); n < limit ==> text[b + n] != text[b + n - d]
    decreases limit
  {
    if limit > 0 && text[b] == text[b - d] {
      MatchRepeats(text, b + 1, d, limit - 1);
    }
  }

  lemma MatchCopies(st: Stream, p: nat, d: nat, limit: nat)
    requires 0 < d <= p && p + limit <= |st.text| && !InDictionary(d, p, st.maxBackward)
    ensures Copies(st, p, d, MatchLength(st.text, p, d, limit), MatchLength(st.text, p, d, limit))
  {
    MatchRepeats(st.text, p, d, limit);
  }
}
