/** The Zopfli parser as a whole: the pass over a block, the backtrace along the
    chosen nodes and the commands (contrib/brotli/enc/backward_references_hq.c). */
module ZopfliPath {
  import opened Distances
  import opened Commands
  import opened ZopfliNodes
  import opened ZopfliQueue
  import opened Zopfli
  import opened ZopfliCopies
  import opened ZopfliSearch

  /** BROTLI_LONG_COPY_QUICK_STEP. */
  const QUICK_STEP: nat := 16384

  const UINT32_MAX: nat := 0xFFFF_FFFF

  /** The node array as documented: each node but the first is a stub or extends
      another node that is not. */
  ghost predicate Joined(e: Env, ns: seq<Node>, i: nat)
    requires i < |ns|
  {
    if i == 0 then Root(ns[0]) else IsStub(ns[i]) || Good(e, ns, ns[i], i)
  }

  ghost predicate AllJoined(e: Env, ns: seq<Node>) {
    0 < |ns| && forall i {:trigger Joined(e, ns, i)} :: 0 <= i < |ns| ==> Joined(e, ns, i)
  }

  lemma StateJoins(e: Env, f: seq<Node>, nodes: array<Node>)
    requires State(e, f, nodes)
    ensures AllJoined(e, nodes[..]) <==> !Broken(e, nodes[..])
  {
    var ns := nodes[..];
    assert Agree(f, ns);
    if Broken(e, ns) {
      assert !Joined(e, ns, e.numBytes);
      return;
    }
    forall i | 0 <= i < |ns|
      ensures Joined(e, ns, i)
    {
      if i < |f| {
        assert Settled(e, f, f[i], i);
      } else {
        assert Pending(e, f, nodes[i], i);
      }
      if i > 0 && !IsStub(ns[i]) {
        GoodAgrees(e, f, ns, ns[i], ns[i], i);
      }
    }
  }

  lemma JoinedAgrees(e: Env, ns: seq<Node>, ms: seq<Node>)
    requires AllJoined(e, ns) && Agree(ns, ms) && |ns| == |ms|
    ensures AllJoined(e, ms)
  {
    forall i | 0 <= i < |ms|
      ensures Joined(e, ms, i)
    {
      assert Joined(e, ns, i) && SameCommand(ns[i], ms[i]);
      if i > 0 && !IsStub(ns[i]) {
        GoodAgrees(e, ns, ms, ns[i], ms[i], i);
      }
    }
  }

  /** The matches given to UpdateNodes: a very long last match alone, or all. */
  function Kept(e: Env, ts: seq<Match>): seq<Match> {
    if |ts| > 0 && ts[|ts| - 1].len > e.maxZopfliLen then [ts[|ts| - 1]] else ts
  }

  ghost predicate Honest(e: Env, find: nat -> seq<Match>) {
    forall i, j {:trigger find(i)[j]} :: 0 <= i < e.numBytes && 0 <= j < |find(i)| ==> Plausible(e, i, find(i)[j])
  }

  /** Evaluates the nodes inside a long copy; stops three bytes before the end. */
  method SkipCopy(e: Env, m: Model, i0: nat, skip0: nat, queue: StartPosQueue, nodes: array<Node>, ghost f0: seq<Node>)
    returns (i: nat, ghost f: seq<Node>)
    requires State(e, f0, nodes) && |f0| == i0 + 1 && i0 + 3 < e.numBytes && Cheap(m)
    requires queue.Valid() && AllStartable(e, f0, queue.View()) && queue.idx > 0
    modifies nodes, queue, queue.q
    ensures State(e, f, nodes) && |f| <= i + 1 && (i + 4 < e.numBytes ==> |f| == i + 1)
    ensures i0 <= i && i + 3 <= e.numBytes
    ensures Agree(old(nodes[..]), nodes[..]) && forall h :: i < h < nodes.Length ==> nodes[h] == old(nodes[h])
    ensures if i0 + skip0 + 3 >= e.numBytes then i + 3 >= e.numBytes else i == i0 + skip0
    ensures queue.Valid() && AllStartable(e, f, queue.View()) && queue.idx > 0
  {
    i, f := i0, f0;
    var skip := skip0;
    while skip != 0
      invariant State(e, f, nodes) && |f| == i + 1 && i + 3 < e.numBytes && i0 <= i && i + skip == i0 + skip0
      invariant Agree(old(nodes[..]), nodes[..]) && forall h :: i < h < nodes.Length ==> nodes[h] == old(nodes[h])
      invariant queue.Valid() && AllStartable(e, f, queue.View()) && queue.idx > 0
      decreases skip
    {
      i := i + 1;
      if i + 3 >= e.numBytes {
        break;
      }
      ghost var x := EvaluateNode(e, m, i, queue, nodes, f);
      f := f + [x];
      skip := skip - 1;
    }
  }

  /** One call of UpdateNodes: at pos, with the queue ps, it makes ms of the nodes ns. */
  datatype Visit = Visit(pos: nat, ps: seq<PosData>, minLen: nat, ns: seq<Node>, ms: seq<Node>, result: nat)

  ghost predicate Visits(e: Env, m: Model, find: nat -> seq<Match>, v: Visit) {
    Updates(e, m, v.pos, v.ps, Kept(e, find(v.pos)), v.minLen, v.ns, v.ms, v.result) &&
    Lawful(v.ns, v.ms, v.result, v.pos, Tried(e, m, v.pos, v.ps, Kept(e, find(v.pos)), v.minLen))
  }

  /** How far the pass goes on after a call with matches ts that took a copy of r bytes. */
  function Stride(e: Env, ts: seq<Match>, r: nat): nat {
    var quick := if r < QUICK_STEP then 0 else r;
    Max(1, if |ts| == 1 && ts[0].len > e.maxZopfliLen then Max(ts[0].len, quick) else quick)
  }

  function NextPos(e: Env, find: nat -> seq<Match>, v: Visit): nat {
    v.pos + Stride(e, Kept(e, find(v.pos)), v.result)
  }

  /** From one call to the next, nodes are evaluated only: they keep their commands, and
      those behind the next position are untouched. */
  ghost predicate Follows(e: Env, find: nat -> seq<Match>, v: Visit, w: Visit) {
    w.pos == NextPos(e, find, v) && Agree(v.ms, w.ns) && |v.ms| == |w.ns| &&
    forall i :: w.pos < i < |w.ns| ==> w.ns[i] == v.ms[i]
  }

  ghost predicate AllVisit(e: Env, m: Model, find: nat -> seq<Match>, vs: seq<Visit>) {
    forall k :: 0 <= k < |vs| ==> Visits(e, m, find, vs[k])
  }

  ghost predicate AllFollow(e: Env, find: nat -> seq<Match>, vs: seq<Visit>) {
    forall j, k :: 0 <= j < k < |vs| && k == j + 1 ==> Follows(e, find, vs[j], vs[k])
  }

  /** All calls of UpdateNodes in a block, from its start on. */
  ghost predicate Passes(e: Env, m: Model, find: nat -> seq<Match>, vs: seq<Visit>) {
    AllVisit(e, m, find, vs) && AllFollow(e, find, vs) &&
    (vs != [] ==> vs[0].pos == 0 && forall i :: 0 < i < |vs[0].ns| ==> vs[0].ns[i] == STUB)
  }

  /** Where the pass stands before position i: the calls so far lead to the nodes ns. */
  ghost predicate Passed(e: Env, m: Model, find: nat -> seq<Match>, vs: seq<Visit>, i: nat, ns: seq<Node>) {
    Passes(e, m, find, vs) &&
    if vs == [] then i == 0 && forall k :: 0 < k < |ns| ==> ns[k] == STUB
    else
      var v := vs[|vs| - 1];
      Agree(v.ms, ns) && |v.ms| == |ns| &&
      if NextPos(e, find, v) + 3 >= e.numBytes then i + 3 >= e.numBytes
      else i == NextPos(e, find, v) && forall k :: i <= k < |ns| ==> ns[k] == v.ms[k]
  }

  lemma FollowsLast(e: Env, m: Model, find: nat -> seq<Match>, vs: seq<Visit>, i: nat, ns: seq<Node>, x: Node, v: Visit)
    requires Passed(e, m, find, vs, i, ns) && i < |ns| && i + 3 < e.numBytes && SameCommand(x, ns[i]) && vs != []
    requires v.pos == i && v.ns == ns[i := x]
    ensures Follows(e, find, vs[|vs| - 1], v)
  {
  }

  lemma AllFollowOn(e: Env, find: nat -> seq<Match>, vs: seq<Visit>, v: Visit)
    requires AllFollow(e, find, vs) && (vs != [] ==> Follows(e, find, vs[|vs| - 1], v))
    ensures AllFollow(e, find, vs + [v])
  {
    var ws := vs + [v];
    forall j, k | 0 <= j < k < |ws| && k == j + 1
      ensures Follows(e, find, ws[j], ws[k])
    {
      if k < |vs| {
        assert vs[j] == ws[j] && vs[k] == ws[k];
      }
    }
  }

  lemma AllVisitOn(e: Env, m: Model, find: nat -> seq<Match>, vs: seq<Visit>, v: Visit)
    requires AllVisit(e, m, find, vs) && Visits(e, m, find, v)
    ensures AllVisit(e, m, find, vs + [v])
  {
    var ws := vs + [v];
    forall k | 0 <= k < |ws|
      ensures Visits(e, m, find, ws[k])
    {
      assert k < |vs| ==> ws[k] == vs[k];
    }
  }

  lemma PassesOn(e: Env, m: Model, find: nat -> seq<Match>, vs: seq<Visit>, i: nat, ns: seq<Node>, x: Node, v: Visit)
    requires Passed(e, m, find, vs, i, ns) && i < |ns| && i + 3 < e.numBytes && SameCommand(x, ns[i])
    requires v.pos == i && v.ns == ns[i := x] && Visits(e, m, find, v)
    ensures Passes(e, m, find, vs + [v])
  {
    if vs != [] {
      FollowsLast(e, m, find, vs, i, ns, x, v);
    }
    AllFollowOn(e, find, vs, v);
    AllVisitOn(e, m, find, vs, v);
  }

  /** The queue at the block start. */
  lemma FirstQueued(e: Env, f: seq<Node>, m: Model, n: Node, ps: seq<PosData>)
    requires Cheap(m) && Pending(e, [], n, 0) && Queued(e, f, m, 0, n, [], ps)
    ensures ps == [First(e)]
  {
    assert Insert(First(e), []) == [First(e)];
  }

  /** Whether the end is broken after the call at pos. */
  lemma VisitBreaks(e: Env, f: seq<Node>, m: Model, find: nat -> seq<Match>, v: Visit, ns0: seq<Node>)
    requires Sound(e) && Honest(e, find) && e.st.maxBackward < 0x200_0000 && Visits(e, m, find, v)
    requires Holds(e, f, v.ns) && |f| == v.pos + 1 && v.pos + 3 < e.numBytes && AllStartable(e, f, v.ps)
    requires |ns0| == |v.ns| && ns0[e.numBytes] == v.ns[e.numBytes] && !Broken(e, ns0)
    requires v.pos == 0 ==> v.ps == [First(e)] && forall i :: 0 < i < |v.ns| ==> v.ns[i] == STUB
    ensures |v.ms| == e.numBytes + 1 && (Broken(e, v.ms) ==> v.pos == 0 && v.result == WIDE)
    ensures v.pos == 0 ==> (Broken(e, v.ms) <==> FullCopy(e, m, Kept(e, find(0))))
  {
    KeptPlausible(e, v.pos, find);
    var ts := Kept(e, find(v.pos));
    TriedFine(e, f, m, v.pos, v.ps, ts, v.minLen);
    BrokenBy(e, f, v.ns, v.pos, Tried(e, m, v.pos, v.ps, ts, v.minLen));
    if v.pos == 0 {
      BrokenIff(e, f, m, ts, v.minLen, v.ns, v.ms, v.result);
    }
  }

  /** The call of UpdateNodes in a round of the pass. */
  method CallAt(e: Env, m: Model, i: nat, find: nat -> seq<Match>, queue: StartPosQueue, nodes: array<Node>,
                ghost f0: seq<Node>, ghost vs: seq<Visit>, ghost full: bool)
    returns (skip: nat, ghost f: seq<Node>, ghost v: Visit)
    requires Sound(e) && Cheap(m) && Honest(e, find) && e.st.maxBackward < 0x200_0000 && i + 3 < e.numBytes
    requires State(e, f0, nodes) && |f0| == i && queue.Valid() && AllStartable(e, f0, queue.View())
    requires (i > 0 ==> queue.idx > 0) && (i == 0 ==> queue.idx == 0 && vs == [])
    requires Passed(e, m, find, vs, i, nodes[..]) && !Broken(e, nodes[..]) && full == FullCopy(e, m, Kept(e, find(0)))
    modifies nodes, queue, queue.q
    ensures State(e, f, nodes) && |f| == i + 1 && v.ms == nodes[..] && v.pos == i && v.result == skip
    ensures queue.Valid() && AllStartable(e, f, queue.View()) && queue.idx > 0
    ensures Passes(e, m, find, vs + [v]) && (Broken(e, nodes[..]) ==> i == 0 && skip == WIDE)
    ensures i == 0 ==> (Broken(e, nodes[..]) <==> full)
  {
    var ts := Kept(e, find(i));
    KeptPlausible(e, i, find);
    ghost var ns0, n0 := nodes[..], nodes[i];
    assert Pending(e, f0, n0, i);
    assert i == 0 ==> queue.View() == [];
    ghost var x, minLen;
    skip, x, minLen := UpdateNodes(e, m, i, ts, queue, nodes, f0);
    f := f0 + [x];
    v := Visit(i, queue.View(), minLen, ns0[i := x], nodes[..], skip);
    if i == 0 {
      FirstQueued(e, f, m, n0, v.ps);
    }
    PassesOn(e, m, find, vs, i, ns0, x, v);
    VisitBreaks(e, f, m, find, v, ns0);
  }

  lemma PassedAt(e: Env, m: Model, find: nat -> seq<Match>, vs: seq<Visit>, v: Visit, i: nat, ns: seq<Node>)
    requires Passes(e, m, find, vs + [v]) && Agree(v.ms, ns) && |v.ms| == |ns|
    requires if NextPos(e, find, v) + 3 >= e.numBytes then i + 3 >= e.numBytes
             else i == NextPos(e, find, v) && forall k :: i <= k < |ns| ==> ns[k] == v.ms[k]
    ensures Passed(e, m, find, vs + [v], i, ns)
  {
  }

  /** Goes on to the next position: a long copy is skipped. */
  method GoOn(e: Env, m: Model, i0: nat, ts: seq<Match>, result: nat, queue: StartPosQueue, nodes: array<Node>,
              ghost f0: seq<Node>)
    returns (i: nat, ghost f: seq<Node>)
    requires State(e, f0, nodes) && |f0| == i0 + 1 && i0 + 3 < e.numBytes && Cheap(m)
    requires queue.Valid() && AllStartable(e, f0, queue.View()) && queue.idx > 0
    modifies nodes, queue, queue.q
    ensures State(e, f, nodes) && |f| <= i && (i + 3 < e.numBytes ==> |f| == i) && i > i0
    ensures queue.Valid() && AllStartable(e, f, queue.View()) && queue.idx > 0
    ensures Agree(old(nodes[..]), nodes[..]) && |old(nodes[..])| == nodes.Length
    ensures nodes[e.numBytes] == old(nodes[e.numBytes])
    ensures if i0 + Stride(e, ts, result) + 3 >= e.numBytes then i + 3 >= e.numBytes
            else i == i0 + Stride(e, ts, result) && forall k :: i <= k < nodes.Length ==> nodes[k] == old(nodes[k])
  {
    var skip := result;
    i, f := i0, f0;
    if skip < QUICK_STEP {
      skip := 0;
    }
    if |ts| == 1 && ts[0].len > e.maxZopfliLen {
      skip := Max(ts[0].len, skip);
    }
    if skip > 1 {
      i, f := SkipCopy(e, m, i, skip - 1, queue, nodes, f);
    }
    i := i + 1;
  }

  /** One round of the pass. */
  method Advance(e: Env, m: Model, i0: nat, find: nat -> seq<Match>, queue: StartPosQueue, nodes: array<Node>,
                 ghost f0: seq<Node>, ghost vs0: seq<Visit>, ghost full: bool)
    returns (i: nat, ghost f: seq<Node>, ghost vs: seq<Visit>)
    requires Sound(e) && Cheap(m) && Honest(e, find) && e.st.maxBackward < 0x200_0000 && i0 + 3 < e.numBytes
    requires State(e, f0, nodes) && |f0| == i0 && queue.Valid() && AllStartable(e, f0, queue.View())
    requires (i0 > 0 ==> queue.idx > 0) && (i0 == 0 ==> queue.idx == 0 && vs0 == [])
    requires Passed(e, m, find, vs0, i0, nodes[..]) && !Broken(e, nodes[..])
    requires full == FullCopy(e, m, Kept(e, find(0))) && (i0 > 0 ==> !full)
    modifies nodes, queue, queue.q
    ensures State(e, f, nodes) && |f| <= i && (i + 3 < e.numBytes ==> |f| == i) && i > i0
    ensures queue.Valid() && AllStartable(e, f, queue.View()) && queue.idx > 0
    ensures vs != [] && Passed(e, m, find, vs, i, nodes[..])
    ensures Broken(e, nodes[..]) <==> full
    ensures Broken(e, nodes[..]) ==> i + 3 >= e.numBytes
  {
    var skip;
    ghost var v;
    skip, f, v := CallAt(e, m, i0, find, queue, nodes, f0, vs0, full);
    ghost var ms := nodes[..];
    i, f := GoOn(e, m, i0, Kept(e, find(i0)), skip, queue, nodes, f);
    vs := vs0 + [v];
    PassedAt(e, m, find, vs0, v, i, nodes[..]);
  }

  /** The pass over the block (BrotliZopfliComputeShortestPath without its backtrace): the
      calls of UpdateNodes follow each other to the end, and the documented invariant
      holds afterwards exactly if the block is not one of 2^24 bytes that is copied whole. */
  method FindNodes(e: Env, m: Model, find: nat -> seq<Match>, nodes: array<Node>)
    returns (ghost f: seq<Node>, ghost vs: seq<Visit>, ghost end: nat)
    requires Sound(e) && Cheap(m) && Honest(e, find) && e.st.maxBackward < 0x200_0000
    requires nodes.Length == e.numBytes + 1 && forall i :: 0 <= i < nodes.Length ==> nodes[i] == STUB
    modifies nodes
    ensures State(e, f, nodes) && (Broken(e, nodes[..]) <==> FullCopy(e, m, Kept(e, find(0))))
    ensures AllJoined(e, nodes[..]) <==> !FullCopy(e, m, Kept(e, find(0)))
    ensures Passed(e, m, find, vs, end, nodes[..]) && end + 3 >= e.numBytes
  {
    nodes[0] := nodes[0].(length := 0, u := Cost(0.0));
    var queue := new StartPosQueue(PosData(0, e.cache, 0.0, 0.0));
    f, vs := [], [];
    ghost var full := FullCopy(e, m, Kept(e, find(0)));
    var i: nat := 0;
    while i + 3 < e.numBytes
      invariant State(e, f, nodes) && |f| <= i && (i + 3 < e.numBytes ==> |f| == i)
      invariant queue.Valid() && AllStartable(e, f, queue.View()) && fresh(queue) && fresh(queue.q)
      invariant i > 0 ==> queue.idx > 0
      invariant i == 0 ==> queue.idx == 0 && vs == []
      invariant i > 0 ==> vs != [] && (Broken(e, nodes[..]) <==> full)
      invariant Broken(e, nodes[..]) ==> i + 3 >= e.numBytes
      invariant Passed(e, m, find, vs, i, nodes[..])
    {
      i, f, vs := Advance(e, m, i, find, queue, nodes, f, vs, full);
    }
    end := i;
    StateJoins(e, f, nodes);
  }

  /** The same, where the documented invariant holds. */
  method FindJoined(e: Env, m: Model, find: nat -> seq<Match>, nodes: array<Node>)
    requires Sound(e) && Cheap(m) && Honest(e, find) && e.st.maxBackward < 0x200_0000
    requires nodes.Length == e.numBytes + 1 && forall i :: 0 <= i < nodes.Length ==> nodes[i] == STUB
    requires !FullCopy(e, m, Kept(e, find(0)))
    modifies nodes
    ensures AllJoined(e, nodes[..])
  {
    ghost var f, vs, end := FindNodes(e, m, find, nodes);
  }

  lemma KeptPlausible(e: Env, i: nat, find: nat -> seq<Match>)
    requires Honest(e, find) && i < e.numBytes
    ensures forall j :: 0 <= j < |Kept(e, find(i))| ==> Plausible(e, i, Kept(e, find(i))[j])
  {
    var ts := Kept(e, find(i));
    assert forall j :: 0 <= j < |ts| ==> ts[j] == find(i)[if |ts| == |find(i)| then j else |find(i)| - 1];
  }

  /** A case where it fails: the second block of a constant text, when it has 2^24 bytes
      and the match finder reports that all of it repeats the byte before. */
  lemma ConstantFails(e: Env, m: Model, find: nat -> seq<Match>)
    requires Sound(e) && e.numBytes == WIDE == e.start && 0 < e.st.maxBackward && 0 < e.maxIters
    requires forall k :: e.start <= k < e.start + WIDE ==> Repeats(e.st.text, k, 1)
    requires find(0) == [Match(1, WIDE, WIDE)]
    requires m.minCommand < INFINITY && MatchCost(m, 0, 1, WIDE, BaseCost(m, 0, First(e))) < INFINITY
    ensures Plausible(e, 0, find(0)[0]) && FullCopy(e, m, Kept(e, find(0)))
  {
    assert Kept(e, find(0)) == find(0);
    MatchTried(e, m, 0, [First(e)], find(0), 2, 0, 0, WIDE);
  }

  // ---------------------------------------------------------------- the backtrace

  /** The index after k steps of the walk back from i. */
  function Walk(ns: seq<Node>, i: int, k: nat): int
    decreases k
  {
    if k == 0 || i < 0 || i >= |ns| then i else Walk(ns, i - CommandLength(ns[i]), k - 1)
  }

  lemma {:induction false} WalkEnds(e: Env, ns: seq<Node>, i: nat) returns (k: nat)
    requires AllJoined(e, ns) && i < |ns| && (i > 0 ==> !IsStub(ns[i]))
    ensures Walk(ns, i, k) == 0
    decreases i
  {
    k := 0;
    if i > 0 {
      assert Joined(e, ns, i);
      k := WalkEnds(e, ns, i - CommandLength(ns[i]));
      k := k + 1;
    }
  }

  lemma {:induction false} WalkStays(e: Env, ns: seq<Node>, k: nat)
    requires |ns| == e.numBytes + 1 && Void(e, ns[e.numBytes], e.numBytes)
    ensures Walk(ns, e.numBytes, k) == e.numBytes
    decreases k
  {
    if k > 0 {
      WalkStays(e, ns, k - 1);
    }
  }

  /** From the last node that is reached, the walk back ends exactly if the documented
      invariant holds.  Otherwise it never moves. */
  lemma WalkIff(e: Env, ns: seq<Node>, last: nat)
    requires |ns| == e.numBytes + 1 && (AllJoined(e, ns) || Void(e, ns[e.numBytes], e.numBytes))
    requires last < |ns| && !IsStub(ns[last]) && forall i :: last < i < |ns| ==> IsStub(ns[i])
    ensures (exists k: nat :: Walk(ns, last, k) == 0) <==> AllJoined(e, ns)
  {
    if AllJoined(e, ns) {
      var k := WalkEnds(e, ns, last);
    } else {
      assert last == e.numBytes;
      forall k: nat
        ensures Walk(ns, last, k) != 0
      {
        WalkStays(e, ns, k);
      }
    }
  }

  /** From p, n steps along 'next' that each undo the command of the node reached. */
  ghost predicate Linked(ns: seq<Node>, p: nat, n: nat)
    decreases n
  {
    p < |ns| && ns[p].u.Next? &&
    if n == 0 then ns[p].u.next == UINT32_MAX
    else
      var q := p + ns[p].u.next;
      p < q < |ns| && ns[p].u.next < UINT32_MAX && !IsStub(ns[q]) && CommandLength(ns[q]) == q - p &&
      Linked(ns, q, n - 1)
  }

  /** Where those steps lead. */
  ghost function End(ns: seq<Node>, p: nat, n: nat): nat
    requires Linked(ns, p, n)
    decreases n
  {
    if n == 0 then p else End(ns, p + ns[p].u.next, n - 1)
  }

  lemma {:induction false} LinkedLater(ns: seq<Node>, k: nat, v: Node, p: nat, n: nat)
    requires Linked(ns, p, n) && k < p
    ensures Linked(ns[k := v], p, n) && End(ns[k := v], p, n) == End(ns, p, n)
    decreases n
  {
    if n > 0 {
      LinkedLater(ns, k, v, p + ns[p].u.next, n - 1);
    }
  }

  lemma LinkBack(e: Env, ns: seq<Node>, q: nat, n: nat)
    requires AllJoined(e, ns) && Linked(ns, q, n) && q > 0 && !IsStub(ns[q]) && |ns| <= UINT32_MAX
    ensures 0 < CommandLength(ns[q]) <= q && (q - CommandLength(ns[q]) > 0 ==> !IsStub(ns[q - CommandLength(ns[q])]))
    ensures var len := CommandLength(ns[q]); var ms := ns[q - len := ns[q - len].(u := Next(len))];
      AllJoined(e, ms) && Agree(ns, ms) && Linked(ms, q - len, n + 1) && End(ms, q - len, n + 1) == End(ns, q, n)
  {
    assert Joined(e, ns, q);
    var len := CommandLength(ns[q]);
    var v := ns[q - len].(u := Next(len));
    LinkedLater(ns, q - len, v, q, n);
    JoinedAgrees(e, ns, ns[q - len := v]);
  }

  /** ComputeShortestPathFromNodes: the walk back from the last live node ends at 0. */
  method ComputeShortestPathFromNodes(e: Env, nodes: array<Node>) returns (n: nat)
    requires AllJoined(e, nodes[..]) && nodes.Length == e.numBytes + 1 <= UINT32_MAX
    modifies nodes
    ensures AllJoined(e, nodes[..]) && Linked(nodes[..], 0, n) && Agree(old(nodes[..]), nodes[..])
    ensures forall i :: End(nodes[..], 0, n) < i < nodes.Length ==> IsStub(nodes[i])
  {
    var index := e.numBytes;
    assert Joined(e, nodes[..], 0);
    while nodes[index].insertLength == 0 && nodes[index].length == 1
      invariant 0 <= index <= e.numBytes && !IsStub(nodes[0])
      invariant forall i :: index < i < nodes.Length ==> IsStub(nodes[i])
      decreases index
    {
      index := index - 1;
    }
    n := Mark(e, index, nodes);
  }

  method Mark(e: Env, last: nat, nodes: array<Node>) returns (n: nat)
    requires AllJoined(e, nodes[..]) && last < nodes.Length <= UINT32_MAX && !IsStub(nodes[last])
    modifies nodes
    ensures AllJoined(e, nodes[..]) && Linked(nodes[..], 0, n) && Agree(old(nodes[..]), nodes[..])
    ensures End(nodes[..], 0, n) == last
  {
    var index := last;
    ghost var was := nodes[..];
    nodes[index] := nodes[index].(u := Next(UINT32_MAX));
    ghost var ns := was[last := was[last].(u := Next(UINT32_MAX))];
    assert nodes[..] == ns;
    JoinedAgrees(e, was, ns);
    n := 0;
    while index != 0
      invariant nodes[..] == ns && 0 <= index < |ns| == |was| && AllJoined(e, ns) && Agree(was, ns)
      invariant Linked(ns, index, n) && End(ns, index, n) == last && (index > 0 ==> !IsStub(ns[index]))
      decreases index
    {
      LinkBack(e, ns, index, n);
      var len := CommandLength(nodes[index]);
      assert len == CommandLength(ns[index]);
      index := index - len;
      nodes[index] := nodes[index].(u := Next(len));
      ns := ns[index := ns[index].(u := Next(len))];
      n := n + 1;
    }
  }

  /** Where CreateCommands stands at node p of the path. */
  ghost predicate Written(e: Env, ns: seq<Node>, cs: seq<Command>, lastInsert0: nat, lastInsert: nat, cache: Cache,
                          p: nat) {
    lastInsert0 <= e.start && e.start - lastInsert0 + Span(cs) + lastInsert == e.start + p &&
    ShortCopies(cs, WIDE - 1) &&
    cache == CacheAt(e, ns, p) && Leaves(e.st, cs, e.cache, e.start - lastInsert0, cache)
  }

  lemma CommandAt(e: Env, ns: seq<Node>, p: nat, q: nat)
    requires AllJoined(e, ns) && p < q < |ns| && !IsStub(ns[q]) && CommandLength(ns[q]) == q - p
    ensures Decode(DistanceCode(ns[q]), CacheAt(e, ns, p)) == CopyDistance(ns[q])
    ensures Copies(e.st, e.start + q - CopyLength(ns[q]), CopyDistance(ns[q]), CopyLength(ns[q]), LengthCode(ns[q]))
    ensures CacheAt(e, ns, q) == Distances.After(CacheAt(e, ns, p), DistanceCode(ns[q]), CopyDistance(ns[q]),
                                                 e.start + q - CopyLength(ns[q]), e.st.maxBackward)
  {
    assert Joined(e, ns, q);
  }

  lemma {:induction false} SaneAt(e: Env, ns: seq<Node>, i: nat)
    requires AllJoined(e, ns) && i < |ns| && (i > 0 ==> !IsStub(ns[i])) && Distances.Sane(e.cache)
    ensures Distances.Sane(CacheAt(e, ns, i))
    decreases i
  {
    if i > 0 {
      assert Joined(e, ns, i);
      SaneAt(e, ns, i - CommandLength(ns[i]));
    }
  }

  /** Writes the command from node p to node q. */
  method Emit(e: Env, node: Node, cs0: seq<Command>, lastInsert1: nat, c: Cache, p: nat, q: nat, ghost lastInsert0: nat,
              ghost ns: seq<Node>)
    returns (cs: seq<Command>, lastInsert: nat, cache: Cache, insertLength: nat)
    requires AllJoined(e, ns) && p < q < |ns| && node == ns[q] && !IsStub(node) && CommandLength(node) == q - p
    requires Written(e, ns, cs0, lastInsert0, lastInsert1, c, p) && (cs0 != [] ==> lastInsert1 == 0)
    ensures Written(e, ns, cs, lastInsert0, lastInsert, cache, q) && lastInsert == 0
    ensures |cs| == |cs0| + 1 && Literals(cs) == Literals(cs0) + insertLength
  {
    CommandAt(e, ns, p, q);
    insertLength, lastInsert := node.insertLength, lastInsert1;
    if |cs0| == 0 {
      insertLength, lastInsert := insertLength + lastInsert, 0;
    }
    var copyStart := e.start + p + node.insertLength;
    var distance, code := CopyDistance(node), DistanceCode(node);
    var x := Command(insertLength, CopyLength(node), LengthCode(node), code);
    Emitted(e.st, cs0, x, e.cache, e.start - lastInsert0, c, distance, copyStart);
    cs := cs0 + [x];
    cache := UpdateDistances(c, code, distance, copyStart, e.st.maxBackward);
  }

  /** Writes the next command of the path. */
  method WriteNext(e: Env, nodes: array<Node>, cs0: seq<Command>, lastInsert1: nat, c: Cache, literals0: nat, p: nat,
                   offset0: nat, ghost lastInsert0: nat, ghost ns: seq<Node>, ghost left: nat)
    returns (cs: seq<Command>, lastInsert: nat, cache: Cache, literals: nat, q: nat, offset: nat)
    requires nodes[..] == ns && AllJoined(e, ns) && Linked(ns, p, left) && left > 0 && offset0 == ns[p].u.next
    requires Written(e, ns, cs0, lastInsert0, lastInsert1, c, p) && (cs0 != [] ==> lastInsert1 == 0)
    requires literals0 == Literals(cs0)
    ensures Linked(ns, q, left - 1) && q > 0 && !IsStub(ns[q]) && offset == ns[q].u.next
    ensures Written(e, ns, cs, lastInsert0, lastInsert, cache, q) && lastInsert == 0
    ensures |cs| == |cs0| + 1 && literals == Literals(cs)
  {
    q := p + offset0;
    var next := nodes[q];
    assert next == ns[q];
    var insertLength;
    cs, lastInsert, cache, insertLength := Emit(e, next, cs0, lastInsert1, c, p, q, lastInsert0, ns);
    literals, offset := literals0 + insertLength, next.u.next;
  }

  /** The walk of CreateCommands along the path. */
  method WriteCommands(e: Env, nodes: array<Node>, lastInsert0: nat, ghost n: nat)
    returns (cs: seq<Command>, lastInsert: nat, cache: Cache, literals: nat, p: nat)
    requires AllJoined(e, nodes[..]) && Linked(nodes[..], 0, n) && lastInsert0 <= e.start
    ensures |cs| == n && literals == Literals(cs) && p < nodes.Length && (p > 0 ==> !IsStub(nodes[p]))
    ensures Written(e, nodes[..], cs, lastInsert0, lastInsert, cache, p)
  {
    ghost var ns := nodes[..];
    p := 0;
    var offset := nodes[0].u.next;
    ghost var left := n;
    cs, lastInsert, cache, literals := [], lastInsert0, e.cache, 0;
    while offset != UINT32_MAX
      invariant Linked(ns, p, left) && ns[p].u.next == offset && |cs| + left == n && (p > 0 ==> !IsStub(ns[p]))
      invariant Written(e, ns, cs, lastInsert0, lastInsert, cache, p) && literals == Literals(cs)
      invariant cs != [] ==> lastInsert == 0
      decreases left
    {
      cs, lastInsert, cache, literals, p, offset :=
        WriteNext(e, nodes, cs, lastInsert, cache, literals, p, offset, lastInsert0, ns, left);
      left := left - 1;
    }
  }

  /** What that means for a decoder. */
  lemma WrittenDecodes(e: Env, ns: seq<Node>, cs: seq<Command>, lastInsert0: nat, lastInsert: nat, cache: Cache,
                       p: nat)
    requires Written(e, ns, cs, lastInsert0, lastInsert, cache, p) && e.start + p <= |e.st.text|
    ensures Faithful(e.st, cs, e.cache, e.start - lastInsert0) && Stored(cs) == cs
    ensures Decoded(e.st, cs, e.cache, e.start - lastInsert0) == (e.st.text[..e.start + p - lastInsert], cache)
  {
    Reproduces(e.st, cs, e.cache, e.start - lastInsert0);
    StoredRight(e.st, cs, e.cache, e.start - lastInsert0);
  }

  /** BrotliZopfliCreateCommands: a decoder reproduces the text from the commands, which
      their words hold exactly, and ends with the encoder's last distances. */
  method CreateCommands(e: Env, nodes: array<Node>, lastInsert0: nat, ghost n: nat)
    returns (cs: seq<Command>, lastInsert: nat, cache: Cache, literals: nat)
    requires nodes.Length == e.numBytes + 1 && e.start + e.numBytes <= |e.st.text|
    requires AllJoined(e, nodes[..]) && Linked(nodes[..], 0, n) && lastInsert0 <= e.start
    ensures |cs| == n && Span(cs) + lastInsert == lastInsert0 + e.numBytes && literals == Literals(cs)
    ensures Faithful(e.st, cs, e.cache, e.start - lastInsert0) && Stored(cs) == cs
    ensures Decompress(e.st, cs, e.cache, e.start - lastInsert0) == e.st.text[..e.start + e.numBytes - lastInsert]
    ensures Decoded(e.st, cs, e.cache, e.start - lastInsert0).1 == cache
    ensures Distances.Sane(e.cache) ==> Distances.Sane(cache)
  {
    var p;
    cs, lastInsert, cache, literals, p := WriteCommands(e, nodes, lastInsert0, n);
    WrittenDecodes(e, nodes[..], cs, lastInsert0, lastInsert, cache, p);
    lastInsert := lastInsert + (e.numBytes - p);
    if Distances.Sane(e.cache) {
      SaneAt(e, nodes[..], p);
    }
  }

  /** BrotliCreateZopfliBackwardReferences: for any costs and any true matches, the
      commands and the literals left over cover the block, a decoder reproduces the
      text from them, and it ends with the encoder's last distances.  The source ends
      only if no copy of 2^24 bytes is taken, so never with FullCopy. */
  method CreateZopfliBackwardReferences(e: Env, m: Model, find: nat -> seq<Match>, lastInsert0: nat)
    returns (cs: seq<Command>, lastInsert: nat, cache: Cache, literals: nat)
    requires Sound(e) && Cheap(m) && Honest(e, find) && e.st.maxBackward < 0x200_0000 && lastInsert0 <= e.start
    requires !FullCopy(e, m, Kept(e, find(0)))
    ensures Span(cs) + lastInsert == lastInsert0 + e.numBytes && literals == Literals(cs)
    ensures Faithful(e.st, cs, e.cache, e.start - lastInsert0) && Stored(cs) == cs
    ensures Decompress(e.st, cs, e.cache, e.start - lastInsert0) == e.st.text[..e.start + e.numBytes - lastInsert]
    ensures Decoded(e.st, cs, e.cache, e.start - lastInsert0).1 == cache && Distances.Sane(cache)
  {
    var nodes := new Node[e.numBytes + 1](_ => STUB);
    FindJoined(e, m, find, nodes);
    var n := ComputeShortestPathFromNodes(e, nodes);
    cs, lastInsert, cache, literals := CreateCommands(e, nodes, lastInsert0, n);
  }
}
