/** The queue of command start positions kept by the Zopfli parser
    (contrib/brotli/enc/backward_references_hq.c). */
module ZopfliQueue {
  import opened Distances

  datatype PosData = PosData(pos: nat, cache: Cache, costdiff: real, cost: real)

  predicate Sorted(s: seq<PosData>) {
    forall i, j :: 0 <= i < j < |s| ==> s[i].costdiff <= s[j].costdiff
  }

  /** p put before the first entry that does not cost less. */
  function Insert(p: PosData, s: seq<PosData>): (r: seq<PosData>)
    ensures |r| == |s| + 1
  {
    if s == [] then [p]
    else if p.costdiff > s[0].costdiff then [s[0]] + Insert(p, s[1..])
    else [p] + s
  }

  lemma {:induction false} InsertBag(p: PosData, s: seq<PosData>)
    ensures multiset(Insert(p, s)) == multiset(s) + multiset{p}
    decreases |s|
  {
    if s != [] && p.costdiff > s[0].costdiff {
      assert s == [s[0]] + s[1..];
      InsertBag(p, s[1..]);
    }
  }

  lemma {:induction false} InsertSorted(p: PosData, s: seq<PosData>)
    requires Sorted(s)
    ensures Sorted(Insert(p, s))
    decreases |s|
  {
    if s != [] && p.costdiff > s[0].costdiff {
      InsertSorted(p, s[1..]);
      InsertBag(p, s[1..]);
      var r := Insert(p, s[1..]);
      forall j | 0 <= j < |r|
        ensures s[0].costdiff <= r[j].costdiff
      {
        assert r[j] in multiset(r);
        assert s[1..] == [] || s[0].costdiff <= s[1].costdiff;
        assert r[j] == p || r[j] in s[1..];
      }
    }
  }

  /** The source's swaps: the entry at k is carried up while it costs more. */
  function Bubble(s: seq<PosData>, k: nat): seq<PosData>
    decreases |s| - k
  {
    if k + 1 >= |s| then s
    else Bubble(if s[k].costdiff > s[k + 1].costdiff then s[k := s[k + 1]][k + 1 := s[k]] else s, k + 1)
  }

  lemma {:induction false} BubbleSorted(s: seq<PosData>, k: nat)
    requires k <= |s| && Sorted(s[k..])
    ensures Bubble(s, k) == s
    decreases |s| - k
  {
    if k + 1 < |s| {
      assert s[k..][0] == s[k] && s[k..][1] == s[k + 1];
      assert s[k + 1..] == s[k..][1..];
      BubbleSorted(s, k + 1);
    }
  }

  lemma {:induction false} BubbleInserts(s: seq<PosData>, k: nat)
    requires k < |s| && Sorted(s[k + 1..])
    ensures Bubble(s, k) == s[..k] + Insert(s[k], s[k + 1..])
    decreases |s| - k
  {
    if k + 1 == |s| {
      assert s == s[..k] + [s[k]];
    } else if s[k].costdiff > s[k + 1].costdiff {
      var t := s[k := s[k + 1]][k + 1 := s[k]];
      assert t[k + 2..] == s[k + 2..] == s[k + 1..][1..];
      BubbleInserts(t, k + 1);
      assert t[..k + 1] == s[..k] + [s[k + 1]];
    } else {
      BubbleSorted(s, k + 1);
      assert s == s[..k] + ([s[k]] + s[k + 1..]);
    }
  }

  /** What the queue keeps of an old content when p is pushed: p and the least seven. */
  function Pushed(p: PosData, s: seq<PosData>): seq<PosData> {
    Insert(p, if |s| < 8 then s else s[..7])
  }

  /** The documented promise, that the eight least cost differences are kept: no
      entry that was let go costs less than one that is kept. */
  ghost predicate KeepsLeast(p: PosData, s: seq<PosData>) {
    forall a, b :: a in Pushed(p, s) && b in multiset(s) + multiset{p} - multiset(Pushed(p, s)) ==>
      a.costdiff <= b.costdiff
  }

  lemma FullDrops(p: PosData, s: seq<PosData>)
    requires |s| == 8
    ensures multiset(s) + multiset{p} - multiset(Pushed(p, s)) == multiset{s[7]}
    ensures p in Pushed(p, s) && forall a :: a in Pushed(p, s) ==> a == p || a in s[..7]
  {
    assert s == s[..7] + [s[7]];
    InsertBag(p, s[..7]);
    var r := Pushed(p, s);
    assert p in multiset(r);
    forall a | a in r
      ensures a == p || a in s[..7]
    {
      assert a in multiset(r);
    }
  }

  /** The promise holds exactly when the queue has room or p does not cost more
      than the last entry, which is dropped whatever p costs. */
  lemma KeepsLeastIff(p: PosData, s: seq<PosData>)
    requires Sorted(s) && |s| <= 8
    ensures KeepsLeast(p, s) <==> |s| < 8 || p.costdiff <= s[7].costdiff
  {
    if |s| == 8 {
      FullDrops(p, s);
      assert s[7] in multiset(s) + multiset{p} - multiset(Pushed(p, s));
    } else {
      InsertBag(p, s);
      assert multiset(s) + multiset{p} - multiset(Pushed(p, s)) == multiset{};
    }
  }

  /** Positions 1 to 8 with cost difference -1. */
  function EightCheap(): (s: seq<PosData>)
    ensures |s| == 8
  {
    seq(8, (i: nat) => PosData(i + 1, [4, 11, 15, 16], -1.0, 0.0))
  }

  /** A concrete case: positions 1 to 8 with cost difference -1 and then position 9 with
      0, all of them at most 0 as EvaluateNode asks for. */
  lemma NotAlwaysLeast()
    ensures Sorted(EightCheap()) && !KeepsLeast(PosData(9, [4, 11, 15, 16], 0.0, 1.0), EightCheap())
  {
    KeepsLeastIff(PosData(9, [4, 11, 15, 16], 0.0, 1.0), EightCheap());
  }

  function Slot(k: int, idx: nat): (n: nat)
    ensures n < 8
  {
    (k - idx) % 8
  }

  lemma SlotsDiffer(idx: nat)
    ensures forall j, k :: 0 <= j < k < 8 ==> Slot(j, idx) != Slot(k, idx)
  {
  }

  class StartPosQueue {
    const q: array<PosData>
    var idx: nat

    ghost predicate Valid()
      reads this, q
    {
      q.Length == 8 && Sorted(View())
    }

    function Size(): (n: nat)
      reads this
      ensures n <= 8
    {
      if idx < 8 then idx else 8
    }

    /** StartPosQueueAt. */
    function At(k: nat): PosData
      requires q.Length == 8
      reads this, q
    {
      q[Slot(k, idx)]
    }

    /** The entries, cheapest first. */
    ghost function View(): (s: seq<PosData>)
      requires q.Length == 8
      reads this, q
      ensures |s| == Size()
    {
      seq(Size(), (k: nat) requires q.Length == 8 reads this, q => At(k))
    }

    constructor (p: PosData)
      ensures Valid() && idx == 0 && fresh(q)
    {
      q := new PosData[8](_ => p);
      idx := 0;
    }

    method Swap(k: nat)
      requires q.Length == 8 && k + 1 < Size()
      modifies q
      ensures View() == old(View())[k := old(View()[k + 1])][k + 1 := old(View()[k])]
    {
      var a, b := Slot(k, idx), Slot(k + 1, idx);
      SlotsDiffer(idx);
      q[a], q[b] := q[b], q[a];
    }

    method Put(p: PosData)
      requires q.Length == 8
      modifies this, q
      ensures View() == [p] + if old(idx) < 8 then old(View()) else old(View())[..7]
      ensures idx == old(idx) + 1
    {
      SlotsDiffer(idx);
      q[Slot(-1, idx)] := p;
      idx := idx + 1;
    }

    /** One turn of the loop: entry k is swapped with the next if it costs more. */
    method Carry(k: nat)
      requires q.Length == 8 && k + 1 < Size()
      modifies q
      ensures Bubble(View(), k + 1) == old(Bubble(View(), k))
    {
      assert At(k) == View()[k] && At(k + 1) == View()[k + 1];
      if At(k).costdiff > At(k + 1).costdiff {
        Swap(k);
      }
    }

    /** StartPosQueuePush. */
    method Push(p: PosData)
      requires Valid()
      modifies this, q
      ensures Valid() && View() == Pushed(p, old(View())) && idx == old(idx) + 1
    {
      ghost var was := if idx < 8 then View() else View()[..7];
      Put(p);
      ghost var start := View();
      assert start[1..] == was;
      var len := Size();
      var i := 1;
      while i < len
        invariant 1 <= i <= len == |View()|
        invariant Bubble(View(), i - 1) == Bubble(start, 0)
        invariant idx == old(idx) + 1
      {
        Carry(i - 1);
        i := i + 1;
      }
      BubbleInserts(start, 0);
      InsertSorted(p, was);
    }
  }
}
