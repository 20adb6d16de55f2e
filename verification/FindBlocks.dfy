/** FindBlocks (contrib/brotli/enc/block_splitter_inc.h): the forward pass with
    capped cost differences, the bitmap of switch signals and the trace back, over
    exact reals. */
module FindBlocks {
  import opened Common

  /** The symbols to label, the number of entropy codes, the cost of coding a
      symbol with a code, and the nominal cost of switching codes. */
  datatype Problem = Problem(data: seq<nat>, codes: nat, insert: (nat, nat) -> real, bitcost: real)

  /** What the source relies on: a code to choose, at most 256 codes, switch costs
      that are not negative, and symbol costs that stay below the 1e99 that the
      minimum search starts from. */
  ghost predicate Sane(q: Problem) {
    0 < |q.data| && 0 < q.codes <= 256 && 0.0 <= q.bitcost &&
    forall i, k :: 0 <= i < |q.data| && 0 <= k < q.codes ==> Ins(q, i, k) + q.bitcost < HUGE
  }

  /** The cost of coding position i with code k. */
  function Ins(q: Problem, i: nat, k: nat): real
    requires i < |q.data|
  {
    q.insert(q.data[i], k)
  }

  /** The cost of switching codes between positions i and i + 1: 77 percent of the
      nominal cost at the start, 7 percent more by steps over the next 2000 positions,
      and all of it from there on. */
  ghost function Switch(q: Problem, i: nat): real {
    if i >= 2000 then q.bitcost
    else if i == 0 then 0.77 * q.bitcost
    else Switch(q, i - 1) + 0.07 * q.bitcost / 2000.0
  }

  /** The factor the source multiplies with. */
  function Discount(i: nat): real {
    if i < 2000 then 0.77 + 0.07 * (i as real) / 2000.0 else 1.0
  }

  lemma {:induction false} SwitchIs(q: Problem, i: nat)
    ensures q.bitcost * Discount(i) == Switch(q, i)
    decreases i
  {
    if 0 < i < 2000 {
      SwitchIs(q, i - 1);
      var f, g := Discount(i), Discount(i - 1);
      assert f == g + 0.07 / 2000.0;
      assert q.bitcost * f == q.bitcost * g + q.bitcost * (0.07 / 2000.0);
    }
  }

  lemma Between(x: real, f: real)
    requires 0.0 <= x && 0.0 <= f <= 1.0
    ensures 0.0 <= x * f <= x
  {
    assert 0.0 <= x * f;
    assert 0.0 <= x * (1.0 - f);
  }

  lemma SwitchRange(q: Problem, i: nat)
    requires 0.0 <= q.bitcost
    ensures 0.0 <= Switch(q, i) <= q.bitcost
  {
    SwitchIs(q, i);
    Between(q.bitcost, Discount(i));
  }

  // ---------------------------------------------------------------- what is minimised

  ghost predicate Labelling(q: Problem, l: seq<nat>) {
    |l| == |q.data| && forall i :: 0 <= i < |l| ==> l[i] < q.codes
  }

  /** The cost of the positions b, b + 1, ... given the labels up to b: symbol
      costs after b, and a switch wherever two neighbours differ. */
  ghost function CostAfter(q: Problem, l: seq<nat>, b: nat): real
    requires |l| == |q.data| && b < |l|
    decreases |l| - b
  {
    if b + 1 == |l| then 0.0
    else (if l[b] == l[b + 1] then 0.0 else Switch(q, b)) + Ins(q, b + 1, l[b + 1]) + CostAfter(q, l, b + 1)
  }

  /** Symbol cost plus switch cost of a labelling of the data. */
  ghost function Total(q: Problem, l: seq<nat>): real
    requires |l| == |q.data| > 0
  {
    Ins(q, 0, l[0]) + CostAfter(q, l, 0)
  }

  /** One plus the number of neighbours from b on that differ. */
  function RunsFrom(l: seq<nat>, b: nat): nat
    requires b < |l|
    decreases |l| - b
  {
    if b + 1 == |l| then 1 else (if l[b] == l[b + 1] then 0 else 1) + RunsFrom(l, b + 1)
  }

  // ---------------------------------------------------------------- the optimum, position by position

  function Min(a: real, b: real): real { if a < b then a else b }

  /** The least cost of the first i + 1 positions when the last one has code k. */
  ghost function Best(q: Problem, i: nat, k: nat): real
    requires i < |q.data| && q.codes > 0
    decreases i, 0, 0
  {
    if i == 0 then Ins(q, 0, k)
    else Min(Best(q, i - 1, k), BestAny(q, i - 1) + Switch(q, i - 1)) + Ins(q, i, k)
  }

  ghost function BestOf(q: Problem, i: nat, m: nat): real
    requires i < |q.data| && q.codes > 0 && m > 0
    decreases i, 1, m
  {
    if m == 1 then Best(q, i, 0) else Min(BestOf(q, i, m - 1), Best(q, i, m - 1))
  }

  ghost function BestAny(q: Problem, i: nat): real
    requires i < |q.data| && q.codes > 0
    decreases i, 2, 0
  {
    BestOf(q, i, q.codes)
  }

  lemma {:induction false} BestOfLeast(q: Problem, i: nat, m: nat, k: nat)
    requires i < |q.data| && q.codes > 0 && k < m
    ensures BestOf(q, i, m) <= Best(q, i, k)
    decreases m
  {
    if k < m - 1 { BestOfLeast(q, i, m - 1, k); }
  }

  /** No labelling is cheaper than Best says. */
  lemma {:induction false} Bound(q: Problem, l: seq<nat>, b: nat)
    requires Sane(q) && Labelling(q, l) && b < |l|
    ensures Best(q, |l| - 1, l[|l| - 1]) <= Best(q, b, l[b]) + CostAfter(q, l, b)
    decreases |l| - b
  {
    if b + 1 < |l| {
      Bound(q, l, b + 1);
      BestOfLeast(q, b, q.codes, l[b]);
    }
  }

  lemma TotalBound(q: Problem, l: seq<nat>)
    requires Sane(q) && Labelling(q, l)
    ensures BestAny(q, |l| - 1) <= Total(q, l)
  {
    Bound(q, l, 0);
    BestOfLeast(q, |l| - 1, q.codes, l[|l| - 1]);
  }

  // ---------------------------------------------------------------- the switch bitmap

  /** The mask 1 << (k & 7). */
  function Mask(k: nat): bv8 {
    match k % 8
    case 0 => 1
    case 1 => 2
    case 2 => 4
    case 3 => 8
    case 4 => 16
    case 5 => 32
    case 6 => 64
    case _ => 128
  }

  lemma MaskBits(x: bv8, j: nat, k: nat)
    ensures (x | Mask(k)) & Mask(k) != 0
    ensures j % 8 != k % 8 ==> ((x | Mask(k)) & Mask(j) != 0 <==> x & Mask(j) != 0)
  {
  }

  /** The bit of position i and code k. */
  ghost predicate Signal(sig: array2<bv8>, i: nat, k: nat)
    requires i < sig.Length0 && k / 8 < sig.Length1
    reads sig
  {
    sig[i, k / 8] & Mask(k) != 0
  }

  // ---------------------------------------------------------------- the passes

  /** cost[k] is how far code k is behind the best code after position i, capped at
      the switch cost. */
  ghost predicate Behind(q: Problem, i: nat, cost: array<real>)
    requires i < |q.data| && q.codes > 0
    reads cost
  {
    cost.Length == q.codes &&
    forall k :: 0 <= k < q.codes ==> cost[k] == Min(Best(q, i, k) - BestAny(q, i), Switch(q, i))
  }

  /** What has been subtracted from all costs before position i. */
  ghost function Base(q: Problem, i: nat): real
    requires i < |q.data| && q.codes > 0
  {
    if i == 0 then 0.0 else BestAny(q, i - 1)
  }

  ghost predicate Ready(q: Problem, i: nat, cost: array<real>)
    requires i < |q.data| && q.codes > 0
    reads cost
  {
    if i == 0 then cost.Length == q.codes && forall k :: 0 <= k < q.codes ==> cost[k] == 0.0
    else Behind(q, i - 1, cost)
  }

  /** Adding a symbol cost to a capped difference gives the next difference. */
  lemma AddOne(q: Problem, i: nat, k: nat, c: real)
    requires Sane(q) && i < |q.data| && k < q.codes
    requires c == if i == 0 then 0.0 else Min(Best(q, i - 1, k) - BestAny(q, i - 1), Switch(q, i - 1))
    ensures c + Ins(q, i, k) == Best(q, i, k) - Base(q, i) && c + Ins(q, i, k) < HUGE
  {
    if i > 0 { SwitchRange(q, i - 1); }
  }

  /** The first inner loop: codes position i with every entropy code and finds the
      cheapest. */
  method AddCosts(q: Problem, i: nat, cost: array<real>, blockId: array<nat>) returns (minCost: real)
    requires Sane(q) && i < |q.data| && Ready(q, i, cost) && blockId.Length == |q.data|
    modifies cost, blockId
    ensures minCost == BestAny(q, i) - Base(q, i)
    ensures forall k :: 0 <= k < q.codes ==> cost[k] == Best(q, i, k) - Base(q, i)
    ensures blockId[i] < q.codes && Best(q, i, blockId[i]) == BestAny(q, i)
    ensures forall j :: 0 <= j < |q.data| && j != i ==> blockId[j] == old(blockId[j])
  {
    minCost := HUGE;
    var k := 0;
    while k < q.codes
      invariant 0 <= k <= q.codes
      invariant forall j :: 0 <= j < k ==> cost[j] == Best(q, i, j) - Base(q, i)
      invariant forall j :: k <= j < q.codes ==> cost[j] == old(cost[j])
      invariant k == 0 ==> minCost == HUGE
      invariant k > 0 ==> minCost == BestOf(q, i, k) - Base(q, i)
      invariant k > 0 ==> blockId[i] < k && Best(q, i, blockId[i]) == BestOf(q, i, k)
      invariant forall j :: 0 <= j < |q.data| && j != i ==> blockId[j] == old(blockId[j])
    {
      AddOne(q, i, k, cost[k]);
      cost[k] := cost[k] + q.insert(q.data[i], k);
      if cost[k] < minCost {
        minCost := cost[k];
        blockId[i] := k;
      }
      k := k + 1;
    }
  }

  /** Row i of the bitmap marks the codes at or beyond the switch cost. */
  ghost predicate Marked(q: Problem, sig: array2<bv8>, i: nat)
    requires i < |q.data| && q.codes > 0
    reads sig
  {
    sig.Length0 == |q.data| && sig.Length1 == (q.codes + 7) / 8 &&
    forall k :: 0 <= k < q.codes ==> (Signal(sig, i, k) <==> Best(q, i, k) - BestAny(q, i) >= Switch(q, i))
  }

  /** The second inner loop: caps the differences and records the codes it caps. */
  method CapCosts(q: Problem, i: nat, minCost: real, cost: array<real>, sig: array2<bv8>)
    requires Sane(q) && i < |q.data| && cost.Length == q.codes
    requires sig.Length0 == |q.data| && sig.Length1 == (q.codes + 7) / 8
    requires forall c :: 0 <= c < sig.Length1 ==> sig[i, c] == 0
    requires forall k :: 0 <= k < q.codes ==> cost[k] - minCost == Best(q, i, k) - BestAny(q, i)
    modifies cost, sig
    ensures Behind(q, i, cost) && Marked(q, sig, i)
    ensures forall j, c :: 0 <= j < sig.Length0 && j != i && 0 <= c < sig.Length1 ==> sig[j, c] == old(sig[j, c])
  {
    var switchCost := q.bitcost * Discount(i);
    SwitchIs(q, i);
    var k := 0;
    while k < q.codes
      invariant 0 <= k <= q.codes
      invariant forall j :: k <= j < q.codes ==> cost[j] == old(cost[j])
      invariant forall j :: 0 <= j < k ==> cost[j] == Min(Best(q, i, j) - BestAny(q, i), Switch(q, i))
      invariant forall j :: 0 <= j < q.codes ==>
        (Signal(sig, i, j) <==> j < k && Best(q, i, j) - BestAny(q, i) >= Switch(q, i))
      invariant forall j, c :: 0 <= j < sig.Length0 && j != i && 0 <= c < sig.Length1 ==> sig[j, c] == old(sig[j, c])
    {
      cost[k] := cost[k] - minCost;
      if cost[k] >= switchCost {
        cost[k] := switchCost;
        SetSignal(sig, i, k);
      }
      k := k + 1;
    }
  }

  method SetSignal(sig: array2<bv8>, i: nat, k: nat)
    requires i < sig.Length0 && k / 8 < sig.Length1
    modifies sig
    ensures Signal(sig, i, k)
    ensures forall j: nat :: j / 8 < sig.Length1 && j != k ==> (Signal(sig, i, j) <==> old(Signal(sig, i, j)))
    ensures forall j, c :: 0 <= j < sig.Length0 && j != i && 0 <= c < sig.Length1 ==> sig[j, c] == old(sig[j, c])
  {
    forall j: nat | j / 8 < sig.Length1 && j != k
      ensures j % 8 != k % 8 || j / 8 != k / 8
      ensures j % 8 != k % 8 ==> ((sig[i, k / 8] | Mask(k)) & Mask(j) != 0 <==> sig[i, k / 8] & Mask(j) != 0)
    {
      MaskBits(sig[i, k / 8], j, k);
    }
    MaskBits(sig[i, k / 8], k, k);
    sig[i, k / 8] := sig[i, k / 8] | Mask(k);
  }

  /** The cheapest code of each position. */
  ghost predicate Cheapest(q: Problem, i: nat, k: nat)
    requires i < |q.data| && q.codes > 0
  {
    k < q.codes && Best(q, i, k) == BestAny(q, i)
  }

  /** One step back: the predecessor the trace chooses explains the cost of code
      cur at position b. */
  lemma StepBack(q: Problem, b: nat, cur: nat, prev: nat, signal: bool)
    requires Sane(q) && 0 < b < |q.data| && cur < q.codes && Cheapest(q, b - 1, prev)
    requires signal <==> Best(q, b - 1, cur) - BestAny(q, b - 1) >= Switch(q, b - 1)
    ensures var cur' := if signal then prev else cur;
      Best(q, b, cur) == Best(q, b - 1, cur') + (if cur' == cur then 0.0 else Switch(q, b - 1)) + Ins(q, b, cur)
  {
    SwitchRange(q, b - 1);
  }

  lemma CostAfterSame(q: Problem, l: seq<nat>, m: seq<nat>, b: nat)
    requires |l| == |m| == |q.data| && b < |l| && l[b..] == m[b..]
    ensures CostAfter(q, l, b) == CostAfter(q, m, b) && RunsFrom(l, b) == RunsFrom(m, b)
    decreases |l| - b
  {
    assert l[b] == l[b..][0] == m[b..][0] == m[b];
    if b + 1 < |l| {
      assert l[b + 1..] == l[b..][1..] && m[b + 1..] == m[b..][1..];
      assert l[b + 1] == l[b..][1] && m[b + 1] == m[b..][1];
      CostAfterSame(q, l, m, b + 1);
    }
  }

  /** From position b on, blockId holds the chosen labels, whose cost makes up the
      optimum. */
  ghost predicate Traced(q: Problem, l: seq<nat>, b: nat, blocks: nat)
    requires Sane(q)
  {
    |l| == |q.data| && b < |l| && (forall j :: b <= j < |l| ==> l[j] < q.codes) &&
    Best(q, b, l[b]) + CostAfter(q, l, b) == BestAny(q, |l| - 1) && blocks == RunsFrom(l, b)
  }

  lemma TracedBack(q: Problem, l: seq<nat>, b: nat, blocks: nat, signal: bool)
    requires Sane(q) && b > 0 && Traced(q, l, b, blocks) && Cheapest(q, b - 1, l[b - 1])
    requires signal <==> Best(q, b - 1, l[b]) - BestAny(q, b - 1) >= Switch(q, b - 1)
    ensures var c := if signal then l[b - 1] else l[b];
      Traced(q, l[b - 1 := c], b - 1, if c == l[b] then blocks else blocks + 1)
  {
    var c := if signal then l[b - 1] else l[b];
    var m := l[b - 1 := c];
    assert m[b..] == l[b..];
    CostAfterSame(q, l, m, b);
    StepBack(q, b, l[b], l[b - 1], signal);
  }

  /** One turn of the trace back, to position b. */
  method BackTurn(q: Problem, sig: array2<bv8>, blockId: array<nat>, b: nat, cur0: nat, blocks0: nat)
    returns (cur: nat, blocks: nat)
    requires Sane(q) && blockId.Length == |q.data| && b + 1 < |q.data| && cur0 == blockId[b + 1]
    requires Traced(q, blockId[..], b + 1, blocks0) && Marked(q, sig, b) && Cheapest(q, b, blockId[b])
    modifies blockId
    ensures cur == blockId[b] && Traced(q, blockId[..], b, blocks)
    ensures forall i :: 0 <= i < b ==> blockId[i] == old(blockId[i])
  {
    ghost var l := blockId[..];
    cur, blocks := cur0, blocks0;
    var signal := TestSignal(q, sig, b, cur);
    TracedBack(q, l, b + 1, blocks, signal);
    if signal {
      if cur != blockId[b] {
        cur := blockId[b];
        blocks := blocks + 1;
      }
    }
    blockId[b] := cur;
    assert blockId[..] == l[b := cur];
  }

  /** The trace back: follows the signals from the last position. */
  method TraceBack(q: Problem, sig: array2<bv8>, blockId: array<nat>) returns (blocks: nat)
    requires Sane(q) && blockId.Length == |q.data|
    requires forall i :: 0 <= i < |q.data| ==> Marked(q, sig, i) && Cheapest(q, i, blockId[i])
    modifies blockId
    ensures Traced(q, blockId[..], 0, blocks)
  {
    blocks := 1;
    var b := |q.data| - 1;
    var cur := blockId[b];
    while b > 0
      invariant 0 <= b < |q.data| && cur == blockId[b] && Traced(q, blockId[..], b, blocks)
      invariant forall i :: 0 <= i < b ==> Marked(q, sig, i) && Cheapest(q, i, blockId[i])
    {
      b := b - 1;
      cur, blocks := BackTurn(q, sig, blockId, b, cur, blocks);
    }
  }

  method TestSignal(q: Problem, sig: array2<bv8>, i: nat, k: nat) returns (signal: bool)
    requires i < |q.data| && k < q.codes && Marked(q, sig, i)
    ensures signal <==> Best(q, i, k) - BestAny(q, i) >= Switch(q, i)
  {
    signal := sig[i, k / 8] & Mask(k) != 0;
    assert signal <==> Signal(sig, i, k);
  }

  /** The second inner loop leaves the marks of earlier positions alone. */
  method CapRow(q: Problem, i: nat, minCost: real, cost: array<real>, sig: array2<bv8>)
    requires Sane(q) && i < |q.data| && cost.Length == q.codes
    requires sig.Length0 == |q.data| && sig.Length1 == (q.codes + 7) / 8
    requires forall j, c :: i <= j < sig.Length0 && 0 <= c < sig.Length1 ==> sig[j, c] == 0
    requires forall j :: 0 <= j < i ==> Marked(q, sig, j)
    requires forall k :: 0 <= k < q.codes ==> cost[k] - minCost == Best(q, i, k) - BestAny(q, i)
    modifies cost, sig
    ensures Behind(q, i, cost) && forall j :: 0 <= j <= i ==> Marked(q, sig, j)
    ensures forall j, c :: i < j < sig.Length0 && 0 <= c < sig.Length1 ==> sig[j, c] == 0
  {
    CapCosts(q, i, minCost, cost, sig);
    forall j | 0 <= j < i ensures Marked(q, sig, j) {
      assert old(Marked(q, sig, j));
      assert forall k :: 0 <= k < q.codes ==> (Signal(sig, j, k) <==> old(Signal(sig, j, k)));
    }
  }

  /** The forward pass. */
  method Forward(q: Problem, cost: array<real>, sig: array2<bv8>, blockId: array<nat>)
    requires Sane(q) && cost.Length == q.codes && blockId.Length == |q.data|
    requires sig.Length0 == |q.data| && sig.Length1 == (q.codes + 7) / 8
    modifies cost, sig, blockId
    ensures forall i :: 0 <= i < |q.data| ==> Marked(q, sig, i) && Cheapest(q, i, blockId[i])
  {
    forall k | 0 <= k < q.codes { cost[k] := 0.0; }
    forall i, c | 0 <= i < sig.Length0 && 0 <= c < sig.Length1 { sig[i, c] := 0; }
    var i := 0;
    while i < |q.data|
      invariant 0 <= i <= |q.data| && cost.Length == q.codes
      invariant i < |q.data| ==> Ready(q, i, cost)
      invariant forall j :: 0 <= j < i ==> Marked(q, sig, j) && Cheapest(q, j, blockId[j])
      invariant forall j, c :: i <= j < sig.Length0 && 0 <= c < sig.Length1 ==> sig[j, c] == 0
    {
      var minCost := AddCosts(q, i, cost, blockId);
      CapRow(q, i, minCost, cost, sig);
      i := i + 1;
    }
  }

  /** FindBlocks: the labels it leaves cost no more than any other labelling of the
      data, and it returns the number of blocks of equal labels. */
  method FindBlocks(q: Problem, cost: array<real>, sig: array2<bv8>, blockId: array<nat>) returns (blocks: nat)
    requires Sane(q) && cost.Length == q.codes && blockId.Length == |q.data|
    requires sig.Length0 == |q.data| && sig.Length1 == (q.codes + 7) / 8
    modifies cost, sig, blockId
    ensures Labelling(q, blockId[..]) && blocks == RunsFrom(blockId[..], 0)
    ensures forall l :: Labelling(q, l) ==> Total(q, blockId[..]) <= Total(q, l)
  {
    if q.codes <= 1 {
      forall i | 0 <= i < blockId.Length { blockId[i] := 0; }
      blocks := 1;
      OneRun(blockId[..], 0);
      forall l | Labelling(q, l) ensures blockId[..] == l { }
    } else {
      Forward(q, cost, sig, blockId);
      blocks := TraceBack(q, sig, blockId);
      forall l | Labelling(q, l) ensures Total(q, blockId[..]) <= Total(q, l) { TotalBound(q, l); }
    }
  }

  lemma {:induction false} OneRun(l: seq<nat>, b: nat)
    requires b < |l| && forall i :: 0 <= i < |l| ==> l[i] == 0
    ensures RunsFrom(l, b) == 1
    decreases |l| - b
  {
    if b + 1 < |l| { OneRun(l, b + 1); }
  }
}
