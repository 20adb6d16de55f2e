/** The local rewrites that raxInsert and raxRemove apply to one node, and what
    each does to lookups, shape and the two counters. */
module RaxSteps {
  import opened Common
  import opened RaxTree

  const Empty := Node(false, NULL, false, [], [])

  /** A node with one child, compressed exactly when its string is longer than 1. */
  function Link(iskey: bool, val: Ptr, d: seq<Byte>, sub: Tree): Tree {
    Node(iskey, val, |d| > 1, d, [sub])
  }

  lemma GetLink(iskey: bool, val: Ptr, d: seq<Byte>, sub: Tree, k: Key)
    requires d != [] && Shaped(sub)
    ensures Shaped(Link(iskey, val, d, sub))
    ensures Get(Link(iskey, val, d, sub), k) ==
            if k == [] then (if iskey then Some(val) else None)
            else if d <= k then Get(sub, k[|d|..]) else None
  {
    var t := Link(iskey, val, d, sub);
    assert Local(t);
    assert Label(t, 0) == d;
    if k != [] && d <= k { StepUnique(t, k, 0); }
  }

  /** Cutting a single-child node in two does not change any lookup. */
  lemma LinkCut(iskey: bool, val: Ptr, a: seq<Byte>, b: seq<Byte>, sub: Tree)
    requires a != [] && b != [] && Shaped(sub)
    ensures Shaped(Link(iskey, val, a + b, sub))
    ensures Shaped(Link(iskey, val, a, Link(false, NULL, b, sub)))
    ensures SameGet(Link(iskey, val, a + b, sub), Link(iskey, val, a, Link(false, NULL, b, sub)))
  {
    var low := Link(false, NULL, b, sub);
    var t, u := Link(iskey, val, a + b, sub), Link(iskey, val, a, low);
    GetLink(iskey, val, a + b, sub, []);
    GetLink(false, NULL, b, sub, []);
    GetLink(iskey, val, a, low, []);
    forall k: Key ensures Get(t, k) == Get(u, k) {
      GetLink(iskey, val, a + b, sub, k);
      GetLink(iskey, val, a, low, k);
      PrefixSplit(a, b, k);
      if a <= k { GetLink(false, NULL, b, sub, k[|a|..]); }
    }
  }

  lemma LinkCongruent(iskey: bool, val: Ptr, d: seq<Byte>, sub: Tree, sub': Tree)
    requires d != [] && Shaped(sub) && Shaped(sub') && SameGet(sub, sub')
    ensures Shaped(Link(iskey, val, d, sub)) && Shaped(Link(iskey, val, d, sub'))
    ensures SameGet(Link(iskey, val, d, sub), Link(iskey, val, d, sub'))
  {
    GetLink(iskey, val, d, sub, []);
    GetLink(iskey, val, d, sub', []);
    forall k: Key ensures Get(Link(iskey, val, d, sub), k) == Get(Link(iskey, val, d, sub'), k) {
      GetLink(iskey, val, d, sub, k);
      GetLink(iskey, val, d, sub', k);
    }
  }

  lemma TallyOne(t: Tree, c: Counter)
    ensures TallyAll([t], c) == Tally(t, c)
  {
    assert [t][1..] == [];
  }

  lemma SameTrans(t: Tree, u: Tree, w: Tree)
    requires Shaped(t) && Shaped(u) && Shaped(w) && SameGet(t, u) && SameGet(u, w)
    ensures SameGet(t, w)
  {
    forall k: Key ensures Get(t, k) == Get(w, k) { assert Get(t, k) == Get(u, k); }
  }

  // ------------------------------------------------ splitting, algorithm 1

  /** What remains of a compressed node from byte 'from' on. */
  function Postfix(n: Tree, from: nat): Tree
    requires |n.kids| == 1 && from <= |n.data|
  {
    if from == |n.data| then n.kids[0] else Link(false, NULL, n.data[from..], n.kids[0])
  }

  function SplitNode(n: Tree, j: nat): Tree
    requires |n.kids| == 1 && j < |n.data|
  {
    Node(j == 0 && n.iskey, if j == 0 then n.val else NULL, false, [n.data[j]], [Postfix(n, j + 1)])
  }

  /** A compressed node split so that byte j has a node of its own. */
  function SplitAt(n: Tree, j: nat): Tree
    requires |n.kids| == 1 && j < |n.data|
  {
    if j == 0 then SplitNode(n, 0) else Link(n.iskey, n.val, n.data[..j], SplitNode(n, j))
  }

  ghost predicate Splittable(n: Tree, j: nat) {
    Local(n) && n.compr && j < |n.data| && Shaped(n.kids[0])
  }

  lemma PostfixSame(iskey: bool, val: Ptr, n: Tree, j: nat)
    requires Splittable(n, j)
    ensures Shaped(Postfix(n, j + 1))
    ensures Shaped(Link(iskey, val, [n.data[j]], Postfix(n, j + 1)))
    ensures Shaped(Link(iskey, val, n.data[j..], n.kids[0]))
    ensures SameGet(Link(iskey, val, n.data[j..], n.kids[0]), Link(iskey, val, [n.data[j]], Postfix(n, j + 1)))
  {
    GetLink(iskey, val, n.data[j..], n.kids[0], []);
    if j + 1 < |n.data| {
      assert n.data[j..] == [n.data[j]] + n.data[j + 1..];
      GetLink(false, NULL, n.data[j + 1..], n.kids[0], []);
      LinkCut(iskey, val, [n.data[j]], n.data[j + 1..], n.kids[0]);
    } else {
      assert n.data[j..] == [n.data[j]];
    }
  }

  lemma SplitSame(n: Tree, j: nat)
    requires Splittable(n, j)
    ensures Shaped(n) && Shaped(SplitAt(n, j)) && SameGet(n, SplitAt(n, j))
  {
    assert n == Link(n.iskey, n.val, n.data, n.kids[0]);
    if j == 0 {
      assert n.data[0..] == n.data;
      PostfixSame(n.iskey, n.val, n, 0);
    } else {
      PostfixSame(false, NULL, n, j);
      var tail := Link(false, NULL, n.data[j..], n.kids[0]);
      LinkCut(n.iskey, n.val, n.data[..j], n.data[j..], n.kids[0]);
      assert n.data[..j] + n.data[j..] == n.data;
      LinkCongruent(n.iskey, n.val, n.data[..j], tail, SplitNode(n, j));
      SameTrans(n, Link(n.iskey, n.val, n.data[..j], tail), SplitAt(n, j));
    }
  }

  lemma SplitTallyOf(n: Tree, j: nat, c: Counter)
    requires |n.kids| == 1 && j < |n.data|
    ensures Tally(SplitAt(n, j), c) == Tally(n, c) +
      if c.Elements? then 0 else (if j > 0 then 1 else 0) + (if j + 1 < |n.data| then 1 else 0)
  {
    assert n.kids == [n.kids[0]];
    TallyOne(n.kids[0], c);
    TallyOne(Postfix(n, j + 1), c);
    TallyOne(SplitNode(n, j), c);
  }

  /** Algorithm 1 adds a trimmed and a postfix node exactly when they are not empty. */
  lemma SplitTally(n: Tree, j: nat)
    requires |n.kids| == 1 && j < |n.data|
    ensures Tally(SplitAt(n, j), Elements) == Tally(n, Elements)
    ensures Tally(SplitAt(n, j), Nodes) ==
            Tally(n, Nodes) + (if j > 0 then 1 else 0) + (if j + 1 < |n.data| then 1 else 0)
  {
    SplitTallyOf(n, j, Elements);
    SplitTallyOf(n, j, Nodes);
  }

  /** Where the split node ends up below the node it was split from. */
  function SplitPath(j: nat): Path {
    if j == 0 then [] else [0]
  }

  lemma SplitHole(n: Tree, j: nat)
    requires Local(n) && n.compr && j < |n.data| && WellFormed(n.kids[0]) && Live(n.kids[0])
    ensures WellFormed(SplitNode(n, j)) && HoleAt(SplitAt(n, j), SplitPath(j))
    ensures ValidPath(SplitAt(n, j), SplitPath(j)) && At(SplitAt(n, j), SplitPath(j)) == SplitNode(n, j)
    ensures Shaped(SplitAt(n, j)) && PathKey(SplitAt(n, j), SplitPath(j)) == n.data[..j]
  {
    assert WellFormed(Postfix(n, j + 1)) && Live(Postfix(n, j + 1));
    assert WellFormed(SplitNode(n, j));
    WellFormedIsShaped(SplitNode(n, j));
    if j > 0 {
      assert SplitPath(j)[1..] == [];
    }
  }

  // ------------------------------------------------ splitting, algorithm 2

  /** A compressed node cut at j, the lower part now being the key with value v. */
  function SplitKey(n: Tree, j: nat, v: Ptr): Tree
    requires |n.kids| == 1 && 0 < j < |n.data|
  {
    Link(n.iskey, n.val, n.data[..j], Link(true, v, n.data[j..], n.kids[0]))
  }

  lemma SplitKeyUpdates(n: Tree, j: nat, v: Ptr)
    requires Splittable(n, j) && j > 0
    ensures Shaped(n) && Shaped(SplitKey(n, j, v))
    ensures Updated(n, n.data[..j], Some(v), SplitKey(n, j, v))
    ensures Get(n, n.data[..j]).None?
  {
    var a, b, sub := n.data[..j], n.data[j..], n.kids[0];
    assert a + b == n.data;
    assert n == Link(n.iskey, n.val, n.data, sub);
    GetLink(n.iskey, n.val, n.data, sub, a);
    var low := Link(true, v, b, sub);
    GetLink(true, v, b, sub, []);
    GetLink(n.iskey, n.val, a, low, []);
    forall k: Key ensures Get(SplitKey(n, j, v), k) == if k == a then Some(v) else Get(n, k) {
      GetLink(n.iskey, n.val, n.data, sub, k);
      GetLink(n.iskey, n.val, a, low, k);
      PrefixSplit(a, b, k);
      if a <= k {
        GetLink(true, v, b, sub, k[|a|..]);
        if k[|a|..] == [] { assert k == a; }
      }
    }
  }

  lemma SplitKeyTally(n: Tree, j: nat, v: Ptr)
    requires |n.kids| == 1 && 0 < j < |n.data|
    ensures Tally(SplitKey(n, j, v), Elements) == Tally(n, Elements) + 1
    ensures Tally(SplitKey(n, j, v), Nodes) == Tally(n, Nodes) + 1
  {
    var low := Link(true, v, n.data[j..], n.kids[0]);
    assert n.kids == [n.kids[0]];
    TallyOne(low, Elements);
    TallyOne(low, Nodes);
    TallyOne(n.kids[0], Elements);
    TallyOne(n.kids[0], Nodes);
  }

  // ------------------------------------------------ adding and removing a child

  /** The place raxAddChild finds for c: the first edge greater than it. */
  ghost predicate Slot(d: seq<Byte>, c: Byte, pos: nat) {
    pos <= |d| && (forall i :: 0 <= i < pos ==> d[i] < c) && (forall i :: pos <= i < |d| ==> c < d[i])
  }

  function AddKid(n: Tree, c: Byte, pos: nat, sub: Tree): Tree
    requires pos <= |n.data| == |n.kids|
  {
    n.(data := Inserted(n.data, pos, c), kids := Inserted(n.kids, pos, sub))
  }

  lemma AddKidShaped(n: Tree, c: Byte, pos: nat, sub: Tree)
    requires Shaped(n) && !n.compr && Slot(n.data, c, pos) && Shaped(sub)
    ensures Shaped(AddKid(n, c, pos, sub))
  {
  }

  lemma StepAddKid(n: Tree, c: Byte, pos: nat, sub: Tree, k: Key)
    requires Shaped(n) && !n.compr && Slot(n.data, c, pos) && Shaped(sub) && k != [] && k[0] != c
    ensures var t := AddKid(n, c, pos, sub);
            Local(t) && Step(t, k) == (if Step(n, k) < pos then Step(n, k) else Step(n, k) + 1)
  {
    AddKidShaped(n, c, pos, sub);
    var t, i := AddKid(n, c, pos, sub), Step(n, k);
    if i < |n.kids| {
      var i' := if i < pos then i else i + 1;
      assert t.data[i'] == n.data[i] && Label(t, i') == Label(n, i);
      StepUnique(t, k, i');
    } else {
      assert n.data[..i] == n.data;
      assert k[0] !in t.data;
    }
  }

  lemma GetAddKid(n: Tree, c: Byte, pos: nat, sub: Tree, k: Key)
    requires Shaped(n) && !n.compr && Slot(n.data, c, pos) && Shaped(sub)
    ensures Shaped(AddKid(n, c, pos, sub))
    ensures Get(AddKid(n, c, pos, sub), k) ==
            if k != [] && k[0] == c then Get(sub, k[1..]) else Get(n, k)
    ensures k != [] && k[0] == c ==> Get(n, k).None?
  {
    AddKidShaped(n, c, pos, sub);
    var t := AddKid(n, c, pos, sub);
    if k != [] {
      if k[0] == c {
        assert t.data[pos] == c && Label(t, pos) == [c] <= k;
        StepUnique(t, k, pos);
      } else {
        StepAddKid(n, c, pos, sub, k);
      }
    }
  }

  /** raxAddChild with a fresh node adds no key. */
  lemma AddEmptySame(n: Tree, c: Byte, pos: nat)
    requires Shaped(n) && !n.compr && Slot(n.data, c, pos)
    ensures Shaped(AddKid(n, c, pos, Empty)) && SameGet(n, AddKid(n, c, pos, Empty))
  {
    AddKidShaped(n, c, pos, Empty);
    forall k: Key ensures Get(n, k) == Get(AddKid(n, c, pos, Empty), k) {
      GetAddKid(n, c, pos, Empty, k);
    }
  }

  lemma AddKidHole(n: Tree, c: Byte, pos: nat)
    requires WellFormed(n) && !n.compr && Slot(n.data, c, pos)
    ensures HoleAt(AddKid(n, c, pos, Empty), [pos])
    ensures Shaped(AddKid(n, c, pos, Empty)) && ValidPath(AddKid(n, c, pos, Empty), [pos])
    ensures At(AddKid(n, c, pos, Empty), [pos]) == Empty
    ensures PathKey(AddKid(n, c, pos, Empty), [pos]) == [c]
  {
    WellFormedIsShaped(n);
    AddKidShaped(n, c, pos, Empty);
    assert [pos][1..] == [];
  }

  lemma AddKidTally(n: Tree, c: Byte, pos: nat, sub: Tree, w: Counter)
    requires pos <= |n.data| == |n.kids|
    ensures Tally(AddKid(n, c, pos, sub), w) == Tally(n, w) + Tally(sub, w)
  {
    TallyInsert(n.kids, pos, sub, w);
  }

  /** raxCompressNode: a childless node becomes a string leading to a fresh node. */
  lemma CompressSame(n: Tree, s: Key)
    requires n.kids == [] && Shaped(n) && |s| > 1
    ensures var t := n.(compr := true, data := s, kids := [Empty]);
            Shaped(t) && SameGet(n, t) && HoleAt(t, [0]) && ValidPath(t, [0]) &&
            At(t, [0]) == Empty && PathKey(t, [0]) == s &&
            forall c: Counter :: Tally(t, c) == Tally(n, c) + Tally(Empty, c)
  {
    var t := n.(compr := true, data := s, kids := [Empty]);
    assert t == Link(n.iskey, n.val, s, Empty);
    GetLink(n.iskey, n.val, s, Empty, []);
    forall k: Key ensures Get(n, k) == Get(t, k) {
      GetLink(n.iskey, n.val, s, Empty, k);
    }
    assert [0][1..] == [];
    forall c: Counter ensures Tally(t, c) == Tally(n, c) + Tally(Empty, c) { TallyOne(Empty, c); }
  }

  /** raxRemoveChild. */
  function DropKid(n: Tree, i: nat): Tree
    requires n.compr || i < |n.data| == |n.kids|
  {
    if n.compr then n.(compr := false, data := [], kids := [])
    else n.(data := Removed(n.data, i), kids := Removed(n.kids, i))
  }

  ghost predicate NoKeys(t: Tree)
    requires Shaped(t)
  {
    forall k: Key :: Get(t, k).None?
  }

  lemma DropShaped(n: Tree, i: nat)
    requires Shaped(n) && !n.compr && i < |n.kids|
    ensures Shaped(DropKid(n, i)) && Slot(DropKid(n, i).data, n.data[i], i)
  {
  }

  /** A normal node is its remainder with the dropped child added back. */
  lemma DropThenAdd(n: Tree, i: nat)
    requires !n.compr && i < |n.kids| == |n.data|
    ensures n == AddKid(DropKid(n, i), n.data[i], i, n.kids[i])
  {
    RemovedInserted(n.data, i);
    RemovedInserted(n.kids, i);
  }

  /** Dropping a child without keys changes no lookup. */
  lemma DropSame(n: Tree, i: nat)
    requires Shaped(n) && i < |n.kids| && NoKeys(n.kids[i])
    ensures Shaped(DropKid(n, i)) && SameGet(n, DropKid(n, i))
  {
    var t := DropKid(n, i);
    if n.compr {
      forall k: Key ensures Get(n, k) == Get(t, k) {
        if k != [] {
          assert Step(t, k) == 0;
          var i := Step(n, k);
          if i < 1 { assert Get(n, k) == Get(n.kids[0], k[|Label(n, 0)|..]); }
        }
      }
    } else {
      DropShaped(n, i);
      DropThenAdd(n, i);
      forall k: Key ensures Get(n, k) == Get(t, k) {
        GetAddKid(t, n.data[i], i, n.kids[i], k);
      }
    }
  }

  lemma DropTally(n: Tree, i: nat, c: Counter)
    requires Shaped(n) && i < |n.kids|
    ensures Tally(DropKid(n, i), c) == Tally(n, c) - Tally(n.kids[i], c)
  {
    if n.compr {
      assert n.kids == [n.kids[0]];
      TallyOne(n.kids[0], c);
    } else {
      DropShaped(n, i);
      DropThenAdd(n, i);
      AddKidTally(DropKid(n, i), n.data[i], i, n.kids[i], c);
    }
  }

  /** A chain link that is no key, above a subtree without keys, has no keys. */
  lemma OnlyKidNoKeys(n: Tree)
    requires Shaped(n) && !n.iskey && |n.kids| == 1 && NoKeys(n.kids[0])
    ensures NoKeys(n)
  {
    forall k: Key ensures Get(n, k).None? {
      if k != [] && Step(n, k) == 0 {
        assert Get(n, k) == Get(n.kids[0], k[|Label(n, 0)|..]);
      }
    }
  }

  // ------------------------------------------------ keys set and cleared

  function SetKey(n: Tree, v: Ptr): Tree { n.(iskey := true, val := v) }
  function ClearKey(n: Tree): Tree { n.(iskey := false, val := NULL) }

  lemma SetKeyUpdates(n: Tree, v: Ptr)
    requires Shaped(n)
    ensures Shaped(SetKey(n, v)) && Updated(n, [], Some(v), SetKey(n, v))
    ensures Get(n, []) == if n.iskey then Some(n.val) else None
  {
    var t := SetKey(n, v);
    forall k: Key ensures Get(t, k) == if k == [] then Some(v) else Get(n, k) {
      if k != [] { assert Step(t, k) == Step(n, k); }
    }
  }

  lemma ClearKeyUpdates(n: Tree)
    requires Shaped(n)
    ensures Shaped(ClearKey(n)) && Updated(n, [], None, ClearKey(n))
  {
    var t := ClearKey(n);
    forall k: Key ensures Get(t, k) == if k == [] then None else Get(n, k) {
      if k != [] { assert Step(t, k) == Step(n, k); }
    }
  }

  // ------------------------------------------------ recompression

  /** A node the recompression scan may absorb: no key and exactly one child. */
  ghost predicate Chained(t: Tree) {
    !t.iskey && |t.kids| == 1
  }

  /** The bytes of m successive only-children starting at t. */
  ghost function ChainData(t: Tree, m: nat): seq<Byte>
    requires ChainOf(t, m)
  {
    if m == 0 then [] else t.data + ChainData(t.kids[0], m - 1)
  }

  ghost predicate ChainOf(t: Tree, m: nat) {
    m == 0 || (Chained(t) && ChainOf(t.kids[0], m - 1))
  }

  ghost function ChainEnd(t: Tree, m: nat): Tree
    requires ChainOf(t, m)
  {
    if m == 0 then t else ChainEnd(t.kids[0], m - 1)
  }

  /** What recompression puts in place of the chain. */
  ghost function Merged(t: Tree, m: nat): Tree
    requires ChainOf(t, m)
  {
    Node(false, NULL, true, ChainData(t, m), [ChainEnd(t, m)])
  }

  lemma {:induction false} ChainShape(t: Tree, m: nat)
    requires ChainOf(t, m) && Shaped(t)
    ensures Shaped(ChainEnd(t, m)) && |ChainData(t, m)| >= m
    decreases m
  {
    if m > 0 { ChainShape(t.kids[0], m - 1); }
  }

  lemma {:induction false} LinksSame(t: Tree, m: nat)
    requires m > 0 && ChainOf(t, m) && Shaped(t)
    ensures Shaped(Link(false, NULL, ChainData(t, m), ChainEnd(t, m)))
    ensures SameGet(t, Link(false, NULL, ChainData(t, m), ChainEnd(t, m)))
    decreases m
  {
    ChainShape(t, m);
    ChainShape(t.kids[0], m - 1);
    var sub := t.kids[0];
    var u := Link(false, NULL, t.data, sub);
    GetLink(false, NULL, t.data, sub, []);
    assert u.compr == t.compr;
    forall k: Key ensures Get(t, k) == Get(u, k) {
      if k != [] { assert Step(t, k) == Step(u, k); }
    }
    var d, e := ChainData(t, m), ChainEnd(t, m);
    GetLink(false, NULL, d, e, []);
    if m == 1 {
      assert d == t.data;
    } else {
      LinksSame(sub, m - 1);
      var low := Link(false, NULL, ChainData(sub, m - 1), e);
      LinkCongruent(false, NULL, t.data, sub, low);
      LinkCut(false, NULL, t.data, ChainData(sub, m - 1), e);
      SameTrans(t, u, Link(false, NULL, t.data, low));
      SameTrans(t, Link(false, NULL, t.data, low), Link(false, NULL, d, e));
    }
  }

  lemma MergedSame(t: Tree, m: nat)
    requires m > 1 && ChainOf(t, m) && Shaped(t)
    ensures Shaped(Merged(t, m)) && SameGet(t, Merged(t, m))
  {
    ChainShape(t, m);
    LinksSame(t, m);
    assert Merged(t, m) == Link(false, NULL, ChainData(t, m), ChainEnd(t, m));
  }

  lemma {:induction false} ChainTally(t: Tree, m: nat, c: Counter)
    requires ChainOf(t, m)
    ensures Tally(t, c) == Tally(ChainEnd(t, m), c) + (if c.Nodes? then m else 0)
    decreases m
  {
    if m > 0 {
      ChainTally(t.kids[0], m - 1, c);
      assert t.kids == [t.kids[0]];
      TallyOne(t.kids[0], c);
    }
  }

  lemma MergedTally(t: Tree, m: nat)
    requires m > 0 && ChainOf(t, m)
    ensures Tally(Merged(t, m), Elements) == Tally(t, Elements)
    ensures Tally(Merged(t, m), Nodes) == Tally(t, Nodes) - m + 1
  {
    ChainTally(t, m, Elements);
    ChainTally(t, m, Nodes);
    TallyOne(ChainEnd(t, m), Elements);
    TallyOne(ChainEnd(t, m), Nodes);
  }

  lemma {:induction false} ChainEndWellFormed(t: Tree, m: nat)
    requires ChainOf(t, m) && WellFormed(t) && (m == 0 ==> Live(t))
    ensures WellFormed(ChainEnd(t, m)) && Live(ChainEnd(t, m))
    decreases m
  {
    if m > 0 { ChainEndWellFormed(t.kids[0], m - 1); }
  }

  lemma MergedWellFormed(t: Tree, m: nat)
    requires m > 1 && ChainOf(t, m) && WellFormed(t)
    ensures WellFormed(Merged(t, m)) && Live(Merged(t, m))
  {
    WellFormedIsShaped(t);
    ChainShape(t, m);
    ChainEndWellFormed(t, m);
  }

  // ------------------------------------------------ every live subtree has a key

  lemma {:induction false} LiveHasKey(t: Tree) returns (k: Key)
    requires WellFormed(t) && Live(t)
    ensures Shaped(t) && Get(t, k).Some?
    ensures t.kids != [] ==> |k| >= |Label(t, 0)|
    decreases t
  {
    WellFormedIsShaped(t);
    if t.kids == [] {
      k := [];
    } else {
      var r := LiveHasKey(t.kids[0]);
      k := Label(t, 0) + r;
      StepUnique(t, k, 0);
      assert k[|Label(t, 0)|..] == r;
    }
  }

  // ------------------------------------------------ growing the tree towards a key

  /** All keys fit in one node. */
  ghost predicate Bounded(t: Tree)
    requires Shaped(t)
  {
    forall k: Key :: Get(t, k).Some? ==> |k| <= MAX_SIZE
  }

  /** A step of raxInsert: the node at p is replaced by n, which looks up the same,
      and the insertion goes on at q below it. */
  lemma Grow(t: Tree, p: Path, n: Tree, q: Path)
    requires HoleAt(t, p) && ValidPath(t, p) && HoleAt(n, q)
    requires Shaped(At(t, p)) && Shaped(n) && SameGet(At(t, p), n)
    ensures var u := Put(t, p, n);
      HoleAt(u, p + q) && Shaped(t) && Shaped(u) && SameGet(t, u) && ValidPath(n, q) && ValidPath(u, p + q) &&
      At(u, p + q) == At(n, q) && PathKey(u, p + q) == PathKey(t, p) + PathKey(n, q)
  {
    HoleShaped(t, p);
    HoleShaped(n, q);
    HolePut(t, p, n, q);
    PutSame(t, p, n);
    PutShaped(t, p, n);
    AtAppend(Put(t, p, n), p, q);
    PathAppend(Put(t, p, n), p, q);
  }

  /** u is t with a fresh node added at p, whose key is the first i bytes of s. */
  ghost predicate Grown(t: Tree, u: Tree, p: Path, s: Key, i: nat) {
    Shaped(t) && Shaped(u) && SameGet(t, u) && HoleAt(u, p) && ValidPath(u, p) && At(u, p) == Empty &&
    i <= |s| && PathKey(u, p) == s[..i] &&
    Tally(u, Elements) == Tally(t, Elements) && Tally(u, Nodes) == Tally(t, Nodes) + 1
  }

  lemma GrowBy(t: Tree, p: Path, n: Tree, q: Path, s: Key, at: nat, i: nat)
    requires HoleAt(t, p) && ValidPath(t, p) && HoleAt(n, q)
    requires Shaped(t) && Shaped(At(t, p)) && Shaped(n) && SameGet(At(t, p), n)
    requires ValidPath(n, q) && At(n, q) == Empty && at <= i <= |s| && PathKey(t, p) == s[..at]
    requires PathKey(n, q) == s[at..i]
    requires forall c: Counter :: Tally(n, c) == Tally(At(t, p), c) + Tally(Empty, c)
    ensures Grown(t, Put(t, p, n), p + q, s, i)
  {
    Grow(t, p, n, q);
    TallyPut(t, p, n, Elements);
    TallyPut(t, p, n, Nodes);
    assert s[..at] + s[at..i] == s[..i];
  }

  lemma CompressGrows(t: Tree, p: Path, s: Key, at: nat, i: nat)
    requires HoleAt(t, p) && Shaped(t) && ValidPath(t, p) && At(t, p).kids == []
    requires at + 1 < i <= |s| && PathKey(t, p) == s[..at]
    ensures Grown(t, Put(t, p, At(t, p).(compr := true, data := s[at..i], kids := [Empty])), p + [0], s, i)
  {
    AtShaped(t, p);
    CompressSame(At(t, p), s[at..i]);
    GrowBy(t, p, At(t, p).(compr := true, data := s[at..i], kids := [Empty]), [0], s, at, i);
  }

  lemma AddChildGrows(t: Tree, p: Path, s: Key, at: nat, pos: nat)
    requires HoleAt(t, p) && Shaped(t) && ValidPath(t, p) && !At(t, p).compr && |At(t, p).data| == |At(t, p).kids|
    requires at < |s| && PathKey(t, p) == s[..at] && Slot(At(t, p).data, s[at], pos)
    ensures Grown(t, Put(t, p, AddKid(At(t, p), s[at], pos, Empty)), p + [pos], s, at + 1)
  {
    var n := At(t, p);
    AtShaped(t, p);
    assert p + [] == p;
    HoleAtPart(t, p, []);
    AddEmptySame(n, s[at], pos);
    AddKidHole(n, s[at], pos);
    forall c: Counter ensures Tally(AddKid(n, s[at], pos, Empty), c) == Tally(n, c) + Tally(Empty, c) {
      AddKidTally(n, s[at], pos, Empty, c);
    }
    GrowBy(t, p, AddKid(n, s[at], pos, Empty), [pos], s, at, at + 1);
  }

  /** The last step: the node reached becomes the key. */
  lemma Crown(t0: Tree, t: Tree, p: Path, s: Key, v: Ptr)
    requires HoleAt(t, p) && ValidPath(t, p) && Shaped(t0) && Shaped(t) && SameGet(t0, t) && PathKey(t, p) == s
    ensures var u := Put(t, p, SetKey(At(t, p), v));
      WellFormed(u) && Shaped(u) && Updated(t0, s, Some(v), u) &&
      Get(t0, s) == (if At(t, p).iskey then Some(At(t, p).val) else None) &&
      Tally(u, Elements) == Tally(t, Elements) + (if At(t, p).iskey then 0 else 1) &&
      Tally(u, Nodes) == Tally(t, Nodes)
  {
    var n := At(t, p);
    AtShaped(t, p);
    SetKeyUpdates(n, v);
    PutUpdated(t, p, SetKey(n, v), [], Some(v));
    assert s + [] == s;
    var u := Put(t, p, SetKey(n, v));
    GetPath(t, p, []);
    forall k: Key ensures Get(u, k) == if k == s then Some(v) else Get(t0, k) {
      assert Get(t0, k) == Get(t, k);
    }
    assert Get(t0, s) == Get(t, s);
    TallyPut(t, p, SetKey(n, v), Elements);
    TallyPut(t, p, SetKey(n, v), Nodes);
    assert p + [] == p;
    HoleAtPart(t, p, []);
    HolePut(t, p, SetKey(n, v), []);
    PutShaped(t, p, SetKey(n, v));
    HoleFilled(u, p);
  }

  lemma UpdatedBounded(t: Tree, s: Key, r: Option<Ptr>, u: Tree)
    requires Shaped(t) && Shaped(u) && Bounded(t) && |s| <= MAX_SIZE && Updated(t, s, r, u)
    ensures Bounded(u)
  {
    forall k: Key | Get(u, k).Some? ensures |k| <= MAX_SIZE {
      assert k != s ==> Get(t, k).Some?;
    }
  }

  // ------------------------------------------------ shrinking the tree

  /** The node found is no longer a key; it may now be a childless non-key. */
  lemma Uncrown(t: Tree, p: Path, s: Key)
    requires WellFormed(t) && Shaped(t) && ValidPath(t, p) && At(t, p).iskey && PathKey(t, p) == s
    ensures var u := Put(t, p, ClearKey(At(t, p)));
      Shaped(u) && ValidPath(u, p) && At(u, p) == ClearKey(At(t, p)) && HoleAt(u, p) && Updated(t, s, None, u) &&
      Tally(u, Elements) == Tally(t, Elements) - 1 && Tally(u, Nodes) == Tally(t, Nodes)
  {
    var n := At(t, p);
    AtShaped(t, p);
    HoleOpen(t, p);
    ClearKeyUpdates(n);
    PutUpdated(t, p, ClearKey(n), [], None);
    assert s + [] == s;
    PutShaped(t, p, ClearKey(n));
    assert p + [] == p;
    HolePut(t, p, ClearKey(n), []);
    TallyPut(t, p, ClearKey(n), Elements);
    TallyPut(t, p, ClearKey(n), Nodes);
  }

  /** Unlinking the reclaimed branch below the node at q. */
  lemma Prune(t: Tree, q: Path, i: nat, r: Path)
    requires Shaped(t) && HoleAt(t, q + ([i] + r)) && ValidPath(t, q) && i < |At(t, q).kids|
    requires Shaped(At(t, q)) && NoKeys(At(t, q).kids[i])
    ensures var u := Put(t, q, DropKid(At(t, q), i));
      Shaped(u) && SameGet(t, u) && ValidPath(u, q) && At(u, q) == DropKid(At(t, q), i) && HoleAt(u, q) &&
      Tally(u, Nodes) == Tally(t, Nodes) - Tally(At(t, q).kids[i], Nodes) &&
      Tally(u, Elements) == Tally(t, Elements) - Tally(At(t, q).kids[i], Elements)
  {
    var n := At(t, q);
    DropSame(n, i);
    PutSame(t, q, DropKid(n, i));
    PutShaped(t, q, DropKid(n, i));
    HoleAtPart(t, q, [i] + r);
    DropHole(n, i, r);
    HoleMove(t, q, [i] + r, DropKid(n, i), []);
    assert q + [] == q;
    DropTally(n, i, Nodes);
    DropTally(n, i, Elements);
    TallyPut(t, q, DropKid(n, i), Nodes);
    TallyPut(t, q, DropKid(n, i), Elements);
  }

  lemma DropHole(n: Tree, i: nat, r: Path)
    requires Shaped(n) && i < |n.kids| && HoleAt(n, [i] + r)
    ensures HoleAt(DropKid(n, i), [])
  {
    var u := DropKid(n, i);
    if !n.compr {
      DropShaped(n, i);
      forall j | 0 <= j < |u.kids| ensures WellFormed(u.kids[j]) && Live(u.kids[j]) {
        assert u.kids[j] == n.kids[if j < i then j else j + 1];
      }
    }
  }

  /** A subtree without keys counts no elements. */
  lemma {:induction false} NoKeysTally(t: Tree)
    requires Shaped(t) && NoKeys(t)
    ensures Tally(t, Elements) == 0
    decreases t
  {
    assert Get(t, []).None?;
    forall i | 0 <= i < |t.kids| ensures Tally(t.kids[i], Elements) == 0 {
      forall k: Key ensures Get(t.kids[i], k).None? {
        var s := Label(t, i) + k;
        StepUnique(t, s, i);
        assert s[|Label(t, i)|..] == k;
        assert Get(t, s).None?;
      }
      NoKeysTally(t.kids[i]);
    }
    TallyZero(t.kids);
  }

  lemma {:induction false} TallyZero(ts: seq<Tree>)
    requires forall i :: 0 <= i < |ts| ==> Tally(ts[i], Elements) == 0
    ensures TallyAll(ts, Elements) == 0
  {
    if ts != [] { TallyZero(ts[1..]); }
  }

  // ------------------------------------------------ the recompression scan

  lemma {:induction false} ChainSnoc(t: Tree, m: nat)
    requires ChainOf(t, m) && Chained(ChainEnd(t, m))
    ensures ChainOf(t, m + 1) && ChainEnd(t, m + 1) == ChainEnd(t, m).kids[0]
    ensures ChainData(t, m + 1) == ChainData(t, m) + ChainEnd(t, m).data
    decreases m
  {
    if m > 0 {
      ChainSnoc(t.kids[0], m - 1);
      assert t.data + (ChainData(t.kids[0], m - 1) + ChainEnd(t, m).data) ==
             (t.data + ChainData(t.kids[0], m - 1)) + ChainEnd(t, m).data;
    }
  }

  lemma {:induction false} ChainMid(t: Tree, k: nat, m: nat)
    requires ChainOf(t, m) && k < m
    ensures ChainOf(t, k) && Chained(ChainEnd(t, k))
    decreases k
  {
    if k > 0 { ChainMid(t.kids[0], k - 1, m - 1); }
  }

  lemma {:induction false} ChainGet(t: Tree, m: nat, k: Key)
    requires ChainOf(t, m) && Shaped(t)
    ensures Shaped(ChainEnd(t, m)) && Get(t, ChainData(t, m) + k) == Get(ChainEnd(t, m), k)
    decreases m
  {
    ChainShape(t, m);
    var s := ChainData(t, m) + k;
    if m == 0 {
      assert s == k;
    } else {
      var r := ChainData(t.kids[0], m - 1) + k;
      assert s == t.data + r;
      assert Label(t, 0) == t.data;
      StepUnique(t, s, 0);
      assert s[|t.data|..] == r;
      ChainGet(t.kids[0], m - 1, k);
    }
  }

  /** The scan never meets the node size limit: a longer chain would lead to a
      key that does not fit in a node. */
  lemma ChainFits(t: Tree, p: Path, m: nat)
    requires WellFormed(t) && Shaped(t) && Bounded(t) && ValidPath(t, p) && ChainOf(At(t, p), m) && m > 0
    ensures |ChainData(At(t, p), m)| <= MAX_SIZE
  {
    var n := At(t, p);
    HoleOpen(t, p);
    AtShaped(t, p);
    ChainEndWellFormed(n, m);
    var k := LiveHasKey(ChainEnd(n, m));
    ChainGet(n, m, k);
    GetPath(t, p, ChainData(n, m) + k);
  }

  /** Replacing a chain by one compressed node. */
  lemma Recompress(t: Tree, p: Path, m: nat)
    requires WellFormed(t) && Shaped(t) && ValidPath(t, p) && m > 1 && ChainOf(At(t, p), m)
    ensures var u := Put(t, p, Merged(At(t, p), m));
      WellFormed(u) && Shaped(u) && SameGet(t, u) &&
      Tally(u, Elements) == Tally(t, Elements) && Tally(u, Nodes) == Tally(t, Nodes) - m + 1
  {
    var n := At(t, p);
    HoleOpen(t, p);
    AtShaped(t, p);
    MergedSame(n, m);
    MergedTally(n, m);
    MergedWellFormed(n, m);
    PutSame(t, p, Merged(n, m));
    PutShaped(t, p, Merged(n, m));
    TallyPut(t, p, Merged(n, m), Elements);
    TallyPut(t, p, Merged(n, m), Nodes);
    assert p + [] == p;
    HolePut(t, p, Merged(n, m), []);
    HoleFilled(Put(t, p, Merged(n, m)), p);
  }
}
