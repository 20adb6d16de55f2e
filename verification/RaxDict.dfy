/** struct rax and its operations (contrib/rax/rax.c). */
module RaxDict {
  import opened Common
  import opened RaxTree
  import opened RaxSteps
  import opened RaxHeap
  import opened RaxForm

  /** The nodes passed on the way along p. */
  ghost predicate Trail(s: Shape, p: Path, stack: seq<RaxNode>) {
    |stack| == |p| && ValidIn(s, p) &&
    forall k :: 0 <= k < |p| ==> ValidIn(s, p[..k]) && stack[k] == Sub(s, p[..k]).ref
  }

  lemma TrailStep(s: Shape, p: Path, stack: seq<RaxNode>, j: nat)
    requires Trail(s, p, stack) && j < |Sub(s, p).kids|
    ensures ValidIn(s, p + [j]) && Sub(s, p + [j]) == Sub(s, p).kids[j]
    ensures Trail(s, p + [j], stack + [Sub(s, p).ref])
  {
    assert [j][1..] == [];
    SubAppend(s, p, [j]);
    var q := p + [j];
    forall k | 0 <= k < |q| ensures ValidIn(s, q[..k]) && (stack + [Sub(s, p).ref])[k] == Sub(s, q[..k]).ref {
      if k < |p| { assert q[..k] == p[..k]; } else { assert q[..k] == p; }
    }
  }

  lemma TrailPop(s: Shape, p: Path, stack: seq<RaxNode>)
    requires Trail(s, p, stack) && p != []
    ensures var q, i := p[..|p| - 1], p[|p| - 1];
      Trail(s, q, stack[..|p| - 1]) && stack[|p| - 1] == Sub(s, q).ref && p == q + [i] &&
      i < |Sub(s, q).kids| && Sub(s, p) == Sub(s, q).kids[i]
  {
    var q, i := p[..|p| - 1], p[|p| - 1];
    assert p == q + [i];
    assert [i][1..] == [];
    SubSplit(s, q, [i]);
    forall k | 0 <= k < |q| ensures ValidIn(s, q[..k]) && stack[..|q|][k] == Sub(s, q[..k]).ref {
      assert q[..k] == p[..k];
    }
  }

  /** Rewriting below the node at p keeps the trail to it. */
  lemma TrailKept(s: Shape, u: Shape, p: Path, stack: seq<RaxNode>)
    requires Trail(s, p, stack) && ValidIn(u, p) && u == PutIn(s, p, Sub(u, p)) && Sub(u, p).ref == Sub(s, p).ref
    ensures Trail(u, p, stack)
  {
    forall k | 0 <= k < |p| ensures ValidIn(u, p[..k]) && stack[k] == Sub(u, p[..k]).ref {
      assert p == p[..k] + p[k..];
      PutInAbove(s, p[..k], p[k..], Sub(u, p));
    }
  }

  lemma {:induction false} PutInAbove(s: Shape, p: Path, q: Path, n: Shape)
    requires ValidIn(s, p + q) && q != []
    ensures ValidIn(s, p) && ValidIn(PutIn(s, p + q, n), p) && Sub(PutIn(s, p + q, n), p).ref == Sub(s, p).ref
    decreases p
  {
    if p == [] {
      assert p + q == q;
    } else {
      assert (p + q)[1..] == p[1..] + q;
      PutInAbove(s.kids[p[0]], p[1..], q, n);
    }
  }

  lemma SameBounded(t: Tree, u: Tree)
    requires Shaped(t) && Shaped(u) && SameGet(t, u) && Bounded(t)
    ensures Bounded(u)
  {
    forall k: Key | Get(u, k).Some? ensures |k| <= MAX_SIZE { assert Get(t, k) == Get(u, k); }
  }

  lemma UpdatedSame(t: Tree, s: Key, r: Option<Ptr>, u: Tree, w: Tree)
    requires Shaped(t) && Shaped(u) && Shaped(w) && Updated(t, s, r, u) && SameGet(u, w)
    ensures Updated(t, s, r, w)
  {
    forall k: Key ensures Get(w, k) == if k == s then r else Get(t, k) { assert Get(u, k) == Get(w, k); }
  }

  lemma PathRest(p: Path, q: Path, i: nat)
    requires q + [i] <= p
    ensures p == q + ([i] + p[|q| + 1..])
  {
    assert p == (q + [i]) + p[|q| + 1..];
  }

  /** Following edge j of the node at p extends the path key by its label. */
  lemma KeyStep(t: Tree, p: Path, j: nat)
    requires Shaped(t) && ValidPath(t, p) && j < |At(t, p).kids|
    ensures Shaped(At(t, p)) && ValidPath(t, p + [j]) && At(t, p + [j]) == At(t, p).kids[j]
    ensures PathKey(t, p + [j]) == PathKey(t, p) + Label(At(t, p), j)
  {
    assert [j][1..] == [];
    AtShaped(t, p);
    AtAppend(t, p, [j]);
    PathAppend(t, p, [j]);
    assert PathKey(At(t, p), [j]) == Label(At(t, p), j);
  }

  /** The stop of the walk decides the lookup, as raxFind uses it. */
  lemma StoppedGet(t: Tree, s: Key, p: Path, i: nat, j: nat)
    requires Shaped(t) && StoppedAt(t, s, p, i, j)
    ensures Get(t, s) ==
      if i == |s| && j == 0 && At(t, p).iskey then Some(At(t, p).val) else None
  {
    AtShaped(t, p);
    var n, r := At(t, p), s[i - j..];
    assert s == PathKey(t, p) + r;
    GetPath(t, p, r);
  }

  lemma Followed(t: Tree, p: Path, s: Key, at: nat, i: nat, j: nat)
    requires Shaped(t) && ValidPath(t, p) && Shaped(At(t, p)) && j < |At(t, p).kids|
    requires at <= i <= |s| && PathKey(t, p) == s[..at] && Label(At(t, p), j) == s[at..i]
    ensures ValidPath(t, p + [j]) && PathKey(t, p + [j]) == s[..i]
  {
    KeyStep(t, p, j);
    assert s[..at] + s[at..i] == s[..i];
  }

  lemma SplitHoles(t: Tree, p: Path, j: nat)
    requires WellFormed(t) && Shaped(t) && ValidPath(t, p) && At(t, p).compr && j < |At(t, p).data|
    ensures var n := At(t, p);
      |n.kids| == 1 &&
      var u, q := Put(t, p, SplitAt(n, j)), p + SplitPath(j);
      HoleAt(u, q) && Shaped(u) && SameGet(t, u) && ValidPath(u, q) &&
      PathKey(u, q) == PathKey(t, p) + n.data[..j] && At(u, q) == SplitNode(n, j)
  {
    var n := At(t, p);
    AtShaped(t, p);
    HoleOpen(t, p);
    SplitSame(n, j);
    SplitHole(n, j);
    Grow(t, p, SplitAt(n, j), SplitPath(j));
  }

  /** Algorithm 1 leaves a tree on which the insertion can go on. */
  lemma SplitGrows(t: Tree, s: Key, p: Path, i: nat, j: nat)
    requires WellFormed(t) && Shaped(t) && StoppedAt(t, s, p, i, j) && At(t, p).compr && i < |s|
    ensures var n := At(t, p);
      |n.kids| == 1 && j < |n.data| &&
      var u, q := Put(t, p, SplitAt(n, j)), p + SplitPath(j);
      HoleAt(u, q) && Shaped(u) && SameGet(t, u) && ValidPath(u, q) && PathKey(u, q) == s[..i] &&
      At(u, q) == SplitNode(n, j) && SplitNode(n, j).data[0] != s[i]
  {
    SplitHoles(t, p, j);
    assert s[..i - j] + s[i - j..i] == s[..i];
  }

  lemma SplitCounts(t: Tree, p: Path, j: nat)
    requires ValidPath(t, p) && |At(t, p).kids| == 1 && j < |At(t, p).data|
    ensures var n := At(t, p);
      var u := Put(t, p, SplitAt(n, j));
      Tally(u, Elements) == Tally(t, Elements) &&
      Tally(u, Nodes) == Tally(t, Nodes) + (if j > 0 then 1 else 0) + (if j + 1 < |n.data| then 1 else 0)
  {
    SplitTally(At(t, p), j);
    TallyPut(t, p, SplitAt(At(t, p), j), Elements);
    TallyPut(t, p, SplitAt(At(t, p), j), Nodes);
  }

  lemma SplitStarts(t: Tree, s: Key, p: Path, i: nat, j: nat, v: Ptr)
    requires WellFormed(t) && Shaped(t) && StoppedAt(t, s, p, i, j) && At(t, p).compr && i < |s|
    ensures var n := At(t, p);
      |n.kids| == 1 && j < |n.data| &&
      var u, q := Put(t, p, SplitAt(n, j)), p + SplitPath(j);
      HoleAt(u, q) && Shaped(u) && SameGet(t, u) && ValidPath(u, q) && PathKey(u, q) == s[..i] &&
      !At(u, q).compr && s[i] !in At(u, q).data && LeadsTo(u, q, s[i..], v, InsertTree(t, s, v)) &&
      Tally(u, Elements) == Tally(t, Elements) &&
      Tally(u, Nodes) == Tally(t, Nodes) + (if j > 0 then 1 else 0) + (if j + 1 < |n.data| then 1 else 0)
  {
    SplitGrows(t, s, p, i, j);
    SplitCounts(t, p, j);
    SplitLeads(t, s, p, i, j, v);
  }

  /** Algorithm 2 completes the insertion. */
  lemma SplitKeyInserts(t: Tree, s: Key, p: Path, i: nat, j: nat, v: Ptr)
    requires WellFormed(t) && Shaped(t) && StoppedAt(t, s, p, i, j) && At(t, p).compr && i == |s| && j > 0
    ensures var n := At(t, p);
      |n.kids| == 1 && j < |n.data| &&
      var u := Put(t, p, SplitKey(n, j, v));
      WellFormed(u) && Shaped(u) && Updated(t, s, Some(v), u) && Get(t, s).None? &&
      Tally(u, Elements) == Tally(t, Elements) + 1 && Tally(u, Nodes) == Tally(t, Nodes) + 1
  {
    var n := At(t, p);
    AtShaped(t, p);
    HoleOpen(t, p);
    SplitKeyUpdates(n, j, v);
    PutUpdated(t, p, SplitKey(n, j, v), n.data[..j], Some(v));
    assert s == s[..i - j] + s[i - j..i];
    GetPath(t, p, n.data[..j]);
    SplitKeyTally(n, j, v);
    TallyPut(t, p, SplitKey(n, j, v), Elements);
    TallyPut(t, p, SplitKey(n, j, v), Nodes);
    assert p + [] == p;
    HolePut(t, p, SplitKey(n, j, v), []);
    PutShaped(t, p, SplitKey(n, j, v));
    HoleFilled(Put(t, p, SplitKey(n, j, v)), p);
  }

  /** The tree once the key at p is no key any more. */
  lemma Forgets(t: Tree, p: Path, s: Key)
    requires WellFormed(t) && Shaped(t) && Bounded(t) && |s| <= MAX_SIZE
    requires ValidPath(t, p) && At(t, p).iskey && PathKey(t, p) == s
    ensures var u := Put(t, p, ClearKey(At(t, p)));
      Shaped(u) && ValidPath(u, p) && At(u, p) == ClearKey(At(t, p)) && HoleAt(u, p) &&
      Updated(t, s, None, u) && Bounded(u) &&
      (Compact(t) ==> AllBut(u, p)) && (Strands(u, p) <==> RemoveSpoils(t, s, false)) &&
      Tally(u, Elements) == Tally(t, Elements) - 1 && Tally(u, Nodes) == Tally(t, Nodes)
  {
    Uncrown(t, p, s);
    ClearAllBut(t, p);
    StrandsAt(t, p, false);
    UpdatedBounded(t, s, None, Put(t, p, ClearKey(At(t, p))));
  }

  /** Unlinking the reclaimed branch below the node at q, which raxRemove keeps. */
  lemma Prunes(t: Tree, q: Path, i: nat, r: Path)
    requires Shaped(t) && HoleAt(t, q + ([i] + r)) && ValidPath(t, q) && i < |At(t, q).kids|
    requires Shaped(At(t, q)) && NoKeys(At(t, q).kids[i])
    requires q == [] || At(t, q).iskey || |At(t, q).kids| > 1
    ensures var n := DropKid(At(t, q), i); var u := Put(t, q, n);
      WellFormed(u) && Shaped(u) && SameGet(t, u) && ValidPath(u, q) && At(u, q) == n &&
      (NeatUpTo(t, q + ([i] + r)) ==> if Chained(n) then AllBut(u, q) else Compact(u)) &&
      (Chained(n) <==> |n.data| == 1 && !n.iskey) &&
      Tally(u, Nodes) == Tally(t, Nodes) - Tally(At(t, q).kids[i], Nodes) && Tally(u, Elements) == Tally(t, Elements)
  {
    Prune(t, q, i, r);
    NoKeysTally(At(t, q).kids[i]);
    var u := Put(t, q, DropKid(At(t, q), i));
    HoleFilled(u, q);
    AtShaped(u, q);
    if NeatUpTo(t, q + ([i] + r)) {
      DropAllBut(t, q, i, r);
      if !Chained(At(u, q)) { AllButSelf(u, q); }
    }
  }

  /** The recompression from p down to the end of the chain of m nodes, started at q. */
  lemma RecompressAll(t: Tree, p: Path, q: Path, m: nat)
    requires WellFormed(t) && Shaped(t) && ValidPath(t, p) && ValidPath(t, q) && p <= q && m > 0
    requires Chained(At(t, q)) && !Above(t, p, false) && ChainOf(At(t, p), |q| - |p| + 1)
    requires ChainOf(At(t, p), m) && !Chained(ChainEnd(At(t, p), m))
    ensures var u := if m > 1 then Put(t, p, Merged(At(t, p), m)) else t;
      WellFormed(u) && Shaped(u) && SameGet(t, u) && (AllBut(t, q) ==> Compact(u)) &&
      Tally(u, Elements) == Tally(t, Elements) && Tally(u, Nodes) == Tally(t, Nodes) - m + 1
  {
    Recompacts(t, p, q, m);
    if m > 1 { Recompress(t, p, m); }
  }

  /** The number of leading bytes that d and s share. */
  method MatchBytes(d: seq<Byte>, s: Key) returns (j: nat)
    ensures j <= |d| && j <= |s| && d[..j] == s[..j]
    ensures j < |d| && j < |s| ==> d[j] != s[j]
  {
    j := 0;
    while j < |d| && j < |s| && d[j] == s[j]
      invariant j <= |d| && j <= |s| && d[..j] == s[..j]
    {
      j := j + 1;
    }
  }

  /** The edge labelled c, or |d|. */
  method ScanEdge(d: seq<Byte>, c: Byte) returns (j: nat)
    ensures j <= |d| && (j < |d| ==> d[j] == c) && (j == |d| ==> c !in d)
  {
    j := 0;
    while j < |d| && d[j] != c
      invariant j <= |d| && c !in d[..j]
    {
      j := j + 1;
    }
    assert d[..|d|] == d;
  }

  /** The position raxAddChild gives to edge c: before the first greater edge. */
  method FindSlot(d: seq<Byte>, c: Byte) returns (pos: nat)
    requires Ascending(d) && c !in d
    ensures Slot(d, c, pos)
  {
    pos := 0;
    while pos < |d| && d[pos] <= c
      invariant pos <= |d| && forall i :: 0 <= i < pos ==> d[i] < c
    {
      pos := pos + 1;
    }
  }

  class Rax {
    var head: RaxNode
    var numele: nat
    var numnodes: nat
    ghost var shape: Shape
    ghost var tree: Tree
    ghost var refs: set<RaxNode>

    /** The nodes in refs, linked as in shape, represent tree. */
    ghost predicate Held()
      reads this`refs, this`head, this`shape, this`tree, refs
    {
      refs == Refs(shape) && head == shape.ref && Distinct(shape) && Rep(shape, tree)
    }

    /** raxNew. */
    constructor ()
      ensures Held() && tree == Empty && numele == 0 && numnodes == 1
      ensures fresh(refs)
    {
      numele, numnodes := 0, 1;
      var n := new RaxNode();
      head, shape, tree, refs := n, Shape(n, []), Empty, {n};
    }

    /** What is known of the node at p, and of the tree around it. */
    lemma Look(p: Path)
      requires Held() && ValidIn(shape, p)
      ensures ValidPath(tree, p) && Around(shape, p, tree)
      ensures var a, t := Sub(shape, p), At(tree, p);
        Header(a.ref, t) && Roots(a.ref.kids, a.kids) && RepAll(a.kids, t.kids) && |a.kids| == |t.kids| &&
        a.ref in refs && Refs(a) <= refs && Distinct(a) && a.ref !in RefsAll(a.kids)
    {
      SubRefs(shape, p);
      SubRep(shape, p, tree);
      AroundNow(shape, p, tree);
    }

    /** What the node object at p shows of the tree. */
    lemma Glance(p: Path)
      requires Held() && ValidIn(shape, p)
      ensures ValidPath(tree, p) && Header(Sub(shape, p).ref, At(tree, p)) && Sub(shape, p).ref in refs
      ensures |Sub(shape, p).kids| == |At(tree, p).kids|
    {
      Look(p);
    }

    /** Records that the subtree at p has been rewritten below its root object. */
    ghost method Settle(p: Path, n: Shape, u: Tree)
      requires refs == Refs(shape) && head == shape.ref && Distinct(shape) && ValidIn(shape, p)
      requires ValidPath(tree, p) && Around(shape, p, tree)
      requires Rep(n, u) && Distinct(n) && n.ref == Sub(shape, p).ref
      requires Refs(n) !! Refs(shape) - Refs(Sub(shape, p))
      modifies this`shape, this`tree, this`refs
      ensures Held() && shape == PutIn(old(shape), p, n) && tree == Put(old(tree), p, u)
      ensures forall r :: r in refs ==> r in Refs(n) || r in old(refs)
    {
      Splice(shape, p, n, tree, u);
      DistinctPutIn(shape, p, n);
      PutInRefs(shape, p, n);
      var s := PutIn(shape, p, n);
      shape, tree, refs := s, Put(tree, p, u), Refs(s);
    }

    /** Stores m, the root of n, as the child 'link' of the node at q. */
    method Graft(parent: RaxNode, link: nat, m: RaxNode, ghost q: Path, ghost n: Shape, ghost u: Tree)
      requires Held() && ValidIn(shape, q) && parent == Sub(shape, q).ref && link < |Sub(shape, q).kids|
      requires n.ref == m && Rep(n, u) && Distinct(n)
      requires Refs(n) !! Refs(shape) - Refs(Sub(shape, q).kids[link])
      modifies this`shape, this`tree, this`refs, parent`kids
      ensures ValidIn(old(shape), q + [link]) && ValidPath(old(tree), q + [link])
      ensures Held() && shape == PutIn(old(shape), q + [link], n) && tree == Put(old(tree), q + [link], u)
      ensures forall r :: r in refs ==> r in Refs(n) || r in old(refs)
    {
      Look(q);
      ghost var a, t := Sub(shape, q), At(tree, q);
      GraftDistinct(shape, q, link, n);
      RepUpdate(a.kids, t.kids, link, n, u);
      PutInParent(shape, q, link, n);
      PutParent(tree, q, link, u);
      ghost var g := Shape(parent, a.kids[link := n]);
      parent.kids := parent.kids[link := m];
      Settle(q, g, t.(kids := t.kids[link := u]));
    }

    /** The link that leads to p: &rax->head, or a child slot of the node above. */
    ghost predicate LinkTo(p: Path, parent: RaxNode?, link: nat)
      reads this`shape
    {
      ValidIn(shape, p) &&
      if p == [] then parent == null
      else ValidIn(shape, p[..|p| - 1]) && parent == Sub(shape, p[..|p| - 1]).ref && link == p[|p| - 1]
    }

    /** The memcpy to parentlink: m, the root of n, takes the place of the node at p. */
    method Relink(parent: RaxNode?, link: nat, m: RaxNode, ghost p: Path, ghost n: Shape, ghost u: Tree)
      requires Held() && LinkTo(p, parent, link)
      requires n.ref == m && Rep(n, u) && Distinct(n) && Refs(n) !! Refs(shape) - Refs(Sub(shape, p))
      modifies this`head, this`shape, this`tree, this`refs, refs - Refs(n)
      ensures ValidPath(old(tree), p)
      ensures Held() && shape == PutIn(old(shape), p, n) && tree == Put(old(tree), p, u)
      ensures ValidIn(shape, p) && Sub(shape, p) == n
      ensures forall r :: r in refs ==> r in Refs(n) || r in old(refs)
    {
      SubPutIn(shape, p, n);
      if parent == null {
        head, shape, tree, refs := m, n, u, Refs(n);
      } else {
        ghost var q := p[..|p| - 1];
        assert p == q + [link];
        assert [link][1..] == [];
        SubSplit(shape, q, [link]);
        SubRefs(shape, q);
        assert Sub(shape, q).ref !in Refs(Sub(shape, p)) by {
          assert Sub(shape, p) == Sub(shape, q).kids[link];
        }
        Graft(parent, link, m, q, n, u);
      }
    }

    /** raxSetData on the node at p. */
    method SetDataAt(h: RaxNode, v: Ptr, ghost p: Path)
      requires Held() && ValidIn(shape, p) && h == Sub(shape, p).ref
      modifies this`shape, this`tree, this`refs, h
      ensures Held() && ValidPath(old(tree), p) && tree == Put(old(tree), p, SetKey(At(old(tree), p), v))
      ensures forall r :: r in refs ==> r in old(refs)
    {
      Look(p);
      ghost var a, t := Sub(shape, p), At(tree, p);
      h.SetData(v);
      Settle(p, a, SetKey(t, v));
    }

    /** Clears iskey of the node at p; its isnull bit and value slot stay. */
    method ClearKeyAt(h: RaxNode, ghost p: Path)
      requires Held() && ValidIn(shape, p) && h == Sub(shape, p).ref
      modifies this`shape, this`tree, this`refs, h`iskey
      ensures Held() && ValidPath(old(tree), p) && tree == Put(old(tree), p, ClearKey(At(old(tree), p)))
      ensures shape == old(shape) && refs == old(refs)
    {
      Look(p);
      ghost var a, t := Sub(shape, p), At(tree, p);
      PutInSelf(shape, p);
      h.iskey := false;
      Settle(p, a, ClearKey(t));
    }

    /** A leaf object outside the tree is ready to become child pos of the node at p. */
    lemma LeafReady(p: Path, pos: nat, child: RaxNode)
      requires Held() && ValidIn(shape, p) && pos <= |Sub(shape, p).kids|
      requires child !in refs && Header(child, Empty) && child.kids == []
      ensures ValidPath(tree, p) && pos <= |At(tree, p).kids|
      ensures var a := Sub(shape, p);
        var g := Shape(a.ref, WithLeaf(a, pos, child));
        Distinct(g) && g.ref !in RefsAll(g.kids) && RepAll(g.kids, Inserted(At(tree, p).kids, pos, Empty)) &&
        Refs(g) !! Refs(shape) - Refs(a) && (forall r :: r in Refs(g) ==> r == child || r in refs) &&
        ValidIn(PutIn(shape, p, g), p + [pos]) && Sub(PutIn(shape, p, g), p + [pos]).ref == child
    {
      Look(p);
      var a := Sub(shape, p);
      InsertDistinct(a, pos, child);
      assert Rep(Shape(child, []), Empty);
      RepInsert(a.kids, At(tree, p).kids, pos, Shape(child, []), Empty);
      SubKid(shape, p, Shape(a.ref, WithLeaf(a, pos, child)), pos);
    }

    /** Stores a leaf object as a new child below edge c of the normal node at p. */
    method LinkChild(h: RaxNode, c: Byte, pos: nat, child: RaxNode, ghost p: Path)
      requires Held() && ValidIn(shape, p) && h == Sub(shape, p).ref && pos <= |h.data| == |h.kids|
      requires child !in refs && Header(child, Empty) && child.kids == []
      modifies this`shape, this`tree, this`refs, h`data, h`kids
      ensures Held() && ValidPath(old(tree), p)
      ensures At(old(tree), p).data == old(h.data) && |At(old(tree), p).kids| == |old(h.data)|
      ensures tree == Put(old(tree), p, AddKid(At(old(tree), p), c, pos, Empty))
      ensures ValidIn(shape, p + [pos]) && Sub(shape, p + [pos]).ref == child
      ensures forall r :: r in refs ==> r == child || r in old(refs)
    {
      Look(p);
      ghost var a, t := Sub(shape, p), At(tree, p);
      ghost var g := Shape(h, WithLeaf(a, pos, child));
      LeafReady(p, pos, child);
      RootsInsert(h.kids, a.kids, pos, Shape(child, []));
      h.InsertEdge(pos, c, child);
      Settle(p, g, AddKid(t, c, pos, Empty));
    }

    /** raxAddChild. */
    method AddChild(h: RaxNode, c: Byte, ghost p: Path) returns (child: RaxNode, pos: nat)
      requires Held() && ValidIn(shape, p) && h == Sub(shape, p).ref && !h.iscompr && |h.data| == |h.kids|
      requires Ascending(h.data) && c !in h.data
      modifies this`shape, this`tree, this`refs, h`data, h`kids
      ensures Held() && ValidPath(old(tree), p) && Slot(old(h.data), c, pos)
      ensures At(old(tree), p).data == old(h.data) && |At(old(tree), p).kids| == |old(h.data)|
      ensures tree == Put(old(tree), p, AddKid(At(old(tree), p), c, pos, Empty))
      ensures fresh(child) && ValidIn(shape, p + [pos]) && Sub(shape, p + [pos]).ref == child
      ensures forall r :: r in refs ==> r == child || r in old(refs)
    {
      child := new RaxNode();
      pos := FindSlot(h.data, c);
      LinkChild(h, c, pos, child, p);
    }

    /** raxCompressNode: the childless node at p becomes a string leading to a fresh node. */
    method CompressNode(h: RaxNode, s: Key, ghost p: Path) returns (child: RaxNode)
      requires Held() && ValidIn(shape, p) && h == Sub(shape, p).ref && h.data == [] && h.kids == []
      modifies this`shape, this`tree, this`refs, h`data, h`kids, h`iscompr
      ensures Held() && ValidPath(old(tree), p) && At(old(tree), p).kids == []
      ensures tree == Put(old(tree), p, At(old(tree), p).(compr := true, data := s, kids := [Empty]))
      ensures fresh(child) && ValidIn(shape, p + [0]) && Sub(shape, p + [0]).ref == child
      ensures forall r :: r in refs ==> r == child || r in old(refs)
    {
      child := new RaxNode();
      Look(p);
      ghost var a, t := Sub(shape, p), At(tree, p);
      ghost var g := Shape(h, WithLeaf(a, 0, child));
      LeafReady(p, 0, child);
      assert g.kids == [Shape(child, [])] && Inserted(t.kids, 0, Empty) == [Empty];
      h.Compress(s, child);
      Settle(p, g, t.(compr := true, data := s, kids := [Empty]));
    }

    /** raxRemoveChild: drops child i of the node at p. */
    method RemoveChild(h: RaxNode, child: RaxNode, ghost p: Path, ghost i: nat)
      requires Held() && Shaped(tree) && ValidIn(shape, p) && h == Sub(shape, p).ref
      requires i < |Sub(shape, p).kids| && child == Sub(shape, p).kids[i].ref
      modifies this`shape, this`tree, this`refs, h
      ensures Held() && ValidPath(old(tree), p) && i < |At(old(tree), p).kids| && Shaped(At(old(tree), p))
      ensures tree == Put(old(tree), p, DropKid(At(old(tree), p), i))
      ensures forall r :: r in refs ==> r in old(refs)
      ensures ValidIn(shape, p) && Sub(shape, p).ref == h
      ensures shape == PutIn(old(shape), p, Sub(shape, p))
    {
      Look(p);
      AtShaped(tree, p);
      ghost var a, t := Sub(shape, p), At(tree, p);
      RemoveDistinct(a, i);
      RepRemove(a.kids, t.kids, i);
      ghost var g := Shape(h, Removed(a.kids, i));
      SubPutIn(shape, p, g);
      RootsRemove(h.kids, a.kids, i);
      assert Refs(g) !! Refs(shape) - Refs(a);
      if h.iscompr {
        assert i == 0 && g.kids == [];
        h.Uncompress();
        assert Header(h, DropKid(t, i));
        Settle(p, g, DropKid(t, i));
      } else {
        h.DropEdge(child, a, i);
        assert Header(h, DropKid(t, i));
        Settle(p, g, DropKid(t, i));
      }
    }

    /** A subtree made of fresh nodes above the only child of the node at p is
        ready to take that node's place. */
    lemma SwapReady(p: Path, n: Shape, fresh_: set<RaxNode>)
      requires Held() && ValidIn(shape, p) && Sub(shape, p).kids != []
      requires fresh_ !! refs && forall r :: r in Refs(n) ==> r in fresh_ || r in Refs(Sub(shape, p).kids[0])
      ensures Refs(n) !! Refs(shape) - Refs(Sub(shape, p))
    {
      assert forall r :: r in Refs(Sub(shape, p).kids[0]) ==> r in RefsAll(Sub(shape, p).kids);
    }

    /** Algorithm 1: splits the compressed node at p so that byte j has a normal
        node of its own, which is returned. */
    method SplitMismatch(h: RaxNode, j: nat, parent: RaxNode?, link: nat, ghost p: Path) returns (split: RaxNode)
      requires Held() && Shaped(tree) && LinkTo(p, parent, link) && h == Sub(shape, p).ref
      requires h.iscompr && j < |h.data|
      modifies this`head, this`shape, this`tree, this`refs, refs
      ensures ValidPath(old(tree), p) && |At(old(tree), p).kids| == 1 && At(old(tree), p).data == old(h.data)
      ensures Held() && tree == Put(old(tree), p, SplitAt(At(old(tree), p), j))
      ensures ValidIn(shape, p + SplitPath(j)) && Sub(shape, p + SplitPath(j)).ref == split
      ensures fresh(refs - old(refs))
    {
      Look(p);
      AtShaped(tree, p);
      ghost var a, t := Sub(shape, p), At(tree, p);
      assert forall r :: r in Refs(a.kids[0]) ==> r in RefsAll(a.kids);
      var top, split', n := BuildSplit(h, j, a.kids[0], t, refs);
      split := split';
      SwapReady(p, n, set r | r in Refs(n) && r !in refs);
      Relink(parent, link, top, p, n, SplitAt(t, j));
      SubAppend(shape, p, SplitPath(j));
    }

    /** Algorithm 2: cuts the compressed node at p at byte j and makes the lower
        part the key with value v. */
    method SplitAtKey(h: RaxNode, j: nat, v: Ptr, parent: RaxNode?, link: nat, ghost p: Path)
      requires Held() && Shaped(tree) && LinkTo(p, parent, link) && h == Sub(shape, p).ref
      requires h.iscompr && 0 < j < |h.data|
      modifies this`head, this`shape, this`tree, this`refs, refs
      ensures ValidPath(old(tree), p) && |At(old(tree), p).kids| == 1 && At(old(tree), p).data == old(h.data)
      ensures Held() && tree == Put(old(tree), p, SplitKey(At(old(tree), p), j, v))
      ensures fresh(refs - old(refs))
    {
      Look(p);
      AtShaped(tree, p);
      ghost var a, t := Sub(shape, p), At(tree, p);
      assert forall r :: r in Refs(a.kids[0]) ==> r in RefsAll(a.kids);
      var top, n := BuildKeySplit(h, j, v, a.kids[0], t, refs);
      SwapReady(p, n, set r | r in Refs(n) && r !in refs);
      Relink(parent, link, top, p, n, SplitKey(t, j, v));
    }

    /** The counters are the numbers of keys and nodes. */
    ghost predicate Counted()
      reads this`numele, this`numnodes, this`tree
    {
      numele == Tally(tree, Elements) && numnodes == Tally(tree, Nodes)
    }

    /** What lookups and iteration rely on. */
    ghost predicate Readable()
      reads this, refs
    {
      Held() && Shaped(tree) && numele == Tally(tree, Elements)
    }

    ghost predicate Valid()
      reads this, refs
    {
      Held() && Counted() && WellFormed(tree) && Shaped(tree) && Bounded(tree)
    }

    /** One turn of the insertion loop: one or more bytes of s get a path. */
    method Extend(h: RaxNode, s: Key, at: nat, ghost p: Path, ghost v: Ptr, ghost goal: Tree)
      returns (child: RaxNode, i: nat, ghost p': Path)
      requires Held() && HoleAt(tree, p) && ValidIn(shape, p) && h == Sub(shape, p).ref
      requires Shaped(tree) && ValidPath(tree, p) && at < |s| && PathKey(tree, p) == s[..at]
      requires !h.iscompr && s[at] !in h.data && LeadsTo(tree, p, s[at..], v, goal)
      modifies this`shape, this`tree, this`refs, h
      ensures Held() && ValidIn(shape, p') && child == Sub(shape, p').ref
      ensures at < i <= |s| && Grown(old(tree), tree, p', s, i) && LeadsTo(tree, p', s[i..], v, goal)
      ensures fresh(child) && forall r :: r in refs ==> r == child || r in old(refs)
    {
      Look(p);
      AtShaped(tree, p);
      if |h.data| == 0 && |s| - at > 1 {
        var comprsize := |s| - at;
        if comprsize > MAX_SIZE { comprsize := MAX_SIZE; }
        i, p' := at + comprsize, p + [0];
        CompressGrows(tree, p, s, at, i);
        CompressLeads(tree, p, s, at, i, v, goal);
        child := CompressNode(h, s[at..i], p);
      } else {
        var pos;
        child, pos := AddChild(h, s[at], p);
        i, p' := at + 1, p + [pos];
        AddChildGrows(old(tree), p, s, at, pos);
        AddLeads(old(tree), p, s, at, pos, v, goal);
      }
    }

    /** The tree the insertion of s has reached: lookups are still those of t0, and
        the node at p stands for the first i bytes of s. */
    ghost predicate Growing(t0: Tree, s: Key, i: nat, h: RaxNode, p: Path)
      reads this, refs
    {
      Held() && Counted() && ValidIn(shape, p) && h == Sub(shape, p).ref &&
      Shaped(t0) && Shaped(tree) && SameGet(t0, tree) && HoleAt(tree, p) && ValidPath(tree, p) &&
      i <= |s| && PathKey(tree, p) == s[..i]
    }

    method Lengthen(h: RaxNode, s: Key, at: nat, ghost p: Path, ghost t0: Tree, ghost v: Ptr, ghost goal: Tree)
      returns (child: RaxNode, i: nat, ghost p': Path)
      requires Growing(t0, s, at, h, p) && at < |s| && !h.iscompr && s[at] !in h.data
      requires LeadsTo(tree, p, s[at..], v, goal)
      modifies this`shape, this`tree, this`refs, this`numnodes, h
      ensures Growing(t0, s, i, child, p') && at < i && At(tree, p') == Empty && LeadsTo(tree, p', s[i..], v, goal)
      ensures !child.iscompr && child.data == []
      ensures fresh(child) && forall r :: r in refs ==> r == child || r in old(refs)
    {
      child, i, p' := Extend(h, s, at, p, v, goal);
      Glance(p');
      SameTrans(t0, old(tree), tree);
      numnodes := numnodes + 1;
    }

    /** The last lines of raxInsert: the node reached gets the value. */
    method Finish(h: RaxNode, s: Key, v: Ptr, ghost p: Path, ghost t0: Tree)
      requires Growing(t0, s, |s|, h, p)
      modifies this`shape, this`tree, this`refs, this`numele, h
      ensures Held() && Counted() && WellFormed(tree) && Shaped(tree) && Updated(t0, s, Some(v), tree)
      ensures ValidPath(old(tree), p) && tree == Put(old(tree), p, SetKey(At(old(tree), p), v))
      ensures Get(t0, s) == if At(old(tree), p).iskey then Some(At(old(tree), p).val) else None
      ensures forall r :: r in refs ==> r in old(refs)
    {
      Glance(p);
      assert s[..|s|] == s;
      Crown(t0, tree, p, s, v);
      if !h.iskey { numele := numele + 1; }
      SetDataAt(h, v, p);
    }

    /** The end of raxInsert: the missing nodes, then the value. */
    method InsertTail(from: RaxNode, s: Key, at: nat, v: Ptr, ghost p0: Path, ghost t0: Tree, ghost goal: Tree)
      requires Growing(t0, s, at, from, p0) && at < |s| && !from.iscompr && s[at] !in from.data && from in refs
      requires LeadsTo(tree, p0, s[at..], v, goal)
      modifies this`shape, this`tree, this`refs, this`numnodes, this`numele, refs
      ensures Held() && Counted() && WellFormed(tree) && Shaped(tree)
      ensures Get(t0, s).None? && Updated(t0, s, Some(v), tree) && tree == goal
      ensures fresh(refs - old(refs))
    {
      var h, i := from, at;
      ghost var p := p0;
      while i < |s|
        invariant at <= i && Growing(t0, s, i, h, p) && (i == at || At(tree, p) == Empty)
        invariant i < |s| ==> !h.iscompr && s[i] !in h.data
        invariant LeadsTo(tree, p, s[i..], v, goal)
        invariant h in old(refs) || fresh(h)
        invariant fresh(refs - old(refs))
        decreases |s| - i
      {
        h, i, p := Lengthen(h, s, i, p, t0, v, goal);
      }
      Finish(h, s, v, p, t0);
    }

    /** The comparison raxLowWalk makes at one node: either the edge j to follow
        and the new position, or where the walk stops. */
    method MatchNode(h: RaxNode, s: Key, at: nat, ghost p: Path) returns (ok: bool, i: nat, j: nat)
      requires Held() && Shaped(tree) && ValidIn(shape, p) && Sub(shape, p).ref == h
      requires at < |s| && h.data != [] && ValidPath(tree, p) && PathKey(tree, p) == s[..at]
      ensures ok ==> j < |Sub(shape, p).kids| == |h.kids| && h.kids[j] == Sub(shape, p).kids[j].ref
      ensures ok ==> at < i <= |s| && ValidPath(tree, p + [j]) && PathKey(tree, p + [j]) == s[..i]
      ensures !ok ==> StoppedAt(tree, s, p, i, j)
    {
      Look(p);
      AtShaped(tree, p);
      i := at;
      if h.iscompr {
        j := MatchBytes(h.data, s[i..]);
        i := i + j;
        assert s[at..][..j] == s[at..i];
        ok := j == |h.data|;
        if ok { j := 0; }
      } else {
        j := ScanEdge(h.data, s[i]);
        ok := j < |h.data|;
        if ok {
          i := i + 1;
          assert [h.data[j]] == s[at..i];
        } else {
          j := 0;
        }
      }
      if ok { Followed(tree, p, s, at, i, j); }
    }

    /** raxLowWalk. */
    method LowWalk(s: Key)
      returns (i: nat, h: RaxNode, parent: RaxNode?, link: nat, splitpos: nat, stack: seq<RaxNode>, ghost p: Path)
      requires Held() && Shaped(tree)
      ensures Trail(shape, p, stack) && Sub(shape, p).ref == h
      ensures StoppedAt(tree, s, p, i, splitpos) && LinkTo(p, parent, link)
    {
      h, parent, link, stack, p := head, null, 0, [], [];
      i := 0;
      while |h.data| != 0 && i < |s|
        invariant i <= |s|
        invariant Trail(shape, p, stack) && Sub(shape, p).ref == h
        invariant ValidPath(tree, p) && PathKey(tree, p) == s[..i]
        invariant LinkTo(p, parent, link)
        decreases |s| - i
      {
        var ok, i', j := MatchNode(h, s, i, p);
        i := i';
        if !ok {
          splitpos := j;
          return;
        }
        TrailStep(shape, p, stack, j);
        assert (p + [j])[..|p|] == p;
        stack, p := stack + [h], p + [j];
        parent, link := h, j;
        h := h.kids[j];
      }
      Look(p);
      AtShaped(tree, p);
      splitpos := 0;
    }

    /** The numnodes increments of algorithm 1. */
    method CountSplit(j: nat, size: nat)
      requires j < size
      modifies this`numnodes
      ensures numnodes == old(numnodes) + (if j > 0 then 1 else 0) + (if j + 1 < size then 1 else 0)
    {
      if j > 0 { numnodes := numnodes + 1; }
      if j + 1 < size { numnodes := numnodes + 1; }
    }

    /** raxFind; None stands for raxNotFound. */
    method Find(s: Key) returns (r: Option<Ptr>)
      requires Held() && Shaped(tree)
      ensures r == Get(tree, s)
    {
      var i, h, _, _, splitpos, _, p := LowWalk(s);
      StoppedGet(tree, s, p, i, splitpos);
      Look(p);
      if i != |s| || (h.iscompr && splitpos != 0) || !h.iskey {
        return None;
      }
      return Some(h.GetData());
    }

    /** The walk for s has stopped at h. */
    ghost predicate AtStop(s: Key, i: nat, j: nat, h: RaxNode, parent: RaxNode?, link: nat, p: Path)
      reads this, refs
    {
      Held() && Counted() && WellFormed(tree) && Shaped(tree) &&
      LinkTo(p, parent, link) && h == Sub(shape, p).ref && StoppedAt(tree, s, p, i, j)
    }

    method InsertHere(s: Key, v: Ptr, h: RaxNode, ghost p: Path) returns (ret: int, prev: Option<Ptr>)
      requires Valid() && ValidIn(shape, p) && h == Sub(shape, p).ref && StoppedAt(tree, s, p, |s|, 0)
      modifies this`shape, this`tree, this`refs, this`numele, h
      ensures Held() && Counted() && WellFormed(tree) && Shaped(tree) && Updated(old(tree), s, Some(v), tree)
      ensures prev == Get(old(tree), s) && ret == (if prev.None? then 1 else 0)
      ensures tree == InsertTree(old(tree), s, v)
      ensures forall r :: r in refs ==> r in old(refs)
    {
      Glance(p);
      HoleOpen(tree, p);
      InsertHereIs(tree, s, p, v);
      ret, prev := 1, None;
      if h.iskey { ret, prev := 0, Some(h.GetData()); }
      Finish(h, s, v, p, tree);
    }

    /** Algorithm 1 with its node count. */
    method StartSplit(s: Key, i: nat, j: nat, h: RaxNode, parent: RaxNode?, link: nat, ghost p: Path, ghost v: Ptr)
      returns (split: RaxNode)
      requires AtStop(s, i, j, h, parent, link, p) && h.iscompr && i < |s|
      modifies this, refs
      ensures Growing(old(tree), s, i, split, p + SplitPath(j))
      ensures LeadsTo(tree, p + SplitPath(j), s[i..], v, InsertTree(old(tree), s, v))
      ensures !split.iscompr && s[i] !in split.data && split in refs && fresh(refs - old(refs))
    {
      Glance(p);
      SplitStarts(tree, s, p, i, j, v);
      CountSplit(j, |h.data|);
      split := SplitMismatch(h, j, parent, link, p);
      Glance(p + SplitPath(j));
    }

    method InsertMismatch(s: Key, v: Ptr, i: nat, j: nat, h: RaxNode, parent: RaxNode?, link: nat, ghost p: Path)
      requires AtStop(s, i, j, h, parent, link, p) && h.iscompr && i < |s|
      modifies this, refs
      ensures Held() && Counted() && WellFormed(tree) && Shaped(tree) && Updated(old(tree), s, Some(v), tree)
      ensures Get(old(tree), s).None? && tree == InsertTree(old(tree), s, v) && fresh(refs - old(refs))
    {
      var split := StartSplit(s, i, j, h, parent, link, p, v);
      InsertTail(split, s, i, v, p + SplitPath(j), old(tree), InsertTree(old(tree), s, v));
    }

    method InsertInside(s: Key, v: Ptr, j: nat, h: RaxNode, parent: RaxNode?, link: nat, ghost p: Path)
      requires AtStop(s, |s|, j, h, parent, link, p) && h.iscompr && j > 0
      modifies this, refs
      ensures Held() && Counted() && WellFormed(tree) && Shaped(tree) && Updated(old(tree), s, Some(v), tree)
      ensures Get(old(tree), s).None? && tree == InsertTree(old(tree), s, v) && fresh(refs - old(refs))
    {
      Glance(p);
      SplitKeyInserts(tree, s, p, |s|, j, v);
      InsertInsideIs(tree, s, p, j, v);
      numnodes, numele := numnodes + 1, numele + 1;
      SplitAtKey(h, j, v, parent, link, p);
    }

    method InsertBelow(s: Key, v: Ptr, i: nat, h: RaxNode, ghost p: Path)
      requires Valid() && ValidIn(shape, p) && h == Sub(shape, p).ref && StoppedAt(tree, s, p, i, 0)
      requires !h.iscompr && i < |s|
      modifies this, refs
      ensures Held() && Counted() && WellFormed(tree) && Shaped(tree) && Updated(old(tree), s, Some(v), tree)
      ensures Get(old(tree), s).None? && tree == InsertTree(old(tree), s, v) && fresh(refs - old(refs))
    {
      Glance(p);
      HoleOpen(tree, p);
      BelowLeads(tree, s, p, i, v);
      InsertTail(h, s, i, v, p, tree, InsertTree(tree, s, v));
    }

    /** The cases of raxInsert. */
    method Store(s: Key, v: Ptr) returns (ret: int, prev: Option<Ptr>)
      requires Valid() && |s| <= MAX_SIZE
      modifies this, refs
      ensures Held() && Counted() && WellFormed(tree) && Shaped(tree) && Updated(old(tree), s, Some(v), tree)
      ensures prev == Get(old(tree), s) && ret == (if prev.None? then 1 else 0)
      ensures tree == InsertTree(old(tree), s, v) && fresh(refs - old(refs))
    {
      var i, h, parent, link, j, _, p := LowWalk(s);
      Glance(p);
      ret, prev := 1, None;
      if i == |s| && (!h.iscompr || j == 0) {
        ret, prev := InsertHere(s, v, h, p);
      } else if h.iscompr && i != |s| {
        InsertMismatch(s, v, i, j, h, parent, link, p);
      } else if h.iscompr && i == |s| {
        InsertInside(s, v, j, h, parent, link, p);
      } else {
        InsertBelow(s, v, i, h, p);
      }
    }

    /** raxInsert.  'ret' is the C result; 'prev' is what *old receives, None when
        it is left alone.  A compact tree stays compact exactly if no string is split
        that leads to a chain, and one built by insertions alone always does. */
    method Insert(s: Key, v: Ptr) returns (ret: int, prev: Option<Ptr>)
      requires Valid() && |s| <= MAX_SIZE
      modifies this, refs
      ensures Valid() && Updated(old(tree), s, Some(v), tree) && tree == InsertTree(old(tree), s, v)
      ensures prev == Get(old(tree), s) && ret == (if prev.None? then 1 else 0)
      ensures Compact(old(tree)) ==> (Compact(tree) <==> !InsertSpoils(old(tree), s))
      ensures Neat(old(tree), true) ==> Neat(tree, true)
      ensures fresh(refs - old(refs))
    {
      InsertCompact(tree, s, v);
      ret, prev := Store(s, v);
      UpdatedBounded(old(tree), s, Some(v), tree);
    }

    /** The upward search of the recompression: the topmost node of the chain of
        only children that ends at h0, and its parent. */
    method ClimbChain(h0: RaxNode, ts0: seq<RaxNode>, ghost q: Path)
      returns (start: RaxNode, parent: RaxNode?, ghost p: Path)
      requires Held() && Shaped(tree) && Trail(shape, q, ts0) && h0 == Sub(shape, q).ref
      requires ValidPath(tree, q) && Chained(At(tree, q))
      ensures ValidIn(shape, p) && start == Sub(shape, p).ref && ValidPath(tree, p) && Chained(At(tree, p))
      ensures if p == [] then parent == null
              else ValidIn(shape, p[..|p| - 1]) && parent == Sub(shape, p[..|p| - 1]).ref
      ensures p <= q && ChainOf(At(tree, p), |q| - |p| + 1) && !Above(tree, p, false)
    {
      start, p, parent := h0, q, null;
      var ts := ts0;
      while true
        invariant Trail(shape, p, ts) && start == Sub(shape, p).ref && ValidPath(tree, p) && Chained(At(tree, p))
        invariant p <= q && ChainOf(At(tree, p), |q| - |p| + 1)
        decreases |ts|
      {
        if |ts| == 0 { parent := null; break; }
        TrailPop(shape, p, ts);
        ghost var q' := p[..|p| - 1];
        Glance(q');
        AtShaped(tree, q');
        AboveIs(tree, q', p[|p| - 1]);
        parent, ts := ts[|ts| - 1], ts[..|ts| - 1];
        if parent.iskey || (!parent.iscompr && |parent.data| != 1) { break; }
        ChainUp(tree, q', p[|p| - 1], |q| - |p| + 1);
        start, p := parent, q';
      }
    }

    lemma FitsAt(p: Path)
      requires WellFormed(tree) && Shaped(tree) && Bounded(tree) && ValidPath(tree, p)
      ensures Fits(At(tree, p))
    {
      forall m: nat | m > 0 && ChainOf(At(tree, p), m) ensures |ChainData(At(tree, p), m)| <= MAX_SIZE {
        ChainFits(tree, p, m);
      }
    }

    /** The slot to be overwritten with the new node. */
    method SlotOf(start: RaxNode, parent: RaxNode?, ghost p: Path) returns (link: nat)
      requires Held() && ValidIn(shape, p) && start == Sub(shape, p).ref
      requires if p == [] then parent == null
               else ValidIn(shape, p[..|p| - 1]) && parent == Sub(shape, p[..|p| - 1]).ref
      ensures LinkTo(p, parent, link)
    {
      link := 0;
      if parent != null {
        ghost var q, i := p[..|p| - 1], p[|p| - 1];
        assert p == q + [i];
        assert [i][1..] == [];
        SubSplit(shape, q, [i]);
        Look(q);
        link := FindParentLink(parent, start, Sub(shape, q), i);
      }
    }

    /** Puts one compressed node in place of the chain of m nodes at p. */
    method ReplaceChain(start: RaxNode, parent: RaxNode?, ghost p: Path, ghost m: nat)
      requires Held() && ValidIn(shape, p) && start == Sub(shape, p).ref && ValidPath(tree, p) && Shaped(tree)
      requires if p == [] then parent == null
               else ValidIn(shape, p[..|p| - 1]) && parent == Sub(shape, p[..|p| - 1]).ref
      requires m > 1 && ChainOf(At(tree, p), m) && !Chained(ChainEnd(At(tree, p), m)) && m <= numnodes
      modifies this`head, this`shape, this`tree, this`refs, this`numnodes, refs
      ensures Held() && tree == Put(old(tree), p, Merged(At(old(tree), p), m))
      ensures numnodes == old(numnodes) + 1 - m && fresh(refs - old(refs))
    {
      Look(p);
      AtShaped(tree, p);
      var link := SlotOf(start, parent, p);
      ghost var a, t := Sub(shape, p), At(tree, p);
      var m', freed, n := BuildMerged(start, a, t, m, refs);
      numnodes := numnodes + 1 - freed;
      Relink(parent, link, m', p, n, Merged(t, m));
    }

    /** The first scan, from the node at p. */
    method ScanAt(start: RaxNode, ghost p: Path) returns (nodes: nat)
      requires Held() && WellFormed(tree) && Shaped(tree) && Bounded(tree)
      requires ValidIn(shape, p) && start == Sub(shape, p).ref && ValidPath(tree, p) && Chained(At(tree, p))
      ensures nodes > 0 && ChainOf(At(tree, p), nodes) && !Chained(ChainEnd(At(tree, p), nodes))
    {
      Look(p);
      AtShaped(tree, p);
      FitsAt(p);
      var n, _ := ScanChain(start, Sub(shape, p), At(tree, p));
      nodes := n;
    }

    /** The recompression of raxRemove, started at the node with path q. */
    method TryCompress(h: RaxNode, ts: seq<RaxNode>, ghost q: Path)
      requires Held() && Counted() && WellFormed(tree) && Shaped(tree) && Bounded(tree)
      requires Trail(shape, q, ts) && h == Sub(shape, q).ref && ValidPath(tree, q) && Chained(At(tree, q))
      modifies this, refs
      ensures Held() && Counted() && WellFormed(tree) && Shaped(tree) && SameGet(old(tree), tree)
      ensures AllBut(old(tree), q) ==> Compact(tree)
      ensures fresh(refs - old(refs))
    {
      var start, parent, p := ClimbChain(h, ts, q);
      var nodes := ScanAt(start, p);
      RecompressAll(tree, p, q, nodes);
      if nodes > 1 {
        ReplaceChain(start, parent, p, nodes);
      }
    }

    /** Unlinks the reclaimed branch. */
    method Detach(h: RaxNode, child: RaxNode, freed: nat, ghost q: Path, ghost i: nat, ghost r: Path)
      requires Held() && Counted() && Shaped(tree) && HoleAt(tree, q + ([i] + r))
      requires ValidIn(shape, q) && h == Sub(shape, q).ref && Reclaimed(shape, tree, q, i, child, freed)
      requires q == [] || At(tree, q).iskey || |At(tree, q).kids| > 1
      modifies this`shape, this`tree, this`refs, this`numnodes, h
      ensures Held() && Counted() && WellFormed(tree) && Shaped(tree) && SameGet(old(tree), tree)
      ensures forall r :: r in refs ==> r in old(refs)
      ensures ValidIn(shape, q) && Sub(shape, q).ref == h && shape == PutIn(old(shape), q, Sub(shape, q))
      ensures ValidPath(tree, q)
      ensures |h.data| == 1 && !h.iskey <==> Chained(At(tree, q))
      ensures NeatUpTo(old(tree), q + ([i] + r)) ==> if Chained(At(tree, q)) then AllBut(tree, q) else Compact(tree)
    {
      Prunes(tree, q, i, r);
      numnodes := numnodes - freed;
      RemoveChild(h, child, q, i);
      Look(q);
    }

    /** Unlinks the reclaimed branch and, where a chain may have formed, recompresses. */
    method Unlink(h: RaxNode, child: RaxNode, ts: seq<RaxNode>, freed: nat, ghost q: Path, ghost i: nat, ghost r: Path)
      requires Held() && Counted() && Shaped(tree) && Bounded(tree) && HoleAt(tree, q + ([i] + r))
      requires Trail(shape, q, ts) && h == Sub(shape, q).ref && Reclaimed(shape, tree, q, i, child, freed)
      requires q == [] || At(tree, q).iskey || |At(tree, q).kids| > 1
      modifies this, refs
      ensures Held() && Counted() && WellFormed(tree) && Shaped(tree) && SameGet(old(tree), tree)
      ensures NeatUpTo(old(tree), q + ([i] + r)) ==> Compact(tree)
      ensures fresh(refs - old(refs))
    {
      SubRefs(shape, q);
      Detach(h, child, freed, q, i, r);
      if |h.data| == 1 && !h.iskey {
        TrailKept(old(shape), shape, q, ts);
        SameBounded(old(tree), tree);
        ghost var t1 := tree;
        TryCompress(h, ts, q);
        SameTrans(old(tree), t1, tree);
      }
    }

    /** What raxRemove does when the cleared node has no children. */
    method TidyLeaf(h0: RaxNode, ts0: seq<RaxNode>, ghost p: Path)
      requires Held() && Counted() && Shaped(tree) && Bounded(tree) && HoleAt(tree, p)
      requires Trail(shape, p, ts0) && h0 == Sub(shape, p).ref && ValidPath(tree, p)
      requires !At(tree, p).iskey && At(tree, p).kids == []
      modifies this, refs
      ensures Held() && Counted() && WellFormed(tree) && Shaped(tree) && SameGet(old(tree), tree)
      ensures AllBut(old(tree), p) ==> Compact(tree)
      ensures fresh(refs - old(refs))
    {
      var h, child, ts, freed, q, i := Reclaim(head, h0, ts0, p, shape, tree);
      if child != null {
        ghost var r := p[|q| + 1..];
        PathRest(p, q, i);
        Unlink(h, child, ts, freed, q, i, r);
      } else {
        HoleFilled(tree, p);
        if AllBut(tree, p) { AllButSelf(tree, p); }
      }
    }

    /** What raxRemove does once the key has been cleared. */
    method Tidy(h0: RaxNode, ts0: seq<RaxNode>, ghost p: Path)
      requires Held() && Counted() && Shaped(tree) && Bounded(tree) && HoleAt(tree, p)
      requires Trail(shape, p, ts0) && h0 == Sub(shape, p).ref && ValidPath(tree, p) && !At(tree, p).iskey
      modifies this, refs
      ensures Held() && Counted() && WellFormed(tree) && Shaped(tree) && SameGet(old(tree), tree)
      ensures AllBut(old(tree), p) ==> (Compact(tree) <==> !Strands(old(tree), p))
      ensures |At(old(tree), p).data| > 1 ==> tree == old(tree)
      ensures fresh(refs - old(refs))
    {
      Glance(p);
      AtShaped(tree, p);
      if |h0.data| == 0 {
        TidyLeaf(h0, ts0, p);
      } else {
        HoleFilled(tree, p);
        if |h0.data| == 1 {
          TryCompress(h0, ts0, p);
        } else if AllBut(tree, p) {
          StrandsIff(tree, p);
        }
      }
    }

    /** Clears the key found at p. */
    method Forget(h: RaxNode, s: Key, ghost p: Path)
      requires Valid() && ValidIn(shape, p) && h == Sub(shape, p).ref && |s| <= MAX_SIZE
      requires ValidPath(tree, p) && At(tree, p).iskey && PathKey(tree, p) == s
      modifies this`shape, this`tree, this`refs, this`numele, h`iskey
      ensures Held() && Counted() && Shaped(tree) && Bounded(tree) && HoleAt(tree, p)
      ensures shape == old(shape) && refs == old(refs) && ValidPath(tree, p) && !At(tree, p).iskey
      ensures Updated(old(tree), s, None, tree)
      ensures Compact(old(tree)) ==> AllBut(tree, p)
      ensures Strands(tree, p) <==> RemoveSpoils(old(tree), s, false)
      ensures tree == Put(old(tree), p, ClearKey(At(old(tree), p))) && At(tree, p).data == At(old(tree), p).data
    {
      Forgets(tree, p, s);
      numele := numele - 1;
      ClearKeyAt(h, p);
    }

    /** The removal of the key found at p. */
    method RemoveAt(h: RaxNode, s: Key, ts: seq<RaxNode>, ghost p: Path)
      requires Valid() && Trail(shape, p, ts) && h == Sub(shape, p).ref && |s| <= MAX_SIZE
      requires ValidPath(tree, p) && At(tree, p).iskey && PathKey(tree, p) == s
      modifies this, refs
      ensures Valid() && Updated(old(tree), s, None, tree)
      ensures Compact(old(tree)) ==> (Compact(tree) <==> !RemoveSpoils(old(tree), s, false))
      ensures Without(old(tree), s, p, tree)
      ensures fresh(refs - old(refs))
    {
      Glance(p);
      Forget(h, s, p);
      ghost var t1 := tree;
      Tidy(h, ts, p);
      SameBounded(t1, tree);
      UpdatedSame(old(tree), s, None, t1, tree);
    }

    /** raxRemove.  A compact tree stays compact exactly unless the key sits in a compressed
        node that then joins a chain. */
    method Remove(s: Key) returns (ret: int, prev: Option<Ptr>, ghost p: Path)
      requires Valid()
      modifies this, refs
      ensures Valid() && Updated(old(tree), s, None, tree)
      ensures prev == Get(old(tree), s) && ret == (if prev.None? then 0 else 1)
      ensures Compact(old(tree)) ==> (Compact(tree) <==> !RemoveSpoils(old(tree), s, false))
      ensures if prev.None? then tree == old(tree) else Without(old(tree), s, p, tree)
      ensures fresh(refs - old(refs))
    {
      var i, h, _, _, splitpos, ts, p' := LowWalk(s);
      p := p';
      StoppedGet(tree, s, p, i, splitpos);
      Glance(p);
      if i != |s| || (h.iscompr && splitpos != 0) || !h.iskey {
        AbsentSpoilsNot(tree, s, false);
        return 0, None, p;
      }
      ret, prev := 1, Some(h.GetData());
      assert s[..|s|] == s;
      RemoveAt(h, s, ts, p);
    }
  }

  /** No chain that starts at t is too long for a node. */
  ghost predicate Fits(t: Tree) {
    forall m: nat :: m > 0 && ChainOf(t, m) ==> |ChainData(t, m)| <= MAX_SIZE
  }

  /** The first scan of the recompression: how many nodes form the chain. */
  method ScanChain(start: RaxNode, ghost a: Shape, ghost t: Tree) returns (nodes: nat, comprsize: nat)
    requires start == a.ref && Rep(a, t) && Shaped(t) && Chained(t) && Fits(t)
    ensures nodes > 0 && ChainOf(t, nodes) && !Chained(ChainEnd(t, nodes))
    ensures comprsize == |ChainData(t, nodes)|
  {
    var h := start;
    ghost var e := a;
    ChainSnoc(t, 0);
    nodes, comprsize := 1, |h.data|;
    while |h.data| != 0
      invariant nodes > 0 && ChainOf(t, nodes) && ChainOf(t, nodes - 1) && comprsize == |ChainData(t, nodes)|
      invariant h == e.ref && Rep(e, ChainEnd(t, nodes - 1)) && Chained(ChainEnd(t, nodes - 1))
      invariant Shaped(ChainEnd(t, nodes - 1)) && ChainEnd(t, nodes) == ChainEnd(t, nodes - 1).kids[0]
      decreases e
    {
      OnlyChild(e, ChainEnd(t, nodes - 1));
      h := h.kids[|h.kids| - 1];
      e := e.kids[0];
      if h.iskey || (!h.iscompr && |h.data| != 1) { break; }
      ChainSnoc(t, nodes);
      if comprsize + |h.data| > MAX_SIZE { break; }
      nodes, comprsize := nodes + 1, comprsize + |h.data|;
    }
  }

  /** The second scan: the bytes of the chain, and the node it leads to. */
  method CollectChain(start: RaxNode, ghost a: Shape, ghost t: Tree, ghost m: nat)
    returns (data: seq<Byte>, h: RaxNode, freed: nat, ghost e: Shape)
    requires start == a.ref && Rep(a, t) && Shaped(t) && m > 0 && ChainOf(t, m) && !Chained(ChainEnd(t, m))
    ensures data == ChainData(t, m) && freed == m
    ensures h == e.ref && Rep(e, ChainEnd(t, m)) && Refs(e) <= Refs(a) && (Distinct(a) ==> Distinct(e))
  {
    data, h, freed, e := [], start, 0, a;
    ChainMid(t, 0, m);
    while |h.data| != 0
      invariant freed < m && ChainOf(t, freed) && Chained(ChainEnd(t, freed)) && data == ChainData(t, freed)
      invariant h == e.ref && Rep(e, ChainEnd(t, freed)) && Shaped(ChainEnd(t, freed))
      invariant Refs(e) <= Refs(a) && (Distinct(a) ==> Distinct(e))
      decreases e
    {
      OnlyChild(e, ChainEnd(t, freed));
      ChainSnoc(t, freed);
      data := data + h.data;
      h := h.kids[|h.kids| - 1];
      e := e.kids[0];
      freed := freed + 1;
      if h.iskey || (!h.iscompr && |h.data| != 1) {
        if freed < m { ChainMid(t, freed, m); }
        break;
      }
      if freed < m { ChainMid(t, freed, m); }
    }
  }

  /** The compressed node that replaces a chain. */
  method BuildMerged(start: RaxNode, ghost a: Shape, ghost t: Tree, ghost m: nat, ghost rs: set<RaxNode>)
    returns (top: RaxNode, freed: nat, ghost n: Shape)
    requires start == a.ref && Rep(a, t) && Shaped(t) && m > 0 && ChainOf(t, m) && !Chained(ChainEnd(t, m))
    requires Distinct(a) && Refs(a) <= rs
    ensures freed == m && n.ref == top && Distinct(n) && Rep(n, Merged(t, m))
    ensures forall r :: r in Refs(n) ==> fresh(r) || r in Refs(a)
  {
    var data, h, freed', e := CollectChain(start, a, t, m);
    freed := freed';
    top := new RaxNode.Of(false, false, NULL, true, data, [h]);
    n := Shape(top, [e]);
    Wrapped(top, e, ChainEnd(t, m), Merged(t, m));
  }

  /** Where the reclamation stands: everything at and below child i of the node
      at q is gone, and none of it was a key. */
  ghost predicate Reclaimed(s: Shape, t: Tree, q: Path, i: nat, child: RaxNode, freed: nat) {
    ValidIn(s, q) && ValidPath(t, q) && Shaped(At(t, q)) && i < |At(t, q).kids| == |Sub(s, q).kids| &&
    child == Sub(s, q).kids[i].ref && NoKeys(At(t, q).kids[i]) && freed == Tally(At(t, q).kids[i], Nodes)
  }

  lemma ReclaimUp(s: Shape, t: Tree, q: Path, r: Path, i: nat)
    requires Rep(s, t) && Shaped(t) && ValidIn(s, r) && q == r + [i] && i < |Sub(s, r).kids|
    requires ValidPath(t, q) && Shaped(At(t, q)) && NoKeys(At(t, q))
    ensures Reclaimed(s, t, r, i, Sub(s, r).kids[i].ref, Tally(At(t, q), Nodes))
    ensures Header(Sub(s, r).ref, At(t, r))
  {
    SubRep(s, r, t);
    AtShaped(t, r);
    KeyStep(t, r, i);
  }

  /** A node that the reclamation passes has no keys left below it either. */
  lemma ReclaimOn(t: Tree, i: nat)
    requires Shaped(t) && i < |t.kids| && NoKeys(t.kids[i]) && !t.iskey && (t.compr || |t.data| == 1)
    ensures NoKeys(t) && Tally(t, Nodes) == 1 + Tally(t.kids[i], Nodes)
  {
    OnlyKidNoKeys(t);
    assert t.kids == [t.kids[0]];
    TallyOne(t.kids[0], Nodes);
  }

  /** The upward reclamation of raxRemove: frees nodes from h0 up while they have
      no other child and hold no key.  'child' is the last node freed and 'h' the
      node it must be unlinked from. */
  method Reclaim(head: RaxNode, h0: RaxNode, ts0: seq<RaxNode>, ghost p: Path, ghost s: Shape, ghost t: Tree)
    returns (h: RaxNode, child: RaxNode?, ts: seq<RaxNode>, freed: nat, ghost q: Path, ghost i: nat)
    requires Rep(s, t) && Distinct(s) && head == s.ref && Shaped(t) && Trail(s, p, ts0) && h0 == Sub(s, p).ref
    requires ValidPath(t, p) && !At(t, p).iskey && At(t, p).kids == []
    ensures child == null ==> p == [] && freed == 0
    ensures child != null ==>
      Trail(s, q, ts) && h == Sub(s, q).ref && q + [i] <= p && Reclaimed(s, t, q, i, child, freed)
    ensures child != null ==> q == [] || At(t, q).iskey || |At(t, q).kids| > 1
  {
    h, child, ts, freed, q, i := h0, null, ts0, 0, p, 0;
    AtShaped(t, p);
    while h != head
      invariant Rep(s, t) && Trail(s, q, ts) && h == Sub(s, q).ref && ValidPath(t, q) && q <= p
      invariant Shaped(At(t, q)) && NoKeys(At(t, q)) && freed + 1 == Tally(At(t, q), Nodes)
      invariant child == null ==> q == p && freed == 0
      invariant child != null ==> q + [i] <= p && Reclaimed(s, t, q, i, child, freed)
      decreases |ts|
    {
      TrailPop(s, q, ts);
      ghost var r := q[..|q| - 1];
      i := q[|q| - 1];
      ReclaimUp(s, t, q, r, i);
      child, freed := h, freed + 1;
      h, ts, q := ts[|ts| - 1], ts[..|ts| - 1], r;
      if h.iskey || (!h.iscompr && |h.data| != 1) { break; }
      ReclaimOn(At(t, q), i);
    }
    if h == head { RootOnly(s, q); }
  }
}
