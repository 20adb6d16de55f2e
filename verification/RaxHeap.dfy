/** The nodes of contrib/rax/rax.c on the heap.  A ghost shape names the node
    objects a tree is made of, and Rep relates the fields of those objects to a
    value of type Tree.  Splice shows what rewriting a subtree in place does to
    the whole. */
module RaxHeap {
  import opened Common
  import opened RaxTree
  import opened RaxSteps

  /** struct raxNode.  'size' is |data|; 'aux' is the value slot, meaningful for a
      key whose isnull bit is clear. */
  class RaxNode {
    var iskey: bool
    var isnull: bool
    var aux: Ptr
    var iscompr: bool
    var data: seq<Byte>
    var kids: seq<RaxNode>

    /** raxNewNode(0, 0). */
    constructor ()
      ensures !iskey && !isnull && !iscompr && data == [] && kids == []
    {
      iskey, isnull, aux, iscompr, data, kids := false, false, NULL, false, [], [];
    }

    constructor Of(iskey: bool, isnull: bool, aux: Ptr, iscompr: bool, data: seq<Byte>, kids: seq<RaxNode>)
      ensures this.iskey == iskey && this.isnull == isnull && this.aux == aux
      ensures this.iscompr == iscompr && this.data == data && this.kids == kids
    {
      this.iskey, this.isnull, this.aux, this.iscompr, this.data, this.kids := iskey, isnull, aux, iscompr, data, kids;
    }

    function GetData(): Ptr
      reads this
    {
      if isnull then NULL else aux
    }

    /** The part of raxAddChild that makes room for edge c at pos. */
    method InsertEdge(pos: nat, c: Byte, child: RaxNode)
      requires pos <= |data| == |kids|
      modifies this`data, this`kids
      ensures data == Inserted(old(data), pos, c) && kids == Inserted(old(kids), pos, child)
    {
      data, kids := Inserted(data, pos, c), Inserted(kids, pos, child);
    }

    /** The part of raxCompressNode that stores the string and its only child. */
    method Compress(s: Key, child: RaxNode)
      modifies this`iscompr, this`data, this`kids
      ensures iscompr && data == s && kids == [child]
    {
      iscompr, data, kids := true, s, [child];
    }

    /** The part of raxRemoveChild for a normal node: finds the pointer to child,
        which is the i-th, and closes the gap. */
    method DropEdge(child: RaxNode, ghost a: Shape, ghost i: nat)
      requires Roots(kids, a.kids) && Distinct(a) && i < |a.kids| && child == a.kids[i].ref && |data| == |kids|
      modifies this`data, this`kids
      ensures data == Removed(old(data), i) && kids == Removed(old(kids), i)
    {
      var e := 0;
      while kids[e] != child
        invariant e <= i
        decreases i - e
      {
        e := e + 1;
      }
      assert e != i ==> Apart(a.kids[e], a.kids[i]);
      assert child in Refs(a.kids[e]) && child in Refs(a.kids[i]);
      data, kids := Removed(data, e), Removed(kids, e);
    }

    /** The part of raxRemoveChild for a compressed node. */
    method Uncompress()
      modifies this
      ensures iskey == old(iskey) && (iskey ==> GetData() == old(GetData()))
      ensures !iscompr && data == [] && kids == []
    {
      var v := NULL;
      if iskey { v := GetData(); }
      isnull, iscompr, data, kids := false, false, [], [];
      if iskey { SetData(v); }
    }

    method SetData(v: Ptr)
      modifies this
      ensures iskey && GetData() == v
      ensures iscompr == old(iscompr) && data == old(data) && kids == old(kids)
    {
      iskey := true;
      if v != NULL {
        isnull := false;
        aux := v;
      } else {
        isnull := true;
      }
    }
  }

  datatype Shape = Shape(ref: RaxNode, kids: seq<Shape>)

  ghost function Refs(s: Shape): set<RaxNode>
    decreases s
  {
    {s.ref} + RefsAll(s.kids)
  }

  ghost function RefsAll(ss: seq<Shape>): set<RaxNode>
    decreases ss
  {
    set i, r | 0 <= i < |ss| && r in Refs(ss[i]) :: r
  }

  ghost predicate Apart(s: Shape, t: Shape) {
    Refs(s) !! Refs(t)
  }

  /** No node object occurs twice. */
  ghost predicate Distinct(s: Shape) {
    s.ref !in RefsAll(s.kids) &&
    (forall i :: 0 <= i < |s.kids| ==> Distinct(s.kids[i])) &&
    forall i, j :: 0 <= i < |s.kids| && 0 <= j < |s.kids| && i != j ==> Apart(s.kids[i], s.kids[j])
  }

  /** The fields of node h are those of t, children aside. */
  ghost predicate Header(h: RaxNode, t: Tree)
    reads h
  {
    h.iskey == t.iskey && t.val == (if h.iskey then h.GetData() else NULL) &&
    h.iscompr == t.compr && h.data == t.data
  }

  /** The pointers ks lead to the roots of ss. */
  ghost predicate Roots(ks: seq<RaxNode>, ss: seq<Shape>) {
    |ks| == |ss| && forall i :: 0 <= i < |ss| ==> ks[i] == ss[i].ref
  }

  lemma RootsInsert(ks: seq<RaxNode>, ss: seq<Shape>, i: nat, n: Shape)
    requires Roots(ks, ss) && i <= |ss|
    ensures Roots(Inserted(ks, i, n.ref), Inserted(ss, i, n))
  {
  }

  lemma RootsRemove(ks: seq<RaxNode>, ss: seq<Shape>, i: nat)
    requires Roots(ks, ss) && i < |ss|
    ensures Roots(Removed(ks, i), Removed(ss, i))
  {
  }

  /** The objects of s, as linked on the heap, represent t. */
  ghost predicate Rep(s: Shape, t: Tree)
    reads Refs(s)
    decreases s, 0
  {
    Header(s.ref, t) && Roots(s.ref.kids, s.kids) && RepAll(s.kids, t.kids)
  }

  ghost predicate RepAll(ss: seq<Shape>, ts: seq<Tree>)
    reads RefsAll(ss)
    decreases ss
  {
    |ss| == |ts| &&
    forall i :: 0 <= i < |ss| ==>
      (assert forall r :: r in Refs(ss[i]) ==> r in RefsAll(ss); Rep(ss[i], ts[i]))
  }

  // ---------------------------------------------------------------- paths

  ghost predicate ValidIn(s: Shape, p: Path) {
    p == [] || (p[0] < |s.kids| && ValidIn(s.kids[p[0]], p[1..]))
  }

  ghost function Sub(s: Shape, p: Path): Shape
    requires ValidIn(s, p)
    decreases p
  {
    if p == [] then s else Sub(s.kids[p[0]], p[1..])
  }

  ghost function PutIn(s: Shape, p: Path, n: Shape): Shape
    requires ValidIn(s, p)
    decreases p
  {
    if p == [] then n else s.(kids := s.kids[p[0] := PutIn(s.kids[p[0]], p[1..], n)])
  }

  lemma {:induction false} SubRefs(s: Shape, p: Path)
    requires ValidIn(s, p)
    ensures Refs(Sub(s, p)) <= Refs(s) && Sub(s, p).ref in Refs(s)
    ensures Distinct(s) ==> Distinct(Sub(s, p))
    decreases p
  {
    if p != [] { SubRefs(s.kids[p[0]], p[1..]); }
  }

  lemma {:induction false} SubRep(s: Shape, p: Path, t: Tree)
    requires ValidIn(s, p) && Rep(s, t)
    ensures ValidPath(t, p) && Rep(Sub(s, p), At(t, p))
    decreases p
  {
    if p != [] { SubRep(s.kids[p[0]], p[1..], t.kids[p[0]]); }
  }

  lemma {:induction false} SubPutIn(s: Shape, p: Path, n: Shape)
    requires ValidIn(s, p)
    ensures ValidIn(PutIn(s, p, n), p) && Sub(PutIn(s, p, n), p) == n
    decreases p
  {
    if p != [] { SubPutIn(s.kids[p[0]], p[1..], n); }
  }

  lemma SubKid(s: Shape, p: Path, n: Shape, i: nat)
    requires ValidIn(s, p) && i < |n.kids|
    ensures ValidIn(PutIn(s, p, n), p + [i]) && Sub(PutIn(s, p, n), p + [i]) == n.kids[i]
  {
    SubPutIn(s, p, n);
    assert [i][1..] == [];
    SubAppend(PutIn(s, p, n), p, [i]);
  }

  lemma {:induction false} PutInSelf(s: Shape, p: Path)
    requires ValidIn(s, p)
    ensures PutIn(s, p, Sub(s, p)) == s
    decreases p
  {
    if p != [] { PutInSelf(s.kids[p[0]], p[1..]); }
  }

  lemma {:induction false} SubAppend(s: Shape, p: Path, q: Path)
    requires ValidIn(s, p) && ValidIn(Sub(s, p), q)
    ensures ValidIn(s, p + q) && Sub(s, p + q) == Sub(Sub(s, p), q)
    decreases p
  {
    if p == [] {
      assert p + q == q;
    } else {
      SubAppend(s.kids[p[0]], p[1..], q);
      assert (p + q)[1..] == p[1..] + q;
    }
  }

  lemma {:induction false} SubSplit(s: Shape, p: Path, q: Path)
    requires ValidIn(s, p + q)
    ensures ValidIn(s, p) && ValidIn(Sub(s, p), q) && Sub(s, p + q) == Sub(Sub(s, p), q)
    decreases p
  {
    if p == [] {
      assert p + q == q;
    } else {
      assert (p + q)[1..] == p[1..] + q;
      SubSplit(s.kids[p[0]], p[1..], q);
    }
  }

  /** In a distinct shape only the empty path leads to the root object. */
  lemma RootOnly(s: Shape, p: Path)
    requires Distinct(s) && ValidIn(s, p) && Sub(s, p).ref == s.ref
    ensures p == []
  {
    if p != [] { SubRefs(s.kids[p[0]], p[1..]); }
  }

  // ---------------------------------------------------------------- replacing a subtree

  lemma {:induction false} RefsPutIn(s: Shape, p: Path, n: Shape, r: RaxNode)
    requires ValidIn(s, p) && Distinct(s) && r in Refs(PutIn(s, p, n))
    ensures r in Refs(n) || (r in Refs(s) && r !in Refs(Sub(s, p)))
    decreases p
  {
    if p != [] {
      var i, t := p[0], PutIn(s, p, n);
      SubRefs(s.kids[i], p[1..]);
      if r != s.ref {
        var j :| 0 <= j < |t.kids| && r in Refs(t.kids[j]);
        if j == i {
          RefsPutIn(s.kids[i], p[1..], n, r);
        } else {
          assert r in Refs(s.kids[j]);
          assert Apart(s.kids[j], s.kids[i]);
        }
      }
    }
  }

  lemma PutInRefs(s: Shape, p: Path, n: Shape)
    requires ValidIn(s, p) && Distinct(s)
    ensures forall r :: r in Refs(PutIn(s, p, n)) ==> r in Refs(n) || r in Refs(s)
  {
    forall r | r in Refs(PutIn(s, p, n)) ensures r in Refs(n) || r in Refs(s) { RefsPutIn(s, p, n, r); }
  }

  lemma {:induction false} DistinctPutIn(s: Shape, p: Path, n: Shape)
    requires ValidIn(s, p) && Distinct(s) && Distinct(n)
    requires Refs(n) !! Refs(s) - Refs(Sub(s, p))
    ensures Distinct(PutIn(s, p, n))
    decreases p
  {
    if p != [] {
      var i, t := p[0], PutIn(s, p, n);
      var k, k' := s.kids[i], PutIn(s.kids[i], p[1..], n);
      SubRefs(k, p[1..]);
      assert Refs(n) !! Refs(k) - Refs(Sub(k, p[1..]));
      DistinctPutIn(k, p[1..], n);
      forall r | r in Refs(k') ensures r in Refs(n) || r in Refs(k) { RefsPutIn(k, p[1..], n, r); }
      forall r | r in RefsAll(t.kids) ensures r != s.ref {
        var j :| 0 <= j < |t.kids| && r in Refs(t.kids[j]);
        if j != i { assert r in Refs(s.kids[j]); }
      }
      forall j | 0 <= j < |s.kids| && j != i ensures Apart(s.kids[j], k') && Apart(k', s.kids[j]) {
        assert Apart(s.kids[j], k);
        forall r | r in Refs(s.kids[j]) ensures r !in Refs(k') {
          assert r in Refs(s) && r !in Refs(k);
        }
      }
    }
  }

  /** Everything of s outside the subtree at p represents t, links included. */
  ghost predicate Around(s: Shape, p: Path, t: Tree)
    requires ValidIn(s, p) && Distinct(s)
    reads Refs(s) - Refs(Sub(s, p))
    decreases p
  {
    if p == [] then true
    else
      var i := p[0];
      SubRefs(s.kids[i], p[1..]);
      assert forall j :: 0 <= j < |s.kids| && j != i ==> Apart(s.kids[j], s.kids[i]);
      Header(s.ref, t) && Roots(s.ref.kids, s.kids) && |s.kids| == |t.kids| &&
      (forall j :: 0 <= j < |s.kids| && j != i ==> Rep(s.kids[j], t.kids[j])) &&
      Around(s.kids[i], p[1..], t.kids[i])
  }

  lemma {:induction false} AroundNow(s: Shape, p: Path, t: Tree)
    requires ValidIn(s, p) && Distinct(s) && Rep(s, t)
    ensures ValidPath(t, p) && Around(s, p, t)
    decreases p
  {
    if p != [] { AroundNow(s.kids[p[0]], p[1..], t.kids[p[0]]); }
  }

  /** When only the subtree at p was rewritten, keeping its root object, the whole
      now represents t with that subtree replaced. */
  lemma {:induction false} Splice(s: Shape, p: Path, n: Shape, t: Tree, u: Tree)
    requires ValidIn(s, p) && Distinct(s) && ValidPath(t, p) && Around(s, p, t)
    requires Rep(n, u) && n.ref == Sub(s, p).ref
    ensures PutIn(s, p, n).ref == s.ref && Rep(PutIn(s, p, n), Put(t, p, u))
    decreases p
  {
    if p != [] {
      Splice(s.kids[p[0]], p[1..], n, t.kids[p[0]], u);
    }
  }

  // ---------------------------------------------------------------- replacing a child

  /** Replacing one child keeps objects distinct, inside and around. */
  lemma GraftDistinct(s: Shape, q: Path, i: nat, n: Shape)
    requires ValidIn(s, q) && i < |Sub(s, q).kids| && Distinct(s) && Distinct(n)
    requires Refs(n) !! Refs(s) - Refs(Sub(s, q).kids[i])
    ensures var g := Shape(Sub(s, q).ref, Sub(s, q).kids[i := n]);
      Distinct(g) && Refs(g) !! Refs(s) - Refs(Sub(s, q)) &&
      forall r :: r in Refs(g) ==> r in Refs(n) || r in Refs(s)
  {
    var a := Sub(s, q);
    SubRefs(s, q);
    var g := Shape(a.ref, a.kids[i := n]);
    assert [i][1..] == [];
    assert g == PutIn(a, [i], n);
    assert Refs(n) !! Refs(a) - Refs(Sub(a, [i]));
    DistinctPutIn(a, [i], n);
    PutInRefs(a, [i], n);
  }

  lemma {:induction false} PutInParent(s: Shape, q: Path, i: nat, n: Shape)
    requires ValidIn(s, q) && i < |Sub(s, q).kids|
    ensures ValidIn(s, q + [i])
    ensures PutIn(s, q + [i], n) == PutIn(s, q, Shape(Sub(s, q).ref, Sub(s, q).kids[i := n]))
    decreases q
  {
    if q == [] {
      assert q + [i] == [i];
      assert [i][1..] == [];
    } else {
      assert (q + [i])[1..] == q[1..] + [i];
      PutInParent(s.kids[q[0]], q[1..], i, n);
    }
  }

  // ---------------------------------------------------------------- adding and removing a child

  /** The children of s with one more leaf object. */
  ghost function WithLeaf(s: Shape, i: nat, c: RaxNode): seq<Shape>
    requires i <= |s.kids|
  {
    Inserted(s.kids, i, Shape(c, []))
  }

  lemma WithLeafAt(s: Shape, i: nat, c: RaxNode, a: nat)
    requires i <= |s.kids| && a < |WithLeaf(s, i, c)| && c !in Refs(s)
    ensures a == i ==> Refs(WithLeaf(s, i, c)[a]) == {c}
    ensures a != i ==> var a' := (if a < i then a else a - 1);
      WithLeaf(s, i, c)[a] == s.kids[a'] && c !in Refs(s.kids[a']) && Refs(s.kids[a']) <= Refs(s)
  {
    if a != i {
      var a' := if a < i then a else a - 1;
      assert forall r :: r in Refs(s.kids[a']) ==> r in RefsAll(s.kids);
    }
  }

  lemma WithLeafPair(s: Shape, i: nat, c: RaxNode, a: nat, b: nat)
    requires Distinct(s) && i <= |s.kids| && c !in Refs(s)
    requires a < |WithLeaf(s, i, c)| && b < |WithLeaf(s, i, c)| && a != b
    ensures Apart(WithLeaf(s, i, c)[a], WithLeaf(s, i, c)[b])
  {
    WithLeafAt(s, i, c, a);
    WithLeafAt(s, i, c, b);
    if a != i && b != i {
      assert Apart(s.kids[if a < i then a else a - 1], s.kids[if b < i then b else b - 1]);
    }
  }

  /** A leaf object not in the tree may be added as a child. */
  lemma InsertDistinct(s: Shape, i: nat, c: RaxNode)
    requires Distinct(s) && i <= |s.kids| && c !in Refs(s)
    ensures var g := Shape(s.ref, WithLeaf(s, i, c));
      Distinct(g) && forall r :: r in Refs(g) ==> r == c || r in Refs(s)
  {
    var ks := WithLeaf(s, i, c);
    forall r | r in RefsAll(ks) ensures r == c || (r in Refs(s) && r != s.ref) {
      var j :| 0 <= j < |ks| && r in Refs(ks[j]);
      WithLeafAt(s, i, c, j);
      if j != i { assert r in RefsAll(s.kids); }
    }
    forall a | 0 <= a < |ks| ensures Distinct(ks[a]) { WithLeafAt(s, i, c, a); }
    forall a, b | 0 <= a < |ks| && 0 <= b < |ks| && a != b ensures Apart(ks[a], ks[b]) { WithLeafPair(s, i, c, a, b); }
  }

  lemma RemoveDistinct(s: Shape, i: nat)
    requires Distinct(s) && i < |s.kids|
    ensures var g := Shape(s.ref, Removed(s.kids, i)); Distinct(g) && forall r :: r in Refs(g) ==> r in Refs(s)
  {
    var ks := Removed(s.kids, i);
    forall r | r in RefsAll(ks) ensures r in RefsAll(s.kids) {
      var j :| 0 <= j < |ks| && r in Refs(ks[j]);
      assert ks[j] == s.kids[if j < i then j else j + 1];
    }
    forall a | 0 <= a < |ks| ensures Distinct(ks[a]) { assert ks[a] == s.kids[if a < i then a else a + 1]; }
    forall a, b | 0 <= a < |ks| && 0 <= b < |ks| && a != b ensures Apart(ks[a], ks[b]) { RemovePair(s, i, a, b); }
  }

  lemma RemovePair(s: Shape, i: nat, a: nat, b: nat)
    requires Distinct(s) && i < |s.kids| && a < |Removed(s.kids, i)| && b < |Removed(s.kids, i)| && a != b
    ensures Apart(Removed(s.kids, i)[a], Removed(s.kids, i)[b])
  {
    var a', b' := if a < i then a else a + 1, if b < i then b else b + 1;
    assert Apart(s.kids[a'], s.kids[b']);
  }

  lemma RepInsert(ss: seq<Shape>, ts: seq<Tree>, i: nat, n: Shape, u: Tree)
    requires RepAll(ss, ts) && i <= |ss| && Rep(n, u)
    ensures RepAll(Inserted(ss, i, n), Inserted(ts, i, u))
  {
  }

  lemma RepUpdate(ss: seq<Shape>, ts: seq<Tree>, i: nat, n: Shape, u: Tree)
    requires RepAll(ss, ts) && i < |ss| && Rep(n, u)
    ensures RepAll(ss[i := n], ts[i := u])
  {
  }

  lemma RepRemove(ss: seq<Shape>, ts: seq<Tree>, i: nat)
    requires RepAll(ss, ts) && i < |ss|
    ensures RepAll(Removed(ss, i), Removed(ts, i))
  {
  }

  /** A fresh node on top of an existing subtree. */
  lemma Wrapped(h: RaxNode, n: Shape, u: Tree, t: Tree)
    requires Rep(n, u) && Distinct(n) && h !in Refs(n) && h.kids == [n.ref] && Header(h, t) && t.kids == [u]
    ensures Rep(Shape(h, [n]), t) && Distinct(Shape(h, [n])) && Refs(Shape(h, [n])) == {h} + Refs(n)
  {
    assert RefsAll([n]) == Refs(n) by {
      forall r | r in Refs(n) ensures r in RefsAll([n]) { assert r in Refs([n][0]); }
    }
  }

  /** A fresh node with string d and the root of n as its only child. */
  method NewLink(iskey: bool, isnull: bool, aux: Ptr, d: seq<Byte>, kid: RaxNode,
                 ghost n: Shape, ghost u: Tree, ghost rs: set<RaxNode>)
    returns (m: RaxNode)
    requires Rep(n, u) && Distinct(n) && kid == n.ref && Refs(n) <= rs
    ensures fresh(m) && Distinct(Shape(m, [n])) && Refs(Shape(m, [n])) == {m} + Refs(n)
    ensures Rep(Shape(m, [n]), Link(iskey, if iskey && !isnull then aux else NULL, d, u))
  {
    m := new RaxNode.Of(iskey, isnull, aux, |d| > 1, d, [kid]);
    Wrapped(m, n, u, Link(iskey, if iskey && !isnull then aux else NULL, d, u));
  }

  /** What remains of the compressed node h after byte j: a postfix node, or its
      child when no byte is left. */
  method BuildPostfix(h: RaxNode, j: nat, ghost kid: Shape, ghost t: Tree, ghost rs: set<RaxNode>)
    returns (m: RaxNode, ghost n: Shape)
    requires Header(h, t) && |h.kids| == 1 && h.kids[0] == kid.ref && |t.kids| == 1 && Rep(kid, t.kids[0])
    requires j < |t.data| && Distinct(kid) && Refs(kid) <= rs
    ensures n.ref == m && Distinct(n) && Rep(n, Postfix(t, j + 1))
    ensures forall r :: r in Refs(n) ==> fresh(r) || r in Refs(kid)
  {
    m, n := h.kids[0], kid;
    if j + 1 < |h.data| {
      m := NewLink(false, false, NULL, h.data[j + 1..], h.kids[0], kid, t.kids[0], rs);
      n := Shape(m, [kid]);
    }
  }

  /** The nodes algorithm 1 makes from the compressed node h at byte j: 'top' takes
      the place of h, 'split' is the node for byte j. */
  method BuildSplit(h: RaxNode, j: nat, ghost kid: Shape, ghost t: Tree, ghost rs: set<RaxNode>)
    returns (top: RaxNode, split: RaxNode, ghost n: Shape)
    requires Header(h, t) && |h.kids| == 1 && h.kids[0] == kid.ref && |t.kids| == 1 && Rep(kid, t.kids[0])
    requires j < |t.data| && Distinct(kid) && Refs(kid) <= rs
    ensures n.ref == top && Distinct(n) && Rep(n, SplitAt(t, j))
    ensures forall r :: r in Refs(n) ==> fresh(r) || r in Refs(kid)
    ensures ValidIn(n, SplitPath(j)) && Sub(n, SplitPath(j)).ref == split
  {
    var postfix, pf := BuildPostfix(h, j, kid, t, rs);
    split := NewLink(j == 0 && h.iskey, h.isnull, h.aux, [h.data[j]], postfix, pf, Postfix(t, j + 1), Refs(pf));
    top, n := split, Shape(split, [pf]);
    if j > 0 {
      ghost var sp := n;
      top := NewLink(h.iskey, h.isnull, h.aux, h.data[..j], split, sp, SplitNode(t, j), Refs(sp));
      n := Shape(top, [sp]);
      assert [0][1..] == [];
    }
  }

  /** The two nodes algorithm 2 makes from the compressed node h: the lower one
      is the key with value v. */
  method BuildKeySplit(h: RaxNode, j: nat, v: Ptr, ghost kid: Shape, ghost t: Tree, ghost rs: set<RaxNode>)
    returns (top: RaxNode, ghost n: Shape)
    requires Header(h, t) && |h.kids| == 1 && h.kids[0] == kid.ref && |t.kids| == 1 && Rep(kid, t.kids[0])
    requires 0 < j < |t.data| && Distinct(kid) && Refs(kid) <= rs
    ensures n.ref == top && Distinct(n) && Rep(n, SplitKey(t, j, v))
    ensures forall r :: r in Refs(n) ==> fresh(r) || r in Refs(kid)
  {
    var postfix := NewLink(true, v == NULL, v, h.data[j..], h.kids[0], kid, t.kids[0], rs);
    ghost var pf := Shape(postfix, [kid]);
    top := NewLink(h.iskey, h.isnull, h.aux, h.data[..j], postfix, pf, Link(true, v, t.data[j..], t.kids[0]), Refs(pf));
    n := Shape(top, [pf]);
  }

  /** Stepping to the only child of a chain node; the test that raxRemove makes on
      the child tells whether the chain goes on. */
  lemma OnlyChild(e: Shape, t: Tree)
    requires Rep(e, t) && Chained(t) && Shaped(t)
    ensures |e.ref.data| != 0 && |e.ref.kids| == 1 && |e.kids| == 1 && e.ref.kids[0] == e.kids[0].ref
    ensures Rep(e.kids[0], t.kids[0]) && Shaped(t.kids[0]) && Refs(e.kids[0]) <= Refs(e)
    ensures Header(e.kids[0].ref, t.kids[0])
    ensures var h := e.kids[0].ref; Chained(t.kids[0]) <==> !(h.iskey || (!h.iscompr && |h.data| != 1))
  {
    assert forall r :: r in Refs(e.kids[0]) ==> r in RefsAll(e.kids);
  }

  /** raxFindParentLink: the slot of parent that holds child. */
  method FindParentLink(parent: RaxNode, child: RaxNode, ghost a: Shape, ghost i: nat) returns (e: nat)
    requires Roots(parent.kids, a.kids) && Distinct(a) && i < |a.kids| && child == a.kids[i].ref
    ensures e == i
  {
    e := 0;
    while parent.kids[e] != child
      invariant e <= i
      decreases i - e
    {
      e := e + 1;
    }
    assert e != i ==> Apart(a.kids[e], a.kids[i]);
    assert child in Refs(a.kids[e]) && child in Refs(a.kids[i]);
  }
}
