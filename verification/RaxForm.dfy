/** The exact trees of raxInsert, and when trees stay compressed (contrib/rax/rax.c). */
module RaxForm {
  import opened Common
  import opened RaxTree
  import opened RaxSteps

  // ---------------------------------------------------------------- compressed trees

  /** A node that must not lead to another one of a chain: one that raxRemove would merge
      with it, or, strictly, any compressed node. */
  ghost predicate Joins(t: Tree, strict: bool) {
    Chained(t) || (strict && t.compr)
  }

  /** No two nodes that could be one: below a node that joins there is none of a chain. */
  ghost predicate Neat(t: Tree, strict: bool) {
    (Joins(t, strict) && |t.kids| == 1 ==> !Chained(t.kids[0])) &&
    forall i :: 0 <= i < |t.kids| ==> Neat(t.kids[i], strict)
  }

  /** What rax.c means by a compressed tree. */
  ghost predicate Compact(t: Tree) { Neat(t, false) }

  /** The parent of the node at p joins. */
  ghost predicate Above(t: Tree, p: Path, strict: bool)
    requires ValidPath(t, p)
    decreases p
  {
    p != [] && if |p| == 1 then Joins(t, strict) && |t.kids| == 1 else Above(t.kids[p[0]], p[1..], strict)
  }

  /** Neat aside from the node at p and what is below. */
  ghost predicate Beside(t: Tree, p: Path, strict: bool)
    requires ValidPath(t, p)
    decreases p
  {
    p == [] ||
    (Beside(t.kids[p[0]], p[1..], strict) &&
     (|p| > 1 && Joins(t, strict) && |t.kids| == 1 ==> !Chained(t.kids[0])) &&
     forall i :: 0 <= i < |t.kids| && i != p[0] ==> Neat(t.kids[i], strict))
  }

  /** A replacement keeps a tree neat exactly if it is neat itself, and fits its parent. */
  lemma {:induction false} NeatPut(t: Tree, p: Path, n: Tree, strict: bool)
    requires ValidPath(t, p)
    ensures Neat(Put(t, p, n), strict) <==>
      Beside(t, p, strict) && Neat(n, strict) && !(Above(t, p, strict) && Chained(n))
    decreases p
  {
    if p != [] {
      var k := p[0];
      NeatPut(t.kids[k], p[1..], n, strict);
      var m := Put(t.kids[k], p[1..], n);
      var u := Put(t, p, n);
      assert u.kids == t.kids[k := m];
      if |p| == 1 {
        assert p[1..] == [] && m == n;
      } else {
        assert p[1..] != [] && Chained(m) == Chained(t.kids[k]);
      }
      assert u.kids[k] == m && forall i :: 0 <= i < |t.kids| && i != k ==> u.kids[i] == t.kids[i];
      assert (forall i :: 0 <= i < |u.kids| ==> Neat(u.kids[i], strict)) <==>
             (Neat(m, strict) && forall i :: 0 <= i < |t.kids| && i != k ==> Neat(t.kids[i], strict));
    }
  }

  lemma {:induction false} PutSelf(t: Tree, p: Path)
    requires ValidPath(t, p)
    ensures Put(t, p, At(t, p)) == t
    decreases p
  {
    if p != [] {
      PutSelf(t.kids[p[0]], p[1..]);
    }
  }

  lemma NeatSelf(t: Tree, p: Path, strict: bool)
    requires ValidPath(t, p)
    ensures Neat(t, strict) <==>
      Beside(t, p, strict) && Neat(At(t, p), strict) && !(Above(t, p, strict) && Chained(At(t, p)))
  {
    PutSelf(t, p);
    NeatPut(t, p, At(t, p), strict);
  }

  lemma {:induction false} BesidePut(t: Tree, p: Path, n: Tree, strict: bool)
    requires ValidPath(t, p)
    ensures ValidPath(Put(t, p, n), p) && At(Put(t, p, n), p) == n
    ensures Beside(Put(t, p, n), p, strict) == Beside(t, p, strict)
    ensures Above(Put(t, p, n), p, strict) == Above(t, p, strict)
    decreases p
  {
    if p != [] {
      var k := p[0];
      BesidePut(t.kids[k], p[1..], n, strict);
      var m, u := Put(t.kids[k], p[1..], n), Put(t, p, n);
      if |p| > 1 {
        assert p[1..] != [] && Chained(m) == Chained(t.kids[k]);
      }
      assert u.kids[k] == m && forall i :: 0 <= i < |t.kids| && i != k ==> u.kids[i] == t.kids[i];
    }
  }

  lemma {:induction false} BesidePrefix(t: Tree, p: Path, r: Path, strict: bool)
    requires ValidPath(t, p + r) && Beside(t, p + r, strict)
    ensures ValidPath(t, p) && Beside(t, p, strict)
    decreases p
  {
    if p != [] {
      assert (p + r)[1..] == p[1..] + r;
      BesidePrefix(t.kids[p[0]], p[1..], r, strict);
    }
  }

  /** The children beside the path are neat. */
  lemma {:induction false} BesideKids(t: Tree, q: Path, i: nat, r: Path, strict: bool)
    requires ValidPath(t, q + ([i] + r)) && Beside(t, q + ([i] + r), strict)
    ensures ValidPath(t, q) && forall k :: 0 <= k < |At(t, q).kids| && k != i ==> Neat(At(t, q).kids[k], strict)
    decreases q
  {
    if q == [] {
      assert q + ([i] + r) == [i] + r;
    } else {
      assert (q + ([i] + r))[1..] == q[1..] + ([i] + r);
      BesideKids(t.kids[q[0]], q[1..], i, r, strict);
    }
  }

  /** Compact but for the links of the node at p. */
  ghost predicate AllBut(t: Tree, p: Path) {
    ValidPath(t, p) && Beside(t, p, false) && forall k :: 0 <= k < |At(t, p).kids| ==> Neat(At(t, p).kids[k], false)
  }

  /** Compact but for the node at p and what is below it. */
  ghost predicate NeatUpTo(t: Tree, p: Path) {
    ValidPath(t, p) && Beside(t, p, false)
  }

  lemma AllButSelf(t: Tree, p: Path)
    requires AllBut(t, p) && !Chained(At(t, p))
    ensures Compact(t)
  {
    NeatSelf(t, p, false);
  }

  // ---------------------------------------------------------------- recompression

  /** The search upwards: one more node of the chain. */
  lemma ChainUp(t: Tree, q: Path, i: nat, m: nat)
    requires ValidPath(t, q) && i < |At(t, q).kids| && Chained(At(t, q))
    requires ValidPath(t, q + [i]) && ChainOf(At(t, q + [i]), m)
    ensures ChainOf(At(t, q), m + 1)
  {
    assert [i][1..] == [];
    AtAppend(t, q, [i]);
  }

  lemma {:induction false} AboveIs(t: Tree, q: Path, i: nat)
    requires ValidPath(t, q + [i]) && ValidPath(t, q)
    ensures Above(t, q + [i], false) == Chained(At(t, q))
    decreases q
  {
    if q == [] {
      assert q + [i] == [i];
    } else {
      assert (q + [i])[1..] == q[1..] + [i];
      AboveIs(t.kids[q[0]], q[1..], i);
    }
  }

  lemma {:induction false} ChainEndNeat(t: Tree, m: nat)
    requires ChainOf(t, m) && Neat(t, false)
    ensures Neat(ChainEnd(t, m), false)
    decreases m
  {
    if m > 0 {
      ChainEndNeat(t.kids[0], m - 1);
    }
  }

  /** The node behind a chain is neat if the child of one node of the chain is. */
  lemma {:induction false} ChainRest(t: Tree, r: Path, m: nat)
    requires ChainOf(t, m) && |r| < m && ValidPath(t, r) && |At(t, r).kids| == 1 && Neat(At(t, r).kids[0], false)
    ensures Neat(ChainEnd(t, m), false)
    decreases r
  {
    if r == [] {
      ChainEndNeat(t.kids[0], m - 1);
    } else {
      ChainRest(t.kids[0], r[1..], m - 1);
    }
  }

  /** A whole chain merged leaves the tree compact, if all but one node of it was. */
  lemma MergedNeat(t: Tree, p: Path, r: Path, m: nat)
    requires ValidPath(t, p) && AllBut(t, p + r) && |At(t, p + r).kids| == 1
    requires ChainOf(At(t, p), m) && |r| < m && !Chained(ChainEnd(At(t, p), m)) && !Above(t, p, false)
    ensures Compact(if m > 1 then Put(t, p, Merged(At(t, p), m)) else t)
  {
    BesidePrefix(t, p, r, false);
    PathSplit(t, p, r);
    AtAppend(t, p, r);
    ChainRest(At(t, p), r, m);
    if m > 1 {
      NeatPut(t, p, Merged(At(t, p), m), false);
    } else {
      NeatSelf(t, p, false);
    }
  }

  /** What the recompression, started at q and taken from p down, leaves. */
  lemma Recompacts(t: Tree, p: Path, q: Path, m: nat)
    requires ValidPath(t, p) && ValidPath(t, q) && p <= q && Chained(At(t, q)) && !Above(t, p, false)
    requires ChainOf(At(t, p), |q| - |p| + 1) && ChainOf(At(t, p), m) && !Chained(ChainEnd(At(t, p), m))
    ensures AllBut(t, q) ==> Compact(if m > 1 then Put(t, p, Merged(At(t, p), m)) else t)
  {
    var r := q[|p|..];
    assert p + r == q;
    if m <= |r| {
      ChainMid(At(t, p), m, |r| + 1);
    }
    if AllBut(t, q) {
      MergedNeat(t, p, r, m);
    }
  }

  // ---------------------------------------------------------------- raxRemove

  /** The node at p is compressed and would join a chain if it were no key: rax.c tries no
      recompression then, as the node has more than one byte. */
  ghost predicate Strands(t: Tree, p: Path)
    requires ValidPath(t, p)
  {
    At(t, p).compr && At(t, p).kids != [] && (Chained(At(t, p).kids[0]) || Above(t, p, false))
  }

  lemma ClearAllBut(t: Tree, p: Path)
    requires ValidPath(t, p)
    ensures var u := Put(t, p, ClearKey(At(t, p)));
      ValidPath(u, p) && (Compact(t) ==> AllBut(u, p)) && Strands(u, p) == Strands(t, p)
  {
    NeatSelf(t, p, false);
    BesidePut(t, p, ClearKey(At(t, p)), false);
  }

  /** Clearing a key that leaves the node as it is. */
  lemma StrandsIff(t: Tree, p: Path)
    requires AllBut(t, p) && Local(At(t, p)) && !At(t, p).iskey && |At(t, p).data| > 1
    ensures Compact(t) <==> !Strands(t, p)
  {
    NeatSelf(t, p, false);
  }

  /** Dropping a branch. */
  lemma DropAllBut(t: Tree, q: Path, i: nat, r: Path)
    requires NeatUpTo(t, q + ([i] + r)) && ValidPath(t, q) && Local(At(t, q)) && i < |At(t, q).kids|
    ensures AllBut(Put(t, q, DropKid(At(t, q), i)), q)
  {
    var n := DropKid(At(t, q), i);
    BesidePrefix(t, q, [i] + r, false);
    BesideKids(t, q, i, r, false);
    BesidePut(t, q, n, false);
    forall k | 0 <= k < |n.kids|
      ensures Neat(n.kids[k], false)
    {
      assert n.kids[k] == At(t, q).kids[if k < i then k else k + 1];
    }
  }

  /** The key s sits in a compressed node that joins a chain when it is no key; 'above' tells
      that the parent of t is of a chain. */
  ghost predicate RemoveSpoils(t: Tree, s: Key, above: bool)
    requires Shaped(t)
    decreases t
  {
    if s == [] then t.iskey && t.compr && (Chained(t.kids[0]) || above)
    else
      var i := Step(t, s);
      i < |t.kids| && RemoveSpoils(t.kids[i], s[|Label(t, i)|..], Chained(t))
  }

  lemma {:induction false} StrandsAt(t: Tree, p: Path, above: bool)
    requires Shaped(t) && ValidPath(t, p)
    ensures RemoveSpoils(t, PathKey(t, p), above) <==>
      At(t, p).iskey && (Strands(t, p) || (p == [] && above && t.compr))
    decreases p
  {
    if p != [] {
      var i := p[0];
      var k, l := PathKey(t.kids[i], p[1..]), Label(t, i);
      StrandsAt(t.kids[i], p[1..], Chained(t));
      StepUnique(t, l + k, i);
      assert (l + k)[|l|..] == k;
    }
  }

  /** u is t without the key s, which is at p; a node with two or more bytes is left as it is. */
  ghost predicate Without(t: Tree, s: Key, p: Path, u: Tree)
    requires Shaped(t)
  {
    ValidPath(t, p) && PathKey(t, p) == s && (|At(t, p).data| > 1 ==> u == Put(t, p, ClearKey(At(t, p))))
  }

  lemma {:induction false} PathOnce(t: Tree, p: Path, q: Path)
    requires Shaped(t) && ValidPath(t, p) && ValidPath(t, q) && PathKey(t, p) == PathKey(t, q)
    ensures p == q
    decreases p
  {
    if p != [] && q != [] {
      var k := PathKey(t, p);
      StepUnique(t, k, p[0]);
      StepUnique(t, k, q[0]);
      var l := Label(t, p[0]);
      assert PathKey(t.kids[p[0]], p[1..]) == k[|l|..] == PathKey(t.kids[q[0]], q[1..]);
      PathOnce(t.kids[p[0]], p[1..], q[1..]);
      assert p == [p[0]] + p[1..] && q == [q[0]] + q[1..];
    }
  }

  lemma {:induction false} AbsentSpoilsNot(t: Tree, s: Key, above: bool)
    requires Shaped(t) && Get(t, s).None?
    ensures !RemoveSpoils(t, s, above)
    decreases t
  {
    if s != [] {
      var i := Step(t, s);
      if i < |t.kids| { AbsentSpoilsNot(t.kids[i], s[|Label(t, i)|..], Chained(t)); }
    }
  }

  // ---------------------------------------------------------------- raxInsert

  /** Where a new edge goes among the others. */
  function PlaceOf(d: seq<Byte>, c: Byte): (pos: nat)
    ensures pos <= |d|
  {
    if d == [] || c < d[0] then 0 else 1 + PlaceOf(d[1..], c)
  }

  lemma {:induction false} PlaceIs(d: seq<Byte>, c: Byte, pos: nat)
    requires Slot(d, c, pos)
    ensures PlaceOf(d, c) == pos
    decreases |d|
  {
    if pos > 0 {
      PlaceIs(d[1..], c, pos - 1);
    }
  }

  function Chunk(n: nat): nat { if n > MAX_SIZE then MAX_SIZE else n }

  /** The normal node n with a path for r that leads to the value v: a node without edges
      becomes a string, and any other one gets an edge. */
  function Extended(n: Tree, r: Key, v: Ptr): Tree
    requires |n.data| == |n.kids|
    decreases |r|
  {
    if r == [] then SetKey(n, v)
    else if n.data == [] && |r| > 1 then
      n.(compr := true, data := r[..Chunk(|r|)], kids := [Extended(Empty, r[Chunk(|r|)..], v)])
    else AddKid(n, r[0], PlaceOf(n.data, r[0]), Extended(Empty, r[1..], v))
  }

  lemma {:induction false} PutTwice(t: Tree, p: Path, n: Tree, q: Path, m: Tree)
    requires ValidPath(t, p) && ValidPath(n, q)
    ensures ValidPath(Put(t, p, n), p + q) && Put(Put(t, p, n), p + q, m) == Put(t, p, Put(n, q, m))
    decreases p
  {
    if p == [] {
      assert p + q == q;
    } else {
      assert (p + q)[1..] == p[1..] + q;
      PutTwice(t.kids[p[0]], p[1..], n, q, m);
      var k := p[0];
      assert Put(t, p, n).kids[k := Put(Put(t.kids[k], p[1..], n), p[1..] + q, m)] ==
             t.kids[k := Put(t.kids[k], p[1..], Put(n, q, m))];
    }
  }

  /** One turn of the loop of raxInsert that adds a child. */
  lemma AddsOn(t: Tree, p: Path, r: Key, pos: nat, v: Ptr)
    requires ValidPath(t, p) && |At(t, p).data| == |At(t, p).kids| && r != [] && !(At(t, p).data == [] && |r| > 1)
    requires Slot(At(t, p).data, r[0], pos)
    ensures var u := Put(t, p, AddKid(At(t, p), r[0], pos, Empty));
      ValidPath(u, p + [pos]) && Put(u, p + [pos], Extended(Empty, r[1..], v)) == Put(t, p, Extended(At(t, p), r, v))
  {
    var n := At(t, p);
    var m, x := AddKid(n, r[0], pos, Empty), Extended(Empty, r[1..], v);
    PlaceIs(n.data, r[0], pos);
    assert [pos][1..] == [];
    PutTwice(t, p, m, [pos], x);
    assert Put(m, [pos], x).kids == Inserted(n.kids, pos, x);
  }

  /** One turn that makes a string. */
  lemma CompressesOn(t: Tree, p: Path, r: Key, v: Ptr)
    requires ValidPath(t, p) && At(t, p).data == [] && At(t, p).kids == [] && |r| > 1
    ensures var u := Put(t, p, At(t, p).(compr := true, data := r[..Chunk(|r|)], kids := [Empty]));
      ValidPath(u, p + [0]) &&
      Put(u, p + [0], Extended(Empty, r[Chunk(|r|)..], v)) == Put(t, p, Extended(At(t, p), r, v))
  {
    var n := At(t, p);
    var m, x := n.(compr := true, data := r[..Chunk(|r|)], kids := [Empty]), Extended(Empty, r[Chunk(|r|)..], v);
    assert [0][1..] == [];
    PutTwice(t, p, m, [0], x);
    assert Put(m, [0], x).kids == [x];
  }

  /** A new path is neat. */
  lemma {:induction false} NewNeat(r: Key, v: Ptr, strict: bool)
    requires |r| <= MAX_SIZE
    ensures Neat(Extended(Empty, r, v), strict)
    ensures r == [] ==> !Chained(Extended(Empty, r, v))
  {
    if |r| > 0 {
      var x := Extended(Empty, if |r| > 1 then r[Chunk(|r|)..] else r[1..], v);
      assert x == SetKey(Empty, v);
      assert Extended(Empty, r, v).kids == [x] by {
        if |r| == 1 {
          assert Inserted([], 0, x) == [x];
        }
      }
    }
  }

  lemma ExtendedNeat(n: Tree, r: Key, v: Ptr, strict: bool)
    requires |n.data| == |n.kids| && !n.compr && 0 < |r| <= MAX_SIZE
    requires forall i :: 0 <= i < |n.kids| ==> Neat(n.kids[i], strict)
    ensures Neat(Extended(n, r, v), strict) && (Chained(Extended(n, r, v)) ==> n.kids == [] && !n.iskey)
  {
    var e := Extended(n, r, v);
    if n.data == [] && |r| > 1 {
      NewNeat(r[Chunk(|r|)..], v, strict);
    } else {
      NewNeat(r[1..], v, strict);
      var pos, x := PlaceOf(n.data, r[0]), Extended(Empty, r[1..], v);
      assert e.kids == Inserted(n.kids, pos, x);
      forall i | 0 <= i < |e.kids|
        ensures Neat(e.kids[i], strict)
      {
        assert e.kids[i] == if i < pos then n.kids[i] else if i == pos then x else n.kids[i - 1];
      }
    }
  }

  /** The number of leading bytes that d and s share. */
  function Shared(d: seq<Byte>, s: Key): (j: nat)
    ensures j <= |d| && j <= |s| && d[..j] == s[..j]
    ensures j < |d| && j < |s| ==> d[j] != s[j]
  {
    if d == [] || s == [] || d[0] != s[0] then 0 else 1 + Shared(d[1..], s[1..])
  }

  /** The node n with the key s, when no edge of n leads towards s: algorithm 1, algorithm 2
      or a new path. */
  function Place(n: Tree, s: Key, v: Ptr): Tree
    requires (if n.compr then |n.kids| == 1 && Shared(n.data, s) < |n.data| else |n.data| == |n.kids|) && s != []
  {
    if n.compr then
      var j := Shared(n.data, s);
      if j == |s| then SplitKey(n, j, v)
      else
        var m := Extended(SplitNode(n, j), s[j..], v);
        if j == 0 then m else Link(n.iskey, n.val, n.data[..j], m)
    else Extended(n, s, v)
  }

  /** raxInsert as one function of the tree. */
  ghost function InsertTree(t: Tree, s: Key, v: Ptr): Tree
    requires Shaped(t)
    decreases t
  {
    if s == [] then SetKey(t, v)
    else
      var i := Step(t, s);
      if i < |t.kids| then t.(kids := t.kids[i := InsertTree(t.kids[i], s[|Label(t, i)|..], v)])
      else Place(t, s, v)
  }

  /** A string of three or more bytes that is a key and leads to a chain is split before its
      last byte: what is left behind the split joins the chain. */
  ghost predicate Splits(n: Tree, s: Key) {
    n.compr && |n.kids| == 1 && Chained(n.kids[0]) && Shared(n.data, s) < |s| && Shared(n.data, s) + 1 < |n.data|
  }

  ghost predicate InsertSpoils(t: Tree, s: Key)
    requires Shaped(t)
    decreases t
  {
    s != [] &&
    var i := Step(t, s);
    if i < |t.kids| then InsertSpoils(t.kids[i], s[|Label(t, i)|..]) else Splits(t, s)
  }

  /** The split node with its second edge. */
  lemma ForkNeat(m: Tree, r: Key, v: Ptr, strict: bool)
    requires |m.data| == |m.kids| == 1 && !m.compr && 0 < |r| <= MAX_SIZE
    ensures !Chained(Extended(m, r, v)) && (Neat(Extended(m, r, v), strict) <==> Neat(m.kids[0], strict))
    ensures |Extended(m, r, v).kids| == 2
  {
    NewNeat(r[1..], v, strict);
    TwoNeat(m, r[0], PlaceOf(m.data, r[0]), Extended(Empty, r[1..], v), strict);
  }

  lemma TwoNeat(m: Tree, c: Byte, pos: nat, x: Tree, strict: bool)
    requires |m.data| == |m.kids| == 1 && pos <= 1 && !m.compr && Neat(x, strict)
    ensures var e := AddKid(m, c, pos, x);
      !Chained(e) && (Neat(e, strict) <==> Neat(m.kids[0], strict)) && |e.kids| == 2
  {
    var e := AddKid(m, c, pos, x);
    assert e.kids[1 - pos] == m.kids[0] && e.kids[pos] == x;
  }

  lemma SplitNeat(n: Tree, s: Key, v: Ptr, strict: bool)
    requires Local(n) && n.compr && 0 < |s| <= MAX_SIZE && Shared(n.data, s) < |n.data| && Shared(n.data, s) < |s|
    requires Neat(n, strict)
    ensures Neat(Place(n, s, v), strict) <==> !Splits(n, s)
    ensures Chained(Place(n, s, v)) ==> Chained(n)
  {
    var j := Shared(n.data, s);
    ForkNeat(SplitNode(n, j), s[j..], v, strict);
    assert Neat(Postfix(n, j + 1), strict) <==> !Splits(n, s);
    var m := Extended(SplitNode(n, j), s[j..], v);
    var l := Link(n.iskey, n.val, n.data[..j], m);
    assert l.kids[0] == m && (Neat(l, strict) <==> Neat(m, strict));
  }

  lemma PlaceNeat(n: Tree, s: Key, v: Ptr, strict: bool)
    requires Local(n) && 0 < |s| <= MAX_SIZE && Step(n, s) == |n.kids| && Neat(n, strict)
    ensures n.compr ==> Shared(n.data, s) < |n.data|
    ensures Neat(Place(n, s, v), strict) <==> !Splits(n, s)
    ensures Chained(Place(n, s, v)) ==> Chained(n) || (n.kids == [] && !n.iskey)
  {
    if n.compr {
      if Shared(n.data, s) < |s| {
        SplitNeat(n, s, v, strict);
      }
    } else {
      ExtendedNeat(n, s, v, strict);
    }
  }

  /** Insertion into a compact tree leaves it compact exactly unless it splits such a string;
      and a strictly neat tree has no such string. */
  lemma {:induction false} InsertNeat(t: Tree, s: Key, v: Ptr, strict: bool)
    requires WellFormed(t) && Shaped(t) && Neat(t, strict) && |s| <= MAX_SIZE
    ensures Neat(InsertTree(t, s, v), strict) <==> !InsertSpoils(t, s)
    ensures strict ==> !InsertSpoils(t, s)
    ensures Chained(InsertTree(t, s, v)) ==> Chained(t) || (t.kids == [] && !t.iskey)
    decreases t
  {
    if s != [] {
      var i := Step(t, s);
      if i < |t.kids| {
        var r := s[|Label(t, i)|..];
        InsertNeat(t.kids[i], r, v, strict);
        var x, u := InsertTree(t.kids[i], r, v), InsertTree(t, s, v);
        assert u.kids[i] == x && forall k :: 0 <= k < |t.kids| && k != i ==> u.kids[k] == t.kids[k];
      } else {
        PlaceNeat(t, s, v, strict);
      }
    }
  }

  /** Both halves for compact trees, and for the strictly neat ones that insertions alone build. */
  lemma InsertCompact(t: Tree, s: Key, v: Ptr)
    requires WellFormed(t) && Shaped(t) && |s| <= MAX_SIZE
    ensures Compact(t) ==> (Compact(InsertTree(t, s, v)) <==> !InsertSpoils(t, s))
    ensures Neat(t, true) ==> Neat(InsertTree(t, s, v), true)
  {
    if Compact(t) { InsertNeat(t, s, v, false); }
    if Neat(t, true) { InsertNeat(t, s, v, true); }
  }

  // ---------------------------------------------------------------- where the walk stops

  lemma InsertDown(t: Tree, i: nat, r: Key, v: Ptr)
    requires Shaped(t) && i < |t.kids|
    ensures InsertTree(t, Label(t, i) + r, v) == t.(kids := t.kids[i := InsertTree(t.kids[i], r, v)])
  {
    var l := Label(t, i);
    StepUnique(t, l + r, i);
    assert (l + r)[|l|..] == r;
  }

  lemma {:induction false} InsertAlong(t: Tree, p: Path, r: Key, v: Ptr)
    requires Shaped(t) && ValidPath(t, p)
    ensures Shaped(At(t, p)) && InsertTree(t, PathKey(t, p) + r, v) == Put(t, p, InsertTree(At(t, p), r, v))
    decreases p
  {
    if p == [] {
      assert PathKey(t, p) + r == r;
    } else {
      var k := PathKey(t.kids[p[0]], p[1..]);
      InsertAlong(t.kids[p[0]], p[1..], r, v);
      Associate(Label(t, p[0]), k, r);
      InsertDown(t, p[0], k + r, v);
    }
  }

  lemma SharedIs(d: seq<Byte>, s: Key, j: nat)
    requires j <= |d| && j <= |s| && d[..j] == s[..j] && (j < |d| && j < |s| ==> d[j] != s[j])
    ensures Shared(d, s) == j
  {
  }

  /** What raxInsert does at the node where the walk stopped. */
  lemma StoppedInsert(t: Tree, s: Key, p: Path, i: nat, j: nat, v: Ptr)
    requires Shaped(t) && StoppedAt(t, s, p, i, j)
    ensures var n, r := At(t, p), s[i - j..];
      if r == [] then InsertTree(t, s, v) == Put(t, p, SetKey(n, v))
      else (if n.compr then |n.kids| == 1 && Shared(n.data, r) == j < |n.data| else |n.data| == |n.kids|) &&
           InsertTree(t, s, v) == Put(t, p, Place(n, r, v))
  {
    AtShaped(t, p);
    var n, r := At(t, p), s[i - j..];
    assert s == PathKey(t, p) + r;
    InsertAlong(t, p, r, v);
    if r != [] && n.compr {
      assert r[..j] == s[i - j..i];
      SharedIs(n.data, r, j);
    }
  }

  lemma InsertHereIs(t: Tree, s: Key, p: Path, v: Ptr)
    requires Shaped(t) && StoppedAt(t, s, p, |s|, 0)
    ensures InsertTree(t, s, v) == Put(t, p, SetKey(At(t, p), v))
  {
    StoppedInsert(t, s, p, |s|, 0, v);
  }

  lemma InsertInsideIs(t: Tree, s: Key, p: Path, j: nat, v: Ptr)
    requires Shaped(t) && StoppedAt(t, s, p, |s|, j) && At(t, p).compr && j > 0
    ensures |At(t, p).kids| == 1 && j < |At(t, p).data| && InsertTree(t, s, v) == Put(t, p, SplitKey(At(t, p), j, v))
  {
    StoppedInsert(t, s, p, |s|, j, v);
  }

  // ---------------------------------------------------------------- the loop of raxInsert

  /** A path for r from the node at p makes t the tree 'goal'. */
  ghost predicate LeadsTo(t: Tree, p: Path, r: Key, v: Ptr, goal: Tree) {
    ValidPath(t, p) && |At(t, p).data| == |At(t, p).kids| && Put(t, p, Extended(At(t, p), r, v)) == goal
  }

  lemma BelowLeads(t: Tree, s: Key, p: Path, i: nat, v: Ptr)
    requires Shaped(t) && StoppedAt(t, s, p, i, 0) && !At(t, p).compr && i < |s|
    ensures LeadsTo(t, p, s[i..], v, InsertTree(t, s, v))
  {
    StoppedInsert(t, s, p, i, 0, v);
    assert Place(At(t, p), s[i..], v) == Extended(At(t, p), s[i..], v);
  }

  lemma AddLeads(t: Tree, p: Path, s: Key, at: nat, pos: nat, v: Ptr, goal: Tree)
    requires at < |s| && LeadsTo(t, p, s[at..], v, goal) && !(At(t, p).data == [] && |s| - at > 1)
    requires Slot(At(t, p).data, s[at], pos)
    ensures LeadsTo(Put(t, p, AddKid(At(t, p), s[at], pos, Empty)), p + [pos], s[at + 1..], v, goal)
  {
    assert s[at..][1..] == s[at + 1..];
    AddsOn(t, p, s[at..], pos, v);
    var m := AddKid(At(t, p), s[at], pos, Empty);
    BesidePut(t, p, m, false);
    assert [pos][1..] == [];
    AtAppend(Put(t, p, m), p, [pos]);
  }

  lemma CompressLeads(t: Tree, p: Path, s: Key, at: nat, i: nat, v: Ptr, goal: Tree)
    requires at + 1 < |s| && LeadsTo(t, p, s[at..], v, goal) && At(t, p).data == [] && i == at + Chunk(|s| - at)
    ensures LeadsTo(Put(t, p, At(t, p).(compr := true, data := s[at..i], kids := [Empty])), p + [0], s[i..], v, goal)
  {
    var r := s[at..];
    assert r[..i - at] == s[at..i] && r[i - at..] == s[i..];
    CompressesOn(t, p, r, v);
    var m := At(t, p).(compr := true, data := s[at..i], kids := [Empty]);
    BesidePut(t, p, m, false);
    assert [0][1..] == [];
    AtAppend(Put(t, p, m), p, [0]);
  }

  /** Algorithm 1, as the start of the loop. */
  lemma SplitLeads(t: Tree, s: Key, p: Path, i: nat, j: nat, v: Ptr)
    requires Shaped(t) && StoppedAt(t, s, p, i, j) && At(t, p).compr && i < |s|
    ensures |At(t, p).kids| == 1
    ensures LeadsTo(Put(t, p, SplitAt(At(t, p), j)), p + SplitPath(j), s[i..], v, InsertTree(t, s, v))
  {
    StoppedInsert(t, s, p, i, j, v);
    var n, q := At(t, p), SplitPath(j);
    var m, u := SplitNode(n, j), SplitAt(n, j);
    var x := Extended(m, s[i..], v);
    assert s[i - j..][j..] == s[i..];
    assert q == [] || (q == [0] && q[1..] == []);
    BesidePut(t, p, u, false);
    AtAppend(Put(t, p, u), p, q);
    PutTwice(t, p, u, q, x);
    assert Put(u, q, x) == Place(n, s[i - j..], v);
  }
}
