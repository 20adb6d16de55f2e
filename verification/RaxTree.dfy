/** The radix tree of contrib/rax/rax.c as a value: nodes with edge bytes and
    children, lookup, paths from the root, and replacement of the subtree that a
    path leads to.  The heap nodes of RaxHeap.dfy are read back into this type. */
module RaxTree {
  import opened Common

  type Byte = b: int | 0 <= b < 256
  type Key = seq<Byte>

  /** A value pointer; NULL is an ordinary value that a key may hold. */
  type Ptr = int
  const NULL: Ptr := 0

  /** RAX_NODE_MAX_SIZE. */
  const MAX_SIZE: nat := 0x1FFF_FFFF

  /** One raxNode.  A compressed node carries a string and one child; any other
      node carries one edge byte per child. */
  datatype Tree = Node(iskey: bool, val: Ptr, compr: bool, data: seq<Byte>, kids: seq<Tree>)

  ghost predicate Ascending(d: seq<Byte>) {
    forall i, j :: 0 <= i < j < |d| ==> d[i] < d[j]
  }

  ghost predicate Local(t: Tree) {
    if t.compr then |t.data| >= 2 && |t.kids| == 1
    else |t.data| == |t.kids| && Ascending(t.data)
  }

  /** Every node of the tree has the documented layout. */
  ghost predicate Shaped(t: Tree) {
    Local(t) && forall i :: 0 <= i < |t.kids| ==> Shaped(t.kids[i])
  }

  /** A node that raxRemove would keep: it is a key or leads to one. */
  ghost predicate Live(t: Tree) {
    t.iskey || t.kids != []
  }

  /** Shaped, and no childless node below the root fails to be a key. */
  ghost predicate WellFormed(t: Tree) {
    Local(t) && forall i :: 0 <= i < |t.kids| ==> WellFormed(t.kids[i]) && Live(t.kids[i])
  }

  lemma {:induction t} WellFormedIsShaped(t: Tree)
    requires WellFormed(t)
    ensures Shaped(t)
  {
  }

  /** The bytes consumed by stepping from t to its i-th child. */
  ghost function Label(t: Tree, i: nat): (l: Key)
    requires Local(t) && i < |t.kids|
    ensures l != []
  {
    if t.compr then t.data else [t.data[i]]
  }

  /** The position of c among the edges, or |d|. */
  function EdgeIndex(d: seq<Byte>, c: Byte): (i: nat)
    ensures i <= |d|
    ensures i < |d| ==> d[i] == c
    ensures c !in d[..i]
  {
    if d == [] then 0 else if d[0] == c then 0 else 1 + EdgeIndex(d[1..], c)
  }

  /** The child whose label is a prefix of s, or |kids|. */
  ghost function Step(t: Tree, s: Key): (i: nat)
    requires Local(t) && s != []
    ensures i <= |t.kids|
    ensures i < |t.kids| ==> Label(t, i) <= s
  {
    if t.compr then (if t.data <= s then 0 else 1) else EdgeIndex(t.data, s[0])
  }

  lemma StepUnique(t: Tree, s: Key, i: nat)
    requires Local(t) && s != [] && i < |t.kids| && Label(t, i) <= s
    ensures Step(t, s) == i
  {
    if !t.compr {
      assert t.data[i] == s[0];
    }
  }

  /** What raxFind means: the value stored under s, if any. */
  ghost function Get(t: Tree, s: Key): Option<Ptr>
    requires Shaped(t)
    decreases t
  {
    if s == [] then (if t.iskey then Some(t.val) else None)
    else
      var i := Step(t, s);
      if i == |t.kids| then None else Get(t.kids[i], s[|Label(t, i)|..])
  }

  // ---------------------------------------------------------------- paths

  type Path = seq<nat>

  ghost predicate ValidPath(t: Tree, p: Path) {
    p == [] || (p[0] < |t.kids| && ValidPath(t.kids[p[0]], p[1..]))
  }

  ghost function At(t: Tree, p: Path): Tree
    requires ValidPath(t, p)
    decreases p
  {
    if p == [] then t else At(t.kids[p[0]], p[1..])
  }

  ghost function PathKey(t: Tree, p: Path): Key
    requires Shaped(t) && ValidPath(t, p)
    decreases p
  {
    if p == [] then [] else Label(t, p[0]) + PathKey(t.kids[p[0]], p[1..])
  }

  /** Where raxLowWalk stops: at the node with path p after i bytes of s, having
      matched the first j bytes of a compressed node, because s is exhausted, the
      node has no edges, or no edge continues with s[i]. */
  ghost predicate StoppedAt(t: Tree, s: Key, p: Path, i: nat, j: nat)
    requires Shaped(t)
  {
    ValidPath(t, p) &&
    var n := At(t, p);
    j <= i <= |s| && (if n.compr then j < |n.data| else j == 0) && j <= |n.data| &&
    PathKey(t, p) == s[..i - j] && n.data[..j] == s[i - j..i] &&
    (i == |s| || n.data == [] || if n.compr then n.data[j] != s[i] else s[i] !in n.data)
  }

  /** t with the subtree at p replaced by n. */
  ghost function Put(t: Tree, p: Path, n: Tree): Tree
    requires ValidPath(t, p)
    decreases p
  {
    if p == [] then n
    else t.(kids := t.kids[p[0] := Put(t.kids[p[0]], p[1..], n)])
  }

  lemma {:induction false} PutParent(t: Tree, q: Path, i: nat, n: Tree)
    requires ValidPath(t, q) && i < |At(t, q).kids|
    ensures ValidPath(t, q + [i])
    ensures Put(t, q + [i], n) == Put(t, q, At(t, q).(kids := At(t, q).kids[i := n]))
    decreases q
  {
    if q == [] {
      assert q + [i] == [i];
      assert [i][1..] == [];
    } else {
      assert (q + [i])[1..] == q[1..] + [i];
      PutParent(t.kids[q[0]], q[1..], i, n);
    }
  }

  lemma {:induction false} AtShaped(t: Tree, p: Path)
    requires Shaped(t) && ValidPath(t, p)
    ensures Shaped(At(t, p))
    decreases p
  {
    if p != [] { AtShaped(t.kids[p[0]], p[1..]); }
  }

  lemma {:induction false} AtAppend(t: Tree, p: Path, q: Path)
    requires ValidPath(t, p) && ValidPath(At(t, p), q)
    ensures ValidPath(t, p + q)
    ensures At(t, p + q) == At(At(t, p), q)
    decreases p
  {
    if p == [] {
      assert p + q == q;
    } else {
      AtAppend(t.kids[p[0]], p[1..], q);
      assert (p + q)[1..] == p[1..] + q;
    }
  }

  lemma {:induction false} PathAppend(t: Tree, p: Path, q: Path)
    requires Shaped(t) && ValidPath(t, p) && ValidPath(At(t, p), q)
    ensures Shaped(At(t, p)) && ValidPath(t, p + q)
    ensures PathKey(t, p + q) == PathKey(t, p) + PathKey(At(t, p), q)
    decreases p
  {
    AtShaped(t, p);
    AtAppend(t, p, q);
    if p == [] {
      assert p + q == q;
    } else {
      var sub := t.kids[p[0]];
      PathAppend(sub, p[1..], q);
      assert (p + q)[1..] == p[1..] + q;
      Associate(Label(t, p[0]), PathKey(sub, p[1..]), PathKey(At(t, p), q));
    }
  }

  lemma Associate(a: Key, b: Key, c: Key)
    ensures a + (b + c) == (a + b) + c
  {
  }

  /** A prefix of a valid path is valid, and the rest is valid below it. */
  lemma {:induction false} PathSplit(t: Tree, p: Path, q: Path)
    requires ValidPath(t, p + q)
    ensures ValidPath(t, p) && ValidPath(At(t, p), q)
    decreases p
  {
    if p == [] {
      assert p + q == q;
    } else {
      assert (p + q)[1..] == p[1..] + q;
      PathSplit(t.kids[p[0]], p[1..], q);
    }
  }

  lemma {:induction false} GetPath(t: Tree, p: Path, r: Key)
    requires Shaped(t) && ValidPath(t, p)
    ensures Shaped(At(t, p))
    ensures Get(t, PathKey(t, p) + r) == Get(At(t, p), r)
    decreases p
  {
    AtShaped(t, p);
    var s := PathKey(t, p) + r;
    if p == [] {
      assert s == r;
    } else {
      var i := p[0];
      assert s == Label(t, i) + (PathKey(t.kids[i], p[1..]) + r);
      StepUnique(t, s, i);
      assert s[|Label(t, i)|..] == PathKey(t.kids[i], p[1..]) + r;
      GetPath(t.kids[i], p[1..], r);
    }
  }

  /** Replacing a shaped subtree keeps the tree shaped and its path keys. */
  lemma {:induction false} PutShaped(t: Tree, p: Path, n: Tree)
    requires Shaped(t) && ValidPath(t, p) && Shaped(n)
    ensures Shaped(Put(t, p, n)) && ValidPath(Put(t, p, n), p)
    ensures At(Put(t, p, n), p) == n
    ensures PathKey(Put(t, p, n), p) == PathKey(t, p)
    decreases p
  {
    if p != [] { PutShaped(t.kids[p[0]], p[1..], n); }
  }

  lemma PrefixSplit(l: Key, m: Key, k: Key)
    ensures l + m <= k <==> l <= k && m <= k[|l|..]
    ensures l + m <= k ==> k[|l|..][|m|..] == k[|l + m|..]
  {
    if l + m <= k {
      assert l == (l + m)[..|l|] == k[..|l|];
      assert m == (l + m)[|l|..] == k[|l|..][..|m|];
    }
  }

  /** Replacing the subtree at p changes lookups below p's key and no others. */
  lemma {:induction false} GetPut(t: Tree, p: Path, n: Tree, k: Key)
    requires Shaped(t) && ValidPath(t, p) && Shaped(n)
    ensures Shaped(Put(t, p, n))
    ensures Get(Put(t, p, n), k) ==
            if PathKey(t, p) <= k then Get(n, k[|PathKey(t, p)|..]) else Get(t, k)
    decreases p
  {
    PutShaped(t, p, n);
    if p == [] {
      assert k[0..] == k;
    } else {
      var i, t' := p[0], Put(t, p, n);
      var l := Label(t, i);
      PrefixSplit(l, PathKey(t.kids[i], p[1..]), k);
      if k != [] {
        assert Step(t, k) == Step(t', k);
        if l <= k {
          StepUnique(t, k, i);
          GetPut(t.kids[i], p[1..], n, k[|l|..]);
        } else {
          assert Step(t, k) != i;
        }
      }
    }
  }

  /** The same lookups. */
  ghost predicate SameGet(t: Tree, u: Tree)
    requires Shaped(t) && Shaped(u)
  {
    forall k: Key :: Get(t, k) == Get(u, k)
  }

  /** u looks up as t does, except that s now yields r. */
  ghost predicate Updated(t: Tree, s: Key, r: Option<Ptr>, u: Tree)
    requires Shaped(t) && Shaped(u)
  {
    forall k: Key :: Get(u, k) == if k == s then r else Get(t, k)
  }

  lemma GetBelow(t: Tree, p: Path, n: Tree, k: Key)
    requires Shaped(t) && ValidPath(t, p) && Shaped(n) && Shaped(At(t, p))
    ensures Shaped(Put(t, p, n))
    ensures PathKey(t, p) <= k ==>
      Get(t, k) == Get(At(t, p), k[|PathKey(t, p)|..]) && Get(Put(t, p, n), k) == Get(n, k[|PathKey(t, p)|..])
    ensures !(PathKey(t, p) <= k) ==> Get(Put(t, p, n), k) == Get(t, k)
  {
    GetPut(t, p, n, k);
    var pk := PathKey(t, p);
    if pk <= k {
      assert k == pk + k[|pk|..];
      GetPath(t, p, k[|pk|..]);
    }
  }

  lemma Appended(a: Key, b: Key, k: Key)
    ensures k == a + b <==> a <= k && k[|a|..] == b
  {
    if a <= k { assert k == a + k[|a|..]; }
  }

  /** A local update is an update of the whole tree. */
  lemma PutUpdated(t: Tree, p: Path, n: Tree, s: Key, r: Option<Ptr>)
    requires Shaped(t) && ValidPath(t, p) && Shaped(n) && Shaped(At(t, p))
    requires Updated(At(t, p), s, r, n)
    ensures Shaped(Put(t, p, n)) && Updated(t, PathKey(t, p) + s, r, Put(t, p, n))
  {
    PutShaped(t, p, n);
    var pk := PathKey(t, p);
    forall k: Key
      ensures Get(Put(t, p, n), k) == if k == pk + s then r else Get(t, k)
    {
      GetBelow(t, p, n, k);
      Appended(pk, s, k);
    }
  }

  lemma PutSame(t: Tree, p: Path, n: Tree)
    requires Shaped(t) && ValidPath(t, p) && Shaped(n) && Shaped(At(t, p))
    requires SameGet(At(t, p), n)
    ensures Shaped(Put(t, p, n)) && SameGet(t, Put(t, p, n))
  {
    PutShaped(t, p, n);
    forall k: Key ensures Get(t, k) == Get(Put(t, p, n), k) { GetBelow(t, p, n, k); }
  }

  // ------------------------------------------------- well-formedness with a hole

  /** Well-formed, except that the node at p may be a childless non-key. */
  ghost predicate HoleAt(t: Tree, p: Path) {
    Local(t) &&
    if p == [] then forall i :: 0 <= i < |t.kids| ==> WellFormed(t.kids[i]) && Live(t.kids[i])
    else
      p[0] < |t.kids| && HoleAt(t.kids[p[0]], p[1..]) &&
      forall i :: 0 <= i < |t.kids| && i != p[0] ==> WellFormed(t.kids[i]) && Live(t.kids[i])
  }

  lemma {:induction false} HoleFilled(t: Tree, p: Path)
    requires HoleAt(t, p) && ValidPath(t, p) && (p == [] || Live(At(t, p)))
    ensures WellFormed(t)
    decreases p
  {
    if p != [] { HoleFilled(t.kids[p[0]], p[1..]); }
  }

  lemma {:induction false} HoleShaped(t: Tree, p: Path)
    requires HoleAt(t, p)
    ensures Shaped(t) && ValidPath(t, p)
    decreases p
  {
    forall i | 0 <= i < |t.kids| ensures Shaped(t.kids[i]) {
      if p != [] && i == p[0] { HoleShaped(t.kids[i], p[1..]); }
      else { WellFormedIsShaped(t.kids[i]); }
    }
    if p != [] { HoleShaped(t.kids[p[0]], p[1..]); }
  }

  lemma {:induction false} HoleOpen(t: Tree, p: Path)
    requires WellFormed(t) && ValidPath(t, p)
    ensures HoleAt(t, p) && WellFormed(At(t, p))
    decreases p
  {
    if p != [] { HoleOpen(t.kids[p[0]], p[1..]); }
  }

  lemma {:induction false} HoleAtPart(t: Tree, p: Path, q: Path)
    requires HoleAt(t, p + q) && ValidPath(t, p)
    ensures HoleAt(At(t, p), q)
    decreases p
  {
    if p == [] {
      assert p + q == q;
    } else {
      assert (p + q)[1..] == p[1..] + q;
      HoleAtPart(t.kids[p[0]], p[1..], q);
    }
  }

  /** A replacement for a subtree with the hole may have its own hole. */
  lemma {:induction false} HoleMove(t: Tree, p: Path, r: Path, n: Tree, q: Path)
    requires HoleAt(t, p + r) && ValidPath(t, p) && HoleAt(n, q)
    ensures HoleAt(Put(t, p, n), p + q)
    decreases p
  {
    if p == [] {
      assert p + q == q;
    } else {
      assert (p + r)[1..] == p[1..] + r;
      HoleMove(t.kids[p[0]], p[1..], r, n, q);
      assert (p + q)[1..] == p[1..] + q;
    }
  }

  lemma HolePut(t: Tree, p: Path, n: Tree, q: Path)
    requires HoleAt(t, p) && ValidPath(t, p) && HoleAt(n, q)
    ensures HoleAt(Put(t, p, n), p + q)
  {
    assert p + [] == p;
    HoleMove(t, p, [], n, q);
  }

  // ---------------------------------------------------------------- tallies

  function Inserted<T>(s: seq<T>, i: nat, x: T): (r: seq<T>)
    requires i <= |s|
    ensures |r| == |s| + 1
    ensures forall j :: 0 <= j < |r| ==> r[j] == if j < i then s[j] else if j == i then x else s[j - 1]
  {
    s[..i] + [x] + s[i..]
  }

  function Removed<T>(s: seq<T>, i: nat): (r: seq<T>)
    requires i < |s|
    ensures |r| == |s| - 1
    ensures forall j :: 0 <= j < |r| ==> r[j] == if j < i then s[j] else s[j + 1]
  {
    s[..i] + s[i + 1..]
  }

  lemma RemovedInserted<T>(s: seq<T>, i: nat)
    requires i < |s|
    ensures Inserted(Removed(s, i), i, s[i]) == s
  {
  }

  /** What rax->numele and rax->numnodes count. */
  datatype Counter = Elements | Nodes

  ghost function Tally(t: Tree, c: Counter): nat
    decreases t
  {
    (if c.Nodes? || t.iskey then 1 else 0) + TallyAll(t.kids, c)
  }

  ghost function TallyAll(ts: seq<Tree>, c: Counter): nat
    decreases ts
  {
    if ts == [] then 0 else Tally(ts[0], c) + TallyAll(ts[1..], c)
  }

  lemma {:induction false} TallyUpdate(ts: seq<Tree>, i: nat, n: Tree, c: Counter)
    requires i < |ts|
    ensures TallyAll(ts[i := n], c) == TallyAll(ts, c) - Tally(ts[i], c) + Tally(n, c)
  {
    var us := ts[i := n];
    if i == 0 {
      assert us[1..] == ts[1..];
    } else {
      assert us[1..] == ts[1..][i - 1 := n];
      TallyUpdate(ts[1..], i - 1, n, c);
    }
  }

  lemma {:induction false} TallyInsert(ts: seq<Tree>, i: nat, n: Tree, c: Counter)
    requires i <= |ts|
    ensures TallyAll(Inserted(ts, i, n), c) == TallyAll(ts, c) + Tally(n, c)
  {
    var us := Inserted(ts, i, n);
    if i == 0 {
      assert us[1..] == ts;
    } else {
      assert us[1..] == Inserted(ts[1..], i - 1, n);
      TallyInsert(ts[1..], i - 1, n, c);
    }
  }

  lemma {:induction false} TallyPut(t: Tree, p: Path, n: Tree, c: Counter)
    requires ValidPath(t, p)
    ensures Tally(Put(t, p, n), c) == Tally(t, c) - Tally(At(t, p), c) + Tally(n, c)
    decreases p
  {
    if p != [] {
      TallyPut(t.kids[p[0]], p[1..], n, c);
      TallyUpdate(t.kids, p[0], Put(t.kids[p[0]], p[1..], n), c);
    }
  }

  lemma {:induction false} TallyKid(ts: seq<Tree>, i: nat, c: Counter)
    requires i < |ts|
    ensures Tally(ts[i], c) <= TallyAll(ts, c)
  {
    if i > 0 { TallyKid(ts[1..], i - 1, c); }
  }

  lemma {:induction false} TallyAt(t: Tree, p: Path, c: Counter)
    requires ValidPath(t, p)
    ensures Tally(At(t, p), c) <= Tally(t, c)
    decreases p
  {
    if p != [] {
      TallyAt(t.kids[p[0]], p[1..], c);
      TallyKid(t.kids, p[0], c);
    }
  }
}
