/** Where the keys of a radix tree lie relative to a position in it: the facts
    behind raxIteratorNextStep and raxSeek. */
module RaxCursor {
  import opened Common
  import opened RaxTree
  import opened RaxSteps
  import opened RaxOrder

  /** k follows everything that has x as a prefix. */
  predicate After(x: Key, k: Key) {
    Less(x, k) && !(x <= k)
  }

  lemma {:induction false} LessSplit(x: Key, k: Key)
    ensures Less(x, k) <==> After(x, k) || (x <= k && x != k)
  {
    if x <= k && x != k {
      assert k == x + k[|x|..] && x == x + [];
      LessPrefix(x, [], k[|x|..]);
    } else if x == k {
      LessTotal(x, k);
    }
  }

  /** A key that does not extend x compares with all extensions of x alike. */
  lemma {:induction false} Diverges(x: Key, a: Key, k: Key)
    requires !(x <= k)
    ensures Less(x + a, k) == Less(x, k) == After(x, k) && !(x + a <= k)
  {
    if k != [] && x[0] == k[0] {
      assert (x + a)[1..] == x[1..] + a;
      Diverges(x[1..], a, k[1..]);
    }
  }

  lemma AfterPrefix(x: Key, a: Key, b: Key)
    ensures After(x + a, x + b) == After(a, b)
  {
    LessPrefix(x, a, b);
    PrefixSplit(x, a, x + b);
    assert (x + b)[|x|..] == b;
  }

  ghost predicate Stored(t: Tree, k: Key)
    requires Shaped(t)
  {
    Get(t, k).Some?
  }

  /** A stored key that extends the key of the node at p is a key of that subtree. */
  lemma StoredBelow(t: Tree, p: Path, k: Key)
    requires Shaped(t) && ValidPath(t, p) && PathKey(t, p) <= k
    ensures Shaped(At(t, p)) && k == PathKey(t, p) + k[|PathKey(t, p)|..]
    ensures Stored(t, k) == Stored(At(t, p), k[|PathKey(t, p)|..])
  {
    GetPath(t, p, k[|PathKey(t, p)|..]);
  }

  // ------------------------------------------------ inside one node

  /** The keys of a node with children start at its first child. */
  lemma FirstChild(n: Tree, r: Key)
    requires Shaped(n) && n.kids != [] && Stored(n, r) && r != []
    ensures r == Label(n, 0) || Less(Label(n, 0), r)
  {
    var l, j := Label(n, 0), Step(n, r);
    assert Label(n, j) <= r;
    if j == 0 {
      LessSplit(l, r);
    } else {
      assert n.data[0] < n.data[j] == r[0];
    }
  }

  /** Edge i is the first one above byte c. */
  ghost predicate FirstAbove(d: seq<Byte>, c: Byte, i: nat) {
    i <= |d| && (forall j :: 0 <= j < i ==> d[j] <= c) && (i < |d| ==> d[i] > c)
  }

  lemma AfterByte(c: Byte, r: Key)
    ensures After([c], r) <==> r != [] && r[0] > c
  {
    if r != [] && r[0] == c { assert [c] <= r; }
  }

  /** Past the subtree of byte c come the children above c, if any. */
  lemma NextChild(n: Tree, c: Byte, i: nat, r: Key)
    requires Shaped(n) && !n.compr && FirstAbove(n.data, c, i) && Stored(n, r)
    ensures i < |n.kids| ==> (After([c], r) <==> r == Label(n, i) || Less(Label(n, i), r))
    ensures i == |n.kids| ==> !After([c], r)
  {
    AfterByte(c, r);
    if r != [] {
      var j := Step(n, r);
      assert n.data[j] == r[0];
      if i < |n.kids| {
        if j == i { LessSplit([n.data[i]], r); assert [n.data[i]] <= r; }
        if j > i { assert n.data[i] < n.data[j]; }
      }
    }
  }

  /** Nothing follows the string of a compressed node inside that node. */
  lemma CompressedEnd(n: Tree, r: Key)
    requires Shaped(n) && n.compr && Stored(n, r)
    ensures !After(n.data, r)
  {
    if r != [] { assert Step(n, r) == 0; }
  }

  // ------------------------------------------------ in the whole tree

  lemma GoDeeper(t: Tree, p: Path, k: Key)
    requires Shaped(t) && ValidPath(t, p) && Stored(t, k) && At(t, p).kids != []
    ensures Shaped(At(t, p))
    ensures var c := PathKey(t, p) + Label(At(t, p), 0); Less(PathKey(t, p), k) <==> k == c || Less(c, k)
  {
    AtShaped(t, p);
    var x, n := PathKey(t, p), At(t, p);
    var l := Label(n, 0);
    if x <= k {
      StoredBelow(t, p, k);
      var r := k[|x|..];
      LessPrefix(x, l, r);
      assert x + [] == x;
      LessPrefix(x, [], r);
      if r != [] { FirstChild(n, r); }
      assert k == x + l ==> r == l;
    } else {
      Diverges(x, l, k);
      assert k != x + l;
    }
  }

  lemma GoNext(t: Tree, p: Path, c: Byte, i: nat, k: Key)
    requires Shaped(t) && ValidPath(t, p) && Stored(t, k) && !At(t, p).compr && FirstAbove(At(t, p).data, c, i)
    ensures Shaped(At(t, p))
    ensures i < |At(t, p).kids| ==>
      var d := PathKey(t, p) + Label(At(t, p), i); After(PathKey(t, p) + [c], k) <==> k == d || Less(d, k)
    ensures i == |At(t, p).kids| ==> (After(PathKey(t, p) + [c], k) <==> After(PathKey(t, p), k))
  {
    AtShaped(t, p);
    var x, n := PathKey(t, p), At(t, p);
    if x <= k {
      StoredBelow(t, p, k);
      var r := k[|x|..];
      AfterPrefix(x, [c], r);
      NextChild(n, c, i, r);
      if i < |n.kids| {
        LessPrefix(x, Label(n, i), r);
        assert k == x + Label(n, i) ==> r == Label(n, i);
      }
    } else {
      Diverges(x, [c], k);
      if i < |n.kids| {
        Diverges(x, Label(n, i), k);
        assert k != x + Label(n, i);
      }
    }
  }

  lemma LeaveCompressed(t: Tree, p: Path, k: Key)
    requires Shaped(t) && ValidPath(t, p) && Stored(t, k) && At(t, p).compr
    ensures After(PathKey(t, p) + At(t, p).data, k) <==> After(PathKey(t, p), k)
  {
    AtShaped(t, p);
    var x, n := PathKey(t, p), At(t, p);
    if x <= k {
      StoredBelow(t, p, k);
      AfterPrefix(x, n.data, k[|x|..]);
      CompressedEnd(n, k[|x|..]);
    } else {
      Diverges(x, n.data, k);
    }
  }

  lemma LeaveLeaf(t: Tree, p: Path, k: Key)
    requires Shaped(t) && ValidPath(t, p) && Stored(t, k) && At(t, p).kids == []
    ensures Less(PathKey(t, p), k) <==> After(PathKey(t, p), k)
  {
    AtShaped(t, p);
    var x := PathKey(t, p);
    LessSplit(x, k);
    if x <= k { StoredBelow(t, p, k); }
  }

  // ------------------------------------------------ nodes left to visit

  /** The nodes that preorder visits after the subtree at p. */
  ghost function Remaining(t: Tree, p: Path): nat
    requires ValidPath(t, p)
    decreases p
  {
    if p == [] then 0
    else Remaining(t.kids[p[0]], p[1..]) + TallyAll(t.kids[p[0] + 1..], Nodes)
  }

  lemma {:induction false} RemainingStep(t: Tree, p: Path, i: nat)
    requires ValidPath(t, p) && i < |At(t, p).kids|
    ensures ValidPath(t, p + [i])
    ensures Remaining(t, p + [i]) == Remaining(t, p) + TallyAll(At(t, p).kids[i + 1..], Nodes)
    decreases p
  {
    if p == [] {
      assert p + [i] == [i];
      assert [i][1..] == [];
    } else {
      assert (p + [i])[1..] == p[1..] + [i];
      RemainingStep(t.kids[p[0]], p[1..], i);
    }
  }

  lemma {:induction false} TallySuffix(ts: seq<Tree>, i: nat, j: nat)
    requires i <= j <= |ts|
    ensures TallyAll(ts[j..], Nodes) <= TallyAll(ts[i..], Nodes)
    decreases j - i
  {
    if i < j {
      assert ts[i..][1..] == ts[i + 1..];
      TallySuffix(ts, i + 1, j);
    }
  }

  /** The nodes preorder visits after the node at p itself. */
  ghost function Ahead(t: Tree, p: Path): nat
    requires ValidPath(t, p)
  {
    Tally(At(t, p), Nodes) - 1 + Remaining(t, p)
  }

  lemma AheadDown(t: Tree, p: Path)
    requires ValidPath(t, p) && At(t, p).kids != []
    ensures ValidPath(t, p + [0]) && Ahead(t, p + [0]) < Ahead(t, p)
  {
    var n := At(t, p);
    RemainingStep(t, p, 0);
    assert [0][1..] == [];
    AtAppend(t, p, [0]);
    assert TallyAll(n.kids, Nodes) == Tally(n.kids[0], Nodes) + TallyAll(n.kids[1..], Nodes);
  }

  lemma AheadAcross(t: Tree, p: Path, i: nat)
    requires ValidPath(t, p) && i < |At(t, p).kids|
    ensures ValidPath(t, p + [i]) && Ahead(t, p + [i]) < Remaining(t, p) + TallyAll(At(t, p).kids[i..], Nodes)
  {
    RemainingStep(t, p, i);
    assert [i][1..] == [];
    AtAppend(t, p, [i]);
    assert At(t, p).kids[i..][1..] == At(t, p).kids[i + 1..];
  }

  // ------------------------------------------------ seeking

  /** A normal node without an edge for the first byte of e. */
  lemma SeekEdge(n: Tree, e: Key, r: Key)
    requires Shaped(n) && !n.compr && Stored(n, r) && e != [] && e[0] !in n.data
    ensures Less(e, r) <==> After([e[0]], r)
  {
    AfterByte(e[0], r);
    if r != [] { assert n.data[Step(n, r)] == r[0]; }
  }

  /** A compressed node whose string differs from e at byte j. */
  lemma SeekString(n: Tree, e: Key, j: nat, r: Key)
    requires Shaped(n) && n.compr && Stored(n, r) && j < |n.data| && j < |e| && n.data[..j] == e[..j]
    requires n.data[j] != e[j]
    ensures n.data[j] > e[j] ==> (Less(e, r) <==> Less([], r))
    ensures n.data[j] < e[j] ==> (Less(e, r) <==> After(n.data, r))
  {
    if r != [] {
      CompressedEnd(n, r);
      assert Step(n, r) == 0 && n.data <= r;
      assert e == e[..j] + e[j..] && r == e[..j] + r[j..];
      LessPrefix(e[..j], e[j..], r[j..]);
      assert r[j] == n.data[j];
    }
  }

  /** The searched bytes end inside the string of a compressed node. */
  lemma SeekInside(n: Tree, j: nat, r: Key)
    requires Shaped(n) && Stored(n, r) && j <= |n.data| && (if n.compr then j < |n.data| else j == 0)
    ensures Less(n.data[..j], r) <==> Less([], r)
  {
    if r != [] {
      LessSplit(n.data[..j], r);
      if n.compr { assert Step(n, r) == 0 && n.data <= r; }
    }
  }

  /** Comparing with an extension of the key of the node at p. */
  lemma SeekBelow(t: Tree, p: Path, e: Key, x: Key, after: bool, k: Key)
    requires Shaped(t) && ValidPath(t, p) && Stored(t, k) && Shaped(At(t, p))
    requires forall r: Key :: Stored(At(t, p), r) ==> (Less(e, r) <==> if after then After(x, r) else Less(x, r))
    ensures Less(PathKey(t, p) + e, k) <==>
      if after then After(PathKey(t, p) + x, k) else Less(PathKey(t, p) + x, k)
  {
    var y := PathKey(t, p);
    if y <= k {
      StoredBelow(t, p, k);
      var r := k[|y|..];
      LessPrefix(y, e, r);
      LessPrefix(y, x, r);
      AfterPrefix(y, x, r);
    } else {
      Diverges(y, e, k);
      Diverges(y, x, k);
    }
  }
}
