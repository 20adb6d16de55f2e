/** The stack-based iterator of contrib/rax/rax.c, going forward. */
module RaxIter {
  import opened Common
  import opened RaxTree
  import opened RaxSteps
  import opened RaxHeap
  import opened RaxOrder
  import opened RaxCursor
  import opened RaxDict

  /** A set of keys that is closed upwards: those above x, those beyond all
      extensions of x, and those from x on. */
  datatype Cut = Past(x: Key) | Beyond(x: Key) | From(x: Key)

  predicate Meets(c: Cut, k: Key) {
    match c
    case Past(x) => Less(x, k)
    case Beyond(x) => After(x, k)
    case From(x) => k == x || Less(x, k)
  }

  /** The cuts c and d select the same stored keys. */
  ghost predicate Equiv(t: Tree, c: Cut, d: Cut)
    requires Shaped(t)
  {
    forall k: Key :: Stored(t, k) ==> (Meets(c, k) <==> Meets(d, k))
  }

  lemma EquivTrans(t: Tree, c: Cut, d: Cut, e: Cut)
    requires Shaped(t) && Equiv(t, c, d) && Equiv(t, d, e)
    ensures Equiv(t, c, e)
  {
  }

  /** No stored key is selected. */
  ghost predicate Exhausted(t: Tree, c: Cut)
    requires Shaped(t)
  {
    forall k: Key :: Stored(t, k) ==> !Meets(c, k)
  }

  /** k is the least stored key that c selects. */
  ghost predicate Least(t: Tree, c: Cut, k: Key)
    requires Shaped(t)
  {
    Stored(t, k) && Meets(c, k) && forall m: Key :: Stored(t, m) && Meets(c, m) ==> m == k || Less(k, m)
  }

  lemma CutDeeper(t: Tree, p: Path)
    requires Shaped(t) && ValidPath(t, p) && Shaped(At(t, p)) && At(t, p).kids != []
    ensures Equiv(t, Past(PathKey(t, p)), From(PathKey(t, p) + Label(At(t, p), 0)))
  {
    forall k: Key | Stored(t, k)
      ensures Meets(Past(PathKey(t, p)), k) <==> Meets(From(PathKey(t, p) + Label(At(t, p), 0)), k)
    {
      GoDeeper(t, p, k);
    }
  }

  lemma CutNext(t: Tree, p: Path, c: Byte, i: nat)
    requires Shaped(t) && ValidPath(t, p) && Shaped(At(t, p)) && !At(t, p).compr && FirstAbove(At(t, p).data, c, i)
    ensures i < |At(t, p).kids| ==>
      Equiv(t, Beyond(PathKey(t, p) + [c]), From(PathKey(t, p) + Label(At(t, p), i)))
    ensures i == |At(t, p).kids| ==> Equiv(t, Beyond(PathKey(t, p) + [c]), Beyond(PathKey(t, p)))
  {
    var x := PathKey(t, p);
    forall k: Key | Stored(t, k)
      ensures i < |At(t, p).kids| ==> (Meets(Beyond(x + [c]), k) <==> Meets(From(x + Label(At(t, p), i)), k))
      ensures i == |At(t, p).kids| ==> (Meets(Beyond(x + [c]), k) <==> Meets(Beyond(x), k))
    {
      GoNext(t, p, c, i, k);
    }
  }

  lemma CutCompressed(t: Tree, p: Path)
    requires Shaped(t) && ValidPath(t, p) && At(t, p).compr
    ensures Equiv(t, Beyond(PathKey(t, p) + At(t, p).data), Beyond(PathKey(t, p)))
  {
    forall k: Key | Stored(t, k)
      ensures Meets(Beyond(PathKey(t, p) + At(t, p).data), k) <==> Meets(Beyond(PathKey(t, p)), k)
    {
      LeaveCompressed(t, p, k);
    }
  }

  lemma CutLeaf(t: Tree, p: Path)
    requires Shaped(t) && ValidPath(t, p) && At(t, p).kids == []
    ensures Equiv(t, Past(PathKey(t, p)), Beyond(PathKey(t, p)))
  {
    forall k: Key | Stored(t, k) ensures Meets(Past(PathKey(t, p)), k) <==> Meets(Beyond(PathKey(t, p)), k) {
      LeaveLeaf(t, p, k);
    }
  }

  lemma CutNonKey(t: Tree, p: Path)
    requires Shaped(t) && ValidPath(t, p) && !At(t, p).iskey
    ensures Equiv(t, From(PathKey(t, p)), Past(PathKey(t, p)))
  {
    GetPath(t, p, []);
    assert PathKey(t, p) + [] == PathKey(t, p);
  }

  /** The iterator is at the node with path p; with 'noup' set its key also holds
      the bytes of an edge, existing or not, out of that node. */
  ghost predicate Placed(s: Shape, t: Tree, p: Path, node: RaxNode, key: Key, stack: seq<RaxNode>, noup: bool) {
    Shaped(t) && Trail(s, p, stack) && node == Sub(s, p).ref && ValidPath(t, p) &&
    if !noup then key == PathKey(t, p)
    else if At(t, p).compr then key == PathKey(t, p) + At(t, p).data
    else key != [] && key[..|key| - 1] == PathKey(t, p)
  }

  lemma KeyUp(t: Tree, q: Path, i: nat)
    requires Shaped(t) && ValidPath(t, q) && i < |At(t, q).kids|
    ensures Shaped(At(t, q)) && ValidPath(t, q + [i])
    ensures var key := PathKey(t, q + [i]);
      key != [] &&
      if At(t, q).compr then key == PathKey(t, q) + At(t, q).data
      else key[..|key| - 1] == PathKey(t, q) && key[|key| - 1] == At(t, q).data[i]
  {
    KeyStep(t, q, i);
  }

  /** Popping the parent leaves the edge bytes on the key. */
  lemma PlacedUp(s: Shape, t: Tree, p: Path, key: Key, stack: seq<RaxNode>)
    requires Rep(s, t) && ValidIn(s, p) && Placed(s, t, p, Sub(s, p).ref, key, stack, false) && p != []
    ensures var q := p[..|p| - 1];
      key != [] && stack != [] && ValidIn(s, q) && stack[|stack| - 1] == Sub(s, q).ref &&
      Placed(s, t, q, Sub(s, q).ref, key, stack[..|stack| - 1], true) &&
      Shaped(At(t, q)) && p[|p| - 1] < |At(t, q).kids| &&
      (!At(t, q).compr ==> key[|key| - 1] == At(t, q).data[p[|p| - 1]])
    ensures Remaining(t, p) == Remaining(t, p[..|p| - 1]) + TallyAll(At(t, p[..|p| - 1]).kids[p[|p| - 1] + 1..], Nodes)
  {
    var q, i := p[..|p| - 1], p[|p| - 1];
    TrailPop(s, p, stack);
    SubRep(s, q, t);
    KeyUp(t, q, i);
    RemainingStep(t, q, i);
  }

  lemma PlacedDown(s: Shape, t: Tree, p: Path, key: Key, stack: seq<RaxNode>, i: nat)
    requires Rep(s, t) && ValidIn(s, p) && Placed(s, t, p, Sub(s, p).ref, key, stack, false) && i < |At(t, p).kids|
    ensures Shaped(At(t, p)) && |Sub(s, p).ref.kids| == |At(t, p).kids|
    ensures Placed(s, t, p + [i], Sub(s, p).ref.kids[i], key + Label(At(t, p), i), stack + [Sub(s, p).ref], false)
    ensures At(t, p + [i]) == At(t, p).kids[i]
  {
    SubRep(s, p, t);
    AtShaped(t, p);
    TrailStep(s, p, stack, i);
    KeyStep(t, p, i);
  }

  /** The header fields of the node at p. */
  lemma NodeAt(s: Shape, t: Tree, p: Path)
    requires Rep(s, t) && ValidIn(s, p) && Shaped(t)
    ensures ValidPath(t, p) && Shaped(At(t, p)) && Header(Sub(s, p).ref, At(t, p))
    ensures |Sub(s, p).ref.kids| == |At(t, p).kids|
  {
    SubRep(s, p, t);
    AtShaped(t, p);
  }

  method ScanAbove(d: seq<Byte>, c: Byte) returns (i: nat)
    requires Ascending(d)
    ensures FirstAbove(d, c, i)
  {
    i := 0;
    while i < |d| && d[i] <= c
      invariant i <= |d| && forall j :: 0 <= j < i ==> d[j] <= c
    {
      i := i + 1;
    }
  }

  /** One turn of the inner loop of raxIteratorNextStep at the node with path p:
      drops the edge bytes from the key and looks for the next edge. */
  method TryNext(node: RaxNode, full: Key, oldNoup: bool,
                 ghost stack: seq<RaxNode>, ghost s: Shape, ghost t: Tree, ghost p: Path, ghost rs: set<RaxNode>)
    returns (found: bool, key: Key, i: nat)
    requires Rep(s, t) && Refs(s) <= rs && Placed(s, t, p, node, full, stack, true)
    requires !oldNoup && !At(t, p).compr ==> full[|full| - 1] in At(t, p).data
    ensures key == PathKey(t, p)
    ensures found ==>
      Shaped(At(t, p)) && !At(t, p).compr && i < |At(t, p).kids| && FirstAbove(At(t, p).data, full[|full| - 1], i)
    ensures found ==> Equiv(t, Beyond(full), From(key + Label(At(t, p), i)))
    ensures !found ==> Equiv(t, Beyond(full), Beyond(key))
  {
    NodeAt(s, t, p);
    var prevchild := full[|full| - 1];
    var todel := if node.iscompr then |node.data| else 1;
    key := full[..|full| - todel];
    found, i := false, 0;
    if node.iscompr {
      assert full == key + node.data;
      CutCompressed(t, p);
    } else {
      assert full == key + [prevchild];
      if |node.data| > (if oldNoup then 0 else 1) {
        i := ScanAbove(node.data, prevchild);
        found := i != |node.data|;
      } else {
        i := |node.data|;
      }
      CutNext(t, p, prevchild, i);
    }
  }

  /** One turn of the inner loop, from the node with path p0: up one level, unless
      'noup' says the key is already that of an edge, then across. */
  method UpTurn(node0: RaxNode, key0: Key, stack0: seq<RaxNode>, noup: bool,
                ghost s: Shape, ghost t: Tree, ghost p0: Path, ghost rs: set<RaxNode>)
    returns (found: bool, node: RaxNode, key: Key, stack: seq<RaxNode>, ghost p: Path)
    requires Rep(s, t) && Refs(s) <= rs && Placed(s, t, p0, node0, key0, stack0, noup) && (noup || p0 != [])
    ensures Placed(s, t, p, node, key, stack, false)
    ensures Equiv(t, Beyond(key0), if found then From(key) else Beyond(key))
    ensures found && !noup ==> Ahead(t, p) < Remaining(t, p0)
    ensures !found && !noup ==> |stack| < |stack0| && Remaining(t, p) <= Remaining(t, p0)
  {
    node, stack, p := node0, stack0, p0;
    if !noup {
      PlacedUp(s, t, p, key0, stack);
      node, stack, p := stack[|stack| - 1], stack[..|stack| - 1], p[..|p| - 1];
    }
    var i;
    found, key, i := TryNext(node, key0, noup, stack, s, t, p, rs);
    if found {
      NodeAt(s, t, p);
      PlacedDown(s, t, p, key, stack, i);
      if !noup { AcrossLess(t, p, p0[|p0| - 1], i); }
      key, stack, node, p := key + [node.data[i]], stack + [node], node.kids[i], p + [i];
    }
  }

  /** The inner loop of raxIteratorNextStep: climbs until some node has an edge
      above the one the key came through, and steps into it. */
  method GoUp(head: RaxNode, node0: RaxNode, key0: Key, stack0: seq<RaxNode>, noup0: bool,
              ghost s: Shape, ghost t: Tree, ghost p0: Path, ghost rs: set<RaxNode>)
    returns (found: bool, node: RaxNode, key: Key, stack: seq<RaxNode>, ghost p: Path)
    requires Rep(s, t) && Refs(s) <= rs && Distinct(s) && head == s.ref && Placed(s, t, p0, node0, key0, stack0, noup0)
    ensures !found ==> Exhausted(t, Beyond(key0))
    ensures found ==> Placed(s, t, p, node, key, stack, false) && Equiv(t, Beyond(key0), From(key))
    ensures found && !noup0 ==> Ahead(t, p) < Remaining(t, p0)
  {
    var noup := noup0;
    node, key, stack, p := node0, key0, stack0, p0;
    found := false;
    while true
      invariant Rep(s, t) && Placed(s, t, p, node, key, stack, noup) && Equiv(t, Beyond(key0), Beyond(key))
      invariant !noup0 ==> !noup && Remaining(t, p) <= Remaining(t, p0)
      decreases noup, |stack|
    {
      if !noup && node == head {
        RootOnly(s, p);
        return;
      }
      ghost var c := Beyond(key);
      found, node, key, stack, p := UpTurn(node, key, stack, noup, s, t, p, rs);
      noup := false;
      EquivTrans(t, Beyond(key0), c, if found then From(key) else Beyond(key));
      if found { return; }
    }
  }

  /** Stepping across from edge j to edge i above it leaves fewer nodes ahead. */
  lemma AcrossLess(t: Tree, p: Path, j: nat, i: nat)
    requires ValidPath(t, p) && Local(At(t, p)) && !At(t, p).compr && j < |At(t, p).kids| && i < |At(t, p).kids|
    requires FirstAbove(At(t, p).data, At(t, p).data[j], i)
    ensures ValidPath(t, p + [i])
    ensures Ahead(t, p + [i]) < Remaining(t, p) + TallyAll(At(t, p).kids[j + 1..], Nodes)
  {
    AheadAcross(t, p, i);
    TallySuffix(At(t, p).kids, j + 1, i);
  }

  /** What raxIteratorNextStep is asked to leave behind. */
  function Start(key: Key, noup: bool): Cut {
    if noup then Beyond(key) else Past(key)
  }

  /** One turn of the outer loop: into the first child if there is one, else up
      and across. */
  method Turn(head: RaxNode, node0: RaxNode, key0: Key, stack0: seq<RaxNode>, noup: bool,
              ghost s: Shape, ghost t: Tree, ghost p0: Path, ghost rs: set<RaxNode>)
    returns (found: bool, node: RaxNode, key: Key, stack: seq<RaxNode>, ghost p: Path)
    requires Rep(s, t) && Refs(s) <= rs && Distinct(s) && head == s.ref && Placed(s, t, p0, node0, key0, stack0, noup)
    ensures !found ==> Exhausted(t, Start(key0, noup))
    ensures found ==> Placed(s, t, p, node, key, stack, false) && Equiv(t, Start(key0, noup), From(key))
    ensures found && !noup ==> Ahead(t, p) < Ahead(t, p0)
  {
    NodeAt(s, t, p0);
    var children := if node0.iscompr then 1 else |node0.data|;
    if !noup && children > 0 {
      PlacedDown(s, t, p0, key0, stack0, 0);
      CutDeeper(t, p0);
      AheadDown(t, p0);
      found, node, stack, p := true, node0.kids[0], stack0 + [node0], p0 + [0];
      key := key0 + node0.data[..if node0.iscompr then |node0.data| else 1];
      assert key == key0 + Label(At(t, p0), 0);
    } else {
      if !noup { CutLeaf(t, p0); }
      found, node, key, stack, p := GoUp(head, node0, key0, stack0, noup, s, t, p0, rs);
    }
  }

  /** The outer loop of raxIteratorNextStep: to the next key. */
  method Advance(head: RaxNode, node0: RaxNode, key0: Key, stack0: seq<RaxNode>, noup0: bool,
                 ghost s: Shape, ghost t: Tree, ghost p0: Path, ghost rs: set<RaxNode>)
    returns (found: bool, node: RaxNode, key: Key, stack: seq<RaxNode>, ghost p: Path)
    requires Rep(s, t) && Refs(s) <= rs && Distinct(s) && head == s.ref && Placed(s, t, p0, node0, key0, stack0, noup0)
    ensures !found ==> Exhausted(t, Start(key0, noup0))
    ensures found ==> Placed(s, t, p, node, key, stack, false) && Least(t, Start(key0, noup0), key)
    ensures found ==> Get(t, key) == Some(node.GetData())
  {
    var noup := noup0;
    node, key, stack, p := node0, key0, stack0, p0;
    while true
      invariant Rep(s, t) && Placed(s, t, p, node, key, stack, noup)
      invariant Equiv(t, Start(key0, noup0), Start(key, noup))
      decreases noup, Ahead(t, p)
    {
      ghost var c := Start(key, noup);
      found, node, key, stack, p := Turn(head, node, key, stack, noup, s, t, p, rs);
      noup := false;
      if !found { return; }
      EquivTrans(t, Start(key0, noup0), c, From(key));
      NodeAt(s, t, p);
      if node.iskey {
        GetPath(t, p, []);
        assert key + [] == key;
        LeastFrom(t, Start(key0, noup0), key);
        return;
      }
      CutNonKey(t, p);
      EquivTrans(t, Start(key0, noup0), From(key), Past(key));
    }
  }

  lemma LeastFrom(t: Tree, c: Cut, key: Key)
    requires Shaped(t) && Stored(t, key) && Equiv(t, c, From(key))
    ensures Least(t, c, key)
  {
    assert Meets(From(key), key);
  }

  // ------------------------------------------------ seeking

  lemma CutSeek(t: Tree, p: Path, e: Key, x: Key, after: bool)
    requires Shaped(t) && ValidPath(t, p) && Shaped(At(t, p))
    requires forall r: Key :: Stored(At(t, p), r) ==> (Less(e, r) <==> if after then After(x, r) else Less(x, r))
    ensures Equiv(t, Past(PathKey(t, p) + e), if after then Beyond(PathKey(t, p) + x) else Past(PathKey(t, p) + x))
  {
    forall k: Key | Stored(t, k)
      ensures Meets(Past(PathKey(t, p) + e), k) <==>
              Meets(if after then Beyond(PathKey(t, p) + x) else Past(PathKey(t, p) + x), k)
    {
      SeekBelow(t, p, e, x, after, k);
    }
  }

  /** How raxSeek continues from where the walk for ele stopped: the key to start
      from and whether it already holds edge bytes. */
  function SeekFrom(at: Key, compr: bool, data: seq<Byte>, ele: Key, i: nat, j: nat): (Key, bool)
    requires i <= |ele| && (compr ==> j < |data|)
  {
    if i != |ele| && !compr then (at + [ele[i]], true)
    else if i != |ele| && data[j] <= ele[i] then (at + data, true)
    else (at, false)
  }

  lemma SeekCut(t: Tree, ele: Key, p: Path, i: nat, j: nat)
    requires Shaped(t) && StoppedAt(t, ele, p, i, j)
    ensures var n := At(t, p);
      var (key, noup) := SeekFrom(PathKey(t, p), n.compr, n.data, ele, i, j);
      Equiv(t, Past(ele), Start(key, noup))
  {
    AtShaped(t, p);
    var n, y, e := At(t, p), PathKey(t, p), ele[i - j..];
    assert ele == y + e;
    assert y + [] == y;
    if i != |ele| && !n.compr {
      forall r: Key | Stored(n, r) ensures Less(e, r) <==> After([e[0]], r) { SeekEdge(n, e, r); }
      CutSeek(t, p, e, [e[0]], true);
    } else if i != |ele| {
      assert e[j] == ele[i] && e[..j] == n.data[..j];
      forall r: Key | Stored(n, r)
        ensures n.data[j] > e[j] ==> (Less(e, r) <==> Less([], r))
        ensures n.data[j] < e[j] ==> (Less(e, r) <==> After(n.data, r))
      {
        SeekString(n, e, j, r);
      }
      if n.data[j] < e[j] { CutSeek(t, p, e, n.data, true); } else { CutSeek(t, p, e, [], false); }
    } else {
      assert e == n.data[..j];
      forall r: Key | Stored(n, r) ensures Less(e, r) <==> Less([], r) { SeekInside(n, j, r); }
      CutSeek(t, p, e, [], false);
    }
  }

  lemma AbsentSeek(t: Tree, ele: Key)
    requires Shaped(t) && !Stored(t, ele)
    ensures Equiv(t, From(ele), Past(ele))
  {
  }

  /** One step of the key reconstruction. */
  lemma RebuildStep(s: Shape, t: Tree, p: Path, k: nat)
    requires Rep(s, t) && Distinct(s) && Shaped(t) && ValidIn(s, p) && k < |p|
    ensures ValidIn(s, p[..k]) && ValidIn(s, p[..k + 1]) && ValidPath(t, p[..k]) && ValidPath(t, p[..k + 1])
    ensures var a, n := Sub(s, p[..k]), At(t, p[..k]);
      Shaped(n) && Header(a.ref, n) && Roots(a.ref.kids, a.kids) && Distinct(a) && p[k] < |a.kids| == |n.kids| &&
      Sub(s, p[..k + 1]) == a.kids[p[k]] && PathKey(t, p[..k + 1]) == PathKey(t, p[..k]) + Label(n, p[k])
  {
    var q, i := p[..k], p[k];
    assert p == (q + [i]) + p[k + 1..] && p[..k + 1] == q + [i];
    SubSplit(s, q + [i], p[k + 1..]);
    SubSplit(s, q, [i]);
    assert [i][1..] == [];
    SubRep(s, q, t);
    SubRefs(s, q);
    KeyStep(t, q, i);
  }

  /** The loop of raxSeek that spells out the key of the node it stopped at from
      the nodes on the stack. */
  method RebuildKey(stack: seq<RaxNode>, ghost s: Shape, ghost t: Tree, ghost p: Path, ghost rs: set<RaxNode>)
    returns (key: Key)
    requires Rep(s, t) && Distinct(s) && Shaped(t) && Refs(s) <= rs && ValidIn(s, p) && ValidPath(t, p)
    requires |stack| == |p| + 1 && Trail(s, p, stack[..|p|]) && stack[|p|] == Sub(s, p).ref
    ensures key == PathKey(t, p)
  {
    key := [];
    var j := 1;
    while j < |stack|
      invariant 1 <= j <= |stack| && Rep(s, t) && ValidPath(t, p[..j - 1]) && key == PathKey(t, p[..j - 1])
    {
      var parent, child := stack[j - 1], stack[j];
      RebuildStep(s, t, p, j - 1);
      assert stack[..|p|][j - 1] == parent;
      assert j < |p| ==> stack[..|p|][j] == child;
      assert p[..|p|] == p;
      if parent.iscompr {
        key := key + parent.data;
      } else {
        var e := FindParentLink(parent, child, Sub(s, p[..j - 1]), p[j - 1]);
        key := key + [parent.data[e]];
      }
      j := j + 1;
    }
    assert p[..|p|] == p;
  }

  /** The operators of raxSeek that go forward: ">", ">=", "=" and "^". */
  datatype Operator = Greater | GreaterEqual | Equal | First

  class RaxIterator {
    const rt: Rax
    var seeked: bool
    var eof: bool
    var key: Key
    var data: Ptr
    var node: RaxNode
    var stack: seq<RaxNode>
    ghost var path: Path

    /** Unless at the end, the iterator stands on a stored key. */
    ghost predicate Valid()
      reads this, rt, rt.refs
    {
      rt.Readable() &&
      (!eof ==> Placed(rt.shape, rt.tree, path, node, key, stack, false) && Get(rt.tree, key) == Some(data))
    }

    /** The keys still to come. */
    ghost function Pending(): Cut
      reads this
    {
      if seeked then From(key) else Past(key)
    }

    /** raxStart. */
    constructor (rt: Rax)
      requires rt.Readable()
      ensures Valid() && this.rt == rt && eof
    {
      this.rt := rt;
      seeked, eof, key, data, node, stack, path := false, true, [], NULL, rt.head, [], [];
    }

    method Place(n: RaxNode, k: Key, st: seq<RaxNode>, d: Ptr, ghost p: Path)
      modifies this`node, this`key, this`stack, this`data, this`path
      ensures node == n && key == k && stack == st && data == d && path == p
    {
      node, key, stack, data, path := n, k, st, d, p;
    }

    /** raxIteratorNextStep past its flag checks. */
    method Step(noup: bool)
      requires rt.Readable() && Placed(rt.shape, rt.tree, path, node, key, stack, noup)
      modifies this
      ensures Valid() && seeked == old(seeked)
      ensures eof ==> Exhausted(rt.tree, Start(old(key), noup))
      ensures !eof ==> Least(rt.tree, Start(old(key), noup), key)
    {
      var found, n, k, st, p := Advance(rt.head, node, key, stack, noup, rt.shape, rt.tree, path, rt.refs);
      eof := !found;
      if found {
        Place(n, k, st, n.GetData(), p);
      }
    }

    /** raxNext. */
    method Next() returns (r: int)
      requires Valid()
      modifies this
      ensures Valid() && r == (if eof then 0 else 1)
      ensures old(eof) ==> eof
      ensures !old(eof) && eof ==> Exhausted(rt.tree, old(Pending()))
      ensures !eof ==> !seeked && Least(rt.tree, old(Pending()), key)
    {
      if eof { return 0; }
      if seeked {
        seeked := false;
        return 1;
      }
      Step(false);
      r := if eof then 0 else 1;
    }

    /** The part of raxSeek for ">" and ">=" when the exact key is not taken: steps
        to the next key from where the walk stopped. */
    method SeekOn(ele: Key, i: nat, j: nat, h: RaxNode, st: seq<RaxNode>, ghost p: Path)
      requires rt.Readable() && Trail(rt.shape, p, st) && h == Sub(rt.shape, p).ref && StoppedAt(rt.tree, ele, p, i, j)
      modifies this
      ensures Valid() && seeked == old(seeked)
      ensures eof ==> Exhausted(rt.tree, Past(ele))
      ensures !eof ==> Least(rt.tree, Past(ele), key)
    {
      var at := RebuildKey(st + [h], rt.shape, rt.tree, p, rt.refs);
      NodeAt(rt.shape, rt.tree, p);
      SeekCut(rt.tree, ele, p, i, j);
      var (k, noup) := SeekFrom(at, h.iscompr, h.data, ele, i, j);
      Place(h, k, st, data, p);
      Step(noup);
    }

    /** The exact match of raxSeek. */
    method SeekHit(ele: Key, h: RaxNode, st: seq<RaxNode>, ghost p: Path)
      requires rt.Readable() && !eof && Trail(rt.shape, p, st) && h == Sub(rt.shape, p).ref && h.iskey
      requires StoppedAt(rt.tree, ele, p, |ele|, 0)
      modifies this
      ensures Valid() && seeked == old(seeked) && !eof && key == ele && Stored(rt.tree, ele)
    {
      StoppedGet(rt.tree, ele, p, |ele|, 0);
      NodeAt(rt.shape, rt.tree, p);
      assert ele[..|ele|] == ele;
      Place(h, ele, st, h.GetData(), p);
    }

    /** raxSeek when the exact key is not taken. */
    method SeekMiss(op: Operator, ele: Key, i: nat, j: nat, h: RaxNode, st: seq<RaxNode>, ghost p: Path)
      requires rt.Readable() && op != First && !eof && Trail(rt.shape, p, st) && h == Sub(rt.shape, p).ref
      requires StoppedAt(rt.tree, ele, p, i, j) && (op != Greater ==> !Stored(rt.tree, ele))
      modifies this
      ensures Valid() && seeked == old(seeked)
      ensures op == Equal ==> eof
      ensures op != Equal && eof ==> Exhausted(rt.tree, Wanted(op, ele))
      ensures op != Equal && !eof ==> Least(rt.tree, Wanted(op, ele), key)
    {
      if op != Equal {
        SeekOn(ele, i, j, h, st, p);
        if op == GreaterEqual { AbsentSeek(rt.tree, ele); }
      } else {
        eof := true;
      }
    }

    /** The lookup part of raxSeek. */
    method SeekWalk(op: Operator, ele: Key)
      requires rt.Readable() && op != First && !eof
      modifies this
      ensures Valid() && seeked == old(seeked)
      ensures op == Equal ==> (eof <==> !Stored(rt.tree, ele)) && (!eof ==> key == ele)
      ensures op != Equal && eof ==> Exhausted(rt.tree, Wanted(op, ele))
      ensures op != Equal && !eof ==> Least(rt.tree, Wanted(op, ele), key)
    {
      var i, h, _, _, splitpos, st, p := rt.LowWalk(ele);
      StoppedGet(rt.tree, ele, p, i, splitpos);
      NodeAt(rt.shape, rt.tree, p);
      if op != Greater && i == |ele| && (!h.iscompr || splitpos == 0) && h.iskey {
        SeekHit(ele, h, st, p);
        LeastSelf(rt.tree, ele);
      } else {
        SeekMiss(op, ele, i, splitpos, h, st, p);
      }
    }

    /** raxSeek. */
    method Seek(op: Operator, ele: Key) returns (ret: int)
      requires rt.Readable()
      modifies this
      ensures Valid() && ret == 1 && seeked
      ensures op == Equal ==> (eof <==> !Stored(rt.tree, ele)) && (!eof ==> key == ele)
      ensures op != Equal && eof ==> Exhausted(rt.tree, Wanted(op, ele))
      ensures op != Equal && !eof ==> Least(rt.tree, Wanted(op, ele), key)
      decreases op == First
    {
      ret, seeked, eof := 1, true, false;
      if rt.numele == 0 {
        NothingStored(rt.tree);
        eof := true;
      } else if op == First {
        ret := Seek(GreaterEqual, []);
      } else {
        SeekWalk(op, ele);
      }
    }
  }

  /** The keys a seek is for. */
  function Wanted(op: Operator, ele: Key): Cut {
    match op
    case Greater => Past(ele)
    case GreaterEqual => From(ele)
    case Equal => From(ele)
    case First => From([])
  }

  lemma NothingStored(t: Tree)
    requires Shaped(t) && Tally(t, Elements) == 0
    ensures forall k: Key :: !Stored(t, k)
  {
    KeysCount(t);
    forall k: Key ensures !Stored(t, k) { KeyIff(t, k); }
  }

  lemma LeastSelf(t: Tree, k: Key)
    requires Shaped(t) && Stored(t, k)
    ensures Least(t, From(k), k)
  {
  }
}
