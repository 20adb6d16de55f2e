/** Whole runs: any sequence of raxInsert, raxRemove and raxFind calls against a
    finite map, a complete forward iteration, and raxFree. */
module RaxRun {
  import opened Common
  import opened RaxTree
  import opened RaxSteps
  import opened RaxHeap
  import opened RaxForm
  import opened RaxOrder
  import opened RaxCursor
  import opened RaxDict
  import opened RaxIter

  datatype Call = Insert(key: Key, val: Ptr) | Remove(key: Key) | Find(key: Key)

  /** The C return value, and what *old (or the result of raxFind) tells. */
  datatype Reply = Reply(ret: int, seen: Option<Ptr>)

  function Lookup(m: map<Key, Ptr>, k: Key): Option<Ptr> {
    if k in m then Some(m[k]) else None
  }

  /** The same calls on a finite map. */
  function MapAfter(m: map<Key, Ptr>, c: Call): map<Key, Ptr> {
    match c
    case Insert(k, v) => m[k := v]
    case Remove(k) => m - {k}
    case Find(k) => m
  }

  function MapReply(m: map<Key, Ptr>, c: Call): Reply {
    match c
    case Insert(k, v) => Reply(if k in m then 0 else 1, Lookup(m, k))
    case Remove(k) => Reply(if k in m then 1 else 0, Lookup(m, k))
    case Find(k) => Reply(0, Lookup(m, k))
  }

  function MapRun(cs: seq<Call>): map<Key, Ptr> {
    if cs == [] then map[] else MapAfter(MapRun(cs[..|cs| - 1]), cs[|cs| - 1])
  }

  function MapReplies(cs: seq<Call>): seq<Reply> {
    if cs == [] then [] else
      MapReplies(cs[..|cs| - 1]) + [MapReply(MapRun(cs[..|cs| - 1]), cs[|cs| - 1])]
  }

  // ---------------------------------------------------------------- compact trees

  /** The calls that leave two nodes that could be one. */
  ghost predicate Spoils(t: Tree, c: Call)
    requires Shaped(t)
  {
    match c
    case Insert(k, _) => InsertSpoils(t, k)
    case Remove(k) => RemoveSpoils(t, k, false)
    case Find(_) => false
  }

  /** What one call makes of the tree. */
  ghost predicate Moves(t: Tree, c: Call, u: Tree) {
    Shaped(t) &&
    (match c
     case Insert(k, v) => u == InsertTree(t, k, v)
     case Remove(k) => if Get(t, k).None? then u == t else exists p :: Without(t, k, p, u)
     case Find(_) => u == t) &&
    (Compact(t) ==> (Compact(u) <==> !Spoils(t, c))) && (Neat(t, true) && !c.Remove? ==> Neat(u, true))
  }

  /** The trees before and after each call. */
  ghost predicate History(cs: seq<Call>, ts: seq<Tree>) {
    |ts| == |cs| + 1 && ts[0] == Empty && (forall i :: 0 <= i < |ts| ==> Shaped(ts[i])) &&
    forall i :: 0 <= i < |cs| ==> Moves(ts[i], cs[i], ts[i + 1])
  }

  lemma HistoryStep(cs: seq<Call>, i: nat, ts: seq<Tree>, u: Tree)
    requires i < |cs| && History(cs[..i], ts) && Moves(ts[i], cs[i], u) && Shaped(u)
    ensures History(cs[..i + 1], ts + [u])
  {
    var us := ts + [u];
    forall k | 0 <= k < i + 1
      ensures Moves(us[k], cs[..i + 1][k], us[k + 1])
    {
      if k < i { assert Moves(ts[k], cs[..i][k], ts[k + 1]); }
    }
  }

  lemma {:induction false} CompactUpTo(cs: seq<Call>, ts: seq<Tree>, n: nat)
    requires History(cs, ts) && n <= |cs| && forall i :: 0 <= i < n ==> !Spoils(ts[i], cs[i])
    ensures Compact(ts[n])
  {
    if n > 0 {
      CompactUpTo(cs, ts, n - 1);
      assert Moves(ts[n - 1], cs[n - 1], ts[n - 1 + 1]);
    }
  }

  lemma {:induction false} NeatUntil(cs: seq<Call>, ts: seq<Tree>, n: nat)
    requires History(cs, ts) && n <= |cs| && forall i :: 0 <= i < n ==> !cs[i].Remove?
    ensures Neat(ts[n], true)
  {
    if n > 0 {
      NeatUntil(cs, ts, n - 1);
      assert Moves(ts[n - 1], cs[n - 1], ts[n - 1 + 1]);
    }
  }

  /** Compact at every moment exactly if no call spoils it. */
  ghost predicate Throughout(cs: seq<Call>, ts: seq<Tree>)
    requires History(cs, ts)
  {
    (forall i :: 0 <= i <= |cs| ==> Compact(ts[i])) <==> (forall i :: 0 <= i < |cs| ==> !Spoils(ts[i], cs[i]))
  }

  lemma AlwaysCompactIff(cs: seq<Call>, ts: seq<Tree>)
    requires History(cs, ts)
    ensures Throughout(cs, ts)
  {
    if forall i :: 0 <= i <= |cs| ==> Compact(ts[i]) {
      forall i | 0 <= i < |cs|
        ensures !Spoils(ts[i], cs[i])
      {
        assert Moves(ts[i], cs[i], ts[i + 1]) && Compact(ts[i]) && Compact(ts[i + 1]);
      }
    } else if forall i :: 0 <= i < |cs| ==> !Spoils(ts[i], cs[i]) {
      forall i | 0 <= i <= |cs|
        ensures Compact(ts[i])
      {
        CompactUpTo(cs, ts, i);
      }
    }
  }

  lemma {:induction false} StrictCompact(t: Tree)
    requires Neat(t, true)
    ensures Compact(t)
    decreases t
  {
    forall i | 0 <= i < |t.kids|
      ensures Neat(t.kids[i], false)
    {
      StrictCompact(t.kids[i]);
    }
  }

  /** Without removals the tree is compact at every moment. */
  lemma InsertsCompact(cs: seq<Call>, ts: seq<Tree>)
    requires History(cs, ts) && forall i :: 0 <= i < |cs| ==> !cs[i].Remove?
    ensures forall i :: 0 <= i <= |cs| ==> Compact(ts[i])
  {
    forall i | 0 <= i <= |cs|
      ensures Compact(ts[i])
    {
      NeatUntil(cs, ts, i);
      StrictCompact(ts[i]);
    }
  }

  // ---------------------------------------------------------------- runs

  method Perform(r: Rax, c: Call) returns (a: Reply)
    requires r.Valid() && (c.Insert? ==> |c.key| <= MAX_SIZE)
    modifies r, r.refs
    ensures r.Valid() && fresh(r.refs - old(r.refs))
    ensures Dict(r.tree) == MapAfter(Dict(old(r.tree)), c) && a == MapReply(Dict(old(r.tree)), c)
    ensures Moves(old(r.tree), c, r.tree)
  {
    DictGet(r.tree, c.key);
    ghost var t := r.tree;
    match c {
      case Insert(k, v) =>
        var ret, prev := r.Insert(k, v);
        DictInsert(t, k, v, r.tree);
        a := Reply(ret, prev);
      case Remove(k) =>
        var ret, prev, _ := r.Remove(k);
        DictRemove(t, k, r.tree);
        a := Reply(ret, prev);
      case Find(k) =>
        var v := r.Find(k);
        a := Reply(0, v);
    }
  }

  /** Where a run stands after the calls cs. */
  ghost predicate Ran(cs: seq<Call>, m: map<Key, Ptr>, replies: seq<Reply>, ts: seq<Tree>, t: Tree) {
    m == MapRun(cs) && replies == MapReplies(cs) && History(cs, ts) && ts[|cs|] == t
  }

  lemma RanStep(cs: seq<Call>, i: nat, m: map<Key, Ptr>, replies: seq<Reply>, ts: seq<Tree>, t: Tree, u: Tree)
    requires i < |cs| && Ran(cs[..i], m, replies, ts, t) && Moves(t, cs[i], u) && Shaped(u)
    ensures Ran(cs[..i + 1], MapAfter(m, cs[i]), replies + [MapReply(m, cs[i])], ts + [u], u)
  {
    RunStep(cs, i);
    HistoryStep(cs, i, ts, u);
  }

  method Calls(cs: seq<Call>) returns (r: Rax, replies: seq<Reply>, ghost ts: seq<Tree>)
    requires forall i :: 0 <= i < |cs| && cs[i].Insert? ==> |cs[i].key| <= MAX_SIZE
    ensures r.Valid() && Ran(cs, Dict(r.tree), replies, ts, r.tree)
  {
    r := Fresh();
    replies, ts := [], [r.tree];
    var i := 0;
    while i < |cs|
      invariant i <= |cs| && r.Valid() && fresh(r) && fresh(r.refs)
      invariant Ran(cs[..i], Dict(r.tree), replies, ts, r.tree)
    {
      ghost var t := r.tree;
      var a := Perform(r, cs[i]);
      RanStep(cs, i, Dict(t), replies, ts, t, r.tree);
      replies, ts := replies + [a], ts + [r.tree];
      i := i + 1;
    }
    assert cs[..i] == cs;
  }

  /** From raxNew on, every run of calls answers as the map does, and the counters
      are the sizes of the map and of the tree; the tree is compact throughout exactly if
      no call spoils it, and always if nothing is removed. */
  method Run(cs: seq<Call>) returns (r: Rax, replies: seq<Reply>, ghost ts: seq<Tree>)
    requires forall i :: 0 <= i < |cs| && cs[i].Insert? ==> |cs[i].key| <= MAX_SIZE
    ensures r.Valid() && Dict(r.tree) == MapRun(cs) && r.numele == |MapRun(cs)|
    ensures replies == MapReplies(cs)
    ensures History(cs, ts) && ts[|cs|] == r.tree && Throughout(cs, ts)
    ensures (forall i :: 0 <= i < |cs| ==> !cs[i].Remove?) ==> Compact(r.tree)
  {
    r, replies, ts := Calls(cs);
    DictSize(r.tree);
    AlwaysCompactIff(cs, ts);
    if forall i :: 0 <= i < |cs| ==> !cs[i].Remove? { InsertsCompact(cs, ts); }
  }

  lemma RunStep(cs: seq<Call>, i: nat)
    requires i < |cs|
    ensures MapRun(cs[..i + 1]) == MapAfter(MapRun(cs[..i]), cs[i])
    ensures MapReplies(cs[..i + 1]) == MapReplies(cs[..i]) + [MapReply(MapRun(cs[..i]), cs[i])]
  {
    assert cs[..i + 1][..i] == cs[..i] && cs[..i + 1][i] == cs[i];
  }

  method Fresh() returns (r: Rax)
    ensures r.Valid() && fresh(r) && fresh(r.refs) && r.tree == Empty && Dict(r.tree) == map[]
  {
    r := new Rax();
  }

  // ---------------------------------------------------------------- trees that do not stay compact

  function Leaf(v: Ptr): Tree { Node(true, v, false, [], []) }

  const FOO: Key := [70, 79, 79]
  const BAR: Key := [66, 65, 82]
  const FOOBAR: Key := [70, 79, 79, 66, 65, 82]

  /** The keys "FOOBAR" and "FOO", as in the first example that rax.c gives for recompression. */
  lemma TwoKeys(v: Ptr, w: Ptr)
    ensures var t := InsertTree(Empty, FOOBAR, v);
      Shaped(t) && InsertTree(t, FOO, w) == Link(false, NULL, FOO, Link(true, w, BAR, Leaf(v)))
  {
    var k := FOOBAR;
    assert k[6..] == [] && k[..6] == k;
    assert InsertTree(Empty, k, v) == Link(false, NULL, k, Leaf(v));
    assert k[..3] == FOO && k[3..] == BAR;
    SharedIs(k, FOO, 3);
  }

  lemma TwoKeysSpoil(v: Ptr, w: Ptr, t: Tree)
    requires t == Link(false, NULL, FOO, Link(true, w, BAR, Leaf(v)))
    ensures Shaped(t) && Compact(t) && RemoveSpoils(t, FOO, false)
  {
    assert FOO[3..] == [];
    assert Shaped(t.kids[0].kids[0]) && Shaped(t.kids[0]);
    StepUnique(t, FOO, 0);
  }

  function ThreeCalls(v: Ptr, w: Ptr): seq<Call> {
    [Insert(FOOBAR, v), Insert(FOO, w), Remove(FOO)]
  }

  lemma ThreeCallsSpoil(v: Ptr, w: Ptr, ts: seq<Tree>)
    requires History(ThreeCalls(v, w), ts)
    ensures !Compact(ts[3])
  {
    var cs := ThreeCalls(v, w);
    assert Moves(ts[0], cs[0], ts[0 + 1]) && Moves(ts[1], cs[1], ts[1 + 1]) && Moves(ts[2], cs[2], ts[2 + 1]);
    TwoKeys(v, w);
    TwoKeysSpoil(v, w, ts[2]);
  }

  lemma ThreeCallsMap(v: Ptr, w: Ptr)
    ensures MapRun(ThreeCalls(v, w)) == map[FOOBAR := v]
  {
    var cs := ThreeCalls(v, w);
    assert cs[..2] == [cs[0], cs[1]] && cs[..2][..1] == [cs[0]] && cs[..2][..1][..0] == [];
    assert MapRun([cs[0]]) == map[FOOBAR := v];
    assert |FOO| == 3 && |FOOBAR| == 6;
  }

  /** Inserting "FOOBAR" and "FOO" and removing "FOO" leaves "FOO" and "BAR" in two nodes. */
  method RemoveLeavesChain(v: Ptr, w: Ptr) returns (r: Rax)
    ensures r.Valid() && Dict(r.tree) == map[FOOBAR := v] && !Compact(r.tree)
  {
    var r', _, ts := Calls(ThreeCalls(v, w));
    r := r';
    ThreeCallsSpoil(v, w, ts);
    ThreeCallsMap(v, w);
  }

  /** The node of "A" below the root, with what follows. */
  function Nested(a: Ptr, low: Tree): Tree {
    Node(false, NULL, false, [65], [Link(true, a, [66, 67], low)])
  }

  lemma LeafGrows(a: Ptr, r: Key, b: Ptr)
    requires |r| == 2
    ensures InsertTree(Leaf(a), r, b) == Link(true, a, r, Leaf(b))
  {
    assert r[..2] == r && r[2..] == [];
    assert Extended(Empty, [], b) == Leaf(b);
    assert Extended(Leaf(a), r, b) == Link(true, a, r, Leaf(b));
  }

  lemma FirstTwo(a: Ptr, b: Ptr)
    ensures var t := InsertTree(Empty, [65], a);
      Shaped(t) && InsertTree(t, [65, 66, 67], b) == Nested(a, Leaf(b))
  {
    var t := Node(false, NULL, false, [65], [Leaf(a)]);
    var k: Key := [65];
    assert k[1..] == [] && Inserted([], 0, Leaf(a)) == [Leaf(a)];
    assert Extended(Empty, k, a) == t;
    assert InsertTree(Empty, k, a) == t;
    LeafGrows(a, [66, 67], b);
    InsertDown(t, 0, [66, 67], b);
    assert Label(t, 0) + [66, 67] == [65, 66, 67];
  }

  lemma NestedPath(a: Ptr, low: Tree)
    requires Shaped(low)
    ensures var t := Nested(a, low);
      Shaped(t) && ValidPath(t, [0, 0]) && At(t, [0, 0]) == low && PathKey(t, [0, 0]) == [65, 66, 67] &&
      forall u :: Put(t, [0, 0], u) == Nested(a, u)
  {
    var t, p: Path := Nested(a, low), [0, 0];
    assert p[1..] == [0] && p[1..][1..] == [];
    assert Shaped(t.kids[0]);
    assert Label(t, 0) + (Label(t.kids[0], 0) + []) == [65, 66, 67];
    forall u ensures Put(t, p, u) == Nested(a, u) {
      assert Put(t.kids[0], p[1..], u) == Link(true, a, [66, 67], u);
    }
  }

  lemma ThirdKey(a: Ptr, b: Ptr, c: Ptr)
    ensures Shaped(Nested(a, Leaf(b)))
    ensures InsertTree(Nested(a, Leaf(b)), [65, 66, 67, 68, 69], c) == Nested(a, Link(true, b, [68, 69], Leaf(c)))
  {
    NestedPath(a, Leaf(b));
    LeafGrows(b, [68, 69], c);
    InsertAlong(Nested(a, Leaf(b)), [0, 0], [68, 69], c);
    var k: Key := [65, 66, 67];
    assert k + [68, 69] == [65, 66, 67, 68, 69];
  }

  lemma SecondGone(a: Ptr, b: Ptr, c: Ptr, u: Tree)
    requires Moves(Nested(a, Link(true, b, [68, 69], Leaf(c))), Remove([65, 66, 67]), u)
    ensures u == Nested(a, Link(false, NULL, [68, 69], Leaf(c)))
  {
    var low := Link(true, b, [68, 69], Leaf(c));
    var t := Nested(a, low);
    assert Shaped(low.kids[0]) && Shaped(low);
    NestedPath(a, low);
    GetPath(t, [0, 0], []);
    assert PathKey(t, [0, 0]) + [] == [65, 66, 67];
    var p :| Without(t, [65, 66, 67], p, u);
    PathOnce(t, p, [0, 0]);
  }

  lemma NestedSpoils(a: Ptr, c: Ptr)
    ensures var t := Nested(a, Link(false, NULL, [68, 69], Leaf(c)));
      Shaped(t) && Compact(t) && InsertSpoils(t, [65, 88])
  {
    var low := Link(false, NULL, [68, 69], Leaf(c));
    var t, k: Key := Nested(a, low), [65, 88];
    assert Shaped(low.kids[0]) && Shaped(low) && Shaped(t.kids[0]);
    assert Neat(low.kids[0], false) && Neat(low, false) && Neat(t.kids[0], false);
    assert k[1..] == [88];
    StepUnique(t, k, 0);
  }

  function FiveCalls(a: Ptr, b: Ptr, c: Ptr, d: Ptr): seq<Call> {
    [Insert([65], a), Insert([65, 66, 67], b), Insert([65, 66, 67, 68, 69], c), Remove([65, 66, 67]),
     Insert([65, 88], d)]
  }

  lemma FiveCallsFit(a: Ptr, b: Ptr, c: Ptr, d: Ptr)
    ensures |FiveCalls(a, b, c, d)| == 5
    ensures forall i :: 0 <= i < 5 && FiveCalls(a, b, c, d)[i].Insert? ==> |FiveCalls(a, b, c, d)[i].key| <= MAX_SIZE
  {
  }

  lemma FiveCallsSpoil(a: Ptr, b: Ptr, c: Ptr, d: Ptr, ts: seq<Tree>)
    requires History(FiveCalls(a, b, c, d), ts)
    ensures Compact(ts[4]) && !Compact(ts[5])
  {
    var cs := FiveCalls(a, b, c, d);
    assert Moves(ts[0], cs[0], ts[0 + 1]) && Moves(ts[1], cs[1], ts[1 + 1]) && Moves(ts[2], cs[2], ts[2 + 1]);
    FirstTwo(a, b);
    ThirdKey(a, b, c);
    assert Moves(ts[3], cs[3], ts[3 + 1]) && Moves(ts[4], cs[4], ts[4 + 1]);
    SecondGone(a, b, c, ts[4]);
    NestedSpoils(a, c);
  }

  /** Inserting "A", "ABC" and "ABCDE", removing "ABC" and inserting "AX" leaves "C" and
      "DE" in two nodes. */
  method InsertLeavesChain(a: Ptr, b: Ptr, c: Ptr, d: Ptr) returns (r: Rax)
    ensures r.Valid() && !Compact(r.tree)
  {
    FiveCallsFit(a, b, c, d);
    var r', _, ts := Calls(FiveCalls(a, b, c, d));
    r := r';
    FiveCallsSpoil(a, b, c, d, ts);
  }

  // ---------------------------------------------------------------- iteration

  /** The cut that leaves the keys from the n-th on. */
  ghost function Tail(ks: seq<Key>, n: nat): Cut
    requires n <= |ks|
  {
    if n == 0 then From([]) else Past(ks[n - 1])
  }

  lemma IndexOrder(ks: seq<Key>, a: nat, b: nat)
    requires SortedKeys(ks) && a < |ks| && b < |ks|
    ensures Less(ks[a], ks[b]) <==> a < b
  {
    LessTotal(ks[a], ks[b]);
  }

  lemma TailMeets(t: Tree, n: nat, m: nat)
    requires Shaped(t) && n <= |Keys(t)| && m < |Keys(t)|
    ensures Stored(t, Keys(t)[m]) && (Meets(Tail(Keys(t), n), Keys(t)[m]) <==> n <= m)
  {
    KeyIff(t, Keys(t)[m]);
    KeysSorted(t);
    TailOrder(Keys(t), n, m);
  }

  lemma TailOrder(ks: seq<Key>, n: nat, m: nat)
    requires SortedKeys(ks) && n <= |ks| && m < |ks|
    ensures Meets(Tail(ks, n), ks[m]) <==> n <= m
  {
    if n > 0 { IndexOrder(ks, n - 1, m); }
  }

  lemma KeyAt(t: Tree, n: nat, k: Key)
    requires Shaped(t) && n <= |Keys(t)| && Least(t, Tail(Keys(t), n), k)
    ensures n < |Keys(t)| && k == Keys(t)[n]
  {
    var ks := Keys(t);
    KeyIff(t, k);
    KeysSorted(t);
    var m :| 0 <= m < |ks| && ks[m] == k;
    TailMeets(t, n, m);
    TailMeets(t, n, n);
    IndexOrder(ks, m, n);
  }

  lemma KeysEnd(t: Tree, n: nat)
    requires Shaped(t) && n <= |Keys(t)| && Exhausted(t, Tail(Keys(t), n))
    ensures n == |Keys(t)|
  {
    if n < |Keys(t)| { TailMeets(t, n, n); }
  }

  method Begin(r: Rax) returns (it: RaxIterator)
    requires r.Readable()
    ensures fresh(it) && it.rt == r && it.Valid()
    ensures it.seeked && if it.eof then Exhausted(r.tree, From([])) else Least(r.tree, From([]), it.key)
  {
    it := new RaxIterator(r);
    var _ := it.Seek(First, []);
  }

  /** What the first raxNext call, and each later one, finds. */
  ghost predicate BeforeKey(t: Tree, n: nat, seeked: bool, eof: bool, key: Key)
    requires Shaped(t) && n <= |Keys(t)|
  {
    if n > 0 then !seeked && !eof && key == Keys(t)[n - 1]
    else seeked && if eof then Exhausted(t, From([])) else Least(t, From([]), key)
  }

  /** The iterator is on the n-th key, or at the end after n keys. */
  ghost predicate OnKey(t: Tree, n: nat, seeked: bool, eof: bool, key: Key)
    requires Shaped(t) && n <= |Keys(t)|
  {
    if eof then n == |Keys(t)| else !seeked && n < |Keys(t)| && key == Keys(t)[n]
  }

  /** raxNext after n keys. */
  method Pull(it: RaxIterator, ghost t: Tree, ghost n: nat) returns (more: int)
    requires it.Valid() && it.rt.tree == t && n <= |Keys(t)| && BeforeKey(t, n, it.seeked, it.eof, it.key)
    modifies it
    ensures it.Valid() && more == (if it.eof then 0 else 1)
    ensures OnKey(t, n, it.seeked, it.eof, it.key)
  {
    ghost var c := it.Pending();
    if it.eof { KeysEnd(t, 0); }
    if n == 0 && !it.eof { LeastAgain(t, it.key); }
    more := it.Next();
    if it.eof && n > 0 { KeysEnd(t, n); }
    if !it.eof { KeyAt(t, n, it.key); }
  }

  lemma LeastAgain(t: Tree, k: Key)
    requires Shaped(t) && Least(t, From([]), k)
    ensures !Exhausted(t, From(k)) && forall m: Key :: Least(t, From(k), m) ==> m == k
  {
    assert Meets(From(k), k);
    forall m: Key | Least(t, From(k), m) ensures m == k { LessTotal(k, m); }
  }

  /** vs are the values stored under ks. */
  ghost predicate Valued(t: Tree, ks: seq<Key>, vs: seq<Ptr>)
    requires Shaped(t)
  {
    |vs| == |ks| && forall i :: 0 <= i < |ks| ==> Get(t, ks[i]) == Some(vs[i])
  }

  lemma ValuedAppend(t: Tree, ks: seq<Key>, vs: seq<Ptr>, k: Key, v: Ptr)
    requires Shaped(t) && Valued(t, ks, vs) && Get(t, k) == Some(v)
    ensures Valued(t, ks + [k], vs + [v])
  {
  }

  /** Some first keys of t, in order, with their values. */
  ghost predicate Listed(t: Tree, ks: seq<Key>, vs: seq<Ptr>)
    requires Shaped(t)
  {
    ks <= Keys(t) && Valued(t, ks, vs)
  }

  lemma ListedAppend(t: Tree, ks: seq<Key>, vs: seq<Ptr>, k: Key, v: Ptr)
    requires Shaped(t) && Listed(t, ks, vs) && Get(t, k) == Some(v) && |ks| < |Keys(t)| && k == Keys(t)[|ks|]
    ensures Listed(t, ks + [k], vs + [v]) && BeforeKey(t, |ks| + 1, false, false, k)
  {
    ValuedAppend(t, ks, vs, k, v);
  }

  method Take(it: RaxIterator, ks0: seq<Key>, vs0: seq<Ptr>, ghost t: Tree) returns (ks: seq<Key>, vs: seq<Ptr>,
              more: int)
    requires it.Valid() && it.rt.tree == t && Listed(t, ks0, vs0) && !it.eof
    requires OnKey(t, |ks0|, it.seeked, it.eof, it.key)
    modifies it
    ensures it.Valid() && more == (if it.eof then 0 else 1)
    ensures |ks| == |ks0| + 1 && Listed(t, ks, vs) && OnKey(t, |ks|, it.seeked, it.eof, it.key)
  {
    ks, vs := ks0 + [it.key], vs0 + [it.data];
    ListedAppend(t, ks0, vs0, it.key, it.data);
    more := Pull(it, t, |ks|);
  }

  /** raxSeek "^" and raxNext until it fails, as hash_iterate uses them: every key
      once, in strictly increasing byte order, each with its value. */
  method Traverse(r: Rax) returns (ks: seq<Key>, vs: seq<Ptr>)
    requires r.Readable()
    ensures ks == Keys(r.tree) && Valued(r.tree, ks, vs) && |ks| == r.numele
  {
    ghost var t := r.tree;
    KeysCount(t);
    var it := Begin(r);
    ks, vs := [], [];
    var more := Pull(it, t, 0);
    while more != 0
      invariant it.Valid() && it.rt == r && fresh(it) && more == (if it.eof then 0 else 1)
      invariant Listed(t, ks, vs) && OnKey(t, |ks|, it.seeked, it.eof, it.key)
      decreases |Keys(t)| - |ks|
    {
      ks, vs, more := Take(it, ks, vs, t);
    }
  }

  // ---------------------------------------------------------------- raxFree

  /** raxRecursiveFree: visits every node of the subtree, children from the last to
      the first, and returns how often it decrements numnodes. */
  method RecursiveFree(n: RaxNode, ghost s: Shape, ghost t: Tree, ghost rs: set<RaxNode>) returns (freed: nat)
    requires Rep(s, t) && Shaped(t) && n == s.ref && Refs(s) <= rs
    ensures freed == Tally(t, Nodes)
    decreases s
  {
    var numchildren := if n.iscompr then 1 else |n.data|;
    freed := 0;
    while numchildren > 0
      invariant 0 <= numchildren <= |t.kids| && Rep(s, t) && freed == TallyAll(t.kids[numchildren..], Nodes)
    {
      numchildren := numchildren - 1;
      assert forall r :: r in Refs(s.kids[numchildren]) ==> r in RefsAll(s.kids);
      var f := RecursiveFree(n.kids[numchildren], s.kids[numchildren], t.kids[numchildren], rs);
      assert t.kids[numchildren..][1..] == t.kids[numchildren + 1..];
      freed := freed + f;
    }
    assert t.kids[0..] == t.kids;
    freed := freed + 1;
  }

  /** The assertion of raxFree holds: no node is left uncounted. */
  method Free(r: Rax) returns (left: int)
    requires r.Valid()
    ensures left == 0
  {
    var freed := RecursiveFree(r.head, r.shape, r.tree, r.refs);
    left := r.numnodes - freed;
  }
}
