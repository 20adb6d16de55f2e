/** The keys of a radix tree in byte order, and the finite map it stands for. */
module RaxOrder {
  import opened Common
  import opened RaxTree
  import opened RaxSteps

  /** memcmp order with the shorter string first. */
  predicate Less(a: Key, b: Key) {
    b != [] && (a == [] || a[0] < b[0] || (a[0] == b[0] && Less(a[1..], b[1..])))
  }

  lemma {:induction false} LessTrans(a: Key, b: Key, c: Key)
    requires Less(a, b) && Less(b, c)
    ensures Less(a, c)
  {
    if a != [] && a[0] == b[0] == c[0] { LessTrans(a[1..], b[1..], c[1..]); }
  }

  lemma {:induction false} LessTotal(a: Key, b: Key)
    ensures (if Less(a, b) then 1 else 0) + (if Less(b, a) then 1 else 0) + (if a == b then 1 else 0) == 1
  {
    if a != [] && b != [] && a[0] == b[0] {
      LessTotal(a[1..], b[1..]);
      assert a == [a[0]] + a[1..] && b == [b[0]] + b[1..];
    }
  }

  lemma {:induction false} LessPrefix(l: Key, a: Key, b: Key)
    ensures Less(l + a, l + b) == Less(a, b)
  {
    if l == [] {
      assert l + a == a && l + b == b;
    } else {
      assert (l + a)[1..] == l[1..] + a && (l + b)[1..] == l[1..] + b;
      LessPrefix(l[1..], a, b);
    }
  }

  ghost predicate SortedKeys(ks: seq<Key>) {
    forall i, j :: 0 <= i < j < |ks| ==> Less(ks[i], ks[j])
  }

  function Prefixed(l: Key, ks: seq<Key>): (r: seq<Key>)
    ensures |r| == |ks| && forall i :: 0 <= i < |ks| ==> r[i] == l + ks[i]
  {
    if ks == [] then [] else [l + ks[0]] + Prefixed(l, ks[1..])
  }

  /** All keys of t, parents before children and children in edge order. */
  ghost function Keys(t: Tree): seq<Key>
    requires Shaped(t)
    decreases t, |t.kids| + 1
  {
    (if t.iskey then [[]] else []) + KeysFrom(t, 0)
  }

  /** The keys below the children i, i+1, ... of t. */
  ghost function KeysFrom(t: Tree, i: nat): seq<Key>
    requires Shaped(t) && i <= |t.kids|
    decreases t, |t.kids| - i
  {
    if i == |t.kids| then [] else Prefixed(Label(t, i), Keys(t.kids[i])) + KeysFrom(t, i + 1)
  }

  lemma {:induction false} KeyIff(t: Tree, k: Key)
    requires Shaped(t)
    ensures k in Keys(t) <==> Get(t, k).Some?
    decreases t, |t.kids| + 1
  {
    KeysFromIff(t, 0, k);
  }

  lemma {:induction false} KeysFromIff(t: Tree, i: nat, k: Key)
    requires Shaped(t) && i <= |t.kids|
    ensures k in KeysFrom(t, i) <==> k != [] && i <= Step(t, k) < |t.kids| && Get(t, k).Some?
    decreases t, |t.kids| - i
  {
    if i < |t.kids| {
      var l, ks := Label(t, i), Keys(t.kids[i]);
      KeysFromIff(t, i + 1, k);
      if l <= k {
        StepUnique(t, k, i);
        KeyIff(t.kids[i], k[|l|..]);
        assert k == l + k[|l|..];
        if k[|l|..] in ks {
          var j :| 0 <= j < |ks| && ks[j] == k[|l|..];
          assert Prefixed(l, ks)[j] == k;
        }
      }
      if k in Prefixed(l, ks) {
        var j :| 0 <= j < |ks| && Prefixed(l, ks)[j] == k;
        assert k == l + ks[j];
        assert k[|l|..] == ks[j];
      }
    }
  }

  lemma KeysLess(t: Tree, i: nat, a: Key, b: Key)
    requires Shaped(t) && i < |t.kids| && a in Prefixed(Label(t, i), Keys(t.kids[i])) && b in KeysFrom(t, i + 1)
    ensures Less(a, b)
  {
    KeysFromIff(t, i + 1, b);
    var l, ks := Label(t, i), Keys(t.kids[i]);
    var j :| 0 <= j < |ks| && Prefixed(l, ks)[j] == a;
    assert a == l + ks[j];
    assert a[0] == t.data[i] && b[0] == t.data[Step(t, b)];
  }

  lemma SortedConcat(xs: seq<Key>, ys: seq<Key>)
    requires SortedKeys(xs) && SortedKeys(ys)
    requires forall x, y :: x in xs && y in ys ==> Less(x, y)
    ensures SortedKeys(xs + ys)
  {
    var zs := xs + ys;
    forall a, b | 0 <= a < b < |zs| ensures Less(zs[a], zs[b]) {
      if a < |xs| && |xs| <= b { assert zs[a] in xs && zs[b] in ys; }
    }
  }

  lemma SortedPrefixed(l: Key, ks: seq<Key>)
    requires SortedKeys(ks)
    ensures SortedKeys(Prefixed(l, ks))
  {
    var ps := Prefixed(l, ks);
    forall a, b | 0 <= a < b < |ps| ensures Less(ps[a], ps[b]) { LessPrefix(l, ks[a], ks[b]); }
  }

  /** Preorder is byte order. */
  lemma {:induction false} KeysSorted(t: Tree)
    requires Shaped(t)
    ensures SortedKeys(Keys(t))
    decreases t, |t.kids| + 1
  {
    KeysFromSorted(t, 0);
    forall k | k in KeysFrom(t, 0) ensures Less([], k) { KeysFromIff(t, 0, k); }
    SortedConcat(if t.iskey then [[]] else [], KeysFrom(t, 0));
  }

  lemma {:induction false} KeysFromSorted(t: Tree, i: nat)
    requires Shaped(t) && i <= |t.kids|
    ensures SortedKeys(KeysFrom(t, i))
    decreases t, |t.kids| - i
  {
    if i < |t.kids| {
      KeysFromSorted(t, i + 1);
      KeysSorted(t.kids[i]);
      var ps := Prefixed(Label(t, i), Keys(t.kids[i]));
      SortedPrefixed(Label(t, i), Keys(t.kids[i]));
      forall a, b | a in ps && b in KeysFrom(t, i + 1) ensures Less(a, b) { KeysLess(t, i, a, b); }
      SortedConcat(ps, KeysFrom(t, i + 1));
    }
  }

  lemma {:induction false} KeysCount(t: Tree)
    requires Shaped(t)
    ensures |Keys(t)| == Tally(t, Elements)
    decreases t, |t.kids| + 1
  {
    KeysFromCount(t, 0);
    assert t.kids[0..] == t.kids;
  }

  lemma {:induction false} KeysFromCount(t: Tree, i: nat)
    requires Shaped(t) && i <= |t.kids|
    ensures |KeysFrom(t, i)| == TallyAll(t.kids[i..], Elements)
    decreases t, |t.kids| - i
  {
    if i < |t.kids| {
      KeysCount(t.kids[i]);
      KeysFromCount(t, i + 1);
      assert t.kids[i..][1..] == t.kids[i + 1..];
    }
  }

  // ---------------------------------------------------------------- the finite map

  ghost function KeySet(t: Tree): set<Key>
    requires Shaped(t)
  {
    set k | k in Keys(t)
  }

  /** The map from byte strings to values that the tree stands for. */
  ghost function Dict(t: Tree): map<Key, Ptr>
    requires Shaped(t)
  {
    map k | k in KeySet(t) :: (KeyIff(t, k); Get(t, k).value)
  }

  lemma DictGet(t: Tree, k: Key)
    requires Shaped(t)
    ensures Get(t, k) == if k in Dict(t) then Some(Dict(t)[k]) else None
  {
    KeyIff(t, k);
  }

  lemma {:induction false} SortedSet(ks: seq<Key>)
    requires SortedKeys(ks)
    ensures |set k | k in ks| == |ks|
  {
    if ks != [] {
      var rest := ks[1..];
      SortedSet(rest);
      var S, R := set k | k in ks, set k | k in rest;
      if ks[0] in rest {
        var j :| 0 <= j < |rest| && rest[j] == ks[0];
        LessTotal(ks[0], ks[j + 1]);
      }
      assert S == {ks[0]} + R;
    }
  }

  /** numele counts the entries of the map. */
  lemma DictSize(t: Tree)
    requires Shaped(t)
    ensures |Dict(t)| == Tally(t, Elements)
  {
    KeysSorted(t);
    SortedSet(Keys(t));
    KeysCount(t);
    assert Dict(t).Keys == KeySet(t);
  }

  lemma DictInsert(t: Tree, s: Key, v: Ptr, u: Tree)
    requires Shaped(t) && Shaped(u) && Updated(t, s, Some(v), u)
    ensures Dict(u) == Dict(t)[s := v]
  {
    forall k: Key
      ensures (k in Dict(u) <==> k in Dict(t)[s := v]) && (k in Dict(u) ==> Dict(u)[k] == Dict(t)[s := v][k])
    {
      DictGet(t, k);
      DictGet(u, k);
    }
  }

  lemma DictRemove(t: Tree, s: Key, u: Tree)
    requires Shaped(t) && Shaped(u) && Updated(t, s, None, u)
    ensures Dict(u) == Dict(t) - {s}
  {
    forall k: Key
      ensures (k in Dict(u) <==> k in Dict(t) - {s}) && (k in Dict(u) ==> Dict(u)[k] == (Dict(t) - {s})[k])
    {
      DictGet(t, k);
      DictGet(u, k);
    }
  }
}
