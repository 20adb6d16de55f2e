/** The context-map codec: move-to-front and the coding of zero runs
    (contrib/brotli/enc/brotli_bit_stream.c), against section 7.3 of RFC 7932. */
module ContextMap {
  import opened Common

  // ---------------------------------------------------------------- move to front

  function Front(l: seq<nat>, k: nat): (r: seq<nat>)
    requires k < |l|
    ensures |r| == |l|
    ensures forall j :: 0 <= j < |l| ==> r[j] == if j == 0 then l[k] else if j <= k then l[j - 1] else l[j]
  {
    [l[k]] + l[..k] + l[k + 1..]
  }

  /** The values that indices w stand for when l is the list of values at the start. */
  function Inverse(w: seq<nat>, l: seq<nat>): seq<nat>
    requires forall i :: 0 <= i < |w| ==> w[i] < |l|
  {
    if w == [] then [] else [l[w[0]]] + Inverse(w[1..], Front(l, w[0]))
  }

  /** A decoder starts from the list 0..255. */
  function FromIndices(w: seq<nat>): seq<nat>
    requires forall i :: 0 <= i < |w| ==> w[i] < 256
  {
    Inverse(w, Identity(256))
  }

  /** Values behind the ones that are used make no difference. */
  lemma {:induction false} LongerList(w: seq<nat>, l: seq<nat>, more: seq<nat>)
    requires forall i :: 0 <= i < |w| ==> w[i] < |l|
    ensures Inverse(w, l + more) == Inverse(w, l)
    decreases |w|
  {
    if w != [] {
      LongerList(w[1..], Front(l, w[0]), more);
      assert Front(l + more, w[0]) == Front(l, w[0]) + more;
    }
  }

  predicate Permutes(l: seq<nat>, n: nat) {
    |l| == n && forall x :: 0 <= x < n ==> x in l
  }

  lemma FrontPermutes(l: seq<nat>, k: nat, n: nat)
    requires Permutes(l, n) && k < n
    ensures Permutes(Front(l, k), n)
  {
    forall x | 0 <= x < n
      ensures x in Front(l, k)
    {
      assert x in l;
      var j :| 0 <= j < |l| && l[j] == x;
      assert Front(l, k)[if j < k then j + 1 else if j == k then 0 else j] == x;
    }
  }

  method IndexOf(v: array<nat>, size: nat, value: nat) returns (i: nat)
    requires size <= v.Length
    ensures i <= size && value !in v[..i] && (i < size ==> v[i] == value)
  {
    i := 0;
    while i < size
      invariant i <= size && value !in v[..i]
    {
      if v[i] == value {
        return;
      }
      i := i + 1;
    }
  }

  /** The loop of MoveToFront: the values before the index move up by one. */
  method MoveUp(v: array<nat>, index: nat)
    requires index < v.Length
    modifies v
    ensures forall j :: 0 < j <= index ==> v[j] == old(v[j - 1])
    ensures forall j :: index < j < v.Length ==> v[j] == old(v[j])
  {
    var i := index;
    while i != 0
      invariant 0 <= i <= index
      invariant forall j :: 0 <= j <= i ==> v[j] == old(v[j])
      invariant forall j :: i < j <= index ==> v[j] == old(v[j - 1])
      invariant forall j :: index < j < v.Length ==> v[j] == old(v[j])
    {
      v[i] := v[i - 1];
      i := i - 1;
    }
  }

  method MoveToFront(v: array<nat>, index: nat, ghost l: seq<nat>)
    requires index < |l| <= v.Length && v[..|l|] == l
    modifies v
    ensures v[..|l|] == Front(l, index)
  {
    var value := v[index];
    assert forall j :: 0 <= j < |l| ==> v[j] == l[j];
    MoveUp(v, index);
    v[0] := value;
    assert forall j :: 0 <= j < |l| ==> v[j] == Front(l, index)[j];
  }

  /** The largest value. */
  method MaxValue(v: array<nat>) returns (m: nat)
    requires 0 < v.Length
    ensures forall i :: 0 <= i < v.Length ==> v[i] <= m
    ensures exists i :: 0 <= i < v.Length && v[i] == m
  {
    m := v[0];
    for i := 1 to v.Length
      invariant forall j :: 0 <= j < i ==> v[j] <= m
      invariant exists j :: 0 <= j < i && v[j] == m
    {
      if v[i] > m {
        m := v[i];
      }
    }
  }

  /** What is left to code: the indices so far, followed by any that stand for the
      other values, stand for the whole. */
  ghost predicate Coded(vin: seq<nat>, i: nat, w: seq<nat>, l: seq<nat>, start: seq<nat>) {
    i == |w| <= |vin| && Indices(w, |start|) && |l| == |start| &&
    forall u :: Indices(u, |start|) ==> Inverse(w + u, start) == vin[..i] + Inverse(u, l)
  }

  predicate Indices(w: seq<nat>, n: nat) {
    forall i :: 0 <= i < |w| ==> w[i] < n
  }

  lemma InverseFirst(k: nat, u: seq<nat>, l: seq<nat>)
    requires k < |l| && Indices(u, |l|)
    ensures Indices([k] + u, |l|) && Inverse([k] + u, l) == [l[k]] + Inverse(u, Front(l, k))
  {
    assert ([k] + u)[1..] == u;
  }

  lemma CodedNext(vin: seq<nat>, i: nat, w: seq<nat>, l: seq<nat>, start: seq<nat>, k: nat)
    requires Coded(vin, i, w, l, start) && i < |vin| && k < |l| && l[k] == vin[i]
    ensures Coded(vin, i + 1, w + [k], Front(l, k), start)
  {
    forall u | Indices(u, |start|)
      ensures Indices(w + [k] + u, |start|)
      ensures Inverse(w + [k] + u, start) == vin[..i + 1] + Inverse(u, Front(l, k))
    {
      CodedWith(vin, i, w, l, start, k, u);
    }
  }

  lemma CodedWith(vin: seq<nat>, i: nat, w: seq<nat>, l: seq<nat>, start: seq<nat>, k: nat, u: seq<nat>)
    requires Coded(vin, i, w, l, start) && i < |vin| && k < |l| && l[k] == vin[i] && Indices(u, |start|)
    ensures Indices(w + [k] + u, |start|)
    ensures Inverse(w + [k] + u, start) == vin[..i + 1] + Inverse(u, Front(l, k))
  {
    var ku := [k] + u;
    InverseFirst(k, u, l);
    assert Inverse(w + ku, start) == vin[..i] + Inverse(ku, l);
    Regroup(vin, i, Inverse(u, Front(l, k)));
    Associate(w, k, u);
  }

  lemma Associate(w: seq<nat>, k: nat, u: seq<nat>)
    ensures w + [k] + u == w + ([k] + u)
  {
  }

  lemma Regroup(s: seq<nat>, i: nat, r: seq<nat>)
    requires i < |s|
    ensures s[..i] + ([s[i]] + r) == s[..i + 1] + r
  {
  }

  lemma IdentityPermutes(n: nat)
    ensures Permutes(Identity(n), n) && forall u: seq<nat> :: [] + u == u
  {
    forall x | 0 <= x < n
      ensures x in Identity(n)
    {
      assert Identity(n)[x] == x;
    }
  }

  method InitList(mtf: array<nat>, size: nat)
    requires size <= mtf.Length
    modifies mtf
    ensures mtf[..size] == Identity(size)
  {
    for i := 0 to size
      invariant forall j :: 0 <= j < i ==> mtf[j] == j
    {
      mtf[i] := i;
    }
  }

  /** Finds x in the list and moves it to the front. */
  method CodeOne(x: nat, mtf: array<nat>, size: nat, ghost l: seq<nat>) returns (index: nat)
    requires size <= mtf.Length && mtf[..size] == l && Permutes(l, size) && x < size
    modifies mtf
    ensures index < size && l[index] == x && mtf[..size] == Front(l, index) && Permutes(Front(l, index), size)
  {
    assert x in l;
    index := IndexOf(mtf, size, x);
    assert mtf[..size][..size] == l;
    FrontPermutes(l, index, size);
    MoveToFront(mtf, index, l);
  }

  /** The coding loop of MoveToFrontTransform. */
  method CodeAll(vin: array<nat>, vout: array<nat>, mtf: array<nat>, size: nat, ghost s: seq<nat>)
    returns (ghost w: seq<nat>, ghost l: seq<nat>)
    requires vin != vout && mtf != vin && mtf != vout && vin.Length <= vout.Length && size <= mtf.Length
    requires vin[..] == s && mtf[..size] == Identity(size) && forall i :: 0 <= i < |s| ==> s[i] < size
    modifies vout, mtf
    ensures Coded(s, |s|, w, l, Identity(size)) && vout[..|s|] == w
  {
    l, w := Identity(size), [];
    IdentityPermutes(size);
    assert Coded(s, 0, w, l, Identity(size));
    for i := 0 to vin.Length
      invariant vin[..] == s && Permutes(l, size) && mtf[..size] == l
      invariant |w| == i && forall j :: 0 <= j < i ==> vout[j] == w[j]
      invariant Coded(s, i, w, l, Identity(size))
    {
      var x := vin[i];
      assert x == s[i];
      var index := CodeOne(x, mtf, size, l);
      CodedNext(s, i, w, l, Identity(size), index);
      vout[i] := index;
      w, l := w + [index], Front(l, index);
    }
  }

  /** MoveToFrontTransform: the inverse transform of the decoder undoes it. */
  method MoveToFrontTransform(vin: array<nat>, vout: array<nat>)
    requires vin != vout && vin.Length <= vout.Length && forall i :: 0 <= i < vin.Length ==> vin[i] < 256
    modifies vout
    ensures Indices(vout[..vin.Length], 256) && FromIndices(vout[..vin.Length]) == vin[..]
  {
    if vin.Length == 0 {
      return;
    }
    ghost var s := vin[..];
    var max := MaxValue(vin);
    var mtf := new nat[256];
    InitList(mtf, max + 1);
    assert vin[..] == s;
    ghost var w, l := CodeAll(vin, vout, mtf, max + 1, s);
    Finish(s, w, l, max + 1);
    assert vin[..] == s;
  }

  lemma Finish(s: seq<nat>, w: seq<nat>, l: seq<nat>, size: nat)
    requires Coded(s, |s|, w, l, Identity(size)) && size <= 256
    ensures Indices(w, 256) && FromIndices(w) == s
  {
    assert Indices([], size) && w + [] == w && s[..|s|] == s;
    var more := seq(256 - size, i => size + i);
    LongerList(w, Identity(size), more);
    assert Identity(size) + more == Identity(256);
  }
}
