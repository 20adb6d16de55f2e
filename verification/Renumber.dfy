/** Renumbering by first occurrence, as RemapBlockIds, ClusterBlocks and
    BrotliHistogramReindex do it (contrib/brotli/enc/block_splitter_inc.h and
    contrib/brotli/enc/cluster_inc.h). */
module Renumber {
  import opened Common

  /** The values of s in the order in which they first occur. */
  function Firsts(s: seq<nat>): seq<nat> {
    if s == [] then []
    else
      var f, x := Firsts(s[..|s| - 1]), s[|s| - 1];
      if x in f then f else f + [x]
  }

  predicate Distinct(f: seq<nat>) {
    forall i, j :: 0 <= i < j < |f| ==> f[i] != f[j]
  }

  lemma {:induction false} FirstsDistinct(s: seq<nat>)
    ensures Distinct(Firsts(s))
    decreases |s|
  {
    if s != [] {
      FirstsDistinct(s[..|s| - 1]);
    }
  }

  lemma {:induction false} FirstsMembers(s: seq<nat>)
    ensures forall v :: v in Firsts(s) <==> v in s
    decreases |s|
  {
    if s != [] {
      FirstsMembers(s[..|s| - 1]);
      assert s == s[..|s| - 1] + [s[|s| - 1]];
    }
  }

  lemma FirstsNext(s: seq<nat>, i: nat)
    requires i < |s|
    ensures Firsts(s[..i + 1]) == if s[i] in Firsts(s[..i]) then Firsts(s[..i]) else Firsts(s[..i]) + [s[i]]
  {
    assert s[..i + 1][..i] == s[..i];
  }

  /** t is s with every value replaced by its place in f. */
  predicate Places(s: seq<nat>, t: seq<nat>, f: seq<nat>) {
    |t| == |s| && forall i :: 0 <= i < |s| ==> t[i] < |f| && f[t[i]] == s[i]
  }

  lemma PlacesShorter(s: seq<nat>, t: seq<nat>, f: seq<nat>, g: seq<nat>, x: nat)
    requires Places(s, t, g) && Distinct(g) && (g == f || g == f + [x]) && forall i :: 0 <= i < |s| ==> s[i] in f
    ensures Places(s, t, f)
  {
    forall i | 0 <= i < |s|
      ensures t[i] < |f| && f[t[i]] == s[i]
    {
      assert s[i] in f;
      var k :| 0 <= k < |f| && f[k] == s[i];
      assert g[k] == g[t[i]];
    }
  }

  /** A part of a renumbered sequence is renumbered by its own first occurrences. */
  lemma PlacesPrefix(s: seq<nat>, t: seq<nat>)
    requires s != [] && Places(s, t, Firsts(s))
    ensures Places(s[..|s| - 1], t[..|s| - 1], Firsts(s[..|s| - 1]))
  {
    var s', t', x := s[..|s| - 1], t[..|s| - 1], s[|s| - 1];
    FirstsMembers(s');
    FirstsDistinct(s);
    PlacesShorter(s', t', Firsts(s'), Firsts(s), x);
  }

  /** In a renumbered sequence the first occurrences are 0, 1, 2, ... */
  lemma {:induction false} FirstsCanonical(s: seq<nat>, t: seq<nat>)
    requires Places(s, t, Firsts(s))
    ensures Firsts(t) == Identity(|Firsts(s)|)
    decreases |s|
  {
    if s != [] {
      PlacesPrefix(s, t);
      FirstsCanonical(s[..|s| - 1], t[..|s| - 1]);
      FirstsDistinct(s);
      var n, x := |Firsts(s[..|s| - 1])|, t[|s| - 1];
      assert x in Identity(n) <==> x < n by {
        assert x < n ==> Identity(n)[x] == x;
      }
    }
  }

  /** The table of new numbers while the values f have been met. */
  ghost predicate Table(newId: seq<nat>, f: seq<nat>, invalid: nat) {
    Distinct(f) && |f| <= |newId| <= invalid && (forall j :: 0 <= j < |f| ==> f[j] < |newId|) &&
    forall v :: 0 <= v < |newId| ==> if newId[v] == invalid then v !in f else newId[v] < |f| && f[newId[v]] == v
  }

  /** Distinct values below n are at most n. */
  lemma {:induction false} AtMost(f: seq<nat>, n: nat)
    requires Distinct(f) && forall j :: 0 <= j < |f| ==> f[j] < n
    ensures |f| <= n
    decreases n
  {
    assert f == [] || f[0] < n;
    if n > 0 {
      if k :| 0 <= k < |f| && f[k] == n - 1 {
        var g := f[..k] + f[k + 1..];
        forall j | 0 <= j < |g|
          ensures g[j] == f[if j < k then j else j + 1] && g[j] < n - 1
        {
        }
        AtMost(g, n - 1);
      } else {
        AtMost(f, n - 1);
      }
    }
  }

  lemma TableGrows(newId: seq<nat>, f: seq<nat>, invalid: nat, v: nat)
    requires Table(newId, f, invalid) && v < |newId| && newId[v] == invalid
    ensures Table(newId[v := |f|], f + [v], invalid)
  {
    var g := f + [v];
    AtMost(g, |newId|);
  }

  /** Numbers the value v if it is new. */
  method Meet(newId: array<nat>, v: nat, n0: nat, invalid: nat, ghost f: seq<nat>) returns (n: nat)
    requires Table(newId[..], f, invalid) && v < newId.Length && n0 == |f|
    modifies newId
    ensures Table(newId[..], if v in f then f else f + [v], invalid) && n == if v in f then |f| else |f| + 1
  {
    ghost var t := newId[..];
    n := n0;
    if newId[v] == invalid {
      TableGrows(t, f, invalid, v);
      newId[v] := n;
      assert newId[..] == t[v := n0];
      n := n + 1;
    } else {
      assert f[t[v]] == v;
    }
  }

  /** The first loop of RemapBlockIds and of BrotliHistogramReindex. */
  method Number(ids: array<nat>, newId: array<nat>, invalid: nat) returns (n: nat)
    requires ids != newId && newId.Length <= invalid && forall i :: 0 <= i < ids.Length ==> ids[i] < newId.Length
    modifies newId
    ensures Table(newId[..], Firsts(ids[..]), invalid) && n == |Firsts(ids[..])|
  {
    for i := 0 to newId.Length
      invariant forall j :: 0 <= j < i ==> newId[j] == invalid
    {
      newId[i] := invalid;
    }
    n := 0;
    ghost var s := ids[..];
    assert Table(newId[..], Firsts(s[..0]), invalid);
    for i := 0 to ids.Length
      invariant ids[..] == s && Table(newId[..], Firsts(s[..i]), invalid) && n == |Firsts(s[..i])|
    {
      FirstsNext(s, i);
      n := Meet(newId, ids[i], n, invalid, Firsts(s[..i]));
    }
    assert s[..ids.Length] == s;
  }

  /** The table sends each value of s to its place in f. */
  predicate Sends(newId: seq<nat>, s: seq<nat>, f: seq<nat>) {
    forall i {:trigger s[i]} :: 0 <= i < |s| ==> s[i] < |newId| && newId[s[i]] < |f| && f[newId[s[i]]] == s[i]
  }

  lemma TableSends(newId: seq<nat>, s: seq<nat>, invalid: nat)
    requires Table(newId, Firsts(s), invalid)
    ensures Sends(newId, s, Firsts(s)) && |Firsts(s)| <= |newId|
  {
    FirstsMembers(s);
    forall i | 0 <= i < |s|
      ensures s[i] < |newId| && newId[s[i]] < |Firsts(s)| && Firsts(s)[newId[s[i]]] == s[i]
    {
      assert s[i] in Firsts(s);
    }
  }

  /** Replaces each id by its number, stored in a byte. */
  method Replace(ids: array<nat>, newId: array<nat>, ghost f: seq<nat>)
    requires ids != newId && Sends(newId[..], ids[..], f) && |f| <= 256
    modifies ids
    ensures Places(old(ids[..]), ids[..], f)
  {
    ghost var s := ids[..];
    for i := 0 to ids.Length
      invariant forall j :: i <= j < ids.Length ==> ids[j] == s[j]
      invariant forall j :: 0 <= j < i ==> ids[j] < |f| && f[ids[j]] == s[j]
    {
      ids[i] := newId[ids[i]] % 256;
    }
  }

  /** RemapBlockIds: the ids are renumbered by first occurrence. */
  method RemapBlockIds(ids: array<nat>, newId: array<nat>) returns (n: nat)
    requires ids != newId && newId.Length <= 256 && forall i :: 0 <= i < ids.Length ==> ids[i] < newId.Length
    modifies ids, newId
    ensures Places(old(ids[..]), ids[..], Firsts(old(ids[..]))) && n == |Firsts(old(ids[..]))| <= newId.Length
    ensures Firsts(ids[..]) == Identity(n)
  {
    ghost var s := ids[..];
    n := Number(ids, newId, 256);
    TableSends(newId[..], s, 256);
    assert ids[..] == s;
    Replace(ids, newId, Firsts(s));
    FirstsCanonical(s, ids[..]);
  }

  lemma {:induction false} FirstsPrefix(s: seq<nat>, i: nat)
    requires i <= |s|
    ensures Firsts(s[..i]) <= Firsts(s)
    decreases |s| - i
  {
    if i < |s| {
      FirstsNext(s, i);
      FirstsPrefix(s, i + 1);
    } else {
      assert s[..i] == s;
    }
  }

  /** The number of s[i] is the count of values met before exactly when s[i] is new. */
  lemma NewAt(s: seq<nat>, i: nat, k: nat)
    requires i < |s| && k < |Firsts(s)| && Firsts(s)[k] == s[i]
    ensures k == |Firsts(s[..i])| <==> s[i] !in Firsts(s[..i])
  {
    FirstsDistinct(s);
    FirstsPrefix(s, i);
    FirstsPrefix(s, i + 1);
    FirstsNext(s, i);
    if s[i] in Firsts(s[..i]) {
      var j :| 0 <= j < |Firsts(s[..i])| && Firsts(s[..i])[j] == s[i];
      assert Firsts(s)[j] == s[i];
    } else {
      assert Firsts(s)[|Firsts(s[..i])|] == s[i];
    }
  }

  lemma CarryStep(s: seq<nat>, i: nat, k: nat)
    requires i < |s| && k < |Firsts(s)| && Firsts(s)[k] == s[i]
    ensures |Firsts(s[..i + 1])| == |Firsts(s[..i])| + (if k == |Firsts(s[..i])| then 1 else 0) <= |Firsts(s)|
  {
    NewAt(s, i, k);
    FirstsNext(s, i);
    FirstsPrefix(s, i + 1);
  }

  /** c[i] values are met before position i: a value is new exactly when its number
      is that count. */
  ghost predicate Counting(s: seq<nat>, t: seq<nat>, f: seq<nat>, c: seq<nat>) {
    |c| == |s| + 1 && c[0] == 0 && c[|s|] == |f| &&
    forall i :: 0 <= i < |s| ==> s[i] < |t| && c[i + 1] == c[i] + (if t[s[i]] == c[i] then 1 else 0) <= |f|
  }

  lemma Count(s: seq<nat>, t: seq<nat>) returns (c: seq<nat>)
    requires Sends(t, s, Firsts(s))
    ensures Counting(s, t, Firsts(s), c)
  {
    c := seq(|s| + 1, i requires 0 <= i <= |s| => |Firsts(s[..i])|);
    assert s[..|s|] == s;
    forall i | 0 <= i < |s|
      ensures s[i] < |t| && c[i + 1] == c[i] + (if t[s[i]] == c[i] then 1 else 0) <= |Firsts(s)|
    {
      CarryStep(s, i, t[s[i]]);
    }
  }

  /** The second loop of BrotliHistogramReindex. */
  method Carry<T>(out: array<T>, symbols: array<nat>, newIndex: array<nat>, tmp: array<T>, ghost f: seq<nat>)
    returns (n: nat)
    requires symbols != newIndex && symbols as object != out && symbols as object != tmp
    requires newIndex as object != tmp && out != tmp && newIndex.Length <= out.Length
    requires f == Firsts(symbols[..]) && Sends(newIndex[..], symbols[..], f) && tmp.Length == |f|
    modifies symbols, tmp
    ensures n == |f| && Places(old(symbols[..]), symbols[..], f)
    ensures forall j :: 0 <= j < n ==> f[j] < out.Length && tmp[j] == out[f[j]]
    ensures out[..] == old(out[..])
  {
    ghost var s, o, t := symbols[..], out[..], newIndex[..];
    ghost var c := Count(s, t);
    n := 0;
    for i := 0 to symbols.Length
      invariant n == c[i] <= |f| && out[..] == o && newIndex[..] == t
      invariant forall j :: 0 <= j < i ==> symbols[j] == t[s[j]]
      invariant forall j :: i <= j < symbols.Length ==> symbols[j] == s[j]
      invariant forall j :: 0 <= j < n ==> f[j] < |o| && tmp[j] == o[f[j]]
    {
      assert symbols[i] == s[i];
      if newIndex[symbols[i]] == n {
        tmp[n] := out[symbols[i]];
        n := n + 1;
      }
      symbols[i] := newIndex[symbols[i]];
    }
    assert forall j :: 0 <= j < symbols.Length ==> f[t[s[j]]] == s[j];
  }

  /** What stands at s[i] in o stands at t[i] in o'. */
  predicate Follows<T(==)>(s: seq<nat>, t: seq<nat>, o: seq<T>, o': seq<T>) {
    |s| == |t| && forall i :: 0 <= i < |s| ==> t[i] < |o'| && s[i] < |o| && o'[t[i]] == o[s[i]]
  }

  lemma Carried<T>(s: seq<nat>, t: seq<nat>, f: seq<nat>, o: seq<T>, o': seq<T>)
    requires Places(s, t, f) && |f| <= |o'| && forall j :: 0 <= j < |f| ==> f[j] < |o| && o'[j] == o[f[j]]
    ensures Follows(s, t, o, o')
  {
  }

  /** BrotliHistogramReindex: a bijection from the values of symbols onto 0..n, in
      order of first occurrence, that carries the histograms along. */
  method HistogramReindex<T(0)>(out: array<T>, symbols: array<nat>) returns (n: nat)
    requires symbols as object != out && symbols.Length <= out.Length && symbols.Length < 0xFFFF_FFFF
    requires forall i :: 0 <= i < symbols.Length ==> symbols[i] < symbols.Length
    modifies out, symbols
    ensures n == |Firsts(old(symbols[..]))| <= out.Length && Firsts(symbols[..]) == Identity(n)
    ensures Places(old(symbols[..]), symbols[..], Firsts(old(symbols[..])))
    ensures Follows(old(symbols[..]), symbols[..], old(out[..]), out[..])
    ensures forall j :: n <= j < out.Length ==> out[j] == old(out[j])
  {
    ghost var s, f, o := symbols[..], Firsts(symbols[..]), out[..];
    var newIndex := new nat[symbols.Length];
    assert newIndex as object != out;
    n := Number(symbols, newIndex, 0xFFFF_FFFF);
    assert out[..] == o && symbols[..] == s;
    var tmp := new T[n];
    assert out[..] == o && symbols[..] == s;
    TableSends(newIndex[..], s, 0xFFFF_FFFF);
    n := Carry(out, symbols, newIndex, tmp, f);
    ghost var r := symbols[..];
    FirstsCanonical(s, r);
    StoreBack(out, tmp, s, r, f);
    assert symbols[..] == r;
  }

  /** The histograms are put back in their new places. */
  method StoreBack<T>(out: array<T>, tmp: array<T>, ghost s: seq<nat>, ghost r: seq<nat>, ghost f: seq<nat>)
    requires out != tmp && tmp.Length == |f| <= out.Length && Places(s, r, f)
    requires forall j :: 0 <= j < |f| ==> f[j] < out.Length && tmp[j] == out[f[j]]
    modifies out
    ensures Follows(s, r, old(out[..]), out[..]) && forall j :: |f| <= j < out.Length ==> out[j] == old(out[j])
  {
    ghost var o := out[..];
    Store(out, tmp);
    Carried(s, r, f, o, out[..]);
  }

  method Store<T>(out: array<T>, tmp: array<T>)
    requires out != tmp && tmp.Length <= out.Length
    modifies out
    ensures forall j :: 0 <= j < out.Length ==> out[j] == if j < tmp.Length then tmp[j] else old(out[j])
  {
    for i := 0 to tmp.Length
      invariant forall j :: 0 <= j < out.Length ==> out[j] == if j < i then tmp[j] else old(out[j])
    {
      out[i] := tmp[i];
    }
  }
}
