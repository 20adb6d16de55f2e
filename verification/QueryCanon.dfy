/** The canonical query string of make_query (remap/remap_db.c). */
module QueryCanon {
  import opened Common
  import opened Query

  // ---------------------------------------------------------------- the order of strcmp

  predicate Lt(a: Str, b: Str) {
    b != [] && (a == [] || a[0] < b[0] || (a[0] == b[0] && Lt(a[1..], b[1..])))
  }

  /** The order of the first bytes that differ, a proper prefix being less. */
  ghost predicate FirstDiffers(a: Str, b: Str, i: nat) {
    i <= |a| && i < |b| && a[..i] == b[..i] && (i == |a| || a[i] < b[i])
  }

  lemma {:induction false} LtIff(a: Str, b: Str)
    ensures Lt(a, b) <==> exists i: nat :: FirstDiffers(a, b, i)
    decreases |a|
  {
    if a == [] || b == [] || a[0] != b[0] {
      if Lt(a, b) {
        assert FirstDiffers(a, b, 0);
      }
    } else {
      LtIff(a[1..], b[1..]);
      if Lt(a, b) {
        var i: nat :| FirstDiffers(a[1..], b[1..], i);
        assert a[..i + 1] == [a[0]] + a[1..][..i] && b[..i + 1] == [b[0]] + b[1..][..i];
        assert FirstDiffers(a, b, i + 1);
      }
      forall i: nat | FirstDiffers(a, b, i)
        ensures Lt(a, b)
      {
        assert a[1..][..i - 1] == a[..i][1..] && b[1..][..i - 1] == b[..i][1..];
        assert FirstDiffers(a[1..], b[1..], i - 1);
      }
    }
  }

  lemma {:induction false} LtTotal(a: Str, b: Str)
    ensures Lt(a, b) || Lt(b, a) || a == b
    decreases |a|
  {
    if a != [] && b != [] && a[0] == b[0] {
      LtTotal(a[1..], b[1..]);
      assert a == [a[0]] + a[1..] && b == [b[0]] + b[1..];
    }
  }

  lemma {:induction false} LtAsym(a: Str, b: Str)
    ensures !(Lt(a, b) && Lt(b, a))
    decreases |a|
  {
    if a != [] && b != [] {
      LtAsym(a[1..], b[1..]);
    }
  }

  lemma {:induction false} LtTrans(a: Str, b: Str, c: Str)
    requires Lt(a, b) && Lt(b, c)
    ensures Lt(a, c)
    decreases |a|
  {
    if a != [] && a[0] == b[0] == c[0] {
      LtTrans(a[1..], b[1..], c[1..]);
    }
  }

  predicate Le(a: Str, b: Str) { !Lt(b, a) }

  lemma LeTrans(a: Str, b: Str, c: Str)
    requires Le(a, b) && Le(b, c)
    ensures Le(a, c)
  {
    if Lt(c, a) {
      LtTotal(b, c);
      if b != c {
        LtTrans(b, c, a);
      }
    }
  }

  // ---------------------------------------------------------------- sorting

  predicate Sorted(ps: seq<Str>) {
    forall i, j :: 0 <= i < j < |ps| ==> Le(ps[i], ps[j])
  }

  function Insert(p: Str, ps: seq<Str>): seq<Str> {
    if ps == [] || Le(p, ps[0]) then [p] + ps else [ps[0]] + Insert(p, ps[1..])
  }

  /** The sorted list; the order is total, so every sorting function agrees on it. */
  function Sort(ps: seq<Str>): seq<Str> {
    if ps == [] then [] else Insert(ps[0], Sort(ps[1..]))
  }

  lemma {:induction false} InsertBag(p: Str, ps: seq<Str>)
    ensures multiset(Insert(p, ps)) == multiset(ps) + multiset{p}
    decreases |ps|
  {
    if !(ps == [] || Le(p, ps[0])) {
      InsertBag(p, ps[1..]);
      assert ps == [ps[0]] + ps[1..];
    }
  }

  lemma {:induction false} InsertSorts(p: Str, ps: seq<Str>)
    requires Sorted(ps)
    ensures Sorted(Insert(p, ps))
    decreases |ps|
  {
    if ps == [] {
    } else if Le(p, ps[0]) {
      forall j | 0 <= j < |ps|
        ensures Le(p, ps[j])
      {
        if j > 0 {
          LeTrans(p, ps[0], ps[j]);
        }
      }
    } else {
      InsertSorts(p, ps[1..]);
      InsertBag(p, ps[1..]);
      LtAsym(ps[0], p);
      var r := Insert(p, ps[1..]);
      forall j | 0 <= j < |r|
        ensures Le(ps[0], r[j])
      {
        assert r[j] in multiset(r);
        assert r[j] == p || r[j] in ps[1..];
      }
    }
  }

  lemma {:induction false} SortIs(ps: seq<Str>)
    ensures Sorted(Sort(ps)) && multiset(Sort(ps)) == multiset(ps)
    decreases |ps|
  {
    if ps != [] {
      SortIs(ps[1..]);
      InsertSorts(ps[0], Sort(ps[1..]));
      InsertBag(ps[0], Sort(ps[1..]));
      assert ps == [ps[0]] + ps[1..];
    }
  }

  /** There is one sorted order of a bag. */
  lemma {:induction false} SortedUnique(a: seq<Str>, b: seq<Str>)
    requires Sorted(a) && Sorted(b) && multiset(a) == multiset(b)
    ensures a == b
    decreases |a|
  {
    assert |multiset(a)| == |a| && |multiset(b)| == |b|;
    if a != [] {
      HeadSame(a, b);
      assert a == [a[0]] + a[1..] && b == [b[0]] + b[1..];
      assert multiset(a[1..]) == multiset(a) - multiset{a[0]};
      assert multiset(b[1..]) == multiset(b) - multiset{b[0]};
      SortedUnique(a[1..], b[1..]);
    }
  }

  lemma HeadSame(a: seq<Str>, b: seq<Str>)
    requires Sorted(a) && Sorted(b) && multiset(a) == multiset(b) && a != [] && b != []
    ensures a[0] == b[0]
  {
    assert a[0] in multiset(b) && b[0] in multiset(a);
    var i :| 0 <= i < |b| && b[i] == a[0];
    var j :| 0 <= j < |a| && a[j] == b[0];
    assert i > 0 ==> Le(b[0], b[i]);
    assert j > 0 ==> Le(a[0], a[j]);
    LtTotal(a[0], b[0]);
  }

  // ---------------------------------------------------------------- tokens

  predicate Token(p: Str) { p != [] && AMP !in p }

  /** How far the first token goes. */
  function Reach(q: Str): (n: nat)
    ensures n <= |q| && AMP !in q[..n] && (n < |q| ==> q[n] == AMP)
  {
    if q == [] || q[0] == AMP then 0
    else
      var n := 1 + Reach(q[1..]);
      assert q[..n] == [q[0]] + q[1..][..n - 1];
      n
  }

  /** What strtok_r yields: the pieces between ampersands that are not empty. */
  function Tokens(q: Str): (ts: seq<Str>)
    ensures forall i :: 0 <= i < |ts| ==> Token(ts[i])
    decreases |q|
  {
    if q == [] then [] else if q[0] == AMP then Tokens(q[1..]) else [q[..Reach(q)]] + Tokens(q[Reach(q)..])
  }

  /** The tokens with an ampersand after each but the last. */
  function Join(ps: seq<Str>): Str {
    if ps == [] then [] else if |ps| == 1 then ps[0] else ps[0] + [AMP] + Join(ps[1..])
  }

  lemma {:induction false} ReachIs(p: Str, r: Str)
    requires AMP !in p && (r == [] || r[0] == AMP)
    ensures Reach(p + r) == |p|
    decreases |p|
  {
    if p != [] {
      assert (p + r)[1..] == p[1..] + r;
      ReachIs(p[1..], r);
    } else {
      assert p + r == r;
    }
  }

  lemma TokensFirst(p: Str, r: Str)
    requires Token(p) && (r == [] || r[0] == AMP)
    ensures Tokens(p + r) == [p] + Tokens(r)
  {
    ReachIs(p, r);
    assert (p + r)[..|p|] == p && (p + r)[|p|..] == r;
  }

  lemma TokensSkip(q: Str)
    ensures Tokens([AMP] + q) == Tokens(q)
  {
    assert ([AMP] + q)[1..] == q;
  }

  /** Splitting what was joined gives the tokens back. */
  lemma {:induction false} TokensJoin(ps: seq<Str>)
    requires forall i :: 0 <= i < |ps| ==> Token(ps[i])
    ensures Tokens(Join(ps)) == ps
    decreases |ps|
  {
    if |ps| == 1 {
      TokensFirst(ps[0], []);
      assert ps[0] + [] == ps[0];
    } else if |ps| > 1 {
      var j := Join(ps[1..]);
      TokensJoin(ps[1..]);
      TokensFirst(ps[0], [AMP] + j);
      TokensSkip(j);
      assert ps[0] + ([AMP] + j) == Join(ps);
      assert ps == [ps[0]] + ps[1..];
    }
  }

  /** The parameters that are kept. */
  ghost function Filtered(l: Lists, ts: seq<Str>): (r: seq<Str>)
    ensures forall i :: 0 <= i < |r| ==> r[i] in ts && Kept(l, r[i])
  {
    if ts == [] then []
    else
      var n := |ts| - 1;
      Filtered(l, ts[..n]) + if Kept(l, ts[n]) then [ts[n]] else []
  }

  lemma {:induction false} FilteredAll(l: Lists, ts: seq<Str>)
    requires forall i :: 0 <= i < |ts| ==> Kept(l, ts[i])
    ensures Filtered(l, ts) == ts
    decreases |ts|
  {
    if ts != [] {
      FilteredAll(l, ts[..|ts| - 1]);
      assert ts == ts[..|ts| - 1] + [ts[|ts| - 1]];
    }
  }

  /** The kept, not empty parameters of a query. */
  ghost function Params(l: Lists, q: Str): (r: seq<Str>)
    ensures forall i :: 0 <= i < |r| ==> Token(r[i]) && Kept(l, r[i])
  {
    Filtered(l, Tokens(q))
  }

  /** rz_query: absent if no parameter is kept. */
  ghost function Canonical(l: Lists, q: Str): Option<Str> {
    if Params(l, q) == [] then None else Some(Join(Sort(Params(l, q))))
  }

  lemma SortMembers(ps: seq<Str>)
    ensures |Sort(ps)| == |ps| && forall i :: 0 <= i < |Sort(ps)| ==> Sort(ps)[i] in ps
  {
    SortIs(ps);
    var r := Sort(ps);
    assert |multiset(r)| == |r| && |multiset(ps)| == |ps|;
    forall i | 0 <= i < |r|
      ensures r[i] in ps
    {
      assert r[i] in multiset(r);
    }
  }

  /** The tokens of a canonical query are its sorted parameters. */
  lemma TokensCanonical(l: Lists, q: Str)
    ensures Tokens(Join(Sort(Params(l, q)))) == Sort(Params(l, q))
    ensures forall i :: 0 <= i < |Sort(Params(l, q))| ==> Kept(l, Sort(Params(l, q))[i])
  {
    var ps := Params(l, q);
    SortMembers(ps);
    TokensJoin(Sort(ps));
  }

  /** Two queries have the same canonical form exactly when their kept parameters are
      the same bag. */
  lemma CanonicalIff(l: Lists, a: Str, b: Str)
    ensures Canonical(l, a) == Canonical(l, b) <==> multiset(Params(l, a)) == multiset(Params(l, b))
  {
    var x, y := Params(l, a), Params(l, b);
    SortIs(x);
    SortIs(y);
    TokensCanonical(l, a);
    TokensCanonical(l, b);
    assert |multiset(x)| == |x| && |multiset(y)| == |y|;
    if multiset(x) == multiset(y) {
      SortedUnique(Sort(x), Sort(y));
    }
  }

  /** A canonical query is its own canonical form. */
  lemma CanonicalTwice(l: Lists, q: Str)
    ensures Canonical(l, q).Some? ==> Canonical(l, Canonical(l, q).value) == Canonical(l, q)
  {
    var ps := Params(l, q);
    if ps != [] {
      SortIs(ps);
      SortMembers(ps);
      TokensCanonical(l, q);
      var r := Sort(ps);
      FilteredAll(l, r);
      SortIs(r);
      SortedUnique(Sort(r), r);
    }
  }

  // ---------------------------------------------------------------- make_query

  lemma SkipOne(q: Str, i: nat)
    requires i < |q| && q[i] == AMP
    ensures Tokens(q[i..]) == Tokens(q[i + 1..])
  {
    assert q[i..] == [AMP] + q[i + 1..];
    TokensSkip(q[i + 1..]);
  }

  method SkipAmps(q: Str, i: nat) returns (from: nat)
    requires i <= |q|
    ensures i <= from <= |q| && (from < |q| ==> q[from] != AMP) && Tokens(q[i..]) == Tokens(q[from..])
  {
    from := i;
    while from < |q| && q[from] == AMP
      invariant i <= from <= |q| && Tokens(q[i..]) == Tokens(q[from..])
    {
      SkipOne(q, from);
      from := from + 1;
    }
  }

  method TokenEnd(q: Str, from: nat) returns (to: nat)
    requires from < |q| && q[from] != AMP
    ensures from < to <= |q| && (to < |q| ==> q[to] == AMP) && forall i :: from <= i < to ==> q[i] != AMP
  {
    to := from;
    while to < |q| && q[to] != AMP
      invariant from <= to <= |q| && forall i :: from <= i < to ==> q[i] != AMP
    {
      to := to + 1;
    }
  }

  lemma TokenAt(q: Str, from: nat, to: nat)
    requires from < to <= |q| && (to < |q| ==> q[to] == AMP) && forall i :: from <= i < to ==> q[i] != AMP
    ensures Token(q[from..to]) && Tokens(q[from..]) == [q[from..to]] + Tokens(q[to..])
  {
    assert q[from..] == q[from..to] + q[to..];
    TokensFirst(q[from..to], q[to..]);
  }

  /** strtok_r from position i: the next token, if there is one. */
  method NextToken(q: Str, i: nat) returns (from: nat, to: nat)
    requires i <= |q|
    ensures i <= from <= to <= |q| && (from == to ==> Tokens(q[i..]) == [])
    ensures from < to ==> Token(q[from..to]) && Tokens(q[i..]) == [q[from..to]] + Tokens(q[to..])
  {
    from := SkipAmps(q, i);
    to := from;
    if from < |q| {
      to := TokenEnd(q, from);
      TokenAt(q, from, to);
    } else {
      assert q[from..] == [];
    }
  }

  lemma FilteredMore(l: Lists, ts: seq<Str>, p: Str)
    ensures Filtered(l, ts + [p]) == Filtered(l, ts) + if Kept(l, p) then [p] else []
  {
    assert (ts + [p])[..|ts|] == ts;
  }

  /** The loop that collects the parameters. */
  method Collect(l: Lists, q: Str) returns (ps: seq<Str>)
    requires ReadableLists(l)
    ensures ps == Params(l, q)
  {
    ps := [];
    ghost var done: seq<Str> := [];
    var i := 0;
    assert q[0..] == q;
    while i < |q|
      invariant 0 <= i <= |q| && done + Tokens(q[i..]) == Tokens(q) && ps == Filtered(l, done)
    {
      var from, to := NextToken(q, i);
      if from == to {
        break;
      }
      var p := q[from..to];
      var keep := KeepParameter(l, p);
      FilteredMore(l, done, p);
      assert done + ([p] + Tokens(q[to..])) == done + [p] + Tokens(q[to..]);
      if keep {
        ps := ps + [p];
      }
      done := done + [p];
      i := to;
    }
    assert Tokens(q[i..]) == [];
    assert done + [] == done;
  }

  /** Joins the parameters: each is followed by an ampersand, and the last is cut. */
  method Concatenate(ps: seq<Str>) returns (r: Str)
    requires ps != []
    ensures r == Join(ps)
  {
    r := [];
    var i := 0;
    assert ps[0..] == ps;
    while i < |ps|
      invariant 0 <= i <= |ps| && r + Join(ps[i..]) == Join(ps) + if i == |ps| then [AMP] else []
    {
      assert ps[i..][1..] == ps[i + 1..];
      r := r + ps[i] + [AMP];
      i := i + 1;
    }
    assert r + [] == r;
    r := r[..|r| - 1];
  }

  /** make_query. */
  method MakeQuery(l: Lists, q: Str) returns (r: Option<Str>)
    requires ReadableLists(l)
    ensures r == Canonical(l, q)
  {
    var ps := Collect(l, q);
    if |ps| == 0 {
      return None;
    }
    SortMembers(ps);
    var joined := Concatenate(Sort(ps));
    r := Some(joined);
  }
}
