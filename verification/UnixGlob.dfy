/** UNIX globs, as section 2.13.1 of the Shell Command Language of POSIX.1-2017 reads them
    in the C locale, and when the patterns of strmatch mean the same. */
module UnixGlob {
  import opened Common
  import opened StrMatch

  // ---------------------------------------------------------------- what a UNIX glob means

  predicate Listed(c: bv8, rs: seq<(bv8, bv8)>) {
    exists i :: 0 <= i < |rs| && rs[i].0 <= c <= rs[i].1
  }

  /** Upper and lower case differ, and bytes are compared as unsigned. */
  predicate UnixMatches(x: Item, c: bv8) {
    match x
    case Star => false
    case Any => true
    case Lit(d) => d == c
    case Class(negate, rs) => Listed(c, rs) != negate
    case Never => false
  }

  /** Glob for any way to match one byte. */
  ghost predicate GlobBy(s: seq<bv8>, p: seq<Item>, m: (Item, bv8) -> bool)
    decreases |p|
  {
    if p == [] then s == []
    else if p[0].Star? then exists k :: 0 <= k <= |s| && GlobBy(s[k..], p[1..], m)
    else s != [] && m(p[0], s[0]) && GlobBy(s[1..], p[1..], m)
  }

  /** The start of a character class, a collating symbol or an equivalence class. */
  predicate Named(q: seq<bv8>) {
    |q| >= 2 && q[0] == BRACKET && (q[1] == 58 || q[1] == 46 || q[1] == 61)
  }

  /** The next range of a bracket expression.  A dash before the closing bracket is a dash.
      Nothing is said here about what Named starts. */
  function UnixPiece(q: seq<bv8>): (r: Piece)
    requires q != []
    ensures r.Piece? ==> 0 < r.n < |q|
  {
    if Named(q) then Beyond
    else if q[0] == ESCAPE && |q| == 1 then Unfinished
    else
      var n := if q[0] == ESCAPE then 2 else 1;
      var c := q[n - 1];
      if n == |q| then Unfinished
      else if q[n] != DASH then Piece(c, c, n)
      else if n + 1 == |q| then Unfinished
      else if q[n + 1] == CLOSE then Piece(c, c, n)
      else if Named(q[n + 1..]) then Beyond
      else if q[n + 1] != ESCAPE then (if n + 2 == |q| then Unfinished else Piece(c, q[n + 1], n + 2))
      else if n + 3 >= |q| then Unfinished
      else Piece(c, q[n + 2], n + 3)
  }

  /** The bytes of a bracket expression up to the closing one, which is not the first. */
  function UnixRanges(q: seq<bv8>, first: bool): (b: Bracket)
    ensures b.Closed? ==> 0 < b.size <= |q|
    decreases |q|
  {
    if q == [] then Open
    else if q[0] == CLOSE && !first then Closed([], 1)
    else
      match UnixPiece(q)
      case Unfinished => Open
      case Beyond => Outside
      case Piece(lo, hi, n) => Then((lo, hi), n, UnixRanges(q[n..], false))
  }

  /** The bytes before the list of a bracket expression. */
  function Skip(p: seq<bv8>): nat
    requires p != []
  {
    if Negates(p[1..]) then 2 else 1
  }

  predicate Ordered(rs: seq<(bv8, bv8)>) {
    forall i :: 0 <= i < |rs| ==> rs[i].0 <= rs[i].1
  }

  /** The items of a UNIX glob, or none where POSIX leaves open what they are: a backslash
      at the end and a range that ends before it starts.  A bracket that is not closed is
      itself. */
  function UnixLex(p: seq<bv8>): Option<seq<Item>>
    decreases |p|
  {
    if p == [] then Some([])
    else if p[0] == ANY then Prepend(Any, UnixLex(p[1..]))
    else if p[0] == STAR then Prepend(Star, UnixLex(p[1..]))
    else if p[0] == BRACKET then
      var b := UnixRanges(p[Skip(p)..], true);
      if b.Open? then Prepend(Lit(BRACKET), UnixLex(p[1..]))
      else if b.Outside? || !Ordered(b.ranges) then None
      else Prepend(Class(Skip(p) == 2, b.ranges), UnixLex(p[Skip(p) + b.size..]))
    else if p[0] == ESCAPE && |p| == 1 then None
    else if p[0] == ESCAPE then Prepend(Lit(p[1]), UnixLex(p[2..]))
    else Prepend(Lit(p[0]), UnixLex(p[1..]))
  }

  // ---------------------------------------------------------------- sequences of items

  lemma {:induction false} GlobIs(s: seq<bv8>, p: seq<Item>)
    ensures Glob(s, p) <==> GlobBy(s, p, Matches)
    decreases |p|
  {
    if p != [] {
      if p[0].Star? {
        forall k | 0 <= k <= |s|
          ensures Glob(s[k..], p[1..]) <==> GlobBy(s[k..], p[1..], Matches)
        {
          GlobIs(s[k..], p[1..]);
        }
      } else if s != [] {
        GlobIs(s[1..], p[1..]);
      }
    }
  }

  /** Some item matches no byte. */
  ghost predicate Void(p: seq<Item>, m: (Item, bv8) -> bool) {
    exists i :: 0 <= i < |p| && Barren(p[i], m)
  }

  ghost predicate Barren(x: Item, m: (Item, bv8) -> bool) {
    !x.Star? && forall c :: !m(x, c)
  }

  lemma BarrenAt(x: Item, m: (Item, bv8) -> bool, c: bv8)
    requires Barren(x, m)
    ensures !m(x, c)
  {
  }

  /** The bytes a match has at least. */
  function Width(p: seq<Item>): nat {
    if p == [] then 0 else Width(p[1..]) + if p[0].Star? then 0 else 1
  }

  lemma VoidTail(p: seq<Item>, m: (Item, bv8) -> bool)
    requires p != []
    ensures Void(p, m) <==> Barren(p[0], m) || Void(p[1..], m)
  {
    if Void(p[1..], m) {
      var i :| 0 <= i < |p[1..]| && Barren(p[1..][i], m);
      assert Barren(p[i + 1], m);
    }
    if Void(p, m) && !Barren(p[0], m) {
      var i :| 0 <= i < |p| && Barren(p[i], m);
      assert Barren(p[1..][i - 1], m);
    }
  }

  lemma {:induction false} VoidMatches(s: seq<bv8>, p: seq<Item>, m: (Item, bv8) -> bool)
    requires Void(p, m)
    ensures !GlobBy(s, p, m)
    decreases |p|
  {
    VoidTail(p, m);
    if Void(p[1..], m) {
      forall k | 0 <= k <= |s|
        ensures !GlobBy(s[k..], p[1..], m)
      {
        VoidMatches(s[k..], p[1..], m);
      }
    } else if s != [] {
      BarrenAt(p[0], m, s[0]);
    }
  }

  lemma {:induction false} Needs(s: seq<bv8>, p: seq<Item>, m: (Item, bv8) -> bool)
    requires GlobBy(s, p, m)
    ensures |s| >= Width(p)
    decreases |p|
  {
    if p != [] {
      if p[0].Star? {
        var k :| 0 <= k <= |s| && GlobBy(s[k..], p[1..], m);
        Needs(s[k..], p[1..], m);
      } else {
        Needs(s[1..], p[1..], m);
      }
    }
  }

  /** A shortest match, with byte c for item k if there is one. */
  lemma {:induction false} Witness(p: seq<Item>, m: (Item, bv8) -> bool, k: nat, c: bv8) returns (s: seq<bv8>)
    requires !Void(p, m) && (k < |p| ==> !p[k].Star? && m(p[k], c))
    ensures |s| == Width(p) && GlobBy(s, p, m)
    ensures k < |p| ==> Width(p[..k]) < |s| && s[Width(p[..k])] == c
    decreases |p|
  {
    s := [];
    if p != [] {
      VoidTail(p, m);
      var t := Witness(p[1..], m, if k == 0 then |p| else k - 1, c);
      if 0 < k < |p| {
        assert p[..k][1..] == p[1..][..k - 1];
      }
      if p[0].Star? {
        s := t;
        assert s[0..] == t;
      } else {
        assert exists b :: m(p[0], b) by {
          assert !Barren(p[0], m);
        }
        var b :| m(p[0], b) && (k == 0 ==> b == c);
        s := [b] + t;
        assert s[1..] == t;
      }
    }
  }

  /** In a shortest match every byte has its item. */
  lemma {:induction false} Tight(s: seq<bv8>, p: seq<Item>, m: (Item, bv8) -> bool, k: nat)
    requires GlobBy(s, p, m) && |s| == Width(p) && k < |p| && !p[k].Star?
    ensures Width(p[..k]) < |s| && m(p[k], s[Width(p[..k])])
    decreases |p|
  {
    if k > 0 {
      assert p[..k][1..] == p[1..][..k - 1];
    }
    if p[0].Star? {
      var j :| 0 <= j <= |s| && GlobBy(s[j..], p[1..], m);
      Needs(s[j..], p[1..], m);
      assert s[0..] == s;
      Tight(s, p[1..], m, k - 1);
    } else if k > 0 {
      Tight(s[1..], p[1..], m, k - 1);
    }
  }

  /** The stars stand at the same places before k. */
  predicate SameStars(p: seq<Item>, q: seq<Item>, k: nat) {
    k <= |p| && k <= |q| && forall i :: 0 <= i < k ==> p[i].Star? == q[i].Star?
  }

  lemma {:induction false} SameWidth(p: seq<Item>, q: seq<Item>, k: nat)
    requires SameStars(p, q, k)
    ensures Width(p[..k]) == Width(q[..k])
    decreases k
  {
    if k > 0 {
      SameWidth(p[1..], q[1..], k - 1);
      assert p[..k][1..] == p[1..][..k - 1] && q[..k][1..] == q[1..][..k - 1];
    }
  }

  /** A string that p matches and q does not, if their stars stand at the same places
      up to an item of p that matches a byte the item of q does not. */
  lemma Separate(p: seq<Item>, m: (Item, bv8) -> bool, q: seq<Item>, l: (Item, bv8) -> bool, k: nat, c: bv8)
    returns (s: seq<bv8>)
    requires !Void(p, m) && !Void(q, l) && SameStars(p, q, k) && k < |p| && k < |q|
    requires !p[k].Star? && !q[k].Star? && m(p[k], c) && !l(q[k], c)
    ensures GlobBy(s, p, m) != GlobBy(s, q, l)
  {
    if Width(q) < Width(p) {
      s := Witness(q, l, |q|, c);
      if GlobBy(s, p, m) {
        Needs(s, p, m);
      }
    } else {
      s := Witness(p, m, k, c);
      if GlobBy(s, q, l) {
        Needs(s, q, l);
        Tight(s, q, l, k);
        SameWidth(p, q, k);
      }
    }
  }

  /** Item by item the same. */
  ghost predicate SameItems(p: seq<Item>, m: (Item, bv8) -> bool, q: seq<Item>, l: (Item, bv8) -> bool) {
    |p| == |q| && forall i :: 0 <= i < |p| ==> SameItem(p[i], m, q[i], l)
  }

  ghost predicate SameItem(x: Item, m: (Item, bv8) -> bool, y: Item, l: (Item, bv8) -> bool) {
    x.Star? == y.Star? && forall c :: m(x, c) == l(y, c)
  }

  lemma SameAt(x: Item, m: (Item, bv8) -> bool, y: Item, l: (Item, bv8) -> bool, c: bv8)
    requires SameItem(x, m, y, l)
    ensures m(x, c) == l(y, c)
  {
  }

  lemma {:induction false} SameGlob(s: seq<bv8>, p: seq<Item>, m: (Item, bv8) -> bool, q: seq<Item>,
                                    l: (Item, bv8) -> bool)
    requires SameItems(p, m, q, l)
    ensures GlobBy(s, p, m) <==> GlobBy(s, q, l)
    decreases |p|
  {
    if p != [] {
      assert SameItem(p[0], m, q[0], l);
      assert SameItems(p[1..], m, q[1..], l) by {
        forall i | 0 <= i < |p[1..]|
          ensures SameItem(p[1..][i], m, q[1..][i], l)
        {
          assert SameItem(p[i + 1], m, q[i + 1], l);
        }
      }
      if p[0].Star? {
        forall k | 0 <= k <= |s|
          ensures GlobBy(s[k..], p[1..], m) <==> GlobBy(s[k..], q[1..], l)
        {
          SameGlob(s[k..], p[1..], m, q[1..], l);
        }
      } else if s != [] {
        SameAt(p[0], m, q[0], l, s[0]);
        SameGlob(s[1..], p[1..], m, q[1..], l);
      }
    }
  }

  // ---------------------------------------------------------------- when both mean the same

  predicate Letter(c: bv8) { 65 <= c <= 90 || 97 <= c <= 122 }

  /** What strmatch and a UNIX glob read alike: no letter stands for itself, no escape is
      before the last byte, and every bracket is closed, not by the first byte, and lists
      the same bytes for both. */
  ghost predicate Alike(p: seq<bv8>)
    decreases |p|
  {
    if p == [] then true
    else if p[0] == ANY || p[0] == STAR then Alike(p[1..])
    else if p[0] == BRACKET then
      Skip(p) < |p| && p[Skip(p)] != CLOSE &&
      var a, b := Ranges(p[Skip(p)..]), UnixRanges(p[Skip(p)..], true);
      a.Closed? && b.Closed? && SameBytes(a.ranges, b.ranges) && Alike(p[Skip(p) + b.size..])
    else if p[0] == ESCAPE then |p| > 2 && !Letter(p[1]) && Alike(p[2..])
    else !Letter(p[0]) && Alike(p[1..])
  }

  ghost predicate SameBytes(a: seq<(bv8, bv8)>, b: seq<(bv8, bv8)>) {
    forall c :: InRanges(Lower(c), a) <==> Listed(c, b)
  }

  lemma LowRange(lo: bv8, hi: bv8, c: bv8)
    requires lo <= hi < 65
    ensures AtMost(lo, Lower(c)) && AtMost(Lower(c), hi) <==> lo <= c <= hi
  {
  }

  /** Lists of bytes below the letters, as [0-9], are the same for both. */
  lemma LowBytes(rs: seq<(bv8, bv8)>)
    requires forall i :: 0 <= i < |rs| ==> rs[i].0 <= rs[i].1 < 65
    ensures SameBytes(rs, rs)
  {
    forall c: bv8
      ensures InRanges(Lower(c), rs) <==> Listed(c, rs)
    {
      forall i | 0 <= i < |rs|
        ensures AtMost(rs[i].0, Lower(c)) && AtMost(Lower(c), rs[i].1) <==> rs[i].0 <= c <= rs[i].1
      {
        LowRange(rs[i].0, rs[i].1, c);
      }
    }
  }

  lemma LiteralIff(d: bv8)
    ensures (forall c :: Matches(Lit(Lower(d)), c) == UnixMatches(Lit(d), c)) <==> !Letter(d)
  {
    if Letter(d) {
      var c := d ^ 0x20;
      assert Lower(c) == Lower(d) && c != d;
      assert Matches(Lit(Lower(d)), c) && !UnixMatches(Lit(d), c);
    } else {
      forall c: bv8
        ensures Lower(c) == Lower(d) <==> c == d
      {
      }
    }
  }

  lemma SamePiece(q: seq<bv8>)
    requires q != [] && !UnixPiece(q).Beyond?
    ensures UnixPiece(q).Piece? <==> NextPiece(q).Piece?
    ensures NextPiece(q).Piece? ==> UnixPiece(q).n == NextPiece(q).n
  {
  }

  lemma {:induction false} SameExtent(q: seq<bv8>, first: bool)
    requires !UnixRanges(q, first).Outside? && !(first && q != [] && q[0] == CLOSE)
    ensures UnixRanges(q, first).Closed? <==> Ranges(q).Closed?
    ensures Ranges(q).Closed? ==> UnixRanges(q, first).size == Ranges(q).size
    decreases |q|
  {
    if q != [] && q[0] != CLOSE {
      SamePiece(q);
      if UnixPiece(q).Piece? {
        SameExtent(q[UnixPiece(q).n..], false);
      }
    }
  }

  lemma CodeItem(p: seq<bv8>, a: Bracket)
    requires p != [] && p[0] == BRACKET && a == Ranges(p[Skip(p)..]) && a.Closed?
    ensures Lex(p) == Prepend(Class(Skip(p) == 2, a.ranges), Lex(p[Skip(p) + a.size..]))
  {
  }

  lemma UnixItem(p: seq<bv8>, b: Bracket)
    requires p != [] && p[0] == BRACKET && b == UnixRanges(p[Skip(p)..], true) && b.Closed? && UnixLex(p).Some?
    ensures Ordered(b.ranges)
    ensures UnixLex(p) == Prepend(Class(Skip(p) == 2, b.ranges), UnixLex(p[Skip(p) + b.size..]))
  {
  }

  /** The items of a bracket expression that is closed for both, at the same byte. */
  lemma ClassItems(p: seq<bv8>, a: Bracket, b: Bracket)
    requires p != [] && p[0] == BRACKET && UnixLex(p).Some? && a.Closed? && b.Closed? && a.size == b.size
    requires a == Ranges(p[Skip(p)..]) && b == UnixRanges(p[Skip(p)..], true)
    ensures Lex(p) == Prepend(Class(Skip(p) == 2, a.ranges), Lex(p[Skip(p) + b.size..]))
    ensures UnixLex(p) == Prepend(Class(Skip(p) == 2, b.ranges), UnixLex(p[Skip(p) + b.size..]))
  {
    CodeItem(p, a);
    UnixItem(p, b);
  }

  lemma SameCons(x: Item, y: Item, a: seq<Item>, b: seq<Item>)
    requires SameItem(x, Matches, y, UnixMatches) && SameItems(a, Matches, b, UnixMatches)
    ensures SameItems([x] + a, Matches, [y] + b, UnixMatches)
  {
  }

  lemma SameClass(negate: bool, a: seq<(bv8, bv8)>, b: seq<(bv8, bv8)>)
    requires SameBytes(a, b)
    ensures SameItem(Class(negate, a), Matches, Class(negate, b), UnixMatches)
  {
  }

  lemma {:induction false} AlikeItems(p: seq<bv8>)
    requires Lex(p).Some? && UnixLex(p).Some? && Alike(p)
    ensures SameItems(Lex(p).value, Matches, UnixLex(p).value, UnixMatches)
    decreases |p|
  {
    if p == [] {
    } else if p[0] == BRACKET {
      AlikeClass(p);
    } else if p[0] == ANY || p[0] == STAR {
      AlikeItems(p[1..]);
      SameCons(Lex(p).value[0], UnixLex(p).value[0], Lex(p[1..]).value, UnixLex(p[1..]).value);
    } else {
      var n := if p[0] == ESCAPE then 2 else 1;
      AlikeItems(p[n..]);
      LiteralIff(p[n - 1]);
      SameCons(Lit(Lower(p[n - 1])), Lit(p[n - 1]), Lex(p[n..]).value, UnixLex(p[n..]).value);
    }
  }

  lemma {:induction false} AlikeClass(p: seq<bv8>)
    requires Lex(p).Some? && UnixLex(p).Some? && Alike(p) && p != [] && p[0] == BRACKET
    ensures SameItems(Lex(p).value, Matches, UnixLex(p).value, UnixMatches)
    decreases |p|, 0
  {
    var a, b := Ranges(p[Skip(p)..]), UnixRanges(p[Skip(p)..], true);
    SameExtent(p[Skip(p)..], true);
    ClassItems(p, a, b);
    var r, negate := p[Skip(p) + b.size..], Skip(p) == 2;
    AlikeItems(r);
    SameClass(negate, a.ranges, b.ranges);
    SameCons(Class(negate, a.ranges), Class(negate, b.ranges), Lex(r).value, UnixLex(r).value);
  }

  /** The two readings differ in item k, on byte c, and not in the stars before it. */
  ghost predicate Differ(a: seq<Item>, b: seq<Item>, k: nat, c: bv8) {
    k < |a| && k < |b| && SameStars(a, b, k) && !a[k].Star? && !b[k].Star? && Matches(a[k], c) != UnixMatches(b[k], c)
  }

  lemma Shift(x: Item, y: Item, a: seq<Item>, b: seq<Item>, k: nat, c: bv8)
    requires x.Star? == y.Star? && Differ(a, b, k, c)
    ensures Differ([x] + a, [y] + b, k + 1, c)
  {
  }

  lemma {:induction false} Diverge(p: seq<bv8>) returns (k: nat, c: bv8)
    requires Lex(p).Some? && UnixLex(p).Some? && !Alike(p) && !Void(Lex(p).value, Matches)
    ensures Differ(Lex(p).value, UnixLex(p).value, k, c)
    decreases |p|
  {
    var a, b := Lex(p).value, UnixLex(p).value;
    VoidTail(a, Matches);
    k := 0;
    if p[0] == ANY || p[0] == STAR {
      k, c := Diverge(p[1..]);
      Shift(a[0], b[0], a[1..], b[1..], k, c);
      k := k + 1;
    } else if p[0] == BRACKET && Skip(p) < |p| && p[Skip(p)] == CLOSE {
      c := DivergeFirst(p);
    } else if p[0] == BRACKET {
      k, c := DivergeClass(p);
    } else if p[0] == ESCAPE && |p| == 2 {
      c := ESCAPE;
    } else {
      var n := if p[0] == ESCAPE then 2 else 1;
      LiteralIff(p[n - 1]);
      if Letter(p[n - 1]) {
        c :| Matches(Lit(Lower(p[n - 1])), c) != UnixMatches(Lit(p[n - 1]), c);
      } else {
        k, c := Diverge(p[n..]);
        Shift(a[0], b[0], a[1..], b[1..], k, c);
        k := k + 1;
      }
    }
  }

  lemma FirstListed(q: seq<bv8>)
    requires q != [] && q[0] == CLOSE && UnixRanges(q, true).Closed? && Ordered(UnixRanges(q, true).ranges)
    ensures Listed(CLOSE, UnixRanges(q, true).ranges)
  {
    assert UnixRanges(q, true).ranges[0].0 == CLOSE;
  }

  lemma UnixFirst(p: seq<bv8>)
    requires p != [] && p[0] == BRACKET && UnixLex(p).Some? && Skip(p) == 2 < |p| && p[2] == CLOSE
    ensures UnixLex(p).value != [] && var y := UnixLex(p).value[0];
      !y.Star? && !UnixMatches(y, if y == Lit(BRACKET) then 0 else CLOSE)
  {
    if UnixRanges(p[2..], true).Closed? {
      FirstListed(p[2..]);
    }
  }

  /** A bracket closed at once matches nothing, or any byte if it is negated. */
  lemma CodeFirst(p: seq<bv8>)
    requires p != [] && p[0] == BRACKET && Lex(p).Some? && Skip(p) < |p| && p[Skip(p)] == CLOSE
    ensures Lex(p).value != [] && Lex(p).value[0] == Class(Skip(p) == 2, [])
    ensures Skip(p) == 1 ==> Void(Lex(p).value, Matches)
  {
    assert Ranges(p[Skip(p)..]) == Closed([], 1);
    if Skip(p) == 1 {
      assert Barren(Lex(p).value[0], Matches);
    }
  }

  lemma OpenVoid(p: seq<bv8>)
    requires p != [] && p[0] == BRACKET && Lex(p).Some? && Ranges(p[Skip(p)..]).Open?
    ensures Void(Lex(p).value, Matches)
  {
    assert Barren(Lex(p).value[0], Matches);
  }

  lemma BothClosed(p: seq<bv8>)
    requires p != [] && p[0] == BRACKET && Lex(p).Some? && UnixLex(p).Some? && !Void(Lex(p).value, Matches)
    requires Skip(p) < |p| ==> p[Skip(p)] != CLOSE
    ensures Skip(p) < |p| && Ranges(p[Skip(p)..]).Closed? && UnixRanges(p[Skip(p)..], true).Closed?
    ensures Ranges(p[Skip(p)..]).size == UnixRanges(p[Skip(p)..], true).size
  {
    SameExtent(p[Skip(p)..], true);
    if Ranges(p[Skip(p)..]).Open? {
      OpenVoid(p);
    }
  }

  lemma DivergeFirst(p: seq<bv8>) returns (c: bv8)
    requires p != [] && p[0] == BRACKET && Lex(p).Some? && UnixLex(p).Some? && !Void(Lex(p).value, Matches)
    requires Skip(p) < |p| && p[Skip(p)] == CLOSE
    ensures Differ(Lex(p).value, UnixLex(p).value, 0, c)
  {
    CodeFirst(p);
    UnixFirst(p);
    c := if UnixLex(p).value[0] == Lit(BRACKET) then 0 else CLOSE;
  }

  lemma {:induction false} DivergeClass(p: seq<bv8>) returns (k: nat, c: bv8)
    requires p != [] && p[0] == BRACKET && Lex(p).Some? && UnixLex(p).Some? && !Void(Lex(p).value, Matches)
    requires !Alike(p) && (Skip(p) < |p| ==> p[Skip(p)] != CLOSE)
    ensures Differ(Lex(p).value, UnixLex(p).value, k, c)
    decreases |p|, 0
  {
    BothClosed(p);
    var x, y := Ranges(p[Skip(p)..]), UnixRanges(p[Skip(p)..], true);
    ClassItems(p, x, y);
    var a, b := Lex(p).value, UnixLex(p).value;
    if SameBytes(x.ranges, y.ranges) {
      VoidTail(a, Matches);
      k, c := Diverge(p[Skip(p) + y.size..]);
      Shift(a[0], b[0], a[1..], b[1..], k, c);
      k := k + 1;
    } else {
      k := 0;
      c := DifferentByte(x.ranges, y.ranges);
    }
  }

  lemma DifferentByte(a: seq<(bv8, bv8)>, b: seq<(bv8, bv8)>) returns (c: bv8)
    requires !SameBytes(a, b)
    ensures InRanges(Lower(c), a) != Listed(c, b)
  {
    c :| InRanges(Lower(c), a) != Listed(c, b);
  }

  /** A pattern matches the same strings for strmatch and as a UNIX glob exactly if it is
      read alike, or matches nothing for either. */
  lemma UnixIff(p: seq<bv8>)
    requires Lex(p).Some? && UnixLex(p).Some?
    ensures (forall s :: Glob(s, Lex(p).value) <==> GlobBy(s, UnixLex(p).value, UnixMatches)) <==>
            (Alike(p) || (Void(Lex(p).value, Matches) && Void(UnixLex(p).value, UnixMatches)))
  {
    var a, b := Lex(p).value, UnixLex(p).value;
    forall s: seq<bv8>
      ensures Glob(s, a) <==> GlobBy(s, a, Matches)
    {
      GlobIs(s, a);
    }
    if Alike(p) {
      AlikeItems(p);
      forall s: seq<bv8>
        ensures GlobBy(s, a, Matches) <==> GlobBy(s, b, UnixMatches)
      {
        SameGlob(s, a, Matches, b, UnixMatches);
      }
    } else {
      Unlike(p);
    }
  }

  lemma Unlike(p: seq<bv8>)
    requires Lex(p).Some? && UnixLex(p).Some? && !Alike(p)
    ensures var a, b := Lex(p).value, UnixLex(p).value;
      (forall s :: GlobBy(s, a, Matches) <==> GlobBy(s, b, UnixMatches)) <==> (Void(a, Matches) && Void(b, UnixMatches))
  {
    var a, b := Lex(p).value, UnixLex(p).value;
    if Void(a, Matches) {
      forall s: seq<bv8>
        ensures !GlobBy(s, a, Matches)
      {
        VoidMatches(s, a, Matches);
      }
    }
    if Void(b, UnixMatches) {
      forall s: seq<bv8>
        ensures !GlobBy(s, b, UnixMatches)
      {
        VoidMatches(s, b, UnixMatches);
      }
    }
    if !Void(a, Matches) && !Void(b, UnixMatches) {
      var k, c := Diverge(p);
      var s;
      if Matches(a[k], c) {
        s := Separate(a, Matches, b, UnixMatches, k, c);
      } else {
        s := Separate(b, UnixMatches, a, Matches, k, c);
      }
    } else if !Void(a, Matches) {
      var s := Witness(a, Matches, |a|, 0);
      assert !GlobBy(s, b, UnixMatches);
    } else if !Void(b, UnixMatches) {
      var s := Witness(b, UnixMatches, |b|, 0);
      assert !GlobBy(s, a, Matches);
    }
  }

  // ---------------------------------------------------------------- where they do not

  lemma OneItem(x: Item, c: bv8, m: (Item, bv8) -> bool)
    requires !x.Star?
    ensures GlobBy([c], [x], m) <==> m(x, c)
  {
    assert [x][1..] == [] && [c][1..] == [];
  }

  /** A letter matches the other case of it. */
  lemma CaseFolds(d: bv8)
    requires Letter(d)
    ensures Lex([d]) == Some([Lit(Lower(d))]) && UnixLex([d]) == Some([Lit(d)])
    ensures Glob([d ^ 0x20], [Lit(Lower(d))]) && !GlobBy([d ^ 0x20], [Lit(d)], UnixMatches)
  {
    GlobIs([d ^ 0x20], [Lit(Lower(d))]);
    assert [d][1..] == [] && [Lit(Lower(d))] + [] == [Lit(Lower(d))] && [Lit(d)] + [] == [Lit(d)];
    OneItem(Lit(Lower(d)), d ^ 0x20, Matches);
    OneItem(Lit(d), d ^ 0x20, UnixMatches);
  }

  /** An escape before the last byte is a backslash, so that byte alone does not match. */
  lemma EscapeLast(c: bv8)
    requires c != ANY && c != STAR && c != BRACKET && c != ESCAPE
    ensures Lex([ESCAPE, c]) == Some([Lit(ESCAPE), Lit(Lower(c))]) && UnixLex([ESCAPE, c]) == Some([Lit(c)])
    ensures !Glob([c], [Lit(ESCAPE), Lit(Lower(c))]) && GlobBy([c], [Lit(c)], UnixMatches)
  {
    GlobIs([c], [Lit(ESCAPE), Lit(Lower(c))]);
    var p := [ESCAPE, c];
    assert p[1..] == [c] && p[2..] == [] && [c][1..] == [];
    assert [Lit(Lower(c))] + [] == [Lit(Lower(c))] && [Lit(c)] + [] == [Lit(c)];
    assert Lex([c]) == Some([Lit(Lower(c))]);
    assert [Lit(ESCAPE)] + [Lit(Lower(c))] == [Lit(ESCAPE), Lit(Lower(c))];
    if GlobBy([c], [Lit(ESCAPE), Lit(Lower(c))], Matches) {
      Needs([c], [Lit(ESCAPE), Lit(Lower(c))], Matches);
    }
    OneItem(Lit(c), c, UnixMatches);
  }

  /** [a-] is a range from a to the bracket, and a dash: the letter a does not match. */
  lemma DashLast()
    ensures var p := [BRACKET, 97, DASH, CLOSE];
      Lex(p) == Some([Class(false, [(97, CLOSE), (DASH, DASH)])]) &&
      UnixLex(p) == Some([Class(false, [(97, 97), (DASH, DASH)])])
    ensures !Glob([97], [Class(false, [(97, CLOSE), (DASH, DASH)])])
    ensures GlobBy([97], [Class(false, [(97, 97), (DASH, DASH)])], UnixMatches)
  {
    GlobIs([97], [Class(false, [(97, CLOSE), (DASH, DASH)])]);
    var q := [97, DASH, CLOSE];
    assert q[1..] == [DASH, CLOSE] && [DASH, CLOSE][1..] == [CLOSE] && [(DASH, DASH)] + [] == [(DASH, DASH)];
    assert Ranges([CLOSE]) == Closed([], 1) == UnixRanges([CLOSE], false);
    assert Ranges([DASH, CLOSE]) == Closed([(DASH, DASH)], 2) == UnixRanges([DASH, CLOSE], false);
    assert [(97, CLOSE)] + [(DASH, DASH)] == [(97, CLOSE), (DASH, DASH)];
    assert [(97, 97)] + [(DASH, DASH)] == [(97, 97), (DASH, DASH)];
    ClassOnly(q, [(97, CLOSE), (DASH, DASH)], [(97, 97), (DASH, DASH)]);
    assert Listed(97, [(97, 97), (DASH, DASH)]) by {
      assert [(97, 97), (DASH, DASH)][0] == (97, 97);
    }
    OneItem(Class(false, [(97, CLOSE), (DASH, DASH)]), 97, Matches);
    OneItem(Class(false, [(97, 97), (DASH, DASH)]), 97, UnixMatches);
  }

  /** A pattern that is one bracket expression, for both. */
  lemma ClassOnly(q: seq<bv8>, a: seq<(bv8, bv8)>, b: seq<(bv8, bv8)>)
    requires q != [] && !Negates(q) && Ordered(b)
    requires Ranges(q) == Closed(a, |q|) && UnixRanges(q, true) == Closed(b, |q|)
    ensures Lex([BRACKET] + q) == Some([Class(false, a)]) && UnixLex([BRACKET] + q) == Some([Class(false, b)])
  {
    var p := [BRACKET] + q;
    assert p[1..] == q && p[1 + |q|..] == [];
    LexClass(p);
    UnixClass(p, b);
    assert [Class(false, a)] + [] == [Class(false, a)] && [Class(false, b)] + [] == [Class(false, b)];
  }

  lemma UnixClass(p: seq<bv8>, b: seq<(bv8, bv8)>)
    requires p != [] && p[0] == BRACKET && Skip(p) == 1 && Ordered(b) && UnixRanges(p[1..], true) == Closed(b, |p| - 1)
    ensures UnixLex(p) == Prepend(Class(false, b), UnixLex([]))
  {
    assert p[|p|..] == [];
  }

  /** A range from a byte below 128 to one above holds no byte, as they are signed. */
  lemma SignedRange(c: bv8)
    requires c >= 128
    ensures var p := [BRACKET, 48, DASH, c, CLOSE];
      Lex(p) == Some([Class(false, [(48, c)])]) && UnixLex(p) == Some([Class(false, [(48, c)])])
    ensures !Glob([c], [Class(false, [(48, c)])]) && GlobBy([c], [Class(false, [(48, c)])], UnixMatches)
  {
    GlobIs([c], [Class(false, [(48, c)])]);
    var q := [48, DASH, c, CLOSE];
    assert q[3..] == [CLOSE] && [(48, c)] + [] == [(48, c)];
    assert Ranges([CLOSE]) == Closed([], 1) == UnixRanges([CLOSE], false);
    assert q[2..] == [c, CLOSE] && !Named([c, CLOSE]);
    ClassOnly(q, [(48, c)], [(48, c)]);
    var rs: seq<(bv8, bv8)> := [(48, c)];
    assert rs[0].0 <= c <= rs[0].1 && Listed(c, rs);
    OneItem(Class(false, [(48, c)]), c, Matches);
    OneItem(Class(false, [(48, c)]), c, UnixMatches);
  }

  /** A bracket closed by its first byte lists nothing, so []a] does not match the a. */
  lemma CloseFirst()
    ensures var p := [BRACKET, CLOSE, 97, CLOSE];
      Lex(p) == Some([Class(false, []), Lit(97), Lit(CLOSE)]) &&
      UnixLex(p) == Some([Class(false, [(CLOSE, CLOSE), (97, 97)])])
    ensures !Glob([97], [Class(false, []), Lit(97), Lit(CLOSE)])
    ensures GlobBy([97], [Class(false, [(CLOSE, CLOSE), (97, 97)])], UnixMatches)
  {
    GlobIs([97], [Class(false, []), Lit(97), Lit(CLOSE)]);
    var p := [BRACKET, CLOSE, 97, CLOSE];
    assert p[1..] == [CLOSE, 97, CLOSE] && p[2..] == [97, CLOSE] && p[4..] == [];
    assert [CLOSE, 97, CLOSE][1..] == [97, CLOSE] && [97, CLOSE][1..] == [CLOSE] && [CLOSE][1..] == [];
    assert Lex([CLOSE]) == Some([Lit(CLOSE)]) by {
      assert [Lit(CLOSE)] + [] == [Lit(CLOSE)];
    }
    assert Lex([97, CLOSE]) == Some([Lit(97), Lit(CLOSE)]) by {
      assert [Lit(97)] + [Lit(CLOSE)] == [Lit(97), Lit(CLOSE)];
    }
    LexClass(p);
    assert [Class(false, [])] + [Lit(97), Lit(CLOSE)] == [Class(false, []), Lit(97), Lit(CLOSE)];
    assert UnixRanges([CLOSE], false) == Closed([], 1);
    assert UnixRanges([97, CLOSE], false) == Closed([(97, 97)], 2) by {
      assert [(97, 97)] + [] == [(97, 97)];
    }
    assert UnixRanges([CLOSE, 97, CLOSE], true) == Closed([(CLOSE, CLOSE), (97, 97)], 3) by {
      assert [(CLOSE, CLOSE)] + [(97, 97)] == [(CLOSE, CLOSE), (97, 97)];
    }
    var y := Class(false, [(CLOSE, CLOSE), (97, 97)]);
    assert [y] + [] == [y];
    assert Listed(97, y.ranges) by {
      assert y.ranges[1] == (97, 97);
    }
    OneItem(y, 97, UnixMatches);
  }

  /** A bracket that is not closed matches nothing. */
  lemma OpenBracket()
    ensures Lex([BRACKET, 97]) == Some([Never]) && UnixLex([BRACKET, 97]) == Some([Lit(BRACKET), Lit(97)])
    ensures !Glob([BRACKET, 97], [Never])
    ensures GlobBy([BRACKET, 97], [Lit(BRACKET), Lit(97)], UnixMatches)
  {
    GlobIs([BRACKET, 97], [Never]);
    var p := [BRACKET, 97];
    assert p[1..] == [97] && [97][1..] == [];
    LexClass(p);
    assert UnixRanges([97], true) == Open;
    assert UnixLex([97]) == Some([Lit(97)]) by {
      assert [Lit(97)] + [] == [Lit(97)];
    }
    var xs := [Lit(BRACKET), Lit(97)];
    assert [Lit(BRACKET)] + [Lit(97)] == xs && xs[1..] == [Lit(97)];
    OneItem(Lit(97), 97, UnixMatches);
  }

  predicate Plain(w: seq<bv8>) {
    forall i :: 0 <= i < |w| ==> w[i] != CLOSE && w[i] != ESCAPE && w[i] != DASH
  }

  lemma {:induction false} PlainRanges(w: seq<bv8>, rest: seq<bv8>)
    requires Plain(w)
    ensures Ranges(w + [CLOSE] + rest).Closed? && Ranges(w + [CLOSE] + rest).size == |w| + 1
    decreases |w|
  {
    if w != [] {
      PlainRanges(w[1..], rest);
      assert (w + [CLOSE] + rest)[1..] == w[1..] + [CLOSE] + rest;
      assert (w + [CLOSE] + rest)[1] == if |w| > 1 then w[1] else CLOSE;
    }
  }

  /** A bracket expression that is a character class, as [[:alpha:]]: its first closing
      bracket ends it and the second must follow, so it matches no single byte. */
  lemma NamedClass(name: seq<bv8>, c: bv8)
    requires Plain(name)
    ensures var p := [BRACKET, BRACKET, 58] + name + [58, CLOSE, CLOSE];
      Lex(p).Some? && !Glob([c], Lex(p).value)
  {
    var w := [BRACKET, 58] + name + [58];
    var p := [BRACKET, BRACKET, 58] + name + [58, CLOSE, CLOSE];
    PlainRanges(w, [CLOSE]);
    assert p[1..] == w + [CLOSE] + [CLOSE] && p[1 + |w| + 1..] == [CLOSE];
    LexClass(p);
    GlobIs([c], Lex(p).value);
    assert [CLOSE][1..] == [] && Lex([CLOSE]) == Some([Lit(CLOSE)] + []);
    assert Lex(p).value[1..] == [Lit(CLOSE)];
    if GlobBy([c], Lex(p).value, Matches) {
      Needs([c], Lex(p).value, Matches);
    }
  }
}
