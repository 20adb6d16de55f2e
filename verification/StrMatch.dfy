/** strmatch and strrangematch (contrib/netbsd/strmatch.c): shell patterns with stars,
    question marks, bracket expressions and escapes. */
module StrMatch {
  import opened Common

  const STAR: bv8 := 42
  const ANY: bv8 := 63
  const BRACKET: bv8 := 91
  const CLOSE: bv8 := 93
  const ESCAPE: bv8 := 92
  const DASH: bv8 := 45

  /** tolower. */
  function Lower(c: bv8): bv8 { if 65 <= c <= 90 then c + 32 else c }

  // ---------------------------------------------------------------- what patterns mean

  /** What a pattern is made of.  A class lists ranges of bytes; an open bracket
      expression matches nothing. */
  datatype Item = Star | Any | Lit(c: bv8) | Class(negate: bool, ranges: seq<(bv8, bv8)>) | Never

  /** Bytes are compared as signed characters. */
  predicate AtMost(a: bv8, b: bv8) { a ^ 0x80 <= b ^ 0x80 }

  predicate InRanges(c: bv8, rs: seq<(bv8, bv8)>) {
    exists i :: 0 <= i < |rs| && AtMost(rs[i].0, c) && AtMost(c, rs[i].1)
  }

  /** Whether one byte matches an item, in either case. */
  predicate Matches(x: Item, c: bv8) {
    match x
    case Star => false
    case Any => true
    case Lit(d) => d == Lower(c)
    case Class(negate, rs) => InRanges(Lower(c), rs) != negate
    case Never => false
  }

  /** A star is any run of bytes, and every other item one byte. */
  ghost predicate Glob(s: seq<bv8>, p: seq<Item>)
    decreases |p|
  {
    if p == [] then s == []
    else if p[0].Star? then exists k :: 0 <= k <= |s| && Glob(s[k..], p[1..])
    else s != [] && Matches(p[0], s[0]) && Glob(s[1..], p[1..])
  }

  // ---------------------------------------------------------------- how patterns are written

  /** One range of a bracket expression and the bytes it takes, or that the pattern ends
      before it is closed, or that its reading goes on behind the end of the pattern. */
  datatype Piece = Piece(lo: bv8, hi: bv8, n: nat) | Unfinished | Beyond

  /** The next range.  One that would end with the closing bracket takes neither that nor
      the dash. */
  function NextPiece(q: seq<bv8>): (r: Piece)
    requires q != []
    ensures r.Piece? ==> 0 < r.n < |q|
  {
    if q[0] == ESCAPE && |q| == 1 then Beyond
    else
      var n := if q[0] == ESCAPE then 2 else 1;
      var c := Lower(q[n - 1]);
      if n == |q| then Unfinished
      else if q[n] != DASH then Piece(c, c, n)
      else if n + 1 == |q| then Beyond
      else if q[n + 1] == CLOSE then Piece(c, CLOSE, n)
      else if q[n + 1] != ESCAPE then (if n + 2 == |q| then Unfinished else Piece(c, Lower(q[n + 1]), n + 2))
      else if n + 2 == |q| then Beyond
      else if n + 3 == |q| then Unfinished
      else Piece(c, Lower(q[n + 2]), n + 3)
  }

  /** What a bracket expression lists and how many bytes it takes. */
  datatype Bracket = Closed(ranges: seq<(bv8, bv8)>, size: nat) | Open | Outside

  function Then(r: (bv8, bv8), n: nat, b: Bracket): Bracket {
    if b.Closed? then Closed([r] + b.ranges, n + b.size) else b
  }

  /** The bytes of a bracket expression up to the closing one. */
  function Ranges(q: seq<bv8>): (b: Bracket)
    ensures b.Closed? ==> 0 < b.size <= |q|
    decreases |q|
  {
    if q == [] then Outside
    else if q[0] == CLOSE then Closed([], 1)
    else
      match NextPiece(q)
      case Unfinished => Open
      case Beyond => Outside
      case Piece(lo, hi, n) => Then((lo, hi), n, Ranges(q[n..]))
  }

  predicate Negates(q: seq<bv8>) { q != [] && (q[0] == 33 || q[0] == 94) }

  function Prepend(x: Item, r: Option<seq<Item>>): Option<seq<Item>> {
    if r.Some? then Some([x] + r.value) else None
  }

  /** The items of a pattern, or none if its reading goes on behind its end.  An escape
      before the last byte is a backslash. */
  function Lex(p: seq<bv8>): Option<seq<Item>>
    decreases |p|
  {
    if p == [] then Some([])
    else if p[0] == ANY then Prepend(Any, Lex(p[1..]))
    else if p[0] == STAR then Prepend(Star, Lex(p[1..]))
    else if p[0] == BRACKET then
      var skip := if Negates(p[1..]) then 2 else 1;
      var b := Ranges(p[skip..]);
      if b.Outside? then None
      else if b.Open? then Some([Never])
      else Prepend(Class(skip == 2, b.ranges), Lex(p[skip + b.size..]))
    else if p[0] == ESCAPE && |p| == 1 then None
    else if p[0] == ESCAPE && |p| > 2 then Prepend(Lit(Lower(p[1])), Lex(p[2..]))
    else Prepend(Lit(Lower(p[0])), Lex(p[1..]))
  }

  /** The pattern can be read, and has no literal that matches the byte behind the string,
      which is compared before the end of the string is noticed. */
  ghost predicate Readable(p: seq<bv8>, behind: bv8) {
    Lex(p).Some? && Apart(Lex(p).value, behind)
  }

  ghost predicate Apart(items: seq<Item>, behind: bv8) {
    forall i :: 0 <= i < |items| && items[i].Lit? ==> items[i].c != Lower(behind)
  }

  lemma LowerKeeps(c: bv8)
    ensures Lower(c) == STAR <==> c == STAR
    ensures Lower(c) == ANY <==> c == ANY
    ensures Lower(c) == BRACKET <==> c == BRACKET
    ensures Lower(c) == ESCAPE <==> c == ESCAPE
    ensures Lower(c) == CLOSE <==> c == CLOSE
    ensures Lower(c) == DASH <==> c == DASH
  {
  }

  // ---------------------------------------------------------------- stars

  /** Two stars are one. */
  lemma StarStar(s: seq<bv8>, p: seq<Item>)
    requires |p| >= 2 && p[0].Star? && p[1].Star?
    ensures Glob(s, p) <==> Glob(s, p[1..])
  {
    var q, r := p[1..], p[2..];
    assert q[1..] == r;
    if Glob(s, p) {
      var k :| 0 <= k <= |s| && Glob(s[k..], q);
      var m :| 0 <= m <= |s[k..]| && Glob(s[k..][m..], r);
      assert s[k..][m..] == s[k + m..];
    }
    if Glob(s, q) {
      assert s[0..] == s;
    }
  }

  /** A pattern that starts with no star does not match nothing. */
  lemma NeedsOne(p: seq<Item>)
    requires p != [] && !p[0].Star?
    ensures !Glob([], p)
  {
  }

  /** A star before such a pattern: it matches from somewhere before the end. */
  lemma StarMeans(s: seq<bv8>, p: seq<Item>)
    requires |p| >= 2 && p[0].Star? && !p[1].Star?
    ensures Glob(s, p) <==> exists k :: 0 <= k < |s| && Glob(s[k..], p[1..])
  {
    NeedsOne(p[1..]);
    assert s[|s|..] == [];
  }

  lemma StarLast(s: seq<bv8>)
    ensures Glob(s, [Star])
  {
    assert [Star][1..] == [] && s[|s|..] == [];
    assert Glob(s[|s|..], [Star][1..]);
  }

  /** Only a star is written with a star. */
  lemma LexFirst(p: seq<bv8>)
    requires p != [] && Lex(p).Some?
    ensures Lex(p).value != [] && (Lex(p).value[0].Star? <==> p[0] == STAR)
  {
  }

  // ---------------------------------------------------------------- the matcher

  predicate InPiece(c: bv8, r: Piece)
    requires r.Piece?
  {
    AtMost(r.lo, c) && AtMost(c, r.hi)
  }

  lemma SameByte(a: bv8, b: bv8)
    ensures AtMost(a, b) && AtMost(b, a) <==> a == b
  {
  }

  /** One round of the loop of strrangematch: whether the byte is in the next range, and
      the bytes this takes, or 0 at the end of the pattern. */
  method OneRange(q: seq<bv8>, test: bv8) returns (hit: bool, n: nat)
    requires q != [] && q[0] != CLOSE && !NextPiece(q).Beyond?
    ensures if NextPiece(q).Piece? then n == NextPiece(q).n && hit == InPiece(test, NextPiece(q)) else n == 0
  {
    hit, n := false, 0;
    var k := 1;
    var c := Lower(q[0]);
    LowerKeeps(q[0]);
    if c == ESCAPE {
      c, k := Lower(q[1]), 2;
    }
    if k == |q| {
      return;
    }
    SameByte(c, test);
    if q[k] == DASH {
      var c2 := Lower(q[k + 1]);
      LowerKeeps(q[k + 1]);
      if c2 != CLOSE {
        k := k + 2;
      }
      if c2 == ESCAPE {
        c2, k := Lower(q[k]), k + 1;
      }
      if k == |q| {
        return;
      }
      hit, n := AtMost(c, test) && AtMost(test, c2), k;
    } else {
      hit, n := c == test, k;
    }
  }

  lemma InThen(c: bv8, r: (bv8, bv8), rs: seq<(bv8, bv8)>)
    ensures InRanges(c, [r] + rs) <==> (AtMost(r.0, c) && AtMost(c, r.1)) || InRanges(c, rs)
  {
    var all := [r] + rs;
    if InRanges(c, rs) {
      var i :| 0 <= i < |rs| && AtMost(rs[i].0, c) && AtMost(c, rs[i].1);
      assert all[i + 1] == rs[i];
    }
    if InRanges(c, all) {
      var i :| 0 <= i < |all| && AtMost(all[i].0, c) && AtMost(c, all[i].1);
      assert i > 0 ==> all[i] == rs[i - 1];
    }
    if AtMost(r.0, c) && AtMost(c, r.1) {
      assert all[0] == r;
    }
  }

  /** Where the loop of strrangematch stands: what is found so far and what is left give
      what the whole lists. */
  ghost predicate Scanned(q: seq<bv8>, k: nat, test: bv8, ok: bool) {
    k < |q| && !Ranges(q[k..]).Outside? && (Ranges(q).Closed? <==> Ranges(q[k..]).Closed?) &&
    (Ranges(q).Closed? ==>
      k + Ranges(q[k..]).size == Ranges(q).size &&
      (InRanges(test, Ranges(q).ranges) <==> ok || InRanges(test, Ranges(q[k..]).ranges)))
  }

  lemma ScannedNext(q: seq<bv8>, k: nat, test: bv8, ok: bool, r: Piece)
    requires Scanned(q, k, test, ok) && q[k] != CLOSE && r == NextPiece(q[k..]) && r.Piece?
    ensures Scanned(q, k + r.n, test, ok || InPiece(test, r))
  {
    assert q[k..][r.n..] == q[k + r.n..];
    var rest := Ranges(q[k + r.n..]);
    assert Ranges(q[k..]) == Then((r.lo, r.hi), r.n, rest);
    if rest.Closed? {
      InThen(test, (r.lo, r.hi), rest.ranges);
    }
  }

  /** What the loop finds: whether the byte is listed, and the bytes up to the closing
      bracket, or nothing if there is none. */
  method RangeLoop(q: seq<bv8>, test: bv8) returns (ok: bool, size: nat)
    requires !Ranges(q).Outside?
    ensures var b := Ranges(q); if b.Closed? then size == b.size && ok == InRanges(test, b.ranges) else size == 0
  {
    ok, size := false, 0;
    var k := 0;
    assert q[0..] == q;
    while q[k] != CLOSE
      invariant Scanned(q, k, test, ok)
      decreases |q| - k
    {
      var hit, n := OneRange(q[k..], test);
      if n == 0 {
        return false, 0;
      }
      ScannedNext(q, k, test, ok, NextPiece(q[k..]));
      ok, k := ok || hit, k + n;
    }
    size := k + 1;
  }

  /** strrangematch: the bytes taken if the byte is in the class, and otherwise none. */
  method RangeMatch(q: seq<bv8>, test: bv8) returns (r: Option<nat>)
    requires !Ranges(if Negates(q) then q[1..] else q).Outside?
    ensures var b := Ranges(if Negates(q) then q[1..] else q);
      r == if b.Closed? &&
      InRanges(test, b.ranges) != Negates(q) then Some((if Negates(q) then 1 else 0) + b.size) else None
  {
    var negate := q != [] && (q[0] == 33 || q[0] == 94);
    var skip := if negate then 1 else 0;
    assert q[0..] == q;
    var ok, size := RangeLoop(q[skip..], test);
    r := if size == 0 || ok == negate then None else Some(skip + size);
  }

  /** The pattern from j - 1, which is a star, means what it means from j0 - 1. */
  ghost predicate SameStars(s: seq<bv8>, p: seq<bv8>, j0: nat, j: nat) {
    0 < j0 <= j <= |p| && p[j - 1] == STAR && Lex(p[j0 - 1..]).Some? && Lex(p[j - 1..]).Some? &&
    (Glob(s, Lex(p[j0 - 1..]).value) <==> Glob(s, Lex(p[j - 1..]).value)) &&
    Suffix(Lex(p[j - 1..]).value, Lex(p[j0 - 1..]).value)
  }

  lemma OneStarMore(s: seq<bv8>, p: seq<bv8>, j0: nat, j: nat)
    requires SameStars(s, p, j0, j) && j < |p| && p[j] == STAR
    ensures SameStars(s, p, j0, j + 1)
  {
    assert p[j - 1..][1..] == p[j..] && p[j..][1..] == p[j + 1..];
    var items := Lex(p[j - 1..]).value;
    assert items[1..] == Lex(p[j..]).value;
    LexFirst(p[j..]);
    StarStar(s, items);
    SuffixNext(items, Lex(p[j0 - 1..]).value);
  }

  /** The rest of the pattern without its leading stars after the first. */
  method SkipStars(s: seq<bv8>, p: seq<bv8>, j0: nat) returns (j: nat)
    requires 0 < j0 <= |p| && p[j0 - 1] == STAR && Lex(p[j0 - 1..]).Some?
    ensures SameStars(s, p, j0, j) && (j < |p| ==> p[j] != STAR)
  {
    j := j0;
    while j < |p| && p[j] == STAR
      invariant SameStars(s, p, j0, j)
    {
      OneStarMore(s, p, j0, j);
      j := j + 1;
    }
  }

  predicate Suffix(a: seq<Item>, b: seq<Item>) { |a| <= |b| && b[|b| - |a|..] == a }

  lemma SuffixNext(a: seq<Item>, b: seq<Item>)
    requires Suffix(a, b) && a != []
    ensures Suffix(a[1..], b)
  {
  }

  lemma SuffixApart(a: seq<Item>, b: seq<Item>, behind: bv8)
    requires Suffix(a, b) && Apart(b, behind)
    ensures Apart(a, behind)
  {
    forall i | 0 <= i < |a| && a[i].Lit?
      ensures a[i].c != Lower(behind)
    {
      assert a[i] == b[|b| - |a| + i];
    }
  }

  /** What is left to match: s from i and the pattern from j. */
  ghost predicate Rest(s: seq<bv8>, p: seq<bv8>, behind: bv8, i: nat, j: nat) {
    i <= |s| && j <= |p| && Readable(p[j..], behind) && Readable(p, behind) &&
    (Glob(s, Lex(p).value) <==> Glob(s[i..], Lex(p[j..]).value))
  }

  /** One byte matched by one item, which takes n bytes of the pattern. */
  lemma RestNext(s: seq<bv8>, p: seq<bv8>, behind: bv8, i: nat, j: nat, x: Item, n: nat)
    requires Rest(s, p, behind, i, j) && i < |s| && j + n <= |p| && !x.Star? && Matches(x, s[i])
    requires Lex(p[j..]) == Prepend(x, Lex(p[j + n..]))
    ensures Rest(s, p, behind, i + 1, j + n)
  {
    var items := Lex(p[j..]).value;
    assert items[1..] == Lex(p[j + n..]).value;
    SuffixApart(items[1..], items, behind);
    assert s[i..][1..] == s[i + 1..];
  }

  /** An item that does not match, or nothing left to match it. */
  lemma RestFails(s: seq<bv8>, p: seq<bv8>, behind: bv8, i: nat, j: nat)
    requires Rest(s, p, behind, i, j) && j < |p| && p[j] != STAR
    requires i == |s| || !Matches(Lex(p[j..]).value[0], s[i])
    ensures !Glob(s, Lex(p).value)
  {
    LexFirst(p[j..]);
  }

  /** Reads one byte of a literal, which an escape may precede. */
  method Literal(p: seq<bv8>, j: nat) returns (c: bv8, n: nat)
    requires j < |p| && Lex(p[j..]).Some? && p[j] != ANY && p[j] != STAR && p[j] != BRACKET
    ensures 0 < n && j + n <= |p| && Lex(p[j..]) == Prepend(Lit(c), Lex(p[j + n..]))
  {
    c, n := Lower(p[j]), 1;
    LowerKeeps(p[j]);
    assert p[j..][1..] == p[j + 1..];
    if c == ESCAPE {
      assert |p[j..]| > 1;
      c, n := Lower(p[j + 1]), 2;
      if j + n == |p| {
        c, n := ESCAPE, 1;
      } else {
        assert p[j..][2..] == p[j + 2..];
      }
    }
  }

  /** How a bracket expression is lexed. */
  lemma LexClass(p: seq<bv8>)
    requires p != [] && p[0] == BRACKET
    ensures var q := p[1..]; var b := Ranges(if Negates(q) then q[1..] else q); var skip := if Negates(q) then 2 else 1;
      Lex(p) == if b.Outside? then None else if b.Open? then Some([Never])
                else Prepend(Class(Negates(q), b.ranges), Lex(p[skip + b.size..]))
  {
    var q := p[1..];
    assert Negates(q) ==> q[1..] == p[2..];
  }

  /** A bracket expression at the start: the bytes it takes if it matches the byte. */
  method ClassMatch(p: seq<bv8>, c: bv8) returns (r: Option<nat>)
    requires p != [] && p[0] == BRACKET && Lex(p).Some?
    ensures Lex(p).value != [] && (r.Some? <==> Matches(Lex(p).value[0], c)) && !Lex(p).value[0].Star?
    ensures r.Some? ==> 0 < r.value <= |p| && Lex(p) == Prepend(Lex(p).value[0], Lex(p[r.value..]))
  {
    LexClass(p);
    var m := RangeMatch(p[1..], Lower(c));
    r := if m.None? then None else Some(1 + m.value);
  }

  /** The same at j. */
  method ClassAt(p: seq<bv8>, j: nat, c: bv8) returns (r: Option<nat>)
    requires j < |p| && p[j] == BRACKET && Lex(p[j..]).Some?
    ensures Lex(p[j..]).value != [] && (r.Some? <==> Matches(Lex(p[j..]).value[0], c)) && !Lex(p[j..]).value[0].Star?
    ensures r.Some? ==> 0 < r.value <= |p| - j && Lex(p[j..]) == Prepend(Lex(p[j..]).value[0], Lex(p[j + r.value..]))
  {
    r := ClassMatch(p[j..], c);
    if r.Some? {
      assert p[j..][r.value..] == p[j + r.value..];
    }
  }

  /** strmatch; 'behind' is the byte at the end of the string. */
  method StrMatch(s: seq<bv8>, p: seq<bv8>, behind: bv8) returns (r: bool)
    requires Readable(p, behind)
    ensures r <==> Glob(s, Lex(p).value)
    decreases |p|, 0
  {
    var i, j := 0, 0;
    assert s[0..] == s && p[0..] == p;
    while true
      invariant Rest(s, p, behind, i, j)
      decreases |p| - j
    {
      if j == |p| {
        return i == |s|;
      }
      if p[j] == STAR {
        r := AfterStar(s, p, behind, i, j);
        return;
      }
      var ok, n := OneByte(s, p, behind, i, j);
      if !ok {
        RestFails(s, p, behind, i, j);
        return false;
      }
      i, j := i + 1, j + n;
    }
  }

  /** What a case of strmatch that takes one byte of the string finds. */
  ghost predicate Took(s: seq<bv8>, p: seq<bv8>, behind: bv8, i: nat, j: nat, ok: bool, n: nat) {
    j < |p| && i <= |s| && Lex(p[j..]).Some? && Lex(p[j..]).value != [] &&
    if ok then i < |s| && 0 < n <= |p| - j && Rest(s, p, behind, i + 1, j + n)
    else i == |s| || !Matches(Lex(p[j..]).value[0], s[i])
  }

  method AnyByte(s: seq<bv8>, p: seq<bv8>, behind: bv8, i: nat, j: nat) returns (ok: bool, n: nat)
    requires Rest(s, p, behind, i, j) && j < |p| && p[j] == ANY
    ensures Took(s, p, behind, i, j, ok, n)
  {
    ok, n := i < |s|, 1;
    LexFirst(p[j..]);
    assert p[j..][1..] == p[j + 1..];
    if ok {
      RestNext(s, p, behind, i, j, Any, 1);
    }
  }

  method ClassByte(s: seq<bv8>, p: seq<bv8>, behind: bv8, i: nat, j: nat) returns (ok: bool, n: nat)
    requires Rest(s, p, behind, i, j) && j < |p| && p[j] == BRACKET
    ensures Took(s, p, behind, i, j, ok, n)
  {
    ok, n := false, 1;
    LexFirst(p[j..]);
    if i < |s| {
      var m := ClassAt(p, j, s[i]);
      if m.Some? {
        RestNext(s, p, behind, i, j, Lex(p[j..]).value[0], m.value);
        ok, n := true, m.value;
      }
    }
  }

  /** A literal is compared before the end of the string is noticed. */
  method LiteralByte(s: seq<bv8>, p: seq<bv8>, behind: bv8, i: nat, j: nat) returns (ok: bool, n: nat)
    requires Rest(s, p, behind, i, j) && j < |p| && p[j] != ANY && p[j] != STAR && p[j] != BRACKET
    ensures Took(s, p, behind, i, j, ok, n)
  {
    var c;
    c, n := Literal(p, j);
    assert Lex(p[j..]).value[0] == Lit(c);
    ok := c == Lower(if i < |s| then s[i] else behind);
    if ok {
      RestNext(s, p, behind, i, j, Lit(c), n);
    }
  }

  /** The cases of strmatch that take one byte of the string. */
  method OneByte(s: seq<bv8>, p: seq<bv8>, behind: bv8, i: nat, j: nat) returns (ok: bool, n: nat)
    requires Rest(s, p, behind, i, j) && j < |p| && p[j] != STAR
    ensures Took(s, p, behind, i, j, ok, n)
  {
    if p[j] == ANY {
      ok, n := AnyByte(s, p, behind, i, j);
    } else if p[j] == BRACKET {
      ok, n := ClassByte(s, p, behind, i, j);
    } else {
      ok, n := LiteralByte(s, p, behind, i, j);
    }
  }

  /** The case of a star. */
  method AfterStar(s: seq<bv8>, p: seq<bv8>, behind: bv8, i: nat, j0: nat) returns (r: bool)
    requires Rest(s, p, behind, i, j0) && j0 < |p| && p[j0] == STAR
    ensures r <==> Glob(s, Lex(p).value)
    decreases |p|, 0, 0
  {
    var j := SkipStars(s[i..], p, j0 + 1);
    ghost var items := Lex(p[j - 1..]).value;
    SuffixApart(items, Lex(p[j0..]).value, behind);
    assert p[j - 1..][1..] == p[j..];
    if j == |p| {
      assert items == [Star];
      StarLast(s[i..]);
      return true;
    }
    LexFirst(p[j..]);
    assert items[1..] == Lex(p[j..]).value;
    SuffixApart(items[1..], items, behind);
    r := FromSomewhere(s[i..], p[j..], behind);
    StarMeans(s[i..], items);
  }

  /** The loop under a star: the rest of the pattern is tried at each byte. */
  method FromSomewhere(s: seq<bv8>, p: seq<bv8>, behind: bv8) returns (r: bool)
    requires Readable(p, behind)
    ensures r <==> exists k :: 0 <= k < |s| && Glob(s[k..], Lex(p).value)
    decreases |p|, 1
  {
    var i := 0;
    while i < |s|
      invariant 0 <= i <= |s| && forall k :: 0 <= k < i ==> !Glob(s[k..], Lex(p).value)
    {
      r := StrMatch(s[i..], p, behind);
      if r {
        return;
      }
      i := i + 1;
    }
    r := false;
  }
}
