/** base64_encode and base64_decode (util/base64.c), against section 4 of RFC 4648. */
module Base64 {
  import opened Common

  const PAD: bv8 := 61

  /** b64table. */
  function Digit(d: bv8): bv8 {
    if d < 26 then d + 65 else if d < 52 then d + 71 else if d < 62 then d - 4 else if d == 62 then 43 else 47
  }

  /** b64untable; 255 stands for -1. */
  function Value(c: bv8): bv8 {
    if 65 <= c <= 90 then c - 65
    else if 97 <= c <= 122 then c - 71
    else if 48 <= c <= 57 then c + 4
    else if c == 43 then 62
    else if c == 47 then 63
    else if c == PAD then 0
    else 255
  }

  /** The alphabet of table 1 of RFC 4648: A to Z, a to z, 0 to 9, plus and slash. */
  lemma AlphabetIs(d: bv8)
    requires d < 63
    ensures Digit(0) == 65 && Digit(26) == 97 && Digit(52) == 48 && Digit(62) == 43 && Digit(63) == 47
    ensures d != 25 && d != 51 && d < 61 ==> Digit(d + 1) == Digit(d) + 1
  {
  }

  lemma DigitValue(d: bv8)
    requires d < 64
    ensures Value(Digit(d)) == d && Digit(d) != PAD
  {
  }

  /** Three bytes as a 24-bit number. */
  function Joint(a: bv8, b: bv8, c: bv8): bv32 { (a as bv32 << 16) | (b as bv32 << 8) | (c as bv32) }

  /** Up to three bytes as a 24-bit number, padded with zero bits. */
  function Number(g: seq<bv8>): bv32
    requires 0 < |g| <= 3
  {
    Joint(g[0], if |g| > 1 then g[1] else 0, if |g| > 2 then g[2] else 0)
  }

  /** The six-bit digit of a 24-bit number that starts at a bit. */
  function Sextet(n: bv32, shift: bv32): bv8
    requires shift <= 18
  {
    ((n >> shift) & 63) as bv8
  }

  /** Four digits as letters, those behind n bytes as pads. */
  function Letters(w: bv8, x: bv8, y: bv8, z: bv8, n: nat): (q: seq<bv8>)
    ensures |q| == 4
  {
    [Digit(w), Digit(x), if n > 1 then Digit(y) else PAD, if n > 2 then Digit(z) else PAD]
  }

  /** Four letters for up to three bytes: digits that hold no bit of them are pads. */
  function Quad(g: seq<bv8>): (r: seq<bv8>)
    requires 0 < |g| <= 3
    ensures |r| == 4
  {
    var n := Number(g);
    Letters(Sextet(n, 18), Sextet(n, 12), Sextet(n, 6), Sextet(n, 0), |g|)
  }

  function Three(n: nat): (m: nat)
    ensures m <= n && m <= 3 && (n > 0 ==> m > 0)
  {
    if n > 3 then 3 else n
  }

  /** The encoding of the standard. */
  function Encoding(s: seq<bv8>): seq<bv8>
    decreases |s|
  {
    if s == [] then [] else Quad(s[..Three(|s|)]) + Encoding(s[Three(|s|)..])
  }

  lemma {:induction false} EncodingLength(s: seq<bv8>)
    ensures |Encoding(s)| == 4 * ((|s| + 2) / 3)
    decreases |s|
  {
    if s != [] {
      EncodingLength(s[Three(|s|)..]);
    }
  }

  /** One round of base64_encode: the digits from the bits of up to three bytes. */
  method EncodeGroup(g: seq<bv8>) returns (r: seq<bv8>)
    requires 0 < |g| <= 3
    ensures r == Quad(g)
  {
    var d0, d1, d2, d3: bv8 := 0, 0, 0, 0;
    if |g| >= 3 {
      d3 := d3 | (g[2] & 0x3F);
      d2 := d2 | ((g[2] & 0xC0) >> 6);
    }
    if |g| >= 2 {
      d2 := d2 | ((g[1] & 0x0F) << 2);
      d1 := d1 | ((g[1] & 0xF0) >> 4);
    }
    d0 := (g[0] & 0xFC) >> 2;
    d1 := d1 | ((g[0] & 0x03) << 4);
    r := [Digit(d0), Digit(d1)];
    if |g| >= 3 {
      r := r + [Digit(d2), Digit(d3)];
    } else if |g| == 2 {
      r := r + [Digit(d2), PAD];
    } else {
      r := r + [PAD, PAD];
    }
  }

  lemma NextGroup(s: seq<bv8>, at: nat, r: seq<bv8>)
    requires at < |s|
    ensures var n := Three(|s| - at); r + Encoding(s[at..]) == (r + Quad(s[at..at + n])) + Encoding(s[at + n..])
  {
    var n, rest := Three(|s| - at), s[at..];
    assert rest[..n] == s[at..at + n] && rest[n..] == s[at + n..];
    assert r + (Quad(rest[..n]) + Encoding(rest[n..])) == (r + Quad(rest[..n])) + Encoding(rest[n..]);
  }

  /** base64_encode. */
  method Encode(s: seq<bv8>) returns (r: seq<bv8>)
    ensures r == Encoding(s)
  {
    r := [];
    var at := 0;
    while at < |s|
      invariant 0 <= at <= |s| && r + Encoding(s[at..]) == Encoding(s)
    {
      var todo := if |s| - at > 3 then 3 else |s| - at;
      NextGroup(s, at, r);
      var g := EncodeGroup(s[at..at + todo]);
      r := r + g;
      at := at + todo;
    }
  }

  /** The bytes that four digits stand for. */
  function Bytes(w: bv8, x: bv8, y: bv8, z: bv8): (r: seq<bv8>)
    ensures |r| == 3
  {
    [((x & 0x30) >> 4) | (w << 2), ((y & 0x3C) >> 2) | ((x & 0x0F) << 4), (z & 0x3F) | ((y & 0x03) << 6)]
  }

  /** The number of pads at the end of four letters. */
  function Pads(q: seq<bv8>): nat
    requires |q| == 4
  {
    (if q[3] == PAD then 1 else 0) + (if q[2] == PAD then 1 else 0)
  }

  /** The bytes of four letters, or nothing if they are not base64; 'more' letters
      follow. */
  function Unquad(q: seq<bv8>, more: bool): Option<seq<bv8>>
    requires |q| == 4
  {
    if q[1] == PAD || q[0] == PAD || (Pads(q) > 0 && more) ||
       Value(q[3]) == 255 || Value(q[2]) == 255 || Value(q[1]) == 255 || Value(q[0]) == 255
    then None
    else Some(Bytes(Value(q[0]), Value(q[1]), Value(q[2]), Value(q[3]))[..3 - Pads(q)])
  }

  /** What base64_decode returns. */
  function Decoding(s: seq<bv8>): Option<seq<bv8>>
    decreases |s|
  {
    if |s| < 4 then Some([])
    else
      match Unquad(s[..4], |s| > 4)
      case None => None
      case Some(g) =>
        if Pads(s[..4]) > 0 then Some(g)
        else match Decoding(s[4..]) case None => None case Some(r) => Some(g + r)
  }

  /** out followed by what is decoded, if anything is. */
  function Behind(out: seq<bv8>, r: Option<seq<bv8>>): Option<seq<bv8>> {
    match r case None => None case Some(d) => Some(out + d)
  }

  /** base64_decode. */
  method Decode(s: seq<bv8>) returns (r: Option<seq<bv8>>)
    ensures r == Decoding(s)
  {
    var out, at := [], 0;
    assert s[0..] == s;
    if Decoding(s).Some? {
      assert [] + Decoding(s).value == Decoding(s).value;
    }
    while |s| - at >= 4
      invariant 0 <= at <= |s| && Decoding(s) == Behind(out, Decoding(s[at..]))
    {
      ghost var rest := s[at..];
      var q := s[at..at + 4];
      assert rest[..4] == q && rest[4..] == s[at + 4..];
      var g := Unquad(q, |s| - at > 4);
      if g.None? {
        return None;
      }
      if Pads(q) > 0 {
        return Some(out + g.value);
      }
      Joined(out, g.value, Decoding(s[at + 4..]));
      out := out + g.value;
      at := at + 4;
    }
    r := Some(out);
    assert out + [] == out;
  }

  lemma Joined(a: seq<bv8>, b: seq<bv8>, r: Option<seq<bv8>>)
    ensures Behind(a, Behind(b, r)) == Behind(a + b, r)
  {
    if r.Some? {
      assert a + (b + r.value) == a + b + r.value;
    }
  }

  // ---------------------------------------------------------------- what is accepted

  /** A letter of the alphabet of the standard. */
  predicate Letter(c: bv8) {
    65 <= c <= 90 || 97 <= c <= 122 || 48 <= c <= 57 || c == 43 || c == 47
  }

  /** The strings that are accepted: all complete groups of four are letters, except that
      the third and the fourth letter of a group that ends the string may be pads. */
  predicate Accepted(s: seq<bv8>) {
    forall i :: 0 <= i < |s| - |s| % 4 ==> AcceptedAt(s, i)
  }

  predicate AcceptedAt(s: seq<bv8>, i: nat)
    requires i < |s|
  {
    Letter(s[i]) || (s[i] == PAD && i % 4 >= 2 && i - i % 4 + 4 == |s|)
  }

  /** The same for four letters. */
  predicate AcceptedQuad(q: seq<bv8>, more: bool)
    requires |q| == 4
  {
    Letter(q[0]) && Letter(q[1]) && (Letter(q[2]) || (q[2] == PAD && !more)) && (Letter(q[3]) || (q[3] == PAD && !more))
  }

  lemma ValueIs(c: bv8)
    ensures Value(c) == 255 <==> !Letter(c) && c != PAD
    ensures Letter(c) ==> c != PAD
  {
  }

  lemma QuadIff(q: seq<bv8>, more: bool)
    requires |q| == 4
    ensures Unquad(q, more).Some? <==> AcceptedQuad(q, more)
  {
    ValueIs(q[0]);
    ValueIs(q[1]);
    ValueIs(q[2]);
    ValueIs(q[3]);
  }

  lemma AcceptedFirst(s: seq<bv8>)
    requires |s| >= 4
    ensures Accepted(s) <==> AcceptedQuad(s[..4], |s| > 4) && Accepted(s[4..])
  {
    var t := s[4..];
    assert |t| % 4 == |s| % 4;
    if Accepted(s) {
      assert AcceptedAt(s, 0) && AcceptedAt(s, 1) && AcceptedAt(s, 2) && AcceptedAt(s, 3);
      forall i | 0 <= i < |t| - |t| % 4
        ensures AcceptedAt(t, i)
      {
        assert AcceptedAt(s, i + 4);
      }
    }
    if AcceptedQuad(s[..4], |s| > 4) && Accepted(t) {
      forall i | 0 <= i < |s| - |s| % 4
        ensures AcceptedAt(s, i)
      {
        if i >= 4 {
          assert AcceptedAt(t, i - 4);
        } else {
          assert s[..4][i] == s[i];
        }
      }
    }
  }

  /** base64_decode fails exactly on what is not accepted. */
  lemma {:induction false} DecodingIff(s: seq<bv8>)
    ensures Decoding(s).Some? <==> Accepted(s)
    decreases |s|
  {
    if |s| >= 4 {
      AcceptedFirst(s);
      QuadIff(s[..4], |s| > 4);
      DecodingIff(s[4..]);
    }
  }

  /** Two strings outside the standard that are accepted: AB=C, which gives two bytes, and
      ABCDE, whose last letter is ignored. */
  lemma Lenient()
    ensures Decoding([65, 66, PAD, 67]).Some? && Decoding([65, 66, 67, 68, 69]).Some?
  {
    DecodingIff([65, 66, PAD, 67]);
    DecodingIff([65, 66, 67, 68, 69]);
  }

  // ---------------------------------------------------------------- the round trip

  lemma BitsBack(a: bv8, b: bv8, c: bv8)
    ensures var n := Joint(a, b, c);
      var (w, x, y, z) := (Sextet(n, 18), Sextet(n, 12), Sextet(n, 6), Sextet(n, 0));
      w < 64 && x < 64 && y < 64 && z < 64 && Bytes(w, x, y, z) == [a, b, c] &&
      (b == 0 && c == 0 ==> y == 0) && (c == 0 ==> z == 0)
  {
  }

  /** The four digits of a group hold its bytes. */
  lemma DigitsBack(g: seq<bv8>) returns (w: bv8, x: bv8, y: bv8, z: bv8)
    requires 0 < |g| <= 3
    ensures w < 64 && x < 64 && y < 64 && z < 64 && Bytes(w, x, y, z)[..|g|] == g
    ensures |g| < 2 ==> y == 0
    ensures |g| < 3 ==> z == 0
    ensures Quad(g) == Letters(w, x, y, z, |g|)
  {
    var a, b, c := g[0], if |g| > 1 then g[1] else 0, if |g| > 2 then g[2] else 0;
    BitsBack(a, b, c);
    var n := Number(g);
    w, x, y, z := Sextet(n, 18), Sextet(n, 12), Sextet(n, 6), Sextet(n, 0);
    assert [a, b, c][..|g|] == g;
  }

  lemma LettersBack(w: bv8, x: bv8, y: bv8, z: bv8, n: nat, more: bool)
    requires w < 64 && x < 64 && y < 64 && z < 64 && 0 < n <= 3 && (more ==> n == 3)
    requires n < 2 ==> y == 0
    requires n < 3 ==> z == 0
    ensures var q := Letters(w, x, y, z, n); Pads(q) == 3 - n && Unquad(q, more) == Some(Bytes(w, x, y, z)[..n])
  {
    DigitValue(w);
    DigitValue(x);
    DigitValue(y);
    DigitValue(z);
  }

  lemma QuadInverse(g: seq<bv8>, more: bool)
    requires 0 < |g| <= 3 && (more ==> |g| == 3)
    ensures Pads(Quad(g)) == 3 - |g| && Unquad(Quad(g), more) == Some(g)
  {
    var w, x, y, z := DigitsBack(g);
    LettersBack(w, x, y, z, |g|, more);
  }

  /** Decoding an encoding gives the bytes back. */
  lemma {:induction false} RoundTrip(s: seq<bv8>)
    ensures Decoding(Encoding(s)) == Some(s)
    decreases |s|
  {
    if s != [] {
      var n := Three(|s|);
      var g, rest := s[..n], s[n..];
      assert s == g + rest;
      RoundTrip(rest);
      EncodingLength(rest);
      QuadInverse(g, rest != []);
      OneGroup(g, Quad(g), rest, Encoding(rest));
    }
  }

  /** One group in front of what decodes. */
  lemma OneGroup(g: seq<bv8>, q: seq<bv8>, rest: seq<bv8>, e: seq<bv8>)
    requires |q| == 4 && 0 < |g| <= 3 && (rest != [] ==> |g| == 3) && (e == [] <==> rest == [])
    requires Pads(q) == 3 - |g| && Unquad(q, rest != []) == Some(g) && Decoding(e) == Some(rest)
    ensures Decoding(q + e) == Some(g + rest)
  {
    assert (q + e)[..4] == q && (q + e)[4..] == e;
    assert rest == [] ==> g + rest == g;
  }

  // ---------------------------------------------------------------- what an encoder writes

  /** Pads at the end only, and no bit set that is not of a byte. */
  predicate CanonicalQuad(q: seq<bv8>)
    requires |q| == 4
  {
    if q[2] == PAD then q[3] == PAD && Value(q[1]) & 0x0F == 0
    else q[3] == PAD ==> Value(q[2]) & 0x03 == 0
  }

  /** The encodings of sections 3.2, 3.5 and 4 of RFC 4648: whole groups of letters, the
      last with pads at its end and zero bits before them. */
  predicate Canonical(s: seq<bv8>) {
    Accepted(s) && |s| % 4 == 0 && (s != [] ==> CanonicalQuad(s[|s| - 4..]))
  }

  lemma ValueDigit(c: bv8)
    requires Letter(c)
    ensures Value(c) < 64 && Digit(Value(c)) == c
  {
  }

  lemma DigitIff(d: bv8, e: bv8)
    requires d < 64 && e < 64
    ensures Digit(d) == Digit(e) <==> d == e
  {
    DigitValue(d);
    DigitValue(e);
  }

  lemma BytesBack(w: bv8, x: bv8, y: bv8, z: bv8)
    requires w < 64 && x < 64 && y < 64 && z < 64
    ensures var r := Bytes(w, x, y, z); var n := Joint(r[0], r[1], r[2]);
      Sextet(n, 18) == w && Sextet(n, 12) == x && Sextet(n, 6) == y && Sextet(n, 0) == z
  {
  }

  lemma TwoBack(w: bv8, x: bv8, y: bv8, z: bv8)
    requires w < 64 && x < 64 && y < 64 && z < 64
    ensures var r := Bytes(w, x, y, z); var n := Joint(r[0], r[1], 0);
      Sextet(n, 18) == w && Sextet(n, 12) == x && Sextet(n, 6) == y & 0x3C
  {
  }

  lemma OneBack(w: bv8, x: bv8, y: bv8, z: bv8)
    requires w < 64 && x < 64 && y < 64 && z < 64
    ensures var n := Joint(Bytes(w, x, y, z)[0], 0, 0); Sextet(n, 18) == w && Sextet(n, 12) == x & 0x30
  {
  }

  lemma LowBits(x: bv8)
    requires x < 64
    ensures x & 0x30 < 64 && x & 0x3C < 64
    ensures x & 0x30 == x <==> x & 0x0F == 0
    ensures x & 0x3C == x <==> x & 0x03 == 0
  {
  }

  lemma QuadBack(q: seq<bv8>, more: bool)
    requires |q| == 4 && Unquad(q, more).Some?
    ensures 0 < |Unquad(q, more).value| <= 3
    ensures Quad(Unquad(q, more).value) == q <==> CanonicalQuad(q)
  {
    QuadIff(q, more);
    var w, x, y, z := Value(q[0]), Value(q[1]), Value(q[2]), Value(q[3]);
    ValueDigit(q[0]);
    ValueDigit(q[1]);
    if q[2] != PAD {
      ValueDigit(q[2]);
    }
    if q[3] != PAD {
      ValueDigit(q[3]);
    }
    BytesBack(w, x, y, z);
    TwoBack(w, x, y, z);
    OneBack(w, x, y, z);
    LowBits(x);
    LowBits(y);
    DigitIff(x & 0x30, x);
    DigitIff(y & 0x3C, y);
    DigitValue(y & 0x3C);
  }

  lemma EncodingFirst(g: seq<bv8>, r: seq<bv8>)
    requires |g| == 3 || (0 < |g| <= 3 && r == [])
    ensures Encoding(g + r) == Quad(g) + Encoding(r)
  {
    assert (g + r)[..|g|] == g && (g + r)[|g|..] == r;
  }

  lemma DecodingFirst(s: seq<bv8>, q: seq<bv8>, t: seq<bv8>)
    requires Accepted(s) && |q| == 4 && s == q + t
    ensures Unquad(q, t != []).Some? && Decoding(s).Some?
    ensures var g := Unquad(q, t != []).value;
      if Pads(q) > 0 then t == [] && Decoding(s).value == g
      else |g| == 3 && Decoding(t).Some? && Decoding(s).value == g + Decoding(t).value
  {
    assert s[..4] == q && s[4..] == t;
    DecodingIff(s);
  }

  lemma CanonicalFirst(s: seq<bv8>, q: seq<bv8>, t: seq<bv8>)
    requires Accepted(s) && |q| == 4 && s == q + t
    ensures Canonical(s) <==> CanonicalQuad(q) && Canonical(t)
  {
    assert s[..4] == q && s[4..] == t;
    AcceptedFirst(s);
    assert |s| == |t| + 4 && |s| % 4 == |t| % 4;
    if |t| >= 4 {
      assert t[|t| - 4..] == s[|s| - 4..];
    } else if t == [] {
      assert s[|s| - 4..] == q;
    }
  }

  lemma SameFirst(q: seq<bv8>, t: seq<bv8>, q': seq<bv8>, t': seq<bv8>)
    requires |q| == |q'|
    ensures q + t == q' + t' <==> q == q' && t == t'
  {
    if q + t == q' + t' {
      assert q == (q + t)[..|q|] && t == (q + t)[|q|..] && q' == (q' + t')[..|q|] && t' == (q' + t')[|q|..];
    }
  }

  /** Encoding what was decoded gives the string back exactly if it is canonical.  The
      other strings that are accepted have letters behind the last group of four, a pad
      before a letter, or bits set behind the last byte. */
  lemma {:induction false} CanonicalIff(s: seq<bv8>)
    ensures Decoding(s).Some? && Encoding(Decoding(s).value) == s <==> Canonical(s)
    decreases |s|
  {
    DecodingIff(s);
    if |s| >= 4 && Accepted(s) {
      var q, t := s[..4], s[4..];
      assert s == q + t;
      DecodingFirst(s, q, t);
      CanonicalFirst(s, q, t);
      QuadBack(q, t != []);
      var g, r := Unquad(q, t != []).value, if Pads(q) > 0 then [] else Decoding(t).value;
      EncodingFirst(g, r);
      SameFirst(Quad(g), Encoding(r), q, t);
      assert g + [] == g;
      if Pads(q) == 0 {
        CanonicalIff(t);
      }
    }
  }
}
