/** The buffered SHA-256 and SHA-512 contexts (crypt/crypt_sha256.c and
    crypt/crypt_sha512.c).  The compression function is any function. */
module Sha2 {
  import opened Common

  /** What the two files differ in: the block size in bytes and the word modulus. */
  datatype Kind = Sha256 | Sha512

  function Block(k: Kind): nat { if k.Sha256? then 64 else 128 }
  function Word(k: Kind): nat { if k.Sha256? then 0x1_0000_0000 else 0x1_0000_0000_0000_0000 }

  /** The bytes of the length field. */
  function Field(k: Kind): nat { if k.Sha256? then 8 else 16 }

  /** The remainder of a division by the block size. */
  function Rem(n: nat, k: Kind): nat { if k.Sha256? then n % 64 else n % 128 }

  /** A hash: its kind, the initial state and the compression function. */
  datatype Hash = Hash(k: Kind, init: seq<nat>, compress: (seq<nat>, seq<nat>) -> seq<nat>)

  predicate Whole(s: seq<nat>, k: Kind) { Rem(|s|, k) == 0 }

  lemma ModDown(n: nat, k: Kind)
    requires n >= Block(k)
    ensures Rem(n - Block(k), k) == Rem(n, k)
  {
  }

  /** The remainder is less than a block, and nothing of it is left without it. */
  lemma RemIs(n: nat, k: Kind)
    ensures Rem(n, k) <= n && Rem(n, k) < Block(k) && Rem(n - Rem(n, k), k) == 0 && Rem(Rem(n, k), k) == Rem(n, k)
  {
    if k.Sha256? {
      assert n == 64 * (n / 64) + n % 64;
      Mod64(n / 64, 0);
    } else {
      assert n == 128 * (n / 128) + n % 128;
      Mod128(n / 128, 0);
    }
  }

  lemma ModSum(a: nat, b: nat, k: Kind)
    requires Rem(a, k) == 0
    ensures Rem(a + b, k) == Rem(b, k)
  {
    if k.Sha256? {
      Mod64(a / 64, b);
    } else {
      Mod128(a / 128, b);
    }
  }

  lemma Mod64(q: nat, b: nat)
    ensures (64 * q + b) % 64 == b % 64
  {
    assert 64 * q + b == 64 * (q + b / 64) + b % 64;
  }

  lemma Mod128(q: nat, b: nat)
    ensures (128 * q + b) % 128 == b % 128
  {
    assert 128 * q + b == 128 * (q + b / 128) + b % 128;
  }

  /** The state after the blocks of s. */
  function Fold(h: Hash, state: seq<nat>, s: seq<nat>): seq<nat>
    decreases |s|
  {
    if |s| < Block(h.k) then state else Fold(h, h.compress(state, s[..Block(h.k)]), s[Block(h.k)..])
  }

  lemma {:induction false} FoldPlus(h: Hash, state: seq<nat>, a: seq<nat>, b: seq<nat>)
    requires Whole(a, h.k)
    ensures Fold(h, state, a + b) == Fold(h, Fold(h, state, a), b)
    decreases |a|
  {
    var n := Block(h.k);
    if a == [] {
      assert a + b == b;
    } else {
      ModDown(|a|, h.k);
      assert (a + b)[..n] == a[..n] && (a + b)[n..] == a[n..] + b;
      FoldPlus(h, h.compress(state, a[..n]), a[n..], b);
    }
  }

  /** n as w bytes, the most significant first. */
  function BigEndian(n: nat, w: nat): (r: seq<nat>)
    ensures |r| == w
  {
    if w == 0 then [] else BigEndian(n / 256, w - 1) + [n % 256]
  }

  /** The zeros between the 0x80 byte and the length field. */
  function Gap(n: nat, k: Kind): nat {
    var r, room := Rem(n, k), Block(k) - Field(k) - 1;
    if r <= room then room - r else room + Block(k) - r
  }

  /** They are the fewest that fill the last block. */
  lemma GapIs(n: nat, k: Kind)
    ensures Rem(n + 1 + Gap(n, k) + Field(k), k) == 0 && Gap(n, k) < Block(k)
  {
    var r := Rem(n, k);
    var m := r + 1 + Gap(n, k) + Field(k);
    assert m == Block(k) || m == 2 * Block(k);
    assert Rem(n - r, k) == 0;
    ModSum(n - r, m, k);
  }

  /** The padding of sections 5.1.1 and 5.1.2 of FIPS 180-2 for a message of n bytes
      whose length is given as c bytes. */
  function Padding(n: nat, c: nat, k: Kind): seq<nat> {
    [0x80] + Zeros(Gap(n, k)) + BigEndian((8 * c) % (Word(k) * Word(k)), Field(k))
  }

  /** The digest of a message at once. */
  function Digest(h: Hash, msg: seq<nat>): seq<nat> {
    Fold(h, h.init, msg + Padding(|msg|, |msg|, h.k))
  }

  /** The carry of the byte count as it is computed. */
  function Carry(t0: nat, len: nat, k: Kind): nat {
    if (t0 + len) % Word(k) < len then 1 else 0
  }

  /** The count is right exactly when the low word and the length are below twice the
      word modulus. */
  lemma CarryIff(t0: nat, len: nat, k: Kind)
    requires t0 < Word(k)
    ensures Carry(t0, len, k) == (t0 + len) / Word(k) <==> t0 + len < 2 * Word(k)
  {
    var w, s := Word(k), t0 + len;
    if s < w {
      assert s / w == 0 && s % w == s;
    } else if s < 2 * w {
      assert s / w == 1 && s % w == s - w;
    } else {
      assert s / w >= 2;
    }
  }

  // ---------------------------------------------------------------- the length field

  function Pow256(w: nat): (p: nat)
    ensures p > 0
  {
    if w == 0 then 1 else 256 * Pow256(w - 1)
  }

  lemma {:induction false} BigEndianJoin(hi: nat, lo: nat, v: nat, w: nat)
    requires lo < Pow256(w)
    ensures BigEndian(hi * Pow256(w) + lo, v + w) == BigEndian(hi, v) + BigEndian(lo, w)
    decreases w
  {
    if w > 0 {
      var p := Pow256(w - 1);
      LastDigit(hi, lo, p);
      BigEndianJoin(hi, lo / 256, v, w - 1);
    }
  }

  /** Dividing by 256 takes the last byte off. */
  lemma LastDigit(hi: nat, lo: nat, p: nat)
    requires lo < 256 * p
    ensures var n := hi * (256 * p) + lo; n / 256 == hi * p + lo / 256 && n % 256 == lo % 256 && lo / 256 < p
  {
    assert hi * (256 * p) == 256 * (hi * p);
  }

  lemma {:induction false} BigEndianZero(w: nat)
    ensures BigEndian(0, w) == Zeros(w)
  {
    if w > 0 {
      BigEndianZero(w - 1);
    }
  }

  /** The padding read as bits: a one, zeros, and the length in bits in the last field. */
  lemma PaddingIs(n: nat, c: nat, k: Kind)
    ensures var w := Gap(n, k) + Field(k);
      Padding(n, c, k) == BigEndian(128 * Pow256(w) + (8 * c) % (Word(k) * Word(k)), 1 + w)
  {
    WordIs(k);
    OneThenZeros(Gap(n, k), Field(k), (8 * c) % (Word(k) * Word(k)));
  }

  lemma OneThenZeros(g: nat, f: nat, l: nat)
    requires l < Pow256(f)
    ensures [0x80] + Zeros(g) + BigEndian(l, f) == BigEndian(128 * Pow256(g + f) + l, 1 + (g + f))
  {
    PowGrows(g, f);
    BigEndianZero(g);
    assert 0 * Pow256(f) + l == l;
    BigEndianJoin(0, l, g, f);
    BigEndianJoin(128, l, 1, g + f);
    assert BigEndian(128, 1) == [128];
    assert [128] + (Zeros(g) + BigEndian(l, f)) == [128] + Zeros(g) + BigEndian(l, f);
  }

  lemma {:induction false} PowGrows(a: nat, b: nat)
    ensures Pow256(a + b) >= Pow256(b)
    decreases a
  {
    if a > 0 {
      PowGrows(a - 1, b);
    }
  }

  lemma {:induction false} BigEndianInjective(a: nat, b: nat, w: nat)
    requires a < Pow256(w) && b < Pow256(w) && BigEndian(a, w) == BigEndian(b, w)
    ensures a == b
    decreases w
  {
    if w > 0 {
      var x, y := BigEndian(a, w), BigEndian(b, w);
      assert x[w - 1] == a % 256 && y[w - 1] == b % 256;
      assert x[..w - 1] == BigEndian(a / 256, w - 1) && y[..w - 1] == BigEndian(b / 256, w - 1);
      BigEndianInjective(a / 256, b / 256, w - 1);
    }
  }

  lemma WordIs(k: Kind)
    ensures Pow256(Field(k) / 2) == Word(k) && Pow256(Field(k)) == Word(k) * Word(k)
  {
    assert Pow256(2) == 65536;
    assert Pow256(4) == 65536 * 65536;
    assert Pow256(6) == 65536 * 65536 * 65536;
    assert Pow256(8) == 0x1_0000_0000_0000_0000;
    assert Pow256(10) == 65536 * Pow256(8);
    assert Pow256(12) == 65536 * Pow256(10);
    assert Pow256(14) == 65536 * Pow256(12);
    assert Pow256(16) == 65536 * Pow256(14);
  }

  /** The two words written at the end of the buffer. */
  function LowBits(total0: nat, k: Kind): nat { (8 * total0) % Word(k) }
  function HighBits(total0: nat, total1: nat, k: Kind): nat {
    ((8 * total1) % Word(k) + total0 / (Word(k) / 8)) % Word(k)
  }

  lemma DivUnique(x: nat, m: nat, q: nat, r: nat)
    requires m > 0 && x == m * q + r && r < m
    ensures x / m == q && x % m == r
  {
    var q' := x / m;
    assert x == m * q' + x % m;
    if q < q' {
      MulMono(m, q + 1, q');
    } else if q' < q {
      MulMono(m, q' + 1, q);
    }
  }

  lemma MulMono(m: nat, a: nat, b: nat)
    requires a <= b
    ensures m * a <= m * b
  {
  }

  lemma Eightfold(v: nat, c: nat, r: nat, t: nat)
    requires t == v * c + r
    ensures 8 * t == (8 * v) * c + 8 * r
  {
    assert 8 * (v * c) == (8 * v) * c;
  }

  /** Shifting the low word by three carries its top three bits. */
  lemma ShiftCarry(total0: nat, k: Kind)
    ensures 8 * total0 == Word(k) * (total0 / (Word(k) / 8)) + LowBits(total0, k)
  {
    var v := Word(k) / 8;
    var c, r := total0 / v, total0 % v;
    assert Word(k) == 8 * v;
    Eightfold(v, c, r, total0);
    DivUnique(8 * total0, Word(k), c, 8 * r);
  }

  lemma Regroup(w: nat, b: nat, d: nat, hi: nat, lo: nat, a: nat, c: nat)
    requires a + c == w * d + hi
    ensures w * c + lo + w * (w * b + a) == (w * w) * (b + d) + (w * hi + lo)
  {
    assert w * (w * b + a) == (w * w) * b + w * a;
    assert w * a + w * c == w * (a + c) == w * (w * d) + w * hi;
    assert w * (w * d) == (w * w) * d;
    assert (w * w) * (b + d) == (w * w) * b + (w * w) * d;
  }

  /** The two words together are the bit length, wrapped. */
  lemma BitsAre(total0: nat, total1: nat, hi: nat, k: Kind)
    requires total1 == hi % Word(k)
    ensures HighBits(total0, total1, k) * Word(k) + LowBits(total0, k) ==
            (8 * (total0 + Word(k) * hi)) % (Word(k) * Word(k))
  {
    var w := Word(k);
    var c, lo, high := total0 / (w / 8), LowBits(total0, k), HighBits(total0, total1, k);
    var a, b := (8 * total1) % w, (8 * total1) / w;
    var d := (a + c) / w;
    ShiftCarry(total0, k);
    var q := hi / w;
    assert 8 * hi == w * (8 * q + b) + a;
    Regroup(w, 8 * q + b, d, high, lo, a, c);
    assert 8 * (total0 + w * hi) == 8 * total0 + w * (8 * hi);
    assert w * high + lo < w * w by { MulMono(w, high + 1, w); }
    DivUnique(8 * (total0 + w * hi), w * w, 8 * q + b + d, w * high + lo);
  }

  /** The field as it is written is the bit length of c bytes, wrapped. */
  lemma FieldIs(total0: nat, total1: nat, hi: nat, c: nat, k: Kind)
    requires total1 == hi % Word(k) && c == total0 + Word(k) * hi
    ensures BigEndian(HighBits(total0, total1, k), Field(k) / 2) + BigEndian(LowBits(total0, k), Field(k) / 2) ==
            BigEndian((8 * c) % (Word(k) * Word(k)), Field(k))
  {
    WordIs(k);
    BitsAre(total0, total1, hi, k);
    BigEndianJoin(HighBits(total0, total1, k), LowBits(total0, k), Field(k) / 2, Field(k) / 2);
  }
}
