/** remap_make_cache_key (remap/remap_db.c). */
module CacheKey {
  import opened Common
  import opened Base64
  import opened Query

  /** What the key is made of; the path and the query may be absent. */
  datatype Request = Request(proto: Str, host: Str, path: Option<Str>, query: Option<Str>)

  function Text(s: Option<Str>): Str { if s.Some? then s.value else [] }

  /** The lengths are kept in one byte or in two, and that many bytes are copied. */
  function Cut8(s: Str): (r: Str)
    ensures |r| < 256 && (r == s <==> |s| < 256)
  {
    s[..|s| % 256]
  }

  function Cut16(s: Str): (r: Str)
    ensures |r| < 0x1_0000 && (r == s <==> |s| < 0x1_0000)
  {
    s[..|s| % 0x1_0000]
  }

  /** A number below 16 as a byte. */
  function Nibble(d: nat): bv8
    requires d < 16
  {
    if d == 0 then 0 else if d == 1 then 1 else if d == 2 then 2 else if d == 3 then 3 else if d == 4 then 4 else
    if d == 5 then 5 else if d == 6 then 6 else if d == 7 then 7 else if d == 8 then 8 else if d == 9 then 9 else
    if d == 10 then 10 else if d == 11 then 11 else if d == 12 then 12
    else if d == 13 then 13 else if d == 14 then 14 else 15
  }

  /** The low byte of a number. */
  function Byte(n: nat): bv8 {
    (Nibble(n / 16 % 16) << 4) | Nibble(n % 16)
  }

  /** A field of one or two length bytes and the bytes themselves. */
  function Field8(s: Str, byte: nat -> bv8): (f: Str)
    ensures |f| == 1 + |s|
  {
    [byte(|s|)] + s
  }

  function Field16(s: Str, byte: nat -> bv8): (f: Str)
    ensures |f| == 2 + |s|
  {
    [byte(|s|), byte(|s| / 256)] + s
  }

  /** The bytes that are encoded. */
  function Packed(r: Request, byte: nat -> bv8): Str {
    Field8(Cut8(r.proto), byte) + (Field8(Cut8(r.host), byte) +
    (Field16(Cut16(Text(r.path)), byte) + Field16(Cut16(Text(r.query)), byte)))
  }

  function Key(r: Request): Str { [47] + Encoding(Packed(r, Byte)) }

  /** The low byte tells numbers below 256 apart. */
  ghost predicate Tells(byte: nat -> bv8) {
    forall a: nat, b: nat {:trigger byte(a), byte(b)} :: byte(a) == byte(b) ==> a % 256 == b % 256
  }

  lemma NibbleInjective(a: nat, b: nat)
    requires a < 16 && b < 16
    ensures Nibble(a) == Nibble(b) <==> a == b
    ensures Nibble(a) < 16
  {
  }

  lemma NibblesPart(w: bv8, x: bv8, y: bv8, z: bv8)
    requires w < 16 && x < 16 && y < 16 && z < 16 && (w << 4) | x == (y << 4) | z
    ensures w == y && x == z
  {
  }

  lemma ByteInjective(a: nat, b: nat)
    requires Byte(a) == Byte(b)
    ensures a % 256 == b % 256
  {
    NibbleInjective(a / 16 % 16, b / 16 % 16);
    NibbleInjective(b / 16 % 16, a / 16 % 16);
    NibbleInjective(a % 16, b % 16);
    NibbleInjective(b % 16, a % 16);
    NibblesPart(Nibble(a / 16 % 16), Nibble(a % 16), Nibble(b / 16 % 16), Nibble(b % 16));
    Digits(a);
    Digits(b);
  }

  lemma Digits(n: nat)
    ensures n % 256 == n / 16 % 16 * 16 + n % 16
  {
  }

  lemma NibbleIs(d: nat)
    requires d < 16
    ensures Nibble(d) as int == d
  {
  }

  lemma NibblesJoin(w: bv8, x: bv8)
    requires w < 16 && x < 16
    ensures ((w << 4) | x) as int == 16 * (w as int) + x as int
  {
  }

  /** The byte stands for the number. */
  lemma ByteIs(n: nat)
    ensures Byte(n) as int == n % 256
  {
    NibbleIs(n / 16 % 16);
    NibbleIs(n % 16);
    NibblesJoin(Nibble(n / 16 % 16), Nibble(n % 16));
    Digits(n);
  }

  ghost predicate Writes(byte: nat -> bv8) {
    forall n: nat {:trigger byte(n)} :: byte(n) as int == n % 256
  }

  lemma ByteWrites()
    ensures Writes(Byte)
  {
    forall n: nat
      ensures Byte(n) as int == n % 256
    {
      ByteIs(n);
    }
  }

  lemma ByteTells()
    ensures Tells(Byte)
  {
    forall a: nat, b: nat | Byte(a) == Byte(b)
      ensures a % 256 == b % 256
    {
      ByteInjective(a, b);
    }
  }

  lemma Field8Injective(x: Str, r: Str, y: Str, t: Str, byte: nat -> bv8)
    requires Tells(byte) && |x| < 256 && |y| < 256 && Field8(x, byte) + r == Field8(y, byte) + t
    ensures x == y && r == t
  {
    var a, b := Field8(x, byte) + r, Field8(y, byte) + t;
    assert a[0] == byte(|x|) && b[0] == byte(|y|);
    assert a[1..1 + |x|] == x && b[1..1 + |y|] == y;
    assert a[1 + |x|..] == r && b[1 + |y|..] == t;
  }

  lemma TwoBytesTell(m: nat, n: nat, byte: nat -> bv8)
    requires Tells(byte) && m < 0x1_0000 && n < 0x1_0000 && byte(m) == byte(n) && byte(m / 256) == byte(n / 256)
    ensures m == n
  {
    assert m % 256 == n % 256 && (m / 256) % 256 == (n / 256) % 256;
  }

  lemma Field16Injective(x: Str, r: Str, y: Str, t: Str, byte: nat -> bv8)
    requires Tells(byte) && |x| < 0x1_0000 && |y| < 0x1_0000 && Field16(x, byte) + r == Field16(y, byte) + t
    ensures x == y && r == t
  {
    var a, b := Field16(x, byte) + r, Field16(y, byte) + t;
    assert a[0] == byte(|x|) && b[0] == byte(|y|) && a[1] == byte(|x| / 256) && b[1] == byte(|y| / 256);
    TwoBytesTell(|x|, |y|, byte);
    assert a[2..2 + |x|] == x && b[2..2 + |y|] == y;
    assert a[2 + |x|..] == r && b[2 + |y|..] == t;
  }

  /** A reader of a field: its length, the low byte first, and what follows. */
  function Read8(s: Str): Option<(Str, Str)> {
    if s == [] then None
    else
      var n := s[0] as int;
      if 1 + n <= |s| then Some((s[1..1 + n], s[1 + n..])) else None
  }

  function Read16(s: Str): Option<(Str, Str)> {
    if |s| < 2 then None
    else
      var n := s[0] as int + 256 * (s[1] as int);
      if 2 + n <= |s| then Some((s[2..2 + n], s[2 + n..])) else None
  }

  lemma Read8Back(x: Str, r: Str, byte: nat -> bv8)
    requires |x| < 256 && Writes(byte)
    ensures Read8(Field8(x, byte) + r) == Some((x, r))
  {
    OneByteReads(Field8(x, byte) + r, x, r, byte(|x|));
  }

  lemma OneByteReads(s: Str, x: Str, r: Str, n: bv8)
    requires s == [n] + x + r && n as int == |x|
    ensures Read8(s) == Some((x, r))
  {
    assert s[0] == n && s[1..1 + |x|] == x && s[1 + |x|..] == r;
  }

  lemma Read16Back(x: Str, r: Str, byte: nat -> bv8)
    requires |x| < 0x1_0000 && Writes(byte)
    ensures Read16(Field16(x, byte) + r) == Some((x, r))
  {
    var s := Field16(x, byte) + r;
    TwoBytesAre(|x|);
    assert s[0] == byte(|x|) && s[1] == byte(|x| / 256) && s[2..2 + |x|] == x && s[2 + |x|..] == r;
  }

  lemma TwoBytesAre(n: nat)
    requires n < 0x1_0000
    ensures n % 256 + 256 * (n / 256 % 256) == n
  {
  }

  function ReadFields(s: Str): Option<Request> {
    var proto := Read8(s);
    var host := if proto.Some? then Read8(proto.value.1) else None;
    var path := if host.Some? then Read16(host.value.1) else None;
    var query := if path.Some? then Read16(path.value.1) else None;
    if query.Some? && query.value.1 == []
    then Some(Request(proto.value.0, host.value.0, Some(path.value.0), Some(query.value.0))) else None
  }

  lemma ReadFieldsBack(proto: Str, host: Str, path: Str, query: Str, byte: nat -> bv8)
    requires Writes(byte) && |proto| < 256 && |host| < 256 && |path| < 0x1_0000 && |query| < 0x1_0000
    ensures ReadFields(Field8(proto, byte) + (Field8(host, byte) + (Field16(path, byte) + Field16(query, byte)))) ==
            Some(Request(proto, host, Some(path), Some(query)))
  {
    var q := Field16(query, byte);
    assert q + [] == q;
    Read16Back(query, [], byte);
    Read16Back(path, q, byte);
    Read8Back(host, Field16(path, byte) + q, byte);
    Read8Back(proto, Field8(host, byte) + (Field16(path, byte) + q), byte);
  }

  lemma PackedReads(r: Request, byte: nat -> bv8)
    requires Writes(byte)
    ensures ReadFields(Packed(r, byte)) ==
            Some(Request(Cut8(r.proto), Cut8(r.host), Some(Cut16(Text(r.path))), Some(Cut16(Text(r.query)))))
  {
    ReadFieldsBack(Cut8(r.proto), Cut8(r.host), Cut16(Text(r.path)), Cut16(Text(r.query)), byte);
  }

  /** Behind the slash the key is the encoding of the four fields, as the reader finds them. */
  lemma KeyReads(r: Request)
    ensures Key(r) != [] && Key(r)[0] == 47 && Decoding(Key(r)[1..]).Some?
    ensures ReadFields(Decoding(Key(r)[1..]).value) ==
            Some(Request(Cut8(r.proto), Cut8(r.host), Some(Cut16(Text(r.path))), Some(Cut16(Text(r.query)))))
  {
    assert Key(r)[1..] == Encoding(Packed(r, Byte));
    RoundTrip(Packed(r, Byte));
    ByteWrites();
    PackedReads(r, Byte);
  }

  /** Two requests have the same key exactly when what fits of them is the same, an
      absent part being the same as an empty one. */
  lemma KeyIff(a: Request, b: Request)
    ensures Key(a) == Key(b) <==> (Cut8(a.proto) == Cut8(b.proto) && Cut8(a.host) == Cut8(b.host) &&
                                   Cut16(Text(a.path)) == Cut16(Text(b.path)) &&
                                   Cut16(Text(a.query)) == Cut16(Text(b.query)))
  {
    if Key(a) == Key(b) {
      assert Key(a)[1..] == Encoding(Packed(a, Byte)) && Key(b)[1..] == Encoding(Packed(b, Byte));
      RoundTrip(Packed(a, Byte));
      RoundTrip(Packed(b, Byte));
      ByteTells();
      PackedInjective(a, b, Byte);
    }
  }

  lemma PackedInjective(a: Request, b: Request, byte: nat -> bv8)
    requires Tells(byte) && Packed(a, byte) == Packed(b, byte)
    ensures Cut8(a.proto) == Cut8(b.proto) && Cut8(a.host) == Cut8(b.host)
    ensures Cut16(Text(a.path)) == Cut16(Text(b.path)) && Cut16(Text(a.query)) == Cut16(Text(b.query))
  {
    var (a4, b4) := (Field16(Cut16(Text(a.query)), byte), Field16(Cut16(Text(b.query)), byte));
    var (a3, b3) := (Field16(Cut16(Text(a.path)), byte) + a4, Field16(Cut16(Text(b.path)), byte) + b4);
    var (a2, b2) := (Field8(Cut8(a.host), byte) + a3, Field8(Cut8(b.host), byte) + b3);
    Field8Injective(Cut8(a.proto), a2, Cut8(b.proto), b2, byte);
    Field8Injective(Cut8(a.host), a3, Cut8(b.host), b3, byte);
    Field16Injective(Cut16(Text(a.path)), a4, Cut16(Text(b.path)), b4, byte);
    assert a4 + [] == a4 && b4 + [] == b4;
    Field16Injective(Cut16(Text(a.query)), [], Cut16(Text(b.query)), [], byte);
  }

  predicate Fits(r: Request) {
    |r.proto| < 256 && |r.host| < 256 && |Text(r.path)| < 0x1_0000 && |Text(r.query)| < 0x1_0000
  }

  predicate Same(a: Request, b: Request) {
    a.proto == b.proto && a.host == b.host && Text(a.path) == Text(b.path) && Text(a.query) == Text(b.query)
  }

  /** What is left of a request in its key. */
  function Shortened(r: Request): Request {
    Request(Cut8(r.proto), Cut8(r.host), Some(Cut16(Text(r.path))), Some(Cut16(Text(r.query))))
  }

  /** The key tells a request from all that fit exactly when it fits itself. */
  lemma KeyTellsIff(r: Request)
    ensures (forall s :: Fits(s) && Key(s) == Key(r) ==> Same(s, r)) <==> Fits(r)
  {
    var s := Shortened(r);
    KeyIff(s, r);
    if Fits(r) {
      forall s | Fits(s) && Key(s) == Key(r)
        ensures Same(s, r)
      {
        KeyIff(s, r);
      }
    } else {
      assert Fits(s) && Key(s) == Key(r) && !Same(s, r);
    }
  }

  const HTTP: Str := [104, 116, 116, 112]

  /** A collision: a host of 256 bytes and an empty one. */
  lemma Collides(host: Str)
    requires |host| == 256
    ensures var a, b := Request(HTTP, host, None, None), Request(HTTP, [], None, None); Key(a) == Key(b) && !Same(a, b)
  {
    KeyIff(Request(HTTP, host, None, None), Request(HTTP, [], None, None));
  }

  /** The buffer that is encoded, filled from front to back. */
  method Pack(r: Request, byte: nat -> bv8) returns (buf: Str)
    ensures buf == Packed(r, byte)
  {
    var protoLen, hostLen := |r.proto| % 256, |r.host| % 256;
    var pathLen, queryLen := 0, 0;
    if r.path.Some? {
      pathLen := |r.path.value| % 0x1_0000;
    }
    if r.query.Some? {
      queryLen := |r.query.value| % 0x1_0000;
    }
    var head := [byte(protoLen)] + r.proto[..protoLen] + [byte(hostLen)] + r.host[..hostLen];
    var path := [byte(pathLen), byte(pathLen / 256)];
    if r.path.Some? {
      path := path + r.path.value[..pathLen];
    }
    var query := [byte(queryLen), byte(queryLen / 256)];
    if r.query.Some? {
      query := query + r.query.value[..queryLen];
    }
    assert path == Field16(Cut16(Text(r.path)), byte) && query == Field16(Cut16(Text(r.query)), byte);
    Regroup(Field8(Cut8(r.proto), byte), Field8(Cut8(r.host), byte), path, query);
    assert head == Field8(Cut8(r.proto), byte) + Field8(Cut8(r.host), byte);
    buf := head + path + query;
  }

  /** remap_make_cache_key. */
  method MakeCacheKey(r: Request) returns (key: Str)
    ensures key == Key(r)
  {
    var buf := Pack(r, Byte);
    var e := Encode(buf);
    key := [47] + e;
  }

  lemma Regroup(a: Str, b: Str, c: Str, d: Str)
    ensures (a + b) + c + d == a + (b + (c + d))
  {
  }
}
