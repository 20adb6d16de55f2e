/** The last-distance cache and the distance codes that refer to it, as section 4
    of RFC 7932 defines them, and ComputeDistanceCode
    (contrib/brotli/enc/backward_references.c). */
module Distances {

  /** The last four distances, the latest first. */
  type Cache = c: seq<int> | |c| == 4 witness [4, 11, 15, 16]

  const SHORT_CODES: nat := 16

  /** kDistanceCacheIndex and kDistanceCacheOffset. */
  const INDEX: seq<nat> := [0, 1, 2, 3, 0, 0, 0, 0, 0, 0, 1, 1, 1, 1, 1, 1]
  const OFFSET: seq<int> := [0, 0, 0, 0, -1, 1, -2, 2, -3, 3, -1, 1, -2, 2, -3, 3]

  /** The distance a decoder reads from a distance code (no postfix bits and no
      direct codes). */
  function Decode(code: nat, c: Cache): int {
    if code < 16 then c[INDEX[code]] + OFFSET[code] else code - 15
  }

  function Push(c: Cache, d: int): Cache {
    [d] + c[..3]
  }

  /** A distance beyond the window or the start of the stream is a reference to the
      static dictionary. */
  predicate InDictionary(d: int, copyStart: nat, maxBackward: nat) {
    d > copyStart || d > maxBackward
  }

  /** The cache after a command: code 0 and dictionary references leave it alone. */
  function After(c: Cache, code: nat, d: int, copyStart: nat, maxBackward: nat): Cache {
    if code == 0 || InDictionary(d, copyStart, maxBackward) then c else Push(c, d)
  }

  /** The 4-bit digit number n of the two packed tables. */
  function Digit(table: nat, n: nat): nat {
    if n == 0 then table % 16 else Digit(table / 16, n - 1)
  }

  const SIZE_MAX: nat := 0x1_0000_0000_0000_0000

  /** Unsigned subtraction on size_t. */
  function Minus(a: nat, b: int): nat {
    (a - b) % SIZE_MAX
  }

  /** ComputeDistanceCode. */
  function ComputeDistanceCode(distance: nat, maxDistance: nat, c: Cache): nat {
    if distance <= maxDistance then
      var offset0 := Minus(distance + 3, c[0]);
      var offset1 := Minus(distance + 3, c[1]);
      if distance == c[0] then 0
      else if distance == c[1] then 1
      else if offset0 < 7 then Digit(0x9750468, offset0)
      else if offset1 < 7 then Digit(0xFDB1ACE, offset1)
      else if distance == c[2] then 2
      else if distance == c[3] then 3
      else distance + SHORT_CODES - 1
    else distance + SHORT_CODES - 1
  }

  ghost predicate Sane(c: Cache) {
    forall i :: 0 <= i < 4 ==> 0 < c[i] < 0x8000_0000
  }

  lemma DigitsFirst(n: nat)
    requires n < 7
    ensures Digit(0x9750468, n) == [8, 6, 4, 0, 5, 7, 9][n]
  {
    assert Digit(0x9750468, 0) == 8;
    assert Digit(0x9750468, 1) == 6;
    assert Digit(0x9750468, 2) == 4;
    assert Digit(0x9750468, 3) == 0;
    assert Digit(0x9750468, 4) == 5;
    assert Digit(0x9750468, 5) == 7;
    assert Digit(0x9750468, 6) == 9;
  }

  lemma DigitsSecond(n: nat)
    requires n < 7
    ensures Digit(0xFDB1ACE, n) == [14, 12, 10, 1, 11, 13, 15][n]
  {
    assert Digit(0xFDB1ACE, 0) == 14;
    assert Digit(0xFDB1ACE, 1) == 12;
    assert Digit(0xFDB1ACE, 2) == 10;
    assert Digit(0xFDB1ACE, 3) == 1;
    assert Digit(0xFDB1ACE, 4) == 11;
    assert Digit(0xFDB1ACE, 5) == 13;
    assert Digit(0xFDB1ACE, 6) == 15;
  }

  lemma MinusSmall(a: nat, b: int)
    requires a < 0x1_0000_0000 && 0 < b < 0x8000_0000
    ensures Minus(a, b) < 7 <==> 0 <= a - b < 7
    ensures 0 <= a - b < 7 ==> Minus(a, b) == a - b
  {
    if a < b { assert (a - b) % SIZE_MAX == a - b + SIZE_MAX; }
  }

  lemma FirstDecodes(n: nat, c: Cache)
    requires n < 7
    ensures Decode(Digit(0x9750468, n), c) == c[0] + n - 3
  {
    DigitsFirst(n);
  }

  lemma SecondDecodes(n: nat, c: Cache)
    requires n < 7
    ensures Decode(Digit(0xFDB1ACE, n), c) == c[1] + n - 3
  {
    DigitsSecond(n);
  }

  /** The code it chooses decodes to the distance, short code or not. */
  lemma CodeDecodes(distance: nat, maxDistance: nat, c: Cache)
    requires 0 < distance < 0x8000_0000 && Sane(c)
    ensures Decode(ComputeDistanceCode(distance, maxDistance, c), c) == distance
    ensures distance > maxDistance ==> ComputeDistanceCode(distance, maxDistance, c) >= 16
  {
    var n0, n1 := Minus(distance + 3, c[0]), Minus(distance + 3, c[1]);
    MinusSmall(distance + 3, c[0]);
    MinusSmall(distance + 3, c[1]);
    if n0 < 7 { FirstDecodes(n0, c); }
    if n1 < 7 { SecondDecodes(n1, c); }
  }
}
