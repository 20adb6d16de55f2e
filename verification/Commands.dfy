/** Commands, and what a decoder makes of them (contrib/brotli/enc/command.h). */
module Commands {
  import opened Common
  import opened Distances

  /** What InitCommand is given. */
  datatype Command = Command(insertLen: nat, copyLen: nat, lenCode: nat, distCode: nat)

  /** 2^24: a copy length has 24 bits in the word of a command and in a Zopfli node. */
  const WIDE: nat := 0x100_0000

  /** The 32-bit word in which InitCommand stores a copy length and its code, and what
      CommandCopyLen and CommandCopyLenCode read from it. */
  function CopyWord(len: nat, code: nat): nat { Word(len, Xor(code, len)) }

  function Word(len: nat, x: nat): nat { len % WIDE + Or(len / WIDE, x) % 256 * WIDE }

  function WordCopyLen(w: nat): nat { w % WIDE }

  function WordLenCode(w: nat): nat { Xor(w % WIDE, w / WIDE) }

  lemma WordParts(len: nat, x: nat)
    ensures Word(len, x) % WIDE == len % WIDE && Word(len, x) / WIDE == Or(len / WIDE, x) % 256
    ensures len < WIDE ==> Word(len, x) / WIDE == x % 256
  {
  }

  lemma WordLen(len: nat, x: nat)
    ensures WordCopyLen(Word(len, x)) == len <==> len < WIDE
  {
    WordParts(len, x);
  }

  lemma WordCode(len: nat, code: nat, x: nat)
    requires len < WIDE && x == Xor(code, len)
    ensures WordLenCode(Word(len, x)) == code <==> x < 256
  {
    WordParts(len, x);
    XorIff(len, x % 256, code);
  }

  /** A copy length is read back exactly if it has 24 bits, and then its code exactly if
      the two differ in the low byte only. */
  lemma WordIff(len: nat, code: nat)
    ensures WordCopyLen(CopyWord(len, code)) == len <==> len < WIDE
    ensures len < WIDE ==> (WordLenCode(CopyWord(len, code)) == code <==> Xor(code, len) < 256)
  {
    WordLen(len, Xor(code, len));
    if len < WIDE {
      WordCode(len, code, Xor(code, len));
    }
  }

  /** The bytes a command list covers. */
  function Span(cs: seq<Command>): nat {
    if cs == [] then 0 else Span(cs[..|cs| - 1]) + cs[|cs| - 1].insertLen + cs[|cs| - 1].copyLen
  }

  function Literals(cs: seq<Command>): nat {
    if cs == [] then 0 else Literals(cs[..|cs| - 1]) + cs[|cs| - 1].insertLen
  }

  /** The last distances after decoding cs from stream position 'at' with cache c. */
  function CacheAfter(cs: seq<Command>, c: Cache, at: nat, maxBackward: nat): Cache {
    if cs == [] then c
    else
      var before, x := cs[..|cs| - 1], cs[|cs| - 1];
      var c' := CacheAfter(before, c, at, maxBackward);
      Distances.After(c', x.distCode, Decode(x.distCode, c'), at + Span(before) + x.insertLen, maxBackward)
  }

  /** The input of the encoder, the window, and the static dictionary: the bytes
      that word number 'id' gives for a length code. */
  datatype Stream = Stream(text: seq<nat>, maxBackward: nat, word: (nat, nat) -> seq<nat>)

  function MinNat(a: nat, b: nat): nat { if a < b then a else b }

  predicate Repeats(text: seq<nat>, k: int, d: int)
    requires 0 <= k - d && 0 <= k < |text| && 0 < d
  {
    text[k] == text[k - d]
  }

  /** The text has at p a copy of n bytes from distance d, with n as its length code, or
      the dictionary word that d stands for there.  Words have fewer than 256 bytes. */
  ghost predicate Copies(st: Stream, p: nat, d: int, n: nat, lenCode: nat) {
    p + n <= |st.text| && 0 < d &&
    if InDictionary(d, p, st.maxBackward) then
      n < 256 && lenCode < 256 && st.text[p..p + n] == st.word(d - MinNat(p, st.maxBackward) - 1, lenCode)
    else lenCode == n && forall k :: p <= k < p + n ==> Repeats(st.text, k, d)
  }

  /** Copying n bytes from distance d, byte by byte. */
  function CopyFrom(out: seq<nat>, d: int, n: nat): seq<nat>
    decreases n
  {
    if n == 0 || d <= 0 || d > |out| then out else CopyFrom(out + [out[|out| - d]], d, n - 1)
  }

  /** What a decoder does with one command after 'out': first the literals, which
      are the bytes of the text at that point, then the copy.  The stream tells it the
      literals, the length code and the distance code, not the copy length. */
  function Step(st: Stream, out: seq<nat>, x: Command, c: Cache): (seq<nat>, Cache) {
    var lits := out + st.text[MinNat(|out|, |st.text|)..MinNat(|out| + x.insertLen, |st.text|)];
    var d := Decode(x.distCode, c);
    (if InDictionary(d, |lits|, st.maxBackward) then lits + st.word(d - MinNat(|lits|, st.maxBackward) - 1, x.lenCode)
     else CopyFrom(lits, d, x.lenCode),
     Distances.After(c, x.distCode, d, |lits|, st.maxBackward))
  }

  /** What it has written after all commands, and its last distances. */
  function Decoded(st: Stream, cs: seq<Command>, c: Cache, at: nat): (seq<nat>, Cache)
    requires at <= |st.text|
  {
    if cs == [] then (st.text[..at], c)
    else
      var (out, c') := Decoded(st, cs[..|cs| - 1], c, at);
      Step(st, out, cs[|cs| - 1], c')
  }

  function Decompress(st: Stream, cs: seq<Command>, c: Cache, at: nat): seq<nat>
    requires at <= |st.text|
  {
    Decoded(st, cs, c, at).0
  }

  /** No copy is longer than n bytes. */
  predicate ShortCopies(cs: seq<Command>, n: nat) {
    forall i :: 0 <= i < |cs| ==> cs[i].copyLen <= n
  }

  /** Every command copies something. */
  predicate Copying(cs: seq<Command>) {
    forall i :: 0 <= i < |cs| ==> cs[i].copyLen > 0
  }

  /** Every command's distance code decodes, against the cache before it, to a
      distance at which the text has the copy. */
  ghost predicate Faithful(st: Stream, cs: seq<Command>, c: Cache, at: nat) {
    cs == [] ||
    var before, x := cs[..|cs| - 1], cs[|cs| - 1];
    Faithful(st, before, c, at) &&
    Copies(st, at + Span(before) + x.insertLen, Decode(x.distCode, CacheAfter(before, c, at, st.maxBackward)),
           x.copyLen, x.lenCode)
  }

  lemma Append(cs: seq<Command>, x: Command, c: Cache, at: nat, maxBackward: nat)
    ensures var all, c' := cs + [x], CacheAfter(cs, c, at, maxBackward);
      Span(all) == Span(cs) + x.insertLen + x.copyLen && Literals(all) == Literals(cs) + x.insertLen &&
      CacheAfter(all, c, at, maxBackward) ==
        Distances.After(c', x.distCode, Decode(x.distCode, c'), at + Span(cs) + x.insertLen, maxBackward)
  {
    assert (cs + [x])[..|cs|] == cs;
  }

  lemma AppendFaithful(st: Stream, cs: seq<Command>, x: Command, c: Cache, at: nat, d: int)
    requires Faithful(st, cs, c, at) && Decode(x.distCode, CacheAfter(cs, c, at, st.maxBackward)) == d
    requires Copies(st, at + Span(cs) + x.insertLen, d, x.copyLen, x.lenCode)
    ensures Faithful(st, cs + [x], c, at)
  {
    assert (cs + [x])[..|cs|] == cs;
  }

  /** The commands are faithful and leave a decoder with cache c. */
  ghost predicate Leaves(st: Stream, cs: seq<Command>, c0: Cache, at: nat, c: Cache) {
    CacheAfter(cs, c0, at, st.maxBackward) == c && Faithful(st, cs, c0, at)
  }

  /** One more command. */
  lemma Emitted(st: Stream, cs: seq<Command>, x: Command, c0: Cache, at: nat, c: Cache, d: int, p: nat)
    requires Leaves(st, cs, c0, at, c) && p == at + Span(cs) + x.insertLen
    requires Decode(x.distCode, c) == d && Copies(st, p, d, x.copyLen, x.lenCode)
    ensures Leaves(st, cs + [x], c0, at, Distances.After(c, x.distCode, d, p, st.maxBackward))
    ensures Span(cs + [x]) == Span(cs) + x.insertLen + x.copyLen && Literals(cs + [x]) == Literals(cs) + x.insertLen
  {
    Append(cs, x, c0, at, st.maxBackward);
    AppendFaithful(st, cs, x, c0, at, d);
  }

  /** The parsers' own update of the last distances. */
  method UpdateDistances(c: Cache, code: nat, distance: nat, p: nat, maxBackward: nat) returns (cache: Cache)
    ensures cache == Distances.After(c, code, distance, p, maxBackward)
    ensures Distances.Sane(c) && 0 < distance < 0x8000_0000 ==> Distances.Sane(cache)
  {
    cache := c;
    if distance <= MinNat(p, maxBackward) && code > 0 {
      cache := [distance, c[0], c[1], c[2]];
    }
  }

  lemma {:induction false} CopyRight(st: Stream, p: nat, d: int, n: nat)
    requires p + n <= |st.text| && 0 < d <= p && forall k :: p <= k < p + n ==> Repeats(st.text, k, d)
    ensures CopyFrom(st.text[..p], d, n) == st.text[..p + n]
    decreases n
  {
    if n > 0 {
      assert Repeats(st.text, p, d);
      assert st.text[..p] + [st.text[p - d]] == st.text[..p + 1];
      CopyRight(st, p + 1, d, n - 1);
    }
  }

  lemma StepRight(st: Stream, q: nat, x: Command, c: Cache)
    requires q + x.insertLen <= |st.text|
    requires Copies(st, q + x.insertLen, Decode(x.distCode, c), x.copyLen, x.lenCode)
    ensures Step(st, st.text[..q], x, c) == (st.text[..q + x.insertLen + x.copyLen],
      Distances.After(c, x.distCode, Decode(x.distCode, c), q + x.insertLen, st.maxBackward))
  {
    var p := q + x.insertLen;
    assert st.text[..q] + st.text[q..p] == st.text[..p];
    var d := Decode(x.distCode, c);
    if InDictionary(d, p, st.maxBackward) {
      assert st.text[..p] + st.text[p..p + x.copyLen] == st.text[..p + x.copyLen];
    } else {
      CopyRight(st, p, d, x.copyLen);
    }
  }

  lemma DecodedLast(st: Stream, cs: seq<Command>, c: Cache, at: nat, q: nat, x: Command, c': Cache, d: int)
    requires cs != [] && at <= |st.text| && x == cs[|cs| - 1] && q + x.insertLen <= |st.text|
    requires Decoded(st, cs[..|cs| - 1], c, at) == (st.text[..q], c')
    requires Decode(x.distCode, c') == d && Copies(st, q + x.insertLen, d, x.copyLen, x.lenCode)
    ensures Decoded(st, cs, c, at) == (st.text[..q + x.insertLen + x.copyLen],
                                       Distances.After(c', x.distCode, d, q + x.insertLen, st.maxBackward))
  {
    StepRight(st, q, x, c');
  }

  /** The decoder reproduces the input and ends with the encoder's last distances. */
  lemma {:induction false} Reproduces(st: Stream, cs: seq<Command>, c: Cache, at: nat)
    requires Faithful(st, cs, c, at) && at + Span(cs) <= |st.text|
    ensures Decompress(st, cs, c, at) == st.text[..at + Span(cs)]
    ensures Decoded(st, cs, c, at).1 == CacheAfter(cs, c, at, st.maxBackward)
    decreases |cs|
  {
    if cs != [] {
      var before, x := cs[..|cs| - 1], cs[|cs| - 1];
      var q, c' := at + Span(before), CacheAfter(before, c, at, st.maxBackward);
      Reproduces(st, before, c, at);
      DecodedLast(st, cs, c, at, q, x, c', Decode(x.distCode, c'));
    }
  }

  // ---------------------------------------------------------------- the stored words

  /** A command as the bit writer reads it from its word. */
  function ReadBack(x: Command): Command {
    var w := CopyWord(x.copyLen, x.lenCode);
    Command(x.insertLen, WordCopyLen(w), WordLenCode(w), x.distCode)
  }

  function Stored(cs: seq<Command>): seq<Command> {
    if cs == [] then [] else Stored(cs[..|cs| - 1]) + [ReadBack(cs[|cs| - 1])]
  }

  lemma ReadBackRight(st: Stream, p: nat, d: int, x: Command)
    requires Copies(st, p, d, x.copyLen, x.lenCode) && x.copyLen < WIDE
    ensures ReadBack(x) == x
  {
    assert Pow2(8) == 4 * Pow2(6) == 16 * Pow2(4) == 64 * Pow2(2) == 256;
    if x.lenCode < 256 && x.copyLen < 256 {
      XorSmall(x.lenCode, x.copyLen, 8);
    }
    XorSame(x.copyLen);
    WordIff(x.copyLen, x.lenCode);
  }

  lemma {:induction false} StoredRight(st: Stream, cs: seq<Command>, c: Cache, at: nat)
    requires Faithful(st, cs, c, at) && ShortCopies(cs, WIDE - 1)
    ensures Stored(cs) == cs
    decreases |cs|
  {
    if cs != [] {
      var before, x := cs[..|cs| - 1], cs[|cs| - 1];
      StoredRight(st, before, c, at);
      var d := Decode(x.distCode, CacheAfter(before, c, at, st.maxBackward));
      ReadBackRight(st, at + Span(before) + x.insertLen, d, x);
    }
  }

  lemma {:induction false} CopyBound(cs: seq<Command>, i: nat)
    requires Copying(cs) && i < |cs|
    ensures Literals(cs) + cs[i].copyLen + |cs| - 1 <= Span(cs)
    decreases |cs|
  {
    if |cs| > 1 {
      CopyBound(cs[..|cs| - 1], if i < |cs| - 1 then i else 0);
    }
  }

  /** A copy of 2^24 bytes reads back as a copy of 1 byte. */
  lemma WideLost(st: Stream, x: Command, c: Cache, at: nat)
    requires Faithful(st, [x], c, at) && x.copyLen == WIDE
    ensures |Decompress(st, Stored([x]), c, at)| == at + x.insertLen + 1
  {
    var y, xs := ReadBack(x), [x];
    var ys := Stored(xs);
    assert xs[..|xs| - 1] == [] && ys == Stored([]) + [y] == [y] && ys[..|ys| - 1] == [] && ys[|ys| - 1] == y;
    var p, d := at + x.insertLen, Decode(x.distCode, c);
    assert Copies(st, p, d, WIDE, x.lenCode);
    XorSame(WIDE);
    WordParts(WIDE, 0);
    assert y.lenCode == 1;
    assert Decoded(st, [], c, at) == (st.text[..at], c);
    assert Decompress(st, ys, c, at) == Step(st, st.text[..at], y, c).0;
    var lits := st.text[..at] + st.text[at..p];
    assert CopyFrom(lits, d, 1) == CopyFrom(lits + [lits[p - d]], d, 0);
  }

  /** Where the copies have at most 2^24 bytes together, as in a block, the decoder
      reproduces the input from the stored words exactly if no copy has 2^24 bytes. */
  lemma StoredIff(st: Stream, cs: seq<Command>, c: Cache, at: nat)
    requires Faithful(st, cs, c, at) && at + Span(cs) <= |st.text|
    requires Copying(cs) && Span(cs) <= Literals(cs) + WIDE
    ensures Decompress(st, Stored(cs), c, at) == st.text[..at + Span(cs)] <==> ShortCopies(cs, WIDE - 1)
  {
    if ShortCopies(cs, WIDE - 1) {
      StoredRight(st, cs, c, at);
      Reproduces(st, cs, c, at);
    } else {
      var i :| 0 <= i < |cs| && cs[i].copyLen >= WIDE;
      CopyBound(cs, i);
      assert cs == [cs[0]] && Span(cs[..0]) == 0;
      WideLost(st, cs[0], c, at);
    }
  }

  /** A case where it fails: the second block of a constant text, of 2^24 bytes, as one
      copy from the byte before. */
  lemma ConstantLost(st: Stream, c: Cache)
    requires |st.text| == 2 * WIDE && 0 < st.maxBackward
    requires forall k :: WIDE <= k < 2 * WIDE ==> Repeats(st.text, k, 1)
    ensures var cs := [Command(0, WIDE, WIDE, 16)];
      Faithful(st, cs, c, WIDE) && Decompress(st, cs, c, WIDE) == st.text &&
      Decompress(st, Stored(cs), c, WIDE) != st.text
  {
    var x := Command(0, WIDE, WIDE, 16);
    var cs := [x];
    assert cs[..|cs| - 1] == [] && Span([]) == 0 && st.text[..2 * WIDE] == st.text;
    assert cs[|cs| - 1] == x && Decode(16, c) == 1 && Copies(st, WIDE, 1, WIDE, WIDE);
    assert Faithful(st, [], c, WIDE) && CacheAfter([], c, WIDE, st.maxBackward) == c;
    assert Span(cs) == WIDE && Faithful(st, cs, c, WIDE);
    Reproduces(st, cs, c, WIDE);
    WideLost(st, x, c, WIDE);
  }
}
