/** The block-switch coder (contrib/brotli/enc/brotli_bit_stream.c) and a decoder as
    section 6 of RFC 7932 describes it.  The stream is a sequence of symbols; their
    prefix codes are left out. */
module BlockSwitch {
  import opened Common
  import opened Renumber
  import opened BlockSplit

  /** kBlockLengthPrefixCode. */
  const OFFSET: seq<nat> := [1, 5, 9, 13, 17, 25, 33, 41, 49, 65, 81, 97, 113, 145, 177, 209, 241, 305, 369, 497,
                             753, 1265, 2289, 4337, 8433, 16625]
  const NBITS: seq<nat> := [2, 2, 2, 2, 3, 3, 3, 3, 4, 4, 4, 4, 5, 5, 5, 5, 6, 6, 7, 8, 9, 10, 11, 12, 13, 24]

  /** The block length codes of section 6 of RFC 7932: 2, 3, 4 and 5 extra bits for four
      codes each, 6 for two, then 7 to 13, and 24 for the last. */
  function ExtraBits(code: nat): nat {
    if code < 16 then 2 + code / 4 else if code < 18 then 6 else if code < 25 then code - 11 else 24
  }

  /** A code starts with the first length that no code before it covers. */
  function Base(code: nat): nat {
    if code == 0 then 1 else Base(code - 1) + Pow2(ExtraBits(code - 1))
  }

  /** Every length code but the last covers the lengths up to the next code. */
  lemma CodesMeet(code: nat)
    requires code < 25
    ensures OFFSET[code + 1] == OFFSET[code] + Pow2(NBITS[code])
  {
    Powers();
  }

  lemma BitsAre(code: nat)
    requires code < 26
    ensures NBITS[code] == ExtraBits(code)
  {
  }

  /** The encoder's table is that of the standard. */
  lemma {:induction false} TableIs(code: nat)
    requires code < 26
    ensures OFFSET[code] == Base(code) && NBITS[code] == ExtraBits(code)
    decreases code
  {
    BitsAre(code);
    if code > 0 {
      TableIs(code - 1);
      CodesMeet(code - 1);
    }
  }

  lemma Powers()
    ensures Pow2(2) == 4 && Pow2(3) == 8 && Pow2(4) == 16 && Pow2(5) == 32 && Pow2(6) == 64 && Pow2(7) == 128
    ensures Pow2(8) == 256 && Pow2(9) == 512 && Pow2(10) == 1024 && Pow2(11) == 2048 && Pow2(12) == 4096
    ensures Pow2(13) == 8192
  {
    assert Pow2(4) == 16;
    assert Pow2(7) == 128;
    assert Pow2(10) == 1024;
  }

  lemma LastCode()
    ensures Pow2(24) == 0x100_0000
  {
    assert Pow2(8) == 256;
    assert Pow2(12) == 4096 by { assert Pow2(10) == 1024; }
    assert Pow2(16) == 65536 by { assert Pow2(14) == 16384; }
    assert Pow2(20) == 1048576 by { assert Pow2(18) == 262144; }
    assert Pow2(22) == 4194304;
  }

  /** GetBlockLengthPrefixCode: the code and its extra bits give the length back as the
      standard reads them, and the extra bits fit. */
  method BlockLengthCode(len: nat) returns (code: nat, extra: nat)
    requires 1 <= len <= 0x100_0000
    ensures code < 26 && Base(code) + extra == len && extra < Pow2(ExtraBits(code))
  {
    code := if len >= 177 then (if len >= 753 then 20 else 14) else (if len >= 41 then 7 else 0);
    while code < 25 && len >= OFFSET[code + 1]
      invariant code < 26 && OFFSET[code] <= len
    {
      code := code + 1;
    }
    extra := len - OFFSET[code];
    TableIs(code);
    if code < 25 {
      TableIs(code + 1);
    } else {
      LastCode();
    }
  }

  /** What is written: a block type, a block length, or a symbol by its place in the
      entropy codes of all block types. */
  datatype Token = TypeCode(c: nat) | LengthCode(code: nat, extra: nat) | Symbol(ix: nat)

  /** A decoder: the current and the previous block type, what is left of the block,
      and the symbols read, each with its block type. */
  datatype Decoder = Decoder(cur: nat, prev: nat, left: nat, wantLength: bool, got: seq<(nat, nat)>) | Failed

  /** A new block type. */
  function TypeOf(c: nat, cur: nat, prev: nat, numTypes: nat): nat {
    if c == 0 then prev else if c == 1 then (if cur + 1 == numTypes then 0 else cur + 1) else c - 2
  }

  function Step(d: Decoder, t: Token, numTypes: nat, alphabet: nat): Decoder {
    if d.Failed? then d
    else match t
      case TypeCode(c) =>
        if d.left == 0 && !d.wantLength && TypeOf(c, d.cur, d.prev, numTypes) < numTypes
        then d.(cur := TypeOf(c, d.cur, d.prev, numTypes), prev := d.cur, wantLength := true) else Failed
      case LengthCode(code, extra) =>
        if d.wantLength && code < 26 && extra < Pow2(ExtraBits(code))
        then d.(left := Base(code) + extra, wantLength := false) else Failed
      case Symbol(ix) =>
        if 0 < d.left && !d.wantLength && d.cur * alphabet <= ix < d.cur * alphabet + alphabet
        then d.(left := d.left - 1, got := d.got + [(d.cur, ix - d.cur * alphabet)]) else Failed
  }

  /** With one block type there are no switches and the block never ends. */
  function Initial(numTypes: nat): Decoder {
    if numTypes == 1 then Decoder(0, 1, 0x100_0000, false, []) else Decoder(0, 1, 0, true, [])
  }

  function Read(ts: seq<Token>, numTypes: nat, alphabet: nat): Decoder {
    if ts == [] then Initial(numTypes)
    else Step(Read(ts[..|ts| - 1], numTypes, alphabet), ts[|ts| - 1], numTypes, alphabet)
  }

  lemma ReadMore(ts: seq<Token>, t: Token, numTypes: nat, alphabet: nat)
    ensures Read(ts + [t], numTypes, alphabet) == Step(Read(ts, numTypes, alphabet), t, numTypes, alphabet)
  {
    assert (ts + [t])[..|ts|] == ts;
  }

  /** The first n symbols, each with the type of the block it lies in. */
  function Typed(types: seq<nat>, symbols: seq<nat>): seq<(nat, nat)>
    requires |symbols| <= |types|
  {
    seq(|symbols|, i requires 0 <= i < |symbols| => (types[i], symbols[i]))
  }

  /** Symbol number n lies in the block that covers it. */
  lemma {:induction false} ExpandAt(types: seq<nat>, lens: seq<nat>, b: nat, k: nat)
    requires |types| == |lens| && b < |lens| && k < lens[b]
    ensures Total(lens[..b]) + k < |Expand(types, lens)| && Expand(types, lens)[Total(lens[..b]) + k] == types[b]
    decreases |lens|
  {
    var n := |lens| - 1;
    ExpandLength(types[..n], lens[..n]);
    ExpandLength(types, lens);
    if b < n {
      ExpandAt(types[..n], lens[..n], b, k);
      assert lens[..n][..b] == lens[..b];
    }
  }

  /** What the block splitter gives: see SplitCoder.SplitsFrom. */
  ghost predicate Splits(types: seq<nat>, lens: seq<nat>, numTypes: nat) {
    Proper(types, lens) && Total(lens) <= 0x100_0000 && (types != [] ==> types[0] == 0) && 0 < numTypes &&
    forall i :: 0 <= i < |types| ==> types[i] < numTypes
  }

  lemma LengthFits(types: seq<nat>, lens: seq<nat>, numTypes: nat, b: nat)
    requires Splits(types, lens, numTypes) && b < |lens|
    ensures 1 <= lens[b] <= 0x100_0000
  {
    TotalPrefix(lens, b);
  }

  /** The decoder has read the stored symbols and stands in block b with 'left' to go. */
  ghost predicate Agrees(d: Decoder, types: seq<nat>, lens: seq<nat>, numTypes: nat, b: nat, left: nat,
                         stored: seq<nat>) {
    d.Decoder? && !d.wantLength && b < |types| == |lens| && left <= lens[b] && d.cur == types[b] &&
    |stored| == Total(lens[..b]) + lens[b] - left <= |Expand(types, lens)| &&
    d.got == Typed(Expand(types, lens), stored) &&
    if numTypes == 1 then d.left + |stored| == 0x100_0000 else d.left == left
  }

  lemma AgreesSwitch(d: Decoder, types: seq<nat>, lens: seq<nat>, numTypes: nat, b: nat, stored: seq<nat>,
                     c: nat, code: nat, extra: nat, alphabet: nat)
    requires Splits(types, lens, numTypes) && Agrees(d, types, lens, numTypes, b, 0, stored) && b + 1 < |types|
    requires TypeOf(c, d.cur, d.prev, numTypes) == types[b + 1]
    requires code < 26 && Base(code) + extra == lens[b + 1] && extra < Pow2(ExtraBits(code))
    ensures var e := Step(Step(d, TypeCode(c), numTypes, alphabet), LengthCode(code, extra), numTypes, alphabet);
      Agrees(e, types, lens, numTypes, b + 1, lens[b + 1], stored) && e.prev == d.cur
  {
    assert numTypes > 1 by {
      assert types[b] < numTypes && types[b + 1] < numTypes && types[b + 1 - 1] != types[b + 1];
    }
    assert lens[..b + 1][..b] == lens[..b];
  }

  lemma AgreesSymbol(d: Decoder, types: seq<nat>, lens: seq<nat>, numTypes: nat, b: nat, left: nat, stored: seq<nat>,
                     symbol: nat, alphabet: nat)
    requires Splits(types, lens, numTypes) && Agrees(d, types, lens, numTypes, b, left, stored) && 0 < left
    requires symbol < alphabet
    ensures var e := Step(d, Symbol(types[b] * alphabet + symbol), numTypes, alphabet);
      Agrees(e, types, lens, numTypes, b, left - 1, stored + [symbol]) && e.prev == d.prev
  {
    ExpandAt(types, lens, b, lens[b] - left);
    ExpandLength(types, lens);
    TotalPrefix(lens, b);
    var all := Expand(types, lens);
    assert Typed(all, stored + [symbol]) == Typed(all, stored) + [(all[|stored|], symbol)];
  }

  /** Where the codes of a block type start. */
  function Start(t: nat, alphabet: nat): nat { t * alphabet }

  lemma ReadTwo(out: seq<Token>, a: Token, b: Token, numTypes: nat, alphabet: nat)
    ensures Read(out + [a] + [b], numTypes, alphabet) ==
            Step(Step(Read(out, numTypes, alphabet), a, numTypes, alphabet), b, numTypes, alphabet)
  {
    ReadMore(out, a, numTypes, alphabet);
    ReadMore(out + [a], b, numTypes, alphabet);
  }

  /** The next block, if symbols are left. */
  lemma NextBlock(types: seq<nat>, lens: seq<nat>, numTypes: nat, b: nat, stored: nat)
    requires Splits(types, lens, numTypes) && b < |lens| && stored == Total(lens[..b]) + lens[b] && stored < Total(lens)
    ensures b + 1 < |types| && numTypes > 1
  {
    assert lens[..|lens|] == lens;
    assert lens[..b + 1][..b] == lens[..b];
    assert types[b] < numTypes && types[b + 1] < numTypes && types[b + 1 - 1] != types[b + 1];
  }

  /** BlockEncoder with its stream. */
  class BlockEncoder {
    const alphabet: nat
    const numTypes: nat
    const types: seq<nat>
    const lens: seq<nat>
    var lastType: nat
    var secondLastType: nat
    var blockIx: nat
    var blockLen: nat
    var entropyIx: nat
    var out: seq<Token>
    ghost var stored: seq<nat>

    ghost predicate Valid()
      reads this
    {
      Splits(types, lens, numTypes) &&
      if types == [] then stored == [] && blockLen == 0 && out == []
      else
        Agrees(Read(out, numTypes, alphabet), types, lens, numTypes, blockIx, blockLen, stored) &&
        entropyIx == Start(types[blockIx], alphabet) &&
        (numTypes > 1 ==> lastType == types[blockIx] && Read(out, numTypes, alphabet).prev == secondLastType)
    }

    /** InitBlockEncoder and the switch command of the first block. */
    constructor (alphabet: nat, numTypes: nat, types: seq<nat>, lens: seq<nat>)
      requires Splits(types, lens, numTypes) && (types == [] ==> numTypes == 1)
      ensures this.alphabet == alphabet && this.numTypes == numTypes && this.types == types && this.lens == lens
      ensures Valid() && stored == []
    {
      this.alphabet, this.numTypes, this.types, this.lens := alphabet, numTypes, types, lens;
      lastType, secondLastType := 1, 0;
      blockIx, blockLen, entropyIx := 0, if types == [] then 0 else lens[0], 0;
      out, stored := [], [];
      new;
      if types != [] {
        assert lens[..0] == [] && Typed(Expand(types, lens), []) == [];
      }
      if numTypes > 1 {
        LengthFits(types, lens, numTypes, 0);
        var _ := NextBlockTypeCode(types[0]);
        var code, extra := BlockLengthCode(lens[0]);
        ReadMore(out, LengthCode(code, extra), numTypes, alphabet);
        out := out + [LengthCode(code, extra)];
      }
    }

    /** NextBlockTypeCode: a decoder that knows the two last types reads the type. */
    method NextBlockTypeCode(t: nat) returns (code: nat)
      modifies this`lastType, this`secondLastType
      ensures lastType == t && secondLastType == old(lastType)
      ensures t < numTypes ==> TypeOf(code, old(lastType), old(secondLastType), numTypes) == t
    {
      code := if t == lastType + 1 then 1 else if t == secondLastType then 0 else t + 2;
      secondLastType := lastType;
      lastType := t;
    }

    /** StoreSymbol: whatever is stored so far, a decoder reads it back, each symbol with
        the type of the block that holds it. */
    method StoreSymbol(symbol: nat)
      requires Valid() && |stored| < Total(lens) && symbol < alphabet
      modifies this
      ensures Valid() && stored == old(stored) + [symbol]
    {
      if blockLen == 0 {
        SwitchBlock();
      }
      Put(symbol);
    }

    /** The part of StoreSymbol after that. */
    method Put(symbol: nat)
      requires Valid() && blockLen > 0 && symbol < alphabet && types != []
      modifies this`blockLen, this`out, this`stored
      ensures Valid() && stored == old(stored) + [symbol]
    {
      ghost var d := Read(out, numTypes, alphabet);
      AgreesSymbol(d, types, lens, numTypes, blockIx, blockLen, stored, symbol, alphabet);
      ReadMore(out, Symbol(entropyIx + symbol), numTypes, alphabet);
      blockLen, out, stored := blockLen - 1, out + [Symbol(entropyIx + symbol)], stored + [symbol];
    }

    lemma Reads()
      requires Valid()
      ensures Read(out, numTypes, alphabet).Decoder? && |stored| <= |Expand(types, lens)|
      ensures Read(out, numTypes, alphabet).got == Typed(Expand(types, lens), stored)
    {
    }

    /** The part of StoreSymbol at a block boundary. */
    method SwitchBlock()
      requires Valid() && blockLen == 0 && |stored| < Total(lens)
      modifies this
      ensures Valid() && blockLen > 0 && stored == old(stored) && types != []
    {
      ghost var d := Read(out, numTypes, alphabet);
      NextBlock(types, lens, numTypes, blockIx, |stored|);
      LengthFits(types, lens, numTypes, blockIx + 1);
      blockIx := blockIx + 1;
      blockLen, entropyIx := lens[blockIx], Start(types[blockIx], alphabet);
      var c := NextBlockTypeCode(types[blockIx]);
      var code, extra := BlockLengthCode(blockLen);
      AgreesSwitch(d, types, lens, numTypes, blockIx - 1, stored, c, code, extra, alphabet);
      ReadTwo(out, TypeCode(c), LengthCode(code, extra), numTypes, alphabet);
      out := out + [TypeCode(c)] + [LengthCode(code, extra)];
    }
  }

  /** All symbols of a category: the decoder gets them back with their block types. */
  method StoreAll(alphabet: nat, numTypes: nat, types: seq<nat>, lens: seq<nat>, symbols: seq<nat>)
    returns (out: seq<Token>)
    requires Splits(types, lens, numTypes) && (types == [] ==> numTypes == 1) && |symbols| == Total(lens)
    requires forall i :: 0 <= i < |symbols| ==> symbols[i] < alphabet
    ensures |symbols| == |Expand(types, lens)|
    ensures Read(out, numTypes, alphabet).Decoder?
    ensures Read(out, numTypes, alphabet).got == Typed(Expand(types, lens), symbols)
  {
    ExpandLength(types, lens);
    var be := new BlockEncoder(alphabet, numTypes, types, lens);
    StoreEach(be, symbols);
    be.Reads();
    out := be.out;
  }

  method StoreEach(be: BlockEncoder, symbols: seq<nat>)
    requires be.Valid() && be.stored == [] && |symbols| <= Total(be.lens)
    requires forall i :: 0 <= i < |symbols| ==> symbols[i] < be.alphabet
    modifies be
    ensures be.Valid() && be.stored == symbols
  {
    for i := 0 to |symbols|
      invariant be.Valid() && be.stored == symbols[..i]
    {
      assert symbols[..i + 1] == symbols[..i] + [symbols[i]];
      be.StoreSymbol(symbols[i]);
    }
    assert symbols[..|symbols|] == symbols;
  }
}
