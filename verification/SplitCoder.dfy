/** Block splitting and block switching together: what the splitter gives is what the
    coder needs, and a decoder gets the symbols back (contrib/brotli/enc/block_splitter_inc.h
    and contrib/brotli/enc/brotli_bit_stream.c). */
module SplitCoder {
  import opened Common
  import opened Renumber
  import opened BlockSplit
  import opened BlockSwitch
  import opened BlockCluster
  import Cluster

  /** Types whose first occurrences are 0, 1, 2, ... start with 0 and are below their number. */
  lemma SplitsFrom(types: seq<nat>, lens: seq<nat>, numTypes: nat)
    requires Proper(types, lens) && types != [] && Firsts(types) == Identity(numTypes) && Total(lens) <= 0x100_0000
    ensures Splits(types, lens, numTypes)
  {
    FirstsMembers(types);
    assert types[0] in Firsts(types);
    forall i | 0 <= i < |types|
      ensures types[i] < numTypes
    {
      assert types[i] in Firsts(types);
    }
    FirstsStart(types);
  }

  lemma {:induction false} FirstsStart(s: seq<nat>)
    requires s != []
    ensures Firsts(s) != [] && Firsts(s)[0] == s[0]
    decreases |s|
  {
    if |s| > 1 {
      FirstsStart(s[..|s| - 1]);
    } else {
      assert s[..0] == [] && s == [s[0]];
    }
  }

  lemma SomeBlock(lens: seq<nat>)
    requires Total(lens) > 0
    ensures lens != []
  {
  }

  /** Splits a meta-block's symbols of one category and stores them: for any costs, a
      decoder reads all of them back, each with the type of its block. */
  method SplitAndStore(data: seq<nat>, alphabet: nat, perHistogram: nat, maxHistograms: nat, bitcost: real, iters: nat,
                       insert: nat -> ((nat, nat) -> real), k: Cluster.Costs,
                       distance: (multiset<nat>, Cluster.Histogram) -> real)
    returns (out: seq<Token>, types: seq<nat>, lens: seq<nat>, numTypes: nat)
    requires 0 < perHistogram && 0 < maxHistograms <= 256 && 0.0 <= bitcost && 0 < iters && |data| <= 0x100_0000
    requires Moderate(k) && forall n: nat, x: nat, c: nat :: insert(n)(x, c) + bitcost < HUGE
    requires forall i :: 0 <= i < |data| ==> data[i] < alphabet
    ensures numTypes <= 256 && |types| == |lens| && |Expand(types, lens)| == |data|
    ensures Read(out, numTypes, alphabet).Decoder?
    ensures Read(out, numTypes, alphabet).got == Typed(Expand(types, lens), data)
  {
    types, lens, numTypes := SplitByteVector(data, perHistogram, maxHistograms, bitcost, iters, insert, k, distance);
    if data != [] {
      SomeBlock(lens);
      SplitsFrom(types, lens, numTypes);
    }
    out := StoreAll(alphabet, numTypes, types, lens, data);
  }
}
