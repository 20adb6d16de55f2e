/** RunLengthCodeZeros and the whole context-map codec
    (contrib/brotli/enc/brotli_bit_stream.c), against section 7.3 of RFC 7932. */
module ContextRuns {
  import opened Common
  import opened ContextMap

  /** Log2FloorNonZero. */
  function Log2(n: nat): (k: nat)
    requires 0 < n
    ensures Pow2(k) <= n < 2 * Pow2(k)
  {
    if n == 1 then 0 else 1 + Log2(n / 2)
  }

  /** The low nine bits of an entry are its symbol, the rest are its extra bits. */
  function Sym(e: nat): nat { e % 512 }
  function Extra(e: nat): nat { e / 512 }

  /** What a decoder makes of an entry: a run of zeros, or a value. */
  function Piece(e: nat, maxPrefix: nat): seq<nat> {
    if Sym(e) <= maxPrefix then Zeros(Pow2(Sym(e)) + Extra(e)) else [Sym(e) - maxPrefix]
  }

  /** The extra bits fit in the number of bits that the decoder reads. */
  predicate Fits(e: nat, maxPrefix: nat) {
    if Sym(e) <= maxPrefix then Extra(e) < Pow2(Sym(e)) else Extra(e) == 0
  }

  function Decoded(es: seq<nat>, maxPrefix: nat): seq<nat> {
    if es == [] then [] else Decoded(es[..|es| - 1], maxPrefix) + Piece(es[|es| - 1], maxPrefix)
  }

  lemma DecodedMore(es: seq<nat>, e: nat, maxPrefix: nat)
    ensures Decoded(es + [e], maxPrefix) == Decoded(es, maxPrefix) + Piece(e, maxPrefix)
  {
    assert (es + [e])[..|es|] == es;
  }

  ghost predicate Run(v: seq<nat>, a: int, b: int) {
    0 <= a <= b <= |v| && forall i :: a <= i < b ==> v[i] == 0
  }

  function At(s: seq<nat>, i: int): nat { if 0 <= i < |s| then s[i] else 0 }

  /** A run that does not end before i0 starts after the values that are not zero. */
  lemma NewRun(s: seq<nat>, i0: int, from: int, a: int, b: int)
    requires 0 <= i0 <= from <= |s| && Run(s, a, b) && (forall j :: i0 <= j < from ==> s[j] != 0)
    requires 0 < i0 < |s| ==> s[i0] != 0
    ensures b <= i0 || from <= a || a == b
  {
    var x, y := At(s, a), At(s, i0);
  }

  /** The first loop: the length of the longest run of zeros. */
  method LongestRun(v: array<nat>) returns (maxReps: nat)
    ensures forall a, b :: Run(v[..], a, b) ==> b - a <= maxReps
    ensures exists a, b :: Run(v[..], a, b) && b - a == maxReps
  {
    ghost var s := v[..];
    maxReps := 0;
    assert Run(s, 0, 0);
    var i := 0;
    while i < v.Length
      invariant 0 <= i <= v.Length
      invariant forall a, b :: Run(s, a, b) && b <= i ==> b - a <= maxReps
      invariant exists a, b :: Run(s, a, b) && b - a == maxReps
      invariant 0 < i < v.Length ==> s[i] != 0
    {
      ghost var i0 := i;
      while i < v.Length && v[i] != 0
        invariant i0 <= i <= v.Length && forall j :: i0 <= j < i ==> s[j] != 0
      {
        i := i + 1;
      }
      ghost var from := i;
      var reps := 0;
      while i < v.Length && v[i] == 0
        invariant from <= i <= v.Length && reps == i - from && Run(s, from, i)
      {
        reps, i := reps + 1, i + 1;
      }
      forall a, b | Run(s, a, b) && b <= i
        ensures b - a <= if reps > maxReps then reps else maxReps
      {
        NewRun(s, i0, from, a, b);
      }
      maxReps := if reps > maxReps then reps else maxReps;
    }
  }

  /** The entries es decode to the first i values, less the zeros of the run in hand. */
  ghost predicate Entries(es: seq<nat>, s: seq<nat>, i: nat, reps: nat, maxPrefix: nat) {
    i <= |s| && maxPrefix <= 16 && Decoded(es, maxPrefix) + Zeros(reps) == s[..i] && AllFit(es, maxPrefix)
  }

  /** The entries are written over the front of v; they have not overtaken the reader. */
  ghost predicate Coding(v: array<nat>, s: seq<nat>, i: nat, out: nat, reps: nat, maxPrefix: nat)
    reads v
  {
    v.Length == |s| && reps <= i <= |s| && out + reps <= i && Entries(v[..out], s, i, reps, maxPrefix) &&
    forall j :: i <= j < |s| ==> v[j] == s[j]
  }

  lemma ValueEntry(x: nat, maxPrefix: nat)
    requires 0 < x < 256 && maxPrefix <= 16
    ensures Piece(x + maxPrefix, maxPrefix) == [x] && Fits(x + maxPrefix, maxPrefix)
  {
  }

  lemma PackIs(sym: nat, extra: nat)
    requires sym < 512
    ensures Sym(sym + extra * 512) == sym && Extra(sym + extra * 512) == extra
  {
  }

  lemma RunEntry(prefix: nat, extra: nat, maxPrefix: nat)
    requires prefix <= maxPrefix <= 16 && extra < Pow2(prefix)
    ensures Piece(prefix + extra * 512, maxPrefix) == Zeros(Pow2(prefix) + extra)
    ensures Fits(prefix + extra * 512, maxPrefix)
  {
    PackIs(prefix, extra);
  }

  lemma {:induction false} Pow2Mono(a: nat, b: nat)
    requires Pow2(a) < 2 * Pow2(b)
    ensures a <= b
    decreases a
  {
    if a > 0 && b > 0 {
      Pow2Mono(a - 1, b - 1);
    }
  }

  /** One entry more, which stands for n zeros of the run. */
  lemma Appended(es: seq<nat>, e: nat, maxPrefix: nat, s: seq<nat>, i: nat, reps: nat, n: nat)
    requires Entries(es, s, i, reps, maxPrefix) && n <= reps && Piece(e, maxPrefix) == Zeros(n) && Fits(e, maxPrefix)
    ensures Entries(es + [e], s, i, reps - n, maxPrefix)
  {
    ZerosSplit(Decoded(es, maxPrefix), reps, n);
    DecodedMore(es, e, maxPrefix);
    FitsMore(es, e, maxPrefix);
  }

  lemma ZerosSplit(d: seq<nat>, reps: nat, n: nat)
    requires n <= reps
    ensures (d + Zeros(n)) + Zeros(reps - n) == d + Zeros(reps)
  {
  }

  lemma FitsMore(es: seq<nat>, e: nat, maxPrefix: nat)
    requires AllFit(es, maxPrefix) && Fits(e, maxPrefix)
    ensures AllFit(es + [e], maxPrefix)
  {
  }

  predicate AllFit(es: seq<nat>, maxPrefix: nat) {
    forall j :: 0 <= j < |es| ==> Fits(es[j], maxPrefix)
  }

  /** One entry more, for a value that is not zero. */
  lemma AppendedValue(es: seq<nat>, maxPrefix: nat, s: seq<nat>, i: nat)
    requires Entries(es, s, i, 0, maxPrefix) && i < |s| && 0 < s[i] < 256
    ensures Entries(es + [s[i] + maxPrefix], s, i + 1, 0, maxPrefix)
  {
    ValueEntry(s[i], maxPrefix);
    DecodedMore(es, s[i] + maxPrefix, maxPrefix);
    FitsMore(es, s[i] + maxPrefix, maxPrefix);
    assert Zeros(0) == [] && s[..i + 1] == s[..i] + [s[i]];
  }

  /** Writes an entry for n zeros of the run. */
  method PutRun(v: array<nat>, ghost s: seq<nat>, i: nat, out: nat, ghost reps: nat, maxPrefix: nat, prefix: nat,
                extra: nat)
    requires Coding(v, s, i, out, reps, maxPrefix) && prefix <= maxPrefix && extra < Pow2(prefix)
    requires Pow2(prefix) + extra <= reps
    modifies v
    ensures Coding(v, s, i, out + 1, reps - (Pow2(prefix) + extra), maxPrefix)
  {
    var e := prefix + extra * 512;
    RunEntry(prefix, extra, maxPrefix);
    Appended(v[..out], e, maxPrefix, s, i, reps, Pow2(prefix) + extra);
    Write(v, out, e);
  }

  method Write(v: array<nat>, out: nat, e: nat)
    requires out < v.Length
    modifies v
    ensures v[..out + 1] == old(v[..out]) + [e] && forall j :: out < j < v.Length ==> v[j] == old(v[j])
  {
    v[out] := e;
  }

  /** Writes the entries for a run of zeros. */
  method CodeRun(v: array<nat>, ghost s: seq<nat>, i: nat, out0: nat, reps0: nat, maxPrefix: nat) returns (out: nat)
    requires Coding(v, s, i, out0, reps0, maxPrefix)
    modifies v
    ensures Coding(v, s, i, out, 0, maxPrefix)
  {
    var reps: nat := reps0;
    out := out0;
    while reps != 0
      invariant Coding(v, s, i, out, reps, maxPrefix)
      decreases reps
    {
      if reps < 2 * Pow2(maxPrefix) {
        var prefix := Log2(reps);
        Pow2Mono(prefix, maxPrefix);
        PutRun(v, s, i, out, reps, maxPrefix, prefix, reps - Pow2(prefix));
        out := out + 1;
        break;
      } else {
        PutRun(v, s, i, out, reps, maxPrefix, maxPrefix, Pow2(maxPrefix) - 1);
        reps := reps - (2 * Pow2(maxPrefix) - 1);
        out := out + 1;
      }
    }
  }

  /** Writes the entry for a value that is not zero. */
  method PutValue(v: array<nat>, ghost s: seq<nat>, i: nat, out: nat, maxPrefix: nat)
    requires Coding(v, s, i, out, 0, maxPrefix) && i < |s| && s[i] < 256 && v[i] != 0
    modifies v
    ensures Coding(v, s, i + 1, out + 1, 0, maxPrefix)
  {
    AppendedValue(v[..out], maxPrefix, s, i);
    Write(v, out, v[i] + maxPrefix);
  }

  /** Reads on over a run of zeros. */
  lemma ReadRun(v: array<nat>, s: seq<nat>, i: nat, out: nat, reps: nat, maxPrefix: nat)
    requires Coding(v, s, i, out, 0, maxPrefix) && i + reps <= v.Length && forall j :: i <= j < i + reps ==> v[j] == 0
    ensures Coding(v, s, i + reps, out, reps, maxPrefix)
  {
    assert Zeros(0) == [] && s[..i + reps] == s[..i] + Zeros(reps);
  }

  /** RunLengthCodeZeros: a decoder expands the entries to the input again. */
  method RunLengthCodeZeros(v: array<nat>, maxPrefix0: nat) returns (out: nat, maxPrefix: nat)
    requires maxPrefix0 <= 16 && forall i :: 0 <= i < v.Length ==> v[i] < 256
    modifies v
    ensures out <= v.Length && maxPrefix <= maxPrefix0 && Decoded(v[..out], maxPrefix) == old(v[..])
    ensures AllFit(v[..out], maxPrefix)
  {
    ghost var s := v[..];
    var maxReps := LongestRun(v);
    maxPrefix := if maxReps > 0 then Log2(maxReps) else 0;
    if maxPrefix > maxPrefix0 {
      maxPrefix := maxPrefix0;
    }
    out := CodeEach(v, maxPrefix, s);
  }

  /** Its second loop. */
  method CodeEach(v: array<nat>, maxPrefix: nat, ghost s: seq<nat>) returns (out: nat)
    requires v[..] == s && maxPrefix <= 16 && forall i :: 0 <= i < v.Length ==> s[i] < 256
    modifies v
    ensures out <= v.Length && Decoded(v[..out], maxPrefix) == s && AllFit(v[..out], maxPrefix)
  {
    out := 0;
    var i := 0;
    CodingStarts(v, s, maxPrefix);
    while i < v.Length
      invariant 0 <= i && Coding(v, s, i, out, 0, maxPrefix)
    {
      if v[i] != 0 {
        PutValue(v, s, i, out, maxPrefix);
        i, out := i + 1, out + 1;
      } else {
        var k := SkipZeros(v, i);
        ReadRun(v, s, i, out, k - i, maxPrefix);
        out := CodeRun(v, s, k, out, k - i, maxPrefix);
        i := k;
      }
    }
    CodingEnds(v, s, out, maxPrefix);
  }

  method SkipZeros(v: array<nat>, i: nat) returns (k: nat)
    requires i < v.Length && v[i] == 0
    ensures i < k <= v.Length && forall j :: i <= j < k ==> v[j] == 0
  {
    k := i + 1;
    while k < v.Length && v[k] == 0
      invariant i < k <= v.Length && forall j :: i <= j < k ==> v[j] == 0
    {
      k := k + 1;
    }
  }

  lemma CodingStarts(v: array<nat>, s: seq<nat>, maxPrefix: nat)
    requires v[..] == s && maxPrefix <= 16
    ensures Coding(v, s, 0, 0, 0, maxPrefix)
  {
    assert Zeros(0) == [] && Decoded(v[..0], maxPrefix) == [];
  }

  lemma CodingEnds(v: array<nat>, s: seq<nat>, out: nat, maxPrefix: nat)
    requires Coding(v, s, v.Length, out, 0, maxPrefix)
    ensures Decoded(v[..out], maxPrefix) == s && out <= v.Length && AllFit(v[..out], maxPrefix)
  {
    assert Zeros(0) == [] && s[..v.Length] == s;
  }

  /** The symbols of EncodeContextMap: section 7.3 of RFC 7932 turns them back into the
      context map. */
  method EncodeContextMap(contextMap: array<nat>) returns (entries: seq<nat>, maxPrefix: nat)
    requires forall i :: 0 <= i < contextMap.Length ==> contextMap[i] < 256
    ensures maxPrefix <= 6 && |entries| <= contextMap.Length && Indices(Decoded(entries, maxPrefix), 256)
    ensures FromIndices(Decoded(entries, maxPrefix)) == contextMap[..]
    ensures AllFit(entries, maxPrefix)
  {
    var rle := new nat[contextMap.Length];
    MoveToFrontTransform(contextMap, rle);
    assert rle[..contextMap.Length] == rle[..];
    var out;
    out, maxPrefix := RunLengthCodeZeros(rle, 6);
    entries := rle[..out];
  }
}
