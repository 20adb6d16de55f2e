/** What several modules use. */
module Common {

  datatype Option<+T> = None | Some(value: T)

  /** The 1e99 that cost comparisons of the Brotli encoder start from. */
  const HUGE: real := 1e99

  /** 0, 1, ..., n - 1. */
  function Identity(n: nat): (s: seq<nat>)
    ensures |s| == n && forall i :: 0 <= i < n ==> s[i] == i
  {
    seq(n, i => i)
  }

  function Zeros(n: nat): (r: seq<nat>)
    ensures |r| == n && forall i :: 0 <= i < n ==> r[i] == 0
  {
    seq(n, _ => 0)
  }

  function Pow2(n: nat): (p: nat)
    ensures p > 0
  {
    if n == 0 then 1 else 2 * Pow2(n - 1)
  }

  /** Bitwise or, and exclusive or. */
  function Or(a: nat, b: nat): nat {
    if a == 0 then b else 2 * Or(a / 2, b / 2) + if a % 2 == 1 || b % 2 == 1 then 1 else 0
  }

  function Xor(a: nat, b: nat): nat {
    if a == 0 then b else 2 * Xor(a / 2, b / 2) + if a % 2 == b % 2 then 0 else 1
  }

  lemma XorSame(a: nat)
    ensures Xor(a, a) == 0
  {
  }

  lemma XorSwaps(a: nat, b: nat)
    ensures Xor(a, b) == Xor(b, a)
  {
  }

  lemma XorUndone(a: nat, b: nat)
    ensures Xor(a, Xor(a, b)) == b
  {
  }

  /** Xor with a is undone by xor with a only. */
  lemma XorIff(a: nat, b: nat, c: nat)
    ensures Xor(a, b) == c <==> b == Xor(c, a)
  {
    XorUndone(a, b);
    XorUndone(a, c);
    XorSwaps(a, c);
  }

  lemma {:induction false} XorSmall(a: nat, b: nat, k: nat)
    requires a < Pow2(k) && b < Pow2(k)
    ensures Xor(a, b) < Pow2(k)
    decreases k
  {
    if a > 0 {
      XorSmall(a / 2, b / 2, k - 1);
    }
  }

  /** All chunks in a row. */
  function Concat(chunks: seq<seq<nat>>): seq<nat> {
    if chunks == [] then [] else Concat(chunks[..|chunks| - 1]) + chunks[|chunks| - 1]
  }
}
