/** The hash context and its updates (crypt/crypt_sha256.c and crypt/crypt_sha512.c). */
module Sha2Context {
  import opened Common
  import opened Sha2

  /** The largest multiple of the block size that is not above n. */
  function Down(n: nat, k: Kind): (m: nat)
    ensures m <= n < m + Block(k) && Rem(m, k) == 0
  {
    RemIs(n, k);
    n - Rem(n, k)
  }

  /** The bytes that a call of sha256_process_block fails to count. */
  function Uncounted(t0: nat, len: nat, k: Kind): (m: nat)
    requires t0 < Word(k)
    ensures m == 0 <==> t0 + len < 2 * Word(k)
  {
    CarryIff(t0, len, k);
    CarryBelow(t0, len, k);
    Word(k) * ((t0 + len) / Word(k) - Carry(t0, len, k))
  }

  lemma UncountedSmall(t0: nat, len: nat, k: Kind)
    requires t0 < Word(k)
    ensures Uncounted(t0, len, k) <= len
  {
    var w, s := Word(k), t0 + len;
    if s >= w {
      assert s == w * (s / w) + s % w;
      if Carry(t0, len, k) == 0 {
        MulMono(w, 1, s / w);
      }
    } else {
      assert s / w == 0;
    }
  }

  lemma CarryBelow(t0: nat, len: nat, k: Kind)
    requires t0 < Word(k)
    ensures Carry(t0, len, k) <= (t0 + len) / Word(k)
  {
    if t0 + len < Word(k) {
      assert (t0 + len) % Word(k) == t0 + len;
    }
  }

  /** The byte count: hi is what total[1] would be if it were unbounded, and 'lost' the
      bytes that were not counted. */
  ghost predicate Counted(t0: nat, t1: nat, hi: nat, lost: nat, n: nat, k: Kind) {
    t0 == n % Word(k) && t1 == hi % Word(k) && t0 + Word(k) * hi + lost == n
  }

  lemma Counts(t0: nat, t1: nat, hi: nat, lost: nat, n: nat, len: nat, k: Kind)
    requires Counted(t0, t1, hi, lost, n, k)
    ensures Counted((t0 + len) % Word(k), (t1 + Carry(t0, len, k)) % Word(k), hi + Carry(t0, len, k),
                    lost + Uncounted(t0, len, k), n + len, k)
  {
    var w, c := Word(k), Carry(t0, len, k);
    var q := (t0 + len) / w;
    assert t0 + len == w * q + (t0 + len) % w;
    assert n + len == w * (n / w) + (t0 + len);
    ModPlus(t0 + len, n / w, w);
    assert w * (hi + c) + w * (q - c) == w * hi + w * q;
    assert (t1 + c) % w == (hi + c) % w by {
      assert hi == w * (hi / w) + t1;
      assert hi + c == w * (hi / w) + (t1 + c);
      ModPlus(t1 + c, hi / w, w);
    }
  }

  lemma ModPlus(a: nat, q: nat, m: nat)
    requires m > 0
    ensures (m * q + a) % m == a % m
  {
    assert m * q + a == m * (q + a / m) + a % m by {
      assert m * (q + a / m) == m * q + m * (a / m);
    }
    DivUnique(m * q + a, m, q + a / m, a % m);
  }

  // ---------------------------------------------------------------- one update

  /** The bytes of an update of n bytes that go to a buffer which holds b. */
  function Taken(b: nat, n: nat, k: Kind): (m: nat)
    requires b <= Block(k)
    ensures m <= n
  {
    if b == 0 then 0 else if 2 * Block(k) - b > n then n else 2 * Block(k) - b
  }

  /** The bytes in the buffer after an update: what is left of the joined bytes if the
      update ends there, and otherwise of the bytes behind them. */
  function Held(b: nat, n: nat, k: Kind): (m: nat)
    requires b <= Block(k)
    ensures m <= Block(k)
  {
    var rest := n - Taken(b, n, k);
    if rest > 0 then Rem(rest, k) else if b + n > Block(k) then Rem(b + n, k) else b + n
  }

  /** The bytes that n bytes of an update behind the buffer fail to be counted when they
      follow m bytes. */
  function BlocksLoss(m: nat, n: nat, aligned: bool, k: Kind): nat {
    if aligned && n >= Block(k) then Uncounted(m % Word(k), Down(n, k), k) else 0
  }

  /** The bytes that an update of n bytes fails to count behind a message of m bytes of
      which b are in the buffer.  Whether the update is aligned is asked behind the
      bytes taken by the buffer. */
  function Loss(m: nat, b: nat, n: nat, aligned: bool, k: Kind): nat
    requires b <= Block(k)
  {
    BlocksLoss(m + Taken(b, n, k), n - Taken(b, n, k), aligned, k)
  }

  lemma HeldIs(b: nat, n: nat, k: Kind)
    requires 0 < b <= Block(k)
    ensures var t := b + Taken(b, n, k); var r := if t > Block(k) then Rem(t, k) else t;
      t <= 2 * Block(k) && r == if Taken(b, n, k) == n then Held(b, n, k) else 0
  {
  }

  class Context {
    const h: Hash
    const buffer: array<nat>
    var state: seq<nat>
    var total0: nat
    var total1: nat
    var buflen: nat
    /** The bytes compressed so far, and the byte count as it should be. */
    ghost var done: seq<nat>
    ghost var hi: nat
    ghost var lost: nat

    ghost predicate Sound()
      reads this
    {
      buffer.Length == 2 * Block(h.k) && Whole(done, h.k) && state == Fold(h, h.init, done) &&
      Counted(total0, total1, hi, lost, |done|, h.k)
    }

    ghost predicate Valid()
      reads this, buffer
    {
      Sound() && buflen <= Block(h.k)
    }

    /** The message so far. */
    ghost function Message(): seq<nat>
      reads this, buffer
      requires buflen <= buffer.Length
    {
      done + buffer[..buflen]
    }

    /** sha256_init_ctx. */
    constructor (h: Hash)
      ensures Valid() && this.h == h && Message() == [] && buflen == 0 && lost == 0 && fresh(buffer)
    {
      this.h := h;
      buffer := new nat[2 * Block(h.k)];
      state, total0, total1, buflen := h.init, 0, 0, 0;
      done, hi, lost := [], 0, 0;
    }

    /** sha256_process_block: all blocks of the data are compressed and counted. */
    method ProcessBlock(data: seq<nat>)
      requires Sound() && Whole(data, h.k)
      modifies this`state, this`total0, this`total1, this`done, this`hi, this`lost
      ensures Sound() && done == old(done) + data
      ensures lost == old(lost) + Uncounted(old(total0), |data|, h.k)
    {
      Counts(total0, total1, hi, lost, |done|, |data|, h.k);
      ModSum(|done|, |data|, h.k);
      FoldPlus(h, h.init, done, data);
      hi, lost := hi + Carry(total0, |data|, h.k), lost + Uncounted(total0, |data|, h.k);
      total0, total1 := (total0 + |data|) % Word(h.k), (total1 + Carry(total0, |data|, h.k)) % Word(h.k);
      var s := Compressed(h, state, data);
      state := s;
      done := done + data;
    }

    /** memcpy into the buffer. */
    method Copy(at: nat, data: seq<nat>)
      requires at + |data| <= buffer.Length
      modifies buffer
      ensures buffer[..at + |data|] == old(buffer[..at]) + data
    {
      for i := 0 to |data|
        invariant forall j :: 0 <= j < at + i ==> buffer[j] == if j < at then old(buffer[j]) else data[j - at]
      {
        buffer[at + i] := data[i];
      }
    }

    /** Compresses the whole blocks in the buffer and moves the rest to its front. */
    method Flush()
      requires Sound() && buflen <= buffer.Length
      modifies this, buffer
      ensures Sound() && buflen == old(Rem(buflen, h.k)) && Message() == old(Message()) && lost == old(lost)
    {
      var n := Down(buflen, h.k);
      var data, tail := buffer[..n], buffer[n..buflen];
      ghost var before, all := done, buffer[..buflen];
      assert all[..n] == data && all[n..] == tail;
      Halves(all, n, before);
      ProcessBlock(data);
      buflen := Rem(buflen, h.k);
      Copy(0, tail);
    }

    /** The first part of sha256_process_bytes: what is in the buffer is joined with the
        data. */
    method FillBuffer(data: seq<nat>) returns (rest: seq<nat>)
      requires Valid() && buflen != 0
      modifies this, buffer
      ensures Valid() && Message() + rest == old(Message()) + data && lost == old(lost)
      ensures |rest| == |data| - Taken(old(buflen), |data|, h.k)
      ensures if rest == [] then buflen == Held(old(buflen), |data|, h.k) else buflen == 0
    {
      HeldIs(buflen, |data|, h.k);
      var add := if 2 * Block(h.k) - buflen > |data| then |data| else 2 * Block(h.k) - buflen;
      var taken := data[..add];
      rest := data[add..];
      assert data == taken + rest;
      Copy(buflen, taken);
      buflen := buflen + add;
      assert Message() + rest == old(Message()) + data;
      if buflen > Block(h.k) {
        Flush();
      }
    }

    /** The second part if the data is aligned. */
    method AlignedBlocks(data: seq<nat>) returns (rest: seq<nat>)
      requires Valid() && buflen == 0
      modifies this, buffer
      ensures Valid() && buflen == 0 && done + rest == old(done) + data
      ensures |rest| < Block(h.k) && Rem(|rest|, h.k) == Rem(|data|, h.k)
      ensures lost == old(lost) + Uncounted(old(total0), Down(|data|, h.k), h.k)
    {
      var n := Down(|data|, h.k);
      RemIs(|data|, h.k);
      Halves(data, n, done);
      ProcessBlock(data[..n]);
      rest := data[n..];
    }

    /** The second part if it is not: one block at a time through the buffer. */
    method UnalignedBlocks(data: seq<nat>) returns (rest: seq<nat>)
      requires Valid() && buflen == 0
      modifies this, buffer
      ensures Valid() && buflen == 0 && done + rest == old(done) + data && lost == old(lost)
      ensures |rest| <= Block(h.k) && Rem(|rest|, h.k) == Rem(|data|, h.k)
    {
      rest := data;
      while |rest| > Block(h.k)
        invariant Valid() && buflen == 0 && done + rest == old(done) + data && lost == old(lost)
        invariant Rem(|rest|, h.k) == Rem(|data|, h.k)
      {
        ModDown(|rest|, h.k);
        var block := rest[..Block(h.k)];
        Halves(rest, Block(h.k), done);
        Copy(0, block);
        ProcessBlock(block);
        rest := rest[Block(h.k)..];
      }
    }

    /** The second part on either path. */
    method WholeBlocks(data: seq<nat>, aligned: bool) returns (rest: seq<nat>)
      requires Valid() && buflen == 0
      modifies this, buffer
      ensures Valid() && buflen == 0 && Message() + rest == old(Message()) + data
      ensures |rest| <= Block(h.k) && Rem(|rest|, h.k) == Rem(|data|, h.k)
      ensures lost == old(lost) +
        if aligned then Uncounted(|old(Message())| % Word(h.k), Down(|data|, h.k), h.k) else 0
    {
      assert Message() == done by { Empty(done, buffer[..buflen]); }
      if aligned {
        rest := AlignedBlocks(data);
      } else {
        rest := UnalignedBlocks(data);
      }
      assert Message() == done by { Empty(done, buffer[..buflen]); }
    }

    /** The last part: the remaining bytes go to the buffer. */
    method KeepRest(rest: seq<nat>)
      requires Valid() && |rest| <= Block(h.k) && (rest != [] ==> buflen == 0)
      modifies this, buffer
      ensures Valid() && Message() == old(Message()) + rest && lost == old(lost)
      ensures buflen == if rest == [] then old(buflen) else Rem(|rest|, h.k)
    {
      if |rest| > 0 {
        Copy(buflen, rest);
        buflen := buflen + |rest|;
        assert Message() == old(Message()) + rest;
        if buflen >= Block(h.k) {
          Flush();
        }
      } else {
        assert Message() + rest == Message();
      }
    }

    /** The parts behind the first one. */
    method Blocks(data: seq<nat>, aligned: bool)
      requires Valid() && (data != [] ==> buflen == 0)
      modifies this, buffer
      ensures Valid() && Message() == old(Message()) + data
      ensures buflen == if data == [] then old(buflen) else Rem(|data|, h.k)
      ensures lost == old(lost) + BlocksLoss(|old(Message())|, |data|, aligned, h.k)
    {
      var rest := data;
      if |rest| >= Block(h.k) {
        rest := WholeBlocks(data, aligned);
      }
      KeepRest(rest);
    }

    /** sha256_process_bytes: the message grows by the data on either alignment path,
        and exactly the bytes of Loss are not counted. */
    method ProcessBytes(data: seq<nat>, aligned: bool)
      requires Valid()
      modifies this, buffer
      ensures Valid() && Message() == old(Message()) + data
      ensures buflen == Held(old(buflen), |data|, h.k)
      ensures lost == old(lost) + Loss(|old(Message())|, old(buflen), |data|, aligned, h.k)
    {
      var rest := data;
      if buflen != 0 {
        rest := FillBuffer(data);
      }
      Blocks(rest, aligned);
    }

    /** The count takes the bytes in the buffer into account. */
    method CountRest()
      requires Counted(total0, total1, hi, lost, |done|, h.k) && buflen <= Block(h.k)
      modifies this`total0, this`total1, this`hi
      ensures Counted(total0, total1, hi, lost, |done| + buflen, h.k)
    {
      Counts(total0, total1, hi, lost, |done|, buflen, h.k);
      total0, total1, hi :=
        (total0 + buflen) % Word(h.k), (total1 + Carry(total0, buflen, h.k)) % Word(h.k),
        hi + Carry(total0, buflen, h.k);
    }

    /** sha256_finish_ctx: the padding and the length field are put behind the message. */
    method Finish() returns (digest: seq<nat>)
      requires Valid()
      modifies this, buffer
      ensures old(lost) <= |old(Message())|
      ensures digest == Fold(h, h.init, old(Message()) + Padding(|old(Message())|, |old(Message())| - old(lost), h.k))
    {
      ghost var held := buffer[..buflen];
      CountRest();
      var tail := Tail(buflen, total0, total1, h.k);
      TailIs(|done|, buflen, total0, total1, hi, lost, h.k);
      Copy(buflen, tail);
      var data := buffer[..buflen + |tail|];
      assert data == held + tail;
      Triple(done, held, tail);
      FoldPlus(h, h.init, done, data);
      digest := Compressed(h, state, data);
      state := digest;
    }
  }

  lemma Triple(a: seq<nat>, b: seq<nat>, c: seq<nat>)
    ensures a + (b + c) == (a + b) + c
  {
  }

  /** The bytes of padding before the length field. */
  function Pad(bytes: nat, k: Kind): int {
    if bytes >= Block(k) - Field(k) then 2 * Block(k) - Field(k) - bytes else Block(k) - Field(k) - bytes
  }

  /** What is put behind the bytes in the buffer. */
  function Tail(bytes: nat, t0: nat, t1: nat, k: Kind): (r: seq<nat>)
    requires bytes <= Block(k)
    ensures |r| == Pad(bytes, k) + Field(k)
  {
    [0x80] + Zeros(Pad(bytes, k) - 1) +
    (BigEndian(HighBits(t0, t1, k), Field(k) / 2) + BigEndian(LowBits(t0, k), Field(k) / 2))
  }

  lemma PadIs(n: nat, bytes: nat, k: Kind)
    requires Rem(n, k) == 0 && bytes <= Block(k)
    ensures Gap(n + bytes, k) == Pad(bytes, k) - 1 && Rem(bytes + Pad(bytes, k) + Field(k), k) == 0
    ensures bytes + Pad(bytes, k) + Field(k) <= 2 * Block(k)
  {
    ModSum(n, bytes, k);
  }

  /** It is the padding of the standard for the bytes counted. */
  lemma TailIs(n: nat, bytes: nat, t0: nat, t1: nat, hi: nat, lost: nat, k: Kind)
    requires Rem(n, k) == 0 && bytes <= Block(k) && Counted(t0, t1, hi, lost, n + bytes, k)
    ensures lost <= n + bytes && Tail(bytes, t0, t1, k) == Padding(n + bytes, n + bytes - lost, k)
    ensures Rem(bytes + |Tail(bytes, t0, t1, k)|, k) == 0 && bytes + |Tail(bytes, t0, t1, k)| <= 2 * Block(k)
  {
    FieldIs(t0, t1, hi, n + bytes - lost, k);
    PadIs(n, bytes, k);
  }

  lemma Empty(a: seq<nat>, b: seq<nat>)
    requires b == []
    ensures a + b == a
  {
  }

  /** Moving the first n bytes of s over to what is done. */
  lemma Halves(s: seq<nat>, n: nat, done: seq<nat>)
    requires n <= |s|
    ensures (done + s[..n]) + s[n..] == done + s
  {
  }

  /** The loop of sha256_process_block. */
  method Compressed(h: Hash, state0: seq<nat>, data: seq<nat>) returns (state: seq<nat>)
    requires Whole(data, h.k)
    ensures state == Fold(h, state0, data)
  {
    state := state0;
    var at, n := 0, |data|;
    while n > 0
      invariant 0 <= n <= |data| && Rem(n, h.k) == 0 && at + n == |data|
      invariant Fold(h, state, data[at..]) == Fold(h, state0, data)
    {
      ghost var rest := data[at..];
      ModDown(n, h.k);
      assert rest[..Block(h.k)] == data[at..at + Block(h.k)] && rest[Block(h.k)..] == data[at + Block(h.k)..];
      state := h.compress(state, data[at..at + Block(h.k)]);
      at, n := at + Block(h.k), n - Block(h.k);
    }
  }

  /** The bytes in the buffer after the updates. */
  function HeldAfter(chunks: seq<seq<nat>>, k: Kind): (m: nat)
    ensures m <= Block(k)
  {
    if chunks == [] then 0 else Held(HeldAfter(chunks[..|chunks| - 1], k), |chunks[|chunks| - 1]|, k)
  }

  /** The loss of update i. */
  function LossAt(chunks: seq<seq<nat>>, aligned: seq<bool>, i: nat, k: Kind): nat
    requires i < |chunks| == |aligned|
  {
    Loss(|Concat(chunks[..i])|, HeldAfter(chunks[..i], k), |chunks[i]|, aligned[i], k)
  }

  /** The loss of the first n updates. */
  function LossUpto(chunks: seq<seq<nat>>, aligned: seq<bool>, n: nat, k: Kind): nat
    requires n <= |chunks| == |aligned|
  {
    if n == 0 then 0 else LossUpto(chunks, aligned, n - 1, k) + LossAt(chunks, aligned, n - 1, k)
  }

  function LossOf(chunks: seq<seq<nat>>, aligned: seq<bool>, k: Kind): nat
    requires |chunks| == |aligned|
  {
    LossUpto(chunks, aligned, |chunks|, k)
  }

  /** Update i is counted: it is short of a block behind the bytes that the buffer
      takes, or not aligned there, or its whole blocks and the low word of the count
      are below twice the word modulus. */
  predicate CountedAt(chunks: seq<seq<nat>>, aligned: seq<bool>, i: nat, k: Kind)
    requires i < |chunks| == |aligned|
  {
    var taken := Taken(HeldAfter(chunks[..i], k), |chunks[i]|, k);
    !aligned[i] || |chunks[i]| - taken < Block(k) ||
    (|Concat(chunks[..i])| + taken) % Word(k) + Down(|chunks[i]| - taken, k) < 2 * Word(k)
  }

  predicate AllCounted(chunks: seq<seq<nat>>, aligned: seq<bool>, n: nat, k: Kind)
    requires n <= |chunks| == |aligned|
  {
    forall i :: 0 <= i < n ==> CountedAt(chunks, aligned, i, k)
  }

  lemma {:induction false} LossIff(chunks: seq<seq<nat>>, aligned: seq<bool>, n: nat, k: Kind)
    requires n <= |chunks| == |aligned|
    ensures LossUpto(chunks, aligned, n, k) == 0 <==> AllCounted(chunks, aligned, n, k)
    decreases n
  {
    if n > 0 {
      LossIff(chunks, aligned, n - 1, k);
      assert LossAt(chunks, aligned, n - 1, k) == 0 <==> CountedAt(chunks, aligned, n - 1, k);
    }
  }

  lemma {:induction false} LossSmall(chunks: seq<seq<nat>>, aligned: seq<bool>, n: nat, k: Kind)
    requires n <= |chunks| == |aligned|
    ensures LossUpto(chunks, aligned, n, k) <= |Concat(chunks[..n])|
    decreases n
  {
    if n > 0 {
      LossSmall(chunks, aligned, n - 1, k);
      StepLoss(chunks, aligned, n - 1, k);
      var t := Taken(HeldAfter(chunks[..n - 1], k), |chunks[n - 1]|, k);
      UncountedSmall((|Concat(chunks[..n - 1])| + t) % Word(k), Down(|chunks[n - 1]| - t, k), k);
    }
  }

  lemma LossWhole(chunks: seq<seq<nat>>, aligned: seq<bool>, k: Kind)
    requires |chunks| == |aligned|
    ensures LossOf(chunks, aligned, k) <= |Concat(chunks)|
  {
    LossSmall(chunks, aligned, |chunks|, k);
    assert chunks[..|chunks|] == chunks;
  }

  /** What is hashed for a split of a message. */
  function Hashed(chunks: seq<seq<nat>>, aligned: seq<bool>, k: Kind): seq<nat>
    requires |chunks| == |aligned|
  {
    LossWhole(chunks, aligned, k);
    var n := |Concat(chunks)|;
    Concat(chunks) + Padding(n, n - LossOf(chunks, aligned, k), k)
  }

  /** The padded message of the standard. */
  function Padded(msg: seq<nat>, k: Kind): seq<nat> { msg + Padding(|msg|, |msg|, k) }

  /** For every message that the standard admits, the padded message is hashed exactly
      when every update is counted. */
  lemma ChunksIff(chunks: seq<seq<nat>>, aligned: seq<bool>, k: Kind)
    requires |chunks| == |aligned|
    requires 8 * |Concat(chunks)| < Word(k) * Word(k)
    ensures Hashed(chunks, aligned, k) == Padded(Concat(chunks), k) <==> AllCounted(chunks, aligned, |chunks|, k)
  {
    LossIff(chunks, aligned, |chunks|, k);
    LossWhole(chunks, aligned, k);
    LostIff(Concat(chunks), LossOf(chunks, aligned, k), k);
  }

  lemma LostIff(msg: seq<nat>, lost: nat, k: Kind)
    requires lost <= |msg| && 8 * |msg| < Word(k) * Word(k)
    ensures msg + Padding(|msg|, |msg| - lost, k) == Padded(msg, k) <==> lost == 0
  {
    LostShows(|msg|, lost, k);
    SamePrefix(msg, Padding(|msg|, |msg| - lost, k), Padding(|msg|, |msg|, k));
  }

  lemma SamePrefix(a: seq<nat>, x: seq<nat>, y: seq<nat>)
    ensures a + x == a + y <==> x == y
  {
    assert (a + x)[|a|..] == x && (a + y)[|a|..] == y;
  }

  /** Updates that are shorter than the word modulus are counted.  In SHA-512 these are
      all updates whose length is a size_t. */
  lemma ShortCounted(chunks: seq<seq<nat>>, aligned: seq<bool>, k: Kind)
    requires |chunks| == |aligned| && forall i :: 0 <= i < |chunks| ==> aligned[i] ==> |chunks[i]| < Word(k)
    ensures AllCounted(chunks, aligned, |chunks|, k)
  {
    forall i | 0 <= i < |chunks|
      ensures CountedAt(chunks, aligned, i, k)
    {
      assert aligned[i] ==> |chunks[i]| < Word(k);
    }
  }

  lemma DownBelow(n: nat, k: Kind)
    ensures Down(n, k) < 2 * Word(k) <==> n < 2 * Word(k)
  {
  }

  /** One aligned update on a new context is counted exactly below twice the word
      modulus, in SHA-256 below 2^33 bytes. */
  lemma OneChunkIff(c: seq<nat>, k: Kind)
    ensures AllCounted([c], [true], 1, k) <==> |c| < 2 * Word(k)
  {
    DownBelow(|c|, k);
    var chunks: seq<seq<nat>>, aligned := [c], [true];
    assert chunks[..0] == [] && Concat([]) == [] && HeldAfter([], k) == 0;
    assert CountedAt(chunks, aligned, 0, k) <==> Down(|c|, k) < 2 * Word(k) by {
      if |c| < Block(k) { assert Down(|c|, k) <= |c|; }
    }
  }

  lemma OneLoss(c: seq<nat>, k: Kind)
    requires |c| >= Block(k)
    ensures Concat([c]) == c && LossOf([c], [true], k) == Uncounted(0, Down(|c|, k), k)
  {
    var chunks: seq<seq<nat>>, aligned := [c], [true];
    assert chunks[..0] == [] && Concat([]) == [] && [] + c == c && HeldAfter([], k) == 0;
    assert LossUpto(chunks, aligned, 1, k) == LossAt(chunks, aligned, 0, k);
  }

  lemma EightGiga()
    ensures Down(0x2_0000_0000, Sha256) == 0x2_0000_0000
    ensures Uncounted(0, 0x2_0000_0000, Sha256) == 0x1_0000_0000
  {
  }

  /** The smallest wrong case of SHA-256: 2^33 bytes in one aligned update on a new
      context count as 2^32, and what is hashed is not the padded message. */
  lemma CarryFails(c: seq<nat>)
    requires |c| == 0x2_0000_0000
    ensures Concat([c]) == c && LossOf([c], [true], Sha256) == 0x1_0000_0000
    ensures Hashed([c], [true], Sha256) != Padded(c, Sha256)
  {
    OneLoss(c, Sha256);
    EightGiga();
    OneChunkIff(c, Sha256);
    ChunksIff([c], [true], Sha256);
  }

  lemma StepLoss(chunks: seq<seq<nat>>, aligned: seq<bool>, i: nat, k: Kind)
    requires i < |chunks| == |aligned|
    ensures Concat(chunks[..i + 1]) == Concat(chunks[..i]) + chunks[i]
    ensures HeldAfter(chunks[..i + 1], k) == Held(HeldAfter(chunks[..i], k), |chunks[i]|, k)
    ensures LossUpto(chunks, aligned, i + 1, k) == LossUpto(chunks, aligned, i, k) +
            Loss(|Concat(chunks[..i])|, HeldAfter(chunks[..i], k), |chunks[i]|, aligned[i], k)
  {
    assert chunks[..i + 1][..i] == chunks[..i];
  }

  /** All updates on a new context. */
  method Absorb(h: Hash, chunks: seq<seq<nat>>, aligned: seq<bool>) returns (ctx: Context)
    requires |aligned| == |chunks|
    ensures fresh(ctx) && fresh(ctx.buffer) && ctx.Valid() && ctx.h == h
    ensures ctx.Message() == Concat(chunks) && ctx.lost == LossOf(chunks, aligned, h.k)
  {
    ctx := new Context(h);
    for i := 0 to |chunks|
      invariant ctx.Valid() && ctx.h == h && ctx.Message() == Concat(chunks[..i])
      invariant ctx.buflen == HeldAfter(chunks[..i], h.k) && ctx.lost == LossUpto(chunks, aligned, i, h.k)
      invariant fresh(ctx) && fresh(ctx.buffer)
    {
      StepLoss(chunks, aligned, i, h.k);
      ctx.ProcessBytes(chunks[i], aligned[i]);
    }
    assert chunks[..|chunks|] == chunks;
  }

  /** Any split of a message into updates, aligned or not: the message is hashed with
      its padding, but for exactly the bytes of LossOf that were not counted, and it is
      the digest of the standard if every update is counted. */
  method HashChunks(h: Hash, chunks: seq<seq<nat>>, aligned: seq<bool>) returns (digest: seq<nat>)
    requires |aligned| == |chunks|
    ensures digest == Fold(h, h.init, Hashed(chunks, aligned, h.k))
    ensures AllCounted(chunks, aligned, |chunks|, h.k) ==> digest == Digest(h, Concat(chunks))
  {
    var ctx := Absorb(h, chunks, aligned);
    LossIff(chunks, aligned, |chunks|, h.k);
    digest := ctx.Finish();
  }

  /** With bytes lost, what is hashed is not the padded message. */
  lemma LostShows(n: nat, lost: nat, k: Kind)
    requires lost <= n && 8 * n < Word(k) * Word(k)
    ensures Padding(n, n - lost, k) == Padding(n, n, k) <==> lost == 0
  {
    WordIs(k);
    SmallMod(8 * n, Word(k) * Word(k));
    SmallMod(8 * (n - lost), Word(k) * Word(k));
    var x, y := BigEndian(8 * (n - lost), Field(k)), BigEndian(8 * n, Field(k));
    var p := [0x80] + Zeros(Gap(n, k));
    if p + x == p + y {
      assert (p + x)[|p|..] == x && (p + y)[|p|..] == y;
      BigEndianInjective(8 * (n - lost), 8 * n, Field(k));
    }
  }

  lemma SmallMod(x: nat, m: nat)
    requires x < m
    ensures x % m == x
  {
    DivUnique(x, m, 0, x);
  }
}
