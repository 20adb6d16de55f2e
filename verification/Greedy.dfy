/** The greedy parser with lazy matching
    (contrib/brotli/enc/backward_references_inc.h). */
module Greedy {
  import opened Distances
  import opened Commands

  /** HasherSearchResult; 'lenCode' is len ^ len_x_code. */
  datatype Search = NoMatch | Match(len: nat, lenCode: nat, distance: nat, score: int)

  /** The input block and its hasher.  find(n, pos, maxLen, cache) is the answer of
      the n-th FindLongestMatch call: whatever the hasher has stored by then. */
  datatype Block = Block(st: Stream, position: nat, numBytes: nat, hashTypeLength: nat, storeLookahead: nat,
                         window: nat, find: (nat, nat, nat, seq<int>) -> Search)

  const LAZY_GAIN: int := 175

  /** A match is not longer than asked for and is a copy of the text. */
  ghost predicate Plausible(st: Stream, s: Search, pos: nat, maxLen: nat) {
    s.Match? ==>
      0 < s.len <= maxLen && 0 < s.distance < 0x8000_0000 && Copies(st, pos, s.distance, s.len, s.lenCode)
  }

  ghost predicate Honest(b: Block) {
    4 <= b.hashTypeLength && 0 < b.storeLookahead <= b.hashTypeLength + 1 &&
    b.position + b.numBytes <= |b.st.text| &&
    forall n: nat, pos: nat, maxLen: nat, c: seq<int> {:trigger b.find(n, pos, maxLen, c)} ::
      pos + maxLen == b.position + b.numBytes ==> Plausible(b.st, b.find(n, pos, maxLen, c), pos, maxLen)
  }

  function MaxNat(a: nat, b: nat): nat { if a < b then b else a }

  /** The lazy search: as long as the match one byte later is clearly better, a byte
      is left to the literals, at most four times in a row. */
  method Lazy(b: Block, sr0: Search, position0: nat, cache: Cache, calls0: nat)
    returns (sr: Search, position: nat, calls: nat)
    requires Honest(b) && sr0.Match? && position0 + b.hashTypeLength < b.position + b.numBytes
    requires Plausible(b.st, sr0, position0, b.position + b.numBytes - position0)
    ensures sr.Match? && position0 <= position < b.position + b.numBytes
    ensures Plausible(b.st, sr, position, b.position + b.numBytes - position)
  {
    var end := b.position + b.numBytes;
    sr, position, calls := sr0, position0, calls0;
    var delayed := 0;
    var maxLength := end - position - 1;
    while true
      invariant position0 <= position && position + b.hashTypeLength < end && maxLength == end - position - 1
      invariant sr.Match? && Plausible(b.st, sr, position, end - position)
      decreases maxLength
    {
      var sr2 := b.find(calls, position + 1, maxLength, cache);
      calls := calls + 1;
      if sr2.Match? && sr2.score >= sr.score + LAZY_GAIN {
        position := position + 1;
        sr := sr2;
        delayed := delayed + 1;
        if delayed < 4 && position + b.hashTypeLength < end {
          maxLength := maxLength - 1;
          continue;
        }
      }
      break;
    }
  }

  /** The jump over data that has not matched for long. */
  method Jump(b: Block, position0: nat, insertLength0: nat, heuristics: nat)
    returns (position: nat, insertLength: nat)
    requires Honest(b) && position0 + b.hashTypeLength <= b.position + b.numBytes
    ensures position0 <= position <= b.position + b.numBytes
    ensures position - insertLength == position0 - insertLength0
  {
    var end := b.position + b.numBytes;
    position, insertLength := position0, insertLength0;
    if position > heuristics {
      var far := position > heuristics + 4 * b.window;
      var step := if far then 4 else 2;
      var margin := MaxNat(b.storeLookahead - 1, step);
      var target := MinNat(position + 4 * step, end - margin);
      while position < target
        invariant position0 <= position && (position <= position0 || position < target + step)
        invariant position - insertLength == position0 - insertLength0
        decreases target - position
      {
        position, insertLength := position + step, insertLength + step;
      }
    }
  }

  /** Where the parser stands: the commands so far are faithful, leave the encoder's
      cache in the decoder, and cover everything up to the literals pending. */
  ghost predicate Parsed(b: Block, cs: seq<Command>, cache0: Cache, lastInsert: nat,
                         cache: Cache, position: nat, insertLength: nat)
  {
    lastInsert <= b.position <= position && Distances.Sane(cache) &&
    b.position - lastInsert + Span(cs) + insertLength == position && Copying(cs) &&
    lastInsert <= Literals(cs) + insertLength &&
    Leaves(b.st, cs, cache0, b.position - lastInsert, cache)
  }

  /** Emits one command for the match sr at 'position'. */
  method Emit(b: Block, sr: Search, cs0: seq<Command>, c: Cache, position: nat, insertLength: nat,
              ghost cache0: Cache, ghost lastInsert: nat)
    returns (cs: seq<Command>, cache: Cache)
    requires Parsed(b, cs0, cache0, lastInsert, c, position, insertLength)
    requires sr.Match? && 0 < sr.len && 0 < sr.distance < 0x8000_0000
    requires Copies(b.st, position, sr.distance, sr.len, sr.lenCode)
    ensures Parsed(b, cs, cache0, lastInsert, cache, position + sr.len, 0)
    ensures Literals(cs) == Literals(cs0) + insertLength
    ensures ShortCopies(cs0, b.numBytes) && sr.len <= b.numBytes ==> ShortCopies(cs, b.numBytes)
  {
    var maxDistance := MinNat(position, b.st.maxBackward);
    var code := ComputeDistanceCode(sr.distance, maxDistance, c);
    var x := Command(insertLength, sr.len, sr.lenCode, code);
    cache := UpdateDistances(c, code, sr.distance, position, b.st.maxBackward);
    assert Decode(code, c) == sr.distance by {
      CodeDecodes(sr.distance, maxDistance, c);
    }
    Emitted(b.st, cs0, x, cache0, b.position - lastInsert, c, sr.distance, position);
    cs := cs0 + [x];
  }

  /** The search goes on lazily from a match, and the best is emitted. */
  method Take(b: Block, sr0: Search, cs0: seq<Command>, c: Cache, position0: nat, insertLength0: nat, calls0: nat,
              ghost cache0: Cache, ghost lastInsert: nat)
    returns (cs: seq<Command>, cache: Cache, position: nat, insertLength: nat, len: nat, calls: nat)
    requires Honest(b) && sr0.Match? && position0 + b.hashTypeLength < b.position + b.numBytes
    requires Plausible(b.st, sr0, position0, b.position + b.numBytes - position0)
    requires Parsed(b, cs0, cache0, lastInsert, c, position0, insertLength0) && ShortCopies(cs0, b.numBytes)
    ensures position0 <= position < position + len <= b.position + b.numBytes
    ensures Parsed(b, cs, cache0, lastInsert, cache, position + len, 0) && ShortCopies(cs, b.numBytes)
    ensures Literals(cs) == Literals(cs0) + insertLength
  {
    var sr;
    sr, position, calls := Lazy(b, sr0, position0, c, calls0);
    insertLength, len := insertLength0 + (position - position0), sr.len;
    cs, cache := Emit(b, sr, cs0, c, position, insertLength, cache0, lastInsert);
  }

  /** The main loop. */
  method Parse(b: Block, cache0: Cache, lastInsert0: nat)
    returns (cs: seq<Command>, cache: Cache, literals: nat, position: nat, insertLength: nat)
    requires Honest(b) && Distances.Sane(cache0) && lastInsert0 <= b.position
    ensures position <= b.position + b.numBytes && literals == Literals(cs) && ShortCopies(cs, b.numBytes)
    ensures Parsed(b, cs, cache0, lastInsert0, cache, position, insertLength)
  {
    var end := b.position + b.numBytes;
    var heuristics: nat, calls := b.position + b.window, 0;
    position, insertLength := b.position, lastInsert0;
    cs, cache, literals := [], cache0, 0;
    while position + b.hashTypeLength < end
      invariant position <= end && Parsed(b, cs, cache0, lastInsert0, cache, position, insertLength)
      invariant literals == Literals(cs) && ShortCopies(cs, b.numBytes)
      decreases end - position
    {
      var sr := b.find(calls, position, end - position, cache);
      calls := calls + 1;
      if sr.Match? {
        var len;
        cs, cache, position, insertLength, len, calls :=
          Take(b, sr, cs, cache, position, insertLength, calls, cache0, lastInsert0);
        heuristics := position + 2 * len + b.window;
        literals := literals + insertLength;
        position, insertLength := position + len, 0;
      } else {
        position, insertLength := Jump(b, position + 1, insertLength + 1, heuristics);
      }
    }
  }

  lemma ParsedDecodes(b: Block, cs: seq<Command>, cache0: Cache, lastInsert0: nat, cache: Cache, position: nat,
                      insertLength: nat)
    requires Honest(b) && lastInsert0 <= b.position && position <= b.position + b.numBytes
    requires Parsed(b, cs, cache0, lastInsert0, cache, position, insertLength)
    ensures var at := b.position - lastInsert0;
      insertLength <= position && at + Span(cs) == position - insertLength && Faithful(b.st, cs, cache0, at) &&
      Decompress(b.st, cs, cache0, at) == b.st.text[..position - insertLength] &&
      Decoded(b.st, cs, cache0, at).1 == cache &&
      (b.numBytes <= WIDE ==>
        (ShortCopies(cs, WIDE - 1) <==>
         Decompress(b.st, Stored(cs), cache0, at) == b.st.text[..position - insertLength]))
  {
    Reproduces(b.st, cs, cache0, b.position - lastInsert0);
    if b.numBytes <= WIDE {
      StoredIff(b.st, cs, cache0, b.position - lastInsert0);
    }
  }

  /** CreateBackwardReferences: the commands and the literals left over cover the
      block and the literals carried in, and a decoder that starts with the same
      cache reproduces the text from the commands and ends with the same cache.  From
      the words the commands are stored in, it does exactly if no copy has 2^24 bytes. */
  method CreateBackwardReferences(b: Block, cache0: Cache, lastInsert0: nat)
    returns (cs: seq<Command>, lastInsert: nat, cache: Cache, literals: nat)
    requires Honest(b) && Distances.Sane(cache0) && lastInsert0 <= b.position
    ensures Span(cs) + lastInsert == lastInsert0 + b.numBytes && literals == Literals(cs)
    ensures ShortCopies(cs, b.numBytes)
    ensures Faithful(b.st, cs, cache0, b.position - lastInsert0)
    ensures Decompress(b.st, cs, cache0, b.position - lastInsert0) == b.st.text[..b.position + b.numBytes - lastInsert]
    ensures Decoded(b.st, cs, cache0, b.position - lastInsert0).1 == cache && Distances.Sane(cache)
    ensures b.numBytes <= WIDE ==>
      (ShortCopies(cs, WIDE - 1) <==> Decompress(b.st, Stored(cs), cache0, b.position - lastInsert0) ==
                                      b.st.text[..b.position + b.numBytes - lastInsert])
  {
    var position: nat, insertLength: nat;
    cs, cache, literals, position, insertLength := Parse(b, cache0, lastInsert0);
    lastInsert := insertLength + (b.position + b.numBytes - position);
    ParsedDecodes(b, cs, cache0, lastInsert0, cache, position, insertLength);
  }
}
