/**
Streaming and one-shot SHA-256 over a given compression function.  Both
implementations compress a block by the same computation from the same tables.
*/
module Sha256 {
  import opened Sequences
  import opened Outcomes
  import opened Bytes
  import opened Words

  const U64 := 0x1_0000_0000_0000_0000

  type State = s: seq<u32> | |s| == 8 witness [0, 0, 0, 0, 0, 0, 0, 0]
  type Block = b: seq<byte> | |b| == 64 witness seq(64, _ => 0)
  type Compression = (State, Block) -> State

  /** The hash loop of section 6.2.2 of FIPS 180-4: the blocks of a message, compressed one after the other. */
  function Absorbed(compress: Compression, initial: State, m: seq<byte>): State
    requires |m| % 64 == 0
  {
    if m == [] then initial
    else compress(Absorbed(compress, initial, m[..|m| - 64]), m[|m| - 64..])
  }

  lemma AbsorbOne(compress: Compression, initial: State, m: seq<byte>, block: Block)
    requires |m| % 64 == 0
    ensures |m + block| % 64 == 0
    ensures Absorbed(compress, initial, m + block) == compress(Absorbed(compress, initial, m), block)
  {
    var all := m + block;
    assert all[..|all| - 64] == m && all[|all| - 64..] == block;
  }

  // ---------------------------------------------------------------------
  // Padding (section 5.1.1 of FIPS 180-4)

  function Zeros(n: nat): (z: seq<byte>)
    ensures |z| == n
  {
    seq(n, _ => 0)
  }

  /** A 64-bit length, most significant byte first. */
  function Be64(x: nat): (b: seq<byte>)
    requires x < U64
    ensures |b| == 8
  {
    SplitBig(x / 0x1_0000_0000) + SplitBig(x % 0x1_0000_0000)
  }

  lemma Be64IsNumeral(x: nat)
    requires x < U64
    ensures Numeral(Be64(x)) == x
  {
    var high, low := SplitBig(x / 0x1_0000_0000), SplitBig(x % 0x1_0000_0000);
    SplitIsNumeral(x / 0x1_0000_0000);
    SplitIsNumeral(x % 0x1_0000_0000);
    NumeralBehind(high, low[0], low[1], low[2], low[3]);
    assert low == [low[0], low[1], low[2], low[3]];
  }

  /** How many zero bytes bring a message and its 0x80 up to eight bytes short of a block. */
  function ZeroCount(length: nat): nat {
    ZerosAfter(length % 64)
  }

  /** The same, for a partial block of `r` bytes. */
  function ZerosAfter(r: nat): nat
    requires r < 64
  {
    if r <= 55 then 55 - r else 119 - r
  }

  /** The message, a one bit, zeros, and the bit length modulo 2^64. */
  function Padded(m: seq<byte>): seq<byte> {
    m + [0x80] + Zeros(ZeroCount(|m|)) + Be64(|m| * 8 % U64)
  }

  lemma Remainder64(q: nat, r: nat)
    requires r < 64
    ensures (64 * q + r) % 64 == r
  {
  }

  /** The number of zeros is the least that leaves room for exactly the length. */
  lemma ZeroCountIsLeast(length: nat, fewer: nat)
    ensures (length + 1 + ZeroCount(length) + 8) % 64 == 0
    ensures fewer < ZeroCount(length) ==> (length + 1 + fewer + 8) % 64 != 0
  {
    var q, r := length / 64, length % 64;
    if r <= 55 {
      Remainder64(q + 1, 0);
      if fewer < ZeroCount(length) {
        Remainder64(q, r + 9 + fewer);
      }
    } else {
      Remainder64(q + 2, 0);
      if fewer < ZeroCount(length) {
        Remainder64(q + 1, r + 9 + fewer - 64);
      }
    }
  }

  /**
    The padded message byte by byte: the message, 0x80, fewer than 64 zeros, and eight bytes that spell the length in
    bits; and its length is the least multiple of 64 that leaves room for that.
   */
  lemma PaddedLayout(m: seq<byte>, k: nat)
    ensures var p := Padded(m);
      && |p| % 64 == 0 && |m| + 9 <= |p| < |m| + 73
      && (k < |m| ==> p[k] == m[k])
      && p[|m|] == 0x80
      && (|m| < k < |p| - 8 ==> p[k] == 0)
      && Numeral(p[|p| - 8..]) == |m| * 8 % 0x1_0000_0000_0000_0000
  {
    var p, length := Padded(m), Be64(|m| * 8 % U64);
    ZeroCountIsLeast(|m|, 0);
    Be64IsNumeral(|m| * 8 % U64);
    assert p[|p| - 8..] == length;
  }

  /** A message of up to 55 bytes takes a single compression. */
  lemma ShortDigest(compress: Compression, initial: State, m: seq<byte>)
    requires |m| <= 55
    ensures |Padded(m)| == 64 && Digest(compress, initial, m) == compress(initial, Padded(m))
  {
    ZeroCountIsLeast(|m|, 0);
    AbsorbOne(compress, initial, [], Padded(m));
    assert [] + Padded(m) == Padded(m);
  }

  function Digest(compress: Compression, initial: State, m: seq<byte>): State {
    ZeroCountIsLeast(|m|, 0);
    Absorbed(compress, initial, Padded(m))
  }

  // ---------------------------------------------------------------------
  // One shot

  method PadWithZeros(input: seq<byte>) returns (padded: seq<byte>)
    ensures padded == input + [0x80] + Zeros(ZeroCount(|input|))
  {
    padded := input + [0x80];
    ghost var zeros := 0;
    ZeroCountIsLeast(|input|, 0);
    while (|padded| + 8) % 64 != 0
      invariant zeros <= ZeroCount(|input|) && padded == input + [0x80] + Zeros(zeros)
      decreases ZeroCount(|input|) - zeros
    {
      padded := padded + [0];
      assert Zeros(zeros) + [0] == Zeros(zeros + 1);
      zeros := zeros + 1;
    }
    ZeroCountIsLeast(|input|, zeros);
  }

  method HashBlocks(compress: Compression, initial: State, padded: seq<byte>) returns (h: State)
    requires |padded| % 64 == 0
    ensures h == Absorbed(compress, initial, padded)
  {
    h := initial;
    var at := 0;
    while at < |padded|
      invariant at <= |padded| && at % 64 == 0
      invariant h == Absorbed(compress, initial, padded[..at])
    {
      AbsorbOne(compress, initial, padded[..at], padded[at..at + 64]);
      assert padded[..at + 64] == padded[..at] + padded[at..at + 64];
      h := compress(h, padded[at..at + 64]);
      at := at + 64;
    }
    assert padded[..at] == padded;
  }

  method Sha256OneShot(compress: Compression, initial: State, input: seq<byte>) returns (digest: State)
    ensures digest == Digest(compress, initial, input)
  {
    var bitLen := |input| % U64 * 8 % U64;
    var padded := PadWithZeros(input);
    LengthWraps(|input|);
    ZeroCountIsLeast(|input|, 0);
    digest := HashBlocks(compress, initial, padded + Be64(bitLen));
  }

  /** Counting bytes modulo 2^64 and then multiplying by eight gives the bit length modulo 2^64. */
  lemma LengthWraps(n: nat)
    ensures n % U64 * 8 % U64 == n * 8 % U64
  {
    var q := n / U64;
    assert n == U64 * q + n % U64;
    assert n * 8 == U64 * (8 * q) + n % U64 * 8;
    ModMultiple(n % U64 * 8, 8 * q);
  }

  lemma ModMultiple(x: nat, q: nat)
    ensures (U64 * q + x) % U64 == x % U64
  {
    var y := U64 * q + x;
    assert x == U64 * (x / U64) + x % U64;
    assert y == U64 * (q + x / U64) + x % U64;
    assert y == U64 * (y / U64) + y % U64;
  }

  // ---------------------------------------------------------------------
  // Streaming

  lemma PartialLength(blocks: seq<byte>, partial: seq<byte>)
    requires |blocks| % 64 == 0 && |partial| < 64
    ensures |blocks + partial| % 64 == |partial|
  {
    Remainder64(|blocks| / 64, |partial|);
  }

  lemma MoreZeros(m: seq<byte>, n: nat, more: nat)
    ensures m + Zeros(n) + Zeros(more) == m + Zeros(n + more)
  {
    assert Zeros(n) + Zeros(more) == Zeros(n + more);
  }

  class StreamingSha256 {
    const compress: Compression
    const initial: State
    var state: State
    const block: array<byte>
    var blockLen: nat
    var totalLen: nat
    /** The whole blocks absorbed so far. */
    ghost var blocks: seq<byte>

    /** The state has absorbed the whole blocks; the buffer holds a partial one. */
    ghost predicate Buffered()
      reads this, block
    {
      && block.Length == 64 && blockLen < 64
      && |blocks| % 64 == 0
      && state == Absorbed(compress, initial, blocks)
    }

    ghost predicate Valid()
      reads this, block
    {
      Buffered() && totalLen == |Message()| % U64
    }

    /** All bytes absorbed so far. */
    ghost function Message(): seq<byte>
      requires Buffered()
      reads this, block
    {
      blocks + block[..blockLen]
    }

    constructor (compress: Compression, initial: State)
      ensures Valid() && fresh(block)
      ensures Message() == [] && this.compress == compress && this.initial == initial
    {
      this.compress := compress;
      this.initial := initial;
      state := initial;
      block := new byte[64](_ => 0);
      blockLen := 0;
      totalLen := 0;
      blocks := [];
    }

    /** Copies bytes into the buffer at `at`. */
    method Fill(at: nat, bytes: seq<byte>)
      requires at + |bytes| <= block.Length
      modifies block
      ensures block[..at + |bytes|] == old(block[..at]) + bytes
    {
      for i := 0 to |bytes|
        invariant block[..at + i] == old(block[..at]) + bytes[..i]
      {
        block[at + i] := bytes[i];
        assert block[..at + i + 1] == block[..at + i] + [bytes[i]];
      }
    }

    /** Compresses a whole block. */
    method AbsorbBlock(whole: Block)
      requires |blocks| % 64 == 0 && state == Absorbed(compress, initial, blocks)
      modifies this`state, this`blocks
      ensures blocks == old(blocks) + whole
      ensures |blocks| % 64 == 0 && state == Absorbed(compress, initial, blocks)
    {
      AbsorbOne(compress, initial, blocks, whole);
      state := compress(state, whole);
      blocks := blocks + whole;
    }

    /** Whatever the split into calls, the object has absorbed the concatenation. */
    method Update(input: seq<byte>)
      requires Valid()
      modifies this, block
      ensures Valid()
      ensures Message() == old(Message()) + input
    {
      TotalWraps(|Message()|, |input|);
      totalLen := (totalLen + |input|) % U64;
      AbsorbInput(input);
    }

    method AbsorbInput(input: seq<byte>)
      requires Buffered()
      modifies this`state, this`blockLen, this`blocks, block
      ensures Buffered()
      ensures Message() == old(Message()) + input
    {
      ghost var whole := Message() + input;
      var rest := input;
      if blockLen != 0 {
        rest := TopUp(input);
      }
      assert Message() + rest == whole;
      if rest == [] {
        assert Message() + rest == Message();
      } else {
        AbsorbRest(rest);
      }
    }

    /** First part of an update with a partly filled buffer: fill it, and compress it once full. */
    method TopUp(input: seq<byte>) returns (rest: seq<byte>)
      requires Buffered() && blockLen > 0
      modifies this`state, this`blockLen, this`blocks, block
      ensures Buffered() && (blockLen == 0 || rest == [])
      ensures Message() + rest == old(Message()) + input
    {
      var take := if 64 - blockLen < |input| then 64 - blockLen else |input|;
      rest := input[take..];
      assert input == input[..take] + rest;
      RegroupMiddle(blocks, block[..blockLen], input[..take], rest);
      Fill(blockLen, input[..take]);
      blockLen := blockLen + take;
      if blockLen == 64 {
        assert block[..] == block[..64];
        AbsorbBlock(block[..]);
        blockLen := 0;
        assert blocks + block[..0] == blocks;
      }
    }

    /** Second part: whole blocks straight from the input, then the remainder into the empty buffer. */
    method AbsorbRest(input: seq<byte>)
      requires Buffered() && blockLen == 0
      modifies this`state, this`blockLen, this`blocks, block
      ensures Buffered()
      ensures Message() == old(Message()) + input
    {
      ghost var before := blocks;
      assert Message() == before;
      var rest := input;
      assert before + rest == before + input;
      while |rest| >= 64
        invariant Buffered() && blockLen == 0
        invariant blocks + rest == before + input
      {
        AbsorbBlock(rest[..64]);
        assert rest == rest[..64] + rest[64..];
        rest := rest[64..];
      }
      if rest != [] {
        Fill(0, rest);
        blockLen := |rest|;
        assert block[..blockLen] == rest;
      } else {
        assert blocks + rest == blocks && Message() == blocks;
      }
    }

    /** No room for the length: pads the buffer with zeros and compresses it. */
    method FlushPadded()
      requires block.Length == 64 && 56 < blockLen <= 64
      requires |blocks| % 64 == 0 && state == Absorbed(compress, initial, blocks)
      modifies this`state, this`blockLen, this`blocks, block
      ensures Buffered() && blockLen == 0
      ensures Message() == old(blocks + block[..blockLen]) + Zeros(64 - old(blockLen))
    {
      RegroupMiddle(blocks, block[..blockLen], Zeros(64 - blockLen), []);
      Fill(blockLen, Zeros(64 - blockLen));
      assert block[..] == block[..64];
      AbsorbBlock(block[..]);
      blockLen := 0;
      assert blocks + block[..0] == blocks;
    }

    /** Pads the buffer with zeros up to where the length goes. */
    method PadForLength()
      requires Buffered() && blockLen <= 56
      modifies this`blockLen, block
      ensures Buffered() && blockLen == 56
      ensures Message() == old(Message()) + Zeros(56 - old(blockLen))
    {
      RegroupMiddle(blocks, block[..blockLen], Zeros(56 - blockLen), []);
      Fill(blockLen, Zeros(56 - blockLen));
      blockLen := 56;
    }

    /** Appends the one bit and the zeros, up to eight bytes short of a block. */
    method CloseMessage()
      requires Buffered()
      modifies this`state, this`blockLen, this`blocks, block
      ensures Buffered() && blockLen == 56
      ensures Message() == old(Message()) + [0x80] + Zeros(ZerosAfter(old(blockLen)))
    {
      ghost var m := Message();
      RegroupMiddle(blocks, block[..blockLen], [0x80], []);
      Fill(blockLen, [0x80]);
      blockLen := blockLen + 1;
      ghost var marked := m + [0x80];
      if blockLen > 56 {
        ghost var spilled := 64 - blockLen;
        FlushPadded();
        PadForLength();
        MoreZeros(marked, spilled, 56);
      } else {
        PadForLength();
      }
    }

    /** The digest of the absorbed message; the object is spent. */
    method Finish() returns (digest: State)
      requires Valid()
      modifies this, block
      ensures digest == old(Digest(compress, initial, Message()))
    {
      ghost var m := Message();
      var bitLen := totalLen * 8 % U64;
      LengthWraps(|m|);
      PartialLength(blocks, block[..blockLen]);
      CloseMessage();
      ghost var closed := Message();
      Fill(56, Be64(bitLen));
      RegroupMiddle(blocks, closed[|blocks|..], Be64(bitLen), []);
      assert block[..] == block[..64];
      assert blocks + block[..] == closed + Be64(bitLen);
      AbsorbBlock(block[..]);
      digest := state;
    }
  }

  lemma TotalWraps(n: nat, more: nat)
    ensures (n % U64 + more) % U64 == (n + more) % U64
  {
    var q := n / U64;
    assert n == U64 * q + n % U64;
    ModMultiple(n % U64 + more, q);
  }

  // ---------------------------------------------------------------------
  // Any chunking

  function Flattened(chunks: seq<seq<byte>>): seq<byte> {
    if chunks == [] then [] else Flattened(chunks[..|chunks| - 1]) + chunks[|chunks| - 1]
  }

  /** Feeding the chunks of a message one by one gives the digest of the whole. */
  method HashChunks(compress: Compression, initial: State, chunks: seq<seq<byte>>) returns (digest: State)
    ensures digest == Digest(compress, initial, Flattened(chunks))
  {
    var hasher := new StreamingSha256(compress, initial);
    for i := 0 to |chunks|
      invariant hasher.Valid() && fresh(hasher) && fresh(hasher.block)
      invariant hasher.compress == compress && hasher.initial == initial
      invariant hasher.Message() == Flattened(chunks[..i])
    {
      assert chunks[..i + 1][..i] == chunks[..i];
      hasher.Update(chunks[i]);
    }
    assert chunks[..|chunks|] == chunks;
    digest := hasher.Finish();
  }

  datatype Snapshot = Snapshot(bytes: seq<byte>, digest: State)
  datatype SnapshotError = SnapshotChanged

  /** What a reader delivers up to its first empty read. */
  function Delivered(pieces: seq<seq<byte>>): seq<byte> {
    if pieces == [] || pieces[0] == [] then [] else pieces[0] + Delivered(pieces[1..])
  }

  /** That is every piece in front of the first empty one. */
  lemma {:induction false} DeliveredPieces(pieces: seq<seq<byte>>, n: nat)
    requires n <= |pieces| && (n < |pieces| ==> pieces[n] == []) && forall i :: 0 <= i < n ==> pieces[i] != []
    ensures Delivered(pieces) == Flattened(pieces[..n])
    decreases n
  {
    if n > 0 {
      DeliveredPieces(pieces[1..], n - 1);
      assert pieces[..n] == [pieces[0]] + pieces[1..][..n - 1];
      FlattenedFirst(pieces[0], pieces[1..][..n - 1]);
    }
  }

  lemma {:induction false} FlattenedFirst(first: seq<byte>, rest: seq<seq<byte>>)
    ensures Flattened([first] + rest) == first + Flattened(rest)
  {
    var chunks := [first] + rest;
    if rest == [] {
      assert chunks[..0] == [];
    } else {
      var n := |rest| - 1;
      assert chunks[..n + 1] == [first] + rest[..n];
      FlattenedFirst(first, rest[..n]);
      RegroupMiddle(first, Flattened(rest[..n]), rest[n], []);
    }
  }

  /** These bytes and what is still to come are what the reader delivers. */
  ghost predicate Taken(bytes: seq<byte>, pieces: seq<seq<byte>>, i: nat)
    requires i <= |pieces|
  {
    Delivered(pieces) == bytes + Delivered(pieces[i..])
  }

  lemma TakenStep(bytes: seq<byte>, pieces: seq<seq<byte>>, i: nat)
    requires i < |pieces| && pieces[i] != [] && Taken(bytes, pieces, i)
    ensures Taken(bytes + pieces[i], pieces, i + 1) && |Delivered(pieces)| >= |bytes| + |pieces[i]|
  {
    assert pieces[i..][0] == pieces[i] && pieces[i..][1..] == pieces[i + 1..];
    RegroupMiddle(bytes, pieces[i], Delivered(pieces[i + 1..]), []);
  }

  lemma TakenAll(bytes: seq<byte>, pieces: seq<seq<byte>>, i: nat)
    requires i <= |pieces| && (i < |pieces| ==> pieces[i] == []) && Taken(bytes, pieces, i)
    ensures bytes == Delivered(pieces)
  {
    assert Delivered(pieces[i..]) == [];
  }

  /** The read loop: takes and hashes pieces until the reader has no more, or gives up once there are too many bytes. */
  method ReadPieces(hasher: StreamingSha256, pieces: seq<seq<byte>>, expectedLen: nat) returns (read: Option<seq<byte>>)
    requires hasher.Valid() && hasher.Message() == []
    modifies hasher, hasher.block
    ensures hasher.Valid()
    ensures read.Some? <==> |Delivered(pieces)| <= expectedLen
    ensures read.Some? ==> read.value == Delivered(pieces) == hasher.Message()
  {
    var bytes: seq<byte> := [];
    var i := 0;
    assert pieces[0..] == pieces && bytes + Delivered(pieces) == Delivered(pieces);
    while i < |pieces| && pieces[i] != []
      invariant i <= |pieces|
      invariant hasher.Valid() && hasher.Message() == bytes && |bytes| <= expectedLen
      invariant Taken(bytes, pieces, i)
    {
      var piece := pieces[i];
      TakenStep(bytes, pieces, i);
      if |bytes| + |piece| > expectedLen {
        return None;
      }
      bytes := bytes + piece;
      hasher.Update(piece);
      i := i + 1;
    }
    TakenAll(bytes, pieces, i);
    return Some(bytes);
  }

  /**
    The snapshot is taken exactly when the reader delivers the expected length; its digest is that of the very bytes
    returned.
  */
  method ReadAndHashSnapshot(compress: Compression, initial: State, pieces: seq<seq<byte>>, expectedLen: nat)
    returns (r: Result<Snapshot, SnapshotError>)
    ensures r.Ok? <==> |Delivered(pieces)| == expectedLen
    ensures r.Ok? ==> r.value.bytes == Delivered(pieces) && r.value.digest == Digest(compress, initial, r.value.bytes)
  {
    var hasher := new StreamingSha256(compress, initial);
    var read := ReadPieces(hasher, pieces, expectedLen);
    if read == None || |read.value| != expectedLen {
      return Err(SnapshotChanged);
    }
    var digest := hasher.Finish();
    return Ok(Snapshot(read.value, digest));
  }
}
