/** Concrete plaintexts on which recovery goes wrong. */
module RecoveryLimits {
  import opened Sequences
  import opened Outcomes
  import opened Bytes
  import opened Tallies
  import opened ApCipher
  import opened BvOracles
  import opened RecoveryBound

  // ---------------------------------------------------------------------
  // A quarter of non-zero bytes is already too many for the step guess.

  /** Four bytes repeated `m` times, with 128 in one place and zero in the others. */
  function Quartered(m: nat, place: nat): (p: seq<byte>)
    requires place < 4
    ensures |p| == 4 * m
  {
    seq(4 * m, i => if i % 4 == place then 128 else 0)
  }

  lemma TallyPush(s: seq<byte>, x: byte, v: byte)
    ensures Tally(s + [x], v) == Tally(s, v) + (if x == v then 1 else 0)
  {
    assert (s + [x])[..|s|] == s;
  }

  lemma TallyFour(a: byte, b: byte, c: byte, d: byte, v: byte)
    ensures Tally([a, b, c, d], v)
         == (if a == v then 1 else 0) + (if b == v then 1 else 0)
          + (if c == v then 1 else 0) + (if d == v then 1 else 0)
  {
    assert [a, b, c, d] == [a, b, c] + [d] && [a, b, c] == [a, b] + [c] && [a, b] == [a] + [b] && [a] == [] + [a];
    TallyPush([a, b, c], d, v);
    TallyPush([a, b], c, v);
    TallyPush([a], b, v);
    TallyPush([], a, v);
  }

  function Quad(place: nat): (p: seq<byte>)
    requires place < 4
    ensures |p| == 4
  {
    [
      if place == 0 then 128 else 0,
      if place == 1 then 128 else 0,
      if place == 2 then 128 else 0,
      if place == 3 then 128 else 0
    ]
  }

  lemma QuarteredGrows(m: nat, place: nat)
    requires m > 0 && place < 4
    ensures Quartered(m, place) == Quartered(m - 1, place) + Quad(place)
  {
    var n := 4 * (m - 1);
    forall i | 0 <= i < 4
      ensures Quartered(m, place)[n + i] == Quad(place)[i]
    {
      assert (n + i) % 4 == i;
    }
    assert Quartered(m, place)[..n] == Quartered(m - 1, place);
    assert Quartered(m, place)[n..] == Quad(place);
  }

  lemma {:induction false} TallyQuartered(m: nat, place: nat, v: byte)
    requires place < 4
    ensures Tally(Quartered(m, place), v) == if v == 0 then 3 * m else if v == 128 then m else 0
  {
    if m > 0 {
      var q := Quad(place);
      TallyQuartered(m - 1, place, v);
      QuarteredGrows(m, place);
      TallyFour(q[0], q[1], q[2], q[3], v);
      TallyConcat(Quartered(m - 1, place), q, v);
    }
  }

  lemma MulBy128(i: nat)
    ensures Mul(Wrap(i), 128) == if i % 2 == 1 then 128 else 0
  {
    MulTruncated(i, 128);
    var h := i / 2;
    assert i * 128 == 256 * h + (i % 2) * 128;
    WrapMultiple((i % 2) * 128, h);
  }

  lemma TrueStepPeak(m: nat)
    ensures Peak(Plain(EncodedSector(Quartered(m, 1), 0, 128), 0, 128)) <= 3 * m
  {
    PlainUndoesEncoded(Quartered(m, 1), 0, 128);
    var v := PeakAttained(Quartered(m, 1));
    TallyQuartered(m, 1, v);
  }

  lemma StepZeroByte(i: nat)
    ensures DecodeByte(EncodeByte(if i % 4 == 1 then 128 else 0, 0, 128, i), 0, 0, i) == if i % 4 == 3 then 128 else 0
  {
    MulBy128(i);
    SameParity(i / 4 * 2, i % 4, i);
    ZeroStepLeaves(if i % 4 == 1 then 128 else 0, i);
  }

  lemma SameParity(half: nat, rest: nat, i: nat)
    requires i == half + half + rest
    ensures i % 2 == rest % 2
  {
  }

  /** Decoding with step 0 leaves the multiple of the true step in the byte. */
  lemma ZeroStepLeaves(p: byte, i: nat)
    ensures DecodeByte(EncodeByte(p, 0, 128, i), 0, 0, i) == Add(p, Mul(Wrap(i), 128))
  {
    assert Mul(Wrap(i), 0) == 0;
  }

  lemma ZeroStepPeak(m: nat)
    ensures Peak(Plain(EncodedSector(Quartered(m, 1), 0, 128), 0, 0)) >= 3 * m
  {
    var sec := EncodedSector(Quartered(m, 1), 0, 128);
    forall i | 0 <= i < 4 * m
      ensures Plain(sec, 0, 0)[i] == Quartered(m, 3)[i]
    {
      StepZeroByte(i);
    }
    assert Plain(sec, 0, 0) == Quartered(m, 3);
    TallyQuartered(m, 3, 0);
    PeakBounds(Quartered(m, 3), 0);
  }

  lemma TieLosesToZero(sec: seq<byte>)
    requires Peak(Plain(sec, 0, 0)) >= Peak(Plain(sec, 0, 128))
    ensures StepOf(sec, 0) != 128
  {
    var peaks := Peaks(sec, 0);
    assert peaks[0] >= peaks[128];
  }

  /** With exactly a quarter of the bytes non-zero the true step 128 ties with step 0, and the first wins. */
  lemma QuarterIsTooMany(m: nat)
    requires m > 0
    ensures 4 * (|Quartered(m, 1)| - Tally(Quartered(m, 1), 0)) == |Quartered(m, 1)|
    ensures StepOf(EncodedSector(Quartered(m, 1), 0, 128), 0) != 128
  {
    TallyQuartered(m, 1, 0);
    TrueStepPeak(m);
    ZeroStepPeak(m);
    TieLosesToZero(EncodedSector(Quartered(m, 1), 0, 128));
  }

  // ---------------------------------------------------------------------
  // A page whose first byte is common misleads the cascade.

  /** A page body with 51 sevens at the start of every sector and zeros elsewhere. */
  function Sevens(): (plain: seq<byte>)
    ensures |plain| == PAGE
  {
    seq(PAGE, k => if k < TRAILER_START && k % SECTOR < 51 then 7 else 0)
  }

  lemma {:induction false} TallyConstant(s: seq<byte>, x: byte, v: byte)
    requires forall i :: 0 <= i < |s| ==> s[i] == x
    ensures Tally(s, v) == if v == x then |s| else 0
  {
    if s != [] {
      TallyConstant(s[..|s| - 1], x, v);
    }
  }

  lemma SevensSector(si: nat, v: byte)
    requires si < SECTORS
    ensures Tally(Sector(Sevens(), si), v) == if v == 7 then 51 else if v == 0 then |Sector(Sevens(), si)| - 51 else 0
  {
    var sec := Sector(Sevens(), si);
    forall i | 0 <= i < |sec|
      ensures sec[i] == if i < 51 then 7 else 0
    {
      assert (si * SECTOR + i) % SECTOR == i;
    }
    TallyConstant(sec[..51], 7, v);
    TallyConstant(sec[51..], 0, v);
    TallyConcat(sec[..51], sec[51..], v);
    assert sec == sec[..51] + sec[51..];
  }

  lemma SevensSparse()
    ensures SparsePage(Sevens())
  {
    forall si | 0 <= si < SECTORS
      ensures Sparse(Sector(Sevens(), si))
    {
      SevensSector(si, 0);
    }
  }

  lemma {:induction false} SevensCount(n: nat)
    requires n <= SECTORS
    ensures Tally(Sevens()[..BodyEnd(n)], 7) == 51 * n
  {
    if n > 0 {
      var s, t := Sevens()[..BodyEnd(n - 1)], Sector(Sevens(), n - 1);
      SevensCount(n - 1);
      SevensSector(n - 1, 7);
      TallyConcat(s, t, 7);
      assert Sevens()[..BodyEnd(n)] == s + t;
    }
  }

  /** Two byte values are too few for the anchor's `00 D5 0B`. */
  lemma SevensNoAnchor(shift: byte)
    ensures !ShiftShows(Sevens(), shift)
  {
    var body := Lowered(Sevens()[..TRAILER_START], shift);
    forall at: nat | at + 4 <= |body|
      ensures !OccursAt(body, Anchor(Sevens()), at)
    {
      var here := body[at..at + 4];
      assert here[1] == body[at + 1] && here[2] == body[at + 2] && here[3] == body[at + 3];
      assert forall k :: at <= k < at + 4 ==> body[k] == Sub(0, shift) || body[k] == Sub(7, shift);
    }
  }

  /** However it is obfuscated, the cascade misreads this page, which the exhaustive search recovers. */
  lemma CascadeMisreadsSevens(raw: seq<byte>, pn: nat, bv: byte, steps: seq<byte>)
    requires Encodes(raw, Sevens(), pn, bv, steps)
    ensures AnyBv(pn, raw) != Some(bv)
    ensures BruteBv(pn, raw) == Some(bv)
  {
    SevensSparse();
    forall shift: byte
      ensures !ShiftShows(Sevens(), shift)
    {
      SevensNoAnchor(shift);
    }
    SevensCount(SECTORS);
    assert Sevens()[0] == 7;
    AnyOnSparsePage(raw, Sevens(), pn, bv, steps);
    SparsePageRecovered(raw, Sevens(), pn, bv, steps);
  }

  /** Such pages exist, one for every page number, `bv` and steps. */
  lemma SevensAreMisread(pn: nat, bv: byte, steps: seq<byte>)
    requires |steps| == SECTORS
    ensures var raw := EncodedPage(Sevens(), pn, bv, steps);
      AnyBv(pn, raw) != Some(bv) && BruteBv(pn, raw) == Some(bv) && Deobfuscated(raw, pn, bv) == Sevens()
  {
    var raw := EncodedPage(Sevens(), pn, bv, steps);
    EncodedPageEncodes(Sevens(), pn, bv, steps);
    CascadeMisreadsSevens(raw, pn, bv, steps);
    SevensSparse();
    SparseRoundTrip(Sevens(), pn, bv, steps);
  }
}
