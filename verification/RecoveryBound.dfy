/**
When recovery is right.  A sector whose plaintext holds fewer than a quarter
non-zero bytes gives away its step; a page of such sectors gives away everything.
*/
module RecoveryBound {
  import opened Outcomes
  import opened Bytes
  import opened Tallies
  import opened ApCipher
  import opened BvOracles
  import opened RecoveryTheorems

  function EncodedSector(p: seq<byte>, base: byte, step: byte): (c: seq<byte>)
    ensures |c| == |p|
  {
    seq(|p|, i requires 0 <= i < |p| => EncodeByte(p[i], base, step, i))
  }

  /** `raw` is the page `plain` obfuscated with `bv` and one step per sector; the trailer stays plain. */
  ghost predicate Encodes(raw: seq<byte>, plain: seq<byte>, pn: nat, bv: byte, steps: seq<byte>) {
    && |raw| == |plain| == PAGE && |steps| == SECTORS
    && (forall si :: 0 <= si < SECTORS ==>
      Sector(raw, si) == EncodedSector(Sector(plain, si), Base(bv, pn, si), steps[si]))
    && raw[TRAILER_START..] == plain[TRAILER_START..]
  }

  /** Fewer than a quarter of the bytes are non-zero. */
  predicate Sparse(p: seq<byte>) {
    4 * (|p| - Tally(p, 0)) < |p|
  }

  ghost predicate SparsePage(plain: seq<byte>) {
    |plain| == PAGE && forall si :: 0 <= si < SECTORS ==> Sparse(Sector(plain, si))
  }

  /** The page that encodes `plain`: every body byte shifted by its sector's base and its multiple of the step. */
  function EncodedPage(plain: seq<byte>, pn: nat, bv: byte, steps: seq<byte>): (raw: seq<byte>)
    requires |plain| == PAGE && |steps| == SECTORS
    ensures |raw| == PAGE
  {
    seq(PAGE, k requires 0 <= k < PAGE =>
      if k < TRAILER_START then EncodeByte(plain[k], Base(bv, pn, k / SECTOR), steps[k / SECTOR], k % SECTOR)
      else plain[k])
  }

  /** Every page can be encoded, under every `bv` and all steps. */
  lemma EncodedPageEncodes(plain: seq<byte>, pn: nat, bv: byte, steps: seq<byte>)
    requires |plain| == PAGE && |steps| == SECTORS
    ensures Encodes(EncodedPage(plain, pn, bv, steps), plain, pn, bv, steps)
  {
    var raw := EncodedPage(plain, pn, bv, steps);
    forall si | 0 <= si < SECTORS
      ensures Sector(raw, si) == EncodedSector(Sector(plain, si), Base(bv, pn, si), steps[si])
    {
      forall i | 0 <= i < |Sector(raw, si)|
        ensures Sector(raw, si)[i] == EncodeByte(Sector(plain, si)[i], Base(bv, pn, si), steps[si], i)
      {
        var k := SectorStart(si) + i;
        assert k / SECTOR == si && k % SECTOR == i;
      }
    }
  }

  // ---------------------------------------------------------------------
  // One sector

  lemma DecodeUndoesEncode(p: byte, base: byte, step: byte, i: nat)
    ensures DecodeByte(EncodeByte(p, base, step, i), base, step, i) == p
  {
    var m := Mul(Wrap(i), step);
    assert Sub(Sub(Add(Add(p, base), m), base), m) == p;
  }

  lemma PlainUndoesEncoded(p: seq<byte>, base: byte, step: byte)
    ensures Plain(EncodedSector(p, base, step), base, step) == p
  {
    forall i | 0 <= i < |p|
      ensures Plain(EncodedSector(p, base, step), base, step)[i] == p[i]
    {
      DecodeUndoesEncode(p[i], base, step, i);
    }
  }

  /** Under a wrong step, two neighbouring zero bytes decode to different values. */
  lemma NeighboursDiffer(base: byte, step: byte, wrong: byte, i: nat)
    requires step != wrong
    ensures DecodeByte(EncodeByte(0, base, step, i), base, wrong, i)
         != DecodeByte(EncodeByte(0, base, step, i + 1), base, wrong, i + 1)
  {
    MulNext(i, step);
    MulNext(i, wrong);
    var m, n := Mul(Wrap(i), step), Mul(Wrap(i), wrong);
    assert Sub(Sub(Add(Add(0, base), m), base), n) == Sub(m, n);
    assert Sub(Sub(Add(Add(0, base), Add(m, step)), base), Add(n, wrong)) == Sub(Add(m, step), Add(n, wrong));
    assert Sub(m, n) != Sub(Add(m, step), Add(n, wrong));
  }

  /** If neighbouring zeros of `p` never agree in `x`, then no value fills more than half of `x` and the rest of `p`. */
  lemma {:induction false} HalfAtMost(x: seq<byte>, p: seq<byte>, v: byte)
    requires |x| == |p| && |p| % 2 == 0
    requires forall i :: 0 <= i < |p| - 1 && p[i] == 0 && p[i + 1] == 0 ==> x[i] != x[i + 1]
    ensures Tally(x, v) <= |p| / 2 + (|p| - Tally(p, 0))
  {
    var n := |p|;
    if n > 0 {
      HalfAtMost(x[..n - 2], p[..n - 2], v);
      assert x[..n - 1][..n - 2] == x[..n - 2] && p[..n - 1][..n - 2] == p[..n - 2];
      assert Tally(x, v) == Tally(x[..n - 1], v) + (if x[n - 1] == v then 1 else 0);
      assert Tally(x[..n - 1], v) == Tally(x[..n - 2], v) + (if x[n - 2] == v then 1 else 0);
      assert Tally(p, 0) == Tally(p[..n - 1], 0) + (if p[n - 1] == 0 then 1 else 0);
      assert Tally(p[..n - 1], 0) == Tally(p[..n - 2], 0) + (if p[n - 2] == 0 then 1 else 0);
    }
  }

  /** What a zero byte is read as under another step. */
  lemma ZeroMisread(p: seq<byte>, base: byte, step: byte, wrong: byte, i: nat)
    requires i < |p| && p[i] == 0
    ensures Plain(EncodedSector(p, base, step), base, wrong)[i]
      == DecodeByte(EncodeByte(0, base, step, i), base, wrong, i)
  {
  }

  lemma NeighboursMisread(p: seq<byte>, base: byte, step: byte, wrong: byte, i: nat)
    requires step != wrong && i + 1 < |p| && p[i] == 0 && p[i + 1] == 0
    ensures var x := Plain(EncodedSector(p, base, step), base, wrong); x[i] != x[i + 1]
  {
    ZeroMisread(p, base, step, wrong, i);
    ZeroMisread(p, base, step, wrong, i + 1);
    NeighboursDiffer(base, step, wrong, i);
  }

  /** A wrong step peaks at no more than half the sector plus its non-zero bytes. */
  lemma WrongPeak(p: seq<byte>, base: byte, step: byte, wrong: byte)
    requires step != wrong && |p| % 2 == 0
    ensures Peak(Plain(EncodedSector(p, base, step), base, wrong)) <= |p| / 2 + (|p| - Tally(p, 0))
  {
    var x := Plain(EncodedSector(p, base, step), base, wrong);
    forall i | 0 <= i < |p| - 1 && p[i] == 0 && p[i + 1] == 0
      ensures x[i] != x[i + 1]
    {
      NeighboursMisread(p, base, step, wrong, i);
    }
    PeakAtMost(x, p);
  }

  lemma PeakAtMost(x: seq<byte>, p: seq<byte>)
    requires |x| == |p| && |p| % 2 == 0
    requires forall i :: 0 <= i < |p| - 1 && p[i] == 0 && p[i + 1] == 0 ==> x[i] != x[i + 1]
    ensures Peak(x) <= |p| / 2 + (|p| - Tally(p, 0))
  {
    var v := PeakAttained(x);
    HalfAtMost(x, p, v);
  }

  /** A sparse sector gives away its step, under any base. */
  lemma SparseSectorStep(p: seq<byte>, base: byte, step: byte)
    requires Sparse(p) && |p| % 2 == 0
    ensures StepOf(EncodedSector(p, base, step), 0) == step
  {
    var sec := EncodedSector(p, base, step);
    StepIgnoresBase(sec, base);
    PlainUndoesEncoded(p, base, step);
    PeakBounds(p, 0);
    var peaks := Peaks(sec, base);
    assert peaks[step] >= Tally(p, 0);
    var found := StepOf(sec, base);
    if found != step {
      WrongPeak(p, base, step, found);
    }
  }

  // ---------------------------------------------------------------------
  // One page

  /** Sparse pages are decoded exactly once `bv` is right. */
  lemma {:induction false} BodyToIsPlain(raw: seq<byte>, plain: seq<byte>, pn: nat, bv: byte, steps: seq<byte>, n: nat)
    requires Encodes(raw, plain, pn, bv, steps) && n <= SECTORS
    ensures BodyTo(raw, pn, bv, steps, n) == plain[..BodyEnd(n)]
  {
    if n > 0 {
      BodyToIsPlain(raw, plain, pn, bv, steps, n - 1);
      PlainUndoesEncoded(Sector(plain, n - 1), Base(bv, pn, n - 1), steps[n - 1]);
      assert plain[..BodyEnd(n)] == plain[..BodyEnd(n - 1)] + Sector(plain, n - 1);
    }
  }

  lemma SparseSteps(raw: seq<byte>, plain: seq<byte>, pn: nat, bv: byte, steps: seq<byte>, si: nat)
    requires Encodes(raw, plain, pn, bv, steps) && SparsePage(plain) && si < SECTORS
    ensures StepOf(Sector(raw, si), 0) == steps[si]
  {
    SparseSectorStep(Sector(plain, si), Base(bv, pn, si), steps[si]);
  }

  lemma SparsePageSteps(raw: seq<byte>, plain: seq<byte>, pn: nat, bv: byte, steps: seq<byte>)
    requires Encodes(raw, plain, pn, bv, steps) && SparsePage(plain)
    ensures Steps(raw) == steps
  {
    forall si | 0 <= si < SECTORS
      ensures StepOf(Sector(raw, si), 0) == steps[si]
    {
      SparseSteps(raw, plain, pn, bv, steps, si);
    }
  }

  lemma SparsePageDecodes(raw: seq<byte>, plain: seq<byte>, pn: nat, bv: byte, steps: seq<byte>)
    requires Encodes(raw, plain, pn, bv, steps) && SparsePage(plain)
    ensures Body(raw, pn, bv) == plain[..TRAILER_START]
    ensures Deobfuscated(raw, pn, bv) == plain
  {
    SparsePageSteps(raw, plain, pn, bv, steps);
    BodyToIsPlain(raw, plain, pn, bv, steps, SECTORS);
    assert plain == plain[..TRAILER_START] + plain[TRAILER_START..];
  }

  lemma {:induction false} SparseZeros(plain: seq<byte>, n: nat)
    requires SparsePage(plain) && n <= SECTORS
    ensures 4 * Tally(plain[..BodyEnd(n)], 0) >= 3 * BodyEnd(n)
    ensures n > 0 ==> 4 * Tally(plain[..BodyEnd(n)], 0) > 3 * BodyEnd(n)
  {
    if n > 0 {
      SparseZeros(plain, n - 1);
      var s, t := plain[..BodyEnd(n - 1)], Sector(plain, n - 1);
      TallyConcat(s, t, 0);
      assert plain[..BodyEnd(n)] == s + t;
      assert Sparse(t);
    }
  }

  lemma {:induction false} TallyTwo(s: seq<byte>, v: byte, w: byte)
    requires v != w
    ensures Tally(s, v) + Tally(s, w) <= |s|
  {
    if s != [] {
      TallyTwo(s[..|s| - 1], v, w);
    }
  }

  /**
    On a sparse page a candidate decodes as many zeros as the plaintext holds copies of its offset from the true `bv`.
  */
  lemma SparsePageZeros(raw: seq<byte>, plain: seq<byte>, pn: nat, bv: byte, steps: seq<byte>, other: byte)
    requires Encodes(raw, plain, pn, bv, steps) && SparsePage(plain)
    ensures Zeros(raw, pn, other) == Tally(plain[..TRAILER_START], Sub(other, bv))
    ensures Zeros(raw, pn, bv) > 3060
    ensures other != bv ==> Zeros(raw, pn, other) < 1020
  {
    var body := plain[..TRAILER_START];
    SparsePageDecodes(raw, plain, pn, bv, steps);
    BodyMoves(raw, pn, bv, other);
    TallyLowered(body, Sub(other, bv), 0);
    SparseZeros(plain, SECTORS);
    if other != bv {
      TallyTwo(body, 0, Sub(other, bv));
    }
  }

  /** The exhaustive search and the decoder together undo the obfuscation of every sparse page. */
  lemma SparsePageRecovered(raw: seq<byte>, plain: seq<byte>, pn: nat, bv: byte, steps: seq<byte>)
    requires Encodes(raw, plain, pn, bv, steps) && SparsePage(plain)
    ensures BruteBv(pn, raw) == Some(bv)
    ensures Deobfuscated(raw, pn, bv) == plain
  {
    SparsePageDecodes(raw, plain, pn, bv, steps);
    forall other: byte
      ensures other != bv ==> Zeros(raw, pn, other) < Zeros(raw, pn, bv)
    {
      SparsePageZeros(raw, plain, pn, bv, steps, other);
    }
    SparsePageZeros(raw, plain, pn, bv, steps, bv);
    BruteIsLeastBest(pn, raw);
  }

  /** So obfuscating a sparse page and recovering it gives the page back, for every page number, `bv` and steps. */
  lemma SparseRoundTrip(plain: seq<byte>, pn: nat, bv: byte, steps: seq<byte>)
    requires SparsePage(plain) && |steps| == SECTORS
    ensures var raw := EncodedPage(plain, pn, bv, steps);
      BruteBv(pn, raw) == Some(bv) && Deobfuscated(raw, pn, bv) == plain
  {
    EncodedPageEncodes(plain, pn, bv, steps);
    SparsePageRecovered(EncodedPage(plain, pn, bv, steps), plain, pn, bv, steps);
  }

  // ---------------------------------------------------------------------
  // The cascade on sparse pages

  /** The plaintext, misread by `shift`, shows the anchor of its own trailer. */
  ghost predicate ShiftShows(plain: seq<byte>, shift: byte)
    requires |plain| == PAGE
  {
    Contains(Lowered(plain[..TRAILER_START], shift), Anchor(plain))
  }

  lemma SparsePageShows(raw: seq<byte>, plain: seq<byte>, pn: nat, bv: byte, steps: seq<byte>, other: byte)
    requires Encodes(raw, plain, pn, bv, steps) && SparsePage(plain)
    ensures Anchor(raw) == Anchor(plain)
    ensures Shows(raw, pn, other, Anchor(raw)) <==> ShiftShows(plain, Sub(other, bv))
  {
    SparsePageDecodes(raw, plain, pn, bv, steps);
    BodyMoves(raw, pn, bv, other);
    assert raw[TRAILER_START] == raw[TRAILER_START..][0] == plain[TRAILER_START..][0];
  }

  lemma SparsePageOracle(raw: seq<byte>, plain: seq<byte>, pn: nat, bv: byte, steps: seq<byte>)
    requires Encodes(raw, plain, pn, bv, steps) && SparsePage(plain)
    ensures OracleBv(pn, raw) == Add(bv, plain[0])
  {
    SparsePageDecodes(raw, plain, pn, bv, steps);
    var oracle := OracleBv(pn, raw);
    BodyMoves(raw, pn, bv, oracle);
    OracleIsTautology(pn, raw, oracle);
    assert Body(raw, pn, oracle)[0] == Sub(plain[0], Sub(oracle, bv)) == 0;
  }

  /**
  The cascade can return a wrong `bv` for a page the exhaustive search would
  recover: it trusts the oracle's guess as soon as five percent of the body
  equals the first byte.  Without any anchor it is right exactly when the first
  byte is zero or rare.
  */
  lemma AnyOnSparsePage(raw: seq<byte>, plain: seq<byte>, pn: nat, bv: byte, steps: seq<byte>)
    requires Encodes(raw, plain, pn, bv, steps) && SparsePage(plain)
    requires forall shift: byte :: !ShiftShows(plain, shift)
    ensures AnyBv(pn, raw) == Some(bv) <==>
      plain[0] == 0 || Tally(plain[..TRAILER_START], plain[0]) < ZERO_THRESHOLD
  {
    forall other: byte
      ensures !Shows(raw, pn, other, Anchor(raw))
    {
      SparsePageShows(raw, plain, pn, bv, steps, other);
    }
    QbDataSoundAndComplete(pn, raw);
    var oracle := OracleBv(pn, raw);
    SparsePageOracle(raw, plain, pn, bv, steps);
    SparsePageZeros(raw, plain, pn, bv, steps, oracle);
    ThresholdsAgree(Zeros(raw, pn, oracle));
    SparsePageRecovered(raw, plain, pn, bv, steps);
    assert Sub(oracle, bv) == plain[0];
  }

  /**
    With an anchor somewhere, the cascade is right exactly when the true `bv` shows it and comes first in the search
    order.
  */
  lemma AnyOnAnchoredSparsePage(raw: seq<byte>, plain: seq<byte>, pn: nat, bv: byte, steps: seq<byte>)
    requires Encodes(raw, plain, pn, bv, steps) && SparsePage(plain)
    requires exists shift: byte :: ShiftShows(plain, shift)
    ensures AnyBv(pn, raw) == Some(bv) <==>
      && ShiftShows(plain, 0)
      && (plain[0] == 0 ||
          (!ShiftShows(plain, plain[0]) && forall other: byte :: other < bv ==> !ShiftShows(plain, Sub(other, bv))))
  {
    forall other: byte
      ensures Shows(raw, pn, other, Anchor(raw)) <==> ShiftShows(plain, Sub(other, bv))
    {
      SparsePageShows(raw, plain, pn, bv, steps, other);
    }
    var shift: byte :| ShiftShows(plain, shift);
    assert Sub(Add(shift, bv), bv) == shift;
    assert Shows(raw, pn, Add(shift, bv), Anchor(raw));
    QbDataSoundAndComplete(pn, raw);
    SparsePageOracle(raw, plain, pn, bv, steps);
    assert Sub(OracleBv(pn, raw), bv) == plain[0];
    assert Sub(bv, bv) == 0;
  }
}
