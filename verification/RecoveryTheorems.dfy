/** What the page oracles guarantee about every page, whatever it holds. */
module RecoveryTheorems {
  import opened Outcomes
  import opened Bytes
  import opened Tallies
  import opened ApCipher
  import opened BvOracles

  lemma LoweredConcat(s: seq<byte>, t: seq<byte>, b: byte)
    ensures Lowered(s + t, b) == Lowered(s, b) + Lowered(t, b)
  {
  }

  lemma LoweredTwice(s: seq<byte>, a: byte, b: byte)
    ensures Lowered(Lowered(s, a), Sub(b, a)) == Lowered(s, b)
  {
  }

  lemma SectorFromZero(raw: seq<byte>, pn: nat, bv: byte, step: byte, si: nat)
    requires |raw| == PAGE && si < SECTORS
    ensures DecodedSector(raw, pn, bv, step, si) == Lowered(DecodedSector(raw, pn, 0, step, si), bv)
  {
    PlainLowered(Sector(raw, si), Base(0, pn, si), bv, step);
    BaseMoves(bv, pn, si);
  }

  lemma {:induction false} BodyToFromZero(raw: seq<byte>, pn: nat, bv: byte, steps: seq<byte>, n: nat)
    requires |raw| == PAGE && |steps| == SECTORS && n <= SECTORS
    ensures BodyTo(raw, pn, bv, steps, n) == Lowered(BodyTo(raw, pn, 0, steps, n), bv)
  {
    if n > 0 {
      BodyToFromZero(raw, pn, bv, steps, n - 1);
      SectorFromZero(raw, pn, bv, steps[n - 1], n - 1);
      LoweredConcat(BodyTo(raw, pn, 0, steps, n - 1), DecodedSector(raw, pn, 0, steps[n - 1], n - 1), bv);
    }
  }

  /** A wrong `bv` decodes the page to the same bytes, all off by the same amount. */
  lemma BodyMoves(raw: seq<byte>, pn: nat, bv: byte, other: byte)
    requires |raw| == PAGE
    ensures Body(raw, pn, other) == Lowered(Body(raw, pn, bv), Sub(other, bv))
  {
    var steps := Steps(raw);
    var zero := BodyTo(raw, pn, 0, steps, SECTORS);
    BodyToFromZero(raw, pn, bv, steps, SECTORS);
    BodyToFromZero(raw, pn, other, steps, SECTORS);
    LoweredTwice(zero, bv, other);
  }

  /** The zero count of every candidate is one bar of a single histogram. */
  lemma ZerosAreHistogram(raw: seq<byte>, pn: nat, bv: byte)
    requires |raw| == PAGE
    ensures Zeros(raw, pn, bv) == Tally(Body(raw, pn, 0), bv)
  {
    BodyMoves(raw, pn, 0, bv);
    TallyLowered(Body(raw, pn, 0), bv, 0);
  }

  /** The totals of the 256 candidates share out the 4080 body bytes. */
  lemma CandidatesShareTheBody(raw: seq<byte>, pn: nat)
    requires |raw| == PAGE
    ensures Sum(ZeroCounts(raw, pn)) == TRAILER_START
  {
    var body, counts := Body(raw, pn, 0), ZeroCounts(raw, pn);
    forall bv: byte
      ensures counts[bv] == Tally(body, Add(bv, 0))
    {
      ZerosAreHistogram(raw, pn, bv);
    }
    HistogramTotal(body, 0, counts);
  }

  /** So only few candidates can pass the threshold. */
  lemma FewCandidatesPass(raw: seq<byte>, pn: nat)
    requires |raw| == PAGE
    ensures |Reaching(ZeroCounts(raw, pn), ZERO_THRESHOLD)| <= 20
  {
    CandidatesShareTheBody(raw, pn);
    FewReachThreshold(ZeroCounts(raw, pn));
  }

  lemma FewReachThreshold(counts: seq<nat>)
    requires Sum(counts) == TRAILER_START
    ensures |Reaching(counts, ZERO_THRESHOLD)| <= 20
  {
    assert ZERO_THRESHOLD == 204;
    FewReach(counts, 204);
  }

  /**
    The exhaustive search gives up exactly when every candidate is below the threshold, else it returns the least best
    one.
  */
  lemma BruteIsLeastBest(pn: nat, raw: seq<byte>)
    requires |raw| == PAGE
    ensures BruteBv(pn, raw).None? <==> forall bv: byte :: Zeros(raw, pn, bv) < ZERO_THRESHOLD
    ensures forall bv: byte :: BruteBv(pn, raw) == Some(bv) <==>
      && Zeros(raw, pn, bv) >= ZERO_THRESHOLD
      && (forall other: byte :: Zeros(raw, pn, other) <= Zeros(raw, pn, bv))
      && (forall other: byte :: other < bv ==> Zeros(raw, pn, other) < Zeros(raw, pn, bv))
  {
    var counts := ZeroCounts(raw, pn);
    var best := FirstMax(counts);
    assert forall bv: byte :: counts[bv] <= counts[best];
    assert forall bv: byte :: bv < best ==> counts[bv] < counts[best];
    forall bv: byte | Zeros(raw, pn, bv) >= ZERO_THRESHOLD
      && (forall other: byte :: Zeros(raw, pn, other) <= Zeros(raw, pn, bv))
      && (forall other: byte :: other < bv ==> Zeros(raw, pn, other) < Zeros(raw, pn, bv))
      ensures bv == best
    {
      assert Zeros(raw, pn, best) <= Zeros(raw, pn, bv);
      assert counts[bv] <= counts[best];
    }
  }

  /** The anchor search is sound and complete against the real decoder. */
  lemma QbDataSoundAndComplete(pn: nat, raw: seq<byte>)
    requires |raw| == PAGE
    ensures QbDataBv(pn, raw).None? <==> forall bv: byte :: !Shows(raw, pn, bv, Anchor(raw))
    ensures QbDataBv(pn, raw).Some? ==> Shows(raw, pn, QbDataBv(pn, raw).value, Anchor(raw))
    ensures QbDataBv(pn, raw).Some? && QbDataBv(pn, raw).value != OracleBv(pn, raw) ==>
      && !Shows(raw, pn, OracleBv(pn, raw), Anchor(raw))
      && forall bv: byte :: bv < QbDataBv(pn, raw).value ==> !Shows(raw, pn, bv, Anchor(raw))
  {
    var hits := Hits(raw, pn, Anchor(raw));
    assert forall bv: byte :: hits[bv] <==> Shows(raw, pn, bv, Anchor(raw));
  }

  /** So is the magic search of allocation pages. */
  lemma ApageSoundAndComplete(pn: nat, raw: seq<byte>)
    requires |raw| == PAGE
    ensures var magic: seq<byte> := [0x24, 0x04, 0x31, 0x00, 0xB4, 0x02, 0x19, 0x00];
      && (ApageBv(pn, raw).None? <==> forall bv: byte :: !Shows(raw, pn, bv, magic))
      && (ApageBv(pn, raw).Some? ==>
            && Shows(raw, pn, ApageBv(pn, raw).value, magic)
            && forall bv: byte :: bv < ApageBv(pn, raw).value ==> !Shows(raw, pn, bv, magic))
  {
    var hits := Hits(raw, pn, APAGE_MAGIC);
    assert forall bv: byte :: hits[bv] <==> Shows(raw, pn, bv, APAGE_MAGIC);
  }

  /** The cascade and the exhaustive search spell five percent differently and mean the same count. */
  lemma ThresholdsAgree(zeros: nat)
    ensures zeros * 100 / TRAILER_START >= 5 <==> zeros >= ZERO_THRESHOLD
    ensures ZERO_THRESHOLD == 204
  {
  }

  /** The cascade gives up exactly when no `bv` shows the anchor and none shows five percent zeros. */
  lemma AnyGivesUpExactly(pn: nat, raw: seq<byte>)
    requires |raw| == PAGE
    ensures AnyBv(pn, raw).None? <==>
      && (forall bv: byte :: !Shows(raw, pn, bv, Anchor(raw)))
      && (forall bv: byte :: Zeros(raw, pn, bv) < ZERO_THRESHOLD)
  {
    QbDataSoundAndComplete(pn, raw);
    BruteIsLeastBest(pn, raw);
    ThresholdsAgree(Zeros(raw, pn, OracleBv(pn, raw)));
  }

  lemma {:induction false} BodyToFirst(raw: seq<byte>, pn: nat, bv: byte, steps: seq<byte>, n: nat)
    requires |raw| == PAGE && |steps| == SECTORS && 0 < n <= SECTORS
    ensures BodyTo(raw, pn, bv, steps, n)[0] == Sub(raw[0], Base(bv, pn, 0))
  {
    if n == 1 {
      assert BodyTo(raw, pn, bv, steps, 1) == [] + DecodedSector(raw, pn, bv, steps[0], 0);
    } else {
      BodyToFirst(raw, pn, bv, steps, n - 1);
    }
  }

  /** The oracle turns the first body byte into zero on every page, right or wrong; it is the only `bv` that does. */
  lemma OracleIsTautology(pn: nat, raw: seq<byte>, bv: byte)
    requires |raw| == PAGE
    ensures Body(raw, pn, bv)[0] == 0 <==> bv == OracleBv(pn, raw)
  {
    BodyToFirst(raw, pn, bv, Steps(raw), SECTORS);
    BaseMoves(bv, pn, 0);
    var p, c := Wrap(pn), Bias(pn);
    assert Base(0, pn, 0) == Sub(p, c);
    assert Add(bv, Sub(p, c)) == raw[0] <==> bv == Add(Sub(raw[0], p), c);
  }
}
