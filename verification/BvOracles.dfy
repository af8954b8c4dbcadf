/**
The oracles that guess the page byte `bv`: an exhaustive zero count, two anchor
searches, and the cascade of all three.
*/
module BvOracles {
  import opened Sequences
  import opened Outcomes
  import opened Bytes
  import opened Tallies
  import opened ApCipher

  /** The zero bytes that five percent of a page body amounts to. */
  const ZERO_THRESHOLD := TRAILER_START * 5 / 100

  /** How many body bytes the decoder turns into zero under `bv`. */
  function Zeros(raw: seq<byte>, pn: nat, bv: byte): (n: nat)
    requires |raw| == PAGE
  {
    Tally(Body(raw, pn, bv), 0)
  }

  function ZeroCounts(raw: seq<byte>, pn: nat): (r: seq<nat>)
    requires |raw| == PAGE
    ensures |r| == 256
    ensures forall bv: byte :: r[bv] == Zeros(raw, pn, bv)
  {
    seq(256, bv requires 0 <= bv < 256 => Zeros(raw, pn, bv))
  }

  // ---------------------------------------------------------------------
  // Exhaustive search

  /** The exhaustive search: the first `bv` with the most zeros, if these are enough. */
  function BruteBv(pn: nat, raw: seq<byte>): Option<byte> {
    if |raw| != PAGE then None
    else
      var counts := ZeroCounts(raw, pn);
      var best := FirstMax(counts);
      if counts[best] >= ZERO_THRESHOLD then Some(best) else None
  }

  /** What one sector adds to the total of a candidate, read off its histogram. */
  function SectorHits(raw: seq<byte>, pn: nat, bv: byte, step: byte, si: nat): nat
    requires |raw| == PAGE && si < SECTORS
  {
    Tally(Plain(Sector(raw, si), 0, step), Base(bv, pn, si))
  }

  lemma SectorHitsAreZeros(raw: seq<byte>, pn: nat, bv: byte, step: byte, si: nat)
    requires |raw| == PAGE && si < SECTORS
    ensures SectorHits(raw, pn, bv, step, si) == Tally(DecodedSector(raw, pn, bv, step, si), 0)
  {
    var sec, base := Sector(raw, si), Base(bv, pn, si);
    PlainFromZeroBase(sec, base, step);
    TallyLowered(Plain(sec, 0, step), base, 0);
  }

  /** The histograms of all sectors, at the steps given. */
  ghost predicate AreHistograms(hists: seq<seq<nat>>, raw: seq<byte>, steps: seq<byte>)
    requires |raw| == PAGE && |steps| == SECTORS
  {
    && |hists| <= SECTORS
    && forall si :: 0 <= si < |hists| ==> hists[si] == Histogram(Plain(Sector(raw, si), 0, steps[si]))
  }

  method SectorHistograms(raw: seq<byte>, ghost steps: seq<byte>) returns (hists: seq<seq<nat>>)
    requires |raw| == PAGE && |steps| == SECTORS
    requires forall si :: 0 <= si < SECTORS ==> steps[si] == StepOf(Sector(raw, si), 0)
    ensures |hists| == SECTORS && AreHistograms(hists, raw, steps)
  {
    hists := [];
    for si := 0 to SECTORS
      invariant |hists| == si && AreHistograms(hists, raw, steps)
    {
      var hist := SectorHistogram(raw, si, steps[si]);
      hists := hists + [hist];
    }
  }

  method SectorHistogram(raw: seq<byte>, si: nat, ghost step: byte) returns (hist: seq<nat>)
    requires |raw| == PAGE && si < SECTORS
    requires step == StepOf(Sector(raw, si), 0)
    ensures hist == Histogram(Plain(Sector(raw, si), 0, step))
  {
    var sec := raw[SectorStart(si)..SectorEnd(si)];
    var recovered := RecoverStep(sec, 0);
    hist := CountPlain(sec, 0, recovered);
  }

  lemma HitsInHistogram(hists: seq<seq<nat>>, raw: seq<byte>, pn: nat, bv: byte, steps: seq<byte>, si: nat)
    requires |raw| == PAGE && |steps| == SECTORS && si < SECTORS
    requires |hists| == SECTORS && AreHistograms(hists, raw, steps)
    ensures |hists[si]| == 256 && hists[si][Base(bv, pn, si)] == SectorHits(raw, pn, bv, steps[si], si)
  {
  }

  lemma OneMoreSector(hists: seq<seq<nat>>, raw: seq<byte>, pn: nat, bv: byte, steps: seq<byte>, si: nat)
    requires |raw| == PAGE && |steps| == SECTORS && si < SECTORS
    requires |hists| == SECTORS && AreHistograms(hists, raw, steps)
    ensures |hists[si]| == 256
    ensures Tally(BodyTo(raw, pn, bv, steps, si + 1), 0)
      == Tally(BodyTo(raw, pn, bv, steps, si), 0) + hists[si][Base(bv, pn, si)]
  {
    HitsInHistogram(hists, raw, pn, bv, steps, si);
    SectorHitsAreZeros(raw, pn, bv, steps[si], si);
    TallyConcat(BodyTo(raw, pn, bv, steps, si), DecodedSector(raw, pn, bv, steps[si], si), 0);
  }

  method CandidateTotal(hists: seq<seq<nat>>, pn: nat, bv: byte, ghost raw: seq<byte>, ghost steps: seq<byte>)
    returns (total: nat)
    requires |raw| == PAGE && |steps| == SECTORS
    requires |hists| == SECTORS && AreHistograms(hists, raw, steps)
    ensures total == Tally(BodyTo(raw, pn, bv, steps, SECTORS), 0)
  {
    total := 0;
    var si := 0;
    while si < SECTORS
      invariant 0 <= si <= SECTORS
      invariant total == Tally(BodyTo(raw, pn, bv, steps, si), 0)
    {
      var target := Sub(Add(Add(bv, Wrap(pn)), Wrap(si)), Bias(pn));
      OneMoreSector(hists, raw, pn, bv, steps, si);
      total := total + hists[si][target];
      si := si + 1;
    }
  }

  method BestCandidate(hists: seq<seq<nat>>, pn: nat, ghost raw: seq<byte>, ghost steps: seq<byte>,
      ghost counts: seq<nat>)
    returns (bestBv: byte, bestCount: nat)
    requires |raw| == PAGE && |steps| == SECTORS
    requires |hists| == SECTORS && AreHistograms(hists, raw, steps)
    requires |counts| == 256
    requires forall bv: byte :: counts[bv] == Tally(BodyTo(raw, pn, bv, steps, SECTORS), 0)
    ensures bestBv == FirstMax(counts) && bestCount == counts[bestBv]
  {
    bestBv := 0;
    bestCount := 0;
    for bv := 0 to 256
      invariant bv == 0 ==> bestBv == 0 && bestCount == 0
      invariant bv > 0 ==> IsFirstMax(counts[..bv], bestBv) && bestCount == counts[bestBv]
    {
      var total := CandidateTotal(hists, pn, bv, raw, steps);
      assert total == counts[bv];
      if bv > 0 {
        FirstMaxExtended(counts, bv, bestBv);
      }
      if total > bestCount {
        bestCount := total;
        bestBv := bv;
      }
    }
    assert counts[..256] == counts;
    FirstMaxUnique(counts, bestBv);
  }

  method RecoverBvBrute(pn: nat, raw: seq<byte>) returns (r: Option<byte>)
    ensures r == BruteBv(pn, raw)
  {
    if |raw| != PAGE {
      return None;
    }
    ghost var steps := Steps(raw);
    var hists := SectorHistograms(raw, steps);
    var bestBv, bestCount := BestCandidate(hists, pn, raw, steps, ZeroCounts(raw, pn));
    if bestCount >= TRAILER_START * 5 / 100 {
      r := Some(bestBv);
    } else {
      r := None;
    }
  }

  // ---------------------------------------------------------------------
  // Anchor searches

  /** `needle` occurs in `hay`; an empty needle never does. */
  ghost predicate Contains(hay: seq<byte>, needle: seq<byte>) {
    needle != [] && exists at :: 0 <= at <= |hay| - |needle| && OccursAt(hay, needle, at)
  }

  method ContainsSubseq(hay: seq<byte>, needle: seq<byte>) returns (found: bool)
    ensures found == Contains(hay, needle)
  {
    if needle == [] || |hay| < |needle| {
      return false;
    }
    var limit := |hay| - |needle|;
    var n0 := needle[0];
    var i := 0;
    while i <= limit
      invariant 0 <= i <= limit + 1
      invariant forall at :: 0 <= at < i ==> !OccursAt(hay, needle, at)
    {
      if hay[i] == n0 && hay[i..i + |needle|] == needle {
        assert OccursAt(hay, needle, i);
        return true;
      }
      assert OccursAt(hay, needle, i) ==> hay[i..i + |needle|][0] == n0;
      i := i + 1;
    }
    return false;
  }

  /** The page trailer's record byte followed by `00 D5 0B`. */
  function Anchor(raw: seq<byte>): (needle: seq<byte>)
    requires |raw| == PAGE
    ensures |needle| == 4
  {
    [raw[TRAILER_START], 0, 0xD5, 0x0B]
  }

  const APAGE_MAGIC: seq<byte> := [0x24, 0x04, 0x31, 0x00, 0xB4, 0x02, 0x19, 0x00]

  /** The real decoder, run with `bv`, shows `needle` somewhere in the page body. */
  ghost predicate Shows(raw: seq<byte>, pn: nat, bv: byte, needle: seq<byte>)
    requires |raw| == PAGE
  {
    Contains(Body(raw, pn, bv), needle)
  }

  /** The `bv` that makes the first decoded byte zero. */
  function OracleBv(pn: nat, raw: seq<byte>): byte
    requires |raw| > 0
  {
    Add(Sub(raw[0], Wrap(pn)), Bias(pn))
  }

  method OracleBvEPage(pn: nat, raw: seq<byte>) returns (bv: byte)
    requires |raw| > 0
    ensures bv == OracleBv(pn, raw)
  {
    bv := Add(Sub(raw[0], Wrap(pn)), Bias(pn));
  }

  /** Each row of a table, lowered by its own amount, is the sector the decoder would produce. */
  ghost predicate TableDecodes(table: seq<seq<byte>>, lows: seq<byte>, raw: seq<byte>, pn: nat, bv: byte,
      steps: seq<byte>)
    requires |raw| == PAGE && |steps| == SECTORS
  {
    && |table| == |lows| == SECTORS
    && forall si :: 0 <= si < SECTORS ==> Lowered(table[si], lows[si]) == DecodedSector(raw, pn, bv, steps[si], si)
  }

  method LowerInto(plain: array<byte>, cursor: nat, c: seq<byte>, low: byte)
    requires cursor + |c| <= plain.Length
    modifies plain
    ensures plain[..cursor + |c|] == old(plain[..cursor]) + Lowered(c, low)
  {
    for i := 0 to |c|
      invariant plain[..cursor] == old(plain[..cursor])
      invariant forall k :: 0 <= k < i ==> plain[cursor + k] == Sub(c[k], low)
    {
      plain[cursor + i] := Sub(c[i], low);
    }
  }

  /** Stitches the sectors of a table into one contiguous body. */
  method Stitch(table: seq<seq<byte>>, lows: seq<byte>, ghost raw: seq<byte>, ghost pn: nat, ghost bv: byte,
      ghost steps: seq<byte>)
    returns (body: seq<byte>)
    requires |raw| == PAGE && |steps| == SECTORS
    requires TableDecodes(table, lows, raw, pn, bv, steps)
    ensures body == BodyTo(raw, pn, bv, steps, SECTORS)
  {
    var plain := new byte[TRAILER_START](_ => 0);
    var cursor := 0;
    var si := 0;
    while si < SECTORS
      invariant 0 <= si <= SECTORS
      invariant cursor == BodyEnd(si)
      invariant plain[..cursor] == BodyTo(raw, pn, bv, steps, si)
    {
      assert |Lowered(table[si], lows[si])| == |table[si]|;
      LowerInto(plain, cursor, table[si], lows[si]);
      cursor := cursor + |table[si]|;
      si := si + 1;
    }
    body := plain[..];
    assert body == plain[..cursor];
  }

  /** One row of a table: the raw sector with a constant and the stepping removed. */
  method TableRow(sec: seq<byte>, constant: byte, step: byte) returns (row: seq<byte>)
    ensures row == Plain(sec, constant, step)
  {
    var c := new byte[|sec|](_ => 0);
    for i := 0 to |sec|
      invariant forall k :: 0 <= k < i ==> c[k] == DecodeByte(sec[k], constant, step, k)
    {
      c[i] := Sub(Sub(sec[i], constant), Mul(Wrap(i), step));
    }
    row := c[..];
  }

  /** Lowering a sector decoded under `a` by `b` decodes it under the sum of both. */
  lemma PlainLowered(sec: seq<byte>, a: byte, b: byte, step: byte)
    ensures Lowered(Plain(sec, a, step), b) == Plain(sec, Add(b, a), step)
  {
    forall i | 0 <= i < |sec|
      ensures Lowered(Plain(sec, a, step), b)[i] == Plain(sec, Add(b, a), step)[i]
    {
      DecodeFromZeroBase(sec[i], a, step, i);
      DecodeFromZeroBase(sec[i], Add(b, a), step, i);
    }
  }

  /** The first `true`, as the byte that indexes it. */
  function FirstTrue(hits: seq<bool>): (r: Option<byte>)
    requires |hits| <= 256
    ensures r.None? <==> forall k :: 0 <= k < |hits| ==> !hits[k]
    ensures r.Some? ==> r.value < |hits| && hits[r.value] && forall k :: 0 <= k < r.value ==> !hits[k]
  {
    if |hits| == 0 then None
    else
      var t := hits[..|hits| - 1];
      var r := FirstTrue(t);
      assert forall k :: 0 <= k < |t| ==> hits[k] == t[k];
      if r.Some? then r else if hits[|hits| - 1] then Some(|hits| - 1) else None
  }

  /** For each `bv`, whether the decoder run with it shows `needle`. */
  ghost function Hits(raw: seq<byte>, pn: nat, needle: seq<byte>): (hits: seq<bool>)
    requires |raw| == PAGE
    ensures |hits| == 256
    ensures forall bv: byte :: hits[bv] <==> Shows(raw, pn, bv, needle)
  {
    seq(256, bv requires 0 <= bv < 256 => Shows(raw, pn, bv, needle))
  }

  /** The anchor search of data pages: the oracle's guess first, then every `bv` in order. */
  ghost function QbDataBv(pn: nat, raw: seq<byte>): (r: Option<byte>) {
    if |raw| != PAGE then None
    else if Shows(raw, pn, OracleBv(pn, raw), Anchor(raw)) then Some(OracleBv(pn, raw))
    else FirstTrue(Hits(raw, pn, Anchor(raw)))
  }

  /** The magic search of allocation pages: every `bv` in order. */
  ghost function ApageBv(pn: nat, raw: seq<byte>): (r: Option<byte>) {
    if |raw| != PAGE then None else FirstTrue(Hits(raw, pn, APAGE_MAGIC))
  }

  method AnchorTable(pn: nat, raw: seq<byte>, oracle: byte, ghost steps: seq<byte>) returns (table: seq<seq<byte>>)
    requires |raw| == PAGE && |steps| == SECTORS
    requires forall si :: 0 <= si < SECTORS ==> steps[si] == StepOf(Sector(raw, si), 0)
    ensures |table| == SECTORS
    ensures forall si :: 0 <= si < SECTORS ==> table[si] == Plain(Sector(raw, si), Base(0, pn, si), steps[si])
  {
    table := [];
    for si := 0 to SECTORS
      invariant |table| == si
      invariant forall k :: 0 <= k < si ==> table[k] == Plain(Sector(raw, k), Base(0, pn, k), steps[k])
    {
      var row := AnchorRow(pn, raw, oracle, si, steps[si]);
      table := table + [row];
    }
  }

  /** One turn of the table loop; the step is recovered under the oracle's base. */
  method AnchorRow(pn: nat, raw: seq<byte>, oracle: byte, si: nat, ghost step: byte) returns (row: seq<byte>)
    requires |raw| == PAGE && si < SECTORS
    requires step == StepOf(Sector(raw, si), 0)
    ensures row == Plain(Sector(raw, si), Base(0, pn, si), step)
  {
    var bias := Bias(pn);
    var sec := raw[SectorStart(si)..SectorEnd(si)];
    var oracleBase := Sub(Add(Add(oracle, Wrap(pn)), Wrap(si)), bias);
    var recovered := RecoverStep(sec, oracleBase);
    StepIgnoresBase(sec, oracleBase);
    var offsetNoBv := Sub(Add(Wrap(pn), Wrap(si)), bias);
    assert Add(0, Wrap(pn)) == Wrap(pn);
    row := TableRow(sec, offsetNoBv, recovered);
  }

  method AnchorPresentWithBv(table: seq<seq<byte>>, bv: byte, rc: byte, ghost pn: nat, ghost raw: seq<byte>,
      ghost steps: seq<byte>)
    returns (found: bool)
    requires |raw| == PAGE && |steps| == SECTORS && |table| == SECTORS
    requires forall si :: 0 <= si < SECTORS ==> table[si] == Plain(Sector(raw, si), Base(0, pn, si), steps[si])
    ensures found == Contains(BodyTo(raw, pn, bv, steps, SECTORS), [rc, 0, 0xD5, 0x0B])
  {
    forall si | 0 <= si < SECTORS
      ensures Lowered(table[si], bv) == DecodedSector(raw, pn, bv, steps[si], si)
    {
      PlainLowered(Sector(raw, si), Base(0, pn, si), bv, steps[si]);
      BaseMoves(bv, pn, si);
    }
    var plain := Stitch(table, seq(SECTORS, _ => bv), raw, pn, bv, steps);
    found := ScanForAnchor(plain, rc);
  }

  method ScanForAnchor(plain: seq<byte>, rc: byte) returns (found: bool)
    ensures found == Contains(plain, [rc, 0, 0xD5, 0x0B])
  {
    if |plain| < 4 {
      return false;
    }
    var limit := |plain| - 4;
    var i := 0;
    while i <= limit
      invariant 0 <= i <= limit + 1
      invariant forall at :: 0 <= at < i ==> !OccursAt(plain, [rc, 0, 0xD5, 0x0B], at)
    {
      var here := plain[i..i + 4];
      assert plain[i] == here[0] && plain[i + 1] == here[1] && plain[i + 2] == here[2] && plain[i + 3] == here[3];
      if plain[i] == rc && plain[i + 1] == 0 && plain[i + 2] == 0xD5 && plain[i + 3] == 0x0B {
        assert here == [rc, 0, 0xD5, 0x0B];
        assert OccursAt(plain, [rc, 0, 0xD5, 0x0B], i);
        return true;
      }
      i := i + 1;
    }
    return false;
  }

  method RecoverBvQbData(pn: nat, raw: seq<byte>) returns (r: Option<byte>)
    ensures r == QbDataBv(pn, raw)
  {
    if |raw| != PAGE {
      return None;
    }
    var oracle := OracleBvEPage(pn, raw);
    ghost var steps := Steps(raw);
    var table := AnchorTable(pn, raw, oracle, steps);
    var found := AnchorPresentWithBv(table, oracle, raw[TRAILER_START], pn, raw, steps);
    if found {
      return Some(oracle);
    }
    r := FirstOther(table, oracle, raw[TRAILER_START], pn, raw, steps, Hits(raw, pn, Anchor(raw)));
  }

  /** The search over every `bv` but the one already tried. */
  method FirstOther(table: seq<seq<byte>>, oracle: byte, rc: byte,
                    ghost pn: nat, ghost raw: seq<byte>, ghost steps: seq<byte>, ghost hits: seq<bool>)
    returns (r: Option<byte>)
    requires |raw| == PAGE && |steps| == SECTORS && |table| == SECTORS
    requires forall si :: 0 <= si < SECTORS ==> table[si] == Plain(Sector(raw, si), Base(0, pn, si), steps[si])
    requires |hits| == 256
    requires forall bv: byte :: hits[bv] <==> Contains(BodyTo(raw, pn, bv, steps, SECTORS), [rc, 0, 0xD5, 0x0B])
    requires !hits[oracle]
    ensures r == FirstTrue(hits)
  {
    for bv := 0 to 256
      invariant forall b :: 0 <= b < bv ==> !hits[b]
    {
      if bv != oracle {
        var found := AnchorPresentWithBv(table, bv, rc, pn, raw, steps);
        assert found == hits[bv];
        if found {
          return Some(bv);
        }
      }
    }
    return None;
  }

  method RecoverBvApage(pn: nat, raw: seq<byte>) returns (r: Option<byte>)
    ensures r == ApageBv(pn, raw)
  {
    if |raw| != PAGE {
      return None;
    }
    ghost var steps := Steps(raw);
    var table := SteplessTable(raw, steps);
    r := FirstMagic(table, pn, raw, steps, Hits(raw, pn, APAGE_MAGIC));
  }

  method FirstMagic(table: seq<seq<byte>>, pn: nat, ghost raw: seq<byte>, ghost steps: seq<byte>, ghost hits: seq<bool>)
    returns (r: Option<byte>)
    requires |raw| == PAGE && |steps| == SECTORS && |table| == SECTORS
    requires forall si :: 0 <= si < SECTORS ==> table[si] == Plain(Sector(raw, si), 0, steps[si])
    requires |hits| == 256
    requires forall bv: byte :: hits[bv] <==> Contains(BodyTo(raw, pn, bv, steps, SECTORS), APAGE_MAGIC)
    ensures r == FirstTrue(hits)
  {
    for bv := 0 to 256
      invariant forall b :: 0 <= b < bv ==> !hits[b]
    {
      var found := MagicPresentWithBv(table, pn, bv, raw, steps);
      assert found == hits[bv];
      if found {
        return Some(bv);
      }
    }
    return None;
  }

  method MagicPresentWithBv(table: seq<seq<byte>>, pn: nat, bv: byte, ghost raw: seq<byte>, ghost steps: seq<byte>)
    returns (found: bool)
    requires |raw| == PAGE && |steps| == SECTORS && |table| == SECTORS
    requires forall si :: 0 <= si < SECTORS ==> table[si] == Plain(Sector(raw, si), 0, steps[si])
    ensures found == Contains(BodyTo(raw, pn, bv, steps, SECTORS), APAGE_MAGIC)
  {
    var lows := SectorBases(pn, bv);
    forall si | 0 <= si < SECTORS
      ensures Lowered(table[si], lows[si]) == DecodedSector(raw, pn, bv, steps[si], si)
    {
      PlainFromZeroBase(Sector(raw, si), lows[si], steps[si]);
    }
    var plain := Stitch(table, lows, raw, pn, bv, steps);
    found := ContainsSubseq(plain, APAGE_MAGIC);
  }

  method SteplessTable(raw: seq<byte>, ghost steps: seq<byte>) returns (table: seq<seq<byte>>)
    requires |raw| == PAGE && |steps| == SECTORS
    requires forall si :: 0 <= si < SECTORS ==> steps[si] == StepOf(Sector(raw, si), 0)
    ensures |table| == SECTORS && IsStepless(table, raw, steps)
  {
    table := [];
    for si := 0 to SECTORS
      invariant |table| == si && IsStepless(table, raw, steps)
    {
      var row := SteplessRow(raw, si, steps[si]);
      SteplessPush(table, row, raw, steps);
      table := table + [row];
    }
  }

  lemma SteplessPush(table: seq<seq<byte>>, row: seq<byte>, raw: seq<byte>, steps: seq<byte>)
    requires |raw| == PAGE && |steps| == SECTORS && |table| < SECTORS
    requires IsStepless(table, raw, steps) && row == Plain(Sector(raw, |table|), 0, steps[|table|])
    ensures IsStepless(table + [row], raw, steps)
  {
  }

  /** So far every row is its sector decoded with its step and no base. */
  ghost predicate IsStepless(table: seq<seq<byte>>, raw: seq<byte>, steps: seq<byte>)
    requires |raw| == PAGE && |steps| == SECTORS && |table| <= SECTORS
  {
    forall k :: 0 <= k < |table| ==> table[k] == Plain(Sector(raw, k), 0, steps[k])
  }

  method SteplessRow(raw: seq<byte>, si: nat, ghost step: byte) returns (row: seq<byte>)
    requires |raw| == PAGE && si < SECTORS
    requires step == StepOf(Sector(raw, si), 0)
    ensures row == Plain(Sector(raw, si), 0, step)
  {
    var sec := raw[SectorStart(si)..SectorEnd(si)];
    var recovered := RecoverStep(sec, 0);
    row := TableRow(sec, 0, recovered);
  }

  method SectorBases(pn: nat, bv: byte) returns (bases: seq<byte>)
    ensures |bases| == SECTORS
    ensures forall si :: 0 <= si < SECTORS ==> bases[si] == Base(bv, pn, si)
  {
    bases := [];
    for si := 0 to SECTORS
      invariant |bases| == si
      invariant forall k :: 0 <= k < si ==> bases[k] == Base(bv, pn, k)
    {
      bases := bases + [Sub(Add(Add(bv, Wrap(pn)), Wrap(si)), Bias(pn))];
    }
  }

  // ---------------------------------------------------------------------
  // The cascade

  /** Anchor search, then the oracle if it shows five percent zeros, then the exhaustive search. */
  ghost function AnyBv(pn: nat, raw: seq<byte>): (r: Option<byte>)
    requires |raw| == PAGE
  {
    var anchored := QbDataBv(pn, raw);
    if anchored.Some? then anchored
    else if Zeros(raw, pn, OracleBv(pn, raw)) * 100 / TRAILER_START >= 5 then Some(OracleBv(pn, raw))
    else BruteBv(pn, raw)
  }

  method CountZeros(s: seq<byte>) returns (zeros: nat)
    ensures zeros == Tally(s, 0)
  {
    zeros := 0;
    for i := 0 to |s|
      invariant zeros == Tally(s[..i], 0)
    {
      assert s[..i + 1][..i] == s[..i];
      if s[i] == 0 {
        zeros := zeros + 1;
      }
    }
    assert s[..|s|] == s;
  }

  method RecoverBvAny(pn: nat, raw: seq<byte>) returns (r: Option<byte>)
    requires |raw| == PAGE
    ensures r == AnyBv(pn, raw)
  {
    var anchored := RecoverBvQbData(pn, raw);
    if anchored.Some? {
      return anchored;
    }
    var obv := OracleBvEPage(pn, raw);
    var plain := DeobfuscateWithBv(raw, pn, obv);
    var zeros := CountZeros(plain[..TRAILER_START]);
    if zeros * 100 / TRAILER_START >= 5 {
      return Some(obv);
    }
    r := RecoverBvBrute(pn, raw);
  }
}
