/** Known plaintext found in a raw page, with the sector step and base it proves. */
module Witnesses {
  import opened Bytes
  import opened ApCipher

  datatype Witness = Witness(
    offset: nat, sector: nat, sectorOffset: nat, sectorBase: byte, step: byte, bv: byte)

  /** The plaintext lies wholly inside one sector, before the trailer. */
  predicate Fits(offset: nat, sector: nat, length: nat) {
    sector < SECTORS && SectorStart(sector) <= offset && offset + length <= SectorEnd(sector)
  }

  /** Every raw byte is the plaintext byte obfuscated with this base and step. */
  ghost predicate Explains(raw: seq<byte>, plain: seq<byte>, offset: nat, sectorOffset: nat, base: byte, step: byte)
    requires offset + |plain| <= |raw|
  {
    forall i :: 0 <= i < |plain| ==> raw[offset + i] == EncodeByte(plain[i], base, step, sectorOffset + i)
  }

  /** The raw bytes climb as the plaintext does, plus the step: what the source checks. */
  ghost predicate Climbs(raw: seq<byte>, plain: seq<byte>, offset: nat, step: byte)
    requires offset + |plain| <= |raw|
  {
    forall i :: 1 <= i < |plain| ==>
      Sub(raw[offset + i], raw[offset + i - 1]) == Add(Sub(plain[i], plain[i - 1]), step)
  }

  function StepHere(raw: seq<byte>, plain: seq<byte>, offset: nat): byte
    requires offset + |plain| <= |raw| && |plain| >= 2
  {
    Sub(Sub(raw[offset + 1], raw[offset]), Sub(plain[1], plain[0]))
  }

  function BaseHere(raw: seq<byte>, plain: seq<byte>, offset: nat, sectorOffset: nat, step: byte): byte
    requires offset + |plain| <= |raw| && |plain| >= 2
  {
    Sub(Sub(raw[offset], plain[0]), Mul(Wrap(sectorOffset), step))
  }

  lemma {:induction false} ClimbReaches(raw: seq<byte>, plain: seq<byte>, offset: nat, sectorOffset: nat, step: byte,
      i: nat)
    requires offset + |plain| <= |raw| && |plain| >= 2 && i < |plain|
    requires Climbs(raw, plain, offset, step)
    ensures raw[offset + i]
         == EncodeByte(plain[i], BaseHere(raw, plain, offset, sectorOffset, step), step, sectorOffset + i)
  {
    var base := BaseHere(raw, plain, offset, sectorOffset, step);
    if i == 0 {
      assert EncodeByte(plain[0], base, step, sectorOffset) == raw[offset];
    } else {
      ClimbReaches(raw, plain, offset, sectorOffset, step, i - 1);
      MulNext(sectorOffset + i - 1, step);
      var m := Mul(Wrap(sectorOffset + i - 1), step);
      Climb(raw[offset + i - 1], raw[offset + i], plain[i - 1], plain[i], base, m, step);
    }
  }

  lemma Climb(r: byte, next: byte, p: byte, q: byte, base: byte, m: byte, step: byte)
    requires r == Add(Add(p, base), m)
    ensures Sub(next, r) == Add(Sub(q, p), step) <==> next == Add(Add(q, base), Add(m, step))
  {
  }

  /** What the source checks is exactly that some base and step explain all bytes, and it names the only ones. */
  lemma ClimbsIffExplained(raw: seq<byte>, plain: seq<byte>, offset: nat, sectorOffset: nat)
    requires offset + |plain| <= |raw| && |plain| >= 2
    ensures Climbs(raw, plain, offset, StepHere(raw, plain, offset)) ==>
      var step := StepHere(raw, plain, offset);
      Explains(raw, plain, offset, sectorOffset, BaseHere(raw, plain, offset, sectorOffset, step), step)
    ensures forall base: byte, step: byte :: Explains(raw, plain, offset, sectorOffset, base, step) ==>
      && step == StepHere(raw, plain, offset)
      && base == BaseHere(raw, plain, offset, sectorOffset, step)
      && Climbs(raw, plain, offset, step)
  {
    var step := StepHere(raw, plain, offset);
    if Climbs(raw, plain, offset, step) {
      forall i | 0 <= i < |plain|
        ensures raw[offset + i]
             == EncodeByte(plain[i], BaseHere(raw, plain, offset, sectorOffset, step), step, sectorOffset + i)
      {
        ClimbReaches(raw, plain, offset, sectorOffset, step, i);
      }
    }
    forall base: byte, step: byte | Explains(raw, plain, offset, sectorOffset, base, step)
      ensures step == StepHere(raw, plain, offset)
      ensures base == BaseHere(raw, plain, offset, sectorOffset, step)
      ensures Climbs(raw, plain, offset, step)
    {
      ExplainedClimbs(raw, plain, offset, sectorOffset, base, step);
    }
  }

  lemma ExplainedClimbs(raw: seq<byte>, plain: seq<byte>, offset: nat, sectorOffset: nat, base: byte, step: byte)
    requires offset + |plain| <= |raw| && |plain| >= 2
    requires Explains(raw, plain, offset, sectorOffset, base, step)
    ensures step == StepHere(raw, plain, offset)
    ensures base == BaseHere(raw, plain, offset, sectorOffset, step)
    ensures Climbs(raw, plain, offset, step)
  {
    forall i | 1 <= i < |plain|
      ensures Sub(raw[offset + i], raw[offset + i - 1]) == Add(Sub(plain[i], plain[i - 1]), step)
    {
      var m := Mul(Wrap(sectorOffset + i - 1), step);
      MulNext(sectorOffset + i - 1, step);
      assert raw[offset + (i - 1)] == EncodeByte(plain[i - 1], base, step, sectorOffset + (i - 1));
      Climb(raw[offset + i - 1], raw[offset + i], plain[i - 1], plain[i], base, m, step);
    }
    assert Sub(raw[offset + 1], raw[offset]) == Add(Sub(plain[1], plain[0]), step);
    assert raw[offset + 0] == EncodeByte(plain[0], base, step, sectorOffset + 0);
  }

  function BvOfBase(sectorBase: byte, pn: nat, sector: nat): byte {
    Add(Sub(Sub(sectorBase, Wrap(pn)), Wrap(sector)), Bias(pn))
  }

  /** The formula for `bv` inverts the decoder's formula for the sector base. */
  lemma BvOfBaseInverts(sectorBase: byte, bv: byte, pn: nat, sector: nat)
    ensures Base(bv, pn, sector) == sectorBase <==> bv == BvOfBase(sectorBase, pn, sector)
  {
    Unshift(sectorBase, bv, Wrap(pn), Wrap(sector), Bias(pn));
  }

  lemma Unshift(base: byte, bv: byte, p: byte, s: byte, c: byte)
    ensures Sub(Add(Add(bv, p), s), c) == base <==> bv == Add(Sub(Sub(base, p), s), c)
  {
  }

  /** One report: its place fits, and its base, step and `bv` are the only ones that explain the bytes there. */
  ghost predicate IsWitness(w: Witness, pn: nat, raw: seq<byte>, plain: seq<byte>)
    requires |raw| == PAGE
  {
    && Fits(w.offset, w.sector, |plain|)
    && w.sectorOffset == w.offset - SectorStart(w.sector)
    && Explains(raw, plain, w.offset, w.sectorOffset, w.sectorBase, w.step)
    && (forall base: byte, step: byte :: Explains(raw, plain, w.offset, w.sectorOffset, base, step) ==>
          base == w.sectorBase && step == w.step)
    && (forall bv: byte :: Base(bv, pn, w.sector) == w.sectorBase <==> bv == w.bv)
  }

  /** Some base and step explain the bytes at this place. */
  ghost predicate Explained(raw: seq<byte>, plain: seq<byte>, offset: nat, sectorOffset: nat)
    requires offset + |plain| <= |raw|
  {
    exists base: byte, step: byte :: Explains(raw, plain, offset, sectorOffset, base, step)
  }

  /** Reports in order of offset, each at most once, for exactly the explained offsets up to a limit. */
  ghost predicate ReportsUpTo(out: seq<Witness>, pn: nat, raw: seq<byte>, plain: seq<byte>, limit: nat)
    requires |raw| == PAGE
  {
    && (forall k :: 0 <= k < |out| ==> IsWitness(out[k], pn, raw, plain) && out[k].offset < limit)
    && (forall j, k :: 0 <= j < k < |out| ==> out[j].offset < out[k].offset)
    && (forall sector: nat, offset: nat ::
          && Fits(offset, sector, |plain|) && offset < limit
          && Explained(raw, plain, offset, offset - SectorStart(sector)) ==>
          exists k :: 0 <= k < |out| && out[k].offset == offset)
  }

  method WitnessAt(pn: nat, raw: seq<byte>, plain: seq<byte>, sector: nat, offset: nat)
    returns (found: bool, w: Witness)
    requires |raw| == PAGE && |plain| >= 2 && Fits(offset, sector, |plain|)
    ensures found <==> Explained(raw, plain, offset, offset - SectorStart(sector))
    ensures found ==> IsWitness(w, pn, raw, plain) && w.offset == offset && w.sector == sector
  {
    var step := Sub(Sub(raw[offset + 1], raw[offset]), Sub(plain[1], plain[0]));
    var sectorOffset := offset - SectorStart(sector);
    var sectorBase := Sub(Sub(raw[offset], plain[0]), Mul(Wrap(sectorOffset), step));
    var bv := Add(Sub(Sub(sectorBase, Wrap(pn)), Wrap(sector)), Bias(pn));
    w := Witness(offset, sector, sectorOffset, sectorBase, step, bv);
    ClimbsIffExplained(raw, plain, offset, sectorOffset);
    forall b: byte
      ensures Base(b, pn, sector) == sectorBase <==> b == bv
    {
      BvOfBaseInverts(sectorBase, b, pn, sector);
    }
    FirstDifference(raw[offset], raw[offset + 1], plain[0], plain[1]);
    var i := 2;
    while i < |plain|
      invariant 2 <= i <= |plain|
      invariant forall k :: 1 <= k < i ==>
        Sub(raw[offset + k], raw[offset + k - 1]) == Add(Sub(plain[k], plain[k - 1]), step)
    {
      if Sub(raw[offset + i], raw[offset + i - 1]) != Add(Sub(plain[i], plain[i - 1]), step) {
        return false, w;
      }
      i := i + 1;
    }
    found := true;
  }

  lemma FirstDifference(r: byte, next: byte, p: byte, q: byte)
    ensures Sub(next, r) == Add(Sub(q, p), Sub(Sub(next, r), Sub(q, p)))
  {
  }

  method AffineKnownPlaintextWitnesses(pn: nat, raw: seq<byte>, plain: seq<byte>) returns (out: seq<Witness>)
    ensures |raw| != PAGE || |plain| < 2 || |plain| > SECTOR ==> out == []
    ensures |raw| == PAGE && 2 <= |plain| <= SECTOR ==> ReportsUpTo(out, pn, raw, plain, TRAILER_START)
  {
    out := [];
    if |raw| != PAGE || |plain| < 2 || |plain| > SECTOR {
      return;
    }
    for sector := 0 to SECTORS
      invariant ReportsUpTo(out, pn, raw, plain, BodyEnd(sector))
    {
      var sectorStart := sector * SECTOR;
      var sectorEnd := if sector == SECTORS - 1 then TRAILER_START else sectorStart + SECTOR;
      if sectorEnd - sectorStart >= |plain| {
        out := ScanSector(pn, raw, plain, sector, out);
      }
    }
  }

  /** The offsets of one sector, from its start to the last place where the plaintext still fits. */
  method ScanSector(pn: nat, raw: seq<byte>, plain: seq<byte>, sector: nat, before: seq<Witness>)
    returns (out: seq<Witness>)
    requires |raw| == PAGE && 2 <= |plain| && sector < SECTORS
    requires SectorStart(sector) + |plain| <= SectorEnd(sector)
    requires ReportsUpTo(before, pn, raw, plain, SectorStart(sector))
    ensures ReportsUpTo(out, pn, raw, plain, SectorEnd(sector))
  {
    out := before;
    for offset := SectorStart(sector) to SectorEnd(sector) - |plain| + 1
      invariant ReportsUpTo(out, pn, raw, plain, offset)
    {
      var found, w := WitnessAt(pn, raw, plain, sector, offset);
      OneSector(offset, |plain|, sector);
      ghost var earlier := out;
      if found {
        out := out + [w];
        assert out[|earlier|].offset == offset;
      }
      assert forall k :: 0 <= k < |earlier| ==> out[k] == earlier[k];
    }
    forall s: nat, o: nat | Fits(o, s, |plain|) && o < SectorEnd(sector)
      ensures o < SectorEnd(sector) - |plain| + 1
    {
    }
  }

  /** A place lies in one sector only. */
  lemma OneSector(offset: nat, length: nat, sector: nat)
    requires length > 0 && Fits(offset, sector, length)
    ensures forall s: nat :: Fits(offset, s, length) ==> s == sector
  {
  }
}
