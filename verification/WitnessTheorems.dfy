/** The reported witnesses in plain integers: where they lie, and what they explain. */
module WitnessTheorems {
  import opened Bytes
  import opened ApCipher
  import opened KeySchedule
  import opened Witnesses

  /** A plaintext byte with a base and `i` times a step added to it. */
  function Shifted(p: byte, base: byte, step: byte, i: nat): byte {
    (p + base + i * step) % 256
  }

  lemma EncodedIsShifted(p: byte, base: byte, step: byte, i: nat)
    ensures EncodeByte(p, base, step, i) == Shifted(p, base, step, i)
  {
    assert Wrap(base) == base;
    EncodedAt(p, base, step, i);
  }

  /** This base and step, counted from the start of the sector, turn the plaintext into the raw bytes. */
  ghost predicate Obfuscates(raw: seq<byte>, plain: seq<byte>, offset: nat, base: byte, step: byte)
    requires offset + |plain| <= |raw|
  {
    forall i :: 0 <= i < |plain| ==> raw[offset + i] == Shifted(plain[i], base, step, offset % 512 + i)
  }

  lemma ExplainsIsObfuscates(raw: seq<byte>, plain: seq<byte>, offset: nat, base: byte, step: byte)
    requires offset + |plain| <= |raw|
    ensures Explains(raw, plain, offset, offset % 512, base, step) <==> Obfuscates(raw, plain, offset, base, step)
  {
    forall i | 0 <= i < |plain|
      ensures EncodeByte(plain[i], base, step, offset % 512 + i) == Shifted(plain[i], base, step, offset % 512 + i)
    {
      EncodedIsShifted(plain[i], base, step, offset % 512 + i);
    }
  }

  /** The plaintext lies inside one sector and in front of the trailer. */
  predicate LiesInSector(offset: nat, length: nat) {
    offset % 512 + length <= 512 && offset + length <= 4080
  }

  lemma FitsInSector(offset: nat, length: nat, sector: nat)
    requires length > 0
    ensures Fits(offset, sector, length) <==> LiesInSector(offset, length) && sector == offset / 512
  {
    if Fits(offset, sector, length) {
      assert sector == offset / 512 && offset % 512 == offset - 512 * sector;
    }
  }

  /** A report names its sector, its place in it, and the base, step and `bv` that obfuscate the plaintext there. */
  lemma WitnessMeaning(pn: nat, raw: seq<byte>, plain: seq<byte>, w: Witness)
    requires |raw| == PAGE && |plain| >= 2 && IsWitness(w, pn, raw, plain)
    ensures LiesInSector(w.offset, |plain|) && w.sector == w.offset / 512 && w.sectorOffset == w.offset % 512
    ensures Obfuscates(raw, plain, w.offset, w.sectorBase, w.step)
    ensures forall base: byte, step: byte :: Obfuscates(raw, plain, w.offset, base, step) ==>
      base == w.sectorBase && step == w.step
    ensures w.sectorBase == (w.bv + pn + w.sector - pn % 16 / 2 * 4) % 256
  {
    FitsInSector(w.offset, |plain|, w.sector);
    assert w.sectorOffset == w.offset % 512;
    ExplainsIsObfuscates(raw, plain, w.offset, w.sectorBase, w.step);
    forall base: byte, step: byte | Obfuscates(raw, plain, w.offset, base, step)
      ensures base == w.sectorBase && step == w.step
    {
      ExplainsIsObfuscates(raw, plain, w.offset, base, step);
    }
    BaseIsSum(w.bv, pn, w.sector);
  }

  /** Reported are exactly the places inside a sector at which some base and step obfuscate the plaintext, in order. */
  lemma WitnessesExactly(pn: nat, raw: seq<byte>, plain: seq<byte>, out: seq<Witness>, offset: nat)
    requires |raw| == PAGE && |plain| >= 2 && ReportsUpTo(out, pn, raw, plain, TRAILER_START)
    ensures (exists w :: w in out && w.offset == offset) <==>
      && LiesInSector(offset, |plain|)
      && exists base: byte, step: byte :: Obfuscates(raw, plain, offset, base, step)
    ensures forall j, k :: 0 <= j < k < |out| ==> out[j].offset < out[k].offset
  {
    FitsInSector(offset, |plain|, offset / 512);
    if w :| w in out && w.offset == offset {
      WitnessMeaning(pn, raw, plain, w);
    }
    if LiesInSector(offset, |plain|) {
      if base: byte, step: byte :| Obfuscates(raw, plain, offset, base, step) {
        ExplainsIsObfuscates(raw, plain, offset, base, step);
        assert offset % 512 == offset - SectorStart(offset / 512);
        assert Explained(raw, plain, offset, offset - SectorStart(offset / 512));
        var k :| 0 <= k < |out| && out[k].offset == offset;
        assert out[k] in out;
      }
    }
  }
}
