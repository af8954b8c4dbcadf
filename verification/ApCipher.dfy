/**
The AP page obfuscation: eight sectors of at most 512 bytes, each shifted by a
sector base and a running multiple of a sector step, followed by a plain
16-byte trailer.  The step of a sector is guessed from its histogram peak.
*/
module ApCipher {
  import opened Bytes
  import opened Tallies

  const PAGE := 4096
  const SECTOR := 512
  const SECTORS := 8
  const TRAILER_START := 0xFF0

  function Bias(pn: nat): byte {
    (pn % 16) / 2 * 4
  }

  /** The additive base of a sector. */
  function Base(bv: byte, pn: nat, si: nat): byte {
    Sub(Add(Add(bv, Wrap(pn)), Wrap(si)), Bias(pn))
  }

  /** Moving `bv` moves every sector base by the same amount. */
  lemma BaseMoves(bv: byte, pn: nat, si: nat)
    ensures Base(bv, pn, si) == Add(bv, Base(0, pn, si))
  {
    var p, s, c := Wrap(pn), Wrap(si), Bias(pn);
    AddAssociative(bv, p, s);
    AddThenSub(bv, Add(p, s), c);
    assert Add(0, p) == p;
  }

  function SectorStart(si: nat): nat {
    si * SECTOR
  }

  function SectorEnd(si: nat): nat {
    if si == SECTORS - 1 then TRAILER_START else SectorStart(si) + SECTOR
  }

  function Sector(raw: seq<byte>, si: nat): (sec: seq<byte>)
    requires |raw| == PAGE && si < SECTORS
    ensures |sec| == SectorEnd(si) - SectorStart(si)
  {
    raw[SectorStart(si)..SectorEnd(si)]
  }

  function DecodeByte(b: byte, base: byte, step: byte, i: nat): byte {
    Sub(Sub(b, base), Mul(Wrap(i), step))
  }

  /** The obfuscation that `DecodeByte` undoes. */
  function EncodeByte(p: byte, base: byte, step: byte, i: nat): byte {
    Add(Add(p, base), Mul(Wrap(i), step))
  }

  /** A sector decoded under a base and a step. */
  function Plain(sec: seq<byte>, base: byte, step: byte): (p: seq<byte>)
    ensures |p| == |sec|
  {
    seq(|sec|, i requires 0 <= i < |sec| => DecodeByte(sec[i], base, step, i))
  }

  /** The histogram peak of each of the 256 candidate steps. */
  function Peaks(sec: seq<byte>, base: byte): (r: seq<nat>)
    ensures |r| == 256
    ensures forall step: byte :: r[step] == Peak(Plain(sec, base, step))
  {
    seq(256, step requires 0 <= step < 256 => Peak(Plain(sec, base, step)))
  }

  /** The step the source recovers: the first with the highest peak. */
  function StepOf(sec: seq<byte>, base: byte): byte {
    FirstMax(Peaks(sec, base))
  }

  method CountPlain(sec: seq<byte>, base: byte, step: byte) returns (counts: seq<nat>)
    ensures counts == Histogram(Plain(sec, base, step))
  {
    var hist := new nat[256](_ => 0);
    ghost var p := Plain(sec, base, step);
    for i := 0 to |sec|
      invariant forall v: byte :: hist[v] == Tally(p[..i], v)
    {
      var plain := Sub(Sub(sec[i], base), Mul(Wrap(i), step));
      assert p[..i + 1][..i] == p[..i];
      hist[plain] := hist[plain] + 1;
    }
    assert p[..|sec|] == p;
    counts := hist[..];
  }

  method HighestCount(hist: seq<nat>) returns (peak: nat)
    requires |hist| > 0
    ensures peak == Max(hist)
  {
    peak := hist[0];
    for i := 1 to |hist|
      invariant IsMax(hist[..i], peak)
    {
      if hist[i] > peak {
        peak := hist[i];
        assert hist[..i + 1][i] == peak;
      } else {
        var k :| 0 <= k < i && hist[..i][k] == peak;
        assert hist[..i + 1][k] == peak;
      }
      assert forall k :: 0 <= k < i ==> hist[..i + 1][k] == hist[..i][k];
    }
    assert hist[..|hist|] == hist;
  }

  method RecoverStep(sec: seq<byte>, base: byte) returns (bestStep: byte)
    ensures bestStep == StepOf(sec, base)
  {
    bestStep := 0;
    var bestPeak := 0;
    ghost var peaks := Peaks(sec, base);
    for step := 0 to 256
      invariant step == 0 ==> bestStep == 0 && bestPeak == 0
      invariant step > 0 ==> IsFirstMax(peaks[..step], bestStep) && bestPeak == peaks[bestStep]
    {
      var hist := CountPlain(sec, base, step);
      var peak := HighestCount(hist);
      assert peak == peaks[step];
      if step > 0 {
        FirstMaxExtended(peaks, step, bestStep);
      }
      if peak > bestPeak {
        bestPeak := peak;
        bestStep := step;
      }
    }
    assert peaks[..256] == peaks;
    FirstMaxUnique(peaks, bestStep);
  }

  // ---------------------------------------------------------------------
  // The recovered step does not depend on the base.

  lemma DecodeFromZeroBase(b: byte, base: byte, step: byte, i: nat)
    ensures DecodeByte(b, base, step, i) == Sub(DecodeByte(b, 0, step, i), base)
  {
    var m := Mul(Wrap(i), step);
    assert Sub(Sub(b, base), m) == Sub(Sub(b, m), base);
  }

  lemma PlainFromZeroBase(sec: seq<byte>, base: byte, step: byte)
    ensures Plain(sec, base, step) == Lowered(Plain(sec, 0, step), base)
  {
    forall i | 0 <= i < |sec|
      ensures Plain(sec, base, step)[i] == Lowered(Plain(sec, 0, step), base)[i]
    {
      DecodeFromZeroBase(sec[i], base, step, i);
    }
  }

  /** Every recovery path of the source relies on this and none checks it. */
  lemma StepIgnoresBase(sec: seq<byte>, base: byte)
    ensures StepOf(sec, base) == StepOf(sec, 0)
  {
    forall step: byte
      ensures Peaks(sec, base)[step] == Peaks(sec, 0)[step]
    {
      PlainFromZeroBase(sec, base, step);
      PeakLowered(Plain(sec, 0, step), base);
    }
    assert Peaks(sec, base) == Peaks(sec, 0);
  }

  // ---------------------------------------------------------------------
  // Decoding a page.

  /** The recovered step of each sector. */
  function Steps(raw: seq<byte>): (steps: seq<byte>)
    requires |raw| == PAGE
    ensures |steps| == SECTORS
    ensures forall si :: 0 <= si < SECTORS ==> steps[si] == StepOf(Sector(raw, si), 0)
  {
    seq(SECTORS, si requires 0 <= si < SECTORS => StepOf(Sector(raw, si), 0))
  }

  /** A sector decoded under the base that `bv` implies. */
  function DecodedSector(raw: seq<byte>, pn: nat, bv: byte, step: byte, si: nat): (p: seq<byte>)
    requires |raw| == PAGE && si < SECTORS
    ensures |p| == SectorEnd(si) - SectorStart(si)
  {
    Plain(Sector(raw, si), Base(bv, pn, si), step)
  }

  /** Where the first `n` sectors end. */
  function BodyEnd(n: nat): nat {
    if n == SECTORS then TRAILER_START else n * SECTOR
  }

  /** The first `n` sectors, decoded. */
  function BodyTo(raw: seq<byte>, pn: nat, bv: byte, steps: seq<byte>, n: nat): (p: seq<byte>)
    requires |raw| == PAGE && |steps| == SECTORS && n <= SECTORS
    ensures |p| == BodyEnd(n)
  {
    if n == 0 then [] else BodyTo(raw, pn, bv, steps, n - 1) + DecodedSector(raw, pn, bv, steps[n - 1], n - 1)
  }

  /** The decoded body of a page: its bytes before the trailer. */
  function Body(raw: seq<byte>, pn: nat, bv: byte): (p: seq<byte>)
    requires |raw| == PAGE
    ensures |p| == TRAILER_START
  {
    BodyTo(raw, pn, bv, Steps(raw), SECTORS)
  }

  function Deobfuscated(raw: seq<byte>, pn: nat, bv: byte): (p: seq<byte>)
    requires |raw| == PAGE
    ensures |p| == PAGE
  {
    Body(raw, pn, bv) + raw[TRAILER_START..PAGE]
  }

  method DecodeInto(out: array<byte>, off: nat, sec: seq<byte>, base: byte, step: byte)
    requires off + |sec| <= out.Length
    modifies out
    ensures out[..off + |sec|] == old(out[..off]) + Plain(sec, base, step)
  {
    for i := 0 to |sec|
      invariant out[..off] == old(out[..off])
      invariant forall k :: 0 <= k < i ==> out[off + k] == DecodeByte(sec[k], base, step, k)
    {
      out[off + i] := Sub(Sub(sec[i], base), Mul(Wrap(i), step));
    }
  }

  method CopyTail(out: array<byte>, raw: seq<byte>, from: nat)
    requires from <= out.Length == |raw|
    modifies out
    ensures out[..] == old(out[..from]) + raw[from..]
  {
    for k := from to |raw|
      invariant out[..from] == old(out[..from])
      invariant forall j :: from <= j < k ==> out[j] == raw[j]
    {
      out[k] := raw[k];
    }
  }

  /** One turn of the sector loop: the step is recovered under the base in use, yet it is the one of base 0. */
  method DecodeSector(out: array<byte>, raw: seq<byte>, pn: nat, bv: byte, si: nat, ghost step: byte)
    requires |raw| == out.Length == PAGE && si < SECTORS
    requires step == StepOf(Sector(raw, si), 0)
    modifies out
    ensures out[..BodyEnd(si + 1)] == old(out[..BodyEnd(si)]) + DecodedSector(raw, pn, bv, step, si)
  {
    var off := si * SECTOR;
    var end := if si == SECTORS - 1 then TRAILER_START else off + SECTOR;
    var sec := raw[off..end];
    var base := Sub(Add(Add(bv, Wrap(pn)), Wrap(si)), Bias(pn));
    var recovered := RecoverStep(sec, base);
    StepIgnoresBase(sec, base);
    DecodeInto(out, off, sec, base, recovered);
  }

  method DecodeSectors(out: array<byte>, raw: seq<byte>, pn: nat, bv: byte, n: nat, ghost steps: seq<byte>)
    requires |raw| == out.Length == PAGE && n <= SECTORS == |steps|
    requires forall si :: 0 <= si < SECTORS ==> steps[si] == StepOf(Sector(raw, si), 0)
    modifies out
    ensures out[..BodyEnd(n)] == BodyTo(raw, pn, bv, steps, n)
  {
    for si := 0 to n
      invariant out[..BodyEnd(si)] == BodyTo(raw, pn, bv, steps, si)
    {
      DecodeSector(out, raw, pn, bv, si, steps[si]);
    }
  }

  method DeobfuscateWithBv(raw: seq<byte>, pn: nat, bv: byte) returns (page: seq<byte>)
    requires |raw| == PAGE
    ensures page == Deobfuscated(raw, pn, bv)
  {
    var out := new byte[PAGE](_ => 0);
    DecodeSectors(out, raw, pn, bv, SECTORS, Steps(raw));
    CopyTail(out, raw, TRAILER_START);
    page := out[..];
  }
}
