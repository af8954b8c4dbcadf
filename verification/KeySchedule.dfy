/** What the page decoder computes, byte by byte and in plain integers. */
module KeySchedule {
  import opened Sequences
  import opened Bytes
  import opened Tallies
  import opened ApCipher
  import opened BvOracles

  // ---------------------------------------------------------------------
  // Sector bases

  /** Bytes add like integers whose multiples of 256 are dropped. */
  lemma AddWrapped(x: int, y: int)
    ensures Add(Wrap(x), Wrap(y)) == Wrap(x + y)
  {
    assert x == 256 * (x / 256) + Wrap(x) && y == 256 * (y / 256) + Wrap(y);
    WrapMultiple(Wrap(x) + Wrap(y), x / 256 + y / 256);
    if Wrap(x) + Wrap(y) >= 256 {
      WrapMultiple(Wrap(x) + Wrap(y) - 256, 1);
    }
  }

  lemma SubWrapped(x: int, y: int)
    ensures Sub(Wrap(x), Wrap(y)) == Wrap(x - y)
  {
    assert x == 256 * (x / 256) + Wrap(x) && y == 256 * (y / 256) + Wrap(y);
    WrapMultiple(Wrap(x) - Wrap(y), x / 256 - y / 256);
    if Wrap(x) < Wrap(y) {
      WrapMultiple(Wrap(x) - Wrap(y), 1);
    }
  }

  /** The base of a sector as one sum. */
  lemma BaseIsSum(bv: byte, pn: nat, si: nat)
    ensures Base(bv, pn, si) == Wrap(bv + pn + si - pn % 16 / 2 * 4)
  {
    var bias := pn % 16 / 2 * 4;
    assert Wrap(bv) == bv && Wrap(bias) == Bias(pn);
    AddWrapped(bv, pn);
    AddWrapped(bv + pn, si);
    SubWrapped(bv + pn + si, bias);
  }

  /**
    The bases of all sectors of all pages, each from the one before: they start at `bv`, climb by one from sector to
    sector, and from page to page by one, or fall back by three behind every second page, or leap by 29 behind every
    sixteenth.
   */
  lemma BaseSchedule(bv: byte, pn: nat, si: nat)
    ensures Base(bv, 0, 0) == bv
    ensures Base(bv, pn, si + 1) == Add(Base(bv, pn, si), 1)
    ensures Base(bv, pn + 1, si)
      == Add(Base(bv, pn, si), if pn % 2 == 0 then 1 else if pn % 16 == 15 then 29 else 253)
  {
    BaseIsSum(bv, 0, 0);
    BaseIsSum(bv, pn, si);
    BaseIsSum(bv, pn, si + 1);
    AddWrapped(bv + pn + si - pn % 16 / 2 * 4, 1);
    NextPage(bv, pn, si);
  }

  lemma NextPage(bv: byte, pn: nat, si: nat)
    ensures Base(bv, pn + 1, si)
      == Add(Base(bv, pn, si), if pn % 2 == 0 then 1 else if pn % 16 == 15 then 29 else 253)
  {
    var here := bv + pn + si - pn % 16 / 2 * 4;
    var climb := if pn % 2 == 0 then 1 else if pn % 16 == 15 then 29 else -3;
    BaseIsSum(bv, pn, si);
    BaseIsSum(bv, pn + 1, si);
    NextBias(pn);
    AddWrapped(here, climb);
    assert Wrap(-3) == 253;
  }

  lemma NextBias(pn: nat)
    ensures (pn + 1) % 16 / 2 * 4 == pn % 16 / 2 * 4 + (if pn % 2 == 0 then 0 else if pn % 16 == 15 then -28 else 4)
  {
    var q, r := pn / 16, pn % 16;
    assert pn == 16 * q + r;
    NextOfSixteen(q, r);
    NextHalf(r / 2, r % 2);
    assert r == 2 * (r / 2) + r % 2;
    Parity(8 * q, r);
  }

  lemma NextOfSixteen(q: nat, r: nat)
    requires r < 16
    ensures (16 * q + r + 1) % 16 == if r == 15 then 0 else r + 1
  {
    if r == 15 {
      assert 16 * q + r + 1 == 16 * (q + 1);
    }
  }

  lemma NextHalf(h: nat, odd: nat)
    requires odd < 2
    ensures (2 * h + odd + 1) / 2 == h + odd
  {
  }

  lemma Parity(h: nat, r: nat)
    ensures (2 * h + r) % 2 == r % 2
  {
  }

  // ---------------------------------------------------------------------
  // Decoded bytes

  lemma DecodedAt(b: byte, base: int, step: byte, i: nat)
    ensures DecodeByte(b, Wrap(base), step, i) == Wrap(b - base - i * step)
  {
    assert Wrap(b) == b;
    MulTruncated(i, step);
    SubWrapped(b, base);
    SubWrapped(b - base, i * step);
  }

  lemma EncodedAt(p: byte, base: int, step: byte, i: nat)
    ensures EncodeByte(p, Wrap(base), step, i) == (p + base + i * step) % 256
  {
    assert Wrap(p) == p;
    MulTruncated(i, step);
    AddWrapped(p, base);
    AddWrapped(p + base, i * step);
  }

  /** A raw byte less `bv`, the page and sector numbers and the page's bias, and less `i` steps. */
  function Unshifted(b: byte, bv: byte, pn: nat, si: nat, step: byte, i: nat): byte {
    (b - (bv + pn + si - pn % 16 / 2 * 4) - i * step) % 256
  }

  lemma DecodedIsUnshifted(b: byte, bv: byte, pn: nat, si: nat, step: byte, i: nat)
    ensures DecodeByte(b, Base(bv, pn, si), step, i) == Unshifted(b, bv, pn, si, step, i)
  {
    BaseIsSum(bv, pn, si);
    DecodedAt(b, bv + pn + si - pn % 16 / 2 * 4, step, i);
  }

  /** The bytes of a page that are decoded with one step. */
  function SectorBytes(raw: seq<byte>, si: nat): (sec: seq<byte>)
    requires |raw| == 4096 && si < 8
  {
    if si == 7 then raw[3584..4080] else raw[512 * si..512 * si + 512]
  }

  lemma {:induction false} BodyToAt(raw: seq<byte>, pn: nat, bv: byte, steps: seq<byte>, n: nat, k: nat)
    requires |raw| == PAGE && |steps| == SECTORS && n <= SECTORS && k < BodyEnd(n)
    ensures k / 512 < 8
    ensures BodyTo(raw, pn, bv, steps, n)[k] == DecodeByte(raw[k], Base(bv, pn, k / 512), steps[k / 512], k % 512)
  {
    var si := n - 1;
    if k < BodyEnd(si) {
      BodyToAt(raw, pn, bv, steps, si, k);
    } else {
      assert k / 512 == si && k % 512 == k - 512 * si;
      assert Sector(raw, si)[k - 512 * si] == raw[k];
    }
  }

  /**
    Every byte of a decoded page: in front of the trailer, the raw byte less `bv`, the page and sector numbers, the
    page's bias and as many steps as the byte is far into its sector; in the trailer, the raw byte.
   */
  lemma DecodedByte(raw: seq<byte>, pn: nat, bv: byte, k: nat)
    requires |raw| == 4096 && k < 4096
    ensures k >= 4080 ==> Deobfuscated(raw, pn, bv)[k] == raw[k]
    ensures k < 4080 ==>
      var step := StepOf(SectorBytes(raw, k / 512), 0);
      Deobfuscated(raw, pn, bv)[k] == Unshifted(raw[k], bv, pn, k / 512, step, k % 512)
  {
    if k < 4080 {
      BodyAt(raw, pn, bv, k);
      DecodedIsUnshifted(raw[k], bv, pn, k / 512, StepOf(SectorBytes(raw, k / 512), 0), k % 512);
    }
  }

  lemma SectorOf(raw: seq<byte>, si: nat)
    requires |raw| == 4096 && si < 8
    ensures Sector(raw, si) == SectorBytes(raw, si)
  {
  }

  lemma BodyAt(raw: seq<byte>, pn: nat, bv: byte, k: nat)
    requires |raw| == 4096 && k < 4080
    ensures Deobfuscated(raw, pn, bv)[k]
      == DecodeByte(raw[k], Base(bv, pn, k / 512), StepOf(SectorBytes(raw, k / 512), 0), k % 512)
  {
    BodyToAt(raw, pn, bv, Steps(raw), SECTORS, k);
    SectorOf(raw, k / 512);
  }

  // ---------------------------------------------------------------------
  // Recovered steps

  lemma {:induction false} TallyIsMultiplicity(s: seq<byte>, v: byte)
    ensures Tally(s, v) == multiset(s)[v]
  {
    if s != [] {
      var n := |s| - 1;
      assert s == s[..n] + [s[n]];
      TallyIsMultiplicity(s[..n], v);
    }
  }

  /** A step's peak is how often the most common byte occurs among the bytes it decodes. */
  lemma PeakIsCommonest(s: seq<byte>, peak: nat)
    ensures Peak(s) == peak <==>
      (forall v: byte :: multiset(s)[v] <= peak) && exists v: byte :: multiset(s)[v] == peak
  {
    var commonest := PeakAttained(s);
    TallyIsMultiplicity(s, commonest);
    forall v: byte
      ensures multiset(s)[v] <= Peak(s)
    {
      TallyIsMultiplicity(s, v);
      PeakBounds(s, v);
    }
  }

  /** The recovered step is the least of those with the highest peak, under any base. */
  lemma StepIsLeastBest(sec: seq<byte>, base: byte, step: byte)
    ensures StepOf(sec, base) == step <==>
      && (forall other: byte :: Peak(Plain(sec, base, other)) <= Peak(Plain(sec, base, step)))
      && (forall other: byte :: other < step ==> Peak(Plain(sec, base, other)) < Peak(Plain(sec, base, step)))
  {
    var peaks := Peaks(sec, base);
    assert forall s: byte :: peaks[s] == Peak(Plain(sec, base, s));
    if forall other: byte :: peaks[other] <= peaks[step] {
      if forall other: byte :: other < step ==> peaks[other] < peaks[step] {
        assert IsFirstMax(peaks, step);
        FirstMaxUnique(peaks, step);
      }
    }
  }

  // ---------------------------------------------------------------------
  // Anchors

  /** A needle is found exactly if it is not empty and the text is something, the needle, and something. */
  lemma ContainsIsInfix(hay: seq<byte>, needle: seq<byte>)
    ensures Contains(hay, needle) <==> needle != [] && exists before, after :: hay == before + needle + after
  {
    if Contains(hay, needle) {
      var at :| 0 <= at <= |hay| - |needle| && OccursAt(hay, needle, at);
      assert hay == hay[..at] + needle + hay[at + |needle|..];
    }
    if before, after :| needle != [] && hay == before + needle + after {
      assert OccursAt(hay, needle, |before|);
    }
  }
}
