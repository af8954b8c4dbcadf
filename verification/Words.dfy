/** Unsigned 16- and 32-bit words and their big-endian bytes. */
module Words {
  import opened Bytes

  type u16 = x: int | 0 <= x < 0x1_0000
  type u32 = x: int | 0 <= x < 0x1_0000_0000

  function Join16(hi: byte, lo: byte): u16 {
    var h: int, l: int := hi, lo;
    h * 0x100 + l
  }

  function Split16(x: u16): (r: seq<byte>)
    ensures |r| == 2 && Join16(r[0], r[1]) == x
  {
    [x / 0x100, x % 0x100]
  }

  lemma SplitOfJoin16(hi: byte, lo: byte)
    ensures Split16(Join16(hi, lo)) == [hi, lo]
  {
  }

  function JoinWords(hi: u16, lo: u16): u32 {
    var h: int, l: int := hi, lo;
    h * 0x1_0000 + l
  }

  function JoinBig(b3: byte, b2: byte, b1: byte, b0: byte): u32 {
    JoinWords(Join16(b3, b2), Join16(b1, b0))
  }

  function HighWord(x: u32): u16 {
    x / 0x1_0000
  }

  function LowWord(x: u32): u16 {
    x % 0x1_0000
  }

  lemma WordsOfJoin(hi: u16, lo: u16)
    ensures HighWord(JoinWords(hi, lo)) == hi && LowWord(JoinWords(hi, lo)) == lo
  {
  }

  function SplitBig(x: u32): (r: seq<byte>)
    ensures |r| == 4
    ensures JoinBig(r[0], r[1], r[2], r[3]) == x
  {
    Split16(HighWord(x)) + Split16(LowWord(x))
  }

  lemma SplitOfJoin(b3: byte, b2: byte, b1: byte, b0: byte)
    ensures SplitBig(JoinBig(b3, b2, b1, b0)) == [b3, b2, b1, b0]
  {
    WordsOfJoin(Join16(b3, b2), Join16(b1, b0));
    SplitOfJoin16(b3, b2);
    SplitOfJoin16(b1, b0);
  }

  // ---------------------------------------------------------------------
  // What the bytes of a word mean

  /** The number that digits to base 256 stand for, the most significant first. */
  function Numeral(b: seq<byte>): nat {
    if b == [] then 0 else Numeral(b[..|b| - 1]) * 256 + b[|b| - 1]
  }

  lemma NumeralPush(b: seq<byte>, last: byte)
    ensures Numeral(b + [last]) == Numeral(b) * 256 + last
  {
    assert (b + [last])[..|b|] == b;
  }

  lemma NumeralOfTwo(b1: byte, b0: byte)
    ensures Numeral([b1, b0]) == 256 * b1 + b0
  {
    NumeralPush([], b1);
    NumeralPush([b1], b0);
    assert [] + [b1] == [b1] && [b1] + [b0] == [b1, b0];
  }

  lemma NumeralBehind(a: seq<byte>, b3: byte, b2: byte, b1: byte, b0: byte)
    ensures Numeral(a + [b3, b2, b1, b0]) == Numeral(a) * 0x1_0000_0000 + Numeral([b3, b2, b1, b0])
  {
    NumeralOfTwo(b3, b2);
    NumeralPush([b3, b2], b1);
    NumeralPush([b3, b2, b1], b0);
    assert [b3, b2] + [b1] == [b3, b2, b1] && [b3, b2, b1] + [b0] == [b3, b2, b1, b0];
    NumeralPush(a, b3);
    NumeralPush(a + [b3], b2);
    NumeralPush(a + [b3] + [b2], b1);
    NumeralPush(a + [b3] + [b2] + [b1], b0);
    assert a + [b3] + [b2] + [b1] + [b0] == a + [b3, b2, b1, b0];
  }

  lemma JoinIsNumeral(b3: byte, b2: byte, b1: byte, b0: byte)
    ensures Join16(b1, b0) == Numeral([b1, b0])
    ensures JoinBig(b3, b2, b1, b0) == Numeral([b3, b2, b1, b0])
  {
    NumeralOfTwo(b3, b2);
    NumeralOfTwo(b1, b0);
    NumeralPush([b3, b2], b1);
    NumeralPush([b3, b2, b1], b0);
    assert [b3, b2] + [b1] == [b3, b2, b1] && [b3, b2, b1] + [b0] == [b3, b2, b1, b0];
  }

  lemma SplitIsNumeral(x: u32)
    ensures Numeral(SplitBig(x)) == x
  {
    var b := SplitBig(x);
    JoinIsNumeral(b[0], b[1], b[2], b[3]);
    assert b == [b[0], b[1], b[2], b[3]];
  }
}
