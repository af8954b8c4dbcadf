/** The six-byte balance envelope `[fraction, flags, dollars big-endian]`. */
module LegacyBalance {
  import opened Outcomes
  import opened Bytes
  import opened Words

  /** The flag bits 0x1f are known; bit 0 tells a quantity from a dollar value. */
  predicate KnownFlags(flags: byte) {
    flags < 0x20
  }

  predicate IsDollar(flags: byte) {
    flags % 2 == 0
  }

  datatype Envelope = Envelope(fraction: byte, flags: byte, dollars: u32) {
    predicate Valid() {
      KnownFlags(flags) && (IsDollar(flags) ==> fraction <= 99)
    }
  }

  /** Only valid envelopes can be built. */
  type Balance = e: Envelope | e.Valid() witness Envelope(0, 0, 0)

  datatype BalanceError = UnknownFlagBits | InvalidDollarCents

  function FromDiskBytes(b: seq<byte>): Result<Balance, BalanceError>
    requires |b| == 6
  {
    if !KnownFlags(b[1]) then Err(UnknownFlagBits)
    else if IsDollar(b[1]) && b[0] > 99 then Err(InvalidDollarCents)
    else Ok(Envelope(b[0], b[1], JoinBig(b[2], b[3], b[4], b[5])))
  }

  function ToDiskBytes(x: Balance): (b: seq<byte>)
    ensures |b| == 6
  {
    [x.fraction, x.flags] + SplitBig(x.dollars)
  }

  /** Which envelopes are accepted, and where their parts stand. */
  lemma DiskLayout(b: seq<byte>)
    requires |b| == 6
    ensures FromDiskBytes(b).Ok? <==> b[1] <= 31 && (b[1] % 2 == 0 ==> b[0] < 100)
    ensures FromDiskBytes(b) == Err(UnknownFlagBits) <==> b[1] > 31
    ensures FromDiskBytes(b).Ok? ==>
      var x := FromDiskBytes(b).value;
      x.fraction == b[0] && x.flags == b[1] && x.dollars == Numeral(b[2..])
  {
    JoinIsNumeral(b[2], b[3], b[4], b[5]);
    assert b[2..] == [b[2], b[3], b[4], b[5]];
  }

  lemma DiskRoundTrip(x: Balance)
    ensures FromDiskBytes(ToDiskBytes(x)) == Ok(x)
  {
    var b, d := ToDiskBytes(x), SplitBig(x.dollars);
    assert b[2] == d[0] && b[3] == d[1] && b[4] == d[2] && b[5] == d[3];
  }

  lemma DiskBytesPreserved(b: seq<byte>)
    requires |b| == 6 && FromDiskBytes(b).Ok?
    ensures ToDiskBytes(FromDiskBytes(b).value) == b
  {
    SplitOfJoin(b[2], b[3], b[4], b[5]);
  }
}
