/** Unsigned bytes with the wrapping arithmetic of Rust's `u8`. */
module Bytes {
  type byte = b: int | 0 <= b < 256

  function Wrap(x: int): byte {
    x % 256
  }

  function Add(a: byte, b: byte): byte {
    if a + b < 256 then a + b else a + b - 256
  }

  function Sub(a: byte, b: byte): byte {
    if b <= a then a - b else a - b + 256
  }

  function Mul(a: byte, b: byte): byte {
    Wrap(a * b)
  }

  /** Two integers that differ by a multiple of 256 wrap to the same byte. */
  lemma WrapMultiple(x: int, k: int)
    ensures Wrap(x + 256 * k) == Wrap(x)
  {
    var q := (x + 256 * k) / 256;
    assert x + 256 * k == 256 * q + Wrap(x + 256 * k);
    assert x == 256 * (q - k) + Wrap(x + 256 * k);
  }

  /** The index of a byte is truncated to `u8` before it is multiplied; the product does not notice. */
  lemma MulTruncated(i: nat, step: byte)
    ensures Mul(Wrap(i), step) == Wrap(i * step)
  {
    var q := i / 256;
    assert i == 256 * q + Wrap(i);
    assert i * step == Wrap(i) * step + 256 * (q * step);
    WrapMultiple(Wrap(i) * step, q * step);
  }

  lemma AddAssociative(a: byte, b: byte, c: byte)
    ensures Add(Add(a, b), c) == Add(a, Add(b, c))
  {
  }

  lemma AddThenSub(a: byte, b: byte, c: byte)
    ensures Sub(Add(a, b), c) == Add(a, Sub(b, c))
  {
  }

  /** The running multiple of a step grows by the step from one position to the next. */
  lemma MulNext(i: nat, step: byte)
    ensures Mul(Wrap(i + 1), step) == Add(Mul(Wrap(i), step), step)
  {
    MulTruncated(i, step);
    MulTruncated(i + 1, step);
    assert (i + 1) * step == i * step + step;
    WrapAdd(i * step, step);
  }

  lemma WrapAdd(x: nat, b: byte)
    ensures Wrap(x + b) == Add(Wrap(x), b)
  {
    var q := x / 256;
    assert x == 256 * q + Wrap(x);
    WrapMultiple(Wrap(x) + b, q);
    if Wrap(x) + b >= 256 {
      WrapMultiple(Wrap(x) + b - 256, 1);
    }
  }
}
