// Byte strings and the two wrapper types shared by every module.
module Base {
  newtype byte = x: int | 0 <= x < 256

  type Bytes = seq<byte>

  datatype Option<+T> = None | Some(value: T)

  function Zeros(n: nat): Bytes {
    seq(n, _ => 0)
  }

  function Min(a: int, b: int): int {
    if a <= b then a else b
  }

  const U64: nat := 0x1_0000_0000_0000_0000
  const ISIZE_MAX: nat := 0x7FFF_FFFF_FFFF_FFFF

  /** `usize` arithmetic, 64 bits wide and without overflow checks, as in the release profile. */
  function Wrap(n: int): nat {
    if 0 <= n < 0x1_0000_0000_0000_0000 then n else n % 0x1_0000_0000_0000_0000
  }

  /** What a call comes to: a value, or a panic. */
  datatype Outcome<+T> = Panicked | Returned(value: T)
}
