/** The types and the arithmetic used throughout. */
module Basics {

  datatype Option<+T> = None | Some(value: T)

  type byte = b: int | 0 <= b < 256

  type u32 = x: int | 0 <= x < 0x1_0000_0000

  function Wrap(x: int): u32 { x % 0x1_0000_0000 }

  function Add(a: int, b: int): u32 { Wrap(a + b) }

  lemma WrapTwice(a: int, b: int)
    ensures Wrap(Wrap(a) + b) == Wrap(a + b)
  {
  }

  /** A big-endian byte sequence as a number. */
  function Value(s: seq<byte>): nat {
    if s == [] then 0 else 256 * Value(s[..|s| - 1]) + s[|s| - 1]
  }

  function Power256(n: nat): nat { if n == 0 then 1 else 256 * Power256(n - 1) }

  lemma Scaled(d: int, size: int)
    requires size > 0
    ensures d >= 1 ==> d * size >= size
    ensures d <= -1 ==> d * size <= -size
  {
    if d >= 1 {
      assert (d - 1) * size >= 0;
    } else if d <= -1 {
      assert (d + 1) * size <= 0;
    }
  }

  lemma DivisionUnique(b: int, size: int, q: int, rest: int)
    requires size > 0 && b == q * size + rest && 0 <= rest < size
    ensures b / size == q && b % size == rest
  {
    Scaled(b / size - q, size);
  }
}
