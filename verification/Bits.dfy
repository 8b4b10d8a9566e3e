/** A byte as its eight bits, least significant first, with C's bitwise operators. */
module Bits {
  import opened Arith

  type Byte = b: seq<bool> | |b| == 8 witness [false, false, false, false, false, false, false, false]

  /** The byte holding the low eight bits of `n`. */
  function Octet(n: nat): Byte {
    seq(8, k requires 0 <= k < 8 => n / PowerOfTwo(k) % 2 == 1)
  }

  function Or(a: Byte, b: Byte): Byte {
    seq(8, k requires 0 <= k < 8 => a[k] || b[k])
  }

  function And(a: Byte, b: Byte): Byte {
    seq(8, k requires 0 <= k < 8 => a[k] && b[k])
  }

  function Xor(a: Byte, b: Byte): Byte {
    seq(8, k requires 0 <= k < 8 => a[k] != b[k])
  }

  function Not(a: Byte): Byte {
    seq(8, k requires 0 <= k < 8 => !a[k])
  }

  /** `a << n`, truncated to a byte */
  function Shl(a: Byte, n: nat): Byte {
    seq(8, k requires 0 <= k < 8 => n <= k && a[k - n])
  }

  /** `a >> n` */
  function Shr(a: Byte, n: nat): Byte {
    seq(8, k requires 0 <= k < 8 => k + n < 8 && a[k + n])
  }
}
