/** The narrow integers of C, and conversion to them. */
module Machine {
  import opened Arith

  type Uint8 = x: nat | x < 0x100

  function I8(v: int): int {
    (v + 0x80) % 0x100 - 0x80
  }

  predicate IsI16(v: int) {
    -0x8000 <= v < 0x8000
  }

  /** A value stored in an `int16_t`. */
  function I16(v: int): (r: int)
    ensures IsI16(r) && (IsI16(v) ==> r == v)
  {
    (v + 0x8000) % 0x1_0000 - 0x8000
  }

  /** One wrap-around. */
  lemma I16Once(v: int)
    requires -0x1_8000 <= v < 0x1_8000
    ensures I16(v) == if v < -0x8000 then v + 0x1_0000 else if v >= 0x8000 then v - 0x1_0000 else v
  {
  }

  lemma I16Shift(v: int, k: int)
    ensures I16(v - 0x1_0000 * k) == I16(v)
  {
    var m := v + 0x8000;
    var q := m / 0x1_0000;
    DivUnique(m, 0x1_0000, q);
    DivUnique(m - 0x1_0000 * k, 0x1_0000, q - k);
  }

  /** Wrapping an operand first does not change a sum. */
  lemma I16Add(a: int, b: int)
    ensures I16(I16(a) + b) == I16(a + b)
  {
    var q := (a + 0x8000) / 0x1_0000;
    assert I16(a) == a - 0x1_0000 * q;
    hide I16;
    I16Shift(a + b, q);
  }

  /** A loop variable in an `int16_t` after k increments. */
  function Counter(first: int, k: nat): int {
    I16(first + k)
  }

  /** A loop that counts from `first` until it is past `last` ends. */
  ghost predicate LoopEnds(first: int, last: int) {
    exists k: nat :: Counter(first, k) > last
  }

  /** It does unless `last` is the largest value there is. */
  lemma LoopEndsIff(first: int, last: int)
    requires IsI16(first) && IsI16(last)
    ensures LoopEnds(first, last) <==> last < 0x7fff
  {
    if last < 0x7fff {
      assert Counter(first, 0x7fff - first) == 0x7fff;
    }
  }

  predicate IsI32(v: int) {
    -0x8000_0000 <= v < 0x8000_0000
  }

  /** A value stored in a 32-bit `int`. */
  function I32(v: int): (r: int)
    ensures IsI32(r) && (IsI32(v) ==> r == v)
  {
    var u := v % 0x1_0000_0000;
    if u < 0x8000_0000 then u else u - 0x1_0000_0000
  }
}
