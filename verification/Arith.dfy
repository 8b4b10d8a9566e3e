/** Integer functions, and facts about multiplication and division that the solver does not find by itself. */
module Arith {

  function Min(a: int, b: int): int {
    if a < b then a else b
  }

  function Max(a: int, b: int): int {
    if a < b then b else a
  }

  function Abs(a: int): nat {
    if a < 0 then -a else a
  }

  function PowerOfTwo(k: nat): (r: nat)
    ensures r > 0
  {
    if k == 0 then 1 else 2 * PowerOfTwo(k - 1)
  }

  /** C's `/`, which rounds towards zero. */
  function Quot(a: int, d: int): int
    requires d != 0
  {
    if (a < 0) == (d < 0) then Abs(a) / Abs(d) else -(Abs(a) / Abs(d))
  }

  /** C's `%`, with the sign of the dividend. */
  function Rem(a: int, d: int): int
    requires d != 0
  {
    if a < 0 then -(Abs(a) % Abs(d)) else a % Abs(d)
  }

  lemma TimesMonotone(a: int, b: int, w: nat)
    ensures a <= b ==> a * w <= b * w
  {
    if a <= b {
      assert (b - a) * w >= 0;
    }
  }

  /** A quotient is the only integer whose multiple is next below. */
  lemma DivUnique(m: int, d: nat, q: int)
    requires d > 0
    ensures q == m / d <==> q * d <= m < q * d + d
  {
    var p := m / d;
    assert p * d <= m < p * d + d;
    TimesMonotone(q + 1, p, d);
    TimesMonotone(p + 1, q, d);
  }

  /** Products and quotients of natural numbers, each with what there is to know about it. */
  function Times(a: nat, b: nat): (r: nat) {
    TimesMonotone(0, a, b);
    a * b
  }

  function Div(m: nat, d: nat): (q: nat)
    requires d >= 1
    ensures q * d <= m < q * d + d && (d >= 2 ==> 2 * q <= m)
  {
    DivFacts(m, d);
    m / d
  }

  function Mod(m: nat, d: nat): (r: nat)
    requires d >= 1
    ensures r < d && Div(m, d) * d + r == m
  {
    m % d
  }

  lemma DivFacts(m: nat, d: nat)
    requires d >= 1
    ensures m / d * d + m % d == m && m / d * d <= m < m / d * d + d && (d >= 2 ==> 2 * (m / d) <= m)
  {
    var q := m / d;
    assert q * d + m % d == m;
    TimesMonotone(2, d, q);
  }

  lemma QuotientBound(m: nat, n: nat, e: nat)
    requires n > 0 && m <= e * n
    ensures 0 <= m / n <= e && (m == e * n ==> m / n == e)
  {
    var q := m / n;
    DivUnique(m, n, q);
    DivUnique(m, n, e);
    TimesMonotone(e + 1, q, n);
  }
}
