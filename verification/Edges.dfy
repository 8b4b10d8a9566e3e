/**
 One edge of a triangle in the 16-bit arithmetic of fillTriangle.

 The code keeps the width and the height of an edge in an `int16_t` each, so that of an edge wider or
 taller than that the sign is lost.  Here is where an edge then goes, and which edges go right all the same.
 */
module Edges {
  import opened Arith
  import opened Machine

  /** Equal in 16 bits. */
  predicate Alike(c: int, e: int) {
    (c - e) % 0x1_0000 == 0
  }

  lemma AlikeNear(c: int, e: int)
    ensures -0x1_0000 < c - e < 0x1_0000 ==> (Alike(c, e) <==> c == e)
    ensures c == e ==> Alike(c, e)
  {
    var d := c - e;
    if 0 < d < 0x1_0000 {
      assert d % 0x1_0000 == d;
    } else if -0x1_0000 < d < 0 {
      assert d % 0x1_0000 == d + 0x1_0000;
    }
  }

  lemma AlikeWraps(c: int, e: int)
    requires IsI16(e)
    ensures I16(c) == e <==> Alike(c, e)
  {
  }

  lemma AlikeMultiple(c: int, e: int) returns (j: int)
    requires Alike(c, e)
    ensures c - e == 0x1_0000 * j
  {
    j := (c - e) / 0x1_0000;
  }

  /** k shares of m in d, rounded down. */
  function Share(k: nat, m: nat, d: nat): (q: nat)
    requires d > 0
  {
    Div(Times(k, m), d)
  }

  lemma ShareIs(k: nat, m: nat, d: nat, q: nat)
    requires d > 0
    ensures Share(k, m, d) * d <= k * m < Share(k, m, d) * d + d
    ensures q == Share(k, m, d) <==> q * d <= k * m < q * d + d
  {
    DivUnique(Times(k, m), d, q);
    DivUnique(Times(k, m), d, Share(k, m, d));
  }

  /** At least as many as a multiple that fits. */
  lemma ShareAtLeast(k: nat, m: nat, d: nat, q: nat)
    requires d > 0
    ensures q <= Share(k, m, d) <==> q * d <= k * m
  {
    var s := Share(k, m, d);
    ShareIs(k, m, d, s);
    TimesMonotone(q, s, d);
    TimesMonotone(s + 1, q, d);
  }

  function Signed(negative: bool, m: int): int {
    if negative then -m else m
  }

  lemma ShareOfNone(d: nat)
    requires d > 0
    ensures Div(0, d) == 0
  {
  }

  lemma TimesSigned(k: nat, w: int)
    ensures k * w == Signed(w < 0, Times(k, Abs(w)))
  {
  }

  lemma QuotTimes(k: nat, w: int, d: int)
    requires d != 0
    ensures Quot(k * w, d) == Signed((w < 0) != (d < 0), Share(k, Abs(w), Abs(d)))
  {
    var p, m := k * w, Times(k, Abs(w));
    TimesSigned(k, w);
    hide Times;
    assert Quot(p, d) == Signed((p < 0) != (d < 0), Div(Abs(p), Abs(d)));
    assert Share(k, Abs(w), Abs(d)) == Div(m, Abs(d));
    hide Quot, Share, Div;
    ShareOfNone(Abs(d));
  }

  /** How far an edge dx wide and dy high has gone k scanlines below its top. */
  function Step(dx: int, dy: int, k: nat): int
    requires dy > 0
  {
    Quot(k * dx, dy)
  }

  /** The same as the code has it. */
  function Step16(dx: int, dy: int, k: nat): int
    requires 0 < dy <= 0xffff
  {
    I16Once(dy);
    Quot(k * I16(dx), I16(dy))
  }

  lemma StepIs(dx: int, dy: int, k: nat)
    requires dy > 0
    ensures Step(dx, dy, k) == Signed(dx < 0, Share(k, Abs(dx), dy))
  {
    hide Quot, Share;
    QuotTimes(k, dx, dy);
  }

  /** A width that does not fit changes its sign, and so does a height. */
  lemma Step16Is(dx: int, dy: int, k: nat)
    requires -0xffff <= dx <= 0xffff && 0 < dy <= 0xffff
    ensures IsI16(dx) && IsI16(dy) ==> Step16(dx, dy, k) == Step(dx, dy, k)
    ensures !IsI16(dx) && IsI16(dy) ==> Step16(dx, dy, k) == Signed(dx >= 0, Share(k, 0x1_0000 - Abs(dx), dy))
    ensures IsI16(dx) && !IsI16(dy) ==> Step16(dx, dy, k) == Signed(dx >= 0, Share(k, Abs(dx), 0x1_0000 - dy))
    ensures !IsI16(dx) && !IsI16(dy) ==>
              Step16(dx, dy, k) == Signed(dx < 0, Share(k, 0x1_0000 - Abs(dx), 0x1_0000 - dy))
  {
    I16Once(dx);
    I16Once(dy);
    hide I16, Quot, Share;
    QuotTimes(k, I16(dx), I16(dy));
  }

  // ---------------------------------------------------------------- a single edge

  /** An edge at 45 degrees that fits neither way: both signs are lost, and with the same ratio. */
  predicate Diagonal(dx: int, dy: int) {
    !IsI16(dx) && !IsI16(dy) && Abs(dx) == dy
  }

  /**
   The code follows the edge exactly on the scanlines 0, ..., last below its top: it is upright, or at most
   one scanline high, or fits, or is a diagonal, or is the one edge whose only sideways step is not drawn.
   */
  predicate EdgeFits(dx: int, dy: int, last: int) {
    || dx == 0
    || dy <= 1
    || (IsI16(dx) && IsI16(dy))
    || Diagonal(dx, dy)
    || (Abs(dx) == 1 && dy == 0x8000 && last < dy)
  }

  lemma ShareSimple(k: nat, m: nat, d: nat)
    requires d > 0
    ensures k == 0 || m == 0 ==> Share(k, m, d) == 0
    ensures k == 1 && d == 1 ==> Share(k, m, d) == m
    ensures m == 1 && k < d ==> Share(k, m, d) == 0
    ensures m == d ==> Share(k, m, d) == k
    ensures k == d ==> Share(k, m, d) == m
    ensures k == 1 && m < d ==> Share(k, m, d) == 0
    ensures k == 1 && d <= m < 2 * d ==> Share(k, m, d) == 1
  {
    ShareIs(k, m, d, 0);
    ShareIs(k, m, d, 1);
    ShareIs(k, m, d, m);
    ShareIs(k, m, d, k);
    hide Share;
    if k == 0 || m == 0 {
      assert k * m == 0;
    }
    assert d * m == m * d;
  }

  lemma EdgeRight(dx: int, dy: int, last: int, k: nat)
    requires -0xffff <= dx <= 0xffff && 1 <= dy <= 0xffff && k <= last <= dy && EdgeFits(dx, dy, last)
    ensures Alike(Step16(dx, dy, k), Step(dx, dy, k))
  {
    hide Share, Step, Step16, Alike, EdgeFits;
    AlikeAgain(Step(dx, dy, k));
    if IsI16(dx) && IsI16(dy) {
      Step16Is(dx, dy, k);
    } else if IsI16(dy) {
      LowRight(dx, dy, last, k);
    } else {
      TallRight(dx, dy, last, k);
    }
  }

  lemma LowRight(dx: int, dy: int, last: int, k: nat)
    requires -0xffff <= dx <= 0xffff && 1 <= dy <= 0x7fff && k <= last <= dy && EdgeFits(dx, dy, last) && !IsI16(dx)
    ensures Step16(dx, dy, k) - Step(dx, dy, k) in {0, 0x1_0000, -0x1_0000}
  {
    StepIs(dx, dy, k);
    Step16Is(dx, dy, k);
    hide Share, Step, Step16;
    ShareSimple(k, Abs(dx), 1);
    ShareSimple(k, 0x1_0000 - Abs(dx), 1);
  }

  lemma TallRight(dx: int, dy: int, last: int, k: nat)
    requires -0xffff <= dx <= 0xffff && 0x8000 <= dy <= 0xffff && k <= last <= dy && EdgeFits(dx, dy, last)
    ensures Step16(dx, dy, k) == Step(dx, dy, k)
  {
    StepIs(dx, dy, k);
    Step16Is(dx, dy, k);
    hide Share, Step, Step16;
    ShareSimple(k, Abs(dx), dy);
    if IsI16(dx) {
      ShareSimple(k, Abs(dx), 0x1_0000 - dy);
    } else {
      ShareSimple(k, 0x1_0000 - Abs(dx), 0x1_0000 - dy);
    }
  }

  lemma AlikeAgain(e: int)
    ensures Alike(e, e) && Alike(e - 0x1_0000, e) && Alike(e + 0x1_0000, e)
  {
  }

  lemma SharesAdd(p: nat, q: nat, h: nat, k: nat, m: nat, n: nat)
    requires p * h <= k * m && q * h <= k * n && k < h
    ensures m + n > 0 ==> p + q < m + n
  {
    assert (p + q) * h <= k * (m + n) by {
      assert (p + q) * h == p * h + q * h;
      assert k * (m + n) == k * m + k * n;
    }
    TimesMonotone(k + 1, h, m + n);
    assert (k + 1) * (m + n) == k * (m + n) + (m + n);
    TimesMonotone(m + n, p + q, h);
    assert h * (m + n) == (m + n) * h;
  }

  /**
   A width that does not fit over a height that does: the code goes the other way on every scanline between the
   ends.
   */
  lemma WideWrong(k: nat, m: nat, h: nat)
    requires 0x8000 <= m <= 0xffff && 2 <= h <= 0x7fff && 0 < k < h
    ensures Share(k, m, h) >= 1 && Share(k, m, h) + Share(k, 0x1_0000 - m, h) < 0x1_0000
  {
    hide Share;
    var p, q := Share(k, m, h), Share(k, 0x1_0000 - m, h);
    ShareAtLeast(k, m, h, 1);
    TimesMonotone(1, k, m);
    ShareIs(k, m, h, p);
    ShareIs(k, 0x1_0000 - m, h, q);
    SharesAdd(p, q, h, k, m, 0x1_0000 - m);
  }

  /** Neither fits: one scanline down the code has made a step where the edge has made none, or none where it has. */
  lemma BothWrong(m: nat, h: nat)
    requires 0x8000 <= m <= 0xffff && 0x8000 <= h <= 0xffff && m != h
    ensures m > h ==> Share(1, m, h) == 1 && Share(1, 0x1_0000 - m, 0x1_0000 - h) == 0
    ensures m < h ==> Share(1, m, h) == 0 && 1 <= Share(1, 0x1_0000 - m, 0x1_0000 - h) <= 0x8000
  {
    var u, v := 0x1_0000 - m, 0x1_0000 - h;
    ShareSimple(1, m, h);
    ShareSimple(1, u, v);
    ShareAtLeast(1, u, v, 1);
    ShareUpTo(1, u, v);
    hide Share;
  }

  lemma ShareUpTo(k: nat, m: nat, d: nat)
    requires d > 0
    ensures Share(k, m, d) <= k * m
    ensures d >= 2 ==> 2 * Share(k, m, d) <= k * m
    ensures k <= d ==> Share(k, m, d) <= m
    ensures m <= d ==> Share(k, m, d) <= k
  {
    var s := Share(k, m, d);
    ShareIs(k, m, d, s);
    hide Share;
    TimesMonotone(1, d, s);
    TimesMonotone(2, d, s);
    TimesMonotone(k, d, m);
    TimesMonotone(m, d, k);
    TimesMonotone(m + 1, s, d);
    TimesMonotone(k + 1, s, d);
    assert d * s == s * d && d * m == m * d && d * k == k * d && m * k == k * m;
    assert (m + 1) * d == m * d + d && (k + 1) * d == k * d + d;
  }

  /** The first scanline on which k shares of m make up d. */
  function First(m: nat, d: nat): (k: nat)
    requires m > 0 && d > 0
    ensures 1 <= k <= d && d <= k * m < d + m && (m >= 2 ==> 2 * k <= d + 1) && (m >= d ==> k == 1)
  {
    var k := (d + m - 1) / m;
    FirstFacts(m, d, k);
    k
  }

  lemma FirstFacts(m: nat, d: nat, k: nat)
    requires m > 0 && d > 0 && k == (d + m - 1) / m
    ensures 1 <= k <= d && d <= k * m < d + m && (m >= 2 ==> 2 * k <= d + 1) && (m >= d ==> k == 1)
  {
    DivUnique(d + m - 1, m, k);
    DivUnique(d + m - 1, m, 1);
    DivUnique(d + m - 1, m, 0);
    FirstBelow(m, d, k);
  }

  lemma FirstBelow(m: nat, d: nat, k: nat)
    requires m > 0 && d > 0 && k * m < d + m
    ensures k <= d && (m >= 2 ==> 2 * k <= d + 1)
  {
    var p := k * m;
    if k >= 1 {
      assert (k - 1) * m == p - m;
      TimesMonotone(1, m, k - 1);
      TimesMonotone(2, m, k - 1);
      assert m * (k - 1) == (k - 1) * m;
    }
  }

  /** A height that does not fit: the first step of the code is to the wrong side. */
  lemma TallWrong(m: nat, h: nat)
    requires 1 <= m <= 0x8000 <= h <= 0xffff
    ensures var k := First(m, 0x1_0000 - h);
            1 <= Share(k, m, 0x1_0000 - h) && Share(k, m, 0x1_0000 - h) + Share(k, m, h) <= 0x8001
  {
    var v := 0x1_0000 - h;
    var k := First(m, v);
    ShareAtLeast(k, m, v, 1);
    ShareAtLeast(k, m, v, 2);
    ShareAtLeast(k, m, h, 2);
    ShareUpTo(k, m, v);
    hide Share, First;
  }

  /** On some scanline the code is beside every other edge. */
  lemma EdgeWrong(dx: int, dy: int, last: int) returns (k: nat)
    requires -0xffff <= dx <= 0xffff && 1 <= dy <= 0xffff && dy - 1 <= last <= dy && !EdgeFits(dx, dy, last)
    ensures 1 <= k <= last && !Alike(Step16(dx, dy, k), Step(dx, dy, k))
  {
    hide Share, Step, Step16, Alike;
    var m := Abs(dx);
    k := if IsI16(dx) then First(m, 0x1_0000 - dy) else 1;
    StepIs(dx, dy, k);
    Step16Is(dx, dy, k);
    AlikeNear(Step16(dx, dy, k), Step(dx, dy, k));
    if IsI16(dx) {
      TallWrong(m, dy);
    } else if IsI16(dy) {
      WideWrong(1, m, dy);
    } else {
      BothWrong(m, dy);
    }
  }

  lemma EdgeExactIff(dx: int, dy: int, last: int)
    requires -0xffff <= dx <= 0xffff && 1 <= dy <= 0xffff && dy - 1 <= last <= dy
    ensures (forall k: nat :: k <= last ==> Alike(Step16(dx, dy, k), Step(dx, dy, k))) <==> EdgeFits(dx, dy, last)
  {
    hide Step, Step16, Alike;
    if EdgeFits(dx, dy, last) {
      forall k: nat | k <= last
        ensures Alike(Step16(dx, dy, k), Step(dx, dy, k))
      {
        EdgeRight(dx, dy, last, k);
      }
    } else {
      var k := EdgeWrong(dx, dy, last);
    }
  }

  // ---------------------------------------------------------------- two edges on a scanline

  /** Two crossings close enough for one span, and the code has the same two, possibly exchanged. */
  predicate Same(a: int, a': int, b: int, b': int) {
    Abs(a - b) < 0x7fff && ((Alike(a', a) && Alike(b', b)) || (Alike(a', b) && Alike(b', a)))
  }

  lemma AlikeChain(a: int, b: int, c: int)
    requires Alike(a, b)
    ensures Alike(b, a) && (Alike(b, c) <==> Alike(a, c))
  {
  }

  /** One crossing right and one wrong is not the same. */
  lemma OneWrong(a: int, a': int, b: int, b': int)
    requires Same(a, a', b, b')
    ensures Alike(a', a) <==> Alike(b', b)
  {
    hide Alike;
    AlikeNear(a, b);
    if Alike(a', a) {
      AlikeChain(a', a, b);
    }
    if Alike(b', b) {
      AlikeChain(b', b, a);
      AlikeNear(b, a);
    }
  }

  /** The crossings of two edges, the second one starting o to the right of the first. */
  predicate Meets(dxA: int, hA: int, kA: nat, dxB: int, hB: int, kB: nat, o: int)
    requires 0 < hA <= 0xffff && 0 < hB <= 0xffff
  {
    Same(Step(dxA, hA, kA), Step16(dxA, hA, kA), o + Step(dxB, hB, kB), o + Step16(dxB, hB, kB))
  }
}
