/**
 How wide a triangle is on its scanlines, its edges being rounded: away from the middle corner it gets no
 wider, but for one pixel, and a width of nearly 32768 changes too fast for that pixel to appear further away.
 */
module Widths {
  import opened Arith
  import opened Edges

  /** Two crossings this far apart still make a span whose width fits. */
  const FAR := 0x7ffe

  lemma StepBounds(dx: int, h: nat, k: nat)
    requires h > 0
    ensures dx >= 0 ==> k * dx - h < Step(dx, h, k) * h <= k * dx
    ensures dx <= 0 ==> k * dx <= Step(dx, h, k) * h < k * dx + h
  {
    var m := Abs(dx);
    var s := Share(k, m, h);
    StepIs(dx, h, k);
    ShareIs(k, m, h, s);
    hide Share, Step, Times;
    TimesSigned(k, dx);
    Negated(s, h);
    assert Times(k, m) == k * m by {
      TimesIs(k, m);
    }
    if dx == 0 {
      ShareSimple(k, m, h);
    }
  }

  lemma TimesIs(k: nat, m: nat)
    ensures Times(k, m) == k * m
  {
  }

  lemma Negated(s: int, h: int)
    ensures (-s) * h == -(s * h)
  {
  }

  lemma StepMirrored(dx: int, h: nat, k: nat)
    requires h > 0
    ensures Step(-dx, h, k) == -Step(dx, h, k)
  {
    StepIs(dx, h, k);
    StepIs(-dx, h, k);
    ShareSimple(k, Abs(dx), h);
    hide Share, Step;
  }

  /**
   k of g scanlines away from where two edges meet they cannot be that far apart, unless they are further apart
   after g.
   */
  lemma FartherAtEnd(x: int, k: nat, g: nat, h: nat)
    requires x >= 0 && k + 2 <= g <= 0xfffe && h >= 1 && k * x > FAR * (g * h)
    ensures x >= (FAR + 1) * h
  {
    if x < (FAR + 1) * h {
      var p := g * h;
      TimesMonotone(k, g - 2, x);
      TimesMonotone(x, (FAR + 1) * h, g - 2);
      assert (g - 2) * x == x * (g - 2);
      assert (FAR + 1) * h * (g - 2) == (FAR + 1) * (p - 2 * h);
      TimesMonotone(g, 2 * FAR + 2, h);
    }
  }

  /** Two rounded quotients are less than one further apart than the exact ones. */
  lemma RoundedApart(sB: int, sA: int, b: int, a: int, g: nat, h: nat)
    requires g > 0 && h > 0 && ((sB * h <= b && sA * g > a - g) || (sB * h < b + h && sA * g >= a))
    ensures (sB - sA) * (g * h) < b * g - a * h + g * h
  {
    var p := g * h;
    assert sB * p == (sB * h) * g && sA * p == (sA * g) * h;
    assert (sB - sA) * p == sB * p - sA * p;
    if sB * h <= b && sA * g > a - g {
      TimesMonotone(sB * h, b, g);
      TimesMonotone(a - g + 1, sA * g, h);
      assert (a - g + 1) * h == a * h - p + h;
    } else {
      TimesMonotone(sB * h, b + h - 1, g);
      TimesMonotone(a, sA * g, h);
      assert (b + h - 1) * g == b * g + p - g;
    }
  }

  /** Two rounded quotients in order are not more than one out of order. */
  lemma RoundedInOrder(sB: int, sA: int, b: int, a: int, g: nat, h: nat)
    requires g > 0 && h > 0 && sB * h > b - h && sA * g < a + g && b * g >= a * h
    ensures sB - sA > -2
  {
    var p := g * h;
    assert sB * p == (sB * h) * g && sA * p == (sA * g) * h;
    TimesMonotone(b - h + 1, sB * h, g);
    TimesMonotone(sA * g, a + g - 1, h);
    assert (b - h + 1) * g == b * g - p + g && (a + g - 1) * h == a * h + p - h;
    assert (sB - sA) * p == sB * p - sA * p;
    TimesMonotone(sB - sA, -2, p);
  }

  /** An edge that goes to the left and is left behind by another one: that goes to the left, too. */
  lemma BelowZero(dxA: int, g: nat, dxB: int, h: nat)
    requires g > 0 && h > 0 && g * dxB >= h * dxA
    ensures dxB < 0 ==> dxA < 0
  {
    if dxB < 0 {
      TimesMonotone(dxB, -1, g);
      TimesMonotone(0, dxA, h);
    }
  }

  /**
   x / h is how far apart the exact edges are in the end, and k of g of that here; the rounded ones are not too
   far apart.
   */
  lemma Apart(sA: int, sB: int, end: int, a: int, b: int, dxA: int, x: int, k: nat, g: nat, h: nat)
    requires k + 2 <= g <= 0xfffe && h > 0 && x >= 0 && b * g - a * h == k * x
    requires (sB * h <= b && sA * g > a - g) || (sB * h < b + h && sA * g >= a)
    requires sB * h > b - h && sA * g < a + g
    requires end * h > x + h * dxA - h && end - dxA <= FAR
    ensures -2 < sB - sA <= FAR
  {
    TimesMonotone(0, x, k);
    assert k * x == x * k;
    RoundedInOrder(sB, sA, b, a, g, h);
    RoundedApart(sB, sA, b, a, g, h);
    if sB - sA > FAR {
      TimesMonotone(FAR + 1, sB - sA, g * h);
      FartherAtEnd(x, k, g, h);
      TooFarAtEnd(end, dxA, x, h);
    }
  }

  lemma TooFarAtEnd(s: int, dxA: int, x: int, h: nat)
    requires h > 0 && s * h > x + h * dxA - h && x >= (FAR + 1) * h
    ensures s - dxA > FAR
  {
    TimesMonotone(s - dxA, FAR, h);
    assert (s - dxA) * h == s * h - h * dxA;
  }

  lemma UpperProducts(dxA: int, g: int, dxB: int, h: int, k: int)
    ensures k * dxB * g - k * dxA * h == k * (g * dxB - h * dxA)
  {
  }

  /**
   A is the upper short edge and B the long one, to the right of A: above the middle corner they come no
   further apart.
   */
  lemma UpperApart(dxA: int, g: nat, dxB: int, h: nat, k: nat)
    requires k + 2 <= g <= h && g <= 0xfffe && g * dxB >= h * dxA && Step(dxB, h, g) - dxA <= FAR
    ensures -2 < Step(dxB, h, k) - Step(dxA, g, k) <= FAR
  {
    hide Step;
    StepBounds(dxA, g, k);
    StepBounds(dxB, h, k);
    StepBounds(dxB, h, g);
    BelowZero(dxA, g, dxB, h);
    UpperProducts(dxA, g, dxB, h, k);
    Apart(Step(dxA, g, k), Step(dxB, h, k), Step(dxB, h, g), k * dxA, k * dxB, dxA, g * dxB - h * dxA, k, g, h);
  }

  lemma LowerProducts(dxA: int, g: int, dxB: int, h: int, k: int)
    ensures ((g + k) * dxB - (g + h) * dxA) * h - k * (dxB - dxA) * (g + h) == (h - k) * (g * dxB - (g + h) * dxA)
  {
  }

  lemma ShiftedProduct(s: int, d: int, n: int)
    ensures (s - d) * n == s * n - n * d
  {
  }

  lemma ShareGrows(k: nat, k': nat, m: nat, d: nat)
    requires k <= k' && d > 0
    ensures Share(k, m, d) <= Share(k', m, d)
  {
    hide Share;
    var s := Share(k, m, d);
    ShareIs(k, m, d, s);
    ShareAtLeast(k', m, d, s);
    TimesMonotone(k, k', m);
  }

  /** Two edges that come nearer to each other from either side. */
  lemma OpposedApart(dxB: int, n: nat, g: nat, k: nat, dxC: int, h: nat)
    requires n > 0 && h > 0 && dxB < 0 < dxC
    ensures Step(dxB, n, g + k) - Step(dxC, h, k) <= Step(dxB, n, g)
  {
    hide Share, Step;
    StepIs(dxB, n, g);
    StepIs(dxB, n, g + k);
    StepIs(dxC, h, k);
    ShareGrows(g, g + k, -dxB, n);
  }

  lemma LowerRounded(dxA: int, g: nat, dxB: int, h: nat, k: nat)
    requires 2 <= k <= h <= 0xfffe && g * dxB >= (g + h) * dxA && !(dxB < 0 < dxB - dxA)
    requires Step(dxB, g + h, g) - dxA <= FAR
    ensures -2 < Step(dxB, g + h, g + k) - dxA - Step(dxB - dxA, h, k) <= FAR
  {
    hide Step;
    var dxC, n := dxB - dxA, g + h;
    StepBounds(dxC, h, k);
    StepBounds(dxB, n, g + k);
    StepBounds(dxB, n, g);
    LowerProducts(dxA, g, dxB, h, k);
    ShiftedProduct(Step(dxB, n, g + k), dxA, n);
    var sC, sB := Step(dxC, h, k), Step(dxB, n, g + k) - dxA;
    var c, b, x := k * dxC, (g + k) * dxB - n * dxA, g * dxB - n * dxA;
    Apart(sC, sB, Step(dxB, n, g), c, b, dxA, x, h - k, h, n);
  }

  lemma LowerInOrder(dxA: int, g: nat, dxB: int, h: nat, k: nat)
    requires 2 <= k <= h && g * dxB >= (g + h) * dxA
    ensures -2 < Step(dxB, g + h, g + k) - dxA - Step(dxB - dxA, h, k)
  {
    hide Step;
    var dxC, n := dxB - dxA, g + h;
    StepBounds(dxC, h, k);
    StepBounds(dxB, n, g + k);
    LowerProducts(dxA, g, dxB, h, k);
    ShiftedProduct(Step(dxB, n, g + k), dxA, n);
    var sC, sB := Step(dxC, h, k), Step(dxB, n, g + k) - dxA;
    var c, b, x := k * dxC, (g + k) * dxB - n * dxA, g * dxB - n * dxA;
    TimesMonotone(0, x, h - k);
    assert x * (h - k) == (h - k) * x;
    RoundedInOrder(sB, sC, b, c, h, n);
  }

  /** C is the lower short edge; below the middle corner they come no further apart, either. */
  lemma LowerApart(dxA: int, g: nat, dxB: int, h: nat, k: nat)
    requires 2 <= k <= h <= 0xfffe && g * dxB >= (g + h) * dxA && Step(dxB, g + h, g) - dxA <= FAR
    ensures -2 < Step(dxB, g + h, g + k) - dxA - Step(dxB - dxA, h, k) <= FAR
  {
    hide Step;
    if dxB < 0 < dxB - dxA {
      OpposedApart(dxB, g + h, g, k, dxB - dxA, h);
      LowerInOrder(dxA, g, dxB, h, k);
    } else {
      LowerRounded(dxA, g, dxB, h, k);
    }
  }

  lemma MirroredProducts(g: int, dxB: int, h: int, dxA: int)
    ensures g * -dxB == -(g * dxB) && h * -dxA == -(h * dxA)
  {
  }

  /**
   Two or more scanlines above the middle corner the edges are no further apart than there, if that is not too
   far.
   */
  lemma UpperNarrow(dxA: int, g: nat, dxB: int, h: nat, k: nat)
    requires k + 2 <= g <= h && g <= 0xfffe && Abs(Step(dxB, h, g) - dxA) <= FAR
    ensures Abs(Step(dxB, h, k) - Step(dxA, g, k)) <= FAR
  {
    hide Step;
    MirroredProducts(g, dxB, h, dxA);
    if g * dxB >= h * dxA {
      UpperApart(dxA, g, dxB, h, k);
    } else {
      StepMirrored(dxB, h, g);
      StepMirrored(dxB, h, k);
      StepMirrored(dxA, g, k);
      UpperApart(-dxA, g, -dxB, h, k);
    }
  }

  /** The same for two or more scanlines below it. */
  lemma LowerNarrow(dxA: int, g: nat, dxB: int, h: nat, k: nat)
    requires 2 <= k <= h <= 0xfffe && Abs(Step(dxB, g + h, g) - dxA) <= FAR
    ensures Abs(Step(dxB, g + h, g + k) - dxA - Step(dxB - dxA, h, k)) <= FAR
  {
    hide Step;
    MirroredProducts(g, dxB, g + h, dxA);
    if g * dxB >= (g + h) * dxA {
      LowerApart(dxA, g, dxB, h, k);
    } else {
      StepMirrored(dxB, g + h, g);
      StepMirrored(dxB, g + h, g + k);
      StepMirrored(dxB - dxA, h, k);
      assert -(dxB - dxA) == -dxB - (-dxA);
      LowerApart(-dxA, g, -dxB, h, k);
    }
  }
}
