/**
 Two edges of a triangle that the code follows wrongly at the same time.

 A span is the same when its two crossings are exchanged, so that two wrong edges could hide each
 other.  They do so for one family of triangles only, those of `Mirrored`.
 */
module EdgePairs {
  import opened Arith
  import opened Machine
  import opened Edges

  /** Differences of coordinates in 16 bits. */
  predicate Spread(dxA: int, dxB: int) {
    -0xffff <= dxA <= 0xffff && -0xffff <= dxB <= 0xffff && -0xffff <= dxA - dxB <= 0xffff
  }

  /** Two edges of height 32768 that lean equally far to either side: the code exchanges them. */
  predicate Mirrored(dxA: int, dxB: int, h: int) {
    h == 0x8000 && dxA == -dxB && IsI16(dxA) && IsI16(dxB)
  }

  // ---------------------------------------------------------------- from a common top to one scanline

  /** Both too wide: on the first scanline the code is on the wrong side of the top with both. */
  lemma WidePair(dxA: int, dxB: int, h: nat)
    requires Spread(dxA, dxB) && 2 <= h <= 0x7fff && !IsI16(dxA) && !IsI16(dxB)
    ensures !Meets(dxA, h, 1, dxB, h, 1, 0)
  {
    StepIs(dxA, h, 1);
    StepIs(dxB, h, 1);
    Step16Is(dxA, h, 1);
    Step16Is(dxB, h, 1);
    hide Share, Step, Step16, Alike;
    WideWrong(1, Abs(dxA), h);
    WideWrong(1, Abs(dxB), h);
    ShareUpTo(1, 0x1_0000 - Abs(dxA), h);
    ShareUpTo(1, Abs(dxB), h);
    AlikeNear(Step16(dxA, h, 1), Step(dxA, h, 1));
    AlikeNear(Step16(dxA, h, 1), Step(dxB, h, 1));
  }

  /** What the shares come to when both pairs are exchanged on scanline 65536 - h. */
  lemma ExchangedSlopes(d1: nat, d2: nat, v: nat, h: nat)
    requires 1 <= d1 && 1 <= d2 && v <= h
    requires (v + d2) * h <= v * (h + d1) && d1 <= v && v * (h - d2) < (v - d1 + 1) * h
    ensures v == h && d1 == d2
  {
    assert (v + d2) * h == v * h + d2 * h && v * (h + d1) == v * h + v * d1;
    assert v * (h - d2) == v * h - v * d2 && (v - d1 + 1) * h == v * h - (d1 - 1) * h;
    TimesMonotone(v, h, d1);
    TimesMonotone(v, h, d2);
    assert h * d1 == d1 * h && h * d2 == d2 * h;
    if d2 > d1 { TimesMonotone(d1 + 1, d2, h); }
    if d1 - 1 >= d2 { TimesMonotone(d2, d1 - 1, h); }
    if v < h { TimesMonotone(v + 1, h, d1); }
  }

  /** Neither fits in either direction, one edge flatter and one steeper than 45 degrees. */
  lemma CrossedPairAt(m1: nat, m2: nat, h: nat)
    requires 0x8000 <= m2 < h < m1 <= 0xffff
    ensures var u1, u2, v := 0x1_0000 - m1, 0x1_0000 - m2, 0x1_0000 - h;
            && Share(v, u2, v) != Share(v, m2, h)
            && (Share(v, u1, v) != Share(v, m2, h) || Share(v, u2, v) != Share(v, m1, h))
            && Share(v, u1, v) <= 0x8000 && Share(v, u2, v) <= 0x8000
            && Share(v, m1, h) <= 0xffff && Share(v, m2, h) <= 0xffff
  {
    var u1, u2, v := 0x1_0000 - m1, 0x1_0000 - m2, 0x1_0000 - h;
    ShareSimple(v, u1, v);
    ShareSimple(v, u2, v);
    ShareIs(v, m1, h, u2);
    ShareIs(v, m2, h, u1);
    ShareUpTo(v, m1, h);
    ShareUpTo(v, m2, h);
    hide Share;
    if u1 == Share(v, m2, h) && u2 == Share(v, m1, h) {
      ExchangedSlopes(m1 - h, h - m2, v, h);
    }
  }

  /** Neither edge fits in either direction. */
  lemma CrossedPair(dxA: int, dxB: int, h: nat) returns (k: nat)
    requires Spread(dxA, dxB) && 0x8000 <= h <= 0xfffe && !IsI16(dxA) && !IsI16(dxB) && Abs(dxA) != h && Abs(dxB) != h
    ensures k <= h && !Meets(dxA, h, k, dxB, h, k, 0)
  {
    hide Share, Step, Step16, Alike;
    k := if (Abs(dxA) > h) == (Abs(dxB) > h) then 1 else 0x1_0000 - h;
    StepIs(dxA, h, k);
    StepIs(dxB, h, k);
    Step16Is(dxA, h, k);
    Step16Is(dxB, h, k);
    AlikeNear(Step16(dxA, h, k), Step(dxA, h, k));
    AlikeNear(Step16(dxA, h, k), Step(dxB, h, k));
    AlikeNear(Step16(dxB, h, k), Step(dxA, h, k));
    AlikeNear(Step16(dxB, h, k), Step(dxB, h, k));
    if k == 1 {
      BothWrong(Abs(dxA), h);
      BothWrong(Abs(dxB), h);
    } else if Abs(dxA) > h {
      CrossedPairAt(Abs(dxA), Abs(dxB), h);
    } else {
      CrossedPairAt(Abs(dxB), Abs(dxA), h);
    }
  }

  /** Two edges too high, leaning to the same side. */
  lemma TallPairOneSide(dxA: int, dxB: int, h: nat) returns (k: nat)
    requires 0x8000 <= h <= 0xfffe && IsI16(dxA) && IsI16(dxB) && dxA != 0 && dxB != 0 && (dxA < 0) == (dxB < 0)
    ensures k <= h && !Meets(dxA, h, k, dxB, h, k, 0)
  {
    hide Share, Step, Step16, Alike;
    var m1, m2, v := Abs(dxA), Abs(dxB), 0x1_0000 - h;
    k := if m1 == 0x8000 && m2 == 0x8000 then 1 else v;
    StepIs(dxA, h, k);
    StepIs(dxB, h, k);
    Step16Is(dxA, h, k);
    Step16Is(dxB, h, k);
    AlikeNear(Step16(dxA, h, k), Step(dxA, h, k));
    AlikeNear(Step16(dxA, h, k), Step(dxB, h, k));
    AlikeNear(Step16(dxB, h, k), Step(dxA, h, k));
    AlikeNear(Step16(dxB, h, k), Step(dxB, h, k));
    ShareUpTo(k, m1, h);
    ShareUpTo(k, m2, h);
    ShareSimple(v, m1, v);
    ShareSimple(v, m2, v);
    if k == 1 {
      ShareUpTo(1, 0x8000, v);
      ShareAtLeast(1, 0x8000, v, 1);
      ShareAtLeast(1, 0x8000, h, 2);
    }
  }

  lemma EqualShares(m1: nat, m2: nat, v: nat, h: nat)
    requires 1 <= v <= h && m1 >= 1 && m1 == Share(v, m2, h) && m2 == Share(v, m1, h)
    ensures m1 == m2 && v == h
  {
    ShareUpTo(v, m1, h);
    ShareUpTo(v, m2, h);
    ShareIs(v, m1, h, m1);
    hide Share;
    TimesMonotone(v + 1, h, m1);
    assert h * m1 == m1 * h && (v + 1) * m1 == v * m1 + m1;
  }

  /** Leaning to either side, they are exchanged only if they are mirror images of height 32768. */
  lemma TallPairTwoSides(dxA: int, dxB: int, h: nat) returns (k: nat)
    requires 0x8000 <= h <= 0xfffe && IsI16(dxA) && IsI16(dxB) && dxA != 0 && dxB != 0 && (dxA < 0) != (dxB < 0)
    requires !Mirrored(dxA, dxB, h)
    ensures k <= h && !Meets(dxA, h, k, dxB, h, k, 0)
  {
    hide Share, Step, Step16, Alike;
    var m1, m2 := Abs(dxA), Abs(dxB);
    k := 0x1_0000 - h;
    StepIs(dxA, h, k);
    StepIs(dxB, h, k);
    Step16Is(dxA, h, k);
    Step16Is(dxB, h, k);
    AlikeNear(Step16(dxA, h, k), Step(dxA, h, k));
    AlikeNear(Step16(dxA, h, k), Step(dxB, h, k));
    AlikeNear(Step16(dxB, h, k), Step(dxA, h, k));
    AlikeNear(Step16(dxB, h, k), Step(dxB, h, k));
    ShareUpTo(k, m1, h);
    ShareUpTo(k, m2, h);
    ShareSimple(k, m1, k);
    ShareSimple(k, m2, k);
    if m1 == Share(k, m2, h) && m2 == Share(k, m1, h) {
      EqualShares(m1, m2, k, h);
    }
  }

  /** Two scanlines down an edge that fits in neither direction is wrong too. */
  lemma BothWrongTwice(m: nat, h: nat)
    requires 0x8000 <= m <= 0xffff && 0x8000 <= h <= 0xfffe && m != h
    ensures var e, c := Share(2, m, h), Share(2, 0x1_0000 - m, 0x1_0000 - h);
            1 <= e <= 3 && c <= 0x8000 && (if m > h then c <= 1 && 2 <= e else e == 1 && 2 <= c)
  {
    hide Share;
    var u, v := 0x1_0000 - m, 0x1_0000 - h;
    ShareAtLeast(2, m, h, 1);
    ShareAtLeast(2, m, h, 2);
    ShareAtLeast(2, m, h, 4);
    ShareAtLeast(2, u, v, 2);
    ShareUpTo(2, u, v);
  }

  /** A flat edge has gone one step the code's way when the true one has gone k at least. */
  lemma FirstOfFlat(m: nat, h: nat)
    requires 0x8000 <= h < m <= 0xffff
    ensures var k := First(0x1_0000 - m, 0x1_0000 - h);
            && 2 <= k <= 0x1_0000 - h && Share(k, 0x1_0000 - m, 0x1_0000 - h) == 1 && k <= Share(k, m, h) <= 0xffff
  {
    hide Share;
    var u, v := 0x1_0000 - m, 0x1_0000 - h;
    var k := First(u, v);
    ShareIs(k, u, v, 1);
    ShareAtLeast(k, m, h, k);
    TimesMonotone(h, m, k);
    ShareUpTo(k, m, h);
  }

  /** One edge too high only, the other one too wide as well. */
  lemma MixedPair(dxA: int, dxB: int, h: nat) returns (k: nat)
    requires Spread(dxA, dxB) && 0x8000 <= h <= 0xfffe && IsI16(dxA) && dxA != 0 && !IsI16(dxB) && Abs(dxB) != h
    ensures k <= h && !Meets(dxA, h, k, dxB, h, k, 0) && !Meets(dxB, h, k, dxA, h, k, 0)
  {
    hide Share, Step, Step16, Alike, First;
    var m1, m2, v := Abs(dxA), Abs(dxB), 0x1_0000 - h;
    var u2 := 0x1_0000 - m2;
    var second := (dxA < 0) == (dxB < 0) || m2 < h;
    k := if second then 2 else First(u2, v);
    StepIs(dxA, h, k);
    StepIs(dxB, h, k);
    Step16Is(dxA, h, k);
    Step16Is(dxB, h, k);
    AlikeNear(Step16(dxA, h, k), Step(dxB, h, k));
    AlikeNear(Step16(dxB, h, k), Step(dxA, h, k));
    AlikeNear(Step16(dxB, h, k), Step(dxB, h, k));
    if second {
      BothWrongTwice(m2, h);
      ShareUpTo(2, m1, v);
      ShareUpTo(2, m1, h);
    } else {
      FirstOfFlat(m2, h);
      ShareUpTo(k, m1, h);
    }
  }

  /** A flat-bottomed triangle, its two edges going from one corner to the same scanline. */
  lemma FlatBottom(dxA: int, dxB: int, h: nat) returns (k: nat)
    requires Spread(dxA, dxB) && 1 <= h <= 0xfffe && !Mirrored(dxA, dxB, h)
    requires !EdgeFits(dxA, h, h) || !EdgeFits(dxB, h, h)
    ensures k <= h && !Meets(dxA, h, k, dxB, h, k, 0)
  {
    hide Meets, Step, Step16;
    if EdgeFits(dxA, h, h) || EdgeFits(dxB, h, h) {
      k := OneEdge(dxA, dxB, h, 0);
    } else if IsI16(h) {
      k := 1;
      WidePair(dxA, dxB, h);
    } else if IsI16(dxA) {
      if !IsI16(dxB) { k := MixedPair(dxA, dxB, h); }
      else if (dxA < 0) == (dxB < 0) { k := TallPairOneSide(dxA, dxB, h); }
      else { k := TallPairTwoSides(dxA, dxB, h); }
    } else {
      if IsI16(dxB) { k := MixedPair(dxB, dxA, h); }
      else { k := CrossedPair(dxA, dxB, h); }
    }
  }

  /** Two edges of the same height, one of them followed exactly. */
  lemma OneEdge(dxA: int, dxB: int, h: nat, o: int) returns (k: nat)
    requires Spread(dxA, dxB) && 1 <= h <= 0xffff && EdgeFits(dxA, h, h) != EdgeFits(dxB, h, h)
    ensures k <= h && !Meets(dxA, h, k, dxB, h, k, o)
  {
    if EdgeFits(dxA, h, h) {
      k := EdgeWrong(dxB, h, h);
      EdgeRight(dxA, h, h, k);
    } else {
      k := EdgeWrong(dxA, h, h);
      EdgeRight(dxB, h, h, k);
    }
    NotMet(dxA, h, k, dxB, h, k, o);
  }

  lemma NotMet(dxA: int, hA: nat, kA: nat, dxB: int, hB: nat, kB: nat, o: int)
    requires 0 < hA <= 0xffff && 0 < hB <= 0xffff
    requires Alike(Step16(dxA, hA, kA), Step(dxA, hA, kA)) != Alike(Step16(dxB, hB, kB), Step(dxB, hB, kB))
    ensures !Meets(dxA, hA, kA, dxB, hB, kB, o)
  {
    var a, a', b, b' := Step(dxA, hA, kA), Step16(dxA, hA, kA), Step(dxB, hB, kB), Step16(dxB, hB, kB);
    AlikeShift(b', b, o);
    hide Alike, Step, Step16, Same;
    if Same(a, a', o + b, o + b') {
      OneWrong(a, a', o + b, o + b');
    }
  }

  lemma AlikeShift(c: int, e: int, o: int)
    ensures Alike(c, e) <==> Alike(o + c, o + e)
  {
  }

  /** The code exchanges mirror images. */
  lemma MirrorsMeet(dxA: int, dxB: int, h: nat, k: nat)
    requires Mirrored(dxA, dxB, h)
    ensures Step16(dxA, h, k) == Step(dxB, h, k) && Step16(dxB, h, k) == Step(dxA, h, k)
  {
    hide Share, Step, Step16;
    ShareSimple(k, Abs(dxA), h);
    StepIs(dxA, h, k);
    StepIs(dxB, h, k);
    Step16Is(dxA, h, k);
    Step16Is(dxB, h, k);
  }

  // ---------------------------------------------------------------- from one scanline to a common bottom

  /**
   Both too wide: on the first scanline the code has moved away from the bottom with both, so they are not
   exchanged.
   */
  lemma WidePairDown(dxA: int, dxB: int, h: nat)
    requires Spread(dxA, dxB) && 2 <= h <= 0x7fff && !IsI16(dxA) && !IsI16(dxB)
    ensures !Meets(dxA, h, 1, dxB, h, 1, dxA - dxB)
  {
    hide Share, Step, Step16, Alike;
    StepIs(dxA, h, 1);
    StepIs(dxB, h, 1);
    Step16Is(dxA, h, 1);
    Step16Is(dxB, h, 1);
    WideWrong(1, Abs(dxA), h);
    WideWrong(1, Abs(dxB), h);
    HalfShares(Abs(dxA), h);
    HalfShares(Abs(dxB), h);
    var a, a', b, b' := Step(dxA, h, 1), Step16(dxA, h, 1), dxA - dxB + Step(dxB, h, 1), dxA - dxB + Step16(dxB, h, 1);
    AlikeNear(a', a);
    AlikeNear(a', b);
    AlikeNear(b', a);
  }

  lemma HalfShares(m: nat, h: nat)
    requires m <= 0x1_0000 && h >= 2
    ensures Share(1, m, h) + Share(1, 0x1_0000 - m, h) <= 0x8000
  {
    hide Share;
    ShareUpTo(1, m, h);
    ShareUpTo(1, 0x1_0000 - m, h);
  }

  lemma Products(s: nat, m: nat, q: nat, v: nat, n: nat)
    requires s + m == n * q
    ensures s * v + v * m == n * (q * v) && (n - v) * m == n * m - v * m
  {
    assert s * v + v * m == (s + m) * v;
  }

  /** The code comes out at the end of a too high edge only if its width is a multiple of the height it has. */
  lemma BottomDivides(m: nat, v: nat) returns (j: nat)
    requires 1 <= v <= 0x8000 && Alike(Share(0x1_0000 - v, m, v) + m, 0)
    ensures m == j * v
  {
    var s := Share(0x1_0000 - v, m, v);
    j := AlikeMultiple(s + m, 0);
    hide Share, Alike;
    Products(s, m, j, v, 0x1_0000);
    ShareIs(0x1_0000 - v, m, v, s);
  }

  lemma Multiple(j: nat, v: nat, m: nat)
    requires m == j * v && v >= 2
    ensures 2 * j <= m && (m >= 1 ==> j >= 1) && (m > v ==> j >= 2)
  {
    TimesMonotone(2, v, j);
    TimesMonotone(j, 1, v);
    assert v * j == j * v;
  }

  /** The edge is too high, and its width as the code has it is j times its height as the code has it. */
  predicate Folded(dx: int, h: int, j: nat) {
    && 0x8000 <= h <= 0xfffe && -0xffff <= dx <= 0xffff && dx != 0 && 1 <= j <= 0x4000
    && (if IsI16(dx) then Abs(dx) else 0x1_0000 - Abs(dx)) == Times(j, 0x1_0000 - h)
    && (!IsI16(dx) ==> j >= 2 && Abs(dx) < h)
  }

  lemma BottomRight(dx: int, h: nat) returns (j: nat)
    requires -0xffff <= dx <= 0xffff && 0x8000 <= h <= 0xfffe && !EdgeFits(dx, h, h) && Alike(Step16(dx, h, h), dx)
    ensures Folded(dx, h, j)
  {
    Step16Is(dx, h, h);
    hide Share, Step, Step16;
    var v := 0x1_0000 - h;
    var m := if IsI16(dx) then Abs(dx) else 0x1_0000 - Abs(dx);
    AlikeSum(Share(h, m, v), m);
    hide Alike;
    j := BottomDivides(m, v);
    Multiple(j, v, m);
    if m < v {
      TimesMonotone(1, j, v);
    }
  }

  lemma AlikeSum(s: int, m: int)
    ensures Alike(-s, m) || Alike(s, -m) || Alike(s, 0x1_0000 - m) || Alike(-s, m - 0x1_0000) ==> Alike(s + m, 0)
  {
  }

  lemma ProductsAbove(j: nat, v: nat, h: nat, m: nat)
    requires h >= 1
    ensures (h - 1) * m == (m - 1) * h + (h - m) && (h - 1) * (j * v) == (h - 1) * j * v
    ensures (h - 1) * j == h * j - j && j * v + h * j == (h + v) * j
  {
  }

  /** One scanline above the bottom the edge is one beside it, and the code is off by its multiple. */
  lemma OneAbove(dx: int, h: nat, j: nat)
    requires Folded(dx, h, j)
    ensures Step(dx, h, h - 1) == Signed(dx < 0, Abs(dx) - 1)
    ensures Alike(Step16(dx, h, h - 1), Step(dx, h, h - 1) + Signed(dx < 0, if IsI16(dx) then j + 1 else 1 - j))
  {
    hide Share, Step, Step16, Alike;
    var m, v := Abs(dx), 0x1_0000 - h;
    var w := j * v;
    StepIs(dx, h, h - 1);
    Step16Is(dx, h, h - 1);
    ProductsAbove(j, v, h, m);
    ShareIs(h - 1, m, h, m - 1);
    ShareIs(h - 1, w, v, (h - 1) * j);
    var c, e := Step16(dx, h, h - 1), Step(dx, h, h - 1) + Signed(dx < 0, if IsI16(dx) then j + 1 else 1 - j);
    assert c - e == 0x1_0000 * Signed((dx < 0) != IsI16(dx), if IsI16(dx) then j else j - 1);
    MultipleAlike(c, e, Signed((dx < 0) != IsI16(dx), if IsI16(dx) then j else j - 1));
  }

  lemma MultipleAlike(c: int, e: int, j: int)
    requires c - e == 0x1_0000 * j
    ensures Alike(c, e)
  {
  }

  lemma StepAtBottom(dx: int, h: nat)
    requires h > 0
    ensures Step(dx, h, h) == dx
  {
    hide Share, Step;
    StepIs(dx, h, h);
    ShareSimple(h, Abs(dx), h);
  }

  /** At a common bottom exchanging makes no difference: both edges are right there. */
  lemma BottomMeets(dxA: int, hA: nat, dxB: int, hB: nat)
    requires 0 < hA <= 0xffff && 0 < hB <= 0xffff && Meets(dxA, hA, hA, dxB, hB, hB, dxA - dxB)
    ensures Alike(Step16(dxA, hA, hA), dxA) && Alike(Step16(dxB, hB, hB), dxB)
  {
    StepAtBottom(dxA, hA);
    StepAtBottom(dxB, hB);
    AlikeShift(Step16(dxB, hB, hB), dxB, dxA - dxB);
    hide Step, Step16, Alike;
  }

  /** Two crossings off by s and by t are not exchanged unless the offsets say so. */
  lemma Offset(a: int, a': int, b: int, b': int, s: int, t: int)
    requires Alike(a', a + s) && Alike(b', b + t) && Same(a, a', b, b')
    requires -0x5000 <= s <= 0x5000 && -0x5000 <= t <= 0x5000 && (s != 0 || t != 0)
    ensures b - a == s && a - b == t
  {
    hide Alike;
    AlikeChain(a', a + s, a);
    AlikeChain(a', a + s, b);
    AlikeChain(b', b + t, a);
    AlikeChain(b', b + t, b);
    AlikeNear(a + s, a);
    AlikeNear(a + s, b);
    AlikeNear(b + t, b);
    AlikeNear(b + t, a);
  }

  /** One scanline above the bottom, only two edges as wide as 65536 - h to either side can be exchanged. */
  lemma ExchangedAbove(dxA: int, dxB: int, h: nat, jA: nat, jB: nat)
    requires Spread(dxA, dxB) && Folded(dxA, h, jA) && Folded(dxB, h, jB)
    requires Meets(dxA, h, h - 1, dxB, h, h - 1, dxA - dxB)
    ensures IsI16(dxA) && IsI16(dxB) && Abs(dxA) == Abs(dxB) == 0x1_0000 - h && (dxA < 0) != (dxB < 0)
  {
    assert Times(1, 0x1_0000 - h) == 0x1_0000 - h;
    hide Times;
    OneAbove(dxA, h, jA);
    OneAbove(dxB, h, jB);
    var o := dxA - dxB;
    var a, a', b, b' := Step(dxA, h, h - 1), Step16(dxA, h, h - 1), o + Step(dxB, h, h - 1), o + Step16(dxB, h, h - 1);
    var s := Signed(dxA < 0, if IsI16(dxA) then jA + 1 else 1 - jA);
    var t := Signed(dxB < 0, if IsI16(dxB) then jB + 1 else 1 - jB);
    AlikeShift(Step16(dxB, h, h - 1), Step(dxB, h, h - 1) + t, o);
    hide Step, Step16, Alike, Same;
    Offset(a, a', b, b', s, t);
  }

  /** On the first scanline those two are not. */
  lemma NotExchangedFirst(dxA: int, dxB: int, h: nat)
    requires 0x8000 <= h <= 0xfffe && IsI16(dxA) && IsI16(dxB)
    requires Abs(dxA) == Abs(dxB) == 0x1_0000 - h && (dxA < 0) != (dxB < 0)
    ensures !Meets(dxA, h, 1, dxB, h, 1, dxA - dxB)
  {
    hide Share, Step, Step16, Alike;
    var v := 0x1_0000 - h;
    StepIs(dxA, h, 1);
    StepIs(dxB, h, 1);
    Step16Is(dxA, h, 1);
    ShareSimple(1, v, h);
    ShareSimple(1, v, v);
    AlikeNear(Step16(dxA, h, 1), Step(dxA, h, 1));
    AlikeNear(Step16(dxA, h, 1), dxA - dxB + Step(dxB, h, 1));
  }

  lemma TallPairDown(dxA: int, dxB: int, h: nat) returns (k: nat)
    requires Spread(dxA, dxB) && 0x8000 <= h <= 0xfffe && !EdgeFits(dxA, h, h) && !EdgeFits(dxB, h, h)
    ensures k <= h && !Meets(dxA, h, k, dxB, h, k, dxA - dxB)
  {
    hide Meets, Step, Step16, Alike;
    k := h;
    if Meets(dxA, h, h, dxB, h, h, dxA - dxB) {
      BottomMeets(dxA, h, dxB, h);
      var jA := BottomRight(dxA, h);
      var jB := BottomRight(dxB, h);
      k := h - 1;
      if Meets(dxA, h, h - 1, dxB, h, h - 1, dxA - dxB) {
        ExchangedAbove(dxA, dxB, h, jA, jB);
        k := 1;
        NotExchangedFirst(dxA, dxB, h);
      }
    }
  }

  /** A flat-topped triangle, its two edges going from the same scanline to one corner. */
  lemma FlatTop(dxA: int, dxB: int, h: nat) returns (k: nat)
    requires Spread(dxA, dxB) && 1 <= h <= 0xfffe && (!EdgeFits(dxA, h, h) || !EdgeFits(dxB, h, h))
    ensures k <= h && !Meets(dxA, h, k, dxB, h, k, dxA - dxB)
  {
    hide Meets, Step, Step16;
    if EdgeFits(dxA, h, h) || EdgeFits(dxB, h, h) {
      k := OneEdge(dxA, dxB, h, dxA - dxB);
    } else if IsI16(h) {
      k := 1;
      WidePairDown(dxA, dxB, h);
    } else {
      k := TallPairDown(dxA, dxB, h);
    }
  }

  // ---------------------------------------------------------------- the long edge

  /**
   What the scanlines of a triangle with three different heights say of its long edge B: above the middle corner
   it goes with edge A, on the scanline of the middle corner and at the bottom it is right by itself.
   */
  predicate Fine(dxA: int, hA: nat, dxB: int, hB: nat, k: nat)
    requires 0 < hA < hB <= 0xffff
  {
    if k < hA then Meets(dxA, hA, k, dxB, hB, k, 0)
    else k in {hA, hB} ==> Alike(Step16(dxB, hB, k), Step(dxB, hB, k))
  }

  /** The first scanlines of a folded edge as the code has them. */
  lemma FoldedCode(dx: int, h: nat, j: nat)
    requires Folded(dx, h, j)
    ensures Step16(dx, h, 1) == Signed((dx < 0) != IsI16(dx), j)
    ensures Step16(dx, h, 2) == Signed((dx < 0) != IsI16(dx), 2 * j)
  {
    var v := 0x1_0000 - h;
    var w := Times(j, v);
    assert w == j * v && 2 * w == 2 * j * v;
    hide Share, Step, Step16, Times;
    ShareIs(1, w, v, j);
    ShareIs(2, w, v, 2 * j);
    Step16Is(dx, h, 1);
    Step16Is(dx, h, 2);
  }

  lemma FoldedSteps(dx: int, h: nat, j: nat)
    requires Folded(dx, h, j)
    ensures !IsI16(dx) ==> Step(dx, h, 1) == 0 && Step(dx, h, 2) == Signed(dx < 0, 1)
    ensures IsI16(dx) ==> Step(dx, h, 1) == Signed(dx < 0, if dx == -0x8000 && h == 0x8000 then 1 else 0)
    ensures !Alike(Step16(dx, h, 1), Step(dx, h, 1))
  {
    hide Share, Step, Step16, Alike, Times;
    StepIs(dx, h, 1);
    StepIs(dx, h, 2);
    ShareSimple(1, Abs(dx), h);
    ShareIs(2, Abs(dx), h, 1);
    FoldedCode(dx, h, j);
    AlikeNear(Step16(dx, h, 1), Step(dx, h, 1));
  }

  /** If the crossings are exchanged on the first scanline, edge A has the step the code makes with edge B. */
  lemma ExchangedFirst(dxA: int, hA: nat, dxB: int, hB: nat, j: nat)
    requires Spread(dxA, dxB) && 2 <= hA < hB && Folded(dxB, hB, j) && Meets(dxA, hA, 1, dxB, hB, 1, 0)
    ensures Share(1, Abs(dxA), hA) == j && (dxA < 0) == ((dxB < 0) != IsI16(dxB))
    ensures Alike(Step16(dxA, hA, 1), Step(dxB, hB, 1)) && !Alike(Step16(dxA, hA, 1), Step(dxA, hA, 1))
  {
    FoldedCode(dxB, hB, j);
    FoldedSteps(dxB, hB, j);
    hide Times, Share, Step, Step16, Alike;
    OneWrong(Step(dxA, hA, 1), Step16(dxA, hA, 1), Step(dxB, hB, 1), Step16(dxB, hB, 1));
    StepIs(dxA, hA, 1);
    ShareUpTo(1, Abs(dxA), hA);
    AlikeNear(Step16(dxB, hB, 1), Step(dxA, hA, 1));
  }

  /** Edge B is too wide as well. */
  lemma LongCrossed(dxA: int, hA: nat, dxB: int, hB: nat, j: nat)
    requires Spread(dxA, dxB) && 2 <= hA < hB && Folded(dxB, hB, j) && !IsI16(dxB) && Meets(dxA, hA, 1, dxB, hB, 1, 0)
    ensures !Fine(dxA, hA, dxB, hB, 2)
  {
    hide Times, Share, Step, Step16, Alike;
    var m := Abs(dxA);
    ExchangedFirst(dxA, hA, dxB, hB, j);
    ShareUpTo(1, m, hA);
    ShareAtLeast(1, m, hA, 2);
    FoldedCode(dxB, hB, j);
    FoldedSteps(dxB, hB, j);
    Step16Is(dxA, hA, 1);
    AlikeNear(Step16(dxA, hA, 1), Step(dxA, hA, 1));
    AlikeNear(Step16(dxB, hB, 2), Step(dxB, hB, 2));
    if hA > 2 {
      StepIs(dxA, hA, 2);
      Step16Is(dxA, hA, 2);
      WideWrong(2, m, hA);
      ShareUpTo(2, 0x1_0000 - m, hA);
      AlikeNear(Step16(dxA, hA, 2), Step(dxA, hA, 2));
      AlikeNear(Step16(dxA, hA, 2), Step(dxB, hB, 2));
    }
  }

  /** Edge B is too high only, and edge A too wide only. */
  lemma LongWide(dxA: int, hA: nat, dxB: int, hB: nat, j: nat)
    requires Spread(dxA, dxB) && 2 <= hA <= 0x7fff && Folded(dxB, hB, j) && IsI16(dxB) && !IsI16(dxA)
    requires Meets(dxA, hA, 1, dxB, hB, 1, 0)
    ensures !Fine(dxA, hA, dxB, hB, hA - 1)
  {
    hide Times, Share, Step, Step16, Alike;
    var m, u, k := Abs(dxB), 0x1_0000 - Abs(dxA), hA - 1;
    ExchangedFirst(dxA, hA, dxB, hB, j);
    FoldedSteps(dxB, hB, j);
    Step16Is(dxA, hA, 1);
    AlikeNear(Step16(dxA, hA, 1), Step(dxB, hB, 1));
    ShareAtLeast(1, u, hA, 1);
    ShareUpTo(1, u, hA);
    assert m < u < hA;
    StepIs(dxA, hA, k);
    StepIs(dxB, hB, k);
    Step16Is(dxA, hA, k);
    WideWrong(k, Abs(dxA), hA);
    AlikeNear(Step16(dxA, hA, k), Step(dxA, hA, k));
    AlikeNear(Step16(dxA, hA, k), Step(dxB, hB, k));
    LastOfWide(u, hA, m, hB);
  }

  lemma LastOfWide(u: nat, h: nat, m: nat, g: nat)
    requires 1 <= m < u < h < g
    ensures Share(h - 1, u, h) == u - 1 && Share(h - 1, m, g) < u - 1
  {
    hide Share;
    assert (h - 1) * u == (u - 1) * h + (h - u);
    ShareIs(h - 1, u, h, u - 1);
    ShareAtLeast(h - 1, m, g, u - 1);
    TimesMonotone(m, u - 1, h - 1);
    TimesMonotone(h, g, u - 1);
    assert m * (h - 1) == (h - 1) * m && (u - 1) * (h - 1) == (u - 1) * h - (u - 1) && g * (u - 1) == (u - 1) * g;
  }

  /** Both are too high, and edge A is flatter than 45 degrees. */
  lemma LongFlat(dxA: int, hA: nat, dxB: int, hB: nat, j: nat) returns (k: nat)
    requires Spread(dxA, dxB) && 0x8000 <= hA < hB && Folded(dxB, hB, j)
    requires IsI16(dxB) && (dxA < 0) != (dxB < 0) && Abs(dxA) > hA
    ensures k < hA && !Meets(dxA, hA, k, dxB, hB, k, 0)
  {
    hide Times, Share, Step, Step16, Alike, First;
    var m, mB, u := Abs(dxA), Abs(dxB), 0x1_0000 - Abs(dxA);
    k := First(u, 0x1_0000 - hA);
    StepIs(dxA, hA, k);
    Step16Is(dxA, hA, k);
    StepIs(dxB, hB, k);
    AlikeNear(Step16(dxA, hA, k), Step(dxA, hA, k));
    AlikeNear(Step16(dxA, hA, k), Step(dxB, hB, k));
    ShareUpTo(k, mB, hB);
    ShareUpTo(k, m, hA);
    FirstOfFlat(m, hA);
  }

  /** Edge B is too high only. */
  lemma LongTall(dxA: int, hA: nat, dxB: int, hB: nat, j: nat) returns (k: nat)
    requires Spread(dxA, dxB) && 2 <= hA < hB && Folded(dxB, hB, j) && IsI16(dxB) && Meets(dxA, hA, 1, dxB, hB, 1, 0)
    ensures k <= hB && !Fine(dxA, hA, dxB, hB, k)
  {
    hide Meets, Times, Share, Step, Step16, Alike;
    ExchangedFirst(dxA, hA, dxB, hB, j);
    Step16Is(dxA, hA, 1);
    AlikeNear(Step16(dxA, hA, 1), Step(dxA, hA, 1));
    if hA <= 0x7fff {
      k := hA - 1;
      LongWide(dxA, hA, dxB, hB, j);
    } else {
      LongWide45(dxA, hA, dxB, hB, j);
      k := LongFlat(dxA, hA, dxB, hB, j);
    }
  }

  lemma LongWide45(dxA: int, hA: nat, dxB: int, hB: nat, j: nat)
    requires Spread(dxA, dxB) && 0x8000 <= hA < hB && Folded(dxB, hB, j)
    requires IsI16(dxB) && Meets(dxA, hA, 1, dxB, hB, 1, 0)
    ensures Abs(dxA) > hA
  {
    hide Times, Share, Step, Step16, Alike;
    ExchangedFirst(dxA, hA, dxB, hB, j);
    FoldedSteps(dxB, hB, j);
    StepIs(dxA, hA, 1);
    Step16Is(dxA, hA, 1);
    ShareAtLeast(1, Abs(dxA), hA, 1);
    ShareSimple(1, Abs(dxA), hA);
    if Abs(dxA) == hA {
      var v := 0x1_0000 - hA;
      ShareSimple(1, v, v);
      AlikeNear(Step16(dxA, hA, 1), Step(dxA, hA, 1));
      AlikeNear(Step16(dxA, hA, 1), Step(dxB, hB, 1));
    }
  }

  /** With a long edge that the code does not follow, some scanline is not right. */
  lemma LongEdge(dxA: int, hA: nat, dxB: int, hB: nat) returns (k: nat)
    requires Spread(dxA, dxB) && 1 <= hA < hB <= 0xfffe && !EdgeFits(dxB, hB, hB)
    ensures k <= hB && !Fine(dxA, hA, dxB, hB, k)
  {
    hide Meets, Times, Share, Step, Step16, Alike;
    if hB <= 0x7fff {
      k := hA;
      StepIs(dxB, hB, k);
      Step16Is(dxB, hB, k);
      WideWrong(k, Abs(dxB), hB);
      AlikeNear(Step16(dxB, hB, k), Step(dxB, hB, k));
    } else {
      k := hB;
      StepAtBottom(dxB, hB);
      if Alike(Step16(dxB, hB, hB), dxB) {
        var j := BottomRight(dxB, hB);
        k := LongFolded(dxA, hA, dxB, hB, j);
      }
    }
  }

  lemma LongFolded(dxA: int, hA: nat, dxB: int, hB: nat, j: nat) returns (k: nat)
    requires Spread(dxA, dxB) && 1 <= hA < hB && Folded(dxB, hB, j)
    ensures k <= hB && !Fine(dxA, hA, dxB, hB, k)
  {
    hide Meets, Times, Share, Step, Step16, Alike;
    k := 1;
    FoldedSteps(dxB, hB, j);
    if Fine(dxA, hA, dxB, hB, 1) {
      if IsI16(dxB) {
        k := LongTall(dxA, hA, dxB, hB, j);
      } else {
        k := 2;
        LongCrossed(dxA, hA, dxB, hB, j);
      }
    }
  }
}
