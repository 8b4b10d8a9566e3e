/**
 The drawing loops in the 16-bit arithmetic of the code.

 What each loop plots is given as a function that stores through `I16` wherever the code has an
 `int16_t`; the class is proved against these functions, and they are compared with the closed forms.
 */
module Canvas {
  import opened Arith
  import opened Machine
  import opened Raster
  import opened Line
  import opened Circle
  import opened Triangle

  // ---------------------------------------------------------------- triangle

  /** The running sum of an edge after k scanlines. */
  predicate SumIs(sum: int, k: int, d: int) {
    sum == k * d
  }

  /** It fits in 32 bits. */
  lemma SumFits(k: int, d: int)
    requires 0 <= k <= 0xffff && IsI16(d)
    ensures IsI32(k * d)
  {
    TimesMonotone(d, 0x8000, k);
    TimesMonotone(-0x8000, d, k);
  }

  lemma NextSum(sum: int, k: int, d: int)
    requires 0 <= k < 0xffff && IsI16(d) && SumIs(sum, k, d)
    ensures SumIs(I32(sum + d), k + 1, d)
  {
    hide I32;
    NextTerm(k, d, 0, 0);
    SumFits(k + 1, d);
  }

  /** The sum with which the second loop starts. */
  function StartSum(d: int, k: int): int {
    I32(d * k)
  }

  lemma FirstSum(d: int, k: int)
    requires 0 <= k <= 0xffff && IsI16(d)
    ensures SumIs(StartSum(d, k), k, d)
  {
    hide I32;
    SumFits(k, d);
  }

  /** A crossing from its running sum. */
  lemma CrossFromSum(a: Point, b: Point, y: int, sum: int)
    requires IsPoint16(a) && IsPoint16(b) && a.y < b.y && a.y <= y && SumIs(sum, y - a.y, I16(b.x - a.x))
    ensures I16(b.y - a.y) != 0 && Cross16(a, b, y) == I16(a.x + Quot(sum, I16(b.y - a.y)))
  {
    I16Once(b.y - a.y);
    hide I16, Quot;
  }

  /** One round for one edge: the crossing, and the running sum for the next scanline. */
  lemma EdgeRound(a: Point, b: Point, y: int, sum: int)
    requires IsPoint16(a) && IsPoint16(b) && a.y < b.y && a.y <= y <= 0x7fff && SumIs(sum, y - a.y, I16(b.x - a.x))
    ensures I16(b.y - a.y) != 0 && Cross16(a, b, y) == I16(a.x + Quot(sum, I16(b.y - a.y)))
    ensures y < 0x7fff ==> SumIs(I32(sum + I16(b.x - a.x)), y + 1 - a.y, I16(b.x - a.x))
  {
    hide I16, I32, Quot, Cross16, SumIs;
    CrossFromSum(a, b, y, sum);
    if y < 0x7fff {
      NextSum(sum, y - a.y, I16(b.x - a.x));
    }
  }

  /** How a call goes: it returns, never does, or comes to a division by zero. */
  datatype Ending = Finished | Endless | DividedByZero

  /** The heights of edges in 16 bits are zero for flat ones only; the end of the first loop wraps around at the top. */
  lemma HeightsFit(p0: Point, p1: Point, p2: Point)
    requires Descending(p0, p1, p2)
    ensures I16(p1.y - p0.y) == 0 <==> p0.y == p1.y
    ensures I16(p2.y - p1.y) == 0 <==> p1.y == p2.y
    ensures I16(p2.y - p0.y) != 0
    ensures I16(UpperLast(p1, p2)) == if p0.y == p1.y == -0x8000 then 0x7fff else UpperLast(p1, p2)
    ensures p1.y != p2.y ==> I16(UpperLast(p1, p2)) == I16(p1.y - 1)
    ensures p1.y == p2.y ==> I16(UpperLast(p1, p2)) == p1.y
  {
    I16Once(p1.y - p0.y);
    I16Once(p2.y - p1.y);
    I16Once(p2.y - p0.y);
    I16Once(UpperLast(p1, p2));
    hide I16;
  }

  // ---------------------------------------------------------------- the class

  class Gfx {
    var plotted: seq<Point>
    var spans: seq<Span>

    /** The arguments are passed in 16 bits. */
    method DrawPixel(x: int, y: int)
      modifies `plotted
      ensures plotted == old(plotted) + [Point(I16(x), I16(y))]
    {
      plotted := plotted + [Point(I16(x), I16(y))];
    }

    /** Without `ends` the call never returns. */
    method DrawLine(x0': int, y0': int, x1': int, y1': int) returns (ends: bool)
      requires IsI16(x0') && IsI16(y0') && IsI16(x1') && IsI16(y1')
      modifies `plotted
      ensures ends <==> LineEnds(x0', y0', x1', y1')
      ensures ends ==> plotted == old(plotted) + CodeLine(x0', y0', x1', y1')
      ensures ends ==> (plotted == old(plotted) + LinePoints(x0', y0', x1', y1') <==> LineFits(x0', y0', x1', y1'))
    {
      hide CodeRun, Run.Points, LineEnds;
      var x0, y0, x1, y1 := x0', y0', x1', y1';
      var steep := Abs(y1 - y0) > Abs(x1 - x0);
      if steep {
        x0, y0 := y0, x0;
        x1, y1 := y1, x1;
      }
      if x0 > x1 {
        x0, x1 := x1, x0;
        y0, y1 := y1, y0;
      }
      ghost var r := Normal(x0', y0', x1', y1');
      assert r == Run(steep, x0, y0, x1, y1);
      LineEndsIff(x0', y0', x1', y1');
      LineExactIff(x0', y0', x1', y1');
      SamePrefix(plotted, CodeLine(x0', y0', x1', y1'), LinePoints(x0', y0', x1', y1'));
      ends := Trace(r, steep, x0, y0, x1, y1);
    }

    /** The loop of drawLine.  Once the variable wraps around to -32768 it is back below x1, and so for ever. */
    method Trace(ghost r: Run, steep: bool, x0: int, y0: int, x1: int, y1: int) returns (ends: bool)
      requires r == Run(steep, x0, y0, x1, y1) && Proper(r)
      modifies `plotted
      ensures ends <==> x1 < 0x7fff
      ensures ends ==> plotted == old(plotted) + CodeRun(r)
    {
      hide I16, Quot;
      var dx, dy := I16(x1 - x0), I16(Abs(y1 - y0));
      var err := Quot(dx, 2);
      var ystep := if y0 < y1 then 1 else -1;
      var x, y := x0, y0;
      while x <= x1
        invariant x0 <= x <= x1 + 1 && IsI16(x) && IsI16(y)
        invariant plotted + Steps(steep, x, x1, y, err, dx, dy, ystep) == old(plotted) + CodeRun(r)
        decreases x1 - x
      {
        StepsUnfold(plotted, steep, x, x1, y, err, dx, dy, ystep);
        hide CodeRun, Steps;
        if steep {
          DrawPixel(y, x);
        } else {
          DrawPixel(x, y);
        }
        err := I16(err - dy);
        if err < 0 {
          y := I16(y + ystep);
          err := I16(err + dx);
        }
        if x == 0x7fff {
          return false;
        }
        x := I16(x + 1);
      }
      ends := true;
    }

    method DrawFastVLine(x: int, y: int, h: int) returns (ends: bool)
      requires IsI16(x) && IsI16(y) && IsI16(h)
      modifies `plotted
      ensures ends <==> LineEnds(x, y, x, I16(y + h - 1))
      ensures ends ==> (plotted == old(plotted) + Column(x, y, h) <==> IsI16(y + h - 1) && LineFits(x, y, x, y + h - 1))
    {
      hide LineEnds, CodeLine, LinePoints, I16;
      ColumnExactIff(x, y, h);
      SamePrefix(plotted, CodeLine(x, y, x, I16(y + h - 1)), Column(x, y, h));
      ends := DrawLine(x, y, x, I16(y + h - 1));
    }

    method DrawFastHLine(x: int, y: int, w: int) returns (ends: bool)
      requires IsI16(x) && IsI16(y) && IsI16(w)
      modifies `plotted
      ensures ends <==> LineEnds(x, y, I16(x + w - 1), y)
      ensures ends ==> (plotted == old(plotted) + Row(x, y, w) <==> IsI16(x + w - 1) && LineFits(x, y, x + w - 1, y))
    {
      hide LineEnds, CodeLine, LinePoints, I16;
      RowExactIff(x, y, w);
      SamePrefix(plotted, CodeLine(x, y, I16(x + w - 1), y), Row(x, y, w));
      ends := DrawLine(x, y, I16(x + w - 1), y);
    }

    method DrawCircle(x0: int, y0: int, r: int)
      requires IsI16(x0) && IsI16(y0) && IsI16(r)
      modifies `plotted
      ensures plotted == old(plotted) + CodeCircle(x0, y0, r)
      ensures plotted == old(plotted) + CirclePoints(x0, y0, r) <==> CircleFits(x0, y0, r)
    {
      hide Wrapped, Octant16, AllMirrors;
      DrawPixels(Point(x0, y0 + r), Point(x0, y0 - r), Point(x0 + r, y0), Point(x0 - r, y0));
      DrawArcs(x0, y0, r);
      WrappedGrows(Cardinals(x0, y0, r), AllMirrors(x0, y0, Octant16(r)));
      hide CodeCircle, CirclePoints, CircleFits;
      CircleExactIff(x0, y0, r);
      SamePrefix(old(plotted), CodeCircle(x0, y0, r), CirclePoints(x0, y0, r));
    }

    method DrawPixels(p: Point, q: Point, r: Point, s: Point)
      modifies `plotted
      ensures plotted == old(plotted) + Wrapped([p, q, r, s])
    {
      DrawPixel(p.x, p.y);
      DrawPixel(q.x, q.y);
      DrawPixel(r.x, r.y);
      DrawPixel(s.x, s.y);
      assert plotted == old(plotted) + [Wrap(p), Wrap(q), Wrap(r), Wrap(s)];
      assert Wrapped([p, q, r, s]) == [Wrap(p), Wrap(q), Wrap(r), Wrap(s)];
    }

    method DrawPair(b: bool, p: Point, q: Point)
      modifies `plotted
      ensures plotted == old(plotted) + Wrapped(PairIf(b, p, q))
    {
      if b {
        DrawPixel(p.x, p.y);
        DrawPixel(q.x, q.y);
        assert Wrapped([p, q]) == [Wrap(p), Wrap(q)];
      }
    }

    /** The loop of drawCircle. */
    method DrawArcs(x0: int, y0: int, r: int)
      requires IsI16(r)
      modifies `plotted
      ensures plotted == old(plotted) + Wrapped(AllMirrors(x0, y0, Octant16(r)))
    {
      var f, ddFx, ddFy, x, y := I16(1 - r), 1, I16(-2 * r), 0, r;
      ghost var arc := [];
      hide I16, AllMirrors, Wrapped, Mirrors;
      NoneWrapped(x0, y0, 0);
      while x < y
        invariant 0 <= x && y <= r && IsI16(y) && arc + Arc16(x, y, f, ddFx, ddFy) == Octant16(r)
        invariant plotted == old(plotted) + Wrapped(AllMirrors(x0, y0, arc))
        decreases y - x
      {
        Arc16Unfold(arc, x, y, f, ddFx, ddFy);
        hide Arc16, Octant16;
        if f >= 0 {
          y := y - 1;
          ddFy := I16(ddFy + 2);
          f := I16(f + ddFy);
        }
        x := x + 1;
        ddFx := I16(ddFx + 2);
        f := I16(f + ddFx);
        DrawEight(x0, y0, x, y);
        MirrorsGrow(old(plotted), x0, y0, arc, Point(x, y));
        arc := arc + [Point(x, y)];
      }
      assert arc + [] == arc;
    }

    method DrawEight(x0: int, y0: int, x: int, y: int)
      modifies `plotted
      ensures plotted == old(plotted) + Wrapped(Mirrors(x0, y0, Point(x, y)))
    {
      hide Wrapped;
      DrawPixels(Point(x0 + x, y0 + y), Point(x0 - x, y0 + y), Point(x0 + x, y0 - y), Point(x0 - x, y0 - y));
      DrawPixels(Point(x0 + y, y0 + x), Point(x0 - y, y0 + x), Point(x0 + y, y0 - x), Point(x0 - y, y0 - x));
      WrappedGrows(Four(x0, y0, x, y), Four(x0, y0, y, x));
    }

    method DrawCircleHelper(x0: int, y0: int, r: int, corner: nat)
      requires IsI16(x0) && IsI16(y0) && IsI16(r)
      modifies `plotted
      ensures plotted == old(plotted) + CodeCorners(x0, y0, r, corner)
      ensures plotted == old(plotted) + AllCorners(x0, y0, Octant(r), corner) <==> CornersFit(x0, y0, r, corner)
    {
      var f, ddFx, ddFy, x, y := I16(1 - r), 1, I16(-2 * r), 0, r;
      ghost var arc := [];
      hide I16, AllCorners, Wrapped, Corners;
      NoneWrapped(x0, y0, corner);
      while x < y
        invariant 0 <= x && y <= r && IsI16(y) && arc + Arc16(x, y, f, ddFx, ddFy) == Octant16(r)
        invariant plotted == old(plotted) + Wrapped(AllCorners(x0, y0, arc, corner))
        decreases y - x
      {
        Arc16Unfold(arc, x, y, f, ddFx, ddFy);
        hide Arc16, Octant16;
        if f >= 0 {
          y := y - 1;
          ddFy := I16(ddFy + 2);
          f := I16(f + ddFy);
        }
        x := x + 1;
        ddFx := I16(ddFx + 2);
        f := I16(f + ddFx);
        DrawCorners(x0, y0, x, y, corner);
        CornersGrow(old(plotted), x0, y0, arc, Point(x, y), corner);
        arc := arc + [Point(x, y)];
      }
      assert arc + [] == arc;
      hide Octant, Octant16, CornersFit;
      CornersExactIff(x0, y0, r, corner);
      SamePrefix(old(plotted), CodeCorners(x0, y0, r, corner), AllCorners(x0, y0, Octant(r), corner));
    }

    method DrawCorners(x0: int, y0: int, x: int, y: int, corner: nat)
      modifies `plotted
      ensures plotted == old(plotted) + Wrapped(Corners(x0, y0, Point(x, y), corner))
    {
      hide Wrapped, PairIf;
      DrawPair(corner / 4 % 2 == 1, Point(x0 + x, y0 + y), Point(x0 + y, y0 + x));
      DrawPair(corner / 2 % 2 == 1, Point(x0 + x, y0 - y), Point(x0 + y, y0 - x));
      DrawPair(corner / 8 % 2 == 1, Point(x0 - y, y0 + x), Point(x0 - x, y0 + y));
      DrawPair(corner % 2 == 1, Point(x0 - y, y0 - x), Point(x0 - x, y0 - y));
      FourParts(old(plotted), PairIf(corner / 4 % 2 == 1, Point(x0 + x, y0 + y), Point(x0 + y, y0 + x)),
                PairIf(corner / 2 % 2 == 1, Point(x0 + x, y0 - y), Point(x0 + y, y0 - x)),
                PairIf(corner / 8 % 2 == 1, Point(x0 - y, y0 + x), Point(x0 - x, y0 + y)),
                PairIf(corner % 2 == 1, Point(x0 - y, y0 - x), Point(x0 - x, y0 - y)));
    }

    method FillTriangle(p: Point, q: Point, r: Point) returns (ending: Ending)
      requires IsPoint16(p) && IsPoint16(q) && IsPoint16(r)
      modifies `spans
      ensures ending.Finished? <==> TriangleEnds(p, q, r)
      ensures ending.DividedByZero? <==> TriangleDividesByZero(p, q, r)
      ensures ending.Finished? ==> spans == old(spans) + CodeSpans(p, q, r)
      ensures ending.Finished? ==> (spans == old(spans) + TriangleSpans(p, q, r) <==> TriangleFits(p, q, r))
    {
      hide I16, SortedSpans, CodeSortedSpans, TriangleEnds, TriangleDividesByZero, TriangleFits;
      var p0, p1, p2 := p, q, r;
      if p0.y > p1.y {
        p0, p1 := p1, p0;
      }
      if p1.y > p2.y {
        p1, p2 := p2, p1;
      }
      if p0.y > p1.y {
        p0, p1 := p1, p0;
      }
      assert (p0, p1, p2) == Sorted(p, q, r);
      TriangleEndsIff(p, q, r);
      TriangleEndings(p, q, r);
      TriangleExactIff(p, q, r);
      SameSpanPrefix(spans, CodeSpans(p, q, r), TriangleSpans(p, q, r));
      hide Sorted;
      if p0.y == p2.y {
        ending := Finished;
        DrawFlat(p0, p1, p2);
      } else {
        ending := FillSorted(p0, p1, p2);
      }
    }

    method DrawFlat(p0: Point, p1: Point, p2: Point)
      requires IsPoint16(p0) && IsPoint16(p1) && IsPoint16(p2) && p0.y == p1.y == p2.y
      modifies `spans
      ensures spans == old(spans) + CodeSortedSpans(p0, p1, p2)
    {
      hide I16;
      var a, b := p0.x, p0.x;
      if p1.x < a {
        a := p1.x;
      } else if p1.x > b {
        b := p1.x;
      }
      if p2.x < a {
        a := p2.x;
      } else if p2.x > b {
        b := p2.x;
      }
      spans := spans + [Span(a, p0.y, I16(b - a + 1))];
    }

    /** The two loops of fillTriangle. */
    method FillSorted(p0: Point, p1: Point, p2: Point) returns (ending: Ending)
      requires Descending(p0, p1, p2)
      modifies `spans
      ensures ending.DividedByZero? <==> p0.y == p1.y == -0x8000
      ensures ending.Finished? <==> p2.y < 0x7fff && p1.y > -0x8000
      ensures ending.Finished? ==> spans == old(spans) + CodeSortedSpans(p0, p1, p2)
    {
      hide CodeSpansTo;
      I16Once(UpperLast(p1, p2));
      var y;
      y, ending := FillUpper(p0, p1, p2, spans);
      if ending.Finished? {
        hide I16;
        ending := FillLower(p0, p1, p2, y, old(spans));
      }
    }

    /** Scanlines of the edges 0-1 and 0-2; the scanline of vertex 1 only if the bottom is flat. */
    method FillUpper(p0: Point, p1: Point, p2: Point, ghost base: seq<Span>) returns (y: int, ending: Ending)
      requires Descending(p0, p1, p2) && spans == base
      modifies `spans
      ensures ending.DividedByZero? <==> p0.y <= I16(UpperLast(p1, p2)) && I16(p1.y - p0.y) == 0
      ensures ending.Endless? <==> !ending.DividedByZero? && I16(UpperLast(p1, p2)) == 0x7fff
      ensures ending.Finished? ==> y == UpperLast(p1, p2) + 1 && Filled(base, p0, p1, p2, y)
    {
      var dx01, dy01 := I16(p1.x - p0.x), I16(p1.y - p0.y);
      var dx02, dy02 := I16(p2.x - p0.x), I16(p2.y - p0.y);
      var sa, sb := 0, 0;
      var last := if p1.y == p2.y then p1.y else I16(p1.y - 1);
      y := p0.y;
      HeightsFit(p0, p1, p2);
      assert last == (if p0.y == p1.y == -0x8000 then 0x7fff else UpperLast(p1, p2)) && UpperLast(p1, p2) <= p1.y;
      assert SumIs(0, p0.y - p0.y, dx01) && SumIs(0, p0.y - p0.y, dx02);
      assert Filled(base, p0, p1, p2, p0.y);
      hide I16, I32, Quot, Filled, Cross16, SumIs, UpperLast;
      while y <= last
        invariant p0.y <= y <= p2.y + 1 && IsI16(y) && (y > p0.y ==> y <= last + 1 && dy01 != 0)
        invariant SumIs(sa, y - p0.y, dx01) && SumIs(sb, y - p0.y, dx02)
        invariant Filled(base, p0, p1, p2, y)
        decreases last - y
      {
        if dy01 == 0 || dy02 == 0 {
          return y, DividedByZero;
        }
        EdgeRound(p0, p1, y, sa);
        EdgeRound(p0, p2, y, sb);
        var a := I16(p0.x + Quot(sa, dy01));
        var b := I16(p0.x + Quot(sb, dy02));
        sa := I32(sa + dx01);
        sb := I32(sb + dx02);
        DrawScanline(a, b, y, base, p0, p1, p2);
        if y == 0x7fff {
          return y, Endless;
        }
        y := I16(y + 1);
      }
      ending := Finished;
    }

    /** Scanlines of the edges 1-2 and 0-2. */
    method FillLower(p0: Point, p1: Point, p2: Point, start: int, ghost base: seq<Span>) returns (ending: Ending)
      requires Descending(p0, p1, p2) && IsI16(start) && start == UpperLast(p1, p2) + 1
      requires Filled(base, p0, p1, p2, start)
      modifies `spans
      ensures !ending.DividedByZero? && (ending.Finished? <==> p2.y < 0x7fff)
      ensures ending.Finished? ==> Filled(base, p0, p1, p2, p2.y + 1)
    {
      var dx02, dy02 := I16(p2.x - p0.x), I16(p2.y - p0.y);
      var dx12, dy12 := I16(p2.x - p1.x), I16(p2.y - p1.y);
      HeightsFit(p0, p1, p2);
      hide I16, I32, Quot, Filled, Cross16, SumIs, StartSum;
      FirstSum(dx12, start - p1.y);
      FirstSum(dx02, start - p0.y);
      var y := start;
      var sa, sb := StartSum(dx12, y - p1.y), StartSum(dx02, y - p0.y);
      while y <= p2.y
        invariant start <= y <= p2.y + 1 && IsI16(y)
        invariant SumIs(sa, y - p1.y, dx12) && SumIs(sb, y - p0.y, dx02)
        invariant Filled(base, p0, p1, p2, y)
        decreases p2.y - y
      {
        if dy12 == 0 || dy02 == 0 {
          return DividedByZero;
        }
        EdgeRound(p1, p2, y, sa);
        EdgeRound(p0, p2, y, sb);
        var a := I16(p1.x + Quot(sa, dy12));
        var b := I16(p0.x + Quot(sb, dy02));
        sa := I32(sa + dx12);
        sb := I32(sb + dx02);
        DrawScanline(a, b, y, base, p0, p1, p2);
        if y == 0x7fff {
          return Endless;
        }
        y := I16(y + 1);
      }
      ending := Finished;
    }

    method DrawScanline(a: int, b: int, y: int, ghost base: seq<Span>, ghost p0: Point, ghost p1: Point,
                        ghost p2: Point)
      requires Descending(p0, p1, p2) && p0.y <= y <= p2.y && Filled(base, p0, p1, p2, y)
      requires a == if y < p1.y || p1.y == p2.y then Cross16(p0, p1, y) else Cross16(p1, p2, y)
      requires b == Cross16(p0, p2, y)
      modifies `spans
      ensures Filled(base, p0, p1, p2, y + 1)
    {
      assert CodeSpanAt(p0, p1, p2, y) == Span16(a, b, y) by {
        hide Cross16, Span16;
      }
      CodeSpansToGrows(base, p0, p1, p2, y - p0.y);
      hide I16, Cross16, CodeSpanAt, CodeSpansTo, Descending;
      var lo, hi := a, b;
      if lo > hi {
        lo, hi := hi, lo;
      }
      spans := spans + [Span(lo, y, I16(hi - lo + 1))];
    }

    /** The spans of the scanlines above y are drawn. */
    ghost predicate Filled(base: seq<Span>, p0: Point, p1: Point, p2: Point, y: int)
      requires Descending(p0, p1, p2) && p0.y <= y <= p2.y + 1
      reads this
    {
      spans == base + CodeSpansTo(p0, p1, p2, y - p0.y)
    }
  }

  lemma SamePrefix(base: seq<Point>, a: seq<Point>, b: seq<Point>)
    ensures base + a == base + b <==> a == b
  {
    assert (base + a)[|base|..] == a && (base + b)[|base|..] == b;
  }

  lemma SameSpanPrefix(base: seq<Span>, a: seq<Span>, b: seq<Span>)
    ensures base + a == base + b <==> a == b
  {
    assert (base + a)[|base|..] == a && (base + b)[|base|..] == b;
  }
}
