/** drawCircle and its corners in the 16-bit arithmetic of the code. */
module Circle {
  import opened Arith
  import opened Machine
  import opened Raster

  /** The loop of drawCircle and drawCircleHelper: the octant points from (x, y) on. */
  function Arc16(x: int, y: int, f: int, ddFx: int, ddFy: int): seq<Point>
    decreases y - x
  {
    if x >= y then []
    else if f >= 0 then
      var ddFy' := I16(ddFy + 2);
      [Point(x + 1, y - 1)] + Arc16(x + 1, y - 1, I16(I16(f + ddFy') + I16(ddFx + 2)), I16(ddFx + 2), ddFy')
    else
      [Point(x + 1, y)] + Arc16(x + 1, y, I16(f + I16(ddFx + 2)), I16(ddFx + 2), ddFy)
  }

  function Octant16(r: int): seq<Point> {
    Arc16(0, r, I16(1 - r), 1, I16(-2 * r))
  }

  /** The exact midpoint term in the next column. */
  function NextMidpoint(x: int, y: int, f: int): int {
    (if f >= 0 then f - 2 * (y - 1) else f) + 2 * (x + 1) + 1
  }

  /** Wherever the loop looks at its sign, the exact midpoint term fits in 16 bits. */
  predicate TermsFit(x: int, y: int, f: int)
    decreases y - x
  {
    x < y ==> IsI16(f) && TermsFit(x + 1, if f >= 0 then y - 1 else y, NextMidpoint(x, y, f))
  }

  /** The increments wrap around, but the term they give is the exact one, wrapped. */
  lemma TermWraps(x: int, y: int, f: int)
    ensures I16(I16(2 * x + 1) + 2) == I16(2 * (x + 1) + 1) && I16(I16(-2 * y) + 2) == I16(-2 * (y - 1))
    ensures I16(I16(f) + I16(2 * (x + 1) + 1)) == I16(f + 2 * (x + 1) + 1)
    ensures I16(I16(I16(f) + I16(-2 * (y - 1))) + I16(2 * (x + 1) + 1)) == I16(f - 2 * (y - 1) + 2 * (x + 1) + 1)
  {
    hide I16;
    var a, b := 2 * (x + 1) + 1, -2 * (y - 1);
    I16Add(2 * x + 1, 2);
    I16Add(-2 * y, 2);
    WrapSum(f, a);
    WrapSum(f, b);
    WrapSum(f + b, a);
  }

  lemma WrapSum(a: int, b: int)
    ensures I16(I16(a) + I16(b)) == I16(a + b)
  {
    hide I16;
    I16Add(a, I16(b));
    I16Add(b, a);
  }

  /** What the invariant of the circle says of the term: it is wrong by one wrap-around at most. */
  lemma TermRange(x: int, y: int, r: int)
    requires 0 <= x < y <= 0x7fff && OnCircle(Point(x, y), r) && x * x + y * y - r * r < y
    ensures 2 * x - 2 * y < Midpoint(x, y, r) <= 2 * x
    ensures (I16(Midpoint(x, y, r)) >= 0) == (Midpoint(x, y, r) >= 0) <==> IsI16(Midpoint(x, y, r))
  {
    assert (x + 1) * (x + 1) == x * x + 2 * x + 1;
    I16Once(Midpoint(x, y, r));
  }

  /** With a term that fits the loop makes the exact step; with one that does not it goes wrong at once. */
  lemma Arc16Step(x: int, y: int, f: int)
    requires x < y && ((I16(f) >= 0) == (f >= 0) <==> IsI16(f))
    ensures var a := Arc16(x, y, I16(f), I16(2 * x + 1), I16(-2 * y));
            var y' := if f >= 0 then y - 1 else y;
            && (IsI16(f) ==>
                  a == [Point(x + 1, y')] +
                       Arc16(x + 1, y', I16(NextMidpoint(x, y, f)), I16(2 * (x + 1) + 1), I16(-2 * y')))
            && (!IsI16(f) ==> a != [] && a[0] != Point(x + 1, y'))
  {
    hide I16;
    TermWraps(x, y, f);
  }

  /** What holds at the head of the exact loop. */
  predicate OnArc(x: int, y: int, r: int) {
    0 <= x && y <= 0x7fff && OnCircle(Point(x, y), r) && (x < y ==> x * x + y * y - r * r < y)
  }

  lemma OnArcStep(x: int, y: int, r: int)
    requires OnArc(x, y, r) && x < y
    ensures var f := Midpoint(x, y, r);
            var y' := if f >= 0 then y - 1 else y;
            && OnArc(x + 1, y', r) && NextMidpoint(x, y, f) == Midpoint(x + 1, y', r)
            && 2 * x - 2 * y < f <= 2 * x && ((I16(f) >= 0) == (f >= 0) <==> IsI16(f))
            && Arc(x, y, f) == [Point(x + 1, y')] + Arc(x + 1, y', Midpoint(x + 1, y', r))
  {
    var f := Midpoint(x, y, r);
    var y', f' := if f >= 0 then y - 1 else y, if f >= 0 then f - 2 * (y - 1) else f;
    TermRange(x, y, r);
    MidpointStep(x, y, y', f, f', r);
    hide Midpoint, I16;
  }

  /** The octant of the code is the exact one if and only if no term overflows where its sign is used. */
  lemma {:induction false} ArcExactIff(x: int, y: int, r: int)
    requires OnArc(x, y, r)
    ensures var f := Midpoint(x, y, r);
            Arc16(x, y, I16(f), I16(2 * x + 1), I16(-2 * y)) == Arc(x, y, f) <==> TermsFit(x, y, f)
    decreases y - x
  {
    if x < y {
      hide *;
      var f := Midpoint(x, y, r);
      var y', g := if f >= 0 then y - 1 else y, NextMidpoint(x, y, f);
      OnArcStep(x, y, r);
      TermsFitStep(x, y, f);
      ArcExactIff(x + 1, y', r);
      Arc16Step(x, y, f);
      HeadAndTail(Arc16(x, y, I16(f), I16(2 * x + 1), I16(-2 * y)), Arc(x, y, f), Point(x + 1, y'),
                  Arc16(x + 1, y', I16(g), I16(2 * (x + 1) + 1), I16(-2 * y')), Arc(x + 1, y', g));
    }
  }

  lemma HeadAndTail(a: seq<Point>, b: seq<Point>, p: Point, a': seq<Point>, b': seq<Point>)
    requires b == [p] + b'
    ensures a == [p] + a' ==> (a == b <==> a' == b')
    ensures a != [] && a[0] != p ==> a != b
  {
    assert b[1..] == b' && (a == [p] + a' ==> a[1..] == a');
  }

  lemma TermsFitStep(x: int, y: int, f: int)
    requires x < y
    ensures TermsFit(x, y, f) <==> IsI16(f) && TermsFit(x + 1, if f >= 0 then y - 1 else y, NextMidpoint(x, y, f))
  {
  }

  lemma OctantExactIfTermsFit(r: int)
    requires 1 <= r <= 0x7fff
    ensures Octant16(r) == Octant(r) <==> TermsFit(0, r, 1 - r)
  {
    assert Midpoint(0, r, r) == 1 - r;
    ArcExactIff(0, r, r);
  }

  /** The radii with which no term overflows. */
  predicate RadiusFits(r: int) {
    r <= 16556 || r == 16642 || r == 16643
  }

  /** The octant stays left of the diagonal. */
  lemma LeftOfDiagonal(x: int, y: int, r: int)
    requires OnArc(x, y, r) && x < y <= r <= 0x5000
    ensures x < 0x4000
  {
    if x >= 0x4000 {
      TimesMonotone(0x4000, x, x);
      TimesMonotone(0x4000, y, y);
      TimesMonotone(x, y, 0x4000);
      TimesMonotone(0x4000, x, 0x4000);
      TimesMonotone(r, 0x5000, 0x5000);
      TimesMonotone(r, 0x5000, r);
    }
  }

  /** Once the point is no more than 16384 above the diagonal nothing overflows. */
  lemma {:induction false} LateTermsFit(x: int, y: int, r: int)
    requires OnArc(x, y, r) && y - x <= 0x4000 && y <= r <= 0x5000
    ensures TermsFit(x, y, Midpoint(x, y, r))
    decreases y - x
  {
    if x < y {
      LeftOfDiagonal(x, y, r);
      hide Midpoint, OnArc, I16, Arc;
      OnArcStep(x, y, r);
      LateTermsFit(x + 1, if Midpoint(x, y, r) >= 0 then y - 1 else y, r);
    }
  }

  /** The term before the first three steps down. */
  lemma EarlyMidpoint(x: int, r: int)
    ensures Midpoint(x, r, r) == (x + 1) * (x + 1) - r
    ensures Midpoint(x, r - 1, r) == (x + 1) * (x + 1) - 3 * r + 2
    ensures Midpoint(x, r - 2, r) == (x + 1) * (x + 1) - 5 * r + 6
  {
    var q := r * r;
    assert (r - 1) * (r - 1) == q - 2 * r + 1 && (r - 2) * (r - 2) == q - 4 * r + 4;
  }

  lemma SquareBelow(x: nat, b: nat, c: int)
    requires x * x < c <= b * b
    ensures x < b
  {
    if x >= b {
      TimesMonotone(b, x, x);
      TimesMonotone(b, x, b);
    }
  }

  lemma SquareAbove(x: nat, b: nat, c: int)
    requires b * b < c <= x * x
    ensures x > b
  {
    SquareBelow(b, x, c);
  }

  lemma SquareStep(x: nat)
    ensures (x + 1) * (x + 1) == x * x + 2 * x + 1 && (x + 2) * (x + 2) == (x + 1) * (x + 1) + 2 * (x + 1) + 1
  {
  }

  /** Before the third step down: it comes when the point is near enough to the diagonal. */
  lemma {:induction false} ThirdTermsFit(x: nat, r: int)
    requires 0x4000 < r <= 16643 && OnArc(x, r - 2, r) && x * x < 5 * r - 6
    requires (x + 1) * (x + 1) - 5 * r + 6 >= -0x8000
    ensures TermsFit(x, r - 2, Midpoint(x, r - 2, r))
    decreases r - x
  {
    var s := x + 1;
    EarlyMidpoint(x, r);
    SquareBelow(x, 300, 5 * r - 6);
    SquareStep(x);
    hide OnArc, Midpoint, TermsFit, I16, Arc;
    TermsFitStep(x, r - 2, Midpoint(x, r - 2, r));
    OnArcStep(x, r - 2, r);
    if s * s >= 5 * r - 6 {
      SquareAbove(s, 286, 5 * r - 6);
      LateTermsFit(s, r - 3, r);
    } else {
      ThirdTermsFit(s, r);
    }
  }

  /** Before the second one. */
  lemma {:induction false} SecondTermsFit(x: nat, r: int)
    requires 0x4000 < r && RadiusFits(r) && OnArc(x, r - 1, r) && x * x < 3 * r - 2
    requires (x + 1) * (x + 1) - 3 * r + 2 >= -0x8000
    ensures TermsFit(x, r - 1, Midpoint(x, r - 1, r))
    decreases r - x
  {
    var s := x + 1;
    EarlyMidpoint(x, r);
    SquareBelow(x, 224, 3 * r - 2);
    SquareStep(x);
    hide OnArc, Midpoint, TermsFit, I16, Arc;
    TermsFitStep(x, r - 1, Midpoint(x, r - 1, r));
    OnArcStep(x, r - 1, r);
    if s * s >= 3 * r - 2 {
      SecondDrop(x, r);
      ThirdTermsFit(s, r);
    } else {
      SecondTermsFit(s, r);
    }
  }

  lemma SecondDrop(x: nat, r: int)
    requires 0x4000 < r && RadiusFits(r) && x * x < 3 * r - 2 <= (x + 1) * (x + 1)
    ensures (x + 2) * (x + 2) - 5 * r + 6 >= -0x8000 && (x + 1) * (x + 1) < 5 * r - 6
  {
    SquareBelow(x, 224, 3 * r - 2);
    SquareAbove(x + 1, 221, 3 * r - 2);
    if r > 16428 {
      SquareAbove(x + 1, 222, 3 * r - 2);
    }
    if r > 16577 {
      SquareAbove(x + 1, 223, 3 * r - 2);
    }
    assert x == 221 || x == 222 || x == 223;
  }

  /** Before the first one. */
  lemma {:induction false} FirstTermsFit(x: nat, r: int)
    requires 0x4000 < r && RadiusFits(r) && OnArc(x, r, r) && x * x < r
    ensures TermsFit(x, r, Midpoint(x, r, r))
    decreases r - x
  {
    var s := x + 1;
    EarlyMidpoint(x, r);
    SquareBelow(x, 130, r);
    SquareStep(x);
    hide OnArc, Midpoint, TermsFit, I16, Arc;
    TermsFitStep(x, r, Midpoint(x, r, r));
    OnArcStep(x, r, r);
    if s * s >= r {
      FirstDropFits(x, r);
      SecondTermsFit(s, r);
    } else {
      FirstTermsFit(s, r);
    }
  }

  lemma FirstDropFits(x: nat, r: int)
    requires 0x4000 < r && RadiusFits(r) && x * x < r <= (x + 1) * (x + 1)
    ensures (x + 2) * (x + 2) - 3 * r + 2 >= -0x8000 && (x + 1) * (x + 1) < 3 * r - 2
  {
    SquareBelow(x, 130, r);
    SquareAbove(x + 1, 128, r);
    if r > 16641 {
      SquareAbove(x + 1, 129, r);
    }
    assert x == 128 || x == 129;
  }

  /**
   With the other radii the term is a square less the radius before the first step down, and that step takes it
   below -32768.
   */
  lemma {:induction false} LargeTermsOverflow(x: nat, r: int)
    requires r <= 0x7fff && !RadiusFits(r) && x * x < r
    ensures !TermsFit(x, r, (x + 1) * (x + 1) - r)
    decreases r - x
  {
    var s := x + 1;
    SquareBelow(x, 1000, r);
    if s * s - r >= 0 {
      FirstDrop(x, r);
    } else {
      assert (s + 1) * (s + 1) == s * s + 2 * s + 1;
      assert NextMidpoint(x, r, s * s - r) == (s + 1) * (s + 1) - r;
      LargeTermsOverflow(s, r);
    }
  }

  lemma FirstDrop(x: nat, r: int)
    requires r <= 0x7fff && !RadiusFits(r) && x * x < r <= (x + 1) * (x + 1) && x + 2 < r
    ensures !TermsFit(x, r, (x + 1) * (x + 1) - r)
  {
    var f := (x + 1) * (x + 1) - r;
    var f' := NextMidpoint(x, r, f);
    assert (x + 1) * (x + 1) == x * x + 2 * x + 1;
    assert f' == x * x + 4 * x + 6 - 3 * r;
    DropBound(x, r);
    assert !TermsFit(x + 1, r - 1, f');
  }

  lemma DropBound(x: nat, r: int)
    requires !RadiusFits(r) && x * x < r <= (x + 1) * (x + 1)
    ensures x * x + 4 * x + 6 - 3 * r < -0x8000
  {
    if r <= 16641 {
      SquareBelow(x, 129, r);
      TimesMonotone(x, 128, x);
      TimesMonotone(x, 128, 128);
    } else if r <= 16900 {
      SquareBelow(x, 130, r);
      TimesMonotone(x, 129, x);
      TimesMonotone(x, 129, 129);
    } else if 4 * x + 5 - 2 * r >= -0x8000 {
      TimesMonotone(132, x, x);
    }
  }

  lemma StartOnArc(r: int)
    requires 1 <= r <= 0x7fff
    ensures OnArc(0, r, r) && Midpoint(0, r, r) == 1 - r
  {
  }

  /** The octant of the code is the exact one if and only if the radius is one of those. */
  lemma OctantExactIff(r: int)
    requires IsI16(r)
    ensures Octant16(r) == Octant(r) <==> RadiusFits(r)
  {
    if r >= 1 {
      OctantExactIfTermsFit(r);
      TermsFitIff(r);
    }
  }

  lemma TermsFitIff(r: int)
    requires 1 <= r <= 0x7fff
    ensures TermsFit(0, r, 1 - r) <==> RadiusFits(r)
  {
    hide TermsFit, OnArc, Midpoint;
    StartOnArc(r);
    if r <= 0x4000 {
      LateTermsFit(0, r, r);
    } else if RadiusFits(r) {
      FirstTermsFit(0, r);
    } else {
      LargeTermsOverflow(0, r);
    }
  }

  /** Pixels as they arrive in 16 bits. */
  function Wrap(p: Point): Point {
    Point(I16(p.x), I16(p.y))
  }

  function Wrapped(ps: seq<Point>): (qs: seq<Point>)
    ensures |qs| == |ps|
  {
    seq(|ps|, i requires 0 <= i < |ps| => Wrap(ps[i]))
  }

  lemma WrappedGrows(ps: seq<Point>, qs: seq<Point>)
    ensures Wrapped(ps + qs) == Wrapped(ps) + Wrapped(qs)
  {
    hide Wrap;
  }

  /** Pixels that fit are passed on as they are. */
  lemma WrappedFits(ps: seq<Point>)
    requires forall i :: 0 <= i < |ps| ==> IsI16(ps[i].x) && IsI16(ps[i].y)
    ensures Wrapped(ps) == ps
  {
    forall i | 0 <= i < |ps|
      ensures Wrapped(ps)[i] == ps[i]
    {
      assert Wrap(ps[i]) == ps[i];
    }
  }

  /** What drawCircle plots. */
  function CodeCircle(x0: int, y0: int, r: int): seq<Point> {
    Wrapped(Cardinals(x0, y0, r) + AllMirrors(x0, y0, Octant16(r)))
  }

  /** What drawCircleHelper plots. */
  function CodeCorners(x0: int, y0: int, r: int, corner: nat): seq<Point> {
    Wrapped(AllCorners(x0, y0, Octant16(r), corner))
  }

  predicate CircleSquareFits(x0: int, y0: int, r: int) {
    IsI16(x0 - Abs(r)) && IsI16(x0 + Abs(r)) && IsI16(y0 - Abs(r)) && IsI16(y0 + Abs(r))
  }

  /** The radius is one that the loop gets right, and the bounding square is in 16 bits. */
  predicate CircleFits(x0: int, y0: int, r: int) {
    RadiusFits(r) && CircleSquareFits(x0, y0, r)
  }

  /** Points no further right or up than r. */
  predicate Inside(ps: seq<Point>, r: int) {
    forall i :: 0 <= i < |ps| ==> 0 <= ps[i].x <= r && 0 <= ps[i].y <= r
  }

  predicate InSquare(p: Point, x0: int, y0: int, r: int) {
    Abs(p.x - x0) <= Abs(r) && Abs(p.y - y0) <= Abs(r)
  }

  lemma MirrorsOfPoint(x0: int, y0: int, p: Point, r: int)
    requires 0 <= p.x <= r && 0 <= p.y <= r
    ensures forall i :: 0 <= i < |Mirrors(x0, y0, p)| ==> InSquare(Mirrors(x0, y0, p)[i], x0, y0, r)
  {
  }

  lemma {:induction false} MirrorsInSquare(x0: int, y0: int, ps: seq<Point>, r: int)
    requires Inside(ps, r)
    ensures forall i :: 0 <= i < |AllMirrors(x0, y0, ps)| ==> InSquare(AllMirrors(x0, y0, ps)[i], x0, y0, r)
  {
    if ps != [] {
      MirrorsInSquare(x0, y0, ps[..|ps| - 1], r);
      MirrorsOfPoint(x0, y0, ps[|ps| - 1], r);
      hide InSquare, Mirrors;
    }
  }

  lemma OctantInside(r: int)
    ensures Inside(Octant(r), r)
  {
    ArcColumns(0, r, 1 - r);
    hide Arc;
  }

  lemma InsideCons(p: Point, ps: seq<Point>, y': int, y: int)
    requires Inside(ps, y') && y' <= y && 0 <= p.x <= y && 0 <= p.y <= y
    ensures Inside([p] + ps, y)
  {
  }

  lemma {:induction false} Arc16Inside(x: int, y: int, f: int, ddFx: int, ddFy: int)
    requires 0 <= x
    ensures Inside(Arc16(x, y, f, ddFx, ddFy), y)
    decreases y - x
  {
    if x >= y {
      assert Arc16(x, y, f, ddFx, ddFy) == [];
    } else {
      hide I16, Inside, Arc16;
      var ddFy' := if f >= 0 then I16(ddFy + 2) else ddFy;
      var y', g := if f >= 0 then y - 1 else y, if f >= 0 then I16(f + ddFy') else f;
      var rest := Arc16(x + 1, y', I16(g + I16(ddFx + 2)), I16(ddFx + 2), ddFy');
      Arc16Unfold([], x, y, f, ddFx, ddFy);
      EmptyPrefix(Arc16(x, y, f, ddFx, ddFy), Point(x + 1, y'), rest);
      Arc16Inside(x + 1, y', I16(g + I16(ddFx + 2)), I16(ddFx + 2), ddFy');
      InsideCons(Point(x + 1, y'), rest, y', y);
    }
  }

  lemma EmptyPrefix(ps: seq<Point>, p: Point, qs: seq<Point>)
    requires [] + ps == [] + [p] + qs
    ensures ps == [p] + qs
  {
    assert [] + ps == ps && [] + [p] + qs == [p] + qs;
  }

  lemma CardinalsInSquare(x0: int, y0: int, r: int)
    ensures forall i :: 0 <= i < 4 ==> InSquare(Cardinals(x0, y0, r)[i], x0, y0, r)
  {
  }

  lemma SquareWrapped(x0: int, y0: int, r: int, ps: seq<Point>)
    requires CircleSquareFits(x0, y0, r) && forall i :: 0 <= i < |ps| ==> InSquare(ps[i], x0, y0, r)
    ensures Wrapped(ps) == ps
  {
    hide Wrapped;
    WrappedFits(ps);
  }

  /** The circle of the code is the exact one where it fits. */
  lemma CircleExact(x0: int, y0: int, r: int)
    requires IsI16(x0) && IsI16(y0) && IsI16(r) && CircleFits(x0, y0, r)
    ensures CodeCircle(x0, y0, r) == CirclePoints(x0, y0, r)
  {
    hide Octant, Octant16, AllMirrors, Wrapped, RadiusFits, CircleSquareFits, Inside, InSquare;
    OctantExactIff(r);
    OctantInside(r);
    MirrorsInSquare(x0, y0, Octant(r), r);
    var cs, ms := Cardinals(x0, y0, r), AllMirrors(x0, y0, Octant(r));
    CardinalsInSquare(x0, y0, r);
    assert |cs| == 4;
    hide Cardinals;
    SquareWrapped(x0, y0, r, cs);
    SquareWrapped(x0, y0, r, ms);
    WrappedGrows(cs, ms);
  }

  /** Eight pixels for each octant point, the first of them in the octant itself. */
  lemma {:induction false} AllMirrorsAt(x0: int, y0: int, ps: seq<Point>, i: nat)
    ensures |AllMirrors(x0, y0, ps)| == 8 * |ps|
    ensures i < |ps| ==> AllMirrors(x0, y0, ps)[8 * i] == Point(x0 + ps[i].x, y0 + ps[i].y)
  {
    if ps != [] {
      AllMirrorsAt(x0, y0, ps[..|ps| - 1], i);
    }
  }

  lemma MirrorsTellPoints(x0: int, y0: int, r: int, ps: seq<Point>, qs: seq<Point>)
    requires CircleSquareFits(x0, y0, r) && Wrapped(AllMirrors(x0, y0, ps)) == AllMirrors(x0, y0, qs)
    requires Inside(ps, r)
    ensures ps == qs
  {
    AllMirrorsAt(x0, y0, ps, 0);
    AllMirrorsAt(x0, y0, qs, 0);
    var ms := AllMirrors(x0, y0, ps);
    hide AllMirrors, CircleSquareFits, Wrap;
    forall i | 0 <= i < |ps|
      ensures ps[i] == qs[i]
    {
      AllMirrorsAt(x0, y0, ps, i);
      AllMirrorsAt(x0, y0, qs, i);
      assert Wrapped(ms)[8 * i] == Wrap(ms[8 * i]);
      PointTold(x0, y0, r, ps[i], qs[i]);
    }
  }

  lemma PointTold(x0: int, y0: int, r: int, p: Point, q: Point)
    requires CircleSquareFits(x0, y0, r) && 0 <= p.x <= r && 0 <= p.y <= r
    requires Wrap(Point(x0 + p.x, y0 + p.y)) == Point(x0 + q.x, y0 + q.y)
    ensures p == q
  {
    hide I16;
  }

  lemma CardinalsFit(x0: int, y0: int, r: int)
    requires Wrapped(Cardinals(x0, y0, r)) == Cardinals(x0, y0, r)
    ensures CircleSquareFits(x0, y0, r)
  {
    var cs := Cardinals(x0, y0, r);
    assert Wrapped(cs)[0] == Wrap(cs[0]) && Wrapped(cs)[1] == Wrap(cs[1]);
    assert Wrapped(cs)[2] == Wrap(cs[2]) && Wrapped(cs)[3] == Wrap(cs[3]);
  }

  /** drawCircle plots the exact circle if and only if the radius and the bounding square fit. */
  lemma CircleExactIff(x0: int, y0: int, r: int)
    requires IsI16(x0) && IsI16(y0) && IsI16(r)
    ensures CodeCircle(x0, y0, r) == CirclePoints(x0, y0, r) <==> CircleFits(x0, y0, r)
  {
    hide Octant, Octant16, AllMirrors, Wrapped, RadiusFits, CircleSquareFits;
    if CircleFits(x0, y0, r) {
      CircleExact(x0, y0, r);
    } else if CodeCircle(x0, y0, r) == CirclePoints(x0, y0, r) {
      var cs, ms, ns := Cardinals(x0, y0, r), AllMirrors(x0, y0, Octant16(r)), AllMirrors(x0, y0, Octant(r));
      WrappedGrows(cs, ms);
      PartsEqual(Wrapped(cs), Wrapped(ms), cs, ns);
      CardinalsFit(x0, y0, r);
      OctantExactIff(r);
      CodeOctantInside(r);
      MirrorsTellPoints(x0, y0, r, Octant16(r), Octant(r));
    }
  }

  lemma CodeOctantInside(r: int)
    ensures Inside(Octant16(r), r)
  {
    hide I16, Inside;
    Arc16Inside(0, r, I16(1 - r), 1, I16(-2 * r));
  }

  lemma PartsEqual(a: seq<Point>, b: seq<Point>, c: seq<Point>, d: seq<Point>)
    requires a + b == c + d && |a| == |c|
    ensures a == c && b == d
  {
    assert (a + b)[..|a|] == a && (c + d)[..|c|] == c && (a + b)[|a|..] == b && (c + d)[|c|..] == d;
  }

  /** A circle of radius 16557 leaves the octant. */
  lemma LargeCircleWrong(x0: int, y0: int)
    requires IsI16(x0) && IsI16(y0)
    ensures CodeCircle(x0, y0, 16557) != CirclePoints(x0, y0, 16557)
  {
    CircleExactIff(x0, y0, 16557);
  }

  // ---------------------------------------------------------------- corners

  predicate LowerRight(corner: nat) {
    corner / 4 % 2 == 1
  }

  predicate UpperRight(corner: nat) {
    corner / 2 % 2 == 1
  }

  predicate LowerLeft(corner: nat) {
    corner / 8 % 2 == 1
  }

  predicate UpperLeft(corner: nat) {
    corner % 2 == 1
  }

  predicate AnyCorner(corner: nat) {
    LowerRight(corner) || UpperRight(corner) || LowerLeft(corner) || UpperLeft(corner)
  }

  /** The sides of the bounding square that the chosen corners touch are in 16 bits. */
  predicate SidesFit(x0: int, y0: int, r: int, corner: nat) {
    && (LowerRight(corner) || UpperRight(corner) ==> IsI16(x0 + r))
    && (LowerLeft(corner) || UpperLeft(corner) ==> IsI16(x0 - r))
    && (LowerRight(corner) || LowerLeft(corner) ==> IsI16(y0 + r))
    && (UpperRight(corner) || UpperLeft(corner) ==> IsI16(y0 - r))
  }

  /** The corners that the code draws exactly. */
  predicate CornersFit(x0: int, y0: int, r: int, corner: nat) {
    !AnyCorner(corner) || r < 1 || (RadiusFits(r) && SidesFit(x0, y0, r, corner))
  }

  predicate IsPixel16(p: Point) {
    IsI16(p.x) && IsI16(p.y)
  }

  lemma WrappedPair(b: bool, p: Point, q: Point)
    ensures Wrapped(PairIf(b, p, q)) == PairIf(b, p, q) <==> (b ==> IsPixel16(p) && IsPixel16(q))
  {
    if b {
      assert Wrapped([p, q]) == [Wrap(p), Wrap(q)];
      hide I16;
    }
  }

  lemma WrappedParts(a: seq<Point>, b: seq<Point>)
    ensures Wrapped(a + b) == a + b <==> Wrapped(a) == a && Wrapped(b) == b
  {
    WrappedGrows(a, b);
    hide Wrapped;
    if Wrapped(a + b) == a + b {
      PartsEqual(Wrapped(a), Wrapped(b), a, b);
    }
  }

  /** The pixels of one octant point in the four corners. */
  predicate PixelsFit(x0: int, y0: int, p: Point, corner: nat) {
    && (LowerRight(corner) ==> IsPixel16(Point(x0 + p.x, y0 + p.y)) && IsPixel16(Point(x0 + p.y, y0 + p.x)))
    && (UpperRight(corner) ==> IsPixel16(Point(x0 + p.x, y0 - p.y)) && IsPixel16(Point(x0 + p.y, y0 - p.x)))
    && (LowerLeft(corner) ==> IsPixel16(Point(x0 - p.y, y0 + p.x)) && IsPixel16(Point(x0 - p.x, y0 + p.y)))
    && (UpperLeft(corner) ==> IsPixel16(Point(x0 - p.y, y0 - p.x)) && IsPixel16(Point(x0 - p.x, y0 - p.y)))
  }

  /** The corners of one point, by name. */
  function Quadrants(x0: int, y0: int, p: Point, b: bool, c: bool, d: bool, e: bool): seq<Point> {
    PairIf(b, Point(x0 + p.x, y0 + p.y), Point(x0 + p.y, y0 + p.x)) +
    PairIf(c, Point(x0 + p.x, y0 - p.y), Point(x0 + p.y, y0 - p.x)) +
    PairIf(d, Point(x0 - p.y, y0 + p.x), Point(x0 - p.x, y0 + p.y)) +
    PairIf(e, Point(x0 - p.y, y0 - p.x), Point(x0 - p.x, y0 - p.y))
  }

  lemma CornersByName(x0: int, y0: int, p: Point, corner: nat)
    ensures Corners(x0, y0, p, corner) ==
            Quadrants(x0, y0, p, LowerRight(corner), UpperRight(corner), LowerLeft(corner), UpperLeft(corner))
  {
    hide PairIf;
  }

  lemma QuadrantsWrapped(x0: int, y0: int, p: Point, corner: nat)
    ensures Wrapped(Corners(x0, y0, p, corner)) == Corners(x0, y0, p, corner) <==> PixelsFit(x0, y0, p, corner)
  {
    CornersByName(x0, y0, p, corner);
    hide Corners, PairIf, Wrapped, IsPixel16, LowerRight, UpperRight, LowerLeft, UpperLeft;
    var a := PairIf(LowerRight(corner), Point(x0 + p.x, y0 + p.y), Point(x0 + p.y, y0 + p.x));
    var b := PairIf(UpperRight(corner), Point(x0 + p.x, y0 - p.y), Point(x0 + p.y, y0 - p.x));
    var c := PairIf(LowerLeft(corner), Point(x0 - p.y, y0 + p.x), Point(x0 - p.x, y0 + p.y));
    var d := PairIf(UpperLeft(corner), Point(x0 - p.y, y0 - p.x), Point(x0 - p.x, y0 - p.y));
    WrappedPair(LowerRight(corner), Point(x0 + p.x, y0 + p.y), Point(x0 + p.y, y0 + p.x));
    WrappedPair(UpperRight(corner), Point(x0 + p.x, y0 - p.y), Point(x0 + p.y, y0 - p.x));
    WrappedPair(LowerLeft(corner), Point(x0 - p.y, y0 + p.x), Point(x0 - p.x, y0 + p.y));
    WrappedPair(UpperLeft(corner), Point(x0 - p.y, y0 - p.x), Point(x0 - p.x, y0 - p.y));
    WrappedParts(a, b);
    WrappedParts(a + b, c);
    WrappedParts(a + b + c, d);
  }

  /** Within the sides that fit, every pixel does. */
  lemma SidesHold(x0: int, y0: int, p: Point, r: int, corner: nat)
    requires IsI16(x0) && IsI16(y0) && 0 <= p.x <= r && 0 <= p.y <= r && SidesFit(x0, y0, r, corner)
    ensures PixelsFit(x0, y0, p, corner)
  {
    hide LowerRight, UpperRight, LowerLeft, UpperLeft;
  }

  /** The first octant point touches the sides. */
  lemma FirstPointTouches(x0: int, y0: int, r: int, corner: nat)
    requires PixelsFit(x0, y0, Point(1, if r == 1 then 0 else r), corner)
    ensures SidesFit(x0, y0, r, corner)
  {
    hide LowerRight, UpperRight, LowerLeft, UpperLeft;
  }

  lemma {:induction false} AllCornersWrapped(x0: int, y0: int, ps: seq<Point>, r: int, corner: nat)
    requires IsI16(x0) && IsI16(y0) && Inside(ps, r) && SidesFit(x0, y0, r, corner)
    ensures Wrapped(AllCorners(x0, y0, ps, corner)) == AllCorners(x0, y0, ps, corner)
  {
    if ps != [] {
      var n := |ps| - 1;
      assert 0 <= ps[n].x <= r && 0 <= ps[n].y <= r;
      assert Inside(ps[..n], r);
      hide Wrapped, SidesFit, PixelsFit, Corners, Inside;
      AllCornersWrapped(x0, y0, ps[..n], r, corner);
      SidesHold(x0, y0, ps[n], r, corner);
      QuadrantsWrapped(x0, y0, ps[n], corner);
      WrappedParts(AllCorners(x0, y0, ps[..n], corner), Corners(x0, y0, ps[n], corner));
    }
  }

  /** The corners of different points are different, and as many. */
  lemma CornersTellPoint(x0: int, y0: int, p: Point, q: Point, corner: nat)
    ensures |Corners(x0, y0, p, corner)| == |Corners(x0, y0, q, corner)|
    ensures AnyCorner(corner) ==> Corners(x0, y0, p, corner) != []
    ensures AnyCorner(corner) && Corners(x0, y0, p, corner) == Corners(x0, y0, q, corner) ==> p == q
  {
    CornersByName(x0, y0, p, corner);
    CornersByName(x0, y0, q, corner);
    hide Corners, LowerRight, UpperRight, LowerLeft, UpperLeft;
    FirstQuadrant(x0, y0, p, LowerRight(corner), UpperRight(corner), LowerLeft(corner), UpperLeft(corner));
    FirstQuadrant(x0, y0, q, LowerRight(corner), UpperRight(corner), LowerLeft(corner), UpperLeft(corner));
  }

  lemma FirstQuadrant(x0: int, y0: int, p: Point, b: bool, c: bool, d: bool, e: bool)
    ensures var ps := Quadrants(x0, y0, p, b, c, d, e);
            && |ps| == (if b then 2 else 0) + (if c then 2 else 0) + (if d then 2 else 0) + (if e then 2 else 0)
            && (b ==> ps[0] == Point(x0 + p.x, y0 + p.y))
            && (!b && c ==> ps[0] == Point(x0 + p.x, y0 - p.y))
            && (!b && !c && d ==> ps[0] == Point(x0 - p.y, y0 + p.x))
            && (!b && !c && !d && e ==> ps[0] == Point(x0 - p.y, y0 - p.x))
  {
  }

  lemma {:induction false} AllCornersTellPoints(x0: int, y0: int, ps: seq<Point>, qs: seq<Point>, corner: nat)
    requires AnyCorner(corner) && AllCorners(x0, y0, ps, corner) == AllCorners(x0, y0, qs, corner)
    ensures ps == qs
  {
    hide Corners, AnyCorner;
    if ps != [] && qs != [] {
      var m, n := |ps| - 1, |qs| - 1;
      CornersTellPoint(x0, y0, ps[m], qs[n], corner);
      EndsEqual(AllCorners(x0, y0, ps[..m], corner), Corners(x0, y0, ps[m], corner),
                AllCorners(x0, y0, qs[..n], corner), Corners(x0, y0, qs[n], corner));
      AllCornersTellPoints(x0, y0, ps[..m], qs[..n], corner);
      assert ps == ps[..m] + [ps[m]] && qs == qs[..n] + [qs[n]];
    } else if ps != [] {
      CornersTellPoint(x0, y0, ps[|ps| - 1], ps[|ps| - 1], corner);
    } else if qs != [] {
      CornersTellPoint(x0, y0, qs[|qs| - 1], qs[|qs| - 1], corner);
    }
  }

  lemma EndsEqual(a: seq<Point>, b: seq<Point>, c: seq<Point>, d: seq<Point>)
    requires a + b == c + d && |b| == |d|
    ensures a == c && b == d
  {
    assert |a| == |c|;
    PartsEqual(a, b, c, d);
  }

  /** The corners of the first point come first. */
  lemma {:induction false} FirstCorners(x0: int, y0: int, ps: seq<Point>, corner: nat)
    requires ps != []
    ensures Corners(x0, y0, ps[0], corner) <= AllCorners(x0, y0, ps, corner)
  {
    hide Corners;
    var n := |ps| - 1;
    if n == 0 {
      assert AllCorners(x0, y0, ps[..0], corner) == [];
    } else {
      FirstCorners(x0, y0, ps[..n], corner);
    }
  }

  /** Code and closed form begin with the same point. */
  lemma FirstPoints(r: int)
    requires 1 <= r <= 0x7fff
    ensures Octant(r) != [] && Octant(r)[0] == Point(1, if r == 1 then 0 else r)
    ensures Octant16(r) != [] && Octant16(r)[0] == Point(1, if r == 1 then 0 else r)
  {
    assert I16(1 - r) == 1 - r;
    hide I16;
  }

  lemma WrappedPrefix(a: seq<Point>, b: seq<Point>, c: seq<Point>)
    requires a <= b && a <= c && Wrapped(b) == c
    ensures Wrapped(a) == a
  {
    forall i | 0 <= i < |a|
      ensures Wrapped(a)[i] == a[i]
    {
      assert Wrapped(b)[i] == Wrap(b[i]) && c[i] == a[i];
    }
  }

  /** Where the corners come out exactly, the sides fit. */
  lemma ExactNeedsSides(x0: int, y0: int, r: int, corner: nat)
    requires 1 <= r <= 0x7fff && CodeCorners(x0, y0, r, corner) == AllCorners(x0, y0, Octant(r), corner)
    ensures SidesFit(x0, y0, r, corner)
  {
    FirstPoints(r);
    hide Octant, Octant16, AllCorners, Wrapped, SidesFit, PixelsFit, Corners;
    var p := Octant(r)[0];
    FirstCorners(x0, y0, Octant16(r), corner);
    FirstCorners(x0, y0, Octant(r), corner);
    WrappedPrefix(Corners(x0, y0, p, corner), AllCorners(x0, y0, Octant16(r), corner),
                  AllCorners(x0, y0, Octant(r), corner));
    QuadrantsWrapped(x0, y0, p, corner);
    FirstPointTouches(x0, y0, r, corner);
  }

  /** drawCircleHelper plots the exact corners if and only if it plots none, or radius and sides fit. */
  lemma CornersExactIff(x0: int, y0: int, r: int, corner: nat)
    requires IsI16(x0) && IsI16(y0) && IsI16(r)
    ensures CodeCorners(x0, y0, r, corner) == AllCorners(x0, y0, Octant(r), corner) <==> CornersFit(x0, y0, r, corner)
  {
    if r < 1 {
      assert Octant(r) == [] && Octant16(r) == [];
      NoneWrapped(x0, y0, corner);
    } else if !AnyCorner(corner) {
      NoCorners(x0, y0, Octant(r), corner);
      NoCorners(x0, y0, Octant16(r), corner);
    } else {
      hide Octant, Octant16, AllCorners, Wrapped, RadiusFits, SidesFit, AnyCorner, Inside;
      OctantExactIff(r);
      CodeOctantInside(r);
      var ps, qs := Octant16(r), Octant(r);
      if CodeCorners(x0, y0, r, corner) == AllCorners(x0, y0, qs, corner) {
        ExactNeedsSides(x0, y0, r, corner);
        AllCornersWrapped(x0, y0, ps, r, corner);
        AllCornersTellPoints(x0, y0, ps, qs, corner);
      } else if CornersFit(x0, y0, r, corner) {
        AllCornersWrapped(x0, y0, ps, r, corner);
      }
    }
  }

  lemma {:induction false} NoCorners(x0: int, y0: int, ps: seq<Point>, corner: nat)
    requires !AnyCorner(corner)
    ensures AllCorners(x0, y0, ps, corner) == []
  {
    if ps != [] {
      CornersByName(x0, y0, ps[|ps| - 1], corner);
      hide Corners, LowerRight, UpperRight, LowerLeft, UpperLeft;
      NoCorners(x0, y0, ps[..|ps| - 1], corner);
    }
  }

  // ---------------------------------------------------------------- one more point

  lemma Arc16Unfold(arc: seq<Point>, x: int, y: int, f: int, ddFx: int, ddFy: int)
    requires x < y
    ensures var ddFy' := if f >= 0 then I16(ddFy + 2) else ddFy;
            var y', g := if f >= 0 then y - 1 else y, if f >= 0 then I16(f + ddFy') else f;
            arc + Arc16(x, y, f, ddFx, ddFy)
              == arc + [Point(x + 1, y')] + Arc16(x + 1, y', I16(g + I16(ddFx + 2)), I16(ddFx + 2), ddFy')
  {
    hide I16;
  }

  lemma FourParts(base: seq<Point>, a: seq<Point>, b: seq<Point>, c: seq<Point>, d: seq<Point>)
    ensures base + Wrapped(a) + Wrapped(b) + Wrapped(c) + Wrapped(d) == base + Wrapped(a + b + c + d)
  {
    hide Wrapped;
    WrappedGrows(a, b);
    WrappedGrows(a + b, c);
    WrappedGrows(a + b + c, d);
  }

  lemma MirrorsGrow(base: seq<Point>, x0: int, y0: int, arc: seq<Point>, p: Point)
    ensures base + Wrapped(AllMirrors(x0, y0, arc + [p])) ==
        base + Wrapped(AllMirrors(x0, y0, arc)) + Wrapped(Mirrors(x0, y0, p))
  {
    AllMirrorsGrows([], x0, y0, arc, p);
    hide AllMirrors, Mirrors, Wrapped;
    var a := AllMirrors(x0, y0, arc);
    assert [] + AllMirrors(x0, y0, arc + [p]) == AllMirrors(x0, y0, arc + [p]) && [] + a == a;
    WrappedGrows(a, Mirrors(x0, y0, p));
  }

  lemma CornersGrow(base: seq<Point>, x0: int, y0: int, arc: seq<Point>, p: Point, corner: nat)
    ensures base + Wrapped(AllCorners(x0, y0, arc + [p], corner))
      == base + Wrapped(AllCorners(x0, y0, arc, corner)) + Wrapped(Corners(x0, y0, p, corner))
  {
    AllCornersGrows([], x0, y0, arc, p, corner);
    hide AllCorners, Corners, Wrapped;
    var a := AllCorners(x0, y0, arc, corner);
    assert [] + AllCorners(x0, y0, arc + [p], corner) == AllCorners(x0, y0, arc + [p], corner) && [] + a == a;
    WrappedGrows(a, Corners(x0, y0, p, corner));
  }

  lemma NoneWrapped(x0: int, y0: int, corner: nat)
    ensures Wrapped(AllMirrors(x0, y0, [])) == [] && Wrapped(AllCorners(x0, y0, [], corner)) == []
  {
  }
}
