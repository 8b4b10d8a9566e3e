/**
 The rasterisers of the graphics base class: Bresenham line, midpoint circle and
 scanline triangle.  Each keeps an error term by additions only; the closed forms
 here are what the error terms stand for.
 */
module Raster {
  import opened Arith
  import opened Machine

  datatype Point = Point(x: int, y: int)

  /** One drawFastHLine call. */
  datatype Span = Span(x: int, y: int, w: int)

  // ---------------------------------------------------------------- line

  /** How many minor steps belong to k major steps: k * dy / dx rounded, halves down. */
  function Rung(k: nat, dy: nat, dx: nat): nat {
    if dx == 0 then 0 else Div(Times(k, dy) + (dx - 1) / 2, dx)
  }

  /** Rounding down after adding half is rounding to the nearest. */
  lemma HalfOpen(p: int, m: int, dx: nat)
    requires dx > 0
    ensures p <= m + (dx - 1) / 2 < p + dx <==> -(dx / 2) <= p - m < dx - dx / 2
  {
  }

  /** The rung is within half a pixel of the ideal line, and it is the only such integer up to ties. */
  lemma RungIsNearest(k: nat, dy: nat, dx: nat, s: int)
    requires dx > 0
    ensures s == Rung(k, dy, dx) <==> -(dx / 2) <= s * dx - k * dy < dx - dx / 2
    ensures 2 * Abs(Rung(k, dy, dx) * dx - k * dy) <= dx
  {
    var m := Times(k, dy) + (dx - 1) / 2;
    var q := Rung(k, dy, dx);
    assert q == Div(m, dx);
    DivUnique(m, dx, s);
    hide Rung, Div;
    HalfOpen(q * dx, k * dy, dx);
    HalfOpen(s * dx, k * dy, dx);
  }

  /** A line after the source's two exchanges: along x, left to right, possibly mirrored. */
  datatype Run = Run(steep: bool, x0: int, y0: int, x1: int, y1: int) {
    function Dx(): int {
      x1 - x0
    }

    function Dy(): nat {
      Abs(y1 - y0)
    }

    function At(k: nat): Point {
      var s := Rung(k, Dy(), Abs(Dx()));
      var y := if y0 < y1 then y0 + s else y0 - s;
      if steep then Point(y, x0 + k) else Point(x0 + k, y)
    }

    /** The first n points. */
    function PointsTo(n: nat): seq<Point> {
      seq(n, k requires 0 <= k => At(k))
    }

    function Points(): seq<Point>
      requires Dx() >= 0
    {
      PointsTo(Dx() + 1)
    }
  }

  function Normal(x0: int, y0: int, x1: int, y1: int): (r: Run)
    ensures r.Dx() >= r.Dy() >= 0
  {
    var steep := Abs(y1 - y0) > Abs(x1 - x0);
    var (a0, b0, a1, b1) := if steep then (y0, x0, y1, x1) else (x0, y0, x1, y1);
    if a0 > a1 then Run(steep, a1, b1, a0, b0) else Run(steep, a0, b0, a1, b1)
  }

  function LinePoints(x0: int, y0: int, x1: int, y1: int): seq<Point> {
    Normal(x0, y0, x1, y1).Points()
  }

  /** Both endpoints are hit exactly. */
  lemma LineHitsEnds(x0: int, y0: int, x1: int, y1: int)
    ensures var ps := LinePoints(x0, y0, x1, y1);
            || (ps[0] == Point(x0, y0) && ps[|ps| - 1] == Point(x1, y1))
            || (ps[0] == Point(x1, y1) && ps[|ps| - 1] == Point(x0, y0))
  {
    var r := Normal(x0, y0, x1, y1);
    if r.Dx() > 0 {
      RungIsNearest(0, r.Dy(), r.Dx(), 0);
      RungIsNearest(r.Dx(), r.Dy(), r.Dx(), r.Dy());
    }
  }

  /** Exchanging the endpoints plots the same points. */
  lemma LineSymmetric(x0: int, y0: int, x1: int, y1: int)
    ensures LinePoints(x0, y0, x1, y1) == LinePoints(x1, y1, x0, y0)
  {
  }

  /** Neighbouring points differ by one in the major direction and by at most one in the minor one. */
  lemma RungSteps(k: nat, dy: nat, dx: nat)
    requires dx >= dy && dx > 0
    ensures Rung(k, dy, dx) <= Rung(k + 1, dy, dx) <= Rung(k, dy, dx) + 1
  {
    hide Rung;
    var s := Rung(k, dy, dx);
    RungIsNearest(k, dy, dx, s);
    RungIsNearest(k + 1, dy, dx, s);
    RungIsNearest(k + 1, dy, dx, s + 1);
    var p, q := k * dy, s * dx;
    assert (k + 1) * dy == p + dy && (s + 1) * dx == q + dx by {
      NextTerm(k, dy, s, dx);
    }
  }

  /** While the error term is in range, s minor steps are the rung of column k. */
  lemma ErrorTermFindsRung(r: Run, k: nat, s: nat, err: int)
    requires r.Dx() >= r.Dy() && k <= r.Dx() && err == r.Dx() / 2 - k * r.Dy() + s * r.Dx()
    requires if r.Dx() == 0 then s == 0 else 0 <= err < r.Dx()
    ensures var y := if r.y0 < r.y1 then r.y0 + s else r.y0 - s;
            r.At(k) == if r.steep then Point(y, r.x0 + k) else Point(r.x0 + k, y)
  {
    if r.Dx() > 0 {
      RungIsNearest(k, r.Dy(), r.Dx(), s);
    }
  }

  lemma NextTerm(k: int, dy: int, s: int, dx: int)
    ensures (k + 1) * dy == k * dy + dy && (s + 1) * dx == s * dx + dx
  {
  }

  /** What the generic drawFastVLine and drawFastHLine plot. */
  function Column(x: int, y: int, h: int): seq<Point> {
    LinePoints(x, y, x, y + h - 1)
  }

  function Row(x: int, y: int, w: int): seq<Point> {
    LinePoints(x, y, x + w - 1, y)
  }

  /** They plot the h pixels of the line for a positive length only; otherwise 2 - h pixels the other way. */
  lemma FastLinesNeedPositiveLength(x: int, y: int, h: int)
    ensures h >= 1 ==> Column(x, y, h) == seq(h, k requires 0 <= k < h => Point(x, y + k))
    ensures h >= 1 ==> Row(x, y, h) == seq(h, k requires 0 <= k < h => Point(x + k, y))
    ensures |Column(x, y, h)| == |Row(x, y, h)| == if h >= 1 then h else 2 - h
    ensures |Column(x, y, h)| == (if h > 0 then h else 0) <==> h >= 1
  {
    FlatRun(Normal(x, y, x, y + h - 1));
    FlatRun(Normal(x, y, x + h - 1, y));
  }

  lemma FlatRun(r: Run)
    requires r.Dy() == 0 && r.Dx() >= 0
    ensures r.Points() == seq(r.Dx() + 1, k requires 0 <= k =>
              if r.steep then Point(r.y0, r.x0 + k) else Point(r.x0 + k, r.y0))
  {
  }

  /** The length of a line along its major axis fits in an `int16_t`. */
  predicate LineFits(x0: int, y0: int, x1: int, y1: int) {
    Normal(x0, y0, x1, y1).Dx() <= 0x7fff
  }

  lemma RungBounded(k: nat, dy: nat, dx: nat)
    requires 0 < dx && k <= dx
    ensures Rung(k, dy, dx) <= dy
  {
    hide Rung;
    var s := Rung(k, dy, dx);
    RungIsNearest(k, dy, dx, s);
    TimesMonotone(k, dx, dy);
    TimesMonotone(dy + 1, s, dx);
    assert dx * dy == dy * dx && (dy + 1) * dx == dy * dx + dx;
  }

  /** No point of a line lies beyond its endpoints. */
  lemma LineStaysInside(r: Run, k: nat)
    requires r.Dx() >= r.Dy() && k <= r.Dx()
    ensures var p := if r.steep then Point(r.At(k).y, r.At(k).x) else r.At(k);
            r.x0 <= p.x <= r.x1 && Min(r.y0, r.y1) <= p.y <= Max(r.y0, r.y1)
  {
    if r.Dx() > 0 {
      RungBounded(k, r.Dy(), r.Dx());
    }
  }

  // ---------------------------------------------------------------- circle

  /** The octant points from (x, y) on, f being the midpoint term: one point per column. */
  function Arc(x: int, y: int, f: int): seq<Point>
    decreases y - x
  {
    if x >= y then []
    else
      var y', f' := if f >= 0 then y - 1 else y, if f >= 0 then f - 2 * (y - 1) else f;
      [Point(x + 1, y')] + Arc(x + 1, y', f' + 2 * (x + 1) + 1)
  }

  function Octant(r: int): seq<Point> {
    Arc(0, r, 1 - r)
  }

  /** The midpoint term: the circle equation at the midpoint below the next point, times four, over four. */
  function Midpoint(x: int, y: int, r: int): int {
    (x + 1) * (x + 1) + y * y - y - r * r
  }

  /** No integer is nearer to the circle in this column: x*x + y*y is within y of r*r. */
  predicate OnCircle(p: Point, r: int) {
    -p.y <= p.x * p.x + p.y * p.y - r * r <= p.y
  }

  lemma {:induction false} ArcOnCircle(x: int, y: int, r: int)
    requires 0 <= x && OnCircle(Point(x, y), r)
    requires x < y ==> x * x + y * y - r * r < y
    ensures forall p :: p in Arc(x, y, Midpoint(x, y, r)) ==> OnCircle(p, r)
    decreases y - x
  {
    if x < y {
      var f := Midpoint(x, y, r);
      var y', f' := if f >= 0 then y - 1 else y, if f >= 0 then f - 2 * (y - 1) else f;
      MidpointStep(x, y, y', f, f', r);
      ArcOnCircle(x + 1, y', r);
    }
  }

  /** One round of the loop keeps the term, and its sign picks a point on the circle. */
  lemma MidpointStep(x: int, y: int, y': int, f: int, f': int, r: int)
    requires 0 <= x < y && OnCircle(Point(x, y), r) && x * x + y * y - r * r < y && f == Midpoint(x, y, r)
    requires if f >= 0 then y' == y - 1 && f' == f - 2 * (y - 1) else y' == y && f' == f
    ensures f' + 2 * (x + 1) + 1 == Midpoint(x + 1, y', r)
    ensures OnCircle(Point(x + 1, y'), r) && (x + 1 < y' ==> (x + 1) * (x + 1) + y' * y' - r * r < y')
  {
    var g := x * x + y * y - r * r;
    assert f == g + 2 * x + 1 - y;
    assert (x + 2) * (x + 2) == (x + 1) * (x + 1) + 2 * (x + 1) + 1 && (x + 1) * (x + 1) == x * x + 2 * x + 1;
    assert (y - 1) * (y - 1) == y * y - 2 * y + 1;
  }

  /** The columns 1, 2, ... follow each other until the diagonal is reached. */
  lemma {:induction false} ArcColumns(x: int, y: int, f: int)
    ensures var a := Arc(x, y, f);
            && (forall i :: 0 <= i < |a| ==> a[i].x == x + 1 + i && a[i].x <= y && a[i].x <= a[i].y + 1 && a[i].y <= y)
            && (a != [] ==> a[|a| - 1].x >= a[|a| - 1].y)
            && (a == [] <==> x >= y)
    decreases y - x
  {
    if x < y {
      var y', f' := if f >= 0 then y - 1 else y, if f >= 0 then f - 2 * (y - 1) else f;
      ArcColumns(x + 1, y', f' + 2 * (x + 1) + 1);
    }
  }

  /** From one column to the next an arc stays as high or goes down by one. */
  lemma {:induction false} ArcDescends(x: int, y: int, f: int, i: nat)
    requires i < |Arc(x, y, f)|
    ensures var before := if i == 0 then y else Arc(x, y, f)[i - 1].y;
            before - 1 <= Arc(x, y, f)[i].y <= before
    decreases i
  {
    var y', f' := if f >= 0 then y - 1 else y, if f >= 0 then f - 2 * (y - 1) else f;
    if i > 0 {
      ArcDescends(x + 1, y', f' + 2 * (x + 1) + 1, i - 1);
    }
  }

  /** Every octant point is the pixel nearest to the circle in its column. */
  lemma OctantOnCircle(r: int)
    requires r >= 1
    ensures forall p :: p in Octant(r) ==> OnCircle(p, r)
  {
    ArcOnCircle(0, r, r);
  }

  function Four(x0: int, y0: int, x: int, y: int): seq<Point> {
    [Point(x0 + x, y0 + y), Point(x0 - x, y0 + y), Point(x0 + x, y0 - y), Point(x0 - x, y0 - y)]
  }

  /** The eight pixels of one octant point, in the order of drawCircle. */
  function Mirrors(x0: int, y0: int, p: Point): seq<Point> {
    Four(x0, y0, p.x, p.y) + Four(x0, y0, p.y, p.x)
  }

  function PairIf(b: bool, p: Point, q: Point): seq<Point> {
    if b then [p, q] else []
  }

  /** The pixels drawCircleHelper plots for one octant point, by the bits of `cornername`. */
  function Corners(x0: int, y0: int, p: Point, corner: nat): seq<Point> {
    PairIf(corner / 4 % 2 == 1, Point(x0 + p.x, y0 + p.y), Point(x0 + p.y, y0 + p.x)) +
    PairIf(corner / 2 % 2 == 1, Point(x0 + p.x, y0 - p.y), Point(x0 + p.y, y0 - p.x)) +
    PairIf(corner / 8 % 2 == 1, Point(x0 - p.y, y0 + p.x), Point(x0 - p.x, y0 + p.y)) +
    PairIf(corner % 2 == 1, Point(x0 - p.y, y0 - p.x), Point(x0 - p.x, y0 - p.y))
  }

  function AllMirrors(x0: int, y0: int, ps: seq<Point>): seq<Point> {
    if ps == [] then [] else AllMirrors(x0, y0, ps[..|ps| - 1]) + Mirrors(x0, y0, ps[|ps| - 1])
  }

  function AllCorners(x0: int, y0: int, ps: seq<Point>, corner: nat): seq<Point> {
    if ps == [] then [] else AllCorners(x0, y0, ps[..|ps| - 1], corner) + Corners(x0, y0, ps[|ps| - 1], corner)
  }

  lemma AllMirrorsGrows(base: seq<Point>, x0: int, y0: int, ps: seq<Point>, p: Point)
    ensures base + AllMirrors(x0, y0, ps + [p]) == base + AllMirrors(x0, y0, ps) + Mirrors(x0, y0, p)
  {
    hide Mirrors;
    assert (ps + [p])[..|ps + [p]| - 1] == ps;
  }

  lemma AllCornersGrows(base: seq<Point>, x0: int, y0: int, ps: seq<Point>, p: Point, corner: nat)
    ensures base + AllCorners(x0, y0, ps + [p], corner) ==
        base + AllCorners(x0, y0, ps, corner) + Corners(x0, y0, p, corner)
  {
    hide Corners;
    assert (ps + [p])[..|ps + [p]| - 1] == ps;
  }

  function Cardinals(x0: int, y0: int, r: int): seq<Point> {
    [Point(x0, y0 + r), Point(x0, y0 - r), Point(x0 + r, y0), Point(x0 - r, y0)]
  }

  function CirclePoints(x0: int, y0: int, r: int): seq<Point> {
    Cardinals(x0, y0, r) + AllMirrors(x0, y0, Octant(r))
  }

  /** A pixel whose squared distance from the centre is within its larger offset of r*r. */
  predicate NearCircle(p: Point, x0: int, y0: int, r: int) {
    var u, v := Abs(p.x - x0), Abs(p.y - y0);
    Abs(u * u + v * v - r * r) <= if u < v then v else u
  }

  lemma {:induction false} MirrorsNear(x0: int, y0: int, p: Point, r: int)
    requires p.x >= 0 && OnCircle(p, r)
    ensures forall m :: m in Mirrors(x0, y0, p) ==> NearCircle(m, x0, y0, r)
  {
    assert p.y >= 0;
    forall i | 0 <= i < 8
      ensures NearCircle(Mirrors(x0, y0, p)[i], x0, y0, r)
    {
      var m := Mirrors(x0, y0, p)[i];
      assert (Abs(m.x - x0) == p.x && Abs(m.y - y0) == p.y) || (Abs(m.x - x0) == p.y && Abs(m.y - y0) == p.x);
    }
  }

  lemma {:induction false} AllMirrorsNear(x0: int, y0: int, ps: seq<Point>, r: int)
    requires forall i :: 0 <= i < |ps| ==> ps[i].x >= 0 && OnCircle(ps[i], r)
    ensures forall m :: m in AllMirrors(x0, y0, ps) ==> NearCircle(m, x0, y0, r)
  {
    if ps != [] {
      hide NearCircle, OnCircle, Mirrors;
      AllMirrorsNear(x0, y0, ps[..|ps| - 1], r);
      MirrorsNear(x0, y0, ps[|ps| - 1], r);
    }
  }

  /** Every pixel of a circle of radius at least one lies on it. */
  lemma CircleIsRound(x0: int, y0: int, r: int)
    requires r >= 1
    ensures forall m :: m in CirclePoints(x0, y0, r) ==> NearCircle(m, x0, y0, r)
  {
    OctantOnCircle(r);
    ArcColumns(0, r, 1 - r);
    hide NearCircle, OnCircle, Arc, AllMirrors, Cardinals;
    CardinalsNear(x0, y0, r);
    AllMirrorsNear(x0, y0, Octant(r), r);
  }

  lemma CardinalsNear(x0: int, y0: int, r: int)
    requires r >= 1
    ensures forall m :: m in Cardinals(x0, y0, r) ==> NearCircle(m, x0, y0, r)
  {
    forall m | m in Cardinals(x0, y0, r)
      ensures NearCircle(m, x0, y0, r)
    {
      var u, v := Abs(m.x - x0), Abs(m.y - y0);
      assert (u == 0 && v == r) || (u == r && v == 0);
    }
  }

  /** The four corner arcs together are the circle without its four extreme pixels. */
  lemma {:induction false} FourCornersAreCircle(x0: int, y0: int, ps: seq<Point>, m: Point)
    ensures m in AllMirrors(x0, y0, ps) <==> m in AllCorners(x0, y0, ps, 15)
  {
    if ps != [] {
      hide Mirrors, Corners;
      FourCornersAreCircle(x0, y0, ps[..|ps| - 1], m);
      MirrorsAreCorners(x0, y0, ps[|ps| - 1], m);
    }
  }

  lemma MirrorsAreCorners(x0: int, y0: int, p: Point, m: Point)
    ensures m in Mirrors(x0, y0, p) <==> m in Corners(x0, y0, p, 15)
  {
    assert Corners(x0, y0, p, 15) ==
           [Point(x0 + p.x, y0 + p.y), Point(x0 + p.y, y0 + p.x), Point(x0 + p.x, y0 - p.y), Point(x0 + p.y, y0 - p.x),
            Point(x0 - p.y, y0 + p.x), Point(x0 - p.x, y0 + p.y), Point(x0 - p.y, y0 - p.x), Point(x0 - p.x, y0 - p.y)];
  }

  // ---------------------------------------------------------------- triangle

  /** Where the edge from (xa, ya) to (xb, yb) crosses scanline y: the longhand of the source's comment. */
  function Cross(a: Point, b: Point, y: int): int
    requires a.y < b.y && a.y <= y
  {
    a.x + Quot((y - a.y) * (b.x - a.x), b.y - a.y)
  }

  lemma ShareBetween(e: nat, k: nat, n: nat)
    requires k <= n && n > 0
    ensures 0 <= (e * k) / n <= e && (e * n) / n == e
  {
    TimesMonotone(k, n, e);
    TimesMonotone(0, k, e);
    var m, p := e * k, e * n;
    QuotientBound(m, n, e);
    QuotientBound(p, n, e);
  }

  lemma TruncBetween(d: int, k: nat, n: nat)
    requires k <= n && n > 0
    ensures if d >= 0 then 0 <= Quot(d * k, n) <= d else d <= Quot(d * k, n) <= 0
    ensures Quot(d * 0, n) == 0 && Quot(d * n, n) == d
  {
    if d >= 0 {
      ShareBetween(d, k, n);
    } else {
      ShareBetween(-d, k, n);
      assert (-d) * k == -(d * k) && (-d) * n == -(d * n);
    }
  }

  /** An edge crosses between its ends, and at its ends exactly there. */
  lemma CrossBetween(a: Point, b: Point, y: int)
    requires a.y < b.y && a.y <= y <= b.y
    ensures Min(a.x, b.x) <= Cross(a, b, y) <= Max(a.x, b.x)
    ensures y == a.y ==> Cross(a, b, y) == a.x
    ensures y == b.y ==> Cross(a, b, y) == b.x
  {
    TruncBetween(b.x - a.x, y - a.y, b.y - a.y);
    assert (b.x - a.x) * (y - a.y) == (y - a.y) * (b.x - a.x);
  }

  function SpanOf(a: int, b: int, y: int): Span {
    Span(Min(a, b), y, Max(a, b) - Min(a, b) + 1)
  }

  /** Vertices from top to bottom, as the three exchanges of the source leave them. */
  function Sorted(p: Point, q: Point, r: Point): (t: (Point, Point, Point))
    ensures t.0.y <= t.1.y <= t.2.y
    ensures {t.0, t.1, t.2} == {p, q, r}
  {
    var (a, b) := if p.y > q.y then (q, p) else (p, q);
    var (b', c) := if b.y > r.y then (r, b) else (b, r);
    if a.y > b'.y then (b', a, c) else (a, b', c)
  }

  /** The span of scanline y in a triangle with its vertices from top to bottom. */
  function SpanAt(a: Point, b: Point, c: Point, y: int): Span
    requires a.y <= b.y <= c.y && a.y < c.y && a.y <= y <= c.y
  {
    if y < b.y || b.y == c.y then SpanOf(Cross(a, b, y), Cross(a, c, y), y)
    else SpanOf(Cross(b, c, y), Cross(a, c, y), y)
  }

  /** The spans of the first n scanlines. */
  function SpansTo(a: Point, b: Point, c: Point, n: nat): seq<Span>
    requires a.y <= b.y <= c.y && a.y < c.y && n <= c.y - a.y + 1
  {
    seq(n, k requires 0 <= k < n => SpanAt(a, b, c, a.y + k))
  }

  function SortedSpans(a: Point, b: Point, c: Point): seq<Span>
    requires a.y <= b.y <= c.y
  {
    if a.y == c.y then [SpanOf(Min(a.x, Min(b.x, c.x)), Max(a.x, Max(b.x, c.x)), a.y)]
    else SpansTo(a, b, c, c.y - a.y + 1)
  }

  /** What fillTriangle draws. */
  function TriangleSpans(p: Point, q: Point, r: Point): seq<Span> {
    var t := Sorted(p, q, r);
    SortedSpans(t.0, t.1, t.2)
  }

  /** A span inside the x range of the vertices that goes through the vertices on its scanline. */
  predicate SpanInside(s: Span, p: Point, q: Point, r: Point) {
    && s.w >= 1
    && Min(p.x, Min(q.x, r.x)) <= s.x
    && s.x + s.w - 1 <= Max(p.x, Max(q.x, r.x))
    && forall v :: v in {p, q, r} && v.y == s.y ==> s.x <= v.x < s.x + s.w
  }

  lemma SpanOfInside(u: int, v: int, y: int, a: Point, b: Point, c: Point)
    requires Min(a.x, Min(b.x, c.x)) <= u <= Max(a.x, Max(b.x, c.x))
    requires Min(a.x, Min(b.x, c.x)) <= v <= Max(a.x, Max(b.x, c.x))
    requires (a.y == y ==> a.x in {u, v}) && (b.y == y ==> b.x in {u, v}) && (c.y == y ==> c.x in {u, v})
    ensures SpanInside(SpanOf(u, v, y), a, b, c)
  {
  }

  lemma SpanAtInside(a: Point, b: Point, c: Point, y: int)
    requires a.y <= b.y <= c.y && a.y < c.y && a.y <= y <= c.y
    ensures SpanInside(SpanAt(a, b, c, y), a, b, c)
  {
    CrossBetween(a, c, y);
    if y < b.y || b.y == c.y {
      CrossBetween(a, b, y);
      SpanOfInside(Cross(a, b, y), Cross(a, c, y), y, a, b, c);
    } else {
      CrossBetween(b, c, y);
      SpanOfInside(Cross(b, c, y), Cross(a, c, y), y, a, b, c);
    }
  }

  lemma SortedSpansInside(a: Point, b: Point, c: Point, k: nat)
    requires a.y <= b.y <= c.y && k <= c.y - a.y
    ensures SpanInside(SortedSpans(a, b, c)[k], a, b, c) && SortedSpans(a, b, c)[k].y == a.y + k
  {
    if a.y < c.y {
      SpanAtInside(a, b, c, a.y + k);
    }
  }

  /** One span per scanline, top to bottom, each inside the triangle's x range and through its vertices. */
  lemma TriangleSpansInside(p: Point, q: Point, r: Point, k: nat)
    ensures var top, bottom := Min(p.y, Min(q.y, r.y)), Max(p.y, Max(q.y, r.y));
            && |TriangleSpans(p, q, r)| == bottom - top + 1
            && (k <= bottom - top ==>
                  TriangleSpans(p, q, r)[k].y == top + k && SpanInside(TriangleSpans(p, q, r)[k], p, q, r))
  {
    var t := Sorted(p, q, r);
    if k <= t.2.y - t.0.y {
      SortedSpansInside(t.0, t.1, t.2, k);
    }
  }

  lemma SortedSpansTies(a: Point, b: Point, c: Point)
    requires a.y <= b.y <= c.y
    ensures a.y == b.y ==> SortedSpans(a, b, c) == SortedSpans(b, a, c)
    ensures b.y == c.y ==> SortedSpans(a, b, c) == SortedSpans(a, c, b)
  {
    if a.y < c.y {
      forall y | a.y <= y <= c.y
        ensures a.y == b.y ==> SpanAt(a, b, c, y) == SpanAt(b, a, c, y)
        ensures b.y == c.y ==> SpanAt(a, b, c, y) == SpanAt(a, c, b, y)
      {
      }
      assert a.y == b.y ==> SortedSpans(a, b, c) == SortedSpans(b, a, c);
    }
  }

  /** The order of the vertices does not matter: exchanging two neighbours gives the same spans. */
  lemma TriangleOrderFree(p: Point, q: Point, r: Point)
    ensures TriangleSpans(p, q, r) == TriangleSpans(q, p, r)
    ensures TriangleSpans(p, q, r) == TriangleSpans(p, r, q)
  {
    var t := Sorted(p, q, r);
    SortedSpansTies(t.0, t.1, t.2);
    var u := Sorted(q, p, r);
    SortedSpansTies(u.0, u.1, u.2);
    var v := Sorted(p, r, q);
    SortedSpansTies(v.0, v.1, v.2);
  }
}
