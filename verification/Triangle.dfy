/**
 The spans of fillTriangle in the 16-bit arithmetic of the code, and the triangles for which they are the exact ones.
 */
module Triangle {
  import opened Arith
  import opened Machine
  import opened Raster
  import opened Edges
  import opened EdgePairs
  import opened Widths

  predicate IsPoint16(p: Point) {
    IsI16(p.x) && IsI16(p.y)
  }

  /** Corners from top to bottom, on more than one scanline. */
  predicate Descending(p0: Point, p1: Point, p2: Point) {
    IsPoint16(p0) && IsPoint16(p1) && IsPoint16(p2) && p0.y <= p1.y <= p2.y && p0.y < p2.y
  }

  /** Where the code has the edge from a to b on scanline y. */
  function Cross16(a: Point, b: Point, y: int): int
    requires IsPoint16(a) && IsPoint16(b) && a.y < b.y && a.y <= y
  {
    I16(a.x + Step16(b.x - a.x, b.y - a.y, y - a.y))
  }

  function Span16(a: int, b: int, y: int): Span {
    Span(Min(a, b), y, I16(Max(a, b) - Min(a, b) + 1))
  }

  /** The span the code draws on scanline y. */
  function CodeSpanAt(p0: Point, p1: Point, p2: Point, y: int): Span
    requires Descending(p0, p1, p2) && p0.y <= y <= p2.y
  {
    if y < p1.y || p1.y == p2.y then Span16(Cross16(p0, p1, y), Cross16(p0, p2, y), y)
    else Span16(Cross16(p1, p2, y), Cross16(p0, p2, y), y)
  }

  /** The first n of them. */
  function CodeSpansTo(p0: Point, p1: Point, p2: Point, n: nat): seq<Span>
    requires Descending(p0, p1, p2) && n <= p2.y - p0.y + 1
  {
    seq(n, k requires 0 <= k < n => CodeSpanAt(p0, p1, p2, p0.y + k))
  }

  lemma CodeSpansToGrows(base: seq<Span>, p0: Point, p1: Point, p2: Point, n: nat)
    requires Descending(p0, p1, p2) && n <= p2.y - p0.y
    ensures base + CodeSpansTo(p0, p1, p2, n + 1) ==
        base + CodeSpansTo(p0, p1, p2, n) + [CodeSpanAt(p0, p1, p2, p0.y + n)]
  {
    hide CodeSpanAt;
  }

  /** The one span of a triangle on a single scanline. */
  function FlatSpan(p: Point, q: Point, r: Point): Span {
    Span16(Min(p.x, Min(q.x, r.x)), Max(p.x, Max(q.x, r.x)), p.y)
  }

  function CodeSortedSpans(p0: Point, p1: Point, p2: Point): seq<Span>
    requires IsPoint16(p0) && IsPoint16(p1) && IsPoint16(p2) && p0.y <= p1.y <= p2.y
  {
    if p0.y == p2.y then [FlatSpan(p0, p1, p2)] else CodeSpansTo(p0, p1, p2, p2.y - p0.y + 1)
  }

  /** What fillTriangle draws. */
  function CodeSpans(p: Point, q: Point, r: Point): seq<Span>
    requires IsPoint16(p) && IsPoint16(q) && IsPoint16(r)
  {
    var t := Sorted(p, q, r);
    CodeSortedSpans(t.0, t.1, t.2)
  }

  // ---------------------------------------------------------------- one scanline

  /** A span is right if and only if its crossings are, up to exchange, and its width fits. */
  lemma SpanSame(a: int, b: int, a': int, b': int, y: int)
    requires IsI16(a) && IsI16(b)
    ensures Span16(I16(a'), I16(b'), y) == SpanOf(a, b, y) <==> Same(a, a', b, b')
  {
    AlikeWraps(a', a);
    AlikeWraps(a', b);
    AlikeWraps(b', a);
    AlikeWraps(b', b);
    I16Once(Max(I16(a'), I16(b')) - Min(I16(a'), I16(b')) + 1);
    hide Alike, I16;
  }

  lemma SameShift(a: int, a': int, b: int, b': int, o: int)
    ensures Same(a, a', b, b') <==> Same(o + a, o + a', o + b, o + b')
  {
    AlikeShift(a', a, o);
    AlikeShift(a', b, o);
    AlikeShift(b', a, o);
    AlikeShift(b', b, o);
    hide Alike;
  }

  lemma CrossSteps(a: Point, b: Point, y: int)
    requires IsPoint16(a) && IsPoint16(b) && a.y < b.y && a.y <= y <= b.y
    ensures Cross(a, b, y) == a.x + Step(b.x - a.x, b.y - a.y, y - a.y) && IsI16(Cross(a, b, y))
  {
    CrossBetween(a, b, y);
    hide Quot;
  }

  /** The span between two edges on a scanline that both cross. */
  lemma SpanExactIff(a: Point, b: Point, c: Point, d: Point, y: int)
    requires IsPoint16(a) && IsPoint16(b) && IsPoint16(c) && IsPoint16(d)
    requires a.y < b.y && c.y < d.y && a.y <= y <= b.y && c.y <= y <= d.y
    ensures Span16(Cross16(a, b, y), Cross16(c, d, y), y) == SpanOf(Cross(a, b, y), Cross(c, d, y), y)
      <==> Meets(b.x - a.x, b.y - a.y, y - a.y, d.x - c.x, d.y - c.y, y - c.y, c.x - a.x)
  {
    hide Cross, Step, Step16, I16, Same, Span16, SpanOf;
    CrossSteps(a, b, y);
    CrossSteps(c, d, y);
    var s, s', t, t' := Step(b.x - a.x, b.y - a.y, y - a.y), Step16(b.x - a.x, b.y - a.y, y - a.y),
      Step(d.x - c.x, d.y - c.y, y - c.y), Step16(d.x - c.x, d.y - c.y, y - c.y);
    assert Cross16(a, b, y) == I16(a.x + s') && Cross16(c, d, y) == I16(c.x + t');
    hide *;
    StepsSame(a.x, s, s', c.x, t, t', y);
  }

  lemma StepsSame(xa: int, s: int, s': int, xc: int, t: int, t': int, y: int)
    requires IsI16(xa + s) && IsI16(xc + t)
    ensures Span16(I16(xa + s'), I16(xc + t'), y) == SpanOf(xa + s, xc + t, y) <==>
        Same(s, s', xc - xa + t, xc - xa + t')
  {
    hide I16, Same, Span16, SpanOf;
    SpanSame(xa + s, xc + t, xa + s', xc + t', y);
    SameShift(s, s', xc - xa + t, xc - xa + t', xa);
    assert xa + (xc - xa + t) == xc + t && xa + (xc - xa + t') == xc + t';
  }

  /** The two edges of scanline y meet as they should. */
  predicate MeetsAt(p0: Point, p1: Point, p2: Point, y: int)
    requires Descending(p0, p1, p2) && p0.y <= y <= p2.y
  {
    if y < p1.y || p1.y == p2.y then
      Meets(p1.x - p0.x, p1.y - p0.y, y - p0.y, p2.x - p0.x, p2.y - p0.y, y - p0.y, 0)
    else
      Meets(p2.x - p1.x, p2.y - p1.y, y - p1.y, p2.x - p0.x, p2.y - p0.y, y - p0.y, p0.x - p1.x)
  }

  lemma SpanAtExactIff(p0: Point, p1: Point, p2: Point, y: int)
    requires Descending(p0, p1, p2) && p0.y <= y <= p2.y
    ensures CodeSpanAt(p0, p1, p2, y) == SpanAt(p0, p1, p2, y) <==> MeetsAt(p0, p1, p2, y)
  {
    hide Cross, Cross16, Meets, Span16, SpanOf;
    if y < p1.y || p1.y == p2.y {
      SpanExactIff(p0, p1, p0, p2, y);
    } else {
      SpanExactIff(p1, p2, p0, p2, y);
    }
  }

  // ---------------------------------------------------------------- all scanlines

  /** The last scanline of the edges 0-1 and 0-2. */
  function UpperLast(p1: Point, p2: Point): int {
    if p1.y == p2.y then p1.y else p1.y - 1
  }

  /** Every edge is one that the code follows on the scanlines it is used for. */
  predicate EdgesFit(p0: Point, p1: Point, p2: Point) {
    && (p0.y < p1.y ==> EdgeFits(p1.x - p0.x, p1.y - p0.y, UpperLast(p1, p2) - p0.y))
    && EdgeFits(p2.x - p0.x, p2.y - p0.y, p2.y - p0.y)
    && (p1.y < p2.y ==> EdgeFits(p2.x - p1.x, p2.y - p1.y, p2.y - p1.y))
  }

  /** A flat-bottomed triangle whose sides the code exchanges. */
  predicate SidesMirrored(p0: Point, p1: Point, p2: Point) {
    p1.y == p2.y && Mirrored(p1.x - p0.x, p2.x - p0.x, p2.y - p0.y)
  }

  /** No exact span is wider than an `int16_t`. */
  predicate SpansNarrow(p0: Point, p1: Point, p2: Point)
    requires p0.y <= p1.y <= p2.y && p0.y < p2.y
  {
    forall y :: p0.y <= y <= p2.y ==> SpanAt(p0, p1, p2, y).w <= 0x7fff
  }

  /** No exact span next to the middle corner is. */
  predicate MiddleNarrow(p0: Point, p1: Point, p2: Point)
    requires p0.y <= p1.y <= p2.y && p0.y < p2.y
  {
    forall y :: p1.y - 1 <= y <= p1.y + 1 && p0.y <= y <= p2.y ==> SpanAt(p0, p1, p2, y).w <= 0x7fff
  }

  /** On the scanline of the middle corner the span goes from there to the long edge. */
  lemma MiddleWidth(p0: Point, p1: Point, p2: Point)
    requires Descending(p0, p1, p2)
    ensures SpanAt(p0, p1, p2, p1.y).w - 1 == Abs(Step(p2.x - p0.x, p2.y - p0.y, p1.y - p0.y) - (p1.x - p0.x))
  {
    hide Cross, Step;
    CrossSteps(p0, p2, p1.y);
    if p1.y == p2.y {
      CrossBetween(p0, p1, p1.y);
    } else {
      CrossBetween(p1, p2, p1.y);
    }
  }

  /** Further away from it spans are as narrow. */
  lemma NarrowAway(p0: Point, p1: Point, p2: Point, y: int)
    requires Descending(p0, p1, p2) && p2.y < 0x7fff && p0.y <= y <= p2.y && !(p1.y - 1 <= y <= p1.y + 1)
    requires SpanAt(p0, p1, p2, p1.y).w <= 0x7fff
    ensures SpanAt(p0, p1, p2, y).w <= 0x7fff
  {
    MiddleWidth(p0, p1, p2);
    hide Cross, Step;
    CrossSteps(p0, p2, y);
    if y < p1.y {
      CrossSteps(p0, p1, y);
      UpperNarrow(p1.x - p0.x, p1.y - p0.y, p2.x - p0.x, p2.y - p0.y, y - p0.y);
    } else {
      CrossSteps(p1, p2, y);
      LowerNarrow(p1.x - p0.x, p1.y - p0.y, p2.x - p0.x, p2.y - p1.y, y - p1.y);
      assert p2.x - p0.x - (p1.x - p0.x) == p2.x - p1.x;
    }
  }

  /** So the scanline of the middle corner and the two beside it decide about all. */
  lemma NarrowIff(p0: Point, p1: Point, p2: Point)
    requires Descending(p0, p1, p2) && p2.y < 0x7fff
    ensures SpansNarrow(p0, p1, p2) <==> MiddleNarrow(p0, p1, p2)
  {
    hide SpanAt;
    if MiddleNarrow(p0, p1, p2) {
      assert SpanAt(p0, p1, p2, p1.y).w <= 0x7fff;
      forall y | p0.y <= y <= p2.y
        ensures SpanAt(p0, p1, p2, y).w <= 0x7fff
      {
        if !(p1.y - 1 <= y <= p1.y + 1) {
          NarrowAway(p0, p1, p2, y);
        }
      }
    }
  }

  /** One of them alone does not: here the span above the middle corner is too wide, and its own is not. */
  lemma NeighbourDecides(p0: Point, p1: Point, p2: Point)
    requires p0 == Point(-26000, -32000) && p1 == Point(-25995, 8000) && p2 == Point(26435, 32000)
    ensures SpanAt(p0, p1, p2, 8000).w == 0x7fff
    ensures SpanAt(p0, p1, p2, 7999).w == 0x8000
  {
    hide Cross, Step, Share;
    MiddleWidth(p0, p1, p2);
    StepIs(52435, 64000, 40000);
    ShareIs(40000, 52435, 64000, 32771);
    CrossSteps(p0, p1, 7999);
    CrossSteps(p0, p2, 7999);
    StepIs(52435, 64000, 39999);
    ShareIs(39999, 52435, 64000, 32771);
    StepIs(5, 40000, 39999);
    ShareIs(39999, 5, 40000, 4);
  }

  lemma AlikeMeets(dxA: int, hA: nat, kA: nat, dxB: int, hB: nat, kB: nat, o: int)
    requires 0 < hA <= 0xffff && 0 < hB <= 0xffff
    requires Alike(Step16(dxA, hA, kA), Step(dxA, hA, kA)) && Alike(Step16(dxB, hB, kB), Step(dxB, hB, kB))
    requires Abs(Step(dxA, hA, kA) - (o + Step(dxB, hB, kB))) < 0x7fff
    ensures Meets(dxA, hA, kA, dxB, hB, kB, o)
  {
    AlikeShift(Step16(dxB, hB, kB), Step(dxB, hB, kB), o);
    hide Alike, Step, Step16;
  }

  /** Edges that fit, and no wide span: each scanline is right. */
  lemma FitsMeets(p0: Point, p1: Point, p2: Point, y: int)
    requires Descending(p0, p1, p2) && p0.y <= y <= p2.y && EdgesFit(p0, p1, p2) && SpanAt(p0, p1, p2, y).w <= 0x7fff
    ensures MeetsAt(p0, p1, p2, y)
  {
    hide Cross, Step, Step16, EdgeFits, Meets;
    EdgeRight(p2.x - p0.x, p2.y - p0.y, p2.y - p0.y, y - p0.y);
    CrossSteps(p0, p2, y);
    if y < p1.y || p1.y == p2.y {
      CrossSteps(p0, p1, y);
      EdgeRight(p1.x - p0.x, p1.y - p0.y, UpperLast(p1, p2) - p0.y, y - p0.y);
      AlikeMeets(p1.x - p0.x, p1.y - p0.y, y - p0.y, p2.x - p0.x, p2.y - p0.y, y - p0.y, 0);
    } else {
      CrossSteps(p1, p2, y);
      EdgeRight(p2.x - p1.x, p2.y - p1.y, p2.y - p1.y, y - p1.y);
      AlikeMeets(p2.x - p1.x, p2.y - p1.y, y - p1.y, p2.x - p0.x, p2.y - p0.y, y - p0.y, p0.x - p1.x);
    }
  }

  lemma MirroredMeets(p0: Point, p1: Point, p2: Point, y: int)
    requires Descending(p0, p1, p2) && p0.y <= y <= p2.y
    requires SidesMirrored(p0, p1, p2) && SpanAt(p0, p1, p2, y).w <= 0x7fff
    ensures MeetsAt(p0, p1, p2, y)
  {
    hide Cross, Step, Step16, Alike;
    MirrorsMeet(p1.x - p0.x, p2.x - p0.x, p2.y - p0.y, y - p0.y);
    CrossSteps(p0, p1, y);
    CrossSteps(p0, p2, y);
    AlikeNear(Step(p1.x - p0.x, p2.y - p0.y, y - p0.y), Step(p1.x - p0.x, p2.y - p0.y, y - p0.y));
    AlikeNear(Step(p2.x - p0.x, p2.y - p0.y, y - p0.y), Step(p2.x - p0.x, p2.y - p0.y, y - p0.y));
  }

  /** A span too wide is not right on its scanline. */
  lemma MeetsNarrow(p0: Point, p1: Point, p2: Point, y: int)
    requires Descending(p0, p1, p2) && p0.y <= y <= p2.y && MeetsAt(p0, p1, p2, y)
    ensures SpanAt(p0, p1, p2, y).w <= 0x7fff
  {
    hide Cross, Step, Step16, Alike;
    CrossSteps(p0, p2, y);
    if y < p1.y || p1.y == p2.y {
      CrossSteps(p0, p1, y);
    } else {
      CrossSteps(p1, p2, y);
    }
  }

  /** A long edge that does not fit spoils a scanline. */
  lemma LongEdgeSpoils(p0: Point, p1: Point, p2: Point) returns (y: int)
    requires Descending(p0, p1, p2) && p2.y < 0x7fff && p0.y < p1.y < p2.y
    requires !EdgeFits(p2.x - p0.x, p2.y - p0.y, p2.y - p0.y)
    ensures p0.y <= y <= p2.y && !MeetsAt(p0, p1, p2, y)
  {
    hide EdgeFits, Meets, Step, Step16, Alike;
    var h, o := p2.y - p1.y, p0.x - p1.x;
    var k := LongEdge(p1.x - p0.x, p1.y - p0.y, p2.x - p0.x, p2.y - p0.y);
    y := p0.y + k;
    if k == p1.y - p0.y {
      TopRight(p2.x - p1.x, h);
      NotMet(p2.x - p1.x, h, 0, p2.x - p0.x, p2.y - p0.y, k, o);
    } else if k == p2.y - p0.y {
      StepAtBottom(p2.x - p0.x, k);
      if Meets(p2.x - p1.x, h, h, p2.x - p0.x, k, k, o) {
        BottomMeets(p2.x - p1.x, h, p2.x - p0.x, k);
      }
    }
  }

  lemma TopRight(dx: int, h: nat)
    requires -0xffff <= dx <= 0xffff && 1 <= h <= 0xffff
    ensures Alike(Step16(dx, h, 0), Step(dx, h, 0))
  {
    assert Step(dx, h, 0) == Quot(0, h) == 0;
    assert Step16(dx, h, 0) == Quot(0, I16(h)) == 0;
  }

  /** Three different heights, the long edge fits and another one does not. */
  lemma ShortEdgeSpoils(p0: Point, p1: Point, p2: Point) returns (y: int)
    requires Descending(p0, p1, p2) && p0.y < p1.y < p2.y
    requires EdgeFits(p2.x - p0.x, p2.y - p0.y, p2.y - p0.y) && !EdgesFit(p0, p1, p2)
    ensures p0.y <= y <= p2.y && !MeetsAt(p0, p1, p2, y)
  {
    hide EdgeFits, Meets, Step, Step16, Alike;
    if EdgeFits(p2.x - p1.x, p2.y - p1.y, p2.y - p1.y) {
      var k := EdgeWrong(p1.x - p0.x, p1.y - p0.y, p1.y - 1 - p0.y);
      y := p0.y + k;
      EdgeRight(p2.x - p0.x, p2.y - p0.y, p2.y - p0.y, k);
      NotMet(p1.x - p0.x, p1.y - p0.y, k, p2.x - p0.x, p2.y - p0.y, k, 0);
    } else {
      var k := EdgeWrong(p2.x - p1.x, p2.y - p1.y, p2.y - p1.y);
      y := p1.y + k;
      EdgeRight(p2.x - p0.x, p2.y - p0.y, p2.y - p0.y, y - p0.y);
      NotMet(p2.x - p1.x, p2.y - p1.y, k, p2.x - p0.x, p2.y - p0.y, y - p0.y, p0.x - p1.x);
    }
  }

  /** Any other triangle has a scanline that is not right. */
  lemma Spoilt(p0: Point, p1: Point, p2: Point) returns (y: int)
    requires Descending(p0, p1, p2) && p2.y < 0x7fff && !EdgesFit(p0, p1, p2) && !SidesMirrored(p0, p1, p2)
    ensures p0.y <= y <= p2.y && !MeetsAt(p0, p1, p2, y)
  {
    hide EdgeFits, Meets, Mirrored;
    if p1.y == p2.y {
      var k := FlatBottom(p1.x - p0.x, p2.x - p0.x, p2.y - p0.y);
      y := p0.y + k;
    } else if p0.y == p1.y {
      var k := FlatTop(p2.x - p1.x, p2.x - p0.x, p2.y - p0.y);
      y := p0.y + k;
      assert p2.x - p1.x - (p2.x - p0.x) == p0.x - p1.x;
    } else if EdgeFits(p2.x - p0.x, p2.y - p0.y, p2.y - p0.y) {
      y := ShortEdgeSpoils(p0, p1, p2);
    } else {
      y := LongEdgeSpoils(p0, p1, p2);
    }
  }

  /** Every scanline is right if and only if no span is too wide and the edges fit or are exchanged. */
  lemma ScanlinesExactIff(p0: Point, p1: Point, p2: Point)
    requires Descending(p0, p1, p2) && p2.y < 0x7fff
    ensures (forall y :: p0.y <= y <= p2.y ==> CodeSpanAt(p0, p1, p2, y) == SpanAt(p0, p1, p2, y))
      <==> SpansNarrow(p0, p1, p2) && (EdgesFit(p0, p1, p2) || SidesMirrored(p0, p1, p2))
  {
    hide CodeSpanAt, SpanAt, MeetsAt, EdgesFit, SidesMirrored;
    forall y | p0.y <= y <= p2.y
      ensures CodeSpanAt(p0, p1, p2, y) == SpanAt(p0, p1, p2, y) <==> MeetsAt(p0, p1, p2, y)
      ensures MeetsAt(p0, p1, p2, y) ==> SpanAt(p0, p1, p2, y).w <= 0x7fff
      ensures SpanAt(p0, p1, p2, y).w <= 0x7fff && (EdgesFit(p0, p1, p2) || SidesMirrored(p0, p1, p2)) ==>
          MeetsAt(p0, p1, p2, y)
    {
      ScanlineCases(p0, p1, p2, y);
    }
    if !EdgesFit(p0, p1, p2) && !SidesMirrored(p0, p1, p2) {
      var y := Spoilt(p0, p1, p2);
    }
  }

  lemma ScanlineCases(p0: Point, p1: Point, p2: Point, y: int)
    requires Descending(p0, p1, p2) && p0.y <= y <= p2.y
    ensures CodeSpanAt(p0, p1, p2, y) == SpanAt(p0, p1, p2, y) <==> MeetsAt(p0, p1, p2, y)
    ensures MeetsAt(p0, p1, p2, y) ==> SpanAt(p0, p1, p2, y).w <= 0x7fff
    ensures SpanAt(p0, p1, p2, y).w <= 0x7fff && (EdgesFit(p0, p1, p2) || SidesMirrored(p0, p1, p2)) ==>
        MeetsAt(p0, p1, p2, y)
  {
    hide CodeSpanAt, SpanAt, MeetsAt, EdgesFit, SidesMirrored;
    SpanAtExactIff(p0, p1, p2, y);
    if MeetsAt(p0, p1, p2, y) {
      MeetsNarrow(p0, p1, p2, y);
    } else if SpanAt(p0, p1, p2, y).w <= 0x7fff && EdgesFit(p0, p1, p2) {
      FitsMeets(p0, p1, p2, y);
    } else if SpanAt(p0, p1, p2, y).w <= 0x7fff && SidesMirrored(p0, p1, p2) {
      MirroredMeets(p0, p1, p2, y);
    }
  }

  // ---------------------------------------------------------------- the whole triangle

  /** The triangles that the code fills exactly. */
  predicate TriangleFits(p: Point, q: Point, r: Point) {
    var t := Sorted(p, q, r);
    if t.0.y == t.2.y then Max(p.x, Max(q.x, r.x)) - Min(p.x, Min(q.x, r.x)) < 0x7fff
    else MiddleNarrow(t.0, t.1, t.2) && (EdgesFit(t.0, t.1, t.2) || SidesMirrored(t.0, t.1, t.2))
  }

  /** Both loops end; the end of the first one is computed in 16 bits. */
  ghost predicate TriangleEnds(p: Point, q: Point, r: Point) {
    var t := Sorted(p, q, r);
    var last := I16(UpperLast(t.1, t.2));
    t.0.y == t.2.y || (LoopEnds(t.0.y, last) && LoopEnds(I16(last + 1), t.2.y))
  }

  /** They do unless a corner is on the last scanline there is, or the end of the first loop wraps around to it. */
  lemma TriangleEndsIff(p: Point, q: Point, r: Point)
    requires IsPoint16(p) && IsPoint16(q) && IsPoint16(r)
    ensures var t := Sorted(p, q, r);
            TriangleEnds(p, q, r) <==> t.0.y == t.2.y || (t.2.y < 0x7fff && t.1.y > -0x8000)
  {
    var t := Sorted(p, q, r);
    var last := I16(UpperLast(t.1, t.2));
    I16Once(UpperLast(t.1, t.2));
    hide I16, LoopEnds;
    LoopEndsIff(t.0.y, last);
    LoopEndsIff(I16(last + 1), t.2.y);
  }

  /**
   A division in one of the loops is by zero.  The first loop divides by the heights of the edges 0-1 and 0-2,
   the second one, once the first has ended, by those of 1-2 and 0-2.
   */
  ghost predicate DividesByZero(p0: Point, p1: Point, p2: Point) {
    var last := I16(UpperLast(p1, p2));
    || (p0.y <= last && (I16(p1.y - p0.y) == 0 || I16(p2.y - p0.y) == 0))
    || (LoopEnds(p0.y, last) && I16(last + 1) <= p2.y && (I16(p2.y - p1.y) == 0 || I16(p2.y - p0.y) == 0))
  }

  /**
   It is if and only if the upper two corners are on the first scanline there is: the end of the first loop
   wraps around.
   */
  lemma DividesByZeroIff(p0: Point, p1: Point, p2: Point)
    requires Descending(p0, p1, p2)
    ensures DividesByZero(p0, p1, p2) <==> p0.y == p1.y == -0x8000
  {
    var last := I16(UpperLast(p1, p2));
    I16Once(UpperLast(p1, p2));
    I16Once(p1.y - p0.y);
    I16Once(p2.y - p0.y);
    I16Once(p2.y - p1.y);
    LoopEndsIff(p0.y, last);
    hide I16, LoopEnds;
  }

  ghost predicate TriangleDividesByZero(p: Point, q: Point, r: Point) {
    var t := Sorted(p, q, r);
    t.0.y < t.2.y && DividesByZero(t.0, t.1, t.2)
  }

  /** Which triangles end, divide by zero, or do neither and go on for ever. */
  lemma TriangleEndings(p: Point, q: Point, r: Point)
    requires IsPoint16(p) && IsPoint16(q) && IsPoint16(r)
    ensures var t := Sorted(p, q, r);
            && (TriangleDividesByZero(p, q, r) <==> t.0.y == t.1.y == -0x8000 < t.2.y)
            && (TriangleEnds(p, q, r) ==> !TriangleDividesByZero(p, q, r))
            && (TriangleEnds(p, q, r) || TriangleDividesByZero(p, q, r) <==>
                t.0.y == t.2.y || t.2.y < 0x7fff || t.1.y == -0x8000)
  {
    var t := Sorted(p, q, r);
    TriangleEndsIff(p, q, r);
    hide TriangleEnds, DividesByZero;
    if t.0.y < t.2.y {
      DividesByZeroIff(t.0, t.1, t.2);
    }
  }

  lemma SpansDiffer(p0: Point, p1: Point, p2: Point)
    requires Descending(p0, p1, p2)
    ensures CodeSortedSpans(p0, p1, p2) == SortedSpans(p0, p1, p2)
      <==> forall y :: p0.y <= y <= p2.y ==> CodeSpanAt(p0, p1, p2, y) == SpanAt(p0, p1, p2, y)
  {
    hide CodeSpanAt, SpanAt;
    var c, e := CodeSortedSpans(p0, p1, p2), SortedSpans(p0, p1, p2);
    assert |c| == |e| == p2.y - p0.y + 1;
    if c == e {
      forall y | p0.y <= y <= p2.y
        ensures CodeSpanAt(p0, p1, p2, y) == SpanAt(p0, p1, p2, y)
      {
        assert c[y - p0.y] == CodeSpanAt(p0, p1, p2, y) && e[y - p0.y] == SpanAt(p0, p1, p2, y);
      }
    }
  }

  lemma FlatExactIff(p: Point, q: Point, r: Point)
    requires IsPoint16(p) && IsPoint16(q) && IsPoint16(r) && p.y == q.y == r.y
    ensures [FlatSpan(p, q, r)] == SortedSpans(p, q, r) <==> Max(p.x, Max(q.x, r.x)) - Min(p.x, Min(q.x, r.x)) < 0x7fff
  {
    I16Once(Max(p.x, Max(q.x, r.x)) - Min(p.x, Min(q.x, r.x)) + 1);
    hide I16;
  }

  /** fillTriangle draws the exact spans if and only if the triangle fits. */
  lemma TriangleExactIff(p: Point, q: Point, r: Point)
    requires IsPoint16(p) && IsPoint16(q) && IsPoint16(r)
    ensures TriangleEnds(p, q, r) ==> (CodeSpans(p, q, r) == TriangleSpans(p, q, r) <==> TriangleFits(p, q, r))
  {
    var t := Sorted(p, q, r);
    TriangleEndsIff(p, q, r);
    hide TriangleEnds, SpansNarrow, MiddleNarrow, EdgesFit, SidesMirrored, CodeSortedSpans, SortedSpans;
    if t.0.y == t.2.y {
      FlatCase(p, q, r);
    } else if t.2.y < 0x7fff {
      NarrowIff(t.0, t.1, t.2);
      SpansDiffer(t.0, t.1, t.2);
      ScanlinesExactIff(t.0, t.1, t.2);
    }
  }

  lemma FlatCase(p: Point, q: Point, r: Point)
    requires IsPoint16(p) && IsPoint16(q) && IsPoint16(r) && p.y == q.y == r.y
    ensures CodeSpans(p, q, r) == TriangleSpans(p, q, r) <==> Max(p.x, Max(q.x, r.x)) - Min(p.x, Min(q.x, r.x)) < 0x7fff
  {
    assert Sorted(p, q, r) == (p, q, r);
    assert CodeSpans(p, q, r) == [FlatSpan(p, q, r)];
    hide SortedSpans, FlatSpan;
    FlatExactIff(p, q, r);
  }

  lemma SpansInside(p0: Point, p1: Point, p2: Point)
    requires p0.y <= p1.y <= p2.y && p0.y < p2.y
    requires Max(p0.x, Max(p1.x, p2.x)) - Min(p0.x, Min(p1.x, p2.x)) < 0x7fff
    ensures MiddleNarrow(p0, p1, p2)
  {
    hide SpanAt;
    forall y | p0.y <= y <= p2.y
      ensures SpanAt(p0, p1, p2, y).w <= 0x7fff
    {
      SpanAtInside(p0, p1, p2, y);
    }
  }

  lemma SmallEdgesFit(p0: Point, p1: Point, p2: Point)
    requires Max(p0.x, Max(p1.x, p2.x)) - Min(p0.x, Min(p1.x, p2.x)) < 0x7fff && p0.y <= p1.y <= p2.y <= p0.y + 0x7fff
    ensures EdgesFit(p0, p1, p2)
  {
    hide Diagonal;
  }

  /** Above all, triangles with a width and a height in 16 bits fit. */
  lemma SmallTriangleFits(p: Point, q: Point, r: Point)
    requires Max(p.x, Max(q.x, r.x)) - Min(p.x, Min(q.x, r.x)) < 0x7fff
    requires Max(p.y, Max(q.y, r.y)) - Min(p.y, Min(q.y, r.y)) <= 0x7fff
    ensures TriangleFits(p, q, r)
  {
    var t := Sorted(p, q, r);
    if t.0.y < t.2.y {
      SpansInside(t.0, t.1, t.2);
      hide MiddleNarrow, EdgesFit;
      SmallEdgesFit(t.0, t.1, t.2);
    }
  }

  /** A sliver 40000 wide whose middle pixel is drawn far to the left of it. */
  lemma WideCrossing(p: Point, q: Point)
    requires p == Point(-20000, 0) && q == Point(20000, 2)
    ensures Cross(p, q, 1) == 0 && Cross16(p, q, 1) == -0x8000
  {
    assert I16(40000) == -25536 && I16(2) == 2;
    hide I16;
    assert Quot(1 * -25536, 2) == -12768 && Quot(1 * 40000, 2) == 20000;
    hide Quot;
  }

  lemma WideTriangleWrong(p: Point, q: Point)
    requires p == Point(-20000, 0) && q == Point(20000, 2)
    ensures CodeSpans(p, q, q) != TriangleSpans(p, q, q)
    ensures !TriangleFits(p, q, q)
  {
    hide TriangleEnds, CodeSpans, TriangleSpans, MiddleNarrow;
    TriangleEndsIff(p, q, q);
    TriangleExactIff(p, q, q);
  }

  /** A triangle higher than 16 bits that is filled exactly all the same, because its sides are exchanged. */
  lemma MirroredTriangleFits(p: Point, q: Point, r: Point)
    requires p == Point(0, -0x4000) && q == Point(-100, 0x4000) && r == Point(100, 0x4000)
    ensures CodeSpans(p, q, r) == TriangleSpans(p, q, r) && !EdgesFit(p, q, r)
  {
    SpansInside(p, q, r);
    TriangleEndsIff(p, q, r);
    assert TriangleFits(p, q, r);
    hide TriangleEnds, TriangleFits, CodeSpans, TriangleSpans;
    TriangleExactIff(p, q, r);
  }

  /** So is a diagonal that fits neither way. */
  lemma DiagonalTriangleFits(p: Point, q: Point)
    requires p == Point(-20000, -20000) && q == Point(20000, 20000)
    ensures CodeSpans(p, q, q) == TriangleSpans(p, q, q)
  {
    TriangleEndsIff(p, q, q);
    SliverNarrow(p, q);
    assert TriangleFits(p, q, q) by {
      hide MiddleNarrow;
    }
    hide TriangleEnds, TriangleFits, CodeSpans, TriangleSpans;
    TriangleExactIff(p, q, q);
  }

  lemma SliverNarrow(p: Point, q: Point)
    requires p.y < q.y
    ensures MiddleNarrow(p, q, q)
  {
    hide Cross;
  }

  /** A corner on scanline 32767: the loop counts on at -32768 and never ends. */
  lemma LowestTriangleHangs(p: Point, q: Point, r: Point)
    requires p == Point(0, 0) && q == Point(10, 5) && r == Point(20, 0x7fff)
    ensures !TriangleEnds(p, q, r) && !TriangleDividesByZero(p, q, r)
  {
    hide TriangleEnds, TriangleDividesByZero;
    TriangleEndings(p, q, r);
  }

  /** Two corners on scanline -32768: the first loop is entered, and the height of its edge is zero. */
  lemma TopmostTriangleDivides(p: Point, q: Point, r: Point)
    requires p == Point(0, -0x8000) && q == Point(10, -0x8000) && r == Point(20, 0)
    ensures TriangleDividesByZero(p, q, r)
  {
    hide TriangleEnds, TriangleDividesByZero;
    TriangleEndings(p, q, r);
  }
}
