/** drawLine and the fast lines in the 16-bit arithmetic of the code. */
module Line {
  import opened Arith
  import opened Machine
  import opened Raster

  function PixelOf(steep: bool, x: int, y: int): Point {
    if steep then Point(y, x) else Point(x, y)
  }

  /** One round of the loop of drawLine: the place and the error term in the next column. */
  function Advance(y: int, err: int, dx: int, dy: int, ystep: int): (int, int) {
    var e := I16(err - dy);
    if e < 0 then (I16(y + ystep), I16(e + dx)) else (y, e)
  }

  /** The loop from column x on. */
  function Steps(steep: bool, x: int, x1: int, y: int, err: int, dx: int, dy: int, ystep: int): seq<Point>
    decreases x1 - x
  {
    if x > x1 then []
    else
      var (y', err') := Advance(y, err, dx, dy, ystep);
      [PixelOf(steep, x, y)] + Steps(steep, x + 1, x1, y', err', dx, dy, ystep)
  }

  function StepY(r: Run): int {
    if r.y0 < r.y1 then 1 else -1
  }

  /** The minor coordinate after s steps. */
  function Place(r: Run, s: int): int {
    if r.y0 < r.y1 then r.y0 + s else r.y0 - s
  }

  function CodeRun(r: Run): seq<Point> {
    var dx := I16(r.Dx());
    Steps(r.steep, r.x0, r.x1, r.y0, Quot(dx, 2), dx, I16(r.Dy()), StepY(r))
  }

  /** What drawLine plots. */
  function CodeLine(x0: int, y0: int, x1: int, y1: int): seq<Point> {
    CodeRun(Normal(x0, y0, x1, y1))
  }

  /** The loop along the major axis ends. */
  ghost predicate LineEnds(x0: int, y0: int, x1: int, y1: int) {
    var r := Normal(x0, y0, x1, y1);
    LoopEnds(r.x0, r.x1)
  }

  /** It does unless the line goes to the largest major coordinate there is. */
  lemma LineEndsIff(x0: int, y0: int, x1: int, y1: int)
    requires IsI16(x0) && IsI16(y0) && IsI16(x1) && IsI16(y1)
    ensures LineEnds(x0, y0, x1, y1) <==> Normal(x0, y0, x1, y1).x1 < 0x7fff
  {
    var r := Normal(x0, y0, x1, y1);
    hide LoopEnds;
    LoopEndsIff(r.x0, r.x1);
  }

  /** Eight pixels up to the right edge of the coordinates: the loop counts on at -32768. */
  lemma RightmostLineHangs()
    ensures LineFits(32760, 0, 32767, 0) && !LineEnds(32760, 0, 32767, 0)
  {
    LineEndsIff(32760, 0, 32767, 0);
  }

  /** Ends in 16 bits, the line along x from left to right. */
  predicate Proper(r: Run) {
    IsI16(r.x0) && IsI16(r.x1) && IsI16(r.y0) && IsI16(r.y1) && r.Dx() >= r.Dy()
  }

  function PointsFrom(r: Run, k: nat): seq<Point>
    requires k <= r.Dx() + 1
  {
    seq(r.Dx() + 1 - k, i requires 0 <= i => r.At(k + i))
  }

  lemma PointsFromStep(r: Run, k: nat)
    requires k <= r.Dx()
    ensures PointsFrom(r, k) == [r.At(k)] + PointsFrom(r, k + 1)
  {
    hide Run.At;
  }

  lemma PointsFromStart(r: Run)
    requires r.Dx() >= 0
    ensures PointsFrom(r, 0) == r.Points()
  {
    hide Run.At;
  }

  /** Between the ends of the line, s minor steps from y0 are a place in 16 bits. */
  lemma RungPlace(r: Run, k: nat, s: nat, err: int)
    requires Proper(r) && k <= r.Dx() && err == r.Dx() / 2 - k * r.Dy() + s * r.Dx()
    requires if r.Dx() == 0 then s == 0 else 0 <= err < r.Dx()
    ensures s <= r.Dy() && IsI16(Place(r, s)) && r.At(k) == PixelOf(r.steep, r.x0 + k, Place(r, s))
  {
    ErrorTermFindsRung(r, k, s, err);
    if r.Dx() > 0 {
      RungIsNearest(k, r.Dy(), r.Dx(), s);
      hide Rung;
      RungBounded(k, r.Dy(), r.Dx());
    }
  }

  lemma AdvanceFits(y: int, err: int, dx: int, dy: int, ystep: int)
    requires 0 <= err < dx <= 0x7fff && 0 <= dy <= dx && (err < dy ==> IsI16(y + ystep))
    ensures Advance(y, err, dx, dy, ystep) == if err < dy then (y + ystep, err - dy + dx) else (y, err - dy)
  {
    hide I16;
  }

  lemma AdvanceExact(r: Run, k: nat, s: nat, err: int)
    requires Proper(r) && r.Dx() <= 0x7fff && k < r.Dx()
    requires err == r.Dx() / 2 - k * r.Dy() + s * r.Dx() && 0 <= err < r.Dx()
    ensures var s' := if err < r.Dy() then s + 1 else s;
            var err' := if err < r.Dy() then err - r.Dy() + r.Dx() else err - r.Dy();
            && Advance(Place(r, s), err, r.Dx(), r.Dy(), StepY(r)) == (Place(r, s'), err')
            && err' == r.Dx() / 2 - (k + 1) * r.Dy() + s' * r.Dx() && 0 <= err' < r.Dx()
  {
    hide Advance, Run.At, Rung;
    NextTerm(k, r.Dy(), s, r.Dx());
    if err < r.Dy() {
      RungPlace(r, k + 1, s + 1, err - r.Dy() + r.Dx());
    }
    AdvanceFits(Place(r, s), err, r.Dx(), r.Dy(), StepY(r));
  }

  /** While nothing overflows, the loop goes on as the closed form does. */
  lemma {:induction false} StepsExact(r: Run, k: nat, s: nat, err: int)
    requires Proper(r) && r.Dx() <= 0x7fff && k <= r.Dx() && err == r.Dx() / 2 - k * r.Dy() + s * r.Dx()
    requires if r.Dx() == 0 then s == 0 else 0 <= err < r.Dx()
    ensures Steps(r.steep, r.x0 + k, r.x1, Place(r, s), err, r.Dx(), r.Dy(), StepY(r)) == PointsFrom(r, k)
    decreases r.Dx() - k
  {
    RungPlace(r, k, s, err);
    PointsFromStep(r, k);
    if k == r.Dx() {
      assert PointsFrom(r, k + 1) == [];
    }
    hide Run.At, PointsFrom, Rung, Advance, StepY, Place;
    if k < r.Dx() {
      AdvanceExact(r, k, s, err);
      StepsExact(r, k + 1, if err < r.Dy() then s + 1 else s,
        if err < r.Dy() then err - r.Dy() + r.Dx() else err - r.Dy());
    }
  }

  lemma RunExact(r: Run)
    requires Proper(r) && r.Dx() <= 0x7fff
    ensures CodeRun(r) == r.Points()
  {
    StepsExact(r, 0, 0, r.Dx() / 2);
    PointsFromStart(r);
  }

  /** The places in the second and the third column. */
  function SecondPlace(r: Run): (int, int) {
    Advance(r.y0, Quot(I16(r.Dx()), 2), I16(r.Dx()), I16(r.Dy()), StepY(r))
  }

  function ThirdPlace(r: Run): (int, int) {
    Advance(SecondPlace(r).0, SecondPlace(r).1, I16(r.Dx()), I16(r.Dy()), StepY(r))
  }

  lemma FirstColumns(r: Run)
    requires r.Dx() >= 2
    ensures |CodeRun(r)| >= 3
    ensures CodeRun(r)[1] == PixelOf(r.steep, r.x0 + 1, SecondPlace(r).0)
    ensures CodeRun(r)[2] == PixelOf(r.steep, r.x0 + 2, ThirdPlace(r).0)
  {
    hide I16, Quot, Advance;
    var dx, dy, ys := I16(r.Dx()), I16(r.Dy()), StepY(r);
    var second, third := SecondPlace(r), ThirdPlace(r);
    var rest := Steps(r.steep, r.x0 + 2, r.x1, third.0, third.1, dx, dy, ys);
    assert Steps(r.steep, r.x0 + 1, r.x1, second.0, second.1, dx, dy, ys) ==
      [PixelOf(r.steep, r.x0 + 1, second.0)] + rest;
    assert rest[0] == PixelOf(r.steep, r.x0 + 2, third.0);
  }

  /** The closed form: in the second column the line has moved if the slope is more than a half. */
  lemma SecondRung(dy: nat, dx: nat)
    requires dy <= dx && dx >= 2
    ensures Rung(1, dy, dx) == if dy > dx / 2 then 1 else 0
  {
    RungIsNearest(1, dy, dx, 0);
    RungIsNearest(1, dy, dx, 1);
  }

  lemma ThirdRung(dy: nat, dx: nat)
    requires dx >= 3 && 2 * dy == dx + 1
    ensures Rung(2, dy, dx) == 1
  {
    RungIsNearest(2, dy, dx, 1);
  }

  /**
   Of a length beyond 16 bits the sign is lost: the loop moves in the second column where it must not, or not
   where it must.
   */
  lemma WrongMove(dx: nat, dy: nat)
    requires 0x8000 <= dx <= 0xfffe && dy <= dx && 2 * dy != dx + 1
    ensures I16(Quot(I16(dx), 2) - I16(dy)) < 0 <==> dy <= dx / 2
  {
    I16Once(dx);
    I16Once(dy);
    var h := (0x1_0000 - dx) / 2;
    assert Quot(I16(dx), 2) == -h;
    I16Once(-h - I16(dy));
  }

  /** In the one tie it moves twice. */
  lemma WrongTwice(dx: nat, dy: nat)
    requires 0x8000 <= dx <= 0xfffe && 2 * dy == dx + 1
    ensures I16(Quot(I16(dx), 2) - I16(dy)) == -0x8000
    ensures I16(-0x8000 + I16(dx)) == dx - 0x8000 && I16(dx - 0x8000 - I16(dy)) < 0
  {
    I16Once(dx);
    var h := (0x1_0000 - dx) / 2;
    assert Quot(I16(dx), 2) == -h;
    I16Once(-0x8000 + I16(dx));
  }

  /** In 16 bits two places that differ by one or two steps differ. */
  lemma PlacesDiffer(y: int, ystep: int)
    requires IsI16(y) && (ystep == 1 || ystep == -1)
    ensures I16(y + ystep) != y
    ensures IsI16(y + ystep) && IsI16(y + 2 * ystep) ==> I16(I16(y + ystep) + ystep) != y + ystep
  {
    I16Once(y + ystep);
  }

  lemma SecondDiffers(r: Run)
    requires Proper(r) && 0x8000 <= r.Dx() <= 0xfffe && 2 * r.Dy() != r.Dx() + 1
    ensures PixelOf(r.steep, r.x0 + 1, SecondPlace(r).0) != r.At(1)
  {
    SecondRung(r.Dy(), r.Dx());
    WrongMove(r.Dx(), r.Dy());
    PlacesDiffer(r.y0, StepY(r));
    hide Rung, I16, Quot;
  }

  lemma ThirdDiffers(r: Run)
    requires Proper(r) && 0x8000 <= r.Dx() <= 0xfffe && 2 * r.Dy() == r.Dx() + 1
    ensures PixelOf(r.steep, r.x0 + 2, ThirdPlace(r).0) != r.At(2)
  {
    ThirdRung(r.Dy(), r.Dx());
    WrongTwice(r.Dx(), r.Dy());
    PlacesDiffer(r.y0, StepY(r));
    hide Rung, I16, Quot;
  }

  lemma RunInexact(r: Run)
    requires Proper(r) && 0x7fff < r.Dx() < 0xffff
    ensures CodeRun(r) != r.Points()
  {
    FirstColumns(r);
    assert r.Points()[1] == r.At(1) && r.Points()[2] == r.At(2);
    hide CodeRun, SecondPlace, ThirdPlace, Run.At, Run.Points;
    if 2 * r.Dy() == r.Dx() + 1 {
      ThirdDiffers(r);
    } else {
      SecondDiffers(r);
    }
  }

  /** drawLine plots the closed form if and only if the length along the major axis fits in 16 bits. */
  lemma LineExactIff(x0: int, y0: int, x1: int, y1: int)
    requires IsI16(x0) && IsI16(y0) && IsI16(x1) && IsI16(y1)
    ensures LineEnds(x0, y0, x1, y1) ==>
              (CodeLine(x0, y0, x1, y1) == LinePoints(x0, y0, x1, y1) <==> LineFits(x0, y0, x1, y1))
  {
    var r := Normal(x0, y0, x1, y1);
    assert Proper(r);
    LineEndsIff(x0, y0, x1, y1);
    hide CodeRun, Run.Points, Normal, LineEnds;
    if r.Dx() <= 0x7fff {
      RunExact(r);
    } else if r.x1 < 0x7fff {
      RunInexact(r);
    }
  }

  /** A flat line of 40001 pixels that does not stay flat. */
  lemma LongLineBends()
    ensures !LineFits(-20000, 0, 20000, 0) && CodeLine(-20000, 0, 20000, 0) != LinePoints(-20000, 0, 20000, 0)
  {
    LineEndsIff(-20000, 0, 20000, 0);
    LineExactIff(-20000, 0, 20000, 0);
  }

  /** The first pixel of a line. */
  lemma FirstPixel(r: Run)
    requires r.Dx() >= r.Dy()
    ensures CodeRun(r) != [] && CodeRun(r)[0] == PixelOf(r.steep, r.x0, r.y0)
    ensures r.Points() != [] && r.Points()[0] == PixelOf(r.steep, r.x0, r.y0)
  {
    if r.Dx() > 0 {
      RungIsNearest(0, r.Dy(), r.Dx(), 0);
    }
    hide Rung, Advance;
  }

  /** drawFastVLine computes the far end in 16 bits: what it plots is the column only if that end fits. */
  lemma ColumnExactIff(x: int, y: int, h: int)
    requires IsI16(x) && IsI16(y) && IsI16(h)
    ensures LineEnds(x, y, x, I16(y + h - 1)) ==>
              (CodeLine(x, y, x, I16(y + h - 1)) == Column(x, y, h) <==>
                IsI16(y + h - 1) && LineFits(x, y, x, y + h - 1))
  {
    I16Once(y + h - 1);
    hide I16, LineEnds;
    LineExactIff(x, y, x, I16(y + h - 1));
    if !IsI16(y + h - 1) {
      FirstPixel(Normal(x, y, x, I16(y + h - 1)));
      FirstPixel(Normal(x, y, x, y + h - 1));
      hide CodeRun, Run.Points;
    }
  }

  lemma RowExactIff(x: int, y: int, w: int)
    requires IsI16(x) && IsI16(y) && IsI16(w)
    ensures LineEnds(x, y, I16(x + w - 1), y) ==>
              (CodeLine(x, y, I16(x + w - 1), y) == Row(x, y, w) <==> IsI16(x + w - 1) && LineFits(x, y, x + w - 1, y))
  {
    I16Once(x + w - 1);
    hide I16, LineEnds;
    LineExactIff(x, y, I16(x + w - 1), y);
    if !IsI16(x + w - 1) {
      FirstPixel(Normal(x, y, I16(x + w - 1), y));
      FirstPixel(Normal(x, y, x + w - 1, y));
      hide CodeRun, Run.Points;
    }
  }

  lemma StepsUnfold(base: seq<Point>, steep: bool, x: int, x1: int, y: int, err: int, dx: int, dy: int, ystep: int)
    requires x <= x1
    ensures var (y', err') := Advance(y, err, dx, dy, ystep);
            base + Steps(steep, x, x1, y, err, dx, dy, ystep)
              == base + [PixelOf(steep, x, y)] + Steps(steep, x + 1, x1, y', err', dx, dy, ystep)
  {
    hide Advance;
  }
}
